/** What the parser makes of the writer's output, and what any stream holds that an image comes
    out of. */
module JngRoundTrip {
  import opened CArith
  import opened Chunks
  import opened MemoryStreams
  import opened PngSplice
  import opened Jng
  import opened JngMeta
  import opened JngParser

  /** The parser at a whole chunk. */
  lemma ParseAt(env: Env, bytes: seq<Byte>, s: Spot, c: Chunk)
    requires SpotOk(bytes, s) && ChunkAt(bytes, s.pos, c)
    ensures Fits(c)
    ensures WholeTurn(env, bytes, s, c).Stopped? ==> Parse(env, bytes, s) == WholeTurn(env, bytes, s, c).outcome
    ensures WholeTurn(env, bytes, s, c).Going? ==>
              SpotOk(bytes, WholeTurn(env, bytes, s, c).spot)
              && Parse(env, bytes, s) == Parse(env, bytes, WholeTurn(env, bytes, s, c).spot)
  {
    hide Turn, WholeTurn, ChunkAt, ChunkBytes;
    TurnWhole(env, bytes, s, c);
  }

  // ---------- a run of JDAT or IDAT chunks ----------

  /** What the chunk buffer holds after chunks with these payloads. */
  function LastHeld(buffer: seq<Byte>, parts: seq<seq<Byte>>): (r: seq<Byte>)
    ensures buffer != [] ==> r != []
    decreases |parts|
  {
    if parts == [] then buffer else LastHeld(Held(buffer, parts[0]), parts[1..])
  }

  /** What is collected after chunks of one name with these payloads. */
  function Appended(st: State, name: Name, parts: seq<seq<Byte>>, headerOnly: bool): State
    requires name == JDAT || name == IDAT
  {
    var st' := st.(buffer := LastHeld(st.buffer, parts));
    if parts == [] then st
    else if name == JDAT then st'.(jpeg := Some(OrEmpty(st.jpeg) + Concat(parts)))
    else if !headerOnly && st.header.alphaCompression == 0 then st'.(idat := Some(OrEmpty(st.idat) + Concat(parts)))
    else st'
  }

  lemma AppendedFirst(st: State, crc: Crc, name: Name, parts: seq<seq<Byte>>, headerOnly: bool)
    requires (name == JDAT || name == IDAT) && st.buffer != [] && parts != [] && |parts[0]| < 0x1_0000_0000
    ensures var st' := After(st, MakeChunk(crc, name, parts[0]), headerOnly);
      st'.buffer != [] && Appended(st, name, parts, headerOnly) == Appended(st', name, parts[1..], headerOnly)
  {
    hide ChunkBytes, HeaderOf;
    assert Concat(parts) == parts[0] + Concat(parts[1..]);
    assert OrEmpty(st.jpeg) + parts[0] + Concat(parts[1..]) == OrEmpty(st.jpeg) + Concat(parts);
    assert OrEmpty(st.idat) + parts[0] + Concat(parts[1..]) == OrEmpty(st.idat) + Concat(parts);
    assert parts[1..] == [] ==> Concat(parts) == parts[0];
    var next := Held(st.buffer, parts[0]);
    assert LastHeld(st.buffer, parts) == LastHeld(next, parts[1..]) && LastHeld(next, []) == next;
  }

  function StaleOf(c: Chunk): Stale {
    Stale(c.name, Swapped(BE32(c.crc)))
  }

  /** What name and CRC hold behind a list of chunks. */
  function StaleBehind(stale: Stale, cs: seq<Chunk>): Stale {
    if cs == [] then stale else StaleOf(cs[|cs| - 1])
  }

  /** One chunk of the run. */
  lemma PartTurn(env: Env, pre: seq<Byte>, c: Chunk, tail: seq<Byte>, st: State, stale: Stale)
    requires Fits(c) && (c.name == JDAT || c.name == IDAT) && st.buffer != [] && Collected(st, |pre|)
    requires c.crc == env.crc(env.crc(0, c.name), c.data) && |pre + ChunkBytes(c) + tail| <= INT_MAX
    ensures var bytes, t := pre + ChunkBytes(c) + tail,
                Spot(|pre + ChunkBytes(c)|, After(st, c, env.headerOnly), StaleOf(c));
      SpotOk(bytes, t) && Parse(env, bytes, Spot(|pre|, st, stale)) == Parse(env, bytes, t)
  {
    hide ChunkBytes, Parse, After, ChunkAt, BE32;
    var bytes := pre + ChunkBytes(c) + tail;
    PlaceOf(pre, c, tail);
    ParseAt(env, bytes, Spot(|pre|, st, stale), c);
  }

  lemma PlaceOf(pre: seq<Byte>, c: Chunk, tail: seq<Byte>)
    requires Fits(c)
    ensures ChunkAt(pre + ChunkBytes(c) + tail, |pre|, c)
  {
    hide ChunkBytes;
    var bytes := pre + ChunkBytes(c) + tail;
    assert bytes[|pre|..|pre| + |ChunkBytes(c)|] == ChunkBytes(c);
  }

  lemma {:induction false} ParseRun(env: Env, pre: seq<Byte>, name: Name, parts: seq<seq<Byte>>, tail: seq<Byte>,
                                    st: State, stale: Stale)
    requires Streaming(env.crc) && (name == JDAT || name == IDAT) && st.buffer != [] && Collected(st, |pre|)
    requires AllFit(Wrapped(env.crc, name, parts))
    requires |pre + Encode(Wrapped(env.crc, name, parts)) + tail| <= INT_MAX
    ensures var cs := Wrapped(env.crc, name, parts);
      var bytes, t := pre + Encode(cs) + tail,
          Spot(|pre + Encode(cs)|, Appended(st, name, parts, env.headerOnly), StaleBehind(stale, cs));
      SpotOk(bytes, t) && Parse(env, bytes, Spot(|pre|, st, stale)) == Parse(env, bytes, t)
    decreases |parts|
  {
    hide ChunkBytes, Encode, Parse, After, Appended, Collected, MakeChunk, StaleOf;
    if parts == [] {
      assert pre + Encode([]) == pre by { EncodeNone(); }
      assert Wrapped(env.crc, name, parts) == [];
      NoParts(st, name, env.headerOnly);
    } else {
      WrappedFirst(env.crc, name, parts);
      var c, cs := MakeChunk(env.crc, name, parts[0]), Wrapped(env.crc, name, parts[1..]);
      var rest := Encode(cs);
      MadeChunkIsGood(env.crc, name, parts[0]);
      assert pre + Encode(Wrapped(env.crc, name, parts)) + tail == pre + ChunkBytes(c) + (rest + tail);
      PartTurn(env, pre, c, rest + tail, st, stale);
      var pre' := pre + ChunkBytes(c);
      assert pre + Encode(Wrapped(env.crc, name, parts)) == pre' + rest;
      assert pre' + rest + tail == pre' + (rest + tail);
      AppendedFirst(st, env.crc, name, parts, env.headerOnly);
      assert Wrapped(env.crc, name, parts) == [c] + cs;
      ParseRun(env, pre', name, parts[1..], tail, After(st, c, env.headerOnly), StaleOf(c));
    }
  }

  lemma WrappedFirst(crc: Crc, name: Name, parts: seq<seq<Byte>>)
    requires parts != [] && AllFit(Wrapped(crc, name, parts))
    ensures var c := MakeChunk(crc, name, parts[0]);
      && c.name == name && c.data == parts[0] && Fits(c) && AllFit(Wrapped(crc, name, parts[1..]))
      && Wrapped(crc, name, parts) == [c] + Wrapped(crc, name, parts[1..])
      && Encode(Wrapped(crc, name, parts)) == ChunkBytes(c) + Encode(Wrapped(crc, name, parts[1..]))
  {
    hide ChunkBytes;
    EncodeFirst(Wrapped(crc, name, parts));
    assert Wrapped(crc, name, parts)[0] == MakeChunk(crc, name, parts[0]);
    assert Wrapped(crc, name, parts)[1..] == Wrapped(crc, name, parts[1..]);
  }

  lemma NoParts(st: State, name: Name, headerOnly: bool)
    requires name == JDAT || name == IDAT
    ensures Appended(st, name, [], headerOnly) == st
  {
  }

  // ---------- the round trip ----------

  /** The parts of the container, in stream order. */
  lemma JngParts(crc: Crc, h: Header, jpeg: seq<Byte>, idats: seq<seq<Byte>>)
    requires AllFit(JngChunks(crc, h, jpeg, idats))
    ensures AllFit(Wrapped(crc, JDAT, Pieces(jpeg))) && AllFit(Wrapped(crc, IDAT, idats))
    ensures Fits(MakeChunk(crc, JHDR, HeaderBytes(h))) && Fits(MakeChunk(crc, IEND, []))
    ensures Encode(JngChunks(crc, h, jpeg, idats))
            == ChunkBytes(MakeChunk(crc, JHDR, HeaderBytes(h))) + Encode(Wrapped(crc, JDAT, Pieces(jpeg)))
               + Encode(Wrapped(crc, IDAT, idats)) + ChunkBytes(MakeChunk(crc, IEND, []))
    ensures forall i :: 0 <= i < |idats| ==> |idats[i]| < 0x1_0000_0000
  {
    hide ChunkBytes, Encode, HeaderBytes, Pieces;
    var a, b, c, d := [MakeChunk(crc, JHDR, HeaderBytes(h))], Wrapped(crc, JDAT, Pieces(jpeg)),
        Wrapped(crc, IDAT, idats), [MakeChunk(crc, IEND, [])];
    var cs := JngChunks(crc, h, jpeg, idats);
    assert a == cs[..1] && b == cs[1..1 + |b|] && c == cs[1 + |b|..1 + |b| + |c|] && d == cs[1 + |b| + |c|..];
    EncodeConcat(a, b);
    EncodeConcat(a + b, c);
    EncodeConcat(a + b + c, d);
    EncodeOne(a[0]);
    EncodeOne(d[0]);
    assert forall i :: 0 <= i < |idats| ==> c[i].data == idats[i];
  }

  /** Six parts, grouped around the second, around the third and fourth, and around the fifth. */
  lemma Regroup<T>(a: seq<T>, b: seq<T>, c: seq<T>, d: seq<T>, e: seq<T>, f: seq<T>)
    ensures var all := a + (b + c + d + e) + f;
      && all == a + b + ((c + d) + e + f)
      && all == (a + b) + (c + d) + (e + f)
      && all == ((a + b) + (c + d)) + e + f
  {
    assert a + (b + c + d + e) == a + b + (c + d) + e;
  }

  /** What is collected before the data chunks of the container, and behind them. */
  function AfterHeader(st: State, h: Header): State {
    st.(buffer := HeaderBytes(h), header := h)
  }

  function AfterData(st: State, h: Header, jpeg: seq<Byte>, idats: seq<seq<Byte>>, headerOnly: bool): State {
    Appended(Appended(AfterHeader(st, h), JDAT, Pieces(jpeg), headerOnly), IDAT, idats, headerOnly)
  }

  lemma HeadTurn(env: Env, pre: seq<Byte>, h: Header, rest: seq<Byte>, st: State, stale: Stale)
    requires Streaming(env.crc) && Fits(MakeChunk(env.crc, JHDR, HeaderBytes(h))) && Collected(st, |pre|)
    requires |pre + ChunkBytes(MakeChunk(env.crc, JHDR, HeaderBytes(h))) + rest| <= INT_MAX
    ensures var jhdr := MakeChunk(env.crc, JHDR, HeaderBytes(h));
      var bytes, t := pre + ChunkBytes(jhdr) + rest, Spot(|pre + ChunkBytes(jhdr)|, AfterHeader(st, h), StaleOf(jhdr));
      SpotOk(bytes, t) && Parse(env, bytes, Spot(|pre|, st, stale)) == Parse(env, bytes, t)
  {
    hide ChunkBytes, Parse, HeaderBytes, HeaderOf, BE32, ChunkAt;
    var jhdr := MakeChunk(env.crc, JHDR, HeaderBytes(h));
    var bytes := pre + ChunkBytes(jhdr) + rest;
    MadeChunkIsGood(env.crc, JHDR, HeaderBytes(h));
    HeaderRoundTrip(h);
    PlaceOf(pre, jhdr, rest);
    ParseAt(env, bytes, Spot(|pre|, st, stale), jhdr);
  }

  lemma DataRuns(env: Env, pre: seq<Byte>, jpeg: seq<Byte>, idats: seq<seq<Byte>>, tail: seq<Byte>, s: Spot)
    returns (t: Spot)
    requires Streaming(env.crc) && AllFit(Wrapped(env.crc, JDAT, Pieces(jpeg))) && AllFit(Wrapped(env.crc, IDAT, idats))
    requires |pre + (Encode(Wrapped(env.crc, JDAT, Pieces(jpeg))) + Encode(Wrapped(env.crc, IDAT, idats))) + tail| <= INT_MAX
    requires s.pos == |pre| && s.st.buffer != [] && Collected(s.st, s.pos)
    ensures var run := Encode(Wrapped(env.crc, JDAT, Pieces(jpeg))) + Encode(Wrapped(env.crc, IDAT, idats));
      && t.pos == |pre + run| && SpotOk(pre + run + tail, t)
      && t.st == Appended(Appended(s.st, JDAT, Pieces(jpeg), env.headerOnly), IDAT, idats, env.headerOnly)
      && t.stale == StaleBehind(StaleBehind(s.stale, Wrapped(env.crc, JDAT, Pieces(jpeg))), Wrapped(env.crc, IDAT, idats))
      && t.st.buffer != [] && Parse(env, pre + run + tail, s) == Parse(env, pre + run + tail, t)
  {
    hide Encode, Parse, Appended, Pieces, Collected, StaleBehind;
    var jdat, idat := Encode(Wrapped(env.crc, JDAT, Pieces(jpeg))), Encode(Wrapped(env.crc, IDAT, idats));
    assert pre + (jdat + idat) + tail == pre + jdat + (idat + tail) == (pre + jdat) + idat + tail;
    assert pre + (jdat + idat) == pre + jdat + idat;
    ParseRun(env, pre, JDAT, Pieces(jpeg), idat + tail, s.st, s.stale);
    var st := Appended(s.st, JDAT, Pieces(jpeg), env.headerOnly);
    var stale := StaleBehind(s.stale, Wrapped(env.crc, JDAT, Pieces(jpeg)));
    AppendedKeeps(s.st, JDAT, Pieces(jpeg), env.headerOnly);
    ParseRun(env, pre + jdat, IDAT, idats, tail, st, stale);
    AppendedKeeps(st, IDAT, idats, env.headerOnly);
    t := Spot(|pre + (jdat + idat)|, Appended(st, IDAT, idats, env.headerOnly),
              StaleBehind(stale, Wrapped(env.crc, IDAT, idats)));
  }

  lemma AppendedKeeps(st: State, name: Name, parts: seq<seq<Byte>>, headerOnly: bool)
    requires name == JDAT || name == IDAT
    ensures var st' := Appended(st, name, parts, headerOnly);
      (st.buffer != [] ==> st'.buffer != []) && st'.header == st.header && st'.meta == st.meta
  {
  }

  lemma EndTurn(env: Env, pre: seq<Byte>, tail: seq<Byte>, s: Spot)
    requires Streaming(env.crc) && s.st.buffer != [] && s.pos == |pre| && Collected(s.st, s.pos)
    requires |pre + ChunkBytes(MakeChunk(env.crc, IEND, [])) + tail| <= INT_MAX
    ensures Parse(env, pre + ChunkBytes(MakeChunk(env.crc, IEND, [])) + tail, s)
            == ImageOf(env.crc, s.st)
  {
    hide ChunkBytes, Parse, After, ChunkAt, Alpha, BE32;
    var iend := MakeChunk(env.crc, IEND, []);
    MadeChunkIsGood(env.crc, IEND, []);
    PlaceOf(pre, iend, tail);
    ParseAt(env, pre + ChunkBytes(iend) + tail, s, iend);
  }

  /** The payloads together are shorter than their encoding. */
  lemma {:induction false} ConcatShorter(crc: Crc, parts: seq<seq<Byte>>)
    requires AllFit(Wrapped(crc, IDAT, parts))
    ensures |Concat(parts)| <= |Encode(Wrapped(crc, IDAT, parts))|
  {
    hide ChunkBytes;
    if parts != [] {
      EncodeFirst(Wrapped(crc, IDAT, parts));
      assert Wrapped(crc, IDAT, parts)[1..] == Wrapped(crc, IDAT, parts[1..]);
      ConcatShorter(crc, parts[1..]);
    }
  }

  /** Alpha payloads are collected unless only the header is wanted or their compression is unknown. */
  function AlphaOf(env: Env, h: Header, idats: seq<seq<Byte>>): Option<seq<Byte>>
    requires |Concat(idats)| < 0x1_0000_0000
  {
    if env.headerOnly || h.alphaCompression != 0 || Concat(idats) == [] then None
    else Some(AlphaStream(env.crc, h.width, h.height, h.alphaDepth, Concat(idats)))
  }

  lemma Collects(env: Env, h: Header, jpeg: seq<Byte>, idats: seq<seq<Byte>>)
    requires |Concat(idats)| < 0x1_0000_0000
    ensures var st := AfterData(INITIAL, h, jpeg, idats, env.headerOnly);
      && st.header == h && (st.jpeg.None? <==> jpeg == []) && (st.jpeg.Some? ==> st.jpeg.value == jpeg)
      && st.meta == NO_META
      && |OrEmpty(st.idat)| < 0x1_0000_0000 && Alpha(env.crc, st) == AlphaOf(env, h, idats)
  {
    hide AlphaStream, Pieces;
    PiecesJoin(jpeg);
    assert [] + jpeg == jpeg && [] + Concat(idats) == Concat(idats);
    assert Concat([]) == [];
  }

  /** What the parser makes of the writer's chunks, wherever they stand behind what the loop has not
      read, for every header: each CRC is accepted, the header comes back, and the JPEG bytes and the
      alpha payloads come back whole, whatever bytes follow and whatever name and CRC held before. */
  lemma RoundTrip(env: Env, pre: seq<Byte>, h: Header, jpeg: seq<Byte>, idats: seq<seq<Byte>>, tail: seq<Byte>,
                  stale: Stale)
    requires Streaming(env.crc) && AllFit(JngChunks(env.crc, h, jpeg, idats))
    requires |pre + Encode(JngChunks(env.crc, h, jpeg, idats)) + tail| <= INT_MAX
    ensures |Concat(idats)| < 0x1_0000_0000
    ensures Parse(env, pre + Encode(JngChunks(env.crc, h, jpeg, idats)) + tail, Spot(|pre|, INITIAL, stale))
            == if jpeg == [] then Nothing
               else
                 JngImage(h, jpeg,
                          if env.headerOnly || h.alphaCompression != 0 || Concat(idats) == [] then None
                          else Some(AlphaStream(env.crc, h.width, h.height, h.alphaDepth, Concat(idats))),
                          NO_META)
  {
    hide ChunkBytes, Encode, Parse, AfterData, JngChunks, Pieces, Concat, HeaderBytes, Wrapped, AllFit, Collected,
      MakeChunk, AlphaStream, Alpha;
    JngParts(env.crc, h, jpeg, idats);
    ConcatShorter(env.crc, idats);
    var jhdr, iend := ChunkBytes(MakeChunk(env.crc, JHDR, HeaderBytes(h))), ChunkBytes(MakeChunk(env.crc, IEND, []));
    var jdat, idat := Encode(Wrapped(env.crc, JDAT, Pieces(jpeg))), Encode(Wrapped(env.crc, IDAT, idats));
    Regroup(pre, jhdr, jdat, idat, iend, tail);
    NothingCollected(|pre|);
    HeadTurn(env, pre, h, (jdat + idat) + iend + tail, INITIAL, stale);
    var s := Spot(|pre + jhdr|, AfterHeader(INITIAL, h), StaleOf(MakeChunk(env.crc, JHDR, HeaderBytes(h))));
    var t := DataRuns(env, pre + jhdr, jpeg, idats, iend + tail, s);
    DataState(h, jpeg, idats, env.headerOnly);
    EndTurn(env, pre + jhdr + (jdat + idat), tail, t);
    Collects(env, h, jpeg, idats);
  }

  lemma NothingCollected(pos: nat)
    ensures Collected(INITIAL, pos)
  {
  }

  lemma DataState(h: Header, jpeg: seq<Byte>, idats: seq<seq<Byte>>, headerOnly: bool)
    ensures AfterData(INITIAL, h, jpeg, idats, headerOnly)
            == Appended(Appended(AfterHeader(INITIAL, h), JDAT, Pieces(jpeg), headerOnly), IDAT, idats, headerOnly)
  {
  }

  /** A container that lost its last byte: the first byte of the last data chunk's CRC takes its place.
      An image still comes out exactly if the two are the same. */
  lemma CutContainer(env: Env, h: Header, jpeg: seq<Byte>, idats: seq<seq<Byte>>, stale: Stale)
    requires Streaming(env.crc) && AllFit(JngChunks(env.crc, h, jpeg, idats)) && jpeg != []
    requires |JngBytes(env.crc, h, jpeg, idats)| <= INT_MAX
    ensures var all := JngBytes(env.crc, h, jpeg, idats);
      var bytes, data := all[..|all| - 1], Wrapped(env.crc, JDAT, Pieces(jpeg)) + Wrapped(env.crc, IDAT, idats);
      && |all| > 8 && |data| > 0 && |Concat(idats)| < 0x1_0000_0000
      && Parse(env, bytes, Spot(8, INITIAL, stale))
         == if BE32(data[|data| - 1].crc)[0] == BE32(env.crc(0, IEND))[3]
            then JngImage(h, jpeg, AlphaOf(env, h, idats), NO_META) else Bad(BadCrc)
  {
    hide ChunkBytes, Encode, Parse, AfterData, JngChunks, Concat, HeaderBytes, AllFit, Collected, AlphaOf, Alpha, BE32,
      StaleBehind;
    JngParts(env.crc, h, jpeg, idats);
    ConcatShorter(env.crc, idats);
    var jhdr, iend := ChunkBytes(MakeChunk(env.crc, JHDR, HeaderBytes(h))), ChunkBytes(MakeChunk(env.crc, IEND, []));
    var jdat, idat := Wrapped(env.crc, JDAT, Pieces(jpeg)), Wrapped(env.crc, IDAT, idats);
    var pre, run, cut := JNG_SIGNATURE + jhdr, Encode(jdat) + Encode(idat), iend[..11];
    var all := JngBytes(env.crc, h, jpeg, idats);
    var bytes := all[..|all| - 1];
    CutLast(JNG_SIGNATURE, jhdr, Encode(jdat), Encode(idat), iend);
    NothingCollected(8);
    HeadTurn(env, JNG_SIGNATURE, h, run + cut, INITIAL, stale);
    var s := Spot(|pre|, AfterHeader(INITIAL, h), StaleOf(MakeChunk(env.crc, JHDR, HeaderBytes(h))));
    var t := DataRuns(env, pre, jpeg, idats, cut, s);
    DataState(h, jpeg, idats, env.headerOnly);
    assert bytes[|pre + run|..] == cut;
    LastStale(s.stale, jdat, idat);
    CutIend(env, bytes, t);
    Collects(env, h, jpeg, idats);
  }

  lemma LastStale(stale: Stale, a: seq<Chunk>, b: seq<Chunk>)
    requires a != []
    ensures StaleBehind(StaleBehind(stale, a), b).crc[3] == BE32((a + b)[|a + b| - 1].crc)[0]
  {
    hide BE32;
  }

  lemma CutLast<T>(a: seq<T>, b: seq<T>, c: seq<T>, d: seq<T>, e: seq<T>)
    requires |e| == 12
    ensures var all := a + (b + c + d + e);
      && all[..|all| - 1] == a + b + (c + d + e[..11]) && all[..|all| - 1] == (a + b) + (c + d) + e[..11]
  {
    assert a + (b + c + d + e) == (a + b + (c + d)) + e;
  }

  // ---------- what a stream holds that an image comes out of ----------

  /** The JPEG bytes that a list of chunks carries. */
  function JpegOf(cs: seq<Chunk>): seq<Byte> {
    Concat(Named(cs, JDAT))
  }

  lemma JpegOfFirst(c: Chunk, rest: seq<Chunk>)
    ensures JpegOf([c] + rest) == JpegOf([c]) + JpegOf(rest)
    ensures JpegOf([c]) == (if c.name == JDAT then c.data else []) && JpegOf([]) == []
  {
    NamedFirst(c, rest, JDAT);
    NamedFirst(c, [], JDAT);
    assert [c] + [] == [c];
    var n := Named(rest, JDAT);
    assert ([c.data] + n)[1..] == n && [] + n == n && [c.data] + [] == [c.data];
    assert Concat([c.data]) == c.data + Concat([]);
  }

  /** The metadata behind a list of chunks, none of which makes the code read outside its buffers. */
  function MetaBehind(meta: Meta, buffer: seq<Byte>, cs: seq<Chunk>): Meta
    decreases |cs|
  {
    if cs == [] || Misreads(buffer, cs[0]) then meta
    else MetaBehind(MetaAfter(meta, buffer, cs[0]), Held(buffer, cs[0].data), cs[1..])
  }

  lemma MetaFirst(meta: Meta, buffer: seq<Byte>, c: Chunk, rest: seq<Chunk>)
    requires !Misreads(buffer, c)
    ensures MetaBehind(meta, buffer, [c] + rest)
            == MetaBehind(MetaAfter(meta, buffer, c), Held(buffer, c.data), rest)
  {
    assert ([c] + rest)[1..] == rest;
  }

  lemma NoMeta(meta: Meta, buffer: seq<Byte>, c: Chunk)
    ensures MetaBehind(meta, buffer, []) == meta
    ensures c.name == IEND ==> MetaBehind(meta, buffer, [c]) == meta
  {
    assert [c][1..] == [];
  }

  /** The CRCs pass one after the other. */
  predicate Checked(crc: Crc, buffered: bool, cs: seq<Chunk>)
    decreases |cs|
  {
    cs == [] || (CrcCheck(crc, buffered, cs[0]) == cs[0].crc && Checked(crc, buffered || cs[0].data != [], cs[1..]))
  }

  lemma CheckedFirst(crc: Crc, buffered: bool, c: Chunk, rest: seq<Chunk>)
    ensures Checked(crc, buffered, [c] + rest)
            <==> CrcCheck(crc, buffered, c) == c.crc && Checked(crc, buffered || c.data != [], rest)
    ensures Checked(crc, buffered, [])
  {
    assert ([c] + rest)[1..] == rest;
  }

  /** What was taken, and where it ended, after one more whole chunk. */
  lemma WalkStep(env: Env, bytes: seq<Byte>, s: Spot, c: Chunk)
    requires SpotOk(bytes, s) && ChunkThere(bytes, s.pos) == Some(c)
    ensures var r := Turn(env, bytes, s);
      if r.Going? then
        Taken(env, bytes, s) == [c] + Taken(env, bytes, r.spot) && Ragged(env, bytes, s) == Ragged(env, bytes, r.spot)
      else
        Taken(env, bytes, s) == (if r.outcome == Bad(BadCrc) then [] else [c]) && Ragged(env, bytes, s) == None
  {
    hide Turn, ChunkThere, ChunkAt;
    TurnWhole(env, bytes, s, c);
  }

  lemma ListStep(bytes: seq<Byte>, pos: nat, c: Chunk)
    requires ChunkThere(bytes, pos) == Some(c)
    ensures var rest := ListToEnd(bytes, pos + 12 + |c.data|);
      ListToEnd(bytes, pos)
      == if c.name == IEND then Some([c]) else if rest.None? then None else Some([c] + rest.value)
  {
    hide ChunkThere, ChunkAt;
  }

  lemma WholeImage(env: Env, bytes: seq<Byte>, s: Spot, c: Chunk)
    requires SpotOk(bytes, s) && Fits(c)
    ensures var r := WholeTurn(env, bytes, s, c);
      && (r.Stopped? && r.outcome.JngImage? ==>
            c.name == IEND && CrcCheck(env.crc, s.st.buffer != [], c) == c.crc && r.outcome.jpeg == OrEmpty(s.st.jpeg)
            && r.outcome.meta == s.st.meta)
      && (r.Going? ==>
            && c.name != IEND && CrcCheck(env.crc, s.st.buffer != [], c) == c.crc
            && r.spot.pos == s.pos + 12 + |c.data| && r.spot.st.buffer == Held(s.st.buffer, c.data)
            && !Misreads(s.st.buffer, c) && r.spot.st.meta == MetaAfter(s.st.meta, s.st.buffer, c)
            && OrEmpty(r.spot.st.jpeg) == OrEmpty(s.st.jpeg) + JpegOf([c]))
  {
    hide Alpha, PngPart, ChunkBytes, HeaderOf, CrcCheck, BE32, JpegOf;
    JpegOfFirst(c, []);
    assert OrEmpty(s.st.jpeg) + [] == OrEmpty(s.st.jpeg);
  }

  /** A parse that comes to an image where no whole chunk stands: a name was completed to IEND. */
  lemma RaggedImage(env: Env, bytes: seq<Byte>, s: Spot)
    requires SpotOk(bytes, s) && ChunkThere(bytes, s.pos).None? && Parse(env, bytes, s).JngImage?
    ensures ReadOver(bytes, Past(bytes, s.pos, 4), s.stale.name) == IEND
    ensures Parse(env, bytes, s).jpeg == OrEmpty(s.st.jpeg) && Parse(env, bytes, s).meta == s.st.meta
  {
    hide ChunkThere, Turn, FromBE32, Gather;
    ImageAtIend(env, bytes, s);
    GatherName(bytes, s.pos, s.stale);
    match Turn(env, bytes, s)
    case Stopped(_) =>
    case Going(t) =>
      TurnGoes(env, bytes, s);
      GatherRagged(bytes, s.pos, s.stale);
      GatherNothing(bytes, t.stale);
      ImageAtIend(env, bytes, t);
      if Turn(env, bytes, t).Going? {
        var u := Turn(env, bytes, t).spot;
        TurnGoes(env, bytes, t);
        GatherNothing(bytes, u.stale);
        ImageAtIend(env, bytes, u);
      }
  }

  lemma GatherName(bytes: seq<Byte>, pos: nat, stale: Stale)
    requires pos <= |bytes| <= INT_MAX && Gather(bytes, pos, stale).Some?
    ensures Gather(bytes, pos, stale).value.c.name == ReadOver(bytes, Past(bytes, pos, 4), stale.name)
  {
    hide FromBE32;
  }

  /** A turn that ends with an image took a chunk named IEND; a turn that goes on did not. */
  lemma ImageAtIend(env: Env, bytes: seq<Byte>, s: Spot)
    requires SpotOk(bytes, s)
    ensures var g, r := Gather(bytes, s.pos, s.stale), Turn(env, bytes, s);
      && (r.Stopped? && r.outcome.JngImage? ==>
            g.Some? && g.value.c.name == IEND && r.outcome.jpeg == OrEmpty(s.st.jpeg)
            && r.outcome.meta == s.st.meta)
      && (r.Going? ==> g.Some? && g.value.c.name != IEND)
  {
    hide Gather, Alpha, PngPart, ChunkBytes, HeaderOf, CrcCheck;
  }

  /** Whatever the stream: an image's JPEG bytes are the JDAT payloads of the whole chunks that the
      loop took, in order, and their CRCs passed.  These chunks are a complete list up to IEND, or no
      such list stands there and the bytes behind them were completed to an IEND by what name and CRC
      held. */
  lemma {:induction false} ParsedImage(env: Env, bytes: seq<Byte>, s: Spot)
    requires SpotOk(bytes, s) && Parse(env, bytes, s).JngImage?
    ensures var cs, r := Taken(env, bytes, s), Ragged(env, bytes, s);
      && AllFit(cs) && s.pos + |Encode(cs)| <= |bytes| && bytes[s.pos..s.pos + |Encode(cs)|] == Encode(cs)
      && Checked(env.crc, s.st.buffer != [], cs) && Parse(env, bytes, s).jpeg == OrEmpty(s.st.jpeg) + JpegOf(cs)
      && Parse(env, bytes, s).meta == MetaBehind(s.st.meta, s.st.buffer, cs)
      && (r.None? ==> ListToEnd(bytes, s.pos) == Some(cs))
      && (r.Some? ==>
            && ListToEnd(bytes, s.pos) == None && r.value.pos == s.pos + |Encode(cs)|
            && ReadOver(bytes, Past(bytes, r.value.pos, 4), r.value.stale.name) == IEND)
    decreases |bytes| - s.pos
  {
    hide Turn, WholeTurn, ChunkThere, ChunkAt, ChunkBytes, Encode, Parse, Taken, Ragged, ListToEnd, JpegOf, Checked,
      Collected, MetaBehind, MetaAfter, Misreads, ReadOver, CrcCheck;
    match ChunkThere(bytes, s.pos)
    case None =>
      NothingTaken(env, bytes, s);
      RaggedImage(env, bytes, s);
      NoMeta(s.st.meta, s.st.buffer, Chunk(IEND, [], 0));
      assert OrEmpty(s.st.jpeg) + [] == OrEmpty(s.st.jpeg);
    case Some(c) =>
      TurnWhole(env, bytes, s, c);
      ParseAt(env, bytes, s, c);
      WalkStep(env, bytes, s, c);
      WholeImage(env, bytes, s, c);
      ListStep(bytes, s.pos, c);
      OneChunk(env, bytes, s.pos, c, s.st.buffer != []);
      match Turn(env, bytes, s)
      case Stopped(_) =>
        NoMeta(s.st.meta, s.st.buffer, c);
        assert OrEmpty(s.st.jpeg) + [] == OrEmpty(s.st.jpeg);
      case Going(t) =>
        ParsedImage(env, bytes, t);
        var cs := Taken(env, bytes, t);
        MoreChunks(env, bytes, s.pos, c, cs, s.st.buffer != []);
        MetaFirst(s.st.meta, s.st.buffer, c, cs);
        var j := OrEmpty(s.st.jpeg);
        assert j + JpegOf([c]) + JpegOf(cs) == j + (JpegOf([c]) + JpegOf(cs));
  }

  lemma NothingTaken(env: Env, bytes: seq<Byte>, s: Spot)
    requires SpotOk(bytes, s) && ChunkThere(bytes, s.pos).None?
    ensures Taken(env, bytes, s) == [] && Ragged(env, bytes, s) == Some(s) && ListToEnd(bytes, s.pos) == None
    ensures Encode([]) == [] && JpegOf([]) == [] && Checked(env.crc, s.st.buffer != [], [])
  {
  }

  lemma OneChunk(env: Env, bytes: seq<Byte>, pos: nat, c: Chunk, buffered: bool)
    requires ChunkAt(bytes, pos, c)
    ensures Fits(c) && |Encode([c])| == 12 + |c.data| && pos + 12 + |c.data| <= |bytes|
    ensures bytes[pos..pos + 12 + |c.data|] == Encode([c])
    ensures CrcCheck(env.crc, buffered, c) == c.crc ==> Checked(env.crc, buffered, [c])
    ensures c.name == IEND ==> JpegOf([c]) == []
  {
    EncodeOne(c);
    JpegOfFirst(c, []);
    CheckedFirst(env.crc, buffered, c, []);
    assert [c] + [] == [c];
  }

  lemma MoreChunks(env: Env, bytes: seq<Byte>, pos: nat, c: Chunk, cs: seq<Chunk>, buffered: bool)
    requires ChunkAt(bytes, pos, c) && AllFit(cs)
    requires var next := pos + 12 + |c.data|;
      next + |Encode(cs)| <= |bytes| && bytes[next..next + |Encode(cs)|] == Encode(cs)
    ensures AllFit([c] + cs) && |Encode([c] + cs)| == 12 + |c.data| + |Encode(cs)|
    ensures bytes[pos..pos + |Encode([c] + cs)|] == Encode([c] + cs)
    ensures CrcCheck(env.crc, buffered, c) == c.crc && Checked(env.crc, buffered || c.data != [], cs) ==>
              Checked(env.crc, buffered, [c] + cs)
    ensures JpegOf([c] + cs) == JpegOf([c]) + JpegOf(cs)
  {
    hide ChunkBytes, JpegOf, Checked;
    EncodeFirst([c] + cs);
    assert ([c] + cs)[1..] == cs;
    CheckedFirst(env.crc, buffered, c, cs);
    JpegOfFirst(c, cs);
    var mid, end := pos + 12 + |c.data|, pos + 12 + |c.data| + |Encode(cs)|;
    assert bytes[pos..end] == bytes[pos..mid] + bytes[mid..end];
  }

  // ---------- CRCs before the buffer is allocated ----------

  ghost predicate AllGood(crc: Crc, cs: seq<Chunk>) {
    forall i :: 0 <= i < |cs| ==> cs[i].crc == crc(crc(0, cs[i].name), cs[i].data)
  }

  /** How many chunks come before the first one with data. */
  function LeadingEmpty(cs: seq<Chunk>): (k: nat)
    ensures k <= |cs|
    ensures forall i :: 0 <= i < k ==> cs[i].data == []
    ensures k < |cs| ==> cs[k].data != []
  {
    if cs == [] || cs[0].data != [] then 0 else 1 + LeadingEmpty(cs[1..])
  }

  lemma {:induction false} CheckedBuffered(crc: Crc, cs: seq<Chunk>)
    ensures Checked(crc, true, cs) <==> AllGood(crc, cs)
    decreases |cs|
  {
    if cs != [] {
      CheckedBuffered(crc, cs[1..]);
      assert forall i :: 0 < i < |cs| ==> cs[i] == cs[1..][i - 1];
    }
  }

  /** From a null buffer on: the leading chunks without data pass with a CRC of 0 and no other, the
      rest with the CRC of name and data. */
  lemma {:induction false} CheckedFromNull(crc: Crc, cs: seq<Chunk>)
    ensures Checked(crc, false, cs)
            <==> (forall i :: 0 <= i < LeadingEmpty(cs) ==> cs[i].crc == 0) && AllGood(crc, cs[LeadingEmpty(cs)..])
    decreases |cs|
  {
    hide AllGood;
    if cs == [] {
      CheckedBuffered(crc, []);
    } else if cs[0].data != [] {
      assert cs[0..] == cs;
      CheckedBuffered(crc, cs);
    } else {
      var k := LeadingEmpty(cs[1..]);
      CheckedFromNull(crc, cs[1..]);
      assert cs[1 + k..] == cs[1..][k..];
      assert forall i :: 0 < i < 1 + k ==> cs[i] == cs[1..][i - 1];
      assert forall i :: 0 <= i < k ==> cs[1..][i] == cs[i + 1];
    }
  }

  /** The CRCs of an image that is parsed from the start: all cover name and data, but for leading
      chunks without data, whose CRCs are 0; so all do exactly if 0 is right for those. */
  lemma ImageCrcs(env: Env, bytes: seq<Byte>, pos: nat, stale: Stale)
    requires SpotOk(bytes, Spot(pos, INITIAL, stale)) && Parse(env, bytes, Spot(pos, INITIAL, stale)).JngImage?
    requires Streaming(env.crc)
    ensures var cs := Taken(env, bytes, Spot(pos, INITIAL, stale));
      var k := LeadingEmpty(cs);
      && (forall i :: 0 <= i < k ==> cs[i].crc == 0) && AllGood(env.crc, cs[k..])
      && (AllGood(env.crc, cs) <==> forall i :: 0 <= i < k ==> env.crc(0, cs[i].name) == 0)
  {
    hide Parse, Taken, Ragged, ListToEnd, Encode, Checked, JpegOf, MetaBehind, LeadingEmpty, ReadOver, Collected;
    ParsedImage(env, bytes, Spot(pos, INITIAL, stale));
    var cs := Taken(env, bytes, Spot(pos, INITIAL, stale));
    var k := LeadingEmpty(cs);
    CheckedFromNull(env.crc, cs);
    forall i | 0 <= i < k
      ensures env.crc(env.crc(0, cs[i].name), cs[i].data) == env.crc(0, cs[i].name)
    {
      MadeChunkIsGood(env.crc, cs[i].name, []);
    }
    assert forall i :: k <= i < |cs| ==> cs[k..][i - k] == cs[i];
  }

  /** A container behind a chunk without data that neither ends nor collects anything: it is refused if
      that chunk's CRC is not 0, the right one included; if it is 0 the container is loaded, unless the
      chunk is one of metadata, which is then looked for behind a null pointer. */
  lemma LeadingChunk(env: Env, name: Name, x: Dword, h: Header, jpeg: seq<Byte>, idats: seq<seq<Byte>>, stale: Stale)
    requires Streaming(env.crc) && AllFit(JngChunks(env.crc, h, jpeg, idats)) && jpeg != []
    requires !Ends(name) && name != PLTE && name != JDAT && name != IDAT
    requires |JngBytes(env.crc, h, jpeg, idats)| + 12 <= INT_MAX
    ensures var bytes := JNG_SIGNATURE + ChunkBytes(Chunk(name, [], x)) + Encode(JngChunks(env.crc, h, jpeg, idats));
      && |Concat(idats)| < 0x1_0000_0000
      && Parse(env, bytes, Spot(8, INITIAL, stale))
         == if x != 0 then Bad(BadCrc)
            else if name == PHYS || name == BKGD || name == TEXT then Faults
            else JngImage(h, jpeg, AlphaOf(env, h, idats), NO_META)
  {
    hide ChunkBytes, Encode, Parse, JngChunks, AlphaStream, BE32, ChunkAt;
    var c, rest := Chunk(name, [], x), Encode(JngChunks(env.crc, h, jpeg, idats));
    var pre := JNG_SIGNATURE + ChunkBytes(c);
    var bytes := pre + rest;
    PlaceOf(JNG_SIGNATURE, c, rest);
    ParseAt(env, bytes, Spot(8, INITIAL, stale), c);
    assert bytes + [] == bytes;
    RoundTrip(env, pre, h, jpeg, idats, [], StaleOf(c));
  }

  /** In particular twenty bytes are enough, a signature and an empty chunk of metadata with CRC 0,
      whatever follows them. */
  lemma TwentyBytesFault(env: Env, name: Name, tail: seq<Byte>, stale: Stale)
    requires name == PHYS || name == BKGD || name == TEXT
    requires 20 + |tail| <= INT_MAX
    ensures var bytes := JNG_SIGNATURE + ChunkBytes(Chunk(name, [], 0)) + tail;
      |bytes| == 20 + |tail| && Parse(env, bytes, Spot(8, INITIAL, stale)) == Faults
  {
    hide ChunkBytes, Parse, ChunkAt, BE32;
    var c := Chunk(name, [], 0);
    PlaceOf(JNG_SIGNATURE, c, tail);
    ParseAt(env, JNG_SIGNATURE + ChunkBytes(c) + tail, Spot(8, INITIAL, stale), c);
  }
}

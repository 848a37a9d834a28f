/** What the outcomes of a parse hold, told from the stream: which chunks an embedded PNG consists of, and
    where metadata comes from. */
module JngOutcome {
  import opened CArith
  import opened Chunks
  import opened MemoryStreams
  import opened PngSplice
  import opened Jng
  import opened JngMeta
  import opened JngParser
  import opened JngRoundTrip

  // ---------- an embedded PNG ----------

  /** The last PLTE chunk of a list, or the one before it. */
  function PaletteBehind(palette: Option<seq<Byte>>, cs: seq<Chunk>): Option<seq<Byte>>
    requires AllFit(cs)
    decreases |cs|
  {
    if cs == [] then palette
    else PaletteBehind(if cs[0].name == PLTE then Some(ChunkBytes(cs[0])) else palette, cs[1..])
  }

  lemma {:induction false} NoPalette(palette: Option<seq<Byte>>, cs: seq<Chunk>)
    requires AllFit(cs) && forall i :: 0 <= i < |cs| ==> cs[i].name != PLTE
    ensures PaletteBehind(palette, cs) == palette
    decreases |cs|
  {
    if cs != [] {
      NoPalette(palette, cs[1..]);
    }
  }

  lemma {:induction false} LastPalette(palette: Option<seq<Byte>>, cs: seq<Chunk>, k: nat)
    requires AllFit(cs) && k < |cs| && cs[k].name == PLTE && forall i :: k < i < |cs| ==> cs[i].name != PLTE
    ensures PaletteBehind(palette, cs) == Some(ChunkBytes(cs[k]))
    decreases |cs|
  {
    hide ChunkBytes;
    if k == 0 {
      NoPalette(Some(ChunkBytes(cs[0])), cs[1..]);
    } else {
      LastPalette(if cs[0].name == PLTE then Some(ChunkBytes(cs[0])) else palette, cs[1..], k - 1);
    }
  }

  /** Where no whole chunk stands there is no PNG. */
  lemma TurnWithoutPng(env: Env, bytes: seq<Byte>, s: Spot)
    requires SpotOk(bytes, s) && ChunkThere(bytes, s.pos).None?
    ensures Turn(env, bytes, s).Stopped? ==> !Turn(env, bytes, s).outcome.PngImage?
    ensures Turn(env, bytes, s).Going? ==> Turn(env, bytes, s).spot.pos == |bytes|
  {
    hide ChunkThere, Gather, CrcCheck, Alpha, PlugsSafely, Plugged, Misreads, After;
    assert CountFrom(bytes, s.pos) == None;
    TurnGoes(env, bytes, s);
    if Turn(env, bytes, s).Going? {
      GatherRagged(bytes, s.pos, s.stale);
    }
  }

  lemma RaggedWithoutPng(env: Env, bytes: seq<Byte>, s: Spot)
    requires SpotOk(bytes, s) && ChunkThere(bytes, s.pos).None?
    ensures !Parse(env, bytes, s).PngImage?
  {
    hide ChunkThere, Turn;
    TurnWithoutPng(env, bytes, s);
    if Turn(env, bytes, s).Going? {
      var t := Turn(env, bytes, s).spot;
      NothingBehind(bytes);
      TurnWithoutPng(env, bytes, t);
      if Turn(env, bytes, t).Going? {
        TurnWithoutPng(env, bytes, Turn(env, bytes, t).spot);
      }
    }
  }

  lemma NothingBehind(bytes: seq<Byte>)
    ensures ChunkThere(bytes, |bytes|) == None
  {
  }

  lemma WholePng(env: Env, bytes: seq<Byte>, s: Spot, c: Chunk)
    requires SpotOk(bytes, s) && Fits(c)
    ensures var r := WholeTurn(env, bytes, s, c);
      && (r.Stopped? && r.outcome.PngImage? ==>
            c.name == IHDR && r.outcome == PngPart(env, bytes, s.pos, s.st.palette, s.st.meta))
      && (r.Going? ==>
            && c.name != IHDR && !Misreads(s.st.buffer, c) && r.spot.pos == s.pos + 12 + |c.data|
            && r.spot.st.palette == PaletteBehind(s.st.palette, [c])
            && r.spot.st.buffer == Held(s.st.buffer, c.data) && r.spot.st.meta == MetaAfter(s.st.meta, s.st.buffer, c))
  {
    hide Alpha, PngPart, ChunkBytes, HeaderOf, CrcCheck, BE32, Misreads, MetaAfter;
    assert [c][1..] == [];
  }

  /** A parse that comes to a PNG took whole chunks up to the first IHDR, and the PNG is what stands from
      there on, with the palette and the metadata of the chunks before. */
  lemma {:induction false} ParsedPng(env: Env, bytes: seq<Byte>, s: Spot)
    requires SpotOk(bytes, s) && Parse(env, bytes, s).PngImage?
    ensures var cs := Taken(env, bytes, s);
      && |cs| > 0 && AllFit(cs) && cs[|cs| - 1].name == IHDR
      && var before := cs[..|cs| - 1];
        && (forall i :: 0 <= i < |before| ==> before[i].name != IHDR)
        && s.pos + |Encode(before)| <= |bytes| && bytes[s.pos..s.pos + |Encode(before)|] == Encode(before)
        && Parse(env, bytes, s) == PngPart(env, bytes, s.pos + |Encode(before)|, PaletteBehind(s.st.palette, before),
                                           MetaBehind(s.st.meta, s.st.buffer, before))
    decreases |bytes| - s.pos
  {
    hide Turn, WholeTurn, ChunkThere, ChunkAt, ChunkBytes, Encode, Parse, Taken, Ragged, Collected, PngPart, MetaAfter,
      Misreads, PaletteBehind, MetaBehind;
    match ChunkThere(bytes, s.pos)
    case None => RaggedWithoutPng(env, bytes, s);
    case Some(c) =>
      TurnWhole(env, bytes, s, c);
      ParseAt(env, bytes, s, c);
      WalkStep(env, bytes, s, c);
      WholePng(env, bytes, s, c);
      match Turn(env, bytes, s)
      case Stopped(_) =>
        assert [c][..0] == [];
        NothingBefore(s.st);
      case Going(t) =>
        ParsedPng(env, bytes, t);
        var cs := Taken(env, bytes, t);
        var before := cs[..|cs| - 1];
        assert ([c] + cs)[..|cs|] == [c] + before;
        MoreChunks(env, bytes, s.pos, c, before, false);
        MetaFirst(s.st.meta, s.st.buffer, c, before);
        PaletteFirst(s.st.palette, c, before);
  }

  lemma NothingBefore(st: State)
    ensures Encode([]) == [] && PaletteBehind(st.palette, []) == st.palette
    ensures MetaBehind(st.meta, st.buffer, []) == st.meta
  {
  }

  lemma PaletteFirst(palette: Option<seq<Byte>>, c: Chunk, rest: seq<Chunk>)
    requires Fits(c) && AllFit(rest)
    ensures PaletteBehind(palette, [c] + rest) == PaletteBehind(PaletteBehind(palette, [c]), rest)
  {
    hide ChunkBytes;
    assert ([c] + rest)[1..] == rest && [c][1..] == [];
  }

  /** An embedded PNG as a list of chunks. */
  lemma PngPartIs(env: Env, bytes: seq<Byte>, pos: nat, palette: Option<Chunk>, meta: Meta)
    requires pos <= |bytes| && (palette.Some? ==> Fits(palette.value) && palette.value.name == PLTE)
    requires var given := if palette.None? then None else Some(ChunkBytes(palette.value));
      PngPart(env, bytes, pos, given, meta).PngImage?
    ensures var given := if palette.None? then None else Some(ChunkBytes(palette.value));
      var out, list := PngPart(env, bytes, pos, given, meta), ListToEnd(bytes, pos);
      && list.Some? && AllFit(list.value) && HeadersHave13(list.value) && out.meta == meta
      && var size := 8 + |Encode(list.value)|;
        && (size < INT_MAX ==> |out.png| >= 8 && out.png[..8] == PNG_SIGNATURE)
        && (size < INT_MAX && palette.None? ==> out.png == PNG_SIGNATURE + Encode(list.value))
        && (size < INT_MAX && palette.None? ==> ListToEnd(out.png, 8) == list)
        && (palette.Some? && 8 * size + 12 + |palette.value.data| < INT_MAX ==>
              ListToEnd(out.png, 8)
              == Some(Put(Dropped(Dropped(Dropped(list.value, PLTE), TRNS), BKGD), IDAT, palette.value)))
  {
    hide CountFrom, ListToEnd, Encode, ChunkBytes, HeadersHave13, PlugsSafely, Plugged, Put, Dropped, EndsWithIend;
    CountIsListEnd(bytes, pos);
    CountWithin(bytes, pos);
    var cs := ListToEnd(bytes, pos).value;
    EncodedFromList(bytes, pos, cs);
    var png := Emit(PNG_SIGNATURE, bytes[pos..pos + |Encode(cs)|]);
    if 8 + |Encode(cs)| < INT_MAX {
      assert png == PNG_SIGNATURE + Encode(cs) == PNG_SIGNATURE + Encode(cs) + [];
      assert Holds(png, PNG_SIGNATURE, cs, []);
      if palette.None? {
        ListOfEncoded(PNG_SIGNATURE, cs, []);
      } else {
        PluggedStart(png, PNG_SIGNATURE, cs, palette.value, env.garbage);
        if 8 * |png| + 12 + |palette.value.data| < INT_MAX {
          PluggedList(png, PNG_SIGNATURE, cs, palette.value, env.garbage);
        }
      }
    }
  }

  lemma {:induction false} LastNamed(cs: seq<Chunk>, name: Name) returns (k: nat)
    requires exists i :: 0 <= i < |cs| && cs[i].name == name
    ensures k < |cs| && cs[k].name == name && forall i :: k < i < |cs| ==> cs[i].name != name
    decreases |cs|
  {
    var n := |cs| - 1;
    if cs[n].name == name {
      k := n;
    } else {
      var i :| 0 <= i < |cs| && cs[i].name == name;
      assert cs[..n][i] == cs[i];
      k := LastNamed(cs[..n], name);
    }
  }

  /** The last chunk of the list with this name. */
  ghost predicate IsLast(cs: seq<Chunk>, name: Name, k: int) {
    0 <= k < |cs| && cs[k].name == name && forall i :: k < i < |cs| ==> cs[i].name != name
  }

  /** What a loader is given for the list behind these chunks: a signature and then, to a reader that stops
      at IEND, the list.  If there was a PLTE chunk, the list is without its first PLTE, tRNS and bKGD, and
      the last PLTE of those before stands just before its first IDAT. */
  ghost predicate IsPngOf(png: seq<Byte>, list: seq<Chunk>, before: seq<Chunk>)
    requires AllFit(list)
  {
    var size := 8 + |Encode(list)|;
    && (size < INT_MAX ==> |png| >= 8 && png[..8] == [137, 80, 78, 71, 13, 10, 26, 10])
    && (size < INT_MAX && (forall i :: 0 <= i < |before| ==> before[i].name != PLTE) ==> ListToEnd(png, 8) == Some(list))
    && (forall k :: IsLast(before, PLTE, k) && 8 * size + 12 + |before[k].data| < INT_MAX ==>
          ListToEnd(png, 8) == Some(Put(Dropped(Dropped(Dropped(list, PLTE), TRNS), BKGD), IDAT, before[k])))
  }

  lemma IsPngFromPart(env: Env, bytes: seq<Byte>, pos: nat, before: seq<Chunk>, meta: Meta)
    requires pos <= |bytes| && AllFit(before) && PngPart(env, bytes, pos, PaletteBehind(None, before), meta).PngImage?
    ensures ListToEnd(bytes, pos).Some? && AllFit(ListToEnd(bytes, pos).value)
    ensures IsPngOf(PngPart(env, bytes, pos, PaletteBehind(None, before), meta).png, ListToEnd(bytes, pos).value, before)
  {
    hide Encode, PngPart, ListToEnd, PaletteBehind, ChunkBytes, Put, Dropped, HeadersHave13;
    if exists i :: 0 <= i < |before| && before[i].name == PLTE {
      var k := LastNamed(before, PLTE);
      LastPalette(None, before, k);
      PngPartIs(env, bytes, pos, Some(before[k]), meta);
      assert forall i :: IsLast(before, PLTE, i) ==> i == k;
    } else {
      NoPalette(None, before);
      PngPartIs(env, bytes, pos, None, meta);
    }
  }

  /** The chunks stand at pos, the last one is the first IHDR among them, a list up to IEND stands from there
      on, and the PNG is that of the list. */
  ghost predicate PngStands(bytes: seq<Byte>, pos: nat, cs: seq<Chunk>, png: seq<Byte>) {
    && AllFit(cs) && IsLast(cs, IHDR, |cs| - 1)
    && var before := cs[..|cs| - 1];
      && (forall i :: 0 <= i < |before| ==> before[i].name != IHDR)
      && pos + |Encode(before)| <= |bytes| && bytes[pos..pos + |Encode(before)|] == Encode(before)
      && var list := ListToEnd(bytes, pos + |Encode(before)|);
        list.Some? && AllFit(list.value) && IsPngOf(png, list.value, before)
  }

  /** For every stream: the chunks of an embedded PNG are those from the first IHDR on, and the palette
      comes from the chunks before it. */
  lemma PngFromStream(env: Env, bytes: seq<Byte>, s: Spot)
    requires SpotOk(bytes, s) && s.st.palette.None? && Parse(env, bytes, s).PngImage?
    ensures PngStands(bytes, s.pos, Taken(env, bytes, s), Parse(env, bytes, s).png)
  {
    hide Parse, Taken, Encode, PngPart, ListToEnd, MetaBehind, PaletteBehind, IsPngOf, Collected;
    ParsedPng(env, bytes, s);
    var cs := Taken(env, bytes, s);
    var before := cs[..|cs| - 1];
    IsPngFromPart(env, bytes, s.pos + |Encode(before)|, before, MetaBehind(s.st.meta, s.st.buffer, before));
  }

  // ---------- which outcome ----------

  ghost predicate PngThere(bytes: seq<Byte>, pos: nat) {
    ListToEnd(bytes, pos).Some? && HeadersHave13(ListToEnd(bytes, pos).value)
  }

  ghost predicate Has(cs: seq<Chunk>, name: Name) {
    exists i :: 0 <= i < |cs| && cs[i].name == name
  }

  /** The last of the chunks taken decides the outcome: a JHDR of other than 16 bytes is an error, IEND gives
      an image if there was JPEG data, and IHDR gives a PNG if the stream holds one there, or a search that
      wraps if there is also a palette. */
  ghost predicate LastDecides(bytes: seq<Byte>, pos: nat, cs: seq<Chunk>, jpeg: bool, palette: bool, out: Outcome) {
    && AllFit(cs)
    && (out == Bad(BadHeader) <==> |cs| > 0 && cs[|cs| - 1].name == JHDR && |cs[|cs| - 1].data| != 16)
    && (out.JngImage? <==> |cs| > 0 && cs[|cs| - 1].name == IEND && (jpeg || Has(cs, JDAT)))
    && (out.PngImage? || out == Wraps <==>
          |cs| > 0 && cs[|cs| - 1].name == IHDR && PngThere(bytes, pos + |Encode(cs[..|cs| - 1])|))
    && (out == Wraps ==> palette || Has(cs, PLTE))
  }

  lemma LastOfOne(env: Env, bytes: seq<Byte>, s: Spot, c: Chunk)
    requires SpotOk(bytes, s) && Fits(c) && WholeTurn(env, bytes, s, c).Stopped?
    ensures var out := WholeTurn(env, bytes, s, c).outcome;
      LastDecides(bytes, s.pos, if out == Bad(BadCrc) then [] else [c], s.st.jpeg.Some?, s.st.palette.Some?, out)
  {
    hide CrcCheck, Alpha, ListToEnd, HeadersHave13, PlugsSafely, Plugged, CountFrom;
    CountIsListEnd(bytes, s.pos);
    assert [c][..0] == [] && [c][0] == c;
  }

  lemma LastOfMore(bytes: seq<Byte>, pos: nat, c: Chunk, cs: seq<Chunk>, jpeg: bool, palette: bool, out: Outcome)
    requires Fits(c) && c.name != IHDR && c.name != IEND && (c.name == JHDR ==> |c.data| == 16)
    requires LastDecides(bytes, pos + 12 + |c.data|, cs, jpeg || c.name == JDAT, palette || c.name == PLTE, out)
    ensures LastDecides(bytes, pos, [c] + cs, jpeg, palette, out)
  {
    hide ChunkBytes, PngThere, Encode;
    var all := [c] + cs;
    assert forall i :: 0 <= i < |cs| ==> all[i + 1] == cs[i];
    assert all[0] == c;
    if cs != [] {
      assert all[..|all| - 1] == [c] + cs[..|cs| - 1];
      EncodeFirst([c] + cs[..|cs| - 1]);
      assert ([c] + cs[..|cs| - 1])[1..] == cs[..|cs| - 1];
    }
  }

  lemma GoingChunk(env: Env, bytes: seq<Byte>, s: Spot, c: Chunk)
    requires SpotOk(bytes, s) && Fits(c) && WholeTurn(env, bytes, s, c).Going?
    ensures c.name != IHDR && c.name != IEND && (c.name == JHDR ==> |c.data| == 16)
    ensures var st := WholeTurn(env, bytes, s, c).spot.st;
      && WholeTurn(env, bytes, s, c).spot.pos == s.pos + 12 + |c.data|
      && st.jpeg.Some? == (s.st.jpeg.Some? || c.name == JDAT)
      && st.palette.Some? == (s.st.palette.Some? || c.name == PLTE)
  {
    hide CrcCheck, Alpha, PngPart, ChunkBytes, HeaderOf, MetaAfter, Misreads, BE32;
  }

  /** So it is for every stream of which the loop takes whole chunks only. */
  lemma {:induction false} WholeChunksDecide(env: Env, bytes: seq<Byte>, s: Spot)
    requires SpotOk(bytes, s) && Ragged(env, bytes, s).None?
    ensures LastDecides(bytes, s.pos, Taken(env, bytes, s), s.st.jpeg.Some?, s.st.palette.Some?, Parse(env, bytes, s))
    decreases |bytes| - s.pos
  {
    hide Turn, WholeTurn, ChunkAt, Parse, Taken, Ragged, LastDecides, Collected, ChunkThere;
    RaggedAtOnce(env, bytes, s);
    var c := ChunkThere(bytes, s.pos).value;
    TurnWhole(env, bytes, s, c);
    ParseAt(env, bytes, s, c);
    WalkStep(env, bytes, s, c);
    match Turn(env, bytes, s)
    case Stopped(_) =>
      LastOfOne(env, bytes, s, c);
    case Going(t) =>
      WholeChunksDecide(env, bytes, t);
      GoingChunk(env, bytes, s, c);
      LastOfMore(bytes, s.pos, c, Taken(env, bytes, t), s.st.jpeg.Some?, s.st.palette.Some?, Parse(env, bytes, s));
  }

  lemma RaggedAtOnce(env: Env, bytes: seq<Byte>, s: Spot)
    requires SpotOk(bytes, s) && Ragged(env, bytes, s).None?
    ensures ChunkThere(bytes, s.pos).Some?
  {
  }

  // ---------- where metadata comes from ----------

  /** The buffer behind a list of chunks: the data of the last one that has some. */
  function BufferBehind(buffer: seq<Byte>, cs: seq<Chunk>): seq<Byte>
    decreases |cs|
  {
    if cs == [] then buffer else BufferBehind(Held(buffer, cs[0].data), cs[1..])
  }

  lemma {:induction false} MetaConcat(meta: Meta, buffer: seq<Byte>, a: seq<Chunk>, b: seq<Chunk>)
    requires !SomeMisreads(buffer, a + b)
    ensures MetaBehind(meta, buffer, a + b) == MetaBehind(MetaBehind(meta, buffer, a), BufferBehind(buffer, a), b)
    ensures !SomeMisreads(BufferBehind(buffer, a), b)
    decreases |a|
  {
    hide Misreads, MetaAfter;
    if a == [] {
      assert a + b == b;
    } else {
      assert (a + b)[0] == a[0] && (a + b)[1..] == a[1..] + b;
      MetaConcat(MetaAfter(meta, buffer, a[0]), Held(buffer, a[0].data), a[1..], b);
    }
  }

  /** A field stays as it is behind chunks of other names. */
  lemma {:induction false} OthersKeep(meta: Meta, buffer: seq<Byte>, cs: seq<Chunk>, name: Name)
    requires !SomeMisreads(buffer, cs) && forall i :: 0 <= i < |cs| ==> cs[i].name != name
    ensures var now := MetaBehind(meta, buffer, cs);
      && (name == PHYS ==> now.resX == meta.resX && now.resY == meta.resY)
      && (name == BKGD ==> now.background == meta.background)
      && (name == TEXT ==> now.texts == meta.texts)
    decreases |cs|
  {
    hide TextPair;
    if cs != [] {
      OthersKeep(MetaAfter(meta, buffer, cs[0]), Held(buffer, cs[0].data), cs[1..], name);
    }
  }

  /** The metadata at the last chunk of a name is what this chunk makes it. */
  lemma LastMeta(meta: Meta, buffer: seq<Byte>, cs: seq<Chunk>, name: Name, k: nat)
    requires !SomeMisreads(buffer, cs) && IsLast(cs, name, k)
    ensures var before, held := MetaBehind(meta, buffer, cs[..k]), BufferBehind(buffer, cs[..k]);
      && !Misreads(held, cs[k])
      && var now, end := MetaAfter(before, held, cs[k]), MetaBehind(meta, buffer, cs);
        && (name == PHYS ==> end.resX == now.resX && end.resY == now.resY)
        && (name == BKGD ==> end.background == now.background)
        && (name == TEXT ==> end.texts == now.texts)
  {
    hide Misreads, MetaAfter;
    var a, b := cs[..k], cs[k..];
    assert cs == a + b && b[0] == cs[k] && b[1..] == cs[k + 1..];
    MetaConcat(meta, buffer, a, b);
    var before, held := MetaBehind(meta, buffer, a), BufferBehind(buffer, a);
    OthersKeep(MetaAfter(before, held, cs[k]), Held(held, cs[k].data), cs[k + 1..], name);
  }

  /** What the chunks of a list leave: the resolution and the background from the data of the last pHYs and
      bKGD chunk, if it has some. */
  lemma MetaFromData(cs: seq<Chunk>, k: nat)
    requires !SomeMisreads([], cs) && k < |cs| && cs[k].data != []
    ensures var end, d := MetaBehind(NO_META, [], cs), cs[k].data;
      && (IsLast(cs, PHYS, k) ==>
            && |d| >= 8 && end.resX == Word(d[0], d[1], d[2], d[3])
            && end.resY == Word(d[4], d[5], d[6], d[7]))
      && (IsLast(cs, BKGD, k) ==> |d| >= 6 && end.background == Some((d[1], d[3], d[5])))
  {
    hide MetaBehind, SomeMisreads, BufferBehind, TextPair, FromBE32;
    if IsLast(cs, PHYS, k) {
      LastMeta(NO_META, [], cs, PHYS, k);
      NetworkOrder(0, cs[k].data[..4]);
      NetworkOrder(0, cs[k].data[4..8]);
    }
    if IsLast(cs, BKGD, k) {
      LastMeta(NO_META, [], cs, BKGD, k);
    }
  }

  /** The text of the last tEXt chunk stands under its keyword. */
  lemma TextFromData(cs: seq<Chunk>, k: nat, key: seq<Byte>, value: seq<Byte>)
    requires !SomeMisreads([], cs) && IsLast(cs, TEXT, k)
    requires cs[k].data == key + [0] + value && 0 !in key && 0 !in value
    ensures var texts := MetaBehind(NO_META, [], cs).texts;
      key in texts && texts[key] == value
  {
    hide MetaBehind, SomeMisreads, BufferBehind, TextPair;
    LastMeta(NO_META, [], cs, TEXT, k);
    TextComesBack(key, value);
  }

  /** Without such a chunk the defaults stay. */
  lemma MetaDefaults(cs: seq<Chunk>)
    requires !SomeMisreads([], cs)
    ensures var end := MetaBehind(NO_META, [], cs);
      && (!Has(cs, PHYS) ==> end.resX == end.resY == 2835)
      && (!Has(cs, BKGD) ==> end.background == None)
      && (!Has(cs, TEXT) ==> end.texts == map[])
  {
    hide MetaBehind, SomeMisreads;
    if !Has(cs, PHYS) {
      OthersKeep(NO_META, [], cs, PHYS);
    }
    if !Has(cs, BKGD) {
      OthersKeep(NO_META, [], cs, BKGD);
    }
    if !Has(cs, TEXT) {
      OthersKeep(NO_META, [], cs, TEXT);
    }
  }

  /** The metadata of an image, for every stream parsed from the start: bytes d of the stream are the data
      of the last pHYs chunk taken, or of the last bKGD chunk. */
  lemma MetaFromStream(env: Env, bytes: seq<Byte>, pos: nat, stale: Stale, k: nat)
    requires SpotOk(bytes, Spot(pos, INITIAL, stale)) && Parse(env, bytes, Spot(pos, INITIAL, stale)).JngImage?
    requires var cs := Taken(env, bytes, Spot(pos, INITIAL, stale)); k < |cs| && cs[k].data != []
    ensures var cs := Taken(env, bytes, Spot(pos, INITIAL, stale));
      && AllFit(cs[..k])
      && MetaAt(bytes, pos + |Encode(cs[..k])| + 8, cs, k, Parse(env, bytes, Spot(pos, INITIAL, stale)).meta)
  {
    hide Parse, Taken, Ragged, ListToEnd, Encode, Checked, JpegOf, MetaBehind, SomeMisreads, ReadOver, Collected,
      MisreadsLeft;
    var s := Spot(pos, INITIAL, stale);
    ParsedImage(env, bytes, s);
    FaultsExactly(env, bytes, s);
    var cs := Taken(env, bytes, s);
    MetaFromData(cs, k);
    DataAt(bytes, pos, cs, k);
    var d, data := pos + |Encode(cs[..k])| + 8, cs[k].data;
    if |data| >= 6 {
      assert bytes[d + 1] == data[1] && bytes[d + 3] == data[3] && bytes[d + 5] == data[5];
    }
    if |data| >= 8 {
      assert bytes[d + 0] == data[0] && bytes[d + 2] == data[2] && bytes[d + 4] == data[4];
      assert bytes[d + 6] == data[6] && bytes[d + 7] == data[7];
    }
  }

  ghost predicate MetaAt(bytes: seq<Byte>, d: nat, cs: seq<Chunk>, k: nat, meta: Meta) {
    && (IsLast(cs, PHYS, k) ==>
          && d + 8 <= |bytes|
          && meta.resX == Word(bytes[d], bytes[d + 1], bytes[d + 2], bytes[d + 3])
          && meta.resY == Word(bytes[d + 4], bytes[d + 5], bytes[d + 6], bytes[d + 7]))
    && (IsLast(cs, BKGD, k) ==>
          d + 6 <= |bytes| && meta.background == Some((bytes[d + 1], bytes[d + 3], bytes[d + 5])))
  }

  /** Where the data of chunk k stands. */
  lemma DataAt(bytes: seq<Byte>, pos: nat, cs: seq<Chunk>, k: nat)
    requires AllFit(cs) && k < |cs| && pos + |Encode(cs)| <= |bytes| && bytes[pos..pos + |Encode(cs)|] == Encode(cs)
    ensures AllFit(cs[..k])
    ensures var d := pos + |Encode(cs[..k])| + 8;
      d + |cs[k].data| <= |bytes| && forall i :: 0 <= i < |cs[k].data| ==> bytes[d + i] == cs[k].data[i]
  {
    hide Encode, ChunkBytes, ChunkAt;
    var pre, tail := bytes[..pos], bytes[pos + |Encode(cs)|..];
    assert bytes == pre + Encode(cs) + tail;
    ChunkInStream(pre, cs, tail, k);
    ChunkAtFits(bytes, pos + |Encode(cs[..k])|, cs[k]);
    FieldsAt(bytes, pos + |Encode(cs[..k])|, cs[k]);
    var d, n := pos + |Encode(cs[..k])| + 8, |cs[k].data|;
    var data := bytes[d..d + n];
    assert forall i :: 0 <= i < n ==> data[i] == bytes[d + i];
  }

  // ---------- refusals ----------

  /** A chunk whose data goes beyond the end of the file is refused, whatever its name. */
  lemma CutDataIsRefused(env: Env, bytes: seq<Byte>, s: Spot)
    requires SpotOk(bytes, s) && s.pos + 8 <= |bytes|
    requires LengthAt(bytes, s.pos) > 0 && s.pos + 8 + LengthAt(bytes, s.pos) > |bytes|
    ensures Parse(env, bytes, s) == Bad(UnexpectedEnd)
  {
    hide FromBE32;
    assert ReadOver(bytes, s.pos, [0, 0, 0, 0]) == bytes[s.pos..s.pos + 4];
  }

  /** A whole chunk with data is refused exactly if its CRC is not that of its name and data. */
  lemma WrongCrcIsRefused(env: Env, bytes: seq<Byte>, s: Spot, c: Chunk)
    requires SpotOk(bytes, s) && ChunkAt(bytes, s.pos, c) && (c.data != [] || s.st.buffer != [])
    ensures c.crc != env.crc(env.crc(0, c.name), c.data) ==> Parse(env, bytes, s) == Bad(BadCrc)
    ensures c.crc == env.crc(env.crc(0, c.name), c.data) ==> Turn(env, bytes, s) != Stopped(Bad(BadCrc))
  {
    hide Turn, ChunkAt, PngPart, Alpha, After, Misreads;
    TurnWhole(env, bytes, s, c);
  }
}

/** The parser of chunk streams as values: one turn of its loop, runs of turns, and exactly when the
    loop ends.

    Reads at the end of the stream are short and leave the rest of a variable as it was, so name and
    CRC are part of a turn's state.  The CRC variable is swapped in place after each read; the model
    is the little-endian build, where its bytes in memory are then reversed. */
module JngParser {
  import opened CArith
  import opened Chunks
  import opened MemoryStreams
  import opened PngSplice
  import opened Jng
  import opened JngMeta

  /** What a parse depends on besides the stream: the CRC routine, the loading flag, and what the
      buffers hold that are allocated while a palette is plugged in. */
  datatype Env = Env(crc: Crc, headerOnly: bool, garbage: nat -> nat -> Byte)

  datatype Error = UnexpectedEnd | BadCrc | BadHeader

  datatype Outcome =
    | Bad(error: Error)
    | Nothing                                       // the loop ends without an image
    | PngImage(png: seq<Byte>, meta: Meta)
    | JngImage(header: Header, jpeg: seq<Byte>, alpha: Option<seq<Byte>>, meta: Meta)
    | Hangs                                         // the loop does not end
    | Faults                                        // a metadata chunk makes it read outside its buffers
    | Wraps                                         // a chunk search meets a length that wraps

  /** What the chunk buffer holds, empty while it is a null pointer, and what was collected: the last
      JHDR, the payloads, the last PLTE chunk, and the metadata. */
  datatype State = State(buffer: seq<Byte>, header: Header, jpeg: Option<seq<Byte>>, idat: Option<seq<Byte>>,
                         palette: Option<seq<Byte>>, meta: Meta)

  const INITIAL := State([], Header(0, 0, 0, 0, 0, 0, 0, 0, 0, 0), None, None, None, NO_META)

  /** The bytes that the name and the CRC variable hold before a turn. */
  datatype Stale = Stale(name: Name, crc: Name)

  datatype Spot = Spot(pos: nat, st: State, stale: Stale)

  datatype Run = Going(spot: Spot) | Stopped(outcome: Outcome)

  function OrEmpty(s: Option<seq<Byte>>): seq<Byte> {
    if s.Some? then s.value else []
  }

  /** What was collected came from before pos. */
  predicate Collected(st: State, pos: nat) {
    |OrEmpty(st.jpeg)| <= pos && |OrEmpty(st.idat)| <= pos
  }

  predicate SpotOk(bytes: seq<Byte>, s: Spot) {
    s.pos <= |bytes| <= INT_MAX && Collected(s.st, s.pos)
  }

  // ---------- reads that may be short ----------

  function Past(bytes: seq<Byte>, pos: nat, n: nat): (p: nat)
    ensures p <= |bytes|
  {
    Min(pos + n, |bytes|)
  }

  /** Four bytes of a variable after a read at pos. */
  function ReadOver(bytes: seq<Byte>, pos: nat, before: Name): Name
    requires pos <= |bytes|
  {
    bytes[pos..Past(bytes, pos, 4)] + before[Past(bytes, pos, 4) - pos..]
  }

  function Swapped(m: Name): Name {
    [m[3], m[2], m[1], m[0]]
  }

  /** What a turn reads: the chunk, the CRC variable's bytes before the swap, the position behind. */
  datatype Gathered = Gathered(c: Chunk, crcBytes: Name, next: nat)

  function Gather(bytes: seq<Byte>, pos: nat, stale: Stale): (g: Option<Gathered>)
    requires pos <= |bytes| <= INT_MAX
    ensures g.Some? ==> Fits(g.value.c) && pos <= g.value.next <= |bytes| && pos + |g.value.c.data| <= g.value.next
    ensures g.Some? && pos < |bytes| ==> pos < g.value.next
    ensures g.Some? ==> g.value.c.data == [] || pos + 8 + |g.value.c.data| <= |bytes|
  {
    var n := FromBE32(ReadOver(bytes, pos, [0, 0, 0, 0]));
    var p1 := Past(bytes, pos, 4);
    var p2 := Past(bytes, p1, 4);
    if n > 0 && p2 + n > |bytes| then None
    else
      var crcBytes := ReadOver(bytes, p2 + n, stale.crc);
      Some(Gathered(Chunk(ReadOver(bytes, p1, stale.name), bytes[p2..p2 + n], FromBE32(crcBytes)), crcBytes,
                    Past(bytes, p2 + n, 4)))
  }

  // ---------- one turn ----------

  /** The CRC the parser computes.  While its buffer is a null pointer, an empty chunk makes zlib
      start over at 0. */
  function CrcCheck(crc: Crc, buffered: bool, c: Chunk): Dword {
    if c.data == [] && !buffered then 0 else crc(crc(0, c.name), c.data)
  }

  /** The chunk ends the loop with this outcome. */
  function Final(env: Env, bytes: seq<Byte>, s: Spot, c: Chunk): Option<Outcome>
    requires SpotOk(bytes, s)
  {
    if c.name == MEND then Some(Nothing)
    else if c.name == IHDR then Some(PngPart(env, bytes, s.pos, s.st.palette, s.st.meta))
    else if c.name == JHDR && |c.data| != 16 then Some(Bad(BadHeader))
    else if c.name == IEND then Some(ImageOf(env.crc, s.st))
    else if Misreads(s.st.buffer, c) then Some(Faults)
    else None
  }

  /** What is collected at IEND. */
  function ImageOf(crc: Crc, st: State): (r: Outcome)
    requires |OrEmpty(st.idat)| < 0x1_0000_0000
    ensures r.Nothing? <==> st.jpeg.None?
    ensures r.Nothing? || (r.JngImage? && r.header == st.header && Some(r.jpeg) == st.jpeg && r.meta == st.meta)
  {
    if st.jpeg.None? then Nothing else JngImage(st.header, st.jpeg.value, Alpha(crc, st), st.meta)
  }

  /** An embedded PNG: the chunks from IHDR to IEND behind a signature, with a global palette plugged
      in if there was one. */
  function PngPart(env: Env, bytes: seq<Byte>, pos: nat, palette: Option<seq<Byte>>, meta: Meta): (r: Outcome)
    requires pos <= |bytes|
    ensures r.Nothing? || r.PngImage? || r.Wraps?
  {
    match CountFrom(bytes, pos)
    case None => Nothing
    case Some(end) =>
      CountWithin(bytes, pos);
      var png := Emit(PNG_SIGNATURE, bytes[pos..end]);
      if palette.None? then PngImage(png, meta)
      else if PlugsSafely(png, env.garbage) then PngImage(Plugged(png, palette.value, env.garbage), meta)
      else Wraps
  }

  function Alpha(crc: Crc, st: State): Option<seq<Byte>>
    requires |OrEmpty(st.idat)| < 0x1_0000_0000
  {
    if OrEmpty(st.idat) == [] then None
    else Some(AlphaStream(crc, st.header.width, st.header.height, st.header.alphaDepth, st.idat.value))
  }

  /** The chunk is none at which the code gives up or reads outside its buffers. */
  predicate Usable(st: State, c: Chunk) {
    Fits(c) && (c.name == JHDR ==> |c.data| == 16) && !Misreads(st.buffer, c)
  }

  /** What is collected after a chunk that does not end the loop. */
  function After(st: State, c: Chunk, headerOnly: bool): State
    requires Usable(st, c)
  {
    var st' := st.(buffer := Held(st.buffer, c.data), meta := MetaAfter(st.meta, st.buffer, c));
    if c.name == PLTE then st'.(palette := Some(ChunkBytes(c)))
    else if c.name == JHDR then st'.(header := HeaderOf(c.data))
    else if c.name == JDAT then st'.(jpeg := Some(OrEmpty(st.jpeg) + c.data))
    else if c.name == IDAT && !headerOnly && st.header.alphaCompression == 0 then
      st'.(idat := Some(OrEmpty(st.idat) + c.data))
    else st'
  }

  lemma AfterCollected(st: State, c: Chunk, headerOnly: bool, pos: nat, next: nat)
    requires Collected(st, pos) && Usable(st, c) && pos + |c.data| <= next
    ensures Collected(After(st, c, headerOnly), next)
  {
    hide ChunkBytes, HeaderOf, MetaAfter, Misreads;
  }

  function Turn(env: Env, bytes: seq<Byte>, s: Spot): (r: Run)
    requires SpotOk(bytes, s)
    ensures r.Going? ==> s.pos <= r.spot.pos && SpotOk(bytes, r.spot) && (s.pos < |bytes| ==> s.pos < r.spot.pos)
  {
    match Gather(bytes, s.pos, s.stale)
    case None => Stopped(Bad(UnexpectedEnd))
    case Some(g) =>
      if CrcCheck(env.crc, s.st.buffer != [], g.c) != g.c.crc then Stopped(Bad(BadCrc))
      else
        match Final(env, bytes, s, g.c)
        case Some(outcome) => Stopped(outcome)
        case None =>
          AfterCollected(s.st, g.c, env.headerOnly, s.pos, g.next);
          Going(Spot(g.next, After(s.st, g.c, env.headerOnly), Stale(g.c.name, Swapped(g.crcBytes))))
  }

  /** The run after k turns. */
  function RunFor(env: Env, bytes: seq<Byte>, s: Spot, k: nat): Run
    requires SpotOk(bytes, s)
    decreases k
  {
    if k == 0 then Going(s)
    else
      match Turn(env, bytes, s)
      case Stopped(outcome) => Stopped(outcome)
      case Going(t) => RunFor(env, bytes, t, k - 1)
  }

  /** What the loop comes to.  Two turns at the end of the stream see every state there is. */
  function Parse(env: Env, bytes: seq<Byte>, s: Spot): Outcome
    requires SpotOk(bytes, s)
    decreases |bytes| - s.pos
  {
    match Turn(env, bytes, s)
    case Stopped(outcome) => outcome
    case Going(t) =>
      if s.pos < |bytes| then Parse(env, bytes, t)
      else
        match Turn(env, bytes, t)
        case Stopped(outcome) => outcome
        case Going(_) => Hangs
  }

  // ---------- a turn at a whole chunk ----------

  function WholeTurn(env: Env, bytes: seq<Byte>, s: Spot, c: Chunk): Run
    requires SpotOk(bytes, s) && Fits(c)
  {
    if CrcCheck(env.crc, s.st.buffer != [], c) != c.crc then Stopped(Bad(BadCrc))
    else
      match Final(env, bytes, s, c)
      case Some(outcome) => Stopped(outcome)
      case None =>
        Going(Spot(s.pos + 12 + |c.data|, After(s.st, c, env.headerOnly), Stale(c.name, Swapped(BE32(c.crc)))))
  }

  /** Where a whole chunk stands, the turn takes it. */
  lemma GatherWhole(bytes: seq<Byte>, pos: nat, c: Chunk, stale: Stale)
    requires ChunkAt(bytes, pos, c) && |bytes| <= INT_MAX
    ensures pos <= |bytes| && Gather(bytes, pos, stale) == Some(Gathered(c, BE32(c.crc), pos + 12 + |c.data|))
  {
    hide ChunkBytes, ChunkAt, BE32, FromBE32;
    ChunkAtFits(bytes, pos, c);
    FieldsAt(bytes, pos, c);
    var n := |c.data|;
    assert ReadOver(bytes, pos, [0, 0, 0, 0]) == bytes[pos..pos + 4];
    assert ReadOver(bytes, pos + 4, stale.name) == bytes[pos + 4..pos + 8];
    assert ReadOver(bytes, pos + 8 + n, stale.crc) == bytes[pos + 8 + n..pos + 12 + n];
    FromBE32Inverse(bytes[pos + 8 + n..pos + 12 + n]);
  }

  lemma TurnWhole(env: Env, bytes: seq<Byte>, s: Spot, c: Chunk)
    requires SpotOk(bytes, s) && ChunkAt(bytes, s.pos, c)
    ensures Fits(c) && Turn(env, bytes, s) == WholeTurn(env, bytes, s, c)
    ensures s.pos < |bytes| && s.pos + 12 + |c.data| <= |bytes|
  {
    hide Gather, ChunkBytes, BE32, Final, After, CrcCheck;
    GatherWhole(bytes, s.pos, c, s.stale);
  }

  // ---------- when the loop ends ----------

  /** A turn at the end of the stream reads nothing. */
  lemma GatherNothing(bytes: seq<Byte>, stale: Stale)
    requires |bytes| <= INT_MAX
    ensures Gather(bytes, |bytes|, stale)
            == Some(Gathered(Chunk(stale.name, [], FromBE32(stale.crc)), stale.crc, |bytes|))
  {
    assert FromBE32([0, 0, 0, 0]) == 0;
    assert bytes[|bytes|..|bytes|] == [];
    assert ReadOver(bytes, |bytes|, [0, 0, 0, 0]) == [0, 0, 0, 0];
    assert ReadOver(bytes, |bytes|, stale.name) == stale.name;
    assert ReadOver(bytes, |bytes|, stale.crc) == stale.crc;
  }

  /** A name at which the loop ends, at the latest when it meets it again without data. */
  predicate Ends(name: Name) {
    name == MEND || name == IHDR || name == JHDR || name == IEND
  }

  /** At the end of the stream a turn goes on exactly if the name ends nothing and the CRC of the name
      alone is what the CRC variable reads as. */
  lemma TurnAtEnd(env: Env, bytes: seq<Byte>, s: Spot)
    requires SpotOk(bytes, s) && s.pos == |bytes|
    ensures Turn(env, bytes, s).Going? <==>
              !Ends(s.stale.name)
              && CrcCheck(env.crc, s.st.buffer != [], Chunk(s.stale.name, [], 0)) == FromBE32(s.stale.crc)
              && !Misreads(s.st.buffer, Chunk(s.stale.name, [], 0))
    ensures Turn(env, bytes, s).Going? ==>
              var t := Turn(env, bytes, s).spot;
              && t.pos == |bytes| && t.st.buffer == s.st.buffer
              && t.stale == Stale(s.stale.name, Swapped(s.stale.crc))
  {
    hide Gather, FromBE32, PngPart, Alpha, ChunkBytes, HeaderOf;
    GatherNothing(bytes, s.stale);
  }

  /** No turn from here on ends the loop. */
  ghost predicate Stuck(env: Env, bytes: seq<Byte>, s: Spot) {
    && SpotOk(bytes, s) && s.pos == |bytes| && !Ends(s.stale.name)
    && !Misreads(s.st.buffer, Chunk(s.stale.name, [], 0))
    && var check := CrcCheck(env.crc, s.st.buffer != [], Chunk(s.stale.name, [], 0));
      check == FromBE32(s.stale.crc) == FromBE32(Swapped(s.stale.crc))
  }

  lemma {:induction false} StuckForever(env: Env, bytes: seq<Byte>, s: Spot, k: nat)
    requires Stuck(env, bytes, s)
    ensures RunFor(env, bytes, s, k).Going?
    decreases k
  {
    hide Turn, Ends, FromBE32;
    if k > 0 {
      TurnAtEnd(env, bytes, s);
      assert Swapped(Swapped(s.stale.crc)) == s.stale.crc;
      StuckForever(env, bytes, Turn(env, bytes, s).spot, k - 1);
    }
  }

  /** The parse is what the loop does: if it is `Hangs` every number of turns leaves the loop going,
      and otherwise some number of turns ends it with that outcome. */
  lemma {:induction false} ParseIsRun(env: Env, bytes: seq<Byte>, s: Spot) returns (k: nat)
    requires SpotOk(bytes, s)
    ensures Parse(env, bytes, s) != Hangs ==> RunFor(env, bytes, s, k) == Stopped(Parse(env, bytes, s))
    ensures Parse(env, bytes, s) == Hangs ==> forall n: nat :: RunFor(env, bytes, s, n).Going?
    decreases |bytes| - s.pos
  {
    hide Turn, Stuck;
    k := 1;
    NeverHangsAtOnce(env, bytes, s);
    match Turn(env, bytes, s)
    case Stopped(outcome) =>
      assert RunFor(env, bytes, s, 1) == Stopped(outcome);
    case Going(t) =>
      if s.pos < |bytes| {
        var n := ParseIsRun(env, bytes, t);
        k := n + 1;
        assert forall m: nat :: m > 0 ==> RunFor(env, bytes, s, m) == RunFor(env, bytes, t, m - 1);
      } else {
        k := 2;
        assert RunFor(env, bytes, s, 2) == RunFor(env, bytes, t, 1);
        NeverHangsAtOnce(env, bytes, t);
        if Turn(env, bytes, t).Going? {
          StuckAtEnd(env, bytes, s);
          forall n: nat
            ensures RunFor(env, bytes, s, n).Going?
          {
            StuckForever(env, bytes, s, n);
          }
        } else {
          assert RunFor(env, bytes, t, 1) == Turn(env, bytes, t);
        }
      }
  }

  lemma NeverHangsAtOnce(env: Env, bytes: seq<Byte>, s: Spot)
    requires SpotOk(bytes, s)
    ensures Turn(env, bytes, s).Stopped? ==> Turn(env, bytes, s).outcome != Hangs
  {
    hide Gather, CrcCheck, After, Alpha;
  }

  /** At the end of the stream two turns decide. */
  lemma StuckAtEnd(env: Env, bytes: seq<Byte>, s: Spot)
    requires SpotOk(bytes, s) && s.pos == |bytes|
    ensures Parse(env, bytes, s) == Hangs <==> Stuck(env, bytes, s)
    ensures Turn(env, bytes, s).Going? && Turn(env, bytes, Turn(env, bytes, s).spot).Going? ==> Stuck(env, bytes, s)
  {
    hide Turn, Ends, FromBE32, SpotOk;
    TurnAtEnd(env, bytes, s);
    NeverHangsAtOnce(env, bytes, s);
    if Turn(env, bytes, s).Going? {
      var t := Turn(env, bytes, s).spot;
      TurnAtEnd(env, bytes, t);
      NeverHangsAtOnce(env, bytes, t);
    }
  }

  /** The whole chunks that the loop takes in a row. */
  function Taken(env: Env, bytes: seq<Byte>, s: Spot): seq<Chunk>
    requires SpotOk(bytes, s)
    decreases |bytes| - s.pos
  {
    match ChunkThere(bytes, s.pos)
    case None => []
    case Some(c) =>
      TurnWhole(env, bytes, s, c);
      match Turn(env, bytes, s)
      case Stopped(outcome) => if outcome == Bad(BadCrc) then [] else [c]
      case Going(t) => [c] + Taken(env, bytes, t)
  }

  /** The first spot where no whole chunk stands, unless a whole chunk ends the loop before. */
  function Ragged(env: Env, bytes: seq<Byte>, s: Spot): (r: Option<Spot>)
    requires SpotOk(bytes, s)
    ensures r.Some? ==> SpotOk(bytes, r.value) && ChunkThere(bytes, r.value.pos).None?
    decreases |bytes| - s.pos
  {
    match ChunkThere(bytes, s.pos)
    case None => Some(s)
    case Some(c) =>
      TurnWhole(env, bytes, s, c);
      match Turn(env, bytes, s)
      case Stopped(_) => None
      case Going(t) => Ragged(env, bytes, t)
  }

  /** The bytes left, completed by what the variables held, pass as a chunk that ends nothing, and
      then its name and CRC do so again and again. */
  predicate PassesForever(env: Env, bytes: seq<Byte>, s: Spot)
    requires SpotOk(bytes, s)
  {
    match Gather(bytes, s.pos, s.stale)
    case None => false
    case Some(g) =>
      var buffer, again := Held(s.st.buffer, g.c.data), Chunk(g.c.name, [], 0);
      var alone := CrcCheck(env.crc, buffer != [], again);
      && !Ends(g.c.name) && CrcCheck(env.crc, s.st.buffer != [], g.c) == g.c.crc && !Misreads(buffer, again)
      && alone == FromBE32(g.crcBytes) == FromBE32(Swapped(g.crcBytes))
  }

  /** The loop does not end exactly if no whole chunk ends it and the bytes left pass forever. */
  lemma {:induction false} HangsExactly(env: Env, bytes: seq<Byte>, s: Spot)
    requires SpotOk(bytes, s)
    ensures Parse(env, bytes, s) == Hangs
            <==> Ragged(env, bytes, s).Some? && PassesForever(env, bytes, Ragged(env, bytes, s).value)
    decreases |bytes| - s.pos
  {
    hide Turn, PassesForever;
    match ChunkThere(bytes, s.pos)
    case None =>
      HangsAtRagged(env, bytes, s);
    case Some(c) =>
      TurnWhole(env, bytes, s, c);
      NeverHangsAtOnce(env, bytes, s);
      match Turn(env, bytes, s)
      case Stopped(_) =>
      case Going(t) => HangsExactly(env, bytes, t);
  }

  lemma NotThere(bytes: seq<Byte>, pos: nat)
    requires ChunkThere(bytes, pos).None?
    ensures pos + 8 > |bytes| || pos + 12 + LengthAt(bytes, pos) > |bytes|
  {
    hide LengthAt, NameAt, FromBE32;
  }

  /** Where no whole chunk stands, a turn uses up the bytes left. */
  lemma GatherRagged(bytes: seq<Byte>, pos: nat, stale: Stale)
    requires pos <= |bytes| <= INT_MAX && ChunkThere(bytes, pos).None? && Gather(bytes, pos, stale).Some?
    ensures Gather(bytes, pos, stale).value.next == |bytes|
  {
    hide FromBE32, ChunkThere;
    NotThere(bytes, pos);
    if pos + 8 <= |bytes| {
      assert ReadOver(bytes, pos, [0, 0, 0, 0]) == bytes[pos..pos + 4];
    } else {
      assert Past(bytes, Past(bytes, pos, 4), 4) == |bytes|;
    }
  }

  /** Whether and where a turn goes on. */
  lemma TurnGoes(env: Env, bytes: seq<Byte>, s: Spot)
    requires SpotOk(bytes, s)
    ensures var g := Gather(bytes, s.pos, s.stale);
      && (Turn(env, bytes, s).Going? ==>
            g.Some? && CrcCheck(env.crc, s.st.buffer != [], g.value.c) == g.value.c.crc
            && Turn(env, bytes, s).spot.pos == g.value.next
            && Turn(env, bytes, s).spot.st.buffer == Held(s.st.buffer, g.value.c.data)
            && !Misreads(s.st.buffer, g.value.c)
            && Turn(env, bytes, s).spot.stale == Stale(g.value.c.name, Swapped(g.value.crcBytes)))
      && (g.Some? && CrcCheck(env.crc, s.st.buffer != [], g.value.c) == g.value.c.crc ==>
            !Ends(g.value.c.name) && !Misreads(s.st.buffer, g.value.c) ==> Turn(env, bytes, s).Going?)
  {
    hide Gather, PngPart, Alpha, ChunkBytes, HeaderOf, CrcCheck;
  }

  lemma HangsAtRagged(env: Env, bytes: seq<Byte>, s: Spot)
    requires SpotOk(bytes, s) && ChunkThere(bytes, s.pos).None?
    ensures Parse(env, bytes, s) == Hangs <==> PassesForever(env, bytes, s)
  {
    hide ChunkThere, FromBE32, Turn, Ends, Gather;
    NeverHangsAtOnce(env, bytes, s);
    if s.pos == |bytes| {
      GatherNothing(bytes, s.stale);
      StuckAtEnd(env, bytes, s);
    } else {
      TurnGoes(env, bytes, s);
      match Turn(env, bytes, s)
      case Stopped(_) =>
      case Going(t) =>
        GatherRagged(bytes, s.pos, s.stale);
        assert Swapped(Swapped(Gather(bytes, s.pos, s.stale).value.crcBytes)) == Gather(bytes, s.pos, s.stale).value.crcBytes;
        StuckAtEnd(env, bytes, t);
    }
  }

  // ---------- when it reads outside its buffers ----------

  /** One of the chunks makes the code read outside its buffers, if they are taken in a row. */
  predicate SomeMisreads(buffer: seq<Byte>, cs: seq<Chunk>)
    decreases |cs|
  {
    cs != [] && (Misreads(buffer, cs[0]) || SomeMisreads(Held(buffer, cs[0].data), cs[1..]))
  }

  /** The bytes left, completed by what the variables held, pass as such a chunk; or as a text, which then
      passes once more without data. */
  predicate MisreadsLeft(env: Env, bytes: seq<Byte>, s: Spot)
    requires SpotOk(bytes, s)
  {
    match Gather(bytes, s.pos, s.stale)
    case None => false
    case Some(g) =>
      var buffer, again := Held(s.st.buffer, g.c.data), Chunk(TEXT, [], 0);
      && CrcCheck(env.crc, s.st.buffer != [], g.c) == g.c.crc
      && (Misreads(s.st.buffer, g.c)
          || (g.c.name == TEXT && CrcCheck(env.crc, buffer != [], again) == FromBE32(Swapped(g.crcBytes))))
  }

  /** A turn reads outside the buffers exactly if it has such a chunk whose CRC passes. */
  lemma TurnFaults(env: Env, bytes: seq<Byte>, s: Spot)
    requires SpotOk(bytes, s)
    ensures var g := Gather(bytes, s.pos, s.stale);
      Turn(env, bytes, s) == Stopped(Faults) <==>
        g.Some? && CrcCheck(env.crc, s.st.buffer != [], g.value.c) == g.value.c.crc && Misreads(s.st.buffer, g.value.c)
  {
    hide Gather, PngPart, Alpha, CrcCheck;
  }

  /** At the end of the stream a turn that goes on had no text, and none of those behind it faults. */
  lemma NoFaultAtEnd(env: Env, bytes: seq<Byte>, s: Spot)
    requires SpotOk(bytes, s) && s.pos == |bytes| && Turn(env, bytes, s).Going?
    ensures Parse(env, bytes, s) != Faults
  {
    hide Turn, Gather, FromBE32, CrcCheck;
    GatherNothing(bytes, s.stale);
    TurnGoes(env, bytes, s);
    var t := Turn(env, bytes, s).spot;
    GatherNothing(bytes, t.stale);
    TurnFaults(env, bytes, t);
  }

  lemma FaultsAtRagged(env: Env, bytes: seq<Byte>, s: Spot)
    requires SpotOk(bytes, s) && ChunkThere(bytes, s.pos).None?
    ensures Parse(env, bytes, s) == Faults <==> MisreadsLeft(env, bytes, s)
  {
    hide ChunkThere, FromBE32, Turn, Gather;
    TurnFaults(env, bytes, s);
    TurnGoes(env, bytes, s);
    match Turn(env, bytes, s)
    case Stopped(_) =>
      StoppedAtText(env, bytes, s);
    case Going(t) =>
      GatherRagged(bytes, s.pos, s.stale);
      GatherNothing(bytes, t.stale);
      TurnFaults(env, bytes, t);
      if s.pos < |bytes| && Turn(env, bytes, t).Going? {
        NoFaultAtEnd(env, bytes, t);
      }
  }

  lemma StoppedAtText(env: Env, bytes: seq<Byte>, s: Spot)
    requires SpotOk(bytes, s) && Turn(env, bytes, s).Stopped?
    ensures MisreadsLeft(env, bytes, s) ==> Turn(env, bytes, s) == Stopped(Faults)
  {
    hide Turn, Gather, CrcCheck, FromBE32;
    TurnFaults(env, bytes, s);
    TurnGoes(env, bytes, s);
  }

  /** The code reads outside its buffers exactly if one of the whole chunks that it takes makes it do so,
      or what stale bytes make of the bytes left behind them. */
  lemma {:induction false} FaultsExactly(env: Env, bytes: seq<Byte>, s: Spot)
    requires SpotOk(bytes, s)
    ensures Parse(env, bytes, s) == Faults
            <==> SomeMisreads(s.st.buffer, Taken(env, bytes, s))
                 || (Ragged(env, bytes, s).Some? && MisreadsLeft(env, bytes, Ragged(env, bytes, s).value))
    decreases |bytes| - s.pos
  {
    hide Turn, MisreadsLeft, Misreads, Gather, CrcCheck;
    match ChunkThere(bytes, s.pos)
    case None =>
      FaultsAtRagged(env, bytes, s);
    case Some(c) =>
      TurnWhole(env, bytes, s, c);
      GatherWhole(bytes, s.pos, c, s.stale);
      TurnFaults(env, bytes, s);
      TurnGoes(env, bytes, s);
      match Turn(env, bytes, s)
      case Stopped(outcome) =>
        assert outcome != Bad(BadCrc) ==> Taken(env, bytes, s) == [c] && [c][1..] == [];
        CrcPassed(env, bytes, s, c);
      case Going(t) =>
        FaultsExactly(env, bytes, t);
        assert ([c] + Taken(env, bytes, t))[1..] == Taken(env, bytes, t);
  }

  lemma CrcPassed(env: Env, bytes: seq<Byte>, s: Spot, c: Chunk)
    requires SpotOk(bytes, s) && Fits(c) && WholeTurn(env, bytes, s, c).Stopped?
    ensures WholeTurn(env, bytes, s, c).outcome == Bad(BadCrc) <==> CrcCheck(env.crc, s.st.buffer != [], c) != c.crc
  {
    hide CrcCheck, PngPart, Alpha;
  }

  /** In particular, on every stream that holds a list up to IEND there the loop ends, or a chunk of that
      list makes the code read outside its buffers. */
  lemma {:induction false} CompleteListEnds(env: Env, bytes: seq<Byte>, s: Spot)
    requires SpotOk(bytes, s) && ListToEnd(bytes, s.pos).Some?
    ensures Parse(env, bytes, s) != Hangs && Ragged(env, bytes, s).None?
    ensures Parse(env, bytes, s) == Faults <==> SomeMisreads(s.st.buffer, Taken(env, bytes, s))
    ensures Taken(env, bytes, s) <= ListToEnd(bytes, s.pos).value
    decreases |bytes| - s.pos
  {
    hide Turn, WholeTurn, ChunkThere, ChunkAt, Misreads, MisreadsLeft;
    FaultsExactly(env, bytes, s);
    var c := ChunkThere(bytes, s.pos).value;
    TurnWhole(env, bytes, s, c);
    NeverHangsAtOnce(env, bytes, s);
    match Turn(env, bytes, s)
    case Stopped(_) =>
    case Going(t) =>
      NotAtIend(env, bytes, s, c);
      CompleteListEnds(env, bytes, t);
  }

  lemma NotAtIend(env: Env, bytes: seq<Byte>, s: Spot, c: Chunk)
    requires SpotOk(bytes, s) && Fits(c) && WholeTurn(env, bytes, s, c).Going?
    ensures c.name != IEND && WholeTurn(env, bytes, s, c).spot.pos == s.pos + 12 + |c.data|
  {
    hide CrcCheck, PngPart, Alpha, After;
  }

  // ---------- two streams that are cut off ----------

  /** A signature and twelve zero bytes: an empty chunk without a name, whose CRC of 0 passes while the
      buffer is a null pointer.  At the end of the stream it passes again and again. */
  lemma TwentyBytesHang(env: Env, stale: Stale, k: nat)
    ensures var bytes, s := JNG_SIGNATURE + seq(12, _ => 0), Spot(8, INITIAL, stale);
      && |bytes| == 20 && SpotOk(bytes, s)
      && Parse(env, bytes, s) == Hangs && RunFor(env, bytes, s, k).Going?
  {
    hide Final, ChunkBytes, Gather, PngPart, HeaderOf, Turn;
    var bytes, s := JNG_SIGNATURE + seq(12, _ => 0), Spot(8, INITIAL, stale);
    var none: Name := [0, 0, 0, 0];
    var c := Chunk(none, [], 0);
    ZeroBytes();
    assert bytes[8..20] == ChunkBytes(c);
    assert ChunkAt(bytes, 8, c) by { hide *; ChunkAtIs(bytes, 8, c); }
    TurnWhole(env, bytes, s, c);
    GoesOnAt(env, bytes, s, c);
    var t := Turn(env, bytes, s).spot;
    assert t.pos == 20 && t.stale == Stale(none, none) && t.st.buffer == [];
    StuckAtEnd(env, bytes, t);
    var n := ParseIsRun(env, bytes, s);
  }

  lemma ZeroBytes()
    ensures BE32(0) == [0, 0, 0, 0] && FromBE32([0, 0, 0, 0]) == 0
    ensures ChunkBytes(Chunk([0, 0, 0, 0], [], 0)) == seq(12, _ => 0)
  {
  }

  lemma ChunkAtIs(bytes: seq<Byte>, pos: nat, c: Chunk)
    requires Fits(c) && pos + 12 + |c.data| <= |bytes| && bytes[pos..pos + 12 + |c.data|] == ChunkBytes(c)
    ensures ChunkAt(bytes, pos, c)
  {
  }

  /** A whole chunk of no known name is taken if its CRC passes. */
  lemma GoesOnAt(env: Env, bytes: seq<Byte>, s: Spot, c: Chunk)
    requires SpotOk(bytes, s) && Fits(c) && CrcCheck(env.crc, s.st.buffer != [], c) == c.crc
    requires !Ends(c.name) && !Misreads(s.st.buffer, c)
    ensures WholeTurn(env, bytes, s, c)
            == Going(Spot(s.pos + 12 + |c.data|, After(s.st, c, env.headerOnly), Stale(c.name, Swapped(BE32(c.crc)))))
  {
  }

  /** A stream whose IEND chunk lacks the last byte of its CRC: the byte that the CRC variable held
      completes it or not.  Behind a chunk it is the first byte of that chunk's stored CRC. */
  lemma CutIend(env: Env, bytes: seq<Byte>, s: Spot)
    requires SpotOk(bytes, s) && s.st.buffer != [] && Streaming(env.crc)
    requires bytes[s.pos..] == ChunkBytes(MakeChunk(env.crc, IEND, []))[..11]
    ensures ChunkThere(bytes, s.pos).None?
    ensures Parse(env, bytes, s)
            == if s.stale.crc[3] != BE32(env.crc(0, IEND))[3] then Bad(BadCrc)
               else ImageOf(env.crc, s.st)
  {
    hide Alpha, PngPart, After, HeaderOf, FromBE32, BE32;
    var crc := env.crc(0, IEND);
    MadeChunkIsGood(env.crc, IEND, []);
    CutIendGather(bytes, s.pos, crc, s.stale);
    BE32RoundTrip(crc);
    var m := BE32(crc)[..3] + [s.stale.crc[3]];
    FromBE32Inverse(m);
    assert m[3] == s.stale.crc[3] && (m[3] == BE32(crc)[3] ==> m == BE32(crc));
  }

  lemma CutIendGather(bytes: seq<Byte>, pos: nat, crc: Dword, stale: Stale)
    requires pos <= |bytes| <= INT_MAX && bytes[pos..] == (BE32(0) + IEND + [] + BE32(crc))[..11]
    ensures ChunkThere(bytes, pos).None?
    ensures var m := BE32(crc)[..3] + [stale.crc[3]];
      Gather(bytes, pos, stale) == Some(Gathered(Chunk(IEND, [], FromBE32(m)), m, |bytes|))
  {
    hide BE32, FromBE32, ReadOver;
    BE32RoundTrip(0);
    CutOff(BE32(0), IEND, BE32(crc));
    assert bytes == bytes[..pos] + bytes[pos..];
    CutIendReads(bytes[..pos], BE32(0), BE32(crc)[..3], stale);
  }

  lemma CutOff(a: Name, b: Name, c: Name)
    ensures (a + b + [] + c)[..11] == a + b + c[..3]
  {
  }

  /** The three reads of a turn at eleven of twelve bytes. */
  lemma CutIendReads(pre: seq<Byte>, length: Name, crc: seq<Byte>, stale: Stale)
    requires |crc| == 3
    ensures var bytes, pos := pre + (length + IEND + crc), |pre|;
      && |bytes| == pos + 11 && bytes[pos..pos + 4] == length && bytes[pos + 4..pos + 8] == IEND
      && ReadOver(bytes, pos, [0, 0, 0, 0]) == length && ReadOver(bytes, pos + 4, stale.name) == IEND
      && ReadOver(bytes, pos + 8, stale.crc) == crc + [stale.crc[3]]
  {
    var bytes, pos := pre + (length + IEND + crc), |pre|;
    assert bytes[pos..pos + 4] == length;
    assert bytes[pos + 4..pos + 8] == IEND;
    assert bytes[pos + 8..pos + 11] == crc;
    assert stale.crc[3..] == [stale.crc[3]];
  }
}

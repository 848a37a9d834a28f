/** Chunk sequences of PNG, MNG and JNG streams (section 3.2 of RFC 2083): a four-byte length, a
    four-byte name, the data and a four-byte CRC, numbers in network byte order. */
module Chunks {
  import opened CArith

  // ---------- big-endian numbers ----------

  function BE32(x: Dword): (s: seq<Byte>)
    ensures |s| == 4
  {
    var y := x / 0x100;
    var z := y / 0x100;
    [z / 0x100, z % 0x100, y % 0x100, x % 0x100]
  }

  function FromBE32(s: seq<Byte>): Dword
    requires |s| == 4
  {
    var a: int, b: int, c: int, d: int := s[0], s[1], s[2], s[3];
    0x100 * (0x100 * (0x100 * a + b) + c) + d
  }

  /** Swapping a number out and in again gives the number back. */
  lemma BE32RoundTrip(x: Dword)
    ensures FromBE32(BE32(x)) == x
  {
    var y := x / 0x100;
    var z := y / 0x100;
    assert x == 0x100 * y + x % 0x100;
    assert y == 0x100 * z + y % 0x100;
    assert z == 0x100 * (z / 0x100) + z % 0x100;
  }

  lemma FromBE32Inverse(s: seq<Byte>)
    requires |s| == 4
    ensures BE32(FromBE32(s)) == s
  {
    var a: int, b: int, c: int, d: int := s[0], s[1], s[2], s[3];
    var z := 0x100 * a + b;
    var y := 0x100 * z + c;
    var x := 0x100 * y + d;
    assert x / 0x100 == y && x % 0x100 == d;
    assert y / 0x100 == z && y % 0x100 == c;
    assert z / 0x100 == a && z % 0x100 == b;
  }

  /** The number with these four digits to the base 256, the highest first. */
  function Word(a: int, b: int, c: int, d: int): int {
    0x100_0000 * a + 0x1_0000 * b + 0x100 * c + d
  }

  /** Numbers are written in network byte order. */
  lemma NetworkOrder(x: Dword, s: seq<Byte>)
    requires |s| == 4
    ensures BE32(x) == s <==> x == Word(s[0], s[1], s[2], s[3])
    ensures FromBE32(s) == Word(s[0], s[1], s[2], s[3])
  {
    BE32RoundTrip(x);
    FromBE32Inverse(s);
  }

  // ---------- chunks ----------

  type Name = s: seq<Byte> | |s| == 4 witness [0, 0, 0, 0]

  const IHDR: Name := [73, 72, 68, 82]
  const PLTE: Name := [80, 76, 84, 69]
  const IDAT: Name := [73, 68, 65, 84]
  const IEND: Name := [73, 69, 78, 68]
  const JHDR: Name := [74, 72, 68, 82]
  const JDAT: Name := [74, 68, 65, 84]
  const MEND: Name := [77, 69, 78, 68]
  const TRNS: Name := [116, 82, 78, 83]
  const BKGD: Name := [98, 75, 71, 68]
  const PHYS: Name := [112, 72, 89, 115]
  const TEXT: Name := [116, 69, 88, 116]

  const PNG_SIGNATURE: seq<Byte> := [137, 80, 78, 71, 13, 10, 26, 10]
  const JNG_SIGNATURE: seq<Byte> := [139, 74, 78, 71, 13, 10, 26, 10]

  datatype Chunk = Chunk(name: Name, data: seq<Byte>, crc: Dword)

  /** The length field can hold the length of the data. */
  predicate Fits(c: Chunk) {
    |c.data| < 0x1_0000_0000
  }

  function ChunkBytes(c: Chunk): (s: seq<Byte>)
    requires Fits(c)
    ensures |s| == 12 + |c.data|
  {
    BE32(|c.data|) + c.name + c.data + BE32(c.crc)
  }

  predicate AllFit(cs: seq<Chunk>) {
    forall i :: 0 <= i < |cs| ==> Fits(cs[i])
  }

  function Encode(cs: seq<Chunk>): seq<Byte>
    requires AllFit(cs)
  {
    if cs == [] then [] else ChunkBytes(cs[0]) + Encode(cs[1..])
  }

  lemma {:induction false} EncodeConcat(a: seq<Chunk>, b: seq<Chunk>)
    requires AllFit(a) && AllFit(b)
    ensures AllFit(a + b) && Encode(a + b) == Encode(a) + Encode(b)
  {
    hide ChunkBytes;
    if a == [] {
      assert a + b == b;
    } else {
      assert (a + b)[0] == a[0] && (a + b)[1..] == a[1..] + b;
      EncodeConcat(a[1..], b);
    }
  }

  lemma EncodeOne(c: Chunk)
    requires Fits(c)
    ensures Encode([c]) == ChunkBytes(c)
  {
    assert Encode([]) == [];
  }

  /** The encoding splits at chunk k. */
  lemma EncodeAt(cs: seq<Chunk>, k: nat)
    requires AllFit(cs) && k < |cs|
    ensures AllFit(cs[..k]) && AllFit(cs[k + 1..]) && AllFit(cs[k..])
    ensures Encode(cs) == Encode(cs[..k]) + ChunkBytes(cs[k]) + Encode(cs[k + 1..])
    ensures Encode(cs[k..]) == ChunkBytes(cs[k]) + Encode(cs[k + 1..])
  {
    hide Encode, ChunkBytes;
    assert cs == cs[..k] + cs[k..];
    EncodeConcat(cs[..k], cs[k..]);
    EncodeFirst(cs[k..]);
    assert cs[k..][1..] == cs[k + 1..];
  }

  lemma EncodeFirst(cs: seq<Chunk>)
    requires AllFit(cs) && |cs| > 0
    ensures AllFit(cs[1..]) && Encode(cs) == ChunkBytes(cs[0]) + Encode(cs[1..])
  {
  }

  // ---------- the fields of a chunk at a position ----------

  /** A chunk of the stream starts at pos. */
  ghost predicate ChunkAt(bytes: seq<Byte>, pos: nat, c: Chunk) {
    Fits(c) && pos + 12 + |c.data| <= |bytes| && bytes[pos..pos + 12 + |c.data|] == ChunkBytes(c)
  }

  function LengthAt(bytes: seq<Byte>, pos: nat): Dword
    requires pos + 4 <= |bytes|
  {
    FromBE32(bytes[pos..pos + 4])
  }

  function NameAt(bytes: seq<Byte>, pos: nat): Name
    requires pos + 8 <= |bytes|
  {
    bytes[pos + 4..pos + 8]
  }

  lemma ChunkAtFits(bytes: seq<Byte>, pos: nat, c: Chunk)
    requires ChunkAt(bytes, pos, c)
    ensures Fits(c) && pos + 12 + |c.data| <= |bytes|
  {
  }

  lemma FieldsAt(bytes: seq<Byte>, pos: nat, c: Chunk)
    requires ChunkAt(bytes, pos, c)
    ensures LengthAt(bytes, pos) == |c.data| && NameAt(bytes, pos) == c.name
    ensures bytes[pos + 8..pos + 8 + |c.data|] == c.data
    ensures FromBE32(bytes[pos + 8 + |c.data|..pos + 12 + |c.data|]) == c.crc
  {
    hide BE32, FromBE32;
    var n := |c.data|;
    var s := bytes[pos..pos + 12 + n];
    BE32RoundTrip(n);
    BE32RoundTrip(c.crc);
    SliceOfSlice(bytes, pos, pos + 12 + n, 0, 4);
    SliceOfSlice(bytes, pos, pos + 12 + n, 4, 8);
    SliceOfSlice(bytes, pos, pos + 12 + n, 8, 8 + n);
    SliceOfSlice(bytes, pos, pos + 12 + n, 8 + n, 12 + n);
    assert s[0..4] == BE32(n) && s[4..8] == c.name && s[8..8 + n] == c.data && s[8 + n..12 + n] == BE32(c.crc);
  }

  lemma SliceOfSlice<T>(s: seq<T>, a: nat, b: nat, i: nat, j: nat)
    requires a <= b <= |s| && i <= j <= b - a
    ensures s[a..b][i..j] == s[a + i..a + j]
  {
    var t := s[a..b];
    assert |t[i..j]| == j - i == |s[a + i..a + j]|;
    assert forall k :: 0 <= k < j - i ==> t[i..j][k] == t[i + k] == s[a + i + k] == s[a + i..a + j][k];
  }

  /** Where chunk k of an encoded sequence stands, whatever precedes and follows the sequence. */
  lemma ChunkInStream(pre: seq<Byte>, cs: seq<Chunk>, tail: seq<Byte>, k: nat)
    requires AllFit(cs) && k < |cs|
    ensures AllFit(cs[..k]) && AllFit(cs[..k + 1])
    ensures ChunkAt(pre + Encode(cs) + tail, |pre| + |Encode(cs[..k])|, cs[k])
    ensures |Encode(cs[..k + 1])| == |Encode(cs[..k])| + 12 + |cs[k].data|
  {
    hide Encode, ChunkBytes;
    EncodeAt(cs, k);
    assert cs[..k + 1] == cs[..k] + [cs[k]];
    EncodeConcat(cs[..k], [cs[k]]);
    EncodeOne(cs[k]);
    var bytes, a, b := pre + Encode(cs) + tail, pre + Encode(cs[..k]), Encode(cs[k + 1..]) + tail;
    assert bytes == a + (ChunkBytes(cs[k]) + b);
    assert bytes[|a|..|a| + |ChunkBytes(cs[k])|] == ChunkBytes(cs[k]);
  }

  // ---------- reading a list of chunks up to IEND ----------

  /** Any bytes with a length that fits are some chunk. */
  lemma BytesAreChunk(bytes: seq<Byte>, pos: nat)
    requires pos + 8 <= |bytes| && pos + 12 + LengthAt(bytes, pos) <= |bytes|
    ensures var n := LengthAt(bytes, pos);
      ChunkAt(bytes, pos, Chunk(NameAt(bytes, pos), bytes[pos + 8..pos + 8 + n],
                                FromBE32(bytes[pos + 8 + n..pos + 12 + n])))
  {
    hide BE32, FromBE32;
    var n := LengthAt(bytes, pos);
    FromBE32Inverse(bytes[pos..pos + 4]);
    FromBE32Inverse(bytes[pos + 8 + n..pos + 12 + n]);
    assert bytes[pos..pos + 12 + n]
        == bytes[pos..pos + 4] + bytes[pos + 4..pos + 8] + bytes[pos + 8..pos + 8 + n] + bytes[pos + 8 + n..pos + 12 + n];
  }

  /** The chunk at pos, if all of it is there. */
  function ChunkThere(bytes: seq<Byte>, pos: nat): (c: Option<Chunk>)
    ensures c.Some? ==> ChunkAt(bytes, pos, c.value)
  {
    if pos + 8 > |bytes| || pos + 12 + LengthAt(bytes, pos) > |bytes| then None
    else
      BytesAreChunk(bytes, pos);
      var n := LengthAt(bytes, pos);
      Some(Chunk(NameAt(bytes, pos), bytes[pos + 8..pos + 8 + n], FromBE32(bytes[pos + 8 + n..pos + 12 + n])))
  }

  lemma ChunkThereIs(bytes: seq<Byte>, pos: nat, c: Chunk)
    requires ChunkAt(bytes, pos, c)
    ensures ChunkThere(bytes, pos) == Some(c)
  {
    hide LengthAt, NameAt, ChunkBytes, FromBE32;
    FieldsAt(bytes, pos, c);
  }

  /** The chunks from pos up to the first IEND, if they are all there. */
  function ListToEnd(bytes: seq<Byte>, pos: nat): Option<seq<Chunk>>
    decreases |bytes| - pos
  {
    match ChunkThere(bytes, pos)
    case None => None
    case Some(c) =>
      if c.name == IEND then Some([c])
      else
        match ListToEnd(bytes, pos + 12 + |c.data|)
        case None => None
        case Some(rest) => Some([c] + rest)
  }

  /** IEND stands last and nowhere else. */
  ghost predicate EndsWithIend(cs: seq<Chunk>) {
    |cs| > 0 && forall i :: 0 <= i < |cs| ==> (cs[i].name == IEND <==> i == |cs| - 1)
  }

  /** What a reader that stops at IEND sees of an encoded sequence is the sequence, whatever comes
      after it. */
  lemma {:induction false} ListOfEncoded(pre: seq<Byte>, cs: seq<Chunk>, tail: seq<Byte>)
    requires AllFit(cs) && EndsWithIend(cs)
    ensures ListToEnd(pre + Encode(cs) + tail, |pre|) == Some(cs)
    decreases |cs|
  {
    hide ChunkThere, ChunkBytes, ChunkAt;
    var bytes := pre + Encode(cs) + tail;
    ChunkInStream(pre, cs, tail, 0);
    assert Encode(cs[..0]) == [];
    ChunkThereIs(bytes, |pre|, cs[0]);
    if |cs| == 1 {
      assert cs == [cs[0]];
    } else {
      EncodeFirst(cs);
      var pre' := pre + ChunkBytes(cs[0]);
      assert bytes == pre' + Encode(cs[1..]) + tail;
      ListOfEncoded(pre', cs[1..], tail);
      assert cs == [cs[0]] + cs[1..];
    }
  }

  /** Conversely, a list that was read is encoded in the stream at that place. */
  lemma {:induction false} EncodedFromList(bytes: seq<Byte>, pos: nat, cs: seq<Chunk>)
    requires pos <= |bytes| && ListToEnd(bytes, pos) == Some(cs)
    ensures AllFit(cs) && EndsWithIend(cs) && pos + |Encode(cs)| <= |bytes|
    ensures bytes[pos..pos + |Encode(cs)|] == Encode(cs)
    decreases |bytes| - pos
  {
    hide ChunkThere, ChunkBytes;
    var c := cs[0];
    if c.name == IEND {
      EncodeOne(c);
    } else {
      EncodedFromList(bytes, pos + 12 + |c.data|, cs[1..]);
      PrependChunk(bytes, pos, c, cs[1..]);
      assert cs == [c] + cs[1..];
    }
  }

  lemma PrependChunk(bytes: seq<Byte>, pos: nat, c: Chunk, rest: seq<Chunk>)
    requires ChunkAt(bytes, pos, c) && c.name != IEND && AllFit(rest) && EndsWithIend(rest)
    requires var next := pos + 12 + |c.data|;
      next + |Encode(rest)| <= |bytes| && bytes[next..next + |Encode(rest)|] == Encode(rest)
    ensures AllFit([c] + rest) && EndsWithIend([c] + rest) && pos + |Encode([c] + rest)| <= |bytes|
    ensures bytes[pos..pos + |Encode([c] + rest)|] == Encode([c] + rest)
  {
    EncodeFirst([c] + rest);
    assert ([c] + rest)[1..] == rest;
    var mid, end := pos + 12 + |c.data|, pos + 12 + |c.data| + |Encode(rest)|;
    assert bytes[pos..end] == bytes[pos..mid] + bytes[mid..end];
  }
}

/** The JNG container as values: chunks with their CRCs, and what the writer emits.

    The CRC routine of zlib is a parameter: a function of a starting value and some bytes.  The one
    law asked of it is that a CRC can be computed in two parts. */
module Jng {
  import opened CArith
  import opened Chunks
  import opened MemoryStreams
  import opened PngSplice

  type Crc = (Dword, seq<Byte>) -> Dword

  ghost predicate Streaming(crc: Crc) {
    forall a: seq<Byte>, b: seq<Byte> :: crc(crc(0, a), b) == crc(0, a + b)
  }

  // ---------- mng_WriteChunk ----------

  /** A chunk as the writer makes it: without data the CRC stops after the name. */
  function MakeChunk(crc: Crc, name: Name, data: seq<Byte>): Chunk {
    Chunk(name, data, if |data| > 0 then crc(crc(0, name), data) else crc(0, name))
  }

  /** The CRC covers the name and the data, as section 3.2 of RFC 2083 asks, and the parser, which
      always goes on with the data, computes the same one. */
  lemma MadeChunkIsGood(crc: Crc, name: Name, data: seq<Byte>)
    requires Streaming(crc)
    ensures MakeChunk(crc, name, data).crc == crc(0, name + data) == crc(crc(0, name), data)
  {
    assert crc(crc(0, name), data) == crc(0, name + data);
    assert data == [] ==> name + data == name;
  }

  /** The chunks of a greyscale PNG stream around one IDAT payload. */
  function AlphaChunks(crc: Crc, width: Dword, height: Dword, depth: Byte, idat: seq<Byte>): (cs: seq<Chunk>)
    requires |idat| < 0x1_0000_0000
    ensures AllFit(cs) && EndsWithIend(cs)
  {
    [MakeChunk(crc, IHDR, BE32(width) + BE32(height) + [depth, 0, 0, 0, 0]), MakeChunk(crc, IDAT, idat),
     MakeChunk(crc, IEND, [])]
  }

  /** mng_WritePNGStream */
  function AlphaStream(crc: Crc, width: Dword, height: Dword, depth: Byte, idat: seq<Byte>): seq<Byte>
    requires |idat| < 0x1_0000_0000
  {
    EmitAll(PNG_SIGNATURE, AlphaChunks(crc, width, height, depth, idat))
  }

  // ---------- chunks written to a memory stream ----------

  /** Four writes, each of which may be refused. */
  function EmitChunk(s: seq<Byte>, c: Chunk): seq<Byte>
    requires Fits(c)
  {
    Emit(Emit(Emit(Emit(s, BE32(|c.data|)), c.name), c.data), BE32(c.crc))
  }

  function EmitAll(s: seq<Byte>, cs: seq<Chunk>): seq<Byte>
    requires AllFit(cs)
  {
    if cs == [] then s else EmitChunk(EmitAll(s, cs[..|cs| - 1]), cs[|cs| - 1])
  }

  lemma EmitMore(s: seq<Byte>, cs: seq<Chunk>, c: Chunk)
    requires AllFit(cs) && Fits(c)
    ensures AllFit(cs + [c]) && EmitAll(s, cs + [c]) == EmitChunk(EmitAll(s, cs), c)
  {
    assert (cs + [c])[..|cs|] == cs;
  }

  lemma EmitChunkFits(s: seq<Byte>, c: Chunk)
    requires Fits(c)
    ensures |s| + 12 + |c.data| < INT_MAX ==> EmitChunk(s, c) == s + ChunkBytes(c)
    ensures |s| < INT_MAX ==> |EmitChunk(s, c)| < INT_MAX
  {
    hide BE32;
    assert s + BE32(|c.data|) + c.name + c.data + BE32(c.crc) == s + (BE32(|c.data|) + c.name + c.data + BE32(c.crc));
  }

  /** The stream holds exactly the encoded chunks if and only if they end before 2^31 - 1. */
  lemma {:induction false} EmitExact(s: seq<Byte>, cs: seq<Chunk>)
    requires AllFit(cs) && |s| < INT_MAX
    ensures |EmitAll(s, cs)| < INT_MAX
    ensures EmitAll(s, cs) == s + Encode(cs) <==> |s| + |Encode(cs)| < INT_MAX
  {
    hide ChunkBytes, EmitChunk, Encode;
    if cs == [] {
      EncodeNone();
      assert s + [] == s;
    } else {
      var most, last := cs[..|cs| - 1], cs[|cs| - 1];
      assert cs == most + [last];
      EncodeConcat(most, [last]);
      EncodeOne(last);
      EmitExact(s, most);
      EmitChunkFits(EmitAll(s, most), last);
      assert s + Encode(most) + ChunkBytes(last) == s + (Encode(most) + ChunkBytes(last));
    }
  }

  lemma EncodeNone()
    ensures Encode([]) == []
  {
  }

  // ---------- what mng_WriteJNG emits ----------

  const JPEG_CHUNK_SIZE := 8192

  datatype Header = Header(width: Dword, height: Dword, colorType: Byte, sampleDepth: Byte, compression: Byte,
                           interlace: Byte, alphaDepth: Byte, alphaCompression: Byte, alphaFilter: Byte,
                           alphaInterlace: Byte)

  function HeaderBytes(h: Header): (s: seq<Byte>)
    ensures |s| == 16
  {
    BE32(h.width) + BE32(h.height)
    + [h.colorType, h.sampleDepth, h.compression, h.interlace,
       h.alphaDepth, h.alphaCompression, h.alphaFilter, h.alphaInterlace]
  }

  function HeaderOf(s: seq<Byte>): Header
    requires |s| == 16
  {
    Header(FromBE32(s[0..4]), FromBE32(s[4..8]), s[8], s[9], s[10], s[11], s[12], s[13], s[14], s[15])
  }

  lemma HeaderRoundTrip(h: Header)
    ensures HeaderOf(HeaderBytes(h)) == h
  {
    hide BE32, FromBE32;
    BE32RoundTrip(h.width);
    BE32RoundTrip(h.height);
    var s := HeaderBytes(h);
    assert s[0..4] == BE32(h.width) && s[4..8] == BE32(h.height);
  }

  function Concat(parts: seq<seq<Byte>>): seq<Byte> {
    if parts == [] then [] else parts[0] + Concat(parts[1..])
  }

  /** The data cut into pieces of 8192 bytes and a shorter last one. */
  function Pieces(data: seq<Byte>): (parts: seq<seq<Byte>>)
    ensures forall i :: 0 <= i < |parts| ==> 0 < |parts[i]| <= 8192
    ensures forall i :: 0 <= i < |parts| - 1 ==> |parts[i]| == 8192
    ensures parts == [] <==> data == []
  {
    if data == [] then []
    else
      var n := Min(JPEG_CHUNK_SIZE, |data|);
      [data[..n]] + Pieces(data[n..])
  }

  /** Nothing is lost or reordered by cutting. */
  lemma {:induction false} PiecesJoin(data: seq<Byte>)
    ensures Concat(Pieces(data)) == data
  {
    if data != [] {
      var n := Min(JPEG_CHUNK_SIZE, |data|);
      PiecesJoin(data[n..]);
      assert Pieces(data)[1..] == Pieces(data[n..]);
      assert data == data[..n] + data[n..];
    }
  }

  /** One chunk of the same name for each part. */
  function Wrapped(crc: Crc, name: Name, parts: seq<seq<Byte>>): (cs: seq<Chunk>)
    ensures |cs| == |parts|
  {
    seq(|parts|, i requires 0 <= i < |parts| => MakeChunk(crc, name, parts[i]))
  }

  function JngChunks(crc: Crc, h: Header, jpeg: seq<Byte>, idats: seq<seq<Byte>>): seq<Chunk> {
    [MakeChunk(crc, JHDR, HeaderBytes(h))] + Wrapped(crc, JDAT, Pieces(jpeg)) + Wrapped(crc, IDAT, idats)
    + [MakeChunk(crc, IEND, [])]
  }

  /** The payloads of the chunks with this name, in order. */
  function Named(cs: seq<Chunk>, name: Name): seq<seq<Byte>> {
    if cs == [] then [] else (if cs[0].name == name then [cs[0].data] else []) + Named(cs[1..], name)
  }

  lemma NamedFirst(c: Chunk, rest: seq<Chunk>, name: Name)
    ensures Named([c] + rest, name) == (if c.name == name then [c.data] else []) + Named(rest, name)
  {
    assert ([c] + rest)[1..] == rest;
  }

  lemma {:induction false} NamedConcat(a: seq<Chunk>, b: seq<Chunk>, name: Name)
    ensures Named(a + b, name) == Named(a, name) + Named(b, name)
  {
    hide Named;
    if a == [] {
      assert a + b == b;
      NamedNone(name);
    } else {
      NamedConcat(a[1..], b, name);
      NamedFirst(a[0], a[1..], name);
      NamedFirst(a[0], a[1..] + b, name);
      assert a + b == [a[0]] + (a[1..] + b) && a == [a[0]] + a[1..];
    }
  }

  lemma NamedNone(name: Name)
    ensures Named([], name) == []
  {
  }

  lemma {:induction false} NothingNamed(cs: seq<Chunk>, name: Name)
    requires forall i :: 0 <= i < |cs| ==> cs[i].name != name
    ensures Named(cs, name) == []
  {
    if cs != [] {
      NothingNamed(cs[1..], name);
    }
  }

  /** Between k and the first chunk of the name from k on, there is no payload. */
  lemma NamedBefore(cs: seq<Chunk>, k: nat, name: Name)
    requires k <= |cs|
    ensures Named(cs[..k + FirstNamed(cs[k..], name)], name) == Named(cs[..k], name)
  {
    hide Named;
    var j := k + FirstNamed(cs[k..], name);
    assert forall i :: k <= i < j ==> cs[i] == cs[k..][i - k];
    NothingNamed(cs[k..j], name);
    NamedConcat(cs[..k], cs[k..j], name);
    assert cs[..k] + cs[k..j] == cs[..j];
  }

  /** The payloads up to and with the first chunk of the name from k on. */
  lemma NamedUpTo(cs: seq<Chunk>, k: nat, name: Name)
    requires k <= |cs|
    ensures var j := k + FirstNamed(cs[k..], name);
      Named(if j < |cs| then cs[..j + 1] else cs, name)
      == Named(cs[..k], name) + if j < |cs| then [cs[j].data] else []
  {
    hide Named;
    var j := k + FirstNamed(cs[k..], name);
    NamedBefore(cs, k, name);
    if j < |cs| {
      assert cs[k..][j - k] == cs[j];
      NamedConcat(cs[..j], [cs[j]], name);
      assert cs[..j] + [cs[j]] == cs[..j + 1];
      NamedFirst(cs[j], [], name);
      NamedNone(name);
      assert [cs[j]] + [] == [cs[j]];
    } else {
      assert cs[..j] == cs;
    }
  }

  // ---------- the container ----------

  function JngBytes(crc: Crc, h: Header, jpeg: seq<Byte>, idats: seq<seq<Byte>>): seq<Byte>
    requires AllFit(JngChunks(crc, h, jpeg, idats))
  {
    JNG_SIGNATURE + Encode(JngChunks(crc, h, jpeg, idats))
  }

  /** What the writer leaves in its memory stream. */
  function JngStream(crc: Crc, h: Header, jpeg: seq<Byte>, idats: seq<seq<Byte>>): seq<Byte>
    requires AllFit(JngChunks(crc, h, jpeg, idats))
  {
    EmitAll(JNG_SIGNATURE, JngChunks(crc, h, jpeg, idats))
  }

  /** The container is complete if and only if it is shorter than 2^31 - 1 bytes. */
  lemma JngStreamExact(crc: Crc, h: Header, jpeg: seq<Byte>, idats: seq<seq<Byte>>)
    requires AllFit(JngChunks(crc, h, jpeg, idats))
    ensures JngStream(crc, h, jpeg, idats) == JngBytes(crc, h, jpeg, idats) <==> |JngBytes(crc, h, jpeg, idats)| < INT_MAX
  {
    EmitExact(JNG_SIGNATURE, JngChunks(crc, h, jpeg, idats));
  }
}

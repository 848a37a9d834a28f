/** Writing and parsing JNG streams over memory streams. */
module JngFile {
  import opened CArith
  import opened Chunks
  import opened MemoryStreams
  import opened PngSplice
  import opened Jng
  import opened JngMeta
  import opened JngParser
  import opened JngRoundTrip

  /** A stream that owns its buffer and stands at its end, so that a write appends. */
  ghost predicate AtEnd(s: MemoryStream)
    reads s
  {
    s.Valid() && s.deleteMe && s.currentPosition == s.fileLength
  }

  /** Writes at the end, unless the stream would reach 2^31 - 1 bytes. */
  method Append(s: MemoryStream, bytes: seq<Byte>)
    requires AtEnd(s) && |bytes| <= INT_MAX
    modifies s, s.data
    ensures AtEnd(s) && (s.data == old(s.data) || fresh(s.data)) && s.Contents() == Emit(old(s.Contents()), bytes)
  {
    var n := s.Write(bytes, 1, |bytes|);
  }

  /** mng_WriteChunk: length, name, data and CRC in separate writes. */
  method WriteChunk(crc: Crc, name: Name, data: seq<Byte>, s: MemoryStream)
    requires AtEnd(s) && |data| <= INT_MAX
    modifies s, s.data
    ensures AtEnd(s) && (s.data == old(s.data) || fresh(s.data))
    ensures s.Contents() == EmitChunk(old(s.Contents()), MakeChunk(crc, name, data))
  {
    hide BE32, Emit;
    Append(s, BE32(|data|));
    Append(s, name);
    var crcFile;
    if |data| > 0 {
      Append(s, data);
      crcFile := crc(0, name);
      crcFile := crc(crcFile, data);
    } else {
      EmitNone(s.Contents());
      crcFile := crc(0, name);
    }
    Append(s, BE32(crcFile));
  }

  lemma EmitNone(s: seq<Byte>)
    ensures Emit(s, []) == s
  {
  }

  /** mng_WritePNGStream */
  method WritePNGStream(crc: Crc, width: Dword, height: Dword, depth: Byte, idat: seq<Byte>, s: MemoryStream)
    requires AtEnd(s) && s.fileLength == 0 && |idat| <= INT_MAX
    modifies s, s.data
    ensures AtEnd(s) && s.Contents() == AlphaStream(crc, width, height, depth, idat)
  {
    hide BE32, EmitChunk, EmitAll;
    Append(s, PNG_SIGNATURE);
    assert s.Contents() == PNG_SIGNATURE;
    var data := BE32(width) + BE32(height) + [depth, 0, 0, 0, 0];
    WriteChunk(crc, IHDR, data, s);
    WriteChunk(crc, IDAT, idat, s);
    WriteChunk(crc, IEND, [], s);
    EmitThree(PNG_SIGNATURE, MakeChunk(crc, IHDR, data), MakeChunk(crc, IDAT, idat), MakeChunk(crc, IEND, []));
  }

  lemma EmitThree(s: seq<Byte>, a: Chunk, b: Chunk, c: Chunk)
    requires Fits(a) && Fits(b) && Fits(c)
    ensures AllFit([a, b, c]) && EmitAll(s, [a, b, c]) == EmitChunk(EmitChunk(EmitChunk(s, a), b), c)
  {
    hide EmitChunk;
    assert EmitAll(s, []) == s && [] + [a] == [a] && [a] + [b] == [a, b] && [a, b] + [c] == [a, b, c];
    EmitMore(s, [], a);
    EmitMore(s, [a], b);
    EmitMore(s, [a, b], c);
  }

  // ---------- mng_WriteJNG ----------

  /** What the writer asks a bitmap. */
  datatype Bitmap = Bitmap(width: Dword, height: Dword, bpp: nat, minIsBlack: bool, standard: bool)

  function HeaderFor(b: Bitmap): Header {
    Header(b.width, b.height,
           if b.bpp == 32 then 14 else if b.bpp == 8 && b.minIsBlack then 8 else 10,
           8, 8, 0, if b.bpp == 32 then 8 else 0, 0, 0, 0)
  }

  /** The chunks so far were written behind the signature. */
  ghost predicate Written(s: MemoryStream, cs: seq<Chunk>)
    reads s, s.data
  {
    AtEnd(s) && AllFit(cs) && s.Contents() == EmitAll(JNG_SIGNATURE, cs)
  }

  method AddChunk(crc: Crc, name: Name, data: seq<Byte>, s: MemoryStream, ghost cs: seq<Chunk>)
    requires Written(s, cs) && |data| <= INT_MAX
    modifies s, s.data
    ensures Written(s, cs + [MakeChunk(crc, name, data)]) && (s.data == old(s.data) || fresh(s.data))
  {
    hide EmitChunk, EmitAll;
    WriteChunk(crc, name, data, s);
    EmitMore(JNG_SIGNATURE, cs, MakeChunk(crc, name, data));
  }

  /** The JDAT loop. */
  method WriteJpeg(crc: Crc, jpeg: seq<Byte>, s: MemoryStream, ghost cs: seq<Chunk>)
    requires Written(s, cs) && |jpeg| <= INT_MAX
    modifies s, s.data
    ensures Written(s, cs + Wrapped(crc, JDAT, Pieces(jpeg))) && (s.data == old(s.data) || fresh(s.data))
  {
    hide Written, Pieces, Wrapped, MakeChunk, JdatSoFar;
    ghost var done: seq<seq<Byte>> := [];
    NoPieces(crc, cs, jpeg);
    var k := 0;
    while k < |jpeg|
      invariant 0 <= k <= |jpeg| && JdatSoFar(jpeg, k, done)
      invariant Written(s, cs + Wrapped(crc, JDAT, done)) && (s.data == old(s.data) || fresh(s.data))
    {
      var bytesLeft := |jpeg| - k;
      var chunkSize := Min(JPEG_CHUNK_SIZE, bytesLeft);
      NextPiece(crc, cs, jpeg, k, done);
      AddChunk(crc, JDAT, jpeg[k..k + chunkSize], s, cs + Wrapped(crc, JDAT, done));
      done := done + [jpeg[k..k + chunkSize]];
      k := k + chunkSize;
    }
    AllPieces(jpeg, done);
  }

  /** The pieces written before position k. */
  ghost predicate JdatSoFar(jpeg: seq<Byte>, k: nat, done: seq<seq<Byte>>) {
    k <= |jpeg| && done + Pieces(jpeg[k..]) == Pieces(jpeg)
  }

  lemma NoPieces(crc: Crc, cs: seq<Chunk>, jpeg: seq<Byte>)
    ensures JdatSoFar(jpeg, 0, [])
    ensures cs + Wrapped(crc, JDAT, []) == cs && cs + Wrapped(crc, IDAT, []) == cs
  {
    assert jpeg[0..] == jpeg;
    assert [] + Pieces(jpeg) == Pieces(jpeg);
  }

  lemma AllPieces(jpeg: seq<Byte>, done: seq<seq<Byte>>)
    requires JdatSoFar(jpeg, |jpeg|, done)
    ensures done == Pieces(jpeg)
  {
    assert jpeg[|jpeg|..] == [] && done + [] == done;
  }

  lemma NextPiece(crc: Crc, cs: seq<Chunk>, jpeg: seq<Byte>, k: nat, done: seq<seq<Byte>>)
    requires JdatSoFar(jpeg, k, done) && k < |jpeg|
    ensures var n := Min(JPEG_CHUNK_SIZE, |jpeg| - k);
      var piece := jpeg[k..k + n];
      && JdatSoFar(jpeg, k + n, done + [piece])
      && cs + Wrapped(crc, JDAT, done + [piece]) == (cs + Wrapped(crc, JDAT, done)) + [MakeChunk(crc, JDAT, piece)]
  {
    hide Pieces, Wrapped;
    var n := Min(JPEG_CHUNK_SIZE, |jpeg| - k);
    var piece := jpeg[k..k + n];
    PiecesFrom(jpeg, k);
    WrappedMore(crc, cs, JDAT, done, piece);
    assert (done + [piece]) + Pieces(jpeg[k + n..]) == done + ([piece] + Pieces(jpeg[k + n..]));
  }

  lemma PiecesFrom(jpeg: seq<Byte>, k: nat)
    requires k < |jpeg|
    ensures var n := Min(JPEG_CHUNK_SIZE, |jpeg| - k);
      Pieces(jpeg[k..]) == [jpeg[k..k + n]] + Pieces(jpeg[k + n..])
  {
    var n := Min(JPEG_CHUNK_SIZE, |jpeg| - k);
    var rest := jpeg[k..];
    assert rest[..n] == jpeg[k..k + n] && rest[n..] == jpeg[k + n..];
    assert Pieces(rest)[1..] == Pieces(rest[n..]);
  }

  lemma WrappedMore(crc: Crc, cs: seq<Chunk>, name: Name, parts: seq<seq<Byte>>, part: seq<Byte>)
    ensures cs + Wrapped(crc, name, parts + [part]) == (cs + Wrapped(crc, name, parts)) + [MakeChunk(crc, name, part)]
  {
    assert Wrapped(crc, name, parts + [part]) == Wrapped(crc, name, parts) + [MakeChunk(crc, name, part)];
  }

  /** The stream holds an encoded PNG chunk list that ends with IEND. */
  ghost predicate IsPng(bytes: seq<Byte>, cs: seq<Chunk>) {
    Holds(bytes, PNG_SIGNATURE, cs, []) && EndsWithIend(cs)
  }

  /** The search from behind the first k chunks. */
  lemma FindBehind(bytes: seq<Byte>, cs: seq<Chunk>, k: nat)
    requires IsPng(bytes, cs) && k <= |cs|
    ensures AllFit(cs) && AllFit(cs[..k]) && AllFit(cs[k..]) && |bytes| == 8 + |Encode(cs)| && |Encode(cs[..k])| <= |Encode(cs)|
    ensures NoWrap(bytes, IDAT, 8 + |Encode(cs[..k])|)
    ensures var offset, m := 8 + |Encode(cs[..k])|, FirstNamed(cs[k..], IDAT);
      FindFrom(bytes, IDAT, offset)
      == if m == |cs| - k then None
         else Some((offset + |Encode(cs[k..][..m])|, offset + |Encode(cs[k..][..m + 1])|))
  {
    hide Encode, ChunkBytes, FindFrom, NoWrap, ChunkAt, EndsWithIend, FirstNamed;
    assert cs == cs[..k] + cs[k..];
    EncodeConcat(cs[..k], cs[k..]);
    var pre := PNG_SIGNATURE + Encode(cs[..k]);
    assert bytes == pre + Encode(cs[k..]) + [];
    FindInEncoded(pre, cs[k..], [], IDAT);
    assert pre + Encode(cs[k..]) == bytes;
    FindNothing(bytes, IDAT, |bytes|);
  }

  /** What one turn of the IDAT loop finds. */
  lemma NextIdat(bytes: seq<Byte>, cs: seq<Chunk>, k: nat)
    requires IsPng(bytes, cs) && k <= |cs|
    ensures AllFit(cs[..k]) && NoWrap(bytes, IDAT, 8 + |Encode(cs[..k])|) && 8 + |Encode(cs[..k])| <= |bytes|
    ensures var offset, j := 8 + |Encode(cs[..k])|, k + FirstNamed(cs[k..], IDAT);
      if j == |cs| then FindFrom(bytes, IDAT, offset) == None
      else
        && j < |cs| && |bytes| - offset >= 24 && AllFit(cs[..j]) && AllFit(cs[..j + 1])
        && FindFrom(bytes, IDAT, offset) == Some((8 + |Encode(cs[..j])|, 8 + |Encode(cs[..j + 1])|))
  {
    hide Encode, FindFrom, NoWrap, FirstNamed, Holds;
    FindBehind(bytes, cs, k);
    var j := k + FirstNamed(cs[k..], IDAT);
    if j < |cs| {
      assert cs[k..][j - k] == cs[j];
      BetweenChunks(cs, k, j);
      BetweenChunks(cs, k, j + 1);
      IendLater(cs, k, j);
    }
  }

  /** The bytes between the name and the CRC of chunk j. */
  lemma PayloadOf(bytes: seq<Byte>, cs: seq<Chunk>, j: nat)
    requires IsPng(bytes, cs) && j < |cs|
    ensures AllFit(cs[..j]) && AllFit(cs[..j + 1])
    ensures var start, next := 8 + |Encode(cs[..j])|, 8 + |Encode(cs[..j + 1])|;
      next == start + 12 + |cs[j].data| <= |bytes| && bytes[start + 8..next - 4] == cs[j].data
  {
    hide Encode, ChunkBytes, ChunkAt;
    ChunkInStream(PNG_SIGNATURE, cs, [], j);
    assert bytes == PNG_SIGNATURE + Encode(cs) + [];
    ChunkAtFits(bytes, 8 + |Encode(cs[..j])|, cs[j]);
    FieldsAt(bytes, 8 + |Encode(cs[..j])|, cs[j]);
  }

  lemma BetweenChunks(cs: seq<Chunk>, k: nat, j: nat)
    requires AllFit(cs) && k <= j <= |cs|
    ensures |Encode(cs[..j])| == |Encode(cs[..k])| + |Encode(cs[k..][..j - k])|
  {
    assert cs[..j] == cs[..k] + cs[k..][..j - k];
    EncodeConcat(cs[..k], cs[k..][..j - k]);
  }

  /** A chunk other than IEND is followed by IEND, so at least 24 bytes are left. */
  lemma IendLater(cs: seq<Chunk>, k: nat, j: nat)
    requires AllFit(cs) && EndsWithIend(cs) && k <= j < |cs| && cs[j].name == IDAT
    ensures |Encode(cs)| >= |Encode(cs[..k])| + 24
  {
    hide ChunkBytes;
    assert j < |cs| - 1;
    EncodeAt(cs, k);
    EncodeAt(cs, k + 1);
  }

  lemma NoIdats(crc: Crc, cs: seq<Chunk>, alpha: seq<Chunk>)
    ensures AllFit(alpha[..0]) && |Encode(alpha[..0])| == 0
    ensures cs + Wrapped(crc, IDAT, Named(alpha[..0], IDAT)) == cs
  {
  }

  /** The IDAT loop: a search from each position behind the chunk found before. */
  method WriteAlpha(crc: Crc, png: MemoryStream, s: MemoryStream, ghost alpha: seq<Chunk>, ghost cs: seq<Chunk>)
    requires png.Valid() && IsPng(png.Contents(), alpha) && png != s && png.data != s.data
    requires Written(s, cs)
    modifies s, s.data
    ensures Written(s, cs + Wrapped(crc, IDAT, Named(alpha, IDAT))) && (s.data == old(s.data) || fresh(s.data))
  {
    hide Written, IsPng, Encode, NoWrap, FindFrom, FirstNamed, Named, Wrapped, MakeChunk, AllFit;
    ghost var bytes := png.Contents();
    ghost var k := 0;
    NoIdats(crc, cs, alpha);
    var offset := 8;
    while true
      invariant png.Contents() == bytes && png.Valid() && png.data != s.data
      invariant k <= |alpha| && AllFit(alpha[..k]) && offset == 8 + |Encode(alpha[..k])|
      invariant Written(s, cs + Wrapped(crc, IDAT, Named(alpha[..k], IDAT))) && (s.data == old(s.data) || fresh(s.data))
      decreases |alpha| - k
    {
      NextIdat(bytes, alpha, k);
      NamedUpTo(alpha, k, IDAT);
      var found, start, next := FindChunk(png, IDAT, offset);
      ghost var j := k + FirstNamed(alpha[k..], IDAT);
      if !found {
        assert j == |alpha| && Named(alpha[..k], IDAT) + [] == Named(alpha[..k], IDAT);
        return;
      }
      PayloadOf(bytes, alpha, j);
      var data, size := png.Acquire();
      ghost var done := Named(alpha[..k], IDAT);
      WrappedMore(crc, cs, IDAT, done, alpha[j].data);
      BufferSlice(data, size, start + 8, next - 4);
      AddChunk(crc, IDAT, data[start + 8..next - 4], s, cs + Wrapped(crc, IDAT, done));
      offset := next;
      k := j + 1;
    }
  }

  lemma BufferSlice(data: array<Byte>, size: nat, i: nat, j: nat)
    requires i <= j <= size <= data.Length
    ensures data[i..j] == data[..size][i..j]
  {
  }

  /** The alpha payloads that go into the container. */
  ghost function AlphaParts(b: Bitmap, alpha: seq<Chunk>): seq<seq<Byte>> {
    if b.bpp == 32 then Named(alpha, IDAT) else []
  }

  /** The stream starts with the signature of a JNG and a JHDR chunk with 16 bytes of data that tell the
      bitmap's size and its type: 14 with an alpha channel, 8 for greyscale, 10 for colour. */
  ghost predicate SavedHeader(b: Bitmap, s: seq<Byte>) {
    && |s| >= 36 && s[..8] == [139, 74, 78, 71, 13, 10, 26, 10]
    && s[8..16] == [0, 0, 0, 16, 74, 72, 68, 82]
    && Word(s[16], s[17], s[18], s[19]) == b.width && Word(s[20], s[21], s[22], s[23]) == b.height
    && (s[24] == 14 <==> b.bpp == 32) && (s[24] == 8 <==> b.bpp == 8 && b.minIsBlack) && s[24] in {8, 10, 14}
    && s[25] == 8 && s[26] == 8 && s[27] == 0
    && s[28] == (if b.bpp == 32 then 8 else 0) && s[29] == s[30] == s[31] == 0
  }

  /** What is written first stays in front, whatever is refused behind it. */
  lemma {:induction false} EmitKeeps(s: seq<Byte>, cs: seq<Chunk>)
    requires AllFit(cs)
    ensures s <= EmitAll(s, cs)
    decreases |cs|
  {
    hide BE32;
    if cs != [] {
      EmitKeeps(s, cs[..|cs| - 1]);
      ChunkKeeps(EmitAll(s, cs[..|cs| - 1]), cs[|cs| - 1]);
    }
  }

  lemma ChunkKeeps(s: seq<Byte>, c: Chunk)
    requires Fits(c)
    ensures s <= EmitChunk(s, c)
  {
    hide BE32;
  }

  lemma {:induction false} EmitFrom(s: seq<Byte>, c: Chunk, cs: seq<Chunk>)
    requires Fits(c) && AllFit(cs)
    ensures AllFit([c] + cs) && EmitAll(s, [c] + cs) == EmitAll(EmitChunk(s, c), cs)
    decreases |cs|
  {
    hide EmitChunk;
    if cs == [] {
      assert [c] + [] == [c] && [c][..0] == [] && EmitAll(s, []) == s && EmitAll(EmitChunk(s, c), []) == EmitChunk(s, c);
    } else {
      var most := cs[..|cs| - 1];
      assert [c] + cs == ([c] + most) + [cs[|cs| - 1]] && cs == most + [cs[|cs| - 1]];
      EmitFrom(s, c, most);
      EmitMore(s, [c] + most, cs[|cs| - 1]);
      EmitMore(EmitChunk(s, c), most, cs[|cs| - 1]);
    }
  }

  lemma HeaderInFront(crc: Crc, b: Bitmap, jpeg: seq<Byte>, idats: seq<seq<Byte>>)
    requires AllFit(JngChunks(crc, HeaderFor(b), jpeg, idats))
    ensures SavedHeader(b, JngStream(crc, HeaderFor(b), jpeg, idats))
  {
    hide BE32, Pieces, Wrapped, EmitAll, EmitChunk, SavedHeader;
    var jhdr := MakeChunk(crc, JHDR, HeaderBytes(HeaderFor(b)));
    var cs := JngChunks(crc, HeaderFor(b), jpeg, idats);
    assert cs[0] == jhdr && cs == [jhdr] + cs[1..];
    EmitFrom(JNG_SIGNATURE, jhdr, cs[1..]);
    EmitChunkFits(JNG_SIGNATURE, jhdr);
    EmitKeeps(JNG_SIGNATURE + ChunkBytes(jhdr), cs[1..]);
    FrontIsHeader(crc, b, JngStream(crc, HeaderFor(b), jpeg, idats));
  }

  lemma FrontIsHeader(crc: Crc, b: Bitmap, s: seq<Byte>)
    requires JNG_SIGNATURE + ChunkBytes(MakeChunk(crc, JHDR, HeaderBytes(HeaderFor(b)))) <= s
    ensures SavedHeader(b, s)
  {
    hide BE32;
    var jhdr := MakeChunk(crc, JHDR, HeaderBytes(HeaderFor(b)));
    var fields: seq<Byte> := [if b.bpp == 32 then 14 else if b.bpp == 8 && b.minIsBlack then 8 else 10, 8, 8, 0,
                              if b.bpp == 32 then 8 else 0, 0, 0, 0];
    NetworkOrder(16, [0, 0, 0, 16]);
    NetworkOrder(b.width, BE32(b.width));
    NetworkOrder(b.height, BE32(b.height));
    FrontParts(s, JNG_SIGNATURE, BE32(16), JHDR, BE32(b.width), BE32(b.height), fields, BE32(jhdr.crc));
  }

  lemma FrontParts(s: seq<Byte>, sig: seq<Byte>, length: Name, name: Name, w: Name, h: Name, f: seq<Byte>, crc: Name)
    requires |sig| == |f| == 8 && sig + (length + name + (w + h + f) + crc) <= s
    ensures |s| >= 36 && s[..8] == sig && s[8..16] == length + name
    ensures s[16] == w[0] && s[17] == w[1] && s[18] == w[2] && s[19] == w[3]
    ensures s[20] == h[0] && s[21] == h[1] && s[22] == h[2] && s[23] == h[3]
    ensures s[24] == f[0] && s[25] == f[1] && s[26] == f[2] && s[27] == f[3]
    ensures s[28] == f[4] && s[29] == f[5] && s[30] == f[6] && s[31] == f[7]
  {
    var front := sig + (length + name + (w + h + f) + crc);
    assert s[..36] == front;
    assert front[8..16] == length + name;
  }

  /** mng_WriteJNG.  The two codecs are not part of this model: jpeg and png hold what they saved, and
      are null if saving failed. */
  method WriteJNG(crc: Crc, b: Bitmap, jpeg: MemoryStream?, png: MemoryStream?, ghost alpha: seq<Chunk>)
    returns (ok: bool, jng: seq<Byte>)
    requires jpeg != null ==> jpeg.Valid()
    requires png != null ==> png.Valid() && IsPng(png.Contents(), alpha)
    ensures ok <==> b.standard && b.bpp in {8, 24, 32} && jpeg != null && (b.bpp == 32 ==> png != null)
    ensures ok ==>
              AllFit(JngChunks(crc, HeaderFor(b), jpeg.Contents(), AlphaParts(b, alpha)))
              && jng == JngStream(crc, HeaderFor(b), jpeg.Contents(), AlphaParts(b, alpha))
              && SavedHeader(b, jng)
  {
    hide SavedHeader, HeaderFor, Written, IsPng, Encode, ChunkBytes, HeaderBytes, Pieces, Named, Wrapped, MakeChunk, JngChunks, AllFit, EmitAll;
    jng := [];
    if !b.standard || b.bpp !in {8, 24, 32} {
      return false, [];
    }
    var h := HeaderFor(b);
    var s := new MemoryStream.Open();
    Append(s, JNG_SIGNATURE);
    SignatureOnly(s);
    AddChunk(crc, JHDR, HeaderBytes(h), s, []);
    if jpeg == null {
      return false, [];
    }
    var jpegData, jpegSize := jpeg.Acquire();
    ghost var cs := [] + [MakeChunk(crc, JHDR, HeaderBytes(h))];
    WriteJpeg(crc, jpegData[..jpegSize], s, cs);
    cs := cs + Wrapped(crc, JDAT, Pieces(jpeg.Contents()));
    if b.bpp == 32 {
      if png == null {
        return false, [];
      }
      WriteAlpha(crc, png, s, alpha, cs);
    } else {
      NoPieces(crc, cs, []);
    }
    AddChunk(crc, IEND, [], s, cs + Wrapped(crc, IDAT, AlphaParts(b, alpha)));
    FromStart(crc, h, jpeg.Contents(), AlphaParts(b, alpha));
    WrittenIs(s, JngChunks(crc, h, jpeg.Contents(), AlphaParts(b, alpha)));
    HeaderInFront(crc, b, jpeg.Contents(), AlphaParts(b, alpha));
    var data, size := s.Acquire();
    ok, jng := true, data[..size];
  }

  /** The container's chunks, one part after the other. */
  lemma FromStart(crc: Crc, h: Header, jpeg: seq<Byte>, idats: seq<seq<Byte>>)
    ensures [] + [MakeChunk(crc, JHDR, HeaderBytes(h))] + Wrapped(crc, JDAT, Pieces(jpeg)) + Wrapped(crc, IDAT, idats)
            + [MakeChunk(crc, IEND, [])]
            == JngChunks(crc, h, jpeg, idats)
  {
    hide Wrapped, Pieces, MakeChunk, HeaderBytes;
    var first := MakeChunk(crc, JHDR, HeaderBytes(h));
    assert [] + [first] == [first];
  }

  lemma SignatureOnly(s: MemoryStream)
    requires AtEnd(s) && s.Contents() == JNG_SIGNATURE
    ensures Written(s, [])
  {
  }

  lemma WrittenIs(s: MemoryStream, cs: seq<Chunk>)
    requires Written(s, cs)
    ensures AtEnd(s) && AllFit(cs) && s.Contents() == EmitAll(JNG_SIGNATURE, cs)
  {
  }

  // ---------- mng_ReadChunks ----------

  /** A stream that is opened when the first bytes for it come. */
  ghost predicate Holding(s: MemoryStream?, bytes: Option<seq<Byte>>)
    reads if s == null then {} else {s, s.data}
  {
    && (s == null <==> bytes.None?)
    && (s != null ==> AtEnd(s) && s.Contents() == bytes.value)
  }

  method Collect(s: MemoryStream?, bytes: seq<Byte>, ghost before: Option<seq<Byte>>) returns (s': MemoryStream)
    requires Holding(s, before) && (bytes == [] || |OrEmpty(before)| + |bytes| < INT_MAX)
    modifies if s == null then {} else {s, s.data}
    ensures Holding(s', Some(OrEmpty(before) + bytes))
    ensures if s == null then fresh(s') && fresh(s'.data) else s' == s && (s.data == old(s.data) || fresh(s.data))
  {
    if s == null {
      s' := new MemoryStream.Open();
    } else {
      s' := s;
    }
    Append(s', bytes);
  }

  /** Reads up to n bytes elsewhere in the stream into a new buffer and puts the cursor back. */
  method TakeFrom(stream: MemoryStream, pos: nat, n: Dword) returns (bytes: seq<Byte>)
    requires stream.Valid() && pos <= stream.fileLength
    modifies stream`currentPosition
    ensures stream.Valid() && stream.Contents() == old(stream.Contents())
    ensures stream.currentPosition == old(stream.currentPosition) && |bytes| == n
    ensures pos + n <= stream.fileLength ==> bytes == stream.Contents()[pos..pos + n]
  {
    var origPos := stream.Tell();
    var sought := stream.Seek(pos, SeekSet);
    var buffer := new Byte[n];
    var got := stream.Read(buffer, 1, n);
    bytes := buffer[..];
    assert pos + n <= stream.fileLength ==> stream.Contents()[pos..][..n] == stream.Contents()[pos..pos + n];
    sought := stream.Seek(origPos, SeekSet);
  }

  /** The IHDR case: the chunks up to IEND behind a signature, with the global palette plugged in. */
  method WrapPng(env: Env, stream: MemoryStream, pos: nat, palette: Option<seq<Byte>>, meta: Meta)
    returns (out: Outcome)
    requires stream.Valid() && pos <= stream.fileLength && (pos < stream.fileLength ==> |OrEmpty(palette)| <= INT_MAX)
    requires PngPart(env, stream.Contents(), pos, palette, meta) != Wraps
    modifies stream`currentPosition
    ensures stream.Valid() && stream.Contents() == old(stream.Contents())
    ensures out == PngPart(env, stream.Contents(), pos, palette, meta)
  {
    hide CountFrom, PlugsSafely, Plugged;
    var ok, total := CountPNGChunks(stream, pos);
    if !ok {
      return Nothing;
    }
    CountWithin(stream.Contents(), pos);
    var png := new MemoryStream.Open();
    Append(png, PNG_SIGNATURE);
    assert png.Contents() == PNG_SIGNATURE;
    var chunks := TakeFrom(stream, pos, total);
    Append(png, chunks);
    if palette.Some? {
      PlugPalette(png, palette.value, env.garbage);
    }
    var data, size := png.Acquire();
    out := PngImage(data[..size], meta);
  }

  /** The IEND case. */
  method FinishJng(crc: Crc, h: Header, jpeg: MemoryStream?, idat: MemoryStream?, meta: Meta, ghost st: State)
    returns (out: Outcome)
    requires Holding(jpeg, st.jpeg) && Holding(idat, st.idat) && |OrEmpty(st.idat)| <= INT_MAX
    requires h == st.header && meta == st.meta
    ensures out == ImageOf(crc, st)
  {
    hide AlphaStream;
    if jpeg == null {
      return Nothing;
    }
    var data, size := jpeg.Acquire();
    var alpha := None;
    if idat != null {
      var idatData, idatSize := idat.Acquire();
      if idatSize > 0 {
        var png := new MemoryStream.Open();
        WritePNGStream(crc, h.width, h.height, h.alphaDepth, idatData[..idatSize], png);
        var pngData, pngSize := png.Acquire();
        alpha := Some(pngData[..pngSize]);
      }
    }
    out := JngImage(h, data[..size], alpha, meta);
  }

  /** Reads four bytes into a variable, or as many as there are. */
  method ReadFour(stream: MemoryStream, before: Name) returns (now: Name)
    requires stream.Valid() && stream.currentPosition <= stream.fileLength
    modifies stream`currentPosition
    ensures stream.Valid() && stream.Contents() == old(stream.Contents())
    ensures now == ReadOver(stream.Contents(), old(stream.currentPosition), before)
    ensures stream.currentPosition == Past(stream.Contents(), old(stream.currentPosition), 4)
  {
    var buffer := new Byte[4](i requires 0 <= i < 4 => before[i]);
    assert buffer[..] == before;
    var n := stream.Read(buffer, 1, 4);
    now := buffer[..];
  }

  /** The reads of one turn: length, name, data if the file is long enough for them, CRC. */
  method ReadTurn(stream: MemoryStream, lof: nat, stale: Stale) returns (g: Option<Gathered>)
    requires stream.Valid() && lof == stream.fileLength && stream.currentPosition <= lof
    modifies stream`currentPosition
    ensures stream.Valid() && stream.Contents() == old(stream.Contents())
    ensures g == Gather(stream.Contents(), old(stream.currentPosition), stale)
    ensures g.Some? ==> stream.currentPosition == g.value.next
  {
    hide FromBE32, ReadOver;
    var lengthBytes := ReadFour(stream, [0, 0, 0, 0]);
    var length := FromBE32(lengthBytes);
    var name := ReadFour(stream, stale.name);
    var data := [];
    if length > 0 {
      var offset := stream.Tell();
      if offset + length > lof {
        return None;
      }
      data := Take(stream, length);
    }
    var crcBytes := ReadFour(stream, stale.crc);
    return Some(Gathered(Chunk(name, data, FromBE32(crcBytes)), crcBytes, stream.currentPosition));
  }

  /** The streams share no buffer. */
  ghost predicate Apart(stream: MemoryStream, jpeg: MemoryStream?, idat: MemoryStream?)
    reads stream`data
    reads if jpeg == null then {} else {jpeg}
    reads if idat == null then {} else {idat}
  {
    && (jpeg != null ==> jpeg != stream && jpeg.data != stream.data)
    && (idat != null ==> idat != stream && idat.data != stream.data)
    && (jpeg != null && idat != null ==> jpeg != idat && jpeg.data != idat.data)
  }

  /** The same stream as before, if there was one. */
  twostate predicate Kept(s: MemoryStream?, new s': MemoryStream)
    reads s'
  {
    s' == s && (s'.data == old(s.data) || fresh(s'.data))
  }

  /** The palette is the one collected, unless the stream is at its end, where none is used. */
  ghost predicate PaletteIs(bytes: seq<Byte>, pos: nat, palette: Option<seq<Byte>>, st: State) {
    pos < |bytes| ==> palette == st.palette && |OrEmpty(palette)| <= INT_MAX
  }

  /** The variables of the loop, between turns. */
  datatype Locals = Locals(buffer: seq<Byte>, header: Header, meta: Meta, palette: Option<seq<Byte>>, left: Stale,
                           jpeg: MemoryStream?, idat: MemoryStream?)

  /** What the switch over the chunk's name is given: the variables before the turn, but for the chunk
      buffer, which holds what was read. */
  ghost predicate AtSwitch(stream: MemoryStream, s: Spot, c: Chunk, v: Locals)
    reads stream, stream.data
    reads if v.jpeg == null then {} else {v.jpeg, v.jpeg.data}
    reads if v.idat == null then {} else {v.idat, v.idat.data}
  {
    && stream.Valid() && SpotOk(stream.Contents(), s) && Fits(c)
    && (c.data == [] || s.pos + 8 + |c.data| <= stream.fileLength)
    && v.buffer == Held(s.st.buffer, c.data) && v.header == s.st.header && v.meta == s.st.meta
    && PaletteIs(stream.Contents(), s.pos, v.palette, s.st)
    && Holding(v.jpeg, s.st.jpeg) && Holding(v.idat, s.st.idat) && Apart(stream, v.jpeg, v.idat)
  }

  /** The cases that end the loop. */
  method Conclude(env: Env, stream: MemoryStream, ghost s: Spot, lastOffset: nat, c: Chunk, v: Locals)
    returns (end: bool, out: Outcome)
    requires AtSwitch(stream, s, c, v) && lastOffset == s.pos
    requires Final(env, stream.Contents(), s, c) !in {Some(Wraps), Some(Faults)}
    modifies stream`currentPosition
    ensures stream.Valid() && stream.Contents() == old(stream.Contents())
    ensures Final(env, stream.Contents(), s, c) == if end then Some(out) else None
    ensures !end ==> stream.currentPosition == old(stream.currentPosition) && Usable(s.st, c)
  {
    hide Final, Holding, PngPart, AlphaStream, Apart, ImageOf, Misreads;
    FinalIs(env, stream.Contents(), s, c);
    end, out := true, Nothing;
    if c.name == IHDR {
      NothingAtEnd(env, stream.Contents(), s, v.palette);
      out := WrapPng(env, stream, lastOffset, v.palette, v.meta);
    } else if c.name == IEND {
      out := FinishJng(env.crc, v.header, v.jpeg, v.idat, v.meta, s.st);
    } else if c.name == JHDR && |c.data| != 16 {
      out := Bad(BadHeader);
    } else if c.name != MEND {
      end := false;
    }
  }

  /** The metadata cases.  The chunk buffer is read at fixed places. */
  method TakeMeta(c: Chunk, buffer: seq<Byte>, meta: Meta, ghost before: seq<Byte>) returns (meta': Meta)
    requires buffer == Held(before, c.data) && !Misreads(before, c)
    ensures meta' == MetaAfter(meta, before, c)
  {
    hide TextPair;
    meta' := meta;
    if c.name == PHYS {
      meta' := meta.(resX := FromBE32(buffer[0..4]), resY := FromBE32(buffer[4..8]));
    } else if c.name == BKGD {
      meta' := meta.(background := Some((buffer[1], buffer[3], buffer[5])));
    } else if c.name == TEXT {
      var key, value := ReadText(c.data);
      meta' := meta.(texts := meta.texts[key := value]);
    }
  }

  /** The JDAT and IDAT cases. */
  method TakePayload(headerOnly: bool, ghost stream: MemoryStream, c: Chunk, v: Locals, ghost st: State)
    returns (jpeg: MemoryStream?, idat: MemoryStream?)
    requires stream.Valid() && v.header == st.header && Usable(st, c)
    requires c.data == [] || (|OrEmpty(st.jpeg)| + |c.data| < INT_MAX && |OrEmpty(st.idat)| + |c.data| < INT_MAX)
    requires Holding(v.jpeg, st.jpeg) && Holding(v.idat, st.idat) && Apart(stream, v.jpeg, v.idat)
    modifies if v.jpeg == null then {} else {v.jpeg, v.jpeg.data}
    modifies if v.idat == null then {} else {v.idat, v.idat.data}
    ensures Holding(jpeg, After(st, c, headerOnly).jpeg) && Holding(idat, After(st, c, headerOnly).idat)
    ensures Apart(stream, jpeg, idat)
    ensures jpeg != null ==> Kept(v.jpeg, jpeg) || (fresh(jpeg) && fresh(jpeg.data))
    ensures idat != null ==> Kept(v.idat, idat) || (fresh(idat) && fresh(idat.data))
  {
    hide After, Holding, Misreads, Usable;
    AfterIs(st, c, headerOnly);
    jpeg, idat := v.jpeg, v.idat;
    if c.name == JDAT {
      jpeg := Collect(jpeg, c.data, st.jpeg);
    } else if c.name == IDAT {
      if !headerOnly && v.header.alphaCompression == 0 {
        idat := Collect(idat, c.data, st.idat);
      }
    }
  }

  /** The PLTE case: the whole chunk is read again. */
  method TakePalette(stream: MemoryStream, lastOffset: nat, c: Chunk) returns (whole: seq<Byte>)
    requires stream.Valid() && Fits(c) && lastOffset <= stream.currentPosition <= stream.fileLength
    requires c.data == [] || lastOffset + 8 + |c.data| <= stream.fileLength
    requires stream.currentPosition < stream.fileLength ==> ChunkAt(stream.Contents(), lastOffset, c)
    modifies stream`currentPosition
    ensures stream.Valid() && stream.Contents() == old(stream.Contents())
    ensures stream.currentPosition == old(stream.currentPosition)
    ensures stream.currentPosition < stream.fileLength ==> whole == ChunkBytes(c) && |whole| <= INT_MAX
  {
    hide ChunkAt, ChunkBytes;
    whole := TakeFrom(stream, lastOffset, |c.data| + 12);
    if stream.currentPosition < stream.fileLength {
      WholeChunk(stream.Contents(), lastOffset, c);
    }
  }

  /** The cases that go on: PLTE, JHDR, JDAT, IDAT, metadata, and chunks that decide nothing. */
  method TakeIn(env: Env, stream: MemoryStream, ghost s: Spot, lastOffset: nat, c: Chunk, v: Locals, left: Stale)
    returns (v': Locals)
    requires AtSwitch(stream, s, c, v) && lastOffset == s.pos && Usable(s.st, c)
    requires s.pos <= stream.currentPosition <= stream.fileLength
    requires stream.currentPosition < stream.fileLength ==> ChunkAt(stream.Contents(), s.pos, c)
    modifies stream`currentPosition
    modifies if v.jpeg == null then {} else {v.jpeg, v.jpeg.data}
    modifies if v.idat == null then {} else {v.idat, v.idat.data}
    ensures stream.Valid() && stream.Contents() == old(stream.Contents())
    ensures stream.currentPosition == old(stream.currentPosition)
    ensures v'.buffer == After(s.st, c, env.headerOnly).buffer && v'.header == After(s.st, c, env.headerOnly).header
    ensures v'.meta == After(s.st, c, env.headerOnly).meta && v'.left == left
    ensures PaletteIs(stream.Contents(), stream.currentPosition, v'.palette, After(s.st, c, env.headerOnly))
    ensures Holding(v'.jpeg, After(s.st, c, env.headerOnly).jpeg) && Holding(v'.idat, After(s.st, c, env.headerOnly).idat)
    ensures Apart(stream, v'.jpeg, v'.idat)
    ensures v'.jpeg != null ==> Kept(v.jpeg, v'.jpeg) || (fresh(v'.jpeg) && fresh(v'.jpeg.data))
    ensures v'.idat != null ==> Kept(v.idat, v'.idat) || (fresh(v'.idat) && fresh(v'.idat.data))
  {
    hide After, Holding, ChunkAt, ChunkBytes, HeaderOf, MetaAfter, Misreads, Held, Usable, Collected;
    AfterIs(s.st, c, env.headerOnly);
    RoomToCollect(stream.Contents(), s, c);
    var meta := TakeMeta(c, v.buffer, v.meta, s.st.buffer);
    var h, palette := v.header, v.palette;
    if c.name == PLTE {
      var whole := TakePalette(stream, lastOffset, c);
      palette := Some(whole);
    } else if c.name == JHDR {
      h := HeaderOf(c.data);
    }
    var jpeg, idat := TakePayload(env.headerOnly, stream, c, v, s.st);
    v' := Locals(v.buffer, h, meta, palette, left, jpeg, idat);
  }

  /** The streams that collect payloads stay shorter than the file, and the chunk is none to stumble on. */
  lemma RoomToCollect(bytes: seq<Byte>, s: Spot, c: Chunk)
    requires SpotOk(bytes, s) && (c.data == [] || s.pos + 8 + |c.data| <= |bytes|) && Usable(s.st, c)
    ensures c.data == [] || |OrEmpty(s.st.jpeg)| + |c.data| < INT_MAX
    ensures c.data == [] || |OrEmpty(s.st.idat)| + |c.data| < INT_MAX
    ensures !Misreads(s.st.buffer, c) && (c.name == JHDR ==> |c.data| == 16)
  {
  }

  lemma WholeChunk(bytes: seq<Byte>, pos: nat, c: Chunk)
    requires ChunkAt(bytes, pos, c)
    ensures pos + 12 + |c.data| <= |bytes| && Fits(c) && bytes[pos..pos + 12 + |c.data|] == ChunkBytes(c)
  {
  }

  /** Where the stream ends no PNG stands, so the palette does not matter. */
  lemma NothingAtEnd(env: Env, bytes: seq<Byte>, s: Spot, palette: Option<seq<Byte>>)
    requires SpotOk(bytes, s) && PaletteIs(bytes, s.pos, palette, s.st)
    ensures PngPart(env, bytes, s.pos, palette, s.st.meta) == PngPart(env, bytes, s.pos, s.st.palette, s.st.meta)
  {
    hide PlugsSafely, Plugged, LengthAt, NameAt, FromBE32;
  }

  lemma FinalIs(env: Env, bytes: seq<Byte>, s: Spot, c: Chunk)
    requires SpotOk(bytes, s)
    ensures Final(env, bytes, s, c)
            == if c.name == MEND then Some(Nothing)
               else if c.name == IHDR then Some(PngPart(env, bytes, s.pos, s.st.palette, s.st.meta))
               else if c.name == JHDR && |c.data| != 16 then Some(Bad(BadHeader))
               else if c.name == IEND then Some(ImageOf(env.crc, s.st))
               else if Misreads(s.st.buffer, c) then Some(Faults)
               else None
  {
    hide PngPart, ImageOf, Misreads;
  }

  lemma AfterIs(st: State, c: Chunk, headerOnly: bool)
    requires Usable(st, c)
    ensures var st' := After(st, c, headerOnly);
      && st'.buffer == Held(st.buffer, c.data) && st'.meta == MetaAfter(st.meta, st.buffer, c)
      && st'.palette == (if c.name == PLTE then Some(ChunkBytes(c)) else st.palette)
      && st'.header == (if c.name == JHDR then HeaderOf(c.data) else st.header)
      && st'.jpeg == (if c.name == JDAT then Some(OrEmpty(st.jpeg) + c.data) else st.jpeg)
      && st'.idat == (if c.name == IDAT && !headerOnly && st.header.alphaCompression == 0
                      then Some(OrEmpty(st.idat) + c.data) else st.idat)
  {
    hide HeaderOf, ChunkBytes, MetaAfter, Misreads;
  }

  /** A turn that leaves bytes behind took a whole chunk. */
  lemma LeavesBytes(bytes: seq<Byte>, pos: nat, stale: Stale)
    requires pos <= |bytes| <= INT_MAX && Gather(bytes, pos, stale).Some? && Gather(bytes, pos, stale).value.next < |bytes|
    ensures ChunkAt(bytes, pos, Gather(bytes, pos, stale).value.c)
  {
    hide Gather, ChunkThere, ChunkAt;
    if ChunkThere(bytes, pos).None? {
      GatherRagged(bytes, pos, stale);
    } else {
      GatherWhole(bytes, pos, ChunkThere(bytes, pos).value, stale);
    }
  }

  /** What a turn comes to, step by step. */
  lemma TurnIs(env: Env, bytes: seq<Byte>, s: Spot)
    requires SpotOk(bytes, s)
    ensures var g := Gather(bytes, s.pos, s.stale);
      if g.None? then Turn(env, bytes, s) == Stopped(Bad(UnexpectedEnd))
      else
        var c := g.value.c;
        if CrcCheck(env.crc, s.st.buffer != [], c) != c.crc then Turn(env, bytes, s) == Stopped(Bad(BadCrc))
        else if Final(env, bytes, s, c).Some? then Turn(env, bytes, s) == Stopped(Final(env, bytes, s, c).value)
        else
          && Usable(s.st, c)
          && Turn(env, bytes, s)
             == Going(Spot(g.value.next, After(s.st, c, env.headerOnly), Stale(c.name, Swapped(g.value.crcBytes))))
  {
    hide Gather, CrcCheck, PngPart, ImageOf, After, Misreads;
  }

  lemma CheckIs(crc: Crc, before: seq<Byte>, c: Chunk)
    ensures CrcCheck(crc, before != [], c) == if Held(before, c.data) != [] then crc(crc(0, c.name), c.data) else 0
  {
  }

  /** The variables are those that the spot describes, and the cursor is there. */
  ghost predicate AtTurn(stream: MemoryStream, v: Locals, s: Spot)
    reads stream, stream.data
    reads if v.jpeg == null then {} else {v.jpeg, v.jpeg.data}
    reads if v.idat == null then {} else {v.idat, v.idat.data}
  {
    && stream.Valid() && SpotOk(stream.Contents(), s) && stream.currentPosition == s.pos
    && v.buffer == s.st.buffer && v.header == s.st.header && v.meta == s.st.meta && v.left == s.stale
    && PaletteIs(stream.Contents(), s.pos, v.palette, s.st)
    && Holding(v.jpeg, s.st.jpeg) && Holding(v.idat, s.st.idat) && Apart(stream, v.jpeg, v.idat)
  }

  /** Reads a chunk and checks its CRC.  The chunk buffer gets the data, if there is some. */
  method ReadChecked(crc: Crc, stream: MemoryStream, lof: nat, before: seq<Byte>, left: Stale)
    returns (error: Option<Error>, g: Gathered, buffer: seq<Byte>)
    requires stream.Valid() && lof == stream.fileLength && stream.currentPosition <= lof
    modifies stream`currentPosition
    ensures stream.Valid() && stream.Contents() == old(stream.Contents())
    ensures var r := Gather(stream.Contents(), old(stream.currentPosition), left);
      if r.None? then error == Some(UnexpectedEnd)
      else if CrcCheck(crc, before != [], r.value.c) != r.value.c.crc then error == Some(BadCrc)
      else error == None && r == Some(g) && stream.currentPosition == g.next && buffer == Held(before, g.c.data)
  {
    hide Gather, CrcCheck;
    var r := ReadTurn(stream, lof, left);
    if r.None? {
      return Some(UnexpectedEnd), Gathered(Chunk(left.name, [], 0), left.crc, 0), before;
    }
    var c := r.value.c;
    CheckIs(crc, before, c);
    buffer := if |c.data| > 0 then c.data else before;
    var crcCheck := if buffer != [] then crc(crc(0, c.name), c.data) else 0;
    error, g := if crcCheck != c.crc then Some(BadCrc) else None, r.value;
  }

  /** One turn of the loop. */
  method OneTurn(env: Env, stream: MemoryStream, lof: nat, v: Locals, ghost s: Spot)
    returns (end: bool, out: Outcome, v': Locals)
    requires AtTurn(stream, v, s) && lof == stream.fileLength
    requires Turn(env, stream.Contents(), s) !in {Stopped(Wraps), Stopped(Faults)}
    modifies stream`currentPosition
    modifies if v.jpeg == null then {} else {v.jpeg, v.jpeg.data}
    modifies if v.idat == null then {} else {v.idat, v.idat.data}
    ensures stream.Valid() && stream.Contents() == old(stream.Contents())
    ensures if end then Turn(env, stream.Contents(), s) == Stopped(out)
            else Turn(env, stream.Contents(), s).Going? && AtTurn(stream, v', Turn(env, stream.Contents(), s).spot)
    ensures !end && v'.jpeg != null ==> Kept(v.jpeg, v'.jpeg) || (fresh(v'.jpeg) && fresh(v'.jpeg.data))
    ensures !end && v'.idat != null ==> Kept(v.idat, v'.idat) || (fresh(v'.idat) && fresh(v'.idat.data))
  {
    hide Final, After, Gather, Turn, CrcCheck, ChunkAt, Holding, PaletteIs, Misreads, Held, Usable, Collected;
    ghost var bytes := stream.Contents();
    TurnIs(env, bytes, s);
    var lastOffset := stream.Tell();
    var error, g, buffer := ReadChecked(env.crc, stream, lof, v.buffer, v.left);
    if error.Some? {
      return true, Bad(error.value), v;
    }
    var c := g.c;
    v' := v.(buffer := buffer);
    end, out := Conclude(env, stream, s, lastOffset, c, v');
    if !end {
      if g.next < lof {
        LeavesBytes(bytes, lastOffset, v.left);
      }
      AfterIs(s.st, c, env.headerOnly);
      v' := TakeIn(env, stream, s, lastOffset, c, v', Stale(c.name, Swapped(g.crcBytes)));
    }
  }

  /** One turn of a run that stops after k turns. */
  lemma RunTurn(env: Env, bytes: seq<Byte>, s: Spot, k: nat, result: Outcome)
    requires SpotOk(bytes, s) && RunFor(env, bytes, s, k) == Stopped(result)
    ensures k > 0
    ensures Turn(env, bytes, s).Stopped? ==> Turn(env, bytes, s).outcome == result
    ensures Turn(env, bytes, s).Going? ==> RunFor(env, bytes, Turn(env, bytes, s).spot, k - 1) == Stopped(result)
  {
    hide Turn;
  }

  lemma AtStart(stream: MemoryStream, v: Locals, s: Spot)
    requires stream.Valid() && stream.currentPosition == s.pos <= stream.fileLength && s.st == INITIAL
    requires v == Locals([], INITIAL.header, NO_META, None, s.stale, null, null)
    ensures AtTurn(stream, v, s)
  {
  }

  /** mng_ReadChunks, for every stream on which its loop ends, no chunk search wraps and no metadata chunk
      makes it read outside its buffers.  `stale` is what the name and the CRC variable hold at first. */
  method ReadChunks(env: Env, stream: MemoryStream, offset: nat, stale: Stale) returns (out: Outcome)
    requires stream.Valid() && offset <= stream.fileLength
    requires Parse(env, stream.Contents(), Spot(offset, INITIAL, stale)) !in {Hangs, Wraps, Faults}
    modifies stream`currentPosition
    ensures stream.Valid() && stream.Contents() == old(stream.Contents())
    ensures out == Parse(env, stream.Contents(), Spot(offset, INITIAL, stale))
  {
    hide Parse, Turn, RunFor, AtTurn;
    ghost var bytes, s := stream.Contents(), Spot(offset, INITIAL, stale);
    ghost var result := Parse(env, bytes, s);
    ghost var k := ParseIsRun(env, bytes, s);
    var v := Locals([], INITIAL.header, NO_META, None, stale, null, null);
    var lof := LengthOfFile(stream);
    var sought := stream.Seek(offset, SeekSet);
    AtStart(stream, v, s);
    while true
      invariant AtTurn(stream, v, s) && stream.Valid() && stream.Contents() == bytes && lof == |bytes|
      invariant SpotOk(bytes, s) && RunFor(env, bytes, s, k) == Stopped(result)
      invariant v.jpeg != null ==> fresh(v.jpeg) && fresh(v.jpeg.data)
      invariant v.idat != null ==> fresh(v.idat) && fresh(v.idat.data)
      decreases k
    {
      RunTurn(env, bytes, s, k, result);
      var end;
      end, out, v := OneTurn(env, stream, lof, v, s);
      if end {
        return;
      }
      s := Turn(env, bytes, s).spot;
      k := k - 1;
    }
  }

  /** Saving and loading: if the container of a bitmap was written complete, it parses to an image with
      the bitmap's size and type, exactly the bytes the JPEG codec saved, and for a bitmap with an alpha
      channel a stream that holds one greyscale PNG of depth 8 around all IDAT payloads of the PNG codec,
      joined in order.  Its metadata is not saved. */
  lemma SavedImageComesBack(env: Env, b: Bitmap, jpeg: seq<Byte>, alpha: seq<Chunk>, stale: Stale)
    requires Streaming(env.crc) && jpeg != [] && !env.headerOnly
    requires AllFit(JngChunks(env.crc, HeaderFor(b), jpeg, AlphaParts(b, alpha)))
    requires |JngBytes(env.crc, HeaderFor(b), jpeg, AlphaParts(b, alpha))| < INT_MAX
    ensures var bytes := JngStream(env.crc, HeaderFor(b), jpeg, AlphaParts(b, alpha));
      && SpotOk(bytes, Spot(8, INITIAL, stale)) && (b.bpp == 32 ==> |Concat(Named(alpha, IDAT))| < 0x1_0000_0000)
      && ComesBack(env.crc, b, jpeg, if b.bpp == 32 then Concat(Named(alpha, IDAT)) else [],
                   Parse(env, bytes, Spot(8, INITIAL, stale)))
  {
    hide JngChunks, Parse, Named, Encode, AlphaStream;
    var parts := AlphaParts(b, alpha);
    var bytes := JngBytes(env.crc, HeaderFor(b), jpeg, parts);
    assert bytes + [] == bytes;
    JngStreamExact(env.crc, HeaderFor(b), jpeg, parts);
    RoundTrip(env, JNG_SIGNATURE, HeaderFor(b), jpeg, parts, [], stale);
    assert Concat([]) == [];
  }

  /** The image of a saved bitmap. */
  ghost predicate ComesBack(crc: Crc, b: Bitmap, jpeg: seq<Byte>, joined: seq<Byte>, out: Outcome)
    requires |joined| < 0x1_0000_0000
  {
    && out.JngImage? && out.jpeg == jpeg && out.meta == NO_META
    && out.alpha == (if joined == [] then None else Some(AlphaStream(crc, b.width, b.height, 8, joined)))
    && var h := out.header;
      && h.width == b.width && h.height == b.height && h.sampleDepth == 8 && h.compression == 8
      && (h.colorType == 14 <==> b.bpp == 32) && (h.colorType == 8 <==> b.bpp == 8 && b.minIsBlack)
      && h.colorType in {8, 10, 14} && h.alphaDepth == (if b.bpp == 32 then 8 else 0)
      && h.interlace == h.alphaCompression == h.alphaFilter == h.alphaInterlace == 0
  }

  /** The alpha stream, if it is complete, is a PNG of these dimensions and depth, greyscale, with one IDAT
      chunk, whose payload is given. */
  lemma AlphaIsPng(crc: Crc, width: Dword, height: Dword, depth: Byte, idat: seq<Byte>)
    requires |idat| + 57 < INT_MAX && Streaming(crc)
    ensures var s := AlphaStream(crc, width, height, depth, idat);
      && |s| == |idat| + 57 && s[..8] == [137, 80, 78, 71, 13, 10, 26, 10]
      && ListToEnd(s, 8).Some? && IsGrey(crc, width, height, depth, idat, ListToEnd(s, 8).value)
  {
    hide ListToEnd, BE32;
    var cs := AlphaChunks(crc, width, height, depth, idat);
    EncodeThree(cs[0], cs[1], cs[2]);
    EmitExact(PNG_SIGNATURE, cs);
    assert PNG_SIGNATURE + Encode(cs) + [] == PNG_SIGNATURE + Encode(cs);
    ListOfEncoded(PNG_SIGNATURE, cs, []);
    NetworkOrder(width, BE32(width));
    NetworkOrder(height, BE32(height));
    MadeChunkIsGood(crc, IHDR, cs[0].data);
    MadeChunkIsGood(crc, IDAT, idat);
    MadeChunkIsGood(crc, IEND, []);
  }

  /** The three chunks of a greyscale PNG (sections 4.1.1 to 4.1.4 of RFC 2083). */
  ghost predicate IsGrey(crc: Crc, width: Dword, height: Dword, depth: Byte, idat: seq<Byte>, cs: seq<Chunk>) {
    && |cs| == 3 && cs[0].name == [73, 72, 68, 82] && cs[1].name == [73, 68, 65, 84] && cs[2].name == [73, 69, 78, 68]
    && cs[1].data == idat && cs[2].data == [] && AllGood(crc, cs)
    && var h := cs[0].data;
      && |h| == 13 && Word(h[0], h[1], h[2], h[3]) == width && Word(h[4], h[5], h[6], h[7]) == height
      && h[8] == depth && h[9] == h[10] == h[11] == h[12] == 0
  }

  lemma EncodeThree(a: Chunk, b: Chunk, c: Chunk)
    requires Fits(a) && Fits(b) && Fits(c)
    ensures AllFit([a, b, c]) && |Encode([a, b, c])| == 36 + |a.data| + |b.data| + |c.data|
  {
    hide ChunkBytes;
    EncodeOne(c);
    EncodeFirst([b, c]);
    EncodeFirst([a, b, c]);
    assert [b, c][1..] == [c] && [a, b, c][1..] == [b, c];
  }
}

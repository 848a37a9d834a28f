/** Searching, removing, inserting and counting chunks in a PNG stream held in memory. */
module PngSplice {
  import opened CArith
  import opened Chunks
  import opened MemoryStreams

  /** The place of the first chunk with this name, or the length of the list. */
  function FirstNamed(cs: seq<Chunk>, name: Name): (k: nat)
    ensures k <= |cs|
    ensures k < |cs| ==> cs[k].name == name
    ensures forall i :: 0 <= i < k ==> cs[i].name != name
  {
    if cs == [] || cs[0].name == name then 0 else 1 + FirstNamed(cs[1..], name)
  }

  function Without(cs: seq<Chunk>, k: nat): seq<Chunk>
    requires k < |cs|
  {
    cs[..k] + cs[k + 1..]
  }

  // ---------- mng_FindChunk ----------

  /** The search from pos: start and end of the first chunk with this name. */
  function FindFrom(bytes: seq<Byte>, name: Name, pos: nat): (r: Option<(nat, nat)>)
    ensures r.Some? ==> pos <= r.value.0 && r.value.0 + 12 <= r.value.1 <= |bytes|
    decreases |bytes| - pos
  {
    if pos + 4 > |bytes| then None
    else
      var next := pos + 12 + LengthAt(bytes, pos);
      if next > |bytes| then None
      else if NameAt(bytes, pos) == name then Some((pos, next))
      else FindFrom(bytes, name, next)
  }

  /** No length that the search meets makes the 32-bit position of the next chunk wrap. */
  predicate NoWrap(bytes: seq<Byte>, name: Name, pos: nat)
    decreases |bytes| - pos
  {
    pos + 4 <= |bytes| ==>
      var next := pos + 12 + LengthAt(bytes, pos);
      && next < 0x1_0000_0000
      && (next <= |bytes| && NameAt(bytes, pos) != name ==> NoWrap(bytes, name, next))
  }

  /** One turn of the search. */
  lemma FindStep(bytes: seq<Byte>, name: Name, pos: nat)
    requires NoWrap(bytes, name, pos)
    ensures pos + 4 > |bytes| ==> FindFrom(bytes, name, pos) == None
    ensures pos + 4 <= |bytes| ==>
              var next := pos + 12 + LengthAt(bytes, pos);
              && next < 0x1_0000_0000
              && (next > |bytes| ==> FindFrom(bytes, name, pos) == None)
              && (next <= |bytes| && NameAt(bytes, pos) == name ==> FindFrom(bytes, name, pos) == Some((pos, next)))
              && (next <= |bytes| && NameAt(bytes, pos) != name ==>
                    NoWrap(bytes, name, next) && FindFrom(bytes, name, pos) == FindFrom(bytes, name, next))
  {
  }

  lemma FindNothing(bytes: seq<Byte>, name: Name, pos: nat)
    requires pos + 4 > |bytes|
    ensures NoWrap(bytes, name, pos) && FindFrom(bytes, name, pos) == None
  {
  }

  /** The search at a chunk: it ends there, or goes on behind the chunk. */
  lemma FindAt(bytes: seq<Byte>, pos: nat, c: Chunk, name: Name)
    requires ChunkAt(bytes, pos, c) && |bytes| <= INT_MAX
    ensures c.name == name ==>
              NoWrap(bytes, name, pos) && FindFrom(bytes, name, pos) == Some((pos, pos + 12 + |c.data|))
    ensures c.name != name ==> NoWrap(bytes, name, pos) == NoWrap(bytes, name, pos + 12 + |c.data|)
    ensures c.name != name ==> FindFrom(bytes, name, pos) == FindFrom(bytes, name, pos + 12 + |c.data|)
  {
    hide LengthAt, NameAt, ChunkBytes;
    ChunkAtFits(bytes, pos, c);
    FieldsAt(bytes, pos, c);
  }

  /** In an encoded chunk list the search finds the first chunk with the name, wherever the list
      starts; without one it goes on behind the list, whatever stands there. */
  lemma {:induction false} FindInEncoded(pre: seq<Byte>, cs: seq<Chunk>, tail: seq<Byte>, name: Name)
    requires AllFit(cs) && |pre + Encode(cs) + tail| <= INT_MAX
    ensures var bytes, k, behind := pre + Encode(cs) + tail, FirstNamed(cs, name), |pre + Encode(cs)|;
      && AllFit(cs[..k]) && (k < |cs| ==> AllFit(cs[..k + 1]))
      && NoWrap(bytes, name, |pre|) == (k < |cs| || NoWrap(bytes, name, behind))
      && FindFrom(bytes, name, |pre|)
         == if k == |cs| then FindFrom(bytes, name, behind)
            else Some((|pre| + |Encode(cs[..k])|, |pre| + |Encode(cs[..k + 1])|))
    decreases |cs|
  {
    hide LengthAt, NameAt, ChunkBytes, ChunkAt, FindFrom, NoWrap;
    var bytes, k := pre + Encode(cs) + tail, FirstNamed(cs, name);
    if cs == [] {
      assert pre + Encode(cs) == pre;
    } else {
      ChunkInStream(pre, cs, tail, 0);
      assert cs[..0] == [] && Encode(cs[..0]) == [];
      FindAt(bytes, |pre|, cs[0], name);
      if cs[0].name != name {
        EncodeFirst(cs);
        var pre' := pre + ChunkBytes(cs[0]);
        assert bytes == pre' + Encode(cs[1..]) + tail && pre + Encode(cs) == pre' + Encode(cs[1..]);
        FindInEncoded(pre', cs[1..], tail, name);
        ShiftPrefix(cs, k);
        if k < |cs| {
          ShiftPrefix(cs, k + 1);
        }
      }
    }
  }

  lemma ShiftPrefix(cs: seq<Chunk>, k: nat)
    requires AllFit(cs) && 0 < k <= |cs|
    ensures AllFit(cs[..k]) && AllFit(cs[1..][..k - 1])
    ensures |Encode(cs[..k])| == 12 + |cs[0].data| + |Encode(cs[1..][..k - 1])|
  {
    EncodeFirst(cs[..k]);
    assert cs[..k][1..] == cs[1..][..k - 1];
  }

  /** Returns FALSE for streams too short to hold a signature and a chunk. */
  method FindChunk(stream: MemoryStream, name: Name, offset: nat) returns (found: bool, start: nat, next: nat)
    requires stream.Valid() && (stream.fileLength - offset >= 20 ==> NoWrap(stream.Contents(), name, offset))
    ensures var bytes := stream.Contents();
      var r := if |bytes| - offset < 20 then None else FindFrom(bytes, name, offset);
      && found == r.Some? && (start, next) == if found then r.value else (0, 0)
    ensures found ==> offset <= start && start + 12 <= next <= stream.fileLength
  {
    hide FindFrom, NoWrap, FromBE32;
    var data, size := stream.Acquire();
    found, start, next := false, 0, 0;
    if size < 20 || size - offset < 20 {
      return;
    }
    ghost var bytes := stream.Contents();
    var pos := offset;
    while true
      invariant offset <= pos <= size && FindFrom(bytes, name, pos) == FindFrom(bytes, name, offset)
      invariant NoWrap(bytes, name, pos)
      decreases size - pos
    {
      FindStep(bytes, name, pos);
      if pos + 4 > size {
        break;
      }
      var length := FromBE32(Bytes4(data, size, pos));
      var nextPos := (pos + 4 + 4 + length + 4) % 0x1_0000_0000;
      if nextPos > size {
        break;
      }
      if Bytes4(data, size, pos + 4) == name {
        return true, pos, nextPos;
      }
      pos := nextPos;
    }
  }

  /** Four bytes of the stream's buffer. */
  function Bytes4(data: array<Byte>, size: nat, pos: nat): (s: seq<Byte>)
    requires pos + 4 <= size <= data.Length
    reads data
    ensures s == data[..size][pos..pos + 4] && |s| == 4
  {
    data[pos..pos + 4]
  }

  // ---------- mng_CopyRemoveChunks, mng_CopyInsertChunks ----------

  /** Rewrites the stream from its start with the whole buffer. */
  method Rewrite(stream: MemoryStream, buffer: array<Byte>)
    requires stream.Valid() && stream.deleteMe && buffer != stream.data && buffer.Length < 0x1_0000_0000
    requires buffer.Length >= stream.fileLength
    modifies stream, stream.data
    ensures stream.Valid() && (stream.data == old(stream.data) || fresh(stream.data))
    ensures stream.Contents() == if buffer.Length < INT_MAX then buffer[..] else old(stream.Contents())
    ensures stream.currentPosition == if buffer.Length < INT_MAX then buffer.Length else 0
  {
    var ok := stream.Seek(0, SeekSet);
    var n := stream.Write(buffer[..], 1, buffer.Length);
  }

  /** memcpy into a buffer. */
  method CopyBytes(buffer: array<Byte>, at: nat, bytes: seq<Byte>)
    requires at + |bytes| <= buffer.Length
    modifies buffer
    ensures buffer[..] == old(buffer[..at]) + bytes + old(buffer[at + |bytes|..])
  {
    forall i | 0 <= i < |bytes| {
      buffer[at + i] := bytes[i];
    }
  }

  /** The stream after a removal.  The new buffer is sized as if the range were added, not removed,
      so twice its length of what the buffer held before follows the end. */
  function Cut(bytes: seq<Byte>, start: nat, next: nat, garbage: nat -> Byte): (s: seq<Byte>)
    requires start <= next <= |bytes|
    ensures |s| == |bytes| + (next - start)
  {
    bytes[..start] + bytes[next..] + Junk(2 * (next - start), |bytes| - (next - start), garbage)
  }

  /** n bytes of a buffer from a position on. */
  function Junk(n: nat, from: nat, garbage: nat -> Byte): (s: seq<Byte>)
    ensures |s| == n
  {
    seq(n, i requires 0 <= i => garbage(from + i))
  }

  /** Cuts out the bytes from start to next.  `garbage` is what the new buffer holds. */
  method CopyRemoveChunks(stream: MemoryStream, start: nat, next: nat, garbage: nat -> Byte) returns (ok: bool)
    requires stream.Valid() && stream.deleteMe && start <= next <= stream.fileLength
    modifies stream, stream.data
    ensures stream.Valid() && (stream.data == old(stream.data) || fresh(stream.data))
    ensures ok == (next == start || (old(stream.fileLength) >= 20 && next - start < old(stream.fileLength)))
    ensures stream.Contents() == if ok && next > start && old(stream.fileLength) + (next - start) < INT_MAX
                                 then Cut(old(stream.Contents()), start, next, garbage)
                                 else old(stream.Contents())
  {
    var chunkLength := next - start;
    if chunkLength == 0 {
      return true;
    }
    var data, size := stream.Acquire();
    if size < 20 || chunkLength >= size {
      return false;
    }
    var buffer := TwoParts(data[..start], data[next..size], 2 * chunkLength, garbage);
    assert data[..start] == stream.Contents()[..start] && data[next..size] == stream.Contents()[next..];
    assert buffer[..] == Cut(stream.Contents(), start, next, garbage);
    Rewrite(stream, buffer);
    return true;
  }

  /** A new buffer with two parts copied to its start, and room behind them. */
  method TwoParts(a: seq<Byte>, b: seq<Byte>, room: nat, garbage: nat -> Byte) returns (buffer: array<Byte>)
    ensures fresh(buffer) && buffer[..] == a + b + Junk(room, |a| + |b|, garbage)
  {
    buffer := new Byte[|a| + |b| + room](i requires i >= 0 => garbage(i));
    ghost var junk := buffer[|a| + |b|..];
    assert junk == Junk(room, |a| + |b|, garbage);
    ghost var rest := buffer[|a|..];
    assert rest[|b|..] == junk;
    CopyBytes(buffer, 0, a);
    assert buffer[..] == a + rest;
    CopyBytes(buffer, |a|, b);
    assert buffer[..] == a + b + junk;
  }

  /** Puts the bytes of a chunk at start. */
  method CopyInsertChunks(stream: MemoryStream, insert: seq<Byte>, start: nat, next: nat) returns (ok: bool)
    requires stream.Valid() && stream.deleteMe && start <= next <= stream.fileLength && |insert| <= INT_MAX
    modifies stream, stream.data
    ensures stream.Valid() && (stream.data == old(stream.data) || fresh(stream.data))
    ensures ok == (next == start || (old(stream.fileLength) >= 20 && next - start < old(stream.fileLength)))
    ensures stream.Contents() == if ok && next > start && old(stream.fileLength) + |insert| < INT_MAX
                                 then old(stream.Contents())[..start] + insert + old(stream.Contents())[start..]
                                 else old(stream.Contents())
  {
    var chunkLength := next - start;
    if chunkLength == 0 {
      return true;
    }
    var data, size := stream.Acquire();
    if size < 20 || chunkLength >= size {
      return false;
    }
    var buffer := Assemble(data[..start], insert, data[start..size]);
    assert data[..start] == stream.Contents()[..start] && data[start..size] == stream.Contents()[start..];
    Rewrite(stream, buffer);
    return true;
  }

  /** A new buffer with three parts copied into it one after the other. */
  method Assemble(a: seq<Byte>, b: seq<Byte>, c: seq<Byte>) returns (buffer: array<Byte>)
    ensures fresh(buffer) && buffer[..] == a + b + c
  {
    buffer := new Byte[|a| + |b| + |c|];
    CopyBytes(buffer, 0, a);
    assert buffer[..|a|] == a;
    CopyBytes(buffer, |a|, b);
    assert buffer[..|a| + |b|] == a + b;
    CopyBytes(buffer, |a| + |b|, c);
  }

  // ---------- mng_RemoveChunk, mng_InsertChunk ----------

  /** The search behind the signature, refused in streams too short for a chunk. */
  function Search(bytes: seq<Byte>, name: Name): (r: Option<(nat, nat)>)
    ensures r.Some? ==> |bytes| >= 28 && 8 <= r.value.0 && r.value.0 + 12 <= r.value.1 <= |bytes|
  {
    if |bytes| < 28 then None else FindFrom(bytes, name, 8)
  }

  predicate SearchesSafely(bytes: seq<Byte>, name: Name) {
    |bytes| >= 28 ==> NoWrap(bytes, name, 8)
  }

  function Removed(bytes: seq<Byte>, name: Name, garbage: nat -> Byte): seq<Byte> {
    match Search(bytes, name)
    case None => bytes
    case Some((start, next)) =>
      if |bytes| + (next - start) < INT_MAX then Cut(bytes, start, next, garbage) else bytes
  }

  function Inserted(bytes: seq<Byte>, name: Name, insert: seq<Byte>): seq<Byte> {
    match Search(bytes, name)
    case None => bytes
    case Some((start, next)) =>
      if |bytes| + |insert| < INT_MAX then bytes[..start] + insert + bytes[start..] else bytes
  }

  method RemoveChunk(stream: MemoryStream, name: Name, garbage: nat -> Byte) returns (ok: bool)
    requires stream.Valid() && stream.deleteMe && SearchesSafely(stream.Contents(), name)
    modifies stream, stream.data
    ensures stream.Valid() && (stream.data == old(stream.data) || fresh(stream.data))
    ensures ok == Search(old(stream.Contents()), name).Some?
    ensures stream.Contents() == Removed(old(stream.Contents()), name, garbage)
  {
    hide FindFrom, NoWrap, Cut;
    var start, next;
    ok, start, next := FindChunk(stream, name, 8);
    if ok {
      ok := CopyRemoveChunks(stream, start, next, garbage);
    }
  }

  method InsertChunk(stream: MemoryStream, name: Name, insert: seq<Byte>) returns (ok: bool)
    requires stream.Valid() && stream.deleteMe && SearchesSafely(stream.Contents(), name) && |insert| <= INT_MAX
    modifies stream, stream.data
    ensures stream.Valid() && (stream.data == old(stream.data) || fresh(stream.data))
    ensures ok == Search(old(stream.Contents()), name).Some?
    ensures stream.Contents() == Inserted(old(stream.Contents()), name, insert)
  {
    hide FindFrom, NoWrap;
    var start, next;
    ok, start, next := FindChunk(stream, name, 8);
    if ok {
      ok := CopyInsertChunks(stream, insert, start, next);
    }
  }

  /** The stream is a signature, the encoded chunks, and bytes after them. */
  ghost predicate Holds(bytes: seq<Byte>, pre: seq<Byte>, cs: seq<Chunk>, tail: seq<Byte>) {
    |pre| == 8 && AllFit(cs) && |bytes| <= INT_MAX && bytes == pre + Encode(cs) + tail
  }

  /** The stream starts with the signature and the encoded chunks. */
  ghost predicate StartsWith(bytes: seq<Byte>, pre: seq<Byte>, cs: seq<Chunk>) {
    exists tail :: Holds(bytes, pre, cs, tail)
  }

  /** Cutting a stream at the borders of chunk k. */
  lemma CutAt(bytes: seq<Byte>, pre: seq<Byte>, cs: seq<Chunk>, tail: seq<Byte>, k: nat)
    requires Holds(bytes, pre, cs, tail) && k < |cs|
    ensures AllFit(cs[..k]) && AllFit(cs[..k + 1]) && AllFit(cs[k..]) && AllFit(Without(cs, k))
    ensures var start, next := 8 + |Encode(cs[..k])|, 8 + |Encode(cs[..k + 1])|;
      && start < next <= |bytes| && next - start == 12 + |cs[k].data|
      && bytes[..start] == pre + Encode(cs[..k])
      && bytes[start..] == Encode(cs[k..]) + tail
      && bytes[..start] + bytes[next..] == pre + Encode(Without(cs, k)) + tail
  {
    hide Encode, ChunkBytes;
    EncodeAt(cs, k);
    ChunkInStream(pre, cs, tail, k);
    EncodeConcat(cs[..k], cs[k + 1..]);
    SliceParts(pre, Encode(cs[..k]), ChunkBytes(cs[k]), Encode(cs[k + 1..]), tail);
  }

  lemma SliceParts<T>(pre: seq<T>, a: seq<T>, b: seq<T>, c: seq<T>, tail: seq<T>)
    ensures var s, start := pre + (a + b + c) + tail, |pre| + |a|;
      && s[..start] == pre + a && s[start..] == (b + c) + tail
      && s[..start] + s[start + |b|..] == pre + (a + c) + tail
  {
    var s, start := pre + (a + b + c) + tail, |pre| + |a|;
    assert s == (pre + a) + (b + (c + tail));
    assert s[start..] == b + (c + tail);
    assert s[start + |b|..] == c + tail;
  }

  /** Where the search finds the name: at its first chunk, or somewhere behind the list. */
  lemma FindHeld(bytes: seq<Byte>, pre: seq<Byte>, cs: seq<Chunk>, tail: seq<Byte>, name: Name)
    requires Holds(bytes, pre, cs, tail)
    ensures AllFit(cs) && 8 + |Encode(cs)| + |tail| == |bytes|
    ensures var k, r := FirstNamed(cs, name), FindFrom(bytes, name, 8);
      && AllFit(cs[..k]) && (k < |cs| ==> AllFit(cs[..k + 1]))
      && (k < |cs| ==> NoWrap(bytes, name, 8) && r == Some((8 + |Encode(cs[..k])|, 8 + |Encode(cs[..k + 1])|)))
      && (k == |cs| && r.Some? ==> r.value.0 >= 8 + |Encode(cs)|)
  {
    hide FindFrom, NoWrap, Encode;
    FindInEncoded(pre, cs, tail, name);
  }

  lemma CutFromList(bytes: seq<Byte>, pre: seq<Byte>, cs: seq<Chunk>, tail: seq<Byte>, k: nat, garbage: nat -> Byte)
    requires Holds(bytes, pre, cs, tail) && k < |cs| && |bytes| + 12 + |cs[k].data| < INT_MAX
    ensures AllFit(cs[..k]) && AllFit(cs[..k + 1])
    ensures var start, next := 8 + |Encode(cs[..k])|, 8 + |Encode(cs[..k + 1])|;
      start <= next <= |bytes| && StartsWith(Cut(bytes, start, next, garbage), pre, Without(cs, k))
  {
    hide Encode, Junk;
    CutAt(bytes, pre, cs, tail, k);
    var n := 12 + |cs[k].data|;
    var junk := Junk(2 * n, |bytes| - n, garbage);
    var now := Cut(bytes, 8 + |Encode(cs[..k])|, 8 + |Encode(cs[..k + 1])|, garbage);
    assert now == pre + Encode(Without(cs, k)) + (tail + junk);
    assert Holds(now, pre, Without(cs, k), tail + junk);
  }

  lemma CutBehindList(bytes: seq<Byte>, pre: seq<Byte>, cs: seq<Chunk>, tail: seq<Byte>, start: nat, next: nat,
                      garbage: nat -> Byte)
    requires Holds(bytes, pre, cs, tail) && 8 + |Encode(cs)| <= start <= next <= |bytes|
    requires |bytes| + (next - start) < INT_MAX
    ensures StartsWith(Cut(bytes, start, next, garbage), pre, cs)
  {
    hide Encode, Junk;
    BehindList(bytes, pre, cs, tail, start);
    var junk := Junk(2 * (next - start), |bytes| - (next - start), garbage);
    var rest := bytes[8 + |Encode(cs)|..start] + bytes[next..] + junk;
    assert Cut(bytes, start, next, garbage) == (pre + Encode(cs)) + rest;
    assert Holds(Cut(bytes, start, next, garbage), pre, cs, rest);
  }

  /** A removal has room for what it writes. */
  predicate RemovalFits(size: nat, cs: seq<Chunk>, name: Name) {
    var k := FirstNamed(cs, name);
    k < |cs| && size >= 28 && size + 12 + |cs[k].data| < INT_MAX
  }

  /** The list after a removal. */
  function ListWithout(size: nat, cs: seq<Chunk>, name: Name): seq<Chunk> {
    if RemovalFits(size, cs, name) then Without(cs, FirstNamed(cs, name)) else cs
  }

  /** After a removal the stream starts with the list without its first chunk of the name, if it has
      one, and with the whole list if it has none, whatever stands behind the list. */
  lemma RemovedStarts(bytes: seq<Byte>, pre: seq<Byte>, cs: seq<Chunk>, name: Name, garbage: nat -> Byte)
    requires StartsWith(bytes, pre, cs)
    ensures StartsWith(Removed(bytes, name, garbage), pre, ListWithout(|bytes|, cs, name))
  {
    hide FindFrom, NoWrap, Encode, FirstNamed, Cut;
    var tail :| Holds(bytes, pre, cs, tail);
    FindHeld(bytes, pre, cs, tail, name);
    var k, now := FirstNamed(cs, name), Removed(bytes, name, garbage);
    if k < |cs| {
      CutAt(bytes, pre, cs, tail, k);
      if RemovalFits(|bytes|, cs, name) {
        CutFromList(bytes, pre, cs, tail, k, garbage);
      }
    } else if now != bytes {
      var (start, next) := Search(bytes, name).value;
      CutBehindList(bytes, pre, cs, tail, start, next, garbage);
    }
  }

  /** A position behind the list. */
  lemma BehindList(bytes: seq<Byte>, pre: seq<Byte>, cs: seq<Chunk>, tail: seq<Byte>, start: nat)
    requires Holds(bytes, pre, cs, tail) && 8 + |Encode(cs)| <= start <= |bytes|
    ensures bytes[..start] == (pre + Encode(cs)) + bytes[8 + |Encode(cs)|..start]
  {
    hide Encode;
    var n := 8 + |Encode(cs)|;
    assert bytes[..n] == pre + Encode(cs);
    assert bytes[..start] == bytes[..n] + bytes[n..start];
  }

  predicate InsertionFits(size: nat, cs: seq<Chunk>, name: Name, chunk: Chunk) {
    FirstNamed(cs, name) < |cs| && size >= 28 && size + 12 + |chunk.data| < INT_MAX
  }

  function ListWith(size: nat, cs: seq<Chunk>, name: Name, chunk: Chunk): seq<Chunk> {
    var k := FirstNamed(cs, name);
    if InsertionFits(size, cs, name, chunk) then cs[..k] + [chunk] + cs[k..] else cs
  }

  /** After an insertion the stream starts with the list with the chunk just before the first one of
      the name. */
  lemma InsertedStarts(bytes: seq<Byte>, pre: seq<Byte>, cs: seq<Chunk>, name: Name, chunk: Chunk)
    requires StartsWith(bytes, pre, cs) && Fits(chunk)
    ensures StartsWith(Inserted(bytes, name, ChunkBytes(chunk)), pre, ListWith(|bytes|, cs, name, chunk))
  {
    hide FindFrom, NoWrap, Encode, ChunkBytes, FirstNamed;
    var tail :| Holds(bytes, pre, cs, tail);
    FindHeld(bytes, pre, cs, tail, name);
    var k, insert := FirstNamed(cs, name), ChunkBytes(chunk);
    var now := Inserted(bytes, name, insert);
    if k < |cs| && InsertionFits(|bytes|, cs, name, chunk) {
      InsertHolds(bytes, pre, cs, tail, k, chunk);
    } else if k == |cs| && Search(bytes, name).Some? {
      var start := Search(bytes, name).value.0;
      BehindList(bytes, pre, cs, tail, start);
      var n := 8 + |Encode(cs)|;
      if |bytes| + |insert| < INT_MAX {
        assert now == (pre + Encode(cs)) + (bytes[n..start] + insert + bytes[start..]);
        assert Holds(now, pre, cs, bytes[n..start] + insert + bytes[start..]);
      } else {
        assert Holds(now, pre, cs, tail);
      }
    } else {
      assert Holds(now, pre, cs, tail);
    }
  }

  lemma InsertHolds(bytes: seq<Byte>, pre: seq<Byte>, cs: seq<Chunk>, tail: seq<Byte>, k: nat, chunk: Chunk)
    requires Holds(bytes, pre, cs, tail) && k < |cs| && |bytes| + 12 + |chunk.data| <= INT_MAX
    ensures AllFit(cs[..k]) && 8 + |Encode(cs[..k])| <= |bytes|
    ensures var start := 8 + |Encode(cs[..k])|;
      Holds(bytes[..start] + ChunkBytes(chunk) + bytes[start..], pre, cs[..k] + [chunk] + cs[k..], tail)
  {
    hide Encode, ChunkBytes;
    CutAt(bytes, pre, cs, tail, k);
    EncodeOne(chunk);
    EncodeConcat(cs[..k], [chunk]);
    EncodeConcat(cs[..k] + [chunk], cs[k..]);
  }

  /** Up to IEND a reader sees the list that the stream starts with. */
  lemma UpToIend(bytes: seq<Byte>, pre: seq<Byte>, cs: seq<Chunk>)
    requires StartsWith(bytes, pre, cs) && EndsWithIend(cs)
    ensures ListToEnd(bytes, 8) == Some(cs)
  {
    var tail :| Holds(bytes, pre, cs, tail);
    ListOfEncoded(pre, cs, tail);
  }

  lemma WithoutKeepsIend(cs: seq<Chunk>, k: nat)
    requires EndsWithIend(cs) && k < |cs| && cs[k].name != IEND
    ensures EndsWithIend(Without(cs, k))
  {
    var now := Without(cs, k);
    assert k < |cs| - 1;
    assert forall i :: 0 <= i < |now| ==> now[i] == if i < k then cs[i] else cs[i + 1];
  }

  lemma InsertKeepsIend(cs: seq<Chunk>, k: nat, chunk: Chunk)
    requires EndsWithIend(cs) && k < |cs| && chunk.name != IEND
    ensures EndsWithIend(cs[..k] + [chunk] + cs[k..])
  {
    var now := cs[..k] + [chunk] + cs[k..];
    assert forall i :: 0 <= i < |now| ==> now[i] == if i < k then cs[i] else if i == k then chunk else cs[i - 1];
  }

  lemma StillEndsWithIend(size: nat, cs: seq<Chunk>, name: Name)
    requires EndsWithIend(cs)
    ensures name != IEND ==> EndsWithIend(ListWithout(size, cs, name))
    ensures forall chunk: Chunk :: chunk.name != IEND ==> EndsWithIend(ListWith(size, cs, name, chunk))
  {
    hide EndsWithIend, FirstNamed, Without;
    var k := FirstNamed(cs, name);
    if k < |cs| {
      if name != IEND {
        WithoutKeepsIend(cs, k);
      }
      forall chunk: Chunk | chunk.name != IEND
        ensures EndsWithIend(ListWith(size, cs, name, chunk))
      {
        InsertKeepsIend(cs, k, chunk);
      }
    }
  }

  // ---------- plugging a global palette into a PNG ----------

  /** Three removals and an insertion.  garbage(i) is what the buffer of removal i holds. */
  function Plugged(bytes: seq<Byte>, palette: seq<Byte>, garbage: nat -> nat -> Byte): seq<Byte> {
    var b1 := Removed(bytes, PLTE, garbage(0));
    var b2 := Removed(b1, TRNS, garbage(1));
    var b3 := Removed(b2, BKGD, garbage(2));
    Inserted(b3, IDAT, palette)
  }

  /** No search among the four meets a length that wraps. */
  predicate PlugsSafely(bytes: seq<Byte>, garbage: nat -> nat -> Byte) {
    var b1 := Removed(bytes, PLTE, garbage(0));
    var b2 := Removed(b1, TRNS, garbage(1));
    var b3 := Removed(b2, BKGD, garbage(2));
    SearchesSafely(bytes, PLTE) && SearchesSafely(b1, TRNS) && SearchesSafely(b2, BKGD) && SearchesSafely(b3, IDAT)
  }

  method PlugPalette(stream: MemoryStream, palette: seq<Byte>, garbage: nat -> nat -> Byte)
    requires stream.Valid() && stream.deleteMe && PlugsSafely(stream.Contents(), garbage) && |palette| <= INT_MAX
    modifies stream, stream.data
    ensures stream.Valid() && (stream.data == old(stream.data) || fresh(stream.data))
    ensures stream.Contents() == Plugged(old(stream.Contents()), palette, garbage)
  {
    hide Removed, Inserted, SearchesSafely;
    var ok := RemoveChunk(stream, PLTE, garbage(0));
    ok := RemoveChunk(stream, TRNS, garbage(1));
    ok := RemoveChunk(stream, BKGD, garbage(2));
    ok := InsertChunk(stream, IDAT, palette);
  }

  /** The list after the four calls, given the stream's size before each. */
  function ListPlugged(cs: seq<Chunk>, palette: Chunk, n0: nat, n1: nat, n2: nat, n3: nat): seq<Chunk> {
    ListWith(n3, ListWithout(n2, ListWithout(n1, ListWithout(n0, cs, PLTE), TRNS), BKGD), IDAT, palette)
  }

  /** Whatever the buffers held: up to IEND a reader sees the list without its first PLTE, tRNS and
      bKGD chunk and with the global palette just before its first IDAT chunk, as far as the stream
      had room for each. */
  lemma PluggedUpToIend(bytes: seq<Byte>, pre: seq<Byte>, cs: seq<Chunk>, palette: Chunk, garbage: nat -> nat -> Byte)
    requires StartsWith(bytes, pre, cs) && EndsWithIend(cs) && Fits(palette) && palette.name != IEND
    ensures var b1 := Removed(bytes, PLTE, garbage(0));
      var b2 := Removed(b1, TRNS, garbage(1));
      var b3 := Removed(b2, BKGD, garbage(2));
      ListToEnd(Plugged(bytes, ChunkBytes(palette), garbage), 8)
      == Some(ListPlugged(cs, palette, |bytes|, |b1|, |b2|, |b3|))
  {
    hide Removed, Inserted, StartsWith, ListWithout, ListWith, ListToEnd, EndsWithIend, ChunkBytes;
    var b1 := Removed(bytes, PLTE, garbage(0));
    var b2 := Removed(b1, TRNS, garbage(1));
    var b3 := Removed(b2, BKGD, garbage(2));
    var c1 := ListWithout(|bytes|, cs, PLTE);
    var c2 := ListWithout(|b1|, c1, TRNS);
    var c3 := ListWithout(|b2|, c2, BKGD);
    RemovedStarts(bytes, pre, cs, PLTE, garbage(0));
    RemovedStarts(b1, pre, c1, TRNS, garbage(1));
    RemovedStarts(b2, pre, c2, BKGD, garbage(2));
    InsertedStarts(b3, pre, c3, IDAT, palette);
    StillEndsWithIend(|bytes|, cs, PLTE);
    StillEndsWithIend(|b1|, c1, TRNS);
    StillEndsWithIend(|b2|, c2, BKGD);
    StillEndsWithIend(|b3|, c3, IDAT);
    UpToIend(Inserted(b3, IDAT, ChunkBytes(palette)), pre, ListWith(|b3|, c3, IDAT, palette));
  }

  /** The list without its first chunk of the name, if it has one. */
  function Dropped(cs: seq<Chunk>, name: Name): seq<Chunk> {
    var k := FirstNamed(cs, name);
    if k < |cs| then cs[..k] + cs[k + 1..] else cs
  }

  /** The list with a chunk just before its first one of the name, if it has one. */
  function Put(cs: seq<Chunk>, name: Name, chunk: Chunk): seq<Chunk> {
    var k := FirstNamed(cs, name);
    if k < |cs| then cs[..k] + [chunk] + cs[k..] else cs
  }

  /** A removal at most doubles a stream. */
  lemma RemovedSize(bytes: seq<Byte>, name: Name, garbage: nat -> Byte)
    ensures |bytes| <= |Removed(bytes, name, garbage)| <= 2 * |bytes|
  {
    hide FindFrom, Cut;
  }

  /** In a stream that starts with the list every removal and every insertion has room, if it stays below
      2^31 - 1. */
  lemma HasRoom(bytes: seq<Byte>, pre: seq<Byte>, cs: seq<Chunk>, name: Name, chunk: Chunk)
    requires StartsWith(bytes, pre, cs) && EndsWithIend(cs) && name != IEND
    ensures 2 * |bytes| < INT_MAX ==> ListWithout(|bytes|, cs, name) == Dropped(cs, name)
    ensures |bytes| + 12 + |chunk.data| < INT_MAX ==> ListWith(|bytes|, cs, name, chunk) == Put(cs, name, chunk)
    ensures EndsWithIend(Dropped(cs, name))
  {
    hide Encode, FirstNamed, ChunkBytes;
    var tail :| Holds(bytes, pre, cs, tail);
    var k := FirstNamed(cs, name);
    if k < |cs| {
      CutAt(bytes, pre, cs, tail, k);
      ChunkInStream(pre, cs, tail, k);
      LastChunk(cs);
      assert |Encode(cs)| >= 24;
    }
  }

  lemma LastChunk(cs: seq<Chunk>)
    requires AllFit(cs) && EndsWithIend(cs)
    ensures |cs| > 1 ==> |Encode(cs)| >= 24
  {
    hide ChunkBytes;
    if |cs| > 1 {
      EncodeFirst(cs);
      EncodeFirst(cs[1..]);
    }
  }

  /** In particular, a stream of less than an eighth of 2^31 - 1 bytes, the palette counted in, has room for
      all four. */
  lemma PluggedList(bytes: seq<Byte>, pre: seq<Byte>, cs: seq<Chunk>, palette: Chunk, garbage: nat -> nat -> Byte)
    requires StartsWith(bytes, pre, cs) && EndsWithIend(cs) && Fits(palette) && palette.name != IEND
    requires 8 * |bytes| + 12 + |palette.data| < INT_MAX
    ensures ListToEnd(Plugged(bytes, ChunkBytes(palette), garbage), 8)
            == Some(Put(Dropped(Dropped(Dropped(cs, PLTE), TRNS), BKGD), IDAT, palette))
  {
    hide Removed, Inserted, StartsWith, ListWithout, ListWith, ListToEnd, EndsWithIend, ChunkBytes, Dropped, Put;
    var b1 := Removed(bytes, PLTE, garbage(0));
    var b2 := Removed(b1, TRNS, garbage(1));
    var b3 := Removed(b2, BKGD, garbage(2));
    var c1 := Dropped(cs, PLTE);
    var c2 := Dropped(c1, TRNS);
    PluggedUpToIend(bytes, pre, cs, palette, garbage);
    RemovedSize(bytes, PLTE, garbage(0));
    RemovedSize(b1, TRNS, garbage(1));
    RemovedSize(b2, BKGD, garbage(2));
    HasRoom(bytes, pre, cs, PLTE, palette);
    RemovedStarts(bytes, pre, cs, PLTE, garbage(0));
    HasRoom(b1, pre, c1, TRNS, palette);
    RemovedStarts(b1, pre, c1, TRNS, garbage(1));
    HasRoom(b2, pre, c2, BKGD, palette);
    RemovedStarts(b2, pre, c2, BKGD, garbage(2));
    HasRoom(b3, pre, Dropped(c2, BKGD), IDAT, palette);
  }

  /** The signature stays in front. */
  lemma PluggedStart(bytes: seq<Byte>, pre: seq<Byte>, cs: seq<Chunk>, palette: Chunk, garbage: nat -> nat -> Byte)
    requires StartsWith(bytes, pre, cs) && Fits(palette)
    ensures |pre| == 8 <= |Plugged(bytes, ChunkBytes(palette), garbage)|
    ensures Plugged(bytes, ChunkBytes(palette), garbage)[..8] == pre
  {
    hide Removed, Inserted, ListWithout, ListWith, ChunkBytes;
    var b1 := Removed(bytes, PLTE, garbage(0));
    var b2 := Removed(b1, TRNS, garbage(1));
    var c1 := ListWithout(|bytes|, cs, PLTE);
    var c2 := ListWithout(|b1|, c1, TRNS);
    RemovedStarts(bytes, pre, cs, PLTE, garbage(0));
    RemovedStarts(b1, pre, c1, TRNS, garbage(1));
    RemovedStarts(b2, pre, c2, BKGD, garbage(2));
    var b3 := Removed(b2, BKGD, garbage(2));
    InsertedStarts(b3, pre, ListWithout(|b2|, c2, BKGD), IDAT, palette);
  }

  // ---------- mng_CountPNGChunks ----------

  /** The end of the chunks from pos up to IEND; every IHDR on the way must have 13 bytes. */
  function CountFrom(bytes: seq<Byte>, pos: nat): Option<nat>
    decreases |bytes| - pos
  {
    match ChunkThere(bytes, pos)
    case None => None
    case Some(c) =>
      if c.name == IHDR && |c.data| != 13 then None
      else if c.name == IEND then Some(pos + 12 + |c.data|)
      else CountFrom(bytes, pos + 12 + |c.data|)
  }

  ghost predicate HeadersHave13(cs: seq<Chunk>) {
    forall i :: 0 <= i < |cs| && cs[i].name == IHDR ==> |cs[i].data| == 13
  }

  /** Counting succeeds exactly on a stream that holds a chunk list up to IEND whose IHDR chunks
      have 13 bytes, and then gives the end of that list. */
  lemma {:induction false} CountIsListEnd(bytes: seq<Byte>, pos: nat)
    requires pos <= |bytes|
    ensures CountFrom(bytes, pos).Some? <==> ListToEnd(bytes, pos).Some? && HeadersHave13(ListToEnd(bytes, pos).value)
    ensures CountFrom(bytes, pos).Some? ==>
              AllFit(ListToEnd(bytes, pos).value)
              && CountFrom(bytes, pos).value == pos + |Encode(ListToEnd(bytes, pos).value)|
    decreases |bytes| - pos
  {
    hide ChunkThere, ChunkBytes, HeadersHave13, ChunkAt;
    match ChunkThere(bytes, pos)
    case None =>
    case Some(c) =>
      ChunkAtFits(bytes, pos, c);
      HeadersSplit(c, []);
      assert [c] + [] == [c];
      if c.name == IEND {
        EncodeOne(c);
      } else {
        CountIsListEnd(bytes, pos + 12 + |c.data|);
        match ListToEnd(bytes, pos + 12 + |c.data|)
        case None =>
        case Some(rest) =>
          EncodedFromList(bytes, pos + 12 + |c.data|, rest);
          EncodeFirst([c] + rest);
          assert ([c] + rest)[1..] == rest;
          HeadersSplit(c, rest);
      }
  }

  lemma HeadersSplit(c: Chunk, rest: seq<Chunk>)
    ensures HeadersHave13([c] + rest) <==> (c.name == IHDR ==> |c.data| == 13) && HeadersHave13(rest)
    ensures HeadersHave13([])
  {
    assert forall i :: 0 <= i < |rest| ==> ([c] + rest)[i + 1] == rest[i];
    assert ([c] + rest)[0] == c;
  }

  lemma CountWithin(bytes: seq<Byte>, pos: nat)
    requires pos <= |bytes| && CountFrom(bytes, pos).Some?
    ensures pos + 12 <= CountFrom(bytes, pos).value <= |bytes|
  {
    hide ChunkBytes;
    CountIsListEnd(bytes, pos);
    EncodedFromList(bytes, pos, ListToEnd(bytes, pos).value);
    EncodeFirst(ListToEnd(bytes, pos).value);
  }

  /** The fields that decide one turn of the counting loop. */
  lemma CountStep(bytes: seq<Byte>, pos: nat)
    ensures pos + 8 > |bytes| ==> CountFrom(bytes, pos) == None
    ensures pos + 8 <= |bytes| ==>
              var n, name := LengthAt(bytes, pos), NameAt(bytes, pos);
              var next := pos + 12 + n;
              CountFrom(bytes, pos) == if next > |bytes| then None
                                       else if name == IHDR && n != 13 then None
                                       else if name == IEND then Some(next)
                                       else CountFrom(bytes, next)
  {
  }

  /** Reads n bytes that are there. */
  method Take(stream: MemoryStream, n: Dword) returns (bytes: seq<Byte>)
    requires stream.Valid() && stream.currentPosition + n <= stream.fileLength
    modifies stream`currentPosition
    ensures stream.Valid() && stream.Contents() == old(stream.Contents())
    ensures stream.currentPosition == old(stream.currentPosition) + n
    ensures bytes == stream.Contents()[old(stream.currentPosition)..stream.currentPosition]
  {
    var buffer := new Byte[n];
    var got := stream.Read(buffer, 1, n);
    bytes := buffer[..];
  }

  /** mng_LOF: the length of the stream; the cursor comes back. */
  method LengthOfFile(stream: MemoryStream) returns (n: nat)
    requires stream.Valid()
    modifies stream`currentPosition
    ensures n == stream.fileLength && stream.currentPosition == old(stream.currentPosition)
  {
    var start := stream.Tell();
    var ok := stream.Seek(0, SeekEnd);
    n := stream.Tell();
    ok := stream.Seek(start, SeekSet);
  }

  /** Counts the bytes from IHDR to IEND; on success the cursor stands behind IEND. */
  method CountPNGChunks(stream: MemoryStream, inPos: nat) returns (ok: bool, total: nat)
    requires stream.Valid() && inPos <= INT_MAX
    modifies stream`currentPosition
    ensures stream.Valid() && stream.Contents() == old(stream.Contents())
    ensures ok == CountFrom(stream.Contents(), inPos).Some?
    ensures if ok then inPos + total == CountFrom(stream.Contents(), inPos).value == stream.currentPosition else total == 0
  {
    hide CountFrom, FromBE32;
    ghost var bytes := stream.Contents();
    var lof := LengthOfFile(stream);
    var sought := stream.Seek(inPos, SeekSet);
    ok, total := false, 0;
    var end := false;
    while !end
      invariant stream.Valid() && stream.Contents() == bytes && lof == |bytes| && !ok && total == 0
      invariant !end ==> CountFrom(bytes, stream.currentPosition) == CountFrom(bytes, inPos)
      invariant end ==> CountFrom(bytes, inPos) == Some(stream.currentPosition) && inPos <= stream.currentPosition
      invariant inPos <= stream.currentPosition
      decreases !end, lof - stream.currentPosition
    {
      ghost var pos := stream.currentPosition;
      CountStep(bytes, pos);
      var here := stream.Tell();
      if here + 4 > lof {
        return;
      }
      var lengthField := Take(stream, 4);
      var length := FromBE32(lengthField);
      here := stream.Tell();
      if here + 4 > lof {
        return;
      }
      var name := Take(stream, 4);
      here := stream.Tell();
      if here + length + 4 > lof {
        return;
      }
      sought := stream.Seek(length + 4, SeekCur);
      if name == IHDR {
        if length != 13 {
          return;
        }
      } else if name == IEND {
        end := true;
      }
    }
    ok := true;
    total := stream.currentPosition - inPos;
  }
}

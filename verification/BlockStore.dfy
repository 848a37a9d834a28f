/** The page cache seen from outside: numbered blocks, the numbers handed out next, and files as
    chains of blocks.  A `next` of 0 ends a chain. */
module BlockStore {
  import opened CArith

  const BLOCK_SIZE := 65528
  const CACHE_SIZE := 32

  datatype Cell = Cell(next: nat, bytes: seq<Byte>)

  type Store = map<nat, Cell>

  // ---------- block numbers ----------

  /** The next n numbers: recycled ones first, oldest first, then new ones. */
  function Numbers(free: seq<nat>, count: nat, n: nat): (c: seq<nat>)
    ensures |c| == n
  {
    seq(n, i requires 0 <= i < n => if i < |free| then free[i] else count + i - |free|)
  }

  function FreeAfter(free: seq<nat>, n: nat): seq<nat> {
    if n <= |free| then free[n..] else []
  }

  function CountAfter(free: seq<nat>, count: nat, n: nat): nat {
    if n <= |free| then count else count + n - |free|
  }

  ghost predicate NoDup(s: seq<nat>) {
    forall i, j :: 0 <= i < j < |s| ==> s[i] != s[j]
  }

  /** Block numbers in use and recycled numbers split 0..count-1 between them. */
  ghost predicate Partition(used: set<nat>, free: seq<nat>, count: nat) {
    && NoDup(free)
    && (forall n: nat :: n < count <==> n in used || n in free)
    && (forall n: nat :: n in used ==> n !in free)
  }

  lemma TakeNumber(used: set<nat>, free: seq<nat>, count: nat)
    requires Partition(used, free, count)
    ensures var nr := Numbers(free, count, 1)[0];
      nr !in used && Partition(used + {nr}, FreeAfter(free, 1), CountAfter(free, count, 1))
  {
    if free == [] {
      assert FreeAfter(free, 1) == [] && CountAfter(free, count, 1) == count + 1;
    } else {
      var nr, rest := free[0], free[1..];
      assert FreeAfter(free, 1) == rest && CountAfter(free, count, 1) == count;
      assert forall i :: 0 <= i < |rest| ==> rest[i] == free[i + 1];
      assert forall n: nat :: n in free <==> n == nr || n in rest by {
        assert free == [nr] + rest;
      }
      assert nr !in rest && NoDup(rest);
    }
  }

  lemma ReturnNumber(used: set<nat>, free: seq<nat>, count: nat, nr: nat)
    requires Partition(used, free, count) && nr in used
    ensures Partition(used - {nr}, free + [nr], count)
  {
  }

  lemma NextNumber(free: seq<nat>, count: nat, n: nat, i: nat)
    requires i < n
    ensures Numbers(FreeAfter(free, i), CountAfter(free, count, i), 1)[0] == Numbers(free, count, n)[i]
    ensures FreeAfter(free, 0) == free && CountAfter(free, count, 0) == count
    ensures FreeAfter(FreeAfter(free, i), 1) == FreeAfter(free, i + 1)
    ensures CountAfter(FreeAfter(free, i), CountAfter(free, count, i), 1) == CountAfter(free, count, i + 1)
  {
  }

  lemma CountGrows(free: seq<nat>, count: nat, i: nat, n: nat)
    requires i <= n
    ensures CountAfter(free, count, i) <= CountAfter(free, count, n)
  {
  }

  // ---------- files ----------

  /** nr_blocks_required: a size that is a multiple of the block size gets one empty block more. */
  function BlocksFor(size: nat): nat {
    1 + size / BLOCK_SIZE
  }

  /** The bytes of block i of a file. */
  function Piece(data: seq<Byte>, i: nat): seq<Byte>
    requires i * BLOCK_SIZE <= |data|
  {
    data[i * BLOCK_SIZE..Min((i + 1) * BLOCK_SIZE, |data|)]
  }

  datatype File = File(chain: seq<nat>, data: seq<Byte>)

  /** What block i of a chain has as `next`. */
  function NextIn(chain: seq<nat>, i: nat): nat {
    if i + 1 < |chain| then chain[i + 1] else 0
  }

  /** The blocks of the chain are in the store, each linked to the next, the last to 0. */
  ghost predicate Linked(store: Store, chain: seq<nat>) {
    && |chain| > 0
    && forall i :: 0 <= i < |chain| ==> chain[i] in store && store[chain[i]].next == NextIn(chain, i)
  }

  /** The first n blocks of the chain hold the first n pieces of the data. */
  ghost predicate HoldsPieces(store: Store, chain: seq<nat>, data: seq<Byte>, n: nat) {
    && n <= |chain|
    && forall i :: 0 <= i < n ==>
         chain[i] in store && i * BLOCK_SIZE <= |data| && Piece(data, i) <= store[chain[i]].bytes
  }

  /** No block but the first has number 0, so following `next` visits the whole chain. */
  ghost predicate Continues(chain: seq<nat>) {
    forall i :: 0 < i < |chain| ==> chain[i] != 0
  }

  /** File f is stored under handle h: its chain is linked from there and holds its bytes. */
  ghost predicate FileOk(store: Store, h: nat, f: File) {
    && |f.chain| > 0 && f.chain[0] == h
    && (|f.chain| - 1) * BLOCK_SIZE <= |f.data| <= |f.chain| * BLOCK_SIZE
    && Linked(store, f.chain) && HoldsPieces(store, f.chain, f.data, |f.chain|)
    && NoDup(f.chain) && Continues(f.chain)
  }

  ghost predicate ChainsApart(c: seq<nat>, d: seq<nat>) {
    forall nr :: nr in c ==> nr !in d
  }

  ghost predicate Disjoint(files: map<nat, File>) {
    forall h, k :: h in files && k in files && h != k ==> ChainsApart(files[h].chain, files[k].chain)
  }

  ghost predicate FilesOk(store: Store, files: map<nat, File>) {
    && (forall h :: h in files ==> FileOk(store, h, files[h]))
    && Disjoint(files)
  }

  /** Blocks outside `chain` are as before. */
  ghost predicate SameOutside(store: Store, store': Store, chain: seq<nat>) {
    forall nr :: nr in store && nr !in chain ==> nr in store' && store'[nr] == store[nr]
  }

  lemma FileFrame(store: Store, store': Store, h: nat, f: File, chain: seq<nat>)
    requires FileOk(store, h, f) && SameOutside(store, store', chain) && ChainsApart(f.chain, chain)
    ensures FileOk(store', h, f)
  {
    forall i | 0 <= i < |f.chain|
      ensures f.chain[i] in store' && store'[f.chain[i]] == store[f.chain[i]]
    {
      assert f.chain[i] in f.chain;
    }
  }

  /** A file's blocks are in the store, so they are apart from blocks that are not. */
  lemma ApartFromNew(store: Store, h: nat, f: File, chain: seq<nat>)
    requires FileOk(store, h, f) && forall nr :: nr in chain ==> nr !in store
    ensures ChainsApart(f.chain, chain) && ChainsApart(chain, f.chain)
  {
    assert forall nr :: nr in f.chain ==> nr in store;
  }

  /** A new file in blocks that were not in the store leaves every other file as it was. */
  lemma AddFile(store: Store, store': Store, files: map<nat, File>, f: File)
    requires FilesOk(store, files) && |f.chain| > 0 && FileOk(store', f.chain[0], f)
    requires SameOutside(store, store', f.chain) && forall nr :: nr in f.chain ==> nr !in store
    ensures f.chain[0] !in files && FilesOk(store', files[f.chain[0] := f])
  {
    hide FileOk, SameOutside, ChainsApart;
    if f.chain[0] in files {
      HandleInStore(store, f.chain[0], files[f.chain[0]]);
    }
    forall h | h in files
      ensures FileOk(store', h, files[h])
      ensures ChainsApart(files[h].chain, f.chain) && ChainsApart(f.chain, files[h].chain)
    {
      ApartFromNew(store, h, files[h], f.chain);
      FileFrame(store, store', h, files[h], f.chain);
    }
  }

  lemma HandleInStore(store: Store, h: nat, f: File)
    requires FileOk(store, h, f)
    ensures h in store
  {
    assert f.chain[0] in store;
  }

  /** Without one file's blocks the other files are as they were. */
  lemma RemoveFile(store: Store, store': Store, files: map<nat, File>, h: nat)
    requires FilesOk(store, files) && h in files && SameOutside(store, store', files[h].chain)
    ensures FilesOk(store', files - {h})
  {
    forall k | k in files - {h}
      ensures FileOk(store', k, files[k])
    {
      FileFrame(store, store', k, files[k], files[h].chain);
    }
  }

  // ---------- reading by following `next` ----------

  /** The blocks that the do-while loop of readFile visits from nr on. */
  ghost predicate Walk(store: Store, nr: nat, walk: seq<nat>) {
    && |walk| > 0 && walk[0] == nr
    && Linked(store, walk) && Continues(walk)
  }

  lemma WalkTail(store: Store, nr: nat, walk: seq<nat>)
    requires Walk(store, nr, walk)
    ensures nr in store && store[nr].next == if |walk| > 1 then walk[1] else 0
    ensures |walk| > 1 ==> walk[1] != 0 && Walk(store, walk[1], walk[1..])
  {
    assert walk[0] in store;
    if |walk| > 1 {
      var tail := walk[1..];
      forall i | 0 <= i < |tail|
        ensures tail[i] in store && store[tail[i]].next == NextIn(tail, i)
      {
        assert tail[i] == walk[i + 1] && NextIn(tail, i) == NextIn(walk, i + 1);
      }
    }
  }

  /** A walk from a block is unique, so it is what the loop sees. */
  lemma {:induction false} WalkUnique(store: Store, nr: nat, walk: seq<nat>, walk': seq<nat>)
    requires Walk(store, nr, walk) && Walk(store, nr, walk')
    ensures walk == walk'
    decreases |walk|
  {
    WalkTail(store, nr, walk);
    WalkTail(store, nr, walk');
    if |walk| > 1 && |walk'| > 1 {
      WalkUnique(store, walk[1], walk[1..], walk'[1..]);
      assert walk == [nr] + walk[1..] && walk' == [nr] + walk'[1..];
    } else {
      assert |walk| == |walk'| == 1;
    }
  }

  /** The bytes that reading `size` bytes copies from block i of a walk. */
  function Taken(bytes: seq<Byte>, i: nat, size: nat): seq<Byte>
    requires |bytes| == BLOCK_SIZE && i * BLOCK_SIZE <= size
  {
    bytes[..Min(BLOCK_SIZE, size - i * BLOCK_SIZE)]
  }

  /** The first n blocks of the walk are whole, and none starts beyond `size`. */
  ghost predicate Readable(store: Store, walk: seq<nat>, size: nat, n: nat) {
    && n <= |walk| && (n > 0 ==> (n - 1) * BLOCK_SIZE <= size)
    && forall i :: 0 <= i < n ==> walk[i] in store && |store[walk[i]].bytes| == BLOCK_SIZE
  }

  /** What reading copies from the first n blocks of a walk. */
  ghost function Copied(store: Store, walk: seq<nat>, size: nat, n: nat): (bytes: seq<Byte>)
    requires Readable(store, walk, size, n)
    ensures |bytes| == Min(n * BLOCK_SIZE, size)
  {
    if n == 0 then []
    else Copied(store, walk, size, n - 1) + Taken(store[walk[n - 1]].bytes, n - 1, size)
  }

  /** Reading at least as many bytes as a chain holds starts with the bytes it holds. */
  lemma {:induction false} CopiedPieces(store: Store, chain: seq<nat>, data: seq<Byte>, size: nat, n: nat)
    requires n <= |chain| && HoldsPieces(store, chain, data, n) && |data| <= size
    requires forall i :: 0 <= i < n ==> |store[chain[i]].bytes| == BLOCK_SIZE
    ensures Readable(store, chain, size, n)
    ensures var m := Min(n * BLOCK_SIZE, |data|);
      m <= |Copied(store, chain, size, n)| && Copied(store, chain, size, n)[..m] == data[..m]
  {
    if n > 0 {
      var bytes := store[chain[n - 1]].bytes;
      assert Piece(data, n - 1) <= bytes;
      CopiedPieces(store, chain, data, size, n - 1);
      var before, last := Copied(store, chain, size, n - 1), Taken(bytes, n - 1, size);
      assert |before| == (n - 1) * BLOCK_SIZE && before == data[..(n - 1) * BLOCK_SIZE];
      assert last[..|Piece(data, n - 1)|] == Piece(data, n - 1);
      var m := Min(n * BLOCK_SIZE, |data|);
      assert (before + last)[..m] == before + last[..m - |before|];
    }
  }

  /** What writeFile leaves behind, whatever numbers it was given: blocks linked in the order of
      the numbers, each with its piece.  Number 0 may be among them. */
  ghost predicate Written(store: Store, chain: seq<nat>, data: seq<Byte>) {
    && |chain| == BlocksFor(|data|) && NoDup(chain)
    && Linked(store, chain) && HoldsPieces(store, chain, data, |chain|)
    && forall i :: 0 <= i < |chain| ==> |store[chain[i]].bytes| == BLOCK_SIZE
  }

  /** How far the walk from the first block gets: up to the block before a continuation block
      with number 0. */
  function Reach(chain: seq<nat>, k: nat): (r: nat)
    requires 0 < k <= |chain|
    ensures k <= r <= |chain|
    decreases |chain| - k
  {
    if k == |chain| || chain[k] == 0 then k else Reach(chain, k + 1)
  }

  lemma {:induction false} ReachStops(chain: seq<nat>, k: nat)
    requires 0 < k <= |chain|
    ensures k <= Reach(chain, k) <= |chain|
    ensures Reach(chain, k) < |chain| ==> chain[Reach(chain, k)] == 0
    ensures forall i :: k <= i < Reach(chain, k) ==> chain[i] != 0
    decreases |chain| - k
  {
    if k < |chain| && chain[k] != 0 {
      ReachStops(chain, k + 1);
    }
  }

  /** The part of a written chain that its handle leads to, with the bytes in it. */
  function Kept(chain: seq<nat>, data: seq<Byte>): (f: File)
    requires |chain| == BlocksFor(|data|)
    ensures 0 < |f.chain| <= |chain|
  {
    var r := Reach(chain, 1);
    File(chain[..r], data[..Min(r * BLOCK_SIZE, |data|)])
  }

  /** What is written is a file, cut off before the first continuation block with number 0. */
  lemma KeptIsFile(store: Store, chain: seq<nat>, data: seq<Byte>)
    requires Written(store, chain, data)
    ensures FileOk(store, chain[0], Kept(chain, data))
  {
    hide Reach, Piece;
    ReachStops(chain, 1);
    var r, f := Reach(chain, 1), Kept(chain, data);
    forall i | 0 <= i < r
      ensures i * BLOCK_SIZE <= |f.data| && Piece(f.data, i) == Piece(data, i)
      ensures f.chain[i] == chain[i] && NextIn(f.chain, i) == NextIn(chain, i)
    {
      SamePiece(data, i, Min(r * BLOCK_SIZE, |data|));
    }
  }

  lemma SamePiece(data: seq<Byte>, i: nat, n: nat)
    requires n <= |data| && i * BLOCK_SIZE <= n && (n == |data| || (i + 1) * BLOCK_SIZE <= n)
    ensures Piece(data[..n], i) == Piece(data, i)
  {
  }

  /** Nothing is lost exactly when no block that continues the data has number 0: a recycled block
      0 may only come first, or last as the empty extra block.  What is lost is whole blocks. */
  lemma KeptExact(chain: seq<nat>, data: seq<Byte>)
    requires |chain| == BlocksFor(|data|)
    ensures var f := Kept(chain, data);
      && f.data <= data
      && (f.data == data <==> forall i :: 0 < i < |chain| && i * BLOCK_SIZE < |data| ==> chain[i] != 0)
      && (f.data != data ==> |f.data| == |f.chain| * BLOCK_SIZE)
  {
    ReachStops(chain, 1);
  }

  /** Reading back a written file with its size gives its bytes exactly when nothing was lost. */
  lemma ReadBackIsKept(store: Store, chain: seq<nat>, data: seq<Byte>)
    requires Written(store, chain, data)
    ensures var f := Kept(chain, data);
      && Walk(store, chain[0], f.chain) && Readable(store, f.chain, |data|, |f.chain|)
      && (Copied(store, f.chain, |data|, |f.chain|) == data <==> f.data == data)
  {
    hide Kept, Linked, NoDup, Continues, HoldsPieces;
    KeptIsFile(store, chain, data);
    KeptExact(chain, data);
    KeptInChain(chain, data);
    WrittenParts(store, chain, data);
    var f := Kept(chain, data);
    assert Walk(store, chain[0], f.chain);
    FileCopies(store, chain[0], f, |data|);
  }

  /** A file's blocks, read with room for its bytes. */
  lemma FileCopies(store: Store, h: nat, f: File, size: nat)
    requires FileOk(store, h, f) && |f.data| <= size
    requires forall nr :: nr in f.chain ==> nr in store && |store[nr].bytes| == BLOCK_SIZE
    ensures Readable(store, f.chain, size, |f.chain|)
    ensures f.data <= Copied(store, f.chain, size, |f.chain|)
    ensures size == |f.data| || |f.data| == |f.chain| * BLOCK_SIZE ==> Copied(store, f.chain, size, |f.chain|) == f.data
  {
    hide Linked, NoDup, Continues, HoldsPieces, Readable, Copied;
    CopiedPieces(store, f.chain, f.data, size, |f.chain|);
    assert f.data[..|f.data|] == f.data;
  }

  /** In terms of the numbers: no block that continues the data has number 0. */
  lemma ReadBackExact(store: Store, chain: seq<nat>, data: seq<Byte>)
    requires Written(store, chain, data)
    ensures var walk := Kept(chain, data).chain;
      && Walk(store, chain[0], walk) && Readable(store, walk, |data|, |walk|)
      && (Copied(store, walk, |data|, |walk|) == data
          <==> forall i :: 0 < i < |chain| && i * BLOCK_SIZE < |data| ==> chain[i] != 0)
  {
    hide Kept, Written, Walk, Readable, Copied;
    WrittenParts(store, chain, data);
    ReadBackIsKept(store, chain, data);
    KeptExact(chain, data);
  }

  lemma WrittenParts(store: Store, chain: seq<nat>, data: seq<Byte>)
    requires Written(store, chain, data)
    ensures |chain| == BlocksFor(|data|)
    ensures forall nr :: nr in chain ==> nr in store && |store[nr].bytes| == BLOCK_SIZE
  {
  }

  /** In terms of the state before the write: none of the recycled numbers that the data takes after
      the first is 0. */
  lemma ReadBackFromFreeList(used: set<nat>, free: seq<nat>, count: nat, store: Store, data: seq<Byte>)
    requires Partition(used, free, count) && Written(store, Numbers(free, count, BlocksFor(|data|)), data)
    ensures var walk := Kept(Numbers(free, count, BlocksFor(|data|)), data).chain;
      && Readable(store, walk, |data|, |walk|)
      && (Copied(store, walk, |data|, |walk|) == data <==> Fits(free, data))
  {
    hide Kept, Written, Walk, Readable, Copied, Fits, Partition, Numbers;
    ReadBackIsKept(store, Numbers(free, count, BlocksFor(|data|)), data);
    NothingFreeAtFirst(used, free, count);
    FitsIsKept(free, count, data);
  }

  /** The guard: no recycled number that would continue the data is 0. */
  predicate Fits(free: seq<nat>, data: seq<Byte>) {
    forall i :: 0 < i < |free| && i * BLOCK_SIZE < |data| ==> free[i] != 0
  }

  lemma FitsIsKept(free: seq<nat>, count: nat, data: seq<Byte>)
    requires count == 0 ==> free == []
    ensures Fits(free, data) <==> Kept(Numbers(free, count, BlocksFor(|data|)), data).data == data
  {
    hide Kept;
    var chain := Numbers(free, count, BlocksFor(|data|));
    KeptExact(chain, data);
    assert forall i :: 0 < i < |free| && i * BLOCK_SIZE < |data| ==> i < |chain| && chain[i] == free[i];
    assert forall i :: 0 < i < |chain| ==> chain[i] == if i < |free| then free[i] else count + i - |free|;
  }

  lemma NothingFreeAtFirst(used: set<nat>, free: seq<nat>, count: nat)
    requires Partition(used, free, count)
    ensures count == 0 ==> free == []
  {
    assert free != [] ==> free[0] in free;
  }

  /** While block 0 is in use, every new file is whole. */
  lemma ZeroInUseFits(used: set<nat>, free: seq<nat>, count: nat, data: seq<Byte>)
    requires Partition(used, free, count) && 0 in used
    ensures Fits(free, data)
  {
    assert forall i :: 0 <= i < |free| ==> free[i] in free;
  }

  // ---------- writing, block by block ----------

  ghost predicate FullBlocks(store: Store) {
    forall nr :: nr in store ==> |store[nr].bytes| == BLOCK_SIZE
  }

  /** Bytes of a buffer after a copy to its start. */
  function CopyIn(piece: seq<Byte>, bytes: seq<Byte>): seq<Byte>
    requires |piece| <= |bytes|
  {
    piece + bytes[|piece|..]
  }

  ghost function Elements(chain: seq<nat>, n: nat): set<nat>
    requires n <= |chain|
  {
    set i | 0 <= i < n :: chain[i]
  }

  lemma OneMoreElement(chain: seq<nat>, n: nat)
    requires n < |chain|
    ensures Elements(chain, n + 1) == Elements(chain, n) + {chain[n]}
  {
  }

  /** The first n numbers are distinct and were not in the store. */
  ghost predicate NewNumbers(store: Store, chain: seq<nat>, n: nat) {
    && n <= |chain|
    && (forall i, j :: 0 <= i < j < n ==> chain[i] != chain[j])
    && (forall i :: 0 <= i < n ==> chain[i] !in store)
  }

  /** The first n blocks are linked to their successors. */
  ghost predicate LinkedUpTo(store: Store, chain: seq<nat>, n: nat) {
    && n <= |chain|
    && forall i :: 0 <= i < n ==> chain[i] in store && store[chain[i]].next == NextIn(chain, i)
  }

  ghost predicate Unchanged(store0: Store, store: Store) {
    forall nr :: nr in store0 ==> nr in store && store[nr] == store0[nr]
  }

  /** The first `count` blocks are filled and linked, one more is allocated. */
  ghost predicate WrittenUpTo(store0: Store, store: Store, chain: seq<nat>, data: seq<Byte>, count: nat) {
    && count < |chain| == BlocksFor(|data|)
    && NewNumbers(store0, chain, count + 1)
    && store.Keys == store0.Keys + Elements(chain, count + 1)
    && Unchanged(store0, store)
    && LinkedUpTo(store, chain, count)
    && HoldsPieces(store, chain, data, count)
    && FullBlocks(store)
  }

  /** The result of writing a file. */
  ghost predicate WriteDone(store0: Store, store: Store, chain: seq<nat>, data: seq<Byte>) {
    && Written(store, chain, data) && FullBlocks(store)
    && SameOutside(store0, store, chain) && (forall nr :: nr in chain ==> nr !in store0)
    && store.Keys == store0.Keys + Elements(chain, |chain|)
  }

  /** A new block `next`, linked from block nr. */
  function WithNext(store: Store, nr: nat, next: nat, bytes: seq<Byte>): Store
    requires nr in store
  {
    store[next := Cell(0, bytes)][nr := store[nr].(next := next)]
  }

  lemma WriteStart(store0: Store, chain: seq<nat>, data: seq<Byte>, bytes: seq<Byte>)
    requires |chain| == BlocksFor(|data|) && chain[0] !in store0 && FullBlocks(store0) && |bytes| == BLOCK_SIZE
    ensures WrittenUpTo(store0, store0[chain[0] := Cell(0, bytes)], chain, data, 0)
  {
    OneMoreElement(chain, 0);
  }

  lemma PieceBounds(data: seq<Byte>, i: nat)
    requires i < BlocksFor(|data|)
    ensures i * BLOCK_SIZE <= |data| && |Piece(data, i)| <= BLOCK_SIZE
    ensures Piece(data, i) == data[i * BLOCK_SIZE..i * BLOCK_SIZE + Min(BLOCK_SIZE, |data| - i * BLOCK_SIZE)]
  {
  }

  /** Filling and linking block n makes the first n + 1 blocks filled and linked. */
  lemma FillOne(store: Store, chain: seq<nat>, data: seq<Byte>, n: nat, cell: Cell)
    requires n < |chain| == BlocksFor(|data|) && LinkedUpTo(store, chain, n) && HoldsPieces(store, chain, data, n)
    requires forall i :: 0 <= i < n ==> chain[i] != chain[n]
    requires cell.next == NextIn(chain, n) && n * BLOCK_SIZE <= |data| && Piece(data, n) <= cell.bytes
    ensures LinkedUpTo(store[chain[n] := cell], chain, n + 1)
    ensures HoldsPieces(store[chain[n] := cell], chain, data, n + 1)
  {
  }

  /** A cell outside the first n blocks does not matter to them. */
  lemma OtherCell(store: Store, chain: seq<nat>, data: seq<Byte>, n: nat, nr: nat, cell: Cell)
    requires LinkedUpTo(store, chain, n) && HoldsPieces(store, chain, data, n) && nr !in store
    ensures LinkedUpTo(store[nr := cell], chain, n)
    ensures HoldsPieces(store[nr := cell], chain, data, n)
  {
  }

  lemma NewCell(store0: Store, store: Store, nr: nat, cell: Cell)
    requires Unchanged(store0, store) && nr !in store0 && |cell.bytes| == BLOCK_SIZE && FullBlocks(store)
    ensures Unchanged(store0, store[nr := cell]) && FullBlocks(store[nr := cell])
  {
  }

  lemma AllocatedBlock(store0: Store, store: Store, chain: seq<nat>, data: seq<Byte>, count: nat)
    requires WrittenUpTo(store0, store, chain, data, count)
    ensures chain[count] in store && chain[count] !in store0 && |store[chain[count]].bytes| == BLOCK_SIZE
    ensures forall i :: 0 <= i < count ==> chain[i] != chain[count]
    ensures count * BLOCK_SIZE <= |data| && |Piece(data, count)| <= BLOCK_SIZE && FullBlocks(store)
  {
    PieceBounds(data, count);
    OneMoreElement(chain, count);
  }

  lemma WriteNext(store0: Store, store: Store, chain: seq<nat>, data: seq<Byte>, count: nat, bytes: seq<Byte>)
    requires WrittenUpTo(store0, store, chain, data, count) && count + 1 < |chain|
    requires chain[count + 1] !in store && |bytes| == BLOCK_SIZE
    ensures chain[count] in store && count * BLOCK_SIZE <= |data|
    ensures |Piece(data, count)| <= BLOCK_SIZE == |store[chain[count]].bytes|
    ensures var filled := store[chain[count] := Cell(0, CopyIn(Piece(data, count), store[chain[count]].bytes))];
      WrittenUpTo(store0, WithNext(filled, chain[count], chain[count + 1], bytes), chain, data, count + 1)
  {
    hide LinkedUpTo, HoldsPieces, Unchanged, FullBlocks, Elements, Piece;
    AllocatedBlock(store0, store, chain, data, count);
    var filled := Cell(chain[count + 1], CopyIn(Piece(data, count), store[chain[count]].bytes));
    var store1 := store[chain[count] := filled];
    assert store1[chain[count + 1] := Cell(0, bytes)]
        == WithNext(store[chain[count] := filled.(next := 0)], chain[count], chain[count + 1], bytes);
    FillOne(store, chain, data, count, filled);
    NewCell(store0, store, chain[count], filled);
    OtherCell(store1, chain, data, count + 1, chain[count + 1], Cell(0, bytes));
    NewCell(store0, store1, chain[count + 1], Cell(0, bytes));
    OneMoreElement(chain, count + 1);
    assert NewNumbers(store0, chain, count + 2) by {
      NumbersStayNew(store0, store, chain, count + 1);
    }
  }

  lemma NumbersStayNew(store0: Store, store: Store, chain: seq<nat>, n: nat)
    requires n < |chain| && NewNumbers(store0, chain, n)
    requires store.Keys == store0.Keys + Elements(chain, n) && chain[n] !in store
    ensures NewNumbers(store0, chain, n + 1)
  {
    assert forall i :: 0 <= i < n ==> chain[i] in Elements(chain, n);
  }

  lemma WriteLast(store0: Store, store: Store, chain: seq<nat>, data: seq<Byte>, count: nat)
    requires WrittenUpTo(store0, store, chain, data, count) && count + 1 == |chain|
    ensures chain[count] in store && count * BLOCK_SIZE <= |data|
    ensures |Piece(data, count)| <= BLOCK_SIZE == |store[chain[count]].bytes|
    ensures var store' := store[chain[count] := Cell(0, CopyIn(Piece(data, count), store[chain[count]].bytes))];
      WriteDone(store0, store', chain, data)
  {
    hide Piece, HoldsPieces, LinkedUpTo, Unchanged, FullBlocks, Elements;
    AllocatedBlock(store0, store, chain, data, count);
    var filled := Cell(0, CopyIn(Piece(data, count), store[chain[count]].bytes));
    FillOne(store, chain, data, count, filled);
    NewCell(store0, store, chain[count], filled);
    assert store[chain[count] := filled].Keys == store.Keys;
    CompleteIsDone(store0, store[chain[count] := filled], chain, data);
  }

  lemma CompleteIsDone(store0: Store, store: Store, chain: seq<nat>, data: seq<Byte>)
    requires |chain| == BlocksFor(|data|) && LinkedUpTo(store, chain, |chain|) && HoldsPieces(store, chain, data, |chain|)
    requires NewNumbers(store0, chain, |chain|) && Unchanged(store0, store) && FullBlocks(store)
    requires store.Keys == store0.Keys + Elements(chain, |chain|)
    ensures WriteDone(store0, store, chain, data)
  {
  }

  /** After writing, the other files are as before, and what the new handle leads to is a file. */
  lemma FilesAfterWrite(store0: Store, store: Store, files: map<nat, File>, chain: seq<nat>, data: seq<Byte>)
    requires WriteDone(store0, store, chain, data) && FilesOk(store0, files)
    ensures chain[0] !in files && FilesOk(store, files[chain[0] := Kept(chain, data)])
  {
    hide FilesOk, Kept, FileOk;
    KeptIsFile(store, chain, data);
    var f := Kept(chain, data);
    KeptInChain(chain, data);
    FileStarts(store, chain[0], f);
    AddFile(store0, store, files, f);
  }

  lemma KeptInChain(chain: seq<nat>, data: seq<Byte>)
    requires |chain| == BlocksFor(|data|)
    ensures forall nr :: nr in Kept(chain, data).chain ==> nr in chain
    ensures |Kept(chain, data).chain| > 0 && Kept(chain, data).chain[0] == chain[0]
  {
  }

  lemma FileStarts(store: Store, h: nat, f: File)
    requires FileOk(store, h, f)
    ensures |f.chain| > 0 && f.chain[0] == h
  {
  }

  /** Following the links of a file from its handle, with room for its bytes, copies its bytes first,
      and no more than its bytes if they fill its blocks. */
  lemma FileReadsBack(store: Store, files: map<nat, File>, h: nat, walk: seq<nat>, size: nat)
    requires FilesOk(store, files) && FullBlocks(store) && h in files && Walk(store, h, walk) && |files[h].data| <= size
    ensures walk == files[h].chain && Readable(store, walk, size, |walk|)
    ensures files[h].data <= Copied(store, walk, size, |walk|)
    ensures size == |files[h].data| || |files[h].data| == |walk| * BLOCK_SIZE ==>
              Copied(store, walk, size, |walk|) == files[h].data
  {
    hide Linked, NoDup, Continues, HoldsPieces, Readable, Copied, Disjoint;
    var f := files[h];
    assert FileOk(store, h, f);
    WalkUnique(store, h, walk, f.chain);
    ChainInStore(store, h, f);
    FileCopies(store, h, f, size);
  }

  lemma ChainInStore(store: Store, h: nat, f: File)
    requires FileOk(store, h, f)
    ensures forall nr :: nr in f.chain ==> nr in store
  {
  }

  lemma WalkStarts(store: Store, nr: nat, walk: seq<nat>, size: nat)
    requires Walk(store, nr, walk)
    ensures |walk| > 0 && walk[0] == nr && Readable(store, walk, size, 0) && Copied(store, walk, size, 0) == []
  {
  }

  /** One more block of a walk. */
  lemma ReadStep(store: Store, nr: nat, walk: seq<nat>, size: nat, k: nat)
    requires Walk(store, nr, walk) && FullBlocks(store) && k < |walk| && Readable(store, walk, size, k)
    requires (|walk| - 1) * BLOCK_SIZE <= size
    ensures Readable(store, walk, size, k + 1) && walk[k] in store && |store[walk[k]].bytes| == BLOCK_SIZE
    ensures Copied(store, walk, size, k + 1)
            == Copied(store, walk, size, k) + store[walk[k]].bytes[..Min(BLOCK_SIZE, size - k * BLOCK_SIZE)]
    ensures store[walk[k]].next == 0 <==> k + 1 == |walk|
    ensures k + 1 < |walk| ==> walk[k + 1] == store[walk[k]].next
  {
    assert store[walk[k]].next == NextIn(walk, k);
  }

  /** Block k of a walk once the blocks before it are gone. */
  lemma DeleteStep(store: Store, nr: nat, walk: seq<nat>, k: nat)
    requires Walk(store, nr, walk) && NoDup(walk) && k < |walk|
    ensures walk[k] in store && walk[k] !in Elements(walk, k)
    ensures store[walk[k]].next == 0 <==> k + 1 == |walk|
    ensures k + 1 < |walk| ==> walk[k + 1] == store[walk[k]].next
    ensures Elements(walk, k + 1) == Elements(walk, k) + {walk[k]} && walk[..k + 1] == walk[..k] + [walk[k]]
  {
    assert store[walk[k]].next == NextIn(walk, k);
    OneMoreElement(walk, k);
  }

  lemma ChainIsWalk(store: Store, files: map<nat, File>, h: nat)
    requires FilesOk(store, files) && h in files
    ensures Walk(store, h, files[h].chain) && NoDup(files[h].chain) && h in store
    ensures (|files[h].chain| - 1) * BLOCK_SIZE <= |files[h].data|
  {
    assert FileOk(store, h, files[h]);
    HandleInStore(store, h, files[h]);
  }

  lemma CopyNothing(before: seq<Byte>)
    ensures CopyIn([], before) == before
  {
  }

  /** The array after the copy of one more piece. */
  lemma CopyGrows(before: seq<Byte>, now: seq<Byte>, next: seq<Byte>, done: seq<Byte>, piece: seq<Byte>)
    requires |done| + |piece| <= |before| && now == CopyIn(done, before) && |next| == |now|
    requires forall i :: 0 <= i < |next| ==>
      next[i] == if |done| <= i < |done| + |piece| then piece[i - |done|] else now[i]
    ensures next == CopyIn(done + piece, before)
  {
  }

  lemma DeletedOutside(store: Store, chain: seq<nat>)
    ensures SameOutside(store, store - Elements(chain, |chain|), chain)
  {
  }

  lemma FullAfterDelete(store: Store, gone: set<nat>)
    requires FullBlocks(store)
    ensures FullBlocks(store - gone)
  {
  }

  lemma DoneIsFull(store0: Store, store: Store, chain: seq<nat>, data: seq<Byte>)
    requires WriteDone(store0, store, chain, data)
    ensures FullBlocks(store)
  {
  }

  /** The offsets that reading or writing a file of this size counts up to stay within an int exactly for
      sizes below 2147483616. */
  lemma OffsetsFitExactly(size: nat)
    ensures BlocksFor(size) * BLOCK_SIZE <= INT_MAX <==> size < 2147483616
  {
    var q := size / BLOCK_SIZE;
    assert size == q * BLOCK_SIZE + size % BLOCK_SIZE;
    assert 32772 * BLOCK_SIZE == 2147483616;
    if q >= 32772 {
      assert q * BLOCK_SIZE >= 32772 * BLOCK_SIZE;
    } else {
      assert (q + 1) * BLOCK_SIZE <= 32772 * BLOCK_SIZE;
    }
  }

  // ---------- the spill file ----------

  /** The offset of a block in the spill file: an unsigned 32-bit product. */
  function SlotOffset(nr: nat): nat {
    (nr * BLOCK_SIZE) % 0x1_0000_0000
  }

  /** A file after a write at an offset; a gap behind its end is filled with zeros. */
  function WriteAt(file: seq<Byte>, offset: nat, bytes: seq<Byte>): (r: seq<Byte>)
    ensures offset + |bytes| <= |r| && r[offset..offset + |bytes|] == bytes
  {
    if offset + |bytes| <= |file| then file[..offset] + bytes + file[offset + |bytes|..]
    else if offset <= |file| then file[..offset] + bytes
    else file + seq(offset - |file|, _ => 0) + bytes
  }

  /** Writes block nr to its slot. */
  function Spill(file: seq<Byte>, nr: nat, bytes: seq<Byte>): seq<Byte> {
    WriteAt(file, SlotOffset(nr), bytes)
  }

  /** What a read of block nr's slot gives, nothing if the file ends before. */
  function SlotBytes(file: seq<Byte>, nr: nat): (r: seq<Byte>)
    ensures r == [] || |r| == BLOCK_SIZE
  {
    if SlotOffset(nr) + BLOCK_SIZE <= |file| then file[SlotOffset(nr)..SlotOffset(nr) + BLOCK_SIZE] else []
  }

  lemma SlotIsBlock(file: seq<Byte>, nr: nat)
    requires SlotBytes(file, nr) != []
    ensures |SlotBytes(file, nr)| == BLOCK_SIZE
  {
  }

  ghost predicate SlotsApart(a: nat, b: nat) {
    SlotOffset(a) + BLOCK_SIZE <= SlotOffset(b) || SlotOffset(b) + BLOCK_SIZE <= SlotOffset(a)
  }

  /** As many numbers have slots of their own. */
  const SLOTS := 65545

  lemma SlotsAreApart(a: nat, b: nat)
    requires a < SLOTS && b < SLOTS && a != b
    ensures SlotsApart(a, b)
  {
  }

  lemma WriteElsewhere(file: seq<Byte>, offset: nat, bytes: seq<Byte>, from: nat, to: nat)
    requires from <= to <= |file| && (to <= offset || offset + |bytes| <= from)
    ensures var r := WriteAt(file, offset, bytes);
      to <= |r| && r[from..to] == file[from..to]
  {
  }

  /** A block that is spilled can be read back, and the other slots keep their blocks. */
  lemma SpillKeeps(file: seq<Byte>, nr: nat, bytes: seq<Byte>)
    requires |bytes| == BLOCK_SIZE && nr < SLOTS
    ensures SlotBytes(Spill(file, nr, bytes), nr) == bytes
    ensures forall a: nat :: a < SLOTS && a != nr && SlotBytes(file, a) != [] ==>
              SlotBytes(Spill(file, nr, bytes), a) == SlotBytes(file, a)
  {
    hide SlotOffset, WriteAt;
    forall a: nat | a < SLOTS && a != nr && SlotBytes(file, a) != []
      ensures SlotBytes(Spill(file, nr, bytes), a) == SlotBytes(file, a)
    {
      SlotsAreApart(a, nr);
      WriteElsewhere(file, SlotOffset(nr), bytes, SlotOffset(a), SlotOffset(a) + BLOCK_SIZE);
    }
  }

  /** A block survives the spilling of another one, whatever the file and the two blocks hold. */
  ghost predicate Survives(a: nat, b: nat) {
    forall file: seq<Byte>, x: seq<Byte>, y: seq<Byte> :: |x| == |y| == BLOCK_SIZE ==>
      SlotBytes(Spill(Spill(file, a, x), b, y), a) == x
  }

  /** Spilled blocks survive each other exactly while no more than 65545 numbers are in use: the slot of
      number 65545 lies over the end of that of 0. */
  lemma SpillSlotsExact(count: nat)
    ensures (forall a: nat, b: nat :: a < count && b < count && a != b ==> Survives(a, b)) <==> count <= SLOTS
  {
    hide Spill, SlotBytes, SlotOffset;
    if count <= SLOTS {
      forall a: nat, b: nat | a < count && b < count && a != b
        ensures Survives(a, b)
      {
        EachSurvives(a, b);
      }
    } else {
      LastOverFirst();
      assert 0 < count && SLOTS < count && !Survives(0, SLOTS);
    }
  }

  lemma EachSurvives(a: nat, b: nat)
    requires a < SLOTS && b < SLOTS && a != b
    ensures Survives(a, b)
  {
    hide Spill, SlotBytes, SlotOffset;
    forall file: seq<Byte>, x: seq<Byte>, y: seq<Byte> | |x| == |y| == BLOCK_SIZE
      ensures SlotBytes(Spill(Spill(file, a, x), b, y), a) == x
    {
      SpillKeeps(file, a, x);
      SpillKeeps(Spill(file, a, x), b, y);
    }
  }

  /** A block of zeros in slot 0 and a block of ones in slot 65545. */
  lemma LastOverFirst()
    ensures !Survives(0, SLOTS)
  {
    hide WriteAt;
    var x, y := seq(BLOCK_SIZE, _ => 0 as Byte), seq(BLOCK_SIZE, _ => 1 as Byte);
    assert SlotOffset(0) == 0 && SlotOffset(SLOTS) == 65464;
    var file := Spill(Spill([], 0, x), SLOTS, y);
    assert file[65464..65464 + BLOCK_SIZE][0] == 1;
    assert SlotBytes(file, 0) != [] ==> SlotBytes(file, 0)[65464] == file[65464];
    assert x[65464] == 0;
    assert SlotBytes(Spill(Spill([], 0, x), SLOTS, y), 0) != x;
  }
}

/** Two lists that share no element and repeat none, under the moves of a splice. */
module Lists {

  ghost predicate Apart<T>(a: seq<T>, b: seq<T>) {
    && (forall i, j :: 0 <= i < j < |a| ==> a[i] != a[j])
    && (forall i, j :: 0 <= i < j < |b| ==> b[i] != b[j])
    && (forall x :: x in a ==> x !in b)
  }

  /** The last element of one list becomes the first of the other. */
  lemma LastMoves<T>(a: seq<T>, b: seq<T>)
    requires Apart(a, b) && |a| > 0
    ensures var last := a[|a| - 1];
      && last !in a[..|a| - 1] && last !in b
      && Apart(a[..|a| - 1], [last] + b)
      && (forall x :: x in a <==> x == last || x in a[..|a| - 1])
      && (forall x :: x in [last] + b <==> x == last || x in b)
  {
  }

  /** Element k of the second list becomes the first of the other. */
  lemma InnerMoves<T>(a: seq<T>, b: seq<T>, k: nat)
    requires Apart(a, b) && k < |b|
    ensures var rest := b[..k] + b[k + 1..];
      && b[k] !in a && b[k] !in rest
      && Apart([b[k]] + a, rest)
      && (forall x :: x in b <==> x == b[k] || x in rest)
  {
  }

  lemma NewFirst<T>(a: seq<T>, b: seq<T>, x: T)
    requires Apart(a, b) && x !in a && x !in b
    ensures Apart([x] + a, b)
  {
  }
}

/** The page cache: blocks in memory, spilled blocks on disk, an index over both, and the numbers
    of deleted blocks.  A list position (a C++ list iterator) is represented by its block. */
module CacheFiles {
  import opened CArith
  import opened BlockStore
  import opened Lists

  class Block {
    const nr: nat
    var next: nat
    var data: Option<seq<Byte>>  // None stands for NULL: the bytes are in the spill file

    constructor (nr: nat, data: seq<Byte>)
      ensures this.nr == nr && next == 0 && this.data == Some(data)
    {
      this.nr, this.next, this.data := nr, 0, Some(data);
    }
  }

  predicate IsBuffer(bytes: seq<Byte>) {
    |bytes| == BLOCK_SIZE
  }

  /** A new buffer; its bytes are not initialized. */
  method NewBuffer() returns (s: seq<Byte>)
    ensures |s| == BLOCK_SIZE
  {
    assert |seq(BLOCK_SIZE, _ => 0 as Byte)| == BLOCK_SIZE;
    s :| |s| == BLOCK_SIZE;
  }

  class CacheFile {
    const keepInMemory: bool          // m_keep_in_memory
    var freePages: seq<nat>           // m_free_pages
    var mem: seq<Block>               // m_page_cache_mem
    var disk: seq<Block>              // m_page_cache_disk
    var pageMap: map<nat, Block>      // m_page_map
    var pageCount: nat                // m_page_count
    var current: Block?               // m_current_block
    var spill: seq<Byte>              // the contents of m_file
    ghost var files: map<nat, File>   // what has been written and not deleted, by handle

    ghost predicate Resident()
      reads this`mem, mem
    {
      forall b :: b in mem ==> b.data.Some? && |b.data.value| == BLOCK_SIZE
    }

    /** A spilled block is the one its number indexes, and its bytes are in its own slot. */
    ghost predicate Spilled()
      reads this`disk, this`spill, this`pageMap, disk
    {
      forall b :: b in disk ==>
        && b.data.None? && SlotBytes(spill, b.nr) != []
        && b.nr in pageMap && pageMap[b.nr] == b
    }

    ghost predicate Indexed()
      reads this`mem, this`disk, this`pageMap
    {
      && (forall nr :: nr in pageMap ==> pageMap[nr].nr == nr && (pageMap[nr] in mem || pageMap[nr] in disk))
      && (if keepInMemory then disk == [] else forall b :: b in mem ==> b.nr in pageMap && pageMap[b.nr] == b)
    }

    /** Every block that may be spilled has a slot of its own. */
    ghost predicate Slotted()
      reads this`pageMap
    {
      !keepInMemory ==> forall nr :: nr in pageMap ==> nr < SLOTS
    }

    /** In spill mode n more numbers can be taken such that each number in use has a slot of its own. */
    predicate HasSlots(n: nat)
      reads this`freePages, this`pageCount
    {
      !keepInMemory ==> CountAfter(freePages, pageCount, n) <= SLOTS
    }

    ghost predicate Wired()
      reads this`mem, this`disk, this`spill, this`pageMap, mem, disk
    {
      Apart(mem, disk) && Resident() && Spilled() && Indexed() && Slotted()
    }

    ghost function Nodes(): set<Block>
      reads this`mem, this`disk
    {
      (set b | b in mem) + (set b | b in disk)
    }

    /** Every block of the lists was there before, or is new. */
    twostate predicate OnlyNewBlocks()
      reads this
    {
      forall b :: b in Nodes() ==> fresh(b) || b in old(Nodes())
    }

    /** What a block holds, wherever it is kept. */
    ghost function CellOf(b: Block): Cell
      reads this`spill, b
    {
      Cell(b.next, if b.data.Some? then b.data.value else SlotBytes(spill, b.nr))
    }

    ghost function Blocks(): Store
      requires Wired()
      reads this`mem, this`disk, this`spill, this`pageMap, mem, disk
    {
      map nr | nr in pageMap :: CellOf(pageMap[nr])
    }

    /** What every public call keeps. */
    ghost predicate Valid()
      reads this, mem, disk
    {
      && Wired() && Bounded() && current == null
      && Partition(pageMap.Keys, freePages, pageCount)
      && FullBlocks(Blocks()) && FilesOk(Blocks(), files)
    }

    constructor (keepInMemory: bool)
      ensures Valid() && files == map[] && Blocks() == map[] && freePages == [] && pageCount == 0
      ensures this.keepInMemory == keepInMemory && mem == [] && disk == []
    {
      this.keepInMemory := keepInMemory;
      freePages, mem, disk, pageMap, pageCount, current, spill := [], [], [], map[], 0, null, [];
      files := map[];
    }

    /** fseek and fwrite: writes a block in memory to its slot of the spill file. */
    method Flush(block: Block)
      requires Wired() && block in mem && !keepInMemory
      modifies this`spill
      ensures Wired() && Blocks() == old(Blocks())
      ensures spill == Spill(old(spill), block.nr, block.data.value) && SlotBytes(spill, block.nr) == block.data.value
    {
      hide Spill, SlotBytes, Apart;
      assert forall b :: b in disk ==> b.nr != block.nr;
      SpillKeeps(spill, block.nr, block.data.value);
      spill := Spill(spill, block.nr, block.data.value);
      assert Spilled();
      assert forall nr :: nr in pageMap ==> CellOf(pageMap[nr]) == old(CellOf(pageMap[nr]));
    }

    /** The oldest block, once it is flushed, gives up its data and moves to the other list. */
    method Unload()
      requires Wired() && mem != [] && !keepInMemory
      requires SlotBytes(spill, mem[|mem| - 1].nr) == mem[|mem| - 1].data.value
      modifies this`mem, this`disk, this`pageMap, mem[|mem| - 1]
      ensures Wired() && Blocks() == old(Blocks()) && pageMap == old(pageMap)
      ensures mem == old(mem)[..old(|mem|) - 1] && disk == [old(mem[|mem| - 1])] + old(disk)
    {
      hide Apart, SlotBytes;
      LastMoves(mem, disk);
      var oldBlock := mem[|mem| - 1];
      oldBlock.data := None;
      disk := [oldBlock] + disk;
      mem := mem[..|mem| - 1];
      pageMap := pageMap[oldBlock.nr := oldBlock];
      assert pageMap == old(pageMap);
      assert Resident();
      assert Spilled();
      assert Indexed();
      assert CellOf(oldBlock) == old(CellOf(oldBlock));
      assert forall nr :: nr in pageMap ==> CellOf(pageMap[nr]) == old(CellOf(pageMap[nr]));
    }

    lemma LastInMemory()
      requires Wired() && mem != []
      ensures mem[|mem| - 1].data.Some? && mem[|mem| - 1] in mem
    {
    }

    /** Writes the oldest block to the spill file and drops it from memory. */
    method SpillLast()
      requires Wired() && mem != [] && !keepInMemory
      modifies this`mem, this`disk, this`pageMap, this`spill, mem[|mem| - 1]
      ensures Wired() && Blocks() == old(Blocks()) && pageMap == old(pageMap)
      ensures mem == old(mem)[..old(|mem|) - 1] && disk == [old(mem[|mem| - 1])] + old(disk)
      ensures old(mem[|mem| - 1].data.Some?)
      ensures spill == Spill(old(spill), old(mem[|mem| - 1].nr), old(mem[|mem| - 1].data.value))
      ensures OnlyNewBlocks()
      ensures forall b :: b in old(mem) ==> b in mem || b == old(mem[|mem| - 1])
    {
      hide Wired, Blocks, Spill, SlotBytes;
      LastInMemory();
      Flush(mem[|mem| - 1]);
      Unload();
      assert old(mem) == mem + [old(mem[|mem| - 1])];
    }

    /** In spill mode the oldest block beyond 32 leaves memory; the locked block stays. */
    method CleanupMemCache()
      requires Wired() && mem != [] && (!keepInMemory && |mem| > CACHE_SIZE ==> current != mem[|mem| - 1])
      modifies this`mem, this`disk, this`pageMap, this`spill, mem[|mem| - 1]
      ensures Wired() && Blocks() == old(Blocks()) && pageMap == old(pageMap)
      ensures mem == if !keepInMemory && old(|mem|) > CACHE_SIZE then old(mem)[..old(|mem|) - 1] else old(mem)
      ensures OnlyNewBlocks()
      ensures current != null && old(current in mem) ==> current in mem
    {
      hide Wired, Blocks;
      if !keepInMemory {
        if |mem| > CACHE_SIZE {
          SpillLast();
        }
      }
    }

    /** Between calls at most 32 blocks are in memory in spill mode. */
    ghost predicate Bounded()
      reads this`mem
    {
      !keepInMemory ==> |mem| <= CACHE_SIZE
    }

    /** If one more block comes to memory, the locked block is not the one to leave. */
    ghost predicate LockedIsSafe()
      reads this
    {
      |mem| >= CACHE_SIZE ==> mem[|mem| - 1] != current
    }

    method PushFront(block: Block)
      requires Wired() && block.nr !in pageMap && block !in mem && block !in disk
      requires !keepInMemory ==> block.nr < SLOTS
      requires block.data.Some? && |block.data.value| == BLOCK_SIZE
      modifies this`mem, this`pageMap
      ensures Wired() && mem == [block] + old(mem) && pageMap == old(pageMap)[block.nr := block]
      ensures Blocks() == old(Blocks())[block.nr := Cell(block.next, block.data.value)]
    {
      hide Apart, SlotBytes;
      NewFirst(mem, disk, block);
      mem := [block] + mem;
      pageMap := pageMap[block.nr := block];
      assert Resident();
      assert Spilled();
      assert Indexed();
      assert Slotted();
      assert forall nr :: nr in old(pageMap) ==> pageMap[nr] == old(pageMap[nr]);
    }

    /** The next free number, or a new one. */
    method TakePage() returns (nr: nat)
      requires Partition(pageMap.Keys, freePages, pageCount)
      modifies this`freePages, this`pageCount
      ensures nr == Numbers(old(freePages), old(pageCount), 1)[0] && nr !in pageMap && nr < pageCount
      ensures freePages == FreeAfter(old(freePages), 1) && pageCount == CountAfter(old(freePages), old(pageCount), 1)
      ensures Partition(pageMap.Keys + {nr}, freePages, pageCount)
    {
      hide Partition;
      TakeNumber(pageMap.Keys, freePages, pageCount);
      if freePages != [] {
        nr := freePages[0];
        freePages := freePages[1..];
      } else {
        nr := pageCount;
        pageCount := pageCount + 1;
      }
    }

    /** Adds a block under the next free number. */
    method AllocateBlock() returns (nr: nat)
      requires Wired() && Bounded() && LockedIsSafe() && Partition(pageMap.Keys, freePages, pageCount) && HasSlots(1)
      modifies this`mem, this`disk, this`pageMap, this`spill, this`freePages, this`pageCount, Nodes()
      ensures Wired() && Bounded() && Partition(pageMap.Keys, freePages, pageCount)
      ensures nr == Numbers(old(freePages), old(pageCount), 1)[0] && nr !in old(pageMap)
      ensures freePages == FreeAfter(old(freePages), 1) && pageCount == CountAfter(old(freePages), old(pageCount), 1)
      ensures nr in pageMap && fresh(pageMap[nr]) && pageMap == old(pageMap)[nr := pageMap[nr]]
      ensures mem != [] && mem[0] == pageMap[nr]
      ensures exists bytes :: IsBuffer(bytes) && Blocks() == old(Blocks())[nr := Cell(0, bytes)]
      ensures current != null && old(current in mem) ==> current in mem
      ensures OnlyNewBlocks()
    {
      hide Partition, Wired, Blocks, CellOf;
      ghost var keys := pageMap.Keys;
      nr := TakePage();
      var buffer := NewBuffer();
      var block := new Block(nr, buffer);
      PushFront(block);
      CleanupMemCache();
      assert pageMap.Keys == keys + {nr};
    }

    /** Loads a spilled block back and moves it to the front of the memory list. */
    method Reload(block: Block)
      requires Wired() && block in disk
      modifies this`mem, this`disk, this`pageMap, block
      ensures Wired() && Blocks() == old(Blocks()) && pageMap == old(pageMap)
      ensures mem == [block] + old(mem)
      ensures forall b :: b in disk ==> b in old(disk)
    {
      hide Apart, SlotBytes;
      var k :| 0 <= k < |disk| && disk[k] == block;
      InnerMoves(mem, disk, k);
      SlotIsBlock(spill, block.nr);
      block.data := Some(SlotBytes(spill, block.nr));
      mem := [block] + mem;
      disk := disk[..k] + disk[k + 1..];
      pageMap := pageMap[block.nr := block];
      assert pageMap == old(pageMap);
      assert Resident();
      assert Spilled();
      assert Indexed();
      assert Slotted();
      assert forall nr :: nr in pageMap ==> CellOf(pageMap[nr]) == old(CellOf(pageMap[nr]));
    }

    /** An indexed block is in exactly one of the two lists: with data in memory, without on disk. */
    lemma WhereIs(nr: nat)
      requires Wired() && nr in pageMap
      ensures pageMap[nr].nr == nr
      ensures if pageMap[nr].data.Some? then pageMap[nr] in mem && pageMap[nr] !in disk
              else !keepInMemory && pageMap[nr] in disk && pageMap[nr] !in mem
    {
    }

    /** Locks an indexed block, loading it if it was spilled.  Fails when another block is locked
        or the number is not indexed. */
    method LockBlock(nr: nat) returns (r: Block?)
      requires Wired() && Bounded()
      modifies this`mem, this`disk, this`pageMap, this`spill, this`current, Nodes()
      ensures Wired() && Bounded() && Blocks() == old(Blocks()) && pageMap == old(pageMap)
      ensures if old(current) == null && nr in pageMap
              then r == current == pageMap[nr] && current in mem
              else r == null && current == old(current)
      ensures old(current) == null && nr in pageMap && old(mem) != [] && old(mem)[0] == pageMap[nr] ==> mem == old(mem)
      ensures OnlyNewBlocks()
    {
      hide Wired, Blocks, CellOf;
      r := null;
      if current == null {
        if nr in pageMap {
          WhereIs(nr);
          current := pageMap[nr];
          if current.data == None {
            Reload(current);
            assert |mem| > 1 ==> mem[|mem| - 1] in old(mem);
          }
          CleanupMemCache();
          r := current;
        }
      }
    }

    method UnlockBlock() returns (ok: bool)
      modifies this`current
      ensures current == null && ok == (old(current) != null)
    {
      ok := current != null;
      current := null;
    }

    lemma FrontIsSafe()
      requires Wired() && mem != [] && mem[0] == current
      ensures LockedIsSafe()
    {
    }

    lemma BlockBytes(nr: nat)
      requires Wired() && nr in pageMap && pageMap[nr].data.Some?
      ensures Blocks()[nr] == Cell(pageMap[nr].next, pageMap[nr].data.value)
      ensures |pageMap[nr].data.value| == BLOCK_SIZE && pageMap[nr].nr == nr
    {
      WhereIs(nr);
    }

    /** Assigns a resident block's fields. */
    method SetBlock(block: Block, next: nat, bytes: seq<Byte>)
      requires Wired() && block in mem && block.nr in pageMap && pageMap[block.nr] == block && |bytes| == BLOCK_SIZE
      modifies block
      ensures Wired() && Blocks() == old(Blocks())[block.nr := Cell(next, bytes)]
      ensures block.data == Some(bytes)
    {
      hide Apart, SlotBytes;
      block.next := next;
      block.data := Some(bytes);
      assert Resident();
      assert Spilled();
      assert forall nr :: nr in pageMap && nr != block.nr ==> CellOf(pageMap[nr]) == old(CellOf(pageMap[nr]));
    }

    /** Locks block nr and copies a piece of the data to its start. */
    method FillBlock(nr: nat, piece: seq<Byte>) returns (block: Block)
      requires Wired() && Bounded() && current == null && |piece| <= BLOCK_SIZE
      requires nr in pageMap && mem != [] && mem[0] == pageMap[nr] && FullBlocks(Blocks())
      modifies this`mem, this`disk, this`pageMap, this`spill, this`current, Nodes()
      ensures Wired() && Bounded() && pageMap == old(pageMap) && mem == old(mem)
      ensures OnlyNewBlocks()
      ensures current == block == pageMap[nr] && block.nr == nr
      ensures |old(Blocks())[nr].bytes| == BLOCK_SIZE
      ensures Blocks() == old(Blocks())[nr := Cell(0, CopyIn(piece, old(Blocks())[nr].bytes))]
    {
      hide Wired, Blocks, CellOf;
      WhereIs(nr);
      BlockBytes(nr);
      block := LockBlock(nr);
      WhereIs(nr);
      BlockBytes(nr);
      SetBlock(block, 0, piece + block.data.value[|piece|..]);
    }

    /** Allocates the block after the locked one and links it. */
    method LinkNext(block: Block) returns (next: nat)
      requires Wired() && Bounded() && current == block && Partition(pageMap.Keys, freePages, pageCount) && HasSlots(1)
      requires mem != [] && mem[0] == block && block.nr in pageMap && pageMap[block.nr] == block
      modifies this`mem, this`disk, this`pageMap, this`spill, this`freePages, this`pageCount, Nodes()
      ensures Wired() && Bounded() && Partition(pageMap.Keys, freePages, pageCount) && current == block
      ensures next == Numbers(old(freePages), old(pageCount), 1)[0] && next !in old(pageMap)
      ensures freePages == FreeAfter(old(freePages), 1) && pageCount == CountAfter(old(freePages), old(pageCount), 1)
      ensures next in pageMap && mem != [] && mem[0] == pageMap[next]
      ensures block.nr in old(Blocks())
      ensures exists bytes :: IsBuffer(bytes) && Blocks() == WithNext(old(Blocks()), block.nr, next, bytes)
      ensures OnlyNewBlocks()
    {
      hide Wired, Blocks, CellOf, Partition;
      KeysAgree();
      WhereIs(block.nr);
      BlockBytes(block.nr);
      FrontIsSafe();
      ghost var store := Blocks();
      next := AllocateBlock();
      ghost var bytes :| IsBuffer(bytes) && Blocks() == store[next := Cell(0, bytes)];
      WhereIs(block.nr);
      BlockBytes(block.nr);
      SetBlock(block, next, block.data.value);
      assert Blocks() == WithNext(store, block.nr, next, bytes);
    }

    /** One turn of the write loop: fills block nr with a piece of the data, and allocates and
        links the next block if there is more. */
    method WriteBlock(nr: nat, piece: seq<Byte>, more: bool) returns (next: nat)
      requires Wired() && Bounded() && current == null && Partition(pageMap.Keys, freePages, pageCount)
      requires nr in pageMap && mem != [] && mem[0] == pageMap[nr] && |piece| <= BLOCK_SIZE && FullBlocks(Blocks())
      requires more ==> HasSlots(1)
      modifies this`mem, this`disk, this`pageMap, this`spill, this`freePages, this`pageCount, this`current, Nodes()
      ensures Wired() && Bounded() && current == null && Partition(pageMap.Keys, freePages, pageCount)
      ensures nr in old(Blocks()) && |old(Blocks())[nr].bytes| == BLOCK_SIZE
      ensures var store := old(Blocks())[nr := Cell(0, CopyIn(piece, old(Blocks())[nr].bytes))];
        if more then exists bytes :: IsBuffer(bytes) && Blocks() == WithNext(store, nr, next, bytes)
        else Blocks() == store
      ensures if more then next == Numbers(old(freePages), old(pageCount), 1)[0] && next !in old(pageMap)
              else freePages == old(freePages) && pageCount == old(pageCount)
      ensures more ==> freePages == FreeAfter(old(freePages), 1)
      ensures more ==> pageCount == CountAfter(old(freePages), old(pageCount), 1)
      ensures more ==> next in pageMap && mem != [] && mem[0] == pageMap[next]
      ensures OnlyNewBlocks()
    {
      hide Wired, Blocks, CellOf, Partition, WithNext;
      KeysAgree();
      next := 0;
      var block := FillBlock(nr, piece);
      if more {
        next := LinkNext(block);
      }
      var ok := UnlockBlock();
    }

    lemma KeysAgree()
      requires Wired()
      ensures Blocks().Keys == pageMap.Keys
    {
    }

    /** The loop of writeFile over a nonempty file. */
    method WriteChain(data: seq<Byte>) returns (handle: nat)
      requires Wired() && Bounded() && current == null && Partition(pageMap.Keys, freePages, pageCount)
      requires FullBlocks(Blocks()) && HasSlots(BlocksFor(|data|))
      modifies this`mem, this`disk, this`pageMap, this`spill, this`freePages, this`pageCount, this`current, Nodes()
      ensures Wired() && Bounded() && current == null && Partition(pageMap.Keys, freePages, pageCount)
      ensures var chain := Numbers(old(freePages), old(pageCount), BlocksFor(|data|));
        handle == chain[0] && WriteDone(old(Blocks()), Blocks(), chain, data)
      ensures freePages == FreeAfter(old(freePages), BlocksFor(|data|))
      ensures pageCount == CountAfter(old(freePages), old(pageCount), BlocksFor(|data|))
      ensures OnlyNewBlocks()
    {
      hide Wired, Blocks, CellOf, Partition, WrittenUpTo, WriteDone, FullBlocks, Numbers, Piece, WithNext, Bounded,
        FreeAfter, CountAfter, CopyIn;
      var required := BlocksFor(|data|);
      ghost var chain := Numbers(freePages, pageCount, required);
      ghost var store0, free0, count0 := Blocks(), freePages, pageCount;
      NextNumber(free0, count0, required, 0);
      CountGrows(free0, count0, 1, required);
      KeysAgree();
      var alloc := AllocateBlock();
      handle := alloc;
      ghost var bytes :| IsBuffer(bytes) && Blocks() == store0[alloc := Cell(0, bytes)];
      WriteStart(store0, chain, data, bytes);
      var count := 0;
      while count < required
        invariant 0 <= count <= required
        invariant Wired() && Bounded() && current == null && Partition(pageMap.Keys, freePages, pageCount)
        invariant count < required ==> WrittenUpTo(store0, Blocks(), chain, data, count)
        invariant count < required ==> alloc == chain[count] && alloc in pageMap && mem != [] && mem[0] == pageMap[alloc]
        invariant freePages == FreeAfter(free0, Min(count + 1, required))
        invariant pageCount == CountAfter(free0, count0, Min(count + 1, required))
        invariant count == required ==> WriteDone(store0, Blocks(), chain, data)
        invariant OnlyNewBlocks()
      {
        ghost var store := Blocks();
        AllocatedBlock(store0, store, chain, data, count);
        var s := count * BLOCK_SIZE;
        PieceBounds(data, count);
        var piece := data[s..s + Min(BLOCK_SIZE, |data| - s)];
        KeysAgree();
        if count + 1 < required {
          NextNumber(free0, count0, required, count + 1);
          CountGrows(free0, count0, count + 2, required);
        }
        alloc := WriteBlock(alloc, piece, count + 1 < required);
        if count + 1 < required {
          ghost var bytes' :| IsBuffer(bytes')
            && Blocks() == WithNext(store[chain[count] := Cell(0, CopyIn(piece, store[chain[count]].bytes))],
                                    chain[count], alloc, bytes');
          WriteNext(store0, store, chain, data, count, bytes');
        } else {
          WriteLast(store0, store, chain, data, count);
        }
        count := count + 1;
      }
    }

    /** Stores the data in a chain of new blocks and returns its first number.  The blocks are
        linked by number, so the handle leads to what is before a continuation block with number 0. */
    method WriteFile(data: seq<Byte>) returns (handle: nat)
      requires Valid() && (data != [] ==> HasSlots(BlocksFor(|data|)))
      modifies this, Nodes()
      ensures Valid()
      ensures data == [] ==> handle == 0 && Blocks() == old(Blocks()) && files == old(files)
      ensures data == [] ==> freePages == old(freePages) && pageCount == old(pageCount)
      ensures data != [] ==>
                var chain := Numbers(old(freePages), old(pageCount), BlocksFor(|data|));
                && handle == chain[0] && handle !in old(files) && WriteDone(old(Blocks()), Blocks(), chain, data)
                && files == old(files)[handle := Kept(chain, data)]
                && freePages == FreeAfter(old(freePages), |chain|)
                && pageCount == CountAfter(old(freePages), old(pageCount), |chain|)
      ensures OnlyNewBlocks()
    {
      hide Wired, Blocks, CellOf, Partition, WriteDone, FullBlocks, FilesOk, Numbers, Kept, FreeAfter, CountAfter;
      handle := 0;
      if data != [] {
        ghost var store0, chain := Blocks(), Numbers(freePages, pageCount, BlocksFor(|data|));
        handle := WriteChain(data);
        FilesAfterWrite(store0, Blocks(), files, chain, data);
        DoneIsFull(store0, Blocks(), chain, data);
        files := files[handle := Kept(chain, data)];
      }
    }

    /** Locks, reads and unlocks one block. */
    method ReadBlock(nr: nat) returns (next: nat, bytes: seq<Byte>)
      requires Wired() && Bounded() && current == null && nr in pageMap
      modifies this`mem, this`disk, this`pageMap, this`spill, this`current, Nodes()
      ensures Wired() && Bounded() && current == null && Blocks() == old(Blocks()) && pageMap == old(pageMap)
      ensures nr in Blocks() && Blocks()[nr] == Cell(next, bytes) && OnlyNewBlocks()
    {
      hide Wired, Blocks, CellOf;
      KeysAgree();
      var block := LockBlock(nr);
      WhereIs(nr);
      BlockBytes(nr);
      next, bytes := block.next, block.data.value;
      var ok := UnlockBlock();
    }

    /** Copies count bytes into the array. */
    method CopyTo(data: array<Byte>, s: nat, bytes: seq<Byte>, count: nat)
      requires count <= |bytes| && s + count <= data.Length
      modifies data
      ensures forall i :: 0 <= i < data.Length ==>
                data[i] == if s <= i < s + count then bytes[i - s] else old(data[i])
    {
      forall i | 0 <= i < count {
        data[s + i] := bytes[i];
      }
    }

    /** The loop of readFile: follows the links from nr, which lead through `walk`. */
    method ReadChain(data: array<Byte>, nr: nat, size: nat, ghost walk: seq<nat>)
      requires Wired() && Bounded() && current == null && FullBlocks(Blocks()) && 0 < size <= data.Length
      requires Walk(Blocks(), nr, walk) && (|walk| - 1) * BLOCK_SIZE <= size
      modifies this`mem, this`disk, this`pageMap, this`spill, this`current, Nodes(), data
      ensures Wired() && Bounded() && current == null
      ensures Blocks() == old(Blocks()) && pageMap == old(pageMap) && OnlyNewBlocks()
      ensures Readable(Blocks(), walk, size, |walk|)
      ensures data[..] == CopyIn(Copied(Blocks(), walk, size, |walk|), old(data[..]))
    {
      hide Wired, Blocks, CellOf, FullBlocks, Readable, Walk, Bounded, Copied, CopyIn;
      ghost var store, before, k := Blocks(), data[..], 0;
      WalkStarts(store, nr, walk, size);
      CopyNothing(before);
      var s, blockNr, more := 0, nr, true;
      while more
        invariant Wired() && Bounded() && current == null
        invariant Blocks() == store && pageMap == old(pageMap) && OnlyNewBlocks()
        invariant 0 <= k <= |walk| && s == k * BLOCK_SIZE && more == (k < |walk|)
        invariant more ==> blockNr == walk[k]
        invariant Readable(store, walk, size, k) && data[..] == CopyIn(Copied(store, walk, size, k), before)
        decreases |walk| - k
      {
        ReadStep(store, nr, walk, size, k);
        KeysAgree();
        var bytes;
        blockNr, bytes := ReadBlock(blockNr);
        var count := if s + BLOCK_SIZE > size then size - s else BLOCK_SIZE;
        ghost var now := data[..];
        CopyTo(data, s, bytes, count);
        CopyGrows(before, now, data[..], Copied(store, walk, size, k), bytes[..count]);
        k := k + 1;
        s := s + BLOCK_SIZE;
        more := blockNr != 0;
      }
    }

    /** Copies a file to `data`, block by block along the links.  Reading the handle of a file with
        room for it gives its bytes. */
    method ReadFile(data: array<Byte>, nr: nat, size: nat, ghost walk: seq<nat>) returns (ok: bool)
      requires Valid() && size <= data.Length
      requires size > 0 ==> Walk(Blocks(), nr, walk) && (|walk| - 1) * BLOCK_SIZE <= size
      modifies this, Nodes(), data
      ensures Valid() && Blocks() == old(Blocks()) && files == old(files) && OnlyNewBlocks()
      ensures freePages == old(freePages) && pageCount == old(pageCount)
      ensures ok == (size > 0)
      ensures size == 0 ==> data[..] == old(data[..])
      ensures size > 0 ==> Readable(Blocks(), walk, size, |walk|)
      ensures size > 0 ==> data[..] == CopyIn(Copied(Blocks(), walk, size, |walk|), old(data[..]))
      ensures size > 0 && nr in files && size >= |files[nr].data| ==> data[..|files[nr].data|] == files[nr].data
      ensures size > 0 && nr in files && size >= |files[nr].data| == |files[nr].chain| * BLOCK_SIZE ==>
                data[|files[nr].data|..] == old(data[..])[|files[nr].data|..]
    {
      hide Wired, Blocks, CellOf, Partition, FullBlocks, FilesOk, Readable, Walk, Bounded, Copied;
      ok := false;
      if size > 0 {
        ReadChain(data, nr, size, walk);
        if nr in files && size >= |files[nr].data| {
          FileReadsBack(Blocks(), files, nr, walk, size);
        }
        ok := true;
      }
    }

    method DeleteBlock(nr: nat) returns (ok: bool)
      requires Wired() && Bounded() && keepInMemory && current == null
      requires Partition(pageMap.Keys, freePages, pageCount) && nr in pageMap
      modifies this`pageMap, this`freePages
      ensures Wired() && Bounded() && ok && Partition(pageMap.Keys, freePages, pageCount)
      ensures freePages == old(freePages) + [nr] && pageMap == old(pageMap) - {nr}
      ensures Blocks() == old(Blocks()) - {nr}
    {
      hide Partition, Apart;
      ok := current == null;
      ReturnNumber(pageMap.Keys, freePages, pageCount, nr);
      pageMap := pageMap - {nr};
      freePages := freePages + [nr];
      assert Indexed();
    }

    /** One turn of deleteFile. */
    method DeleteOne(nr: nat) returns (found: bool, next: nat)
      requires Wired() && Bounded() && keepInMemory && current == null
      requires Partition(pageMap.Keys, freePages, pageCount)
      modifies this`mem, this`disk, this`pageMap, this`spill, this`freePages, this`current, Nodes()
      ensures Wired() && Bounded() && current == null && Partition(pageMap.Keys, freePages, pageCount)
      ensures OnlyNewBlocks() && found == (nr in old(pageMap))
      ensures found ==> nr in old(Blocks()) && next == old(Blocks())[nr].next
      ensures found ==> Blocks() == old(Blocks()) - {nr} && freePages == old(freePages) + [nr]
      ensures !found ==> Blocks() == old(Blocks()) && freePages == old(freePages)
    {
      hide Wired, Blocks, CellOf, Partition, Bounded;
      KeysAgree();
      var block := LockBlock(nr);
      found, next := block != null, 0;
      if found {
        WhereIs(nr);
        BlockBytes(nr);
        next := block.next;
        var ok := UnlockBlock();
        ok := DeleteBlock(nr);
      }
    }

    /** The loop of deleteFile: the blocks of the walk from nr, if nr is indexed. */
    method DeleteChain(nr: nat, ghost walk: seq<nat>)
      requires Wired() && Bounded() && keepInMemory && current == null
      requires Partition(pageMap.Keys, freePages, pageCount)
      requires if nr in pageMap then Walk(Blocks(), nr, walk) && NoDup(walk) else walk == []
      modifies this`mem, this`disk, this`pageMap, this`spill, this`freePages, this`current, Nodes()
      ensures Wired() && Bounded() && current == null && Partition(pageMap.Keys, freePages, pageCount)
      ensures OnlyNewBlocks() && Blocks() == old(Blocks()) - Elements(walk, |walk|) && freePages == old(freePages) + walk
    {
      hide Wired, Blocks, CellOf, Partition, Bounded, Walk, NoDup;
      ghost var store, k := Blocks(), 0;
      KeysAgree();
      if nr in pageMap {
        WalkStarts(store, nr, walk, 0);
      }
      var next, more := nr, true;
      while more
        invariant Wired() && Bounded() && current == null && Partition(pageMap.Keys, freePages, pageCount)
        invariant OnlyNewBlocks() && 0 <= k <= |walk| && freePages == old(freePages) + walk[..k]
        invariant Blocks() == store - Elements(walk, k)
        invariant more ==> if walk == [] then next == nr && nr !in pageMap else k < |walk| && next == walk[k]
        invariant !more ==> k == |walk|
        decreases more, |walk| - k
      {
        KeysAgree();
        if walk != [] {
          DeleteStep(store, nr, walk, k);
        }
        var found;
        found, next := DeleteOne(next);
        if !found {
          break;
        }
        k := k + 1;
        more := next != 0;
      }
    }

    /** Deletes a file: its blocks leave the index in chain order and their numbers are recycled.  A
        number that is not indexed deletes nothing. */
    method DeleteFile(nr: nat)
      requires Valid() && keepInMemory && (nr in files || nr !in pageMap)
      modifies this, Nodes()
      ensures Valid() && OnlyNewBlocks() && pageCount == old(pageCount) && files == old(files) - {nr}
      ensures var chain := if nr in old(files) then old(files)[nr].chain else [];
        Blocks() == old(Blocks()) - Elements(chain, |chain|) && freePages == old(freePages) + chain
    {
      hide Wired, Blocks, CellOf, Partition, FullBlocks, FilesOk, Bounded, Walk, NoDup;
      ghost var store, chain := Blocks(), if nr in files then files[nr].chain else [];
      KeysAgree();
      if nr in files {
        ChainIsWalk(store, files, nr);
      }
      DeleteChain(nr, chain);
      DeletedOutside(store, chain);
      FullAfterDelete(store, Elements(chain, |chain|));
      if nr in files {
        RemoveFile(store, Blocks(), files, nr);
      } else {
        assert files - {nr} == files && store - Elements(chain, 0) == store;
      }
      files := files - {nr};
    }
  }
}

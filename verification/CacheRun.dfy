/** Whole runs of the page cache, in both modes, from an empty cache on. */
module CacheRuns {
  import opened CArith
  import opened BlockStore
  import opened CacheFiles

  /** What a client asks for.  A fetch or a drop of a number that is no stored file's handle, and a
      drop in spill mode, are not carried out. */
  datatype Op = Store(data: seq<Byte>) | Fetch(handle: nat) | Drop(handle: nat)

  /** What comes of it.  A fetch reads as many bytes as were stored, into a buffer of zeros. */
  datatype Event =
    | Stored(handle: nat, data: seq<Byte>)
    | Fetched(handle: nat, bytes: seq<Byte>)
    | Dropped(handle: nat)
    | Ignored

  /** The cache as a client can think of it: the numbers to hand out, the files, and what was stored
      under their handles. */
  datatype Model = Model(free: seq<nat>, count: nat, files: map<nat, File>, given: map<nat, seq<Byte>>)

  const EMPTY := Model([], 0, map[], map[])

  function Zeros(n: nat): (s: seq<Byte>)
    ensures |s| == n && forall i :: 0 <= i < n ==> s[i] == 0
  {
    seq(n, _ => 0)
  }

  function Step(m: Model, keep: bool, op: Op): (Model, Event) {
    match op
    case Store(data) =>
      if data == [] then (m, Ignored)
      else
        var n := BlocksFor(|data|);
        var chain := Numbers(m.free, m.count, n);
        (Model(FreeAfter(m.free, n), CountAfter(m.free, m.count, n), m.files[chain[0] := Kept(chain, data)],
               m.given[chain[0] := data]),
         Stored(chain[0], data))
    case Fetch(h) =>
      if h in m.files && h in m.given && |m.files[h].data| <= |m.given[h]| then
        (m, Fetched(h, m.files[h].data + Zeros(|m.given[h]| - |m.files[h].data|)))
      else (m, Ignored)
    case Drop(h) =>
      if keep && h in m.files then
        (Model(m.free + m.files[h].chain, m.count, m.files - {h}, m.given - {h}), Dropped(h))
      else (m, Ignored)
  }

  function After(keep: bool, ops: seq<Op>, n: nat): Model
    requires n <= |ops|
  {
    if n == 0 then EMPTY else Step(After(keep, ops, n - 1), keep, ops[n - 1]).0
  }

  function EventAt(keep: bool, ops: seq<Op>, i: nat): Event
    requires i < |ops|
  {
    Step(After(keep, ops, i), keep, ops[i]).1
  }

  /** What the run asks of spill mode: never more numbers in use than there are slots in the spill file,
      beyond which blocks overwrite each other (SpillSlotsExact). */
  predicate SlotsSuffice(keep: bool, ops: seq<Op>) {
    keep || After(keep, ops, |ops|).count <= SLOTS
  }

  lemma {:induction false} CountNeverFalls(keep: bool, ops: seq<Op>, i: nat, n: nat)
    requires i <= n <= |ops|
    ensures After(keep, ops, i).count <= After(keep, ops, n).count
    decreases n
  {
    hide Kept, Numbers;
    if i < n {
      CountNeverFalls(keep, ops, i, n - 1);
    }
  }

  /** So each store of the run finds slots. */
  lemma StoreHasSlots(c: CacheFile, ops: seq<Op>, i: nat)
    requires i < |ops| && SlotsSuffice(c.keepInMemory, ops) && Refines(c, After(c.keepInMemory, ops, i))
    ensures ops[i].Store? && ops[i].data != [] ==> c.HasSlots(BlocksFor(|ops[i].data|))
  {
    hide Kept, Numbers, CountAfter, FreeAfter, CacheFile.Valid;
    CountNeverFalls(c.keepInMemory, ops, i + 1, |ops|);
  }

  // ---------- the cache carries a run out ----------

  /** A file holds all of what was stored, or a start of it in whole blocks. */
  predicate FileFits(f: File, data: seq<Byte>) {
    && data != [] && f.data <= data
    && (|f.data| == |data| || |f.data| == |f.chain| * BLOCK_SIZE)
  }

  lemma KeptFits(chain: seq<nat>, data: seq<Byte>)
    requires data != [] && |chain| == BlocksFor(|data|)
    ensures FileFits(Kept(chain, data), data)
  {
    hide Kept;
    KeptExact(chain, data);
  }

  /** The model's files are starts of what was stored under their handles. */
  ghost predicate ModelOk(m: Model) {
    m.given.Keys == m.files.Keys && forall h :: h in m.files ==> FileFits(m.files[h], m.given[h])
  }

  /** What the client remembers. */
  predicate Remembers(sizes: map<nat, nat>, m: Model) {
    sizes.Keys == m.given.Keys && forall h :: h in sizes ==> sizes[h] == |m.given[h]|
  }

  lemma {:induction false} StepKeepsModelOk(m: Model, keep: bool, op: Op)
    requires ModelOk(m)
    ensures ModelOk(Step(m, keep, op).0)
  {
    hide FileFits, Kept, Numbers, FreeAfter, CountAfter;
    match op
    case Store(data) =>
      if data != [] {
        KeptFits(Numbers(m.free, m.count, BlocksFor(|data|)), data);
      }
    case Fetch(h) =>
    case Drop(h) =>
  }

  /** The cache is in the state that the model describes. */
  ghost predicate Refines(c: CacheFile, m: Model)
    reads c, c.mem, c.disk
  {
    c.Valid() && c.freePages == m.free && c.pageCount == m.count && c.files == m.files && ModelOk(m)
  }

  method DoStore(c: CacheFile, data: seq<Byte>, ghost m: Model) returns (e: Event)
    requires Refines(c, m) && (data != [] ==> c.HasSlots(BlocksFor(|data|)))
    modifies c, c.Nodes()
    ensures Refines(c, Step(m, c.keepInMemory, Store(data)).0) && e == Step(m, c.keepInMemory, Store(data)).1
    ensures c.OnlyNewBlocks()
  {
    hide CacheFile.Valid, Kept, FreeAfter, CountAfter, Numbers, ModelOk;
    StepKeepsModelOk(m, c.keepInMemory, Store(data));
    var handle := c.WriteFile(data);
    e := if data == [] then Ignored else Stored(handle, data);
  }

  method DoFetch(c: CacheFile, h: nat, sizes: map<nat, nat>, ghost m: Model) returns (e: Event)
    requires Refines(c, m) && Remembers(sizes, m)
    modifies c, c.Nodes()
    ensures Refines(c, Step(m, c.keepInMemory, Fetch(h)).0) && e == Step(m, c.keepInMemory, Fetch(h)).1
    ensures c.OnlyNewBlocks()
  {
    hide CacheFile.Blocks, CacheFile.CellOf, CacheFile.Wired, Walk, FilesOk, Partition, Readable, Copied;
    e := Ignored;
    if h in sizes {
      var buffer := new Byte[sizes[h]](_ => 0);
      ghost var f := c.files[h];
      assert FileFits(f, m.given[h]);
      ChainIsWalk(c.Blocks(), c.files, h);
      var ok := c.ReadFile(buffer, h, sizes[h], f.chain);
      assert buffer[..] == buffer[..|f.data|] + buffer[|f.data|..];
      assert buffer[..] == f.data + Zeros(sizes[h] - |f.data|);
      e := Fetched(h, buffer[..]);
    }
  }

  method DoDrop(c: CacheFile, h: nat, sizes: map<nat, nat>, ghost m: Model) returns (e: Event)
    requires Refines(c, m) && Remembers(sizes, m)
    modifies c, c.Nodes()
    ensures Refines(c, Step(m, c.keepInMemory, Drop(h)).0) && e == Step(m, c.keepInMemory, Drop(h)).1
    ensures c.OnlyNewBlocks()
  {
    hide CacheFile.Valid;
    StepKeepsModelOk(m, c.keepInMemory, Drop(h));
    e := Ignored;
    if h in sizes && c.keepInMemory {
      c.DeleteFile(h);
      e := Dropped(h);
    }
  }

  /** What the client remembers after an event. */
  function Remember(sizes: map<nat, nat>, e: Event): map<nat, nat> {
    match e
    case Stored(h, data) => sizes[h := |data|]
    case Dropped(h) => sizes - {h}
    case _ => sizes
  }

  lemma RemembersStep(sizes: map<nat, nat>, m: Model, keep: bool, op: Op)
    requires Remembers(sizes, m)
    ensures Remembers(Remember(sizes, Step(m, keep, op).1), Step(m, keep, op).0)
  {
    hide Numbers, Kept, FreeAfter, CountAfter;
  }

  /** Carries out any sequence of operations on a new cache, in either mode.  What comes of each is
      what the model says. */
  method Run(keep: bool, ops: seq<Op>) returns (log: seq<Event>)
    requires SlotsSuffice(keep, ops)
    ensures |log| == |ops| && forall i :: 0 <= i < |ops| ==> log[i] == EventAt(keep, ops, i)
  {
    hide Refines, Step, Remember, Remembers, CacheFile.Valid, CacheFile.HasSlots, SlotsSuffice;
    var c := new CacheFile(keep);
    log := [];
    var sizes: map<nat, nat> := map[];
    AtStart(c, sizes);
    for i := 0 to |ops|
      invariant c.keepInMemory == keep && fresh(c) && Refines(c, After(keep, ops, i))
      invariant Remembers(sizes, After(keep, ops, i))
      invariant forall b :: b in c.Nodes() ==> fresh(b)
      invariant |log| == i && forall j :: 0 <= j < i ==> log[j] == EventAt(keep, ops, j)
    {
      ghost var m := After(keep, ops, i);
      RemembersStep(sizes, m, keep, ops[i]);
      StoreHasSlots(c, ops, i);
      var e;
      match ops[i] {
        case Store(data) => e := DoStore(c, data, m);
        case Fetch(h) => e := DoFetch(c, h, sizes, m);
        case Drop(h) => e := DoDrop(c, h, sizes, m);
      }
      log := log + [e];
      sizes := Remember(sizes, e);
    }
  }

  lemma AtStart(c: CacheFile, sizes: map<nat, nat>)
    requires c.Valid() && c.freePages == [] && c.pageCount == 0 && c.files == map[] && sizes == map[]
    ensures Refines(c, EMPTY) && Remembers(sizes, EMPTY)
  {
  }

  // ---------- handles ----------

  /** The numbers to hand out and the chains of the files share nothing and repeat nothing. */
  ghost predicate Parted(m: Model) {
    && NoDup(m.free) && (forall n :: n in m.free ==> n < m.count)
    && (forall h :: h in m.files ==> ChainParted(m, h, m.files[h].chain))
    && (forall h, k, n :: h in m.files && k in m.files && h != k && n in m.files[h].chain ==> n !in m.files[k].chain)
  }

  ghost predicate ChainParted(m: Model, h: nat, chain: seq<nat>) {
    && |chain| > 0 && chain[0] == h && NoDup(chain)
    && forall n :: n in chain ==> n < m.count && n !in m.free
  }

  /** The next numbers are nobody's and are not handed out twice. */
  lemma NewNumbers(m: Model, n: nat)
    requires Parted(m) && n > 0
    ensures var chain, free, count := Numbers(m.free, m.count, n), FreeAfter(m.free, n), CountAfter(m.free, m.count, n);
      && NoDup(chain) && NoDup(free) && m.count <= count
      && (forall nr :: nr in chain ==> nr < count && nr !in free && (nr in m.free || nr >= m.count))
      && (forall nr :: nr in free ==> nr in m.free)
  {
    hide ChainParted;
    var chain, free := Numbers(m.free, m.count, n), FreeAfter(m.free, n);
    assert forall i :: 0 <= i < n ==> chain[i] == if i < |m.free| then m.free[i] else m.count + i - |m.free|;
    assert forall i :: 0 <= i < |free| ==> free[i] == m.free[i + n];
    assert forall i :: 0 <= i < |m.free| ==> m.free[i] in m.free;
  }

  lemma StoreKeepsParted(m: Model, data: seq<Byte>)
    requires Parted(m) && data != []
    ensures Parted(Step(m, true, Store(data)).0)
    ensures Numbers(m.free, m.count, BlocksFor(|data|))[0] !in m.files
  {
    hide Numbers, FreeAfter, CountAfter;
    var n := BlocksFor(|data|);
    var chain, h := Numbers(m.free, m.count, n), Numbers(m.free, m.count, n)[0];
    NewNumbers(m, n);
    var f := Kept(chain, data);
    ReachStops(chain, 1);
    assert f.chain <= chain;
    assert forall nr :: nr in f.chain ==> nr in chain;
    assert forall k :: k in m.files ==> m.files[k].chain[0] in m.files[k].chain;
    assert h in chain;
    var m' := Step(m, true, Store(data)).0;
    assert m'.files == m.files[h := f];
    assert ChainParted(m', h, f.chain);
  }

  lemma DropKeepsParted(m: Model, h: nat)
    requires Parted(m)
    ensures Parted(Step(m, true, Drop(h)).0)
  {
    if h in m.files {
      var chain, m' := m.files[h].chain, Step(m, true, Drop(h)).0;
      assert forall n :: n in m'.free ==> n in m.free || n in chain;
      assert forall i :: 0 <= i < |chain| ==> chain[i] in chain;
      assert forall i :: 0 <= i < |m.free| ==> m.free[i] in m.free;
      assert NoDup(m'.free);
    }
  }

  lemma {:induction false} PartedInRun(keep: bool, ops: seq<Op>, n: nat)
    requires n <= |ops|
    ensures Parted(After(keep, ops, n))
  {
    hide Parted, Kept, Numbers, FreeAfter, CountAfter;
    if n == 0 {
      EmptyIsParted();
    } else {
      PartedInRun(keep, ops, n - 1);
      var m := After(keep, ops, n - 1);
      match ops[n - 1]
      case Store(data) =>
        if data != [] {
          StoreKeepsParted(m, data);
        }
      case Fetch(h) =>
      case Drop(h) => DropKeepsParted(m, h);
    }
  }

  lemma EmptyIsParted()
    ensures Parted(EMPTY)
  {
  }

  /** Whatever came before, every store of some bytes stores these bytes, under a handle that no live
      file has. */
  lemma StoreStores(keep: bool, ops: seq<Op>, j: nat, data: seq<Byte>) returns (h: nat)
    requires j < |ops| && ops[j] == Store(data) && data != []
    ensures EventAt(keep, ops, j) == Stored(h, data)
    ensures h !in After(keep, ops, j).files && h !in After(keep, ops, j).given
  {
    hide Parted, Kept, Numbers, FreeAfter, CountAfter, FileFits;
    PartedInRun(keep, ops, j);
    ModelOkInRun(keep, ops, j);
    StoreKeepsParted(After(keep, ops, j), data);
    h := EventAt(keep, ops, j).handle;
  }

  lemma {:induction false} ModelOkInRun(keep: bool, ops: seq<Op>, n: nat)
    requires n <= |ops|
    ensures ModelOk(After(keep, ops, n))
  {
    hide Step, FileFits;
    if n > 0 {
      ModelOkInRun(keep, ops, n - 1);
      StepKeepsModelOk(After(keep, ops, n - 1), keep, ops[n - 1]);
    }
  }

  // ---------- what a run gives back ----------

  /** The handle that a store gave is not dropped between the operations j and i. */
  predicate NotDropped(ops: seq<Op>, j: nat, i: nat, h: nat)
    requires j < i <= |ops|
  {
    forall k :: j < k < i ==> ops[k] != Drop(h)
  }

  /** A handle is not given out again as long as its file lives. */
  lemma {:induction false} StaysAsStored(keep: bool, ops: seq<Op>, j: nat, i: nat, data: seq<Byte>, h: nat)
    requires j < i <= |ops| && ops[j] == Store(data) && data != []
    requires EventAt(keep, ops, j) == Stored(h, data) && NotDropped(ops, j, i, h)
    ensures var m, m' := After(keep, ops, j), After(keep, ops, i);
      && h in m'.files && h in m'.given && m'.given[h] == data
      && m'.files[h] == Kept(Numbers(m.free, m.count, BlocksFor(|data|)), data)
    decreases i
  {
    hide Kept, Numbers, FreeAfter, CountAfter;
    if j + 1 < i {
      StaysAsStored(keep, ops, j, i - 1, data, h);
      if ops[i - 1].Store? && ops[i - 1].data != [] {
        var h' := StoreStores(keep, ops, i - 1, ops[i - 1].data);
      }
    }
  }

  /** Numbers are recycled only after some were handed out, and no file but the one with handle 0
      has block 0. */
  ghost predicate ZeroIsFirst(m: Model) {
    && (m.count == 0 ==> m.free == [] && m.files == map[])
    && forall h :: h in m.files ==> Continues(m.files[h].chain) && |m.files[h].chain| > 0 && m.files[h].chain[0] == h
  }

  lemma StepKeepsZeroFirst(m: Model, keep: bool, op: Op)
    requires ZeroIsFirst(m)
    ensures ZeroIsFirst(Step(m, keep, op).0)
    ensures 0 !in m.free && op != Drop(0) ==> 0 !in Step(m, keep, op).0.free
  {
    match op
    case Store(data) =>
      if data != [] {
        var n := BlocksFor(|data|);
        ReachStops(Numbers(m.free, m.count, n), 1);
        assert forall nr :: nr in FreeAfter(m.free, n) ==> nr in m.free;
        assert Continues(Kept(Numbers(m.free, m.count, n), data).chain);
      }
    case Fetch(h) =>
    case Drop(h) =>
      if keep && h in m.files {
        ZeroOnlyFirst(m.files[h].chain);
      }
  }

  lemma ZeroOnlyFirst(chain: seq<nat>)
    requires Continues(chain) && |chain| > 0
    ensures 0 in chain <==> chain[0] == 0
  {
  }

  lemma {:induction false} ZeroInRun(keep: bool, ops: seq<Op>, n: nat)
    requires n <= |ops|
    ensures ZeroIsFirst(After(keep, ops, n))
    ensures (forall k :: 0 <= k < n ==> ops[k] != Drop(0)) ==> 0 !in After(keep, ops, n).free
  {
    hide Step, ZeroIsFirst;
    if n == 0 {
      EmptyIsFirst();
    } else {
      ZeroInRun(keep, ops, n - 1);
      StepKeepsZeroFirst(After(keep, ops, n - 1), keep, ops[n - 1]);
    }
  }

  lemma EmptyIsFirst()
    ensures ZeroIsFirst(EMPTY)
  {
  }

  /** In every run that the cache carries out, in both modes, whatever was stored, fetched, spilled and
      dropped meanwhile: a store gives a handle h, and a later fetch of h gives the bytes that the store
      was asked to store, as long as h was not dropped, except for whole blocks at their end that read as
      zeros; and there are none exactly if, at the store, no recycled number that continued it was 0. */
  lemma FetchGivesStored(keep: bool, ops: seq<Op>, j: nat, i: nat, data: seq<Byte>) returns (h: nat)
    requires j < i < |ops| && ops[j] == Store(data) && data != [] && SlotsSuffice(keep, ops)
    ensures EventAt(keep, ops, j) == Stored(h, data) && h !in After(keep, ops, j).files
    ensures ops[i] == Fetch(h) && NotDropped(ops, j, i, h) ==>
              exists n: nat ::
                && LostFrom(data, n) && (n == |data| <==> Fits(After(keep, ops, j).free, data))
                && EventAt(keep, ops, i) == Fetched(h, data[..n] + Zeros(|data| - n))
  {
    hide Kept, Numbers, Fits, FileFits;
    h := StoreStores(keep, ops, j, data);
    if ops[i] == Fetch(h) && NotDropped(ops, j, i, h) {
      var m := After(keep, ops, j);
      StaysAsStored(keep, ops, j, i, data, h);
      ZeroInRun(keep, ops, j);
      FitsIsKept(m.free, m.count, data);
      KeptExact(Numbers(m.free, m.count, BlocksFor(|data|)), data);
      var f := Kept(Numbers(m.free, m.count, BlocksFor(|data|)), data);
      assert f.data == data[..|f.data|];
      assert LostFrom(data, |f.data|);
    }
  }

  /** From byte n on the data is lost: nothing, or everything behind a whole number of blocks. */
  ghost predicate LostFrom(data: seq<Byte>, n: nat) {
    n <= |data| && (n < |data| ==> n % BLOCK_SIZE == 0 && n > 0)
  }

  /** In particular a run that never drops handle 0, the first one handed out, gives back exactly what it
      was asked to store, always.  Every run in spill mode and every run without deletions is one. */
  lemma FetchIsExact(keep: bool, ops: seq<Op>, j: nat, i: nat, data: seq<Byte>) returns (h: nat)
    requires j < i < |ops| && ops[j] == Store(data) && data != []
    requires SlotsSuffice(keep, ops) && (!keep || forall k :: 0 <= k < j ==> ops[k] != Drop(0))
    ensures EventAt(keep, ops, j) == Stored(h, data) && h !in After(keep, ops, j).files
    ensures ops[i] == Fetch(h) && NotDropped(ops, j, i, h) ==> EventAt(keep, ops, i) == Fetched(h, data)
  {
    hide Kept, Numbers, Step;
    var m := After(keep, ops, j);
    h := FetchGivesStored(keep, ops, j, i, data);
    if keep {
      ZeroInRun(keep, ops, j);
      assert forall k :: 0 <= k < |m.free| ==> m.free[k] in m.free;
    } else {
      NothingFreed(ops, j);
    }
    assert Fits(m.free, data);
    assert data[..|data|] + Zeros(0) == data;
  }

  /** A handle that was dropped gives nothing until a store gives it out again. */
  lemma DroppedIsGone(ops: seq<Op>, j: nat, i: nat, h: nat)
    requires j < i < |ops| && ops[j] == Drop(h) && ops[i] == Fetch(h)
    requires forall k :: j < k < i && EventAt(true, ops, k).Stored? ==> EventAt(true, ops, k).handle != h
    ensures h !in After(true, ops, i).files && EventAt(true, ops, i) == Ignored
  {
    GoneStays(ops, j, i, h);
  }

  lemma {:induction false} GoneStays(ops: seq<Op>, j: nat, i: nat, h: nat)
    requires j < i <= |ops| && ops[j] == Drop(h)
    requires forall k :: j < k < i && EventAt(true, ops, k).Stored? ==> EventAt(true, ops, k).handle != h
    ensures h !in After(true, ops, i).files
    decreases i
  {
    hide Kept, Numbers, FreeAfter, CountAfter;
    if j + 1 < i {
      GoneStays(ops, j, i - 1, h);
      assert EventAt(true, ops, i - 1).Stored? ==> EventAt(true, ops, i - 1).handle != h;
    }
  }

  /** In spill mode no number is recycled. */
  lemma {:induction false} NothingFreed(ops: seq<Op>, n: nat)
    requires n <= |ops|
    ensures After(false, ops, n).free == []
  {
    hide Kept, Numbers;
    if n > 0 {
      NothingFreed(ops, n - 1);
    }
  }

  /** Two one-block files are stored, the second is dropped before the first, and a file of two
      blocks takes the numbers 1 and 0: its last byte is lost. */
  method RecycledZeroTruncates(data: seq<Byte>) returns (log: seq<Event>)
    requires |data| == BLOCK_SIZE + 1
    ensures |log| == 6 && log[4] == Stored(1, data) && log[5] == Fetched(1, data[..BLOCK_SIZE] + [0])
  {
    hide Step;
    var ops := [Store([7]), Store([8]), Drop(1), Drop(0), Store(data), Fetch(1)];
    log := Run(true, ops);
    RecycledZeroRun(data, ops);
  }

  lemma RecycledZeroRun(data: seq<Byte>, ops: seq<Op>)
    requires |data| == BLOCK_SIZE + 1
    requires ops == [Store([7]), Store([8]), Drop(1), Drop(0), Store(data), Fetch(1)]
    ensures EventAt(true, ops, 4) == Stored(1, data) && EventAt(true, ops, 5) == Fetched(1, data[..BLOCK_SIZE] + [0])
  {
    hide Step;
    OneByteFiles();
    LongFile(data);
    Unroll(ops, 0);
    Unroll(ops, 1);
    Unroll(ops, 2);
    Unroll(ops, 3);
    Unroll(ops, 4);
  }

  lemma Unroll(ops: seq<Op>, n: nat)
    requires n < |ops|
    ensures After(true, ops, 0) == EMPTY
    ensures After(true, ops, n + 1) == Step(After(true, ops, n), true, ops[n]).0
  {
  }

  const TWO_FILES := Model([], 2, map[0 := File([0], [7]), 1 := File([1], [8])], map[0 := [7], 1 := [8]])

  lemma OneByteFiles()
    ensures var m := Step(EMPTY, true, Store([7])).0;
      Step(m, true, Store([8])).0 == TWO_FILES
    ensures var m := Step(TWO_FILES, true, Drop(1)).0;
      Step(m, true, Drop(0)).0 == Model([1, 0], 2, map[], map[])
  {
    assert Kept([0], [7]) == File([0], [7]) && Kept([1], [8]) == File([1], [8]);
    assert Numbers([], 0, 1) == [0] && Numbers([], 1, 1) == [1];
    assert Step(TWO_FILES, true, Drop(1)).0 == Model([1], 2, map[0 := File([0], [7])], map[0 := [7]]);
  }

  lemma LongFile(data: seq<Byte>)
    requires |data| == BLOCK_SIZE + 1
    ensures var m := Model([1, 0], 2, map[], map[]);
      && Step(m, true, Store(data)).1 == Stored(1, data)
      && Step(Step(m, true, Store(data)).0, true, Fetch(1)).1 == Fetched(1, data[..BLOCK_SIZE] + [0])
  {
    assert Numbers([1, 0], 2, 2) == [1, 0] && Reach([1, 0], 1) == 1;
    assert Kept([1, 0], data) == File([1], data[..BLOCK_SIZE]);
    assert Zeros(1) == [0];
  }
}

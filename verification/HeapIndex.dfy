/** The index that every free object carries: in each reachable heap it is the number of its slot. */
module HeapIndex {
  import opened Words
  import opened PmmSpec
  import PmmRanges
  import opened SlabSpec
  import opened HeapMemory
  import opened HeapSizes
  import opened HeapSpec
  import opened HeapBooks
  import opened HeapCells
  import opened HeapSteps
  import opened HeapCreate
  import opened HeapInit
  import opened HeapRun
  import opened HeapReach

  /** The 16-bit field behind the link of a is j when a is slot j of the page. */
  ghost predicate IndexOk(mem: seq<Byte>, page: nat, size: nat, a: nat)
  {
    a + 10 <= |mem| && forall j: nat :: a == ObjectAt(page, size, j) ==> Load(mem, a + 8, 2) == j
  }

  ghost predicate Indexed(mem: seq<Byte>, pools: seq<Pool>)
  {
    forall c: nat, k: nat :: HasFree(pools, c, k) ==> IndexOk(mem, ClassPage(pools, c), ClassSize(c), FreeAt(pools, c, k))
  }

  lemma LoadKept(mem: seq<Byte>, mem': seq<Byte>, a: nat)
    requires SameBytes(mem, mem', a, 10)
    ensures a + 10 <= |mem| == |mem'| && Load(mem', a + 8, 2) == Load(mem, a + 8, 2)
  {
    assert mem'[a + 8] == mem[a + 8] && mem'[a + 9] == mem[a + 9];
    assert Load(mem', a + 10, 0) == 0 == Load(mem, a + 10, 0);
    assert Load(mem', a + 9, 1) == Load(mem, a + 9, 1);
  }

  lemma IndexKept(mem: seq<Byte>, mem': seq<Byte>, page: nat, size: nat, a: nat)
    requires IndexOk(mem, page, size, a) && SameBytes(mem, mem', a, 10)
    ensures IndexOk(mem', page, size, a)
  {
    hide Load, SameBytes;
    LoadKept(mem, mem', a);
  }

  lemma SlotUnique(size: nat, j: nat, k: nat)
    requires size > 0 && size * j == size * k
    ensures j == k
  {
    if j < k { MulMono(j + 1, k, size); } else if k < j { MulMono(k + 1, j, size); }
  }

  lemma IndexIs(mem: seq<Byte>, page: nat, size: nat, a: nat, j: nat)
    requires a + 10 <= |mem| && size > 0 && a == page + size * j && Load(mem, a + 8, 2) == j
    ensures IndexOk(mem, page, size, a)
  {
    hide Load;
    forall i: nat | a == ObjectAt(page, size, i) ensures Load(mem, a + 8, 2) == i { SlotUnique(size, i, j); }
  }

  /** A write that leaves the other cells alone keeps the indices of the free objects. */
  lemma IndexedKept(mem: seq<Byte>, mem': seq<Byte>, pools: seq<Pool>, except: set<nat>)
    requires Indexed(mem, pools) && LinksKept(mem, mem', pools, except)
    requires forall c: nat, k: nat :: HasFree(pools, c, k) ==> FreeAt(pools, c, k) !in except
    ensures Indexed(mem', pools)
  {
    hide IndexOk, SameBytes, ClassSize;
    forall c: nat, k: nat | HasFree(pools, c, k) ensures IndexOk(mem', ClassPage(pools, c), ClassSize(c), FreeAt(pools, c, k)) {
      IndexKept(mem, mem', ClassPage(pools, c), ClassSize(c), FreeAt(pools, c, k));
    }
  }

  lemma NoBlockIsFree(pools: seq<Pool>, pmm: State, live: Blocks, reserved: set<nat>, b: nat)
    requires Books(pools, pmm, live, reserved) && b in live
    ensures forall c: nat, k: nat :: HasFree(pools, c, k) ==> FreeAt(pools, c, k) !in {b}
  {
    hide Books;
    forall c: nat, k: nat | HasFree(pools, c, k) ensures FreeAt(pools, c, k) !in {b} { FreeNotThere(pools, pmm, live, reserved, c, b); }
  }

  // ---------------------------------------------------------------- malloc_heap_init

  lemma NewIndexed(pmm: State, mem: seq<Byte>, c: nat, k: nat)
    requires c < CLASSES && Wf(pmm) && CreateCache(pmm, mem, c).3 && pmm.pages * PAGE_SIZE <= |mem|
    ensures var (pool, pmm', mem', ok) := CreateCache(pmm, mem, c);
            |pool.slabs| == 1 && (k < |pool.slabs[0].free| ==> IndexOk(mem', pool.slabs[0].page, ClassSize(c), pool.slabs[0].free[k]))
  {
    hide Wf, Capacity, ClassSize, CreatedBytes, Write, FirstHit, Mark, Load, IndexOk;
    var (pmm1, ptr) := PmmSpec.Alloc(pmm, 1);
    var (pmm2, page) := PmmSpec.Alloc(pmm1, 1);
    AllocOnePage(pmm);
    AllocOnePage(pmm1);
    var size, mem1 := ClassSize(c), Write(mem, ptr, ZeroBytes(PAGE_SIZE));
    var max, d := Capacity(size), Dropped(Capacity(size), CREATE_FLAGS);
    ClassFits(c);
    PageInside(page, pmm.pages);
    CreatedIndices(mem1, page, size, max, d);
    assert CreateCache(pmm, mem, c).0.slabs == [SlabView(page, Objects(page, size, d, max - d))];
    if k < max - d {
      ObjectFits(page, size, max, d + k);
      assert Objects(page, size, d, max - d)[k] == ObjectAt(page, size, d + k);
      IndexIs(CreatedBytes(mem1, page, size, max, d), page, size, page + size * (d + k), d + k);
    }
  }

  /** Objects of earlier classes lie on other pages. */
  lemma OldIndexed(pools: seq<Pool>, pmm: State, mem: seq<Byte>, mem': seq<Byte>, g: nat)
    requires PoolsInv(pools, pmm) && pmm.pages <= |pmm.bits| && Indexed(mem, pools)
    requires OnlyChanges(mem, mem', g, PAGE_SIZE) && g % PAGE_SIZE == 0 && g / PAGE_SIZE in FreePages(pmm)
    ensures Indexed(mem', pools)
  {
    hide IndexOk, SameBytes, ClassInv, OnlyChanges, FreePages, Wf, ObjectOf, ClassSize;
    forall c: nat, k: nat | HasFree(pools, c, k) ensures IndexOk(mem', ClassPage(pools, c), ClassSize(c), FreeAt(pools, c, k)) {
      var a := FreeAt(pools, c, k);
      SingleSlab(pools[c], pmm, {}, Used(pmm), c);
      FreshPages(pools, pmm, c, g);
      ObjectPlace(pools, pmm, {}, Used(pmm), c, a);
      ClassRoom(c);
      IndexBound(mem, ClassPage(pools, c), ClassSize(c), a);
      PageGap(a, g, 10, PAGE_SIZE, ClassPage(pools, c), g);
      OutsideKept(mem, mem', g, PAGE_SIZE, a, 10);
      IndexKept(mem, mem', ClassPage(pools, c), ClassSize(c), a);
    }
  }

  lemma IndexBound(mem: seq<Byte>, page: nat, size: nat, a: nat)
    requires IndexOk(mem, page, size, a)
    ensures a + 10 <= |mem|
  {
  }

  lemma {:induction false} InitIndexed(pmm: State, mem: seq<Byte>, n: nat)
    requires Wf(pmm) && n <= CLASSES && InitHeap(pmm, mem, n).1 && pmm.pages * PAGE_SIZE <= |mem|
    ensures var h := InitHeap(pmm, mem, n).0; Indexed(h.mem, h.pools)
  {
    hide CreateCache, Wf, IndexOk, CachesInv;
    if n == 0 {
      assert InitHeap(pmm, mem, 0) == (Heap([], pmm, mem), true);
    } else {
      var h := InitHeap(pmm, mem, n - 1).0;
      InitIndexed(pmm, mem, n - 1);
      InitKeeps(pmm, mem, n - 1);
      NextIndexed(h);
    }
  }

  lemma NextIndexed(h: Heap)
    requires CachesInv(h) && |h.pools| < CLASSES && CreateCache(h.pmm, h.mem, |h.pools|).3 && Indexed(h.mem, h.pools)
    ensures var (pool, pmm', mem', ok) := CreateCache(h.pmm, h.mem, |h.pools|); Indexed(mem', h.pools + [pool])
  {
    hide ClassInv, CreateCache, Wf, Threaded, SlabStored, OnlyChanges, FreePages, IndexOk, Indexed, ClassSize;
    var n := |h.pools|;
    var (pool, pmm', mem', ok) := CreateCache(h.pmm, h.mem, n);
    var ptr, mem1 := CacheCreated(h.pmm, h.mem, n);
    WfBits(h.pmm);
    OldIndexed(h.pools, h.pmm, h.mem, mem1, ptr);
    OldIndexed(h.pools, h.pmm, mem1, mem', pool.slabs[0].page);
    forall k: nat | k < |pool.slabs[0].free| ensures IndexOk(mem', pool.slabs[0].page, ClassSize(n), pool.slabs[0].free[k]) {
      NewIndexed(h.pmm, h.mem, n, k);
    }
    OneMoreIndexed(mem', h.pools, pool);
  }

  lemma WfBits(pmm: State)
    requires Wf(pmm)
    ensures pmm.pages <= |pmm.bits|
  {
  }

  lemma OneMoreIndexed(mem: seq<Byte>, pools: seq<Pool>, pool: Pool)
    requires |pools| < CLASSES && Indexed(mem, pools) && |pool.slabs| == 1
    requires forall k: nat :: k < |pool.slabs[0].free| ==> IndexOk(mem, pool.slabs[0].page, ClassSize(|pools|), pool.slabs[0].free[k])
    ensures Indexed(mem, pools + [pool])
  {
    hide IndexOk, ClassSize;
    var q := pools + [pool];
    forall c: nat, k: nat | HasFree(q, c, k) ensures IndexOk(mem, ClassPage(q, c), ClassSize(c), FreeAt(q, c, k)) {
      if c < |pools| { assert q[c] == pools[c] && HasFree(pools, c, k) && FreeAt(pools, c, k) == FreeAt(q, c, k) && ClassPage(pools, c) == ClassPage(q, c); }
    }
  }

  // ---------------------------------------------------------------- malloc

  lemma TakeIndexed(h: Heap, live: Blocks, reserved: set<nat>, size: Word, c: nat)
    requires HeapInv(h, live, reserved) && ServiceFor(size) == Slab(c) && c < CLASSES && size + METADATA < WORD_LIMIT
    requires |h.pools| == CLASSES && |h.pools[c].slabs| == 1 && h.pools[c].slabs[0].free != [] && FindFree(h.pools[c].slabs, 0) == 0
    requires Indexed(h.mem, h.pools)
    ensures Indexed(TakeObject(h, c).mem, TakeObject(h, c).pools)
  {
    hide HeapInv, ServiceFor, Books, Write, SetSlab, OnlyChanges, SameBytes, IndexOk, Indexed, BlocksKept, LinksKept, SlabsKept, ClassSize;
    var slab, h', b := h.pools[c].slabs[0], TakeObject(h, c), h.pools[c].slabs[0].free[0];
    var m1 := SetSlab(h.mem, slab.page, At(slab.free, 1), |slab.free| - 1);
    InvBooks(h, live, reserved);
    FitsIffNoWrap(size);
    ClassRoom(c);
    TakeObjectBooks(h.pools, h.pmm, live, reserved, c, size);
    TakeFrames(h, live, reserved, size, c, m1, h');
    assert forall d: nat, k: nat :: HasFree(h.pools, d, k) ==> FreeAt(h.pools, d, k) !in {};
    IndexedKept(h.mem, m1, h.pools, {});
    PoppedIndexed(m1, h.pools, c);
    NoBlockIsFree(h'.pools, h.pmm, live[b := size], reserved, b);
    IndexedKept(m1, h'.mem, h'.pools, {b});
  }

  lemma PoppedIndexed(mem: seq<Byte>, pools: seq<Pool>, c: nat)
    requires c < |pools| && |pools[c].slabs| == 1 && pools[c].slabs[0].free != [] && Indexed(mem, pools)
    ensures Indexed(mem, pools[c := Pop(pools[c], 0)])
  {
    hide IndexOk, ClassSize;
    var q := pools[c := Pop(pools[c], 0)];
    forall d: nat, k: nat | HasFree(q, d, k) ensures IndexOk(mem, ClassPage(q, d), ClassSize(d), FreeAt(q, d, k)) {
      var i := if d == c then k + 1 else k;
      assert HasFree(pools, d, i) && FreeAt(pools, d, i) == FreeAt(q, d, k) && ClassPage(q, d) == ClassPage(pools, d);
    }
  }

  lemma MallocIndexed(h: Heap, live: Blocks, reserved: set<nat>, size: Word, scan: Scan)
    requires HeapInv(h, live, reserved) && |h.pools| == CLASSES && Wf(h.pmm) && GoodMalloc(h, size, scan) && Indexed(h.mem, h.pools)
    ensures Indexed(Malloc(h, size, scan).0.mem, Malloc(h, size, scan).0.pools)
  {
    hide ServiceFor, HeapInv, Malloc, PageAlloc, Wf, TakeObject, TakePages, Indexed;
    AllSingleIn(h, live, reserved);
    match ServiceFor(size)
    case Slab(c) =>
      MallocIs(h, size, scan, c);
      if h.pools[c].slabs[0].free != [] { TakeIndexed(h, live, reserved, size, c); }
    case Pages(n) => PagesIndexed(h, live, reserved, size, scan, n);
    case Refused => RefusedIs(h, size, scan);
  }

  lemma AllSingleIn(h: Heap, live: Blocks, reserved: set<nat>)
    requires HeapInv(h, live, reserved)
    ensures forall c: nat :: c < CLASSES ==> c < |h.pools| && |h.pools[c].slabs| == 1
  {
    hide ServiceFor, ClassInv;
    AllSingle(h.pools, h.pmm, live, reserved);
  }

  lemma RefusedIs(h: Heap, size: Word, scan: Scan)
    requires |h.pools| == CLASSES && Wf(h.pmm) && ServiceFor(size) == Refused
    ensures Malloc(h, size, scan).0 == h
  {
    hide ServiceFor, Wf;
  }

  lemma PagesAre(h: Heap, size: Word, scan: Scan, n: nat)
    requires |h.pools| == CLASSES && Wf(h.pmm) && ServiceFor(size) == Pages(n)
    ensures var (pmm', b) := PageAlloc(h.pmm, n, scan); Malloc(h, size, scan).0 == TakePages(h, n, pmm', b)
  {
    hide ServiceFor, Wf, PageAlloc, TakePages;
  }

  lemma PagesIndexed(h: Heap, live: Blocks, reserved: set<nat>, size: Word, scan: Scan, n: nat)
    requires HeapInv(h, live, reserved) && |h.pools| == CLASSES && Wf(h.pmm) && ServiceFor(size) == Pages(n) && GoodMalloc(h, size, scan)
    requires Indexed(h.mem, h.pools)
    ensures Indexed(Malloc(h, size, scan).0.mem, Malloc(h, size, scan).0.pools)
  {
    hide ServiceFor, HeapInv, Malloc, PageAlloc, Wf, TakePages, Indexed, Books, OnlyChanges, SameBytes, BlocksKept, LinksKept, SlabsKept, Write;
    var (pmm', b) := PageAlloc(h.pmm, n, scan);
    PagesAre(h, size, scan, n);
    CleanClaims(h.pmm, n, scan);
    InvBooks(h, live, reserved);
    if b == 0 {
      RefusedOnly(h, n, pmm');
      LowWrite(h.pools, h.pmm, live, reserved, h.mem, TakePages(h, n, pmm', b).mem);
      assert forall d: nat, k: nat :: HasFree(h.pools, d, k) ==> FreeAt(h.pools, d, k) !in {};
      IndexedKept(h.mem, TakePages(h, n, pmm', b).mem, h.pools, {});
    } else {
      ClaimIndexed(h, live, reserved, size, n, pmm', b);
    }
  }

  lemma RefusedOnly(h: Heap, n: nat, pmm': State)
    requires n <= 1
    ensures OnlyChanges(h.mem, TakePages(h, n, pmm', 0).mem, 0, PAGE_SIZE) && TakePages(h, n, pmm', 0).pools == h.pools
  {
    WriteOnly(h.mem, 0, ZeroBytes(n * PAGE_SIZE), 0, PAGE_SIZE);
    hide Write;
  }

  lemma ClaimIndexed(h: Heap, live: Blocks, reserved: set<nat>, size: Word, n: nat, pmm': State, b: nat)
    requires HeapInv(h, live, reserved) && ServiceFor(size) == Pages(n) && size + METADATA < WORD_LIMIT
    requires b != 0 && Wf(pmm') && PmmRanges.ClaimedRange(h.pmm, pmm', b, n) && Indexed(h.mem, h.pools)
    ensures Indexed(TakePages(h, n, pmm', b).mem, TakePages(h, n, pmm', b).pools)
  {
    hide ServiceFor, HeapInv, Wf, TakePages, Indexed, Books, OnlyChanges, SameBytes, BlocksKept, LinksKept, SlabsKept, Write, Room;
    var h', live' := TakePages(h, n, pmm', b), live[b := size];
    FitsIffNoWrap(size);
    InvBooks(h, live, reserved);
    PagesRoom(n);
    TakePagesBooks(h.pools, h.pmm, live, reserved, n, size, pmm', b);
    TakePagesIs(h, n, pmm', b);
    assert Cell(h'.pools, live', b, Pages(n));
    ClaimedPages(h.pmm, pmm', b, n);
    CellWrite(h'.pools, pmm', live', reserved, h.mem, h'.mem, b, Pages(n));
    NoBlockIsFree(h'.pools, pmm', live', reserved, b);
    IndexedKept(h.mem, h'.mem, h'.pools, {b});
  }

  lemma PagesRoom(n: nat)
    ensures Room(Pages(n)) == n * PAGE
  {
  }

  lemma ClaimedPages(pmm: State, pmm': State, b: nat, n: nat)
    requires PmmRanges.ClaimedRange(pmm, pmm', b, n)
    ensures pmm'.pages == pmm.pages && n > 0
  {
    hide Range, FreePages;
  }

  // ---------------------------------------------------------------- free

  /** slab_cache_free stores the number of the slot, relative to the slab's page. */
  lemma FreedIndexIs(page: nat, size: nat, j: nat)
    requires size > 0 && page < WORD_LIMIT && page + size * j < WORD_LIMIT
    ensures FreedIndex(page, size, page + size * j) == j
  {
    SmallMod(page, WORD_LIMIT);
    var d := size * j;
    AddMultiple(1, d, WORD_LIMIT);
    SmallMod(d, WORD_LIMIT);
    DivModUnique(d, size, j, 0);
  }

  lemma BufctlIndex(mem: seq<Byte>, b: nat, next: nat, j: nat)
    requires b + 10 <= |mem| && j < 0x1_0000
    ensures Load(Write(mem, b, Bufctl(next, j)), b + 8, 2) == j
  {
    hide Load;
    var s, m := Bytes(j, 2), Write(mem, b, Bufctl(next, j));
    IndexBytes(mem, b, next, j);
    IndexLoad(m, b + 8, j);
  }

  lemma IndexBytes(mem: seq<Byte>, b: nat, next: nat, j: nat)
    requires b + 10 <= |mem|
    ensures Holds(Write(mem, b, Bufctl(next, j)), b + 8, Bytes(j, 2))
  {
    hide Bytes;
  }

  /** What free stores, on the way and in the end: the freed object carries its slot number, and the links and
      indices of the other free objects stay. */
  ghost predicate FreedTo(h: Heap, c: nat, b: nat, m1: seq<Byte>, h': Heap)
  {
    && c < CLASSES && |h.pools| == CLASSES && |h.pools[c].slabs| == 1
    && h'.pools == h.pools[c := Push(h.pools[c], 0, b)] && IndexOk(m1, h.pools[c].slabs[0].page, ClassSize(c), b)
    && LinksKept(h.mem, m1, h.pools, {b}) && LinksKept(m1, h'.mem, h'.pools, {})
  }

  lemma FreeStored(h: Heap, live: Blocks, reserved: set<nat>, b: nat, c: nat) returns (m1: seq<Byte>)
    requires HeapInv(h, live, reserved) && b in live && ServiceFor(live[b]) == Slab(c) && c < CLASSES
    ensures |h.pools| == CLASSES && forall d: nat :: d < CLASSES ==> h.pools[d].size > 0
    ensures UserPointer(b) < WORD_LIMIT && FreedTo(h, c, b, m1, HeapSpec.Free(h, UserPointer(b)).0)
  {
    hide HeapInv, ServiceFor, Books, Write, SetSlab, OnlyChanges, SameBytes, IndexOk, BlocksKept, LinksKept, SlabsKept, ClassSize,
      HeapSpec.Free, FreeObject, FreeWrites, UserPointer, Load, Bufctl, Bytes, ObjectOf;
    InvBooks(h, live, reserved);
    AllSingle(h.pools, h.pmm, live, reserved);
    LiveBase(h, live, reserved, b);
    FreeSlabStep(h, live, reserved, b, c);
    FreeObjectBooks(h.pools, h.pmm, live, reserved, c, b);
    m1 := FreeIs(h, c, b);
    var h' := FreeObject(h, c, b).0;
    FreeShape(h, c, b, m1, h');
    FreedIs(h, live, reserved, b, c);
    FreeFrames(h, live, reserved, b, c, m1, h');
    LivePlace(h.pools, h.pmm, live, reserved, b);
    FreedSlot(h, m1, c, b);
  }

  lemma FreeIndexed(h: Heap, live: Blocks, reserved: set<nat>, b: nat, c: nat)
    requires HeapInv(h, live, reserved) && b in live && ServiceFor(live[b]) == Slab(c) && c < CLASSES && Indexed(h.mem, h.pools)
    ensures forall d: nat :: d < CLASSES ==> d < |h.pools| && h.pools[d].size > 0
    ensures var h' := HeapSpec.Free(h, UserPointer(b)).0; Indexed(h'.mem, h'.pools)
  {
    hide HeapInv, ServiceFor, Books, IndexOk, Indexed, LinksKept, ClassSize, HeapSpec.Free, UserPointer;
    var m1 := FreeStored(h, live, reserved, b, c);
    var h' := HeapSpec.Free(h, UserPointer(b)).0;
    InvBooks(h, live, reserved);
    NoBlockIsFree(h.pools, h.pmm, live, reserved, b);
    IndexedKept(h.mem, m1, h.pools, {b});
    PushedIndexed(m1, h.pools, c, b);
    assert forall d: nat, k: nat :: HasFree(h'.pools, d, k) ==> FreeAt(h'.pools, d, k) !in {};
    IndexedKept(m1, h'.mem, h'.pools, {});
  }

  lemma FreedIs(h: Heap, live: Blocks, reserved: set<nat>, b: nat, c: nat)
    requires HeapInv(h, live, reserved) && b in live && ServiceFor(live[b]) == Slab(c) && c < CLASSES
    ensures |h.pools| == CLASSES && forall d: nat :: d < CLASSES ==> h.pools[d].size > 0
    ensures HeapSpec.Free(h, UserPointer(b)).0 == FreeObject(h, c, b).0
  {
    hide HeapInv, ServiceFor, FreeObject, UserPointer, BaseOf, HeaderAt;
    InvBooks(h, live, reserved);
    SizesPositive(h, live, reserved);
    LiveBase(h, live, reserved, b);
    FreeDispatch(h, live, reserved, b);
  }

  lemma SizesPositive(h: Heap, live: Blocks, reserved: set<nat>)
    requires HeapInv(h, live, reserved)
    ensures |h.pools| == CLASSES && forall d: nat :: d < CLASSES ==> h.pools[d].size > 0
  {
    hide ServiceFor, ClassInv;
    AllSingle(h.pools, h.pmm, live, reserved);
  }

  lemma FreedSlot(h: Heap, m1: seq<Byte>, c: nat, b: nat)
    requires c < CLASSES == |h.pools| && |h.pools[c].slabs| == 1 && h.pools[c].size == ClassSize(c) && |h.mem| <= WORD_LIMIT
    requires var slab := h.pools[c].slabs[0]; m1 == Write(h.mem, b, Bufctl(At(slab.free, 0), FreedIndex(slab.page, h.pools[c].size, b)))
    requires b + 10 <= |h.mem| && ObjectOf(b, h.pools[c].slabs[0].page, ClassSize(c))
    ensures IndexOk(m1, h.pools[c].slabs[0].page, ClassSize(c), b)
  {
    hide Write, Bufctl, FreedIndex, Load, IndexOk, Capacity;
    var page, size := h.pools[c].slabs[0].page, ClassSize(c);
    var j: nat :| j < Capacity(size) && b == ObjectAt(page, size, j);
    FreedIndexIs(page, size, j);
    CapacityAtMost(c);
    BufctlIndex(h.mem, b, At(h.pools[c].slabs[0].free, 0), j);
    IndexIs(m1, page, size, b, j);
  }

  lemma CapacityAtMost(c: nat)
    requires c < CLASSES
    ensures Capacity(ClassSize(c)) < 0x1_0000
  {
  }

  lemma PushedIndexed(mem: seq<Byte>, pools: seq<Pool>, c: nat, b: nat)
    requires c < |pools| && c < CLASSES && |pools[c].slabs| == 1 && Indexed(mem, pools)
    requires IndexOk(mem, pools[c].slabs[0].page, ClassSize(c), b)
    ensures Indexed(mem, pools[c := Push(pools[c], 0, b)])
  {
    hide IndexOk, ClassSize;
    var q := pools[c := Push(pools[c], 0, b)];
    forall d: nat, k: nat | HasFree(q, d, k) ensures IndexOk(mem, ClassPage(q, d), ClassSize(d), FreeAt(q, d, k)) {
      if d != c || k > 0 {
        var i := if d == c then k - 1 else k;
        assert HasFree(pools, d, i) && FreeAt(pools, d, i) == FreeAt(q, d, k) && ClassPage(q, d) == ClassPage(pools, d);
      }
    }
  }

  // ---------------------------------------------------------------- runs

  lemma StoreIndexed(h: Heap, live: Blocks, reserved: set<nat>, b: nat, off: nat, s: seq<Byte>)
    requires HeapInv(h, live, reserved) && b in live && off + |s| <= live[b] && Indexed(h.mem, h.pools)
    ensures Indexed(HeapSteps.Store(h, b, off, s).mem, h.pools)
  {
    hide ServiceFor, HeapInv, Books, Write, OnlyChanges, SameBytes, IndexOk, Indexed, BlocksKept, LinksKept, SlabsKept, Room;
    InvBooks(h, live, reserved);
    LiveBase(h, live, reserved, b);
    var t, m := ServiceFor(live[b]), HeapSteps.Store(h, b, off, s).mem;
    WriteOnly(h.mem, b + METADATA + off, s, b, Room(t));
    assert Cell(h.pools, live, b, t);
    CellWrite(h.pools, h.pmm, live, reserved, h.mem, m, b, t);
    NoBlockIsFree(h.pools, h.pmm, live, reserved, b);
    IndexedKept(h.mem, m, h.pools, {b});
  }

  lemma StepIndexed(w: World, c: Call, scan: Scan, reserved: set<nat>)
    requires HeapRun.Inv(w, reserved) && ValidCall(w, c, scan) && Indexed(w.h.mem, w.h.pools)
    ensures var v := HeapRun.Exec(w, c, scan); Indexed(v.h.mem, v.h.pools)
  {
    hide HeapInv, Malloc, GoodMalloc, ServiceFor, HeapSteps.Store, HeapSpec.Free, Indexed, UserPointer, BaseOf, Wf;
    InvIsReady(w.h, w.live, reserved);
    match c
    case MallocCall(size) => MallocIndexed(w.h, w.live, reserved, size, scan);
    case FreeCall(p) =>
      if p == 0 {
        NothingFreed(w.h);
      } else {
        FreeDispatch(w.h, w.live, reserved, BaseOf(p));
        var s := ServiceFor(w.live[BaseOf(p)]);
        if s.Slab? {
          FreeIndexed(w.h, w.live, reserved, BaseOf(p), s.c);
        } else {
          FreePagesStep(w.h, w.live, reserved, BaseOf(p), s.n);
        }
      }
    case StoreCall(b, off, s) =>
      StoreIndexed(w.h, w.live, reserved, b, off, s);
      StoredPools(w.h, b, off, s);
  }

  lemma NothingFreed(h: Heap)
    requires Ready(h)
    ensures HeapSpec.Free(h, 0).0 == h
  {
    hide BaseOf, Wf;
  }

  lemma StoredPools(h: Heap, b: nat, off: nat, s: seq<Byte>)
    ensures HeapSteps.Store(h, b, off, s).pools == h.pools
  {
  }

  lemma {:induction false} RunIndexed(w: World, calls: seq<Call>, scan: Scan, reserved: set<nat>)
    requires HeapRun.Inv(w, reserved) && HeapRun.ValidRun(w, calls, scan) && Indexed(w.h.mem, w.h.pools)
    ensures var v := Run(w, calls, scan); Indexed(v.h.mem, v.h.pools)
  {
    hide HeapRun.Exec, HeapRun.Inv, ValidCall, Indexed;
    if calls == [] {
    } else {
      var before := calls[..|calls| - 1];
      RunIndexed(w, before, scan, reserved);
      HeapRun.RunSafety(w, before, scan, reserved);
      StepIndexed(Run(w, before, scan), calls[|calls| - 1], scan, reserved);
    }
  }

  /** In every reachable heap the free object in slot j of a class's page carries the index j. */
  lemma FreeObjectsNameSlots(pmm: State, mem: seq<Byte>, calls: seq<Call>, scan: Scan, c: nat, k: nat, j: nat)
    requires Reaches(pmm, mem, calls, scan)
    requires var pools := Reached(pmm, mem, calls, scan).h.pools;
             HasFree(pools, c, k) && FreeAt(pools, c, k) == ClassPage(pools, c) + ClassSize(c) * j
    ensures var h := Reached(pmm, mem, calls, scan).h;
            var a := FreeAt(h.pools, c, k);
            a + 10 <= |h.mem| && Load(h.mem, a + 8, 2) == j
  {
    hide HeapInv, Run, HeapRun.ValidRun, InitHeap, Load, InUse, ClassSize, Wf;
    ReachedBoots(pmm, mem, calls, scan);
    StartReaches(pmm, mem, scan);
    ReachedInv(pmm, mem, [], scan);
    InitIndexed(pmm, mem, CLASSES);
    RunIndexed(Start(pmm, mem), calls, scan, InUse(pmm, mem));
    var h := Reached(pmm, mem, calls, scan).h;
    SlotIndex(h.mem, ClassPage(h.pools, c), ClassSize(c), FreeAt(h.pools, c, k), j);
  }

  lemma SlotIndex(mem: seq<Byte>, page: nat, size: nat, a: nat, j: nat)
    requires IndexOk(mem, page, size, a) && a == page + size * j
    ensures a + 10 <= |mem| && Load(mem, a + 8, 2) == j
  {
    hide Load;
    assert a == ObjectAt(page, size, j);
  }

  lemma HeadKept(mem: seq<Byte>, mem': seq<Byte>, pools: seq<Pool>, c: nat)
    requires LinksKept(mem, mem', pools, {}) && HasFree(pools, c, 0)
    ensures SameBytes(mem, mem', FreeAt(pools, c, 0), 10)
  {
    hide SameBytes;
  }

  /** Block b is the object in slot j of the page of class c. */
  ghost predicate InSlot(pools: seq<Pool>, c: nat, b: nat, j: nat)
  {
    c < CLASSES && |pools| == CLASSES && |pools[c].slabs| == 1 && b == pools[c].slabs[0].page + ClassSize(c) * j
  }

  /** The two bytes behind the link of an object load as j. */
  ghost predicate IndexReads(mem: seq<Byte>, b: nat, j: nat)
  {
    b + 10 <= |mem| && Load(mem, b + 8, 2) == j
  }

  /** free of the object in slot j stores j, whatever the heap. */
  lemma FreedObjectNamesSlot(h: Heap, live: Blocks, reserved: set<nat>, b: nat, c: nat, j: nat)
    requires HeapInv(h, live, reserved) && b in live && ServiceFor(live[b]) == Slab(c) && InSlot(h.pools, c, b, j)
    ensures UserPointer(b) < WORD_LIMIT && forall d: nat :: d < CLASSES ==> h.pools[d].size > 0
    ensures IndexReads(HeapSpec.Free(h, UserPointer(b)).0.mem, b, j)
  {
    hide HeapInv, ServiceFor, HeapSpec.Free, Load, ClassSize, UserPointer, IndexOk, LinksKept, SameBytes;
    var m1 := FreeStored(h, live, reserved, b, c);
    var h' := HeapSpec.Free(h, UserPointer(b)).0;
    HeadKept(m1, h'.mem, h'.pools, c);
    var page := h.pools[c].slabs[0].page;
    IndexKept(m1, h'.mem, page, ClassSize(c), b);
    SlotIndex(h'.mem, page, ClassSize(c), b, j);
  }
}

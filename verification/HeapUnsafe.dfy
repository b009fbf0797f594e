/** For which sizes malloc keeps every reachable heap safe, with the scan as written and repaired. */
module HeapUnsafe {
  import opened Words
  import opened PmmSpec
  import opened SlabSpec
  import opened HeapSizes
  import opened HeapSpec
  import opened HeapCells
  import opened HeapSteps
  import opened HeapRun
  import opened HeapReach
  import opened HeapMemory
  import opened HeapBooks
  import opened HeapRefused
  import opened PmmRanges
  import HeapInit
  import HeapCreate

  /** The call hands out a block that the invariant allows, or nothing, and pages in use by others keep
      their bytes. */
  ghost predicate Keeps(h: Heap, live: Blocks, reserved: set<nat>, size: Word, scan: Scan)
    requires |h.pools| == CLASSES && Wf(h.pmm)
  {
    var (h', r) := Malloc(h, size, scan);
    && OthersUntouched(h, h'.mem, reserved)
    && if r.Pointer? && 0 != r.p < WORD_LIMIT then BaseOf(r.p) !in live && HeapInv(h', live[BaseOf(r.p) := size], reserved)
       else HeapInv(h', live, reserved)
  }

  /** So it does in the heap that a run of calls reaches. */
  ghost predicate KeepsAfter(pmm: State, mem: seq<Byte>, calls: seq<Call>, size: Word, scan: Scan)
    requires Boots(pmm, mem)
  {
    var w := Reached(pmm, mem, calls, scan);
    |w.h.pools| == CLASSES && Wf(w.h.pmm) && Keeps(w.h, w.live, InUse(pmm, mem), size, scan)
  }

  ghost predicate AlwaysSafe(size: Word, scan: Scan)
  {
    forall pmm: State, mem: seq<Byte>, calls: seq<Call> | Reaches(pmm, mem, calls, scan) :: KeepsAfter(pmm, mem, calls, size, scan)
  }

  // ---------------------------------------------------------------- the safe sizes

  lemma GoodKeeps(h: Heap, live: Blocks, reserved: set<nat>, size: Word, scan: Scan)
    requires HeapInv(h, live, reserved) && |h.pools| == CLASSES && Wf(h.pmm) && GoodMalloc(h, size, scan)
    ensures Keeps(h, live, reserved, size, scan)
  {
    hide Malloc, GoodMalloc, ServiceFor, BlocksKept, NewBase, HeapInv, UserPointer, BaseOf, Wf, OthersUntouched;
    GoodUntouched(h, live, reserved, size, scan);
    MallocStep(h, live, reserved, size, scan);
    var (h', r) := Malloc(h, size, scan);
    if r.Pointer? && r.p != 0 {
      LiveBase(h', live[NewBase(h, size, scan) := size], reserved, NewBase(h, size, scan));
    }
  }

  lemma SafeSizes(size: Word, scan: Scan)
    requires size + METADATA <= PAGE || WORD_LIMIT - PAGE < size + METADATA < WORD_LIMIT
    ensures AlwaysSafe(size, scan)
  {
    hide HeapInv, ServiceFor, Keeps, GoodMalloc, Reaches, Reached, InUse, Boots, Wf;
    forall pmm: State, mem: seq<Byte>, calls: seq<Call> | Reaches(pmm, mem, calls, scan)
      ensures Boots(pmm, mem) && KeepsAfter(pmm, mem, calls, size, scan)
    {
      ReachedBoots(pmm, mem, calls, scan);
      ReachedInv(pmm, mem, calls, scan);
      var w := Reached(pmm, mem, calls, scan);
      InvBooks(w.h, w.live, InUse(pmm, mem));
      SafeIsGood(w.h, size, scan);
      GoodKeeps(w.h, w.live, InUse(pmm, mem), size, scan);
    }
  }

  lemma SafeIsGood(h: Heap, size: Word, scan: Scan)
    requires Wf(h.pmm) && (size + METADATA <= PAGE || WORD_LIMIT - PAGE < size + METADATA < WORD_LIMIT)
    ensures GoodMalloc(h, size, scan)
  {
    hide ServiceFor, CleanClaim, Wf;
    if size + METADATA <= PAGE { SmallIsGood(h, size, scan); } else { ServiceIs(size); }
  }

  // ---------------------------------------------------------------- the unsafe sizes

  /** A block larger than its class is no block. */
  lemma TooLarge(h: Heap, live: Blocks, reserved: set<nat>, b: nat)
    requires b in live && ServiceFor(live[b]).Slab? && WORD_LIMIT <= live[b] + METADATA
    ensures !HeapInv(h, live, reserved)
  {
    hide ServiceFor, ClassInv;
  }

  /** A block that covers a reserved page is no block. */
  lemma CoversReserved(h: Heap, live: Blocks, reserved: set<nat>, b: nat, n: nat, p: nat)
    requires b in live && ServiceFor(live[b]) == Pages(n) && p in Range(b / PAGE_SIZE, n) && p in reserved
    ensures !HeapInv(h, live, reserved)
  {
    hide ServiceFor, ClassInv, Range;
    assert PageServed(live, b);
  }

  lemma FirstOfClass(h: Heap, size: Word, scan: Scan, c: nat, page: nat, free: seq<nat>)
    requires |h.pools| == CLASSES && Wf(h.pmm) && c < CLASSES && ServiceFor(size) == Slab(c)
    requires h.pools[c].slabs == [SlabView(page, free)] && free != []
    ensures Malloc(h, size, scan).1 == Pointer(UserPointer(free[0]))
  {
    hide ServiceFor, Wf;
  }

  /** Adding the header wraps: the caller gets 16 bytes for a request of almost 2^64. */
  lemma WrappedSize(size: Word, scan: Scan)
    requires WORD_LIMIT <= size + METADATA
    ensures !AlwaysSafe(size, scan)
  {
    hide ServiceFor, HeapInv, Malloc, UserPointer, BaseOf, ExampleState, ExampleMemory, ExampleFree, Boots, Start, InUse, Wf, OthersUntouched;
    var pmm, mem := ExampleState(0, 1), ExampleMemory(1);
    ExampleBoots(1);
    var h, b := Start(pmm, mem).h, ExampleFree(0)[0];
    assert Reaches(pmm, mem, [], scan) && Reached(pmm, mem, [], scan) == World(h, map[]) by { StartReaches(pmm, mem, scan); }
    ReachedInv(pmm, mem, [], scan);
    InvBooks(h, map[], InUse(pmm, mem));
    ServiceIs(size);
    FirstOfClass(h, size, scan, 0, ExamplePage(0), ExampleFree(0));
    ExampleSlot(0, 0);
    SixteenAt(b);
    PointerRoundTrip(b);
    TooLarge(Malloc(h, size, scan).0, map[b := size], InUse(pmm, mem), b);
    assert map[][b := size] == map[b := size];
    assert !KeepsAfter(pmm, mem, [], size, scan);
  }

  lemma SixteenAt(b: nat)
    requires b == ExamplePage(0) + ClassSize(0) * 1
    ensures b == 0x2010
  {
  }

  lemma TakesPages(h: Heap, size: Word, n: nat, b: nat)
    requires |h.pools| == CLASSES && Wf(h.pmm) && ServiceFor(size) == Pages(n)
    requires h.pmm.used > 0 && 0 < b < h.pmm.pages && FirstHit(h.pmm.bits, h.pmm.pages, n, 0) == b
    ensures Malloc(h, size, Written).1 == Pointer(UserPointer(b * PAGE_SIZE))
  {
    hide ServiceFor, Wf, FirstHit, Mark;
  }

  /** More than one page: the scan tests too few pages, and a used page becomes part of the block. */
  lemma ManyPages(size: Word)
    requires PAGE < size + METADATA <= WORD_LIMIT - PAGE
    ensures !AlwaysSafe(size, Written)
  {
    hide ServiceFor, HeapInv, Malloc, UserPointer, BaseOf, FirstHit, ExampleBits, ExampleMemory, Boots, Start, InUse, Wf, Range, OthersUntouched;
    ServiceIs(size);
    var n := (size + METADATA + PAGE - 1) / PAGE;
    var k := (n - 1) / PAGE_SIZE + 1;
    ManyBounds(size + METADATA, n, k);
    var pmm, mem, b := ExampleState(0, k), ExampleMemory(k), 13 * PAGE_SIZE;
    ExampleBoots(k);
    var h := Start(pmm, mem).h;
    assert Reaches(pmm, mem, [], Written) && Reached(pmm, mem, [], Written) == World(h, map[]) by { StartReaches(pmm, mem, Written); }
    ReachedInv(pmm, mem, [], Written);
    InvBooks(h, map[], InUse(pmm, mem));
    ExampleScan(k, n);
    LastPageInUse(k);
    TakesPages(h, size, n, 13);
    PointerRoundTrip(b);
    CoversReserved(Malloc(h, size, Written).0, map[b := size], InUse(pmm, mem), b, n, 13 + k);
    assert map[][b := size] == map[b := size];
    assert !KeepsAfter(pmm, mem, [], size, Written);
  }

  lemma ManyBounds(total: nat, n: nat, k: nat)
    requires PAGE < total <= WORD_LIMIT - PAGE && n == (total + PAGE - 1) / PAGE && k == (n - 1) / PAGE_SIZE + 1
    ensures 2 <= n && 1 <= k < n && (14 + k) * PAGE_SIZE <= WORD_LIMIT
  {
  }

  /** Somebody else uses the last page of the example. */
  lemma LastPageInUse(k: nat)
    requires (14 + k) * PAGE_SIZE <= WORD_LIMIT
    ensures Boots(ExampleState(0, k), ExampleMemory(k)) && 13 + k in InUse(ExampleState(0, k), ExampleMemory(k))
  {
    hide HeapInit.InitHeap, HeapInv, Wf;
    ExampleBoots(k);
    HeapInit.InitInv(ExampleState(0, k), ExampleMemory(k));
  }

  lemma ExampleScan(k: nat, n: nat)
    requires n >= 2 && k == (n - 1) / PAGE_SIZE + 1
    ensures FirstHit(ExampleBits(12, k), 14 + k, n, 0) == 13
  {
    var bits := ExampleBits(12, k);
    FirstHitIsLeast(bits, 14 + k, n, 0);
    var r := FirstHit(bits, 14 + k, n, 0);
    hide FirstHit;
    assert ScanHit(bits, 13, n);
    forall i: nat | i < 13 ensures !ScanHit(bits, i, n) { assert bits[i]; }
  }

  // ---------------------------------------------------------------- refused requests

  /** A memory map with every page used once the caches exist, and a byte of somebody else's page 1. */
  function FullMemory(): (mem: seq<Byte>)
  {
    ZeroBytes(15 * PAGE_SIZE)[PAGE_SIZE := 1]
  }

  /** Creating a cache leaves the bytes of used pages alone. */
  lemma CreateOnlyFree(pmm: State, mem: seq<Byte>, c: nat, x: nat)
    requires c < CLASSES && Wf(pmm) && HeapInit.CreateCache(pmm, mem, c).3 && pmm.pages * PAGE_SIZE <= |mem|
    requires x < |mem| && x / PAGE_SIZE !in FreePages(pmm)
    ensures var (pool, pmm', mem', ok) := HeapInit.CreateCache(pmm, mem, c);
            && mem'[x] == mem[x] && Wf(pmm') && pmm'.pages == pmm.pages && FreePages(pmm') <= FreePages(pmm)
            && |pool.slabs| == 1 && pool.slabs[0].page / PAGE_SIZE in FreePages(pmm)
  {
    hide HeapInit.CreateCache, Wf, ClassInv, Threaded, SlabStored, FreePages;
    var ptr, mem1 := HeapInit.CacheCreated(pmm, mem, c);
    var page := HeapInit.CreateCache(pmm, mem, c).0.slabs[0].page;
    if ptr <= x < ptr + PAGE_SIZE { SamePage(x, ptr); }
    if page <= x < page + PAGE_SIZE { SamePage(x, page); }
  }

  /** malloc_heap_init leaves the bytes of used pages alone, and puts its slabs on free pages. */
  lemma {:induction false} InitOnlyFree(pmm: State, mem: seq<Byte>, n: nat, x: nat)
    requires n <= CLASSES && Wf(pmm) && HeapInit.InitHeap(pmm, mem, n).1 && pmm.pages * PAGE_SIZE <= |mem|
    requires x < |mem| && x / PAGE_SIZE !in FreePages(pmm)
    ensures var h := HeapInit.InitHeap(pmm, mem, n).0;
            && h.mem[x] == mem[x] && Wf(h.pmm) && h.pmm.pages == pmm.pages && FreePages(h.pmm) <= FreePages(pmm) && |h.pools| == n
            && forall c: nat :: c < n ==> HasSlab(h.pools, c) && ClassPage(h.pools, c) / PAGE_SIZE in FreePages(pmm)
  {
    hide HeapInit.CreateCache, Wf, FreePages;
    if n == 0 {
      assert HeapInit.InitHeap(pmm, mem, 0) == (Heap([], pmm, mem), true);
    } else {
      var h := HeapInit.InitHeap(pmm, mem, n - 1).0;
      InitOnlyFree(pmm, mem, n - 1, x);
      CreateOnlyFree(h.pmm, h.mem, n - 1, x);
      var h1 := HeapInit.InitHeap(pmm, mem, n).0;
      forall c: nat | c < n ensures HasSlab(h1.pools, c) && ClassPage(h1.pools, c) / PAGE_SIZE in FreePages(pmm) {
        if c < n - 1 { assert HasSlab(h.pools, c) && h1.pools[c] == h.pools[c]; }
      }
    }
  }

  lemma {:induction false} FullInit(n: nat)
    requires n <= CLASSES
    ensures var (h, ok) := HeapInit.InitHeap(ExampleState(1, 1), FullMemory(), n); ok && h.pmm == ExampleState(2 * n + 1, 1)
  {
    hide HeapInit.CreateCache, ExampleState, FullMemory;
    if n == 0 {
      assert HeapInit.InitHeap(ExampleState(1, 1), FullMemory(), 0) == (Heap([], ExampleState(1, 1), FullMemory()), true);
    } else {
      FullInit(n - 1);
      FullCache(HeapInit.InitHeap(ExampleState(1, 1), FullMemory(), n - 1).0.mem, n - 1);
    }
  }

  lemma FullCache(mem: seq<Byte>, c: nat)
    requires c < CLASSES
    ensures var (pool, pmm, mem', ok) := HeapInit.CreateCache(ExampleState(2 * c + 1, 1), mem, c); pmm == ExampleState(2 * c + 3, 1) && ok
  {
    hide Capacity, ClassSize, ExampleState, Objects, Write, FirstHit, Mark, HeapCreate.CreatedBytes;
    ExampleClaim(2 * c + 1, 1);
    ExampleClaim(2 * c + 2, 1);
  }

  lemma FullBoots()
    ensures Boots(ExampleState(1, 1), FullMemory())
    ensures var h := Start(ExampleState(1, 1), FullMemory()).h;
            && h.pmm == ExampleState(13, 1) && |h.mem| == 15 * PAGE_SIZE && h.mem[PAGE_SIZE] == 1
            && !OnSlab(h.pools, PAGE_SIZE) && 1 in InUse(ExampleState(1, 1), FullMemory())
  {
    hide HeapInit.InitHeap, HeapInv;
    FullInit(CLASSES);
    InitOnlyFree(ExampleState(1, 1), FullMemory(), CLASSES, PAGE_SIZE);
    HeapInit.InitInv(ExampleState(1, 1), FullMemory());
  }

  /** With no free page the repaired scan refuses every request. */
  lemma FullRefuses(n: nat)
    requires n > 0
    ensures AllocRange(ExampleState(13, 1), n).1 == 0
  {
    hide FirstRange, FirstHit;
    var bits := ExampleBits(13, 1);
    FirstRangeIsLeast(bits, 15, n, 0);
    forall b | 0 <= b < 15 ensures !RangeFree(bits, 15, b, n) { assert bits[b]; }
  }

  /** A refused request of two pages or more wipes page 1, whoever uses it. */
  lemma RefusalWipes(size: Word)
    requires PAGE < size + METADATA <= WORD_LIMIT - PAGE
    ensures !AlwaysSafe(size, Repaired)
  {
    hide ServiceFor, HeapInv, Malloc, ExampleState, FullMemory, Boots, Start, InUse, Wf, AllocRange, OnSlab;
    ServiceIs(size);
    var n := (size + METADATA + PAGE - 1) / PAGE;
    ManyBounds(size + METADATA, n, (n - 1) / PAGE_SIZE + 1);
    var pmm, mem := ExampleState(1, 1), FullMemory();
    FullBoots();
    var h := Start(pmm, mem).h;
    assert Reaches(pmm, mem, [], Repaired) && Reached(pmm, mem, [], Repaired) == World(h, map[]) by { StartReaches(pmm, mem, Repaired); }
    ReachedInv(pmm, mem, [], Repaired);
    InvBooks(h, map[], InUse(pmm, mem));
    FullRefuses(n);
    RefusedIs(h, size, Repaired, n);
    WipedByte(h, n);
    assert !KeepsAfter(pmm, mem, [], size, Repaired);
  }

  lemma WipedByte(h: Heap, n: nat)
    requires n >= 2 && PAGE_SIZE < |h.mem|
    ensures Cleared(h, n).mem[PAGE_SIZE] == 0
  {
  }

  /** malloc keeps every reachable heap, and the pages of everybody else, safe exactly for the sizes that
      fit one page with their header, and for those whose rounding wraps to 0. Repairing the scan does
      not change that: a refused request still zeroes memory. */
  lemma SafeIff(size: Word, scan: Scan)
    ensures AlwaysSafe(size, scan) <==> size + METADATA <= PAGE || WORD_LIMIT - PAGE < size + METADATA < WORD_LIMIT
  {
    hide AlwaysSafe;
    if size + METADATA <= PAGE || WORD_LIMIT - PAGE < size + METADATA < WORD_LIMIT {
      SafeSizes(size, scan);
    } else if size + METADATA < WORD_LIMIT {
      if scan.Written? { ManyPages(size); } else { RefusalWipes(size); }
    } else {
      WrappedSize(size, scan);
    }
  }
}

/** malloc_heap_init: six caches are created one after the other, and the heap starts out well. */
module HeapInit {
  import opened Words
  import opened PmmSpec
  import opened SlabSpec
  import opened SlabRun
  import opened HeapMemory
  import opened HeapSizes
  import opened HeapSpec
  import opened HeapBooks
  import opened HeapCells
  import opened HeapSteps
  import opened HeapCreate

  /** slab_cache_create for class c: a zeroed page for the descriptor, then a slab on a second page.
      The last part of the result says whether both pages were found. */
  function CreateCache(pmm: State, mem: seq<Byte>, c: nat): (r: (Pool, State, seq<Byte>, bool))
    requires c < CLASSES
    ensures |r.2| == |mem|
  {
    var pool := Pool(ClassSize(c), Capacity(ClassSize(c)), []);
    var (pmm1, ptr) := PmmSpec.Alloc(pmm, 1);
    var mem1 := Write(mem, ptr, ZeroBytes(PAGE_SIZE));
    if ptr == 0 then (pool, pmm1, mem1, false)
    else
      var (pmm2, page) := PmmSpec.Alloc(pmm1, 1);
      if page == 0 then (pool, pmm2, Write(mem1, 0, ZeroBytes(PAGE_SIZE)), false)
      else
        (AddSlab(pool, 0, page, CREATE_FLAGS), pmm2,
         CreatedBytes(mem1, page, pool.size, pool.max, Dropped(pool.max, CREATE_FLAGS)), true)
  }

  /** Pool and allocator are those of slab_cache_create. */
  lemma CreateAgrees(pmm: State, mem: seq<Byte>, c: nat)
    requires c < CLASSES
    ensures var (pool, pmm', mem', ok) := CreateCache(pmm, mem, c);
            var (pool1, pmm1, ok1) := Create(ClassSize(c), pmm, CREATE_FLAGS);
            ok == ok1 && (ok ==> pool == pool1 && pmm' == pmm1)
  {
    hide Capacity, ClassSize, CreatedBytes, Write, Objects, FirstHit, Mark;
  }

  /** malloc_heap_init up to the n-th cache; false when a creation panics. */
  function InitHeap(pmm: State, mem: seq<Byte>, n: nat): (r: (Heap, bool))
    requires n <= CLASSES
    ensures |r.0.mem| == |mem|
  {
    if n == 0 then (Heap([], pmm, mem), true)
    else
      var (h, ok) := InitHeap(pmm, mem, n - 1);
      if !ok then (h, false)
      else
        var (pool, pmm', mem', created) := CreateCache(h.pmm, h.mem, n - 1);
        (Heap(h.pools + [pool], pmm', mem'), created)
  }

  /** The pages in use. */
  ghost function Used(pmm: State): (used: set<nat>)
    requires pmm.pages <= |pmm.bits|
    ensures forall p: nat :: p in used <==> p < pmm.pages && pmm.bits[p]
  {
    set p: nat | p < pmm.pages && pmm.bits[p]
  }

  /** The first caches are well, and stored in memory. */
  ghost predicate CachesInv(h: Heap)
  {
    && PoolsInv(h.pools, h.pmm) && h.pmm.pages * PAGE_SIZE <= |h.mem|
    && (forall c: nat :: c < |h.pools| ==>
          HasSlab(h.pools, c) && Threaded(h.mem, h.pools[c].slabs[0].free) && SlabStored(h.mem, h.pools[c].slabs[0]))
  }

  ghost predicate PoolsInv(pools: seq<Pool>, pmm: State)
  {
    && Wf(pmm) && |pools| <= CLASSES
    && (forall c: nat :: c < |pools| ==> ClassInv(pools[c], pmm, {}, Used(pmm), c))
    && (forall c: nat, d: nat :: c < d < |pools| ==> pools[c].slabs[0].page != pools[d].slabs[0].page)
  }

  /** One creation takes a descriptor page and a slab page that were free. */
  lemma CreateTakes(size: nat, pmm: State) returns (page: nat)
    requires size > 0 && Wf(pmm) && Create(size, pmm, CREATE_FLAGS).2
    ensures var (pool, pmm', ok) := Create(size, pmm, CREATE_FLAGS);
            && Wf(pmm') && pmm'.pages == pmm.pages
            && pool.slabs == [SlabView(page, Objects(page, size, Dropped(Capacity(size), CREATE_FLAGS), Capacity(size) - Dropped(Capacity(size), CREATE_FLAGS)))]
            && page / PAGE_SIZE in FreePages(pmm) && page % PAGE_SIZE == 0
            && FreePages(pmm') <= FreePages(pmm) - {page / PAGE_SIZE}
  {
    AllocOnePage(pmm);
    var pmm1 := PmmSpec.Alloc(pmm, 1).0;
    AllocOnePage(pmm1);
    page := PmmSpec.Alloc(pmm1, 1).1;
    hide Wf, FreePages, FirstHit, Mark;
    var pool := Pool(size, Capacity(size), []);
    assert AddSlab(pool, 0, page, CREATE_FLAGS) == Create(size, pmm, CREATE_FLAGS).0;
  }

  /** The objects of a new heap cache: all but object 0, none of them page-aligned. */
  lemma ObjectsUnaligned(page: nat, c: nat)
    requires c < CLASSES && page % PAGE_SIZE == 0
    ensures Capacity(ClassSize(c)) > 1
    ensures var s := Objects(page, ClassSize(c), 1, Capacity(ClassSize(c)) - 1);
            forall k :: 0 <= k < |s| ==> s[k] % PAGE_SIZE != 0
  {
    var size := ClassSize(c);
    var s := Objects(page, size, 1, Capacity(size) - 1);
    CapacityFits(size);
    forall k | 0 <= k < |s| ensures s[k] % PAGE_SIZE != 0 {
      hide Capacity, ClassSize;
      assert s[k] == ObjectAt(page, size, 1 + k);
      MulLe(1, 1 + k, size);
      MulLe(1 + k + 1, Capacity(size), size);
      assert size * (1 + k + 1) == size * (1 + k) + size;
      InsidePage(page, size * (1 + k));
    }
  }

  lemma InsidePage(page: nat, o: nat)
    requires page % PAGE_SIZE == 0 && 0 < o < PAGE_SIZE
    ensures (page + o) % PAGE_SIZE != 0
  {
  }

  lemma CreatedClass(pmm: State, c: nat)
    requires c < CLASSES && Wf(pmm) && Create(ClassSize(c), pmm, CREATE_FLAGS).2
    ensures var (pool, pmm', ok) := Create(ClassSize(c), pmm, CREATE_FLAGS);
            && Wf(pmm') && pmm'.pages == pmm.pages && FreePages(pmm') <= FreePages(pmm)
            && ClassInv(pool, pmm', {}, Used(pmm'), c)
            && pool.slabs[0].page / PAGE_SIZE in FreePages(pmm)
  {
    var size := ClassSize(c);
    var page := CreateTakes(size, pmm);
    var other := CreateInv(size, pmm, CREATE_FLAGS);
    ObjectsUnaligned(page, c);
    hide Capacity, ClassSize, Create, ObjectOfSome, Separate, Objects;
    var (pool, pmm', ok) := Create(size, pmm, CREATE_FLAGS);
    assert page == other;
    assert Dropped(Capacity(size), CREATE_FLAGS) == 1;
    assert TakenPage(pmm', page);
  }

  /** Where a creation puts things: the descriptor, zeroed, on the least free page, and the slab, with all of
      its objects but the first free, on the next one. */
  lemma CreatedOn(pmm: State, mem: seq<Byte>, c: nat, p: nat, q: nat)
    requires c < CLASSES && Wf(pmm) && IsLeast(p, FreePages(pmm)) && IsLeast(q, FreePages(pmm) - {p})
    ensures p < |pmm.bits| && q < |pmm.bits|
    ensures var (pool, pmm', mem', ok) := CreateCache(pmm, mem, c);
            var capacity := (4096 - 40) / ClassSize(c);
            && ok && capacity > 0 && pmm'.bits == pmm.bits[p := true][q := true]
            && pool == Pool(ClassSize(c), capacity - 1, [SlabView(4096 * q, Objects(4096 * q, ClassSize(c), 1, capacity - 1))])
            && (forall i :: 4096 * p <= i < 4096 * p + 4096 && i < |mem| ==> mem'[i] == 0)
            && (forall i :: 0 <= i < |mem| && !(4096 * p <= i < 4096 * p + 4096) && !(4096 * q <= i < 4096 * q + 4096) ==> mem'[i] == mem[i])
  {
    var (pmm1, first) := PmmSpec.Alloc(pmm, 1);
    var (pmm2, second) := PmmSpec.Alloc(pmm1, 1);
    TwoPages(pmm, p, q);
    hide Wf, FreePages, IsLeast, Objects, CreatedBytes, PmmSpec.Alloc, Write;
    var size, mem1 := ClassSize(c), Write(mem, first, ZeroBytes(PAGE_SIZE));
    CapacityOf(c);
    CreatedOnly(mem1, second, size, Capacity(size), 1);
    ZeroedOnly(mem, first);
  }

  lemma ZeroedOnly(mem: seq<Byte>, a: nat)
    ensures var m := Write(mem, a, ZeroBytes(PAGE_SIZE));
            forall i :: 0 <= i < |mem| ==> m[i] == if a <= i < a + 4096 then 0 else mem[i]
  {
  }

  lemma CapacityOf(c: nat)
    requires c < CLASSES
    ensures Capacity(ClassSize(c)) == (4096 - 40) / ClassSize(c) > 0 && Fits(ClassSize(c), Capacity(ClassSize(c)), 1)
  {
  }

  lemma TwoPages(pmm: State, p: nat, q: nat)
    requires Wf(pmm) && IsLeast(p, FreePages(pmm)) && IsLeast(q, FreePages(pmm) - {p})
    ensures 0 < p < |pmm.bits| && 0 < q < |pmm.bits| && p != q
    ensures var (pmm1, first) := PmmSpec.Alloc(pmm, 1);
            var (pmm2, second) := PmmSpec.Alloc(pmm1, 1);
            first == 4096 * p && second == 4096 * q && pmm2.bits == pmm.bits[p := true][q := true]
  {
    AllocOnePage(pmm);
    var (pmm1, first) := PmmSpec.Alloc(pmm, 1);
    AllocOnePage(pmm1);
    hide PmmSpec.Alloc, Wf;
    SameLeast(FreePages(pmm), p, first / 4096);
    SameLeast(FreePages(pmm1), q, PmmSpec.Alloc(pmm1, 1).1 / 4096);
    assert pmm.bits[0];
  }

  lemma SameLeast(s: set<nat>, p: nat, q: nat)
    requires IsLeast(p, s) && (s != {} ==> IsLeast(q, s))
    ensures p == q
  {
  }

  lemma UsedGrows(pmm: State, pmm': State)
    requires Wf(pmm) && Wf(pmm') && pmm'.pages == pmm.pages && FreePages(pmm') <= FreePages(pmm)
    ensures Used(pmm) <= Used(pmm') && KeepsReserved(pmm, pmm', Used(pmm))
  {
    forall p | p in Used(pmm) ensures p in Used(pmm') {
      assert p !in FreePages(pmm);
    }
  }

  lemma MoreReserved(pool: Pool, pmm: State, r: set<nat>, r': set<nat>, c: nat)
    requires c < CLASSES && ClassInv(pool, pmm, {}, r, c) && r <= r'
    ensures ClassInv(pool, pmm, {}, r', c)
  {
    hide PoolInv, Capacity, ClassSize;
  }

  /** A class's list and slab header lie on its own page: they survive writes to any other page. */
  lemma OtherPage(pools: seq<Pool>, pmm: State, mem: seq<Byte>, mem': seq<Byte>, c: nat, g: nat)
    requires c < CLASSES && HasSlab(pools, c) && pmm.pages <= |pmm.bits| && ClassInv(pools[c], pmm, {}, Used(pmm), c)
    requires Threaded(mem, pools[c].slabs[0].free) && SlabStored(mem, pools[c].slabs[0])
    requires OnlyChanges(mem, mem', g, PAGE_SIZE) && g % PAGE_SIZE == 0 && g / PAGE_SIZE != ClassPage(pools, c) / PAGE_SIZE
    ensures Threaded(mem', pools[c].slabs[0].free) && SlabStored(mem', pools[c].slabs[0])
  {
    hide ClassInv, Threaded, SlabStored, SameBytes, OnlyChanges, ObjectOf, ClassSize, Used;
    var free, page := pools[c].slabs[0].free, ClassPage(pools, c);
    SingleSlab(pools[c], pmm, {}, Used(pmm), c);
    forall k: nat | k < |free| ensures SameBytes(mem, mem', free[k], 8) {
      ObjectPlace(pools, pmm, {}, Used(pmm), c, free[k]);
      PageGap(free[k], g, 8, PAGE_SIZE, page, g);
      EntryBound(mem, free, k);
      OutsideKept(mem, mem', g, PAGE_SIZE, free[k], 8);
    }
    ThreadedKept(mem, mem', free);
    PageGap(HeaderOf(page), g, HEADER_SIZE, PAGE_SIZE, page, g);
    SlabBound(mem, pools[c].slabs[0]);
    OutsideKept(mem, mem', g, PAGE_SIZE, HeaderOf(page), HEADER_SIZE);
    SlabStoredKept(mem, mem', pools[c].slabs[0]);
  }

  lemma EntryBound(mem: seq<Byte>, free: seq<nat>, k: nat)
    requires Threaded(mem, free) && k < |free|
    ensures free[k] + 8 <= |mem|
  {
    hide Bytes;
    assert Holds(mem, free[k], Bytes(At(free, k + 1), 8));
  }

  lemma SlabBound(mem: seq<Byte>, slab: SlabView)
    requires SlabStored(mem, slab)
    ensures HeaderOf(slab.page) + HEADER_SIZE <= |mem|
  {
    hide Bytes, Holds;
  }

  /** What one creation does: pages ptr and page were free, and only they change. */
  lemma CacheCreated(pmm: State, mem: seq<Byte>, c: nat) returns (ptr: nat, mem1: seq<Byte>)
    requires c < CLASSES && Wf(pmm) && CreateCache(pmm, mem, c).3 && pmm.pages * PAGE_SIZE <= |mem|
    ensures var (pool, pmm', mem', ok) := CreateCache(pmm, mem, c);
            && Wf(pmm') && pmm'.pages == pmm.pages && FreePages(pmm') <= FreePages(pmm)
            && ClassInv(pool, pmm', {}, Used(pmm'), c) && |pool.slabs| == 1
            && ptr % PAGE_SIZE == 0 && ptr / PAGE_SIZE in FreePages(pmm) && OnlyChanges(mem, mem1, ptr, PAGE_SIZE)
            && pool.slabs[0].page % PAGE_SIZE == 0 && pool.slabs[0].page / PAGE_SIZE in FreePages(pmm)
            && OnlyChanges(mem1, mem', pool.slabs[0].page, PAGE_SIZE)
            && Threaded(mem', pool.slabs[0].free) && SlabStored(mem', pool.slabs[0])
  {
    var (pmm1, p) := PmmSpec.Alloc(pmm, 1);
    ptr, mem1 := p, Write(mem, p, ZeroBytes(PAGE_SIZE));
    AllocOnePage(pmm);
    CreateAgrees(pmm, mem, c);
    CreatedClass(pmm, c);
    CachePage(pmm, mem, c);
    hide Wf, FreePages, ClassInv, Create, Capacity, ClassSize, CreatedBytes, Write, Objects, Threaded, SlabStored, OnlyChanges, FirstHit, Mark;
    WriteOnly(mem, ptr, ZeroBytes(PAGE_SIZE), ptr, PAGE_SIZE);
  }

  /** The second page of a creation holds the slab. */
  lemma CachePage(pmm: State, mem: seq<Byte>, c: nat)
    requires c < CLASSES && Wf(pmm) && CreateCache(pmm, mem, c).3 && pmm.pages * PAGE_SIZE <= |mem|
    ensures var (pool, pmm', mem', ok) := CreateCache(pmm, mem, c);
            var mem1 := Write(mem, PmmSpec.Alloc(pmm, 1).1, ZeroBytes(PAGE_SIZE));
            && |pool.slabs| == 1 && pool.slabs[0].page % PAGE_SIZE == 0 && pool.slabs[0].page / PAGE_SIZE in FreePages(pmm)
            && OnlyChanges(mem1, mem', pool.slabs[0].page, PAGE_SIZE)
            && Threaded(mem', pool.slabs[0].free) && SlabStored(mem', pool.slabs[0])
  {
    hide Wf, Capacity, ClassSize, CreatedBytes, Write, Objects, Threaded, SlabStored, OnlyChanges, FirstHit, Mark;
    var (pmm1, ptr) := PmmSpec.Alloc(pmm, 1);
    var (pmm2, page) := PmmSpec.Alloc(pmm1, 1);
    AllocOnePage(pmm);
    AllocOnePage(pmm1);
    var size, mem1 := ClassSize(c), Write(mem, ptr, ZeroBytes(PAGE_SIZE));
    var max, d := Capacity(size), Dropped(Capacity(size), CREATE_FLAGS);
    ClassFits(c);
    PageInside(page, pmm.pages);
    CreatedIsStored(mem1, page, size, max, d);
    CreatedOnly(mem1, page, size, max, d);
    assert CreateCache(pmm, mem, c).0.slabs == [SlabView(page, Objects(page, size, d, max - d))];
  }

  lemma ClassFits(c: nat)
    requires c < CLASSES
    ensures Fits(ClassSize(c), Capacity(ClassSize(c)), Dropped(Capacity(ClassSize(c)), CREATE_FLAGS))
  {
  }

  lemma PageInside(page: nat, pages: nat)
    requires page % PAGE_SIZE == 0 && page / PAGE_SIZE < pages
    ensures page + PAGE_SIZE <= pages * PAGE_SIZE
  {
  }

  lemma {:induction false} InitKeeps(pmm: State, mem: seq<Byte>, n: nat)
    requires Wf(pmm) && n <= CLASSES && InitHeap(pmm, mem, n).1 && pmm.pages * PAGE_SIZE <= |mem|
    ensures var (h, ok) := InitHeap(pmm, mem, n);
            |h.pools| == n && CachesInv(h) && h.pmm.pages == pmm.pages
  {
    hide ClassInv, CreateCache, Wf, Threaded, SlabStored;
    if n == 0 {
      assert InitHeap(pmm, mem, 0) == (Heap([], pmm, mem), true);
    } else {
      InitKeeps(pmm, mem, n - 1);
      NextCache(InitHeap(pmm, mem, n - 1).0);
    }
  }

  /** One more cache. */
  lemma NextCache(h: Heap)
    requires CachesInv(h) && |h.pools| < CLASSES && CreateCache(h.pmm, h.mem, |h.pools|).3
    ensures var (pool, pmm', mem', ok) := CreateCache(h.pmm, h.mem, |h.pools|);
            CachesInv(Heap(h.pools + [pool], pmm', mem')) && pmm'.pages == h.pmm.pages
  {
    hide ClassInv, CreateCache, Wf, Threaded, SlabStored, OnlyChanges, FreePages;
    var n := |h.pools|;
    var (pool, pmm', mem', ok) := CreateCache(h.pmm, h.mem, n);
    var ptr, mem1 := CacheCreated(h.pmm, h.mem, n);
    AddedClass(h.pools, h.pmm, pool, pmm');
    forall c: nat | c < n ensures Threaded(mem', h.pools[c].slabs[0].free) && SlabStored(mem', h.pools[c].slabs[0]) {
      FreshPages(h.pools, h.pmm, c, ptr);
      FreshPages(h.pools, h.pmm, c, pool.slabs[0].page);
      OtherPage(h.pools, h.pmm, h.mem, mem1, c, ptr);
      OtherPage(h.pools, h.pmm, mem1, mem', c, pool.slabs[0].page);
    }
  }

  /** A free page is no class's page. */
  lemma FreshPages(pools: seq<Pool>, pmm: State, c: nat, g: nat)
    requires PoolsInv(pools, pmm) && c < |pools| && HasSlab(pools, c) && g / PAGE_SIZE in FreePages(pmm)
    ensures g / PAGE_SIZE != ClassPage(pools, c) / PAGE_SIZE && pmm.pages <= |pmm.bits|
  {
    SingleSlab(pools[c], pmm, {}, Used(pmm), c);
  }

  lemma AddedClass(pools: seq<Pool>, pmm: State, pool: Pool, pmm': State)
    requires PoolsInv(pools, pmm) && |pools| < CLASSES
    requires Wf(pmm') && pmm'.pages == pmm.pages && FreePages(pmm') <= FreePages(pmm)
    requires ClassInv(pool, pmm', {}, Used(pmm'), |pools|) && pool.slabs[0].page / PAGE_SIZE in FreePages(pmm)
    ensures PoolsInv(pools + [pool], pmm')
  {
    UsedGrows(pmm, pmm');
    forall c: nat | c < |pools|
      ensures ClassInv(pools[c], pmm', {}, Used(pmm'), c) && pools[c].slabs[0].page != pool.slabs[0].page
    {
      ClassOverPmm(pools[c], pmm, pmm', {}, Used(pmm), c);
      MoreReserved(pools[c], pmm', Used(pmm), Used(pmm'), c);
      SingleSlab(pools[c], pmm, {}, Used(pmm), c);
      hide ClassInv, Wf;
    }
    hide ClassInv, Wf;
  }

  /** After malloc_heap_init nothing is handed out, every page in use is reserved, every free list is
      threaded through the memory, and the heap's invariant holds. */
  lemma InitInv(pmm: State, mem: seq<Byte>)
    requires Wf(pmm) && InitHeap(pmm, mem, CLASSES).1 && pmm.pages * PAGE_SIZE <= |mem| <= WORD_LIMIT
    ensures var h := InitHeap(pmm, mem, CLASSES).0;
            && h.pmm.pages == pmm.pages <= |h.pmm.bits|
            && HeapInv(h, map[], Used(h.pmm))
  {
    hide InitHeap, Wf, Threaded, SlabStored, ClassInv;
    InitKeeps(pmm, mem, CLASSES);
    var h := InitHeap(pmm, mem, CLASSES).0;
    InitBits(h.pmm);
    forall c: nat | c < CLASSES ensures ClassInv(h.pools[c], h.pmm, Held(map[], c), Used(h.pmm), c) {
      assert Held(map[], c) == {};
    }
    assert Books(h.pools, h.pmm, map[], Used(h.pmm));
    Assemble(h, map[], Used(h.pmm));
  }

  lemma InitBits(pmm: State)
    requires Wf(pmm)
    ensures pmm.pages <= |pmm.bits|
  {
  }
}

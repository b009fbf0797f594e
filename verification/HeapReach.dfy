/** The heaps that the kernel can reach: malloc_heap_init, then any run of calls. */
module HeapReach {
  import opened Words
  import opened PmmSpec
  import opened SlabSpec
  import opened HeapMemory
  import opened HeapSizes
  import opened HeapSpec
  import opened HeapCreate
  import opened HeapInit
  import opened HeapRun

  /** malloc_heap_init succeeds from this page allocator and memory. */
  ghost predicate Boots(pmm: State, mem: seq<Byte>)
  {
    Wf(pmm) && pmm.pages * PAGE_SIZE <= |mem| <= WORD_LIMIT && InitHeap(pmm, mem, CLASSES).1
  }

  ghost function Start(pmm: State, mem: seq<Byte>): (w: World)
  {
    World(InitHeap(pmm, mem, CLASSES).0, map[])
  }

  /** The pages that are in use when the heap starts: those of others, and the heap's own. */
  ghost function InUse(pmm: State, mem: seq<Byte>): (r: set<nat>)
    requires Boots(pmm, mem)
  {
    InitInv(pmm, mem);
    Used(InitHeap(pmm, mem, CLASSES).0.pmm)
  }

  /** A run of calls from a start. */
  ghost predicate Reaches(pmm: State, mem: seq<Byte>, calls: seq<Call>, scan: Scan)
  {
    Boots(pmm, mem) && HeapRun.ValidRun(Start(pmm, mem), calls, scan)
  }

  ghost function Reached(pmm: State, mem: seq<Byte>, calls: seq<Call>, scan: Scan): (w: World)
  {
    Run(Start(pmm, mem), calls, scan)
  }

  /** Every reachable heap satisfies the invariant: nothing is assumed about its memory. */
  lemma ReachedInv(pmm: State, mem: seq<Byte>, calls: seq<Call>, scan: Scan)
    requires Reaches(pmm, mem, calls, scan)
    ensures Inv(Reached(pmm, mem, calls, scan), InUse(pmm, mem))
  {
    hide InitHeap, HeapInv, Run, HeapRun.ValidRun, Used, Wf;
    InitInv(pmm, mem);
    HeapRun.RunSafety(Start(pmm, mem), calls, scan, InUse(pmm, mem));
  }

  lemma ReachedBoots(pmm: State, mem: seq<Byte>, calls: seq<Call>, scan: Scan)
    requires Reaches(pmm, mem, calls, scan)
    ensures Boots(pmm, mem)
  {
  }

  lemma StartReaches(pmm: State, mem: seq<Byte>, scan: Scan)
    requires Boots(pmm, mem)
    ensures Reaches(pmm, mem, [], scan) && Reached(pmm, mem, [], scan) == Start(pmm, mem) && Start(pmm, mem).live == map[]
  {
    hide InitHeap, Boots;
  }

  /** One more call. */
  lemma OneMore(pmm: State, mem: seq<Byte>, calls: seq<Call>, c: Call, scan: Scan)
    requires Reaches(pmm, mem, calls, scan) && ValidCall(Reached(pmm, mem, calls, scan), c, scan)
    ensures Reaches(pmm, mem, calls + [c], scan)
    ensures Reached(pmm, mem, calls + [c], scan) == HeapRun.Exec(Reached(pmm, mem, calls, scan), c, scan)
  {
    hide HeapRun.Exec, ValidCall, Boots, InitHeap;
    var all := calls + [c];
    assert all[..|all| - 1] == calls && all[|all| - 1] == c;
  }

  // ---------------------------------------------------------------- an example

  /** Pages 0 to j and the last page are used; in all there are 13+k pages before the last. */
  function ExampleBits(j: nat, k: nat): (bits: seq<bool>)
  {
    seq(14 + k, i => i <= j || i == 13 + k)
  }

  function ExampleState(j: nat, k: nat): (s: State)
  {
    State(ExampleBits(j, k), 14 + k, 15 + k + j)
  }

  function ExampleMemory(k: nat): (mem: seq<Byte>)
  {
    ZeroBytes((14 + k) * PAGE_SIZE)
  }

  /** The j-th claim takes page j. */
  lemma ExampleClaim(j: nat, k: nat)
    requires j < 12 + k
    ensures PmmSpec.Alloc(ExampleState(j, k), 1) == (ExampleState(j + 1, k), (j + 1) * PAGE_SIZE)
  {
    var s := ExampleState(j, k);
    FirstHitIsLeast(s.bits, s.pages, 1, 0);
    var r := FirstHit(s.bits, s.pages, 1, 0);
    hide FirstHit;
    assert ScanHit(s.bits, j + 1, 1);
    forall i: nat | i <= j ensures !ScanHit(s.bits, i, 1) { assert s.bits[i]; }
    assert r == j + 1;
    assert Mark(s.bits, j + 1, 1, true) == ExampleBits(j + 1, k);
  }

  lemma ExampleWf(k: nat)
    ensures Wf(ExampleState(0, k))
  {
  }

  /** The page of class c's slab in the example. */
  function ExamplePage(c: nat): (page: nat)
  {
    (2 * c + 2) * PAGE_SIZE
  }

  function ExampleFree(c: nat): (s: seq<nat>)
    requires c < CLASSES
    ensures |s| > 1
  {
    ManyObjects(c);
    Objects(ExamplePage(c), ClassSize(c), 1, Capacity(ClassSize(c)) - 1)
  }

  lemma ManyObjects(c: nat)
    requires c < CLASSES
    ensures Capacity(ClassSize(c)) > 2
  {
  }

  function ExamplePool(c: nat): (p: Pool)
    requires c < CLASSES
  {
    ManyObjects(c);
    Pool(ClassSize(c), Capacity(ClassSize(c)) - 1, [SlabView(ExamplePage(c), ExampleFree(c))])
  }

  lemma ExampleCache(k: nat, mem: seq<Byte>, c: nat)
    requires c < CLASSES
    ensures var (pool, pmm, mem', ok) := CreateCache(ExampleState(2 * c, k), mem, c);
            pool == ExamplePool(c) && pmm == ExampleState(2 * c + 2, k) && ok
  {
    hide Capacity, ClassSize, ExampleState, Objects, Write, CreatedBytes, FirstHit, Mark;
    ExampleClaim(2 * c, k);
    ExampleClaim(2 * c + 1, k);
    ManyObjects(c);
    assert CreateCache(ExampleState(2 * c, k), mem, c).0.slabs == ExamplePool(c).slabs;
  }

  lemma {:induction false} ExampleInit(k: nat, n: nat)
    requires n <= CLASSES
    ensures var (h, ok) := InitHeap(ExampleState(0, k), ExampleMemory(k), n);
            ok && |h.pools| == n && h.pmm == ExampleState(2 * n, k) && forall c: nat :: c < n ==> h.pools[c] == ExamplePool(c)
  {
    hide CreateCache, ExampleState, ExamplePool, ExampleMemory;
    if n == 0 {
      assert InitHeap(ExampleState(0, k), ExampleMemory(k), 0) == (Heap([], ExampleState(0, k), ExampleMemory(k)), true);
    } else {
      ExampleInit(k, n - 1);
      ExampleCache(k, InitHeap(ExampleState(0, k), ExampleMemory(k), n - 1).0.mem, n - 1);
    }
  }

  /** The example boots when its memory is addressable, with every object of every class free. */
  lemma ExampleBoots(k: nat)
    requires (14 + k) * PAGE_SIZE <= WORD_LIMIT
    ensures Boots(ExampleState(0, k), ExampleMemory(k))
    ensures var h := Start(ExampleState(0, k), ExampleMemory(k)).h;
            |h.pools| == CLASSES && h.pmm == ExampleState(12, k) && |h.mem| == (14 + k) * PAGE_SIZE
            && forall c: nat :: c < CLASSES ==> h.pools[c] == ExamplePool(c)
  {
    hide InitHeap, ExamplePool;
    ExampleInit(k, CLASSES);
    ExampleWf(k);
    hide Wf;
  }

  /** Object i+1 of class c's page is entry i of the list, and lies inside the page. */
  lemma ExampleSlot(c: nat, i: nat)
    requires c < CLASSES && i < |ExampleFree(c)|
    ensures ExampleFree(c)[i] == ExamplePage(c) + ClassSize(c) * (i + 1)
    ensures ClassSize(c) * (i + 1) + ClassSize(c) <= PAGE_SIZE - HEADER_SIZE && ClassSize(c) >= 16
  {
    var size := ClassSize(c);
    assert ExampleFree(c)[i] == ObjectAt(ExamplePage(c), size, 1 + i);
    CapacityFits(size);
    SlotBound(size, Capacity(size), i);
  }

  lemma SlotBound(size: nat, capacity: nat, i: nat)
    requires i + 2 <= capacity && size * capacity <= PAGE_SIZE - HEADER_SIZE
    ensures size * (i + 1) + size <= PAGE_SIZE - HEADER_SIZE
  {
    MulLe(i + 2, capacity, size);
    assert size * (i + 2) == size * (i + 1) + size;
  }
}

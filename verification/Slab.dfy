/** slab.c: a cache whose slabs are linked headers and whose free objects are chained in place. Every
    method is tied to the function of SlabSpec that the run lemmas reason about. */
module Slabs {
  import opened Words
  import PmmSpec
  import opened Pmms
  import opened SlabSpec
  import opened SlabMemory
  import SlabRun
  import SlabReap

  /** is_power_of_two. */
  predicate IsPowerOfTwo(n: nat)
  {
    n > 0 && BitAnd(n, n - 1) == 0
  }

  /** n is 2^k for some k. */
  ghost predicate IsSomePow2(n: nat)
  {
    exists k: nat :: n == Pow2(k)
  }

  /** The bit trick is right: it accepts exactly the powers of two. */
  lemma {:induction false} PowerOfTwoTest(n: nat)
    ensures IsPowerOfTwo(n) <==> IsSomePow2(n)
    decreases n
  {
    var m := n / 2;
    if n == 0 {
      forall k: nat ensures n != Pow2(k) { }
    } else if n % 2 == 0 {
      PowerOfTwoTest(m);
      DoublePow2(m);
      assert (n - 1) / 2 == m - 1;
      assert BitAnd(n, n - 1) == 2 * BitAnd(m, m - 1);
    } else if m == 0 {
      assert n == Pow2(m);
    } else {
      AndSelf(m);
      assert (n - 1) / 2 == m && (n - 1) % 2 == 0;
      assert BitAnd(n, n - 1) == 2 * BitAnd(m, m);
      forall k: nat ensures n != Pow2(k) { if k == 0 { assert Pow2(0) == 1; } }
    }
  }

  lemma DoublePow2(m: nat)
    requires m > 0
    ensures IsSomePow2(2 * m) <==> IsSomePow2(m)
  {
    if IsSomePow2(m) {
      var k: nat :| m == Pow2(k);
      assert 2 * m == Pow2(k + 1);
    }
    if IsSomePow2(2 * m) {
      var k: nat :| 2 * m == Pow2(k);
      assert k > 0 && m == Pow2(k - 1);
    }
  }

  lemma {:induction false} AndSelf(m: nat)
    ensures BitAnd(m, m) == m
  {
    if m != 0 {
      AndSelf(m / 2);
      assert (m % 2) * (m % 2) == m % 2;
    }
  }

  /** The assertions of slab_cache_create; a bufctl is 10 bytes. */
  predicate AcceptedSize(size: nat)
  {
    size <= 512 && size >= 10 && IsPowerOfTwo(size)
  }

  lemma AcceptedSizes(size: nat)
    ensures AcceptedSize(size) <==> size in {16, 32, 64, 128, 256, 512}
  {
    PowerOfTwoTest(size);
    assert Pow2(4) == 16 && Pow2(5) == 32 && Pow2(6) == 64 && Pow2(7) == 128 && Pow2(8) == 256 && Pow2(9) == 512;
    assert Pow2(3) == 8 && Pow2(10) == 1024;
    if AcceptedSize(size) {
      var k: nat :| size == Pow2(k);
      if k < 3 { Pow2Mono(k, 3); }
      if k > 10 { Pow2Mono(10, k); }
      assert 3 < k < 10;
    }
  }

  /** next with every word of a page cleared. */
  function ZeroPage(next: map<nat, nat>, page: nat): (r: map<nat, nat>)
    ensures forall a: nat :: page <= a < page + PmmSpec.PAGE_SIZE ==> a in r && r[a] == 0
    ensures forall a: nat :: a in next && !(page <= a < page + PmmSpec.PAGE_SIZE) ==> a in r && r[a] == next[a]
  {
    next + map a: nat | a in PmmSpec.Range(page, PmmSpec.PAGE_SIZE) :: 0
  }

  /** The 16-bit index that slab_cache_free stores, computed in 64-bit pointer arithmetic. */
  function IndexIn(pointer: nat, addr: nat, size: nat): (n: nat)
    requires size > 0
  {
    (pointer - addr) % WORD_LIMIT / size % 0x1_0000
  }

  /** Relative to its own page, the index of an object is the number of its slot. */
  lemma IndexInIs(addr: nat, size: nat, j: nat)
    requires size > 0 && size * j < PmmSpec.PAGE_SIZE
    ensures IndexIn(addr + size * j, addr, size) == j
  {
    var d := size * j;
    SmallMod(d, WORD_LIMIT);
    DivModUnique(d, size, j, 0);
    if j >= PmmSpec.PAGE_SIZE { MulMono(1, size, j); }
    SmallMod(j, 0x1_0000);
  }

  /** The index of every free object is relative to the page of the slab that lists it. */
  ghost predicate IndexedBy(index: map<nat, nat>, pool: Pool)
    requires pool.size > 0
  {
    forall i: nat, k: nat :: i < |pool.slabs| && k < |pool.slabs[i].free|
      ==> Entry(pool.slabs, i, k) in index && index[Entry(pool.slabs, i, k)] == IndexIn(Entry(pool.slabs, i, k), pool.slabs[i].page, pool.size)
  }

  lemma PoppedIndices(index: map<nat, nat>, pool: Pool, i: nat)
    requires pool.size > 0 && i < |pool.slabs| && pool.slabs[i].free != [] && IndexedBy(index, pool)
    ensures IndexedBy(index, Pop(pool, i))
  {
    hide IndexIn;
    var q := Pop(pool, i).slabs;
    forall a: nat, k: nat | a < |q| && k < |q[a].free|
      ensures Entry(q, a, k) == Entry(pool.slabs, a, if a == i then k + 1 else k)
    {
    }
  }

  lemma PushedIndices(index: map<nat, nat>, pool: Pool, i: nat, x: nat)
    requires pool.size > 0 && i < |pool.slabs| && IndexedBy(index, pool)
    requires forall j: nat, k: nat :: j < |pool.slabs| && k < |pool.slabs[j].free| ==> Entry(pool.slabs, j, k) != x
    ensures IndexedBy(index[x := IndexIn(x, pool.slabs[i].page, pool.size)], Push(pool, i, x))
  {
    hide IndexIn;
    var q := Push(pool, i, x).slabs;
    forall a: nat, k: nat | a < |q| && k < |q[a].free|
      ensures Entry(q, a, k) == if a == i && k == 0 then x else Entry(pool.slabs, a, if a == i then k - 1 else k)
    {
    }
  }

  /** A new slab after the first `keep` ones: the objects of its page were numbered, and no other. */
  lemma GrownIndices(index: map<nat, nat>, index': map<nat, nat>, pool: Pool, pmm: PmmSpec.State, live: set<nat>, pages: set<nat>,
                     keep: nat, page: nat, flags: Flags)
    requires PoolInv(pool, pmm, live, pages) && keep <= |pool.slabs| && page !in pages && page % PmmSpec.PAGE_SIZE == 0
    requires IndexedBy(index, pool)
    requires forall a: nat :: a in index && !(page <= a < page + PmmSpec.PAGE_SIZE) ==> a in index' && index'[a] == index[a]
    requires forall j: nat :: j < pool.max ==> ObjectAt(page, pool.size, j) in index' && index'[ObjectAt(page, pool.size, j)] == j
    ensures IndexedBy(index', AddSlab(pool, keep, page, flags))
  {
    hide IndexIn, Capacity, ObjectOf, PmmSpec.Wf, Separate;
    var q, d := AddSlab(pool, keep, page, flags).slabs, Dropped(pool.max, flags);
    forall i: nat, k: nat | i < |q| && k < |q[i].free|
      ensures Entry(q, i, k) in index' && index'[Entry(q, i, k)] == IndexIn(Entry(q, i, k), q[i].page, pool.size)
    {
      if i < keep {
        assert q[i] == pool.slabs[i] && Entry(q, i, k) == Entry(pool.slabs, i, k);
        OnOldPage(pool, pmm, live, pages, i, k, page);
      } else {
        assert Entry(q, i, k) == ObjectAt(page, pool.size, d + k);
        SlotInPage(pool.size, pool.max, d + k);
        IndexInIs(page, pool.size, d + k);
      }
    }
  }

  /** Slot j lies inside the page and differs from the earlier ones. */
  lemma OtherSlots(page: nat, size: nat, max: nat, j: nat)
    requires size > 0 && max <= Capacity(size) && j < max
    ensures page <= ObjectAt(page, size, j) < page + PmmSpec.PAGE_SIZE
    ensures forall k: nat :: k < j ==> ObjectAt(page, size, k) != ObjectAt(page, size, j)
  {
    SlotInPage(size, max, j);
    forall k: nat | k < j ensures ObjectAt(page, size, k) != ObjectAt(page, size, j) { SlotsApart(page, size, k, j); }
  }

  lemma SlotInPage(size: nat, max: nat, j: nat)
    requires size > 0 && max <= Capacity(size) && j < max
    ensures size * j < PmmSpec.PAGE_SIZE
  {
    CapacityFits(size);
    hide Capacity;
    MulLe(j + 1, Capacity(size), size);
    assert size * (j + 1) == size * j + size;
  }

  lemma OnOldPage(pool: Pool, pmm: PmmSpec.State, live: set<nat>, pages: set<nat>, i: nat, k: nat, page: nat)
    requires PoolInv(pool, pmm, live, pages) && page !in pages && page % PmmSpec.PAGE_SIZE == 0
    requires i < |pool.slabs| && k < |pool.slabs[i].free|
    ensures var a := Entry(pool.slabs, i, k); !(page <= a < page + PmmSpec.PAGE_SIZE)
  {
    hide ObjectOf, PmmSpec.Wf, Separate;
    var a := Entry(pool.slabs, i, k);
    assert ObjectOfSome(a, pages, pool.size);
    var g :| g in pages && ObjectOf(a, g, pool.size);
    assert TakenPage(pmm, g);
    ObjectInPage(a, g, pool.size);
    PagesApart(g, page);
  }

  lemma PlacedIndices(index: map<nat, nat>, index': map<nat, nat>, pool: Pool, pmm: PmmSpec.State, live: set<nat>, pages: set<nat>,
                      keep: nat, pmm': PmmSpec.State, page: nat, flags: Flags)
    requires PoolInv(pool, pmm, live, pages) && keep <= |pool.slabs| && (pmm', page) == PmmSpec.Alloc(pmm, 1) && page != 0
    requires pool.size > 0 && IndexedBy(index, pool)
    requires forall a: nat :: a in index && !(page <= a < page + PmmSpec.PAGE_SIZE) ==> a in index' && index'[a] == index[a]
    requires forall j: nat :: j < pool.max ==> ObjectAt(page, pool.size, j) in index' && index'[ObjectAt(page, pool.size, j)] == j
    ensures IndexedBy(index', AddSlab(pool, keep, page, flags))
  {
    hide PoolInv, IndexedBy, AddSlab, PmmSpec.Wf, PmmSpec.FreePages;
    WfOf(pool, pmm, live, pages);
    PmmSpec.AllocOnePage(pmm);
    AddSlabInv(pool, pmm, live, pages, keep, pmm', page, flags);
    GrownIndices(index, index', pool, pmm, live, pages, keep, page, flags);
  }

  lemma WfOf(pool: Pool, pmm: PmmSpec.State, live: set<nat>, pages: set<nat>)
    requires PoolInv(pool, pmm, live, pages)
    ensures PmmSpec.Wf(pmm) && pool.size > 0
  {
  }

  /** The slabs that stay keep their pages and lists. */
  lemma KeptIndices(index: map<nat, nat>, pool: Pool)
    requires pool.size > 0 && IndexedBy(index, pool)
    ensures IndexedBy(index, pool.(slabs := Kept(pool.slabs, pool.max)))
  {
    var f := SlabReap.KeptInOrder(pool.slabs, pool.max);
    hide IndexIn, Kept;
    var q := Kept(pool.slabs, pool.max);
    forall i: nat, k: nat | i < |q| && k < |q[i].free| ensures Entry(q, i, k) == Entry(pool.slabs, f[i], k) { }
  }

  /** The last element of a list, or NULL. */
  function Last(s: seq<nat>): (n: nat)
  {
    if s == [] then 0 else s[|s| - 1]
  }

  /** Appending to a chain through its tail. */
  lemma AppendChain(next: map<nat, nat>, head: nat, s: seq<nat>, x: nat)
    requires FreeChain(next, head, s) && x != 0 && x in next && next[x] == 0 && x !in s
    requires forall k, l :: 0 <= k < l < |s| ==> s[k] != s[l]
    ensures s == [] ==> FreeChain(next, x, [x])
    ensures s != [] ==> FreeChain(next[Last(s) := x], head, s + [x])
  {
  }

  /** The state of a new slab after the first j of its objects were set up. */
  ghost predicate Built(s: Slab, next: map<nat, nat>, maxNow: nat, page: nat, size: nat, max: nat, j: nat, flags: Flags)
  {
    j <= max &&
    var d := if flags.noAlign && j > 0 then 1 else 0;
    var objs := Objects(page, size, d, j - d);
    && maxNow == max - d
    && s.next == 0 && s.bufctlCount == max - d && s.bufctlAddr == page
    && s.freelist == Last(objs) && FreeChain(next, s.freelistHead, objs)
    && forall k: nat :: j <= k < max ==> ObjectAt(page, size, k) in next && next[ObjectAt(page, size, k)] == 0
  }

  lemma BuiltCounts(s: Slab, next: map<nat, nat>, maxNow: nat, page: nat, size: nat, max: nat, j: nat, flags: Flags)
    requires Built(s, next, maxNow, page, size, max, j, flags) && j < max && size > 0 && max <= Capacity(size)
    ensures s.bufctlCount > 0 && maxNow > 0
    ensures s.freelist != 0 ==> page <= s.freelist < page + PmmSpec.PAGE_SIZE
  {
    var d := if flags.noAlign && j > 0 then 1 else 0;
    if j - d > 0 {
      assert s.freelist == ObjectAt(page, size, j - 1);
      assert ObjectOf(ObjectAt(page, size, j - 1), page, size);
      ObjectInPage(s.freelist, page, size);
    }
  }

  lemma StartBuild(s: Slab, next: map<nat, nat>, max: nat, page: nat, size: nat, flags: Flags)
    requires s == Slab(0, max, page, 0, 0) && size > 0 && max <= Capacity(size)
    requires forall a: nat :: page <= a < page + PmmSpec.PAGE_SIZE ==> a in next && next[a] == 0
    ensures Built(s, next, max, page, size, max, 0, flags)
  {
    forall k: nat | k < max ensures ObjectAt(page, size, k) in next && next[ObjectAt(page, size, k)] == 0 {
      assert ObjectOf(ObjectAt(page, size, k), page, size);
      ObjectInPage(ObjectAt(page, size, k), page, size);
    }
  }

  /** Only object 0 of a page is page-aligned. */
  lemma AlignedIsFirst(page: nat, size: nat, j: nat)
    requires page % PmmSpec.PAGE_SIZE == 0 && size > 0 && j < Capacity(size)
    ensures (page + size * j) % PmmSpec.PAGE_SIZE == 0 <==> j == 0
  {
    assert ObjectOf(ObjectAt(page, size, j), page, size);
    ObjectInPage(ObjectAt(page, size, j), page, size);
    if j > 0 { MulLe(1, j, size); }
    InsidePage(page, size * j);
  }

  lemma InsidePage(page: nat, x: nat)
    requires page % PmmSpec.PAGE_SIZE == 0 && x < PmmSpec.PAGE_SIZE
    ensures (page + x) % PmmSpec.PAGE_SIZE == x
  {
  }

  /** What slab_init_bufctls does to object j of a page. */
  ghost predicate Initialises(s: Slab, next: map<nat, nat>, m: nat, s': Slab, next': map<nat, nat>, m': nat, x: nat, flags: Flags)
    requires s.bufctlCount > 0 && m > 0
  {
    if flags.noAlign && x % PmmSpec.PAGE_SIZE == 0 then
      s' == s.(bufctlCount := s.bufctlCount - 1) && m' == m - 1 && next' == next
    else
      && s' == s.(freelistHead := if s.freelist == 0 then x else s.freelistHead, freelist := x)
      && m' == m && next' == if s.freelist == 0 then next else next[s.freelist := x]
  }

  /** One more object of a new slab. */
  lemma BuildStep(s: Slab, next: map<nat, nat>, m: nat, s': Slab, next': map<nat, nat>, m': nat,
                  page: nat, size: nat, max: nat, j: nat, flags: Flags)
    requires Built(s, next, m, page, size, max, j, flags) && j < max && page > 0 && page % PmmSpec.PAGE_SIZE == 0
    requires size > 0 && max <= Capacity(size) && s.bufctlCount > 0 && m > 0
    requires Initialises(s, next, m, s', next', m', ObjectAt(page, size, j), flags)
    ensures Built(s', next', m', page, size, max, j + 1, flags)
  {
    AlignedIsFirst(page, size, j);
    hide Capacity;
    if flags.noAlign && j == 0 {
      assert Objects(page, size, 1, 0) == [] && Objects(page, size, 0, 0) == [];
    } else {
      BuildAppend(s, next, m, s', next', page, size, max, j, flags);
    }
  }

  lemma BuildAppend(s: Slab, next: map<nat, nat>, m: nat, s': Slab, next': map<nat, nat>,
                    page: nat, size: nat, max: nat, j: nat, flags: Flags)
    requires Built(s, next, m, page, size, max, j, flags) && j < max && page > 0 && size > 0
    requires !(flags.noAlign && j == 0)
    requires var x := ObjectAt(page, size, j);
             && s' == s.(freelistHead := if s.freelist == 0 then x else s.freelistHead, freelist := x)
             && next' == if s.freelist == 0 then next else next[s.freelist := x]
    ensures Built(s', next', m, page, size, max, j + 1, flags)
  {
    hide ObjectAt, Objects, FreeChain;
    var d := if flags.noAlign then 1 else 0;
    BuildChain(s, next, s', next', page, size, d, j);
    forall k: nat | j + 1 <= k < max ensures ObjectAt(page, size, k) in next' && next'[ObjectAt(page, size, k)] == 0 {
      if j - d > 0 { SlotsDiffer(page, size, j - 1, k); }
    }
  }

  lemma BuildChain(s: Slab, next: map<nat, nat>, s': Slab, next': map<nat, nat>, page: nat, size: nat, d: nat, j: nat)
    requires d <= j && page > 0 && size > 0
    requires FreeChain(next, s.freelistHead, Objects(page, size, d, j - d)) && s.freelist == Last(Objects(page, size, d, j - d))
    requires ObjectAt(page, size, j) in next && next[ObjectAt(page, size, j)] == 0
    requires var x := ObjectAt(page, size, j);
             && s' == s.(freelistHead := if s.freelist == 0 then x else s.freelistHead, freelist := x)
             && next' == if s.freelist == 0 then next else next[s.freelist := x]
    ensures FreeChain(next', s'.freelistHead, Objects(page, size, d, j + 1 - d)) && s'.freelist == Last(Objects(page, size, d, j + 1 - d))
    ensures s.freelist != 0 <==> j - d > 0
  {
    hide ObjectAt, Objects, FreeChain;
    var x := ObjectAt(page, size, j);
    var objs := Objects(page, size, d, j - d);
    assert Objects(page, size, d, j + 1 - d) == objs + [x];
    ObjectsDistinct(page, size, d, j - d);
    AppendChain(next, s.freelistHead, objs, x);
    assert objs != [] ==> Last(objs) == ObjectAt(page, size, j - 1);
    assert objs == [] ==> objs + [x] == [x];
  }

  lemma SlotsDiffer(g: nat, size: nat, j: nat, k: nat)
    requires j != k && size > 0
    ensures ObjectAt(g, size, j) != ObjectAt(g, size, k)
  {
    SlotsApart(g, size, j, k);
  }

  lemma ObjectsDistinct(page: nat, size: nat, d: nat, n: nat)
    requires size > 0
    ensures var objs := Objects(page, size, d, n);
            && (forall k, l :: 0 <= k < l < n ==> objs[k] != objs[l])
            && ObjectAt(page, size, d + n) !in objs
  {
    var objs := Objects(page, size, d, n);
    forall k | 0 <= k < n ensures objs[k] != ObjectAt(page, size, d + n) { SlotsApart(page, size, d + k, d + n); }
    forall k, l | 0 <= k < l < n ensures objs[k] != objs[l] { SlotsApart(page, size, d + k, d + l); }
  }

  /** Free objects of older slabs lie outside a fresh page. */
  lemma EntriesOutside(pool: Pool, pmm: PmmSpec.State, live: set<nat>, pages: set<nat>, page: nat, i: nat, k: nat)
    requires PoolInv(pool, pmm, live, pages) && page !in pages && page % PmmSpec.PAGE_SIZE == 0
    requires i < |pool.slabs| && k < |pool.slabs[i].free|
    ensures !(page <= Entry(pool.slabs, i, k) < page + PmmSpec.PAGE_SIZE)
  {
    hide Separate, Capacity, ObjectOf;
    var a := Entry(pool.slabs, i, k);
    assert ObjectOfSome(a, pages, pool.size);
    var g :| g in pages && ObjectOf(a, g, pool.size);
    ObjectInPage(a, g, pool.size);
    assert TakenPage(pmm, g);
    PagesApart(g, page);
  }

  /** The header and the free list of the new slab are in place: the list represents AddSlab. */
  lemma FinishSlab(pool: Pool, pmm: PmmSpec.State, live: set<nat>, pages: set<nat>, keep: nat, page: nat, flags: Flags,
                   slabAt: map<nat, Slab>, next: map<nat, nat>, head: nat,
                   slabAt': map<nat, Slab>, next': map<nat, nat>, head': nat, max': nat)
    requires PoolInv(pool, pmm, live, pages) && page !in pages && page % PmmSpec.PAGE_SIZE == 0
    requires RepList(slabAt, next, head, pool.slabs) && keep <= |pool.slabs| && (keep == 0 ==> pool.slabs == [])
    requires HeaderOf(page) in slabAt'
    requires Built(slabAt'[HeaderOf(page)], next', max', page, pool.size, pool.max, pool.max, flags)
    requires keep > 0 ==> Addr(pool.slabs, keep - 1) in slabAt
    requires slabAt' == (if keep == 0 then slabAt
                         else slabAt[Addr(pool.slabs, keep - 1) := slabAt[Addr(pool.slabs, keep - 1)].(next := HeaderOf(page))])
                        [HeaderOf(page) := slabAt'[HeaderOf(page)]]
    requires forall a: nat :: a in next && !(page <= a < page + PmmSpec.PAGE_SIZE) ==> a in next' && next'[a] == next[a]
    requires head' == if keep == 0 then HeaderOf(page) else head
    ensures max' == AddSlab(pool, keep, page, flags).max
    ensures RepList(slabAt', next', head', AddSlab(pool, keep, page, flags).slabs)
  {
    hide PoolInv, Capacity, FreeChain, Objects;
    var d := Dropped(pool.max, flags);
    var s := SlabView(page, Objects(page, pool.size, d, pool.max - d));
    PagesOfSlabs(pool, pmm, live, pages, page);
    forall i: nat, k: nat | i < |pool.slabs| && k < |pool.slabs[i].free|
      ensures Entry(pool.slabs, i, k) in next' && Entry(pool.slabs, i, k) in next && next'[Entry(pool.slabs, i, k)] == next[Entry(pool.slabs, i, k)]
    {
      EntriesOutside(pool, pmm, live, pages, page, i, k);
      EntryIsLinked(slabAt, next, head, pool.slabs, i, k);
    }
    forall i: nat | i < |pool.slabs| ensures Addr(pool.slabs, i) in slabAt && Addr(pool.slabs, i) != HeaderOf(page) {
      assert RepSlab(slabAt, next, pool.slabs, i);
    }
    LinkRep(slabAt, next, head, pool.slabs, keep, s, slabAt', next', head');
  }

  lemma NewSlabFacts(pool: Pool, pmm: PmmSpec.State, live: set<nat>, pages: set<nat>, keep: nat, pmm1: PmmSpec.State, page: nat,
                     slabAt: map<nat, Slab>, next: map<nat, nat>, head: nat)
    requires PoolInv(pool, pmm, live, pages) && keep <= |pool.slabs| && (keep == 0 ==> pool.slabs == [])
    requires (pmm1, page) == PmmSpec.Alloc(pmm, 1) && page != 0
    requires RepList(slabAt, next, head, pool.slabs)
    ensures page !in pages && page % PmmSpec.PAGE_SIZE == 0
    ensures pool.size > 0 && pool.max <= Capacity(pool.size)
    ensures keep > 0 ==> Addr(pool.slabs, keep - 1) in slabAt && Addr(pool.slabs, keep - 1) != HeaderOf(page) && Addr(pool.slabs, keep - 1) > 0
  {
    hide Separate, Capacity, ObjectOfSome;
    AddSlabInv(pool, pmm, live, pages, keep, pmm1, page, Flags(false, false, false));
    assert TakenPage(pmm1, page);
    if keep > 0 {
      assert RepSlab(slabAt, next, pool.slabs, keep - 1);
    }
  }

  lemma AddedAddr(pool: Pool, keep: nat, page: nat, flags: Flags)
    requires keep <= |pool.slabs|
    ensures Addr(AddSlab(pool, keep, page, flags).slabs, keep) == HeaderOf(page)
    ensures AddSlab(pool, keep, page, flags).size == pool.size
  {
  }

  lemma HeadAddr(slabAt: map<nat, Slab>, next: map<nat, nat>, head: nat, slabs: seq<SlabView>)
    requires RepList(slabAt, next, head, slabs)
    ensures head == Addr(slabs, 0) && (slabs == [] ==> head == 0)
  {
  }

  lemma GrowLoopStep(pool: Pool, keep: nat, pmm: PmmSpec.State, count: nat, flags: Flags)
    requires keep <= |pool.slabs| && count > 0
    ensures var (pmm1, page) := PmmSpec.Alloc(pmm, 1);
            GrowLoop(pool, keep, pmm, count, flags)
            == if page == 0 then (pool, pmm1, false) else GrowLoop(AddSlab(pool, keep, page, flags), keep + 1, pmm1, count - 1, flags)
  {
  }

  lemma AddedLength(pool: Pool, keep: nat, page: nat, flags: Flags)
    requires keep <= |pool.slabs|
    ensures |AddSlab(pool, keep, page, flags).slabs| == keep + 1
  {
  }

  lemma AddrNull(slabs: seq<SlabView>, i: nat)
    requires i <= |slabs|
    ensures Addr(slabs, i) == 0 <==> i == |slabs|
  {
  }

  /** A successful growth by one slab uses up a page. */
  lemma GrowTakesPage(pool: Pool, pmm: PmmSpec.State, flags: Flags)
    requires PmmSpec.Wf(pmm)
    ensures var (pool', pmm', ok) := SlabSpec.Grow(pool, pmm, 1, flags);
            PmmSpec.Wf(pmm') && (ok ==> |PmmSpec.FreePages(pmm')| < |PmmSpec.FreePages(pmm)|)
  {
    PmmSpec.AllocOnePage(pmm);
    var (pmm1, page) := PmmSpec.Alloc(pmm, 1);
    if page != 0 {
      assert PmmSpec.ClaimedPage(pmm, pmm1, page);
      assert page / PmmSpec.PAGE_SIZE in PmmSpec.FreePages(pmm);
    }
  }

  /** After the head of slab i's list was taken off, the list represents Pop. */
  lemma PopFields(slabAt: map<nat, Slab>, next: map<nat, nat>, head: nat, pool: Pool, i: nat)
    requires RepList(slabAt, next, head, pool.slabs) && i < |pool.slabs| && pool.slabs[i].free != []
    ensures var a := Addr(pool.slabs, i);
            && a in slabAt && slabAt[a].freelistHead in next && slabAt[a].bufctlCount > 0
            && RepList(slabAt[a := slabAt[a].(freelistHead := next[slabAt[a].freelistHead], bufctlCount := slabAt[a].bufctlCount - 1)],
                       next, head, Pop(pool, i).slabs)
  {
    AtSlab(slabAt, next, head, pool.slabs, i);
    var a := Addr(pool.slabs, i);
    PopRep(slabAt, next, head, pool, i,
           slabAt[a := slabAt[a].(freelistHead := next[slabAt[a].freelistHead], bufctlCount := slabAt[a].bufctlCount - 1)]);
  }

  lemma HeldFacts(pool: Pool, pmm: PmmSpec.State, live: set<nat>, pages: set<nat>, x: nat)
    requires PoolInv(pool, pmm, live, pages) && x in live
    ensures x != 0 && pool.size > 0
    ensures forall j: nat, k: nat :: j < |pool.slabs| && k < |pool.slabs[j].free| ==> Entry(pool.slabs, j, k) != x
  {
    hide Capacity;
    assert ObjectOfSome(x, pages, pool.size);
    var g :| g in pages && ObjectOf(x, g, pool.size);
    ObjectInPage(x, g, pool.size);
    assert TakenPage(pmm, g);
  }

  lemma LessLive(pool: Pool, pmm: PmmSpec.State, live: set<nat>, pages: set<nat>, x: nat)
    requires PoolInv(pool, pmm, live, pages)
    ensures PoolInv(pool, pmm, live - {x}, pages)
  {
  }

  lemma FiledIndices(index: map<nat, nat>, pool: Pool, pmm: PmmSpec.State, live: set<nat>, pages: set<nat>, i: nat, x: nat)
    requires PoolInv(pool, pmm, live, pages) && x in live && i < |pool.slabs| && pool.size > 0 && IndexedBy(index, pool)
    ensures IndexedBy(index[x := IndexIn(x, pool.slabs[i].page, pool.size)], Push(pool, i, x))
  {
    hide PoolInv, IndexedBy, IndexIn, Entry;
    HeldFacts(pool, pmm, live, pages, x);
    PushedIndices(index, pool, i, x);
  }

  /** After x became the head of slab i's list, the list represents Push. */
  lemma PushFields(slabAt: map<nat, Slab>, next: map<nat, nat>, head: nat, pool: Pool, i: nat, x: nat)
    requires RepList(slabAt, next, head, pool.slabs) && i < |pool.slabs| && x != 0
    requires forall j: nat, k: nat :: j < |pool.slabs| && k < |pool.slabs[j].free| ==> Entry(pool.slabs, j, k) != x
    ensures var a := Addr(pool.slabs, i);
            && a in slabAt
            && RepList(slabAt[a := slabAt[a].(freelistHead := x, bufctlCount := slabAt[a].bufctlCount + 1)],
                       next[x := slabAt[a].freelistHead], head, Push(pool, i, x).slabs)
  {
    AtSlab(slabAt, next, head, pool.slabs, i);
    var a := Addr(pool.slabs, i);
    PushRep(slabAt, next, head, pool, i, x, slabAt[a := slabAt[a].(freelistHead := x, bufctlCount := slabAt[a].bufctlCount + 1)],
            next[x := slabAt[a].freelistHead]);
  }

  // ---------------------------------------------------------------- steps of reap

  lemma ReapStart(pool: Pool, pmm: PmmSpec.State, live: set<nat>, pages: set<nat>)
    requires PoolInv(pool, pmm, live, pages)
    ensures Kept(pool.slabs[..0], pool.max) == [] && FreePagesOf(pmm, Reaped(pool.slabs[..0], pool.max)) == pmm
  {
  }

  /** What the cursor finds at slab k, and what the spec does with it. */
  lemma ReapStep(slabAt: map<nat, Slab>, next: map<nat, nat>, head: nat, s: seq<SlabView>, k: nat, max: nat)
    requires k < |s| && RepList(slabAt, next, head, Kept(s[..k], max) + s[k..])
    ensures var a := Addr(s, k);
            && a in slabAt && slabAt[a].next == Addr(s, k + 1) && slabAt[a].bufctlCount == |s[k].free|
    ensures Kept(s[..k + 1], max) == Kept(s[..k], max) + (if |s[k].free| == max then [] else [s[k]])
    ensures |s[k].free| != max ==> Kept(s[..k + 1], max) + s[k + 1..] == Kept(s[..k], max) + s[k..]
    ensures |s[k].free| != max ==> Reaped(s[..k + 1], max) == Reaped(s[..k], max)
    ensures |s[k].free| != max ==> Addr(Kept(s[..k + 1], max), |Kept(s[..k + 1], max)| - 1) == Addr(s, k)
  {
    hide RepList;
    var kept := Kept(s[..k], max);
    var t := kept + s[k..];
    assert s[..k + 1][..k] == s[..k];
    assert t[|kept|] == s[k] && (k + 1 < |s| ==> t[|kept| + 1] == s[k + 1]);
    AtSlab(slabAt, next, head, t, |kept|);
    if |s[k].free| != max {
      assert [s[k]] + s[k + 1..] == s[k..];
    }
  }

  /** Returning the page of slab k. */
  lemma ReapReturn(pool: Pool, pmm: PmmSpec.State, live: set<nat>, pages: set<nat>, k: nat)
    requires PoolInv(pool, pmm, live, pages) && k < |pool.slabs| && |pool.slabs[k].free| == pool.max
    ensures var s := FreePagesOf(pmm, Reaped(pool.slabs[..k], pool.max));
            var f := Addr(pool.slabs, k) / PmmSpec.PAGE_SIZE;
            && s.used >= 1 && f + 1 <= |s.bits| && PmmSpec.Wf(PmmSpec.Free(s, f, 1))
            && PmmSpec.Free(s, f, 1) == FreePagesOf(pmm, Reaped(pool.slabs[..k + 1], pool.max))
            && s.pages == pmm.pages
  {
    var before, max := pool.slabs[..k], pool.max;
    assert pool.slabs[..k + 1][..k] == before;
    var r := Reaped(before, max);
    var page := pool.slabs[k].page;
    assert Reaped(pool.slabs[..k + 1], max) == r + [page];
    assert (r + [page])[..|r|] == r;
    ReapedPages(pool, pmm, live, pages, k);
    SlabReap.ReapedDistinct(before, max);
    SlabReap.PagesGoBack(pmm, r);
    SlabReap.ReturnOne(pmm, FreePagesOf(pmm, r), r, page);
    HeaderInPage(page);
  }

  lemma HeaderInPage(page: nat)
    requires page % PmmSpec.PAGE_SIZE == 0
    ensures HeaderOf(page) / PmmSpec.PAGE_SIZE == page / PmmSpec.PAGE_SIZE
  {
  }

  lemma ReapedPages(pool: Pool, pmm: PmmSpec.State, live: set<nat>, pages: set<nat>, k: nat)
    requires PoolInv(pool, pmm, live, pages) && k < |pool.slabs|
    ensures var r := Reaped(pool.slabs[..k], pool.max);
            && pool.slabs[k].page !in r && TakenPage(pmm, pool.slabs[k].page) && PmmSpec.Wf(pmm)
            && (forall g :: g in r ==> TakenPage(pmm, g))
            && (forall i, j :: 0 <= i < j < k ==> pool.slabs[..k][i].page != pool.slabs[..k][j].page)
  {
    var r := Reaped(pool.slabs[..k], pool.max);
    forall g | g in r ensures TakenPage(pmm, g) && g != pool.slabs[k].page {
      SlabReap.ReapedArePages(pool.slabs[..k], pool.max, g);
      var i :| 0 <= i < k && pool.slabs[..k][i].page == g;
      assert pool.slabs[i].page == g;
    }
  }

  /** Unlinking slab k: from the head if nothing was kept before it, through prev otherwise. In the
      first case prev is the first slab of all, which is either this slab or already returned. */
  lemma ReapUnlink(slabAt: map<nat, Slab>, next: map<nat, nat>, head: nat, s: seq<SlabView>, k: nat, max: nat, prev: nat)
    requires k < |s| && RepList(slabAt, next, head, Kept(s[..k], max) + s[k..]) && |s[k].free| == max
    requires forall i: nat, j: nat :: i < j < |s| ==> s[i].page != s[j].page
    requires prev in slabAt
    requires prev == if Kept(s[..k], max) == [] then Addr(s, 0) else Addr(Kept(s[..k], max), |Kept(s[..k], max)| - 1)
    ensures head == Addr(s, k) <==> Kept(s[..k], max) == []
    ensures var slabAt' := slabAt[prev := slabAt[prev].(next := Addr(s, k + 1))];
            RepList(slabAt', next, if head == Addr(s, k) then Addr(s, k + 1) else head, Kept(s[..k + 1], max) + s[k + 1..])
  {
    ReapStep(slabAt, next, head, s, k, max);
    var kept := Kept(s[..k], max);
    assert Kept(s[..k + 1], max) == kept;
    hide Kept, RepList;
    UnlinkAfter(slabAt, next, head, kept, s, k, prev);
  }

  lemma UnlinkAfter(slabAt: map<nat, Slab>, next: map<nat, nat>, head: nat, kept: seq<SlabView>, s: seq<SlabView>, k: nat, prev: nat)
    requires k < |s| && RepList(slabAt, next, head, kept + s[k..])
    requires forall i: nat, j: nat :: i < j < |s| ==> s[i].page != s[j].page
    requires prev in slabAt && prev == if kept == [] then Addr(s, 0) else Addr(kept, |kept| - 1)
    ensures head == Addr(s, k) <==> kept == []
    ensures RepList(slabAt[prev := slabAt[prev].(next := Addr(s, k + 1))], next,
                    if head == Addr(s, k) then Addr(s, k + 1) else head, kept + s[k + 1..])
  {
    hide RepList;
    var t := kept + s[k..];
    assert Addr(t, |kept|) == Addr(s, k) && Addr(t, |kept| + 1) == Addr(s, k + 1);
    if kept == [] {
      assert t == s[k..] && t[1..] == s[k + 1..] && kept + s[k + 1..] == s[k + 1..];
      UnlinkHead(slabAt, next, head, s, k, prev);
    } else {
      assert Addr(t, |kept| - 1) == Addr(kept, |kept| - 1);
      FirstIsNot(slabAt, next, head, t, |kept|);
      Unlink(slabAt, next, head, t, |kept|, slabAt[prev := slabAt[prev].(next := Addr(s, k + 1))]);
      assert t[..|kept|] + t[|kept| + 1..] == kept + s[k + 1..];
    }
  }

  lemma FirstIsNot(slabAt: map<nat, Slab>, next: map<nat, nat>, head: nat, t: seq<SlabView>, i: nat)
    requires RepList(slabAt, next, head, t) && 0 < i < |t|
    ensures head == Addr(t, 0) != Addr(t, i)
  {
    assert t[0].page != t[i].page;
  }

  lemma UnlinkHead(slabAt: map<nat, Slab>, next: map<nat, nat>, head: nat, s: seq<SlabView>, k: nat, prev: nat)
    requires k < |s| && RepList(slabAt, next, head, s[k..]) && prev in slabAt && prev == Addr(s, 0)
    requires forall i: nat, j: nat :: i < j < |s| ==> s[i].page != s[j].page
    ensures head == Addr(s, k)
    ensures RepList(slabAt[prev := slabAt[prev].(next := Addr(s, k + 1))], next, Addr(s, k + 1), s[k + 1..])
  {
    hide RepSlab;
    var t := s[k..];
    assert t[1..] == s[k + 1..] && Addr(t, 1) == Addr(s, k + 1);
    forall i: nat | 0 < i < |t| ensures Addr(t, i) != prev { assert t[i] == s[k + i]; }
    CutHead(slabAt, next, head, t, prev, slabAt[prev := slabAt[prev].(next := Addr(s, k + 1))]);
  }

  lemma SlabsDiffer(pool: Pool, pmm: PmmSpec.State, live: set<nat>, pages: set<nat>)
    requires PoolInv(pool, pmm, live, pages)
    ensures forall i: nat, j: nat :: i < j < |pool.slabs| ==> pool.slabs[i].page != pool.slabs[j].page
  {
  }

  lemma PagesOfSlabs(pool: Pool, pmm: PmmSpec.State, live: set<nat>, pages: set<nat>, page: nat)
    requires PoolInv(pool, pmm, live, pages) && page !in pages
    ensures forall i: nat :: i < |pool.slabs| ==> pool.slabs[i].page != page
  {
  }

  lemma EntryIsLinked(slabAt: map<nat, Slab>, next: map<nat, nat>, head: nat, slabs: seq<SlabView>, i: nat, k: nat)
    requires RepList(slabAt, next, head, slabs) && i < |slabs| && k < |slabs[i].free|
    ensures Entry(slabs, i, k) in next && Entry(slabs, i, k) != 0
  {
    assert RepSlab(slabAt, next, slabs, i);
    assert Entry(slabs, i, k) == slabs[i].free[k];
  }

  class SlabCache {
    const pmm: Pmm
    var slabSize: nat
    var bufctlCountMax: nat
    var slabsHead: nat
    /** The cursor that every operation moves along the list. */
    var slabs: nat
    var slabAt: map<nat, Slab>
    var next: map<nat, nat>
    var index: map<nat, nat>

    /** The abstract cache, the objects that callers hold, and the pages ever taken. */
    ghost var pool: Pool
    ghost var live: set<nat>
    ghost var pages: set<nat>

    ghost predicate Linked()
      reads this
    {
      slabSize == pool.size && bufctlCountMax == pool.max && RepList(slabAt, next, slabsHead, pool.slabs)
    }

    ghost predicate Valid()
      reads this, pmm, pmm.bitmap.bytes
    {
      pmm.Valid() && Linked() && PoolInv(pool, pmm.St(), live, pages)
    }

    /** Every free object carries its index. */
    ghost predicate Indexed()
      reads this
    {
      pool.size > 0 && IndexedBy(index, pool)
    }

    /** A cache without slabs, as slab_cache_create fills in its descriptor. */
    constructor (pmm: Pmm, size: nat)
      requires pmm.Valid() && size > 0
      ensures Valid() && Indexed() && this.pmm == pmm && live == {} && pages == {}
      ensures pool == Pool(size, Capacity(size), [])
    {
      this.pmm := pmm;
      slabSize := size;
      bufctlCountMax := (PmmSpec.PAGE_SIZE - HEADER_SIZE) / size;
      slabsHead, slabs := 0, 0;
      slabAt, next, index := map[], map[], map[];
      pool, live, pages := Pool(size, Capacity(size), []), {}, {};
    }

    /** slab_create_slab: a header at the end of the page, linked after the cursor. */
    method CreateSlab(bufctl: nat)
      requires slabs != 0 ==> slabs in slabAt
      requires HeaderOf(bufctl) != slabs
      modifies this`slabAt, this`slabsHead, this`slabs
      ensures slabs == HeaderOf(bufctl)
      ensures slabsHead == if old(slabs) == 0 then slabs else old(slabsHead)
      ensures slabAt == (if old(slabs) == 0 then old(slabAt) else old(slabAt)[old(slabs) := old(slabAt)[old(slabs)].(next := slabs)])
                        [slabs := Slab(0, bufctlCountMax, bufctl, 0, 0)]
    {
      var slab := bufctl + PmmSpec.PAGE_SIZE - HEADER_SIZE;
      slabAt := slabAt[slab := Slab(0, bufctlCountMax, bufctl, 0, 0)];
      if slabs == 0 {
        slabsHead := slab;
        slabs := slab;
      } else {
        slabAt := slabAt[slabs := slabAt[slabs].(next := slab)];
        slabs := slabAt[slabs].next;
      }
    }

    /** slab_init_bufctls. */
    method InitBufctl(bufctl: nat, i: nat, flags: Flags)
      requires slabs in slabAt && slabAt[slabs].bufctlCount > 0 && bufctlCountMax > 0
      modifies this`slabAt, this`next, this`index, this`bufctlCountMax
      ensures slabs in slabAt && slabAt == old(slabAt)[slabs := slabAt[slabs]]
      ensures Initialises(old(slabAt[slabs]), old(next), old(bufctlCountMax), slabAt[slabs], next, bufctlCountMax,
                          ObjectAt(bufctl, slabSize, i), flags)
      ensures index == old(index)[bufctl + slabSize * i := i]
    {
      var newBufctl := bufctl + slabSize * i;
      index := index[newBufctl := i];
      var s := slabAt[slabs];
      if flags.noAlign && newBufctl % PmmSpec.PAGE_SIZE == 0 {
        slabAt := slabAt[slabs := s.(bufctlCount := s.bufctlCount - 1)];
        bufctlCountMax := bufctlCountMax - 1;
        return;
      }
      if s.freelist == 0 {
        slabAt := slabAt[slabs := s.(freelistHead := newBufctl, freelist := newBufctl)];
      } else {
        next := next[s.freelist := newBufctl];
        slabAt := slabAt[slabs := s.(freelist := next[s.freelist])];
      }
    }

    /** The loop of slab_cache_grow over the objects of one page. */
    method InitObjects(page: nat, flags: Flags)
      requires slabs in slabAt && slabAt[slabs] == Slab(0, bufctlCountMax, page, 0, 0)
      requires page > 0 && page % PmmSpec.PAGE_SIZE == 0 && slabSize > 0 && bufctlCountMax <= Capacity(slabSize)
      requires forall a: nat :: page <= a < page + PmmSpec.PAGE_SIZE ==> a in next && next[a] == 0
      modifies this`slabAt, this`next, this`index, this`bufctlCountMax
      ensures slabs in slabAt && slabAt == old(slabAt)[slabs := slabAt[slabs]]
      ensures Built(slabAt[slabs], next, bufctlCountMax, page, slabSize, old(bufctlCountMax), old(bufctlCountMax), flags)
      ensures forall a: nat :: a in old(next) && !(page <= a < page + PmmSpec.PAGE_SIZE) ==> a in next && next[a] == old(next)[a]
      ensures forall k: nat :: k < old(bufctlCountMax) ==> ObjectAt(page, slabSize, k) in index && index[ObjectAt(page, slabSize, k)] == k
      ensures forall a: nat :: a in old(index) && !(page <= a < page + PmmSpec.PAGE_SIZE) ==> a in index && index[a] == old(index)[a]
    {
      hide Capacity, FreeChain, Objects;
      var maxConst := bufctlCountMax;
      StartBuild(slabAt[slabs], next, maxConst, page, slabSize, flags);
      for j := 0 to maxConst
        invariant slabs in slabAt && slabAt == old(slabAt)[slabs := slabAt[slabs]]
        invariant Built(slabAt[slabs], next, bufctlCountMax, page, slabSize, maxConst, j, flags)
        invariant forall a: nat :: a in old(next) && !(page <= a < page + PmmSpec.PAGE_SIZE) ==> a in next && next[a] == old(next)[a]
        invariant forall k: nat :: k < j ==> ObjectAt(page, slabSize, k) in index && index[ObjectAt(page, slabSize, k)] == k
        invariant forall a: nat :: a in old(index) && !(page <= a < page + PmmSpec.PAGE_SIZE) ==> a in index && index[a] == old(index)[a]
      {
        ghost var s, n, m := slabAt[slabs], next, bufctlCountMax;
        BuiltCounts(s, n, m, page, slabSize, maxConst, j, flags);
        InitBufctl(page, j, flags);
        OtherSlots(page, slabSize, maxConst, j);
        BuildStep(s, n, m, slabAt[slabs], next, bufctlCountMax, page, slabSize, maxConst, j, flags);
      }
    }

    /** The slab on a fresh page: its header after the cursor, then its objects. */
    method PlaceSlab(ghost keep: nat, ghost st: PmmSpec.State, bufctl: nat, flags: Flags)
      requires Linked() && PoolInv(pool, st, live, pages) && keep <= |pool.slabs| && (keep == 0 ==> pool.slabs == [])
      requires slabs == if keep == 0 then 0 else Addr(pool.slabs, keep - 1)
      requires (pmm.St(), bufctl) == PmmSpec.Alloc(st, 1) && bufctl != 0
      modifies this`slabAt, this`next, this`index, this`bufctlCountMax, this`slabsHead, this`slabs
      ensures bufctlCountMax == AddSlab(pool, keep, bufctl, flags).max
      ensures RepList(slabAt, next, slabsHead, AddSlab(pool, keep, bufctl, flags).slabs)
      ensures slabs == HeaderOf(bufctl)
      ensures old(Indexed()) ==> IndexedBy(index, AddSlab(pool, keep, bufctl, flags))
    {
      hide PmmSpec.Wf, PoolInv, RepList, Built, IndexedBy, AddSlab, PmmSpec.Alloc, Addr;
      ghost var slabAt0, next0, head0 := slabAt, next, slabsHead;
      NewSlabFacts(pool, st, live, pages, keep, pmm.St(), bufctl, slabAt, next, slabsHead);
      next := ZeroPage(next, bufctl);
      CreateSlab(bufctl);
      InitObjects(bufctl, flags);
      if old(Indexed()) { PlacedIndices(old(index), index, pool, st, live, pages, keep, pmm.St(), bufctl, flags); }
      FinishSlab(pool, st, live, pages, keep, bufctl, flags, slabAt0, next0, head0, slabAt, next, slabsHead, bufctlCountMax);
    }

    /** One round of slab_cache_grow: a zeroed page becomes a slab after the cursor. */
    method GrowOne(ghost keep: nat, flags: Flags) returns (ok: bool)
      requires Valid() && keep <= |pool.slabs| && (keep == 0 ==> pool.slabs == [])
      requires slabs == if keep == 0 then 0 else Addr(pool.slabs, keep - 1)
      modifies this, pmm`usedPagesCount, pmm.bitmap.bytes
      ensures Valid() && live == old(live)
      ensures var (st, page) := PmmSpec.Alloc(old(pmm.St()), 1);
              && pmm.St() == st && ok == (page != 0)
              && pool == (if ok then AddSlab(old(pool), keep, page, flags) else old(pool))
              && pages == (if ok then old(pages) + {page} else old(pages))
      ensures slabs == if ok then Addr(pool.slabs, keep) else old(slabs)
      ensures old(Indexed()) ==> Indexed()
    {
      hide IndexedBy, PmmSpec.Wf, PoolInv, RepList, AddSlab, PmmSpec.Alloc, Addr, HeaderOf;
      PmmSpec.AllocOnePage(pmm.St());
      ghost var st, pool0 := pmm.St(), pool;
      var bufctl := pmm.Alloc(1);
      if bufctl == 0 {
        return false;
      }
      AddSlabInv(pool, st, live, pages, keep, pmm.St(), bufctl, flags);
      PlaceSlab(keep, st, bufctl, flags);
      pool := AddSlab(pool, keep, bufctl, flags);
      pages := pages + {bufctl};
      AddedAddr(pool0, keep, bufctl, flags);
      return true;
    }

    /** slab_cache_grow; false when no page was found, where the source panics or gives up. */
    method Grow(count: nat, flags: Flags) returns (ok: bool)
      requires Valid()
      modifies this, pmm`usedPagesCount, pmm.bitmap.bytes
      ensures Valid() && live == old(live)
      ensures (pool, pmm.St(), ok) == SlabSpec.Grow(old(pool), old(pmm.St()), count, flags)
      ensures old(Indexed()) ==> Indexed()
    {
      hide IndexedBy, PmmSpec.Wf, PoolInv, RepList, AddSlab, PmmSpec.Alloc, PmmSpec.FreePages;
      slabs := slabsHead;
      ghost var keep := if pool.slabs == [] then 0 else 1;
      HeadAddr(slabAt, next, slabsHead, pool.slabs);
      for i := 0 to count
        invariant Valid() && live == old(live) && (old(Indexed()) ==> Indexed())
        invariant keep <= |pool.slabs| && (keep == 0 ==> pool.slabs == [])
        invariant slabs == if keep == 0 then 0 else Addr(pool.slabs, keep - 1)
        invariant GrowLoop(pool, keep, pmm.St(), count - i, flags) == SlabSpec.Grow(old(pool), old(pmm.St()), count, flags)
      {
        ghost var pool0, st0 := pool, pmm.St();
        var found := GrowOne(keep, flags);
        GrowLoopStep(pool0, keep, st0, count - i, flags);
        if !found {
          return false;
        }
        AddedLength(pool0, keep, PmmSpec.Alloc(st0, 1).1, flags);
        keep := keep + 1;
      }
      return true;
    }

    /** slab_cache_alloc. */
    method Alloc(flags: Flags) returns (out: Outcome)
      requires Valid()
      modifies this, pmm`usedPagesCount, pmm.bitmap.bytes
      ensures Valid()
      ensures PmmSpec.Wf(old(pmm.St())) && (pool, pmm.St(), out) == SlabSpec.Alloc(old(pool), old(pmm.St()), flags)
      ensures live == if out.Object? then old(live) + {out.ptr} else old(live)
      ensures out.Object? ==> out.ptr !in old(live)
      ensures old(Indexed()) ==> Indexed()
      decreases |PmmSpec.FreePages(pmm.St())|
    {
      hide IndexedBy, PoolInv, RepList, PmmSpec.Alloc, SlabSpec.Grow, Addr;
      slabs := slabsHead;
      ghost var i := 0;
      HeadAddr(slabAt, next, slabsHead, pool.slabs);
      while true
        invariant Valid() && pool == old(pool) && live == old(live) && pmm.St() == old(pmm.St()) && index == old(index)
        invariant i <= |pool.slabs| && slabs == Addr(pool.slabs, i)
        invariant FindFree(pool.slabs, 0) == FindFree(pool.slabs, i)
        decreases |pool.slabs| - i
      {
        AddrNull(pool.slabs, i);
        if slabs == 0 && flags.autoGrow {
          PmmSpec.AllocOnePage(pmm.St());
          GrowTakesPage(pool, pmm.St(), flags);
          var ok := Grow(1, flags);
          if !ok {
            out := if flags.panic then Panic else Hang;
            return;
          }
          out := Alloc(flags);
          return;
        }
        if slabs == 0 && flags.panic {
          return Panic;
        }
        if slabs == 0 {
          return Null;
        }
        AtSlab(slabAt, next, slabsHead, pool.slabs, i);
        if slabAt[slabs].freelistHead != 0 {
          break;
        }
        slabs := slabAt[slabs].next;
        i := i + 1;
      }
      var pointer := TakeHead(i);
      return Object(pointer);
    }

    /** The head of the free list of the slab under the cursor is taken off. */
    method TakeHead(ghost i: nat) returns (pointer: nat)
      requires Valid() && i < |pool.slabs| && pool.slabs[i].free != [] && slabs == Addr(pool.slabs, i)
      modifies this
      ensures Valid() && pages == old(pages)
      ensures pointer == old(pool).slabs[i].free[0] && pool == Pop(old(pool), i)
      ensures live == old(live) + {pointer} && pointer !in old(live)
      ensures old(Indexed()) ==> Indexed()
    {
      hide IndexedBy, PoolInv, RepList, Addr;
      if Indexed() { PoppedIndices(index, pool, i); }
      AtSlab(slabAt, next, slabsHead, pool.slabs, i);
      pointer := slabAt[slabs].freelistHead;
      PopInv(pool, pmm.St(), live, pages, i);
      PopFields(slabAt, next, slabsHead, pool, i);
      slabAt := slabAt[slabs := slabAt[slabs].(freelistHead := next[pointer], bufctlCount := slabAt[slabs].bufctlCount - 1)];
      pool, live := Pop(pool, i), live + {pointer};
    }

    /** slab_cache_free of an object that a caller holds. The index that is stored is relative to the
        slab the object is filed under, as a 16-bit value. */
    method Free(pointer: nat, flags: Flags) returns (out: Outcome)
      requires Valid() && pointer in live
      modifies this
      ensures Valid()
      ensures (pool, out) == SlabSpec.Free(old(pool), pointer, flags)
      ensures live == old(live) - {pointer} && pages == old(pages)
      ensures old(Indexed()) ==> Indexed()
    {
      hide IndexedBy, PoolInv, RepList, Addr, IndexIn, Entry;
      slabs := slabsHead;
      ghost var i := 0;
      HeadAddr(slabAt, next, slabsHead, pool.slabs);
      while true
        invariant Valid() && pool == old(pool) && live == old(live) && pages == old(pages) && index == old(index)
        invariant i <= |pool.slabs| && slabs == Addr(pool.slabs, i)
        invariant FindRoom(pool.slabs, pool.max, 0) == FindRoom(pool.slabs, pool.max, i)
        decreases |pool.slabs| - i
      {
        AddrNull(pool.slabs, i);
        if slabs == 0 && flags.panic {
          LessLive(pool, pmm.St(), live, pages, pointer);
          live := live - {pointer};
          return Panic;
        }
        if slabs == 0 {
          LessLive(pool, pmm.St(), live, pages, pointer);
          live := live - {pointer};
          return Null;
        }
        AtSlab(slabAt, next, slabsHead, pool.slabs, i);
        if slabAt[slabs].bufctlCount < bufctlCountMax {
          break;
        }
        slabs := slabAt[slabs].next;
        i := i + 1;
      }
      FileUnder(i, pointer);
      return Null;
    }

    /** The object becomes the head of the free list of the slab under the cursor. */
    method FileUnder(ghost i: nat, pointer: nat)
      requires Valid() && pointer in live && i < |pool.slabs| && slabs == Addr(pool.slabs, i)
      modifies this
      ensures Valid() && pages == old(pages)
      ensures pool == Push(old(pool), i, pointer) && live == old(live) - {pointer}
      ensures old(Indexed()) ==> Indexed()
    {
      hide IndexedBy, PoolInv, RepList, Addr, IndexIn, Entry;
      if Indexed() { FiledIndices(index, pool, pmm.St(), live, pages, i, pointer); }
      HeldFacts(pool, pmm.St(), live, pages, pointer);
      AtSlab(slabAt, next, slabsHead, pool.slabs, i);
      PushInv(pool, pmm.St(), live, pages, i, pointer);
      PushFields(slabAt, next, slabsHead, pool, i, pointer);
      var s := slabAt[slabs];
      next := next[pointer := s.freelistHead];
      index := index[pointer := IndexIn(pointer, s.bufctlAddr, slabSize)];
      slabAt := slabAt[slabs := s.(freelistHead := pointer, bufctlCount := s.bufctlCount + 1)];
      pool, live := Push(pool, i, pointer), live - {pointer};
    }

    /** slab_cache_reap. Whether the result is still a valid cache depends on where freed objects
        were filed; see SlabReapUnsafe. */
    method Reap()
      requires Valid()
      modifies this, pmm`usedPagesCount, pmm.bitmap.bytes
      ensures Linked() && pmm.Valid() && live == old(live) && pages == old(pages)
      ensures (pool, pmm.St()) == SlabSpec.Reap(old(pool), old(pmm.St()))
      ensures old(Indexed()) ==> Indexed()
    {
      hide IndexedBy, PoolInv, RepList, Addr, PmmSpec.Wf, Kept, Reaped, FreePagesOf;
      ghost var s, max, st := pool.slabs, pool.max, pmm.St();
      slabs := slabsHead;
      var prev := slabsHead;
      HeadAddr(slabAt, next, slabsHead, s);
      ghost var k := 0;
      ReapStart(pool, st, live, pages);
      SlabsDiffer(pool, st, live, pages);
      if s != [] { AtSlab(slabAt, next, slabsHead, s, 0); }
      assert s[..0] == [] && s[0..] == s && Kept(s[..0], max) + s[0..] == s;
      while true
        invariant k <= |s| && slabs == Addr(s, k) && pool == old(pool) && live == old(live) && pages == old(pages) && index == old(index)
        invariant slabSize == pool.size && bufctlCountMax == max
        invariant RepList(slabAt, next, slabsHead, Kept(s[..k], max) + s[k..])
        invariant prev == if Kept(s[..k], max) == [] then Addr(s, 0) else Addr(Kept(s[..k], max), |Kept(s[..k], max)| - 1)
        invariant s != [] ==> prev in slabAt
        invariant pmm.Valid() && pmm.St() == FreePagesOf(st, Reaped(s[..k], max))
        decreases |s| - k
      {
        AddrNull(s, k);
        if slabs == 0 {
          assert s[..k] == s && Kept(s[..k], max) + s[k..] == Kept(s, max);
          Keep(s, max);
          return;
        }
        ReapStep(slabAt, next, slabsHead, s, k, max);
        if slabAt[slabs].bufctlCount == bufctlCountMax {
          ReapReturn(pool, st, live, pages, k);
          prev := Remove(s, k, max, prev);
        } else {
          prev := slabs;
          slabs := slabAt[slabs].next;
        }
        k := k + 1;
      }
    }

    /** The slabs that are left after the walk. */
    ghost method Keep(s: seq<SlabView>, max: nat)
      requires s == pool.slabs && max == pool.max
      modifies this`pool
      ensures pool == old(pool).(slabs := Kept(s, max))
      ensures old(Indexed()) ==> Indexed()
    {
      hide IndexedBy, Kept;
      if Indexed() { KeptIndices(index, pool); }
      pool := pool.(slabs := Kept(s, max));
    }

    /** The slab under the cursor is unlinked and its page returned. */
    method Remove(ghost s: seq<SlabView>, ghost k: nat, ghost max: nat, prev: nat) returns (prev': nat)
      requires k < |s| && RepList(slabAt, next, slabsHead, Kept(s[..k], max) + s[k..]) && |s[k].free| == max
      requires forall i: nat, j: nat :: i < j < |s| ==> s[i].page != s[j].page
      requires slabs == Addr(s, k) && prev in slabAt
      requires prev == if Kept(s[..k], max) == [] then Addr(s, 0) else Addr(Kept(s[..k], max), |Kept(s[..k], max)| - 1)
      requires slabs / PmmSpec.PAGE_SIZE + 1 <= |pmm.bitmap.Bits()| && 1 <= pmm.usedPagesCount
      modifies this`slabs, this`slabsHead, this`slabAt, pmm`usedPagesCount, pmm.bitmap.bytes
      ensures prev' == prev && prev in slabAt && slabs == Addr(s, k + 1)
      ensures RepList(slabAt, next, slabsHead, Kept(s[..k + 1], max) + s[k + 1..])
      ensures Kept(s[..k + 1], max) == Kept(s[..k], max)
      ensures pmm.St() == PmmSpec.Free(old(pmm.St()), Addr(s, k) / PmmSpec.PAGE_SIZE, 1)
    {
      hide RepList, Addr, Kept;
      ReapStep(slabAt, next, slabsHead, s, k, max);
      ReapUnlink(slabAt, next, slabsHead, s, k, max, prev);
      if slabs == slabsHead {
        slabsHead := slabAt[slabs].next;
      }
      slabAt := slabAt[prev := slabAt[prev].(next := slabAt[slabs].next)];
      pmm.Free(slabs, 1);
      slabs := slabAt[prev].next;
      return prev;
    }

    /** slab_cache_create: the failed assertion or the missing page panics, or yields NULL. */
    static method Create(pmm: Pmm, size: nat, flags: Flags) returns (cache: SlabCache?, panicked: bool)
      requires pmm.Valid()
      modifies pmm`usedPagesCount, pmm.bitmap.bytes
      ensures pmm.Valid()
      ensures !AcceptedSize(size) ==> panicked && pmm.St() == old(pmm.St())
      ensures AcceptedSize(size) ==>
        var (pool, st, ok) := SlabRun.Create(size, old(pmm.St()), flags);
        && pmm.St() == st
        && (panicked <==> !ok && flags.panic)
        && (cache != null ==> cache.Valid() && cache.Indexed() && cache.pmm == pmm && fresh(cache) && cache.pool == pool && cache.live == {})
        && (cache == null <==> PmmSpec.Alloc(old(pmm.St()), 1).1 == 0)
    {
      if !AcceptedSize(size) {
        return null, true;
      }
      hide IndexedBy, PmmSpec.Wf, PoolInv, RepList, PmmSpec.Alloc, SlabSpec.Grow, IsPowerOfTwo;
      PmmSpec.AllocOnePage(pmm.St());
      var page := pmm.Alloc(1);
      if page == 0 {
        return null, flags.panic;
      }
      cache := new SlabCache(pmm, size);
      var ok := cache.Grow(1, flags);
      panicked := !ok && flags.panic;
    }
  }
}

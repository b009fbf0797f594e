/** A slab cache as a function: its slabs in list order, each with its free list, and what the
    operations of slab.c do to them. */
module SlabSpec {
  import opened PmmSpec

  /** sizeof(slab_t) and sizeof(slab_cache_t). */
  const HEADER_SIZE: nat := 40

  /** bufctl_count_max of a new cache. */
  function Capacity(size: nat): (n: nat)
    requires size > 0
  {
    (PAGE_SIZE - HEADER_SIZE) / size
  }

  /** Element k of a list, or NULL. */
  function At(s: seq<nat>, k: nat): (n: nat)
  {
    if k < |s| then s[k] else 0
  }

  /** The slab header sits at the end of its page. */
  function HeaderOf(page: nat): (n: nat)
  {
    page + PAGE_SIZE - HEADER_SIZE
  }

  /** One slab: its page, and the objects on its free list from head to tail. bufctl_count is the
      length of the list. */
  datatype SlabView = SlabView(page: nat, free: seq<nat>)

  datatype Pool = Pool(size: nat, max: nat, slabs: seq<SlabView>)

  datatype Flags = Flags(panic: bool, autoGrow: bool, noAlign: bool)

  /** Hang: slab_cache_alloc calls itself for ever, because it cannot grow and may not panic. */
  datatype Outcome = Object(ptr: nat) | Null | Panic | Hang

  // ---------------------------------------------------------------- operations

  /** Objects first .. first+n-1 of a page. */
  function Objects(page: nat, size: nat, first: nat, n: nat): (s: seq<nat>)
    ensures |s| == n && forall k :: 0 <= k < n ==> s[k] == ObjectAt(page, size, first + k)
  {
    seq<nat>(n, k requires 0 <= k < n => ObjectAt(page, size, first + k))
  }

  /** SLAB_NO_ALIGN drops the page-aligned object, which is object 0. */
  function Dropped(max: nat, flags: Flags): (n: nat)
  {
    if flags.noAlign && max > 0 then 1 else 0
  }

  /** slab_create_slab and slab_init_bufctls: a new slab after the first `keep` ones; what was linked
      after them is no longer linked. Dropping an object lowers the maximum of the whole cache. */
  function AddSlab(pool: Pool, keep: nat, page: nat, flags: Flags): (r: Pool)
    requires keep <= |pool.slabs|
  {
    var d := Dropped(pool.max, flags);
    Pool(pool.size, pool.max - d, pool.slabs[..keep] + [SlabView(page, Objects(page, pool.size, d, pool.max - d))])
  }

  /** The loop of slab_cache_grow, with the cursor on slab keep-1; the last part of the result says
      whether a page was always found. */
  function GrowLoop(pool: Pool, keep: nat, pmm: State, count: nat, flags: Flags): (r: (Pool, State, bool))
    requires keep <= |pool.slabs|
    decreases count
  {
    if count == 0 then (pool, pmm, true)
    else
      var (pmm1, page) := PmmSpec.Alloc(pmm, 1);
      if page == 0 then (pool, pmm1, false)
      else GrowLoop(AddSlab(pool, keep, page, flags), keep + 1, pmm1, count - 1, flags)
  }

  /** slab_cache_grow: the cursor starts at the head, so new slabs go directly after it. */
  function Grow(pool: Pool, pmm: State, count: nat, flags: Flags): (r: (Pool, State, bool))
  {
    GrowLoop(pool, if pool.slabs == [] then 0 else 1, pmm, count, flags)
  }

  /** The first slab that has a free object, or |slabs|. */
  function FindFree(slabs: seq<SlabView>, from: nat): (i: nat)
    requires from <= |slabs|
    ensures from <= i <= |slabs|
    ensures i < |slabs| ==> slabs[i].free != []
    ensures forall k :: from <= k < i ==> slabs[k].free == []
    decreases |slabs| - from
  {
    if from == |slabs| || slabs[from].free != [] then from else FindFree(slabs, from + 1)
  }

  /** The first slab that holds fewer than max objects, or |slabs|. */
  function FindRoom(slabs: seq<SlabView>, max: nat, from: nat): (i: nat)
    requires from <= |slabs|
    ensures from <= i <= |slabs|
    ensures i < |slabs| ==> |slabs[i].free| < max
    ensures forall k :: from <= k < i ==> |slabs[k].free| >= max
    decreases |slabs| - from
  {
    if from == |slabs| || |slabs[from].free| < max then from else FindRoom(slabs, max, from + 1)
  }

  /** The head of slab i's free list is taken off. */
  function Pop(pool: Pool, i: nat): (r: Pool)
    requires i < |pool.slabs| && pool.slabs[i].free != []
  {
    pool.(slabs := pool.slabs[i := pool.slabs[i].(free := pool.slabs[i].free[1..])])
  }

  /** An object becomes the head of slab i's free list. */
  function Push(pool: Pool, i: nat, p: nat): (r: Pool)
    requires i < |pool.slabs|
  {
    pool.(slabs := pool.slabs[i := pool.slabs[i].(free := [p] + pool.slabs[i].free)])
  }

  /** slab_cache_alloc. */
  function Alloc(pool: Pool, pmm: State, flags: Flags): (r: (Pool, State, Outcome))
    requires Wf(pmm)
    decreases |FreePages(pmm)|
  {
    var i := FindFree(pool.slabs, 0);
    if i < |pool.slabs| then (Pop(pool, i), pmm, Object(pool.slabs[i].free[0]))
    else if flags.autoGrow then
      AllocOnePage(pmm);
      var (pool1, pmm1, ok) := Grow(pool, pmm, 1, flags);
      if !ok then (pool1, pmm1, if flags.panic then Panic else Hang)
      else Alloc(pool1, pmm1, flags)
    else (pool, pmm, if flags.panic then Panic else Null)
  }

  /** slab_cache_free: filed under the first slab with room, whichever page the object is on. */
  function Free(pool: Pool, p: nat, flags: Flags): (r: (Pool, Outcome))
  {
    var i := FindRoom(pool.slabs, pool.max, 0);
    if i < |pool.slabs| then (Push(pool, i, p), Null)
    else (pool, if flags.panic then Panic else Null)
  }

  /** slab_cache_reap: the slabs that stay, and the pages that go back. */
  function Kept(slabs: seq<SlabView>, max: nat): (list: seq<SlabView>)
  {
    if slabs == [] then []
    else
      var s := slabs[|slabs| - 1];
      Kept(slabs[..|slabs| - 1], max) + (if |s.free| == max then [] else [s])
  }

  function Reaped(slabs: seq<SlabView>, max: nat): (list: seq<nat>)
  {
    if slabs == [] then []
    else
      var s := slabs[|slabs| - 1];
      Reaped(slabs[..|slabs| - 1], max) + (if |s.free| == max then [s.page] else [])
  }

  function FreePagesOf(pmm: State, pages: seq<nat>): (r: State)
  {
    if pages == [] then pmm
    else
      var s := FreePagesOf(pmm, pages[..|pages| - 1]);
      if s.used == 0 then s else PmmSpec.Free(s, pages[|pages| - 1] / PAGE_SIZE, 1)
  }

  function Reap(pool: Pool, pmm: State): (r: (Pool, State))
  {
    (pool.(slabs := Kept(pool.slabs, pool.max)), FreePagesOf(pmm, Reaped(pool.slabs, pool.max)))
  }

  // ---------------------------------------------------------------- the invariant

  /** a is an object of page g. */
  predicate ObjectOf(a: nat, g: nat, size: nat)
    requires size > 0
  {
    exists j: nat :: j < Capacity(size) && a == ObjectAt(g, size, j)
  }

  function ObjectAt(g: nat, size: nat, j: nat): (a: nat)
    ensures a >= g
  {
    g + size * j
  }

  predicate ObjectOfSome(a: nat, pages: set<nat>, size: nat)
    requires size > 0
  {
    exists g :: g in pages && ObjectOf(a, g, size)
  }

  /** Page g was taken from the allocator. */
  predicate TakenPage(pmm: State, g: nat)
  {
    g > 0 && g % PAGE_SIZE == 0 && g / PAGE_SIZE < pmm.pages && g / PAGE_SIZE < |pmm.bits| && pmm.bits[g / PAGE_SIZE]
  }

  /** Entry k of the free list of slab i. */
  function Entry(slabs: seq<SlabView>, i: nat, k: nat): (n: nat)
    requires i < |slabs| && k < |slabs[i].free|
  {
    slabs[i].free[k]
  }

  /** Free lists never share or repeat an object, and no live object is on one. */
  ghost predicate Separate(slabs: seq<SlabView>, live: set<nat>)
  {
    && (forall i: nat, k: nat, j: nat, l: nat ::
          i < |slabs| && k < |slabs[i].free| && j < |slabs| && l < |slabs[j].free| && Entry(slabs, i, k) == Entry(slabs, j, l)
          ==> i == j && k == l)
    && (forall i: nat, k: nat :: i < |slabs| && k < |slabs[i].free| ==> Entry(slabs, i, k) !in live)
  }

  /** pages are all pages ever taken for slabs, linked or not. */
  ghost predicate PoolInv(pool: Pool, pmm: State, live: set<nat>, pages: set<nat>)
  {
    && Wf(pmm) && pool.size > 0 && pool.max <= Capacity(pool.size)
    && (forall g :: g in pages ==> TakenPage(pmm, g))
    && (forall i :: 0 <= i < |pool.slabs| ==> pool.slabs[i].page in pages)
    && (forall i, j :: 0 <= i < j < |pool.slabs| ==> pool.slabs[i].page != pool.slabs[j].page)
    && (forall i: nat, k: nat :: i < |pool.slabs| && k < |pool.slabs[i].free|
          ==> ObjectOfSome(Entry(pool.slabs, i, k), pages, pool.size))
    && (forall a :: a in live ==> ObjectOfSome(a, pages, pool.size))
    && Separate(pool.slabs, live)
  }

  /** Objects lie inside their page, below the slab header, and different objects do not overlap. */
  lemma ObjectsApart(pages: set<nat>, size: nat, a: nat, b: nat)
    requires size > 0 && (forall g :: g in pages ==> g % PAGE_SIZE == 0)
    requires ObjectOfSome(a, pages, size) && ObjectOfSome(b, pages, size) && a != b
    ensures a + size <= b || b + size <= a
  {
    hide Capacity;
    var g :| g in pages && ObjectOf(a, g, size);
    var h :| h in pages && ObjectOf(b, h, size);
    if g == h {
      var j: nat :| j < Capacity(size) && a == ObjectAt(g, size, j);
      var k: nat :| k < Capacity(size) && b == ObjectAt(g, size, k);
      SlotsApart(g, size, j, k);
    } else {
      ObjectInPage(a, g, size);
      ObjectInPage(b, h, size);
      PagesApart(g, h);
    }
  }

  lemma SlotsApart(g: nat, size: nat, j: nat, k: nat)
    requires j != k
    ensures ObjectAt(g, size, j) + size <= ObjectAt(g, size, k) || ObjectAt(g, size, k) + size <= ObjectAt(g, size, j)
  {
    if j < k { MulLe(j + 1, k, size); } else { MulLe(k + 1, j, size); }
  }

  lemma PagesApart(g: nat, h: nat)
    requires g % PAGE_SIZE == 0 && h % PAGE_SIZE == 0 && g != h
    ensures g + PAGE_SIZE <= h || h + PAGE_SIZE <= g
  {
  }

  lemma ObjectInPage(a: nat, g: nat, size: nat)
    requires size > 0 && ObjectOf(a, g, size)
    ensures g <= a && a + size <= g + PAGE_SIZE - HEADER_SIZE
  {
    var j: nat :| j < Capacity(size) && a == ObjectAt(g, size, j);
    CapacityFits(size);
    hide Capacity;
    MulLe(j + 1, Capacity(size), size);
    assert size * (j + 1) == size * j + size;
  }

  lemma CapacityFits(size: nat)
    requires size > 0
    ensures size * Capacity(size) <= PAGE_SIZE - HEADER_SIZE
  {
  }

  lemma MulLe(a: nat, b: nat, c: nat)
    requires a <= b
    ensures c * a <= c * b && a * c <= b * c && c * a == a * c
  {
  }

  // ---------------------------------------------------------------- what every step keeps

  lemma PopInv(pool: Pool, pmm: State, live: set<nat>, pages: set<nat>, i: nat)
    requires PoolInv(pool, pmm, live, pages) && i < |pool.slabs| && pool.slabs[i].free != []
    ensures PoolInv(Pop(pool, i), pmm, live + {pool.slabs[i].free[0]}, pages)
    ensures pool.slabs[i].free[0] !in live
  {
    var p, q := pool.slabs, Pop(pool, i).slabs;
    assert p[i].free[0] == Entry(p, i, 0);
    forall a: nat, k: nat | a < |q| && k < |q[a].free|
      ensures Entry(q, a, k) == Entry(p, a, if a == i then k + 1 else k)
    {
    }
  }

  lemma PushInv(pool: Pool, pmm: State, live: set<nat>, pages: set<nat>, i: nat, x: nat)
    requires PoolInv(pool, pmm, live, pages) && i < |pool.slabs| && x in live
    ensures PoolInv(Push(pool, i, x), pmm, live - {x}, pages)
  {
    var p, q := pool.slabs, Push(pool, i, x).slabs;
    forall a: nat, k: nat | a < |q| && k < |q[a].free|
      ensures Entry(q, a, k) == if a == i && k == 0 then x else Entry(p, a, if a == i then k - 1 else k)
    {
    }
  }

  /** A slab on a fresh page. */
  lemma AddSlabInv(pool: Pool, pmm: State, live: set<nat>, pages: set<nat>, keep: nat, pmm1: State, page: nat, flags: Flags)
    requires PoolInv(pool, pmm, live, pages) && keep <= |pool.slabs| && Wf(pmm)
    requires (pmm1, page) == PmmSpec.Alloc(pmm, 1) && page != 0
    ensures page !in pages && PoolInv(AddSlab(pool, keep, page, flags), pmm1, live, pages + {page})
  {
    hide ObjectOf, Capacity;
    AllocOnePage(pmm);
    assert ClaimedPage(pmm, pmm1, page);
    FreshPage(pmm, pmm1, page, pages);
    var q := AddSlab(pool, keep, page, flags);
    assert q.slabs[..keep] == pool.slabs[..keep];
    AddedObjects(pool, page, flags);
    forall a | a in live ensures ObjectOfSome(a, pages + {page}, pool.size) {
      var g :| g in pages && ObjectOf(a, g, pool.size);
    }
    NewEntries(pool, live, pages, keep, page, flags);
  }

  lemma FreshPage(pmm: State, pmm1: State, page: nat, pages: set<nat>)
    requires Wf(pmm) && Wf(pmm1) && ClaimedPage(pmm, pmm1, page) && pmm1.pages == pmm.pages
    requires forall g :: g in pages ==> TakenPage(pmm, g)
    ensures page !in pages && TakenPage(pmm1, page)
    ensures forall g :: g in pages ==> TakenPage(pmm1, g)
  {
    assert page / PAGE_SIZE in FreePages(pmm);
  }

  /** The objects of a new slab are objects of its page, all different. */
  lemma AddedObjects(pool: Pool, page: nat, flags: Flags)
    requires pool.size > 0 && pool.max <= Capacity(pool.size)
    ensures var d := Dropped(pool.max, flags);
            var s := Objects(page, pool.size, d, pool.max - d);
            && (forall k :: 0 <= k < |s| ==> ObjectOf(s[k], page, pool.size))
            && (forall k, l :: 0 <= k < l < |s| ==> s[k] != s[l])
  {
    hide Capacity;
    var d := Dropped(pool.max, flags);
    var s := Objects(page, pool.size, d, pool.max - d);
    forall k | 0 <= k < |s| ensures ObjectOf(s[k], page, pool.size) {
      assert s[k] == ObjectAt(page, pool.size, d + k);
    }
    forall k, l | 0 <= k < l < |s| ensures s[k] != s[l] {
      SlotsApart(page, pool.size, d + k, d + l);
    }
  }

  /** Objects of a page outside `pages` are new. */
  lemma NewObject(pages: set<nat>, page: nat, size: nat, a: nat)
    requires size > 0 && (forall g :: g in pages ==> g % PAGE_SIZE == 0) && page % PAGE_SIZE == 0
    requires page !in pages && ObjectOf(a, page, size)
    ensures !ObjectOfSome(a, pages, size)
  {
    if ObjectOfSome(a, pages, size) {
      var g :| g in pages && ObjectOf(a, g, size);
      ObjectInPage(a, g, size);
      ObjectInPage(a, page, size);
      PagesApart(g, page);
    }
  }

  lemma NewEntries(pool: Pool, live: set<nat>, pages: set<nat>, keep: nat, page: nat, flags: Flags)
    requires pool.size > 0 && pool.max <= Capacity(pool.size) && keep <= |pool.slabs|
    requires page !in pages && page % PAGE_SIZE == 0 && (forall g :: g in pages ==> g % PAGE_SIZE == 0)
    requires forall i: nat, k: nat :: i < |pool.slabs| && k < |pool.slabs[i].free|
               ==> ObjectOfSome(Entry(pool.slabs, i, k), pages, pool.size)
    requires forall a :: a in live ==> ObjectOfSome(a, pages, pool.size)
    requires Separate(pool.slabs, live)
    ensures Separate(AddSlab(pool, keep, page, flags).slabs, live)
    ensures var q := AddSlab(pool, keep, page, flags).slabs;
            forall i: nat, k: nat :: i < |q| && k < |q[i].free| ==> ObjectOfSome(Entry(q, i, k), pages + {page}, pool.size)
  {
    hide ObjectOf, Capacity;
    AddedObjects(pool, page, flags);
    var p, q := pool.slabs, AddSlab(pool, keep, page, flags).slabs;
    forall i: nat, k: nat | i < |q| && k < |q[i].free|
      ensures i < keep ==> Entry(q, i, k) == Entry(p, i, k) && ObjectOfSome(Entry(q, i, k), pages, pool.size)
      ensures i == keep ==> ObjectOf(Entry(q, i, k), page, pool.size) && !ObjectOfSome(Entry(q, i, k), pages, pool.size)
      ensures ObjectOfSome(Entry(q, i, k), pages + {page}, pool.size)
    {
      if i < keep {
        assert ObjectOfSome(Entry(p, i, k), pages, pool.size);
        var g :| g in pages && ObjectOf(Entry(p, i, k), g, pool.size);
      } else {
        NewObject(pages, page, pool.size, Entry(q, i, k));
      }
    }
  }

  // ---------------------------------------------------------------- what a call returns

  /** The objects of a page that each accepted size leaves below the slab header of 40 bytes. */
  lemma CapacityIs()
    ensures Capacity(16) == 253 && Capacity(32) == 126 && Capacity(64) == 63
    ensures Capacity(128) == 31 && Capacity(256) == 15 && Capacity(512) == 7
    ensures forall page: nat :: HeaderOf(page) == page + 4056
  {
  }

  /** With a free object somewhere, the head of the first slab that has one is taken, and nothing else
      changes. */
  lemma AllocTakesFirst(pool: Pool, pmm: State, flags: Flags, i: nat)
    requires Wf(pmm) && i < |pool.slabs| && pool.slabs[i].free != [] && forall k :: 0 <= k < i ==> pool.slabs[k].free == []
    ensures var rest := SlabView(pool.slabs[i].page, pool.slabs[i].free[1..]);
            Alloc(pool, pmm, flags) == (Pool(pool.size, pool.max, pool.slabs[i := rest]), pmm, Object(pool.slabs[i].free[0]))
  {
    hide Grow;
  }

  /** Without one, and without growing or without a page to grow, nothing changes: SLAB_PANIC panics, otherwise
      the result is NULL, or with SLAB_AUTO_GROW the call recurs for ever. */
  lemma AllocFails(pool: Pool, pmm: State, flags: Flags)
    requires Wf(pmm) && (forall k :: 0 <= k < |pool.slabs| ==> pool.slabs[k].free == []) && (flags.autoGrow ==> FreePages(pmm) == {})
    ensures Alloc(pool, pmm, flags) == (pool, pmm, if flags.panic then Panic else if flags.autoGrow then Hang else Null)
  {
    AllocOnePage(pmm);
    hide Wf, FreePages;
  }

  /** With a page to grow, the least free one becomes the second slab, or the first of an empty cache; the other slabs
      are no longer linked; the first object is returned, the second with SLAB_NO_ALIGN. */
  lemma AllocOnNewPage(pool: Pool, pmm: State, flags: Flags) returns (g: nat)
    requires Wf(pmm) && (forall k :: 0 <= k < |pool.slabs| ==> pool.slabs[k].free == []) && pool.max > 1
    requires flags.autoGrow && FreePages(pmm) != {}
    ensures IsLeast(g, FreePages(pmm)) && g < |pmm.bits|
    ensures var d := if flags.noAlign then 1 else 0;
            var (after, pmm', r) := Alloc(pool, pmm, flags);
            && r == Object(4096 * g + d * pool.size) && pmm'.bits == pmm.bits[g := true]
            && after.size == pool.size && after.max == pool.max - d
            && after.slabs == (if pool.slabs == [] then [] else [pool.slabs[0]])
                              + [SlabView(4096 * g, Objects(4096 * g, pool.size, d + 1, pool.max - d - 1))]
  {
    AllocOnePage(pmm);
    var (pmm1, page) := PmmSpec.Alloc(pmm, 1);
    assert ClaimedPage(pmm, pmm1, page);
    g := page / 4096;
    GrowOnePage(pool, pmm, flags);
    hide Wf, FreePages, ClaimedPage, IsLeast, PmmSpec.Alloc, Grow;
    var d, keep := Dropped(pool.max, flags), if pool.slabs == [] then 0 else 1;
    var grown := AddSlab(pool, keep, page, flags);
    assert grown.slabs[keep].free[0] == ObjectAt(page, pool.size, d);
    assert Objects(page, pool.size, d, pool.max - d)[1..] == Objects(page, pool.size, d + 1, pool.max - d - 1);
    AllocTakesFirst(grown, pmm1, flags, keep);
    assert d * pool.size == pool.size * d;
  }

  lemma GrowOnePage(pool: Pool, pmm: State, flags: Flags)
    requires PmmSpec.Alloc(pmm, 1).1 != 0
    ensures Grow(pool, pmm, 1, flags)
         == (AddSlab(pool, if pool.slabs == [] then 0 else 1, PmmSpec.Alloc(pmm, 1).1, flags), PmmSpec.Alloc(pmm, 1).0, true)
  {
    hide PmmSpec.Alloc, AddSlab;
  }

  /** A freed object becomes the head of the first slab that is not full. */
  lemma FreeFilesFirst(pool: Pool, p: nat, flags: Flags, i: nat)
    requires i < |pool.slabs| && |pool.slabs[i].free| < pool.max && forall k :: 0 <= k < i ==> |pool.slabs[k].free| >= pool.max
    ensures Free(pool, p, flags) == (Pool(pool.size, pool.max, pool.slabs[i := SlabView(pool.slabs[i].page, [p] + pool.slabs[i].free)]), Null)
  {
  }

  /** When all are full the object is lost, or the call panics. */
  lemma FreeFails(pool: Pool, p: nat, flags: Flags)
    requires forall k :: 0 <= k < |pool.slabs| ==> |pool.slabs[k].free| >= pool.max
    ensures Free(pool, p, flags) == (pool, if flags.panic then Panic else Null)
  {
  }
}

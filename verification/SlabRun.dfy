/** Runs of slab cache calls: what every run keeps, what holds for caches with one slab, and when
    slab_cache_reap is safe. */
module SlabRun {
  import opened PmmSpec
  import opened SlabSpec

  datatype Call =
    | AllocCall(flags: Flags)
    | FreeCall(ptr: nat, flags: Flags)
    | GrowCall(count: nat, flags: Flags)

  /** A cache, the page allocator, and the objects that callers hold. */
  datatype World = World(pool: Pool, pmm: State, live: set<nat>)

  ghost function Exec(w: World, c: Call): (r: World)
  {
    if !Wf(w.pmm) then w
    else
      match c
      case AllocCall(flags) =>
        var (pool, pmm, out) := SlabSpec.Alloc(w.pool, w.pmm, flags);
        World(pool, pmm, if out.Object? then w.live + {out.ptr} else w.live)
      case FreeCall(p, flags) =>
        World(SlabSpec.Free(w.pool, p, flags).0, w.pmm, w.live - {p})
      case GrowCall(count, flags) =>
        var (pool, pmm, ok) := Grow(w.pool, w.pmm, count, flags);
        World(pool, pmm, w.live)
  }

  ghost function Run(w: World, calls: seq<Call>): (r: World)
  {
    if calls == [] then w else Exec(Run(w, calls[..|calls| - 1]), calls[|calls| - 1])
  }

  /** Callers free only objects they hold. */
  ghost predicate ValidRun(w: World, calls: seq<Call>)
  {
    calls == [] ||
    (var before := calls[..|calls| - 1];
     ValidRun(w, before) && (calls[|calls| - 1].FreeCall? ==> calls[|calls| - 1].ptr in Run(w, before).live))
  }

  ghost predicate Inv(w: World, pages: set<nat>)
  {
    PoolInv(w.pool, w.pmm, w.live, pages)
  }

  // ---------------------------------------------------------------- every run

  lemma GrowLoopInv(w: World, pages: set<nat>, keep: nat, count: nat, flags: Flags) returns (pages': set<nat>)
    requires Inv(w, pages) && keep <= |w.pool.slabs|
    ensures var (pool, pmm, ok) := GrowLoop(w.pool, keep, w.pmm, count, flags);
            pages <= pages' && Inv(World(pool, pmm, w.live), pages')
    decreases count
  {
    pages' := pages;
    if count > 0 {
      AllocOnePage(w.pmm);
      var (pmm1, page) := PmmSpec.Alloc(w.pmm, 1);
      if page != 0 {
        AddSlabInv(w.pool, w.pmm, w.live, pages, keep, pmm1, page, flags);
        pages' := GrowLoopInv(World(AddSlab(w.pool, keep, page, flags), pmm1, w.live), pages + {page}, keep + 1, count - 1, flags);
      }
    }
  }

  /** An allocation hands out an object that nobody holds. */
  lemma AllocInv(w: World, pages: set<nat>, flags: Flags) returns (pages': set<nat>)
    requires Inv(w, pages)
    ensures var (pool, pmm, out) := SlabSpec.Alloc(w.pool, w.pmm, flags);
            && pages <= pages'
            && Inv(World(pool, pmm, if out.Object? then w.live + {out.ptr} else w.live), pages')
            && (out.Object? ==> out.ptr !in w.live)
    decreases |FreePages(w.pmm)|
  {
    pages' := pages;
    var i := FindFree(w.pool.slabs, 0);
    if i < |w.pool.slabs| {
      PopInv(w.pool, w.pmm, w.live, pages, i);
    } else if flags.autoGrow {
      AllocOnePage(w.pmm);
      var (pool1, pmm1, ok) := Grow(w.pool, w.pmm, 1, flags);
      pages' := GrowLoopInv(w, pages, if w.pool.slabs == [] then 0 else 1, 1, flags);
      if ok {
        pages' := AllocInv(World(pool1, pmm1, w.live), pages', flags);
      }
    }
  }

  lemma FreeInv(w: World, pages: set<nat>, p: nat, flags: Flags)
    requires Inv(w, pages) && p in w.live
    ensures Inv(World(SlabSpec.Free(w.pool, p, flags).0, w.pmm, w.live - {p}), pages)
  {
    var i := FindRoom(w.pool.slabs, w.pool.max, 0);
    if i < |w.pool.slabs| {
      PushInv(w.pool, w.pmm, w.live, pages, i, p);
    }
  }

  /** One call keeps the invariant. */
  lemma StepSafety(w: World, c: Call, pages: set<nat>) returns (pages': set<nat>)
    requires Inv(w, pages) && (c.FreeCall? ==> c.ptr in w.live)
    ensures pages <= pages' && Inv(Exec(w, c), pages')
  {
    match c
    case AllocCall(flags) => pages' := AllocInv(w, pages, flags);
    case FreeCall(p, flags) => FreeInv(w, pages, p, flags); pages' := pages;
    case GrowCall(count, flags) => pages' := GrowLoopInv(w, pages, if w.pool.slabs == [] then 0 else 1, count, flags);
  }

  /** Over every run of alloc, free and grow, with any number of slabs: free lists are disjoint and
      never repeat an object, no object that a caller holds is on one, and every object lies on a
      page that was taken from the allocator. */
  lemma {:induction false} RunSafety(w: World, calls: seq<Call>, pages: set<nat>) returns (pages': set<nat>)
    requires Inv(w, pages) && ValidRun(w, calls)
    ensures pages <= pages' && Inv(Run(w, calls), pages')
  {
    hide Exec, Inv;
    pages' := pages;
    if calls != [] {
      var before := calls[..|calls| - 1];
      pages' := RunSafety(w, before, pages);
      pages' := StepSafety(Run(w, before), calls[|calls| - 1], pages');
    }
  }

  /** Two objects that callers hold at the same time never overlap. */
  lemma HeldObjectsApart(w: World, calls: seq<Call>, pages: set<nat>, a: nat, b: nat)
    requires Inv(w, pages) && ValidRun(w, calls)
    requires a in Run(w, calls).live && b in Run(w, calls).live && a != b
    ensures a + Run(w, calls).pool.size <= b || b + Run(w, calls).pool.size <= a
  {
    var pages' := RunSafety(w, calls, pages);
    ObjectsApart(pages', Run(w, calls).pool.size, a, b);
  }

  // ---------------------------------------------------------------- creation

  /** slab_cache_create after its assertions: a page for the descriptor, then one slab. */
  function Create(size: nat, pmm: State, flags: Flags): (r: (Pool, State, bool))
    requires size > 0
  {
    var (pmm1, ptr) := PmmSpec.Alloc(pmm, 1);
    if ptr == 0 then (Pool(size, Capacity(size), []), pmm1, false)
    else Grow(Pool(size, Capacity(size), []), pmm1, 1, flags)
  }

  lemma CreateInv(size: nat, pmm: State, flags: Flags) returns (page: nat)
    requires size > 0 && Wf(pmm) && Create(size, pmm, flags).2
    ensures var (pool, pmm1, ok) := Create(size, pmm, flags);
            var d := Dropped(Capacity(size), flags);
            && pool == Pool(size, Capacity(size) - d, [SlabView(page, Objects(page, size, d, Capacity(size) - d))])
            && Inv(World(pool, pmm1, {}), {page})
  {
    AllocOnePage(pmm);
    var pmm1 := PmmSpec.Alloc(pmm, 1).0;
    AllocOnePage(pmm1);
    var pool := Pool(size, Capacity(size), []);
    var (pmm2, ptr) := PmmSpec.Alloc(pmm1, 1);
    page := ptr;
    assert Inv(World(pool, pmm1, {}), {});
    AddSlabInv(pool, pmm1, {}, {}, 0, pmm2, page, flags);
    assert AddSlab(pool, 0, page, flags) == Create(size, pmm, flags).0;
    assert {} + {page} == {page};
  }

  // ---------------------------------------------------------------- caches that never grow

  /** One slab: what is not on its free list is held by a caller. */
  ghost predicate Single(w: World)
  {
    |w.pool.slabs| == 1 && |w.pool.slabs[0].free| + |w.live| == w.pool.max
  }

  /** Calls that do not grow the cache, as malloc makes them. */
  predicate NoGrowth(calls: seq<Call>)
  {
    forall k :: 0 <= k < |calls| ==> !calls[k].GrowCall? && (calls[k].AllocCall? ==> !calls[k].flags.autoGrow)
  }

  /** Conservation over every run of a cache that never grows: free plus held objects is the
      maximum; so an allocation fails exactly when the maximum is held, and a free always finds
      room. */
  lemma {:induction false} SingleConserves(w: World, calls: seq<Call>, pages: set<nat>, flags: Flags)
    requires Inv(w, pages) && Single(w) && ValidRun(w, calls) && NoGrowth(calls) && !flags.autoGrow
    ensures var w' := Run(w, calls);
            && Single(w') && w'.pool.max == w.pool.max && w'.pool.slabs[0].page == w.pool.slabs[0].page
            && Inv(w', pages)
            && (SlabSpec.Alloc(w'.pool, w'.pmm, flags).2.Object? <==> |w'.live| < w'.pool.max)
            && (forall p :: p in w'.live ==> |w'.pool.slabs[0].free| < w'.pool.max)
  {
    if calls != [] {
      var before := calls[..|calls| - 1];
      SingleConserves(w, before, pages, flags);
      SingleStep(Run(w, before), calls[|calls| - 1], pages);
    }
    var w' := Run(w, calls);
    HeldIsPositive(w'.live);
  }

  lemma HeldIsPositive(live: set<nat>)
    ensures forall p :: p in live ==> |live| > 0
  {
  }

  lemma SingleStep(w: World, c: Call, pages: set<nat>)
    requires Inv(w, pages) && Single(w)
    requires !c.GrowCall? && (c.AllocCall? ==> !c.flags.autoGrow) && (c.FreeCall? ==> c.ptr in w.live)
    ensures var w' := Exec(w, c);
            Single(w') && Inv(w', pages) && w'.pool.max == w.pool.max && w'.pool.slabs[0].page == w.pool.slabs[0].page
  {
    match c
    case AllocCall(flags) =>
      if w.pool.slabs[0].free != [] {
        PopInv(w.pool, w.pmm, w.live, pages, 0);
      }
    case FreeCall(p, flags) =>
      assert |w.live| == |w.live - {p}| + 1;
      PushInv(w.pool, w.pmm, w.live, pages, 0, p);
  }

  /** Conservation from creation on: in every run of calls that do not grow a new cache, its objects
      are on its one free list or held, an allocation fails exactly when all of them are held, and a
      held object can always be freed. */
  lemma CreatedConserves(size: nat, pmm: State, create: Flags, calls: seq<Call>, flags: Flags)
    requires size > 0 && Wf(pmm) && Create(size, pmm, create).2
    requires var (pool, pmm1, ok) := Create(size, pmm, create);
             ValidRun(World(pool, pmm1, {}), calls) && NoGrowth(calls) && !flags.autoGrow
    ensures var (pool, pmm1, ok) := Create(size, pmm, create);
            var w := Run(World(pool, pmm1, {}), calls);
            var objects := Capacity(size) - Dropped(Capacity(size), create);
            && Wf(w.pmm) && |w.pool.slabs| == 1 && |w.pool.slabs[0].free| + |w.live| == objects
            && (SlabSpec.Alloc(w.pool, w.pmm, flags).2.Object? <==> |w.live| < objects)
            && (forall p :: p in w.live ==> SlabSpec.Free(w.pool, p, flags) == (Push(w.pool, 0, p), Null))
  {
    hide PoolInv, Create, Run, ValidRun, SlabSpec.Alloc;
    var page := CreateInv(size, pmm, create);
    var w := World(Create(size, pmm, create).0, Create(size, pmm, create).1, {});
    assert Single(w);
    SingleConserves(w, calls, {page}, flags);
    var w' := Run(w, calls);
    InvWf(w', {page});
    forall p | p in w'.live ensures SlabSpec.Free(w'.pool, p, flags) == (Push(w'.pool, 0, p), Null) {
      FindsRoom(w'.pool, p, flags);
    }
  }

  lemma InvWf(w: World, pages: set<nat>)
    requires Inv(w, pages)
    ensures Wf(w.pmm)
  {
  }

  lemma FindsRoom(pool: Pool, p: nat, flags: Flags)
    requires |pool.slabs| == 1 && |pool.slabs[0].free| < pool.max
    ensures SlabSpec.Free(pool, p, flags) == (Push(pool, 0, p), Null)
  {
  }
}

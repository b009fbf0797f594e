/** slab_cache_reap: what it leaves and returns, and exactly when it is safe. */
module SlabReap {
  import opened PmmSpec
  import opened SlabSpec
  import opened SlabRun

  // ---------------------------------------------------------------- what reap does

  /** f picks elements of s in order. */
  predicate Picks<T(==)>(f: seq<nat>, s: seq<T>, r: seq<T>)
  {
    && |f| == |r|
    && (forall i :: 0 <= i < |f| ==> f[i] < |s| && r[i] == s[f[i]])
    && (forall i, j :: 0 <= i < j < |f| ==> f[i] < f[j])
  }

  /** The slabs that stay are exactly those whose number of free objects differs from the cache-wide
      maximum, in their original order. */
  lemma {:induction false} KeptInOrder(slabs: seq<SlabView>, max: nat) returns (f: seq<nat>)
    ensures Picks(f, slabs, Kept(slabs, max))
    ensures forall i :: 0 <= i < |slabs| ==> (i in f <==> |slabs[i].free| != max)
  {
    if slabs == [] {
      f := [];
    } else {
      var n := |slabs| - 1;
      var g := KeptInOrder(slabs[..n], max);
      f := PickLast(slabs, max, g);
    }
  }

  lemma PickLast(slabs: seq<SlabView>, max: nat, g: seq<nat>) returns (f: seq<nat>)
    requires slabs != [] && Picks(g, slabs[..|slabs| - 1], Kept(slabs[..|slabs| - 1], max))
    requires forall i :: 0 <= i < |slabs| - 1 ==> (i in g <==> |slabs[..|slabs| - 1][i].free| != max)
    ensures Picks(f, slabs, Kept(slabs, max))
    ensures forall i :: 0 <= i < |slabs| ==> (i in f <==> |slabs[i].free| != max)
  {
    var n := |slabs| - 1;
    var before, kept := slabs[..n], Kept(slabs[..n], max);
    forall i | 0 <= i < n ensures i in g <==> |slabs[i].free| != max {
      assert before[i] == slabs[i];
    }
    if |slabs[n].free| == max {
      f := g;
      assert Kept(slabs, max) == kept;
      PickSkip(g, slabs, kept);
    } else {
      f := g + [n];
      assert Kept(slabs, max) == kept + [slabs[n]];
      PickSkip(g, slabs, kept);
      PickAppend(g, slabs, kept);
    }
  }

  lemma PickSkip<T>(g: seq<nat>, s: seq<T>, r: seq<T>)
    requires s != [] && Picks(g, s[..|s| - 1], r)
    ensures Picks(g, s, r) && (forall i :: 0 <= i < |g| ==> g[i] < |s| - 1)
  {
    forall i | 0 <= i < |g| ensures r[i] == s[g[i]] && g[i] < |s| - 1 {
      assert s[..|s| - 1][g[i]] == s[g[i]];
    }
  }

  lemma PickAppend<T>(g: seq<nat>, s: seq<T>, r: seq<T>)
    requires s != [] && Picks(g, s, r) && (forall i :: 0 <= i < |g| ==> g[i] < |s| - 1)
    ensures Picks(g + [|s| - 1], s, r + [s[|s| - 1]])
  {
  }

  /** The frame numbers of some slabs' pages. */
  function Frames(pages: seq<nat>): (r: set<nat>)
    ensures forall p :: p in r <==> exists k :: 0 <= k < |pages| && pages[k] / PAGE_SIZE == p
  {
    if pages == [] then {} else Frames(pages[..|pages| - 1]) + {pages[|pages| - 1] / PAGE_SIZE}
  }

  /** g is the page of a slab with as many free objects as the cache-wide maximum. */
  predicate PageOfFree(slabs: seq<SlabView>, max: nat, g: nat)
  {
    exists i :: 0 <= i < |slabs| && slabs[i].page == g && |slabs[i].free| == max
  }

  lemma {:induction false} ReapedArePages(slabs: seq<SlabView>, max: nat, g: nat)
    ensures g in Reaped(slabs, max) <==> PageOfFree(slabs, max, g)
  {
    if slabs != [] {
      var n := |slabs| - 1;
      ReapedArePages(slabs[..n], max, g);
      if PageOfFree(slabs, max, g) {
        var i :| 0 <= i < |slabs| && slabs[i].page == g && |slabs[i].free| == max;
        if i < n { assert slabs[..n][i] == slabs[i]; }
      }
      if PageOfFree(slabs[..n], max, g) {
        var i :| 0 <= i < n && slabs[..n][i].page == g && |slabs[..n][i].free| == max;
        assert slabs[i] == slabs[..n][i];
      }
    }
  }

  /** No value occurs twice. */
  predicate Distinct(s: seq<nat>)
  {
    forall k, l :: 0 <= k < l < |s| ==> s[k] != s[l]
  }

  lemma {:induction false} ReapedDistinct(slabs: seq<SlabView>, max: nat)
    requires forall i, j :: 0 <= i < j < |slabs| ==> slabs[i].page != slabs[j].page
    ensures Distinct(Reaped(slabs, max))
  {
    if slabs != [] {
      var n := |slabs| - 1;
      ReapedDistinct(slabs[..n], max);
      ReapedArePages(slabs[..n], max, slabs[n].page);
    }
  }

  /** Returning distinct taken pages one by one frees exactly these and keeps the balance. */
  lemma {:induction false} PagesGoBack(pmm: State, pages: seq<nat>)
    requires Wf(pmm) && Distinct(pages)
    requires forall g :: g in pages ==> TakenPage(pmm, g)
    ensures Returned(pmm, FreePagesOf(pmm, pages), Frames(pages))
  {
    if pages != [] {
      var n := |pages| - 1;
      PagesGoBack(pmm, pages[..n]);
      ReturnOne(pmm, FreePagesOf(pmm, pages[..n]), pages[..n], pages[n]);
    }
  }

  /** s is pmm with the frames given back. */
  ghost predicate Returned(pmm: State, s: State, frames: set<nat>)
  {
    && Wf(s) && s.pages == pmm.pages && |s.bits| == |pmm.bits|
    && FreePages(s) == FreePages(pmm) + frames && FreePages(pmm) !! frames
    && s.used + |FreePages(s)| == pmm.used + |FreePages(pmm)|
  }

  lemma ReturnOne(pmm: State, s: State, pages: seq<nat>, page: nat)
    requires Returned(pmm, s, Frames(pages)) && page !in pages
    requires TakenPage(pmm, page) && (forall g :: g in pages ==> TakenPage(pmm, g))
    ensures s.used > 0 && Returned(pmm, PmmSpec.Free(s, page / PAGE_SIZE, 1), Frames(pages) + {page / PAGE_SIZE})
  {
    hide Frames, Returned, Wf;
    FrameIsNew(pages, page);
    ReturnFrame(pmm, s, Frames(pages), page / PAGE_SIZE);
  }

  lemma ReturnFrame(pmm: State, s: State, frames: set<nat>, g: nat)
    requires Returned(pmm, s, frames) && g !in frames && 0 < g < pmm.pages && g < |pmm.bits| && pmm.bits[g]
    ensures s.used > 0 && Returned(pmm, PmmSpec.Free(s, g, 1), frames + {g})
  {
    assert Range(g, 1) == {g};
    assert g !in FreePages(s);
    ReleaseStep(s, g, 1);
    var u := PmmSpec.Free(s, g, 1);
    assert FreePages(u) == FreePages(pmm) + (frames + {g});
  }

  lemma FrameIsNew(pages: seq<nat>, page: nat)
    requires page !in pages && page % PAGE_SIZE == 0 && (forall g :: g in pages ==> g % PAGE_SIZE == 0)
    ensures page / PAGE_SIZE !in Frames(pages)
  {
    forall k | 0 <= k < |pages| ensures pages[k] / PAGE_SIZE != page / PAGE_SIZE {
      assert pages[k] in pages;
    }
  }

  /** slab_cache_reap returns every removed page once and nothing else. */
  lemma ReapReturnsPages(pool: Pool, pmm: State, live: set<nat>, pages: set<nat>)
    requires PoolInv(pool, pmm, live, pages)
    ensures var (pool', pmm') := Reap(pool, pmm);
            Distinct(Reaped(pool.slabs, pool.max)) && Returned(pmm, pmm', Frames(Reaped(pool.slabs, pool.max)))
  {
    var r := Reaped(pool.slabs, pool.max);
    ReapedDistinct(pool.slabs, pool.max);
    forall g | g in r ensures TakenPage(pmm, g) {
      ReapedArePages(pool.slabs, pool.max, g);
      var i :| 0 <= i < |pool.slabs| && pool.slabs[i].page == g;
    }
    PagesGoBack(pmm, r);
  }

  // ---------------------------------------------------------------- when reap is safe

  /** No page that reap would return holds an object that a caller holds. */
  ghost predicate ReapSafe(w: World)
    requires w.pool.size > 0
  {
    forall i, a :: 0 <= i < |w.pool.slabs| && |w.pool.slabs[i].free| == w.pool.max && a in w.live
      ==> !ObjectOf(a, w.pool.slabs[i].page, w.pool.size)
  }

  /** Reap is safe after every run of calls that leaves a cache with n slabs. */
  ghost predicate AlwaysReapSafe(n: nat)
  {
    forall size: nat, pmm: State, flags: Flags, calls: seq<Call> ::
      size > 0 && Wf(pmm) && Create(size, pmm, flags).2 && LeavesSlabs(size, pmm, flags, calls, n)
      ==> ReapSafe(RunFrom(size, pmm, flags, calls))
  }

  /** The world after the calls, from a new cache. */
  ghost function RunFrom(size: nat, pmm: State, flags: Flags, calls: seq<Call>): (w: World)
    requires size > 0 && Wf(pmm) && Create(size, pmm, flags).2
    ensures w.pool.size == size
  {
    var (pool, pmm1, ok) := Create(size, pmm, flags);
    var w := World(pool, pmm1, {});
    assert pool.size == size by { var page := CreateInv(size, pmm, flags); }
    RunKeepsSize(w, calls);
    Run(w, calls)
  }

  ghost predicate LeavesSlabs(size: nat, pmm: State, flags: Flags, calls: seq<Call>, n: nat)
    requires size > 0 && Wf(pmm) && Create(size, pmm, flags).2
  {
    var (pool, pmm1, ok) := Create(size, pmm, flags);
    SlabRun.ValidRun(World(pool, pmm1, {}), calls) && |RunFrom(size, pmm, flags, calls).pool.slabs| == n
  }

  lemma {:induction false} RunKeepsSize(w: World, calls: seq<Call>)
    ensures Run(w, calls).pool.size == w.pool.size
  {
    if calls != [] {
      var v := Run(w, calls[..|calls| - 1]);
      RunKeepsSize(w, calls[..|calls| - 1]);
      if Wf(v.pmm) {
        match calls[|calls| - 1]
        case AllocCall(flags) => AllocKeepsSize(v.pool, v.pmm, flags);
        case FreeCall(p, flags) =>
        case GrowCall(count, flags) => GrowLoopShape(v.pool, if v.pool.slabs == [] then 0 else 1, v.pmm, count, flags);
      }
    }
  }

  /** Growth keeps the first `keep` slabs; it changes the list only if it adds to it. */
  lemma {:induction false} GrowLoopShape(pool: Pool, keep: nat, pmm: State, count: nat, flags: Flags)
    requires keep <= |pool.slabs|
    ensures var (pool', pmm', ok) := GrowLoop(pool, keep, pmm, count, flags);
            && pool'.size == pool.size
            && ((pool'.slabs == pool.slabs && pool'.max == pool.max) || |pool'.slabs| > keep)
            && (ok && count > 0 ==> |pool'.slabs| > keep)
    decreases count
  {
    if count > 0 {
      var (pmm1, page) := PmmSpec.Alloc(pmm, 1);
      if page != 0 { GrowLoopShape(AddSlab(pool, keep, page, flags), keep + 1, pmm1, count - 1, flags); }
    }
  }

  lemma {:induction false} AllocKeepsSize(pool: Pool, pmm: State, flags: Flags)
    requires Wf(pmm)
    ensures SlabSpec.Alloc(pool, pmm, flags).0.size == pool.size
    decreases |FreePages(pmm)|
  {
    if FindFree(pool.slabs, 0) == |pool.slabs| && flags.autoGrow {
      AllocOnePage(pmm);
      var (pool1, pmm1, ok) := Grow(pool, pmm, 1, flags);
      GrowLoopShape(pool, if pool.slabs == [] then 0 else 1, pmm, 1, flags);
      if ok { AllocKeepsSize(pool1, pmm1, flags); }
    }
  }

  // ---------------------------------------------------------------- one slab: safe

  /** A cache that has at most one slab has never grown, so its single slab accounts for every
      object. */
  lemma {:induction false} OneSlabNeverGrew(w: World, calls: seq<Call>, pages: set<nat>) returns (pages': set<nat>)
    requires Inv(w, pages) && Single(w) && SlabRun.ValidRun(w, calls)
    ensures Inv(Run(w, calls), pages') && |Run(w, calls).pool.slabs| >= 1
    ensures |Run(w, calls).pool.slabs| == 1 ==> Single(Run(w, calls)) && Run(w, calls).pool.slabs[0].page == w.pool.slabs[0].page
  {
    hide SlabRun.Exec, Inv, Single;
    pages' := pages;
    if calls != [] {
      var before := calls[..|calls| - 1];
      pages' := OneSlabNeverGrew(w, before, pages);
      var v := Run(w, before);
      HeadIsFree(v, pages');
      StepSlabs(v, calls[|calls| - 1]);
      pages' := SlabRun.StepSafety(v, calls[|calls| - 1], pages');
    } else {
      SingleHasOne(w);
    }
  }

  lemma SingleHasOne(w: World)
    requires Single(w)
    ensures |w.pool.slabs| == 1
  {
  }

  lemma HeadIsFree(w: World, pages: set<nat>)
    requires Inv(w, pages)
    ensures Wf(w.pmm)
    ensures |w.pool.slabs| == 1 && w.pool.slabs[0].free != [] ==> w.pool.slabs[0].free[0] !in w.live
  {
    if |w.pool.slabs| == 1 && w.pool.slabs[0].free != [] {
      assert Entry(w.pool.slabs, 0, 0) !in w.live;
    }
  }

  /** One call either leaves a single slab single, or leaves at least two slabs. */
  lemma StepSlabs(w: World, c: Call)
    requires Wf(w.pmm) && |w.pool.slabs| >= 1 && (c.FreeCall? ==> c.ptr in w.live)
    requires |w.pool.slabs| == 1 ==> Single(w)
    requires |w.pool.slabs| == 1 && w.pool.slabs[0].free != [] ==> w.pool.slabs[0].free[0] !in w.live
    ensures var w' := SlabRun.Exec(w, c);
            && |w'.pool.slabs| >= 1
            && (|w'.pool.slabs| == 1 ==> |w.pool.slabs| == 1 && Single(w') && w'.pool.slabs[0].page == w.pool.slabs[0].page)
  {
    match c
    case AllocCall(flags) =>
      if FindFree(w.pool.slabs, 0) == |w.pool.slabs| { AllocGrows(w.pool, w.pmm, flags); }
    case FreeCall(p, flags) =>
      assert |w.live| == |w.live - {p}| + 1;
    case GrowCall(count, flags) =>
      GrowLoopShape(w.pool, 1, w.pmm, count, flags);
  }

  /** When no slab has a free object, an allocation changes nothing or leaves at least two slabs. */
  lemma {:induction false} AllocGrows(pool: Pool, pmm: State, flags: Flags)
    requires Wf(pmm) && FindFree(pool.slabs, 0) == |pool.slabs| && |pool.slabs| >= 1
    ensures var (pool', pmm', out) := SlabSpec.Alloc(pool, pmm, flags);
            (pool' == pool && !out.Object?) || |pool'.slabs| >= 2
  {
    if flags.autoGrow {
      AllocOnePage(pmm);
      var (pool1, pmm1, ok) := Grow(pool, pmm, 1, flags);
      GrowLoopShape(pool, 1, pmm, 1, flags);
      if ok { AllocKeepsTwo(pool1, pmm1, flags); }
    }
  }

  lemma {:induction false} AllocKeepsTwo(pool: Pool, pmm: State, flags: Flags)
    requires Wf(pmm) && |pool.slabs| >= 2
    ensures |SlabSpec.Alloc(pool, pmm, flags).0.slabs| >= 2
    decreases |FreePages(pmm)|
  {
    if FindFree(pool.slabs, 0) == |pool.slabs| && flags.autoGrow {
      AllocOnePage(pmm);
      var (pool1, pmm1, ok) := Grow(pool, pmm, 1, flags);
      GrowLoopShape(pool, 1, pmm, 1, flags);
      if ok { AllocKeepsTwo(pool1, pmm1, flags); }
    }
  }

  lemma OneSlabIsSafe(size: nat, pmm: State, flags: Flags, calls: seq<Call>)
    requires size > 0 && Wf(pmm) && Create(size, pmm, flags).2
    requires SlabRun.ValidRun(World(Create(size, pmm, flags).0, Create(size, pmm, flags).1, {}), calls)
    ensures |RunFrom(size, pmm, flags, calls).pool.slabs| != 0
    ensures |RunFrom(size, pmm, flags, calls).pool.slabs| == 1 ==> ReapSafe(RunFrom(size, pmm, flags, calls))
  {
    var page := CreateInv(size, pmm, flags);
    var w := World(Create(size, pmm, flags).0, Create(size, pmm, flags).1, {});
    var pages := OneSlabNeverGrew(w, calls, {page});
    var v := Run(w, calls);
    if |v.pool.slabs| == 1 && |v.pool.slabs[0].free| == v.pool.max {
      assert v.live == {};
    }
  }
}

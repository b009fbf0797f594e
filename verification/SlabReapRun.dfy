/** Runs that reap: exactly when a cache survives slab_cache_reap, and what holds when it goes on. */
module SlabReapRun {
  import opened PmmSpec
  import opened SlabSpec
  import opened SlabRun
  import opened SlabReap
  import opened SlabReapUnsafe

  datatype Step = Plain(call: Call) | ReapCall

  ghost function ReapOf(w: World): (r: World)
  {
    World(Reap(w.pool, w.pmm).0, Reap(w.pool, w.pmm).1, w.live)
  }

  ghost function RunSteps(w: World, steps: seq<Step>): (r: World)
  {
    if steps == [] then w
    else
      var v := RunSteps(w, steps[..|steps| - 1]);
      match steps[|steps| - 1]
      case Plain(c) => SlabRun.Exec(v, c)
      case ReapCall => ReapOf(v)
  }

  // ---------------------------------------------------------------- one reap

  /** The object lies on a page that reap returns. */
  ghost predicate OnRemoved(pool: Pool, a: nat)
    requires pool.size > 0
  {
    exists i :: 0 <= i < |pool.slabs| && |pool.slabs[i].free| == pool.max && ObjectOf(a, pool.slabs[i].page, pool.size)
  }

  /** No page that reap returns carries an object that is held, or that a remaining slab lists. */
  ghost predicate ReapClean(w: World)
    requires w.pool.size > 0
  {
    && (forall a :: a in w.live ==> !OnRemoved(w.pool, a))
    && (forall i: nat, k: nat :: i < |w.pool.slabs| && |w.pool.slabs[i].free| != w.pool.max && k < |w.pool.slabs[i].free|
          ==> !OnRemoved(w.pool, Entry(w.pool.slabs, i, k)))
  }

  ghost function Remaining(w: World, pages: set<nat>): (rest: set<nat>)
  {
    set g | g in pages && g !in Reaped(w.pool.slabs, w.pool.max)
  }

  /** What is not returned stays taken, and what is returned does not. */
  lemma TakenAfter(w: World, pages: set<nat>, g: nat)
    requires Inv(w, pages) && g % PAGE_SIZE == 0
    ensures g in Reaped(w.pool.slabs, w.pool.max) ==> !TakenPage(ReapOf(w).pmm, g)
    ensures g in Remaining(w, pages) ==> TakenPage(ReapOf(w).pmm, g)
    ensures Wf(ReapOf(w).pmm)
  {
    hide PoolInv, Reap, Wf, Reaped;
    ReapReturnsPages(w.pool, w.pmm, w.live, pages);
    var r := Reaped(w.pool.slabs, w.pool.max);
    ReapIs(w);
    if g in r {
      var k :| 0 <= k < |r| && r[k] == g;
      assert g / PAGE_SIZE in Frames(r);
    }
    if g in Remaining(w, pages) {
      PagesTaken(w, pages, g);
      ReapedTaken(w, pages);
      FrameIsNew(r, g);
    }
  }

  lemma ReapIs(w: World)
    ensures ReapOf(w).pool == w.pool.(slabs := Kept(w.pool.slabs, w.pool.max)) && ReapOf(w).pmm == Reap(w.pool, w.pmm).1
  {
  }

  lemma PagesTaken(w: World, pages: set<nat>, g: nat)
    requires Inv(w, pages) && g in pages
    ensures TakenPage(w.pmm, g)
  {
  }

  lemma ReapedTaken(w: World, pages: set<nat>)
    requires Inv(w, pages)
    ensures forall g :: g in Reaped(w.pool.slabs, w.pool.max) ==> g % PAGE_SIZE == 0
  {
    hide Reaped;
    forall g | g in Reaped(w.pool.slabs, w.pool.max) ensures g % PAGE_SIZE == 0 {
      ReapedArePages(w.pool.slabs, w.pool.max, g);
      var i :| 0 <= i < |w.pool.slabs| && w.pool.slabs[i].page == g;
      PagesTaken(w, pages, g);
    }
  }

  /** An object lies on one page only. */
  lemma OnePage(a: nat, g: nat, g': nat, size: nat)
    requires size > 0 && ObjectOf(a, g, size) && ObjectOf(a, g', size) && g % PAGE_SIZE == 0 && g' % PAGE_SIZE == 0
    ensures g == g'
  {
    hide ObjectOf;
    ObjectInPage(a, g, size);
    ObjectInPage(a, g', size);
    if g != g' { PagesApart(g, g'); }
  }

  lemma RemovedIs(pool: Pool, a: nat)
    requires pool.size > 0
    ensures OnRemoved(pool, a) <==> exists g :: g in Reaped(pool.slabs, pool.max) && ObjectOf(a, g, pool.size)
  {
    hide ObjectOf, Reaped;
    if OnRemoved(pool, a) {
      var i :| 0 <= i < |pool.slabs| && |pool.slabs[i].free| == pool.max && ObjectOf(a, pool.slabs[i].page, pool.size);
      assert PageOfFree(pool.slabs, pool.max, pool.slabs[i].page);
      ReapedArePages(pool.slabs, pool.max, pool.slabs[i].page);
    }
    if g :| g in Reaped(pool.slabs, pool.max) && ObjectOf(a, g, pool.size) {
      ReapedArePages(pool.slabs, pool.max, g);
      var i :| 0 <= i < |pool.slabs| && pool.slabs[i].page == g && |pool.slabs[i].free| == pool.max;
    }
  }

  /** An object keeps its page exactly when that page stays. */
  lemma StaysOnPage(w: World, pages: set<nat>, a: nat)
    requires Inv(w, pages) && w.pool.size > 0 && ObjectOfSome(a, pages, w.pool.size) && !OnRemoved(w.pool, a)
    ensures ObjectOfSome(a, Remaining(w, pages), w.pool.size)
  {
    hide PoolInv, ObjectOf, Reaped, OnRemoved;
    RemovedIs(w.pool, a);
    var g :| g in pages && ObjectOf(a, g, w.pool.size);
    assert g in Remaining(w, pages);
  }

  lemma LosesPage(w: World, pages: set<nat>, pages': set<nat>, a: nat)
    requires Inv(w, pages) && Inv(ReapOf(w), pages') && w.pool.size > 0 && ObjectOfSome(a, pages', w.pool.size)
    ensures !OnRemoved(w.pool, a)
  {
    hide PoolInv, ObjectOf, Reaped, OnRemoved, TakenPage, Reap;
    RemovedIs(w.pool, a);
    var g' :| g' in pages' && ObjectOf(a, g', w.pool.size);
    PagesTaken(ReapOf(w), pages', g');
    AlignedPage(ReapOf(w).pmm, g');
    ReapedTaken(w, pages);
    if g :| g in Reaped(w.pool.slabs, w.pool.max) && ObjectOf(a, g, w.pool.size) {
      OnePage(a, g, g', w.pool.size);
      TakenAfter(w, pages, g);
      assert false;
    }
  }

  lemma AlignedPage(pmm: State, g: nat)
    requires TakenPage(pmm, g)
    ensures g % PAGE_SIZE == 0
  {
  }

  /** f lists the slabs that stay. */
  ghost predicate Stay(w: World, f: seq<nat>)
  {
    && Picks(f, w.pool.slabs, Kept(w.pool.slabs, w.pool.max))
    && (forall i :: 0 <= i < |w.pool.slabs| ==> (i in f <==> |w.pool.slabs[i].free| != w.pool.max))
  }

  lemma KeptSeparate(w: World, f: seq<nat>)
    requires Stay(w, f) && Separate(w.pool.slabs, w.live)
    ensures Separate(Kept(w.pool.slabs, w.pool.max), w.live)
  {
    hide Kept;
    var q := Kept(w.pool.slabs, w.pool.max);
    forall i: nat, k: nat | i < |q| && k < |q[i].free| ensures Entry(q, i, k) == Entry(w.pool.slabs, f[i], k) { }
  }

  /** The slabs that stay are on pages that stay. */
  lemma KeptPages(w: World, pages: set<nat>, f: seq<nat>)
    requires Inv(w, pages) && Stay(w, f)
    ensures var q := Kept(w.pool.slabs, w.pool.max);
            && (forall i :: 0 <= i < |q| ==> q[i].page in Remaining(w, pages))
            && (forall i, j :: 0 <= i < j < |q| ==> q[i].page != q[j].page)
  {
    hide Kept, Reaped, Separate, ObjectOfSome, TakenPage, Wf;
    var q := Kept(w.pool.slabs, w.pool.max);
    forall i | 0 <= i < |q| ensures q[i].page in Remaining(w, pages) {
      ReapedArePages(w.pool.slabs, w.pool.max, q[i].page);
      assert f[i] in f && q[i] == w.pool.slabs[f[i]];
      assert forall j :: 0 <= j < |w.pool.slabs| && j != f[i] ==> w.pool.slabs[j].page != q[i].page;
    }
  }

  /** A clean reap leaves a cache on the remaining pages. */
  lemma CleanReap(w: World, pages: set<nat>)
    requires Inv(w, pages) && w.pool.size > 0 && ReapClean(w)
    ensures Inv(ReapOf(w), Remaining(w, pages))
  {
    hide Kept, Reaped, Separate, ObjectOfSome, TakenPage, Wf, OnRemoved, Picks, Reap;
    var f := KeptInOrder(w.pool.slabs, w.pool.max);
    var q, rest := Kept(w.pool.slabs, w.pool.max), Remaining(w, pages);
    ReapIs(w);
    KeptSeparate(w, f);
    KeptPages(w, pages, f);
    forall g | g in rest ensures TakenPage(ReapOf(w).pmm, g) {
      PagesTaken(w, pages, g);
      AlignedPage(w.pmm, g);
      TakenAfter(w, pages, g);
    }
    TakenAfter(w, pages, 0);
    forall a | a in w.live ensures ObjectOfSome(a, rest, w.pool.size) { StaysOnPage(w, pages, a); }
    forall i: nat, k: nat | i < |q| && k < |q[i].free| ensures ObjectOfSome(Entry(q, i, k), rest, w.pool.size) {
      KeptEntry(w, f, i, k);
      StaysOnPage(w, pages, Entry(q, i, k));
    }
  }

  lemma KeptEntry(w: World, f: seq<nat>, i: nat, k: nat)
    requires Stay(w, f) && i < |Kept(w.pool.slabs, w.pool.max)| && k < |Kept(w.pool.slabs, w.pool.max)[i].free|
    ensures i < |f| && f[i] < |w.pool.slabs| && |w.pool.slabs[f[i]].free| != w.pool.max && k < |w.pool.slabs[f[i]].free|
    ensures Entry(Kept(w.pool.slabs, w.pool.max), i, k) == Entry(w.pool.slabs, f[i], k)
  {
    hide Kept;
    assert f[i] in f;
  }

  /** When the cache is still well after a reap, the reap was clean. */
  lemma SurvivedReap(w: World, pages: set<nat>, pages': set<nat>)
    requires Inv(w, pages) && w.pool.size > 0 && Inv(ReapOf(w), pages')
    ensures ReapClean(w)
  {
    hide Kept, Reaped, Separate, ObjectOfSome, TakenPage, Wf, OnRemoved, Picks, Reap;
    var f := KeptInOrder(w.pool.slabs, w.pool.max);
    ReapIs(w);
    forall a | a in w.live ensures !OnRemoved(w.pool, a) { LosesPage(w, pages, pages', a); }
    forall i: nat, k: nat | i < |w.pool.slabs| && |w.pool.slabs[i].free| != w.pool.max && k < |w.pool.slabs[i].free|
      ensures !OnRemoved(w.pool, Entry(w.pool.slabs, i, k))
    {
      var t :| 0 <= t < |f| && f[t] == i;
      PickedAt(w, f, t);
      assert Entry(Kept(w.pool.slabs, w.pool.max), t, k) == Entry(w.pool.slabs, i, k);
      LosesPage(w, pages, pages', Entry(w.pool.slabs, i, k));
    }
  }

  lemma PickedAt(w: World, f: seq<nat>, t: nat)
    requires Stay(w, f) && t < |f|
    ensures t < |Kept(w.pool.slabs, w.pool.max)| && f[t] < |w.pool.slabs| && Kept(w.pool.slabs, w.pool.max)[t] == w.pool.slabs[f[t]]
  {
    hide Kept;
  }

  /** A cache survives a reap, with whatever pages, if and only if the reap is clean. */
  lemma ReapKeepsIff(w: World, pages: set<nat>)
    requires Inv(w, pages)
    ensures w.pool.size > 0
    ensures (exists pages' :: Inv(ReapOf(w), pages')) <==> ReapClean(w)
  {
    hide ReapClean, Reap, Remaining;
    SizePositive(w, pages);
    hide PoolInv;
    if ReapClean(w) { CleanReap(w, pages); }
    if pages' :| Inv(ReapOf(w), pages') { SurvivedReap(w, pages, pages'); }
  }

  lemma SizePositive(w: World, pages: set<nat>)
    requires Inv(w, pages)
    ensures w.pool.size > 0 && Wf(w.pmm)
  {
  }

  /** Filing an object under slab 1, when slab 0 is full, and then taking the head of slab 0. */
  lemma FileAndTake(w: World, x: nat) returns (w': World)
    requires Wf(w.pmm) && |w.pool.slabs| == 2 && |w.pool.slabs[0].free| == 7 && |w.pool.slabs[1].free| == 6 && w.pool.max == 7
    requires w.live == {x}
    ensures var calls := [FreeCall(x, Quiet()), AllocCall(Quiet())];
            && SlabRun.ValidRun(w, calls) && w' == Run(w, calls) && w'.pool.size == w.pool.size && w'.pool.max == 7
            && w'.live == {w.pool.slabs[0].free[0]} && |w'.pool.slabs| == 2
            && w'.pool.slabs[0] == SlabView(w.pool.slabs[0].page, w.pool.slabs[0].free[1..])
            && w'.pool.slabs[1] == SlabView(w.pool.slabs[1].page, [x] + w.pool.slabs[1].free)
  {
    var free, take := FreeCall(x, Quiet()), AllocCall(Quiet());
    assert [free, take][..1] == [free] && [free][..0] == [];
    var v := SlabRun.Exec(w, free);
    assert FindRoom(w.pool.slabs, 7, 0) == 1;
    assert v == World(Push(w.pool, 1, x), w.pmm, {});
    assert SlabRun.ValidRun(w, []) && Run(w, []) == w;
    assert Run(w, [free]) == v && SlabRun.ValidRun(w, [free]);
    w' := SlabRun.Exec(v, take);
    assert FindFree(v.pool.slabs, 0) == 0;
    assert w' == World(Pop(v.pool, 0), w.pmm, {w.pool.slabs[0].free[0]});
  }

  /** That no held object is on a returned page is not enough: there is a run from a new cache after
      which a slab that stays lists an object of the page that reap returns. */
  lemma ListedOnReturned() returns (calls: seq<Call>)
    ensures Wf(Pages(3)) && Create(512, Pages(3), Quiet()).2
    ensures var w0 := World(Create(512, Pages(3), Quiet()).0, Create(512, Pages(3), Quiet()).1, {});
            var w := Run(w0, calls);
            SlabRun.ValidRun(w0, calls) && w.pool.size > 0 && ReapSafe(w) && !ReapClean(w)
  {
    hide SlabRun.Exec, Wf, ReapSafe, ReapClean, Capacity, Objects, Pages, AllocCalls, FreeCalls, Create, Run, SlabRun.ValidRun, Inv;
    var w0, w1, pages := Grown(2);
    var w4, b := Misfiled(w1, pages);
    var a := w1.pool.slabs[0].free;
    var w5 := GivenBack(w4, a, b);
    var w7 := FileAndTake(w5, a[6]);
    calls := [GrowCall(1, Quiet())] + (AllocCalls(7) + [AllocCall(Quiet()), FreeCall(b, Quiet())])
             + FreeCalls(a, 6) + [FreeCall(a[6], Quiet()), AllocCall(Quiet())];
    OneGrow(w0, 1);
    RunAppend(w0, [GrowCall(1, Quiet())], AllocCalls(7) + [AllocCall(Quiet()), FreeCall(b, Quiet())]);
    RunAppend(w0, [GrowCall(1, Quiet())] + (AllocCalls(7) + [AllocCall(Quiet()), FreeCall(b, Quiet())]), FreeCalls(a, 6));
    RunAppend(w0, [GrowCall(1, Quiet())] + (AllocCalls(7) + [AllocCall(Quiet()), FreeCall(b, Quiet())]) + FreeCalls(a, 6),
              [FreeCall(a[6], Quiet()), AllocCall(Quiet())]);
    PagesOfGrown(w1, pages);
    StaleEntry(w7, a, b, w1.pool.slabs[0].page, w1.pool.slabs[1].page);
  }

  lemma OneGrow(w: World, n: nat)
    ensures SlabRun.ValidRun(w, [GrowCall(n, Quiet())]) && Run(w, [GrowCall(n, Quiet())]) == SlabRun.Exec(w, GrowCall(n, Quiet()))
  {
    hide SlabRun.Exec;
    assert [GrowCall(n, Quiet())][..0] == [];
    assert SlabRun.ValidRun(w, []) && Run(w, []) == w;
  }

  lemma GivenBack(w4: World, a: seq<nat>, b: nat) returns (w5: World)
    requires Wf(w4.pmm) && |w4.pool.slabs| == 2 && w4.pool.slabs[0].free == [b] && w4.pool.max == 7 && w4.live == Members(a)
    requires |a| == 7 && exists page: nat :: a == Objects(page, 512, 0, 7)
    ensures SlabRun.ValidRun(w4, FreeCalls(a, 6)) && w5 == Run(w4, FreeCalls(a, 6)) && w5 == With(w4, Stacked(a, 6, [b]), {a[6]})
    ensures Stacked(a, 6, [b])[0] == a[5] && Stacked(a, 6, [b])[6] == b && Distinct(a)
  {
    var page: nat :| a == Objects(page, 512, 0, 7);
    SlabReapUnsafe.FreeMany(w4, a, 6);
    w5 := Run(w4, FreeCalls(a, 6));
    LastMember(a);
    StackedEnds(a, 6, [b]);
  }

  lemma LastMember(a: seq<nat>)
    requires |a| == 7 && Distinct(a)
    ensures Members(a) - Members(a[..6]) == {a[6]}
  {
    assert a == a[..6] + [a[6]];
    assert a[6] !in a[..6];
  }

  lemma {:induction false} StackedEnds(a: seq<nat>, k: nat, f: seq<nat>)
    requires 0 < k <= |a| && |f| == 1
    ensures Stacked(a, k, f)[0] == a[k - 1] && Stacked(a, k, f)[k] == f[0]
    decreases k
  {
    if k == 1 {
      assert Stacked(a, 0, f) == f;
    } else {
      StackedEnds(a, k - 1, f);
    }
  }

  lemma PagesOfGrown(w: World, pages: set<nat>)
    requires Inv(w, pages) && |w.pool.slabs| == 2
    ensures w.pool.slabs[0].page % PAGE_SIZE == 0 && w.pool.slabs[1].page % PAGE_SIZE == 0 && w.pool.slabs[0].page != w.pool.slabs[1].page
  {
    hide Separate, ObjectOfSome;
    PagesTaken(w, pages, w.pool.slabs[0].page);
    PagesTaken(w, pages, w.pool.slabs[1].page);
  }

  lemma StaleEntry(w: World, a: seq<nat>, b: nat, page: nat, other: nat)
    requires |w.pool.slabs| == 2 && w.pool.size == 512 && w.pool.max == 7 && Capacity(512) == 7
    requires a == Objects(page, 512, 0, 7) && b == Objects(other, 512, 0, 7)[0] && w.live == {a[5]}
    requires w.pool.slabs[0].page == page && |w.pool.slabs[0].free| == 6 && w.pool.slabs[0].free[5] == b
    requires w.pool.slabs[1].page == other && |w.pool.slabs[1].free| == 7
    requires page % PAGE_SIZE == 0 && other % PAGE_SIZE == 0 && page != other
    ensures ReapSafe(w) && !ReapClean(w)
  {
    assert a[5] == ObjectAt(page, 512, 5) && b == ObjectAt(other, 512, 0);
    assert ObjectOf(a[5], page, 512) && ObjectOf(b, other, 512);
    if ObjectOf(a[5], other, 512) { OnePage(a[5], page, other, 512); }
    hide ObjectOf, Capacity;
    assert Entry(w.pool.slabs, 0, 5) == b;
    assert OnRemoved(w.pool, b);
  }

  // ---------------------------------------------------------------- runs

  /** Callers free what they hold, and reap when that is clean. */
  ghost predicate ValidStep(w: World, s: Step)
  {
    match s
    case Plain(c) => c.FreeCall? ==> c.ptr in w.live
    case ReapCall => w.pool.size > 0 && ReapClean(w)
  }

  ghost predicate ValidSteps(w: World, steps: seq<Step>)
  {
    steps == [] ||
    (var before := steps[..|steps| - 1];
     ValidSteps(w, before) && ValidStep(RunSteps(w, before), steps[|steps| - 1]))
  }

  /** Safety over every run of alloc, free, grow and clean reaps, with any number of slabs. */
  lemma {:induction false} ReapRunSafety(w: World, steps: seq<Step>, pages: set<nat>) returns (pages': set<nat>)
    requires Inv(w, pages) && ValidSteps(w, steps)
    ensures Inv(RunSteps(w, steps), pages')
  {
    hide SlabRun.Exec, Inv, ReapOf, ReapClean, Remaining;
    pages' := pages;
    if steps != [] {
      var before, s := steps[..|steps| - 1], steps[|steps| - 1];
      pages' := ReapRunSafety(w, before, pages);
      var v := RunSteps(w, before);
      if s.Plain? {
        pages' := SlabRun.StepSafety(v, s.call, pages');
      } else {
        CleanReap(v, pages');
        pages' := Remaining(v, pages');
      }
    }
  }

  // ---------------------------------------------------------------- at most one slab

  /** Every object of the cache is on its one list or held; without a slab nothing is held. */
  ghost predicate Accounted(w: World)
  {
    && (|w.pool.slabs| == 1 ==> Single(w))
    && (w.pool.slabs == [] ==> w.live == {})
  }

  /** Frees of held objects, and reaps only while there is at most one slab: a caller can see that
      slabs_head->next is NULL. */
  ghost predicate FewSlabsStep(w: World, s: Step)
  {
    match s
    case Plain(c) => c.FreeCall? ==> c.ptr in w.live
    case ReapCall => |w.pool.slabs| <= 1
  }

  ghost predicate FewSlabsRun(w: World, steps: seq<Step>)
  {
    steps == [] ||
    (var before := steps[..|steps| - 1];
     FewSlabsRun(w, before) && FewSlabsStep(RunSteps(w, before), steps[|steps| - 1]))
  }

  /** With at most one slab a reap is clean: the slab goes only when nothing is held. */
  lemma OneSlabClean(w: World)
    requires w.pool.size > 0 && |w.pool.slabs| <= 1 && Accounted(w)
    ensures ReapClean(w) && Accounted(ReapOf(w))
  {
    hide ObjectOf, FreePagesOf, Reaped;
    if |w.pool.slabs| == 1 {
      var n := |w.pool.slabs| - 1;
      assert w.pool.slabs[..n] == [];
      if |w.pool.slabs[0].free| == w.pool.max { assert w.live == {}; }
      assert Kept(w.pool.slabs, w.pool.max) == if |w.pool.slabs[0].free| == w.pool.max then [] else [w.pool.slabs[0]];
      assert |w.pool.slabs[0].free| != w.pool.max ==> [w.pool.slabs[0]] == w.pool.slabs;
    }
  }

  /** A call on an accounted cache leaves it accounted. */
  lemma AccountedStep(w: World, c: Call, pages: set<nat>)
    requires Inv(w, pages) && Accounted(w) && (c.FreeCall? ==> c.ptr in w.live)
    ensures Accounted(SlabRun.Exec(w, c))
  {
    hide PoolInv, SlabRun.Exec, Single;
    HeadIsFree(w, pages);
    if |w.pool.slabs| >= 1 {
      StepSlabs(w, c);
    } else {
      EmptyStep(w, c);
    }
  }

  /** The first growth of an empty cache. */
  lemma EmptyStep(w: World, c: Call)
    requires Wf(w.pmm) && w.pool.slabs == [] && w.live == {} && (c.FreeCall? ==> c.ptr in w.live)
    ensures Accounted(SlabRun.Exec(w, c))
  {
    match c
    case AllocCall(flags) =>
      if flags.autoGrow { EmptyAlloc(w.pool, w.pmm, flags); }
    case FreeCall(p, flags) =>
    case GrowCall(count, flags) => EmptyGrow(w.pool, w.pmm, count, flags);
  }

  lemma EmptyGrow(pool: Pool, pmm: State, count: nat, flags: Flags)
    requires pool.slabs == []
    ensures var (p, s, ok) := Grow(pool, pmm, count, flags);
            && (|p.slabs| == 1 ==> |p.slabs[0].free| == p.max)
            && (ok && count == 1 ==> |p.slabs| == 1)
  {
    if count > 0 {
      var (pmm1, page) := PmmSpec.Alloc(pmm, 1);
      if page != 0 {
        var q := AddSlab(pool, 0, page, flags);
        if count > 1 { GrowLoopShape(q, 1, pmm1, count - 1, flags); }
      }
    }
  }

  lemma EmptyAlloc(pool: Pool, pmm: State, flags: Flags)
    requires Wf(pmm) && pool.slabs == [] && flags.autoGrow
    ensures Accounted(SlabRun.Exec(World(pool, pmm, {}), AllocCall(flags)))
  {
    hide FirstHit, Mark;
    AllocOnePage(pmm);
    var (pool1, pmm1, ok) := Grow(pool, pmm, 1, flags);
    EmptyGrow(pool, pmm, 1, flags);
    if ok {
      if pool1.slabs[0].free == [] {
        AllocGrows(pool1, pmm1, flags);
      }
    }
  }

  /** From a new cache on, in every run that reaps only with at most one slab: the cache stays well,
      and every reap in it was clean. */
  lemma {:induction false} FewSlabsSafety(w: World, steps: seq<Step>, pages: set<nat>) returns (pages': set<nat>)
    requires Inv(w, pages) && Accounted(w) && FewSlabsRun(w, steps)
    ensures ValidSteps(w, steps) && Accounted(RunSteps(w, steps)) && Inv(RunSteps(w, steps), pages')
  {
    hide SlabRun.Exec, Inv, ReapOf, ReapClean, Remaining, Accounted;
    pages' := pages;
    if steps != [] {
      var before, s := steps[..|steps| - 1], steps[|steps| - 1];
      pages' := FewSlabsSafety(w, before, pages);
      var v := RunSteps(w, before);
      SizePositive(v, pages');
      if s.Plain? {
        AccountedStep(v, s.call, pages');
        pages' := SlabRun.StepSafety(v, s.call, pages');
      } else {
        OneSlabClean(v);
        CleanReap(v, pages');
        pages' := Remaining(v, pages');
      }
    }
  }

  lemma CreatedSurvivesReaps(size: nat, pmm: State, create: Flags, steps: seq<Step>) returns (pages: set<nat>)
    requires size > 0 && Wf(pmm) && Create(size, pmm, create).2
    requires FewSlabsRun(World(Create(size, pmm, create).0, Create(size, pmm, create).1, {}), steps)
    ensures var w := World(Create(size, pmm, create).0, Create(size, pmm, create).1, {});
            ValidSteps(w, steps) && Inv(RunSteps(w, steps), pages)
  {
    hide PoolInv, Create, RunSteps, ValidSteps, FewSlabsRun;
    var page := CreateInv(size, pmm, create);
    var w := World(Create(size, pmm, create).0, Create(size, pmm, create).1, {});
    assert Accounted(w);
    pages := FewSlabsSafety(w, steps, {page});
  }
}

/** With two or more slabs reap can return a page that is still in use: freed objects are filed under
    the first slab with room, so a slab can look completely free while one of its own objects is held. */
module SlabReapUnsafe {
  import opened PmmSpec
  import opened SlabSpec
  import opened SlabRun
  import opened SlabReap

  function Quiet(): (r: Flags) { Flags(false, false, false) }

  lemma {:induction false} RunAppend(w: World, c1: seq<Call>, c2: seq<Call>)
    ensures Run(w, c1 + c2) == Run(Run(w, c1), c2)
    ensures SlabRun.ValidRun(w, c1) && SlabRun.ValidRun(Run(w, c1), c2) ==> SlabRun.ValidRun(w, c1 + c2)
    decreases |c2|
  {
    hide SlabRun.Exec;
    if c2 == [] {
      assert c1 + c2 == c1;
    } else {
      var n := |c2| - 1;
      assert (c1 + c2)[..|c1 + c2| - 1] == c1 + c2[..n];
      RunAppend(w, c1, c2[..n]);
    }
  }

  /** Growth that finds its pages adds exactly `count` full slabs. */
  lemma {:induction false} GrowAddsExactly(pool: Pool, keep: nat, pmm: State, count: nat)
    requires Wf(pmm) && count <= |FreePages(pmm)| && keep <= |pool.slabs|
    ensures var (pool', pmm', ok) := GrowLoop(pool, keep, pmm, count, Quiet());
            && ok && Wf(pmm') && pool'.max == pool.max && pool'.size == pool.size
            && (count == 0 ==> pool' == pool) && (count > 0 ==> |pool'.slabs| == keep + count)
            && |pool'.slabs| >= keep && pool'.slabs[..keep] == pool.slabs[..keep]
            && (forall i :: keep <= i < |pool'.slabs| && count > 0
                  ==> pool'.slabs[i].free == Objects(pool'.slabs[i].page, pool.size, 0, pool.max))
    decreases count
  {
    hide FirstHit, Mark, Objects, Wf, FreePages;
    if count > 0 {
      AllocOnePage(pmm);
      var (pmm1, page) := PmmSpec.Alloc(pmm, 1);
      assert ClaimedPage(pmm, pmm1, page);
      assert page / PAGE_SIZE in FreePages(pmm);
      var q := AddSlab(pool, keep, page, Quiet());
      GrowAddsExactly(q, keep + 1, pmm1, count - 1);
      var q' := GrowLoop(q, keep + 1, pmm1, count - 1, Quiet()).0;
      assert q'.slabs[..keep] == q'.slabs[..keep + 1][..keep];
      assert q.slabs[..keep + 1][..keep] == pool.slabs[..keep];
      assert q'.slabs[keep] == q'.slabs[..keep + 1][keep];
    }
  }

  /** The world with slab 0's free list and the held objects replaced. */
  function With(w: World, free: seq<nat>, live: set<nat>): (r: World)
    requires w.pool.slabs != []
  {
    World(w.pool.(slabs := w.pool.slabs[0 := w.pool.slabs[0].(free := free)]), w.pmm, live)
  }

  function Members(s: seq<nat>): (found: set<nat>)
  {
    set x | x in s
  }

  function AllocCalls(k: nat): (s: seq<Call>)
  {
    seq(k, _ => AllocCall(Quiet()))
  }

  function FreeCalls(a: seq<nat>, k: nat): (s: seq<Call>)
    requires k <= |a|
  {
    seq(k, i requires 0 <= i < k => FreeCall(a[i], Quiet()))
  }

  /** k allocations from slab 0. */
  lemma {:induction false} AllocMany(w: World, k: nat)
    requires Wf(w.pmm) && w.pool.slabs != [] && k <= |w.pool.slabs[0].free|
    ensures var calls := AllocCalls(k);
            var f := w.pool.slabs[0].free;
            SlabRun.ValidRun(w, calls) && Run(w, calls) == With(w, f[k..], w.live + Members(f[..k]))
    decreases k
  {
    hide SlabRun.Exec, Wf;
    var calls := AllocCalls(k);
    var f := w.pool.slabs[0].free;
    if k == 0 {
      assert With(w, f[0..], w.live + Members(f[..0])) == w;
    } else {
      assert calls[..k - 1] == AllocCalls(k - 1);
      AllocMany(w, k - 1);
      var v := With(w, f[k - 1..], w.live + Members(f[..k - 1]));
      assert f[k - 1..][1..] == f[k..];
      assert v.live + {f[k - 1]} == w.live + Members(f[..k]);
      AllocHead(v);
    }
  }

  lemma AllocHead(v: World)
    requires Wf(v.pmm) && v.pool.slabs != [] && v.pool.slabs[0].free != []
    ensures var f := v.pool.slabs[0].free;
            SlabRun.Exec(v, AllocCall(Quiet())) == With(v, f[1..], v.live + {f[0]})
  {
    assert FindFree(v.pool.slabs, 0) == 0;
  }

  /** The objects a[k-1], ..., a[0] in front of f. */
  function Stacked(a: seq<nat>, k: nat, f: seq<nat>): (r: seq<nat>)
    requires k <= |a|
    ensures |r| == k + |f|
  {
    if k == 0 then f else [a[k - 1]] + Stacked(a, k - 1, f)
  }

  /** Freeing the first k of some held objects while slab 0 has room. */
  lemma {:induction false} FreeMany(w: World, a: seq<nat>, k: nat)
    requires Wf(w.pmm) && w.pool.slabs != [] && k <= |a| && Members(a) <= w.live && Distinct(a)
    requires |w.pool.slabs[0].free| + k <= w.pool.max
    ensures var calls := FreeCalls(a, k);
            SlabRun.ValidRun(w, calls) && Run(w, calls) == With(w, Stacked(a, k, w.pool.slabs[0].free), w.live - Members(a[..k]))
    decreases k
  {
    var calls := FreeCalls(a, k);
    var f := w.pool.slabs[0].free;
    if k == 0 {
      assert With(w, f, w.live - Members(a[..0])) == w;
    } else {
      assert calls[..k - 1] == FreeCalls(a, k - 1);
      FreeMany(w, a, k - 1);
      var v := With(w, Stacked(a, k - 1, f), w.live - Members(a[..k - 1]));
      assert a[k - 1] in v.live by {
        assert a[k - 1] in Members(a);
        assert a[k - 1] !in a[..k - 1];
      }
      assert w.live - Members(a[..k]) == v.live - {a[k - 1]};
      assert SlabRun.Exec(v, calls[k - 1]) == With(w, Stacked(a, k, f), w.live - Members(a[..k])) by {
        assert FindRoom(v.pool.slabs, v.pool.max, 0) == 0;
      }
    }
  }

  /** A page allocator with page 0 reserved and k free pages. */
  function Pages(k: nat): (r: State)
  {
    State([true] + seq(k, _ => false), k + 1, k + 2)
  }

  lemma PagesAreFree(k: nat)
    ensures Wf(Pages(k)) && |FreePages(Pages(k))| == k
  {
    assert FreePages(Pages(k)) == Range(1, k);
    RangeSize(1, k);
  }

  /** The world after growing a fresh cache of 512-byte objects to n slabs. */
  lemma Grown(n: nat) returns (w0: World, w1: World, pages: set<nat>)
    requires n >= 2
    ensures Capacity(512) == 7 && Wf(Pages(n + 1)) && Create(512, Pages(n + 1), Quiet()).2
    ensures w0 == World(Create(512, Pages(n + 1), Quiet()).0, Create(512, Pages(n + 1), Quiet()).1, {})
    ensures w1 == SlabRun.Exec(w0, GrowCall(n - 1, Quiet()))
    ensures Inv(w1, pages) && w1.pool.size == 512 && w1.pool.max == 7 && w1.live == {} && |w1.pool.slabs| == n
    ensures |w1.pool.slabs[0].free| == 7 && |w1.pool.slabs[1].free| == 7
    ensures w1.pool.slabs[0].free == Objects(w1.pool.slabs[0].page, 512, 0, 7)
    ensures w1.pool.slabs[1].free == Objects(w1.pool.slabs[1].page, 512, 0, 7)
  {
    hide Inv, Wf, FreePages, GrowLoop, PmmSpec.Alloc, Create, Objects;
    PagesAreFree(n + 1);
    var pmm := Pages(n + 1);
    var page := Created(pmm, n);
    w0 := World(Create(512, pmm, Quiet()).0, Create(512, pmm, Quiet()).1, {});
    FreeAfterCreate(pmm, n);
    InvWf(w0, {page});
    GrowAddsExactly(w0.pool, 1, w0.pmm, n - 1);
    w1 := SlabRun.Exec(w0, GrowCall(n - 1, Quiet()));
    assert w1.pool.slabs[..1][0] == w0.pool.slabs[0];
    pages := StepSafety(w0, GrowCall(n - 1, Quiet()), {page});
  }

  /** A fresh cache of 512-byte objects: one slab with its seven objects free. */
  lemma Created(pmm: State, n: nat) returns (page: nat)
    requires Wf(pmm) && |FreePages(pmm)| == n + 1 && n >= 1
    ensures Capacity(512) == 7 && Create(512, pmm, Quiet()).2
    ensures var (pool, pmm1, ok) := Create(512, pmm, Quiet());
            pool == Pool(512, 7, [SlabView(page, Objects(page, 512, 0, 7))]) && Inv(World(pool, pmm1, {}), {page})
  {
    hide Inv, FirstHit, Mark, Objects;
    AllocOnePage(pmm);
    var pmm1 := PmmSpec.Alloc(pmm, 1).0;
    AllocOnePage(pmm1);
    GrowAddsExactly(Pool(512, 7, []), 0, pmm1, 1);
    page := CreateInv(512, pmm, Quiet());
  }

  lemma FreeAfterCreate(pmm: State, n: nat)
    requires Wf(pmm) && |FreePages(pmm)| == n + 1 && n >= 1 && Create(512, pmm, Quiet()).2
    ensures |FreePages(Create(512, pmm, Quiet()).1)| == n - 1
  {
    AllocOnePage(pmm);
    var (pmm1, p) := PmmSpec.Alloc(pmm, 1);
    assert ClaimedPage(pmm, pmm1, p);
    AllocOnePage(pmm1);
    var (pmm2, q) := PmmSpec.Alloc(pmm1, 1);
    assert ClaimedPage(pmm1, pmm2, q);
    assert Create(512, pmm, Quiet()).1 == pmm2;
  }

  lemma TwoCalls(w: World, c: Call, d: Call)
    requires c.AllocCall? && (d.FreeCall? ==> d.ptr in SlabRun.Exec(w, c).live)
    ensures SlabRun.ValidRun(w, [c, d]) && Run(w, [c, d]) == SlabRun.Exec(SlabRun.Exec(w, c), d)
  {
    hide SlabRun.Exec;
    assert [c, d][..1] == [c] && [c][..0] == [];
    assert Run(w, [c]) == SlabRun.Exec(w, c) && SlabRun.ValidRun(w, [c]);
  }

  lemma ForeignObject(w: World, pages: set<nat>)
    requires Inv(w, pages) && |w.pool.slabs| >= 2 && w.pool.slabs[1].free != []
    ensures w.pool.slabs[1].free[0] !in Members(w.pool.slabs[0].free)
  {
    assert w.pool.slabs[1].free[0] == Entry(w.pool.slabs, 1, 0);
    forall k: nat | k < |w.pool.slabs[0].free| ensures w.pool.slabs[0].free[k] != w.pool.slabs[1].free[0] {
      assert w.pool.slabs[0].free[k] == Entry(w.pool.slabs, 0, k);
    }
  }

  /** With slab 0 empty the next object comes from slab 1, and goes back to slab 0. */
  lemma TakeAndReturn(w2: World) returns (w4: World)
    requires Wf(w2.pmm) && |w2.pool.slabs| >= 2 && w2.pool.slabs[0].free == [] && w2.pool.slabs[1].free != []
    requires w2.pool.max == 7 && w2.pool.slabs[1].free[0] !in w2.live
    ensures var b := w2.pool.slabs[1].free[0];
            var calls := [AllocCall(Quiet()), FreeCall(b, Quiet())];
            && SlabRun.ValidRun(w2, calls) && w4 == Run(w2, calls)
            && w4.live == w2.live && w4.pool.max == 7 && w4.pool.size == w2.pool.size && w4.pmm == w2.pmm
            && |w4.pool.slabs| == |w2.pool.slabs| && w4.pool.slabs[0] == SlabView(w2.pool.slabs[0].page, [b])
            && w4.pool.slabs[1] == SlabView(w2.pool.slabs[1].page, w2.pool.slabs[1].free[1..])
  {
    var b := w2.pool.slabs[1].free[0];
    var w3 := SlabRun.Exec(w2, AllocCall(Quiet()));
    assert w3 == World(Pop(w2.pool, 1), w2.pmm, w2.live + {b}) by {
      assert FindFree(w2.pool.slabs, 0) == 1;
    }
    w4 := SlabRun.Exec(w3, FreeCall(b, Quiet()));
    assert w4 == World(Push(w3.pool, 0, b), w2.pmm, w3.live - {b}) by {
      assert FindRoom(w3.pool.slabs, 7, 0) == 0;
    }
    assert w3.live - {b} == w2.live;
    TwoCalls(w2, AllocCall(Quiet()), FreeCall(b, Quiet()));
  }

  /** Taking everything from slab 0 and one object from slab 1, and giving that one back, leaves it
      on slab 0's list. */
  lemma Misfiled(w1: World, pages: set<nat>) returns (w4: World, b: nat)
    requires Inv(w1, pages) && w1.live == {} && |w1.pool.slabs| >= 2 && w1.pool.max == 7
    requires |w1.pool.slabs[0].free| == 7 && |w1.pool.slabs[1].free| == 7
    ensures var a := w1.pool.slabs[0].free;
            var calls := AllocCalls(7) + [AllocCall(Quiet()), FreeCall(b, Quiet())];
            && SlabRun.ValidRun(w1, calls) && w4 == Run(w1, calls)
            && w4.live == Members(a) && w4.pool.max == 7 && w4.pool.size == w1.pool.size && Wf(w4.pmm)
            && |w4.pool.slabs| == |w1.pool.slabs| && w4.pool.slabs[0] == SlabView(w1.pool.slabs[0].page, [b])
            && b == w1.pool.slabs[1].free[0] && w4.pool.slabs[1] == SlabView(w1.pool.slabs[1].page, w1.pool.slabs[1].free[1..])
  {
    hide SlabRun.Exec, Run, SlabRun.ValidRun, Separate, ObjectOfSome, Wf, AllocCalls;
    var a := w1.pool.slabs[0].free;
    b := w1.pool.slabs[1].free[0];
    ForeignObject(w1, pages);
    AllocMany(w1, 7);
    assert a[7..] == [] && a[..7] == a;
    var w2 := With(w1, [], Members(a));
    assert w1.live + Members(a[..7]) == Members(a);
    assert w2 == Run(w1, AllocCalls(7));
    w4 := TakeAndReturn(w2);
    RunAppend(w1, AllocCalls(7), [AllocCall(Quiet()), FreeCall(b, Quiet())]);
  }

  lemma UnsafeAfter(w4: World, a: seq<nat>, b: nat, page: nat, n: nat)
    requires Wf(w4.pmm) && |w4.pool.slabs| == n >= 2 && w4.live == Members(a) && w4.pool.max == 7 && w4.pool.size == 512
    requires w4.pool.slabs[0] == SlabView(page, [b]) && a == Objects(page, 512, 0, 7) && Capacity(512) == 7
    ensures var calls := FreeCalls(a, 6);
            SlabRun.ValidRun(w4, calls) && |Run(w4, calls).pool.slabs| == n && Run(w4, calls).pool.size == 512
            && !ReapSafe(Run(w4, calls))
  {
    var calls := FreeCalls(a, 6);
    FreeMany(w4, a, 6);
    var w5 := With(w4, Stacked(a, 6, [b]), w4.live - Members(a[..6]));
    assert a[6] in Members(a) && a[6] !in a[..6];
    assert a[6] in w5.live;
    assert a[6] == ObjectAt(page, 512, 6);
    assert ObjectOf(a[6], w5.pool.slabs[0].page, 512);
    assert !ReapSafe(w5);
  }

  /** For every n >= 2 there is a run that leaves n slabs and an unsafe reap. */
  lemma ManySlabsUnsafe(n: nat)
    requires n >= 2
    ensures !AlwaysReapSafe(n)
  {
    hide SlabRun.Exec, Wf, ReapSafe, Capacity, Objects, Pages, AllocCalls, FreeCalls;
    var w0, w1, pages := Grown(n);
    var w4, b := Misfiled(w1, pages);
    var a, page := w1.pool.slabs[0].free, w1.pool.slabs[0].page;
    var grow := [GrowCall(n - 1, Quiet())];
    var middle := AllocCalls(7) + [AllocCall(Quiet()), FreeCall(b, Quiet())];
    var last := FreeCalls(a, 6);
    UnsafeAfter(w4, a, b, page, n);
    assert grow[..0] == [];
    assert SlabRun.ValidRun(w0, []) && Run(w0, []) == w0;
    assert Run(w0, grow) == w1 && SlabRun.ValidRun(w0, grow);
    RunAppend(w0, grow, middle);
    RunAppend(w0, grow + middle, last);
    var calls := grow + middle + last;
    assert Run(w0, calls) == RunFrom(512, Pages(n + 1), Quiet(), calls);
    assert LeavesSlabs(512, Pages(n + 1), Quiet(), calls, n);
    assert !ReapSafe(RunFrom(512, Pages(n + 1), Quiet(), calls));
  }

  /** Reap is safe after every run exactly for caches with at most one slab: the test a caller can
      make is that slabs_head->next is NULL. */
  lemma ReapSafeIffOneSlab(n: nat)
    ensures AlwaysReapSafe(n) <==> n <= 1
  {
    if n >= 2 {
      ManySlabsUnsafe(n);
    } else {
      forall size: nat, pmm: State, flags: Flags, calls: seq<Call>
        | size > 0 && Wf(pmm) && Create(size, pmm, flags).2 && LeavesSlabs(size, pmm, flags, calls, n)
        ensures ReapSafe(RunFrom(size, pmm, flags, calls))
      {
        OneSlabIsSafe(size, pmm, flags, calls);
      }
    }
  }
}

/** Conservation over every reachable heap: objects of the caches, and whole pages. */
module HeapConserve {
  import opened Words
  import opened PmmSpec
  import opened PmmRanges
  import opened SlabSpec
  import opened HeapSizes
  import opened HeapSpec
  import opened HeapBooks
  import opened HeapCells
  import opened HeapSteps
  import opened HeapRun
  import opened HeapReach
  import HeapInit

  /** Page p belongs to a live block of whole pages. */
  ghost predicate InBlock(live: Blocks, p: nat)
  {
    exists b :: PageServed(live, b) && p in Frames(live, b)
  }

  /** The pages that were free at the start are the free ones and those of blocks. */
  ghost predicate Tiled(w: World, start: set<nat>)
  {
    && Wf(w.h.pmm)
    && forall p: nat :: p in start <==> p in FreePages(w.h.pmm) || InBlock(w.live, p)
  }

  /** Requests whose page count fits the 16-bit header. */
  predicate CountFits(size: Word)
  {
    ServiceFor(size).Pages? ==> ServiceFor(size).n < 0x1_0000
  }

  ghost predicate AllFit(live: Blocks)
  {
    forall b :: b in live ==> CountFits(live[b])
  }

  predicate FitCalls(calls: seq<Call>)
  {
    forall k :: 0 <= k < |calls| && calls[k].MallocCall? ==> CountFits(calls[k].size)
  }

  // ---------------------------------------------------------------- malloc

  lemma MallocPmm(h: Heap, size: Word, scan: Scan)
    requires |h.pools| == CLASSES && Wf(h.pmm)
    ensures Malloc(h, size, scan).0.pmm == if ServiceFor(size).Pages? then PageAlloc(h.pmm, ServiceFor(size).n, scan).0 else h.pmm
  {
    hide ServiceFor, Wf, FreePages, PageAlloc;
  }

  /** A new block that is served by a cache is on no page of its own. */
  lemma SlabAdds(live: Blocks, b: nat, size: Word)
    requires b !in live && !ServiceFor(size).Pages?
    ensures forall p: nat :: InBlock(live[b := size], p) == InBlock(live, p)
  {
    hide ServiceFor, Range;
    var live' := live[b := size];
    forall d ensures PageServed(live', d) == PageServed(live, d) { }
    forall d | PageServed(live, d) ensures Frames(live', d) == Frames(live, d) { }
    hide Frames, PageServed;
    forall p: nat ensures InBlock(live', p) == InBlock(live, p) {
      if d :| PageServed(live, d) && p in Frames(live, d) { assert p in Frames(live', d); }
      if d :| PageServed(live', d) && p in Frames(live', d) { assert p in Frames(live, d); }
    }
  }

  lemma PagesAdd(live: Blocks, b: nat, size: Word, n: nat)
    requires b !in live && ServiceFor(size) == Pages(n)
    ensures forall p: nat :: InBlock(live[b := size], p) <==> InBlock(live, p) || p in Range(b / PAGE_SIZE, n)
  {
    hide ServiceFor, Range;
    var live' := live[b := size];
    forall d | d != b ensures PageServed(live', d) == PageServed(live, d) { }
    forall d | PageServed(live, d) ensures Frames(live', d) == Frames(live, d) { }
    assert PageServed(live', b) && Frames(live', b) == Range(b / PAGE_SIZE, n);
    hide Frames, PageServed;
    forall p: nat ensures InBlock(live', p) <==> InBlock(live, p) || p in Range(b / PAGE_SIZE, n) {
      if d :| PageServed(live, d) && p in Frames(live, d) { assert d != b ==> p in Frames(live', d); }
      if d :| PageServed(live', d) && p in Frames(live', d) { assert d != b ==> p in Frames(live, d); }
    }
  }

  lemma MallocTiles(w: World, reserved: set<nat>, size: Word, scan: Scan, start: set<nat>)
    requires Inv(w, reserved) && Wf(w.h.pmm) && GoodMalloc(w.h, size, scan) && Tiled(w, start)
    ensures Tiled(HeapRun.Exec(w, MallocCall(size), scan), start)
    ensures CountFits(size) && AllFit(w.live) ==> AllFit(HeapRun.Exec(w, MallocCall(size), scan).live)
  {
    hide HeapInv, Malloc, ServiceFor, BlocksKept, NewBase, UserPointer, BaseOf, FreePages, Range, InBlock, CleanClaim, PageAlloc, CountFits;
    InvIsReady(w.h, w.live, reserved);
    MallocStep(w.h, w.live, reserved, size, scan);
    MallocPmm(w.h, size, scan);
    var (h', r) := Malloc(w.h, size, scan);
    var b := NewBase(w.h, size, scan);
    if ServiceFor(size).Pages? { CleanClaims(w.h.pmm, ServiceFor(size).n, scan); }
    if r.Pointer? && r.p != 0 {
      LiveBase(h', w.live[b := size], reserved, b);
      if ServiceFor(size).Pages? {
        PagesAdd(w.live, b, size, ServiceFor(size).n);
        BaseOfPages(w.h, size, scan);
      } else {
        SlabAdds(w.live, b, size);
      }
    } else if ServiceFor(size).Pages? {
      MallocPages(w.h, w.live, reserved, size, scan, ServiceFor(size).n);
      BaseOfPages(w.h, size, scan);
    }
  }

  lemma BaseOfPages(h: Heap, size: Word, scan: Scan)
    requires |h.pools| == CLASSES && Wf(h.pmm) && ServiceFor(size).Pages?
    ensures NewBase(h, size, scan) == PageAlloc(h.pmm, ServiceFor(size).n, scan).1
  {
    hide ServiceFor, Wf, PageAlloc;
  }

  // ---------------------------------------------------------------- free

  lemma SlabGoes(live: Blocks, b: nat)
    requires b in live && !ServiceFor(live[b]).Pages?
    ensures forall p: nat :: InBlock(live - {b}, p) == InBlock(live, p)
  {
    hide ServiceFor, Range;
    var rest := live - {b};
    forall d ensures PageServed(rest, d) == PageServed(live, d) { }
    forall d | PageServed(live, d) ensures Frames(rest, d) == Frames(live, d) { }
    hide Frames, PageServed;
    forall p: nat ensures InBlock(rest, p) == InBlock(live, p) {
      if d :| PageServed(live, d) && p in Frames(live, d) { assert p in Frames(rest, d); }
      if d :| PageServed(rest, d) && p in Frames(rest, d) { assert p in Frames(live, d); }
    }
  }

  lemma PagesGo(live: Blocks, b: nat)
    requires PageServed(live, b)
    requires forall d :: PageServed(live, d) && d != b ==> Frames(live, d) !! Frames(live, b)
    ensures forall p: nat :: InBlock(live - {b}, p) <==> InBlock(live, p) && p !in Frames(live, b)
  {
    hide ServiceFor, Range;
    var rest := live - {b};
    forall d | d != b ensures PageServed(rest, d) == PageServed(live, d) { }
    forall d | PageServed(rest, d) ensures d != b && Frames(rest, d) == Frames(live, d) { }
    hide Frames, PageServed;
    forall p: nat ensures InBlock(rest, p) <==> InBlock(live, p) && p !in Frames(live, b) {
      if d :| PageServed(live, d) && p in Frames(live, d) && d != b { assert p in Frames(rest, d); }
      if d :| PageServed(rest, d) && p in Frames(rest, d) { assert p in Frames(live, d); }
    }
  }

  lemma FreeTiles(w: World, reserved: set<nat>, b: nat, start: set<nat>)
    requires Inv(w, reserved) && b in w.live && Tiled(w, start) && AllFit(w.live)
    ensures Ready(w.h) && UserPointer(b) < WORD_LIMIT
    ensures Tiled(World(HeapSpec.Free(w.h, UserPointer(b)).0, w.live - {b}), start) && AllFit(w.live - {b})
  {
    hide HeapInv, HeapSpec.Free, ServiceFor, BlocksKept, UserPointer, BaseOf, FreePages, Range, InBlock, CountFits;
    InvIsReady(w.h, w.live, reserved);
    LiveBase(w.h, w.live, reserved, b);
    FreeDispatch(w.h, w.live, reserved, b);
    var s := ServiceFor(w.live[b]);
    if s.Slab? {
      SlabGoes(w.live, b);
      FreeSlabStep(w.h, w.live, reserved, b, s.c);
    } else {
      FitIs(w.live[b]);
      FramesDisjoint(w.h, w.live, reserved, b);
      PagesGo(w.live, b);
      FreePagesStep(w.h, w.live, reserved, b, s.n);
      FreedIsWf(HeapSpec.Free(w.h, UserPointer(b)).0, w.live - {b}, reserved);
      SmallMod(s.n, 0x1_0000);
      assert Frames(w.live, b) == Range(b / PAGE_SIZE, s.n);
      BlockIsIn(w.live, b);
    }
  }

  lemma FitIs(size: Word)
    requires CountFits(size) && ServiceFor(size).Pages?
    ensures ServiceFor(size).n < 0x1_0000
  {
    hide ServiceFor;
  }

  lemma BlockIsIn(live: Blocks, b: nat)
    requires PageServed(live, b)
    ensures forall p :: p in Frames(live, b) ==> InBlock(live, p)
  {
    hide Frames, ServiceFor;
  }

  lemma FreedIsWf(h: Heap, live: Blocks, reserved: set<nat>)
    requires HeapInv(h, live, reserved)
    ensures Wf(h.pmm)
  {
    hide ServiceFor, ClassInv, PageBlock, Wf;
  }

  /** Blocks of pages are apart from each other and from the free pages. */
  lemma FramesDisjoint(h: Heap, live: Blocks, reserved: set<nat>, b: nat)
    requires HeapInv(h, live, reserved) && PageServed(live, b)
    ensures Wf(h.pmm) && Frames(live, b) !! FreePages(h.pmm)
    ensures forall d :: PageServed(live, d) && d != b ==> Frames(live, d) !! Frames(live, b)
  {
    hide ServiceFor, ClassInv, Range, Wf;
    assert PageBlock(b, ServiceFor(live[b]).n, h.pmm, reserved);
  }

  // ---------------------------------------------------------------- runs

  lemma StepTiles(w: World, reserved: set<nat>, c: Call, scan: Scan, start: set<nat>)
    requires Inv(w, reserved) && ValidCall(w, c, scan) && Tiled(w, start) && AllFit(w.live)
    requires c.MallocCall? ==> CountFits(c.size)
    ensures Tiled(HeapRun.Exec(w, c, scan), start) && AllFit(HeapRun.Exec(w, c, scan).live)
  {
    hide HeapInv, HeapSpec.Free, Malloc, GoodMalloc, ServiceFor, UserPointer, BaseOf, FreePages, InBlock, CountFits, HeapSteps.Store;
    InvIsReady(w.h, w.live, reserved);
    match c
    case MallocCall(size) => MallocTiles(w, reserved, size, scan, start);
    case FreeCall(p) =>
      if p == 0 {
        FreeNothing(w.h);
      } else {
        FreeTiles(w, reserved, BaseOf(p), start);
      }
    case StoreCall(b, off, s) => StorePmm(w.h, b, off, s);
  }

  lemma FreeNothing(h: Heap)
    requires Ready(h)
    ensures HeapSpec.Free(h, 0).0 == h
  {
    hide BaseOf, Wf;
  }

  lemma StorePmm(h: Heap, b: nat, off: nat, s: seq<Byte>)
    ensures HeapSteps.Store(h, b, off, s).pmm == h.pmm
  {
  }

  lemma {:induction false} RunTiles(w: World, reserved: set<nat>, calls: seq<Call>, scan: Scan, start: set<nat>)
    requires Inv(w, reserved) && HeapRun.ValidRun(w, calls, scan) && FitCalls(calls) && Tiled(w, start) && AllFit(w.live)
    ensures Tiled(Run(w, calls, scan), start) && AllFit(Run(w, calls, scan).live)
  {
    hide HeapRun.Exec, Inv, ValidCall, Tiled, AllFit, CountFits;
    if calls != [] {
      var before, c := calls[..|calls| - 1], calls[|calls| - 1];
      assert forall k :: 0 <= k < |before| ==> before[k] == calls[k];
      RunTiles(w, reserved, before, scan, start);
      HeapRun.RunSafety(w, before, scan, reserved);
      StepTiles(Run(w, before, scan), reserved, c, scan, start);
    }
  }

  /** Pages: in every reachable heap whose requests fit the 16-bit header, the pages that were free
      after malloc_heap_init are, each in exactly one way, free or part of one live block. */
  lemma PagesConserved(pmm: State, mem: seq<Byte>, calls: seq<Call>, scan: Scan)
    requires Reaches(pmm, mem, calls, scan) && FitCalls(calls)
    ensures var start, now := Start(pmm, mem), Reached(pmm, mem, calls, scan);
            && Wf(start.h.pmm) && Wf(now.h.pmm)
            && (forall p: nat :: p in FreePages(start.h.pmm) <==> p in FreePages(now.h.pmm) || InBlock(now.live, p))
            && (forall b :: PageServed(now.live, b) ==> Frames(now.live, b) !! FreePages(now.h.pmm))
            && (forall b, d :: PageServed(now.live, b) && PageServed(now.live, d) && b != d ==> Frames(now.live, b) !! Frames(now.live, d))
  {
    hide HeapInv, Run, HeapRun.ValidRun, FitCalls, FreePages, Frames, InUse, Boots;
    ReachedBoots(pmm, mem, calls, scan);
    var start, now, reserved := Start(pmm, mem), Reached(pmm, mem, calls, scan), InUse(pmm, mem);
    StartInv(pmm, mem, scan);
    InvIsReady(start.h, start.live, reserved);
    NothingLive(start);
    RunTiles(start, reserved, calls, scan, FreePages(start.h.pmm));
    ReachedInv(pmm, mem, calls, scan);
    forall b | PageServed(now.live, b)
      ensures Frames(now.live, b) !! FreePages(now.h.pmm)
      ensures forall d :: PageServed(now.live, d) && b != d ==> Frames(now.live, b) !! Frames(now.live, d)
    {
      FramesDisjoint(now.h, now.live, reserved, b);
    }
  }

  lemma StartInv(pmm: State, mem: seq<Byte>, scan: Scan)
    requires Boots(pmm, mem)
    ensures Inv(Start(pmm, mem), InUse(pmm, mem)) && Start(pmm, mem).live == map[]
  {
    hide HeapInv, Boots, InUse, Reaches;
    StartReaches(pmm, mem, scan);
    ReachedInv(pmm, mem, [], scan);
  }

  lemma NothingLive(w: World)
    requires Wf(w.h.pmm) && w.live == map[]
    ensures Tiled(w, FreePages(w.h.pmm)) && AllFit(w.live)
  {
    hide ServiceFor, FreePages, Wf;
  }

  /** Objects: in every reachable heap each object of a class but object 0 is on the one free list of
      the class or in a live block. */
  lemma ObjectsConserved(pmm: State, mem: seq<Byte>, calls: seq<Call>, scan: Scan, c: nat)
    requires Reaches(pmm, mem, calls, scan) && c < CLASSES
    ensures var w := Reached(pmm, mem, calls, scan);
            && |w.h.pools| == CLASSES && |w.h.pools[c].slabs| == 1
            && |w.h.pools[c].slabs[0].free| + |Held(w.live, c)| == (PAGE_SIZE - HEADER_SIZE) / ClassSize(c) - 1
  {
    hide Reaches, Reached, HeapInv;
    ReachedBoots(pmm, mem, calls, scan);
    ReachedInv(pmm, mem, calls, scan);
    var w := Reached(pmm, mem, calls, scan);
    InvIsReady(w.h, w.live, InUse(pmm, mem));
    HeapRun.Conservation(w.h, w.live, InUse(pmm, mem), c);
  }
}

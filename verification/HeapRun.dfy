/** Runs of malloc, free and stores by the owners of blocks, and what holds after every run. */
module HeapRun {
  import opened Words
  import opened PmmSpec
  import opened PmmRanges
  import opened SlabSpec
  import opened HeapSizes
  import opened HeapSpec
  import opened HeapBooks
  import opened HeapCells
  import opened HeapSteps

  datatype Call =
    | MallocCall(size: Word)
    | FreeCall(p: Word)
    | StoreCall(b: nat, off: nat, s: seq<Byte>)

  datatype World = World(h: Heap, live: Blocks)

  ghost predicate Ready(h: Heap)
  {
    |h.pools| == CLASSES && Wf(h.pmm) && forall c :: 0 <= c < CLASSES ==> h.pools[c].size > 0
  }

  ghost function Exec(w: World, c: Call, scan: Scan): (t: World)
  {
    if !Ready(w.h) then w
    else
      match c
      case MallocCall(size) =>
        var (h, r) := Malloc(w.h, size, scan);
        World(h, if r.Pointer? && 0 != r.p < WORD_LIMIT then w.live[BaseOf(r.p) := size] else w.live)
      case FreeCall(p) => World(HeapSpec.Free(w.h, p).0, if p == 0 then w.live else w.live - {BaseOf(p)})
      case StoreCall(b, off, s) => World(Store(w.h, b, off, s), w.live)
  }

  /** Callers free what they hold, or NULL, and write only to their own bytes. */
  ghost predicate ValidCall(w: World, c: Call, scan: Scan)
  {
    match c
    case MallocCall(size) => Wf(w.h.pmm) && GoodMalloc(w.h, size, scan)
    case FreeCall(p) => p == 0 || (BaseOf(p) in w.live && p == UserPointer(BaseOf(p)))
    case StoreCall(b, off, s) => b in w.live && off + |s| <= w.live[b]
  }

  ghost function Run(w: World, calls: seq<Call>, scan: Scan): (r: World)
  {
    if calls == [] then w else Exec(Run(w, calls[..|calls| - 1], scan), calls[|calls| - 1], scan)
  }

  ghost predicate ValidRun(w: World, calls: seq<Call>, scan: Scan)
  {
    calls == [] ||
    (var before := calls[..|calls| - 1];
     ValidRun(w, before, scan) && ValidCall(Run(w, before, scan), calls[|calls| - 1], scan))
  }

  ghost predicate Inv(w: World, reserved: set<nat>)
  {
    HeapInv(w.h, w.live, reserved)
  }

  lemma InvIsReady(h: Heap, live: Blocks, reserved: set<nat>)
    requires HeapInv(h, live, reserved)
    ensures Ready(h)
  {
    hide ClassInv, ServiceFor;
    AllSingle(h.pools, h.pmm, live, reserved);
  }

  lemma StepSafety(w: World, c: Call, scan: Scan, reserved: set<nat>)
    requires Inv(w, reserved) && ValidCall(w, c, scan)
    ensures Inv(Exec(w, c, scan), reserved)
    ensures c.FreeCall? ==> Ready(w.h) && HeapSpec.Free(w.h, c.p).1 == Done
  {
    hide HeapInv, Malloc, GoodMalloc, ServiceFor, Store, BlocksKept, Ready, UserPointer, BaseOf;
    InvIsReady(w.h, w.live, reserved);
    match c
    case MallocCall(size) => MallocExec(w, size, scan, reserved);
    case FreeCall(p) => FreeExec(w, p, scan, reserved);
    case StoreCall(b, off, s) => StoreStep(w.h, w.live, reserved, b, off, s);
  }

  lemma MallocExec(w: World, size: Word, scan: Scan, reserved: set<nat>)
    requires Inv(w, reserved) && Wf(w.h.pmm) && GoodMalloc(w.h, size, scan)
    ensures Inv(Exec(w, MallocCall(size), scan), reserved)
  {
    hide Malloc, GoodMalloc, ServiceFor, BlocksKept, NewBase;
    InvIsReady(w.h, w.live, reserved);
    MallocStep(w.h, w.live, reserved, size, scan);
    var (h', r) := Malloc(w.h, size, scan);
    if r.Pointer? && r.p != 0 {
      var b := NewBase(w.h, size, scan);
      LiveBase(h', w.live[b := size], reserved, b);
    }
    hide HeapInv;
  }

  lemma FreeExec(w: World, p: Word, scan: Scan, reserved: set<nat>)
    requires Inv(w, reserved) && (p == 0 || (BaseOf(p) in w.live && p == UserPointer(BaseOf(p))))
    ensures Inv(Exec(w, FreeCall(p), scan), reserved)
    ensures Ready(w.h) && HeapSpec.Free(w.h, p).1 == Done
  {
    InvIsReady(w.h, w.live, reserved);
    hide HeapInv, ServiceFor, BlocksKept, UserPointer, BaseOf;
    if p != 0 {
      hide HeapSpec.Free;
      FreeStep(w.h, w.live, reserved, BaseOf(p));
    }
  }

  /** Heap safety over every run of malloc, free and stores. */
  lemma {:induction false} RunSafety(w: World, calls: seq<Call>, scan: Scan, reserved: set<nat>)
    requires Inv(w, reserved) && ValidRun(w, calls, scan)
    ensures Inv(Run(w, calls, scan), reserved)
  {
    hide Inv, Exec, ValidCall;
    if calls != [] {
      var before := calls[..|calls| - 1];
      RunSafety(w, before, scan, reserved);
      StepSafety(Run(w, before, scan), calls[|calls| - 1], scan, reserved);
    }
  }

  // ---------------------------------------------------------------- requests up to a page

  /** Callers' duties when every request, with its header, fits one page: none for malloc. */
  ghost predicate SmallCall(w: World, c: Call)
  {
    match c
    case MallocCall(size) => size + METADATA <= PAGE
    case FreeCall(p) => p == 0 || (BaseOf(p) in w.live && p == UserPointer(BaseOf(p)))
    case StoreCall(b, off, s) => b in w.live && off + |s| <= w.live[b]
  }

  ghost predicate SmallRun(w: World, calls: seq<Call>)
  {
    calls == [] ||
    (var before := calls[..|calls| - 1];
     SmallRun(w, before) && SmallCall(Run(w, before, Written), calls[|calls| - 1]))
  }

  lemma SmallIsGood(h: Heap, size: Word, scan: Scan)
    requires Wf(h.pmm) && size + METADATA <= PAGE
    ensures GoodMalloc(h, size, scan)
    ensures ServiceFor(size).Slab? || ServiceFor(size) == Pages(1)
  {
    hide ServiceFor, CleanClaim;
    ServiceIs(size);
    OnePage(size + METADATA);
    CleanWhen(h.pmm, 1, scan);
  }

  lemma OnePage(total: nat)
    requires 0 < total <= PAGE
    ensures (total + PAGE - 1) / PAGE == 1
  {
  }

  /** The allocator as written is safe over every run in which each request, with its header, fits
      one page: all blocks stay inside their class or page, apart from each other, from free
      objects and from reserved pages, and every free succeeds. */
  lemma {:induction false} SmallRunSafety(w: World, calls: seq<Call>, reserved: set<nat>)
    requires Inv(w, reserved) && SmallRun(w, calls)
    ensures Inv(Run(w, calls, Written), reserved)
  {
    hide Exec, GoodMalloc, UserPointer, BaseOf;
    if calls != [] {
      var before := calls[..|calls| - 1];
      SmallRunSafety(w, before, reserved);
      var v, c := Run(w, before, Written), calls[|calls| - 1];
      InvIsReady(v.h, v.live, reserved);
      hide HeapInv;
      if c.MallocCall? { SmallIsGood(v.h, c.size, Written); }
      StepSafety(v, c, Written, reserved);
    }
  }

  // ---------------------------------------------------------------- the repaired scan

  /** With the repaired scan a request is good if adding the header does not wrap and a request for
      more than one page is not refused. */
  lemma RepairedIsGood(h: Heap, size: Word)
    requires Wf(h.pmm)
    ensures GoodMalloc(h, size, Repaired) <==>
            size + METADATA < WORD_LIMIT
            && (ServiceFor(size).Pages? && ServiceFor(size).n > 1 ==> AllocRange(h.pmm, ServiceFor(size).n).1 != 0)
  {
    hide ServiceFor, CleanClaim, AllocRange;
    if ServiceFor(size).Pages? { CleanWhen(h.pmm, ServiceFor(size).n, Repaired); }
  }

  // ---------------------------------------------------------------- what the invariant means

  /** Two live blocks never share a byte of header or content. */
  lemma BlocksApart(h: Heap, live: Blocks, reserved: set<nat>, a: nat, b: nat)
    requires HeapInv(h, live, reserved) && a in live && b in live && a != b
    ensures a + METADATA + live[a] <= b || b + METADATA + live[b] <= a
  {
    hide ServiceFor, ClassInv, PageBlock;
    CellsApart(h.pools, h.pmm, live, reserved, a, ServiceFor(live[a]), b, ServiceFor(live[b]));
  }

  /** x is a byte of an object slot of class c's page: not of its slab header, nor of object 0. */
  ghost predicate ObjectByte(pools: seq<Pool>, c: nat, x: nat)
    requires c < CLASSES && |pools| == CLASSES && |pools[c].slabs| == 1
  {
    ClassPage(pools, c) + ClassSize(c) <= x < ClassPage(pools, c) + PAGE_SIZE - HEADER_SIZE
  }

  /** The bytes of a live block lie on pages that are used and not reserved, or in object slots of
      its own class: never in a slab header, a cache descriptor or any other reserved page, and
      never on a free page. */
  lemma BlockPlace(h: Heap, live: Blocks, reserved: set<nat>, b: nat, x: nat)
    requires HeapInv(h, live, reserved) && b in live && b <= x < b + METADATA + live[b]
    ensures var s := ServiceFor(live[b]);
            && x / PAGE_SIZE < h.pmm.pages && x / PAGE_SIZE !in FreePages(h.pmm)
            && (s.Pages? ==> x / PAGE_SIZE !in reserved)
            && (s.Slab? ==> |h.pools[s.c].slabs| == 1 && ObjectByte(h.pools, s.c, x))
  {
    hide ServiceFor, ClassInv, ObjectOf, Range;
    LivePlace(h.pools, h.pmm, live, reserved, b);
    LiveBase(h, live, reserved, b);
    var s := ServiceFor(live[b]);
    AllSingle(h.pools, h.pmm, live, reserved);
    if s.Slab? {
      var page := ClassPage(h.pools, s.c);
      FirstObject(b, page, s.c);
      SamePage(x, page);
      assert page / PAGE_SIZE in reserved;
    } else {
      assert x / PAGE_SIZE in Range(b / PAGE_SIZE, s.n) by { PageOf(b, s.n, x); }
    }
  }

  lemma FirstObject(b: nat, page: nat, c: nat)
    requires c < CLASSES && ObjectOf(b, page, ClassSize(c)) && page < b
    ensures page + ClassSize(c) <= b
  {
    hide Capacity;
    var j: nat :| b == ObjectAt(page, ClassSize(c), j);
    if j == 0 { assert false; }
    MulLe(1, j, ClassSize(c));
  }

  lemma PageOf(b: nat, n: nat, x: nat)
    requires b % PAGE_SIZE == 0 && b <= x < b + n * PAGE
    ensures b / PAGE_SIZE <= x / PAGE_SIZE < b / PAGE_SIZE + n
  {
  }

  /** Conservation: what is free and what is held is always the capacity less object 0. */
  lemma Conservation(h: Heap, live: Blocks, reserved: set<nat>, c: nat)
    requires HeapInv(h, live, reserved) && c < CLASSES
    ensures |h.pools[c].slabs| == 1
    ensures |h.pools[c].slabs[0].free| + |Held(live, c)| == (PAGE_SIZE - HEADER_SIZE) / ClassSize(c) - 1
  {
    hide ServiceFor;
    assert ClassInv(h.pools[c], h.pmm, Held(live, c), reserved, c);
  }

  /** After every run of small requests, malloc panics exactly when a small class is used up, and
      every block held can be freed. */
  lemma PanicsIffFull(w: World, calls: seq<Call>, reserved: set<nat>, size: Word)
    requires Inv(w, reserved) && SmallRun(w, calls) && size + METADATA <= LARGEST
    ensures var v := Run(w, calls, Written);
            var s := ServiceFor(size);
            && Ready(v.h) && s.Slab?
            && (Malloc(v.h, size, Written).1 == Panicked <==> |Held(v.live, s.c)| == (PAGE_SIZE - HEADER_SIZE) / ClassSize(s.c) - 1)
            && (forall b :: b in v.live ==> UserPointer(b) < WORD_LIMIT && HeapSpec.Free(v.h, UserPointer(b)).1 == Done)
  {
    SmallRunSafety(w, calls, reserved);
    var v := Run(w, calls, Written);
    hide Run, SmallRun, Malloc, HeapSpec.Free, ServiceFor, UserPointer, ClassSize, Held;
    ServiceIs(size);
    InvIsReady(v.h, v.live, reserved);
    MallocSlab(v.h, v.live, reserved, size, Written, ServiceFor(size).c);
    hide HeapInv;
    forall b | b in v.live ensures UserPointer(b) < WORD_LIMIT && HeapSpec.Free(v.h, UserPointer(b)).1 == Done {
      LiveBase(v.h, v.live, reserved, b);
      FreeStep(v.h, v.live, reserved, b);
    }
  }
}

/** When the copy of a moving realloc fits its new block: otherwise it overwrites what lies behind. */
module HeapShrink {
  import opened Words
  import opened PmmSpec
  import opened SlabSpec
  import opened HeapMemory
  import opened HeapSizes
  import opened HeapSpec
  import opened HeapBooks
  import opened HeapCells
  import opened HeapSteps
  import opened HeapRealloc
  import opened HeapRun
  import opened HeapReach
  import HeapPages

  /** Moving block b of class c to this size leaves a heap that describes the new block. */
  ghost predicate MovesSafely(w: World, reserved: set<nat>, b: nat, c: nat, size: Word)
  {
    b in w.live && ServiceFor(w.live[b]) == Slab(c) && Wf(w.h.pmm) && GoodMalloc(w.h, size, Written) ==>
      WellShaped(w.h) && UserPointer(b) < WORD_LIMIT
      && var (h', r) := Realloc(w.h, UserPointer(b), size, Written);
         (r.Pointer? && 0 != r.p < WORD_LIMIT ==> HeapInv(h', w.live[BaseOf(r.p) := size] - {b}, reserved))
  }

  ghost predicate MovesSafelyAfter(pmm: State, mem: seq<Byte>, calls: seq<Call>, b: nat, c: nat, size: Word)
    requires Boots(pmm, mem)
  {
    MovesSafely(Reached(pmm, mem, calls, Written), InUse(pmm, mem), b, c, size)
  }

  /** So it is in every reachable heap. */
  ghost predicate AlwaysMovesSafely(c: nat, size: Word)
  {
    forall pmm: State, mem: seq<Byte>, calls: seq<Call>, b: nat | Reaches(pmm, mem, calls, Written) ::
      MovesSafelyAfter(pmm, mem, calls, b, c, size)
  }

  // ---------------------------------------------------------------- copies that fit

  lemma FittingMoves(w: World, reserved: set<nat>, b: nat, c: nat, size: Word)
    requires Inv(w, reserved) && c < CLASSES && size > 0 && ClassSize(c) != RoundAllocSize(size) && CopyFits(ClassSize(c), size)
    ensures MovesSafely(w, reserved, b, c, size)
  {
    hide HeapInv, ServiceFor, Realloc, GoodMalloc, RoundAllocSize, UserPointer, BaseOf, Wf, WellShaped, NewBase, BlocksKept, CopyFits, ClassSize;
    if b in w.live && ServiceFor(w.live[b]) == Slab(c) && Wf(w.h.pmm) && GoodMalloc(w.h, size, Written) {
      InvIsShaped(w.h, w.live, reserved);
      InvBooks(w.h, w.live, reserved);
      ClassSeen(w.live, b, c);
      ReallocMoves(w.h, w.live, reserved, b, size, Written);
      var (h', r) := Realloc(w.h, UserPointer(b), size, Written);
      if r.Pointer? && 0 != r.p < WORD_LIMIT {
        MovedPointer(w.h, w.live, reserved, b, size, h', r, NewBase(w.h, size, Written));
      }
    }
  }

  lemma ClassSeen(live: Blocks, b: nat, c: nat)
    requires b in live && ServiceFor(live[b]) == Slab(c) && c < CLASSES
    ensures SeenSize(live, b) == ClassSize(c)
  {
    hide ServiceFor, ClassSize;
  }

  lemma MovedPointer(h: Heap, live: Blocks, reserved: set<nat>, b: nat, size: Word, h': Heap, r: Result, d: nat)
    requires |h.pools| == CLASSES && Wf(h.pmm) && b in live && HeapInv(h, live, reserved)
    requires r == Pointer(UserPointer(d)) && r.p != 0 && Moved(h, live, reserved, b, size, KeptLength(live, b, size), h', d)
    ensures BaseOf(r.p) == d
  {
    hide HeapInv, ServiceFor, UserPointer, BaseOf, Wf, KeptLength, BlocksKept;
    LiveBase(h', live[d := size] - {b}, reserved, d);
  }

  // ---------------------------------------------------------------- copies that do not

  /** The copy overruns: the class of the new size holds the size with its header, and the old class
      is larger. */
  lemma Overrun(c: nat, size: Word) returns (e: nat)
    requires c < CLASSES && 0 < size && size + METADATA <= WORD_LIMIT - PAGE && ClassSize(c) != RoundAllocSize(size)
    requires !CopyFits(ClassSize(c), size)
    ensures e < c && ServiceFor(size) == Slab(e) && RoundAllocSize(size) == ClassSize(e) && size + METADATA <= ClassSize(e)
    ensures 2 * ClassSize(e) <= ClassSize(c)
  {
    hide ServiceFor, RoundAllocSize, CopyFits;
    CopyFitsIff(c, size);
    SizeFits(c);
    if size > LARGEST {
      RoundLarge(size);
      PageQuotient(size);
      assert false;
    }
    e := RoundSmall(size);
    ServiceIs(size);
    SameClass(e, c, size, ServiceFor(size));
  }

  lemma SizeFits(c: nat)
    requires c < CLASSES
    ensures 16 <= ClassSize(c) <= LARGEST
  {
  }

  lemma SameClass(e: nat, c: nat, size: nat, s: Service)
    requires e < CLASSES && c < CLASSES && size + METADATA <= ClassSize(e) < ClassSize(c) && (e > 0 ==> ClassSize(e - 1) < size)
    requires s.Slab? && s.c < CLASSES && size + METADATA <= Room(s) && (s.c > 0 ==> ClassSize(s.c - 1) < size + METADATA)
    ensures s == Slab(e) && e < c && 2 * ClassSize(e) <= ClassSize(c)
  {
  }

  /** The example for classes e and c: a full-size block of class c, with a 1 stored where the copy of
      ClassSize(e) bytes will take its last but one byte from. */
  function ShrinkCalls(c: nat, e: nat): (calls: seq<Call>)
    requires e < CLASSES && c < CLASSES
  {
    [FirstCall(c), StoreCall(ExampleFree(c)[0], ClassSize(e) - METADATA, [1])]
  }

  lemma FullSize(c: nat)
    requires c < CLASSES
    ensures ServiceFor(ClassSize(c) - METADATA) == Slab(c)
  {
    hide ServiceFor, ClassSize;
    SizeFits(c);
    ServiceIs(ClassSize(c) - METADATA);
    SameRoom(c, ServiceFor(ClassSize(c) - METADATA));
  }

  lemma SameRoom(c: nat, s: Service)
    requires c < CLASSES && s.Slab? && s.c < CLASSES && ClassSize(c) <= Room(s) && (s.c > 0 ==> ClassSize(s.c - 1) < ClassSize(c))
    ensures s.c == c
  {
  }

  function FirstCall(c: nat): (call: Call)
    requires c < CLASSES
  {
    MallocCall(ClassSize(c) - METADATA)
  }

  /** The heap after the first call. */
  lemma ShrinkStart(c: nat) returns (w1: World)
    requires c < CLASSES
    ensures var pmm, mem := ExampleState(0, 1), ExampleMemory(1);
            Reaches(pmm, mem, [FirstCall(c)], Written) && w1 == Reached(pmm, mem, [FirstCall(c)], Written)
    ensures w1.live == map[ExampleFree(c)[0] := FirstCall(c).size] && |w1.h.pools| == CLASSES
    ensures forall e: nat :: e < CLASSES && e != c ==> w1.h.pools[e] == ExamplePool(e)
  {
    hide HeapInv, ServiceFor, Malloc, GoodMalloc, UserPointer, BaseOf, Boots, Wf, Start, InUse, TakeObject, ExampleFree, ClassSize, ExampleState, ExampleMemory;
    var pmm, mem, size := ExampleState(0, 1), ExampleMemory(1), ClassSize(c) - METADATA;
    SizeFits(c);
    FullSize(c);
    ExampleBoots(1);
    var w := Start(pmm, mem);
    StartReaches(pmm, mem, Written);
    ReachedInv(pmm, mem, [], Written);
    InvIsReady(w.h, w.live, InUse(pmm, mem));
    SmallIsGood(w.h, size, Written);
    MallocIs(w.h, size, Written, c);
    TakesOne(w.h, c);
    FreeBelow(c);
    PointerRoundTrip(ExampleFree(c)[0]);
    OneMore(pmm, mem, [], FirstCall(c), Written);
    assert [] + [FirstCall(c)] == [FirstCall(c)];
    w1 := Reached(pmm, mem, [FirstCall(c)], Written);
  }

  lemma TakesOne(h: Heap, c: nat)
    requires c < CLASSES == |h.pools| && FindFree(h.pools[c].slabs, 0) < |h.pools[c].slabs|
    ensures |TakeObject(h, c).pools| == CLASSES
    ensures forall e: nat :: e < CLASSES && e != c ==> TakeObject(h, c).pools[e] == h.pools[e]
  {
    hide SetSlab, Write;
  }

  lemma FreeBelow(c: nat)
    requires c < CLASSES
    ensures ExampleFree(c)[0] % 16 == 0 && ExampleFree(c)[0] < WORD_LIMIT
  {
    hide ExampleFree;
    ExampleSlot(c, 0);
    Sixteens(c);
  }

  lemma Sixteens(c: nat)
    requires c < CLASSES
    ensures (ExamplePage(c) + ClassSize(c) * 1) % 16 == 0 && ExamplePage(c) + ClassSize(c) * 1 < WORD_LIMIT
  {
  }

  /** The example is reachable, holds the block with the stored 1, and class e is untouched. */
  lemma ShrinkReached(c: nat, e: nat) returns (w: World)
    requires c < CLASSES && e < c && 2 * ClassSize(e) <= ClassSize(c)
    ensures var pmm, mem := ExampleState(0, 1), ExampleMemory(1);
            Reaches(pmm, mem, ShrinkCalls(c, e), Written) && w == Reached(pmm, mem, ShrinkCalls(c, e), Written)
    ensures var b := ExampleFree(c)[0];
            w.live == map[b := ClassSize(c) - METADATA] && b + ClassSize(e) < |w.h.mem| && w.h.mem[b + ClassSize(e)] == 1
    ensures |w.h.pools| == CLASSES && w.h.pools[e] == ExamplePool(e)
  {
    hide HeapInv, ServiceFor, Boots, Wf, Start, InUse, ExampleFree, ClassSize, ExampleState, ExampleMemory, GoodMalloc, Malloc, ExamplePool,
      UserPointer, BaseOf;
    var pmm, mem := ExampleState(0, 1), ExampleMemory(1);
    SizeFits(e);
    var w1 := ShrinkStart(c);
    var second := StoreCall(ExampleFree(c)[0], ClassSize(e) - METADATA, [1]);
    ReachedBoots(pmm, mem, [FirstCall(c)], Written);
    ReachedInv(pmm, mem, [FirstCall(c)], Written);
    InvIsReady(w1.h, w1.live, InUse(pmm, mem));
    OneMore(pmm, mem, [FirstCall(c)], second, Written);
    assert [FirstCall(c)] + [second] == ShrinkCalls(c, e);
    w := Reached(pmm, mem, ShrinkCalls(c, e), Written);
    LiveBase(w1.h, w1.live, InUse(pmm, mem), ExampleFree(c)[0]);
    StoredByte(w1.h, ExampleFree(c)[0], ClassSize(e) - METADATA);
  }

  lemma StoredByte(h: Heap, b: nat, off: nat)
    requires b + METADATA + off < |h.mem|
    ensures Store(h, b, off, [1]).mem[b + METADATA + off] == 1
  {
  }

  // ---------------------------------------------------------------- the damage

  /** realloc of block b to size moves it to the first object of class e and leaves a 1 behind it. */
  ghost predicate Damages(h: Heap, b: nat, size: Word, e: nat)
    requires e < CLASSES && |ExampleFree(e)| > 0 && |ExamplePool(e).slabs| == 1 && ExamplePool(e).slabs[0].free != []
  {
    && Wf(h.pmm) && GoodMalloc(h, size, Written) && WellShaped(h) && UserPointer(b) < WORD_LIMIT
    && var (h', r) := Realloc(h, UserPointer(b), size, Written);
    var d := ExampleFree(e)[0];
    && r == Pointer(UserPointer(d)) && 0 != r.p < WORD_LIMIT && BaseOf(r.p) == d
    && |h'.pools| == CLASSES && h'.pools[e] == Pop(ExamplePool(e), 0)
    && d + ClassSize(e) < |h'.mem| && h'.mem[d + ClassSize(e)] == 1
  }

  /** The copy puts the 1 into the link of the next free object of class e, and free leaves it there. */
  lemma LinkOverwritten(w: World, reserved: set<nat>, c: nat, e: nat, b: nat, size: Word)
    requires Inv(w, reserved) && c < CLASSES && e < c && ServiceFor(size) == Slab(e) && RoundAllocSize(size) == ClassSize(e) && size > 0
    requires size + METADATA <= ClassSize(e) && 2 * ClassSize(e) <= ClassSize(c)
    requires b in w.live && ServiceFor(w.live[b]) == Slab(c) && |w.h.pools| == CLASSES && w.h.pools[e] == ExamplePool(e)
    requires b + ClassSize(e) < |w.h.mem| && w.h.mem[b + ClassSize(e)] == 1
    ensures Damages(w.h, b, size, e)
  {
    hide HeapInv, ServiceFor, RoundAllocSize, UserPointer, BaseOf, Wf, OldSize, HeaderAt, Realloc, Malloc, SeenSize, CopyForward, BlocksKept,
      HeapSpec.Free, CopyAndFree, GoodMalloc, ExampleFree, ClassSize, Room, TakeObject;
    var h, live := w.h, w.live;
    SizeFits(e); SizeFits(c);
    InvIsShaped(h, live, reserved);
    SmallIsGood(h, size, Written);
    MallocIs(h, size, Written, e);
    TakesFirst(h, e);
    FreeBelow(e);
    PointerRoundTrip(ExampleFree(e)[0]);
    MallocStep(h, live, reserved, size, Written);
    var d, h1, n := ExampleFree(e)[0], Malloc(h, size, Written).0, ClassSize(e);
    assert NewBase(h, size, Written) == d;
    LiveBase(h, live, reserved, b);
    LiveBase(h1, live[d := size], reserved, d);
    SeenSizeIs(h, live, reserved, b);
    ClassSeen(live, b, c);
    ReallocCopies(h, b, size, Written, h1, d);
    CopyAndFreeIs(h1, b, d, n);
    KeptByte(h.mem, h1.mem, live, b, c, n);
    OverrunFrees(h1, live[d := size], reserved, b, c, d, e, n);
  }

  lemma TakesFirst(h: Heap, e: nat)
    requires e < CLASSES == |h.pools| && h.pools[e] == ExamplePool(e)
    ensures FindFree(h.pools[e].slabs, 0) == 0
    ensures |TakeObject(h, e).pools| == CLASSES && TakeObject(h, e).pools[e] == Pop(ExamplePool(e), 0)
  {
    hide SetSlab, Write, ExampleFree;
  }

  lemma KeptByte(mem: seq<Byte>, mem': seq<Byte>, live: Blocks, b: nat, c: nat, n: nat)
    requires b in live && ServiceFor(live[b]) == Slab(c) && c < CLASSES && n < ClassSize(c) && BlocksKept(mem, mem', live, {})
    requires b + n < |mem|
    ensures |mem'| == |mem| && mem'[b + n] == mem[b + n]
  {
    hide ServiceFor;
    assert SameBytes(mem, mem', b, Room(ServiceFor(live[b])));
    ClassRoom(c);
  }

  /** The copy of n bytes to d + 2, then free of b: byte n of the source object is at d + n. */
  lemma OverrunFrees(h: Heap, live: Blocks, reserved: set<nat>, b: nat, c: nat, d: nat, e: nat, n: nat)
    requires HeapInv(h, live, reserved) && c < CLASSES && e < CLASSES && e != c && n == ClassSize(e) && 2 * n <= ClassSize(c)
    requires b in live && ServiceFor(live[b]) == Slab(c) && d in live && ServiceFor(live[d]) == Slab(e)
    requires b + n < |h.mem| && h.mem[b + n] == 1
    ensures WellShaped(h) && UserPointer(b) < WORD_LIMIT
    ensures var h2 := h.(mem := CopyForward(h.mem, d + METADATA, b + METADATA, n));
            var (h3, r) := HeapSpec.Free(h2, UserPointer(b));
            r == Done && |h3.pools| == CLASSES && h3.pools[e] == h.pools[e] && d + n < |h3.mem| && h3.mem[d + n] == 1
  {
    hide HeapInv, ServiceFor, UserPointer, BaseOf, Wf, CopyForward, Room, HeaderAt, ClassSize, Write, SetSlab, FreeObject, Bufctl, FreeWrites;
    InvIsShaped(h, live, reserved);
    LiveBase(h, live, reserved, b);
    FreeDispatch(h, live, reserved, b);
    SizeFits(e);
    TwoPages(h, live, reserved, b, c, d, e);
    CopyDisjoint(h.mem, d + METADATA, b + METADATA, n);
    var h2 := h.(mem := CopyForward(h.mem, d + METADATA, b + METADATA, n));
    HeapPages.CopiedByte(h.mem, d + METADATA, b + METADATA, n, n - METADATA);
    HeapPages.SameHeader(h.mem, d + METADATA, h.mem[b + METADATA..b + METADATA + n], b);
    RoomToFree(h, live, reserved, b, c);
    var m1 := FreeIs(h2, c, b);
    OutsideFree(h2, c, b, m1, FreeObject(h2, c, b).0, e, d + n, h.pools[c].slabs[0].page);
  }

  /** Blocks of two classes lie on two pages, below the slab headers. */
  lemma TwoPages(h: Heap, live: Blocks, reserved: set<nat>, b: nat, c: nat, d: nat, e: nat)
    requires HeapInv(h, live, reserved) && c < CLASSES && e < CLASSES && e != c
    requires b in live && ServiceFor(live[b]) == Slab(c) && d in live && ServiceFor(live[d]) == Slab(e)
    ensures HasSlab(h.pools, c) && HasSlab(h.pools, e)
    ensures var p, q := ClassPage(h.pools, c), ClassPage(h.pools, e);
            && (p + PAGE_SIZE <= q || q + PAGE_SIZE <= p)
            && p <= b && b + ClassSize(c) <= p + PAGE_SIZE - HEADER_SIZE && p + PAGE_SIZE <= |h.mem|
            && q <= d && d + ClassSize(e) <= q + PAGE_SIZE - HEADER_SIZE && q + PAGE_SIZE <= |h.mem|
  {
    hide ServiceFor, ClassInv, Threaded, HeaderStored, SlabStored, ObjectOf, ClassSize;
    LivePlace(h.pools, h.pmm, live, reserved, b);
    LivePlace(h.pools, h.pmm, live, reserved, d);
    DifferentPages(h.pools, h.pmm, live, reserved, c, e);
    AllSingle(h.pools, h.pmm, live, reserved);
    PageTop(h, live, reserved, c);
    PageTop(h, live, reserved, e);
  }

  lemma PageTop(h: Heap, live: Blocks, reserved: set<nat>, c: nat)
    requires HeapInv(h, live, reserved) && c < CLASSES && HasSlab(h.pools, c)
    ensures ClassPage(h.pools, c) + PAGE_SIZE <= |h.mem|
  {
    hide ServiceFor, ClassInv, Threaded, HeaderStored, SlabStored;
    SlabBounds(h.pools, h.pmm, live, reserved, c);
  }

  lemma RoomToFree(h: Heap, live: Blocks, reserved: set<nat>, b: nat, c: nat)
    requires HeapInv(h, live, reserved) && c < CLASSES && b in live && ServiceFor(live[b]) == Slab(c)
    ensures |h.pools| == CLASSES && |h.pools[c].slabs| == 1 && |h.pools[c].slabs[0].free| < h.pools[c].max
  {
    hide ServiceFor, ClassInv, Threaded, HeaderStored, SlabStored;
    FreeObjectBooks(h.pools, h.pmm, live, reserved, c, b);
  }

  /** A byte outside the page of class c survives a free to class c. */
  lemma OutsideFree(h: Heap, c: nat, b: nat, m1: seq<Byte>, h': Heap, e: nat, x: nat, page: nat)
    requires FreeWrites(h, c, b, m1, h') && e < CLASSES && e != c && x < |h.mem|
    requires page == h.pools[c].slabs[0].page && page <= b && b + 10 <= page + PAGE_SIZE - HEADER_SIZE
    requires x < page || page + PAGE_SIZE <= x
    ensures |h'.pools| == CLASSES && h'.pools[e] == h.pools[e] && |h'.mem| == |h.mem| && h'.mem[x] == h.mem[x]
  {
    hide Bytes, SetSlab, Bufctl;
    var slab := h.pools[c].slabs[0];
    SetSlabOnly(m1, slab.page, b, |slab.free| + 1);
  }

  /** A 1 in the low byte of a link is no link: objects lie at multiples of 16. */
  lemma BrokenLink(h: Heap, live: Blocks, reserved: set<nat>, e: nat)
    requires e + 1 < CLASSES && |h.pools| == CLASSES && h.pools[e] == Pop(ExamplePool(e), 0)
    requires var x := ExampleFree(e)[0] + ClassSize(e); x < |h.mem| && h.mem[x] == 1
    ensures !HeapInv(h, live, reserved)
  {
    hide HeapInv, ExampleFree, ClassSize;
    ThreeFree(e);
    var free := ExampleFree(e)[1..];
    assert h.pools[e].slabs[0].free == free;
    if HeapInv(h, live, reserved) {
      FirstLink(h, live, reserved, e);
      LowByte(h.mem, free[0], free[1]);
      assert false;
    }
  }

  lemma FirstLink(h: Heap, live: Blocks, reserved: set<nat>, e: nat)
    requires HeapInv(h, live, reserved) && e < CLASSES
    requires |h.pools| == CLASSES && |h.pools[e].slabs| == 1 && |h.pools[e].slabs[0].free| > 1
    ensures var free := h.pools[e].slabs[0].free; Holds(h.mem, free[0], Bytes(free[1], 8))
  {
    hide ServiceFor, ClassInv, HeaderStored, SlabStored, Threaded, Books;
    assert Threaded(h.mem, h.pools[e].slabs[0].free);
    ThreadedFirst(h.mem, h.pools[e].slabs[0].free);
  }

  lemma ThreadedFirst(mem: seq<Byte>, free: seq<nat>)
    requires Threaded(mem, free) && |free| > 1
    ensures Holds(mem, free[0], Bytes(free[1], 8))
  {
    hide Bytes;
  }

  lemma ThreeFree(e: nat)
    requires e + 1 < CLASSES
    ensures |ExampleFree(e)| > 2 && ExampleFree(e)[1] == ExampleFree(e)[0] + ClassSize(e) && ExampleFree(e)[2] % 16 == 0
  {
    hide ExampleFree;
    ManyFree(e);
    ExampleSlot(e, 0);
    ExampleSlot(e, 1);
    ExampleSlot(e, 2);
    ThirdMultiple(e);
  }

  lemma ManyFree(e: nat)
    requires e + 1 < CLASSES
    ensures |ExampleFree(e)| > 2
  {
  }

  lemma ThirdMultiple(e: nat)
    requires e < CLASSES
    ensures (ExamplePage(e) + ClassSize(e) * 3) % 16 == 0 && ClassSize(e) * 2 == ClassSize(e) * 1 + ClassSize(e)
  {
  }

  lemma LowByte(mem: seq<Byte>, a: nat, x: nat)
    requires Holds(mem, a, Bytes(x, 8)) && x % 16 == 0
    ensures a < |mem| && mem[a] != 1
  {
    assert mem[a] == mem[a..a + 8][0] == x % 0x100;
    hide Bytes;
    assert x % 0x100 % 16 == 0;
  }

  /** A move that cannot stay in place is safe in every reachable heap if and only if its copy fits the
      new block. Otherwise there is a heap in which the link of a free object is overwritten. */
  lemma MovesSafelyIff(c: nat, size: Word)
    requires c < CLASSES && size > 0 && size + METADATA <= WORD_LIMIT - PAGE && ClassSize(c) != RoundAllocSize(size)
    ensures AlwaysMovesSafely(c, size) <==> CopyFits(ClassSize(c), size)
  {
    hide HeapInv, ServiceFor, RoundAllocSize, UserPointer, BaseOf, Realloc, GoodMalloc, ClassSize, CopyFits, Reaches, Reached, InUse, Boots,
      Wf, WellShaped, ExampleFree, ExamplePool, ExampleState, ExampleMemory, Inv, ShrinkCalls;
    if CopyFits(ClassSize(c), size) {
      forall pmm: State, mem: seq<Byte>, calls: seq<Call>, b: nat | Reaches(pmm, mem, calls, Written)
        ensures Boots(pmm, mem) && MovesSafelyAfter(pmm, mem, calls, b, c, size)
      {
        ReachedBoots(pmm, mem, calls, Written);
        ReachedInv(pmm, mem, calls, Written);
        FittingMoves(Reached(pmm, mem, calls, Written), InUse(pmm, mem), b, c, size);
      }
    } else {
      var e := Overrun(c, size);
      var w := ShrinkReached(c, e);
      var pmm, mem, b := ExampleState(0, 1), ExampleMemory(1), ExampleFree(c)[0];
      ReachedBoots(pmm, mem, ShrinkCalls(c, e), Written);
      ReachedInv(pmm, mem, ShrinkCalls(c, e), Written);
      FullSize(c);
      LinkOverwritten(w, InUse(pmm, mem), c, e, b, size);
      var (h', r) := Realloc(w.h, UserPointer(b), size, Written);
      BrokenLink(h', w.live[BaseOf(r.p) := size] - {b}, InUse(pmm, mem), e);
      assert !MovesSafelyAfter(pmm, mem, ShrinkCalls(c, e), b, c, size);
    }
  }
}

/** What realloc keeps of a block that a cache served, for every new size, and what it does with a NULL
    pointer and with size 0. */
module HeapContents {
  import opened Words
  import opened PmmSpec
  import opened SlabSpec
  import opened HeapMemory
  import opened HeapSizes
  import opened HeapSpec
  import opened HeapBooks
  import opened HeapCells
  import opened HeapSteps
  import opened HeapRealloc
  import HeapLoads
  import HeapPages
  import HeapShrink

  // ---------------------------------------------------------------- NULL and 0

  /** realloc of NULL is malloc: a fresh block, or nothing and everything as before. */
  lemma NullAllocates(h: Heap, live: Blocks, reserved: set<nat>, size: Word, scan: Scan)
    requires HeapInv(h, live, reserved) && Wf(h.pmm) && GoodMalloc(h, size, scan)
    ensures WellShaped(h)
    ensures Realloc(h, 0, size, scan) == Malloc(h, size, scan)
    ensures var (h', r) := Realloc(h, 0, size, scan);
            && BlocksKept(h.mem, h'.mem, live, {})
            && if r.Pointer? && r.p != 0
               then r.p < WORD_LIMIT && BaseOf(r.p) !in live && HeapInv(h', live[BaseOf(r.p) := size], reserved)
               else HeapInv(h', live, reserved)
  {
    hide HeapInv, ServiceFor, Malloc, GoodMalloc, BlocksKept, NewBase, UserPointer, BaseOf, Wf;
    InvIsShaped(h, live, reserved);
    NullIs(h, size, scan);
    MallocStep(h, live, reserved, size, scan);
    var (h', r) := Malloc(h, size, scan);
    if r.Pointer? && r.p != 0 { LiveBase(h', live[NewBase(h, size, scan) := size], reserved, NewBase(h, size, scan)); }
  }

  lemma NullIs(h: Heap, size: Word, scan: Scan)
    requires WellShaped(h) && Wf(h.pmm)
    ensures Realloc(h, 0, size, scan) == Malloc(h, size, scan)
  {
    hide Malloc, HeapSpec.Free, Wf, WellShaped;
  }

  /** realloc to size 0 frees the block and returns NULL. */
  lemma ZeroFrees(h: Heap, live: Blocks, reserved: set<nat>, b: nat, scan: Scan)
    requires HeapInv(h, live, reserved) && b in live
    ensures WellShaped(h) && Wf(h.pmm) && UserPointer(b) < WORD_LIMIT
    ensures Realloc(h, UserPointer(b), 0, scan).0 == HeapSpec.Free(h, UserPointer(b)).0
    ensures var (h', r) := Realloc(h, UserPointer(b), 0, scan);
            r == Pointer(0) && HeapInv(h', live - {b}, reserved) && BlocksKept(h.mem, h'.mem, live, {b})
  {
    hide HeapInv, ServiceFor, HeapSpec.Free, BlocksKept, UserPointer, BaseOf, Wf;
    InvIsShaped(h, live, reserved);
    LiveBase(h, live, reserved, b);
    FreeStep(h, live, reserved, b);
    ZeroIs(h, UserPointer(b), scan);
  }

  lemma ZeroIs(h: Heap, p: Word, scan: Scan)
    requires WellShaped(h) && Wf(h.pmm) && p != 0
    ensures var (h1, r) := HeapSpec.Free(h, p); Realloc(h, p, 0, scan) == (h1, if r == Done then Pointer(0) else r)
  {
    hide Malloc, HeapSpec.Free, Wf, WellShaped;
  }

  /** free of NULL does nothing. */
  lemma FreeNull(h: Heap)
    requires WellShaped(h)
    ensures HeapSpec.Free(h, 0) == (h, Done)
  {
  }

  // ---------------------------------------------------------------- the copy

  /** The n bytes behind the header of d that the copy writes do not reach block b's header. */
  lemma CopyMissesHeader(h: Heap, live: Blocks, reserved: set<nat>, b: nat, c: nat, d: nat, n: nat)
    requires HeapInv(h, live, reserved) && b in live && d in live && b != d && c < CLASSES && ServiceFor(live[b]) == Slab(c)
    requires n <= Room(ServiceFor(live[d])) && n <= ClassSize(c) && (METADATA + n > Room(ServiceFor(live[d])) ==> ServiceFor(live[d]) != Slab(c))
    ensures b + 2 <= d || d + METADATA + n <= b
  {
    hide HeapInv, ServiceFor, ClassSize;
    BlockRoomsApart(h, live, reserved, b, d);
    ClassRoom(c);
    AtMostLargest(c);
    var s := ServiceFor(live[d]);
    LiveService(h, live, reserved, d);
    if s.Slab? && s.c != c {
      HeapShrink.TwoPages(h, live, reserved, b, c, d, s.c);
      ClassRoom(s.c);
    }
  }

  lemma AtMostLargest(c: nat)
    requires c < CLASSES
    ensures ClassSize(c) <= LARGEST
  {
  }

  lemma LiveService(h: Heap, live: Blocks, reserved: set<nat>, d: nat)
    requires HeapInv(h, live, reserved) && d in live
    ensures !ServiceFor(live[d]).Refused? && (ServiceFor(live[d]).Pages? ==> Room(ServiceFor(live[d])) >= PAGE)
  {
    hide ServiceFor, ClassInv, Threaded, HeaderStored, SlabStored;
    if ServiceFor(live[d]).Pages? { assert PageServed(live, d); }
  }

  lemma CopyInMemory(h: Heap, live: Blocks, reserved: set<nat>, d: nat, n: nat)
    requires HeapInv(h, live, reserved) && d in live && n <= Room(ServiceFor(live[d])) && n <= LARGEST
    ensures d + METADATA + n <= |h.mem|
  {
    hide HeapInv, ServiceFor, ClassSize;
    LiveService(h, live, reserved, d);
    LiveBase(h, live, reserved, d);
    var s := ServiceFor(live[d]);
    if s.Slab? {
      HeapLoads.OverrunApart(h, live, reserved, d, n, s.c);
      InClassPage(h, live, reserved, d, s.c);
    }
  }

  lemma InClassPage(h: Heap, live: Blocks, reserved: set<nat>, d: nat, c: nat)
    requires HeapInv(h, live, reserved) && d in live && c < CLASSES && ServiceFor(live[d]) == Slab(c)
    ensures HasSlab(h.pools, c) && d < SlabAt(h.pools, c)
  {
    hide ServiceFor, ClassInv, Threaded, HeaderStored, SlabStored, ObjectOf;
    AllSingle(h.pools, h.pmm, live, reserved);
    LivePlace(h.pools, h.pmm, live, reserved, d);
  }

  /** Copying n bytes from block b of class c to block d and freeing b: byte i arrives, also when the
      copy overruns d. */
  lemma CopiedThenFreed(h: Heap, live: Blocks, reserved: set<nat>, b: nat, c: nat, d: nat, n: nat, i: nat)
    requires HeapInv(h, live, reserved) && b in live && d in live && b != d && c < CLASSES && ServiceFor(live[b]) == Slab(c)
    requires n <= Room(ServiceFor(live[d])) && n <= ClassSize(c) && (METADATA + n > Room(ServiceFor(live[d])) ==> ServiceFor(live[d]) != Slab(c))
    requires i < n && METADATA + i < ClassSize(c) && METADATA + i < Room(ServiceFor(live[d]))
    ensures WellShaped(h) && UserPointer(b) < WORD_LIMIT
    ensures var h2 := h.(mem := CopyForward(h.mem, d + METADATA, b + METADATA, n));
            var (h3, r) := HeapSpec.Free(h2, UserPointer(b));
            && r == Done && b + METADATA + i < |h.mem| && d + METADATA + i < |h3.mem|
            && h3.mem[d + METADATA + i] == h.mem[b + METADATA + i]
  {
    hide HeapInv, ServiceFor, UserPointer, BaseOf, Wf, CopyForward, Room, HeaderAt, ClassSize, Write, SetSlab, FreeObject, Bufctl, FreeWrites,
      HeapSpec.Free;
    InvIsShaped(h, live, reserved);
    LiveBase(h, live, reserved, b);
    FreeDispatch(h, live, reserved, b);
    AtMostLargest(c);
    ClassRoom(c);
    CopyInMemory(h, live, reserved, d, n);
    SourceInMemory(h, live, reserved, b, c);
    BlockRoomsApart(h, live, reserved, b, d);
    CopyMissesHeader(h, live, reserved, b, c, d, n);
    CopyDisjoint(h.mem, d + METADATA, b + METADATA, n);
    var h2 := h.(mem := CopyForward(h.mem, d + METADATA, b + METADATA, n));
    HeapPages.CopiedByte(h.mem, d + METADATA, b + METADATA, n, i);
    HeapPages.SameHeader(h.mem, d + METADATA, h.mem[b + METADATA..b + METADATA + n], b);
    HeapShrink.RoomToFree(h, live, reserved, b, c);
    var m1 := FreeIs(h2, c, b);
    FreesTo(h2, c, b);
    ByteAside(h, live, reserved, c, b, d, METADATA + i);
    ByteStays(h2, c, b, m1, FreeObject(h2, c, b).0, d + METADATA + i);
  }

  lemma SourceInMemory(h: Heap, live: Blocks, reserved: set<nat>, b: nat, c: nat)
    requires HeapInv(h, live, reserved) && b in live && c < CLASSES && ServiceFor(live[b]) == Slab(c)
    ensures b + METADATA + ClassSize(c) <= |h.mem|
  {
    hide HeapInv, ServiceFor;
    SeenSizeIs(h, live, reserved, b);
  }

  /** free of an object whose header names its class. */
  lemma FreesTo(h: Heap, c: nat, b: nat)
    requires WellShaped(h) && c < CLASSES && 0 != UserPointer(b) < WORD_LIMIT && BaseOf(UserPointer(b)) == b
    requires b % PAGE_SIZE != 0 && b + METADATA <= |h.mem| && HeaderAt(h.mem, b) == c
    ensures HeapSpec.Free(h, UserPointer(b)) == FreeObject(h, c, b)
  {
    hide UserPointer, BaseOf, HeaderAt, FreeObject;
  }

  /** A byte of block d lies off block b's bufctl and off the slab header of b's class. */
  lemma ByteAside(h: Heap, live: Blocks, reserved: set<nat>, c: nat, b: nat, d: nat, k: nat)
    requires HeapInv(h, live, reserved) && b in live && d in live && b != d && c < CLASSES && ServiceFor(live[b]) == Slab(c)
    requires k < Room(ServiceFor(live[d]))
    ensures |h.pools| == CLASSES && |h.pools[c].slabs| == 1 && d + k < |h.mem|
    ensures d + k < b || b + 10 <= d + k
    ensures var a := HeaderOf(h.pools[c].slabs[0].page); d + k < a || a + HEADER_SIZE <= d + k
  {
    hide ServiceFor, HeapInv, Books, Cell;
    InvBooks(h, live, reserved);
    ClassRoom(c);
    LiveBase(h, live, reserved, d);
    BlockRoomsApart(h, live, reserved, b, d);
    AllSingle(h.pools, h.pmm, live, reserved);
    assert Cell(h.pools, live, d, ServiceFor(live[d])) by { LiveCell(h.pools, live, d); }
    SlabApart(h.pools, h.pmm, live, reserved, d, ServiceFor(live[d]), c);
  }

  lemma LiveCell(pools: seq<Pool>, live: Blocks, d: nat)
    requires d in live
    ensures Cell(pools, live, d, ServiceFor(live[d]))
  {
    hide ServiceFor;
  }

  lemma ByteStays(h: Heap, c: nat, b: nat, m1: seq<Byte>, h': Heap, x: nat)
    requires FreeWrites(h, c, b, m1, h') && x < |h.mem| && (x < b || b + 10 <= x)
    requires var a := HeaderOf(h.pools[c].slabs[0].page); x < a || a + HEADER_SIZE <= x
    ensures |h'.mem| == |h.mem| && h'.mem[x] == h.mem[x]
  {
    hide Bytes, SetSlab, Bufctl;
    var slab := h.pools[c].slabs[0];
    SetSlabOnly(m1, slab.page, b, |slab.free| + 1);
  }

  // ---------------------------------------------------------------- realloc

  /** How much realloc copies of a block of class c when it moves: no less than the new size asks for,
      or all of the class. */
  lemma LengthIs(c: nat, size: Word, s: Service)
    requires c < CLASSES && s == ServiceFor(size) && !s.Refused? && size + METADATA < WORD_LIMIT && ClassSize(c) != RoundAllocSize(size)
    ensures var n := CopyLength(ClassSize(c), RoundAllocSize(size));
            && n <= ClassSize(c) && n <= Room(s) && (size <= n || n == ClassSize(c)) && size + METADATA <= Room(s)
            && (METADATA + n > Room(s) ==> s != Slab(c))
  {
    hide ServiceFor, RoundAllocSize;
    FitsIffNoWrap(size);
    ServiceIs(size);
    if size <= LARGEST {
      var e := RoundSmall(size);
      SmallLength(c, e, size, s);
    } else {
      RoundLarge(size);
      PageQuotient(size);
      AtMostLargest(c);
    }
  }

  lemma SmallLength(c: nat, e: nat, size: Word, s: Service)
    requires c < CLASSES && e < CLASSES && c != e && size <= ClassSize(e) && (e > 0 ==> ClassSize(e - 1) < size)
    requires !s.Refused? && (s.Pages? ==> s.n > 0) && (s.Slab? ==> s.c < CLASSES) && size + METADATA <= Room(s)
    ensures var n := if ClassSize(c) > ClassSize(e) then ClassSize(e) else ClassSize(c);
            n <= ClassSize(c) && n <= Room(s) && (size <= n || n == ClassSize(c)) && (METADATA + n > Room(s) ==> s != Slab(c))
  {
  }

  /** What realloc of a live block of class c gives for any new size: the same pointer when the size
      rounds to the class, and otherwise what malloc gives; and in the block at that pointer every byte
      that both the old and the new block have room for is the old one. */
  lemma ReallocKeepsBytes(h: Heap, live: Blocks, reserved: set<nat>, b: nat, c: nat, size: Word, scan: Scan, i: nat)
    requires HeapInv(h, live, reserved) && b in live && c < CLASSES && ServiceFor(live[b]) == Slab(c)
    requires size > 0 && Wf(h.pmm) && GoodMalloc(h, size, scan) && i < size && i < ClassSize(c) - 2
    ensures WellShaped(h) && UserPointer(b) < WORD_LIMIT && b + 2 + i < |h.mem|
    ensures var (h', r) := Realloc(h, UserPointer(b), size, scan);
            && r == (if ClassSize(c) == RoundAllocSize(size) then Pointer(UserPointer(b)) else Malloc(h, size, scan).1)
            && (r.Pointer? && r.p != 0 ==>
                  && r.p < WORD_LIMIT && BaseOf(r.p) + 2 + i < |h'.mem|
                  && h'.mem[BaseOf(r.p) + 2 + i] == h.mem[b + 2 + i])
  {
    hide HeapInv, ServiceFor, RoundAllocSize, UserPointer, BaseOf, Wf, OldSize, HeaderAt, HeapSpec.Free, CopyForward, CopyAndFree, Malloc,
      Realloc, GoodMalloc, NewBase, BlocksKept, Room, ClassSize, CopyLength;
    InvIsShaped(h, live, reserved);
    LiveBase(h, live, reserved, b);
    SeenSizeIs(h, live, reserved, b);
    HeapShrink.ClassSeen(live, b, c);
    SourceInMemory(h, live, reserved, b, c);
    if ClassSize(c) == RoundAllocSize(size) {
      HeapPages.ReallocStays(h, b, size, scan);
    } else {
      MallocStep(h, live, reserved, size, scan);
      var (h1, r) := Malloc(h, size, scan);
      var d := NewBase(h, size, scan);
      if r.Pointer? && r.p != 0 {
        LiveBase(h1, live[d := size], reserved, d);
        MovedByte(h, live, reserved, b, c, size, scan, h1, d, i);
      } else {
        ReallocRefused(h, b, size, scan);
      }
    }
  }

  lemma MovedByte(h: Heap, live: Blocks, reserved: set<nat>, b: nat, c: nat, size: Word, scan: Scan, h1: Heap, d: nat, i: nat)
    requires HeapInv(h, live, reserved) && b in live && c < CLASSES && ServiceFor(live[b]) == Slab(c) && WellShaped(h) && Wf(h.pmm)
    requires size > 0 && size + METADATA < WORD_LIMIT && i < size && i + 2 < ClassSize(c) && ClassSize(c) != RoundAllocSize(size)
    requires Malloc(h, size, scan) == (h1, Pointer(UserPointer(d))) && d !in live && HeapInv(h1, live[d := size], reserved)
    requires BlocksKept(h.mem, h1.mem, live, {})
    requires OldSize(b, HeaderAt(h.mem, b)) == ClassSize(c) && b + METADATA <= |h.mem|
    requires 0 != UserPointer(b) < WORD_LIMIT && BaseOf(UserPointer(b)) == b
    requires 0 != UserPointer(d) < WORD_LIMIT && BaseOf(UserPointer(d)) == d
    ensures var (h', r) := Realloc(h, UserPointer(b), size, scan);
            && r == Pointer(UserPointer(d)) && b + 2 + i < |h.mem| && d + 2 + i < |h'.mem| && h'.mem[d + 2 + i] == h.mem[b + 2 + i]
  {
    hide HeapInv, ServiceFor, RoundAllocSize, UserPointer, BaseOf, Wf, OldSize, HeaderAt, HeapSpec.Free, CopyForward, CopyAndFree, Malloc,
      Realloc, BlocksKept, Room, ClassSize, CopyLength;
    var live1, n := live[d := size], CopyLength(ClassSize(c), RoundAllocSize(size));
    LiveService(h1, live1, reserved, d);
    LengthIs(c, size, ServiceFor(size));
    ReallocCopies(h, b, size, scan, h1, d);
    CopyAndFreeIs(h1, b, d, n);
    CopiedThenFreed(h1, live1, reserved, b, c, d, n, i);
    OldByte(h.mem, h1.mem, live, b, c, 2 + i);
  }

  lemma OldByte(mem: seq<Byte>, mem': seq<Byte>, live: Blocks, b: nat, c: nat, k: nat)
    requires BlocksKept(mem, mem', live, {}) && b in live && ServiceFor(live[b]) == Slab(c) && c < CLASSES && k < ClassSize(c)
    ensures |mem'| == |mem| && b + k < |mem| && mem'[b + k] == mem[b + k]
  {
    hide ServiceFor;
    assert SameBytes(mem, mem', b, Room(ServiceFor(live[b])));
    ClassRoom(c);
  }
}

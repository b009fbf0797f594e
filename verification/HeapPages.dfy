/** Blocks of whole pages: what realloc keeps of them, and what free gives back. */
module HeapPages {
  import opened Words
  import opened PmmSpec
  import opened PmmRanges
  import opened SlabSpec
  import opened HeapMemory
  import opened HeapSizes
  import opened HeapSpec
  import opened HeapBooks
  import opened HeapCells
  import opened HeapSteps
  import opened HeapRealloc
  import opened HeapRun
  import opened HeapReach

  // ---------------------------------------------------------------- how much realloc copies

  /** realloc rounds a size to 0 exactly when the rounding wraps. */
  lemma RoundsToZeroIff(size: Word)
    ensures RoundAllocSize(size) == 0 <==> size > WORD_LIMIT - PAGE
    ensures RoundAllocSize(size) > 0 ==> RoundAllocSize(size) >= 16
  {
    hide RoundAllocSize;
    if size <= LARGEST {
      var c := RoundSmall(size);
      ClassRoom(c);
    } else {
      RoundLarge(size);
      PageQuotient(size);
    }
  }

  /** The code divides the 16-bit page count by the page size: for a block of n pages it copies that
      quotient, or nothing when the new size wraps. */
  lemma PagesCopyExactly(live: Blocks, b: nat, n: nat, size: Word)
    requires b in live && ServiceFor(live[b]) == Pages(n)
    ensures CopyLength(SeenSize(live, b), RoundAllocSize(size)) == if size > WORD_LIMIT - PAGE then 0 else n % 0x1_0000 / PAGE_SIZE
    ensures CopyLength(SeenSize(live, b), RoundAllocSize(size)) <= 15 < live[b]
  {
    hide ServiceFor, RoundAllocSize;
    RoundsToZeroIff(size);
    ServiceIs(live[b]);
  }

  /** Nothing is copied exactly when the 16-bit page count is below 4096, or the new size wraps. */
  lemma PagesCopyNothingIff(live: Blocks, b: nat, n: nat, size: Word)
    requires b in live && ServiceFor(live[b]) == Pages(n)
    ensures CopyLength(SeenSize(live, b), RoundAllocSize(size)) == 0 <==> n % 0x1_0000 < PAGE_SIZE || size > WORD_LIMIT - PAGE
  {
    hide ServiceFor, RoundAllocSize, SeenSize;
    PagesCopyExactly(live, b, n, size);
  }

  // ---------------------------------------------------------------- staying in place

  /** A claim starts on a free page, whichever scan is used. */
  lemma ClaimIsFree(s: State, n: nat, scan: Scan)
    requires Wf(s)
    ensures var b := PageAlloc(s, n, scan).1; b != 0 ==> b % PAGE_SIZE == 0 && b / PAGE_SIZE in FreePages(s)
  {
    FirstHitIsLeast(s.bits, s.pages, n, 0);
    FirstRangeIsLeast(s.bits, s.pages, n, 0);
    hide FirstHit, FirstRange, Mark;
  }

  /** malloc never returns the address of a live block. */
  lemma MallocElsewhere(h: Heap, live: Blocks, reserved: set<nat>, b: nat, size: Word, scan: Scan)
    requires HeapInv(h, live, reserved) && b in live && |h.pools| == CLASSES && Wf(h.pmm)
    ensures Malloc(h, size, scan).1 != Pointer(UserPointer(b))
  {
    hide ServiceFor, ClassInv, Threaded, HeaderStored, SlabStored, PageBlock, PageAlloc, UserPointer, BaseOf, Wf, TakePages, FreePages, TakeObject;
    LiveBase(h, live, reserved, b);
    match ServiceFor(size)
    case Refused =>
    case Slab(c) =>
      AllSingle(h.pools, h.pmm, live, reserved);
      MallocIs(h, size, scan, c);
      if h.pools[c].slabs[0].free != [] {
        FreeObjectIsFresh(h.pools, h.pmm, live, reserved, c, 0);
        ObjectBelow(h, live, reserved, c);
        DifferentPointers(b, h.pools[c].slabs[0].free[0]);
      }
    case Pages(n) =>
      ClaimIsFree(h.pmm, n, scan);
      var d := PageAlloc(h.pmm, n, scan).1;
      if d != 0 {
        FreePageIsFresh(h.pools, h.pmm, live, reserved, d);
        PageBelow(h, live, reserved, d);
        DifferentPointers(b, d);
      }
  }

  lemma ObjectBelow(h: Heap, live: Blocks, reserved: set<nat>, c: nat)
    requires HeapInv(h, live, reserved) && c < CLASSES && HasSlab(h.pools, c) && h.pools[c].slabs[0].free != []
    ensures h.pools[c].slabs[0].free[0] < WORD_LIMIT
  {
    hide ServiceFor, ClassInv, Bytes, SlabStored, HeaderStored;
    assert Holds(h.mem, h.pools[c].slabs[0].free[0], Bytes(At(h.pools[c].slabs[0].free, 1), 8));
  }

  lemma PageBelow(h: Heap, live: Blocks, reserved: set<nat>, d: nat)
    requires HeapInv(h, live, reserved) && d % PAGE_SIZE == 0 && d / PAGE_SIZE in FreePages(h.pmm)
    ensures d < WORD_LIMIT
  {
    hide ServiceFor, ClassInv, Threaded, SlabStored, HeaderStored;
    assert d / PAGE_SIZE < h.pmm.pages;
  }

  lemma DifferentPointers(b: nat, d: nat)
    requires b < WORD_LIMIT && d < WORD_LIMIT && b != d
    ensures UserPointer(b) != UserPointer(d)
  {
    hide UserPointer, BaseOf;
    PointerRoundTrip(b);
    PointerRoundTrip(d);
  }

  /** A block of whole pages stays in place exactly when the new size wraps to 0 and the 16-bit page
      count is below 4096; no size that memory can hold keeps it. */
  lemma PagesStayIff(h: Heap, live: Blocks, reserved: set<nat>, b: nat, n: nat, size: Word, scan: Scan)
    requires HeapInv(h, live, reserved) && b in live && ServiceFor(live[b]) == Pages(n) && size > 0
    ensures WellShaped(h) && Wf(h.pmm) && UserPointer(b) < WORD_LIMIT
    ensures Realloc(h, UserPointer(b), size, scan).1 == Pointer(UserPointer(b)) <==> size > WORD_LIMIT - PAGE && n % 0x1_0000 < PAGE_SIZE
  {
    hide ServiceFor, RoundAllocSize, UserPointer, BaseOf, Wf, OldSize, HeaderAt, HeapInv, Realloc, Malloc, SeenSize;
    InvIsShaped(h, live, reserved);
    LiveBase(h, live, reserved, b);
    SeenSizeIs(h, live, reserved, b);
    PagesSeen(live, b, n);
    RoundsToZeroIff(size);
    if SeenSize(live, b) == RoundAllocSize(size) {
      ReallocStays(h, b, size, scan);
    } else {
      MallocElsewhere(h, live, reserved, b, size, scan);
      var (h1, r) := Malloc(h, size, scan);
      if r.Pointer? && 0 != r.p < WORD_LIMIT {
        ReallocEnds(h, b, size, scan);
      } else {
        ReallocRefused(h, b, size, scan);
      }
    }
  }

  lemma PagesSeen(live: Blocks, b: nat, n: nat)
    requires b in live && ServiceFor(live[b]) == Pages(n)
    ensures SeenSize(live, b) == n % 0x1_0000 / PAGE_SIZE <= 15
  {
    hide ServiceFor;
  }

  lemma ReallocStays(h: Heap, b: nat, size: Word, scan: Scan)
    requires WellShaped(h) && Wf(h.pmm) && size > 0
    requires 0 != UserPointer(b) < WORD_LIMIT && BaseOf(UserPointer(b)) == b && b + METADATA <= |h.mem|
    requires OldSize(b, HeaderAt(h.mem, b)) != -1 && OldSize(b, HeaderAt(h.mem, b)) == RoundAllocSize(size)
    ensures Realloc(h, UserPointer(b), size, scan) == (h, Pointer(UserPointer(b)))
  {
    hide ServiceFor, HeapSpec.Free, CopyForward, Malloc, RoundAllocSize, UserPointer, BaseOf, Wf, OldSize, HeaderAt;
  }

  /** The pointer that a moving realloc returns is malloc's. */
  lemma ReallocEnds(h: Heap, b: nat, size: Word, scan: Scan)
    requires WellShaped(h) && Wf(h.pmm) && size > 0
    requires 0 != UserPointer(b) < WORD_LIMIT && BaseOf(UserPointer(b)) == b && b + METADATA <= |h.mem|
    requires OldSize(b, HeaderAt(h.mem, b)) != -1 && OldSize(b, HeaderAt(h.mem, b)) != RoundAllocSize(size)
    requires var r := Malloc(h, size, scan).1; r.Pointer? && 0 != r.p < WORD_LIMIT
    ensures var r := Realloc(h, UserPointer(b), size, scan).1; r.Pointer? ==> r == Malloc(h, size, scan).1
  {
    MallocShape(h, size, scan);
    hide ServiceFor, HeapSpec.Free, CopyForward, Malloc, RoundAllocSize, UserPointer, BaseOf, Wf, OldSize, HeaderAt;
  }

  // ---------------------------------------------------------------- contents

  /** What realloc leaves in memory when it moves a block of whole pages: malloc's memory with the
      bytes copied. */
  lemma PagesMoved(h: Heap, live: Blocks, reserved: set<nat>, b: nat, n: nat, size: Word, scan: Scan)
    requires HeapInv(h, live, reserved) && b in live && ServiceFor(live[b]) == Pages(n) && size > 0
    requires WellShaped(h) && Wf(h.pmm) && UserPointer(b) < WORD_LIMIT && GoodMalloc(h, size, scan)
    requires Succeeds(h, size, scan)
    ensures var (h', r) := Realloc(h, UserPointer(b), size, scan);
            var d := NewBase(h, size, scan);
            r == Pointer(UserPointer(d)) && h'.mem == CopyForward(Malloc(h, size, scan).0.mem, d + METADATA, b + METADATA, n % 0x1_0000 / PAGE_SIZE)
  {
    hide ServiceFor, RoundAllocSize, UserPointer, BaseOf, Wf, OldSize, HeaderAt, HeapInv, Realloc, Malloc, SeenSize, CopyForward, BlocksKept,
      HeapSpec.Free, CopyAndFree, GoodMalloc, NewBase;
    var (h1, r) := Malloc(h, size, scan);
    var d, l := NewBase(h, size, scan), n % 0x1_0000 / PAGE_SIZE;
    MallocStep(h, live, reserved, size, scan);
    LiveBase(h, live, reserved, b);
    LiveBase(h1, live[d := size], reserved, d);
    SeenSizeIs(h, live, reserved, b);
    PagesSeen(live, b, n);
    RoundsToZeroIff(size);
    NotWrapped(h, size, scan);
    BlocksLength(h.mem, h1.mem, live, {}, b);
    ReallocCopies(h, b, size, scan, h1, d);
    CopyAndFreeIs(h1, b, d, l);
    CopiedPagesFree(h1, live[d := size], reserved, b, d, n, l);
  }

  /** malloc returns a block. */
  ghost predicate Succeeds(h: Heap, size: Word, scan: Scan)
    requires |h.pools| == CLASSES && Wf(h.pmm)
  {
    var r := Malloc(h, size, scan).1;
    r.Pointer? && r.p != 0
  }

  lemma NotWrapped(h: Heap, size: Word, scan: Scan)
    requires |h.pools| == CLASSES && Wf(h.pmm) && GoodMalloc(h, size, scan) && Succeeds(h, size, scan)
    ensures size <= WORD_LIMIT - PAGE
  {
    ServiceIs(size);
    hide ServiceFor;
  }

  /** The copy next to a block of whole pages does not reach its header, so free still reads the count. */
  lemma CopiedPagesFree(h: Heap, live: Blocks, reserved: set<nat>, b: nat, d: nat, n: nat, l: nat)
    requires HeapInv(h, live, reserved) && b in live && d in live && b != d && ServiceFor(live[b]) == Pages(n) && l <= 15
    ensures WellShaped(h) && UserPointer(b) < WORD_LIMIT
    ensures var h2 := h.(mem := CopyForward(h.mem, d + METADATA, b + METADATA, l));
            var (h3, r) := HeapSpec.Free(h2, UserPointer(b));
            r == Done && h3.mem == h2.mem
  {
    hide ServiceFor, UserPointer, BaseOf, Wf, HeapInv, CopyForward, Room, HeaderAt;
    InvIsShaped(h, live, reserved);
    LiveBase(h, live, reserved, b);
    LiveBase(h, live, reserved, d);
    FreeDispatch(h, live, reserved, b);
    PagesClear(h, live, reserved, b, d, n);
    CountFits(h, live, reserved, b, n);
    CopyDisjoint(h.mem, d + METADATA, b + METADATA, l);
    SameHeader(h.mem, d + METADATA, h.mem[b + METADATA..b + METADATA + l], b);
  }

  lemma SameHeader(mem: seq<Byte>, a: nat, s: seq<Byte>, b: nat)
    requires b + METADATA <= |mem| && (a + |s| <= b || b + METADATA <= a)
    ensures HeaderAt(Write(mem, a, s), b) == HeaderAt(mem, b)
  {
    var m := Write(mem, a, s);
    assert m[b] == mem[b] && m[b + 1] == mem[b + 1];
    hide Write;
  }

  /** The first 17 bytes of block d, and of block b, overlap nothing of the other. */
  lemma PagesClear(h: Heap, live: Blocks, reserved: set<nat>, b: nat, d: nat, n: nat)
    requires HeapInv(h, live, reserved) && b in live && d in live && b != d && ServiceFor(live[b]) == Pages(n)
    ensures d + METADATA + 15 <= b || b + METADATA + 15 <= d
    ensures d + METADATA + 15 <= |h.mem| && b + METADATA + 15 <= |h.mem|
  {
    hide ServiceFor, ClassInv, Threaded, HeaderStored, SlabStored, ObjectOf, ClassSize, Range, FreePages, Wf;
    BlockRoomsApart(h, live, reserved, b, d);
    LivePlace(h.pools, h.pmm, live, reserved, b);
    LivePlace(h.pools, h.pmm, live, reserved, d);
    LiveBase(h, live, reserved, b);
    LiveBase(h, live, reserved, d);
    AllSingle(h.pools, h.pmm, live, reserved);
    var s := ServiceFor(live[d]);
    if s.Slab? {
      assert ClassPage(h.pools, s.c) / PAGE_SIZE < h.pmm.pages;
      assert b % PAGE_SIZE == 0;
    }
  }

  /** The allocator counts at least the pages of a live block. */
  lemma CountFits(h: Heap, live: Blocks, reserved: set<nat>, b: nat, n: nat)
    requires HeapInv(h, live, reserved) && b in live && ServiceFor(live[b]) == Pages(n)
    ensures n % 0x1_0000 <= h.pmm.used
  {
    hide ServiceFor, ClassInv, Threaded, HeaderStored, SlabStored, Books, PmmSpec.Free, Range, FreePages;
    assert PageServed(live, b);
    ReleasePagesBooks(h.pools, h.pmm, live, reserved, b, n % 0x1_0000);
  }

  /** Byte i of a new block before anything is stored in it: pages are zeroed, an object keeps what was
      there. */
  ghost function Residue(h: Heap, size: Word, d: nat, i: nat): (v: Byte)
    requires d + METADATA + i < |h.mem|
  {
    if ServiceFor(size).Pages? then 0 else h.mem[d + METADATA + i]
  }

  lemma ResidueIs(h: Heap, live: Blocks, reserved: set<nat>, size: Word, scan: Scan, i: nat)
    requires HeapInv(h, live, reserved) && |h.pools| == CLASSES && Wf(h.pmm) && GoodMalloc(h, size, scan) && Succeeds(h, size, scan)
    requires METADATA + i < Room(ServiceFor(size))
    ensures var d, m := NewBase(h, size, scan), Malloc(h, size, scan).0.mem;
            |m| == |h.mem| && d + METADATA + i < |h.mem| && m[d + METADATA + i] == Residue(h, size, d, i)
  {
    MallocStep(h, live, reserved, size, scan);
    var (h1, r) := Malloc(h, size, scan);
    var d := NewBase(h, size, scan);
    LiveBase(h1, live[d := size], reserved, d);
    match ServiceFor(size)
    case Slab(c) => SlabResidue(h, live, reserved, size, scan, c, i);
    case Pages(n) => PageResidue(h, size, scan, n, i);
  }

  lemma PageResidue(h: Heap, size: Word, scan: Scan, n: nat, i: nat)
    requires |h.pools| == CLASSES && Wf(h.pmm) && ServiceFor(size) == Pages(n) && METADATA + i < n * PAGE
    requires Succeeds(h, size, scan)
    ensures var d, m := NewBase(h, size, scan), Malloc(h, size, scan).0.mem;
            |m| == |h.mem| && (d + METADATA + i < |m| ==> m[d + METADATA + i] == 0)
  {
    hide ServiceFor, Wf, PageAlloc;
  }

  lemma SlabResidue(h: Heap, live: Blocks, reserved: set<nat>, size: Word, scan: Scan, c: nat, i: nat)
    requires HeapInv(h, live, reserved) && |h.pools| == CLASSES && Wf(h.pmm) && ServiceFor(size) == Slab(c) && c < CLASSES
    requires Succeeds(h, size, scan) && METADATA + i < ClassSize(c)
    ensures var d, m := NewBase(h, size, scan), Malloc(h, size, scan).0.mem;
            |m| == |h.mem| && (d + METADATA + i < |m| ==> m[d + METADATA + i] == h.mem[d + METADATA + i])
  {
    hide ServiceFor, Wf, ClassInv, Threaded, HeaderStored, SlabStored, SetSlab, Books, ClassSize;
    InvBooks(h, live, reserved);
    AllSingle(h.pools, h.pmm, live, reserved);
    MallocIs(h, size, scan, c);
    var slab := h.pools[c].slabs[0];
    var d := slab.free[0];
    assert Cell(h.pools, live, d, Slab(c));
    SlabApart(h.pools, h.pmm, live, reserved, d, Slab(c), c);
    ClassRoom(c);
    SetSlabOnly(h.mem, slab.page, At(slab.free, 1), |slab.free| - 1);
  }

  /** After the owner stored s in block b, a realloc succeeds and the new block starts with as much of s
      as it was asked to hold. */
  ghost predicate Survives(h: Heap, b: nat, s: seq<Byte>, size: Word, scan: Scan)
  {
    var h0 := Store(h, b, 0, s);
    && WellShaped(h0) && Wf(h0.pmm) && UserPointer(b) < WORD_LIMIT
    && var (h', r) := Realloc(h0, UserPointer(b), size, scan);
       var m := if size < |s| then size else |s|;
       && r.Pointer? && 0 != r.p < WORD_LIMIT && BaseOf(r.p) + METADATA + m <= |h'.mem|
       && forall i :: 0 <= i < m ==> h'.mem[BaseOf(r.p) + METADATA + i] == s[i]
  }

  /** malloc looks at the books only, not at the memory. */
  lemma MallocIgnoresMemory(h: Heap, mem: seq<Byte>, size: Word, scan: Scan)
    requires |h.pools| == CLASSES && Wf(h.pmm)
    ensures var h0 := h.(mem := mem);
            && Malloc(h0, size, scan).1 == Malloc(h, size, scan).1 && NewBase(h0, size, scan) == NewBase(h, size, scan)
            && (GoodMalloc(h0, size, scan) <==> GoodMalloc(h, size, scan))
  {
    hide ServiceFor, Wf, PageAlloc, CleanClaim, TakePages, TakeObject;
  }

  /** Byte i of the new block after a move of a block that holds s: copied, or what malloc left. */
  lemma MovedByte(h: Heap, live: Blocks, reserved: set<nat>, b: nat, n: nat, size: Word, scan: Scan, s: seq<Byte>, i: nat)
    requires HeapInv(h, live, reserved) && b in live && ServiceFor(live[b]) == Pages(n) && size > 0
    requires |h.pools| == CLASSES && Wf(h.pmm) && GoodMalloc(h, size, scan) && Succeeds(h, size, scan)
    requires |s| == live[b] && i < |s| && i < size
    ensures var h0, d := Store(h, b, 0, s), NewBase(h, size, scan);
            && WellShaped(h0) && Wf(h0.pmm) && UserPointer(b) < WORD_LIMIT
            && var (h', r) := Realloc(h0, UserPointer(b), size, scan);
               r == Pointer(UserPointer(d)) && 0 != r.p < WORD_LIMIT && BaseOf(r.p) == d && d + METADATA + i < |h'.mem| == |h.mem|
               && h'.mem[d + METADATA + i] == if i < n % 0x1_0000 / PAGE_SIZE then s[i] else Residue(h, size, d, i)
  {
    hide ServiceFor, UserPointer, BaseOf, Wf, HeapInv, Realloc, Malloc, CopyForward, BlocksKept, GoodMalloc, NewBase, Residue, Room;
    var h0, d, l := Store(h, b, 0, s), NewBase(h, size, scan), n % 0x1_0000 / PAGE_SIZE;
    StoreStep(h, live, reserved, b, 0, s);
    MallocIgnoresMemory(h, h0.mem, size, scan);
    InvIsShaped(h0, live, reserved);
    LiveBase(h, live, reserved, b);
    PagesMoved(h0, live, reserved, b, n, size, scan);
    MallocStep(h0, live, reserved, size, scan);
    var h1 := Malloc(h0, size, scan).0;
    var live1 := live[d := size];
    LiveBase(h1, live1, reserved, d);
    InvFits(h1, live1, reserved, d);
    ResidueIs(h0, live, reserved, size, scan, i);
    PagesClear(h1, live1, reserved, b, d, n);
    CopiedByte(h1.mem, d + METADATA, b + METADATA, l, i);
    if i < l {
      SourceByte(h, h0, h1.mem, live, b, s, i);
    } else {
      SameResidue(h, live, reserved, b, s, size, scan, i);
    }
  }

  lemma InvFits(h: Heap, live: Blocks, reserved: set<nat>, d: nat)
    requires HeapInv(h, live, reserved) && d in live
    ensures METADATA + live[d] <= Room(ServiceFor(live[d]))
  {
    hide ServiceFor, ClassInv, Threaded, SlabStored, HeaderStored;
  }

  lemma CopiedByte(mem: seq<Byte>, dst: nat, src: nat, l: nat, i: nat)
    requires dst + l <= |mem| && src + l <= |mem| && (dst + l <= src || src + l <= dst) && dst + i < |mem|
    ensures CopyForward(mem, dst, src, l)[dst + i] == if i < l then mem[src + i] else mem[dst + i]
  {
    CopyDisjoint(mem, dst, src, l);
    hide CopyForward;
  }

  /** malloc keeps the stored bytes. */
  lemma SourceByte(h: Heap, h0: Heap, mem: seq<Byte>, live: Blocks, b: nat, s: seq<Byte>, i: nat)
    requires b in live && h0 == Store(h, b, 0, s) && BlocksKept(h0.mem, mem, live, {}) && i < |s|
    requires METADATA + |s| <= Room(ServiceFor(live[b]))
    ensures b + METADATA + i < |mem| == |h.mem| && mem[b + METADATA + i] == s[i]
  {
    hide ServiceFor, Room;
    assert SameBytes(h0.mem, mem, b, Room(ServiceFor(live[b])));
  }

  /** The store in block b does not touch the bytes of the new block. */
  lemma SameResidue(h: Heap, live: Blocks, reserved: set<nat>, b: nat, s: seq<Byte>, size: Word, scan: Scan, i: nat)
    requires HeapInv(h, live, reserved) && b in live && |s| == live[b] && |h.pools| == CLASSES && Wf(h.pmm)
    requires GoodMalloc(h, size, scan) && Succeeds(h, size, scan) && i < size
    ensures var h0, d := Store(h, b, 0, s), NewBase(h, size, scan);
            d + METADATA + i < |h.mem| && Residue(h0, size, d, i) == Residue(h, size, d, i)
  {
    hide ServiceFor, Wf, HeapInv, Malloc, BlocksKept, GoodMalloc, NewBase, Room, UserPointer, BaseOf;
    var d, h1 := NewBase(h, size, scan), Malloc(h, size, scan).0;
    MallocStep(h, live, reserved, size, scan);
    LiveBase(h1, live[d := size], reserved, d);
    InvFits(h1, live[d := size], reserved, d);
    BlockRoomsApart(h1, live[d := size], reserved, b, d);
    InvFits(h, live, reserved, b);
    LiveBase(h, live, reserved, b);
    ResidueIs(h, live, reserved, size, scan, i);
  }

  /** What the owner of a block of n whole pages stored survives every realloc, whatever the bytes, if
      and only if the new size is at most n % 65536 / 4096, that is at most 15 bytes. */
  lemma PagesSurviveIff(h: Heap, live: Blocks, reserved: set<nat>, b: nat, n: nat, size: Word, scan: Scan)
    requires HeapInv(h, live, reserved) && b in live && ServiceFor(live[b]) == Pages(n) && size > 0
    requires |h.pools| == CLASSES && Wf(h.pmm) && GoodMalloc(h, size, scan) && Succeeds(h, size, scan)
    ensures (forall s: seq<Byte> | |s| == live[b] :: Survives(h, b, s, size, scan)) <==> size <= n % 0x1_0000 / PAGE_SIZE
  {
    hide ServiceFor, UserPointer, BaseOf, Wf, HeapInv, Realloc, Malloc, GoodMalloc, NewBase, Residue, Store;
    var l, d := n % 0x1_0000 / PAGE_SIZE, NewBase(h, size, scan);
    PagesCopyExactly(live, b, n, 1);
    ServiceIs(live[b]);
    if size <= l {
      forall s: seq<Byte> | |s| == live[b] ensures Survives(h, b, s, size, scan) {
        forall i | 0 <= i < size ensures MovedTo(h, b, s, size, scan, d, i) && i < l {
          MovedByte(h, live, reserved, b, n, size, scan, s, i);
        }
        SurvivesIf(h, b, s, size, scan, d);
      }
    } else {
      SameResidue(h, live, reserved, b, seq<Byte>(live[b], i requires 0 <= i < live[b] => 0), size, scan, l);
      var v: Byte := if Residue(h, size, d, l) == 0 then 1 else 0;
      var s := seq<Byte>(live[b], i requires 0 <= i < live[b] => v);
      MovedByte(h, live, reserved, b, n, size, scan, s, l);
      LostIf(h, b, s, size, scan, d, l);
    }
  }

  /** Byte i of s is byte i of the new block d. */
  ghost predicate MovedTo(h: Heap, b: nat, s: seq<Byte>, size: Word, scan: Scan, d: nat, i: nat)
  {
    var h0 := Store(h, b, 0, s);
    && i < |s| && WellShaped(h0) && Wf(h0.pmm) && UserPointer(b) < WORD_LIMIT
    && var (h', r) := Realloc(h0, UserPointer(b), size, scan);
       r == Pointer(UserPointer(d)) && 0 != r.p < WORD_LIMIT && BaseOf(r.p) == d && d + METADATA + i < |h'.mem|
       && h'.mem[d + METADATA + i] == s[i]
  }

  lemma SurvivesIf(h: Heap, b: nat, s: seq<Byte>, size: Word, scan: Scan, d: nat)
    requires 0 < size <= |s| && forall i :: 0 <= i < size ==> MovedTo(h, b, s, size, scan, d, i)
    ensures Survives(h, b, s, size, scan)
  {
    hide Store, Realloc, UserPointer, BaseOf, Wf, WellShaped;
    assert MovedTo(h, b, s, size, scan, d, size - 1);
    var h' := Realloc(Store(h, b, 0, s), UserPointer(b), size, scan).0;
    forall i | 0 <= i < size ensures h'.mem[d + METADATA + i] == s[i] {
      assert MovedTo(h, b, s, size, scan, d, i);
    }
  }

  lemma LostIf(h: Heap, b: nat, s: seq<Byte>, size: Word, scan: Scan, d: nat, l: nat)
    requires var h0 := Store(h, b, 0, s);
             && WellShaped(h0) && Wf(h0.pmm) && UserPointer(b) < WORD_LIMIT && l < |s| && l < size
             && var (h', r) := Realloc(h0, UserPointer(b), size, scan);
                r == Pointer(UserPointer(d)) && 0 != r.p < WORD_LIMIT && BaseOf(r.p) == d && d + METADATA + l < |h'.mem|
                && h'.mem[d + METADATA + l] != s[l]
    ensures !Survives(h, b, s, size, scan)
  {
    hide Store, Realloc, UserPointer, BaseOf, Wf, WellShaped;
  }

  // ---------------------------------------------------------------- a reachable block of n pages

  /** For every n that memory can hold there is a heap, one call of malloc after its start, with a live
      block of n pages. */
  lemma BigBlock(n: nat) returns (size: Word)
    requires n > 0 && (14 + n) * PAGE_SIZE <= WORD_LIMIT
    ensures ServiceFor(size) == Pages(n)
    ensures var pmm, mem, calls := ExampleState(0, n), ExampleMemory(n), [MallocCall(size)];
            Reaches(pmm, mem, calls, Repaired) && Reached(pmm, mem, calls, Repaired).live == map[13 * PAGE_SIZE := size]
  {
    hide HeapInv, ServiceFor, ExampleState, ExampleMemory, Malloc, GoodMalloc, UserPointer, BaseOf, Boots, Wf, AllocRange, Start, InUse;
    size := n * PAGE - METADATA;
    ServiceIs(size);
    PageQuotient(n * PAGE);
    WholePages(n);
    ExampleBoots(n);
    var pmm, mem := ExampleState(0, n), ExampleMemory(n);
    var w := Start(pmm, mem);
    StartReaches(pmm, mem, Repaired);
    ReachedInv(pmm, mem, [], Repaired);
    InvIsReady(w.h, w.live, InUse(pmm, mem));
    ExampleRange(n);
    RepairedIsGood(w.h, size);
    MallocRange(w.h, size, n, 13);
    PointerRoundTrip(13 * PAGE_SIZE);
    OneMore(pmm, mem, [], MallocCall(size), Repaired);
    assert [] + [MallocCall(size)] == [MallocCall(size)];
  }

  lemma WholePages(n: nat)
    requires n > 0
    ensures (n * PAGE + PAGE - 1) / PAGE == n
  {
    AddMultiple(n, PAGE - 1, PAGE);
    SmallMod(PAGE - 1, PAGE);
  }

  lemma ExampleRange(n: nat)
    requires n > 0
    ensures AllocRange(ExampleState(12, n), n).1 == 13 * PAGE_SIZE
  {
    var s := ExampleState(12, n);
    FirstRangeIsLeast(s.bits, s.pages, n, 0);
    var r := FirstRange(s.bits, s.pages, n, 0);
    hide FirstRange, Mark;
    assert RangeFree(s.bits, s.pages, 13, n);
    forall i: nat | i < 13 ensures !RangeFree(s.bits, s.pages, i, n) { assert s.bits[i]; }
  }

  lemma MallocRange(h: Heap, size: Word, n: nat, b: nat)
    requires |h.pools| == CLASSES && Wf(h.pmm) && ServiceFor(size) == Pages(n) && b > 0 && AllocRange(h.pmm, n).1 == b * PAGE_SIZE
    ensures Malloc(h, size, Repaired).1 == Pointer(UserPointer(b * PAGE_SIZE))
  {
    hide ServiceFor, Wf, AllocRange, TakePages;
  }

  /** So for every n there is a reachable heap, and bytes in a block of n pages, that a realloc to 16
      bytes loses. */
  lemma ContentsLost(n: nat) returns (size: Word, s: seq<Byte>)
    requires n > 0 && (14 + n) * PAGE_SIZE <= WORD_LIMIT
    ensures ServiceFor(size) == Pages(n) && |s| == size
    ensures var pmm, mem, calls := ExampleState(0, n), ExampleMemory(n), [MallocCall(size)];
            var w := Reached(pmm, mem, calls, Repaired);
            Reaches(pmm, mem, calls, Repaired) && w.live == map[13 * PAGE_SIZE := size] && !Survives(w.h, 13 * PAGE_SIZE, s, 16, Repaired)
  {
    hide HeapInv, ServiceFor, ExampleState, ExampleMemory, Malloc, GoodMalloc, UserPointer, BaseOf, Boots, Wf, Reaches, Reached, InUse, Survives, Held;
    size := BigBlock(n);
    var pmm, mem, calls, b := ExampleState(0, n), ExampleMemory(n), [MallocCall(size)], 13 * PAGE_SIZE;
    var w := Reached(pmm, mem, calls, Repaired);
    ReachedBoots(pmm, mem, calls, Repaired);
    ReachedInv(pmm, mem, calls, Repaired);
    InvIsReady(w.h, w.live, InUse(pmm, mem));
    SmallIsGood(w.h, 16, Repaired);
    SixteenSucceeds(w.h, w.live, InUse(pmm, mem), b);
    PagesSurviveIff(w.h, w.live, InUse(pmm, mem), b, n, 16, Repaired);
    s :| |s| == w.live[b] && !Survives(w.h, b, s, 16, Repaired);
  }

  /** With one block of whole pages live, malloc still serves 16 bytes. */
  lemma SixteenSucceeds(h: Heap, live: Blocks, reserved: set<nat>, b: nat)
    requires HeapInv(h, live, reserved) && |h.pools| == CLASSES && Wf(h.pmm) && live.Keys == {b} && ServiceFor(live[b]).Pages?
    ensures Succeeds(h, 16, Repaired)
  {
    hide HeapInv, ServiceFor, Malloc, Wf, BlocksKept;
    ServiceIs(16);
    var c := ServiceFor(16).c;
    assert Held(live, c) == {};
    assert |Held(live, c)| == 0;
    ManyObjects(c);
    MallocSlab(h, live, reserved, 16, Repaired, c);
    SlabAnswer(h, 16, c);
  }

  lemma SlabAnswer(h: Heap, size: Word, c: nat)
    requires |h.pools| == CLASSES && Wf(h.pmm) && ServiceFor(size) == Slab(c)
    requires Malloc(h, size, Repaired).1 != Panicked
    ensures Malloc(h, size, Repaired).1.Pointer?
  {
    hide ServiceFor, Wf, TakeObject;
  }

  /** With the repaired scan, freeing a block of n pages gives back all of them in every reachable heap
      if and only if n fits the 16-bit header; for larger n there is such a heap. */
  ghost predicate AlwaysReturnsAll(n: nat)
  {
    forall pmm: State, mem: seq<Byte>, calls: seq<Call>, b: nat | Reaches(pmm, mem, calls, Repaired) ::
      ReturnsAll(Reached(pmm, mem, calls, Repaired), b, n)
  }

  ghost predicate ReturnsAll(w: World, b: nat, n: nat)
  {
    PageServed(w.live, b) && ServiceFor(w.live[b]) == Pages(n) ==>
      Ready(w.h) && UserPointer(b) < WORD_LIMIT
      && FreePages(HeapSpec.Free(w.h, UserPointer(b)).0.pmm) == FreePages(w.h.pmm) + Frames(w.live, b)
  }

  lemma ReturnsAllIff(n: nat)
    requires n > 0 && (14 + n) * PAGE_SIZE <= WORD_LIMIT
    ensures AlwaysReturnsAll(n) <==> n < 0x1_0000
  {
    hide HeapInv, ServiceFor, Reaches, Reached, InUse, Boots, HeapSpec.Free, UserPointer, FreePages, Frames, Ready, Wf;
    if n < 0x1_0000 {
      forall pmm: State, mem: seq<Byte>, calls: seq<Call>, b: nat | Reaches(pmm, mem, calls, Repaired)
        ensures ReturnsAll(Reached(pmm, mem, calls, Repaired), b, n)
      {
        ReachedReturns(pmm, mem, calls, b, n);
      }
    } else {
      var size := BigBlock(n);
      var pmm, mem, calls := ExampleState(0, n), ExampleMemory(n), [MallocCall(size)];
      ReachedReturns(pmm, mem, calls, 13 * PAGE_SIZE, n);
      assert 13 * PAGE_SIZE in Reached(pmm, mem, calls, Repaired).live;
      assert !ReturnsAll(Reached(pmm, mem, calls, Repaired), 13 * PAGE_SIZE, n);
    }
  }

  lemma ReachedReturns(pmm: State, mem: seq<Byte>, calls: seq<Call>, b: nat, n: nat)
    requires Reaches(pmm, mem, calls, Repaired)
    ensures var w := Reached(pmm, mem, calls, Repaired);
            PageServed(w.live, b) && ServiceFor(w.live[b]) == Pages(n) ==> (ReturnsAll(w, b, n) <==> n < 0x1_0000)
  {
    hide HeapInv, ServiceFor, Reaches, Reached, InUse, Boots, HeapSpec.Free, UserPointer, BaseOf, FreePages, Frames, Wf;
    var w := Reached(pmm, mem, calls, Repaired);
    ReachedBoots(pmm, mem, calls, Repaired);
    ReachedInv(pmm, mem, calls, Repaired);
    if PageServed(w.live, b) && ServiceFor(w.live[b]) == Pages(n) {
      InvIsReady(w.h, w.live, InUse(pmm, mem));
      LiveBase(w.h, w.live, InUse(pmm, mem), b);
      AllPagesBackIff(w.h, w.live, InUse(pmm, mem), b, n);
    }
  }
}

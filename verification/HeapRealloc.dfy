/** realloc: what its size arithmetic does, and when moving a block keeps contents and heap. */
module HeapRealloc {
  import opened Words
  import opened PmmSpec
  import opened SlabSpec
  import opened HeapMemory
  import opened HeapSizes
  import opened HeapSpec
  import opened HeapBooks
  import opened HeapCells
  import opened HeapSteps

  /** memcpy: byte by byte from the front. */
  function CopyForward(mem: seq<Byte>, dst: nat, src: nat, n: nat): (r: seq<Byte>)
    ensures |r| == |mem|
  {
    if n == 0 then mem
    else
      var m := CopyForward(mem, dst, src, n - 1);
      if dst + n - 1 < |m| && src + n - 1 < |m| then m[dst + n - 1 := m[src + n - 1]] else m
  }

  /** Copying between ranges that do not overlap moves the old bytes. */
  lemma {:induction false} CopyDisjoint(mem: seq<Byte>, dst: nat, src: nat, n: nat)
    requires dst + n <= |mem| && src + n <= |mem| && (dst + n <= src || src + n <= dst)
    ensures CopyForward(mem, dst, src, n) == Write(mem, dst, mem[src..src + n])
  {
    if n > 0 {
      CopyDisjoint(mem, dst, src, n - 1);
    }
  }

  /** The size that realloc takes the old block to have. For whole pages the code divides the page
      count by the page size. */
  function OldSize(b: nat, header: nat): (n: int)
  {
    if b % PAGE_SIZE != 0 then IndexToSize(header) else header / PAGE_SIZE
  }

  /** The number of bytes realloc copies. */
  function CopyLength(was: nat, rounded: nat): (n: nat)
  {
    if was > rounded then rounded else was
  }

  ghost predicate WellShaped(h: Heap)
  {
    |h.pools| == CLASSES && forall c :: 0 <= c < CLASSES ==> h.pools[c].size > 0
  }

  lemma MallocShape(h: Heap, size: Word, scan: Scan)
    requires WellShaped(h) && Wf(h.pmm)
    ensures WellShaped(Malloc(h, size, scan).0)
  {
    hide ServiceFor, Wf, FreePages;
  }

  /** The end of realloc: the bytes go to the new block, and the old block is freed. */
  function CopyAndFree(h: Heap, p: Word, q: Word, n: nat): (r: (Heap, Result))
    requires WellShaped(h)
  {
    var mem := CopyForward(h.mem, BaseOf(q) + METADATA, BaseOf(p) + METADATA, n);
    var (h1, e) := HeapSpec.Free(h.(mem := mem), p);
    (h1, if e == Done then Pointer(q) else e)
  }

  function Realloc(h: Heap, p: Word, size: Word, scan: Scan): (next: (Heap, Result))
    requires WellShaped(h) && Wf(h.pmm)
  {
    if p == 0 then Malloc(h, size, scan)
    else if size == 0 then
      var (h1, r) := HeapSpec.Free(h, p);
      (h1, if r == Done then Pointer(0) else r)
    else if BaseOf(p) + METADATA > |h.mem| then (h, Stray)
    else
      var was := OldSize(BaseOf(p), HeaderAt(h.mem, BaseOf(p)));
      if was == -1 then (h, Pointer(0))
      else if was == RoundAllocSize(size) then (h, Pointer(p))
      else
        MallocShape(h, size, scan);
        var (h1, r) := Malloc(h, size, scan);
        if !(r.Pointer? && 0 != r.p < WORD_LIMIT) then (h1, r)
        else CopyAndFree(h1, p, r.p, CopyLength(was, RoundAllocSize(size)))
  }

  // ---------------------------------------------------------------- the copy

  /** A copy of the same length stays in the new block. */
  predicate CopyFits(was: nat, size: Word)
  {
    METADATA + CopyLength(was, RoundAllocSize(size)) <= Room(ServiceFor(size))
  }

  /** The new block has room for the copy exactly when the old class is smaller than the rounded new
      size, or the new size needs the next class once the header is added. In the remaining case the
      last two bytes fall behind the new block. */
  lemma CopyFitsIff(c: nat, size: Word)
    requires c < CLASSES && size + METADATA <= WORD_LIMIT - PAGE && ClassSize(c) != RoundAllocSize(size)
    ensures CopyFits(ClassSize(c), size) <==> ClassSize(c) < RoundAllocSize(size) || size + METADATA > RoundAllocSize(size)
  {
    hide ServiceFor, RoundAllocSize;
    ServiceIs(size);
    if size + METADATA > LARGEST { PageQuotient(size + METADATA); }
    if size <= LARGEST {
      var d := RoundSmall(size);
      var s := ServiceFor(size);
      SmallCopy(c, d, size, s);
    } else {
      RoundLarge(size);
      PageQuotient(size);
      var s := ServiceFor(size);
      assert ClassSize(c) <= LARGEST && Room(s) >= PAGE;
    }
  }

  lemma SmallCopy(c: nat, d: nat, size: Word, s: Service)
    requires c < CLASSES && d < CLASSES && c != d && size <= ClassSize(d) && (d > 0 ==> ClassSize(d - 1) < size)
    requires size + METADATA <= LARGEST ==> s.Slab? && s.c < CLASSES && size + METADATA <= ClassSize(s.c)
    requires size + METADATA <= LARGEST && s.c > 0 ==> ClassSize(s.c - 1) < size + METADATA
    requires size + METADATA > LARGEST ==> s.Pages? && s.n > 0
    ensures METADATA + CopyLength(ClassSize(c), ClassSize(d)) <= Room(s) <==> ClassSize(c) < ClassSize(d) || size + METADATA > ClassSize(d)
  {
  }

  // ---------------------------------------------------------------- moving a block

  /** The size realloc sees for a live block: its class, or the page count over the page size. */
  ghost function SeenSize(live: Blocks, b: nat): (v: nat)
    requires b in live
  {
    match ServiceFor(live[b])
    case Slab(c) => ClassSize(c)
    case Pages(n) => n % 0x1_0000 / PAGE_SIZE
    case Refused => 0
  }

  lemma SeenSizeIs(h: Heap, live: Blocks, reserved: set<nat>, b: nat)
    requires HeapInv(h, live, reserved) && b in live
    ensures b + METADATA <= |h.mem| && OldSize(b, HeaderAt(h.mem, b)) == SeenSize(live, b) <= Room(ServiceFor(live[b]))
    ensures SeenSize(live, b) + METADATA + b <= |h.mem|
  {
    hide ServiceFor, ClassInv, HeaderAt, ObjectOf, Threaded, HeaderStored, Range;
    FreeDispatch(h, live, reserved, b);
    LiveBase(h, live, reserved, b);
    LivePlace(h.pools, h.pmm, live, reserved, b);
    AllSingle(h.pools, h.pmm, live, reserved);
    var s := ServiceFor(live[b]);
    if s.Slab? { assert ClassPage(h.pools, s.c) / PAGE_SIZE < h.pmm.pages; }
    hide Books;
  }

  /** What a successful move of block b to block d leaves. */
  ghost predicate Moved(h: Heap, live: Blocks, reserved: set<nat>, b: nat, size: Word, kept: nat, h': Heap, d: nat)
  {
    && d !in live
    && HeapInv(h', live[d := size] - {b}, reserved)
    && d + METADATA + kept <= |h'.mem| && b + METADATA + kept <= |h.mem|
    && h'.mem[d + METADATA..d + METADATA + kept] == h.mem[b + METADATA..b + METADATA + kept]
    && BlocksKept(h.mem, h'.mem, live, {b})
  }

  /** How many of the old user bytes are in the new block. */
  ghost function KeptLength(live: Blocks, b: nat, size: Word): (v: nat)
    requires b in live
  {
    var n := CopyLength(SeenSize(live, b), RoundAllocSize(size));
    if n + METADATA <= Room(ServiceFor(live[b])) then n
    else if Room(ServiceFor(live[b])) >= METADATA then Room(ServiceFor(live[b])) - METADATA else 0
  }

  lemma WrittenSlice(mem: seq<Byte>, a: nat, s: seq<Byte>)
    requires a + |s| <= |mem|
    ensures Write(mem, a, s)[a..a + |s|] == s
  {
  }

  lemma PartSlice(mem: seq<Byte>, mem': seq<Byte>, b: nat, n: nat, lo: nat, hi: nat)
    requires SameBytes(mem, mem', b, n) && b <= lo <= hi <= b + n
    ensures |mem'| == |mem| && hi <= |mem| && mem'[lo..hi] == mem[lo..hi]
  {
  }

  lemma SliceOfSlice(m: seq<Byte>, m': seq<Byte>, lo: nat, lo': nat, n: nat, k: nat)
    requires k <= n && lo + n <= |m| && lo' + n <= |m'| && m'[lo'..lo' + n] == m[lo..lo + n]
    ensures m'[lo'..lo' + k] == m[lo..lo + k]
  {
    assert m'[lo'..lo' + k] == m'[lo'..lo' + n][..k];
    assert m[lo..lo + k] == m[lo..lo + n][..k];
  }

  /** The copy after malloc returned block d: it lands in d and leaves everything else. */
  lemma CopyStep(h: Heap, live: Blocks, reserved: set<nat>, b: nat, d: nat, n: nat)
    requires HeapInv(h, live, reserved) && b in live && d in live && b != d
    requires n <= Room(ServiceFor(live[b])) && METADATA + n <= Room(ServiceFor(live[d])) && b + METADATA + n <= |h.mem|
    ensures var h' := h.(mem := CopyForward(h.mem, d + METADATA, b + METADATA, n));
            && HeapInv(h', live, reserved) && BlocksKept(h.mem, h'.mem, live, {d})
            && d + METADATA + n <= |h.mem|
            && h'.mem[d + METADATA..d + METADATA + n] == h.mem[b + METADATA..b + METADATA + n]
  {
    hide HeapInv, ServiceFor, Room, BlocksKept, CopyForward, Store;
    LiveBase(h, live, reserved, d);
    BlockRoomsApart(h, live, reserved, b, d);
    var s := h.mem[b + METADATA..b + METADATA + n];
    RoomStore(h, live, reserved, d, 0, s);
    CopyIsStore(h, b, d, n);
    WrittenSlice(h.mem, d + METADATA, s);
  }

  lemma CopyIsStore(h: Heap, b: nat, d: nat, n: nat)
    requires d + METADATA + n <= |h.mem| && b + METADATA + n <= |h.mem|
    requires d + n <= b || b + n <= d
    ensures h.(mem := CopyForward(h.mem, d + METADATA, b + METADATA, n)) == Store(h, d, 0, h.mem[b + METADATA..b + METADATA + n])
    ensures Store(h, d, 0, h.mem[b + METADATA..b + METADATA + n]).mem == Write(h.mem, d + METADATA, h.mem[b + METADATA..b + METADATA + n])
  {
    CopyDisjoint(h.mem, d + METADATA, b + METADATA, n);
    hide CopyForward, Write;
  }

  lemma BlockRoomsApart(h: Heap, live: Blocks, reserved: set<nat>, a: nat, b: nat)
    requires HeapInv(h, live, reserved) && a in live && b in live && a != b
    ensures a + Room(ServiceFor(live[a])) <= b || b + Room(ServiceFor(live[b])) <= a
  {
    hide ServiceFor, ClassInv, PageBlock;
    CellsApart(h.pools, h.pmm, live, reserved, a, ServiceFor(live[a]), b, ServiceFor(live[b]));
  }

  /** The three steps of a move: allocate, copy, free. */
  lemma MoveSteps(h: Heap, live: Blocks, reserved: set<nat>, b: nat, size: Word, h1: Heap, d: nat, n: nat, kept: nat)
    requires HeapInv(h, live, reserved) && b in live && d !in live
    requires HeapInv(h1, live[d := size], reserved) && BlocksKept(h.mem, h1.mem, live, {})
    requires n <= Room(ServiceFor(live[b])) && METADATA + n <= Room(ServiceFor(size)) && b + METADATA + n <= |h1.mem|
    requires kept <= n && METADATA + kept <= Room(ServiceFor(live[b]))
    ensures var h2 := h1.(mem := CopyForward(h1.mem, d + METADATA, b + METADATA, n));
            && WellShaped(h2) && UserPointer(b) < WORD_LIMIT
            && var (h3, r) := HeapSpec.Free(h2, UserPointer(b)); r == Done && Moved(h, live, reserved, b, size, kept, h3, d)
  {
    hide HeapInv, ServiceFor, HeapSpec.Free, CopyForward, Room, BlocksKept, UserPointer, BaseOf, Wf, SameBytes;
    var live1 := live[d := size];
    CopyStep(h1, live1, reserved, b, d, n);
    var h2 := h1.(mem := CopyForward(h1.mem, d + METADATA, b + METADATA, n));
    InvIsShaped(h2, live1, reserved);
    LiveBase(h2, live1, reserved, b);
    FreeStep(h2, live1, reserved, b);
    var h3 := HeapSpec.Free(h2, UserPointer(b)).0;
    MoveKeeps(h.mem, h1.mem, h2.mem, h3.mem, live, b, d, size);
    LiveBase(h, live, reserved, b);
    LiveBase(h2, live1, reserved, d);
    var src, dst := b + METADATA, d + METADATA;
    SameIn(h.mem, h1.mem, live, {}, b);
    SameIn(h2.mem, h3.mem, live1, {b}, d);
    PartSlice(h.mem, h1.mem, b, Room(ServiceFor(live[b])), src, src + kept);
    PartSlice(h2.mem, h3.mem, d, Room(ServiceFor(size)), dst, dst + kept);
    SliceOfSlice(h1.mem, h2.mem, src, dst, n, kept);
  }

  lemma SameIn(mem: seq<Byte>, mem': seq<Byte>, live: Blocks, except: set<nat>, b: nat)
    requires BlocksKept(mem, mem', live, except) && b in live && b !in except
    ensures SameBytes(mem, mem', b, Room(ServiceFor(live[b])))
  {
    hide ServiceFor, SameBytes, Room;
  }

  lemma InvIsShaped(h: Heap, live: Blocks, reserved: set<nat>)
    requires HeapInv(h, live, reserved)
    ensures WellShaped(h) && Wf(h.pmm)
  {
    hide ServiceFor, ClassInv;
    AllSingle(h.pools, h.pmm, live, reserved);
  }

  lemma MoveKeeps(m0: seq<Byte>, m1: seq<Byte>, m2: seq<Byte>, m3: seq<Byte>, live: Blocks, b: nat, d: nat, size: Word)
    requires d !in live && BlocksKept(m0, m1, live, {})
    requires BlocksKept(m1, m2, live[d := size], {d}) && BlocksKept(m2, m3, live[d := size], {b})
    ensures BlocksKept(m0, m3, live, {b})
  {
    hide ServiceFor, Room;
    forall a | a in live && a != b ensures SameBytes(m0, m3, a, Room(ServiceFor(live[a]))) {
      var n := Room(ServiceFor(live[a]));
      assert live[d := size][a] == live[a] && a != d;
      assert SameBytes(m0, m1, a, n) && SameBytes(m1, m2, a, n) && SameBytes(m2, m3, a, n);
    }
  }

  /** A realloc that cannot stay in place, and whose copy fits, moves the block: the new block holds
      the old bytes, every other block is unchanged, and the old block is released. When malloc
      refuses or panics, nothing changes for any block. */
  lemma ReallocMoves(h: Heap, live: Blocks, reserved: set<nat>, b: nat, size: Word, scan: Scan)
    requires HeapInv(h, live, reserved) && b in live && size > 0 && Wf(h.pmm) && GoodMalloc(h, size, scan)
    requires SeenSize(live, b) != RoundAllocSize(size) && CopyFits(SeenSize(live, b), size)
    ensures WellShaped(h) && UserPointer(b) < WORD_LIMIT
    ensures var (h', r) := Realloc(h, UserPointer(b), size, scan);
            || (r == Pointer(UserPointer(NewBase(h, size, scan)))
                && Moved(h, live, reserved, b, size, KeptLength(live, b, size), h', NewBase(h, size, scan)))
            || ((r == Pointer(0) || r == Panicked) && HeapInv(h', live, reserved) && BlocksKept(h.mem, h'.mem, live, {}))
  {
    InvIsShaped(h, live, reserved);
    hide HeapInv, ServiceFor, HeapSpec.Free, CopyForward, Room, BlocksKept, Malloc, GoodMalloc, NewBase, RoundAllocSize, UserPointer, BaseOf, Wf,
      OldSize, HeaderAt, SeenSize, Realloc, KeptLength, CopyLength, Moved, CopyAndFree;
    LiveBase(h, live, reserved, b);
    SeenSizeIs(h, live, reserved, b);
    MallocStep(h, live, reserved, size, scan);
    var (h1, r) := Malloc(h, size, scan);
    var d := NewBase(h, size, scan);
    if r.Pointer? && r.p != 0 {
      LiveBase(h1, live[d := size], reserved, d);
      BlocksLength(h.mem, h1.mem, live, {}, b);
      KeptBound(live, b, size);
      MoveSteps(h, live, reserved, b, size, h1, d, CopyLength(SeenSize(live, b), RoundAllocSize(size)), KeptLength(live, b, size));
      ReallocCopies(h, b, size, scan, h1, d);
      CopyAndFreeIs(h1, b, d, CopyLength(SeenSize(live, b), RoundAllocSize(size)));
    } else {
      ReallocRefused(h, b, size, scan);
    }
  }

  lemma KeptBound(live: Blocks, b: nat, size: Word)
    requires b in live && SeenSize(live, b) <= Room(ServiceFor(live[b])) && Room(ServiceFor(live[b])) >= METADATA
    ensures CopyLength(SeenSize(live, b), RoundAllocSize(size)) <= Room(ServiceFor(live[b]))
    ensures KeptLength(live, b, size) <= CopyLength(SeenSize(live, b), RoundAllocSize(size))
    ensures METADATA + KeptLength(live, b, size) <= Room(ServiceFor(live[b]))
  {
    hide ServiceFor, Room, RoundAllocSize, SeenSize;
  }

  /** realloc when the size changes and malloc gives nothing. */
  lemma ReallocRefused(h: Heap, b: nat, size: Word, scan: Scan)
    requires WellShaped(h) && Wf(h.pmm) && size > 0
    requires 0 != UserPointer(b) < WORD_LIMIT && BaseOf(UserPointer(b)) == b && b + METADATA <= |h.mem|
    requires OldSize(b, HeaderAt(h.mem, b)) != -1 && OldSize(b, HeaderAt(h.mem, b)) != RoundAllocSize(size)
    requires var r := Malloc(h, size, scan).1; !(r.Pointer? && 0 != r.p < WORD_LIMIT)
    ensures Realloc(h, UserPointer(b), size, scan) == Malloc(h, size, scan)
  {
    hide ServiceFor, HeapSpec.Free, CopyForward, Malloc, RoundAllocSize, UserPointer, BaseOf, Wf, OldSize, HeaderAt;
  }

  /** realloc when the size changes and malloc gives block d. */
  lemma ReallocCopies(h: Heap, b: nat, size: Word, scan: Scan, h1: Heap, d: nat)
    requires WellShaped(h) && Wf(h.pmm) && size > 0
    requires 0 != UserPointer(b) < WORD_LIMIT && BaseOf(UserPointer(b)) == b && b + METADATA <= |h.mem|
    requires OldSize(b, HeaderAt(h.mem, b)) != -1 && OldSize(b, HeaderAt(h.mem, b)) != RoundAllocSize(size)
    requires Malloc(h, size, scan) == (h1, Pointer(UserPointer(d))) && 0 != UserPointer(d) < WORD_LIMIT && BaseOf(UserPointer(d)) == d
    ensures WellShaped(h1)
    ensures Realloc(h, UserPointer(b), size, scan)
         == CopyAndFree(h1, UserPointer(b), UserPointer(d), CopyLength(OldSize(b, HeaderAt(h.mem, b)), RoundAllocSize(size)))
  {
    MallocShape(h, size, scan);
    hide ServiceFor, CopyAndFree, Malloc, RoundAllocSize, UserPointer, BaseOf, Wf, OldSize, HeaderAt;
  }

  lemma CopyAndFreeIs(h: Heap, b: nat, d: nat, n: nat)
    requires WellShaped(h) && UserPointer(b) < WORD_LIMIT && UserPointer(d) < WORD_LIMIT
    requires BaseOf(UserPointer(b)) == b && BaseOf(UserPointer(d)) == d
    ensures var h2 := h.(mem := CopyForward(h.mem, d + METADATA, b + METADATA, n));
            var (h3, e) := HeapSpec.Free(h2, UserPointer(b));
            CopyAndFree(h, UserPointer(b), UserPointer(d), n) == (h3, if e == Done then Pointer(UserPointer(d)) else e)
  {
    hide HeapSpec.Free, CopyForward, UserPointer, BaseOf;
  }

  lemma BlocksLength(mem: seq<Byte>, mem': seq<Byte>, live: Blocks, except: set<nat>, b: nat)
    requires BlocksKept(mem, mem', live, except) && b in live && b !in except
    ensures |mem'| == |mem|
  {
    hide ServiceFor, Room;
    SameIn(mem, mem', live, except, b);
  }

  /** Growing a slab block of class c: all c - 2 user bytes survive. */
  lemma ReallocGrows(h: Heap, live: Blocks, reserved: set<nat>, b: nat, c: nat, size: Word, scan: Scan)
    requires HeapInv(h, live, reserved) && b in live && c < CLASSES && ServiceFor(live[b]) == Slab(c)
    requires size + METADATA <= WORD_LIMIT - PAGE && ClassSize(c) < RoundAllocSize(size)
    requires Wf(h.pmm) && GoodMalloc(h, size, scan)
    ensures WellShaped(h) && UserPointer(b) < WORD_LIMIT
    ensures var (h', r) := Realloc(h, UserPointer(b), size, scan);
            || (r == Pointer(UserPointer(NewBase(h, size, scan)))
                && Moved(h, live, reserved, b, size, ClassSize(c) - METADATA, h', NewBase(h, size, scan)))
            || ((r == Pointer(0) || r == Panicked) && HeapInv(h', live, reserved) && BlocksKept(h.mem, h'.mem, live, {}))
  {
    CopyFitsIff(c, size);
    PositiveSize(c, size);
    ClassRoom(c);
    hide HeapInv, ServiceFor, BlocksKept, GoodMalloc, NewBase, RoundAllocSize, UserPointer, Wf, Realloc, Moved, ClassSize;
    assert KeptLength(live, b, size) == ClassSize(c) - METADATA;
    ReallocMoves(h, live, reserved, b, size, scan);
  }

  lemma PositiveSize(c: nat, size: Word)
    requires c < CLASSES && ClassSize(c) < RoundAllocSize(size)
    ensures size > 0
  {
    if size == 0 { var d := RoundSmall(size); hide RoundAllocSize; }
  }

  /** Staying in place: the pointer comes back and nothing is written. The heap still describes the
      block exactly when the new size with its header fits the class; the code forgets the header. */
  lemma StaysIff(h: Heap, live: Blocks, reserved: set<nat>, b: nat, c: nat, size: Word, scan: Scan)
    requires HeapInv(h, live, reserved) && b in live && c < CLASSES && ServiceFor(live[b]) == Slab(c)
    requires size > 0 && ClassSize(c) == RoundAllocSize(size)
    ensures WellShaped(h) && Wf(h.pmm) && UserPointer(b) < WORD_LIMIT
    ensures Realloc(h, UserPointer(b), size, scan) == (h, Pointer(UserPointer(b)))
    ensures HeapInv(h, live[b := size], reserved) <==> size + METADATA <= ClassSize(c)
  {
    InvIsShaped(h, live, reserved);
    LiveBase(h, live, reserved, b);
    SeenSizeIs(h, live, reserved, b);
    StaysService(c, size);
    hide ServiceFor, RoundAllocSize, UserPointer, BaseOf, Wf, OldSize, HeaderAt;
    if size + METADATA <= ClassSize(c) {
      SameService(h, live, reserved, b, size);
    } else {
      hide ClassInv, PageBlock, Threaded;
      var live' := live[b := size];
      if HeapInv(h, live', reserved) {
        assert HeaderStored(h.mem, b, live[b]) && HeaderStored(h.mem, b, live'[b]);
        FreeDispatch(h, live, reserved, b);
        FreeDispatch(h, live', reserved, b);
        assert false;
      }
    }
  }

  lemma StaysService(c: nat, size: Word)
    requires c < CLASSES && size > 0 && ClassSize(c) == RoundAllocSize(size)
    ensures size + METADATA <= ClassSize(c) ==> ServiceFor(size) == Slab(c)
    ensures size + METADATA > ClassSize(c) ==> ServiceFor(size) != Slab(c)
  {
    hide ServiceFor, RoundAllocSize;
    if size > LARGEST {
      RoundLarge(size);
      PageQuotient(size);
      assert false;
    }
    var d := RoundSmall(size);
    ServiceIs(size);
  }

  lemma SameService(h: Heap, live: Blocks, reserved: set<nat>, b: nat, size: Word)
    requires HeapInv(h, live, reserved) && b in live && ServiceFor(size) == ServiceFor(live[b])
    requires size + METADATA <= Room(ServiceFor(size))
    ensures HeapInv(h, live[b := size], reserved)
  {
    hide ServiceFor, ClassInv, PageBlock, Threaded, HeaderAt;
    var live' := live[b := size];
    forall c: nat ensures Held(live', c) == Held(live, c) { }
    forall d ensures PageServed(live', d) == PageServed(live, d) { }
    forall d | PageServed(live', d) ensures ServiceFor(live'[d]) == ServiceFor(live[d]) { }
  }
}

/** What one call of malloc or free, or one store by the owner of a block, does to the heap. */
module HeapSteps {
  import opened Words
  import opened PmmSpec
  import opened PmmRanges
  import opened SlabSpec
  import opened HeapMemory
  import opened HeapSizes
  import opened Layout
  import opened HeapSpec
  import opened HeapBooks
  import opened HeapCells

  // ---------------------------------------------------------------- pointers

  /** free recovers the base that malloc shifted, and no block is handed out as NULL. */
  lemma PointerRoundTrip(b: nat)
    requires b < WORD_LIMIT
    ensures UserPointer(b) < WORD_LIMIT && BaseOf(UserPointer(b)) == b
    ensures UserPointer(b) == 0 <==> b == WORD_LIMIT - HEAP_START_ADDR - METADATA
    ensures b % 16 == 0 ==> UserPointer(b) != 0
  {
  }

  lemma LiveBase(h: Heap, live: Blocks, reserved: set<nat>, b: nat)
    requires HeapInv(h, live, reserved) && b in live
    ensures PAGE_SIZE <= b && b + METADATA + live[b] <= b + Room(ServiceFor(live[b])) <= |h.mem| <= WORD_LIMIT
    ensures UserPointer(b) < WORD_LIMIT && UserPointer(b) != 0 && BaseOf(UserPointer(b)) == b
  {
    hide ServiceFor, ClassInv;
    CellBounds(h.pools, h.pmm, live, reserved, b, ServiceFor(live[b]));
    LivePlace(h.pools, h.pmm, live, reserved, b);
    AllSingle(h.pools, h.pmm, live, reserved);
    hide Books, HeaderStored;
    var s := ServiceFor(live[b]);
    if s.Slab? {
      ObjectMultiple(b, ClassPage(h.pools, s.c), s.c);
    } else {
      PageMultiple(b);
    }
    hide *;
    PointerRoundTrip(b);
  }

  /** A live block lies in RAM. */
  lemma LiveInRam(h: Heap, live: Blocks, reserved: set<nat>, b: nat)
    requires HeapInv(h, live, reserved) && b in live
    ensures b + METADATA + live[b] <= h.pmm.pages * PAGE_SIZE
  {
    hide ServiceFor, ClassInv, Room;
    CellBounds(h.pools, h.pmm, live, reserved, b, ServiceFor(live[b]));
  }

  lemma PageMultiple(b: nat)
    requires b % PAGE_SIZE == 0
    ensures b % 16 == 0
  {
    var q := b / PAGE_SIZE;
    assert b == 256 * q * 16;
    DivModUnique(b, 16, 256 * q, 0);
  }

  lemma ObjectMultiple(b: nat, page: nat, c: nat)
    requires c < CLASSES && page % PAGE_SIZE == 0 && ObjectOf(b, page, ClassSize(c))
    ensures b % 16 == 0
  {
    hide Capacity;
    var j: nat :| b == ObjectAt(page, ClassSize(c), j);
    SlotMultiple(page, ClassSize(c), j);
  }

  lemma SlotMultiple(page: nat, size: nat, j: nat)
    requires page % PAGE_SIZE == 0 && size % 16 == 0
    ensures ObjectAt(page, size, j) % 16 == 0
  {
    var k, m := page / PAGE_SIZE, size / 16;
    assert page == k * PAGE_SIZE && size == 16 * m;
    assert size * j == m * j * 16;
    DivModUnique(ObjectAt(page, size, j), 16, k * 256 + m * j, 0);
  }

  // ---------------------------------------------------------------- malloc

  /** The claim of a page request is clean: it is refused, or the pages were free. */
  ghost predicate CleanClaim(s: State, n: nat, scan: Scan)
  {
    var b := PageAlloc(s, n, scan).1;
    b != 0 ==> n > 0 && Range(b / PAGE_SIZE, n) <= FreePages(s)
  }

  /** A call of malloc whose header does not wrap the size, whose pages, if any, were free, and which
      zeroes no more than page 0 when it is refused. */
  ghost predicate GoodMalloc(h: Heap, size: Word, scan: Scan)
    requires Wf(h.pmm)
  {
    && size + METADATA < WORD_LIMIT
    && (ServiceFor(size).Pages? ==>
          var n := ServiceFor(size).n;
          CleanClaim(h.pmm, n, scan) && (PageAlloc(h.pmm, n, scan).1 == 0 ==> n <= 1))
  }

  /** The base of the block that a successful call returns. */
  ghost function NewBase(h: Heap, size: Word, scan: Scan): (v: nat)
    requires |h.pools| == CLASSES && Wf(h.pmm)
  {
    match ServiceFor(size)
    case Slab(c) => if |h.pools[c].slabs| > 0 && h.pools[c].slabs[0].free != [] then h.pools[c].slabs[0].free[0] else 0
    case Pages(n) => PageAlloc(h.pmm, n, scan).1
    case Refused => 0
  }

  /** The state after a call that returned block b. */
  ghost predicate Allocated(h: Heap, live: Blocks, reserved: set<nat>, size: Word, h': Heap, r: Result, b: nat)
  {
    && r == Pointer(UserPointer(b)) && r.p != 0 && b !in live
    && HeapInv(h', live[b := size], reserved)
    && BlocksKept(h.mem, h'.mem, live, {})
  }

  /** Every free list is threaded and every slab header stored. */
  ghost predicate ListsStored(mem: seq<Byte>, pools: seq<Pool>)
  {
    forall c: nat :: c < CLASSES ==> HasSlab(pools, c) && Threaded(mem, pools[c].slabs[0].free) && SlabStored(mem, pools[c].slabs[0])
  }

  /** The parts of the invariant. */
  lemma Assemble(h: Heap, live: Blocks, reserved: set<nat>)
    requires Books(h.pools, h.pmm, live, reserved) && h.pmm.pages * PAGE_SIZE <= |h.mem| <= WORD_LIMIT
    requires ListsStored(h.mem, h.pools)
    requires forall b :: b in live ==> HeaderStored(h.mem, b, live[b])
    ensures HeapInv(h, live, reserved)
  {
    hide Books, Threaded, HeaderStored, SlabStored;
  }

  lemma InvLists(h: Heap, live: Blocks, reserved: set<nat>)
    requires HeapInv(h, live, reserved)
    ensures ListsStored(h.mem, h.pools)
  {
    hide ServiceFor, ClassInv, Threaded, SlabStored, HeaderStored;
    AllSingle(h.pools, h.pmm, live, reserved);
  }

  lemma HeadersKept(mem: seq<Byte>, mem': seq<Byte>, live: Blocks, except: set<nat>)
    requires forall b :: b in live ==> HeaderStored(mem, b, live[b])
    requires forall b :: b in live ==> Room(ServiceFor(live[b])) >= METADATA
    requires BlocksKept(mem, mem', live, except)
    ensures forall b :: b in live && b !in except ==> HeaderStored(mem', b, live[b])
  {
    hide ServiceFor, Room, HeaderStored;
    forall b | b in live && b !in except ensures HeaderStored(mem', b, live[b]) {
      HeaderKept(mem, mem', b, live[b], Room(ServiceFor(live[b])));
    }
  }

  /** The free list of a class whose objects all keep their links. */
  lemma ListKept(mem: seq<Byte>, mem': seq<Byte>, pools: seq<Pool>, c: nat, except: set<nat>)
    requires c < CLASSES && HasSlab(pools, c) && Threaded(mem, pools[c].slabs[0].free)
    requires LinksKept(mem, mem', pools, except) && forall k :: 0 <= k < |pools[c].slabs[0].free| ==> pools[c].slabs[0].free[k] !in except
    ensures Threaded(mem', pools[c].slabs[0].free)
  {
    hide Threaded, SameBytes;
    forall k: nat | k < |pools[c].slabs[0].free| ensures SameBytes(mem, mem', pools[c].slabs[0].free[k], 8) {
      assert HasFree(pools, c, k) && FreeAt(pools, c, k) == pools[c].slabs[0].free[k];
      FewerSame(mem, mem', pools[c].slabs[0].free[k], 10, pools[c].slabs[0].free[k], 8);
    }
    ThreadedKept(mem, mem', pools[c].slabs[0].free);
  }

  lemma SlabKept(mem: seq<Byte>, mem': seq<Byte>, pools: seq<Pool>, c: nat, except: set<nat>)
    requires c < CLASSES && HasSlab(pools, c) && SlabStored(mem, pools[c].slabs[0])
    requires SlabsKept(mem, mem', pools, except) && c !in except
    ensures SlabStored(mem', pools[c].slabs[0])
  {
    hide SlabStored, SameBytes;
    assert SameBytes(mem, mem', SlabAt(pools, c), HEADER_SIZE);
    SlabStoredKept(mem, mem', pools[c].slabs[0]);
  }

  /** A write to one live block, or below all of them, keeps lists and slabs. */
  lemma ListsKept(pools: seq<Pool>, pmm: State, live: Blocks, reserved: set<nat>, mem: seq<Byte>, mem': seq<Byte>, except: set<nat>)
    requires Books(pools, pmm, live, reserved) && ListsStored(mem, pools) && except <= live.Keys
    requires OthersKept(mem, mem', pools, live, except, {})
    ensures ListsStored(mem', pools)
  {
    hide ServiceFor, Books, Threaded, SlabStored, SameBytes, BlocksKept, LinksKept, SlabsKept;
    AllSingle(pools, pmm, live, reserved);
    forall c: nat | c < CLASSES ensures Threaded(mem', pools[c].slabs[0].free) && SlabStored(mem', pools[c].slabs[0]) {
      forall b | b in except ensures forall k :: 0 <= k < |pools[c].slabs[0].free| ==> pools[c].slabs[0].free[k] != b {
        FreeNotThere(pools, pmm, live, reserved, c, b);
      }
      ListKept(mem, mem', pools, c, except);
      SlabKept(mem, mem', pools, c, {});
    }
  }

  /** A live block is no entry of a free list. */
  lemma FreeNotThere(pools: seq<Pool>, pmm: State, live: Blocks, reserved: set<nat>, c: nat, b: nat)
    requires Books(pools, pmm, live, reserved) && c < CLASSES && b in live
    ensures |pools[c].slabs| == 1 && forall k :: 0 <= k < |pools[c].slabs[0].free| ==> pools[c].slabs[0].free[k] != b
  {
    hide ServiceFor;
    SingleSlab(pools[c], pmm, Held(live, c), reserved, c);
    forall k | 0 <= k < |pools[c].slabs[0].free| ensures pools[c].slabs[0].free[k] != b {
      FreeObjectIsFresh(pools, pmm, live, reserved, c, k);
    }
  }

  lemma BlocksTwice(m0: seq<Byte>, m1: seq<Byte>, m2: seq<Byte>, live: Blocks, except: set<nat>)
    requires BlocksKept(m0, m1, live, except) && BlocksKept(m1, m2, live, except)
    ensures BlocksKept(m0, m2, live, except)
  {
    hide ServiceFor, Room, SameBytes;
    forall b | b in live && b !in except ensures SameBytes(m0, m2, b, Room(ServiceFor(live[b]))) {
      SameTwice(m0, m1, m2, b, Room(ServiceFor(live[b])));
    }
  }

  lemma RoomsHoldHeaders(pools: seq<Pool>, pmm: State, live: Blocks, reserved: set<nat>)
    requires Books(pools, pmm, live, reserved)
    ensures forall b :: b in live ==> Room(ServiceFor(live[b])) >= METADATA
  {
    hide ServiceFor, Room, ClassInv, PageBlock;
  }

  /** malloc served by a cache: the first free object, or the panic branch when all are held. */
  lemma MallocSlab(h: Heap, live: Blocks, reserved: set<nat>, size: Word, scan: Scan, c: nat)
    requires HeapInv(h, live, reserved) && ServiceFor(size) == Slab(c) && c < CLASSES && size + METADATA < WORD_LIMIT
    ensures var (h', r) := Malloc(h, size, scan);
            && (r == Panicked <==> |Held(live, c)| == Capacity(ClassSize(c)) - 1)
            && (r == Panicked ==> h' == h)
            && (r != Panicked ==> Allocated(h, live, reserved, size, h', r, NewBase(h, size, scan)))
  {
    hide ServiceFor, Capacity, Threaded, PoolInv, HeaderStored, SlabStored;
    assert ClassInv(h.pools[c], h.pmm, Held(live, c), reserved, c);
    MallocIs(h, size, scan, c);
    if h.pools[c].slabs[0].free != [] {
      MallocObject(h, live, reserved, size, c);
    }
  }

  /** malloc on a cache with one slab. */
  lemma MallocIs(h: Heap, size: Word, scan: Scan, c: nat)
    requires |h.pools| == CLASSES && Wf(h.pmm) && ServiceFor(size) == Slab(c) && c < CLASSES && |h.pools[c].slabs| == 1
    ensures var free := h.pools[c].slabs[0].free;
            if free == [] then Malloc(h, size, scan) == (h, Panicked)
            else FindFree(h.pools[c].slabs, 0) == 0 && Malloc(h, size, scan) == (TakeObject(h, c), Pointer(UserPointer(free[0])))
  {
    hide ServiceFor, Wf, TakeObject;
  }

  lemma MallocObject(h: Heap, live: Blocks, reserved: set<nat>, size: Word, c: nat)
    requires HeapInv(h, live, reserved) && ServiceFor(size) == Slab(c) && c < CLASSES && size + METADATA < WORD_LIMIT
    requires |h.pools| == CLASSES && |h.pools[c].slabs| == 1 && h.pools[c].slabs[0].free != [] && FindFree(h.pools[c].slabs, 0) == 0
    ensures var b := h.pools[c].slabs[0].free[0];
            Allocated(h, live, reserved, size, TakeObject(h, c), Pointer(UserPointer(b)), b)
  {
    hide ServiceFor, ClassInv, Threaded, HeaderStored, PageBlock, Room, SlabStored, Books, SameBytes, OnlyChanges, Write, SetSlab, ListsStored;
    var slab, h', b := h.pools[c].slabs[0], TakeObject(h, c), h.pools[c].slabs[0].free[0];
    var m1 := SetSlab(h.mem, slab.page, At(slab.free, 1), |slab.free| - 1);
    var live' := live[b := size];
    FitsIffNoWrap(size);
    ClassRoom(c);
    InvBooks(h, live, reserved);
    InvLists(h, live, reserved);
    TakeObjectBooks(h.pools, h.pmm, live, reserved, c, size);
    TakeKeeps(h, live, reserved, size, c, m1, h');
    RoomsHoldHeaders(h.pools, h.pmm, live, reserved);
    HeadersKept(h.mem, h'.mem, live, {});
    CellBounds(h'.pools, h.pmm, live', reserved, b, Slab(c));
    NewHeader(m1, b, size, c);
    TakeLists(h, live, reserved, size, c, m1, h');
    Assemble(h', live', reserved);
    LiveBase(h', live', reserved, b);
  }

  lemma InvBooks(h: Heap, live: Blocks, reserved: set<nat>)
    requires HeapInv(h, live, reserved)
    ensures Books(h.pools, h.pmm, live, reserved) && |h.pools| == CLASSES && Wf(h.pmm)
    ensures h.pmm.pages * PAGE_SIZE <= |h.mem| <= WORD_LIMIT
    ensures forall b :: b in live ==> HeaderStored(h.mem, b, live[b])
  {
    hide ServiceFor, ClassInv, HeaderStored, Threaded, SlabStored;
  }

  /** The two writes of malloc on class c: the slab's header, then the object's. */
  ghost predicate TakeWrites(h: Heap, c: nat, m1: seq<Byte>, h': Heap)
  {
    && c < CLASSES == |h.pools| && |h.pools[c].slabs| == 1 && h.pools[c].slabs[0].free != []
    && var slab := h.pools[c].slabs[0];
    && m1 == SetSlab(h.mem, slab.page, At(slab.free, 1), |slab.free| - 1)
    && h' == Heap(h.pools[c := Pop(h.pools[c], 0)], h.pmm, Write(m1, slab.free[0], Bytes(c, METADATA)))
  }

  lemma TakeFrames(h: Heap, live: Blocks, reserved: set<nat>, size: Word, c: nat, m1: seq<Byte>, h': Heap)
    requires Books(h.pools, h.pmm, live, reserved) && h.pmm.pages * PAGE_SIZE <= |h.mem| && TakeWrites(h, c, m1, h')
    requires ServiceFor(size) == Slab(c) && Books(h'.pools, h.pmm, live[h.pools[c].slabs[0].free[0] := size], reserved)
    ensures var b := h.pools[c].slabs[0].free[0];
            OthersKept(h.mem, m1, h.pools, live, {}, {c}) && OthersKept(m1, h'.mem, h'.pools, live[b := size], {b}, {})
  {
    hide ServiceFor, Room, Books, SameBytes, OnlyChanges, Write, SetSlab, OthersKept;
    var slab, b := h.pools[c].slabs[0], h.pools[c].slabs[0].free[0];
    SetSlabOnly(h.mem, slab.page, At(slab.free, 1), |slab.free| - 1);
    SlabWrite(h.pools, h.pmm, live, reserved, h.mem, m1, c);
    assert Cell(h'.pools, live[b := size], b, Slab(c));
    ClassRoom(c);
    WriteOnly(m1, b, Bytes(c, METADATA), b, Room(Slab(c)));
    CellWrite(h'.pools, h.pmm, live[b := size], reserved, m1, h'.mem, b, Slab(c));
  }

  lemma TakeKeeps(h: Heap, live: Blocks, reserved: set<nat>, size: Word, c: nat, m1: seq<Byte>, h': Heap)
    requires Books(h.pools, h.pmm, live, reserved) && h.pmm.pages * PAGE_SIZE <= |h.mem| && TakeWrites(h, c, m1, h')
    requires ServiceFor(size) == Slab(c) && Books(h'.pools, h.pmm, live[h.pools[c].slabs[0].free[0] := size], reserved)
    requires h.pools[c].slabs[0].free[0] !in live
    ensures BlocksKept(h.mem, h'.mem, live, {})
  {
    hide ServiceFor, Room, Books, SameBytes, Write, SetSlab, BlocksKept, LinksKept, SlabsKept;
    TakeFrames(h, live, reserved, size, c, m1, h');
    OldBlocksKept(m1, h'.mem, live, h.pools[c].slabs[0].free[0], size);
    BlocksTwice(h.mem, m1, h'.mem, live, {});
  }

  lemma TakeLists(h: Heap, live: Blocks, reserved: set<nat>, size: Word, c: nat, m1: seq<Byte>, h': Heap)
    requires Books(h.pools, h.pmm, live, reserved) && h.pmm.pages * PAGE_SIZE <= |h.mem| && TakeWrites(h, c, m1, h')
    requires ServiceFor(size) == Slab(c) && Books(h'.pools, h.pmm, live[h.pools[c].slabs[0].free[0] := size], reserved)
    requires ListsStored(h.mem, h.pools)
    ensures ListsStored(h'.mem, h'.pools)
  {
    hide ServiceFor, Room, Books, SameBytes, Write, SetSlab, Threaded, SlabStored, BlocksKept, LinksKept, SlabsKept;
    TakeFrames(h, live, reserved, size, c, m1, h');
    AllSingle(h'.pools, h.pmm, live[h.pools[c].slabs[0].free[0] := size], reserved);
    forall d: nat | d < CLASSES ensures Threaded(h'.mem, h'.pools[d].slabs[0].free) && SlabStored(h'.mem, h'.pools[d].slabs[0]) {
      ListKept(h.mem, m1, h.pools, d, {});
      TakenList(h.pools, h.pmm, live, reserved, c, m1, h'.pools, h'.mem, d);
      TakenSlab(h.mem, h.pools, c, m1, h'.pools, h'.mem, d);
    }
  }

  lemma ClassRoom(c: nat)
    requires c < CLASSES
    ensures Room(Slab(c)) == ClassSize(c) >= 16
  {
  }

  lemma NewHeader(mem: seq<Byte>, b: nat, size: Word, v: nat)
    requires b + METADATA <= |mem| && v % 0x1_0000 == HeaderFor(size)
    ensures HeaderStored(Write(mem, b, Bytes(v, METADATA)), b, size)
  {
    hide HeaderFor, HeaderAt;
    HeaderWritten(mem, b, v);
  }

  lemma OldBlocksKept(mem: seq<Byte>, mem': seq<Byte>, live: Blocks, b: nat, size: Word)
    requires b !in live && BlocksKept(mem, mem', live[b := size], {b})
    ensures BlocksKept(mem, mem', live, {})
  {
    hide ServiceFor, Room, SameBytes;
    forall d | d in live ensures SameBytes(mem, mem', d, Room(ServiceFor(live[d]))) {
      assert live[b := size][d] == live[d];
    }
  }

  /** The slab header of class d after an object was taken from class c. */
  lemma TakenSlab(mem: seq<Byte>, pools: seq<Pool>, c: nat, m1: seq<Byte>, pools': seq<Pool>, mem': seq<Byte>, d: nat)
    requires c < CLASSES && d < CLASSES && HasSlab(pools, c) && HasSlab(pools, d) && SlabStored(mem, pools[d].slabs[0])
    requires pools[c].slabs[0].free != [] && pools' == pools[c := Pop(pools[c], 0)]
    requires m1 == SetSlab(mem, pools[c].slabs[0].page, At(pools[c].slabs[0].free, 1), |pools[c].slabs[0].free| - 1)
    requires SlabsKept(mem, m1, pools, {c}) && SlabsKept(m1, mem', pools', {})
    ensures SlabStored(mem', pools'[d].slabs[0])
  {
    hide SlabStored, SetSlab, SlabsKept;
    if d == c {
      SetSlabStored(mem, pools[c].slabs[0], pools[c].slabs[0].free[1..]);
    } else {
      SlabKept(mem, m1, pools, d, {c});
    }
    SlabKept(m1, mem', pools', d, {});
  }

  /** The free list of class d after an object was taken from class c. */
  lemma TakenList(pools: seq<Pool>, pmm: State, live: Blocks, reserved: set<nat>, c: nat, m1: seq<Byte>, pools': seq<Pool>, mem': seq<Byte>, d: nat)
    requires Books(pools, pmm, live, reserved) && c < CLASSES && d < CLASSES && HasSlab(pools, c) && HasSlab(pools, d)
    requires pools[c].slabs[0].free != [] && pools' == pools[c := Pop(pools[c], 0)] && Threaded(m1, pools[d].slabs[0].free)
    requires LinksKept(m1, mem', pools', {pools[c].slabs[0].free[0]})
    ensures Threaded(mem', pools'[d].slabs[0].free)
  {
    hide ServiceFor, Books, Threaded, SameBytes;
    var free := pools[c].slabs[0].free;
    if d == c {
      FreeListDistinct(pools, pmm, live, reserved, c);
      forall k: nat | 0 < k < |free| ensures SameBytes(m1, mem', free[k], 8) {
        assert HasFree(pools', c, k - 1) && FreeAt(pools', c, k - 1) == free[k];
        FewerSame(m1, mem', free[k], 10, free[k], 8);
      }
      ThreadedPopped(m1, mem', free);
    } else {
      ListsDisjoint(pools, pmm, live, reserved, c, 0, d);
      assert pools'[d] == pools[d];
      ListKept(m1, mem', pools', d, {free[0]});
    }
  }

  /** A clean claim takes exactly the n pages at b. */
  lemma CleanClaims(s: State, n: nat, scan: Scan)
    requires Wf(s) && CleanClaim(s, n, scan)
    ensures var (t, b) := PageAlloc(s, n, scan);
            (b == 0 ==> t == s) && (b != 0 ==> Wf(t) && ClaimedRange(s, t, b, n))
  {
    var (t, b) := PageAlloc(s, n, scan);
    if b != 0 {
      var i := if scan.Written? then FirstHit(s.bits, s.pages, n, 0) else FirstRange(s.bits, s.pages, n, 0);
      hide FirstHit, FirstRange, Range;
      assert b == i * PAGE_SIZE && b / PAGE_SIZE == i;
      MarkedRange(s, i, n);
    }
  }

  /** Requests of one page are always clean, and so are all requests with the repaired scan. */
  lemma CleanWhen(s: State, n: nat, scan: Scan)
    requires Wf(s) && (n == 1 || scan.Repaired?)
    ensures CleanClaim(s, n, scan)
  {
    hide FirstHit, FirstRange, Range;
    AllocRangeClaims(s, n);
    if n == 1 { SinglePageAgrees(s); }
  }

  /** malloc served by the page allocator. */
  lemma MallocPages(h: Heap, live: Blocks, reserved: set<nat>, size: Word, scan: Scan, n: nat)
    requires HeapInv(h, live, reserved) && ServiceFor(size) == Pages(n) && GoodMalloc(h, size, scan)
    ensures var (h', r) := Malloc(h, size, scan);
            && (NewBase(h, size, scan) == 0 ==> r == Pointer(0) && HeapInv(h', live, reserved) && BlocksKept(h.mem, h'.mem, live, {}))
            && (NewBase(h, size, scan) != 0 ==> Allocated(h, live, reserved, size, h', r, NewBase(h, size, scan)))
  {
    hide ServiceFor, Room, ClassInv, Threaded, HeaderStored, PageBlock, PageAlloc;
    CleanClaims(h.pmm, n, scan);
    var (pmm', b) := PageAlloc(h.pmm, n, scan);
    if b == 0 {
      RefusedPages(h, live, reserved, n);
    } else {
      TakenPages(h, live, reserved, size, n, pmm', b);
    }
  }

  /** Pages come zeroed, but for the count in their first two bytes; a refused request zeroes as many bytes
      from address 0 on. All other bytes stay. */
  lemma PagesComeZeroed(h: Heap, size: Word, scan: Scan, n: nat)
    requires |h.pools| == CLASSES && Wf(h.pmm) && ServiceFor(size) == Pages(n) && n > 0
    ensures var (b, m) := (PageAlloc(h.pmm, n, scan).1, Malloc(h, size, scan).0.mem);
            && |m| == |h.mem|
            && (b != 0 && b + 2 <= |m| ==> Load(m, b, 2) == n % 0x1_0000)
            && (forall i :: b + (if b == 0 then 0 else 2) <= i < b + 4096 * n && i < |m| ==> m[i] == 0)
            && (forall i :: 0 <= i < |m| && !(b <= i < b + 4096 * n) ==> m[i] == h.mem[i])
  {
    hide ServiceFor, PageAlloc, Bytes, Load, Pow2;
    var b := PageAlloc(h.pmm, n, scan).1;
    var cleared := Write(h.mem, b, ZeroBytes(4096 * n));
    assert n * PAGE_SIZE == 4096 * n;
    if b != 0 && b + 2 <= |cleared| {
      StoredAt(cleared, b, Bytes(n, 2));
      LoadIs(Write(cleared, b, Bytes(n, 2)), b, n, 2);
      SixteenBits();
    }
  }

  lemma RefusedPages(h: Heap, live: Blocks, reserved: set<nat>, n: nat)
    requires HeapInv(h, live, reserved) && n <= 1
    ensures HeapInv(TakePages(h, n, h.pmm, 0), live, reserved) && BlocksKept(h.mem, TakePages(h, n, h.pmm, 0).mem, live, {})
  {
    hide ServiceFor, ClassInv, Threaded, HeaderStored, SlabStored, PageBlock, Room, SameBytes, OnlyChanges, Books, BlocksKept, LinksKept, SlabsKept,
      ListsStored, Write;
    var h' := TakePages(h, n, h.pmm, 0);
    WriteOnly(h.mem, 0, ZeroBytes(n * PAGE_SIZE), 0, PAGE_SIZE);
    InvBooks(h, live, reserved);
    InvLists(h, live, reserved);
    RoomsHoldHeaders(h.pools, h.pmm, live, reserved);
    LowWrite(h.pools, h.pmm, live, reserved, h.mem, h'.mem);
    HeadersKept(h.mem, h'.mem, live, {});
    ListsKept(h.pools, h.pmm, live, reserved, h.mem, h'.mem, {});
    Assemble(h', live, reserved);
  }

  lemma TakenPages(h: Heap, live: Blocks, reserved: set<nat>, size: Word, n: nat, pmm': State, b: nat)
    requires HeapInv(h, live, reserved) && ServiceFor(size) == Pages(n) && size + METADATA < WORD_LIMIT
    requires b != 0 && Wf(pmm') && ClaimedRange(h.pmm, pmm', b, n)
    ensures Allocated(h, live, reserved, size, TakePages(h, n, pmm', b), Pointer(UserPointer(b)), b)
  {
    hide ServiceFor, ClassInv, Threaded, HeaderStored, SlabStored, PageBlock, SameBytes, Wf, OnlyChanges, Books, BlocksKept, LinksKept, SlabsKept,
      ListsStored, TakePages, Write;
    var h' := TakePages(h, n, pmm', b);
    var live' := live[b := size];
    FitsIffNoWrap(size);
    InvBooks(h, live, reserved);
    InvLists(h, live, reserved);
    TakePagesBooks(h.pools, h.pmm, live, reserved, n, size, pmm', b);
    RoomsHoldHeaders(h.pools, h.pmm, live, reserved);
    TakePagesIs(h, n, pmm', b);
    assert Cell(h'.pools, live', b, Pages(n));
    CellWrite(h'.pools, pmm', live', reserved, h.mem, h'.mem, b, Pages(n));
    CellBounds(h'.pools, pmm', live', reserved, b, Pages(n));
    OldBlocksKept(h.mem, h'.mem, live, b, size);
    HeadersKept(h.mem, h'.mem, live, {});
    PagesHeader(h, b, size, n, pmm');
    assert {b} <= live'.Keys;
    ListsKept(h.pools, pmm', live', reserved, h.mem, h'.mem, {b});
    Assemble(h', live', reserved);
    LiveBase(h', live', reserved, b);
  }

  lemma TakePagesIs(h: Heap, n: nat, pmm': State, b: nat)
    requires b != 0 && n > 0
    ensures var h' := TakePages(h, n, pmm', b);
            h'.pools == h.pools && h'.pmm == pmm' && |h'.mem| == |h.mem| && OnlyChanges(h.mem, h'.mem, b, n * PAGE)
  {
    hide OnlyChanges;
    PagesWritten(h.mem, b, n);
  }

  lemma PagesWritten(mem: seq<Byte>, b: nat, n: nat)
    requires n > 0
    ensures OnlyChanges(mem, Write(Write(mem, b, ZeroBytes(n * PAGE_SIZE)), b, Bytes(n, METADATA)), b, n * PAGE)
  {
    hide Bytes;
  }

  lemma PagesHeader(h: Heap, b: nat, size: Word, n: nat, pmm': State)
    requires b != 0 && ServiceFor(size) == Pages(n) && b + METADATA <= |h.mem|
    ensures HeaderStored(TakePages(h, n, pmm', b).mem, b, size)
  {
    hide ServiceFor;
    NewHeader(Write(h.mem, b, ZeroBytes(n * PAGE_SIZE)), b, size, n);
  }

  /** Every call of malloc either hands out a fresh block and keeps all others, or refuses and keeps
      all. */
  lemma MallocStep(h: Heap, live: Blocks, reserved: set<nat>, size: Word, scan: Scan)
    requires HeapInv(h, live, reserved) && GoodMalloc(h, size, scan)
    ensures var (h', r) := Malloc(h, size, scan);
            && (r.Pointer? || r.Panicked?)
            && (r.Pointer? && r.p != 0 ==> Allocated(h, live, reserved, size, h', r, NewBase(h, size, scan)))
            && ((r.Pointer? ==> r.p == 0) ==> HeapInv(h', live, reserved) && BlocksKept(h.mem, h'.mem, live, {}))
  {
    hide ServiceFor, ClassInv, Threaded, HeaderStored, PageBlock, Room, Books;
    match ServiceFor(size)
    case Slab(c) => MallocSlab(h, live, reserved, size, scan, c); AllKept(h, live, reserved);
    case Pages(n) => MallocPages(h, live, reserved, size, scan, n);
    case Refused => AllKept(h, live, reserved);
  }

  lemma AllKept(h: Heap, live: Blocks, reserved: set<nat>)
    requires HeapInv(h, live, reserved)
    ensures BlocksKept(h.mem, h.mem, live, {})
  {
    hide ServiceFor, Room, HeapInv;
    forall b | b in live ensures SameBytes(h.mem, h.mem, b, Room(ServiceFor(live[b]))) {
      LiveBase(h, live, reserved, b);
    }
  }

  // ---------------------------------------------------------------- free

  /** free finds its way back: a block is page-aligned exactly when the page allocator served it,
      and its header names the cache, or the page count modulo 2^16. */
  lemma FreeDispatch(h: Heap, live: Blocks, reserved: set<nat>, b: nat)
    requires HeapInv(h, live, reserved) && b in live
    ensures var s := ServiceFor(live[b]);
            && (b % PAGE_SIZE == 0 <==> s.Pages?)
            && (b % PAGE_SIZE != 0 <==> s.Slab?)
            && b + METADATA <= |h.mem|
            && (s.Slab? ==> HeaderAt(h.mem, b) == s.c)
            && (s.Pages? ==> HeaderAt(h.mem, b) == s.n % 0x1_0000)
  {
    hide ServiceFor, ClassInv, HeaderAt, ObjectOf;
    LivePlace(h.pools, h.pmm, live, reserved, b);
    assert HeaderStored(h.mem, b, live[b]);
    hide Books;
  }

  /** What freeing block b leaves. */
  ghost predicate Freed(h: Heap, live: Blocks, reserved: set<nat>, b: nat, h': Heap, r: Result)
  {
    && r == Done
    && HeapInv(h', live - {b}, reserved)
    && BlocksKept(h.mem, h'.mem, live, {b})
  }

  /** Freeing a live block of a cache never panics: the object goes back to the head of the list of
      its own cache. */
  lemma FreeSlabStep(h: Heap, live: Blocks, reserved: set<nat>, b: nat, c: nat)
    requires HeapInv(h, live, reserved) && b in live && ServiceFor(live[b]) == Slab(c) && c < CLASSES
    ensures forall d: nat :: d < CLASSES ==> |h.pools[d].slabs| == 1 && h.pools[d].size > 0
    ensures var (h', r) := HeapSpec.Free(h, UserPointer(b));
            && Freed(h, live, reserved, b, h', r)
            && h'.pmm == h.pmm && h'.pools == h.pools[c := Push(h.pools[c], 0, b)]
  {
    hide ServiceFor, ClassInv, Threaded, HeaderStored, PageBlock, Room, Books;
    LiveBase(h, live, reserved, b);
    FreeDispatch(h, live, reserved, b);
    AllSingle(h.pools, h.pmm, live, reserved);
    FreeObjectBooks(h.pools, h.pmm, live, reserved, c, b);
    var m1 := FreeIs(h, c, b);
    FreeShape(h, c, b, m1, FreeObject(h, c, b).0);
    FreedObject(h, live, reserved, b, c, m1, FreeObject(h, c, b).0);
  }

  /** The two writes of free on class c: the object's bufctl, then the slab's header. */
  ghost predicate FreeWrites(h: Heap, c: nat, b: nat, m1: seq<Byte>, h': Heap)
  {
    && c < CLASSES == |h.pools| && |h.pools[c].slabs| == 1
    && var slab := h.pools[c].slabs[0];
    && (exists index: nat :: m1 == Write(h.mem, b, Bufctl(At(slab.free, 0), index)))
    && h' == Heap(h.pools[c := Push(h.pools[c], 0, b)], h.pmm, SetSlab(m1, slab.page, b, |slab.free| + 1))
  }

  lemma FreeIs(h: Heap, c: nat, b: nat) returns (m1: seq<Byte>)
    requires c < CLASSES == |h.pools| && |h.pools[c].slabs| == 1 && h.pools[c].size > 0
    requires |h.pools[c].slabs[0].free| < h.pools[c].max
    ensures FreeObject(h, c, b).1 == Done && FreeWrites(h, c, b, m1, FreeObject(h, c, b).0)
    ensures var slab := h.pools[c].slabs[0];
            m1 == Write(h.mem, b, Bufctl(At(slab.free, 0), FreedIndex(slab.page, h.pools[c].size, b)))
  {
    hide Write, SetSlab, Bufctl;
    var slab := h.pools[c].slabs[0];
    m1 := Write(h.mem, b, Bufctl(At(slab.free, 0), FreedIndex(slab.page, h.pools[c].size, b)));
  }

  lemma FreedObject(h: Heap, live: Blocks, reserved: set<nat>, b: nat, c: nat, m1: seq<Byte>, h': Heap)
    requires HeapInv(h, live, reserved) && b in live && ServiceFor(live[b]) == Slab(c) && c < CLASSES
    requires FreeWrites(h, c, b, m1, h')
    ensures Freed(h, live, reserved, b, h', Done)
  {
    hide ServiceFor, ClassInv, Threaded, HeaderStored, SlabStored, PageBlock, Books, SameBytes, Room, FreeWrites, BlocksKept, ListsStored;
    InvBooks(h, live, reserved);
    InvLists(h, live, reserved);
    RoomsHoldHeaders(h.pools, h.pmm, live, reserved);
    FreeShape(h, c, b, m1, h');
    FreeObjectBooks(h.pools, h.pmm, live, reserved, c, b);
    FreeKeeps(h, live, reserved, b, c, m1, h');
    HeadersKept(h.mem, h'.mem, live, {b});
    FreeLists(h, live, reserved, b, c, m1, h');
    Assemble(h', live - {b}, reserved);
  }

  lemma FreeShape(h: Heap, c: nat, b: nat, m1: seq<Byte>, h': Heap)
    requires FreeWrites(h, c, b, m1, h')
    ensures h'.pools == h.pools[c := Push(h.pools[c], 0, b)] && h'.pmm == h.pmm && |m1| == |h'.mem| == |h.mem|
  {
    hide Write, SetSlab, Bufctl;
  }

  lemma FreeFrames(h: Heap, live: Blocks, reserved: set<nat>, b: nat, c: nat, m1: seq<Byte>, h': Heap)
    requires Books(h.pools, h.pmm, live, reserved) && h.pmm.pages * PAGE_SIZE <= |h.mem| && FreeWrites(h, c, b, m1, h')
    requires b in live && ServiceFor(live[b]) == Slab(c) && Books(h'.pools, h.pmm, live - {b}, reserved)
    ensures OthersKept(h.mem, m1, h.pools, live, {b}, {}) && OthersKept(m1, h'.mem, h'.pools, live - {b}, {}, {c})
    ensures Holds(m1, b, Bytes(At(h.pools[c].slabs[0].free, 0), 8))
  {
    hide ServiceFor, Room, Books, SameBytes, OnlyChanges, Write, SetSlab, OthersKept, Bufctl, Holds, Bytes;
    var slab := h.pools[c].slabs[0];
    var index: nat :| m1 == Write(h.mem, b, Bufctl(At(slab.free, 0), index));
    assert Cell(h.pools, live, b, Slab(c));
    ClassRoom(c);
    CellBounds(h.pools, h.pmm, live, reserved, b, Slab(c));
    LinkWritten(h.mem, b, At(slab.free, 0), index);
    WriteOnly(h.mem, b, Bufctl(At(slab.free, 0), index), b, Room(Slab(c)));
    CellWrite(h.pools, h.pmm, live, reserved, h.mem, m1, b, Slab(c));
    SetSlabOnly(m1, slab.page, b, |slab.free| + 1);
    SlabWrite(h'.pools, h.pmm, live - {b}, reserved, m1, h'.mem, c);
  }

  lemma FreeKeeps(h: Heap, live: Blocks, reserved: set<nat>, b: nat, c: nat, m1: seq<Byte>, h': Heap)
    requires Books(h.pools, h.pmm, live, reserved) && h.pmm.pages * PAGE_SIZE <= |h.mem| && FreeWrites(h, c, b, m1, h')
    requires b in live && ServiceFor(live[b]) == Slab(c) && Books(h'.pools, h.pmm, live - {b}, reserved)
    ensures BlocksKept(h.mem, h'.mem, live, {b})
  {
    hide ServiceFor, Room, Books, SameBytes, FreeWrites, BlocksKept, LinksKept, SlabsKept;
    FreeFrames(h, live, reserved, b, c, m1, h');
    WithoutOne(m1, h'.mem, live, b);
    BlocksTwice(h.mem, m1, h'.mem, live, {b});
  }

  lemma WithoutOne(mem: seq<Byte>, mem': seq<Byte>, live: Blocks, b: nat)
    requires BlocksKept(mem, mem', live - {b}, {})
    ensures BlocksKept(mem, mem', live, {b})
  {
    hide ServiceFor, Room, SameBytes;
    forall d | d in live && d != b ensures SameBytes(mem, mem', d, Room(ServiceFor(live[d]))) {
      assert d in live - {b} && (live - {b})[d] == live[d];
    }
  }

  lemma FreeLists(h: Heap, live: Blocks, reserved: set<nat>, b: nat, c: nat, m1: seq<Byte>, h': Heap)
    requires Books(h.pools, h.pmm, live, reserved) && h.pmm.pages * PAGE_SIZE <= |h.mem| && FreeWrites(h, c, b, m1, h')
    requires b in live && ServiceFor(live[b]) == Slab(c) && Books(h'.pools, h.pmm, live - {b}, reserved)
    requires ListsStored(h.mem, h.pools)
    ensures ListsStored(h'.mem, h'.pools)
  {
    hide ServiceFor, Room, Books, SameBytes, Threaded, SlabStored, BlocksKept, LinksKept, SlabsKept, FreeWrites, Holds, Bytes;
    FreeFrames(h, live, reserved, b, c, m1, h');
    FreeShape(h, c, b, m1, h');
    AllSingle(h'.pools, h.pmm, live - {b}, reserved);
    forall d: nat | d < CLASSES ensures Threaded(h'.mem, h'.pools[d].slabs[0].free) && SlabStored(h'.mem, h'.pools[d].slabs[0]) {
      FreeNotThere(h.pools, h.pmm, live, reserved, d, b);
      FreedList(h.mem, h.pools, c, b, m1, h'.pools, d);
      ListKept(m1, h'.mem, h'.pools, d, {});
      FreedSlab(h, c, b, m1, h', d);
    }
  }

  /** The free list of class d after object b went back to class c. */
  lemma FreedList(mem: seq<Byte>, pools: seq<Pool>, c: nat, b: nat, m1: seq<Byte>, pools': seq<Pool>, d: nat)
    requires c < CLASSES && d < CLASSES && HasSlab(pools, c) && HasSlab(pools, d) && Threaded(mem, pools[d].slabs[0].free)
    requires pools' == pools[c := Push(pools[c], 0, b)] && LinksKept(mem, m1, pools, {b})
    requires forall k :: 0 <= k < |pools[d].slabs[0].free| ==> pools[d].slabs[0].free[k] != b
    requires Holds(m1, b, Bytes(At(pools[c].slabs[0].free, 0), 8))
    ensures Threaded(m1, pools'[d].slabs[0].free)
  {
    hide Threaded, SameBytes, Holds, Bytes;
    var free := pools[d].slabs[0].free;
    if d == c {
      forall k: nat | k < |free| ensures SameBytes(mem, m1, free[k], 8) {
        assert HasFree(pools, c, k) && FreeAt(pools, c, k) == free[k];
        FewerSame(mem, m1, free[k], 10, free[k], 8);
      }
      ThreadedPushed(mem, m1, free, b);
    } else {
      ListKept(mem, m1, pools, d, {b});
    }
  }

  lemma FreedSlab(h: Heap, c: nat, b: nat, m1: seq<Byte>, h': Heap, d: nat)
    requires FreeWrites(h, c, b, m1, h') && d < CLASSES && HasSlab(h.pools, d) && SlabStored(h.mem, h.pools[d].slabs[0])
    requires SlabsKept(h.mem, m1, h.pools, {}) && SlabsKept(m1, h'.mem, h'.pools, {c})
    ensures SlabStored(h'.mem, h'.pools[d].slabs[0])
  {
    hide SlabStored, SlabsKept, SetSlab, Write, Bufctl;
    SlabKept(h.mem, m1, h.pools, d, {});
    if d == c {
      SetSlabStored(m1, h.pools[c].slabs[0], [b] + h.pools[c].slabs[0].free);
    } else {
      SlabKept(m1, h'.mem, h'.pools, d, {c});
    }
  }

  /** Freeing a live block of whole pages gives back the pages that its 16-bit header still counts. */
  lemma FreePagesStep(h: Heap, live: Blocks, reserved: set<nat>, b: nat, n: nat)
    requires HeapInv(h, live, reserved) && b in live && ServiceFor(live[b]) == Pages(n)
    ensures forall d: nat :: d < CLASSES ==> h.pools[d].size > 0
    ensures var (h', r) := HeapSpec.Free(h, UserPointer(b));
            && Freed(h, live, reserved, b, h', r)
            && h'.pools == h.pools && h'.mem == h.mem
            && FreePages(h'.pmm) == FreePages(h.pmm) + Range(b / PAGE_SIZE, n % 0x1_0000)
  {
    hide ServiceFor, Books, HeaderStored, Room, FreePages, Range, HeapInv, BlocksKept, UserPointer, BaseOf, HeaderAt, HeapSpec.Free, ListsStored;
    InvBooks(h, live, reserved);
    InvLists(h, live, reserved);
    LiveBase(h, live, reserved, b);
    FreeDispatch(h, live, reserved, b);
    AllSingle(h.pools, h.pmm, live, reserved);
    AllKept(h, live, reserved);
    assert PageServed(live, b);
    var m := n % 0x1_0000;
    ReleasePagesBooks(h.pools, h.pmm, live, reserved, b, m);
    FreePagesIs(h, b, m);
    LessKept(h.mem, live, b);
    Assemble(h.(pmm := PmmSpec.Free(h.pmm, b / PAGE_SIZE, m)), live - {b}, reserved);
  }

  /** free of a page-aligned block whose header counts m pages. */
  lemma FreePagesIs(h: Heap, b: nat, m: nat)
    requires |h.pools| == CLASSES && (forall c :: 0 <= c < CLASSES ==> h.pools[c].size > 0)
    requires 0 != UserPointer(b) < WORD_LIMIT && BaseOf(UserPointer(b)) == b
    requires b % PAGE_SIZE == 0 && b + METADATA <= |h.mem| && HeaderAt(h.mem, b) == m <= h.pmm.used
    ensures HeapSpec.Free(h, UserPointer(b)) == (h.(pmm := PmmSpec.Free(h.pmm, b / PAGE_SIZE, m)), Done)
  {
    hide UserPointer, BaseOf, HeaderAt;
  }

  lemma LessKept(mem: seq<Byte>, live: Blocks, b: nat)
    requires BlocksKept(mem, mem, live, {}) && forall d :: d in live ==> HeaderStored(mem, d, live[d])
    ensures BlocksKept(mem, mem, live, {b})
    ensures forall d :: d in live - {b} ==> HeaderStored(mem, d, (live - {b})[d])
  {
    hide ServiceFor, Room, SameBytes, HeaderStored;
  }

  /** All pages of a block come back if and only if the page count fits the 16-bit header. */
  lemma AllPagesBackIff(h: Heap, live: Blocks, reserved: set<nat>, b: nat, n: nat)
    requires HeapInv(h, live, reserved) && b in live && ServiceFor(live[b]) == Pages(n)
    ensures forall d: nat :: d < CLASSES ==> h.pools[d].size > 0
    ensures FreePages(HeapSpec.Free(h, UserPointer(b)).0.pmm) == FreePages(h.pmm) + Frames(live, b) <==> n < 0x1_0000
  {
    hide ServiceFor, ClassInv, Threaded, HeaderStored, Room, FreePages, Range, HeapSpec.Free;
    FreePagesStep(h, live, reserved, b, n);
    LivePlace(h.pools, h.pmm, live, reserved, b);
    assert PageServed(live, b) && Frames(live, b) == Range(b / PAGE_SIZE, n);
    hide HeapInv, Books;
    if n < 0x1_0000 {
      SmallMod(n, 0x1_0000);
    } else {
      var last := b / PAGE_SIZE + n - 1;
      assert last in Range(b / PAGE_SIZE, n) && last !in Range(b / PAGE_SIZE, n % 0x1_0000);
    }
  }

  lemma FreeStep(h: Heap, live: Blocks, reserved: set<nat>, b: nat)
    requires HeapInv(h, live, reserved) && b in live
    ensures forall d: nat :: d < CLASSES ==> h.pools[d].size > 0
    ensures var (h', r) := HeapSpec.Free(h, UserPointer(b)); Freed(h, live, reserved, b, h', r)
  {
    hide HeapInv, ServiceFor, HeapSpec.Free;
    LiveBase(h, live, reserved, b);
    FreeDispatch(h, live, reserved, b);
    var s := ServiceFor(live[b]);
    if s.Slab? { FreeSlabStep(h, live, reserved, b, s.c); } else { FreePagesStep(h, live, reserved, b, s.n); }
  }

  // ---------------------------------------------------------------- the owner of a block

  /** Stores s at offset off of the bytes that the caller asked for. */
  function Store(h: Heap, b: nat, off: nat, s: seq<Byte>): (r: Heap)
  {
    h.(mem := Write(h.mem, b + METADATA + off, s))
  }

  /** A store inside the room of one's own block, after the header, touches no other block, no
      header and no free list. */
  lemma RoomStore(h: Heap, live: Blocks, reserved: set<nat>, b: nat, off: nat, s: seq<Byte>)
    requires HeapInv(h, live, reserved) && b in live && METADATA + off + |s| <= Room(ServiceFor(live[b]))
    ensures HeapInv(Store(h, b, off, s), live, reserved)
    ensures BlocksKept(h.mem, Store(h, b, off, s).mem, live, {b})
  {
    hide ServiceFor, ClassInv, Threaded, HeaderStored, PageBlock, SameBytes, Books, Room;
    var h' := Store(h, b, off, s);
    var t := ServiceFor(live[b]);
    LiveBase(h, live, reserved, b);
    WriteOnly(h.mem, b + METADATA + off, s, b, Room(t));
    assert Cell(h.pools, live, b, t);
    CellWrite(h.pools, h.pmm, live, reserved, h.mem, h'.mem, b, t);
    RoomsHoldHeaders(h.pools, h.pmm, live, reserved);
    HeadersKept(h.mem, h'.mem, live, {b});
    StoredHeader(h.mem, b, off, s, live[b]);
    InvLists(h, live, reserved);
    ListsKept(h.pools, h.pmm, live, reserved, h.mem, h'.mem, {b});
    Assemble(h', live, reserved);
  }

  /** So does a store inside the bytes that the caller asked for. */
  lemma StoreStep(h: Heap, live: Blocks, reserved: set<nat>, b: nat, off: nat, s: seq<Byte>)
    requires HeapInv(h, live, reserved) && b in live && off + |s| <= live[b]
    ensures HeapInv(Store(h, b, off, s), live, reserved)
    ensures BlocksKept(h.mem, Store(h, b, off, s).mem, live, {b})
  {
    hide ServiceFor, HeapInv, BlocksKept, Store, Room;
    LiveBase(h, live, reserved, b);
    RoomStore(h, live, reserved, b, off, s);
  }

  lemma StoredHeader(mem: seq<Byte>, b: nat, off: nat, s: seq<Byte>, size: Word)
    requires HeaderStored(mem, b, size)
    ensures HeaderStored(Write(mem, b + METADATA + off, s), b, size)
  {
    hide HeaderFor;
  }
}

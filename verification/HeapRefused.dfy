/** A page request that is refused zeroes memory from address 0 on: what that damages. */
module HeapRefused {
  import opened Words
  import opened PmmSpec
  import opened PmmRanges
  import opened SlabSpec
  import opened HeapMemory
  import opened HeapSizes
  import opened HeapSpec
  import opened HeapBooks
  import opened HeapCells
  import opened HeapSteps
  import HeapCreate

  // ---------------------------------------------------------------- the heap's own bytes

  /** The heap after a refused request of n pages. */
  function Cleared(h: Heap, n: nat): (r: Heap)
  {
    h.(mem := Write(h.mem, 0, ZeroBytes(n * PAGE_SIZE)))
  }

  /** No slab begins in the first n pages, and no block of pages but one whose header is 0 anyway. */
  ghost predicate Outside(h: Heap, live: Blocks, n: nat)
  {
    && (forall c: nat :: c < CLASSES && HasSlab(h.pools, c) ==> n <= ClassPage(h.pools, c) / PAGE_SIZE)
    && (forall b: nat :: PageServed(live, b) && b / PAGE_SIZE < n ==> ServiceFor(live[b]).n % 0x1_0000 == 0)
  }

  lemma RefusedIs(h: Heap, size: Word, scan: Scan, n: nat)
    requires |h.pools| == CLASSES && Wf(h.pmm) && ServiceFor(size) == Pages(n) && PageAlloc(h.pmm, n, scan).1 == 0
    ensures Malloc(h, size, scan) == (Cleared(h, n), Pointer(0))
  {
    hide ServiceFor, Wf, Write, FirstHit, FirstRange, Mark;
  }

  lemma AbovePage(a: nat, page: nat, n: nat)
    requires page % PAGE_SIZE == 0 && n <= page / PAGE_SIZE && page <= a
    ensures n * PAGE_SIZE <= a
  {
  }

  lemma BelowPage(page: nat, n: nat)
    requires page % PAGE_SIZE == 0 && page / PAGE_SIZE < n
    ensures page + PAGE_SIZE <= n * PAGE_SIZE
  {
  }

  lemma ClearedOnly(mem: seq<Byte>, n: nat)
    ensures OnlyChanges(mem, Write(mem, 0, ZeroBytes(n * PAGE_SIZE)), 0, n * PAGE_SIZE)
  {
    WriteOnly(mem, 0, ZeroBytes(n * PAGE_SIZE), 0, n * PAGE_SIZE);
  }

  /** A class whose page is outside keeps its list and its slab header. */
  lemma ClassOutside(h: Heap, live: Blocks, reserved: set<nat>, n: nat, c: nat)
    requires Books(h.pools, h.pmm, live, reserved) && h.pmm.pages * PAGE_SIZE <= |h.mem| && c < CLASSES
    requires ListsStored(h.mem, h.pools) && n <= ClassPage(h.pools, c) / PAGE_SIZE
    ensures HasSlab(h.pools, c)
    ensures var m := Cleared(h, n).mem; Threaded(m, h.pools[c].slabs[0].free) && SlabStored(m, h.pools[c].slabs[0])
  {
    hide ServiceFor, Books, Threaded, SlabStored, SameBytes, OnlyChanges, Write, Cell, Room;
    AllSingle(h.pools, h.pmm, live, reserved);
    SlabBounds(h.pools, h.pmm, live, reserved, c);
    var m, free, page := Cleared(h, n).mem, h.pools[c].slabs[0].free, ClassPage(h.pools, c);
    ClearedOnly(h.mem, n);
    AbovePage(page, page, n);
    forall k: nat | k < |free| ensures SameBytes(h.mem, m, free[k], 8) {
      FreePlace(h.pools, h.pmm, live, reserved, c, k);
      OutsideKept(h.mem, m, 0, n * PAGE_SIZE, free[k], 8);
    }
    ThreadedKept(h.mem, m, free);
    OutsideKept(h.mem, m, 0, n * PAGE_SIZE, HeaderOf(page), HEADER_SIZE);
    SlabStoredKept(h.mem, m, h.pools[c].slabs[0]);
  }

  /** A free object lies on its class's page, inside the memory. */
  lemma FreePlace(pools: seq<Pool>, pmm: State, live: Blocks, reserved: set<nat>, c: nat, k: nat)
    requires Books(pools, pmm, live, reserved) && c < CLASSES && HasSlab(pools, c) && k < |pools[c].slabs[0].free|
    ensures ClassPage(pools, c) <= pools[c].slabs[0].free[k]
    ensures pools[c].slabs[0].free[k] + ClassSize(c) <= HeaderOf(ClassPage(pools, c))
    ensures pools[c].slabs[0].free[k] + 16 <= pmm.pages * PAGE_SIZE
  {
    hide ServiceFor, ClassInv, ObjectOf;
    assert HasFree(pools, c, k) && FreeAt(pools, c, k) == pools[c].slabs[0].free[k];
    assert Cell(pools, live, pools[c].slabs[0].free[k], Slab(c));
    CellBounds(pools, pmm, live, reserved, pools[c].slabs[0].free[k], Slab(c));
    CellPlace(pools, pmm, live, reserved, pools[c].slabs[0].free[k], Slab(c));
  }

  /** The header of a live block after the refusal. */
  lemma HeaderOutside(h: Heap, live: Blocks, reserved: set<nat>, n: nat, b: nat)
    requires HeapInv(h, live, reserved) && b in live && Outside(h, live, n)
    ensures HeaderStored(Cleared(h, n).mem, b, live[b])
  {
    hide ServiceFor, ClassInv, Threaded, SlabStored, Write, SameBytes, OnlyChanges, ObjectOf;
    InvBooks(h, live, reserved);
    LiveBase(h, live, reserved, b);
    LivePlace(h.pools, h.pmm, live, reserved, b);
    AllSingle(h.pools, h.pmm, live, reserved);
    hide Books;
    ClearedOnly(h.mem, n);
    var s, m := ServiceFor(live[b]), Cleared(h, n).mem;
    var at := if s.Slab? then ClassPage(h.pools, s.c) else b;
    if n <= at / PAGE_SIZE {
      AbovePage(b, at, n);
      OutsideKept(h.mem, m, 0, n * PAGE_SIZE, b, METADATA);
      HeaderKept(h.mem, m, b, live[b], METADATA);
    } else {
      assert PageServed(live, b);
      BelowPage(b, n);
      ZeroHeader(h.mem, n, b);
    }
  }

  lemma ZeroHeader(mem: seq<Byte>, n: nat, b: nat)
    requires b + METADATA <= n * PAGE_SIZE && b + METADATA <= |mem|
    ensures HeaderAt(Write(mem, 0, ZeroBytes(n * PAGE_SIZE)), b) == 0
  {
    var m := Write(mem, 0, ZeroBytes(n * PAGE_SIZE));
    assert m[b] == 0 && m[b + 1] == 0;
    assert Load(m, b + 2, 0) == 0 && Load(m, b + 1, 1) == 0;
  }

  lemma ZeroField(mem: seq<Byte>, n: nat, a: nat, x: nat)
    requires a + 8 <= n * PAGE_SIZE && a + 8 <= |mem| && 0 < x < WORD_LIMIT
    ensures !Holds(Write(mem, 0, ZeroBytes(n * PAGE_SIZE)), a, Bytes(x, 8))
  {
    hide Bytes, Load, Pow2;
    var m := Write(mem, 0, ZeroBytes(n * PAGE_SIZE));
    assert m[a..a + 8] == ZeroBytes(8);
    HeapCreate.ZeroWord(8);
    LoadIs(m, a, 0, 8);
    Pow2Word();
    SmallMod(0, WORD_LIMIT);
    if Holds(m, a, Bytes(x, 8)) {
      LoadIs(m, a, x, 8);
      SmallMod(x, WORD_LIMIT);
    }
  }

  /** A slab inside the cleared pages loses its header. */
  lemma SlabLost(h: Heap, live: Blocks, reserved: set<nat>, n: nat, c: nat)
    requires HeapInv(h, live, reserved) && c < CLASSES && HasSlab(h.pools, c) && ClassPage(h.pools, c) / PAGE_SIZE < n
    ensures !SlabStored(Cleared(h, n).mem, h.pools[c].slabs[0])
  {
    hide ServiceFor, Books, Threaded, HeaderStored, Write, Bytes, Holds;
    InvBooks(h, live, reserved);
    SlabBounds(h.pools, h.pmm, live, reserved, c);
    var page := ClassPage(h.pools, c);
    BelowPage(page, n);
    ZeroField(h.mem, n, HeaderOf(page) + ADDR_FIELD, page);
  }

  /** A refused request of n pages leaves the heap well if and only if no slab lies below page n, and
      every block of pages that starts there has a page count that the header stores as 0. */
  lemma RefusalKeepsIff(h: Heap, live: Blocks, reserved: set<nat>, size: Word, scan: Scan, n: nat)
    requires HeapInv(h, live, reserved) && ServiceFor(size) == Pages(n)
    requires |h.pools| == CLASSES && Wf(h.pmm) && PageAlloc(h.pmm, n, scan).1 == 0
    ensures Malloc(h, size, scan).1 == Pointer(0)
    ensures HeapInv(Malloc(h, size, scan).0, live, reserved) <==> Outside(h, live, n)
  {
    hide ServiceFor, HeapInv, Malloc, PageAlloc, Wf, Outside;
    RefusedIs(h, size, scan, n);
    if Outside(h, live, n) { OutsideKeeps(h, live, reserved, n); }
    if HeapInv(Cleared(h, n), live, reserved) { KeptOutside(h, live, reserved, n); }
  }

  lemma OutsideKeeps(h: Heap, live: Blocks, reserved: set<nat>, n: nat)
    requires HeapInv(h, live, reserved) && Outside(h, live, n)
    ensures HeapInv(Cleared(h, n), live, reserved)
  {
    hide ServiceFor, HeapInv, Books, Threaded, SlabStored, HeaderStored, Write;
    InvBooks(h, live, reserved);
    InvLists(h, live, reserved);
    AllSingle(h.pools, h.pmm, live, reserved);
    forall c: nat | c < CLASSES
      ensures var m := Cleared(h, n).mem; Threaded(m, h.pools[c].slabs[0].free) && SlabStored(m, h.pools[c].slabs[0])
    {
      assert HasSlab(h.pools, c);
      ClassOutside(h, live, reserved, n, c);
    }
    forall b | b in live ensures HeaderStored(Cleared(h, n).mem, b, live[b]) { HeaderOutside(h, live, reserved, n, b); }
    Assemble(Cleared(h, n), live, reserved);
  }

  lemma KeptOutside(h: Heap, live: Blocks, reserved: set<nat>, n: nat)
    requires HeapInv(h, live, reserved) && HeapInv(Cleared(h, n), live, reserved)
    ensures Outside(h, live, n)
  {
    hide ServiceFor, HeapInv, Books, Threaded, SlabStored, Write, HeaderAt, ListsStored;
    InvLists(Cleared(h, n), live, reserved);
    InvBooks(Cleared(h, n), live, reserved);
    InvBooks(h, live, reserved);
    forall c: nat | c < CLASSES && HasSlab(h.pools, c) ensures n <= ClassPage(h.pools, c) / PAGE_SIZE {
      if ClassPage(h.pools, c) / PAGE_SIZE < n {
        SlabLost(h, live, reserved, n, c);
        ListOf(Cleared(h, n).mem, h.pools, c);
      }
    }
    forall b: nat | PageServed(live, b) && b / PAGE_SIZE < n ensures ServiceFor(live[b]).n % 0x1_0000 == 0 {
      LiveBase(h, live, reserved, b);
      FreeDispatch(h, live, reserved, b);
      BelowPage(b, n);
      ZeroHeader(h.mem, n, b);
      assert HeaderStored(Cleared(h, n).mem, b, live[b]);
    }
  }

  lemma ListOf(mem: seq<Byte>, pools: seq<Pool>, c: nat)
    requires ListsStored(mem, pools) && c < CLASSES
    ensures HasSlab(pools, c) && SlabStored(mem, pools[c].slabs[0])
  {
    hide Threaded, SlabStored;
  }

  // ---------------------------------------------------------------- pages of others

  /** Address x lies on the page of a class. */
  ghost predicate OnSlab(pools: seq<Pool>, x: nat)
  {
    exists c: nat :: c < CLASSES && HasSlab(pools, c) && ClassPage(pools, c) / PAGE_SIZE == x / PAGE_SIZE
  }

  /** Pages in use by others, cache descriptors among them, keep their bytes; page 0 is nobody's. */
  ghost predicate OthersUntouched(h: Heap, mem: seq<Byte>, reserved: set<nat>)
  {
    && |mem| == |h.mem|
    && forall x: nat :: PAGE_SIZE <= x < |h.mem| && x / PAGE_SIZE in reserved && !OnSlab(h.pools, x) ==> mem[x] == h.mem[x]
  }

  lemma SameIsUntouched(h: Heap, reserved: set<nat>)
    ensures OthersUntouched(h, h.mem, reserved)
  {
  }

  /** A change of a class's page touches nobody else's. */
  lemma SlabUntouched(h: Heap, mem: seq<Byte>, reserved: set<nat>, c: nat)
    requires c < CLASSES && HasSlab(h.pools, c) && ClassPage(h.pools, c) % PAGE_SIZE == 0
    requires OnlyChanges(h.mem, mem, ClassPage(h.pools, c), PAGE_SIZE)
    ensures OthersUntouched(h, mem, reserved)
  {
    var page := ClassPage(h.pools, c);
    hide ClassPage, HasSlab;
    forall x: nat | PAGE_SIZE <= x < |h.mem| && x / PAGE_SIZE in reserved && !OnSlab(h.pools, x) ensures mem[x] == h.mem[x] {
      if page <= x < page + PAGE_SIZE {
        SamePage(x, page);
      }
    }
  }

  /** A change of free pages touches nobody's. */
  lemma RangeUntouched(h: Heap, mem: seq<Byte>, reserved: set<nat>, b: nat, n: nat)
    requires b % PAGE_SIZE == 0 && OnlyChanges(h.mem, mem, b, n * PAGE) && Range(b / PAGE_SIZE, n) !! reserved
    ensures OthersUntouched(h, mem, reserved)
  {
    hide Range;
    forall x: nat | PAGE_SIZE <= x < |h.mem| && x / PAGE_SIZE in reserved && !OnSlab(h.pools, x) ensures mem[x] == h.mem[x] {
      if b <= x < b + n * PAGE {
        InRange(b, n, x);
      }
    }
  }

  lemma InRange(b: nat, n: nat, x: nat)
    requires b % PAGE_SIZE == 0 && b <= x < b + n * PAGE
    ensures x / PAGE_SIZE in Range(b / PAGE_SIZE, n)
  {
  }

  /** Every good call touches only its own class's page, pages that were free, or page 0. */
  lemma GoodUntouched(h: Heap, live: Blocks, reserved: set<nat>, size: Word, scan: Scan)
    requires HeapInv(h, live, reserved) && |h.pools| == CLASSES && Wf(h.pmm) && GoodMalloc(h, size, scan)
    ensures OthersUntouched(h, Malloc(h, size, scan).0.mem, reserved)
  {
    hide ServiceFor, HeapInv, Malloc, PageAlloc, Wf, OthersUntouched, TakeObject, Write, OnlyChanges;
    SameIsUntouched(h, reserved);
    match ServiceFor(size)
    case Slab(c) => SlabCall(h, live, reserved, size, scan, c);
    case Pages(n) => PagesCall(h, live, reserved, size, scan, n);
    case Refused => RefusedCall(h, size, scan);
  }

  lemma RefusedCall(h: Heap, size: Word, scan: Scan)
    requires |h.pools| == CLASSES && Wf(h.pmm) && ServiceFor(size) == Refused
    ensures Malloc(h, size, scan).0 == h
  {
    hide ServiceFor, Wf;
  }

  lemma SlabCall(h: Heap, live: Blocks, reserved: set<nat>, size: Word, scan: Scan, c: nat)
    requires HeapInv(h, live, reserved) && |h.pools| == CLASSES && Wf(h.pmm) && ServiceFor(size) == Slab(c) && c < CLASSES
    ensures OthersUntouched(h, Malloc(h, size, scan).0.mem, reserved)
  {
    hide ServiceFor, HeapInv, Malloc, Wf, OthersUntouched, TakeObject, Write, OnlyChanges, Books;
    SameIsUntouched(h, reserved);
    InvBooks(h, live, reserved);
    AllSingle(h.pools, h.pmm, live, reserved);
    MallocIs(h, size, scan, c);
    if h.pools[c].slabs[0].free != [] {
      SlabBounds(h.pools, h.pmm, live, reserved, c);
      FreePlace(h.pools, h.pmm, live, reserved, c, 0);
      TakeOnly(h, c);
      SlabUntouched(h, TakeObject(h, c).mem, reserved, c);
    }
  }

  lemma TakeOnly(h: Heap, c: nat)
    requires c < CLASSES == |h.pools| && HasSlab(h.pools, c) && h.pools[c].slabs[0].free != [] && FindFree(h.pools[c].slabs, 0) == 0
    requires var a, page := h.pools[c].slabs[0].free[0], ClassPage(h.pools, c); page <= a && a + ClassSize(c) <= HeaderOf(page)
    ensures OnlyChanges(h.mem, TakeObject(h, c).mem, ClassPage(h.pools, c), PAGE_SIZE)
  {
    hide Write, OnlyChanges, Bytes, SetSlab, ClassSize;
    var slab := h.pools[c].slabs[0];
    var page, m1 := slab.page, SetSlab(h.mem, slab.page, At(slab.free, 1), |slab.free| - 1);
    ClassRoom(c);
    SetSlabOnly(h.mem, page, At(slab.free, 1), |slab.free| - 1);
    WiderOnly(h.mem, m1, HeaderOf(page), HEADER_SIZE, page, PAGE_SIZE);
    WriteOnly(m1, slab.free[0], Bytes(c, METADATA), page, PAGE_SIZE);
    OnlyTwice(h.mem, m1, TakeObject(h, c).mem, page, PAGE_SIZE);
  }

  lemma WiderOnly(mem: seq<Byte>, mem': seq<Byte>, a: nat, m: nat, b: nat, n: nat)
    requires OnlyChanges(mem, mem', a, m) && b <= a && a + m <= b + n
    ensures OnlyChanges(mem, mem', b, n)
  {
  }

  lemma PagesCall(h: Heap, live: Blocks, reserved: set<nat>, size: Word, scan: Scan, n: nat)
    requires HeapInv(h, live, reserved) && |h.pools| == CLASSES && Wf(h.pmm) && ServiceFor(size) == Pages(n) && GoodMalloc(h, size, scan)
    ensures OthersUntouched(h, Malloc(h, size, scan).0.mem, reserved)
  {
    hide ServiceFor, HeapInv, Malloc, PageAlloc, Wf, OthersUntouched, OnlyChanges, Write, Range, FreePages;
    var (pmm', b) := PageAlloc(h.pmm, n, scan);
    CleanClaims(h.pmm, n, scan);
    if b == 0 {
      RefusedIs(h, size, scan, n);
      ClearedOnly(h.mem, n);
      PageZeroUntouched(h, n, reserved);
    } else {
      TakenIs(h, size, scan, n);
      TakePagesIs(h, n, pmm', b);
      ReservedNotFree(h, live, reserved);
      RangeUntouched(h, TakePages(h, n, pmm', b).mem, reserved, b, n);
    }
  }

  lemma PageZeroUntouched(h: Heap, n: nat, reserved: set<nat>)
    requires n <= 1
    ensures OthersUntouched(h, Cleared(h, n).mem, reserved)
  {
    hide OnSlab;
  }

  lemma TakenIs(h: Heap, size: Word, scan: Scan, n: nat)
    requires |h.pools| == CLASSES && Wf(h.pmm) && ServiceFor(size) == Pages(n)
    ensures var (pmm', b) := PageAlloc(h.pmm, n, scan); Malloc(h, size, scan).0 == TakePages(h, n, pmm', b)
  {
    hide ServiceFor, Wf, PageAlloc, TakePages;
  }

  lemma ReservedNotFree(h: Heap, live: Blocks, reserved: set<nat>)
    requires HeapInv(h, live, reserved)
    ensures reserved !! FreePages(h.pmm)
  {
    hide ServiceFor, ClassInv, PageBlock;
  }
}

/** Where the heap's blocks and free objects lie in memory, and what a write to one of them leaves
    alone. */
module HeapCells {
  import opened Words
  import opened PmmSpec
  import opened SlabSpec
  import opened HeapMemory
  import opened HeapSizes
  import opened HeapSpec
  import opened HeapBooks

  /** a is the base of a live block or of a free object, and s says who serves it. */
  ghost predicate Cell(pools: seq<Pool>, live: Blocks, a: nat, s: Service)
  {
    || (a in live && s == ServiceFor(live[a]))
    || (s.Slab? && s.c < CLASSES && s.c < |pools| && |pools[s.c].slabs| == 1 && a in pools[s.c].slabs[0].free)
  }

  lemma CellPlace(pools: seq<Pool>, pmm: State, live: Blocks, reserved: set<nat>, a: nat, s: Service)
    requires Books(pools, pmm, live, reserved) && Cell(pools, live, a, s)
    ensures s.Slab? || s.Pages?
    ensures s.Slab? ==> s.c < CLASSES && |pools[s.c].slabs| == 1 && OnClassPage(pools, s.c, a)
    ensures s.Pages? ==> PageServed(live, a) && PageBlock(a, s.n, pmm, reserved) && Frames(live, a) == Range(a / PAGE_SIZE, s.n)
  {
    hide ServiceFor, OnClassPage, ClassInv;
    if a in live && s == ServiceFor(live[a]) {
      AllSingle(pools, pmm, live, reserved);
      LivePlace(pools, pmm, live, reserved, a);
    } else {
      assert ClassInv(pools[s.c], pmm, Held(live, s.c), reserved, s.c);
      ObjectPlace(pools, pmm, Held(live, s.c), reserved, s.c, a);
    }
  }

  /** Two cells never overlap. */
  lemma CellsApart(pools: seq<Pool>, pmm: State, live: Blocks, reserved: set<nat>, a: nat, s: Service, b: nat, t: Service)
    requires Books(pools, pmm, live, reserved) && Cell(pools, live, a, s) && Cell(pools, live, b, t) && a != b
    ensures (s.Slab? ==> s.c < CLASSES) && (t.Slab? ==> t.c < CLASSES)
    ensures a + Room(s) <= b || b + Room(t) <= a
  {
    hide ServiceFor, ClassInv, ObjectOf, ClassSize, Range, FreePages;
    CellPlace(pools, pmm, live, reserved, a, s);
    CellPlace(pools, pmm, live, reserved, b, t);
    AllSingle(pools, pmm, live, reserved);
    hide Cell;
    if s.Slab? && t.Slab? {
      hide Books;
      if s.c == t.c {
        SamePageApart(ClassPage(pools, s.c), ClassSize(s.c), a, b);
      } else {
        DifferentPages(pools, pmm, live, reserved, s.c, t.c);
        PageGap(a, b, ClassSize(s.c), ClassSize(t.c), ClassPage(pools, s.c), ClassPage(pools, t.c));
      }
    } else if s.Slab? {
      hide Books;
      SlabPageApart(ClassPage(pools, s.c), ClassSize(s.c), a, b, t.n, reserved);
    } else if t.Slab? {
      hide Books;
      SlabPageApart(ClassPage(pools, t.c), ClassSize(t.c), b, a, s.n, reserved);
    } else {
      assert Frames(live, a) !! Frames(live, b);
      hide Books;
      RangesApart(a, s.n, b, t.n);
    }
  }

  lemma SamePageApart(page: nat, size: nat, a: nat, b: nat)
    requires size > 0 && page % PAGE_SIZE == 0 && ObjectOf(a, page, size) && ObjectOf(b, page, size) && a != b
    ensures a + size <= b || b + size <= a
  {
    hide ObjectOf;
    ObjectsApart({page}, size, a, b);
  }

  lemma PageGap(a: nat, b: nat, m: nat, n: nat, p: nat, q: nat)
    requires p % PAGE_SIZE == 0 && q % PAGE_SIZE == 0 && p / PAGE_SIZE != q / PAGE_SIZE
    requires p <= a && a + m <= p + PAGE_SIZE && q <= b && b + n <= q + PAGE_SIZE
    ensures a + m <= b || b + n <= a
  {
  }

  lemma SlabPageApart(page: nat, size: nat, a: nat, b: nat, n: nat, reserved: set<nat>)
    requires page % PAGE_SIZE == 0 && page / PAGE_SIZE in reserved && page <= a && a + size <= page + PAGE_SIZE
    requires b % PAGE_SIZE == 0 && Range(b / PAGE_SIZE, n) !! reserved
    ensures a + size <= b || b + n * PAGE <= a
  {
    hide Range;
    assert page / PAGE_SIZE !in Range(b / PAGE_SIZE, n);
  }

  lemma RangesApart(a: nat, m: nat, b: nat, n: nat)
    requires a % PAGE_SIZE == 0 && b % PAGE_SIZE == 0 && m > 0 && n > 0
    requires Range(a / PAGE_SIZE, m) !! Range(b / PAGE_SIZE, n)
    ensures a + m * PAGE <= b || b + n * PAGE <= a
  {
    hide Range;
    assert a / PAGE_SIZE in Range(a / PAGE_SIZE, m) && b / PAGE_SIZE in Range(b / PAGE_SIZE, n);
  }

  /** Every cell lies above page 0 and below the top of memory. */
  lemma CellBounds(pools: seq<Pool>, pmm: State, live: Blocks, reserved: set<nat>, a: nat, s: Service)
    requires Books(pools, pmm, live, reserved) && Cell(pools, live, a, s)
    ensures s.Slab? ==> s.c < CLASSES
    ensures PAGE_SIZE <= a && a + Room(s) <= pmm.pages * PAGE_SIZE && Room(s) >= 16
  {
    hide ServiceFor, ClassInv, Range, FreePages, ObjectOf;
    CellPlace(pools, pmm, live, reserved, a, s);
    if s.Slab? {
      AllSingle(pools, pmm, live, reserved);
      assert ClassPage(pools, s.c) / PAGE_SIZE < pmm.pages;
      assert pmm.bits[0];
      PositivePage(pools[s.c], pmm, Held(live, s.c), reserved, s.c);
    }
  }

  lemma PositivePage(pool: Pool, pmm: State, held: set<nat>, reserved: set<nat>, c: nat)
    requires c < CLASSES && ClassInv(pool, pmm, held, reserved, c)
    ensures pool.slabs[0].page >= PAGE_SIZE
  {
    assert TakenPage(pmm, pool.slabs[0].page);
  }

  // ---------------------------------------------------------------- writes

  /** Every live block outside `except` keeps all its bytes. */
  ghost predicate BlocksKept(mem: seq<Byte>, mem': seq<Byte>, live: Blocks, except: set<nat>)
  {
    forall b :: b in live && b !in except ==> SameBytes(mem, mem', b, Room(ServiceFor(live[b])))
  }

  /** Every free object outside `except` keeps its bufctl: the link and the index. */
  ghost predicate LinksKept(mem: seq<Byte>, mem': seq<Byte>, pools: seq<Pool>, except: set<nat>)
  {
    forall c: nat, k: nat :: HasFree(pools, c, k) && FreeAt(pools, c, k) !in except ==> SameBytes(mem, mem', FreeAt(pools, c, k), 10)
  }

  ghost predicate HasFree(pools: seq<Pool>, c: nat, k: nat)
  {
    c < CLASSES && c < |pools| && |pools[c].slabs| == 1 && k < |pools[c].slabs[0].free|
  }

  ghost function FreeAt(pools: seq<Pool>, c: nat, k: nat): (n: nat)
    requires HasFree(pools, c, k)
  {
    pools[c].slabs[0].free[k]
  }

  /** Every slab header outside `except` keeps all its bytes. */
  ghost predicate SlabsKept(mem: seq<Byte>, mem': seq<Byte>, pools: seq<Pool>, except: set<nat>)
  {
    forall c: nat :: c < CLASSES && c !in except && HasSlab(pools, c) ==> SameBytes(mem, mem', SlabAt(pools, c), HEADER_SIZE)
  }

  ghost predicate HasSlab(pools: seq<Pool>, c: nat)
  {
    c < |pools| && |pools[c].slabs| == 1
  }

  /** The header of class c's slab. */
  ghost function SlabAt(pools: seq<Pool>, c: nat): (a: nat)
    requires HasSlab(pools, c)
  {
    HeaderOf(ClassPage(pools, c))
  }

  /** A slab header overlaps no cell. */
  lemma SlabApart(pools: seq<Pool>, pmm: State, live: Blocks, reserved: set<nat>, a: nat, s: Service, c: nat)
    requires Books(pools, pmm, live, reserved) && Cell(pools, live, a, s) && c < CLASSES
    ensures HasSlab(pools, c) && (s.Slab? ==> s.c < CLASSES)
    ensures a + Room(s) <= SlabAt(pools, c) || SlabAt(pools, c) + HEADER_SIZE <= a
  {
    hide ServiceFor, ClassInv, ObjectOf, ClassSize, Range, FreePages, Cell, Books;
    CellPlace(pools, pmm, live, reserved, a, s);
    AllSingle(pools, pmm, live, reserved);
    if s.Slab? {
      if s.c != c {
        DifferentPages(pools, pmm, live, reserved, s.c, c);
        PageGap(a, SlabAt(pools, c), ClassSize(s.c), HEADER_SIZE, ClassPage(pools, s.c), ClassPage(pools, c));
      }
    } else {
      SlabPageApart(ClassPage(pools, c), HEADER_SIZE, SlabAt(pools, c), a, s.n, reserved);
    }
  }

  /** Slab headers lie above page 0, below the top, and apart from each other. */
  lemma SlabBounds(pools: seq<Pool>, pmm: State, live: Blocks, reserved: set<nat>, c: nat)
    requires Books(pools, pmm, live, reserved) && c < CLASSES
    ensures HasSlab(pools, c) && PAGE_SIZE <= SlabAt(pools, c) && SlabAt(pools, c) + HEADER_SIZE <= pmm.pages * PAGE_SIZE
    ensures ClassPage(pools, c) % PAGE_SIZE == 0 && ClassPage(pools, c) >= PAGE_SIZE
  {
    hide ServiceFor, ClassInv;
    AllSingle(pools, pmm, live, reserved);
    assert ClassPage(pools, c) / PAGE_SIZE < pmm.pages;
    PositivePage(pools[c], pmm, Held(live, c), reserved, c);
  }

  lemma SlabsApart(pools: seq<Pool>, pmm: State, live: Blocks, reserved: set<nat>, c: nat, d: nat)
    requires Books(pools, pmm, live, reserved) && c < CLASSES && d < CLASSES && c != d
    ensures HasSlab(pools, c) && HasSlab(pools, d)
    ensures SlabAt(pools, c) + HEADER_SIZE <= SlabAt(pools, d) || SlabAt(pools, d) + HEADER_SIZE <= SlabAt(pools, c)
  {
    hide Books;
    DifferentPages(pools, pmm, live, reserved, c, d);
    AllSingle(pools, pmm, live, reserved);
    PageGap(SlabAt(pools, c), SlabAt(pools, d), HEADER_SIZE, HEADER_SIZE, ClassPage(pools, c), ClassPage(pools, d));
  }

  /** Nothing that the allocator relies on changes outside the given blocks, free objects and slabs. */
  ghost predicate OthersKept(mem: seq<Byte>, mem': seq<Byte>, pools: seq<Pool>, live: Blocks, blocks: set<nat>, slabs: set<nat>)
  {
    && BlocksKept(mem, mem', live, blocks)
    && LinksKept(mem, mem', pools, blocks)
    && SlabsKept(mem, mem', pools, slabs)
  }

  /** A write inside one cell keeps all others, and every slab header. */
  lemma CellWrite(pools: seq<Pool>, pmm: State, live: Blocks, reserved: set<nat>, mem: seq<Byte>, mem': seq<Byte>, a: nat, s: Service)
    requires Books(pools, pmm, live, reserved) && Cell(pools, live, a, s) && pmm.pages * PAGE_SIZE <= |mem|
    requires (s.Slab? ==> s.c < CLASSES) && OnlyChanges(mem, mem', a, Room(s))
    ensures OthersKept(mem, mem', pools, live, {a}, {})
  {
    hide ServiceFor, Room, Books, OnlyChanges, SameBytes;
    forall b | b in live && b != a ensures SameBytes(mem, mem', b, Room(ServiceFor(live[b]))) {
      CellsApart(pools, pmm, live, reserved, a, s, b, ServiceFor(live[b]));
      CellBounds(pools, pmm, live, reserved, b, ServiceFor(live[b]));
      OutsideKept(mem, mem', a, Room(s), b, Room(ServiceFor(live[b])));
    }
    forall c: nat, k: nat | HasFree(pools, c, k) && FreeAt(pools, c, k) != a
      ensures SameBytes(mem, mem', FreeAt(pools, c, k), 10)
    {
      var e := FreeAt(pools, c, k);
      assert Cell(pools, live, e, Slab(c));
      CellsApart(pools, pmm, live, reserved, a, s, e, Slab(c));
      CellBounds(pools, pmm, live, reserved, e, Slab(c));
      OutsideKept(mem, mem', a, Room(s), e, Room(Slab(c)));
      FewerSame(mem, mem', e, Room(Slab(c)), e, 10);
    }
    forall c: nat | c < CLASSES && HasSlab(pools, c) ensures SameBytes(mem, mem', SlabAt(pools, c), HEADER_SIZE) {
      SlabApart(pools, pmm, live, reserved, a, s, c);
      SlabBounds(pools, pmm, live, reserved, c);
      OutsideKept(mem, mem', a, Room(s), SlabAt(pools, c), HEADER_SIZE);
    }
  }

  /** A write to the header of class c's slab keeps every cell and every other header. */
  lemma SlabWrite(pools: seq<Pool>, pmm: State, live: Blocks, reserved: set<nat>, mem: seq<Byte>, mem': seq<Byte>, c: nat)
    requires Books(pools, pmm, live, reserved) && c < CLASSES && HasSlab(pools, c) && pmm.pages * PAGE_SIZE <= |mem|
    requires OnlyChanges(mem, mem', SlabAt(pools, c), HEADER_SIZE)
    ensures OthersKept(mem, mem', pools, live, {}, {c})
  {
    hide ServiceFor, Room, Books, OnlyChanges, SameBytes, ClassPage;
    var a := SlabAt(pools, c);
    hide SlabAt;
    forall b | b in live ensures SameBytes(mem, mem', b, Room(ServiceFor(live[b]))) {
      SlabApart(pools, pmm, live, reserved, b, ServiceFor(live[b]), c);
      CellBounds(pools, pmm, live, reserved, b, ServiceFor(live[b]));
      OutsideKept(mem, mem', a, HEADER_SIZE, b, Room(ServiceFor(live[b])));
    }
    forall d: nat, k: nat | HasFree(pools, d, k) ensures SameBytes(mem, mem', FreeAt(pools, d, k), 10) {
      var e := FreeAt(pools, d, k);
      assert Cell(pools, live, e, Slab(d));
      SlabApart(pools, pmm, live, reserved, e, Slab(d), c);
      CellBounds(pools, pmm, live, reserved, e, Slab(d));
      OutsideKept(mem, mem', a, HEADER_SIZE, e, Room(Slab(d)));
      FewerSame(mem, mem', e, Room(Slab(d)), e, 10);
    }
    forall d: nat | d < CLASSES && d != c && HasSlab(pools, d) ensures SameBytes(mem, mem', SlabAt(pools, d), HEADER_SIZE) {
      SlabsApart(pools, pmm, live, reserved, c, d);
      SlabBounds(pools, pmm, live, reserved, d);
      OutsideKept(mem, mem', a, HEADER_SIZE, SlabAt(pools, d), HEADER_SIZE);
    }
  }

  /** A write below every cell keeps them all. */
  lemma LowWrite(pools: seq<Pool>, pmm: State, live: Blocks, reserved: set<nat>, mem: seq<Byte>, mem': seq<Byte>)
    requires Books(pools, pmm, live, reserved) && pmm.pages * PAGE_SIZE <= |mem|
    requires OnlyChanges(mem, mem', 0, PAGE_SIZE)
    ensures OthersKept(mem, mem', pools, live, {}, {})
  {
    hide ServiceFor, Room, Books, OnlyChanges, SameBytes;
    forall b | b in live ensures SameBytes(mem, mem', b, Room(ServiceFor(live[b]))) {
      CellBounds(pools, pmm, live, reserved, b, ServiceFor(live[b]));
      OutsideKept(mem, mem', 0, PAGE_SIZE, b, Room(ServiceFor(live[b])));
    }
    forall c: nat, k: nat | HasFree(pools, c, k) ensures SameBytes(mem, mem', FreeAt(pools, c, k), 10) {
      var e := FreeAt(pools, c, k);
      assert Cell(pools, live, e, Slab(c));
      CellBounds(pools, pmm, live, reserved, e, Slab(c));
      OutsideKept(mem, mem', 0, PAGE_SIZE, e, Room(Slab(c)));
      FewerSame(mem, mem', e, Room(Slab(c)), e, 10);
    }
    forall c: nat | c < CLASSES && HasSlab(pools, c) ensures SameBytes(mem, mem', SlabAt(pools, c), HEADER_SIZE) {
      SlabBounds(pools, pmm, live, reserved, c);
      OutsideKept(mem, mem', 0, PAGE_SIZE, SlabAt(pools, c), HEADER_SIZE);
    }
  }

  // ---------------------------------------------------------------- headers and links

  lemma HeaderKept(mem: seq<Byte>, mem': seq<Byte>, b: nat, size: Word, n: nat)
    requires HeaderStored(mem, b, size) && SameBytes(mem, mem', b, n) && n >= METADATA
    ensures HeaderStored(mem', b, size)
  {
    hide HeaderFor;
    assert mem'[b] == mem[b] && mem'[b + 1] == mem[b + 1];
  }

  lemma HeaderWritten(mem: seq<Byte>, b: nat, v: nat)
    requires b + METADATA <= |mem|
    ensures HeaderAt(Write(mem, b, Bytes(v, METADATA)), b) == v % 0x1_0000
  {
    hide Write, Bytes, Load, Pow2;
    StoredAt(mem, b, Bytes(v, METADATA));
    LoadIs(Write(mem, b, Bytes(v, METADATA)), b, v, METADATA);
    TwoBytes();
  }

  lemma TwoBytes()
    ensures Pow2(8 * METADATA) == 0x1_0000
  {
    Pow2Byte();
    Pow2Twice(8, 0x100);
  }

  lemma LinkWritten(mem: seq<Byte>, b: nat, next: nat, index: nat)
    requires b + 10 <= |mem|
    ensures Holds(Write(mem, b, Bufctl(next, index)), b, Bytes(next, 8))
  {
    hide Bytes;
  }

  lemma ThreadedKept(mem: seq<Byte>, mem': seq<Byte>, free: seq<nat>)
    requires Threaded(mem, free) && forall k: nat :: k < |free| ==> SameBytes(mem, mem', free[k], 8)
    ensures Threaded(mem', free)
  {
    hide Bytes, Holds, SameBytes;
    forall k: nat | k < |free| ensures Holds(mem', free[k], Bytes(At(free, k + 1), 8)) {
      HoldsKept(mem, mem', free[k], 8, free[k], Bytes(At(free, k + 1), 8));
    }
  }

  lemma ThreadedPopped(mem: seq<Byte>, mem': seq<Byte>, free: seq<nat>)
    requires Threaded(mem, free) && free != [] && forall k: nat :: 0 < k < |free| ==> SameBytes(mem, mem', free[k], 8)
    ensures Threaded(mem', free[1..])
  {
    hide Bytes, Holds, SameBytes;
    var rest := free[1..];
    forall k: nat | k < |rest| ensures Holds(mem', rest[k], Bytes(At(rest, k + 1), 8)) {
      assert rest[k] == free[k + 1] && At(rest, k + 1) == At(free, k + 2);
      HoldsKept(mem, mem', free[k + 1], 8, free[k + 1], Bytes(At(free, k + 2), 8));
    }
  }

  lemma ThreadedPushed(mem: seq<Byte>, mem': seq<Byte>, free: seq<nat>, b: nat)
    requires Threaded(mem, free) && forall k: nat :: k < |free| ==> SameBytes(mem, mem', free[k], 8)
    requires Holds(mem', b, Bytes(At(free, 0), 8))
    ensures Threaded(mem', [b] + free)
  {
    hide Bytes, Holds, SameBytes;
    var list := [b] + free;
    forall k: nat | k < |list| ensures Holds(mem', list[k], Bytes(At(list, k + 1), 8)) {
      assert At(list, k + 1) == At(free, k);
      if k > 0 { HoldsKept(mem, mem', free[k - 1], 8, free[k - 1], Bytes(At(free, k), 8)); }
    }
  }

  // ---------------------------------------------------------------- slab headers

  lemma SetSlabOnly(mem: seq<Byte>, page: nat, head: nat, count: nat)
    ensures OnlyChanges(mem, SetSlab(mem, page, head, count), HeaderOf(page), HEADER_SIZE)
  {
    hide Bytes, Write, OnlyChanges;
    var a := HeaderOf(page);
    var m := Write(mem, a + HEAD_FIELD, Bytes(head, 8));
    WriteOnly(mem, a + HEAD_FIELD, Bytes(head, 8), a, HEADER_SIZE);
    WriteOnly(m, a + COUNT_FIELD, Bytes(count, 8), a, HEADER_SIZE);
    OnlyTwice(mem, m, SetSlab(mem, page, head, count), a, HEADER_SIZE);
  }

  /** Storing head and count turns the header of a slab into that of the slab with another list. */
  lemma SetSlabStored(mem: seq<Byte>, slab: SlabView, free: seq<nat>)
    requires SlabStored(mem, slab)
    ensures SlabStored(SetSlab(mem, slab.page, At(free, 0), |free|), slab.(free := free))
  {
    hide Bytes, Write, Holds;
    var a := HeaderOf(slab.page);
    var head, count := Bytes(At(free, 0), 8), Bytes(|free|, 8);
    var m := Write(mem, a + HEAD_FIELD, head);
    StoredAt(mem, a + HEAD_FIELD, head);
    StoredAt(m, a + COUNT_FIELD, count);
    WrittenBeside(m, a + COUNT_FIELD, count, a + HEAD_FIELD, head);
    WrittenBeside(mem, a + HEAD_FIELD, head, a, Bytes(0, 8));
    WrittenBeside(m, a + COUNT_FIELD, count, a, Bytes(0, 8));
    WrittenBeside(mem, a + HEAD_FIELD, head, a + ADDR_FIELD, Bytes(slab.page, 8));
    WrittenBeside(m, a + COUNT_FIELD, count, a + ADDR_FIELD, Bytes(slab.page, 8));
  }

  lemma SlabStoredKept(mem: seq<Byte>, mem': seq<Byte>, slab: SlabView)
    requires SlabStored(mem, slab) && SameBytes(mem, mem', HeaderOf(slab.page), HEADER_SIZE)
    ensures SlabStored(mem', slab)
  {
    hide Bytes, Holds, SameBytes;
    var a := HeaderOf(slab.page);
    SameLength(mem, mem', a, HEADER_SIZE);
    HoldsKept(mem, mem', a, HEADER_SIZE, a, Bytes(0, 8));
    HoldsKept(mem, mem', a, HEADER_SIZE, a + COUNT_FIELD, Bytes(|slab.free|, 8));
    HoldsKept(mem, mem', a, HEADER_SIZE, a + ADDR_FIELD, Bytes(slab.page, 8));
    HoldsKept(mem, mem', a, HEADER_SIZE, a + HEAD_FIELD, Bytes(At(slab.free, 0), 8));
  }

  lemma SameLength(mem: seq<Byte>, mem': seq<Byte>, b: nat, n: nat)
    requires SameBytes(mem, mem', b, n)
    ensures |mem'| == |mem| && b + n <= |mem|
  {
  }
}

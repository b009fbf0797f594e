/** What the allocator loads from memory: slab headers and free-list links are where the heap's
    invariant says, and a copy by realloc leaves the slab headers alone. */
module HeapLoads {
  import opened Words
  import opened PmmSpec
  import opened SlabSpec
  import opened HeapMemory
  import opened HeapSizes
  import opened HeapSpec
  import opened HeapBooks
  import opened HeapCells
  import opened HeapSteps
  import opened HeapRealloc

  /** The fields of a slab_cache_t that malloc uses. */
  datatype Cache = Cache(size: nat, max: nat, slabsHead: nat)

  /** The descriptor and the abstract cache agree. */
  ghost predicate Describes(cache: Cache, pool: Pool)
  {
    && cache.size == pool.size > 0 && cache.max == pool.max < WORD_LIMIT
    && |pool.slabs| == 1 && cache.slabsHead == HeaderOf(pool.slabs[0].page) && |pool.slabs[0].free| <= pool.max
  }

  /** The fields of a slab header, as loads. */
  ghost predicate SlabLoads(mem: seq<Byte>, slab: SlabView)
  {
    var a := HeaderOf(slab.page);
    && a + HEADER_SIZE <= |mem|
    && Load(mem, a, 8) == 0 && Load(mem, a + COUNT_FIELD, 8) == |slab.free|
    && Load(mem, a + ADDR_FIELD, 8) == slab.page && Load(mem, a + HEAD_FIELD, 8) == At(slab.free, 0)
  }

  lemma SlabLoadsAre(mem: seq<Byte>, slab: SlabView)
    requires SlabStored(mem, slab) && |mem| <= WORD_LIMIT && |slab.free| < WORD_LIMIT && At(slab.free, 0) < WORD_LIMIT
    ensures SlabLoads(mem, slab)
  {
    hide Bytes, Load, Holds;
    var a := HeaderOf(slab.page);
    WordIs(mem, a, 0);
    WordIs(mem, a + COUNT_FIELD, |slab.free|);
    WordIs(mem, a + ADDR_FIELD, slab.page);
    WordIs(mem, a + HEAD_FIELD, At(slab.free, 0));
  }

  lemma LinkLoad(mem: seq<Byte>, free: seq<nat>, k: nat)
    requires Threaded(mem, free) && |mem| <= WORD_LIMIT && k < |free|
    ensures free[k] + 8 <= |mem| && Load(mem, free[k], 8) == At(free, k + 1)
  {
    hide Bytes, Load;
    assert Holds(mem, free[k], Bytes(At(free, k + 1), 8));
    if k + 1 < |free| { assert Holds(mem, free[k + 1], Bytes(At(free, k + 2), 8)); }
    hide Holds;
    WordIs(mem, free[k], At(free, k + 1));
  }

  /** In every heap of the invariant the slab header and the links of each class, loaded from memory,
      are the abstract list: the word at the head of the list is the head that Pop leaves. */
  lemma ListInMemory(h: Heap, live: Blocks, reserved: set<nat>, c: nat)
    requires HeapInv(h, live, reserved) && c < CLASSES
    ensures |h.pools| == CLASSES && |h.pools[c].slabs| == 1 && SlabLoads(h.mem, h.pools[c].slabs[0])
    ensures var free := h.pools[c].slabs[0].free;
            && |free| <= h.pools[c].max
            && (forall k: nat :: k < |free| ==> free[k] + 8 <= |h.mem| && Load(h.mem, free[k], 8) == At(free, k + 1))
            && (free != [] ==> Load(h.mem, free[0], 8) == At(Pop(h.pools[c], 0).slabs[0].free, 0))
  {
    hide ServiceFor, Threaded, HeaderStored, SlabStored, SlabLoads, Load, PoolInv, Capacity;
    InvBooks(h, live, reserved);
    InvLists(h, live, reserved);
    var slab := h.pools[c].slabs[0];
    assert ClassInv(h.pools[c], h.pmm, Held(live, c), reserved, c);
    CapacityBound(c);
    forall k: nat | k < |slab.free| ensures slab.free[k] + 8 <= |h.mem| && Load(h.mem, slab.free[k], 8) == At(slab.free, k + 1) {
      LinkLoad(h.mem, slab.free, k);
    }
    SlabLoadsAre(h.mem, slab);
  }

  /** The head of a list is an address, and no NULL. */
  ghost predicate Addresses(free: seq<nat>)
  {
    At(free, 0) < WORD_LIMIT && (free != [] ==> free[0] > 0)
  }

  lemma InvHeaders(h: Heap, live: Blocks, reserved: set<nat>)
    requires HeapInv(h, live, reserved)
    ensures |h.pools| == CLASSES && |h.mem| <= WORD_LIMIT
    ensures forall c: nat :: c < CLASSES ==>
              |h.pools[c].slabs| == 1 && SlabStored(h.mem, h.pools[c].slabs[0]) && Addresses(h.pools[c].slabs[0].free)
  {
    hide ServiceFor, Threaded, SlabStored, ClassInv, HeaderStored;
    InvBooks(h, live, reserved);
    InvLists(h, live, reserved);
    forall c: nat | c < CLASSES ensures Addresses(h.pools[c].slabs[0].free) {
      var free := h.pools[c].slabs[0].free;
      if free != [] {
        assert HasFree(h.pools, c, 0) && FreeAt(h.pools, c, 0) == free[0];
        assert Cell(h.pools, live, free[0], Slab(c));
        hide Books;
        CellBounds(h.pools, h.pmm, live, reserved, free[0], Slab(c));
      }
    }
  }

  lemma CapacityBound(c: nat)
    requires c < CLASSES
    ensures Capacity(ClassSize(c)) <= PAGE_SIZE
  {
  }

  /** An object lies so far below the slab header that two more bytes do not reach it. */
  lemma GapBelowHeader(a: nat, page: nat, c: nat)
    requires c < CLASSES && ObjectOf(a, page, ClassSize(c))
    ensures a + ClassSize(c) + METADATA <= HeaderOf(page)
  {
    var size := ClassSize(c);
    var j: nat :| j < Capacity(size) && a == ObjectAt(page, size, j);
    MulMono(j + 1, Capacity(size), size);
    LastObject(c);
    hide Capacity, ClassSize;
    assert (j + 1) * size == size * j + size;
  }

  lemma LastObject(c: nat)
    requires c < CLASSES
    ensures Capacity(ClassSize(c)) * ClassSize(c) + METADATA <= PAGE_SIZE - HEADER_SIZE
  {
  }

  /** The bytes of a live block and two more overlap no slab header. */
  lemma OverrunApart(h: Heap, live: Blocks, reserved: set<nat>, d: nat, n: nat, c: nat)
    requires HeapInv(h, live, reserved) && d in live && c < CLASSES
    requires n <= Room(ServiceFor(live[d])) && n <= LARGEST
    ensures HasSlab(h.pools, c) && SlabAt(h.pools, c) + HEADER_SIZE <= |h.mem|
    ensures d + METADATA + n <= SlabAt(h.pools, c) || SlabAt(h.pools, c) + HEADER_SIZE <= d
  {
    hide ServiceFor, ClassInv, Threaded, HeaderStored, SlabStored, ObjectOf;
    InvBooks(h, live, reserved);
    var s := ServiceFor(live[d]);
    SlabBounds(h.pools, h.pmm, live, reserved, c);
    CellBounds(h.pools, h.pmm, live, reserved, d, s);
    SlabApart(h.pools, h.pmm, live, reserved, d, s, c);
    LivePlace(h.pools, h.pmm, live, reserved, d);
    AllSingle(h.pools, h.pmm, live, reserved);
    if s.Slab? {
      var page := ClassPage(h.pools, s.c);
      ClassRoom(s.c);
      GapBelowHeader(d, page, s.c);
      if s.c != c { DifferentPages(h.pools, h.pmm, live, reserved, s.c, c); }
    }
  }

  lemma CopyOnly(mem: seq<Byte>, dst: nat, src: nat, n: nat)
    ensures OnlyChanges(mem, CopyForward(mem, dst, src, n), dst, n)
  {
  }

  /** The copy of realloc into a new block leaves every slab header as it is. */
  lemma HeadersAfterCopy(h: Heap, live: Blocks, reserved: set<nat>, d: nat, src: nat, n: nat)
    requires HeapInv(h, live, reserved) && d in live && n <= Room(ServiceFor(live[d])) && n <= LARGEST
    ensures |h.pools| == CLASSES
    ensures forall c: nat :: c < CLASSES ==>
              |h.pools[c].slabs| == 1 && SlabStored(CopyForward(h.mem, d + METADATA, src, n), h.pools[c].slabs[0])
  {
    hide ServiceFor, ClassInv, Threaded, HeaderStored, SlabStored, CopyForward, SameBytes, OnlyChanges, Room;
    InvBooks(h, live, reserved);
    InvLists(h, live, reserved);
    var m := CopyForward(h.mem, d + METADATA, src, n);
    CopyOnly(h.mem, d + METADATA, src, n);
    forall c: nat | c < CLASSES ensures |h.pools[c].slabs| == 1 && SlabStored(m, h.pools[c].slabs[0]) {
      OverrunApart(h, live, reserved, d, n, c);
      OutsideKept(h.mem, m, d + METADATA, n, SlabAt(h.pools, c), HEADER_SIZE);
      SlabStoredKept(h.mem, m, h.pools[c].slabs[0]);
    }
  }

  /** No copy is longer than the largest class, and none is longer than the room of the new block. */
  lemma CopyBound(b: nat, header: nat, size: Word)
    requires header < 0x1_0000 && OldSize(b, header) >= 0 && size + METADATA < WORD_LIMIT && !ServiceFor(size).Refused?
    ensures var n := CopyLength(OldSize(b, header), RoundAllocSize(size));
            n <= LARGEST && n <= Room(ServiceFor(size))
  {
    hide ServiceFor, RoundAllocSize;
    var s := ServiceFor(size);
    FitsIffNoWrap(size);
    ServiceIs(size);
    if size <= LARGEST {
      var e := RoundSmall(size);
      RoomOfClass(e, size, s);
    } else {
      RoundLarge(size);
    }
  }

  lemma RoomOfClass(e: nat, size: Word, s: Service)
    requires e < CLASSES && size <= ClassSize(e) && (e > 0 ==> ClassSize(e - 1) < size)
    requires (s.Slab? ==> s.c < CLASSES && size + METADATA <= ClassSize(s.c)) && !s.Refused? && (s.Pages? ==> s.n > 0)
    ensures ClassSize(e) <= Room(s)
  {
  }

  /** Sixteen bits. */
  lemma TwoLoads(mem: seq<Byte>, b: nat)
    requires b + METADATA <= |mem|
    ensures Load(mem, b, METADATA) < 0x1_0000
  {
  }

  /** The copy of realloc to the block d that malloc returned leaves the slab headers readable. */
  lemma CopyKeepsHeaders(h: Heap, live: Blocks, reserved: set<nat>, d: nat, src: nat, b: nat, header: nat, size: Word)
    requires HeapInv(h, live, reserved) && d in live && live[d] == size
    requires header < 0x1_0000 && OldSize(b, header) >= 0
    ensures |h.pools| == CLASSES && |h.mem| <= WORD_LIMIT
    ensures var m := CopyForward(h.mem, d + METADATA, src, CopyLength(OldSize(b, header), RoundAllocSize(size)));
            forall c: nat :: c < CLASSES ==>
              |h.pools[c].slabs| == 1 && SlabStored(m, h.pools[c].slabs[0]) && Addresses(h.pools[c].slabs[0].free)
  {
    hide HeapInv, ServiceFor, SlabStored, CopyForward, RoundAllocSize, OldSize, Room, Addresses;
    InvHeaders(h, live, reserved);
    InvRoom(h, live, reserved, d);
    CopyBound(b, header, size);
    HeadersAfterCopy(h, live, reserved, d, src, CopyLength(OldSize(b, header), RoundAllocSize(size)));
  }

  lemma InvRoom(h: Heap, live: Blocks, reserved: set<nat>, d: nat)
    requires HeapInv(h, live, reserved) && d in live
    ensures !ServiceFor(live[d]).Refused? && live[d] + METADATA < WORD_LIMIT
  {
    hide ServiceFor, Threaded, SlabStored, ClassInv, HeaderStored, PageBlock;
    FitsIffNoWrap(live[d]);
  }
}

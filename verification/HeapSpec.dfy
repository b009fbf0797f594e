/** malloc.c as a function: six slab caches and the page allocator behind one interface, on a memory
    of bytes that holds the headers of blocks and slabs and the links of the free lists. */
module HeapSpec {
  import opened Words
  import opened PmmSpec
  import opened PmmRanges
  import opened SlabSpec
  import opened HeapMemory
  import opened HeapSizes
  import opened Layout

  /** malloc passes only SLAB_PANIC; the caches are created without alignment. */
  const CALL_FLAGS: Flags := Flags(true, false, false)
  const CREATE_FLAGS: Flags := Flags(true, true, true)

  datatype Heap = Heap(pools: seq<Pool>, pmm: State, mem: seq<Byte>)

  /** Which scan the page allocator uses: the one of pmm.c, or the repaired one. */
  datatype Scan = Written | Repaired

  /** Stray: no block can be found at the address, or its header names no cache. */
  datatype Result = Pointer(p: nat) | Done | Panicked | Stray

  // ---------------------------------------------------------------- bytes

  /** The metadata of a block: a 16-bit load at its base. */
  function HeaderAt(mem: seq<Byte>, b: nat): (v: nat)
    requires b + METADATA <= |mem|
  {
    Load(mem, b, METADATA)
  }

  /** A slab_bufctl_t: the next pointer and the index, packed. */
  function Bufctl(next: nat, index: nat): (s: seq<Byte>)
    ensures |s| == 10
  {
    Bytes(next, 8) + Bytes(index, 2)
  }

  /** The fields of a slab_t. */
  const COUNT_FIELD: nat := 8
  const ADDR_FIELD: nat := 16
  const HEAD_FIELD: nat := 24
  const TAIL_FIELD: nat := 32

  /** bufctl_count and freelist_head of the slab on a page are stored. */
  function SetSlab(mem: seq<Byte>, page: nat, head: nat, count: nat): (m: seq<Byte>)
    ensures |m| == |mem|
  {
    Write(Write(mem, HeaderOf(page) + HEAD_FIELD, Bytes(head, 8)), HeaderOf(page) + COUNT_FIELD, Bytes(count, 8))
  }

  // ---------------------------------------------------------------- pointers

  function UserPointer(b: nat): (n: nat)
  {
    (b + METADATA + HEAP_START_ADDR) % WORD_LIMIT
  }

  function BaseOf(p: Word): (n: nat)
  {
    (p + 2 * WORD_LIMIT - HEAP_START_ADDR - METADATA) % WORD_LIMIT
  }

  // ---------------------------------------------------------------- the operations

  function PageAlloc(s: State, n: nat, scan: Scan): (r: (State, nat))
  {
    match scan
    case Written => PmmSpec.Alloc(s, n)
    case Repaired => AllocRange(s, n)
  }

  /** malloc takes the first free object of class c: the slab loses its head, the object gets its
      header. */
  function TakeObject(h: Heap, c: nat): (r: Heap)
    requires c < |h.pools| && FindFree(h.pools[c].slabs, 0) < |h.pools[c].slabs|
  {
    var i := FindFree(h.pools[c].slabs, 0);
    var slab := h.pools[c].slabs[i];
    Heap(h.pools[c := Pop(h.pools[c], i)], h.pmm,
         Write(SetSlab(h.mem, slab.page, At(slab.free, 1), |slab.free| - 1), slab.free[0], Bytes(c, METADATA)))
  }

  /** pmm_allocz zeroes the range, also when it is NULL; the header follows. */
  function TakePages(h: Heap, n: nat, pmm: State, b: nat): (r: Heap)
  {
    var cleared := Write(h.mem, b, ZeroBytes(n * PAGE_SIZE));
    Heap(h.pools, pmm, if b == 0 then cleared else Write(cleared, b, Bytes(n, METADATA)))
  }

  function Malloc(h: Heap, size: Word, scan: Scan): (r: (Heap, Result))
    requires |h.pools| == CLASSES && Wf(h.pmm)
  {
    match ServiceFor(size)
    case Refused => (h, Pointer(0))
    case Slab(c) =>
      (match SlabSpec.Alloc(h.pools[c], h.pmm, CALL_FLAGS).2
       case Object(b) => (TakeObject(h, c), Pointer(UserPointer(b)))
       case Null => (h, Pointer(0))
       case _ => (h, Panicked))
    case Pages(n) =>
      var (pmm, b) := PageAlloc(h.pmm, n, scan);
      (TakePages(h, n, pmm, b), if b == 0 then Pointer(0) else Pointer(UserPointer(b)))
  }

  /** The index that slab_cache_free stores, in 64-bit pointer arithmetic. */
  function FreedIndex(page: nat, size: nat, b: nat): (i: nat)
    requires size > 0
  {
    (b + WORD_LIMIT - page % WORD_LIMIT) % WORD_LIMIT / size
  }

  /** slab_cache_free on cache c: the object becomes the head of the first slab with room. */
  function FreeObject(h: Heap, c: nat, b: nat): (r: (Heap, Result))
    requires c < |h.pools| && h.pools[c].size > 0
  {
    var pool := h.pools[c];
    var i := FindRoom(pool.slabs, pool.max, 0);
    if i == |pool.slabs| then (h, Panicked)
    else
      var slab := pool.slabs[i];
      var mem := Write(h.mem, b, Bufctl(At(slab.free, 0), FreedIndex(slab.page, pool.size, b)));
      (Heap(h.pools[c := SlabSpec.Free(pool, b, CALL_FLAGS).0], h.pmm, SetSlab(mem, slab.page, b, |slab.free| + 1)), Done)
  }

  /** free: the low bits of the pointer alone say which allocator the block goes back to. */
  function Free(h: Heap, p: Word): (r: (Heap, Result))
    requires |h.pools| == CLASSES && forall c :: 0 <= c < CLASSES ==> h.pools[c].size > 0
  {
    var b := BaseOf(p);
    if p == 0 then (h, Done)
    else if b + METADATA > |h.mem| then (h, Stray)
    else
      var header := HeaderAt(h.mem, b);
      if b % PAGE_SIZE != 0 then
        if header >= CLASSES then (h, Stray) else FreeObject(h, header, b)
      else if header > h.pmm.used then (h, Stray)
      else (h.(pmm := PmmSpec.Free(h.pmm, b / PAGE_SIZE, header)), Done)
  }

  // ---------------------------------------------------------------- the invariant

  /** The blocks that callers hold: base address to requested size. */
  type Blocks = map<nat, Word>

  ghost function Held(live: Blocks, c: nat): (s: set<nat>)
  {
    set b | b in live && ServiceFor(live[b]) == Slab(c)
  }

  ghost predicate Unaligned(s: set<nat>)
  {
    forall a :: a in s ==> a % PAGE_SIZE != 0
  }

  /** One cache: a single slab on a reserved page, every object either free or held, and none of
      them page-aligned. */
  ghost predicate ClassInv(pool: Pool, pmm: State, held: set<nat>, reserved: set<nat>, c: nat)
    requires c < CLASSES
  {
    && pool.size == ClassSize(c) && pool.max == Capacity(ClassSize(c)) - 1
    && |pool.slabs| == 1 && |pool.slabs[0].free| + |held| == pool.max
    && PoolInv(pool, pmm, held, {pool.slabs[0].page})
    && pool.slabs[0].page / PAGE_SIZE in reserved
    && Unaligned(held) && (forall k :: 0 <= k < |pool.slabs[0].free| ==> pool.slabs[0].free[k] % PAGE_SIZE != 0)
  }

  ghost predicate PageBlock(b: nat, n: nat, pmm: State, reserved: set<nat>)
  {
    && b % PAGE_SIZE == 0 && b > 0 && n > 0 && b / PAGE_SIZE + n <= pmm.pages
    && Range(b / PAGE_SIZE, n) !! reserved
    && Range(b / PAGE_SIZE, n) !! FreePages(pmm)
  }

  ghost predicate PageServed(live: Blocks, b: nat)
  {
    b in live && ServiceFor(live[b]).Pages?
  }

  ghost function Frames(live: Blocks, b: nat): (s: set<nat>)
    requires PageServed(live, b)
  {
    Range(b / PAGE_SIZE, ServiceFor(live[b]).n)
  }

  /** The allocators' books. `reserved` are pages in use by others, the slab pages among them. */
  ghost predicate Books(pools: seq<Pool>, pmm: State, live: Blocks, reserved: set<nat>)
  {
    && |pools| == CLASSES && Wf(pmm)
    && (forall f :: f in reserved ==> f < pmm.pages && pmm.bits[f])
    && (forall c: nat :: c < CLASSES ==> ClassInv(pools[c], pmm, Held(live, c), reserved, c))
    && (forall c: nat, d: nat :: c < d < CLASSES ==> pools[c].slabs[0].page != pools[d].slabs[0].page)
    && (forall b :: b in live ==> !ServiceFor(live[b]).Refused? && live[b] + METADATA <= Room(ServiceFor(live[b])))
    && (forall b :: PageServed(live, b) ==> PageBlock(b, ServiceFor(live[b]).n, pmm, reserved))
    && (forall b, d :: PageServed(live, b) && PageServed(live, d) && b != d ==> Frames(live, b) !! Frames(live, d))
  }

  /** What malloc stores in the header of a block of this size. */
  function HeaderFor(size: Word): (v: nat)
  {
    match ServiceFor(size)
    case Slab(c) => c
    case Pages(n) => n % 0x1_0000
    case Refused => 0
  }

  /** The free list is threaded through the memory: entry k holds the address of entry k+1. */
  ghost predicate Threaded(mem: seq<Byte>, free: seq<nat>)
  {
    forall k: nat :: k < |free| ==> Holds(mem, free[k], Bytes(At(free, k + 1), 8))
  }

  /** The header of a slab that is the only one of its cache: no next slab, the number of free
      objects, the page, and the head of the free list. */
  ghost predicate SlabStored(mem: seq<Byte>, slab: SlabView)
  {
    var a := HeaderOf(slab.page);
    && a + HEADER_SIZE <= |mem|
    && Holds(mem, a, Bytes(0, 8)) && Holds(mem, a + COUNT_FIELD, Bytes(|slab.free|, 8))
    && Holds(mem, a + ADDR_FIELD, Bytes(slab.page, 8)) && Holds(mem, a + HEAD_FIELD, Bytes(At(slab.free, 0), 8))
  }

  ghost predicate HeaderStored(mem: seq<Byte>, b: nat, size: Word)
  {
    b + METADATA <= |mem| && HeaderAt(mem, b) == HeaderFor(size)
  }

  ghost predicate HeapInv(h: Heap, live: Blocks, reserved: set<nat>)
  {
    && Books(h.pools, h.pmm, live, reserved)
    && h.pmm.pages * PAGE_SIZE <= |h.mem| <= WORD_LIMIT
    && (forall c: nat :: c < CLASSES ==> Threaded(h.mem, h.pools[c].slabs[0].free) && SlabStored(h.mem, h.pools[c].slabs[0]))
    && (forall b :: b in live ==> HeaderStored(h.mem, b, live[b]))
  }
}

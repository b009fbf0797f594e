/** malloc.c with the parts of slab.c and string.c that it uses, working in place on a memory of
    bytes: free lists, slab headers and block headers are loaded from it and stored to it. */
module Mallocs {
  import opened Words
  import opened PmmSpec
  import opened SlabSpec
  import opened HeapMemory
  import opened HeapSizes
  import opened HeapSpec
  import opened HeapCells
  import opened HeapSteps
  import opened HeapRealloc
  import opened HeapCreate
  import opened HeapInit
  import opened HeapLoads

  /** The first n bytes of the zero fill at a. */
  lemma WriteZero(mem: seq<Byte>, a: nat)
    ensures Write(mem, a, ZeroBytes(0)) == mem
  {
  }

  lemma WriteOneMore(mem: seq<Byte>, a: nat, n: nat)
    ensures var m := Write(mem, a, ZeroBytes(n));
            Write(mem, a, ZeroBytes(n + 1)) == if a + n < |mem| then m[a + n := 0] else m
  {
  }

  /** The test for a page-aligned object, in a page of class c. */
  lemma OnlyFirstAligned(page: nat, c: nat, j: nat)
    requires c < CLASSES && page % PAGE_SIZE == 0 && j < Capacity(ClassSize(c))
    ensures ObjectAt(page, ClassSize(c), j) % PAGE_SIZE == 0 <==> j < Dropped(Capacity(ClassSize(c)), CREATE_FLAGS)
  {
    ObjectsUnaligned(page, c);
    hide Capacity, ClassSize;
    var size := ClassSize(c);
    if j > 0 {
      assert Objects(page, size, 1, Capacity(size) - 1)[j - 1] == ObjectAt(page, size, j);
    }
  }

  /** A creation that panicked ends malloc_heap_init. */
  lemma {:induction false} StopsHere(pmm: State, mem: seq<Byte>, k: nat, n: nat)
    requires k <= n <= CLASSES && (InitHeap(pmm, mem, k).1 ==> k == n)
    ensures InitHeap(pmm, mem, n) == InitHeap(pmm, mem, k)
  {
    hide HeapInit.CreateCache;
    if k < n { StopsHere(pmm, mem, k, n - 1); }
  }

  lemma NewDescriptor(page: nat, c: nat, max: nat)
    requires c < CLASSES && max == Capacity(ClassSize(c)) - Dropped(Capacity(ClassSize(c)), CREATE_FLAGS)
    ensures var pool := AddSlab(Pool(ClassSize(c), Capacity(ClassSize(c)), []), 0, page, CREATE_FLAGS);
            Describes(Cache(ClassSize(c), max, HeaderOf(page)), pool)
  {
  }

  /** What a good call of malloc leaves, in terms of its result. */
  lemma AfterMalloc(h: Heap, live: Blocks, reserved: set<nat>, size: Word)
    requires HeapInv(h, live, reserved) && GoodMalloc(h, size, Written)
    ensures |h.pools| == CLASSES && Wf(h.pmm)
    ensures var (h', r) := HeapSpec.Malloc(h, size, Written);
            && Wf(h'.pmm)
            && if r.Pointer? && r.p != 0 then r.p < WORD_LIMIT && BaseOf(r.p) !in live && HeapInv(h', live[BaseOf(r.p) := size], reserved)
               else HeapInv(h', live, reserved)
  {
    hide HeapInv, ServiceFor, HeapSpec.Malloc, GoodMalloc, UserPointer, BaseOf, BlocksKept, NewBase;
    InvBooks(h, live, reserved);
    MallocStep(h, live, reserved, size, Written);
    var (h', r) := HeapSpec.Malloc(h, size, Written);
    var b := NewBase(h, size, Written);
    if r.Pointer? && r.p != 0 {
      LiveBase(h', live[b := size], reserved, b);
      InvBooks(h', live[b := size], reserved);
    } else {
      InvBooks(h', live, reserved);
    }
  }

  lemma AfterFree(h: Heap, live: Blocks, reserved: set<nat>, p: Word)
    requires HeapInv(h, live, reserved) && BaseOf(p) in live && p == UserPointer(BaseOf(p))
    ensures WellShaped(h)
    ensures var (h', r) := HeapSpec.Free(h, p); r == Done && Wf(h'.pmm) && HeapInv(h', live - {BaseOf(p)}, reserved)
  {
    hide HeapInv, HeapSpec.Free, UserPointer, BaseOf, BlocksKept;
    InvBooks(h, live, reserved);
    FreeStep(h, live, reserved, BaseOf(p));
    InvBooks(HeapSpec.Free(h, p).0, live - {BaseOf(p)}, reserved);
  }

  /** The copy of a realloc that fits the new block d keeps the heap. */
  lemma AfterCopy(h: Heap, live: Blocks, reserved: set<nat>, b: nat, d: nat, size: Word)
    requires HeapInv(h, live, reserved) && b in live && d in live && live[d] == size && b != d
    requires CopyFits(SeenSize(live, b), size)
    ensures var n := CopyLength(SeenSize(live, b), RoundAllocSize(size));
            var h' := h.(mem := CopyForward(h.mem, d + METADATA, b + METADATA, n));
            Wf(h.pmm) && HeapInv(h', live, reserved)
  {
    hide HeapInv, ServiceFor, Room, BlocksKept, CopyForward, RoundAllocSize, OldSize, HeaderAt, SeenSize;
    InvBooks(h, live, reserved);
    SeenSizeIs(h, live, reserved, b);
    CopyStep(h, live, reserved, b, d, CopyLength(SeenSize(live, b), RoundAllocSize(size)));
  }

  lemma SameSeen(live: Blocks, live': Blocks, b: nat, d: nat, size: Word)
    requires b in live && d !in live && live' == live[d := size]
    ensures b in live' && SeenSize(live', b) == SeenSize(live, b)
  {
  }

  class Kernel {
    /** slab_caches[6]: the descriptors that malloc_heap_init has created. */
    var slabCaches: seq<Cache>
    var pmm: State
    const mem: array<Byte>

    /** The free lists that the memory holds, the blocks handed out, and the pages of others. */
    ghost var pools: seq<Pool>
    ghost var live: Blocks
    ghost var reserved: set<nat>

    ghost function St(): (r: Heap)
      reads this, mem
    {
      Heap(pools, pmm, mem[..])
    }

    ghost predicate Ready()
      reads this
    {
      && |slabCaches| == |pools| == CLASSES
      && (forall c :: 0 <= c < CLASSES ==> Describes(slabCaches[c], pools[c]))
    }

    /** The descriptors and the slab headers in memory belong to the pools. */
    ghost predicate Headers()
      reads this, mem
    {
      && Ready() && mem.Length <= WORD_LIMIT
      && (forall c: nat :: c < CLASSES ==> SlabStored(mem[..], pools[c].slabs[0]) && Addresses(pools[c].slabs[0].free))
    }

    ghost predicate Valid()
      reads this, mem
    {
      Ready() && Wf(pmm) && HeapInv(St(), live, reserved)
    }

    constructor (pmm: State, mem: array<Byte>)
      ensures this.mem == mem && this.pmm == pmm && slabCaches == [] && pools == []
    {
      this.mem := mem;
      this.pmm := pmm;
      slabCaches := [];
      pools := [];
    }

    // ---------------------------------------------------------------- string.c

    /** memset(pointer, 0, size). */
    method MemsetZero(a: nat, size: nat)
      modifies mem
      ensures mem[..] == Write(old(mem[..]), a, ZeroBytes(size))
    {
      ghost var m := mem[..];
      WriteZero(m, a);
      var i := 0;
      while i < size
        invariant 0 <= i <= size
        invariant mem[..] == Write(m, a, ZeroBytes(i))
      {
        WriteOneMore(m, a, i);
        if a + i < mem.Length { mem[a + i] := 0; }
        i := i + 1;
      }
    }

    method Memcpy(dst: nat, src: nat, n: nat)
      modifies mem
      ensures mem[..] == CopyForward(old(mem[..]), dst, src, n)
    {
      var i := 0;
      while i < n
        invariant 0 <= i <= n
        invariant mem[..] == CopyForward(old(mem[..]), dst, src, i)
      {
        if dst + i < mem.Length && src + i < mem.Length { mem[dst + i] := mem[src + i]; }
        i := i + 1;
      }
    }

    /** Stores the little-endian bytes s at a. */
    method StoreBytes(a: nat, s: seq<Byte>)
      modifies mem
      ensures mem[..] == Write(old(mem[..]), a, s)
    {
      var i := 0;
      while i < |s|
        invariant 0 <= i <= |s|
        invariant forall k :: 0 <= k < mem.Length ==> mem[k] == if a <= k < a + i then s[k - a] else old(mem[k])
      {
        if a + i < mem.Length { mem[a + i] := s[i]; }
        i := i + 1;
      }
    }

    // ---------------------------------------------------------------- malloc_heap_init

    /** pmm_allocz of one page. */
    method AllocZeroed() returns (page: nat)
      modifies this`pmm, mem
      ensures (pmm, page) == PmmSpec.Alloc(old(pmm), 1)
      ensures mem[..] == Write(old(mem[..]), page, ZeroBytes(PAGE_SIZE))
    {
      var (s, b) := PmmSpec.Alloc(pmm, 1);
      pmm, page := s, b;
      MemsetZero(page, PAGE_SIZE);
    }

    /** slab_init_bufctls for object j; count and tail are bufctl_count and the freelist cursor, and d
        objects are page-aligned. */
    method InitBufctl(page: nat, size: nat, max: nat, ghost d: nat, j: nat, count: nat, tail: nat) returns (count': nat, tail': nat)
      requires page > 0 && j < max && (ObjectAt(page, size, j) % PAGE_SIZE == 0 <==> j < d)
      requires count == max - (if j < d then j else d) && tail == if j <= d then 0 else ObjectAt(page, size, j - 1)
      modifies mem
      ensures mem[..] == ObjectBytes(old(mem[..]), page, size, max, d, j)
      ensures count' == max - (if j + 1 < d then j + 1 else d) && tail' == if j + 1 <= d then 0 else ObjectAt(page, size, j)
    {
      hide Write, Bytes, ObjectAt;
      var a, header := ObjectAt(page, size, j), HeaderOf(page);
      count', tail' := count, tail;
      StoreBytes(a + 8, Bytes(j, 2));
      if a % PAGE_SIZE == 0 {
        count' := count - 1;
        StoreBytes(header + COUNT_FIELD, Bytes(count', 8));
        return;
      }
      if tail == 0 {
        StoreBytes(header + HEAD_FIELD, Bytes(a, 8));
      } else {
        StoreBytes(tail, Bytes(a, 8));
      }
      StoreBytes(header + TAIL_FIELD, Bytes(a, 8));
      tail' := a;
    }

    /** slab_create_slab, and the loop of slab_cache_grow over the objects of the zeroed page; m is the
        memory before the page was zeroed. Returns bufctl_count_max. */
    method InitSlab(page: nat, c: nat, ghost m: seq<Byte>) returns (count: nat)
      requires c < CLASSES && page % PAGE_SIZE == 0 && page > 0
      requires mem[..] == Write(m, page, ZeroBytes(PAGE_SIZE))
      modifies mem
      ensures var max := Capacity(ClassSize(c));
              && mem[..] == CreatedBytes(m, page, ClassSize(c), max, Dropped(max, CREATE_FLAGS))
              && count == max - Dropped(max, CREATE_FLAGS)
    {
      hide Capacity, ClassSize, Write, Bytes, ObjectBytes, HeaderBytes;
      var max := Capacity(ClassSize(c));
      ghost var d := Dropped(max, CREATE_FLAGS);
      StoreBytes(page, Bytes(0, 8));
      StoreBytes(HeaderOf(page), HeaderBytes(page, max));
      ghost var start := mem[..];
      var j, tail := 0, 0;
      count := max;
      while j < max
        invariant 0 <= j <= max
        invariant count == max - (if j < d then j else d)
        invariant tail == if j <= d then 0 else ObjectAt(page, ClassSize(c), j - 1)
        invariant mem[..] == ObjectsBytes(start, page, ClassSize(c), max, d, j)
      {
        OnlyFirstAligned(page, c, j);
        count, tail := InitBufctl(page, ClassSize(c), max, d, j, count, tail);
        j := j + 1;
      }
    }

    /** slab_cache_create for the next class; false when it panics. */
    method CreateCache() returns (ok: bool)
      requires |slabCaches| == |pools| < CLASSES && Wf(pmm)
      requires forall c :: 0 <= c < |pools| ==> Describes(slabCaches[c], pools[c])
      modifies this`slabCaches, this`pmm, this`pools, mem
      ensures var (pool, pmm', mem', created) := HeapInit.CreateCache(old(pmm), old(mem[..]), |old(pools)|);
              pools == old(pools) + [pool] && pmm == pmm' && mem[..] == mem' && ok == created
      ensures Wf(pmm) && (!ok ==> slabCaches == old(slabCaches))
      ensures ok ==> |slabCaches| == |pools| && forall c :: 0 <= c < |pools| ==> Describes(slabCaches[c], pools[c])
    {
      hide Wf, FirstHit, Mark, Capacity, ClassSize, CreatedBytes, Write, Objects, Describes;
      var c := |slabCaches|;
      AllocOnePage(pmm);
      ghost var pool := HeapInit.CreateCache(pmm, mem[..], c).0;
      pools := pools + [pool];
      var ptr := AllocZeroed();
      if ptr == 0 {
        return false;
      }
      AllocOnePage(pmm);
      ghost var m := mem[..];
      var page := AllocZeroed();
      if page == 0 {
        return false;
      }
      var max := InitSlab(page, c, m);
      slabCaches := slabCaches + [Cache(ClassSize(c), max, HeaderOf(page))];
      NewDescriptor(page, c, max);
      ok := true;
    }

    method Init() returns (ok: bool)
      requires slabCaches == [] && pools == [] && Wf(pmm)
      modifies this, mem
      ensures (St(), ok) == InitHeap(old(pmm), old(mem[..]), CLASSES)
      ensures ok && old(pmm).pages * PAGE_SIZE <= mem.Length <= WORD_LIMIT ==> Valid() && live == map[]
    {
      hide Describes, HeapInit.CreateCache;
      ok := true;
      ghost var pmm0, mem0 := pmm, mem[..];
      while |slabCaches| < CLASSES && ok
        invariant |pools| <= CLASSES && (St(), ok) == InitHeap(pmm0, mem0, |pools|)
        invariant Wf(pmm)
        invariant ok ==> |slabCaches| == |pools| && forall c :: 0 <= c < |pools| ==> Describes(slabCaches[c], pools[c])
        decreases CLASSES - |slabCaches|, ok
      {
        ok := CreateCache();
      }
      StopsHere(pmm0, mem0, |pools|, CLASSES);
      live, reserved := map[], Used(pmm);
      if ok && pmm0.pages * PAGE_SIZE <= mem.Length <= WORD_LIMIT { InitInv(pmm0, mem0); }
    }

    // ---------------------------------------------------------------- slab_cache_alloc, slab_cache_free

    /** The walk along the slabs of a cache up to one with a free object, or up to one with room; 0 at
        the end of the list. Not ok: the list leaves the memory, or does not end. */
    method FindSlab(c: nat, forAlloc: bool) returns (a: nat, ok: bool)
      requires c < |slabCaches|
      ensures ok && a != 0 ==> a + HEADER_SIZE <= mem.Length
      ensures c < CLASSES && Headers() ==>
                var slab := pools[c].slabs[0];
                ok && a == if (if forAlloc then slab.free != [] else |slab.free| < pools[c].max) then HeaderOf(slab.page) else 0
    {
      hide Wf, Load, SlabStored;
      a, ok := slabCaches[c].slabsHead, true;
      var steps := 0;
      ghost var known := c < CLASSES && Headers();
      if known { SlabLoadsAre(mem[..], pools[c].slabs[0]); }
      while a != 0
        invariant known ==> (steps == 0 && a == HeaderOf(pools[c].slabs[0].page))
                            || (a == 0 && !(if forAlloc then pools[c].slabs[0].free != [] else |pools[c].slabs[0].free| < pools[c].max))
        invariant steps <= mem.Length
        decreases mem.Length - steps
      {
        if a + HEADER_SIZE > mem.Length || steps == mem.Length {
          return 0, false;
        }
        var head, count := Load(mem[..], a + HEAD_FIELD, 8), Load(mem[..], a + COUNT_FIELD, 8);
        if if forAlloc then head != 0 else count < slabCaches[c].max {
          return a, true;
        }
        a, steps := Load(mem[..], a, 8), steps + 1;
      }
    }

    /** slab_cache_alloc on cache c, and the store of the block's header. */
    method TakeObject(c: nat) returns (r: Result)
      requires Ready() && c < CLASSES
      modifies this`pools, mem
      ensures Ready() && (r.Pointer? ==> r.p < WORD_LIMIT)
      ensures old(Valid()) ==>
                var free := old(pools)[c].slabs[0].free;
                if free == [] then (St(), r) == (old(St()), Panicked)
                else FindFree(old(pools)[c].slabs, 0) == 0 && (St(), r) == (HeapSpec.TakeObject(old(St()), c), Pointer(UserPointer(free[0])))
    {
      hide Wf, Load, SlabStored, Bytes, Write, HeapInv;
      ghost var known := Valid();
      if known {
        ListInMemory(St(), live, reserved, c);
        ValidHeaders();
      }
      var a, ok := FindSlab(c, true);
      if !ok { return Stray; }
      if a == 0 { return Panicked; }
      var b := Load(mem[..], a + HEAD_FIELD, 8);
      if b + 8 > mem.Length { return Stray; }
      var next, count := Load(mem[..], b, 8), Load(mem[..], a + COUNT_FIELD, 8);
      StoreBytes(a + HEAD_FIELD, Bytes(next, 8));
      StoreBytes(a + COUNT_FIELD, Bytes(if count == 0 then WORD_LIMIT - 1 else count - 1, 8));
      StoreBytes(b, Bytes(c, METADATA));
      if pools[c].slabs[0].free != [] { pools := pools[c := Pop(pools[c], 0)]; }
      return Pointer(UserPointer(b));
    }

    /** slab_cache_free on cache c. */
    method FreeObject(c: nat, b: nat) returns (r: Result)
      requires Ready() && c < CLASSES
      modifies this`pools, mem
      ensures Ready()
      ensures old(Headers()) ==> (St(), r) == HeapSpec.FreeObject(old(St()), c, b)
    {
      hide Wf, Load, SlabStored, Bytes, Write, Bufctl;
      ghost var known := Headers();
      if known { SlabLoadsAre(mem[..], pools[c].slabs[0]); }
      var a, ok := FindSlab(c, false);
      if !ok { return Stray; }
      if a == 0 { return Panicked; }
      var head, count := Load(mem[..], a + HEAD_FIELD, 8), Load(mem[..], a + COUNT_FIELD, 8);
      var addr := Load(mem[..], a + ADDR_FIELD, 8);
      StoreBytes(b, Bufctl(head, FreedIndex(addr, slabCaches[c].size, b)));
      StoreBytes(a + HEAD_FIELD, Bytes(b, 8));
      StoreBytes(a + COUNT_FIELD, Bytes(count + 1, 8));
      if |pools[c].slabs[0].free| < pools[c].max { pools := pools[c := Push(pools[c], 0, b)]; }
      return Done;
    }

    // ---------------------------------------------------------------- malloc, free, realloc

    /** A heap call leaves a heap: what the ghost fields say of the memory. */
    lemma ValidHeaders()
      requires Valid()
      ensures Headers()
    {
      hide Wf, HeapInv, Describes;
      InvHeaders(St(), live, reserved);
    }

    method Malloc(size: Word) returns (r: Result)
      requires Ready()
      modifies this`pools, this`pmm, this`live, mem
      ensures Ready() && (r.Pointer? ==> r.p < WORD_LIMIT)
      ensures old(Valid()) ==> (St(), r) == HeapSpec.Malloc(old(St()), size, Written)
      ensures old(Valid() && GoodMalloc(St(), size, Written)) ==>
                Valid() && (r.Pointer? && r.p != 0 ==> BaseOf(r.p) !in old(live))
      ensures live == if r.Pointer? && r.p != 0 then old(live)[BaseOf(r.p) := size] else old(live)
    {
      hide Wf, Describes, HeapInv, HeapSpec.Malloc, GoodMalloc;
      ghost var h, good := St(), Valid() && GoodMalloc(St(), size, Written);
      if good { AfterMalloc(h, live, reserved, size); }
      r := Serve(size);
      if r.Pointer? && r.p != 0 { live := live[BaseOf(r.p) := size]; }
    }

    /** malloc without the ghost fields. */
    method Serve(size: Word) returns (r: Result)
      requires Ready()
      modifies this`pools, this`pmm, mem
      ensures Ready() && (r.Pointer? ==> r.p < WORD_LIMIT)
      ensures old(Valid()) ==> (St(), r) == HeapSpec.Malloc(old(St()), size, Written)
    {
      hide Wf, HeapInv, HeapSpec.TakeObject, TakePages, PmmSpec.Alloc;
      ghost var h, known := St(), Valid();
      var rounded := RoundAllocSize((size + METADATA) % WORD_LIMIT);
      if rounded <= LARGEST {
        var index := SizeToIndex(rounded);
        if index == -1 {
          return Pointer(0);
        }
        if known {
          MallocIs(h, size, Written, index);
        }
        r := TakeObject(index);
      } else {
        r := MallocPages(rounded / PAGE);
      }
    }

    /** malloc from the page allocator. */
    method MallocPages(count: nat) returns (r: Result)
      requires Ready()
      modifies this`pmm, mem
      ensures Ready() && (r.Pointer? ==> r.p < WORD_LIMIT)
      ensures var (s, b) := PmmSpec.Alloc(old(pmm), count);
              St() == TakePages(old(St()), count, s, b) && r == if b == 0 then Pointer(0) else Pointer(UserPointer(b))
    {
      hide Wf, Bytes, Write, FirstHit, Mark;
      var (s, b) := PmmSpec.Alloc(pmm, count);
      pmm := s;
      MemsetZero(b, count * PAGE_SIZE);
      if b == 0 {
        return Pointer(0);
      }
      StoreBytes(b, Bytes(count, METADATA));
      return Pointer(UserPointer(b));
    }

    method Free(p: Word) returns (r: Result)
      requires Ready()
      modifies this`pools, this`pmm, this`live, mem
      ensures Ready()
      ensures old(Headers()) ==> (St(), r) == HeapSpec.Free(old(St()), p)
      ensures live == if p == 0 then old(live) else old(live) - {BaseOf(p)}
      ensures old(Valid() && IsLive(p)) ==> Valid() && r == Done
    {
      hide Wf, HeapInv, Describes, HeapSpec.Free, UserPointer, BaseOf, SlabStored;
      if Valid() && IsLive(p) {
        ValidHeaders();
        AfterFree(St(), live, reserved, p);
      }
      r := Release(p);
      if p != 0 { live := live - {BaseOf(p)}; }
    }

    /** A pointer that malloc returned and nobody has freed. */
    ghost predicate IsLive(p: Word)
      reads this
    {
      p != 0 && BaseOf(p) in live && p == UserPointer(BaseOf(p))
    }

    /** free without the ghost fields. */
    method Release(p: Word) returns (r: Result)
      requires Ready()
      modifies this`pools, this`pmm, mem
      ensures Ready()
      ensures old(Headers()) ==> (St(), r) == HeapSpec.Free(old(St()), p)
    {
      hide Wf, HeapSpec.FreeObject, BaseOf, Load, SlabStored;
      if p == 0 {
        return Done;
      }
      var b := BaseOf(p);
      if b + METADATA > mem.Length {
        return Stray;
      }
      var header := Load(mem[..], b, METADATA);
      if b % PAGE_SIZE != 0 {
        if header >= CLASSES {
          return Stray;
        }
        r := FreeObject(header, b);
      } else {
        if header > pmm.used {
          return Stray;
        }
        pmm := PmmSpec.Free(pmm, b / PAGE_SIZE, header);
        return Done;
      }
    }

    /** The old size that realloc reads at the block's base; -1 when the header names no cache. */
    method ReadSize(b: nat) returns (was: int)
      requires b + METADATA <= mem.Length
      ensures was == OldSize(b, HeaderAt(mem[..], b)) >= -1 && HeaderAt(mem[..], b) < 0x1_0000
    {
      var header := Load(mem[..], b, METADATA);
      TwoLoads(mem[..], b);
      was := OldSize(b, header);
    }

    /** A move: allocate, copy, free. */
    method Move(p: Word, size: Word, was: nat) returns (r: Result)
      requires Ready() && p != 0
      requires exists b, header: nat :: header < 0x1_0000 && was == OldSize(b, header)
      modifies this`pools, this`pmm, this`live, mem
      ensures Ready()
      ensures old(Valid() && GoodMalloc(St(), size, Written)) ==>
                WellShaped(old(St()))
                && var (h1, r1) := HeapSpec.Malloc(old(St()), size, Written);
                if !(r1.Pointer? && 0 != r1.p < WORD_LIMIT) then (St(), r) == (h1, r1)
                else WellShaped(h1) && (St(), r) == CopyAndFree(h1, p, r1.p, CopyLength(was, RoundAllocSize(size)))
      ensures old(Valid() && GoodMalloc(St(), size, Written) && IsLive(p) && was == SeenSize(live, BaseOf(p)) && CopyFits(was, size)) ==> Valid()
    {
      hide SeenSize, CopyFits, HeapSpec.Malloc, HeapSpec.Free, CopyForward, BaseOf, Wf, HeapInv, GoodMalloc, OldSize, RoundAllocSize, SlabStored;
      ghost var good := Valid() && GoodMalloc(St(), size, Written);
      r := Malloc(size);
      if !(r.Pointer? && 0 != r.p < WORD_LIMIT) {
        return;
      }
      var n := CopyLength(was, RoundAllocSize(size));
      ghost var h1, b0 := St(), BaseOf(p);
      if good && old(IsLive(p) && was == SeenSize(live, b0) && CopyFits(was, size)) {
        SameSeen(old(live), live, b0, BaseOf(r.p), size);
        AfterCopy(h1, live, reserved, b0, BaseOf(r.p), size);
      }
      if good {
        ghost var b, header: nat :| header < 0x1_0000 && was == OldSize(b, header);
        CopyKeepsHeaders(h1, live, reserved, BaseOf(r.p), BaseOf(p) + METADATA, b, header, size);
      }
      Memcpy(BaseOf(r.p) + METADATA, BaseOf(p) + METADATA, n);
      var e := Free(p);
      return if e == Done then r else e;
    }

    /** realloc. A live block stays as it is, or moves with a copy that fits, and the heap stays well. */
    method Realloc(p: Word, size: Word) returns (r: Result)
      requires Ready()
      modifies this`pools, this`pmm, this`live, mem
      ensures Ready()
      ensures old(Valid() && (p == 0 || GoodMalloc(St(), size, Written))) ==>
                WellShaped(old(St())) && (St(), r) == HeapRealloc.Realloc(old(St()), p, size, Written)
      ensures old(Valid() && GoodMalloc(St(), size, Written) && KeepsHeap(p, size)) ==> Valid()
    {
      hide HeapSpec.Malloc, HeapSpec.Free, CopyForward, BaseOf, Wf, HeapInv, GoodMalloc, OldSize, RoundAllocSize, SlabStored, SeenSize, HeaderAt, CopyFits, CopyAndFree;
      if p == 0 {
        r := Malloc(size);
        return;
      }
      if old(Valid()) { ValidHeaders(); }
      if size == 0 {
        r := Free(p);
        return if r == Done then Pointer(0) else r;
      }
      var b := BaseOf(p);
      if b + METADATA > mem.Length {
        return Stray;
      }
      var was := ReadSize(b);
      if was == -1 {
        return Pointer(0);
      }
      if Valid() && IsLive(p) { SeenSizeIs(St(), live, reserved, b); }
      var rounded := RoundAllocSize(size);
      if was == rounded {
        return Pointer(p);
      }
      r := Move(p, size, was);
    }

    /** No block, a block to be freed, or a live block whose copy fits the new one. */
    ghost predicate KeepsHeap(p: Word, size: Word)
      reads this
    {
      p == 0 || (IsLive(p) && (size == 0 || CopyFits(SeenSize(live, BaseOf(p)), size)))
    }
  }
}

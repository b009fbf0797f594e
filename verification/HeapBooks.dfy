/** What every step of the heap keeps in the books of the six caches and the page allocator. */
module HeapBooks {
  import opened Words
  import opened PmmSpec
  import opened PmmRanges
  import opened SlabSpec
  import opened HeapSizes
  import opened HeapSpec

  /** The page of class c's only slab. */
  ghost function ClassPage(pools: seq<Pool>, c: nat): (n: nat)
    requires c < |pools| && |pools[c].slabs| == 1
  {
    pools[c].slabs[0].page
  }

  // ---------------------------------------------------------------- where blocks lie

  /** a is an object of class c: on its page, below the slab header, not page-aligned. */
  ghost predicate OnClassPage(pools: seq<Pool>, c: nat, a: nat)
    requires c < CLASSES && c < |pools| && |pools[c].slabs| == 1
  {
    && ObjectOf(a, ClassPage(pools, c), ClassSize(c))
    && a % PAGE_SIZE != 0
    && ClassPage(pools, c) < a && a + ClassSize(c) <= ClassPage(pools, c) + PAGE_SIZE - HEADER_SIZE
    && a / PAGE_SIZE == ClassPage(pools, c) / PAGE_SIZE
  }

  lemma ObjectPlace(pools: seq<Pool>, pmm: State, held: set<nat>, reserved: set<nat>, c: nat, a: nat)
    requires c < CLASSES && c < |pools| && ClassInv(pools[c], pmm, held, reserved, c)
    requires a in held || a in pools[c].slabs[0].free
    ensures OnClassPage(pools, c, a)
  {
    hide Capacity, ClassSize;
    var pool := pools[c];
    var page := pool.slabs[0].page;
    if a !in held {
      var k: nat :| k < |pool.slabs[0].free| && pool.slabs[0].free[k] == a;
      assert Entry(pool.slabs, 0, k) == a;
    }
    assert ObjectOfSome(a, {page}, ClassSize(c));
    assert ObjectOf(a, page, ClassSize(c));
    assert TakenPage(pmm, page);
    ObjectInPage(a, page, ClassSize(c));
    hide ObjectOf;
    SamePage(a, page);
  }

  lemma SamePage(a: nat, page: nat)
    requires page % PAGE_SIZE == 0 && page <= a < page + PAGE_SIZE
    ensures a / PAGE_SIZE == page / PAGE_SIZE
  {
  }

  /** Where a live block lies. */
  lemma LivePlace(pools: seq<Pool>, pmm: State, live: Blocks, reserved: set<nat>, b: nat)
    requires Books(pools, pmm, live, reserved) && b in live
    ensures var s := ServiceFor(live[b]);
            && (s.Slab? ==> OnClassPage(pools, s.c, b) && b in Held(live, s.c))
            && (s.Pages? ==> PageServed(live, b) && PageBlock(b, s.n, pmm, reserved))
            && !s.Refused?
  {
    hide ServiceFor, OnClassPage, ClassInv;
    var s := ServiceFor(live[b]);
    if s.Slab? {
      assert b in Held(live, s.c);
      assert ClassInv(pools[s.c], pmm, Held(live, s.c), reserved, s.c);
      SingleSlab(pools[s.c], pmm, Held(live, s.c), reserved, s.c);
      ObjectPlace(pools, pmm, Held(live, s.c), reserved, s.c, b);
    }
  }

  lemma SingleSlab(pool: Pool, pmm: State, held: set<nat>, reserved: set<nat>, c: nat)
    requires c < CLASSES && ClassInv(pool, pmm, held, reserved, c)
    ensures |pool.slabs| == 1 && pool.size == ClassSize(c)
    ensures pool.slabs[0].page % PAGE_SIZE == 0 && pool.slabs[0].page / PAGE_SIZE in reserved
  {
    assert TakenPage(pmm, pool.slabs[0].page);
  }

  lemma AllSingle(pools: seq<Pool>, pmm: State, live: Blocks, reserved: set<nat>)
    requires Books(pools, pmm, live, reserved)
    ensures |pools| == CLASSES
    ensures forall c: nat :: c < CLASSES ==> |pools[c].slabs| == 1 && pools[c].size == ClassSize(c)
    ensures forall c: nat :: c < CLASSES ==> ClassPage(pools, c) % PAGE_SIZE == 0 && ClassPage(pools, c) / PAGE_SIZE in reserved
  {
    hide ServiceFor, ClassInv;
    forall c: nat | c < CLASSES
      ensures |pools[c].slabs| == 1 && pools[c].size == ClassSize(c)
      ensures ClassPage(pools, c) % PAGE_SIZE == 0 && ClassPage(pools, c) / PAGE_SIZE in reserved
    {
      SingleSlab(pools[c], pmm, Held(live, c), reserved, c);
    }
  }

  // ---------------------------------------------------------------- fresh blocks

  /** A free object is nobody's block. */
  lemma FreeObjectIsFresh(pools: seq<Pool>, pmm: State, live: Blocks, reserved: set<nat>, c: nat, k: nat)
    requires Books(pools, pmm, live, reserved) && c < CLASSES
    requires |pools[c].slabs| == 1 && k < |pools[c].slabs[0].free|
    ensures pools[c].slabs[0].free[k] !in live && OnClassPage(pools, c, pools[c].slabs[0].free[k])
  {
    hide ServiceFor;
    var a := pools[c].slabs[0].free[k];
    ObjectPlace(pools, pmm, Held(live, c), reserved, c, a);
    assert a == Entry(pools[c].slabs, 0, k);
    if a in live {
      LivePlace(pools, pmm, live, reserved, a);
      var s := ServiceFor(live[a]);
      if s.Slab? && s.c == c {
        assert false;
      } else if s.Slab? {
        DifferentPages(pools, pmm, live, reserved, c, s.c);
        assert false;
      }
    }
  }

  lemma FreeListDistinct(pools: seq<Pool>, pmm: State, live: Blocks, reserved: set<nat>, c: nat)
    requires Books(pools, pmm, live, reserved) && c < CLASSES
    ensures |pools[c].slabs| == 1
    ensures forall k, l :: 0 <= k < l < |pools[c].slabs[0].free| ==> pools[c].slabs[0].free[k] != pools[c].slabs[0].free[l]
  {
    hide ServiceFor, Capacity, ClassSize, ObjectOfSome;
    assert ClassInv(pools[c], pmm, Held(live, c), reserved, c);
    forall k, l | 0 <= k < l < |pools[c].slabs[0].free| ensures pools[c].slabs[0].free[k] != pools[c].slabs[0].free[l] {
      assert Entry(pools[c].slabs, 0, k) == pools[c].slabs[0].free[k] && Entry(pools[c].slabs, 0, l) == pools[c].slabs[0].free[l];
    }
  }

  lemma ListsDisjoint(pools: seq<Pool>, pmm: State, live: Blocks, reserved: set<nat>, c: nat, k: nat, d: nat)
    requires Books(pools, pmm, live, reserved) && c < CLASSES && d < CLASSES && c != d
    requires |pools[c].slabs| == 1 && k < |pools[c].slabs[0].free|
    ensures |pools[d].slabs| == 1 && pools[c].slabs[0].free[k] !in pools[d].slabs[0].free
  {
    hide ServiceFor, ClassInv, OnClassPage;
    var a := pools[c].slabs[0].free[k];
    DifferentPages(pools, pmm, live, reserved, c, d);
    ObjectPlace(pools, pmm, Held(live, c), reserved, c, a);
    if a in pools[d].slabs[0].free {
      ObjectPlace(pools, pmm, Held(live, d), reserved, d, a);
      OnePageOnly(pools, c, d, a);
      assert false;
    }
  }

  lemma OnePageOnly(pools: seq<Pool>, c: nat, d: nat, a: nat)
    requires c < CLASSES && d < CLASSES && CLASSES <= |pools| && |pools[c].slabs| == 1 && |pools[d].slabs| == 1
    requires OnClassPage(pools, c, a) && OnClassPage(pools, d, a)
    ensures ClassPage(pools, c) / PAGE_SIZE == ClassPage(pools, d) / PAGE_SIZE
  {
  }

  lemma DifferentPages(pools: seq<Pool>, pmm: State, live: Blocks, reserved: set<nat>, c: nat, d: nat)
    requires Books(pools, pmm, live, reserved) && c < CLASSES && d < CLASSES && c != d
    ensures |pools[c].slabs| == 1 && |pools[d].slabs| == 1
    ensures ClassPage(pools, c) / PAGE_SIZE != ClassPage(pools, d) / PAGE_SIZE
  {
    hide ServiceFor;
    AllSingle(pools, pmm, live, reserved);
    hide ClassInv;
    var p, q := ClassPage(pools, c), ClassPage(pools, d);
    assert p != q by { if c > d { assert ClassPage(pools, d) != ClassPage(pools, c); } }
    assert p % PAGE_SIZE == 0 && q % PAGE_SIZE == 0;
  }

  /** Free pages hold nobody's block. */
  lemma FreePageIsFresh(pools: seq<Pool>, pmm: State, live: Blocks, reserved: set<nat>, b: nat)
    requires Books(pools, pmm, live, reserved) && b % PAGE_SIZE == 0 && b / PAGE_SIZE in FreePages(pmm)
    ensures b !in live
  {
    hide ServiceFor, Books;
    if b in live {
      LivePlace(pools, pmm, live, reserved, b);
      assert false;
    }
  }

  // ---------------------------------------------------------------- held sets

  lemma HeldAdded(live: Blocks, b: nat, size: Word, c: nat)
    requires b !in live
    ensures Held(live[b := size], c) == if ServiceFor(size) == Slab(c) then Held(live, c) + {b} else Held(live, c)
  {
    hide ServiceFor;
  }

  lemma HeldRemoved(live: Blocks, b: nat, c: nat)
    requires b in live
    ensures Held(live - {b}, c) == if ServiceFor(live[b]) == Slab(c) then Held(live, c) - {b} else Held(live, c)
  {
    hide ServiceFor;
  }

  /** The page blocks after a change of one block. */
  ghost predicate PageBooks(pmm: State, live: Blocks, reserved: set<nat>)
  {
    && (forall b :: b in live ==> !ServiceFor(live[b]).Refused? && live[b] + METADATA <= Room(ServiceFor(live[b])))
    && (forall b :: PageServed(live, b) ==> PageBlock(b, ServiceFor(live[b]).n, pmm, reserved))
    && (forall b, d :: PageServed(live, b) && PageServed(live, d) && b != d ==> Frames(live, b) !! Frames(live, d))
  }

  ghost predicate ClassBooks(pools: seq<Pool>, pmm: State, live: Blocks, reserved: set<nat>)
  {
    && |pools| == CLASSES
    && (forall c: nat :: c < CLASSES ==> ClassInv(pools[c], pmm, Held(live, c), reserved, c))
    && (forall c: nat, d: nat :: c < d < CLASSES ==> pools[c].slabs[0].page != pools[d].slabs[0].page)
  }

  lemma BooksAre(pools: seq<Pool>, pmm: State, live: Blocks, reserved: set<nat>)
    requires Wf(pmm)
    ensures Books(pools, pmm, live, reserved) <==>
            PageBooks(pmm, live, reserved) && ClassBooks(pools, pmm, live, reserved)
            && (forall f :: f in reserved ==> f < pmm.pages && pmm.bits[f])
  {
    hide ServiceFor, ClassInv, PageBlock, Room;
  }

  lemma BooksShape(pools: seq<Pool>, pmm: State, live: Blocks, reserved: set<nat>)
    requires Books(pools, pmm, live, reserved)
    ensures |pools| == CLASSES && Wf(pmm)
  {
    hide ServiceFor, ClassInv, PageBlock, Room, Wf;
  }

  // ---------------------------------------------------------------- slab objects

  lemma PopClass(pool: Pool, pmm: State, held: set<nat>, reserved: set<nat>, c: nat)
    requires c < CLASSES && ClassInv(pool, pmm, held, reserved, c) && pool.slabs[0].free != []
    ensures ClassInv(Pop(pool, 0), pmm, held + {pool.slabs[0].free[0]}, reserved, c)
    ensures pool.slabs[0].free[0] !in held
  {
    hide Capacity, ClassSize, ObjectOfSome;
    PopInv(pool, pmm, held, {pool.slabs[0].page}, 0);
    hide PoolInv;
  }

  lemma PushClass(pool: Pool, pmm: State, held: set<nat>, reserved: set<nat>, c: nat, b: nat)
    requires c < CLASSES && ClassInv(pool, pmm, held, reserved, c) && b in held
    ensures |pool.slabs[0].free| < pool.max
    ensures ClassInv(Push(pool, 0, b), pmm, held - {b}, reserved, c)
  {
    hide Capacity, ClassSize, ObjectOfSome;
    PushInv(pool, pmm, held, {pool.slabs[0].page}, 0, b);
    hide PoolInv;
    assert |held| == |held - {b}| + 1;
  }

  /** malloc takes the first free object of a class. */
  lemma TakeObjectBooks(pools: seq<Pool>, pmm: State, live: Blocks, reserved: set<nat>, c: nat, size: Word)
    requires Books(pools, pmm, live, reserved) && c < CLASSES && ServiceFor(size) == Slab(c)
    requires size + METADATA <= ClassSize(c)
    requires |pools[c].slabs| == 1 && pools[c].slabs[0].free != []
    ensures var b := pools[c].slabs[0].free[0];
            b !in live && Books(pools[c := Pop(pools[c], 0)], pmm, live[b := size], reserved)
  {
    hide ServiceFor, Books, ClassInv, PageBlock;
    BooksShape(pools, pmm, live, reserved);
    BooksAre(pools, pmm, live, reserved);
    FreeObjectIsFresh(pools, pmm, live, reserved, c, 0);
    var b := pools[c].slabs[0].free[0];
    var pools', live' := pools[c := Pop(pools[c], 0)], live[b := size];
    BooksAre(pools', pmm, live', reserved);
    PopClass(pools[c], pmm, Held(live, c), reserved, c);
    AllSingle(pools, pmm, live, reserved);
    forall d: nat | d < CLASSES ensures ClassInv(pools'[d], pmm, Held(live', d), reserved, d) {
      HeldAdded(live, b, size, d);
    }
    SlabBlockKeepsPages(pmm, live, reserved, b, size);
    PagesOfClasses(pools, pools');
  }

  lemma SlabBlockKeepsPages(pmm: State, live: Blocks, reserved: set<nat>, b: nat, size: Word)
    requires PageBooks(pmm, live, reserved) && b !in live
    requires ServiceFor(size).Slab? && size + METADATA <= Room(ServiceFor(size))
    ensures PageBooks(pmm, live[b := size], reserved)
  {
    hide ServiceFor, Room, PageBlock;
    var live' := live[b := size];
    forall d ensures PageServed(live', d) == PageServed(live, d) { }
  }

  /** Replacing a pool by one whose slab is on the same page. */
  lemma PagesOfClasses(pools: seq<Pool>, pools': seq<Pool>)
    requires |pools| == |pools'| == CLASSES
    requires forall c: nat :: c < CLASSES ==> |pools[c].slabs| == 1 && |pools'[c].slabs| == 1 && pools'[c].slabs[0].page == pools[c].slabs[0].page
    requires forall c: nat, d: nat :: c < d < CLASSES ==> pools[c].slabs[0].page != pools[d].slabs[0].page
    ensures forall c: nat, d: nat :: c < d < CLASSES ==> pools'[c].slabs[0].page != pools'[d].slabs[0].page
  {
  }

  /** free puts the object of a live block back. */
  lemma FreeObjectBooks(pools: seq<Pool>, pmm: State, live: Blocks, reserved: set<nat>, c: nat, b: nat)
    requires Books(pools, pmm, live, reserved) && c < CLASSES && b in live && ServiceFor(live[b]) == Slab(c)
    ensures |pools[c].slabs| == 1 && |pools[c].slabs[0].free| < pools[c].max
    ensures Books(pools[c := Push(pools[c], 0, b)], pmm, live - {b}, reserved)
  {
    hide ServiceFor, Books, ClassInv, PageBlock;
    BooksShape(pools, pmm, live, reserved);
    BooksAre(pools, pmm, live, reserved);
    AllSingle(pools, pmm, live, reserved);
    var pools', live' := pools[c := Push(pools[c], 0, b)], live - {b};
    BooksAre(pools', pmm, live', reserved);
    assert b in Held(live, c);
    PushClass(pools[c], pmm, Held(live, c), reserved, c, b);
    forall d: nat | d < CLASSES ensures ClassInv(pools'[d], pmm, Held(live', d), reserved, d) {
      HeldRemoved(live, b, d);
    }
    RemovalKeepsPages(pmm, live, reserved, b);
    PagesOfClasses(pools, pools');
  }

  lemma RemovalKeepsPages(pmm: State, live: Blocks, reserved: set<nat>, b: nat)
    requires PageBooks(pmm, live, reserved)
    ensures PageBooks(pmm, live - {b}, reserved)
  {
    hide ServiceFor, Room, PageBlock;
    var live' := live - {b};
    forall d ensures PageServed(live', d) == (PageServed(live, d) && d != b) { }
  }

  // ---------------------------------------------------------------- page blocks

  /** pmm' marks at least the reserved pages used, as pmm does. */
  ghost predicate KeepsReserved(pmm: State, pmm': State, reserved: set<nat>)
  {
    && Wf(pmm') && pmm'.pages == pmm.pages
    && (forall f :: f in reserved ==> f < pmm'.pages && pmm'.bits[f])
  }

  lemma ClassOverPmm(pool: Pool, pmm: State, pmm': State, held: set<nat>, reserved: set<nat>, c: nat)
    requires c < CLASSES && ClassInv(pool, pmm, held, reserved, c) && KeepsReserved(pmm, pmm', reserved)
    ensures ClassInv(pool, pmm', held, reserved, c)
  {
    hide Capacity, ClassSize, ObjectOfSome, Separate;
    assert TakenPage(pmm, pool.slabs[0].page);
    assert TakenPage(pmm', pool.slabs[0].page);
  }

  lemma ClassesOverPmm(pools: seq<Pool>, pmm: State, pmm': State, live: Blocks, live': Blocks, reserved: set<nat>)
    requires ClassBooks(pools, pmm, live, reserved) && KeepsReserved(pmm, pmm', reserved)
    requires forall c: nat :: c < CLASSES ==> Held(live', c) == Held(live, c)
    ensures ClassBooks(pools, pmm', live', reserved)
  {
    hide ClassInv, KeepsReserved;
    forall c: nat | c < CLASSES ensures ClassInv(pools[c], pmm', Held(live', c), reserved, c) {
      ClassOverPmm(pools[c], pmm, pmm', Held(live, c), reserved, c);
    }
  }

  /** malloc takes n free pages. */
  lemma TakePagesBooks(pools: seq<Pool>, pmm: State, live: Blocks, reserved: set<nat>, n: nat, size: Word, pmm': State, b: nat)
    requires Books(pools, pmm, live, reserved) && ServiceFor(size) == Pages(n) && size + METADATA <= n * PAGE
    requires Wf(pmm') && b != 0 && ClaimedRange(pmm, pmm', b, n)
    ensures b !in live && Books(pools, pmm', live[b := size], reserved)
  {
    hide ServiceFor;
    assert pmm.pages <= |pmm.bits|;
    hide Wf;
    assert b / PAGE_SIZE in Range(b / PAGE_SIZE, n);
    assert b % PAGE_SIZE == 0;
    assert b / PAGE_SIZE + n - 1 in Range(b / PAGE_SIZE, n);
    hide Range;
    FreePageIsFresh(pools, pmm, live, reserved, b);
    BooksAre(pools, pmm, live, reserved);
    BooksAre(pools, pmm', live[b := size], reserved);
    hide Books;
    forall c: nat | c < CLASSES ensures Held(live[b := size], c) == Held(live, c) { HeldAdded(live, b, size, c); }
    ReservedOutside(pmm, reserved, Range(b / PAGE_SIZE, n));
    assert KeepsReserved(pmm, pmm', reserved);
    ClassesOverPmm(pools, pmm, pmm', live, live[b := size], reserved);
    NewPageBlock(pmm, live, reserved, n, size, pmm', b);
  }

  lemma ReservedOutside(pmm: State, reserved: set<nat>, r: set<nat>)
    requires pmm.pages <= |pmm.bits| && r <= FreePages(pmm)
    requires forall f :: f in reserved ==> f < pmm.pages && pmm.bits[f]
    ensures r !! reserved
  {
  }

  lemma NewPageBlock(pmm: State, live: Blocks, reserved: set<nat>, n: nat, size: Word, pmm': State, b: nat)
    requires PageBooks(pmm, live, reserved) && b !in live
    requires ServiceFor(size) == Pages(n) && size + METADATA <= n * PAGE && b != 0 && b % PAGE_SIZE == 0 && n > 0
    requires pmm'.pages == pmm.pages && Range(b / PAGE_SIZE, n) <= FreePages(pmm) && Range(b / PAGE_SIZE, n) !! reserved
    requires FreePages(pmm') == FreePages(pmm) - Range(b / PAGE_SIZE, n) && b / PAGE_SIZE + n <= pmm.pages
    ensures PageBooks(pmm', live[b := size], reserved)
  {
    hide ServiceFor, Range, FreePages;
    var live' := live[b := size];
    assert Room(ServiceFor(size)) == n * PAGE;
    hide Room;
    forall d | PageServed(live', d)
      ensures PageBlock(d, ServiceFor(live'[d]).n, pmm', reserved)
      ensures d != b ==> PageServed(live, d) && Frames(live', d) == Frames(live, d) && Frames(live, d) !! FreePages(pmm)
      ensures d == b ==> Frames(live', d) == Range(b / PAGE_SIZE, n)
    {
      if d != b { assert PageBlock(d, ServiceFor(live[d]).n, pmm, reserved); }
    }
  }

  /** free gives m pages of a block back; m is less than n only when the header lost the count. */
  lemma ReleasePagesBooks(pools: seq<Pool>, pmm: State, live: Blocks, reserved: set<nat>, b: nat, m: nat)
    requires Books(pools, pmm, live, reserved) && PageServed(live, b) && m <= ServiceFor(live[b]).n
    ensures m <= pmm.used
    ensures Books(pools, PmmSpec.Free(pmm, b / PAGE_SIZE, m), live - {b}, reserved)
    ensures FreePages(PmmSpec.Free(pmm, b / PAGE_SIZE, m)) == FreePages(pmm) + Range(b / PAGE_SIZE, m)
  {
    hide ServiceFor;
    var pmm' := ReleasedState(pools, pmm, live, reserved, b, m);
    BooksAre(pools, pmm, live, reserved);
    BooksAre(pools, pmm', live - {b}, reserved);
    hide Books, Range, Wf, FreePages, PageBooks, ClassBooks;
    forall c: nat | c < CLASSES ensures Held(live - {b}, c) == Held(live, c) { HeldRemoved(live, b, c); }
    ClassesOverPmm(pools, pmm, pmm', live, live - {b}, reserved);
    OtherPageBlocks(pmm, live, reserved, b, pmm', Range(b / PAGE_SIZE, m));
  }

  lemma ReleasedState(pools: seq<Pool>, pmm: State, live: Blocks, reserved: set<nat>, b: nat, m: nat) returns (pmm': State)
    requires Books(pools, pmm, live, reserved) && PageServed(live, b) && m <= ServiceFor(live[b]).n
    ensures m <= pmm.used && pmm' == PmmSpec.Free(pmm, b / PAGE_SIZE, m)
    ensures KeepsReserved(pmm, pmm', reserved) && pmm'.pages <= |pmm'.bits| && Range(b / PAGE_SIZE, m) <= Frames(live, b)
    ensures FreePages(pmm') == FreePages(pmm) + Range(b / PAGE_SIZE, m)
  {
    ReleasedRange(pools, pmm, live, reserved, b, m);
    hide ServiceFor, Range, Wf, FreePages, ClassInv;
    ReleaseStep(pmm, b / PAGE_SIZE, m);
    ReservedStay(pmm, reserved, b / PAGE_SIZE, m);
    pmm' := PmmSpec.Free(pmm, b / PAGE_SIZE, m);
  }

  lemma ReleasedRange(pools: seq<Pool>, pmm: State, live: Blocks, reserved: set<nat>, b: nat, m: nat)
    requires Books(pools, pmm, live, reserved) && PageServed(live, b) && m <= ServiceFor(live[b]).n
    ensures Wf(pmm) && pmm.pages <= |pmm.bits|
    ensures var i := b / PAGE_SIZE;
            && 0 < i && i + m <= pmm.pages && Range(i, m) <= Frames(live, b)
            && Range(i, m) !! reserved && Range(i, m) !! FreePages(pmm)
  {
    hide ServiceFor, FreePages;
    LivePlace(pools, pmm, live, reserved, b);
    hide Books;
  }

  lemma ReservedStay(pmm: State, reserved: set<nat>, i: nat, m: nat)
    requires pmm.pages <= |pmm.bits| && m <= pmm.used && Range(i, m) !! reserved
    requires forall f :: f in reserved ==> f < pmm.pages && pmm.bits[f]
    ensures var pmm' := PmmSpec.Free(pmm, i, m);
            pmm'.pages == pmm.pages && |pmm'.bits| == |pmm.bits| && forall f :: f in reserved ==> f < pmm.pages && pmm'.bits[f]
  {
  }

  lemma OtherPageBlocks(pmm: State, live: Blocks, reserved: set<nat>, b: nat, pmm': State, r: set<nat>)
    requires PageBooks(pmm, live, reserved) && PageServed(live, b) && r <= Frames(live, b)
    requires pmm'.pages == pmm.pages && FreePages(pmm') == FreePages(pmm) + r
    ensures PageBooks(pmm', live - {b}, reserved)
  {
    hide ServiceFor, Range, FreePages, Room;
    var live' := live - {b};
    forall d | PageServed(live', d)
      ensures PageBlock(d, ServiceFor(live'[d]).n, pmm', reserved)
      ensures PageServed(live, d) && d != b && Frames(live', d) == Frames(live, d)
    {
      assert PageBlock(d, ServiceFor(live[d]).n, pmm, reserved);
      assert Frames(live, d) !! Frames(live, b);
    }
  }
}

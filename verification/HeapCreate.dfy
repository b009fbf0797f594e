/** What creating a slab writes into memory: the zeroed page, the slab header, and the bufctls that
    thread the free list. */
module HeapCreate {
  import opened Words
  import opened PmmSpec
  import opened SlabSpec
  import opened HeapMemory
  import opened HeapSpec

  /** A slab_t with no next slab and no free list yet. */
  function HeaderBytes(page: nat, max: nat): (s: seq<Byte>)
    ensures |s| == HEADER_SIZE
  {
    Bytes(0, 8) + Bytes(max, 8) + Bytes(page, 8) + Bytes(0, 8) + Bytes(0, 8)
  }

  /** slab_create_bufctl_buffer and slab_create_slab: a zeroed page with a header. */
  function SlabBytes(mem: seq<Byte>, page: nat, max: nat): (m: seq<Byte>)
    ensures |m| == |mem|
  {
    Write(Write(Write(mem, page, ZeroBytes(PAGE_SIZE)), page, Bytes(0, 8)),
          HeaderOf(page), HeaderBytes(page, max))
  }

  /** slab_init_bufctls for object j, when the first d objects are dropped. */
  function ObjectBytes(mem: seq<Byte>, page: nat, size: nat, max: nat, d: nat, j: nat): (m: seq<Byte>)
    requires j < max
    ensures |m| == |mem|
  {
    var a, header := ObjectAt(page, size, j), HeaderOf(page);
    var m := Write(mem, a + 8, Bytes(j, 2));
    if j < d then Write(m, header + COUNT_FIELD, Bytes(max - (j + 1), 8))
    else
      var linked := if j == d then Write(m, header + HEAD_FIELD, Bytes(a, 8)) else Write(m, ObjectAt(page, size, j - 1), Bytes(a, 8));
      Write(linked, header + TAIL_FIELD, Bytes(a, 8))
  }

  /** The loop over the first n objects. */
  function ObjectsBytes(mem: seq<Byte>, page: nat, size: nat, max: nat, d: nat, n: nat): (m: seq<Byte>)
    requires n <= max
    ensures |m| == |mem|
  {
    if n == 0 then mem else ObjectBytes(ObjectsBytes(mem, page, size, max, d, n - 1), page, size, max, d, n - 1)
  }

  /** A new slab of max objects on a page, the first d of them dropped. */
  function CreatedBytes(mem: seq<Byte>, page: nat, size: nat, max: nat, d: nat): (m: seq<Byte>)
    ensures |m| == |mem|
  {
    ObjectsBytes(SlabBytes(mem, page, max), page, size, max, d, max)
  }

  // ---------------------------------------------------------------- the loop

  /** The link of object k when n objects are set up. */
  function LinkOf(page: nat, size: nat, d: nat, n: nat, k: nat): (a: nat)
  {
    if d <= k && k + 1 < n then ObjectAt(page, size, k + 1) else 0
  }

  ghost predicate Links(mem: seq<Byte>, page: nat, size: nat, max: nat, d: nat, n: nat)
  {
    forall k: nat :: k < max ==> Holds(mem, ObjectAt(page, size, k), Bytes(LinkOf(page, size, d, n, k), 8))
  }

  ghost predicate Fields(mem: seq<Byte>, page: nat, count: nat, head: nat)
  {
    var a := HeaderOf(page);
    && Holds(mem, a, Bytes(0, 8)) && Holds(mem, a + COUNT_FIELD, Bytes(count, 8))
    && Holds(mem, a + ADDR_FIELD, Bytes(page, 8)) && Holds(mem, a + HEAD_FIELD, Bytes(head, 8))
  }

  /** The slab when n of its objects are set up. */
  ghost predicate Built(mem: seq<Byte>, page: nat, size: nat, max: nat, d: nat, n: nat)
    requires n <= max && d <= max
  {
    && page + PAGE_SIZE <= |mem|
    && Links(mem, page, size, max, d, n)
    && Fields(mem, page, if n < d then max - n else max - d, if n > d then ObjectAt(page, size, d) else 0)
  }

  /** Sizes for which the objects fit below the header and hold a bufctl. */
  predicate Fits(size: nat, max: nat, d: nat)
  {
    size >= 10 && max <= Capacity(size) && d <= max
  }

  lemma ObjectFits(page: nat, size: nat, max: nat, k: nat)
    requires Fits(size, max, 0) && k < max
    ensures ObjectAt(page, size, k) + size <= HeaderOf(page)
  {
    CapacityFits(size);
    hide Capacity;
    MulLe(k + 1, Capacity(size), size);
    assert size * (k + 1) == size * k + size;
  }

  /** A write into object j, after its link, or into the header, keeps all links. */
  lemma LinksBeside(mem: seq<Byte>, page: nat, size: nat, max: nat, d: nat, n: nat, a: nat, s: seq<Byte>)
    requires Fits(size, max, d) && Links(mem, page, size, max, d, n)
    requires a >= HeaderOf(page) || exists j: nat :: j < max && InObject(page, size, j, a, |s|)
    ensures Links(Write(mem, a, s), page, size, max, d, n)
  {
    hide Write, Bytes, Holds, LinkOf, ObjectAt, Capacity;
    forall k: nat | k < max ensures Holds(Write(mem, a, s), ObjectAt(page, size, k), Bytes(LinkOf(page, size, d, n, k), 8)) {
      ObjectFits(page, size, max, k);
      if a < HeaderOf(page) {
        var j: nat :| j < max && InObject(page, size, j, a, |s|);
        if j != k { SlotsApart(page, size, j, k); }
      }
      WrittenBeside(mem, a, s, ObjectAt(page, size, k), Bytes(LinkOf(page, size, d, n, k), 8));
    }
  }

  /** The n bytes at a lie in object j behind its link. */
  predicate InObject(page: nat, size: nat, j: nat, a: nat, n: nat)
  {
    ObjectAt(page, size, j) + 8 <= a && a + n <= ObjectAt(page, size, j) + size
  }

  /** A write below the header, or to its tail field, keeps the other fields. */
  lemma FieldsBeside(mem: seq<Byte>, page: nat, count: nat, head: nat, a: nat, s: seq<Byte>)
    requires Fields(mem, page, count, head) && (a + |s| <= HeaderOf(page) || a >= HeaderOf(page) + TAIL_FIELD)
    ensures Fields(Write(mem, a, s), page, count, head)
  {
    hide Write, Bytes, Holds;
    var h := HeaderOf(page);
    WrittenBeside(mem, a, s, h, Bytes(0, 8));
    WrittenBeside(mem, a, s, h + COUNT_FIELD, Bytes(count, 8));
    WrittenBeside(mem, a, s, h + ADDR_FIELD, Bytes(page, 8));
    WrittenBeside(mem, a, s, h + HEAD_FIELD, Bytes(head, 8));
  }

  lemma CountWritten(mem: seq<Byte>, page: nat, count: nat, head: nat, v: nat)
    requires Fields(mem, page, count, head)
    ensures Fields(Write(mem, HeaderOf(page) + COUNT_FIELD, Bytes(v, 8)), page, v, head)
  {
    hide Write, Bytes, Holds;
    var h, s := HeaderOf(page), Bytes(v, 8);
    Bound(mem, h + COUNT_FIELD, Bytes(count, 8));
    StoredAt(mem, h + COUNT_FIELD, s);
    WrittenBeside(mem, h + COUNT_FIELD, s, h, Bytes(0, 8));
    WrittenBeside(mem, h + COUNT_FIELD, s, h + ADDR_FIELD, Bytes(page, 8));
    WrittenBeside(mem, h + COUNT_FIELD, s, h + HEAD_FIELD, Bytes(head, 8));
  }

  lemma HeadWritten(mem: seq<Byte>, page: nat, count: nat, head: nat, v: nat)
    requires Fields(mem, page, count, head)
    ensures Fields(Write(mem, HeaderOf(page) + HEAD_FIELD, Bytes(v, 8)), page, count, v)
  {
    hide Write, Bytes, Holds;
    var h, s := HeaderOf(page), Bytes(v, 8);
    Bound(mem, h + HEAD_FIELD, Bytes(head, 8));
    StoredAt(mem, h + HEAD_FIELD, s);
    WrittenBeside(mem, h + HEAD_FIELD, s, h, Bytes(0, 8));
    WrittenBeside(mem, h + HEAD_FIELD, s, h + ADDR_FIELD, Bytes(page, 8));
    WrittenBeside(mem, h + HEAD_FIELD, s, h + COUNT_FIELD, Bytes(count, 8));
  }

  lemma Bound(mem: seq<Byte>, a: nat, s: seq<Byte>)
    requires Holds(mem, a, s)
    ensures a + |s| <= |mem|
  {
  }

  /** The link from object j-1 to object j. */
  lemma LinkStored(mem: seq<Byte>, page: nat, size: nat, max: nat, d: nat, j: nat)
    requires Fits(size, max, d) && d < j < max && Links(mem, page, size, max, d, j)
    ensures Links(Write(mem, ObjectAt(page, size, j - 1), Bytes(ObjectAt(page, size, j), 8)), page, size, max, d, j + 1)
  {
    hide Write, Bytes, Holds, ObjectAt, Capacity;
    var a, s := ObjectAt(page, size, j - 1), Bytes(ObjectAt(page, size, j), 8);
    forall k: nat | k < max ensures Holds(Write(mem, a, s), ObjectAt(page, size, k), Bytes(LinkOf(page, size, d, j + 1, k), 8)) {
      if k == j - 1 {
        Bound(mem, a, Bytes(LinkOf(page, size, d, j, k), 8));
        StoredAt(mem, a, s);
      } else {
        SlotsApart(page, size, j - 1, k);
        assert LinkOf(page, size, d, j + 1, k) == LinkOf(page, size, d, j, k);
        WrittenBeside(mem, a, s, ObjectAt(page, size, k), Bytes(LinkOf(page, size, d, j, k), 8));
      }
    }
  }

  /** Links change with the number of objects only when there is an object to link from. */
  lemma SameLinks(mem: seq<Byte>, page: nat, size: nat, max: nat, d: nat, j: nat)
    requires Links(mem, page, size, max, d, j) && j <= d
    ensures Links(mem, page, size, max, d, j + 1)
  {
    hide Bytes, Holds, ObjectAt;
    forall k: nat | k < max ensures LinkOf(page, size, d, j + 1, k) == LinkOf(page, size, d, j, k) { }
  }

  /** One round of the loop. */
  lemma BuiltStep(mem: seq<Byte>, page: nat, size: nat, max: nat, d: nat, j: nat)
    requires Fits(size, max, d) && j < max && Built(mem, page, size, max, d, j)
    ensures Built(ObjectBytes(mem, page, size, max, d, j), page, size, max, d, j + 1)
  {
    hide Write, Bytes, Links, Fields, ObjectAt, Capacity, LinkOf;
    var a, header := ObjectAt(page, size, j), HeaderOf(page);
    var count, head := if j < d then max - j else max - d, if j > d then ObjectAt(page, size, d) else 0;
    var m := Write(mem, a + 8, Bytes(j, 2));
    ObjectFits(page, size, max, j);
    assert InObject(page, size, j, a + 8, 2);
    LinksBeside(mem, page, size, max, d, j, a + 8, Bytes(j, 2));
    FieldsBeside(mem, page, count, head, a + 8, Bytes(j, 2));
    if j < d {
      LinksBeside(m, page, size, max, d, j, header + COUNT_FIELD, Bytes(max - (j + 1), 8));
      SameLinks(Write(m, header + COUNT_FIELD, Bytes(max - (j + 1), 8)), page, size, max, d, j);
      CountWritten(m, page, count, head, max - (j + 1));
    } else {
      var linked := if j == d then Write(m, header + HEAD_FIELD, Bytes(a, 8)) else Write(m, ObjectAt(page, size, j - 1), Bytes(a, 8));
      if j == d {
        LinksBeside(m, page, size, max, d, j, header + HEAD_FIELD, Bytes(a, 8));
        SameLinks(linked, page, size, max, d, j);
        HeadWritten(m, page, count, head, a);
      } else {
        LinkStored(m, page, size, max, d, j);
        ObjectFits(page, size, max, j - 1);
        FieldsBeside(m, page, count, head, ObjectAt(page, size, j - 1), Bytes(a, 8));
      }
      LinksBeside(linked, page, size, max, d, j + 1, header + TAIL_FIELD, Bytes(a, 8));
      FieldsBeside(linked, page, max - d, ObjectAt(page, size, d), header + TAIL_FIELD, Bytes(a, 8));
    }
  }

  lemma {:induction false} ObjectsBuilt(mem: seq<Byte>, page: nat, size: nat, max: nat, d: nat, n: nat)
    requires Fits(size, max, d) && n <= max && Built(mem, page, size, max, d, 0)
    ensures Built(ObjectsBytes(mem, page, size, max, d, n), page, size, max, d, n)
  {
    hide Built, ObjectBytes, Capacity, ObjectAt;
    if n == 0 {
      assert ObjectsBytes(mem, page, size, max, d, 0) == mem;
    } else {
      ObjectsBuilt(mem, page, size, max, d, n - 1);
      BuiltStep(ObjectsBytes(mem, page, size, max, d, n - 1), page, size, max, d, n - 1);
    }
  }

  // ---------------------------------------------------------------- the whole slab

  /** A zeroed page with its header is a slab with nothing set up. */
  lemma StartBuilt(mem: seq<Byte>, page: nat, size: nat, max: nat, d: nat)
    requires Fits(size, max, d) && page + PAGE_SIZE <= |mem|
    ensures Built(SlabBytes(mem, page, max), page, size, max, d, 0)
  {
    hide Write, Bytes, Capacity, ObjectAt, Holds;
    var m0 := Write(mem, page, ZeroBytes(PAGE_SIZE));
    var m1 := Write(m0, page, Bytes(0, 8));
    var m2 := SlabBytes(mem, page, max);
    forall k: nat | k < max ensures Holds(m2, ObjectAt(page, size, k), Bytes(LinkOf(page, size, d, 0, k), 8)) {
      ObjectFits(page, size, max, k);
      Zeroed(mem, page, ObjectAt(page, size, k));
      WrittenBeside(m1, HeaderOf(page), HeaderBytes(page, max), ObjectAt(page, size, k), Bytes(0, 8));
    }
    HeaderFields(m1, page, max);
  }

  lemma HeaderFields(mem: seq<Byte>, page: nat, max: nat)
    requires page + PAGE_SIZE <= |mem|
    ensures Fields(Write(mem, HeaderOf(page), HeaderBytes(page, max)), page, max, 0)
  {
    hide Bytes;
  }

  /** The zeroed page holds zero words; storing NULL at its start does not change that. */
  lemma Zeroed(mem: seq<Byte>, page: nat, a: nat)
    requires page <= a && a + 8 <= page + PAGE_SIZE <= |mem|
    ensures Holds(Write(Write(mem, page, ZeroBytes(PAGE_SIZE)), page, Bytes(0, 8)), a, Bytes(0, 8))
  {
    ZeroWord(8);
    hide Bytes;
    var m := Write(Write(mem, page, ZeroBytes(PAGE_SIZE)), page, Bytes(0, 8));
    assert m[a..a + 8] == Bytes(0, 8);
  }

  lemma {:induction false} ZeroWord(n: nat)
    ensures Bytes(0, n) == ZeroBytes(n)
  {
    if n == 0 {
    } else {
      ZeroWord(n - 1);
    }
  }

  /** After the loop the free list is threaded through the page and the header is stored. */
  lemma CreatedIsStored(mem: seq<Byte>, page: nat, size: nat, max: nat, d: nat)
    requires Fits(size, max, d) && page + PAGE_SIZE <= |mem|
    ensures var slab := SlabView(page, Objects(page, size, d, max - d));
            Threaded(CreatedBytes(mem, page, size, max, d), slab.free) && SlabStored(CreatedBytes(mem, page, size, max, d), slab)
  {
    hide Write, Bytes, Capacity, ObjectAt, Holds, SlabBytes, ObjectsBytes;
    StartBuilt(mem, page, size, max, d);
    ObjectsBuilt(SlabBytes(mem, page, max), page, size, max, d, max);
    var m, free := CreatedBytes(mem, page, size, max, d), Objects(page, size, d, max - d);
    forall i: nat | i < |free| ensures Holds(m, free[i], Bytes(At(free, i + 1), 8)) {
      assert free[i] == ObjectAt(page, size, d + i);
      assert At(free, i + 1) == LinkOf(page, size, d, max, d + i);
    }
    assert At(free, 0) == if max > d then ObjectAt(page, size, d) else 0;
  }

  // ---------------------------------------------------------------- what creation leaves alone

  lemma {:induction false} ObjectsOnly(mem: seq<Byte>, page: nat, size: nat, max: nat, d: nat, n: nat)
    requires Fits(size, max, d) && n <= max
    ensures OnlyChanges(mem, ObjectsBytes(mem, page, size, max, d, n), page, PAGE_SIZE)
  {
    hide OnlyChanges, ObjectBytes, Capacity, ObjectAt;
    if n == 0 {
      NothingChanges(mem, page, PAGE_SIZE);
      assert ObjectsBytes(mem, page, size, max, d, 0) == mem;
    } else {
      var m := ObjectsBytes(mem, page, size, max, d, n - 1);
      ObjectsOnly(mem, page, size, max, d, n - 1);
      ObjectOnly(m, page, size, max, d, n - 1);
      OnlyTwice(mem, m, ObjectsBytes(mem, page, size, max, d, n), page, PAGE_SIZE);
    }
  }

  lemma NothingChanges(mem: seq<Byte>, a: nat, n: nat)
    ensures OnlyChanges(mem, mem, a, n)
  {
  }

  lemma ObjectOnly(mem: seq<Byte>, page: nat, size: nat, max: nat, d: nat, j: nat)
    requires Fits(size, max, d) && j < max
    ensures OnlyChanges(mem, ObjectBytes(mem, page, size, max, d, j), page, PAGE_SIZE)
  {
    hide Write, Bytes, OnlyChanges, ObjectAt, Capacity;
    var a, header := ObjectAt(page, size, j), HeaderOf(page);
    var m := Write(mem, a + 8, Bytes(j, 2));
    ObjectFits(page, size, max, j);
    WriteOnly(mem, a + 8, Bytes(j, 2), page, PAGE_SIZE);
    if j < d {
      OnlyMore(mem, m, header + COUNT_FIELD, Bytes(max - (j + 1), 8), page);
    } else {
      var b := if j == d then header + HEAD_FIELD else ObjectAt(page, size, j - 1);
      if j > d { ObjectFits(page, size, max, j - 1); }
      OnlyMore(mem, m, b, Bytes(a, 8), page);
      OnlyMore(mem, Write(m, b, Bytes(a, 8)), header + TAIL_FIELD, Bytes(a, 8), page);
    }
  }

  lemma OnlyMore(mem: seq<Byte>, m: seq<Byte>, a: nat, s: seq<Byte>, page: nat)
    requires OnlyChanges(mem, m, page, PAGE_SIZE) && page <= a && a + |s| <= page + PAGE_SIZE
    ensures OnlyChanges(mem, Write(m, a, s), page, PAGE_SIZE)
  {
    hide Write, OnlyChanges;
    WriteOnly(m, a, s, page, PAGE_SIZE);
    OnlyTwice(mem, m, Write(m, a, s), page, PAGE_SIZE);
  }

  /** Creating a slab changes its own page only. */
  lemma CreatedOnly(mem: seq<Byte>, page: nat, size: nat, max: nat, d: nat)
    requires Fits(size, max, d)
    ensures OnlyChanges(mem, CreatedBytes(mem, page, size, max, d), page, PAGE_SIZE)
  {
    hide Write, Bytes, OnlyChanges, ObjectsBytes, Capacity;
    var m0 := Write(mem, page, ZeroBytes(PAGE_SIZE));
    WriteOnly(mem, page, ZeroBytes(PAGE_SIZE), page, PAGE_SIZE);
    OnlyMore(mem, m0, page, Bytes(0, 8), page);
    OnlyMore(mem, Write(m0, page, Bytes(0, 8)), HeaderOf(page), HeaderBytes(page, max), page);
    ObjectsOnly(SlabBytes(mem, page, max), page, size, max, d, max);
    OnlyTwice(mem, SlabBytes(mem, page, max), CreatedBytes(mem, page, size, max, d), page, PAGE_SIZE);
  }

  // ---------------------------------------------------------------- indices

  /** The first n objects carry their index. */
  ghost predicate Indices(mem: seq<Byte>, page: nat, size: nat, n: nat)
  {
    forall k: nat :: k < n ==> Holds(mem, ObjectAt(page, size, k) + 8, Bytes(k, 2))
  }

  /** A write of a link, or into the header, keeps all indices. */
  lemma IndicesBeside(mem: seq<Byte>, page: nat, size: nat, max: nat, n: nat, a: nat, s: seq<Byte>)
    requires Fits(size, max, 0) && n <= max && Indices(mem, page, size, n)
    requires a >= HeaderOf(page) || (|s| <= 8 && exists j: nat :: j < max && a == ObjectAt(page, size, j))
    ensures Indices(Write(mem, a, s), page, size, n)
  {
    hide Write, Bytes, Holds, ObjectAt, Capacity;
    forall k: nat | k < n ensures Holds(Write(mem, a, s), ObjectAt(page, size, k) + 8, Bytes(k, 2)) {
      ObjectFits(page, size, max, k);
      if a < HeaderOf(page) {
        var j: nat :| j < max && a == ObjectAt(page, size, j);
        if j != k { SlotsApart(page, size, j, k); }
      }
      WrittenBeside(mem, a, s, ObjectAt(page, size, k) + 8, Bytes(k, 2));
    }
  }

  lemma IndexWritten(mem: seq<Byte>, page: nat, size: nat, max: nat, j: nat)
    requires Fits(size, max, 0) && j < max && page + PAGE_SIZE <= |mem| && Indices(mem, page, size, j)
    ensures Indices(Write(mem, ObjectAt(page, size, j) + 8, Bytes(j, 2)), page, size, j + 1)
  {
    hide Write, Bytes, Holds, ObjectAt, Capacity;
    var a := ObjectAt(page, size, j) + 8;
    ObjectFits(page, size, max, j);
    StoredAt(mem, a, Bytes(j, 2));
    forall k: nat | k < j ensures Holds(Write(mem, a, Bytes(j, 2)), ObjectAt(page, size, k) + 8, Bytes(k, 2)) {
      SlotsApart(page, size, j, k);
      WrittenBeside(mem, a, Bytes(j, 2), ObjectAt(page, size, k) + 8, Bytes(k, 2));
    }
  }

  lemma IndicesStep(mem: seq<Byte>, page: nat, size: nat, max: nat, d: nat, j: nat)
    requires Fits(size, max, d) && j < max && page + PAGE_SIZE <= |mem| && Indices(mem, page, size, j)
    ensures Indices(ObjectBytes(mem, page, size, max, d, j), page, size, j + 1)
  {
    hide Write, Bytes, Indices, ObjectAt, Capacity;
    var a, header := ObjectAt(page, size, j), HeaderOf(page);
    var m := Write(mem, a + 8, Bytes(j, 2));
    IndexWritten(mem, page, size, max, j);
    if j < d {
      IndicesBeside(m, page, size, max, j + 1, header + COUNT_FIELD, Bytes(max - (j + 1), 8));
    } else {
      var at := if j == d then header + HEAD_FIELD else ObjectAt(page, size, j - 1);
      IndicesBeside(m, page, size, max, j + 1, at, Bytes(a, 8));
      IndicesBeside(Write(m, at, Bytes(a, 8)), page, size, max, j + 1, header + TAIL_FIELD, Bytes(a, 8));
    }
  }

  lemma {:induction false} AllIndices(mem: seq<Byte>, page: nat, size: nat, max: nat, d: nat, n: nat)
    requires Fits(size, max, d) && n <= max && page + PAGE_SIZE <= |mem|
    ensures Indices(ObjectsBytes(mem, page, size, max, d, n), page, size, n)
  {
    hide ObjectBytes, Capacity, ObjectAt;
    if n == 0 {
    } else {
      AllIndices(mem, page, size, max, d, n - 1);
      IndicesStep(ObjectsBytes(mem, page, size, max, d, n - 1), page, size, max, d, n - 1);
    }
  }

  /** After slab_init_bufctls every object of the page, dropped or not, carries its number. */
  lemma CreatedIndices(mem: seq<Byte>, page: nat, size: nat, max: nat, d: nat)
    requires Fits(size, max, d) && page + PAGE_SIZE <= |mem|
    ensures forall j: nat :: j < max ==>
              page + size * j + 10 <= |mem| && Load(CreatedBytes(mem, page, size, max, d), page + size * j + 8, 2) == j
  {
    hide Write, Bytes, Capacity, ObjectsBytes, SlabBytes, Holds, Load;
    AllIndices(SlabBytes(mem, page, max), page, size, max, d, max);
    forall j: nat | j < max
      ensures page + size * j + 10 <= |mem| && Load(CreatedBytes(mem, page, size, max, d), page + size * j + 8, 2) == j
    {
      ObjectFits(page, size, max, j);
      IndexLoad(CreatedBytes(mem, page, size, max, d), page + size * j + 8, j);
      FewObjects(size, max);
    }
  }

  lemma FewObjects(size: nat, max: nat)
    requires Fits(size, max, 0)
    ensures max <= PAGE_SIZE
  {
    CapacityFits(size);
    hide Capacity;
    MulLe(1, size, Capacity(size));
  }

  lemma IndexLoad(mem: seq<Byte>, a: nat, j: nat)
    requires Holds(mem, a, Bytes(j, 2))
    ensures a + 2 <= |mem| && (j < 0x1_0000 ==> Load(mem, a, 2) == j)
  {
    hide Bytes, Load, Holds, Pow2;
    LoadIs(mem, a, j, 2);
    SixteenBits();
    if j < 0x1_0000 { SmallMod(j, 0x1_0000); }
  }

  /** A new slab, word by word: the header of its page, 4056 bytes from the start, holds no next slab, the number of
      objects that are not dropped, the page, and the first and the last of them; and each holds the address of the
      next one, the last NULL. */
  lemma CreatedFields(mem: seq<Byte>, page: nat, size: nat, max: nat, d: nat)
    requires Fits(size, max, d) && d < max && page + PAGE_SIZE <= |mem| <= WORD_LIMIT
    ensures var m := CreatedBytes(mem, page, size, max, d);
            && Load(m, page + 4056, 8) == 0 && Load(m, page + 4064, 8) == max - d && Load(m, page + 4072, 8) == page
            && Load(m, page + 4080, 8) == ObjectAt(page, size, d) && Load(m, page + 4088, 8) == ObjectAt(page, size, max - 1)
            && (forall j: nat :: d <= j < max ==>
                  ObjectAt(page, size, j) + 8 <= |mem|
                  && Load(m, ObjectAt(page, size, j), 8) == if j + 1 < max then ObjectAt(page, size, j + 1) else 0)
  {
    hide Bytes, Capacity, ObjectsBytes, SlabBytes, Holds, Load, ObjectAt, Threaded, SlabStored;
    var m, free := CreatedBytes(mem, page, size, max, d), Objects(page, size, d, max - d);
    CreatedIsStored(mem, page, size, max, d);
    FewObjects(size, max);
    ObjectFits(page, size, max, d);
    HeaderWords(m, SlabView(page, free));
    LastIsTail(mem, page, size, max, d);
    forall j: nat | d <= j < max
      ensures ObjectAt(page, size, j) + 8 <= |mem| && Load(m, ObjectAt(page, size, j), 8) == if j + 1 < max then ObjectAt(page, size, j + 1) else 0
    {
      ObjectFits(page, size, max, j);
      if j + 1 < max { ObjectFits(page, size, max, j + 1); }
      LinkWord(m, page, size, max, d, j);
    }
  }

  lemma HeaderWords(mem: seq<Byte>, slab: SlabView)
    requires SlabStored(mem, slab) && slab.free != [] && |mem| <= WORD_LIMIT && |slab.free| < WORD_LIMIT && slab.free[0] < WORD_LIMIT
    ensures slab.page + 4096 <= |mem|
    ensures Load(mem, slab.page + 4056, 8) == 0 && Load(mem, slab.page + 4064, 8) == |slab.free|
    ensures Load(mem, slab.page + 4072, 8) == slab.page && Load(mem, slab.page + 4080, 8) == slab.free[0]
  {
    hide Bytes, Load, Holds;
    WordIs(mem, slab.page + 4056, 0);
    WordIs(mem, slab.page + 4064, |slab.free|);
    WordIs(mem, slab.page + 4072, slab.page);
    WordIs(mem, slab.page + 4080, slab.free[0]);
  }

  lemma LinkWord(m: seq<Byte>, page: nat, size: nat, max: nat, d: nat, j: nat)
    requires d <= j < max && |m| <= WORD_LIMIT && Threaded(m, Objects(page, size, d, max - d))
    requires j + 1 < max ==> ObjectAt(page, size, j + 1) < WORD_LIMIT
    ensures ObjectAt(page, size, j) + 8 <= |m| && Load(m, ObjectAt(page, size, j), 8) == if j + 1 < max then ObjectAt(page, size, j + 1) else 0
  {
    hide Bytes, Load, Holds;
    var free := Objects(page, size, d, max - d);
    assert free[j - d] == ObjectAt(page, size, j);
    assert At(free, j - d + 1) == if j + 1 < max then ObjectAt(page, size, j + 1) else 0;
    WordIs(m, ObjectAt(page, size, j), At(free, j - d + 1));
  }

  lemma LastIsTail(mem: seq<Byte>, page: nat, size: nat, max: nat, d: nat)
    requires Fits(size, max, d) && d < max && page + PAGE_SIZE <= |mem| <= WORD_LIMIT
    ensures Load(CreatedBytes(mem, page, size, max, d), page + 4088, 8) == ObjectAt(page, size, max - 1)
  {
    hide Write, Bytes, Capacity, SlabBytes, Holds, Load;
    var before := ObjectsBytes(SlabBytes(mem, page, max), page, size, max, d, max - 1);
    var a := ObjectAt(page, size, max - 1);
    ObjectFits(page, size, max, max - 1);
    var linked := if max - 1 == d then Write(Write(before, a + 8, Bytes(max - 1, 2)), page + 4080, Bytes(a, 8))
                  else Write(Write(before, a + 8, Bytes(max - 1, 2)), ObjectAt(page, size, max - 2), Bytes(a, 8));
    assert CreatedBytes(mem, page, size, max, d) == Write(linked, page + 4088, Bytes(a, 8));
    StoredAt(linked, page + 4088, Bytes(a, 8));
    WordIs(Write(linked, page + 4088, Bytes(a, 8)), page + 4088, a);
  }
}

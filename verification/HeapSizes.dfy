/** The size arithmetic of malloc.c: rounding to powers of two by smearing bits, and the tables
    between sizes and cache indices. */
module HeapSizes {
  import opened Words

  const UINT32_LIMIT: nat := 0x1_0000_0000

  /** `x | x >> m`. */
  function Smear(x: nat, m: nat): (n: nat)
  {
    BitOr(x, Shr(x, m))
  }

  /** next_power_of_two, in 32-bit arithmetic. */
  function NextPowerOfTwo(n: nat): (v: nat)
  {
    if n <= 16 then 16
    else (Smear(Smear(Smear(Smear(Smear(n - 1, 1), 2), 4), 8), 16) + 1) % UINT32_LIMIT
  }

  /** The top m of the k bits of x are ones. */
  ghost predicate TopOnes(x: nat, k: nat, m: nat)
  {
    m <= k && Shr(x, k - m) == Pow2(m) - 1
  }

  lemma {:induction false} OrOnes(z: nat, d: nat)
    ensures BitOr(z, Pow2(d) - 1) == Shl(Shr(z, d), d) + Pow2(d) - 1
    decreases d
  {
    hide BitOr;
    if d == 0 {
      OrZero(z);
    } else {
      OrOnes(z / 2, d - 1);
      OrStep(z % 2, z / 2, 1, Pow2(d - 1) - 1);
      assert Pow2(d) - 1 == 1 + 2 * (Pow2(d - 1) - 1);
    }
  }

  lemma OrZero(z: nat)
    ensures BitOr(z, 0) == z
  {
  }

  lemma {:induction false} OnesAbove(m: nat, d: nat)
    ensures Shl(Pow2(m) - 1, d) + Pow2(d) - 1 == Pow2(m + d) - 1
    decreases d
  {
    if d > 0 { OnesAbove(m, d - 1); }
  }

  lemma {:induction false} TopOnesLess(x: nat, k: nat, m: nat, d: nat)
    requires TopOnes(x, k, m) && d <= m
    ensures TopOnes(x, k, d)
    decreases m
  {
    if d < m {
      ShrShr(x, k - m, 1);
      assert Shr(Shr(x, k - m), 1) == Shr(x, k - m) / 2;
      TopOnesLess(x, k, m - 1, d);
    }
  }

  /** One smear doubles the run of leading ones, up to the whole width. */
  lemma SmearDoubles(x: nat, k: nat, m: nat)
    requires TopOnes(x, k, m)
    ensures TopOnes(Smear(x, m), k, if 2 * m <= k then 2 * m else k)
  {
    hide Shr, Shl, Pow2, BitOr;
    var d := if 2 * m <= k then m else k - m;
    var j := k - m - d;
    var z := Shr(x, j);
    OrSplit(x, Shr(x, m), j);
    ShrShr(x, m, j);
    TopOnesLess(x, k, m, d);
    assert Shr(x, m + j) == Pow2(d) - 1;
    ShrShr(x, j, d);
    assert Shr(z, d) == Pow2(m) - 1;
    OrOnes(z, d);
    OnesAbove(m, d);
  }

  /** A number with highest bit k-1 has one leading one. */
  lemma {:induction false} HighestBit(x: nat, k: nat)
    requires 0 < k && Pow2(k - 1) <= x < Pow2(k)
    ensures TopOnes(x, k, 1)
    decreases k
  {
    if k > 1 { HighestBit(x / 2, k - 1); }
  }

  lemma {:induction false} WidthOf(x: nat) returns (k: nat)
    requires x > 0
    ensures k > 0 && Pow2(k - 1) <= x < Pow2(k)
  {
    if x == 1 {
      k := 1;
      assert Pow2(0) == 1;
    } else {
      k := WidthOf(x / 2);
      k := k + 1;
    }
  }

  lemma SmearAll(x: nat, k: nat) returns (y: nat)
    requires 0 < k <= 32 && TopOnes(x, k, 1)
    ensures y == Smear(Smear(Smear(Smear(Smear(x, 1), 2), 4), 8), 16) == Pow2(k) - 1
  {
    var m := 1;
    y := x;
    SmearMore(y, k, 1); y := Smear(y, 1);
    SmearMore(y, k, 2); y := Smear(y, 2);
    SmearMore(y, k, 4); y := Smear(y, 4);
    SmearMore(y, k, 8); y := Smear(y, 8);
    SmearMore(y, k, 16); y := Smear(y, 16);
  }

  /** Smearing by m, whether m ones are there or all k bits are ones already. */
  lemma SmearMore(x: nat, k: nat, m: nat)
    requires m > 0 && TopOnes(x, k, if m <= k then m else k)
    ensures TopOnes(Smear(x, m), k, if 2 * m <= k then 2 * m else k)
  {
    if m <= k {
      SmearDoubles(x, k, m);
    } else {
      assert Shr(x, 0) == x == Pow2(k) - 1;
      Pow2Bound(k, m);
      LowOfSmall(x, m);
      assert BitOr(x, 0) == x;
    }
  }

  /** next_power_of_two yields the least power of two at or above its argument, from 16 on; above
      2^31 the result wraps to 0. */
  lemma NextPowerOfTwoIs(n: nat) returns (k: nat)
    requires n < UINT32_LIMIT
    ensures n <= 16 ==> k == 4
    ensures n > 16 ==> 0 < k <= 32 && Pow2(k - 1) < n <= Pow2(k)
    ensures NextPowerOfTwo(n) == if k == 32 then 0 else Pow2(k)
  {
    if n <= 16 {
      k := 4;
      PowersOfTwo();
    } else {
      k := WidthOf(n - 1);
      WidthBound(n - 1, k);
      SmearedWidth(n, k);
    }
  }

  lemma WidthBound(x: nat, k: nat)
    requires x < UINT32_LIMIT && k > 0 && Pow2(k - 1) <= x
    ensures k <= 32
  {
    hide Pow2;
    Pow2Word();
    if k > 32 { Pow2Bound(32, k - 1); }
  }

  lemma SmearedWidth(n: nat, k: nat)
    requires n > 16 && 0 < k <= 32 && Pow2(k - 1) <= n - 1 < Pow2(k)
    ensures NextPowerOfTwo(n) == if k == 32 then 0 else Pow2(k)
  {
    hide Smear, Pow2;
    HighestBit(n - 1, k);
    var y := SmearAll(n - 1, k);
    Wrapped(k);
  }

  lemma Wrapped(k: nat)
    requires k <= 32
    ensures Pow2(k) % UINT32_LIMIT == if k == 32 then 0 else Pow2(k)
  {
    hide Pow2;
    Pow2Word();
    if k < 32 {
      Pow2Mono(k, 32);
      SmallMod(Pow2(k), UINT32_LIMIT);
    }
  }

  lemma PowersOfTwo()
    ensures Pow2(4) == 16 && Pow2(5) == 32 && Pow2(6) == 64 && Pow2(7) == 128 && Pow2(8) == 256 && Pow2(9) == 512
  {
    assert Pow2(2) == 4;
  }

  // ---------------------------------------------------------------- the size of a request

  const PAGE_SHIFT: nat := 12
  const PAGE: nat := 4096

  /** sizeof(malloc_metadata_t). */
  const METADATA: nat := 2

  /** The number of slab caches, and the object size of the largest. */
  const CLASSES: nat := 6
  const LARGEST: nat := 512

  lemma PageIsPow2()
    ensures Pow2(PAGE_SHIFT) == PAGE
  {
    PowersOfTwo();
    Pow2Sum(6, 6);
  }

  function RoundAllocSize(size: Word): (n: nat)
  {
    PageIsPow2();
    if size <= LARGEST then NextPowerOfTwo(size) else AlignUp(size, PAGE_SHIFT)
  }

  /** size_to_slab_cache_index; -1 for a size without a cache. */
  function SizeToIndex(size: nat): (n: int)
  {
    match size
    case 16 => 0
    case 32 => 1
    case 64 => 2
    case 128 => 3
    case 256 => 4
    case 512 => 5
    case _ => -1
  }

  /** slab_cache_index_to_size; -1 for an index without a cache. */
  function IndexToSize(index: nat): (n: int)
  {
    match index
    case 0 => 16
    case 1 => 32
    case 2 => 64
    case 3 => 128
    case 4 => 256
    case 5 => 512
    case _ => -1
  }

  /** The object size of class c. */
  function ClassSize(c: nat): (size: nat)
    requires c < CLASSES
    ensures size > 0 && size as int == IndexToSize(c) && SizeToIndex(size) == c
  {
    if c == 0 then 16 else if c == 1 then 32 else if c == 2 then 64 else if c == 3 then 128 else if c == 4 then 256 else 512
  }

  /** Who serves a request: slab cache c, n whole pages, or nobody. */
  datatype Service = Slab(c: nat) | Pages(n: nat) | Refused

  /** The bytes that a service hands out. */
  function Room(s: Service): (v: nat)
    requires s.Slab? ==> s.c < CLASSES
  {
    match s
    case Slab(c) => ClassSize(c)
    case Pages(n) => n * PAGE
    case Refused => 0
  }

  /** The decision of malloc for a size, with the wrap-around of `size + sizeof(malloc_metadata_t)`. */
  function ServiceFor(size: Word): (s: Service)
    ensures s.Slab? ==> s.c < CLASSES
  {
    var rounded := RoundAllocSize((size + METADATA) % WORD_LIMIT);
    if rounded <= LARGEST then
      if SizeToIndex(rounded) == -1 then Refused else Slab(SizeToIndex(rounded))
    else Pages(rounded / PAGE)
  }

  /** The smallest class that holds a small request. */
  lemma RoundSmall(size: Word) returns (c: nat)
    requires size <= LARGEST
    ensures c < CLASSES && RoundAllocSize(size) == ClassSize(c) && size <= ClassSize(c)
    ensures c > 0 ==> ClassSize(c - 1) < size
  {
    var k := NextPowerOfTwoIs(size);
    PowersOfTwo();
    if k > 9 { hide Pow2; Pow2Bound(9, k - 1); }
    if k < 4 { hide Pow2; Pow2Bound(k, 4); }
    c := k - 4;
    assert k == 4 || k == 5 || k == 6 || k == 7 || k == 8 || k == 9;
    hide Pow2;
  }

  /** Whole pages, or 0 when the rounding wraps. */
  lemma RoundLarge(size: Word)
    requires size > LARGEST
    ensures size + PAGE - 1 < WORD_LIMIT ==> RoundAllocSize(size) == (size + PAGE - 1) / PAGE * PAGE
    ensures size + PAGE - 1 >= WORD_LIMIT ==> RoundAllocSize(size) == 0
  {
    PageIsPow2();
    hide Pow2, NextPowerOfTwo;
    if size + PAGE - 1 < WORD_LIMIT {
      AlignUpDiv(size, PAGE_SHIFT, PAGE);
    } else {
      AlignUpWraps(size, PAGE_SHIFT, PAGE);
    }
  }

  /** The service of every request: the smallest class that holds header and bytes up to 512 in all;
      above that the least number of whole pages; nobody when the rounding wraps. */
  lemma ServiceIs(size: Word)
    ensures size + METADATA <= LARGEST ==>
              var s := ServiceFor(size);
              s.Slab? && size + METADATA <= Room(s) && (s.c > 0 ==> ClassSize(s.c - 1) < size + METADATA)
    ensures LARGEST < size + METADATA <= WORD_LIMIT - PAGE ==>
              ServiceFor(size) == Pages((size + METADATA + PAGE - 1) / PAGE)
    ensures WORD_LIMIT - PAGE < size + METADATA < WORD_LIMIT ==> ServiceFor(size) == Refused
    ensures WORD_LIMIT <= size + METADATA ==> ServiceFor(size) == Slab(0)
  {
    hide RoundAllocSize;
    var total := size + METADATA;
    if total <= LARGEST {
      SmallMod(total, WORD_LIMIT);
      var c := RoundSmall(total);
    } else if total < WORD_LIMIT {
      SmallMod(total, WORD_LIMIT);
      RoundLarge(total);
      if total <= WORD_LIMIT - PAGE {
        PageQuotient(total);
      }
    } else {
      AddMultiple(1, total - WORD_LIMIT, WORD_LIMIT);
      SmallMod(total - WORD_LIMIT, WORD_LIMIT);
      var c := RoundSmall(total - WORD_LIMIT);
    }
  }

  lemma PageQuotient(total: nat)
    requires total > 0
    ensures var n := (total + PAGE - 1) / PAGE; n > 0 && n * PAGE / PAGE == n && total <= n * PAGE < total + PAGE
  {
  }

  /** A request fits what serves it exactly when adding the header does not wrap. */
  lemma FitsIffNoWrap(size: Word)
    requires !ServiceFor(size).Refused?
    ensures size + METADATA <= Room(ServiceFor(size)) <==> size + METADATA < WORD_LIMIT
  {
    hide ServiceFor;
    ServiceIs(size);
    if LARGEST < size + METADATA <= WORD_LIMIT - PAGE { PageQuotient(size + METADATA); }
  }

  /** The object sizes of the caches. */
  lemma ClassSizes()
    ensures CLASSES == 6
    ensures ClassSize(0) == 16 && ClassSize(1) == 32 && ClassSize(2) == 64 && ClassSize(3) == 128 && ClassSize(4) == 256 && ClassSize(5) == 512
  {
  }

  /** Who serves which size: with its header of two bytes a request of up to 14 bytes goes to the cache of 16, and so on by
      doubling up to 510 bytes; larger ones to whole pages; the last 4095 sizes that do not wrap are refused; and the
      two that wrap to 0 and 1 get 16 bytes. */
  lemma ServiceTable(size: Word)
    ensures size <= 14 ==> ServiceFor(size) == Slab(0)
    ensures 15 <= size <= 30 ==> ServiceFor(size) == Slab(1)
    ensures 31 <= size <= 62 ==> ServiceFor(size) == Slab(2)
    ensures 63 <= size <= 126 ==> ServiceFor(size) == Slab(3)
    ensures 127 <= size <= 254 ==> ServiceFor(size) == Slab(4)
    ensures 255 <= size <= 510 ==> ServiceFor(size) == Slab(5)
    ensures 511 <= size <= 0xFFFF_FFFF_FFFF_EFFE ==> ServiceFor(size) == Pages((size + 4097) / 4096)
    ensures 0xFFFF_FFFF_FFFF_EFFF <= size <= 0xFFFF_FFFF_FFFF_FFFD ==> ServiceFor(size) == Refused
    ensures 0xFFFF_FFFF_FFFF_FFFE <= size ==> ServiceFor(size) == Slab(0)
  {
    hide ServiceFor;
    ServiceIs(size);
    if size <= 510 {
      var s := ServiceFor(size);
      ClassSizes();
      assert s.c < 6;
    }
  }
}

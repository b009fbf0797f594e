/** The physical page allocator of pmm.c over the byte bitmap, and its set-up from the boot
    memory map. */
module Pmms {
  import opened Words
  import opened Bitmaps
  import opened PmmSpec

  const USABLE: nat := 1
  const BOOTLOADER_RECLAIMABLE: nat := 0x1000
  const KERNEL_AND_MODULES: nat := 0x1001

  /** Physical memory ends below 2^43: bitmap.c takes bit numbers as int. */
  const MAX_TOP: nat := 0x800_0000_0000

  datatype MmapEntry = MmapEntry(base: nat, length: nat, kind: nat)

  predicate Tracked(e: MmapEntry)
  {
    e.kind == USABLE || e.kind == BOOTLOADER_RECLAIMABLE || e.kind == KERNEL_AND_MODULES
  }

  /** highest_page_top after the first loop of pmm_init over the first n entries. */
  function Top(m: seq<MmapEntry>): (r: nat)
    ensures forall e :: e in m && Tracked(e) ==> e.base + e.length <= r
  {
    if m == [] then 0
    else
      var e, r := m[|m| - 1], Top(m[..|m| - 1]);
      if Tracked(e) && e.base + e.length > r then e.base + e.length else r
  }

  /** Every usable, bootloader-reclaimable or kernel entry (types 1, 0x1000 and 0x1001 of stivale2) ends
      at or below the top, and the top is the end of one of them, or 0 when there is none. */
  ghost predicate HighestEnd(m: seq<MmapEntry>, top: nat)
  {
    && (forall i :: 0 <= i < |m| && (m[i].kind == 1 || m[i].kind == 0x1000 || m[i].kind == 0x1001) ==> m[i].base + m[i].length <= top)
    && (top == 0
        || exists i :: 0 <= i < |m| && (m[i].kind == 1 || m[i].kind == 0x1000 || m[i].kind == 0x1001) && m[i].base + m[i].length == top)
  }

  lemma {:induction false} TopIs(m: seq<MmapEntry>)
    ensures HighestEnd(m, Top(m))
    ensures forall i :: 0 <= i < |m| && (m[i].kind == 1 || m[i].kind == 0x1000 || m[i].kind == 0x1001) ==> m[i].base + m[i].length <= Top(m)
    ensures Top(m) == 0
            || exists i :: 0 <= i < |m| && (m[i].kind == 1 || m[i].kind == 0x1000 || m[i].kind == 0x1001) && m[i].base + m[i].length == Top(m)
  {
    if m != [] {
      var n := |m| - 1;
      TopIs(m[..n]);
      assert forall i :: 0 <= i < n ==> m[..n][i] == m[i];
    }
  }

  /** pmm_bitmap.size: ALIGN_UP(ALIGN_DOWN(top, 4096) / 4096 / 8, 4096). */
  function BitmapSize(top: nat): (r: nat)
    ensures r % PAGE_SIZE == 0
  {
    (top / PAGE_SIZE / 8 + (PAGE_SIZE - 1)) / PAGE_SIZE * PAGE_SIZE
  }

  /** The size in the operators of mem.h. */
  lemma BitmapSizeIs(top: Word)
    ensures Pow2(12) <= WORD_LIMIT && AlignDown(top, 12) / PAGE_SIZE / 8 < WORD_LIMIT
    ensures BitmapSize(top) == AlignUp(AlignDown(top, 12) / PAGE_SIZE / 8, 12)
  {
    hide AlignDown, AlignUp, Pow2;
    PageShift();
    PagesBelow(top, 12);
    AlignUpDiv(top / PAGE_SIZE / 8, 12, PAGE_SIZE);
  }

  lemma PagesBelow(top: Word, k: nat)
    requires k <= 64 && Pow2(k) == PAGE_SIZE <= WORD_LIMIT
    ensures AlignDown(top, k) / PAGE_SIZE == top / PAGE_SIZE
  {
    hide AlignDown, Shr, Shl, Pow2;
    AlignDownIs(top, k);
    ShiftArithmetic(top, k);
    ShiftArithmetic(top / PAGE_SIZE, k);
    DivModUnique(AlignDown(top, k), PAGE_SIZE, top / PAGE_SIZE, 0);
  }

  lemma PageShift()
    ensures Pow2(12) == PAGE_SIZE
  {
  }

  /** The bitmap has a bit for every page below the top exactly when the page count is a multiple
      of 8, or its eighth is not a multiple of 4096: the size is rounded down before it is
      rounded up. */
  lemma BitmapCovers(top: nat)
    ensures top / PAGE_SIZE <= 8 * BitmapSize(top)
            <==> (top / PAGE_SIZE) % 8 == 0 || (top / PAGE_SIZE / 8) % PAGE_SIZE != 0
  {
    var pages := top / PAGE_SIZE;
    var q := pages / 8;
    assert BitmapSize(top) == (q + 4095) / 4096 * 4096;
  }

  /** Page p lies in entry e. */
  predicate InEntry(e: MmapEntry, p: nat)
  {
    e.base <= p * PAGE_SIZE < e.base + e.length
  }

  predicate InUsable(m: seq<MmapEntry>, p: nat)
  {
    exists i :: 0 <= i < |m| && m[i].kind == USABLE && InEntry(m[i], p)
  }

  /** Usable entries are those of type 1. */
  lemma UsableIs(m: seq<MmapEntry>, p: nat)
    ensures InUsable(m, p) <==> exists i :: 0 <= i < |m| && m[i].kind == 1 && m[i].base <= 4096 * p < m[i].base + m[i].length
  {
    if InUsable(m, p) { var i :| 0 <= i < |m| && m[i].kind == USABLE && InEntry(m[i], p); }
    if i :| 0 <= i < |m| && m[i].kind == 1 && m[i].base <= 4096 * p < m[i].base + m[i].length { assert InEntry(m[i], p); }
  }

  /** The first usable entry that can hold `size` bytes, or |m|. */
  function Host(m: seq<MmapEntry>, size: nat, from: nat): (r: nat)
    requires from <= |m|
    ensures from <= r <= |m|
    ensures r < |m| ==> m[r].kind == USABLE && m[r].length >= size
    ensures forall i :: from <= i < r ==> m[i].kind != USABLE || m[i].length < size
    decreases |m| - from
  {
    if from == |m| || (m[from].kind == USABLE && m[from].length >= size) then from
    else Host(m, size, from + 1)
  }

  /** Entry h is the first of type 1 that is at least `size` long. */
  predicate IsHost(m: seq<MmapEntry>, size: nat, h: nat)
  {
    && h < |m| && m[h].kind == 1 && m[h].length >= size
    && forall i :: 0 <= i < h ==> m[i].kind != 1 || m[i].length < size
  }

  /** What the boot protocol promises about the entries that the loops use: page-aligned, below
      MAX_TOP, usable ones disjoint; and there is at least one page of memory. */
  predicate WfMap(m: seq<MmapEntry>)
  {
    && (forall i :: 0 <= i < |m| && Tracked(m[i]) ==> PageAligned(m[i]) && m[i].base + m[i].length <= MAX_TOP)
    && (forall i, j :: 0 <= i < j < |m| && m[i].kind == USABLE && m[j].kind == USABLE ==> Apart(m[i], m[j]))
    && Top(m) >= PAGE_SIZE
  }

  predicate Apart(a: MmapEntry, b: MmapEntry)
  {
    a.base + a.length <= b.base || b.base + b.length <= a.base
  }

  /** The bitmap's own pages. */
  predicate InBitmap(m: seq<MmapEntry>, size: nat, p: nat)
  {
    var h := Host(m, size, 0);
    h < |m| && m[h].base <= p * PAGE_SIZE < m[h].base + size
  }

  /** The memory map after the bitmap was put at the start of its host entry. */
  function Hosted(m: seq<MmapEntry>, size: nat): (r: seq<MmapEntry>)
    requires Host(m, size, 0) < |m|
    ensures |r| == |m|
  {
    var h := Host(m, size, 0);
    m[h := MmapEntry(m[h].base + size, m[h].length - size, m[h].kind)]
  }

  predicate PageAligned(e: MmapEntry)
  {
    e.base % PAGE_SIZE == 0 && e.length % PAGE_SIZE == 0
  }

  ghost predicate UsableWf(m: seq<MmapEntry>, top: nat)
  {
    && (forall i :: 0 <= i < |m| && m[i].kind == USABLE ==> PageAligned(m[i]) && m[i].base + m[i].length <= top)
    && (forall i, j :: 0 <= i < j < |m| && m[i].kind == USABLE && m[j].kind == USABLE ==> Apart(m[i], m[j]))
  }

  lemma {:induction false} TopIsAligned(m: seq<MmapEntry>)
    requires forall i :: 0 <= i < |m| && Tracked(m[i]) ==> PageAligned(m[i])
    ensures Top(m) % PAGE_SIZE == 0
  {
    if m != [] { TopIsAligned(m[..|m| - 1]); }
  }

  lemma {:induction false} TopIsBounded(m: seq<MmapEntry>, limit: nat)
    requires forall i :: 0 <= i < |m| && Tracked(m[i]) ==> m[i].base + m[i].length <= limit
    ensures Top(m) <= limit
  {
    if m != [] { TopIsBounded(m[..|m| - 1], limit); }
  }

  lemma MapIsUsableWf(m: seq<MmapEntry>)
    requires WfMap(m)
    ensures UsableWf(m, Top(m))
  {
    forall i | 0 <= i < |m| && m[i].kind == USABLE
      ensures PageAligned(m[i]) && m[i].base + m[i].length <= Top(m)
    {
      assert m[i] in m && Tracked(m[i]);
    }
  }

  /** Taking `size` bytes off the start of a usable entry removes exactly their pages from the
      usable ones, because the usable entries do not overlap. */
  lemma ShrinkUsable(m: seq<MmapEntry>, h: nat, size: nat, top: nat, p: nat)
    requires UsableWf(m, top)
    requires h < |m| && m[h].kind == USABLE && size <= m[h].length
    ensures var r := m[h := MmapEntry(m[h].base + size, m[h].length - size, m[h].kind)];
            InUsable(r, p) == (InUsable(m, p) && !(m[h].base <= p * PAGE_SIZE < m[h].base + size))
  {
    var r := m[h := MmapEntry(m[h].base + size, m[h].length - size, m[h].kind)];
    if InUsable(r, p) {
      var i :| 0 <= i < |r| && r[i].kind == USABLE && InEntry(r[i], p);
      assert InEntry(m[i], p);
      if i < h { assert Apart(m[i], m[h]); } else if h < i { assert Apart(m[h], m[i]); }
    }
    if InUsable(m, p) && !(m[h].base <= p * PAGE_SIZE < m[h].base + size) {
      var i :| 0 <= i < |m| && m[i].kind == USABLE && InEntry(m[i], p);
      assert InEntry(r[i], p);
    }
  }

  /** The shrunk entry keeps the usable entries page-aligned, disjoint and in range. */
  lemma ShrinkWf(m: seq<MmapEntry>, h: nat, size: nat, top: nat)
    requires UsableWf(m, top) && size % PAGE_SIZE == 0
    requires h < |m| && m[h].kind == USABLE && size <= m[h].length
    ensures UsableWf(m[h := MmapEntry(m[h].base + size, m[h].length - size, m[h].kind)], top)
  {
    var e := MmapEntry(m[h].base + size, m[h].length - size, m[h].kind);
    assert PageAligned(m[h]);
    assert PageAligned(e);
  }

  /** The usable pages of the shrunk map are those of the boot map without the bitmap's own. */
  lemma HostedUsable(m: seq<MmapEntry>, size: nat, top: nat)
    requires UsableWf(m, top) && size % PAGE_SIZE == 0 && Host(m, size, 0) < |m|
    ensures UsableWf(Hosted(m, size), top)
    ensures forall p: nat :: InUsable(Hosted(m, size), p) == (InUsable(m, p) && !InBitmap(m, size, p))
  {
    var h := Host(m, size, 0);
    ShrinkWf(m, h, size, top);
    forall p: nat ensures InUsable(Hosted(m, size), p) == (InUsable(m, p) && !InBitmap(m, size, p)) {
      ShrinkUsable(m, h, size, top, p);
    }
  }

  /** State during the third loop: the pages of the first i usable entries are free. */
  ghost predicate FreedUpTo(s: State, m: seq<MmapEntry>, i: nat)
    requires i <= |m|
  {
    && 0 < s.pages <= |s.bits|
    && (forall p: nat :: p < |s.bits| ==> s.bits[p] == !InUsable(m[..i], p))
    && s.used + |FreePages(s)| == 1024 * s.pages
  }

  lemma NothingFreed(s: State, m: seq<MmapEntry>)
    requires 0 < s.pages <= |s.bits| && s.used == 1024 * s.pages && forall p :: 0 <= p < |s.bits| ==> s.bits[p]
    ensures FreedUpTo(s, m, 0)
  {
    assert FreePages(s) == {};
  }

  lemma InUsableStep(m: seq<MmapEntry>, i: nat, p: nat)
    requires i < |m|
    ensures InUsable(m[..i + 1], p) == (InUsable(m[..i], p) || (m[i].kind == USABLE && InEntry(m[i], p)))
  {
    if InUsable(m[..i + 1], p) {
      var j :| 0 <= j < i + 1 && m[..i + 1][j].kind == USABLE && InEntry(m[..i + 1][j], p);
      if j < i { assert m[..i][j] == m[j]; }
    }
    if InUsable(m[..i], p) {
      var j :| 0 <= j < i && m[..i][j].kind == USABLE && InEntry(m[..i][j], p);
      assert m[..i + 1][j] == m[j];
    }
    if m[i].kind == USABLE && InEntry(m[i], p) {
      assert m[..i + 1][i] == m[i];
    }
  }

  /** Freeing usable entry i: its pages were all used, so the balance is kept. */
  lemma FreeEntry(s: State, m: seq<MmapEntry>, top: nat, i: nat)
    requires i < |m| && UsableWf(m, top) && s.pages == top / PAGE_SIZE
    requires FreedUpTo(s, m, i) && m[i].kind == USABLE
    ensures var index, n := m[i].base / PAGE_SIZE, m[i].length / PAGE_SIZE;
            index + n <= s.pages && n <= s.used && FreedUpTo(PmmSpec.Free(s, index, n), m, i + 1)
  {
    var index, n := m[i].base / PAGE_SIZE, m[i].length / PAGE_SIZE;
    assert PageAligned(m[i]);
    forall p: nat ensures InEntry(m[i], p) <==> index <= p < index + n { }
    forall p: nat | p < |s.bits|
      ensures InUsable(m[..i + 1], p) == (InUsable(m[..i], p) || index <= p < index + n)
      ensures index <= p < index + n ==> !InUsable(m[..i], p)
    {
      InUsableStep(m, i, p);
      if InUsable(m[..i], p) {
        var j :| 0 <= j < i && m[..i][j].kind == USABLE && InEntry(m[..i][j], p);
        assert Apart(m[j], m[i]);
      }
    }
    FreeUsedRange(s, index, n);
  }

  lemma FreeUsedRange(s: State, index: nat, n: nat)
    requires index + n <= s.pages <= |s.bits| && s.pages > 0
    requires s.used + |FreePages(s)| == 1024 * s.pages
    requires Range(index, n) !! FreePages(s)
    ensures n <= s.used
    ensures var t := PmmSpec.Free(s, index, n);
            t.used + |FreePages(t)| == 1024 * s.pages
  {
    var all := FreePages(s) + Range(index, n);
    assert |all| == |FreePages(s)| + n by { RangeSize(index, n); }
    assert |all| <= s.pages by {
      RangeSize(0, s.pages);
      SubsetSize(all, Range(0, s.pages));
    }
    FreeMany(s, index, n);
  }

  /** Setting bit 0 takes page 0 out of the free pages. */
  lemma ReserveFirst(s: State)
    requires 0 < s.pages <= |s.bits| && s.used + |FreePages(s)| == 1024 * s.pages
    ensures var t := s.(bits := s.bits[0 := true]);
            Wf(t) && t.used + |FreePages(t)| in {1024 * s.pages, 1024 * s.pages - 1}
  {
    var t := s.(bits := s.bits[0 := true]);
    assert FreePages(t) == FreePages(s) - {0};
  }

  /** What pmm_init needs of the boot map: a usable entry that can hold the bitmap, and a bitmap
      that covers every page. */
  predicate Bootable(m: seq<MmapEntry>)
  {
    && WfMap(m)
    && Host(m, BitmapSize(Top(m)), 0) < |m|
    && Top(m) / PAGE_SIZE <= 8 * BitmapSize(Top(m))
  }

  /** The free pages after pmm_init. */
  ghost predicate InitialBits(bits: seq<bool>, m: seq<MmapEntry>, size: nat)
  {
    forall p: nat :: p < |bits| ==> bits[p] == !(InUsable(m, p) && p != 0 && !InBitmap(m, size, p))
  }

  lemma BootFacts(m: seq<MmapEntry>)
    requires Bootable(m)
    ensures Top(m) % PAGE_SIZE == 0 && PAGE_SIZE <= Top(m) <= MAX_TOP
    ensures Top(m) * 1024 / PAGE_SIZE == 1024 * (Top(m) / PAGE_SIZE)
    ensures UsableWf(Hosted(m, BitmapSize(Top(m))), Top(m))
  {
    TopIsAligned(m);
    TopIsBounded(m, MAX_TOP);
    MapIsUsableWf(m);
    HostedUsable(m, BitmapSize(Top(m)), Top(m));
  }

  /** After the third loop, reserving page 0 yields the initial bits and the invariant. */
  lemma InitDone(s: State, m: seq<MmapEntry>, size: nat)
    requires Bootable(m) && size == BitmapSize(Top(m))
    requires FreedUpTo(s, Hosted(m, size), |m|)
    ensures var t := s.(bits := s.bits[0 := true]);
            && InitialBits(t.bits, m, size) && Wf(t)
            && t.used + |FreePages(t)| in {1024 * s.pages, 1024 * s.pages - 1}
  {
    MapIsUsableWf(m);
    HostedUsable(m, size, Top(m));
    assert Hosted(m, size)[..|m|] == Hosted(m, size);
    ReserveFirst(s);
  }

  /** One step of the scan. */
  lemma NoHitYet(bits: seq<bool>, pages: nat, n: nat, b: nat)
    ensures FirstHit(bits, pages, n, b) == if b >= pages then pages else if ScanHit(bits, b, n) then b else FirstHit(bits, pages, n, b + 1)
    ensures n == 0 ==> !ScanHit(bits, b, n)
  {
  }

  /** A page is free exactly when it lies in an entry of type 1, is not page 0 and is none of the pages
      at the start of entry h that hold the bitmap. */
  ghost predicate FreeExactly(bits: seq<bool>, m: seq<MmapEntry>, size: nat, h: nat)
    requires h < |m|
  {
    forall p: nat :: p < |bits| ==>
      (!bits[p] <==>
        && p != 0 && !(m[h].base <= 4096 * p < m[h].base + size)
        && exists i :: 0 <= i < |m| && m[i].kind == 1 && m[i].base <= 4096 * p < m[i].base + m[i].length)
  }

  lemma InitialBitsAre(bits: seq<bool>, m: seq<MmapEntry>, size: nat)
    requires InitialBits(bits, m, size) && Host(m, size, 0) < |m|
    ensures IsHost(m, size, Host(m, size, 0)) && FreeExactly(bits, m, size, Host(m, size, 0))
  {
    hide InUsable;
    forall p: nat | p < |bits|
      ensures !bits[p] <==>
                && p != 0 && !(m[Host(m, size, 0)].base <= 4096 * p < m[Host(m, size, 0)].base + size)
                && exists i :: 0 <= i < |m| && m[i].kind == 1 && m[i].base <= 4096 * p < m[i].base + m[i].length
    {
      UsableIs(m, p);
    }
  }

  class Pmm {
    const bitmap: Bitmap
    var highestPageTop: nat
    var usedPagesCount: nat

    ghost function Pages(): (n: nat)
      reads this
    {
      highestPageTop / PAGE_SIZE
    }

    ghost function St(): (r: State)
      reads this, bitmap.bytes
    {
      State(bitmap.Bits(), Pages(), usedPagesCount)
    }

    ghost predicate Valid()
      reads this, bitmap.bytes
    {
      Wf(St()) && highestPageTop <= MAX_TOP
    }

    /** pmm_init. Afterwards a page is free exactly when it lies in a usable entry of the boot map,
        is not page 0 and does not hold the bitmap; every bit above the top stays set. The counter
        holds 1024 per page (a byte count was converted as if it were kilobytes) minus the pages
        that were freed. */
    constructor (memoryMap: array<MmapEntry>)
      requires Bootable(memoryMap[..])
      modifies memoryMap
      ensures Valid() && fresh(bitmap) && fresh(bitmap.bytes)
      ensures highestPageTop == Top(old(memoryMap[..]))
      ensures highestPageTop > 0 && HighestEnd(old(memoryMap[..]), highestPageTop)
      ensures bitmap.bytes.Length == BitmapSize(highestPageTop)
      ensures exists h: nat :: IsHost(old(memoryMap[..]), bitmap.bytes.Length, h)
                && FreeExactly(St().bits, old(memoryMap[..]), bitmap.bytes.Length, h)
      ensures usedPagesCount + |FreePages(St())| in {1024 * Pages(), 1024 * Pages() - 1}
    {
      hide AlignUp, AlignDown, Pow2, BitmapSize, Top, InUsable, InBitmap, InitialBits, FreedUpTo, FreePages, Hosted,
        FreeExactly, HighestEnd, Host, IsHost;
      ghost var m := memoryMap[..];
      var top := FindTop(memoryMap);
      BootFacts(m);
      TopIs(m);
      BitmapSizeIs(top);
      var size := AlignUp(AlignDown(top, 12) / PAGE_SIZE / 8, 12);
      HostBitmap(memoryMap, size);
      bitmap := new Bitmap(size);
      highestPageTop := top;
      usedPagesCount := top * 1024 / PAGE_SIZE;
      new;
      NothingFreed(St(), memoryMap[..]);
      FreeUsable(memoryMap);
      InitDone(St(), m, size);
      bitmap.SetBit(0);
      InitialBitsAre(St().bits, m, size);
    }

    /** The first loop of pmm_init. */
    static method FindTop(memoryMap: array<MmapEntry>) returns (top: nat)
      ensures top == Top(memoryMap[..])
      ensures HighestEnd(memoryMap[..], top)
    {
      TopIs(memoryMap[..]);
      top := 0;
      for i := 0 to memoryMap.Length
        invariant top == Top(memoryMap[..i])
      {
        assert memoryMap[..i + 1][..i] == memoryMap[..i];
        var e := memoryMap[i];
        if e.kind != USABLE && e.kind != BOOTLOADER_RECLAIMABLE && e.kind != KERNEL_AND_MODULES {
          continue;
        }
        var currentPageTop := e.base + e.length;
        if currentPageTop > top {
          top := currentPageTop;
        }
      }
      assert memoryMap[..memoryMap.Length] == memoryMap[..];
    }

    /** The second loop of pmm_init: shrink the first usable entry that can hold the bitmap. */
    static method HostBitmap(memoryMap: array<MmapEntry>, size: nat)
      requires Host(memoryMap[..], size, 0) < memoryMap.Length
      modifies memoryMap
      ensures memoryMap[..] == Hosted(old(memoryMap[..]), size)
    {
      ghost var m := memoryMap[..];
      var i := 0;
      while i < memoryMap.Length
        invariant 0 <= i <= memoryMap.Length
        invariant memoryMap[..] == m
        invariant Host(m, size, 0) == Host(m, size, i)
      {
        var e := memoryMap[i];
        if e.kind == USABLE && e.length >= size {
          memoryMap[i] := MmapEntry(e.base + size, e.length - size, e.kind);
          return;
        }
        i := i + 1;
      }
    }

    /** The third loop of pmm_init: free every usable entry of the shrunk map. */
    method FreeUsable(memoryMap: array<MmapEntry>)
      requires UsableWf(memoryMap[..], highestPageTop)
      requires FreedUpTo(St(), memoryMap[..], 0)
      modifies this`usedPagesCount, bitmap.bytes
      ensures FreedUpTo(St(), memoryMap[..], memoryMap.Length)
      ensures |bitmap.Bits()| == old(|bitmap.Bits()|)
    {
      ghost var m := memoryMap[..];
      for i := 0 to memoryMap.Length
        invariant memoryMap[..] == m && |bitmap.Bits()| == old(|bitmap.Bits()|)
        invariant FreedUpTo(St(), m, i)
      {
        var e := memoryMap[i];
        if e.kind == USABLE {
          FreeEntry(St(), m, highestPageTop, i);
          Free(e.base, e.length / PAGE_SIZE);
        } else {
          forall p: nat ensures InUsable(m[..i + 1], p) == InUsable(m[..i], p) {
            InUsableStep(m, i, p);
          }
        }
      }
    }

    /** pmm_free. */
    method Free(pointer: nat, pageCount: nat)
      requires pointer / PAGE_SIZE + pageCount <= |bitmap.Bits()| && pageCount <= usedPagesCount
      modifies this`usedPagesCount, bitmap.bytes
      ensures St() == PmmSpec.Free(old(St()), pointer / PAGE_SIZE, pageCount)
    {
      var index := pointer / PAGE_SIZE;
      for i := 0 to pageCount
        invariant usedPagesCount == old(usedPagesCount)
        invariant bitmap.Bits() == Mark(old(bitmap.Bits()), index, i, false)
      {
        bitmap.UnsetBit(index + i);
      }
      usedPagesCount := usedPagesCount - pageCount;
    }

    /** pmm_alloc: the address of the claimed range, or 0. */
    method Alloc(pageCount: nat) returns (pointer: nat)
      requires Valid()
      requires Pages() + pageCount <= |bitmap.Bits()| + 1
      modifies this`usedPagesCount, bitmap.bytes
      ensures (St(), pointer) == PmmSpec.Alloc(old(St()), pageCount)
    {
      hide FirstHit;
      if usedPagesCount <= 0 {
        return 0;
      }
      pointer := FindFirstFreePageRange(pageCount);
      if pointer == 0 {
        return;
      }
      var index := pointer / PAGE_SIZE;
      for i := 0 to pageCount
        invariant usedPagesCount == old(usedPagesCount)
        invariant bitmap.Bits() == Mark(old(bitmap.Bits()), index, i, true)
      {
        bitmap.SetBit(index + i);
      }
      usedPagesCount := usedPagesCount + pageCount;
      return index * PAGE_SIZE;
    }

    /** pmm_find_first_free_page_range, as written. */
    method FindFirstFreePageRange(pageCount: nat) returns (pointer: nat)
      requires Pages() + pageCount <= |bitmap.Bits()| + 1
      ensures var b := FirstHit(bitmap.Bits(), Pages(), pageCount, 0);
              pointer == if b < Pages() then b * PAGE_SIZE else 0
    {
      hide FirstHit, ScanHit;
      var allBits := 0;
      while allBits < highestPageTop / PAGE_SIZE
        invariant FirstHit(bitmap.Bits(), Pages(), pageCount, 0) == FirstHit(bitmap.Bits(), Pages(), pageCount, allBits)
        invariant allBits <= Pages()
      {
        NoHitYet(bitmap.Bits(), Pages(), pageCount, allBits);
        var i := 0;
        while i < pageCount
          invariant i == pageCount ==> pageCount == 0 || !ScanHit(bitmap.Bits(), allBits, pageCount)
          invariant i <= pageCount
          invariant i > 0 ==> ScanHit(bitmap.Bits(), allBits, i)
        {
          ScanStep(bitmap.Bits(), allBits, i, pageCount);
          var bit := bitmap.CheckBit(allBits + i / PAGE_SIZE);
          if bit != 0 {
            break;
          }
          if i == pageCount - 1 {
            return allBits * PAGE_SIZE;
          }
          i := i + 1;
        }
        allBits := allBits + 1;
      }
      NoHitYet(bitmap.Bits(), Pages(), pageCount, allBits);
      return 0;
    }
  }
}

/** vmm.c: the virtual memory manager, changing tables in memory and taking frames from the
    physical allocator. Every method is tied to the function that PageMap, PageRange and
    BootWindows reason about. */
module Vmms {
  import opened Words
  import PmmSpec
  import opened Pmms
  import opened PageTables
  import opened PageTree
  import opened PageMap
  import opened PageRange
  import opened BootWindows
  import opened Layout

  /** The pages that a range loop runs over: from the page of start up to the page after the last
      byte below end; none when the range is empty or rounding the end up wraps. */
  function RangePages(start: Word, end: Word): (n: nat)
    ensures start / 4096 + n <= 0x10_0000_0000_0000
  {
    if end + 4095 < WORD_LIMIT && start / 4096 < (end + 4095) / 4096 then (end + 4095) / 4096 - start / 4096 else 0
  }

  /** A range loop runs over page q if and only if q is not below the page of start and begins below end,
      and rounding the end up does not wrap. */
  lemma RangePagesAre(start: Word, end: Word, q: nat)
    ensures start / 4096 <= q < start / 4096 + RangePages(start, end)
            <==> end <= 0xFFFF_FFFF_FFFF_F000 && start / 4096 <= q && 4096 * q < end
  {
  }

  /** The lengths of the memory map entries in pages. */
  function Sizes(lengths: seq<Word>): (s: seq<nat>)
    ensures |s| == |lengths| && forall k :: 0 <= k < |s| ==> s[k] == RangePages(0, lengths[k]) <= 0x10_0000_0000_0000
  {
    seq(|lengths|, k requires 0 <= k < |lengths| => RangePages(0, lengths[k]))
  }

  lemma NoEntries(m: Machine, root: nat, lengths: seq<Word>)
    ensures MapEntries(m, root, Sizes(lengths[..0])) == m
  {
  }

  lemma OneMoreEntry(m: Machine, root: nat, lengths: seq<Word>, i: nat)
    requires i < |lengths|
    ensures MapEntries(m, root, Sizes(lengths[..i + 1]))
            == MapPages(MapEntries(m, root, Sizes(lengths[..i])), root, 0, RangePages(0, lengths[i]), HIGHER_HALF_DATA, KERNEL_READ_WRITE, 0)
  {
    hide MapPages, RangePages;
    var s := Sizes(lengths[..i + 1]);
    assert s[..|s| - 1] == Sizes(lengths[..i]);
  }

  class Vmm {
    const pmm: Pmm
    /** Physical memory by frame; HIGHER_HALF_DATA and identity addresses are resolved. */
    var mem: seq<Table>
    /** The frame of root_page_table. */
    var root: nat

    ghost function M(): (r: Machine)
      reads this, pmm, pmm.bitmap.bytes
    {
      Machine(mem, pmm.St())
    }

    ghost predicate Valid()
      reads this, pmm, pmm.bitmap.bytes
    {
      pmm.Valid() && pmm.Pages() <= |mem|
    }

    /** All of RAM, before any table exists. */
    constructor (pmm: Pmm, mem: seq<Table>)
      requires pmm.Valid() && pmm.Pages() <= |mem|
      ensures Valid() && this.pmm == pmm && this.mem == mem
    {
      this.pmm := pmm;
      this.mem := mem;
      root := 0;
    }

    /** pmm_allocz(1): one page, filled with zeros. Without a free page the zeros go to address 0. */
    method Allocz() returns (pointer: nat)
      requires Valid()
      modifies this`mem, pmm`usedPagesCount, pmm.bitmap.bytes
      ensures Valid()
      ensures (pmm.St(), pointer) == PmmSpec.Alloc(old(pmm.St()), 1)
      ensures mem == Zero(old(mem), pointer / 4096)
    {
      PmmSpec.AllocOnePage(pmm.St());
      pointer := pmm.Alloc(1);
      mem := Zero(mem, pointer / 4096);
    }

    /** vmm_get_or_create_pml. */
    method GetOrCreatePml(pml: nat, index: nat, flags: Word) returns (next: nat)
      requires Valid()
      modifies this`mem, pmm`usedPagesCount, pmm.bitmap.bytes
      ensures Valid()
      ensures (M(), next) == GetOrCreate(old(M()), pml, index, flags)
    {
      if !Present(Load(mem, pml, index)) {
        var pointer := Allocz();
        mem := Store(mem, pml, index, OrWord(Pointer(pointer), flags));
      }
      next := NextTable(Load(mem, pml, index)) / 4096;
    }

    /** vmm_set_pt_value; the TLB flush has no effect in this model. */
    method SetPtValue(pageTable: nat, virt: Word, value: Word, flags: Word, pat: nat)
      requires Valid()
      modifies this`mem, pmm`usedPagesCount, pmm.bitmap.bytes
      ensures Valid()
      ensures M() == PageMap.SetPtValue(old(M()), pageTable, virt, value, flags, pat)
    {
      hide GetOrCreate;
      var pdpt := GetOrCreatePml(pageTable, PmlIndex(virt, 39), flags);
      var pd := GetOrCreatePml(pdpt, PmlIndex(virt, 30), flags);
      var pt := GetOrCreatePml(pd, PmlIndex(virt, 21), flags);
      mem := Store(mem, pt, PmlIndex(virt, 12), OrWord(OrWord(value, flags), PatFlags(pat)));
    }

    /** vmm_map_page. */
    method MapPage(pageTable: nat, phys: Word, virt: Word, flags: Word, pat: nat)
      requires Valid()
      modifies this`mem, pmm`usedPagesCount, pmm.bitmap.bytes
      ensures Valid()
      ensures M() == Map(old(M()), pageTable, phys, virt, flags, pat)
    {
      hide PageMap.SetPtValue, PageAddress;
      SetPtValue(pageTable, PageAddress(virt), phys, flags, pat);
    }

    /** vmm_unmap_page. */
    method UnmapPage(pageTable: nat, virt: Word)
      requires Valid()
      modifies this`mem, pmm`usedPagesCount, pmm.bitmap.bytes
      ensures Valid()
      ensures M() == Unmap(old(M()), pageTable, virt)
    {
      hide PageMap.SetPtValue, PageAddress;
      SetPtValue(pageTable, PageAddress(virt), 0, 0, 0);
    }

    /** vmm_map_range. */
    method MapRange(pageTable: nat, start: Word, end: Word, offset: Word, flags: Word, pat: nat)
      requires Valid()
      modifies this`mem, pmm`usedPagesCount, pmm.bitmap.bytes
      ensures Valid()
      ensures M() == MapPages(old(M()), pageTable, start / 4096, RangePages(start, end), offset, flags, pat)
    {
      hide *;
      ghost var p0 := start / 4096;
      PageBounds(start, end);
      var i, top := AlignDown(start, 12), AlignUp(end, 12);
      ghost var n := 0;
      NoPages(M(), pageTable, p0, offset, flags, pat);
      while i < top
        invariant Valid()
        invariant n <= RangePages(start, end) && i == 4096 * (p0 + n)
        invariant M() == MapPages(old(M()), pageTable, p0, n, offset, flags, pat)
      {
        OneMorePage(old(M()), pageTable, p0, n, offset, flags, pat, i);
        MapPage(pageTable, i, Plus(i, offset), flags, pat);
        i := i + 4096;
        n := n + 1;
      }
    }

    /** vmm_unmap_range. */
    method UnmapRange(pageTable: nat, start: Word, end: Word)
      requires Valid()
      modifies this`mem, pmm`usedPagesCount, pmm.bitmap.bytes
      ensures Valid()
      ensures M() == UnmapPages(old(M()), pageTable, start / 4096, RangePages(start, end))
    {
      hide *;
      ghost var p0 := start / 4096;
      PageBounds(start, end);
      var i, top := AlignDown(start, 12), AlignUp(end, 12);
      ghost var n := 0;
      NoPagesOff(M(), pageTable, p0);
      while i < top
        invariant Valid()
        invariant n <= RangePages(start, end) && i == 4096 * (p0 + n)
        invariant M() == UnmapPages(old(M()), pageTable, p0, n)
      {
        OneMorePageOff(old(M()), pageTable, p0, n, i);
        UnmapPage(pageTable, i);
        i := i + 4096;
        n := n + 1;
      }
    }

    /** vmm_init, from the root table to the memory map entries. */
    method Init(lengths: seq<Word>)
      requires Valid()
      modifies this, pmm`usedPagesCount, pmm.bitmap.bytes
      ensures Valid()
      ensures var (m, r) := NewRoot(old(mem), old(pmm.St()));
              root == r && M() == MapEntries(MapWindows(m, r), r, Sizes(lengths))
    {
      hide MapPages, Map, Unmap, GetOrCreate, PmmSpec.Alloc, Zero, Sizes, MapEntries;
      var pointer := Allocz();
      root := pointer / 4096;
      ghost var r, m := root, M();
      MapRange(root, 0, 0x1_0000_0000, 0, KERNEL_READ_WRITE, 0);
      MapRange(root, 0, 0x1_0000_0000, HIGHER_HALF_DATA, KERNEL_READ_WRITE, 0);
      MapRange(root, 0, 0x1_0000_0000, HEAP_START_ADDR, KERNEL_READ_WRITE, 0);
      MapRange(root, 0, 0x8000_0000, HIGHER_HALF_CODE, KERNEL_READ, 0);
      ghost var w := M();
      assert w == MapWindows(m, r);
      NoEntries(w, r, lengths);
      for i := 0 to |lengths|
        invariant Valid() && root == r
        invariant M() == MapEntries(w, r, Sizes(lengths[..i]))
      {
        OneMoreEntry(w, r, lengths, i);
        MapRange(root, 0, lengths[i], HIGHER_HALF_DATA, KERNEL_READ_WRITE, 0);
      }
      assert lengths[..|lengths|] == lengths;
    }

    static lemma NoPages(m: Machine, root: nat, p0: nat, offset: Word, flags: Word, pat: nat)
      requires p0 <= 0x10_0000_0000_0000
      ensures MapPages(m, root, p0, 0, offset, flags, pat) == m
    {
    }

    static lemma OneMorePage(m: Machine, root: nat, p0: nat, n: nat, offset: Word, flags: Word, pat: nat, i: nat)
      requires p0 + n < 0x10_0000_0000_0000 && i == 4096 * (p0 + n)
      ensures i < WORD_LIMIT
      ensures MapPages(m, root, p0, n + 1, offset, flags, pat)
           == Map(MapPages(m, root, p0, n, offset, flags, pat), root, i, Plus(i, offset), flags, pat)
    {
      assert Plus(i, offset) == Shifted(p0 + n, offset);
      hide Map, Shifted, Plus;
    }

    /** Addition of addresses. */
    static function Plus(a: Word, b: Word): (n: Word)
    {
      (a + b) % WORD_LIMIT
    }

    static lemma NoPagesOff(m: Machine, root: nat, p0: nat)
      requires p0 <= 0x10_0000_0000_0000
      ensures UnmapPages(m, root, p0, 0) == m
    {
    }

    static lemma OneMorePageOff(m: Machine, root: nat, p0: nat, n: nat, i: nat)
      requires p0 + n < 0x10_0000_0000_0000 && i == 4096 * (p0 + n)
      ensures i < WORD_LIMIT
      ensures UnmapPages(m, root, p0, n + 1) == Unmap(UnmapPages(m, root, p0, n), root, i)
    {
      hide Unmap;
    }

    /** Where the loops over a range start and stop. */
    static lemma PageBounds(start: Word, end: Word)
      ensures Pow2(12) <= WORD_LIMIT && start / 4096 < 0x10_0000_0000_0000
      ensures AlignDown(start, 12) == 4096 * (start / 4096)
      ensures var n := RangePages(start, end);
              if n == 0 then AlignUp(end, 12) <= AlignDown(start, 12) else AlignUp(end, 12) == 4096 * (start / 4096 + n)
    {
      assert Pow2(12) == 4096;
      PageAlignDown(start);
      if end + 4095 < WORD_LIMIT {
        PageAlignUp(end);
      } else {
        AlignUpWraps(end, 12, 4096);
      }
    }
  }
}

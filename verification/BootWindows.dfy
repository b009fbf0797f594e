/** The address space that vmm_init builds: four windows onto physical memory, and the memory map
    entries once more in the first higher-half window. */
module BootWindows {
  import opened Words
  import opened PmmSpec
  import opened PageTables
  import opened PageTree
  import opened PageMap
  import opened PageRange
  import opened Layout

  const KERNEL_READ: Word := 1
  const KERNEL_READ_WRITE: Word := 3

  /** Page numbers of the windows, and the first page of the root slot that holds the code window. */
  const DATA_PAGE: nat := 0x8_0000_0000
  const HEAP_PAGE: nat := 0x9_0000_0000
  const CODE_PAGE: nat := 0xF_FFF8_0000
  const CODE_SLOT: nat := 0xF_F800_0000

  /** 4 GiB and 2 GiB in pages. */
  const PAGES_4G: nat := 0x10_0000
  const PAGES_2G: nat := 0x8_0000

  lemma WindowPages()
    ensures VPage(Shifted(0, 0)) == 0
    ensures VPage(Shifted(0, HIGHER_HALF_DATA)) == DATA_PAGE
    ensures VPage(Shifted(0, HEAP_START_ADDR)) == HEAP_PAGE
    ensures VPage(Shifted(0, HIGHER_HALF_CODE)) == CODE_PAGE
  {
  }

  /** The fresh root table of vmm_init. */
  function NewRoot(mem: seq<Table>, pmm: State): (r: (Machine, nat))
  {
    var (pmm', ptr) := Alloc(pmm, 1);
    (Machine(Zero(mem, ptr / 4096), pmm'), ptr / 4096)
  }

  function MapWindows(m: Machine, root: nat): (r: Machine)
  {
    var m1 := MapPages(m, root, 0, PAGES_4G, 0, KERNEL_READ_WRITE, 0);
    var m2 := MapPages(m1, root, 0, PAGES_4G, HIGHER_HALF_DATA, KERNEL_READ_WRITE, 0);
    var m3 := MapPages(m2, root, 0, PAGES_4G, HEAP_START_ADDR, KERNEL_READ_WRITE, 0);
    MapPages(m3, root, 0, PAGES_2G, HIGHER_HALF_CODE, KERNEL_READ, 0)
  }

  /** The last loop of vmm_init; sizes[k] is the length of memory map entry k in pages, rounded up. */
  function MapEntries(m: Machine, root: nat, sizes: seq<nat>): (r: Machine)
    requires forall k :: 0 <= k < |sizes| ==> sizes[k] <= 0x10_0000_0000_0000
  {
    if sizes == [] then m
    else
      MapPages(MapEntries(m, root, sizes[..|sizes| - 1]), root, 0, sizes[|sizes| - 1], HIGHER_HALF_DATA, KERNEL_READ_WRITE, 0)
  }

  /** How many pages the higher-half data window covers in the end. */
  function Extent(sizes: seq<nat>): (r: nat)
    ensures r >= PAGES_4G
    ensures forall k :: 0 <= k < |sizes| ==> sizes[k] <= r
    ensures r == PAGES_4G || exists k :: 0 <= k < |sizes| && sizes[k] == r
  {
    if sizes == [] then PAGES_4G
    else
      var e := Extent(sizes[..|sizes| - 1]);
      if sizes[|sizes| - 1] > e then sizes[|sizes| - 1] else e
  }

  function ReadWrite(p: nat): (r: Translation) { Page(p, KERNEL_READ_WRITE, true, false) }
  function ReadOnly(p: nat): (r: Translation) { Page(p, KERNEL_READ, false, false) }

  /** The walk of every page of the address space after vmm_init. */
  function BootView(u: nat, extent: nat): (r: Translation)
  {
    if u < PAGES_4G then ReadWrite(u)
    else if DATA_PAGE <= u < DATA_PAGE + extent then ReadWrite(u - DATA_PAGE)
    else if HEAP_PAGE <= u < HEAP_PAGE + PAGES_4G then ReadWrite(u - HEAP_PAGE)
    else if CODE_PAGE <= u then ReadOnly(u - CODE_PAGE)
    else Fault
  }

  /** Frames that are enough for the whole of vmm_init. */
  function EntriesBound(sizes: seq<nat>): (n: nat)
  {
    if sizes == [] then 0 else EntriesBound(sizes[..|sizes| - 1]) + CostBound(sizes[|sizes| - 1])
  }

  const WINDOWS_BOUND: nat := 3 * CostBound(PAGES_4G) + CostBound(PAGES_2G)

  // ---------------------------------------------------------------- the empty tree

  lemma {:induction false} EmptyTree(mem: seq<Table>, root: nat, n: Node)
    requires ValidNode(n) && n.level < 4 && (forall i: nat :: Load(mem, root, i) == 0)
    ensures TableAt(mem, root, n) == None
    decreases 4 - n.level
  {
    ParentIsValid(n);
    if n.level < 3 { EmptyTree(mem, root, Parent(n)); }
  }

  lemma {:induction false} EmptyRights(mem: seq<Table>, root: nat, u: nat, l: nat)
    requires u < VPAGES && 1 <= l && (forall i: nat :: Load(mem, root, i) == 0)
    ensures Rights(mem, root, u, l) == (true, true)
    decreases 4 - l
  {
    if l < 4 {
      EmptyRights(mem, root, u, l + 1);
      OnIsValid(u, l + 1);
      if l < 3 { EmptyTree(mem, root, On(u, l + 1)); }
    }
  }

  /** What pmm_init leaves to vmm_init. */
  ghost predicate Bootable(mem: seq<Table>, pmm: State)
  {
    Wf(pmm) && pmm.pages <= |mem| && pmm.pages <= 0x100_0000_0000
  }

  lemma NewRootIsTree(mem: seq<Table>, pmm: State)
    requires Bootable(mem, pmm) && FreePages(pmm) != {}
    ensures var (m, root) := NewRoot(mem, pmm);
            && Inv(m, root) && |FreePages(m.pmm)| == |FreePages(pmm)| - 1
            && forall u: nat :: u < VPAGES ==> Rights(m.mem, root, u, 1) == (true, true) && Walk(m.mem, root, u) == Fault
  {
    AllocOnePage(pmm);
    var (pmm', ptr) := Alloc(pmm, 1);
    assert ClaimedPage(pmm, pmm', ptr);
    var (m, root) := NewRoot(mem, pmm);
    assert root in FreePages(pmm);
    forall n: Node, t: nat ensures Reach(m.mem, root, n, t) ==> n == Node(4, 0) && t == root {
      if ValidNode(n) && n.level < 4 { EmptyTree(m.mem, root, n); }
    }
    forall u: nat | u < VPAGES
      ensures Rights(m.mem, root, u, 1) == (true, true) && Walk(m.mem, root, u) == Fault
    {
      EmptyRights(m.mem, root, u, 1);
    }
  }

  // ---------------------------------------------------------------- the windows

  /** Pages below the code slot still allow read-write mappings. */
  ghost predicate AllowsBelowCode(m: Machine, root: nat)
  {
    forall u: nat :: u < CODE_SLOT ==> Allows(m.mem, root, u, KERNEL_READ_WRITE)
  }

  /** One more window: a range effect with the frames it is sure to find. */
  lemma Window(m: Machine, root: nat, n: nat, offset: Word, v0: nat) returns (m': Machine)
    requires Inv(m, root) && v0 == VPage(Shifted(0, offset)) && v0 + n <= CODE_SLOT && n > 0
    requires AllowsBelowCode(m, root) && CostBound(n) <= |FreePages(m.pmm)|
    ensures n <= 0x10_0000_0000_0000 && m' == MapPages(m, root, 0, n, offset, KERNEL_READ_WRITE, 0)
    ensures Inv(m', root) && |FreePages(m'.pmm)| >= |FreePages(m.pmm)| - CostBound(n)
    ensures AllowsBelowCode(m', root)
    ensures forall u: nat :: u < VPAGES ==>
      Walk(m'.mem, root, u) == if v0 <= u < v0 + n then ReadWrite(u - v0) else Walk(m.mem, root, u)
  {
    hide TableAt, Rights, WalkFrom, Map, VPage, Shifted, RangeCost, CostBound, MapPages;
    m' := MapPages(m, root, 0, n, offset, KERNEL_READ_WRITE, 0);
    RangeCostBound(m.mem, root, v0, n);
    MapRangeEffect(m, root, 0, n, offset, KERNEL_READ_WRITE, 0);
    WindowWalks(m, m', root, v0, n);
    WindowRights(m, m', root, v0, n);
  }

  lemma WindowWalks(m: Machine, m': Machine, root: nat, v0: nat, n: nat)
    requires WalksEffect(m, m', root, 0, v0, n, KERNEL_READ_WRITE, 0)
    ensures forall u: nat :: u < VPAGES ==>
      Walk(m'.mem, root, u) == if v0 <= u < v0 + n then ReadWrite(u - v0) else Walk(m.mem, root, u)
  {
    assert OrWord(KERNEL_READ_WRITE, PatFlags(0)) == KERNEL_READ_WRITE;
  }

  lemma WindowRights(m: Machine, m': Machine, root: nat, v0: nat, n: nat)
    requires RightsEffect(m, m', root, v0, n, KERNEL_READ_WRITE) && AllowsBelowCode(m, root)
    ensures AllowsBelowCode(m', root)
  {
    forall u: nat | u < CODE_SLOT ensures Allows(m'.mem, root, u, KERNEL_READ_WRITE) {
      assert Allows(m.mem, root, u, KERNEL_READ_WRITE);
      assert Restricted(Rights(m.mem, root, u, 1), Rights(m'.mem, root, u, 1), KERNEL_READ_WRITE);
    }
  }

  /** The code window is read-only, and its slot of the root table is its own: the rights of all
      other slots are untouched. */
  lemma CodeWindow(m: Machine, root: nat) returns (m': Machine)
    requires Inv(m, root) && AllowsBelowCode(m, root) && CostBound(PAGES_2G) <= |FreePages(m.pmm)|
    ensures m' == MapPages(m, root, 0, PAGES_2G, HIGHER_HALF_CODE, KERNEL_READ, 0)
    ensures Inv(m', root) && |FreePages(m'.pmm)| >= |FreePages(m.pmm)| - CostBound(PAGES_2G)
    ensures AllowsBelowCode(m', root)
    ensures forall u: nat :: u < VPAGES ==>
      Walk(m'.mem, root, u) == if CODE_PAGE <= u then ReadOnly(u - CODE_PAGE) else Walk(m.mem, root, u)
  {
    hide TableAt, Rights, WalkFrom, Map, VPage, Shifted, RangeCost, CostBound, MapPages, Key;
    m' := MapPages(m, root, 0, PAGES_2G, HIGHER_HALF_CODE, KERNEL_READ, 0);
    WindowPages();
    RangeCostBound(m.mem, root, CODE_PAGE, PAGES_2G);
    MapRangeEffect(m, root, 0, PAGES_2G, HIGHER_HALF_CODE, KERNEL_READ, 0);
    CodeWalks(m, m', root);
    CodeRights(m, m', root);
  }

  lemma CodeWalks(m: Machine, m': Machine, root: nat)
    requires WalksEffect(m, m', root, 0, CODE_PAGE, PAGES_2G, KERNEL_READ, 0)
    ensures forall u: nat :: u < VPAGES ==>
      Walk(m'.mem, root, u) == if CODE_PAGE <= u then ReadOnly(u - CODE_PAGE) else Walk(m.mem, root, u)
  {
    assert OrWord(KERNEL_READ, PatFlags(0)) == KERNEL_READ;
  }

  lemma CodeRights(m: Machine, m': Machine, root: nat)
    requires RightsEffect(m, m', root, CODE_PAGE, PAGES_2G, KERNEL_READ) && AllowsBelowCode(m, root)
    ensures AllowsBelowCode(m', root)
  {
    hide TableAt, Rights, Key;
    forall u: nat | u < CODE_SLOT ensures Allows(m'.mem, root, u, KERNEL_READ_WRITE) {
      assert Allows(m.mem, root, u, KERNEL_READ_WRITE);
      KeyIsDiv(u);
      KeyIsDiv(CODE_PAGE);
    }
  }

  /** The state after some of the entries were mapped: the walk of every page is known. */
  ghost predicate Booted(m: Machine, root: nat, extent: nat)
  {
    && Inv(m, root) && AllowsBelowCode(m, root)
    && forall u: nat :: u < VPAGES ==> Walk(m.mem, root, u) == BootView(u, extent)
  }

  lemma WindowsBooted(m: Machine, root: nat)
    requires Inv(m, root) && WINDOWS_BOUND <= |FreePages(m.pmm)|
    requires forall u: nat :: u < VPAGES ==> Rights(m.mem, root, u, 1) == (true, true) && Walk(m.mem, root, u) == Fault
    ensures var m' := MapWindows(m, root);
            Booted(m', root, PAGES_4G) && |FreePages(m'.pmm)| >= |FreePages(m.pmm)| - WINDOWS_BOUND
  {
    hide TableAt, Rights, WalkFrom, Map, VPage, Shifted, MapPages, CostBound, Inv;
    WindowPages();
    assert AllowsBelowCode(m, root);
    var m1 := Window(m, root, PAGES_4G, 0, 0);
    var m2 := Window(m1, root, PAGES_4G, HIGHER_HALF_DATA, DATA_PAGE);
    var m3 := Window(m2, root, PAGES_4G, HEAP_START_ADDR, HEAP_PAGE);
    var m4 := CodeWindow(m3, root);
  }

  /** Mapping the memory map entries widens the data window to the largest entry. */
  lemma {:induction false} EntriesBooted(m: Machine, root: nat, sizes: seq<nat>)
    requires Booted(m, root, PAGES_4G) && (forall k :: 0 <= k < |sizes| ==> sizes[k] <= CODE_SLOT - DATA_PAGE)
    requires EntriesBound(sizes) <= |FreePages(m.pmm)|
    ensures var m' := MapEntries(m, root, sizes);
            Booted(m', root, Extent(sizes)) && |FreePages(m'.pmm)| >= |FreePages(m.pmm)| - EntriesBound(sizes)
  {
    hide TableAt, Rights, WalkFrom, Map, VPage, Shifted, MapPages, CostBound, Inv, AllowsBelowCode;
    if sizes != [] {
      var n := sizes[|sizes| - 1];
      var before := sizes[..|sizes| - 1];
      EntriesBooted(m, root, before);
      WindowPages();
      var m1 := MapEntries(m, root, before);
      if n > 0 {
        var m2 := Window(m1, root, n, HIGHER_HALF_DATA, DATA_PAGE);
        Widen(m1, m2, root, Extent(before), n);
      } else {
        NoPages(m1, root);
      }
    }
  }

  lemma NoPages(m: Machine, root: nat)
    ensures MapPages(m, root, 0, 0, HIGHER_HALF_DATA, KERNEL_READ_WRITE, 0) == m
  {
  }

  lemma Widen(m1: Machine, m2: Machine, root: nat, extent: nat, n: nat)
    requires extent >= PAGES_4G && n <= CODE_SLOT - DATA_PAGE
    requires forall u: nat :: u < VPAGES ==> Walk(m1.mem, root, u) == BootView(u, extent)
    requires forall u: nat :: u < VPAGES ==>
      Walk(m2.mem, root, u) == if DATA_PAGE <= u < DATA_PAGE + n then ReadWrite(u - DATA_PAGE) else Walk(m1.mem, root, u)
    ensures forall u: nat :: u < VPAGES ==> Walk(m2.mem, root, u) == BootView(u, if n > extent then n else extent)
  {
    hide WalkFrom;
  }

  /** vmm_init: with enough free frames the walk of every page of the address space is known
      afterwards, including its effective rights. */
  lemma InitIsBooted(mem: seq<Table>, pmm: State, sizes: seq<nat>)
    requires Bootable(mem, pmm) && (forall k :: 0 <= k < |sizes| ==> sizes[k] <= CODE_SLOT - DATA_PAGE)
    requires 1 + WINDOWS_BOUND + EntriesBound(sizes) <= |FreePages(pmm)|
    ensures var (m, root) := NewRoot(mem, pmm);
            Booted(MapEntries(MapWindows(m, root), root, sizes), root, Extent(sizes))
  {
    hide *;
    assert FreePages(pmm) != {};
    NewRootIsTree(mem, pmm);
    var (m, root) := NewRoot(mem, pmm);
    WindowsBooted(m, root);
    EntriesBooted(MapWindows(m, root), root, sizes);
  }

  /** Page p below 4 GiB is reached read-write from p and from the data window, and below 2 GiB
      read-only from the code window, whatever the memory map holds. */
  lemma Windows(m: Machine, root: nat, extent: nat, p: nat)
    requires Booted(m, root, extent) && extent >= PAGES_4G && p < PAGES_4G
    requires extent <= CODE_SLOT - DATA_PAGE
    ensures Walk(m.mem, root, p) == ReadWrite(p)
    ensures Walk(m.mem, root, DATA_PAGE + p) == ReadWrite(p)
    ensures p < PAGES_2G ==> Walk(m.mem, root, CODE_PAGE + p) == ReadOnly(p)
  {
    hide Walk, Booted;
    BootedWalk(m, root, extent, p);
    BootedWalk(m, root, extent, DATA_PAGE + p);
    if p < PAGES_2G { BootedWalk(m, root, extent, CODE_PAGE + p); }
  }

  /** The heap window is intact exactly when no memory map entry is longer than 2^44 bytes: a longer
      one is mapped across it. */
  lemma HeapWindowIffEntriesFit(m: Machine, root: nat, sizes: seq<nat>)
    requires Booted(m, root, Extent(sizes))
    ensures (forall p: nat :: p < PAGES_4G ==> Walk(m.mem, root, HEAP_PAGE + p) == ReadWrite(p))
            <==> (forall k :: 0 <= k < |sizes| ==> sizes[k] <= 0x1_0000_0000)
  {
    hide Walk, Booted;
    var e := Extent(sizes);
    if e > 0x1_0000_0000 {
      BootedWalk(m, root, e, HEAP_PAGE + 0);
      assert Walk(m.mem, root, HEAP_PAGE + 0) != ReadWrite(0);
    } else {
      forall p: nat | p < PAGES_4G ensures Walk(m.mem, root, HEAP_PAGE + p) == ReadWrite(p) {
        BootedWalk(m, root, e, HEAP_PAGE + p);
      }
    }
  }

  lemma BootedWalk(m: Machine, root: nat, extent: nat, u: nat)
    requires Booted(m, root, extent) && u < VPAGES
    ensures Walk(m.mem, root, u) == BootView(u, extent)
  {
  }

  /** The frame of a heap address in an intact heap window is the physical one: the pointer that
      malloc returns and the pointer that free computes from it name the same byte. */
  lemma HeapPointerNamesFrame(m: Machine, root: nat, sizes: seq<nat>, a: nat)
    requires Booted(m, root, Extent(sizes)) && (forall k :: 0 <= k < |sizes| ==> sizes[k] <= 0x1_0000_0000)
    requires a < 4096 * PAGES_4G
    ensures Walk(m.mem, root, VPage(HEAP_START_ADDR + a)) == ReadWrite(a / 4096)
    ensures (HEAP_START_ADDR + a) % 4096 == a % 4096
  {
    hide Walk, Booted, VPage;
    HeapVPage(a);
    BootedWalk(m, root, Extent(sizes), HEAP_PAGE + a / 4096);
  }

  lemma HeapVPage(a: nat)
    requires a < 4096 * PAGES_4G
    ensures VPage(HEAP_START_ADDR + a) == HEAP_PAGE + a / 4096 && (HEAP_START_ADDR + a) % 4096 == a % 4096
  {
    AddMultiple(0xF_FFF9_0000_0000, a, 4096);
    assert a / 4096 < PAGES_4G;
    AddMultiple(0xFFFF, HEAP_PAGE + a / 4096, VPAGES);
    SmallMod(HEAP_PAGE + a / 4096, VPAGES);
  }

  // ---------------------------------------------------------------- by address

  /** The page of an address a bytes above a window that starts at page v. */
  lemma PageAbove(base: Word, v: nat, a: nat)
    requires base % 4096 == 0 && base / 4096 == 0xFFFF * VPAGES + v && v + a / 4096 < VPAGES && base + a < WORD_LIMIT
    ensures VPage(base + a) == v + a / 4096
  {
    AddMultiple(base / 4096, a, 4096);
    assert base == base / 4096 * 4096;
    AddMultiple(0xFFFF, v + a / 4096, VPAGES);
    SmallMod(v + a / 4096, VPAGES);
  }

  lemma LowPage(a: nat)
    requires a < 0x1_0000_0000
    ensures VPage(a) == a / 4096 < 0x10_0000
  {
  }

  /** The address space of mem.h: every physical byte below 4 GiB is read and written at its own address,
      in the data window and in the heap window, and below 2 GiB read in the code window; by the kernel
      alone, and uncacheable. */
  lemma WindowAddresses(m: Machine, root: nat, sizes: seq<nat>, a: nat)
    requires Booted(m, root, Extent(sizes)) && (forall k :: 0 <= k < |sizes| ==> sizes[k] <= 0x1_0000_0000) && a < 0x1_0000_0000
    ensures Walk(m.mem, root, VPage(a)) == Page(a / 4096, 3, true, false)
    ensures Walk(m.mem, root, VPage(0xFFFF_8000_0000_0000 + a)) == Page(a / 4096, 3, true, false)
    ensures Walk(m.mem, root, VPage(0xFFFF_9000_0000_0000 + a)) == Page(a / 4096, 3, true, false)
    ensures a < 0x8000_0000 ==> Walk(m.mem, root, VPage(0xFFFF_FFFF_8000_0000 + a)) == Page(a / 4096, 1, false, false)
  {
    hide *;
    PagesOfWindows(a);
    ViewsOfWindows(m, root, sizes, a / 4096);
  }

  lemma PagesOfWindows(a: nat)
    requires a < 0x1_0000_0000
    ensures VPage(a) == a / 4096 < 0x10_0000
    ensures VPage(0xFFFF_8000_0000_0000 + a) == 0x8_0000_0000 + a / 4096
    ensures VPage(0xFFFF_9000_0000_0000 + a) == 0x9_0000_0000 + a / 4096
    ensures a < 0x8000_0000 ==> a / 4096 < 0x8_0000 && VPage(0xFFFF_FFFF_8000_0000 + a) == 0xF_FFF8_0000 + a / 4096
  {
    hide VPage;
    LowPage(a);
    PageAbove(0xFFFF_8000_0000_0000, 0x8_0000_0000, a);
    PageAbove(0xFFFF_9000_0000_0000, 0x9_0000_0000, a);
    if a < 0x8000_0000 { PageAbove(0xFFFF_FFFF_8000_0000, 0xF_FFF8_0000, a); }
  }

  lemma ViewsOfWindows(m: Machine, root: nat, sizes: seq<nat>, p: nat)
    requires Booted(m, root, Extent(sizes)) && (forall k :: 0 <= k < |sizes| ==> sizes[k] <= 0x1_0000_0000) && p < 0x10_0000
    ensures Walk(m.mem, root, p) == Page(p, 3, true, false)
    ensures Walk(m.mem, root, 0x8_0000_0000 + p) == Page(p, 3, true, false)
    ensures Walk(m.mem, root, 0x9_0000_0000 + p) == Page(p, 3, true, false)
    ensures p < 0x8_0000 ==> Walk(m.mem, root, 0xF_FFF8_0000 + p) == Page(p, 1, false, false)
  {
    hide Walk, Booted;
    var e := Extent(sizes);
    BootedWalk(m, root, e, p);
    BootedWalk(m, root, e, 0x8_0000_0000 + p);
    BootedWalk(m, root, e, 0x9_0000_0000 + p);
    if p < 0x8_0000 { BootedWalk(m, root, e, 0xF_FFF8_0000 + p); }
  }

  /** No other page is mapped: a page of the address space that translates lies in the first 4 GiB, in the data
      window up to 4 GiB or the longest entry, in the heap window or in the code window. */
  lemma MappedOnlyThere(m: Machine, root: nat, sizes: seq<nat>, u: nat)
    requires Booted(m, root, Extent(sizes)) && u < VPAGES && Walk(m.mem, root, u) != Fault
    ensures u < 0x10_0000
            || 0x8_0000_0000 <= u < 0x8_0010_0000
            || (0x8_0000_0000 <= u && exists k :: 0 <= k < |sizes| && u < 0x8_0000_0000 + sizes[k])
            || 0x9_0000_0000 <= u < 0x9_0010_0000
            || 0xF_FFF8_0000 <= u
  {
    hide Walk, Booted;
    BootedWalk(m, root, Extent(sizes), u);
    if DATA_PAGE <= u < DATA_PAGE + Extent(sizes) && Extent(sizes) != PAGES_4G {
      var k :| 0 <= k < |sizes| && sizes[k] == Extent(sizes);
    }
  }
}

/** vmm_map_page and vmm_unmap_page as functions on the machine, and their effect on the
    hardware's walk. */
module PageMap {
  import opened Words
  import opened PmmSpec
  import opened PageTables
  import opened PageTree

  /** The frame of a pointer that the allocator returned, as a 64-bit word. */
  function Pointer(p: nat): (n: Word) { p % WORD_LIMIT }

  /** vmm_get_or_create_pml. Tables are page-aligned, so a pointer to one is its frame number. */
  function GetOrCreate(m: Machine, t: nat, index: nat, flags: Word): (r: (Machine, nat))
  {
    if !Present(Load(m.mem, t, index)) then
      var (pmm, ptr) := Alloc(m.pmm, 1);
      var mem := Store(Zero(m.mem, ptr / 4096), t, index, OrWord(Pointer(ptr), flags));
      (Machine(mem, pmm), NextTable(Load(mem, t, index)) / 4096)
    else
      (m, NextTable(Load(m.mem, t, index)) / 4096)
  }

  /** vmm_pat_cache_to_flags over the values of pat_cache_t. */
  function PatFlags(pat: nat): (r: Word)
    ensures r < 256 && !Present(r) && !Writable(r) && !User(r)
  {
    match pat
    case 1 => 8
    case 4 => 128
    case 5 => 136
    case 6 => 144
    case 7 => 152
    case _ => 0
  }

  /** vmm_set_pt_value. */
  function SetPtValue(m: Machine, root: nat, virt: Word, value: Word, flags: Word, pat: nat): (r: Machine)
  {
    var (m1, pdpt) := GetOrCreate(m, root, PmlIndex(virt, 39), flags);
    var (m2, pd) := GetOrCreate(m1, pdpt, PmlIndex(virt, 30), flags);
    var (m3, pt) := GetOrCreate(m2, pd, PmlIndex(virt, 21), flags);
    m3.(mem := Store(m3.mem, pt, PmlIndex(virt, 12), OrWord(OrWord(value, flags), PatFlags(pat))))
  }

  function PageAddress(virt: Word): (n: Word)
  {
    VPageAligned(virt);
    AlignDown(virt, 12)
  }

  /** vmm_map_page. */
  function Map(m: Machine, root: nat, phys: Word, virt: Word, flags: Word, pat: nat): (r: Machine)
  {
    SetPtValue(m, root, PageAddress(virt), phys, flags, pat)
  }

  /** vmm_unmap_page. */
  function Unmap(m: Machine, root: nat, virt: Word): (r: Machine)
  {
    SetPtValue(m, root, PageAddress(virt), 0, 0, 0)
  }

  /** Flags that can stand in entries of every level: PRESENT set, PS clear, below bit 9. */
  predicate MapFlags(f: Word)
  {
    f < 512 && Present(f) && !PageSizeBit(f)
  }

  function Absent(mem: seq<Table>, root: nat, n: Node): (v: nat)
  {
    if TableAt(mem, root, n) == None then 1 else 0
  }

  /** How many tables on the way to vp do not exist yet. */
  function Missing(mem: seq<Table>, root: nat, vp: nat): (n: nat)
  {
    Absent(mem, root, On(vp, 3)) + Absent(mem, root, On(vp, 2)) + Absent(mem, root, On(vp, 1))
  }

  // ---------------------------------------------------------------- one step down, mapping

  predicate Restricted(r: (bool, bool), r': (bool, bool), flags: Word)
  {
    r' == r || r' == (r.0 && Writable(flags), r.1 && User(flags))
  }

  function Both(r: (bool, bool), flags: Word): (next: (bool, bool))
  {
    (r.0 && Writable(flags), r.1 && User(flags))
  }

  /** A page's rights change, to those that the flags allow as well, exactly when the way to it got
      longer. */
  ghost predicate Narrows(mem: seq<Table>, mem': seq<Table>, root: nat, flags: Word)
  {
    forall u: nat :: u < VPAGES ==> NarrowsAt(mem, mem', root, flags, u)
  }

  ghost predicate NarrowsAt(mem: seq<Table>, mem': seq<Table>, root: nat, flags: Word, u: nat)
  {
    && Depth(mem', root, u) <= Depth(mem, root, u)
    && Rights(mem', root, u, 1) ==
         if Depth(mem', root, u) < Depth(mem, root, u) then Both(Rights(mem, root, u, 1), flags) else Rights(mem, root, u, 1)
  }

  lemma NarrowsTwice(a: seq<Table>, b: seq<Table>, c: seq<Table>, root: nat, flags: Word)
    requires Narrows(a, b, root, flags) && Narrows(b, c, root, flags)
    ensures Narrows(a, c, root, flags)
  {
    hide Rights, Depth, Writable, User;
    forall u: nat | u < VPAGES ensures NarrowsAt(a, c, root, flags, u) {
      assert NarrowsAt(a, b, root, flags, u) && NarrowsAt(b, c, root, flags, u);
    }
  }

  /** Same tables and same rights. */
  lemma NarrowsKept(mem: seq<Table>, mem': seq<Table>, root: nat, flags: Word)
    requires KeepsTree(mem, mem', root)
    ensures Narrows(mem, mem', root, flags)
  {
    forall u: nat | u < VPAGES ensures NarrowsAt(mem, mem', root, flags, u) {
      SameDepth(mem, mem', root, u);
      SameRightsAbove(mem, mem', root, u, 1);
      hide *;
    }
  }

  lemma SameDepth(mem: seq<Table>, mem': seq<Table>, root: nat, u: nat)
    requires KeepsTree(mem, mem', root) && u < VPAGES
    ensures Depth(mem', root, u) == Depth(mem, root, u)
  {
    OnIsValid(u, 1); OnIsValid(u, 2); OnIsValid(u, 3);
    SameTables(mem, mem', root, On(u, 1));
    SameTables(mem, mem', root, On(u, 2));
    SameTables(mem, mem', root, On(u, 3));
    hide TableAt, KeepsTree, Key;
  }

  /** Growing the tree towards vp: only places on the way to vp appear, no walk changes, and
      rights are only restricted, by the flags, and only in vp's part of the root table. */
  ghost predicate Grew(m: Machine, m': Machine, root: nat, vp: nat, flags: Word)
  {
    && Inv(m', root)
    && m'.pmm.pages == m.pmm.pages && |m'.mem| == |m.mem| && Narrows(m.mem, m'.mem, root, flags)
    && (forall n: Node :: ValidNode(n) && (TableAt(m.mem, root, n) != None || n != On(vp, n.level))
          ==> TableAt(m'.mem, root, n) == TableAt(m.mem, root, n))
    && (forall u: nat :: u < VPAGES ==> LeafView(m'.mem, root, u) == LeafView(m.mem, root, u))
    && (forall u: nat :: u < VPAGES ==> Restricted(Rights(m.mem, root, u, 1), Rights(m'.mem, root, u, 1), flags))
    && (forall u: nat :: u < VPAGES && Key(u, 3) != Key(vp, 3) ==> Rights(m'.mem, root, u, 1) == Rights(m.mem, root, u, 1))
  }

  lemma GrewTransitive(a: Machine, b: Machine, c: Machine, root: nat, vp: nat, flags: Word)
    requires Grew(a, b, root, vp, flags) && Grew(b, c, root, vp, flags)
    ensures Grew(a, c, root, vp, flags)
  {
    hide Narrows;
    NarrowsTwice(a.mem, b.mem, c.mem, root, flags);
    forall n: Node | ValidNode(n) && (TableAt(a.mem, root, n) != None || n != On(vp, n.level))
      ensures TableAt(c.mem, root, n) == TableAt(a.mem, root, n)
    {
      assert TableAt(b.mem, root, n) == TableAt(a.mem, root, n);
    }
    forall u: nat | u < VPAGES ensures LeafView(c.mem, root, u) == LeafView(a.mem, root, u) {
      assert LeafView(b.mem, root, u) == LeafView(a.mem, root, u);
    }
    forall u: nat | u < VPAGES
      ensures Restricted(Rights(a.mem, root, u, 1), Rights(c.mem, root, u, 1), flags)
      ensures Key(u, 3) != Key(vp, 3) ==> Rights(c.mem, root, u, 1) == Rights(a.mem, root, u, 1)
    {
      assert Restricted(Rights(a.mem, root, u, 1), Rights(b.mem, root, u, 1), flags);
    }
  }

  /** The frame that a one-page request takes. */
  ghost predicate Takes(m: Machine, m': Machine, f: nat)
  {
    && 0 < f < m.pmm.pages && f < |m.mem| && f < 0x100_0000_0000
    && !UsedFrame(m, f) && UsedFrame(m', f) && PmmGrows(m.pmm, m'.pmm)
    && |FreePages(m'.pmm)| == |FreePages(m.pmm)| - 1
  }

  lemma AllocTakes(m: Machine, root: nat, mem': seq<Table>)
    requires Inv(m, root) && FreePages(m.pmm) != {}
    ensures var (pmm, ptr) := Alloc(m.pmm, 1);
            ptr == 4096 * (ptr / 4096) && Pointer(ptr) == ptr && Takes(m, Machine(mem', pmm), ptr / 4096)
  {
    AllocOnePage(m.pmm);
    var (pmm, ptr) := Alloc(m.pmm, 1);
    assert ClaimedPage(m.pmm, pmm, ptr);
    assert ptr / 4096 in FreePages(m.pmm);
    SmallMod(ptr, WORD_LIMIT);
  }

  /** What vmm_get_or_create_pml does when the entry is absent: the fresh zeroed frame f is named
      by the entry, with the flags. */
  ghost predicate Creates(m: Machine, m': Machine, t: nat, i: nat, flags: Word, f: nat)
  {
    && Takes(m, m', f)
    && m'.mem == Store(Zero(m.mem, f), t, i, OrWord(4096 * f, flags))
  }

  lemma CreateAbsent(m: Machine, root: nat, t: nat, i: nat, flags: Word) returns (m': Machine, f: nat)
    requires Inv(m, root) && FreePages(m.pmm) != {} && flags < 512
    requires t < |m.mem| && i < 512 && !Present(Load(m.mem, t, i))
    ensures (m', f) == GetOrCreate(m, t, i, flags)
    ensures Creates(m, m', t, i, flags, f)
  {
    var (pmm, ptr) := Alloc(m.pmm, 1);
    f := ptr / 4096;
    var w := OrWord(Pointer(ptr), flags);
    m' := Machine(Store(Zero(m.mem, f), t, i, w), pmm);
    AllocTakes(m, root, m'.mem);
    EntryParts(f, flags, w);
    assert Load(m'.mem, t, i) == w;
  }

  lemma UsePresent(m: Machine, t: nat, i: nat, flags: Word) returns (m': Machine, t': nat)
    requires Present(Load(m.mem, t, i)) && GoodUpper(Load(m.mem, t, i))
    ensures (m', t') == GetOrCreate(m, t, i, flags)
    ensures m' == m && t' == HwFrame(Load(m.mem, t, i))
  {
    m', t' := m, NextTable(Load(m.mem, t, i)) / 4096;
  }

  lemma TreeTable(m: Machine, root: nat, n: Node, t: nat)
    requires Inv(m, root) && Reach(m.mem, root, n, t)
    ensures UsedFrame(m, t) && t < |m.mem|
  {
  }

  /** One level down while mapping: afterwards the next table on the way to vp exists. */
  lemma Descend(m: Machine, root: nat, vp: nat, l: nat, t: nat, flags: Word) returns (m': Machine, t': nat)
    requires Inv(m, root) && vp < VPAGES && 2 <= l <= 4 && MapFlags(flags)
    requires TableAt(m.mem, root, On(vp, l)) == Some(t)
    requires Absent(m.mem, root, On(vp, l - 1)) <= |FreePages(m.pmm)|
    ensures (m', t') == GetOrCreate(m, t, Index(vp, l), flags)
    ensures Grew(m, m', root, vp, flags)
    ensures AddsOnly(m, m', root, On(vp, l - 1)) && TableAt(m'.mem, root, On(vp, l - 1)) == Some(t')
    ensures |FreePages(m'.pmm)| == |FreePages(m.pmm)| - Absent(m.mem, root, On(vp, l - 1))
  {
    OnIsValid(vp, l);
    var i := Index(vp, l);
    assert Reach(m.mem, root, On(vp, l), t);
    TreeTable(m, root, On(vp, l), t);
    assert TableAt(m.mem, root, On(vp, l - 1)) == Below(m.mem, Some(t), i);
    if Present(Load(m.mem, t, i)) {
      assert GoodUpper(Load(m.mem, t, i));
      m', t' := UsePresent(m, t, i, flags);
      GrewReflexive(m, root, vp, flags);
    } else {
      m', t' := CreateAbsent(m, root, t, i, flags);
      DescendAbsent(m, m', root, vp, l, t, t', flags);
    }
  }

  lemma GrewReflexive(m: Machine, root: nat, vp: nat, flags: Word)
    requires Inv(m, root)
    ensures Grew(m, m, root, vp, flags)
  {
  }

  lemma DescendAbsent(m: Machine, m': Machine, root: nat, vp: nat, l: nat, t: nat, f: nat, flags: Word)
    requires Inv(m, root) && vp < VPAGES && 2 <= l <= 4 && MapFlags(flags)
    requires Reach(m.mem, root, On(vp, l), t) && t < |m.mem| && !Present(Load(m.mem, t, Index(vp, l)))
    requires Creates(m, m', t, Index(vp, l), flags, f)
    ensures Grew(m, m', root, vp, flags) && TableAt(m'.mem, root, On(vp, l - 1)) == Some(f)
    ensures AddsOnly(m, m', root, On(vp, l - 1))
  {
    OnIsValid(vp, l);
    OnIsValid(vp, l - 1);
    var p, i := On(vp, l), Index(vp, l);
    var w := OrWord(4096 * f, flags);
    EntryParts(f, flags, w);
    MakesLink(m, m', root, p, t, i, flags, f);
    LinkInv(m, m', root, p, t, i, f, w);
    LinkGrew(m, m', root, vp, l, t, f, w, flags);
    LinkTables(m.mem, m'.mem, root, p, t, i, f, w, On(vp, l - 1));
    forall n: Node | ValidNode(n) && n != On(vp, l - 1) ensures TableAt(m'.mem, root, n) == TableAt(m.mem, root, n) {
      LinkTables(m.mem, m'.mem, root, p, t, i, f, w, n);
    }
  }

  /** Every place except n keeps its table. */
  ghost predicate AddsOnly(m: Machine, m': Machine, root: nat, n: Node)
  {
    forall q: Node :: ValidNode(q) && q != n ==> TableAt(m'.mem, root, q) == TableAt(m.mem, root, q)
  }

  lemma MakesLink(m: Machine, m': Machine, root: nat, p: Node, t: nat, i: nat, flags: Word, f: nat)
    requires Inv(m, root) && MapFlags(flags) && Reach(m.mem, root, p, t) && p.level > 1 && i < 512
    requires t < |m.mem| && !Present(Load(m.mem, t, i))
    requires Creates(m, m', t, i, flags, f)
    ensures Links(m.mem, m'.mem, root, p, t, i, f, OrWord(4096 * f, flags))
  {
    EntryParts(f, flags, OrWord(4096 * f, flags));
    TreeTable(m, root, p, t);
    forall n: Node ensures !Reach(m.mem, root, n, f) {
      if Reach(m.mem, root, n, f) { TreeTable(m, root, n, f); }
    }
  }

  lemma LinkNarrows(mem: seq<Table>, mem': seq<Table>, root: nat, vp: nat, l: nat, t: nat, f: nat, w: Word, flags: Word)
    requires vp < VPAGES && 2 <= l <= 4 && SameRights(w, flags)
    requires Links(mem, mem', root, On(vp, l), t, Index(vp, l), f, w)
    requires forall q: Node :: ValidNode(q) ==> LinkedAt(mem, mem', root, On(vp, l), Index(vp, l), w, q)
    ensures Narrows(mem, mem', root, flags)
  {
    hide Rights, LinkedAt, Depth, TableAt;
    OnIsValid(vp, l);
    forall u: nat | u < VPAGES ensures NarrowsAt(mem, mem', root, flags, u) {
      LinkRights(mem, mem', root, On(vp, l), Index(vp, l), w, u, 1);
      LinkDepth(mem, mem', root, vp, l, t, f, w, u);
    }
  }

  /** The new table lengthens the way to the pages that go through it by one. */
  lemma LinkDepth(mem: seq<Table>, mem': seq<Table>, root: nat, vp: nat, l: nat, t: nat, f: nat, w: Word, u: nat)
    requires vp < VPAGES && 2 <= l <= 4 && u < VPAGES
    requires Links(mem, mem', root, On(vp, l), t, Index(vp, l), f, w)
    ensures Depth(mem', root, u) == if On(u, l - 1) == Child(On(vp, l), Index(vp, l)) then l - 1 else Depth(mem, root, u)
    ensures On(u, l - 1) == Child(On(vp, l), Index(vp, l)) ==> Depth(mem, root, u) == l
  {
    hide Load, Key, Present, HwFrame, Index;
    OnIsValid(vp, l);
    OnIsValid(u, 1); OnIsValid(u, 2); OnIsValid(u, 3);
    LinkTables(mem, mem', root, On(vp, l), t, Index(vp, l), f, w, On(u, 1));
    LinkTables(mem, mem', root, On(vp, l), t, Index(vp, l), f, w, On(u, 2));
    LinkTables(mem, mem', root, On(vp, l), t, Index(vp, l), f, w, On(u, 3));
    assert On(u, l - 1) == Child(On(vp, l), Index(vp, l)) ==> l < 4 ==> On(u, l) == On(vp, l);
  }

  lemma LinkGrew(m: Machine, m': Machine, root: nat, vp: nat, l: nat, t: nat, f: nat, w: Word, flags: Word)
    requires Inv(m', root) && vp < VPAGES && 2 <= l <= 4 && m'.pmm.pages == m.pmm.pages
    requires Links(m.mem, m'.mem, root, On(vp, l), t, Index(vp, l), f, w)
    requires SameRights(w, flags)
    ensures Grew(m, m', root, vp, flags)
  {
    hide Narrows, Load, LinkedAt, Rights, LeafView, Inv, User, Writable;
    var p, i := On(vp, l), Index(vp, l);
    OnIsValid(vp, l);
    forall q: Node | ValidNode(q)
      ensures LinkedAt(m.mem, m'.mem, root, p, i, w, q)
      ensures TableAt(m'.mem, root, q) == if q == Child(p, i) then Some(f) else TableAt(m.mem, root, q)
      ensures q == Child(p, i) ==> TableAt(m.mem, root, q) == None
    {
      LinkAt(m.mem, m'.mem, root, p, t, i, f, w, q);
      LinkTables(m.mem, m'.mem, root, p, t, i, f, w, q);
    }
    LinkNarrows(m.mem, m'.mem, root, vp, l, t, f, w, flags);
    forall u: nat | u < VPAGES
      ensures LeafView(m'.mem, root, u) == LeafView(m.mem, root, u)
      ensures Restricted(Rights(m.mem, root, u, 1), Rights(m'.mem, root, u, 1), flags)
      ensures Key(u, 3) != Key(vp, 3) ==> Rights(m'.mem, root, u, 1) == Rights(m.mem, root, u, 1)
    {
      OnIsValid(u, 1);
      OnIsValid(u, l - 1);
      LinkRights(m.mem, m'.mem, root, p, i, w, u, 1);
      LinkWalk(m.mem, m'.mem, root, p, i, w, u);
      if Key(u, l - 1) == Key(vp, l - 1) { SameKeyAbove(u, vp, l - 1); }
    }
  }

  /** Pages with the same table at level l have the same entry in the root table. */
  lemma SameKeyAbove(u: nat, vp: nat, l: nat)
    requires 1 <= l <= 3 && Key(u, l) == Key(vp, l)
    ensures Key(u, 3) == Key(vp, 3)
  {
  }

  // ---------------------------------------------------------------- vmm_map_page

  /** The leaf entry `phys | flags | pat` names the frame and carries exactly the bits flags|pat. */
  lemma LeafEntry(p: nat, flags: Word, pat: nat, w: Word)
    requires p < 0x100_0000_0000 && MapFlags(flags) && w == OrWord(OrWord(4096 * p, flags), PatFlags(pat))
    ensures Present(w) && HwFrame(w) == p && OtherBits(w) == OrWord(flags, PatFlags(pat))
    ensures Writable(w) == Writable(flags) && User(w) == User(flags)
  {
    var c := PatFlags(pat);
    var bits := OrWord(flags, c);
    OrAssociative(4096 * p, flags, c);
    assert Pow2(9) == 512;
    OrBound(flags, c, 9);
    EntryParts(p, bits, w);
    LowFlagBits(flags); LowFlagBits(c); LowFlagBits(bits);
    BitOfOr(flags, c, 0); BitOfOr(flags, c, 1); BitOfOr(flags, c, 2);
  }

  lemma LowFlagBits(x: Word)
    ensures Present(x) == Bit(x, 0) && Writable(x) == Bit(x, 1) && User(x) == Bit(x, 2)
  {
    BitStep(x, 1);
    BitStep(x, 2);
    BitStep(x / 2, 1);
    hide Bit;
    assert x / 2 / 2 == x / 4;
  }

  /** Three steps down from the root, creating what is missing. */
  lemma DescendAll(m: Machine, root: nat, vp: nat, flags: Word) returns (m3: Machine, t: nat)
    requires Inv(m, root) && vp < VPAGES && MapFlags(flags) && Missing(m.mem, root, vp) <= |FreePages(m.pmm)|
    ensures var (m1, pdpt) := GetOrCreate(m, root, Index(vp, 4), flags);
            var (m2, pd) := GetOrCreate(m1, pdpt, Index(vp, 3), flags);
            (m3, t) == GetOrCreate(m2, pd, Index(vp, 2), flags)
    ensures Grew(m, m3, root, vp, flags) && TableAt(m3.mem, root, On(vp, 1)) == Some(t)
    ensures |FreePages(m3.pmm)| == |FreePages(m.pmm)| - Missing(m.mem, root, vp)
  {
    OnIsValid(vp, 2);
    OnIsValid(vp, 1);
    var m1, pdpt := Descend(m, root, vp, 4, root, flags);
    var m2, pd := Descend(m1, root, vp, 3, pdpt, flags);
    GrewTransitive(m, m1, m2, root, vp, flags);
    m3, t := Descend(m2, root, vp, 2, pd, flags);
    GrewTransitive(m, m2, m3, root, vp, flags);
  }

  /** The effect of one mapping on the tree, the rights and the walks. */
  ghost predicate MapEffect(m: Machine, m': Machine, root: nat, vp: nat, flags: Word, view: Translation)
  {
    && Inv(m', root)
    && m'.pmm.pages == m.pmm.pages && |m'.mem| == |m.mem| && Narrows(m.mem, m'.mem, root, flags)
    && (forall n: Node :: ValidNode(n) && (TableAt(m.mem, root, n) != None || n != On(vp, n.level))
          ==> TableAt(m'.mem, root, n) == TableAt(m.mem, root, n))
    && (forall l :: 1 <= l <= 3 ==> TableAt(m'.mem, root, On(vp, l)) != None)
    && (forall u: nat :: u < VPAGES ==> Restricted(Rights(m.mem, root, u, 1), Rights(m'.mem, root, u, 1), flags))
    && (forall u: nat :: u < VPAGES && Key(u, 3) != Key(vp, 3) ==> Rights(m'.mem, root, u, 1) == Rights(m.mem, root, u, 1))
    && Walk(m'.mem, root, vp) == view
    && (forall u: nat :: u < VPAGES && u != vp ==> Walk(m'.mem, root, u) == Walk(m.mem, root, u))
  }

  /** The walk of a page mapped to frame p: exactly the bits flags|pat, and the rights of the flags
      under those that the present entries above grant. */
  function MappedView(mem: seq<Table>, root: nat, vp: nat, p: nat, flags: Word, pat: nat): (t: Translation)
  {
    var r := Rights(mem, root, vp, 1);
    Page(p, OrWord(flags, PatFlags(pat)), r.0 && Writable(flags), r.1 && User(flags))
  }

  /** The leaf store after the descent. */
  lemma FinishMap(m: Machine, m3: Machine, m': Machine, root: nat, vp: nat, t: nat, p: nat, flags: Word, pat: nat)
    requires Inv(m, root) && Grew(m, m3, root, vp, flags) && vp < VPAGES && MapFlags(flags) && p < 0x100_0000_0000
    requires TableAt(m3.mem, root, On(vp, 1)) == Some(t)
    requires m' == m3.(mem := Store(m3.mem, t, vp % 512, OrWord(OrWord(4096 * p, flags), PatFlags(pat))))
    ensures MapEffect(m, m', root, vp, flags, MappedView(m.mem, root, vp, p, flags, pat))
  {
    hide Narrows, TableAt, Rights, WalkFrom;
    var w := OrWord(OrWord(4096 * p, flags), PatFlags(pat));
    LeafEntry(p, flags, pat, w);
    LeafWrite(m3, root, vp, t, w);
    KeepsInv(m3, m', root);
    assert Restricted(Rights(m.mem, root, vp, 1), Rights(m3.mem, root, vp, 1), flags);
    FinishWalks(m, m3, m', root, vp, MappedView(m.mem, root, vp, p, flags, pat));
    FinishTables(m, m3, m', root, vp, flags);
  }

  lemma FinishWalks(m: Machine, m3: Machine, m': Machine, root: nat, vp: nat, view: Translation)
    requires Inv(m, root) && Inv(m3, root) && Inv(m', root) && vp < VPAGES
    requires forall u: nat :: u < VPAGES ==> LeafView(m3.mem, root, u) == LeafView(m.mem, root, u)
    requires forall u: nat :: u < VPAGES && u != vp ==> LeafView(m'.mem, root, u) == LeafView(m3.mem, root, u)
    requires LeafView(m'.mem, root, vp) == view
    ensures Walk(m'.mem, root, vp) == view
    ensures forall u: nat :: u < VPAGES && u != vp ==> Walk(m'.mem, root, u) == Walk(m.mem, root, u)
  {
    WalkIsLeafView(m', root, vp);
    forall u: nat | u < VPAGES && u != vp ensures Walk(m'.mem, root, u) == Walk(m.mem, root, u) {
      WalkIsLeafView(m', root, u);
      WalkIsLeafView(m, root, u);
      assert LeafView(m'.mem, root, u) == LeafView(m3.mem, root, u);
    }
  }

  lemma FinishTables(m: Machine, m3: Machine, m': Machine, root: nat, vp: nat, flags: Word)
    requires Grew(m, m3, root, vp, flags) && KeepsTree(m3.mem, m'.mem, root) && vp < VPAGES
    requires TableAt(m3.mem, root, On(vp, 1)) != None
    ensures forall n: Node :: ValidNode(n) && (TableAt(m.mem, root, n) != None || n != On(vp, n.level))
              ==> TableAt(m'.mem, root, n) == TableAt(m.mem, root, n)
    ensures forall l :: 1 <= l <= 3 ==> TableAt(m'.mem, root, On(vp, l)) != None
    ensures forall u: nat :: u < VPAGES ==> Restricted(Rights(m.mem, root, u, 1), Rights(m'.mem, root, u, 1), flags)
    ensures forall u: nat :: u < VPAGES && Key(u, 3) != Key(vp, 3) ==> Rights(m'.mem, root, u, 1) == Rights(m.mem, root, u, 1)
    ensures Narrows(m.mem, m'.mem, root, flags)
  {
    hide Narrows;
    NarrowsKept(m3.mem, m'.mem, root, flags);
    NarrowsTwice(m.mem, m3.mem, m'.mem, root, flags);
    forall n: Node | ValidNode(n) && (TableAt(m.mem, root, n) != None || n != On(vp, n.level))
      ensures TableAt(m'.mem, root, n) == TableAt(m.mem, root, n)
    {
      SameTables(m3.mem, m'.mem, root, n);
    }
    forall l | 1 <= l <= 3 ensures TableAt(m'.mem, root, On(vp, l)) != None {
      OnIsValid(vp, l);
      SameTables(m3.mem, m'.mem, root, On(vp, l));
      if TableAt(m3.mem, root, On(vp, l)) == None { NoneBelow(m3.mem, root, vp, l); }
    }
    forall u: nat | u < VPAGES
      ensures Restricted(Rights(m.mem, root, u, 1), Rights(m'.mem, root, u, 1), flags)
      ensures Key(u, 3) != Key(vp, 3) ==> Rights(m'.mem, root, u, 1) == Rights(m.mem, root, u, 1)
    {
      SameRightsAbove(m3.mem, m'.mem, root, u, 1);
      assert Restricted(Rights(m.mem, root, u, 1), Rights(m3.mem, root, u, 1), flags);
    }
  }

  /** vmm_map_page: afterwards the hardware walk of the page yields the frame with exactly the bits
      flags|pat, every other page is walked as before, the tree invariant holds, and exactly one
      frame left the allocator for every table that was missing. */
  lemma MapIsOnePoint(m: Machine, root: nat, p: nat, virt: Word, flags: Word, pat: nat)
    requires Inv(m, root) && MapFlags(flags) && p < 0x100_0000_0000
    requires Missing(m.mem, root, VPage(virt)) <= |FreePages(m.pmm)|
    ensures var vp := VPage(virt);
            var m' := Map(m, root, 4096 * p, virt, flags, pat);
            && MapEffect(m, m', root, vp, flags, MappedView(m.mem, root, vp, p, flags, pat))
            && |FreePages(m'.pmm)| == |FreePages(m.pmm)| - Missing(m.mem, root, vp)
  {
    var vp := VPage(virt);
    VPageAligned(virt);
    IndicesOfAddress(PageAddress(virt));
    var m3, t := DescendAll(m, root, vp, flags);
    var m' := m3.(mem := Store(m3.mem, t, vp % 512, OrWord(OrWord(4096 * p, flags), PatFlags(pat))));
    assert m' == Map(m, root, 4096 * p, virt, flags, pat);
    FinishMap(m, m3, m', root, vp, t, p, flags, pat);
  }

  /** Without a free frame pmm_allocz returns NULL and zeroes frame 0, and the entry, made of the flags
      alone, names frame 0 as the next table. */
  lemma NoFrameLeft(m: Machine, t: nat, index: nat, flags: Word)
    requires Wf(m.pmm) && FreePages(m.pmm) == {} && 0 < t < |m.mem| && index < 512 && flags < 512 && !Present(Load(m.mem, t, index))
    ensures var (m', next) := GetOrCreate(m, t, index, flags);
            && next == 0 && m'.pmm == m.pmm && |m'.mem| == |m.mem|
            && Load(m'.mem, t, index) == flags
            && (forall i: nat :: Load(m'.mem, 0, i) == 0)
            && (forall s: nat, i: nat :: s != 0 && (s != t || i != index) ==> Load(m'.mem, s, i) == Load(m.mem, s, i))
  {
    AllocOnePage(m.pmm);
    assert BitOr(0, flags) == flags;
    EntryParts(0, flags, flags);
    hide Alloc, NextTable, BitOr, HwFrame;
  }

  // ---------------------------------------------------------------- vmm_unmap_page

  /** A frame taken for a table that no present entry names: all its words are zero. */
  ghost predicate Detached(m: Machine, root: nat, t: nat)
  {
    && UsedFrame(m, t) && t < |m.mem|
    && (forall n: Node :: !Reach(m.mem, root, n, t))
    && (forall i: nat :: Load(m.mem, t, i) == 0)
  }

  /** Frames may be used up, but no table, right or walk changes. */
  ghost predicate Quiet(m: Machine, m': Machine, root: nat)
  {
    && Inv(m', root)
    && m'.pmm.pages == m.pmm.pages && |m'.mem| == |m.mem|
    && (forall n: Node :: ValidNode(n) ==> TableAt(m'.mem, root, n) == TableAt(m.mem, root, n))
    && (forall u: nat :: u < VPAGES ==> LeafView(m'.mem, root, u) == LeafView(m.mem, root, u))
    && (forall u: nat :: u < VPAGES ==> Rights(m'.mem, root, u, 1) == Rights(m.mem, root, u, 1))
  }

  lemma KeepsQuiet(m: Machine, m': Machine, root: nat)
    requires Inv(m, root) && Inv(m', root) && KeepsTree(m.mem, m'.mem, root) && m'.pmm.pages == m.pmm.pages
    requires forall u: nat :: u < VPAGES ==> LeafView(m'.mem, root, u) == LeafView(m.mem, root, u)
    ensures Quiet(m, m', root)
  {
    forall n: Node | ValidNode(n) ensures TableAt(m'.mem, root, n) == TableAt(m.mem, root, n) {
      SameTables(m.mem, m'.mem, root, n);
    }
    forall u: nat | u < VPAGES ensures Rights(m'.mem, root, u, 1) == Rights(m.mem, root, u, 1) {
      SameRightsAbove(m.mem, m'.mem, root, u, 1);
    }
  }

  /** Without PRESENT in the flags, a missing table is allocated but not linked: the entry names it
      and stays absent, so the next call will allocate again. */
  lemma DescendOff(m: Machine, root: nat, t: nat, i: nat) returns (m': Machine, f: nat)
    requires Inv(m, root) && UsedFrame(m, t) && t < |m.mem| && i < 512 && !Present(Load(m.mem, t, i))
    requires forall n: Node :: Reach(m.mem, root, n, t) ==> n.level > 1
    requires FreePages(m.pmm) != {}
    ensures (m', f) == GetOrCreate(m, t, i, 0)
    ensures Quiet(m, m', root) && Detached(m', root, f)
    ensures |FreePages(m'.pmm)| == |FreePages(m.pmm)| - 1
  {
    m', f := CreateAbsent(m, root, t, i, 0);
    var w := OrWord(4096 * f, 0);
    EntryParts(f, 0, w);
    forall n: Node, s: nat | Reach(m.mem, root, n, s) ensures s != f { TreeTable(m, root, n, s); }
    forall s: nat, j: nat
      ensures Load(m'.mem, s, j) == if s == t && j == i then w else if s == f then 0 else Load(m.mem, s, j)
    {
    }
    assert KeepsTree(m.mem, m'.mem, root);
    OutsideKeepsWalks(m.mem, m'.mem, root);
    KeepsInv(m, m', root);
    KeepsQuiet(m, m', root);
  }

  /** Where the descent of vmm_unmap_page stands: at vp's table of level l if it exists, otherwise
      at a detached one. */
  ghost predicate At(m: Machine, root: nat, vp: nat, l: nat, t: nat)
  {
    match TableAt(m.mem, root, On(vp, l))
    case Some(s) => s == t
    case None => Detached(m, root, t)
  }

  lemma UnmapStep(m: Machine, root: nat, vp: nat, l: nat, t: nat) returns (m': Machine, t': nat)
    requires Inv(m, root) && vp < VPAGES && 2 <= l <= 4 && At(m, root, vp, l, t)
    requires Absent(m.mem, root, On(vp, l - 1)) <= |FreePages(m.pmm)|
    ensures (m', t') == GetOrCreate(m, t, Index(vp, l), 0)
    ensures Quiet(m, m', root) && At(m', root, vp, l - 1, t')
    ensures |FreePages(m'.pmm)| == |FreePages(m.pmm)| - Absent(m.mem, root, On(vp, l - 1))
  {
    OnIsValid(vp, l);
    OnIsValid(vp, l - 1);
    var i := Index(vp, l);
    assert TableAt(m.mem, root, On(vp, l - 1)) == Below(m.mem, TableAt(m.mem, root, On(vp, l)), i);
    if TableAt(m.mem, root, On(vp, l)) == Some(t) {
      assert Reach(m.mem, root, On(vp, l), t);
      TreeTable(m, root, On(vp, l), t);
    }
    if Present(Load(m.mem, t, i)) {
      assert GoodUpper(Load(m.mem, t, i));
      m', t' := UsePresent(m, t, i, 0);
    } else {
      m', t' := DescendOff(m, root, t, i);
    }
  }

  lemma QuietTransitive(a: Machine, b: Machine, c: Machine, root: nat)
    requires Quiet(a, b, root) && Quiet(b, c, root)
    ensures Quiet(a, c, root)
  {
    forall n: Node | ValidNode(n) ensures TableAt(c.mem, root, n) == TableAt(a.mem, root, n) {
      assert TableAt(b.mem, root, n) == TableAt(a.mem, root, n);
    }
    forall u: nat | u < VPAGES
      ensures LeafView(c.mem, root, u) == LeafView(a.mem, root, u)
      ensures Rights(c.mem, root, u, 1) == Rights(a.mem, root, u, 1)
    {
      assert LeafView(b.mem, root, u) == LeafView(a.mem, root, u);
      assert Rights(b.mem, root, u, 1) == Rights(a.mem, root, u, 1);
    }
  }

  lemma UnmapDescend(m: Machine, root: nat, vp: nat) returns (m3: Machine, t: nat)
    requires Inv(m, root) && vp < VPAGES && Missing(m.mem, root, vp) <= |FreePages(m.pmm)|
    ensures var (m1, pdpt) := GetOrCreate(m, root, Index(vp, 4), 0);
            var (m2, pd) := GetOrCreate(m1, pdpt, Index(vp, 3), 0);
            (m3, t) == GetOrCreate(m2, pd, Index(vp, 2), 0)
    ensures Quiet(m, m3, root) && At(m3, root, vp, 1, t)
    ensures |FreePages(m3.pmm)| == |FreePages(m.pmm)| - Missing(m.mem, root, vp)
  {
    OnIsValid(vp, 2);
    OnIsValid(vp, 1);
    var m1, pdpt := UnmapStep(m, root, vp, 4, root);
    var m2, pd := UnmapStep(m1, root, vp, 3, pdpt);
    QuietTransitive(m, m1, m2, root);
    m3, t := UnmapStep(m2, root, vp, 2, pd);
    QuietTransitive(m, m2, m3, root);
  }

  /** The effect of unmapping a page: one walk becomes a fault, nothing else changes. */
  ghost predicate UnmapEffect(m: Machine, m': Machine, root: nat, vp: nat)
  {
    && Inv(m', root)
    && m'.pmm.pages == m.pmm.pages && |m'.mem| == |m.mem|
    && (forall n: Node :: ValidNode(n) ==> TableAt(m'.mem, root, n) == TableAt(m.mem, root, n))
    && (forall u: nat :: u < VPAGES ==> Rights(m'.mem, root, u, 1) == Rights(m.mem, root, u, 1))
    && Walk(m'.mem, root, vp) == Fault
    && (forall u: nat :: u < VPAGES && u != vp ==> Walk(m'.mem, root, u) == Walk(m.mem, root, u))
  }

  /** The zero stored at the end of vmm_unmap_page. */
  lemma UnmapStore(m: Machine, m': Machine, root: nat, vp: nat, t: nat)
    requires Inv(m, root) && vp < VPAGES && At(m, root, vp, 1, t)
    requires m' == m.(mem := Store(m.mem, t, vp % 512, 0))
    ensures Inv(m', root) && KeepsTree(m.mem, m'.mem, root)
    ensures LeafView(m'.mem, root, vp) == Fault
    ensures forall u: nat :: u < VPAGES && u != vp ==> LeafView(m'.mem, root, u) == LeafView(m.mem, root, u)
  {
    if TableAt(m.mem, root, On(vp, 1)) == Some(t) {
      LeafWrite(m, root, vp, t, 0);
    } else {
      assert KeepsTree(m.mem, m'.mem, root);
      OutsideKeepsWalks(m.mem, m'.mem, root);
    }
    KeepsInv(m, m', root);
  }

  lemma FinishUnmap(m: Machine, m3: Machine, m': Machine, root: nat, vp: nat, t: nat)
    requires Inv(m, root) && Quiet(m, m3, root) && vp < VPAGES && At(m3, root, vp, 1, t)
    requires m' == m3.(mem := Store(m3.mem, t, vp % 512, 0))
    ensures UnmapEffect(m, m', root, vp)
  {
    UnmapStore(m3, m', root, vp, t);
    FinishWalks(m, m3, m', root, vp, Fault);
    forall n: Node | ValidNode(n) ensures TableAt(m'.mem, root, n) == TableAt(m.mem, root, n) {
      SameTables(m3.mem, m'.mem, root, n);
    }
    forall u: nat | u < VPAGES ensures Rights(m'.mem, root, u, 1) == Rights(m.mem, root, u, 1) {
      SameRightsAbove(m3.mem, m'.mem, root, u, 1);
    }
  }

  /** vmm_unmap_page: afterwards the page is not translated, every other page is walked as before,
      no table appears or disappears; the frames of missing tables are consumed all the same. */
  lemma UnmapIsOnePoint(m: Machine, root: nat, virt: Word)
    requires Inv(m, root) && Missing(m.mem, root, VPage(virt)) <= |FreePages(m.pmm)|
    ensures var vp := VPage(virt);
            var m' := Unmap(m, root, virt);
            && UnmapEffect(m, m', root, vp)
            && |FreePages(m'.pmm)| == |FreePages(m.pmm)| - Missing(m.mem, root, vp)
  {
    var vp := VPage(virt);
    VPageAligned(virt);
    IndicesOfAddress(PageAddress(virt));
    var m3, t := UnmapDescend(m, root, vp);
    var m' := m3.(mem := Store(m3.mem, t, vp % 512, 0));
    assert OrWord(OrWord(0, 0), PatFlags(0)) == 0;
    assert m' == Unmap(m, root, virt);
    FinishUnmap(m, m3, m', root, vp, t);
  }

  /** Mapping a page that was not translated and unmapping it again restores every walk. */
  lemma MapThenUnmap(m: Machine, root: nat, p: nat, virt: Word, flags: Word, pat: nat)
    requires Inv(m, root) && MapFlags(flags) && p < 0x100_0000_0000
    requires Missing(m.mem, root, VPage(virt)) <= |FreePages(m.pmm)|
    requires Walk(m.mem, root, VPage(virt)) == Fault
    ensures var m' := Unmap(Map(m, root, 4096 * p, virt, flags, pat), root, virt);
            && Inv(m', root)
            && forall u: nat :: u < VPAGES ==> Walk(m'.mem, root, u) == Walk(m.mem, root, u)
  {
    MapIsOnePoint(m, root, p, virt, flags, pat);
    var m1 := Map(m, root, 4096 * p, virt, flags, pat);
    assert Missing(m1.mem, root, VPage(virt)) == 0;
    UnmapIsOnePoint(m1, root, virt);
  }
}

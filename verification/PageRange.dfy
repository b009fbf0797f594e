/** vmm_map_range and vmm_unmap_range: what a range of mappings does, and how many frames it
    takes. */
module PageRange {
  import opened Words
  import opened PmmSpec
  import opened PageTables
  import opened PageTree
  import opened PageMap

  /** The virtual address that the loop of vmm_map_range uses for physical page p. */
  function Shifted(p: nat, offset: Word): (n: Word)
  {
    (4096 * p + offset) % WORD_LIMIT
  }

  /** The first n rounds of vmm_map_range from physical page p0 on. */
  function MapPages(m: Machine, root: nat, p0: nat, n: nat, offset: Word, flags: Word, pat: nat): (r: Machine)
    requires p0 + n <= 0x10_0000_0000_0000
  {
    if n == 0 then m
    else Map(MapPages(m, root, p0, n - 1, offset, flags, pat), root, 4096 * (p0 + n - 1), Shifted(p0 + n - 1, offset), flags, pat)
  }

  /** The first n rounds of vmm_unmap_range from virtual page v0 on. */
  function UnmapPages(m: Machine, root: nat, v0: nat, n: nat): (r: Machine)
    requires v0 + n <= 0x10_0000_0000_0000
  {
    if n == 0 then m else Unmap(UnmapPages(m, root, v0, n - 1), root, 4096 * (v0 + n - 1))
  }

  lemma VPageOfShifted(p: nat, j: nat, offset: Word)
    requires VPage(Shifted(p, offset)) + j < VPAGES
    ensures VPage(Shifted(p + j, offset)) == VPage(Shifted(p, offset)) + j
  {
    hide VPage, Shifted;
    PageOfSum(p, offset);
    PageOfSum(p + j, offset);
    var a := p + offset / 4096;
    var q, r := a / VPAGES, a % VPAGES;
    assert a + j == q * VPAGES + (r + j);
    DivModUnique(a + j, VPAGES, q, r + j);
  }

  /** The virtual page is the physical page plus the offset's page, modulo 2^36. */
  lemma PageOfSum(p: nat, offset: Word)
    ensures VPage(Shifted(p, offset)) == (p + offset / 4096) % VPAGES
  {
    var x := 4096 * p + offset;
    var q, r := x / WORD_LIMIT, x % WORD_LIMIT;
    AddMultiple(p, offset, 4096);
    AddMultiple(q * 0x10_0000_0000_0000, r, 4096);
    assert x == q * 0x10_0000_0000_0000 * 4096 + r;
    AddMultiple(q * 0x1_0000, r / 4096, VPAGES);
  }

  // ---------------------------------------------------------------- counting missing tables

  /** How many of the places (l, a) .. (l, b-1) hold no table. */
  function AbsentIn(mem: seq<Table>, root: nat, l: nat, a: nat, b: nat): (r: nat)
    ensures a <= b ==> r <= b - a
    decreases b
  {
    if a >= b then 0 else AbsentIn(mem, root, l, a, b - 1) + Absent(mem, root, Node(l, b - 1))
  }

  function LevelCost(mem: seq<Table>, root: nat, l: nat, v0: nat, n: nat): (v: nat)
    requires n > 0
  {
    AbsentIn(mem, root, l, Key(v0, l), Key(v0 + n - 1, l) + 1)
  }

  /** The missing tables on the way to the n pages from v0 on, over all three levels. */
  function RangeCost(mem: seq<Table>, root: nat, v0: nat, n: nat): (v: nat)
  {
    if n == 0 then 0
    else LevelCost(mem, root, 3, v0, n) + LevelCost(mem, root, 2, v0, n) + LevelCost(mem, root, 1, v0, n)
  }

  /** ceil(n / 512) + 1 tables at the lowest level, and so on up. */
  function CostBound(n: nat): (v: nat)
  {
    (n + 511) / 512 + 1 + ((n + 0x3_FFFF) / 0x4_0000 + 1) + ((n + 0x7FF_FFFF) / 0x800_0000 + 1)
  }

  /** Mapping n pages needs at most ceil(n/512)+1, ceil(n/512^2)+1 and ceil(n/512^3)+1 new tables
      at the three levels. */
  lemma RangeCostBound(mem: seq<Table>, root: nat, v0: nat, n: nat)
    requires n > 0
    ensures RangeCost(mem, root, v0, n) <= CostBound(n)
  {
    hide Key, LevelCost;
    KeyIsDiv(v0);
    KeyIsDiv(v0 + n - 1);
    LevelBound(mem, root, 1, v0, n, 512);
    LevelBound(mem, root, 2, v0, n, 0x4_0000);
    LevelBound(mem, root, 3, v0, n, 0x800_0000);
  }

  lemma LevelBound(mem: seq<Table>, root: nat, l: nat, v0: nat, n: nat, d: nat)
    requires n > 0 && d > 0 && Key(v0, l) == v0 / d && Key(v0 + n - 1, l) == (v0 + n - 1) / d
    ensures LevelCost(mem, root, l, v0, n) <= (n + (d - 1)) / d + 1
  {
    hide Key, LevelCost;
    LevelCostBound(mem, root, l, v0, n);
    DivStep(v0, n, d);
  }

  lemma LevelCostBound(mem: seq<Table>, root: nat, l: nat, v0: nat, n: nat)
    requires n > 0
    ensures LevelCost(mem, root, l, v0, n) <= Key(v0 + n - 1, l) - Key(v0, l) + 1
  {
    KeyMono(v0, v0 + n - 1, l);
  }

  lemma KeyIsDiv(v: nat)
    ensures Key(v, 1) == v / 512 && Key(v, 2) == v / 0x4_0000 && Key(v, 3) == v / 0x800_0000
  {
    assert v / 512 / 512 == v / 0x4_0000;
    assert v / 512 / 512 / 512 == v / 0x800_0000;
  }

  lemma DivStep(a: nat, n: nat, d: nat)
    requires n > 0 && d > 0
    ensures a / d <= (a + n - 1) / d <= a / d + (n + (d - 1)) / d
  {
    var q, r := a / d, a % d;
    var s, t := (n + (d - 1)) / d, (n + (d - 1)) % d;
    assert a == q * d + r && n + (d - 1) == s * d + t;
    var x := (a + n - 1) / d;
    assert a + n - 1 == x * d + (a + n - 1) % d;
    if x > q + s {
      MulMono(q + s + 1, x, d);
    }
    if x < q { MulMono(x + 1, q, d); }
  }

  lemma {:induction false} KeyMono(u: nat, v: nat, l: nat)
    requires u <= v
    ensures Key(u, l) <= Key(v, l)
    decreases l
  {
    if l > 0 { KeyMono(u, v, l - 1); }
  }

  lemma {:induction false} KeyStep(u: nat, l: nat)
    ensures Key(u, l) <= Key(u + 1, l) <= Key(u, l) + 1
    decreases l
  {
    if l > 0 { KeyStep(u, l - 1); }
  }

  // ---------------------------------------------------------------- vmm_map_range

  /** The rights above u include those of the flags. */
  predicate Allows(mem: seq<Table>, root: nat, u: nat, flags: Word)
  {
    var r := Rights(mem, root, u, 1);
    (Writable(flags) ==> r.0) && (User(flags) ==> r.1)
  }

  /** Place nd is on the way to one of the n pages from v0 on. */
  predicate OnRange(nd: Node, v0: nat, n: nat)
  {
    n > 0 && 1 <= nd.level <= 3 && Key(v0, nd.level) <= nd.key <= Key(v0 + n - 1, nd.level)
  }

  ghost predicate TablesEffect(m: Machine, m': Machine, root: nat, v0: nat, n: nat)
  {
    forall nd: Node :: ValidNode(nd) ==>
      && (TableAt(m.mem, root, nd) != None || !OnRange(nd, v0, n) ==> TableAt(m'.mem, root, nd) == TableAt(m.mem, root, nd))
      && (OnRange(nd, v0, n) ==> TableAt(m'.mem, root, nd) != None)
  }

  ghost predicate RightsEffect(m: Machine, m': Machine, root: nat, v0: nat, n: nat, flags: Word)
  {
    forall u: nat :: u < VPAGES ==>
      && Restricted(Rights(m.mem, root, u, 1), Rights(m'.mem, root, u, 1), flags)
      && (n == 0 || Key(u, 3) < Key(v0, 3) || Key(u, 3) > Key(v0 + n - 1, 3)
          ==> Rights(m'.mem, root, u, 1) == Rights(m.mem, root, u, 1))
  }

  /** The walks after the pages v0 .. v0+n-1 were mapped to p0 .. p0+n-1. */
  ghost predicate WalksEffect(m: Machine, m': Machine, root: nat, p0: nat, v0: nat, n: nat, flags: Word, pat: nat)
  {
    forall u: nat :: u < VPAGES ==>
      Walk(m'.mem, root, u) ==
      if v0 <= u < v0 + n then Page(p0 + (u - v0), OrWord(flags, PatFlags(pat)), Writable(flags), User(flags))
      else Walk(m.mem, root, u)
  }

  ghost predicate RangeEffect(m: Machine, m': Machine, root: nat, p0: nat, v0: nat, n: nat, flags: Word, pat: nat)
  {
    && Inv(m', root) && m'.pmm.pages == m.pmm.pages && |m'.mem| == |m.mem|
    && TablesEffect(m, m', root, v0, n)
    && RightsEffect(m, m', root, v0, n, flags)
    && WalksEffect(m, m', root, p0, v0, n, flags, pat)
    && |FreePages(m'.pmm)| == |FreePages(m.pmm)| - RangeCost(m.mem, root, v0, n)
  }

  /** The cost of one more page. */
  lemma CostStep(m: Machine, m1: Machine, root: nat, v0: nat, n: nat)
    requires v0 + n < VPAGES && TablesEffect(m, m1, root, v0, n)
    ensures RangeCost(m.mem, root, v0, n + 1) == RangeCost(m.mem, root, v0, n) + Missing(m1.mem, root, v0 + n)
  {
    LevelCostStep(m, m1, root, v0, n, 1);
    LevelCostStep(m, m1, root, v0, n, 2);
    LevelCostStep(m, m1, root, v0, n, 3);
  }

  lemma LevelCostStep(m: Machine, m1: Machine, root: nat, v0: nat, n: nat, l: nat)
    requires 1 <= l <= 3 && v0 + n < VPAGES && TablesEffect(m, m1, root, v0, n)
    ensures LevelCost(m.mem, root, l, v0, n + 1)
            == (if n == 0 then 0 else LevelCost(m.mem, root, l, v0, n)) + Absent(m1.mem, root, On(v0 + n, l))
  {
    hide TablesEffect, TableAt, Key, AbsentIn, Absent;
    KeyMono(v0, v0 + n, l);
    StillAbsent(m, m1, root, v0, n, l);
    if n > 0 {
      KeyStep(v0 + n - 1, l);
      KeyMono(v0, v0 + n - 1, l);
      AbsentStep(m.mem, root, l, Key(v0, l), Key(v0 + n - 1, l), Key(v0 + n, l));
    } else {
      AbsentOne(m.mem, root, l, Key(v0, l));
    }
  }

  lemma StillAbsent(m: Machine, m1: Machine, root: nat, v0: nat, n: nat, l: nat)
    requires 1 <= l <= 3 && v0 + n < VPAGES && TablesEffect(m, m1, root, v0, n)
    ensures Absent(m1.mem, root, On(v0 + n, l))
            == if n > 0 && Key(v0 + n - 1, l) == Key(v0 + n, l) then 0 else Absent(m.mem, root, On(v0 + n, l))
  {
    hide TableAt, Key;
    var nd := On(v0 + n, l);
    assert ValidNode(nd) by { OnIsValid(v0 + n, l); }
    assert TableAt(m1.mem, root, nd) == if OnRange(nd, v0, n) then TableAt(m1.mem, root, nd) else TableAt(m.mem, root, nd);
    assert OnRange(nd, v0, n) ==> TableAt(m1.mem, root, nd) != None;
    KeyMono(v0, v0 + n, l);
    if n > 0 {
      KeyStep(v0 + n - 1, l);
      KeyMono(v0, v0 + n - 1, l);
    }
  }

  lemma AbsentStep(mem: seq<Table>, root: nat, l: nat, a: nat, k1: nat, k2: nat)
    requires a <= k1 <= k2 <= k1 + 1
    ensures AbsentIn(mem, root, l, a, k2 + 1)
            == AbsentIn(mem, root, l, a, k1 + 1) + (if k2 == k1 then 0 else Absent(mem, root, Node(l, k2)))
  {
  }

  lemma AbsentOne(mem: seq<Table>, root: nat, l: nat, k: nat)
    ensures AbsentIn(mem, root, l, k, k + 1) == Absent(mem, root, Node(l, k))
  {
    assert AbsentIn(mem, root, l, k, k) == 0;
  }

  lemma ExtendTables(m: Machine, m1: Machine, m2: Machine, root: nat, v0: nat, n: nat)
    requires v0 + n < VPAGES && TablesEffect(m, m1, root, v0, n) && TablesEffect(m1, m2, root, v0 + n, 1)
    ensures TablesEffect(m, m2, root, v0, n + 1)
  {
    forall nd: Node | ValidNode(nd)
      ensures TableAt(m.mem, root, nd) != None || !OnRange(nd, v0, n + 1) ==> TableAt(m2.mem, root, nd) == TableAt(m.mem, root, nd)
      ensures OnRange(nd, v0, n + 1) ==> TableAt(m2.mem, root, nd) != None
    {
      KeyMono(v0, v0 + n, nd.level);
      if n > 0 { KeyStep(v0 + n - 1, nd.level); }
      assert OnRange(nd, v0, n + 1) <==> OnRange(nd, v0, n) || OnRange(nd, v0 + n, 1);
    }
  }

  lemma ExtendRights(m: Machine, m1: Machine, m2: Machine, root: nat, v0: nat, n: nat, flags: Word)
    requires v0 + n < VPAGES && RightsEffect(m, m1, root, v0, n, flags) && RightsEffect(m1, m2, root, v0 + n, 1, flags)
    ensures RightsEffect(m, m2, root, v0, n + 1, flags)
  {
    hide Rights, Key, Writable, User;
    KeyMono(v0, v0 + n, 3);
    if n > 0 { KeyStep(v0 + n - 1, 3); }
    forall u: nat | u < VPAGES
      ensures Restricted(Rights(m.mem, root, u, 1), Rights(m2.mem, root, u, 1), flags)
      ensures Key(u, 3) < Key(v0, 3) || Key(u, 3) > Key(v0 + n, 3) ==> Rights(m2.mem, root, u, 1) == Rights(m.mem, root, u, 1)
    {
      assert Restricted(Rights(m.mem, root, u, 1), Rights(m1.mem, root, u, 1), flags);
      assert Restricted(Rights(m1.mem, root, u, 1), Rights(m2.mem, root, u, 1), flags);
    }
  }

  /** One mapping as a range of length one. */
  lemma OnePage(m1: Machine, m2: Machine, root: nat, p: nat, vp: nat, flags: Word, pat: nat)
    requires vp < VPAGES && MapEffect(m1, m2, root, vp, flags, MappedView(m1.mem, root, vp, p, flags, pat))
    requires Allows(m1.mem, root, vp, flags)
    requires |FreePages(m2.pmm)| == |FreePages(m1.pmm)| - Missing(m1.mem, root, vp)
    ensures RangeEffect(m1, m2, root, p, vp, 1, flags, pat)
  {
    OnePageTables(m1, m2, root, vp);
    OnePageCost(m1.mem, root, vp);
  }

  lemma OnePageTables(m1: Machine, m2: Machine, root: nat, vp: nat)
    requires vp < VPAGES
    requires forall n: Node :: (ValidNode(n) && (TableAt(m1.mem, root, n) != None || n != On(vp, n.level))
                                ==> TableAt(m2.mem, root, n) == TableAt(m1.mem, root, n))
    requires forall l :: 1 <= l <= 3 ==> TableAt(m2.mem, root, On(vp, l)) != None
    ensures TablesEffect(m1, m2, root, vp, 1)
  {
    forall nd: Node | ValidNode(nd)
      ensures TableAt(m1.mem, root, nd) != None || !OnRange(nd, vp, 1) ==> TableAt(m2.mem, root, nd) == TableAt(m1.mem, root, nd)
      ensures OnRange(nd, vp, 1) ==> TableAt(m2.mem, root, nd) != None
    {
      if nd.level == 4 { OnIsValid(vp, 4); }
      assert OnRange(nd, vp, 1) <==> nd == On(vp, nd.level) && nd.level <= 3;
    }
  }

  lemma OnePageCost(mem: seq<Table>, root: nat, vp: nat)
    ensures RangeCost(mem, root, vp, 1) == Missing(mem, root, vp)
  {
    AbsentOne(mem, root, 1, Key(vp, 1));
    AbsentOne(mem, root, 2, Key(vp, 2));
    AbsentOne(mem, root, 3, Key(vp, 3));
  }

  /** vmm_map_range over n pages: every page of the range is walked to its frame with exactly the
      requested bits and rights, every other page as before; and exactly the missing tables were
      taken from the allocator. */
  lemma {:induction false} MapRangeEffect(m: Machine, root: nat, p0: nat, n: nat, offset: Word, flags: Word, pat: nat)
    requires Inv(m, root) && MapFlags(flags) && p0 + n <= 0x100_0000_0000
    requires VPage(Shifted(p0, offset)) + n <= VPAGES
    requires forall u: nat :: VPage(Shifted(p0, offset)) <= u < VPage(Shifted(p0, offset)) + n ==> Allows(m.mem, root, u, flags)
    requires RangeCost(m.mem, root, VPage(Shifted(p0, offset)), n) <= |FreePages(m.pmm)|
    ensures RangeEffect(m, MapPages(m, root, p0, n, offset, flags, pat), root, p0, VPage(Shifted(p0, offset)), n, flags, pat)
    decreases n
  {
    hide TableAt, Rights, WalkFrom, Map, VPage, Shifted, TablesEffect, RightsEffect, WalksEffect, RangeCost, Inv, Allows, Key, Missing;
    if n > 0 {
      var v0 := VPage(Shifted(p0, offset));
      CostMono(m.mem, root, v0, n - 1);
      MapRangeEffect(m, root, p0, n - 1, offset, flags, pat);
      var m1 := MapPages(m, root, p0, n - 1, offset, flags, pat);
      RangeStep(m, m1, root, p0, v0, n - 1, offset, flags, pat);
    } else {
      EmptyRange(m, root, p0, VPage(Shifted(p0, offset)), flags, pat);
    }
  }

  lemma EmptyRange(m: Machine, root: nat, p0: nat, v0: nat, flags: Word, pat: nat)
    requires Inv(m, root)
    ensures RangeEffect(m, m, root, p0, v0, 0, flags, pat)
  {
  }

  /** One more page after n pages. */
  lemma RangeStep(m: Machine, m1: Machine, root: nat, p0: nat, v0: nat, n: nat, offset: Word, flags: Word, pat: nat)
    requires RangeEffect(m, m1, root, p0, v0, n, flags, pat) && MapFlags(flags)
    requires v0 == VPage(Shifted(p0, offset)) && v0 + n < VPAGES && p0 + n < 0x100_0000_0000
    requires RangeCost(m.mem, root, v0, n + 1) <= |FreePages(m.pmm)|
    requires Allows(m.mem, root, v0 + n, flags)
    ensures RangeEffect(m, Map(m1, root, 4096 * (p0 + n), Shifted(p0 + n, offset), flags, pat), root, p0, v0, n + 1, flags, pat)
  {
    hide TableAt, Rights, WalkFrom, Map, VPage, Shifted, TablesEffect, RightsEffect, WalksEffect, RangeCost, Inv, Allows, Key, Missing;
    var m2 := Map(m1, root, 4096 * (p0 + n), Shifted(p0 + n, offset), flags, pat);
    CostStep(m, m1, root, v0, n);
    VPageOfShifted(p0, n, offset);
    MapIsOnePoint(m1, root, p0 + n, Shifted(p0 + n, offset), flags, pat);
    AllowsStill(m, m1, root, v0, n, flags);
    OnePage(m1, m2, root, p0 + n, v0 + n, flags, pat);
    RangeCompose(m, m1, m2, root, p0, v0, n, flags, pat);
  }

  lemma AllowsStill(m: Machine, m1: Machine, root: nat, v0: nat, n: nat, flags: Word)
    requires RightsEffect(m, m1, root, v0, n, flags) && v0 + n < VPAGES && Allows(m.mem, root, v0 + n, flags)
    ensures Allows(m1.mem, root, v0 + n, flags)
  {
    assert Restricted(Rights(m.mem, root, v0 + n, 1), Rights(m1.mem, root, v0 + n, 1), flags);
  }

  lemma RangeCompose(m: Machine, m1: Machine, m2: Machine, root: nat, p0: nat, v0: nat, n: nat, flags: Word, pat: nat)
    requires RangeEffect(m, m1, root, p0, v0, n, flags, pat) && v0 + n < VPAGES
    requires RangeEffect(m1, m2, root, p0 + n, v0 + n, 1, flags, pat)
    ensures RangeEffect(m, m2, root, p0, v0, n + 1, flags, pat)
  {
    ExtendTables(m, m1, m2, root, v0, n);
    ExtendRights(m, m1, m2, root, v0, n, flags);
    CostStep(m, m1, root, v0, n);
    OnePageCost(m1.mem, root, v0 + n);
    ExtendWalks(m, m1, m2, root, p0, v0, n, flags, pat);
  }

  lemma ExtendWalks(m: Machine, m1: Machine, m2: Machine, root: nat, p0: nat, v0: nat, n: nat, flags: Word, pat: nat)
    requires v0 + n < VPAGES && WalksEffect(m, m1, root, p0, v0, n, flags, pat)
    requires WalksEffect(m1, m2, root, p0 + n, v0 + n, 1, flags, pat)
    ensures WalksEffect(m, m2, root, p0, v0, n + 1, flags, pat)
  {
    forall u: nat | u < VPAGES
      ensures Walk(m2.mem, root, u) ==
              if v0 <= u < v0 + n + 1 then Page(p0 + (u - v0), OrWord(flags, PatFlags(pat)), Writable(flags), User(flags))
              else Walk(m.mem, root, u)
    {
      assert u == v0 + n || Walk(m2.mem, root, u) == Walk(m1.mem, root, u);
    }
  }

  lemma CostMono(mem: seq<Table>, root: nat, v0: nat, n: nat)
    ensures RangeCost(mem, root, v0, n) <= RangeCost(mem, root, v0, n + 1)
  {
    if n > 0 {
      LevelCostMono(mem, root, 1, v0, n);
      LevelCostMono(mem, root, 2, v0, n);
      LevelCostMono(mem, root, 3, v0, n);
    }
  }

  lemma LevelCostMono(mem: seq<Table>, root: nat, l: nat, v0: nat, n: nat)
    requires n > 0
    ensures LevelCost(mem, root, l, v0, n) <= LevelCost(mem, root, l, v0, n + 1)
  {
    hide Key, Absent;
    KeyStep(v0 + n - 1, l);
    KeyMono(v0, v0 + n - 1, l);
  }

  // ---------------------------------------------------------------- vmm_unmap_range

  /** Every page of the range pays for all its missing tables, because none of them is linked. */
  function UnmapCost(mem: seq<Table>, root: nat, w0: nat, n: nat): (v: nat)
  {
    if n == 0 then 0 else UnmapCost(mem, root, w0, n - 1) + Missing(mem, root, w0 + n - 1)
  }

  ghost predicate UnmapRangeEffect(m: Machine, m': Machine, root: nat, w0: nat, n: nat)
  {
    && Inv(m', root) && m'.pmm.pages == m.pmm.pages && |m'.mem| == |m.mem|
    && (forall nd: Node :: ValidNode(nd) ==> TableAt(m'.mem, root, nd) == TableAt(m.mem, root, nd))
    && (forall u: nat :: u < VPAGES ==>
          Walk(m'.mem, root, u) == if w0 <= u < w0 + n then Fault else Walk(m.mem, root, u))
    && |FreePages(m'.pmm)| == |FreePages(m.pmm)| - UnmapCost(m.mem, root, w0, n)
  }

  /** vmm_unmap_range over n pages: exactly the pages of the range lose their translation. */
  lemma {:induction false} UnmapRangeIs(m: Machine, root: nat, v0: nat, n: nat)
    requires Inv(m, root) && v0 + n <= 0x10_0000_0000_0000 && v0 % VPAGES + n <= VPAGES
    requires UnmapCost(m.mem, root, v0 % VPAGES, n) <= |FreePages(m.pmm)|
    ensures UnmapRangeEffect(m, UnmapPages(m, root, v0, n), root, v0 % VPAGES, n)
    decreases n
  {
    hide TableAt, Rights, WalkFrom, Unmap, VPage, Missing;
    if n > 0 {
      var m1 := UnmapPages(m, root, v0, n - 1);
      UnmapRangeIs(m, root, v0, n - 1);
      var w := v0 % VPAGES + n - 1;
      VPageOfPage(v0, n - 1);
      SameMissing(m, m1, root, w);
      UnmapIsOnePoint(m1, root, 4096 * (v0 + n - 1));
      UnmapCompose(m, m1, UnmapPages(m, root, v0, n), root, v0 % VPAGES, n - 1);
    }
  }

  lemma VPageOfPage(v0: nat, j: nat)
    requires v0 + j < 0x10_0000_0000_0000 && v0 % VPAGES + j < VPAGES
    ensures VPage(4096 * (v0 + j)) == v0 % VPAGES + j
  {
    AddMultiple(v0 + j, 0, 4096);
    var q, r := v0 / VPAGES, v0 % VPAGES;
    assert v0 + j == q * VPAGES + (r + j);
    DivModUnique(v0 + j, VPAGES, q, r + j);
  }

  lemma SameMissing(m: Machine, m1: Machine, root: nat, w: nat)
    requires w < VPAGES
    requires forall nd: Node :: ValidNode(nd) ==> TableAt(m1.mem, root, nd) == TableAt(m.mem, root, nd)
    ensures Missing(m1.mem, root, w) == Missing(m.mem, root, w)
  {
    OnIsValid(w, 1);
    OnIsValid(w, 2);
    OnIsValid(w, 3);
  }

  lemma UnmapCompose(m: Machine, m1: Machine, m2: Machine, root: nat, w0: nat, n: nat)
    requires w0 + n < VPAGES && UnmapRangeEffect(m, m1, root, w0, n) && UnmapEffect(m1, m2, root, w0 + n)
    requires |FreePages(m2.pmm)| == |FreePages(m1.pmm)| - Missing(m.mem, root, w0 + n)
    ensures UnmapRangeEffect(m, m2, root, w0, n + 1)
  {
    hide TableAt, Rights, WalkFrom, Missing;
    forall nd: Node | ValidNode(nd) ensures TableAt(m2.mem, root, nd) == TableAt(m.mem, root, nd) {
      assert TableAt(m1.mem, root, nd) == TableAt(m.mem, root, nd);
    }
    forall u: nat | u < VPAGES
      ensures Walk(m2.mem, root, u) == if w0 <= u < w0 + n + 1 then Fault else Walk(m.mem, root, u)
    {
      assert u != w0 + n ==> Walk(m2.mem, root, u) == Walk(m1.mem, root, u);
    }
  }
}

/** Runs of map and unmap calls, interleaved with the processor setting accessed and dirty bits:
    the tables stay a tree, and the hardware's walk is the finite map that the calls describe. */
module PageRun {
  import opened Words
  import opened PmmSpec
  import opened PageTables
  import opened PageTree
  import opened PageMap

  datatype Step =
    | MapPage(frame: nat, virt: Word, flags: Word, pat: nat)
    | UnmapPage(virt: Word)
    /** The processor marks the present entry i of the table at a place as accessed; a leaf entry
        that is written through is marked dirty too. */
    | Touch(node: Node, i: nat, write: bool)

  function TouchBits(level: nat, write: bool): (n: Word)
  {
    if level == 1 && write then 96 else 32
  }

  function TouchEntry(m: Machine, root: nat, n: Node, i: nat, write: bool): (r: Machine)
  {
    match TableAt(m.mem, root, n)
    case None => m
    case Some(t) =>
      if ValidNode(n) && Present(Load(m.mem, t, i))
      then m.(mem := Store(m.mem, t, i, OrWord(Load(m.mem, t, i), TouchBits(n.level, write))))
      else m
  }

  /** b without the accessed and dirty bits. */
  function Settled(b: int): (n: int)
  {
    b - 32 * (b / 32 % 4)
  }

  /** The frame, the bits up to accessed and dirty, and the rights that a walk yields. */
  datatype Mapping = Mapping(frame: nat, bits: int, writable: bool, user: bool)

  function Seen(t: Translation): (r: Option<Mapping>)
  {
    match t
    case Page(f, b, w, u) => Some(Mapping(f, Settled(b), w, u))
    case _ => None
  }

  /** What the tables say of a page: how far the way to it reaches, the rights that the entries on
      the way grant, and what the walk yields. */
  datatype PageState = PageState(depth: nat, rights: (bool, bool), mapping: Option<Mapping>)

  function View(m: Machine, root: nat, u: nat): (v: PageState)
  {
    PageState(Depth(m.mem, root, u), Rights(m.mem, root, u, 1), Seen(Walk(m.mem, root, u)))
  }

  function Exec(m: Machine, root: nat, s: Step): (r: Machine)
  {
    match s
    case MapPage(p, virt, flags, pat) => if p < 0x100_0000_0000 then Map(m, root, 4096 * p, virt, flags, pat) else m
    case UnmapPage(virt) => Unmap(m, root, virt)
    case Touch(n, i, write) => TouchEntry(m, root, n, i, write)
  }

  function Run(m: Machine, root: nat, steps: seq<Step>): (r: Machine)
  {
    if steps == [] then m else Exec(Run(m, root, steps[..|steps| - 1]), root, steps[|steps| - 1])
  }

  /** Arguments that the kernel's callers pass. */
  predicate GoodArguments(s: Step)
  {
    s.MapPage? ==> MapFlags(s.flags) && s.frame < 0x100_0000_0000
  }

  /** The frames a call takes. */
  function Needs(m: Machine, root: nat, s: Step): (n: nat)
  {
    match s
    case MapPage(_, virt, _, _) => Missing(m.mem, root, VPage(virt))
    case UnmapPage(virt) => Missing(m.mem, root, VPage(virt))
    case Touch(_, _, _) => 0
  }

  /** Every call has good arguments and finds the frames it needs. */
  ghost predicate ValidRun(m: Machine, root: nat, steps: seq<Step>)
  {
    steps == [] ||
    (var before := steps[..|steps| - 1];
     && ValidRun(m, root, before)
     && GoodArguments(steps[|steps| - 1])
     && Needs(Run(m, root, before), root, steps[|steps| - 1]) <= |FreePages(Run(m, root, before).pmm)|)
  }

  /** The level of the lowest table that two pages share. */
  function Shared(u: nat, v: nat): (l: nat)
    ensures 1 <= l <= 4
  {
    if Key(u, 1) == Key(v, 1) then 1
    else if Key(u, 2) == Key(v, 2) then 2
    else if Key(u, 3) == Key(v, 3) then 3
    else 4
  }

  /** What one step does to page u. A mapping takes the rights of the way as they were before it; the
      tables it creates restrict every page that goes through them, by the flags of that mapping. */
  function ModelOf(was: PageState, s: Step, u: nat): (now: PageState)
  {
    match s
    case MapPage(p, virt, flags, pat) =>
      var l := Shared(u, VPage(virt));
      var mapped := Mapping(p, Settled(OrWord(flags, PatFlags(pat))), was.rights.0 && Writable(flags), was.rights.1 && User(flags));
      PageState(if l < was.depth then l else was.depth, if l < was.depth then Both(was.rights, flags) else was.rights,
                if VPage(virt) == u then Some(mapped) else was.mapping)
    case UnmapPage(virt) => if VPage(virt) == u then was.(mapping := None) else was
    case Touch(_, _, _) => was
  }

  /** The state of page u after the steps, given its state before them. */
  function Model(was: PageState, steps: seq<Step>, u: nat): (now: PageState)
  {
    if steps == [] then was else ModelOf(Model(was, steps[..|steps| - 1], u), steps[|steps| - 1], u)
  }

  // ---------------------------------------------------------------- accessed and dirty bits

  /** Setting accessed and dirty bits leaves everything else of an entry alone. */
  lemma TouchedEntry(e: Word, b: Word, e': Word)
    requires (b == 32 || b == 96) && e' == OrWord(e, b)
    ensures SameUpper(e, e') && HwFrame(e') == HwFrame(e) && Present(e) == Present(e')
    ensures Writable(e) == Writable(e') && User(e) == User(e')
    ensures Settled(OtherBits(e')) == Settled(OtherBits(e))
  {
    TouchedParts(e, b);
    NextTableIs(e);
    NextTableIs(e');
    var h, h' := e / 128, e' / 128;
    assert e / 512 == h / 4 && e' / 512 == h' / 4;
    assert e / 4096 == h / 32 && e' / 4096 == h' / 32;
    LowOfFive(e); LowOfFive(e');
    SettledIs(e); SettledIs(e');
  }

  lemma TouchedParts(e: Word, b: Word)
    requires b == 32 || b == 96
    ensures OrWord(e, b) / 128 == e / 128 && OrWord(e, b) % 32 == e % 32
  {
    assert Pow2(7) == 128 && Pow2(5) == 32;
    OrAbove(e, b, 7);
    assert b % 32 == 0;
    OrBelow(e, b, 5);
  }

  /** `|` with low bits keeps the part above them, and with high bits the part below them. */
  lemma OrAbove(e: nat, b: nat, k: nat)
    requires b < Pow2(k)
    ensures BitOr(e, b) / Pow2(k) == e / Pow2(k)
  {
    OrSplit(e, b, k);
    LowOfSmall(b, k);
    ShiftArithmetic(e, k);
    ShiftArithmetic(BitOr(e, b), k);
  }

  lemma OrBelow(e: nat, b: nat, k: nat)
    requires b % Pow2(k) == 0
    ensures BitOr(e, b) % Pow2(k) == e % Pow2(k)
  {
    OrSplit(e, b, k);
    ShiftArithmetic(e, k);
    ShiftArithmetic(b, k);
    ShiftArithmetic(BitOr(e, b), k);
  }

  lemma LowOfFive(e: Word)
    ensures e % 2 == e % 32 % 2 && e / 2 % 2 == e % 32 / 2 % 2 && e / 4 % 2 == e % 32 / 4 % 2
  {
    var q, r := e / 32, e % 32;
    AddMultiple(16 * q, r, 2);
    AddMultiple(8 * q, r / 2, 2);
    AddMultiple(8 * q, r, 4);
    AddMultiple(4 * q, r / 4, 2);
  }

  lemma SettledIs(e: Word)
    ensures Settled(OtherBits(e)) == e / 128 * 128 - 4096 * HwFrame(e) + e % 32
  {
    var h := HwFrame(e);
    var x := OtherBits(e);
    var q, r := e / 128, e % 128;
    assert e == 128 * q + r && x == 128 * (q - 32 * h) + r;
    SettledFrom(q - 32 * h, r);
    AddMultiple(4 * q, r, 32);
  }

  lemma SettledFrom(k: int, r: nat)
    requires r < 128
    ensures Settled(128 * k + r) == 128 * k + r % 32
  {
    var x, s, t := 128 * k + r, r / 32, r % 32;
    assert x == 32 * (4 * k + s) + t;
    EuclidUnique(32, x / 32, x % 32, 4 * k + s, t);
    EuclidUnique(4, (4 * k + s) / 4, (4 * k + s) % 4, k, s);
  }

  /** What a touch keeps: the tables and the state of every page. */
  ghost predicate TouchEffect(m: Machine, m': Machine, root: nat)
  {
    && Inv(m', root) && m'.pmm == m.pmm
    && (forall n: Node :: ValidNode(n) ==> TableAt(m'.mem, root, n) == TableAt(m.mem, root, n))
    && (forall u: nat :: u < VPAGES ==> View(m', root, u) == View(m, root, u))
  }

  lemma TouchKeeps(m: Machine, root: nat, n: Node, i: nat, write: bool)
    requires Inv(m, root)
    ensures TouchEffect(m, TouchEntry(m, root, n, i, write), root)
  {
    var m' := TouchEntry(m, root, n, i, write);
    match TableAt(m.mem, root, n)
    case None =>
    case Some(t) =>
      if ValidNode(n) && Present(Load(m.mem, t, i)) {
        var e := Load(m.mem, t, i);
        TouchedEntry(e, TouchBits(n.level, write), OrWord(e, TouchBits(n.level, write)));
        TouchStore(m, m', root, t, i, OrWord(e, TouchBits(n.level, write)));
      }
  }

  /** Two entries that differ in accessed and dirty bits only. */
  ghost predicate SameSettled(e: Word, w: Word)
  {
    && SameUpper(e, w) && Present(e) && Writable(e) == Writable(w) && User(e) == User(w)
    && HwFrame(e) == HwFrame(w) && Settled(OtherBits(e)) == Settled(OtherBits(w))
  }

  lemma TouchStore(m: Machine, m': Machine, root: nat, t: nat, i: nat, w: Word)
    requires Inv(m, root) && m' == m.(mem := Store(m.mem, t, i, w)) && SameSettled(Load(m.mem, t, i), w)
    ensures TouchEffect(m, m', root)
  {
    hide *;
    StoreKeepsTree(m.mem, m'.mem, root, t, i, w);
    TouchInv(m, m', root);
    forall u: nat | u < VPAGES ensures View(m', root, u) == View(m, root, u) {
      TouchedView(m, m', root, t, i, w, u);
    }
    TouchEffectIs(m, m', root);
  }

  lemma TouchEffectIs(m: Machine, m': Machine, root: nat)
    requires Inv(m', root) && m'.pmm == m.pmm
    requires forall n: Node :: ValidNode(n) ==> TableAt(m'.mem, root, n) == TableAt(m.mem, root, n)
    requires forall u: nat :: u < VPAGES ==> View(m', root, u) == View(m, root, u)
    ensures TouchEffect(m, m', root)
  {
  }

  lemma TouchedView(m: Machine, m': Machine, root: nat, t: nat, i: nat, w: Word, u: nat)
    requires Inv(m, root) && Inv(m', root) && KeepsTree(m.mem, m'.mem, root) && u < VPAGES
    requires m'.mem == Store(m.mem, t, i, w) && SameSettled(Load(m.mem, t, i), w)
    ensures View(m', root, u) == View(m, root, u)
  {
    hide Rights, TableAt, Depth, KeepsTree, Inv, Walk, LeafView;
    SameDepth(m.mem, m'.mem, root, u);
    SameRightsAbove(m.mem, m'.mem, root, u, 1);
    WalkIsLeafView(m, root, u);
    WalkIsLeafView(m', root, u);
    SeenLeaf(m.mem, m'.mem, root, t, i, w, u);
  }

  lemma StoreKeepsTree(mem: seq<Table>, mem': seq<Table>, root: nat, t: nat, i: nat, w: Word)
    requires mem' == Store(mem, t, i, w) && SameSettled(Load(mem, t, i), w)
    ensures KeepsTree(mem, mem', root)
  {
    forall s: nat, j: nat ensures SameUpper(Load(mem, s, j), Load(mem', s, j)) {
      assert Load(mem', s, j) == if s == t && j == i then w else Load(mem, s, j);
    }
  }

  lemma TouchInv(m: Machine, m': Machine, root: nat)
    requires Inv(m, root) && KeepsTree(m.mem, m'.mem, root) && m'.pmm == m.pmm
    ensures Inv(m', root)
    ensures forall n: Node :: ValidNode(n) ==> TableAt(m'.mem, root, n) == TableAt(m.mem, root, n)
  {
    KeepsInv(m, m', root);
    forall n: Node | ValidNode(n) ensures TableAt(m'.mem, root, n) == TableAt(m.mem, root, n) {
      SameTables(m.mem, m'.mem, root, n);
    }
  }

  lemma SeenLeaf(mem: seq<Table>, mem': seq<Table>, root: nat, t: nat, i: nat, w: Word, u: nat)
    requires mem' == Store(mem, t, i, w) && SameSettled(Load(mem, t, i), w) && u < VPAGES
    requires KeepsTree(mem, mem', root)
    ensures Seen(LeafView(mem', root, u)) == Seen(LeafView(mem, root, u))
  {
    hide TableAt, Rights, KeepsTree, HwFrame, Writable, User, Settled, Present, SameSettled;
    KeepsLeafView(mem, mem', root, u);
    match TableAt(mem, root, On(u, 1))
    case None =>
    case Some(s) =>
      StoredWord(mem, t, i, w, s, u % 512);
      SeenEntry(Load(mem, t, i), w, Rights(mem, root, u, 1));
  }

  lemma StoredWord(mem: seq<Table>, t: nat, i: nat, w: Word, s: nat, j: nat)
    requires SameSettled(Load(mem, t, i), w)
    ensures Load(Store(mem, t, i, w), s, j) == if s == t && j == i then w else Load(mem, s, j)
  {
    hide SameUpper, Settled, HwFrame, Writable, User, OtherBits;
  }

  lemma SeenEntry(e: Word, w: Word, r: (bool, bool))
    requires SameSettled(e, w)
    ensures Seen(LeafOf(w, r)) == Seen(LeafOf(e, r))
  {
    hide HwFrame, Writable, User, Settled, OtherBits;
  }

  // ---------------------------------------------------------------- runs

  /** Over every run of map and unmap calls, however the processor sets accessed and dirty bits in
      between: the tables stay a tree of distinct used frames, and every page is walked to what the
      last call about it says, with the rights that this call and the tables on the way allow. */
  lemma {:induction false} RunRefines(m: Machine, root: nat, steps: seq<Step>)
    requires Inv(m, root) && ValidRun(m, root, steps)
    ensures Inv(Run(m, root, steps), root)
    ensures forall u: nat :: u < VPAGES ==> View(Run(m, root, steps), root, u) == Model(View(m, root, u), steps, u)
  {
    hide View, ModelOf, Inv, Exec, GoodArguments, Needs;
    if steps == [] {
      assert Run(m, root, steps) == m;
    } else {
      var before, s := steps[..|steps| - 1], steps[|steps| - 1];
      RunRefines(m, root, before);
      StepRefines(Run(m, root, before), root, s);
    }
  }

  lemma StepRefines(m: Machine, root: nat, s: Step)
    requires Inv(m, root) && GoodArguments(s) && Needs(m, root, s) <= |FreePages(m.pmm)|
    ensures var m' := Exec(m, root, s);
            && Inv(m', root) && |FreePages(m'.pmm)| == |FreePages(m.pmm)| - Needs(m, root, s)
            && forall u: nat :: u < VPAGES ==> View(m', root, u) == ModelOf(View(m, root, u), s, u)
  {
    hide TableAt, Rights, WalkFrom, Map, Unmap, TouchEntry, VPage, Missing, View, Inv, MapEffect, UnmapEffect, FreePages, MappedView;
    match s
    case MapPage(p, virt, flags, pat) =>
      MapIsOnePoint(m, root, p, virt, flags, pat);
      MapStep(m, Exec(m, root, s), root, s);
    case UnmapPage(virt) =>
      UnmapIsOnePoint(m, root, virt);
      UnmapView(m, Exec(m, root, s), root, virt);
    case Touch(n, i, write) => TouchKeeps(m, root, n, i, write);
  }

  lemma MapStep(m: Machine, m': Machine, root: nat, s: Step)
    requires s.MapPage? && VPage(s.virt) < VPAGES
    requires MapEffect(m, m', root, VPage(s.virt), s.flags, MappedView(m.mem, root, VPage(s.virt), s.frame, s.flags, s.pat))
    ensures Inv(m', root)
    ensures forall u: nat :: u < VPAGES ==> View(m', root, u) == ModelOf(View(m, root, u), s, u)
  {
    hide Inv, View, ModelOf, MappedView, Walk, Rights, TableAt, Depth, VPage, Shared;
    forall u: nat | u < VPAGES ensures View(m', root, u) == ModelOf(View(m, root, u), s, u) {
      MapDepth(m, m', root, VPage(s.virt), s.flags, MappedView(m.mem, root, VPage(s.virt), s.frame, s.flags, s.pat), u);
      assert NarrowsAt(m.mem, m'.mem, root, s.flags, u);
      MapView(m, m', root, s, u);
    }
  }

  lemma MapView(m: Machine, m': Machine, root: nat, s: Step, u: nat)
    requires s.MapPage? && NarrowsAt(m.mem, m'.mem, root, s.flags, u)
    requires var l, was := Shared(u, VPage(s.virt)), Depth(m.mem, root, u);
             Depth(m'.mem, root, u) == if l < was then l else was
    requires Walk(m'.mem, root, u) ==
               if u == VPage(s.virt) then MappedView(m.mem, root, u, s.frame, s.flags, s.pat) else Walk(m.mem, root, u)
    ensures View(m', root, u) == ModelOf(View(m, root, u), s, u)
  {
    hide Walk, Rights, Depth, VPage, Shared, Settled, Writable, User;
  }

  /** Mapping vp brings the tables that it shares with u into being. */
  lemma MapDepth(m: Machine, m': Machine, root: nat, vp: nat, flags: Word, view: Translation, u: nat)
    requires MapEffect(m, m', root, vp, flags, view) && u < VPAGES && vp < VPAGES
    ensures var l, was := Shared(u, vp), Depth(m.mem, root, u);
            Depth(m'.mem, root, u) == if l < was then l else was
  {
    hide Inv, Narrows, Walk, Rights;
    forall l | 1 <= l <= 3 ensures (TableAt(m'.mem, root, On(u, l)) == None) == (TableAt(m.mem, root, On(u, l)) == None && Key(u, l) != Key(vp, l)) {
      OnIsValid(u, l);
      OnIsValid(vp, l);
    }
    SharedUp(u, vp);
    NoneDown(m.mem, root, u);
    hide *;
  }

  lemma SharedUp(u: nat, v: nat)
    ensures Key(u, 1) == Key(v, 1) ==> Key(u, 2) == Key(v, 2)
    ensures Key(u, 2) == Key(v, 2) ==> Key(u, 3) == Key(v, 3)
  {
  }

  /** Without a table there is none below it. */
  lemma NoneDown(mem: seq<Table>, root: nat, u: nat)
    requires u < VPAGES
    ensures TableAt(mem, root, On(u, 3)) == None ==> TableAt(mem, root, On(u, 2)) == None
    ensures TableAt(mem, root, On(u, 2)) == None ==> TableAt(mem, root, On(u, 1)) == None
  {
    OnIsValid(u, 2);
    OnIsValid(u, 1);
  }

  lemma UnmapView(m: Machine, m': Machine, root: nat, virt: Word)
    requires VPage(virt) < VPAGES && UnmapEffect(m, m', root, VPage(virt))
    ensures Inv(m', root)
    ensures forall u: nat :: u < VPAGES ==> View(m', root, u) == ModelOf(View(m, root, u), UnmapPage(virt), u)
  {
    hide Inv, Walk, Rights, TableAt, VPage, Key;
    forall u: nat | u < VPAGES ensures View(m', root, u) == ModelOf(View(m, root, u), UnmapPage(virt), u) {
      OnIsValid(u, 1); OnIsValid(u, 2); OnIsValid(u, 3);
    }
  }

  /** In a run that starts with no tables below the root, the flags of the first mapping hold for all
      pages that share a leaf table with it: a later mapping of a neighbour is writable if and only if
      both calls asked for it. */
  lemma NeighbourRights(m: Machine, root: nat, first: Step, second: Step, u: nat)
    requires Inv(m, root) && ValidRun(m, root, [first, second]) && first.MapPage? && second.MapPage?
    requires u == VPage(second.virt) < VPAGES && Depth(m.mem, root, u) == 4 && u != VPage(first.virt)
    requires Key(u, 1) == Key(VPage(first.virt), 1)
    ensures var now := View(Run(m, root, [first, second]), root, u).mapping;
            && now.Some? && now.value.frame == second.frame
            && (now.value.writable <==> Writable(first.flags) && Writable(second.flags))
            && (now.value.user <==> User(first.flags) && User(second.flags))
  {
    hide Inv, Run, ValidRun, VPage, Key, Walk, Settled, Writable, User, Model, ModelOf, Depth, Rights;
    RunRefines(m, root, [first, second]);
    RootRights(m.mem, root, u);
    NeighbourModel(View(m, root, u), first, second, u);
  }

  lemma NeighbourModel(was: PageState, first: Step, second: Step, u: nat)
    requires first.MapPage? && second.MapPage? && was.depth == 4 && was.rights == (true, true)
    requires u == VPage(second.virt) && u != VPage(first.virt) && Key(u, 1) == Key(VPage(first.virt), 1)
    ensures Model(was, [first, second], u).mapping
         == Some(Mapping(second.frame, Settled(OrWord(second.flags, PatFlags(second.pat))),
                         Writable(first.flags) && Writable(second.flags), User(first.flags) && User(second.flags)))
  {
    hide VPage, Key, Settled, Writable, User;
    assert [first, second][..1] == [first] && [first][..0] == [];
    assert Model(was, [first], u) == ModelOf(Model(was, [], u), first, u);
    assert Model(was, [first, second], u) == ModelOf(Model(was, [first], u), second, u);
  }

  /** A missing table restricts nothing. */
  lemma RootRights(mem: seq<Table>, root: nat, u: nat)
    requires u < VPAGES && Depth(mem, root, u) == 4
    ensures Rights(mem, root, u, 1) == (true, true)
  {
    hide Key;
    OnIsValid(u, 3); OnIsValid(u, 2); OnIsValid(u, 1);
    NoneDown(mem, root, u);
    assert Rights(mem, root, u, 4) == (true, true);
    assert Rights(mem, root, u, 3) == (true, true);
    assert Rights(mem, root, u, 2) == (true, true);
  }

  // ---------------------------------------------------------------- effective rights

  /** Mapping k creates a table on the way to u: it shares a lower table with u than any there was. */
  predicate Creates(depth: nat, steps: seq<Step>, k: nat, u: nat)
    requires k < |steps|
  {
    && steps[k].MapPage? && Shared(u, VPage(steps[k].virt)) < depth
    && forall i :: 0 <= i < k && steps[i].MapPage? ==> Shared(u, VPage(steps[k].virt)) < Shared(u, VPage(steps[i].virt))
  }

  predicate CreatorsWritable(depth: nat, steps: seq<Step>, n: nat, u: nat)
    requires n <= |steps|
  {
    forall k :: 0 <= k < n && Creates(depth, steps, k, u) ==> Writable(steps[k].flags)
  }

  predicate CreatorsUser(depth: nat, steps: seq<Step>, n: nat, u: nat)
    requires n <= |steps|
  {
    forall k :: 0 <= k < n && Creates(depth, steps, k, u) ==> User(steps[k].flags)
  }

  predicate Changes(s: Step, u: nat)
  {
    !s.Touch? && VPage(s.virt) == u
  }

  /** Step j is the last one about page u. */
  predicate LastAbout(steps: seq<Step>, j: nat, u: nat)
  {
    j < |steps| && Changes(steps[j], u) && forall i :: j < i < |steps| ==> !Changes(steps[i], u)
  }

  /** The way to u reaches as far as the lowest table that u shares with a mapped page. */
  lemma {:induction false} DepthIs(was: PageState, steps: seq<Step>, u: nat)
    ensures var d := Model(was, steps, u).depth;
            && d <= was.depth
            && (forall i :: 0 <= i < |steps| && steps[i].MapPage? ==> d <= Shared(u, VPage(steps[i].virt)))
            && (d == was.depth || exists i :: 0 <= i < |steps| && steps[i].MapPage? && d == Shared(u, VPage(steps[i].virt)))
  {
    hide Shared, VPage;
    if steps == [] {
    } else {
      var before := steps[..|steps| - 1];
      DepthIs(was, before, u);
      var d := Model(was, before, u).depth;
      if d != was.depth {
        var i :| 0 <= i < |before| && before[i].MapPage? && d == Shared(u, VPage(before[i].virt));
        assert steps[i] == before[i];
      }
    }
  }

  lemma PrefixCreates(depth: nat, steps: seq<Step>, n: nat, u: nat)
    requires n <= |steps|
    ensures CreatorsWritable(depth, steps[..n], n, u) == CreatorsWritable(depth, steps, n, u)
    ensures CreatorsUser(depth, steps[..n], n, u) == CreatorsUser(depth, steps, n, u)
  {
    hide Shared, VPage, Writable, User;
    forall k | 0 <= k < n ensures Creates(depth, steps[..n], k, u) == Creates(depth, steps, k, u) {
      assert forall i :: 0 <= i <= k ==> steps[..n][i] == steps[i];
    }
  }

  /** The last step creates a table exactly when it makes the way longer. */
  lemma CreatesIff(was: PageState, steps: seq<Step>, u: nat)
    requires steps != [] && steps[|steps| - 1].MapPage?
    ensures var n := |steps| - 1;
            Creates(was.depth, steps, n, u) <==> Shared(u, VPage(steps[n].virt)) < Model(was, steps[..n], u).depth
  {
    hide Shared, VPage, Model;
    var n := |steps| - 1;
    var l, before := Shared(u, VPage(steps[n].virt)), steps[..n];
    DepthIs(was, before, u);
    var d := Model(was, before, u).depth;
    if l < d {
      forall i | 0 <= i < n && steps[i].MapPage? ensures l < Shared(u, VPage(steps[i].virt)) {
        assert before[i] == steps[i];
      }
    } else if d != was.depth {
      var i :| 0 <= i < |before| && before[i].MapPage? && d == Shared(u, VPage(before[i].virt));
      assert steps[i] == before[i];
    }
  }

  /** The rights on the way to u are those of all mappings that created a table on it. */
  lemma {:induction false} RightsAre(was: PageState, steps: seq<Step>, u: nat)
    ensures var r := Model(was, steps, u).rights;
            && (r.0 <==> was.rights.0 && CreatorsWritable(was.depth, steps, |steps|, u))
            && (r.1 <==> was.rights.1 && CreatorsUser(was.depth, steps, |steps|, u))
  {
    hide Shared, VPage, Writable, User, Creates;
    if steps == [] {
    } else {
      var n := |steps| - 1;
      RightsAre(was, steps[..n], u);
      PrefixCreates(was.depth, steps, n, u);
      if steps[n].MapPage? {
        CreatesIff(was, steps, u);
      } else {
        NoCreator(was.depth, steps, u);
      }
    }
  }

  lemma NoCreator(depth: nat, steps: seq<Step>, u: nat)
    requires steps != [] && !steps[|steps| - 1].MapPage?
    ensures !Creates(depth, steps, |steps| - 1, u)
  {
  }

  lemma {:induction false} MappingIs(was: PageState, steps: seq<Step>, j: nat, u: nat)
    requires LastAbout(steps, j, u)
    ensures var now, way := Model(was, steps, u).mapping, Model(was, steps[..j], u).rights;
            match steps[j]
            case MapPage(p, _, flags, pat) =>
              now == Some(Mapping(p, Settled(OrWord(flags, PatFlags(pat))), way.0 && Writable(flags), way.1 && User(flags)))
            case _ => now == None
  {
    hide Shared, VPage, Writable, User, Settled;
    var n := |steps| - 1;
    if j < n {
      var before := steps[..n];
      assert before[..j] == steps[..j] && before[j] == steps[j];
      assert forall i :: j < i < n ==> before[i] == steps[i];
      MappingIs(was, before, j, u);
      assert !Changes(steps[n], u);
    }
  }

  /** The effective rights of a page after any run: it is writable if and only if its last mapping
      asked for it, every earlier mapping that created a table on its way asked for it, and so did
      the way that there was at the start. The same for user access. */
  lemma RightsIff(m: Machine, root: nat, steps: seq<Step>, j: nat, u: nat)
    requires Inv(m, root) && ValidRun(m, root, steps) && u < VPAGES
    requires LastAbout(steps, j, u) && steps[j].MapPage?
    ensures var now, was := View(Run(m, root, steps), root, u).mapping, View(m, root, u);
            && now.Some? && now.value.frame == steps[j].frame
            && (now.value.writable <==> Writable(steps[j].flags) && was.rights.0 && CreatorsWritable(was.depth, steps, j, u))
            && (now.value.user <==> User(steps[j].flags) && was.rights.1 && CreatorsUser(was.depth, steps, j, u))
  {
    hide Inv, Run, ValidRun, View, Model, VPage, Settled, Writable, User, Creates, LastAbout, CreatorsWritable, CreatorsUser;
    RunRefines(m, root, steps);
    assert j < |steps| by { LastIsStep(steps, j, u); }
    var was := View(m, root, u);
    MappingIs(was, steps, j, u);
    RightsAre(was, steps[..j], u);
    PrefixCreates(was.depth, steps, j, u);
  }

  lemma LastIsStep(steps: seq<Step>, j: nat, u: nat)
    requires LastAbout(steps, j, u)
    ensures j < |steps|
  {
  }

  /** A call takes at most three frames, so three free frames per step are always enough. */
  lemma {:induction false} ThreeFramesPerStep(m: Machine, root: nat, steps: seq<Step>)
    requires Inv(m, root) && (forall k :: 0 <= k < |steps| ==> GoodArguments(steps[k]))
    requires 3 * |steps| <= |FreePages(m.pmm)|
    ensures ValidRun(m, root, steps)
    ensures |FreePages(Run(m, root, steps).pmm)| >= |FreePages(m.pmm)| - 3 * |steps|
  {
    hide TableAt, Rights, WalkFrom, Exec, VPage;
    if steps != [] {
      var before, s := steps[..|steps| - 1], steps[|steps| - 1];
      ThreeFramesPerStep(m, root, before);
      RunRefines(m, root, before);
      var m1 := Run(m, root, before);
      NeedsAtMostThree(m1, root, s);
      StepRefines(m1, root, s);
    }
  }

  lemma NeedsAtMostThree(m: Machine, root: nat, s: Step)
    ensures Needs(m, root, s) <= 3
  {
  }

  /** A narrowed page: after a read-only mapping of a neighbour, a read-write mapping is not writable. */
  lemma NarrowedPage(m: Machine, root: nat, first: Word, second: Word, u: nat)
    requires Inv(m, root) && |FreePages(m.pmm)| >= 6
    requires u == VPage(second) < VPAGES && Depth(m.mem, root, u) == 4 && u != VPage(first) && Key(u, 1) == Key(VPage(first), 1)
    ensures var steps := [MapPage(0, first, 1, 0), MapPage(1, second, 3, 0)];
            && ValidRun(m, root, steps) && Writable(steps[1].flags)
            && var now := View(Run(m, root, steps), root, u).mapping; now.Some? && now.value.frame == 1 && !now.value.writable
  {
    hide Inv, Run, ValidRun, View, VPage, Key, Depth, FreePages;
    var steps := [MapPage(0, first, 1, 0), MapPage(1, second, 3, 0)];
    ThreeFramesPerStep(m, root, steps);
    NeighbourRights(m, root, steps[0], steps[1], u);
  }
}

/** The tree of tables behind a root frame: which table sits at which place of the tree, what the
    hardware's walk yields, and how one write to one entry changes both. */
module PageTree {
  import opened Words
  import opened PmmSpec
  import opened PageTables

  /** A place in the tree: level 4 is the root, level 1 holds the leaf entries. */
  datatype Node = Node(level: nat, key: nat)

  function KeyLimit(level: nat): (n: nat)
  {
    if level >= 4 then 1 else if level == 3 then 512 else if level == 2 then 0x4_0000 else 0x800_0000
  }

  predicate ValidNode(n: Node)
  {
    1 <= n.level <= 4 && n.key < KeyLimit(n.level)
  }

  function Parent(n: Node): (r: Node)
  {
    Node(n.level + 1, n.key / 512)
  }

  function Child(n: Node, i: nat): (r: Node)
    requires n.level > 0
  {
    Node(n.level - 1, n.key * 512 + i)
  }

  /** The place of the level-l table that page vp goes through. */
  function On(vp: nat, l: nat): (n: Node)
  {
    Node(l, Key(vp, l))
  }

  lemma OnIsValid(vp: nat, l: nat)
    requires vp < VPAGES && 1 <= l <= 4
    ensures ValidNode(On(vp, l))
    ensures l > 1 ==> On(vp, l - 1) == Child(On(vp, l), Index(vp, l))
    ensures l < 4 ==> Parent(On(vp, l)) == On(vp, l + 1)
  {
    IndicesOfPage(vp);
    assert Key(vp, 4) == Key(vp, 3) / 512;
  }

  /** Word i of table t; reads outside RAM yield 0. */
  function Load(mem: seq<Table>, t: nat, i: nat): (n: Word)
  {
    if t < |mem| && i < 512 then mem[t][i] else 0
  }

  /** The entry that leads from the table at a place to the place below it. */
  function Below(mem: seq<Table>, t: Option<nat>, i: nat): (r: Option<nat>)
  {
    if t.Some? && Present(Load(mem, t.value, i)) then Some(HwFrame(Load(mem, t.value, i))) else None
  }

  /** The frame of the table at a place, if the entries leading there are present. */
  function TableAt(mem: seq<Table>, root: nat, n: Node): (r: Option<nat>)
    decreases 4 - n.level
  {
    if n.level >= 4 then Some(root) else Below(mem, TableAt(mem, root, Parent(n)), n.key % 512)
  }

  /** Table t is reached at place n. */
  predicate Reach(mem: seq<Table>, root: nat, n: Node, t: nat)
  {
    ValidNode(n) && TableAt(mem, root, n) == Some(t)
  }

  /** An upper entry names a table the same way for the hardware and for the software. */
  predicate GoodUpper(e: Word)
  {
    Present(e) ==> NextTable(e) == 4096 * HwFrame(e) && !PageSizeBit(e)
  }

  /** A frame that can be a table: in RAM, not frame 0, taken from the allocator. */
  predicate UsedFrame(m: Machine, t: nat)
  {
    0 < t < m.pmm.pages && t < |m.pmm.bits| && m.pmm.bits[t]
  }

  ghost predicate Inv(m: Machine, root: nat)
  {
    && Wf(m.pmm) && m.pmm.pages <= |m.mem| && m.pmm.pages <= 0x100_0000_0000
    && (forall n: Node, t: nat :: Reach(m.mem, root, n, t) ==> UsedFrame(m, t))
    && (forall n: Node, n': Node, t: nat :: Reach(m.mem, root, n, t) && Reach(m.mem, root, n', t) ==> n == n')
    && (forall n: Node, t: nat, i: nat :: Reach(m.mem, root, n, t) && n.level > 1 ==> GoodUpper(Load(m.mem, t, i)))
  }

  // ---------------------------------------------------------------- the hardware's walk

  datatype Translation = Fault | Large(level: nat) | Page(frame: nat, bits: int, writable: bool, user: bool)

  /** The walk from a table at a level down; w and u collect the rights of the entries above. */
  function WalkFrom(mem: seq<Table>, table: nat, level: nat, vp: nat, w: bool, u: bool): (r: Translation)
    requires level > 0
    decreases level
  {
    var e := Load(mem, table, Index(vp, level));
    if !Present(e) then Fault
    else if level == 1 then Page(HwFrame(e), OtherBits(e), w && Writable(e), u && User(e))
    else if PageSizeBit(e) then (if level == 4 then Fault else Large(level))
    else WalkFrom(mem, HwFrame(e), level - 1, vp, w && Writable(e), u && User(e))
  }

  function Walk(mem: seq<Table>, root: nat, vp: nat): (r: Translation)
  {
    WalkFrom(mem, root, 4, vp, true, true)
  }

  /** The rights r under entry i of table t, when that entry is present. */
  function Granted(mem: seq<Table>, t: Option<nat>, i: nat, r: (bool, bool)): (next: (bool, bool))
  {
    if t.Some? && Present(Load(mem, t.value, i))
    then (r.0 && Writable(Load(mem, t.value, i)), r.1 && User(Load(mem, t.value, i)))
    else r
  }

  /** The rights that the present entries above level l grant on the way to vp. */
  function Rights(mem: seq<Table>, root: nat, vp: nat, l: nat): (r: (bool, bool))
    decreases 4 - l
  {
    if l >= 4 then (true, true)
    else Granted(mem, TableAt(mem, root, On(vp, l + 1)), Index(vp, l + 1), Rights(mem, root, vp, l + 1))
  }

  /** The level of the lowest table on the way to vp. */
  function Depth(mem: seq<Table>, root: nat, vp: nat): (l: nat)
    ensures 1 <= l <= 4
  {
    if TableAt(mem, root, On(vp, 3)) == None then 4
    else if TableAt(mem, root, On(vp, 2)) == None then 3
    else if TableAt(mem, root, On(vp, 1)) == None then 2
    else 1
  }

  /** What a leaf entry yields under the rights r. */
  function LeafOf(e: Word, r: (bool, bool)): (t: Translation)
  {
    if Present(e) then Page(HwFrame(e), OtherBits(e), r.0 && Writable(e), r.1 && User(e)) else Fault
  }

  /** The walk is the leaf entry of the level-1 table at vp's place, under the rights above it. */
  function LeafView(mem: seq<Table>, root: nat, vp: nat): (r: Translation)
  {
    match TableAt(mem, root, On(vp, 1))
    case None => Fault
    case Some(t) => LeafOf(Load(mem, t, vp % 512), Rights(mem, root, vp, 1))
  }

  lemma {:induction false} WalkDown(m: Machine, root: nat, vp: nat, l: nat)
    requires Inv(m, root) && vp < VPAGES && 1 <= l <= 4
    ensures match TableAt(m.mem, root, On(vp, l))
            case None => LeafView(m.mem, root, vp) == Fault
            case Some(t) =>
              var (w, u) := Rights(m.mem, root, vp, l);
              WalkFrom(m.mem, t, l, vp, w, u) == LeafView(m.mem, root, vp)
    decreases l
  {
    OnIsValid(vp, l);
    if l > 1 {
      OnIsValid(vp, l - 1);
      WalkDown(m, root, vp, l - 1);
      match TableAt(m.mem, root, On(vp, l))
      case None =>
      case Some(t) => assert Reach(m.mem, root, On(vp, l), t);
    } else {
      match TableAt(m.mem, root, On(vp, 1))
      case None =>
      case Some(t) => assert Reach(m.mem, root, On(vp, 1), t);
    }
  }

  lemma WalkIsLeafView(m: Machine, root: nat, vp: nat)
    requires Inv(m, root) && vp < VPAGES
    ensures Walk(m.mem, root, vp) == LeafView(m.mem, root, vp)
  {
    OnIsValid(vp, 4);
    WalkDown(m, root, vp, 4);
  }

  // ---------------------------------------------------------------- writes that keep the tree

  /** Two upper entries that lead to the same place with the same rights. */
  predicate SameUpper(e: Word, e': Word)
  {
    && Present(e) == Present(e')
    && (Present(e) ==> HwFrame(e) == HwFrame(e') && NextTable(e) == NextTable(e') && SameRights(e, e'))
  }

  /** mem' keeps every upper entry of every table of the tree up to SameUpper. */
  ghost predicate KeepsTree(mem: seq<Table>, mem': seq<Table>, root: nat)
  {
    && |mem'| == |mem|
    && (forall n: Node, t: nat, i: nat :: Reach(mem, root, n, t) && n.level > 1
          ==> SameUpper(Load(mem, t, i), Load(mem', t, i)))
  }

  lemma {:induction false} SameTables(mem: seq<Table>, mem': seq<Table>, root: nat, n: Node)
    requires KeepsTree(mem, mem', root) && ValidNode(n)
    ensures TableAt(mem', root, n) == TableAt(mem, root, n)
    decreases 4 - n.level
  {
    if n.level < 4 {
      ParentIsValid(n);
      SameTables(mem, mem', root, Parent(n));
      match TableAt(mem, root, Parent(n))
      case None =>
      case Some(t) => assert Reach(mem, root, Parent(n), t);
    }
  }

  lemma ParentIsValid(n: Node)
    requires ValidNode(n) && n.level < 4
    ensures ValidNode(Parent(n)) && Parent(n).level > 1 && n == Child(Parent(n), n.key % 512)
  {
  }

  lemma {:induction false} SameRightsAbove(mem: seq<Table>, mem': seq<Table>, root: nat, vp: nat, l: nat)
    requires KeepsTree(mem, mem', root) && vp < VPAGES && 1 <= l
    ensures Rights(mem', root, vp, l) == Rights(mem, root, vp, l)
    decreases 4 - l
  {
    if l < 4 {
      SameRightsAbove(mem, mem', root, vp, l + 1);
      OnIsValid(vp, l + 1);
      SameTables(mem, mem', root, On(vp, l + 1));
      match TableAt(mem, root, On(vp, l + 1))
      case None =>
      case Some(t) => assert Reach(mem, root, On(vp, l + 1), t);
    }
  }

  /** Pages stay used, and the allocator stays well-formed. */
  ghost predicate PmmGrows(s: State, s': State)
  {
    && Wf(s') && s'.pages == s.pages && |s'.bits| == |s.bits|
    && (forall p :: 0 <= p < |s.bits| && s.bits[p] ==> s'.bits[p])
  }

  /** A write that keeps the tree keeps the invariant. */
  lemma KeepsInv(m: Machine, m': Machine, root: nat)
    requires Inv(m, root) && KeepsTree(m.mem, m'.mem, root) && PmmGrows(m.pmm, m'.pmm)
    ensures Inv(m', root)
    ensures forall n: Node, t: nat :: Reach(m'.mem, root, n, t) <==> Reach(m.mem, root, n, t)
  {
    forall n: Node, t: nat ensures Reach(m'.mem, root, n, t) <==> Reach(m.mem, root, n, t) {
      if ValidNode(n) { SameTables(m.mem, m'.mem, root, n); }
    }
  }

  /** A write that keeps the tree changes the walk of vp only through vp's leaf entry. */
  lemma KeepsLeafView(mem: seq<Table>, mem': seq<Table>, root: nat, vp: nat)
    requires KeepsTree(mem, mem', root) && vp < VPAGES
    ensures TableAt(mem', root, On(vp, 1)) == TableAt(mem, root, On(vp, 1))
    ensures Rights(mem', root, vp, 1) == Rights(mem, root, vp, 1)
  {
    OnIsValid(vp, 1);
    SameTables(mem, mem', root, On(vp, 1));
    SameRightsAbove(mem, mem', root, vp, 1);
  }

  // ---------------------------------------------------------------- linking a fresh table

  /** mem with word w stored in entry i of table t. */
  function Store(mem: seq<Table>, t: nat, i: nat, w: Word): (r: seq<Table>)
    ensures |r| == |mem|
  {
    if t < |mem| && i < 512 then
      var table: Table := mem[t][i := w];
      mem[t := table]
    else mem
  }

  /** mem with frame f zeroed. */
  function Zero(mem: seq<Table>, f: nat): (r: seq<Table>)
    ensures |r| == |mem|
  {
    if f < |mem| then mem[f := ZeroTable()] else mem
  }

  /** Entry i of the table t at place p was absent and now names the zeroed frame f, which is not
      in the tree. */
  ghost predicate Links(mem: seq<Table>, mem': seq<Table>, root: nat, p: Node, t: nat, i: nat, f: nat, w: Word)
  {
    && Reach(mem, root, p, t) && p.level > 1 && i < 512 && t < |mem| && f < |mem| && f != t
    && (forall n: Node :: Reach(mem, root, n, t) ==> n == p)
    && (forall n: Node :: !Reach(mem, root, n, f))
    && !Present(Load(mem, t, i))
    && mem' == Store(Zero(mem, f), t, i, w)
    && Present(w) && HwFrame(w) == f && GoodUpper(w)
  }

  /** What a link does to the words of memory. */
  lemma LinkWords(mem: seq<Table>, mem': seq<Table>, root: nat, p: Node, t: nat, i: nat, f: nat, w: Word, s: nat, j: nat)
    requires Links(mem, mem', root, p, t, i, f, w)
    ensures Load(mem', s, j) == if s == t && j == i then w else if s == f then 0 else Load(mem, s, j)
  {
  }

  lemma {:induction false} LinkTables(mem: seq<Table>, mem': seq<Table>, root: nat, p: Node, t: nat, i: nat, f: nat, w: Word, n: Node)
    requires Links(mem, mem', root, p, t, i, f, w) && ValidNode(n)
    ensures TableAt(mem', root, n) == if n == Child(p, i) then Some(f) else TableAt(mem, root, n)
    ensures n == Child(p, i) ==> TableAt(mem, root, n) == None
    decreases 4 - n.level
  {
    if n.level < 4 {
      ParentIsValid(n);
      var q := Parent(n);
      LinkTables(mem, mem', root, p, t, i, f, w, q);
      LinkBelow(mem, mem', root, p, t, i, f, w, q, n.key % 512);
      if q != p { SameSide(q, p, n.key % 512, i); }
    }
  }

  lemma LinkBelow(mem: seq<Table>, mem': seq<Table>, root: nat, p: Node, t: nat, i: nat, f: nat, w: Word, q: Node, j: nat)
    requires Links(mem, mem', root, p, t, i, f, w) && ValidNode(q)
    ensures var was := TableAt(mem, root, q);
            && (q == p ==> Below(mem', was, j) == if j == i then Some(f) else Below(mem, was, j))
            && (q == p && j == i ==> Below(mem, was, j) == None)
            && (q != p ==> Below(mem', was, j) == Below(mem, was, j))
            && Below(mem', Some(f), j) == None
  {
    LinkWords(mem, mem', root, p, t, i, f, w, f, j);
    match TableAt(mem, root, q)
    case None =>
    case Some(s) =>
      assert Reach(mem, root, q, s);
      LinkWords(mem, mem', root, p, t, i, f, w, s, j);
  }

  /** Different places have different children. */
  lemma SameSide(q: Node, p: Node, a: nat, i: nat)
    requires q.level > 0 && p.level > 0 && a < 512 && i < 512 && q != p
    ensures Child(q, a) != Child(p, i)
  {
  }

  /** Linking a fresh table keeps the invariant and adds exactly one place to the tree. */
  lemma LinkInv(m: Machine, m': Machine, root: nat, p: Node, t: nat, i: nat, f: nat, w: Word)
    requires Inv(m, root) && Links(m.mem, m'.mem, root, p, t, i, f, w)
    requires UsedFrame(m', f) && PmmGrows(m.pmm, m'.pmm)
    ensures Inv(m', root)
  {
    forall n: Node, s: nat | Reach(m'.mem, root, n, s)
      ensures if n == Child(p, i) then s == f else Reach(m.mem, root, n, s)
    {
      LinkTables(m.mem, m'.mem, root, p, t, i, f, w, n);
    }
    forall n: Node, s: nat, j: nat | Reach(m'.mem, root, n, s) && n.level > 1
      ensures GoodUpper(Load(m'.mem, s, j))
    {
      LinkWords(m.mem, m'.mem, root, p, t, i, f, w, s, j);
    }
  }

  lemma {:induction false} NoneBelow(mem: seq<Table>, root: nat, vp: nat, l: nat)
    requires vp < VPAGES && 1 <= l <= 4 && TableAt(mem, root, On(vp, l)) == None
    ensures TableAt(mem, root, On(vp, 1)) == None
    decreases l
  {
    if l > 1 {
      OnIsValid(vp, l - 1);
      NoneBelow(mem, root, vp, l - 1);
    }
  }

  /** What a link does to the table at place q: the new place holds an empty table, every other
      table keeps its words, except for the one entry that links. */
  ghost predicate LinkedAt(mem: seq<Table>, mem': seq<Table>, root: nat, p: Node, i: nat, w: Word, q: Node)
  {
    var was, now := TableAt(mem, root, q), TableAt(mem', root, q);
    if p.level > 0 && q == Child(p, i) then
      was == None && now.Some? && forall j: nat :: Load(mem', now.value, j) == 0
    else
      && now == was
      && (was.Some? ==> forall j: nat :: (q != p || j != i) ==> Load(mem', was.value, j) == Load(mem, was.value, j))
      && (q == p ==> was.Some? && !Present(Load(mem, was.value, i)) && Load(mem', was.value, i) == w)
  }

  lemma LinkAt(mem: seq<Table>, mem': seq<Table>, root: nat, p: Node, t: nat, i: nat, f: nat, w: Word, q: Node)
    requires Links(mem, mem', root, p, t, i, f, w) && ValidNode(q)
    ensures LinkedAt(mem, mem', root, p, i, w, q)
  {
    LinkTables(mem, mem', root, p, t, i, f, w, q);
    forall s: nat, j: nat
      ensures Load(mem', s, j) == if s == t && j == i then w else if s == f then 0 else Load(mem, s, j)
    {
      LinkWords(mem, mem', root, p, t, i, f, w, s, j);
    }
    match TableAt(mem, root, q)
    case None =>
    case Some(s) => assert Reach(mem, root, q, s);
  }

  /** The rights r above level l, further restricted by w if the new link lies above level l. */
  function UnderLink(r: (bool, bool), vp: nat, p: Node, i: nat, w: Word, l: nat): (next: (bool, bool))
  {
    if 0 < p.level && l < p.level && On(vp, p.level - 1) == Child(p, i) then (r.0 && Writable(w), r.1 && User(w)) else r
  }

  /** The rights after a link. */
  lemma {:induction false} LinkRights(mem: seq<Table>, mem': seq<Table>, root: nat, p: Node, i: nat, w: Word, vp: nat, l: nat)
    requires vp < VPAGES && 1 <= l && ValidNode(p) && p.level > 1 && i < 512 && Present(w)
    requires forall q: Node :: ValidNode(q) ==> LinkedAt(mem, mem', root, p, i, w, q)
    ensures Rights(mem', root, vp, l) == UnderLink(Rights(mem, root, vp, l), vp, p, i, w, l)
    decreases 4 - l
  {
    if l < 4 {
      LinkRights(mem, mem', root, p, i, w, vp, l + 1);
      OnIsValid(vp, l + 1);
      LinkGranted(mem, mem', root, p, i, w, vp, l);
    }
  }

  lemma LinkGranted(mem: seq<Table>, mem': seq<Table>, root: nat, p: Node, i: nat, w: Word, vp: nat, l: nat)
    requires vp < VPAGES && 1 <= l < 4 && ValidNode(p) && p.level > 1 && i < 512 && Present(w)
    requires LinkedAt(mem, mem', root, p, i, w, On(vp, l + 1))
    ensures var q := On(vp, l + 1);
            var r := Rights(mem, root, vp, l + 1);
            Granted(mem', TableAt(mem', root, q), Index(vp, l + 1), UnderLink(r, vp, p, i, w, l + 1))
            == UnderLink(Granted(mem, TableAt(mem, root, q), Index(vp, l + 1), r), vp, p, i, w, l)
  {
    hide Writable, User, HwFrame, TableAt, Rights;
    OnIsValid(vp, l + 1);
    var q, a := On(vp, l + 1), Index(vp, l + 1);
    var r := Rights(mem, root, vp, l + 1);
    assert On(vp, l) == Child(q, a);
    if q == p {
      assert On(vp, l) == Child(p, i) <==> a == i;
    } else if q == Child(p, i) {
      assert UnderLink(r, vp, p, i, w, l) == UnderLink(r, vp, p, i, w, l + 1);
    } else {
      SameSide(q, p, a, i);
      var g := Granted(mem, TableAt(mem, root, q), a, r);
      assert UnderLink(r, vp, p, i, w, l) == UnderLink(r, vp, p, i, w, l + 1);
    }
  }

  /** Linking a fresh, empty table changes no walk. */
  lemma LinkWalk(mem: seq<Table>, mem': seq<Table>, root: nat, p: Node, i: nat, w: Word, vp: nat)
    requires vp < VPAGES && ValidNode(p) && p.level > 1 && i < 512
    requires LinkedAt(mem, mem', root, p, i, w, On(vp, 1))
    requires LinkedAt(mem, mem', root, p, i, w, On(vp, p.level - 1))
    requires Rights(mem', root, vp, 1) == UnderLink(Rights(mem, root, vp, 1), vp, p, i, w, 1)
    ensures LeafView(mem', root, vp) == LeafView(mem, root, vp)
  {
    var l := p.level - 1;
    if On(vp, l) == Child(p, i) {
      NoneBelow(mem, root, vp, l);
      if l > 1 { assert On(vp, 1).level != l; }
    }
  }

  // ---------------------------------------------------------------- writing a leaf entry

  /** A store into a level-1 table keeps the tree. */
  lemma LeafKeepsTree(m: Machine, root: nat, p: Node, t: nat, i: nat, w: Word)
    requires Inv(m, root) && Reach(m.mem, root, p, t) && p.level == 1
    ensures KeepsTree(m.mem, Store(m.mem, t, i, w), root)
  {
  }

  /** Changes outside the tree, and between absent upper entries, change no walk. */
  lemma OutsideKeepsWalks(mem: seq<Table>, mem': seq<Table>, root: nat)
    requires KeepsTree(mem, mem', root)
    requires forall n: Node, t: nat, i: nat :: Reach(mem, root, n, t) && n.level == 1 ==> Load(mem', t, i) == Load(mem, t, i)
    ensures forall vp: nat :: vp < VPAGES ==> LeafView(mem', root, vp) == LeafView(mem, root, vp)
  {
    forall vp: nat | vp < VPAGES ensures LeafView(mem', root, vp) == LeafView(mem, root, vp) {
      OnIsValid(vp, 1);
      SameTables(mem, mem', root, On(vp, 1));
      SameRightsAbove(mem, mem', root, vp, 1);
      match TableAt(mem, root, On(vp, 1))
      case None =>
      case Some(s) => assert Reach(mem, root, On(vp, 1), s);
    }
  }

  /** A store into entry vp of vp's leaf table decides the walk of vp and no other. */
  lemma LeafWrite(m: Machine, root: nat, vp: nat, t: nat, w: Word)
    requires Inv(m, root) && vp < VPAGES && TableAt(m.mem, root, On(vp, 1)) == Some(t)
    ensures var mem' := Store(m.mem, t, vp % 512, w);
            && KeepsTree(m.mem, mem', root)
            && LeafView(mem', root, vp) == LeafOf(w, Rights(m.mem, root, vp, 1))
            && forall u: nat :: u < VPAGES && u != vp ==> LeafView(mem', root, u) == LeafView(m.mem, root, u)
  {
    var mem' := Store(m.mem, t, vp % 512, w);
    OnIsValid(vp, 1);
    assert Reach(m.mem, root, On(vp, 1), t);
    LeafKeepsTree(m, root, On(vp, 1), t, vp % 512, w);
    KeepsLeafView(m.mem, mem', root, vp);
    forall u: nat | u < VPAGES && u != vp ensures LeafView(mem', root, u) == LeafView(m.mem, root, u) {
      OnIsValid(u, 1);
      KeepsLeafView(m.mem, mem', root, u);
      assert TableAt(m.mem, root, On(u, 1)) == Some(t) ==> Reach(m.mem, root, On(u, 1), t);
      OtherLeaf(m.mem, root, vp, t, w, u);
    }
  }

  lemma OtherLeaf(mem: seq<Table>, root: nat, vp: nat, t: nat, w: Word, u: nat)
    requires u != vp
    requires TableAt(mem, root, On(u, 1)) == Some(t) ==> On(u, 1) == On(vp, 1)
    ensures match TableAt(mem, root, On(u, 1))
            case None => true
            case Some(s) => Load(Store(mem, t, vp % 512, w), s, u % 512) == Load(mem, s, u % 512)
  {
    assert Key(vp, 1) == vp / 512 && Key(u, 1) == u / 512;
  }
}

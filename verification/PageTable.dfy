/** 4-level page tables in memory, as vmm.c builds them, and the hardware's walk over them
    (Intel 64 and IA-32 SDM Vol. 3A, section 4.5). Pure functions on the machine state. */
module PageTables {
  import opened Words
  import opened PmmSpec

  datatype Option<T> = None | Some(value: T)

  /** One frame seen as a table of 512 words. */
  type Table = t: seq<Word> | |t| == 512 witness seq(512, _ => 0)

  function ZeroTable(): (t: Table)
    ensures forall i :: 0 <= i < 512 ==> t[i] == 0
  {
    seq(512, _ => 0)
  }

  /** RAM by frame number, and the frame allocator. */
  datatype Machine = Machine(mem: seq<Table>, pmm: State)

  // ---------------------------------------------------------------- entries

  predicate Present(e: Word) { e % 2 == 1 }
  predicate Writable(e: Word) { e / 2 % 2 == 1 }
  predicate User(e: Word) { e / 4 % 2 == 1 }
  /** Bit 7: page size at the upper levels, PAT in a leaf. */
  predicate PageSizeBit(e: Word) { e / 128 % 2 == 1 }

  /** The flags by the masks of vmm.h. */
  lemma FlagBits(e: Word)
    ensures Present(e) <==> BitAnd(e, 1) != 0
    ensures Writable(e) <==> BitAnd(e, 2) != 0
    ensures User(e) <==> BitAnd(e, 4) != 0
    ensures PageSizeBit(e) <==> BitAnd(e, 128) != 0
  {
    FlagBit(e, 0, 1); FlagBit(e, 1, 2); FlagBit(e, 2, 4); FlagBit(e, 7, 128);
  }

  lemma FlagBit(e: Word, k: nat, p: nat)
    requires Pow2(k) == p
    ensures BitAnd(e, p) != 0 <==> e / p % 2 == 1
  {
    BitIs(e, k);
    MaskTest(e, k);
  }

  /** Bits 51:12, the frame the hardware follows. */
  function HwFrame(e: Word): (n: nat) { e / 4096 % 0x100_0000_0000 }

  /** Everything outside bits 51:12. */
  function OtherBits(e: Word): (n: int) { e - 4096 * HwFrame(e) }

  /** `entry & ~(511)`, the address the software follows. */
  function NextTable(e: Word): (n: nat) { BitAnd(e, WORD_LIMIT - 512) }

  function OrWord(a: Word, b: Word): (n: Word)
  {
    Pow2Word();
    OrBound(a, b, 64);
    BitOr(a, b)
  }

  lemma NextTableIs(e: Word)
    ensures NextTable(e) == e / 512 * 512
  {
    Pow2Word();
    assert Pow2(9) == 512;
    AndHighMask(e, 64, 9);
    ShiftArithmetic(e, 9);
  }

  /** A table entry made of a frame address and flags below 512 keeps both parts apart, whatever
      accessed and dirty bits the processor adds. */
  lemma EntryParts(frame: nat, flags: Word, e: Word)
    requires frame < 0x100_0000_0000 && flags < 512 && e == OrWord(4096 * frame, flags)
    ensures e == 4096 * frame + flags
    ensures HwFrame(e) == frame && NextTable(e) == 4096 * frame && OtherBits(e) == flags
    ensures SameRights(e, flags)
  {
    OrAligned(frame, flags);
    SumParts(frame, flags, e);
  }

  predicate SameRights(e: Word, flags: Word)
  {
    && Present(e) == Present(flags) && Writable(e) == Writable(flags) && User(e) == User(flags)
    && PageSizeBit(e) == PageSizeBit(flags)
  }

  lemma SumParts(frame: nat, flags: Word, e: Word)
    requires frame < 0x100_0000_0000 && flags < 512 && e == 4096 * frame + flags
    ensures HwFrame(e) == frame && NextTable(e) == 4096 * frame && OtherBits(e) == flags
    ensures SameRights(e, flags)
  {
    NextTableIs(e);
    LowParts(frame, flags);
    SmallMod(frame, 0x100_0000_0000);
  }

  lemma OrAligned(frame: nat, flags: Word)
    requires frame < 0x100_0000_0000 && flags < 4096
    ensures OrWord(4096 * frame, flags) == 4096 * frame + flags
  {
    assert Pow2(12) == 4096;
    AlignedLow(frame, 12);
    OrDisjoint(4096 * frame, flags, 12);
  }

  lemma AlignedLow(frame: nat, n: nat)
    requires Pow2(n) == 4096
    ensures Low(4096 * frame, n) == 0
  {
    ShiftArithmetic(4096 * frame, n);
    AddMultiple(frame, 0, 4096);
  }

  lemma LowParts(frame: nat, flags: nat)
    requires frame < 0x100_0000_0000 && flags < 512
    ensures var e := 4096 * frame + flags;
            && e / 4096 == frame && e / 512 * 512 == 4096 * frame && e % 2 == flags % 2
            && e / 2 % 2 == flags / 2 % 2 && e / 4 % 2 == flags / 4 % 2 && e / 128 % 2 == flags / 128 % 2
  {
    AddMultiple(frame, flags, 4096);
    AddMultiple(8 * frame, flags, 512);
    AddMultiple(32 * frame, flags, 128);
    AddMultiple(1024 * frame, flags, 4);
    AddMultiple(2048 * frame, flags, 2);
    AddMultiple(16 * frame, flags / 128, 2);
    AddMultiple(512 * frame, flags / 4, 2);
    AddMultiple(1024 * frame, flags / 2, 2);
    SmallMod(flags, 4096);
    SmallMod(flags, 512);
  }

  // ---------------------------------------------------------------- addresses

  /** The 36-bit number of the virtual page: bits 47:12. */
  function VPage(v: Word): (vp: nat)
    ensures vp < VPAGES
  {
    v / 4096 % VPAGES
  }

  const VPAGES: nat := 0x10_0000_0000

  /** The number of the level-l table that vp goes through: its index bits above level l. */
  function Key(vp: nat, l: nat): (n: nat)
    decreases l
  {
    if l == 0 then vp else Key(vp, l - 1) / 512
  }

  function Index(vp: nat, l: nat): (i: nat)
    requires l > 0
    ensures i < 512
  {
    Key(vp, l - 1) % 512
  }

  /** `(virt & (0x1ff << s)) >> s`. */
  function PmlIndex(v: Word, s: nat): (i: nat)
    ensures i < 512
  {
    AndShifted(v, 511, s);
    assert Pow2(9) == 512;
    AndLowMask(Shr(v, s), 9);
    LowBound(Shr(v, s), 9);
    Shr(BitAnd(v, Shl(511, s)), s)
  }

  /** The four slices of vmm_set_pt_value are the four indices of the page, and together they
      determine it. */
  lemma IndicesOfAddress(v: Word)
    ensures PmlIndex(v, 39) == Index(VPage(v), 4)
    ensures PmlIndex(v, 30) == Index(VPage(v), 3)
    ensures PmlIndex(v, 21) == Index(VPage(v), 2)
    ensures PmlIndex(v, 12) == Index(VPage(v), 1)
    ensures VPage(v) == ((PmlIndex(v, 39) * 512 + PmlIndex(v, 30)) * 512 + PmlIndex(v, 21)) * 512 + PmlIndex(v, 12)
  {
    var p := v / 4096;
    ShrByNine(v);
    SliceIs(v, 12, p); SliceIs(v, 21, p / 512); SliceIs(v, 30, p / 512 / 512); SliceIs(v, 39, p / 512 / 512 / 512);
    SlicesOfPage(p);
    IndicesOfPage(VPage(v));
  }

  /** The low 36 bits of a page number have the same slices as the number itself. */
  lemma SlicesOfPage(p: nat)
    ensures var vp := p % VPAGES;
            && p % 512 == vp % 512 && p / 512 % 512 == vp / 512 % 512
            && p / 512 / 512 % 512 == vp / 512 / 512 % 512
            && p / 512 / 512 / 512 % 512 == vp / 512 / 512 / 512
  {
    var vp, hi := p % VPAGES, p / VPAGES;
    assert p / 512 == hi * 0x800_0000 + vp / 512;
    assert p / 512 / 512 == hi * 0x4_0000 + vp / 512 / 512;
    assert p / 512 / 512 / 512 == hi * 512 + vp / 512 / 512 / 512;
  }

  /** A page is determined by its four indices. */
  lemma IndicesOfPage(vp: nat)
    requires vp < VPAGES
    ensures Key(vp, 1) == vp / 512 && Key(vp, 2) == vp / 512 / 512 && Key(vp, 3) == vp / 512 / 512 / 512
    ensures vp == ((Index(vp, 4) * 512 + Index(vp, 3)) * 512 + Index(vp, 2)) * 512 + Index(vp, 1)
    ensures Index(vp, 4) == vp / 512 / 512 / 512
  {
  }

  lemma ShrByNine(v: Word)
    ensures Shr(v, 12) == v / 4096
    ensures Shr(v, 21) == v / 4096 / 512
    ensures Shr(v, 30) == v / 4096 / 512 / 512
    ensures Shr(v, 39) == v / 4096 / 512 / 512 / 512
  {
    var n, a := 9, 12;
    assert Pow2(9) == 512 && Pow2(12) == 4096;
    ShiftArithmetic(v, a);
    ShiftArithmetic(v / 4096, n);
    ShiftArithmetic(v / 4096 / 512, n);
    ShiftArithmetic(v / 4096 / 512 / 512, n);
    ShrShr(v, a, n); ShrShr(v, a + n, n); ShrShr(v, a + n + n, n);
  }

  lemma SliceIs(v: Word, s: nat, x: nat)
    requires Shr(v, s) == x
    ensures PmlIndex(v, s) == x % 512
  {
    var n := 9;
    AndShifted(v, 511, s);
    assert Pow2(9) == 512;
    AndLowMask(x, n);
    ShiftArithmetic(x, n);
  }

  /** VPage of an address rounded down to its page. */
  lemma VPageAligned(v: Word)
    ensures Pow2(12) <= WORD_LIMIT && AlignDown(v, 12) < WORD_LIMIT && VPage(AlignDown(v, 12)) == VPage(v)
  {
    PageAlignDown(v);
    AddMultiple(v / 4096, 0, 4096);
  }

  lemma PageAlignUp(v: Word)
    requires v + 4095 < WORD_LIMIT
    ensures Pow2(12) <= WORD_LIMIT && AlignUp(v, 12) == (v + 4095) / 4096 * 4096
  {
    assert Pow2(12) == 4096;
    AlignUpDiv(v, 12, 4096);
  }

  lemma PageAlignDown(v: Word)
    ensures Pow2(12) <= WORD_LIMIT && AlignDown(v, 12) == v / 4096 * 4096
  {
    var n := 12;
    assert Pow2(12) == 4096;
    AlignDownIs(v, n);
    ShiftArithmetic(v, n);
    ShiftArithmetic(v / 4096, n);
  }
}

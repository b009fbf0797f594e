/** The memory type of a mapped page: the page attribute table of cpu.h and the bits of a leaf entry that
    select in it (Intel 64 and IA-32 Architectures Software Developer's Manual, volume 3A, section 12.12). */
module PageCaching {
  import opened Words
  import opened PmmSpec
  import opened PageTables
  import opened PageTree
  import opened PageMap

  /** What enable_pat writes to the PAT register: each memory type in the byte that its own number names. */
  function PatConfig(): (n: nat)
  {
    BitOr(BitOr(BitOr(BitOr(BitOr(0, Shl(1, 8)), Shl(4, 32)), Shl(5, 40)), Shl(6, 48)), Shl(7, 56))
  }

  lemma PatConfigIs()
    ensures PatConfig() == 0x0706_0504_0000_0100
  {
    hide BitOr, Shl, Pow2;
    BytePowers();
    Join(0, 1, 8, 0x100);
    Join(0x100, 4, 32, 0x1_0000_0000);
    Join(0x4_0000_0100, 5, 40, 0x100_0000_0000);
    Join(0x504_0000_0100, 6, 48, 0x1_0000_0000_0000);
    Join(0x6_0504_0000_0100, 7, 56, 0x100_0000_0000_0000);
  }

  lemma BytePowers()
    ensures Pow2(8) == 0x100 && Pow2(32) == 0x1_0000_0000 && Pow2(40) == 0x100_0000_0000
    ensures Pow2(48) == 0x1_0000_0000_0000 && Pow2(56) == 0x100_0000_0000_0000
  {
    hide Pow2;
    Pow2Byte();
    Pow2Word();
    Pow2Sum(32, 8);
    Pow2Sum(40, 8);
    Pow2Sum(48, 8);
  }

  /** `low | t << k` puts t above the k bits of low. */
  lemma Join(low: nat, t: nat, k: nat, p: nat)
    requires Pow2(k) == p && low < p
    ensures BitOr(low, Shl(t, k)) == low + t * p
  {
    hide BitOr, Shl, Pow2;
    ShiftArithmetic(t, k);
    ShiftArithmetic(t * p, k);
    AddMultiple(t, 0, p);
    OrDisjoint(t * p, low, k);
    OrCommutes(low, t * p);
  }

  /** The memory type in entry i of the register. */
  function PatType(config: nat, i: nat): (t: nat)
    requires i < 8
  {
    (if i == 0 then config else if i == 1 then config / 0x100 else if i == 2 then config / 0x1_0000
     else if i == 3 then config / 0x100_0000 else if i == 4 then config / 0x1_0000_0000
     else if i == 5 then config / 0x100_0000_0000 else if i == 6 then config / 0x1_0000_0000_0000
     else config / 0x100_0000_0000_0000) % 8
  }

  /** The entry that the bits PWT, PCD and PAT of a leaf entry select. */
  function PatIndex(bits: int): (i: nat)
    ensures i < 8
  {
    bits / 8 % 2 + 2 * (bits / 16 % 2) + 4 * (bits / 128 % 2)
  }

  /** The memory types by number, with the values of pat_cache_t. */
  predicate IsPat(pat: nat)
  {
    pat == 0 || pat == 1 || pat == 4 || pat == 5 || pat == 6 || pat == 7
  }

  /** A page that vmm_map_page mapped, with any of the four privileges, has the memory type that the
      caller asked for. */
  lemma MappedMemoryType(m: Machine, root: nat, p: nat, virt: Word, flags: Word, pat: nat)
    requires Inv(m, root) && p < 0x100_0000_0000 && IsPat(pat) && (flags == 1 || flags == 3 || flags == 5 || flags == 7)
    requires Missing(m.mem, root, VPage(virt)) <= |FreePages(m.pmm)|
    ensures var t := Walk(Map(m, root, 4096 * p, virt, flags, pat).mem, root, VPage(virt));
            t.Page? && t.frame == p && PatType(PatConfig(), PatIndex(t.bits)) == pat
  {
    hide Inv, Missing, Walk, Map, MapEffect, PatConfig;
    MapIsOnePoint(m, root, p, virt, flags, pat);
    Effect(m, Map(m, root, 4096 * p, virt, flags, pat), root, VPage(virt), flags, MappedView(m.mem, root, VPage(virt), p, flags, pat));
    SelectsType(flags, pat);
  }

  lemma Effect(m: Machine, m': Machine, root: nat, vp: nat, flags: Word, view: Translation)
    requires MapEffect(m, m', root, vp, flags, view)
    ensures Walk(m'.mem, root, vp) == view
  {
  }

  lemma SelectsType(flags: Word, pat: nat)
    requires IsPat(pat) && (flags == 1 || flags == 3 || flags == 5 || flags == 7)
    ensures PatType(PatConfig(), PatIndex(OrWord(flags, PatFlags(pat)))) == pat
  {
    hide PatConfig, OrWord, PatType, PatIndex, PatFlags;
    PatConfigIs();
    CacheBits(pat);
    BitsTogether(flags, PatFlags(pat));
    IndexIs(flags, pat);
    TypeIs(pat);
  }

  lemma CacheBits(pat: nat)
    ensures PatFlags(pat) % 8 == 0
  {
  }

  /** The privilege bits do not take part in the selection. */
  lemma IndexIs(flags: Word, pat: nat)
    requires IsPat(pat) && flags < 8
    ensures PatIndex(flags + PatFlags(pat)) == pat
  {
  }

  lemma TypeIs(pat: nat)
    requires IsPat(pat)
    ensures PatType(0x0706_0504_0000_0100, pat) == pat
  {
  }

  lemma BitsTogether(flags: Word, c: Word)
    requires flags < 8 && c % 8 == 0
    ensures OrWord(flags, c) == flags + c
  {
    assert Pow2(3) == 8;
    ShiftArithmetic(c, 3);
    OrDisjoint(c, flags, 3);
    OrCommutes(flags, c);
  }

  lemma {:induction false} OrCommutes(a: nat, b: nat)
    ensures BitOr(a, b) == BitOr(b, a)
    decreases a
  {
    if a != 0 && b != 0 { OrCommutes(a / 2, b / 2); }
  }
}

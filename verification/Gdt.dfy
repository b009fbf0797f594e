/** The one TSS descriptor of gdt.c, which every CPU rewrites before it loads its task register. */
module Gdts {
  import opened Words

  /** tss_descriptor_t. */
  datatype Descriptor = Descriptor(length: nat, baseLow: nat, baseMiddle: nat, flags1: nat, flags2: nat, baseHigh: nat,
                                   baseUpper: nat, reserved: nat)

  /** The number of assignments in tss_create_segment. */
  const FIELDS: nat := 8

  /** An available 64-bit TSS, and the busy bit that ltr sets. */
  const TSS_AVAILABLE: nat := 0x89
  const TSS_BUSY: nat := 0x8B

  /** The k-th assignment of tss_create_segment for address a. */
  function SetField(d: Descriptor, k: nat, a: Word): (r: Descriptor)
  {
    match k
    case 0 => d.(length := 104)
    case 1 => d.(baseLow := a % 0x1_0000)
    case 2 => d.(baseMiddle := a / 0x1_0000 % 0x100)
    case 3 => d.(flags1 := TSS_AVAILABLE)
    case 4 => d.(flags2 := 0)
    case 5 => d.(baseHigh := a / 0x100_0000 % 0x100)
    case 6 => d.(baseUpper := a / 0x1_0000_0000 % 0x1_0000_0000)
    case 7 => d.(reserved := 0)
    case _ => d
  }

  /** The first n assignments have been made. */
  predicate FieldsSet(d: Descriptor, n: nat, a: Word)
  {
    && (n > 0 ==> d.length == 104)
    && (n > 1 ==> d.baseLow == a % 0x1_0000)
    && (n > 2 ==> d.baseMiddle == a / 0x1_0000 % 0x100)
    && (n > 3 ==> d.flags1 == TSS_AVAILABLE)
    && (n > 4 ==> d.flags2 == 0)
    && (n > 5 ==> d.baseHigh == a / 0x100_0000 % 0x100)
    && (n > 6 ==> d.baseUpper == a / 0x1_0000_0000 % 0x1_0000_0000)
    && (n > 7 ==> d.reserved == 0)
  }

  lemma SetFieldStep(d: Descriptor, k: nat, a: Word)
    requires FieldsSet(d, k, a) && k < FIELDS
    ensures FieldsSet(SetField(d, k, a), k + 1, a)
  {
  }

  /** The base that the processor reads from a 16-byte system descriptor. */
  function Base(d: Descriptor): (n: nat)
  {
    d.baseLow + 0x1_0000 * d.baseMiddle + 0x100_0000 * d.baseHigh + 0x1_0000_0000 * d.baseUpper
  }

  lemma AddressParts(a: Word)
    ensures a % 0x1_0000 + 0x1_0000 * (a / 0x1_0000 % 0x100) + 0x100_0000 * (a / 0x100_0000 % 0x100)
            + 0x1_0000_0000 * (a / 0x1_0000_0000 % 0x1_0000_0000) == a
  {
    var q1, q2, q3 := a / 0x1_0000, a / 0x100_0000, a / 0x1_0000_0000;
    assert q1 == 0x100 * q2 + q1 % 0x100;
    assert q2 == 0x100 * q3 + q2 % 0x100;
    assert q3 < 0x1_0000_0000;
    SmallMod(q3, 0x1_0000_0000);
  }

  /** A complete descriptor is that of a present, available 64-bit TSS (type 9) with limit 104, and names its
      address. */
  lemma SegmentNamesAddress(d: Descriptor, a: Word)
    requires FieldsSet(d, FIELDS, a)
    ensures d.flags1 == TSS_AVAILABLE && Base(d) == a
    ensures d.length == 104 && d.flags1 == 0x89 && d.flags2 == 0 && d.reserved == 0
    ensures d.baseLow < 0x1_0000 && d.baseMiddle < 0x100 && d.baseHigh < 0x100 && d.baseUpper < 0x1_0000_0000
    ensures d.baseLow + 0x1_0000 * d.baseMiddle + 0x100_0000 * d.baseHigh + 0x1_0000_0000 * d.baseUpper == a
  {
    AddressParts(a);
  }

  /** The descriptor table's TSS entry. */
  class Gdt {
    var tssDescriptor: Descriptor

    constructor ()
    {
      tssDescriptor := Descriptor(0, 0, 0, 0, 0, 0, 0, 0);
    }

    method TssCreateSegment(addr: Word)
      modifies this
      ensures FieldsSet(tssDescriptor, FIELDS, addr)
      ensures tssDescriptor.flags1 == 0x89 && Base(tssDescriptor) == addr
      ensures tssDescriptor.length == 104 && tssDescriptor.flags2 == 0 && tssDescriptor.reserved == 0
    {
      tssDescriptor := tssDescriptor.(length := 104);
      tssDescriptor := tssDescriptor.(baseLow := addr % 0x1_0000);
      tssDescriptor := tssDescriptor.(baseMiddle := addr / 0x1_0000 % 0x100);
      tssDescriptor := tssDescriptor.(flags1 := TSS_AVAILABLE);
      tssDescriptor := tssDescriptor.(flags2 := 0);
      tssDescriptor := tssDescriptor.(baseHigh := addr / 0x100_0000 % 0x100);
      tssDescriptor := tssDescriptor.(baseUpper := addr / 0x1_0000_0000 % 0x1_0000_0000);
      tssDescriptor := tssDescriptor.(reserved := 0);
      SegmentNamesAddress(tssDescriptor, addr);
    }
  }
}

/** The pointers of malloc in the address space of vmm_init: where their bytes are. */
module HeapWindow {
  import opened Words
  import opened PmmSpec
  import opened PageTables
  import opened PageTree
  import opened PageMap
  import opened PageRange
  import opened BootWindows
  import opened HeapSizes
  import opened HeapSpec
  import HeapSteps

  /** RAM below this limit keeps heap addresses out of the code window's slot. */
  const RAM_LIMIT: nat := 0x800_0000_0000

  /** The address of byte i of the block that malloc served at base b. */
  lemma PointerIs(b: nat, i: nat)
    requires b + 2 + i < RAM_LIMIT
    ensures UserPointer(b) == 0xFFFF_9000_0000_0002 + b
    ensures (UserPointer(b) + i) % WORD_LIMIT == 0xFFFF_9000_0000_0000 + (b + 2 + i)
  {
    SmallMod(0xFFFF_9000_0000_0002 + b, WORD_LIMIT);
    SmallMod(0xFFFF_9000_0000_0000 + (b + 2 + i), WORD_LIMIT);
  }

  /** The virtual page of a heap address. */
  lemma HeapPage(a: nat)
    requires a < RAM_LIMIT
    ensures VPage(0xFFFF_9000_0000_0000 + a) == 0x9_0000_0000 + a / 4096
    ensures (0xFFFF_9000_0000_0000 + a) % 4096 == a % 4096
  {
    AddMultiple(0xF_FFF9_0000_0000, a, 4096);
    AddMultiple(0xFFFF, 0x9_0000_0000 + a / 4096, VPAGES);
    SmallMod(0x9_0000_0000 + a / 4096, VPAGES);
  }

  /** What the booted tables say of the pages that malloc's pointers use. */
  lemma HeapView(m: Machine, root: nat, sizes: seq<nat>, p: nat)
    requires Booted(m, root, Extent(sizes)) && (forall k :: 0 <= k < |sizes| ==> sizes[k] <= 0x1_0000_0000)
    requires p < RAM_LIMIT / 4096
    ensures 0x9_0000_0000 + p < VPAGES
    ensures Walk(m.mem, root, 0x9_0000_0000 + p) == if p < 0x10_0000 then Page(p, 3, true, false) else Fault
  {
    hide Walk, Booted;
    BootedWalk(m, root, Extent(sizes), 0x9_0000_0000 + p);
  }

  lemma AddressIs(m: Machine, root: nat, sizes: seq<nat>, x: nat)
    requires Booted(m, root, Extent(sizes)) && (forall k :: 0 <= k < |sizes| ==> sizes[k] <= 0x1_0000_0000)
    requires x < RAM_LIMIT
    ensures var a: Word := 0xFFFF_9000_0000_0000 + x;
            && VPage(a) < VPAGES && a % 4096 == x % 4096
            && Walk(m.mem, root, VPage(a)) == (if x < 0x1_0000_0000 then Page(x / 4096, 3, true, false) else Fault)
  {
    hide Walk, Booted, VPage;
    HeapPage(x);
    HeapView(m, root, sizes, x / 4096);
  }

  /** In a booted machine whose memory map entries leave the heap window intact, byte i of a live block
      is reached through malloc's pointer plus i, read-write and by the kernel alone, exactly when it
      lies below 4 GiB; beyond that the pointer is not mapped. */
  lemma BlockIsMappedIff(m: Machine, root: nat, sizes: seq<nat>, h: Heap, live: Blocks, reserved: set<nat>, b: nat, i: nat)
    requires Booted(m, root, Extent(sizes)) && (forall k :: 0 <= k < |sizes| ==> sizes[k] <= 0x1_0000_0000)
    requires HeapInv(h, live, reserved) && h.pmm.pages * 4096 <= RAM_LIMIT && b in live && i < live[b]
    ensures var a := (UserPointer(b) + i) % WORD_LIMIT;
            && VPage(a) < VPAGES && a % 4096 == (b + 2 + i) % 4096
            && Walk(m.mem, root, VPage(a)) == (if b + 2 + i < 0x1_0000_0000 then Page((b + 2 + i) / 4096, 3, true, false) else Fault)
  {
    hide *;
    BlockInRam(h, live, reserved, b);
    PointerIs(b, i);
    AddressIs(m, root, sizes, b + 2 + i);
  }

  lemma BlockInRam(h: Heap, live: Blocks, reserved: set<nat>, b: nat)
    requires HeapInv(h, live, reserved) && h.pmm.pages * 4096 <= RAM_LIMIT && b in live
    ensures b + 2 + live[b] <= RAM_LIMIT
  {
    hide HeapInv;
    HeapSteps.LiveInRam(h, live, reserved, b);
  }
}

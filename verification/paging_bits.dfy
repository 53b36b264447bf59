/** The address macros of the memory manager and the hardware's two-level walk
    (Intel SDM Vol. 3A, section 4.3), on 32-bit words. */
module PagingBits {

  const PT_VMA: bv32 := 0xFFC0_0000
  const PD_VMA: bv32 := 0xFFFF_F000
  const PRESENT: bv32 := 0x001

  function PdIndex(a: bv32): bv32 { (a >> 22) & 1023 }
  function PtIndex(a: bv32): bv32 { (a >> 12) & 1023 }
  function PtPtr(a: bv32): bv32 { PT_VMA + ((a >> 10) & 0x3F_F000) }

  /** Where the kernel reads and writes the page table entry of a, and the directory entry. */
  function EntryAddr(a: bv32): bv32 { PtPtr(a) + (PtIndex(a) << 2) }
  function PdeAddr(a: bv32): bv32 { PD_VMA + (PdIndex(a) << 2) }

  type Memory = bv32 -> bv32

  function Frame(entry: bv32): bv32 { entry & 0xFFFF_F000 }

  /** The physical addresses at which the processor finds the two entries for a. */
  function PdePhys(cr3: bv32, a: bv32): bv32 { Frame(cr3) | (PdIndex(a) << 2) }
  function PtePhys(mem: Memory, cr3: bv32, a: bv32): bv32 {
    Frame(mem(PdePhys(cr3, a))) | (PtIndex(a) << 2)
  }

  predicate Translates(mem: Memory, cr3: bv32, a: bv32) {
    mem(PdePhys(cr3, a)) & PRESENT != 0 && mem(PtePhys(mem, cr3, a)) & PRESENT != 0
  }

  /** The physical address the processor uses for a. */
  function Walk(mem: Memory, cr3: bv32, a: bv32): bv32 {
    Frame(mem(PtePhys(mem, cr3, a))) | (a & 0xFFF)
  }

  /** The last directory slot points at the directory itself. */
  predicate Recursive(mem: Memory, cr3: bv32) {
    mem(Frame(cr3) | 0xFFC) & PRESENT != 0 && Frame(mem(Frame(cr3) | 0xFFC)) == Frame(cr3)
  }

  /** The entry addresses form one array of words, indexed by page number. */
  lemma EntryIsArray(a: bv32)
    ensures EntryAddr(a) == PT_VMA | ((a >> 12) << 2)
    ensures PdeAddr(a) == PD_VMA | (PdIndex(a) << 2)
  {
    SumIsUnion(PT_VMA, (a >> 10) & 0x3F_F000);
    SumIsUnion(PtPtr(a), PtIndex(a) << 2);
    SumIsUnion(PD_VMA, PdIndex(a) << 2);
  }

  lemma SumIsUnion(x: bv32, y: bv32)
    requires x & y == 0
    ensures x + y == x | y
  {
  }

  /** The entry address has the recursive slot as its directory index, the directory
      index of a as its table index, and the table index of a as its word. */
  lemma EntryFields(a: bv32)
    ensures PdIndex(EntryAddr(a)) == 1023 && PtIndex(EntryAddr(a)) == PdIndex(a)
    ensures EntryAddr(a) & 0xFFF == PtIndex(a) << 2
  {
    EntryIsArray(a);
  }

  lemma DirectoryFields(a: bv32)
    requires a >= PD_VMA
    ensures PdIndex(a) == 1023 && PtIndex(a) == 1023
  {
  }

  /** In the recursive slot's region the processor takes directory entries for table entries. */
  lemma SlotPte(mem: Memory, cr3: bv32, e: bv32, a: bv32)
    requires Recursive(mem, cr3) && PdIndex(e) == 1023 && PtIndex(e) == PdIndex(a)
    ensures mem(PdePhys(cr3, e)) & PRESENT != 0 && PtePhys(mem, cr3, e) == PdePhys(cr3, a)
  {
    hide EntryAddr, PdIndex, PtIndex, Frame;
    LastSlot(cr3, e);
  }

  lemma LastSlot(cr3: bv32, a: bv32)
    requires PdIndex(a) == 1023
    ensures PdePhys(cr3, a) == Frame(cr3) | 0xFFC
  {
  }

  /** Through the recursive slot, the entry address of any a whose table is present
      leads to exactly the word the processor uses as the page table entry of a. */
  lemma RecursiveMapping(mem: Memory, cr3: bv32, a: bv32)
    requires Recursive(mem, cr3) && mem(PdePhys(cr3, a)) & PRESENT != 0
    ensures Walk(mem, cr3, EntryAddr(a)) == PtePhys(mem, cr3, a)
    ensures Translates(mem, cr3, EntryAddr(a))
  {
    hide EntryAddr, PdIndex, PtIndex, Frame, PdePhys;
    EntryFields(a);
    SlotPte(mem, cr3, EntryAddr(a), a);
  }

  /** Applied twice, the entry address reaches the directory entry, which is always accessible. */
  lemma EntryOfEntry(mem: Memory, cr3: bv32, a: bv32)
    requires Recursive(mem, cr3)
    ensures EntryAddr(EntryAddr(a)) == PdeAddr(a)
    ensures Translates(mem, cr3, PdeAddr(a)) && Walk(mem, cr3, PdeAddr(a)) == PdePhys(cr3, a)
  {
    hide EntryAddr, PdeAddr, PdIndex, PtIndex, Frame;
    PdeIsEntry(a);
    SlotPte(mem, cr3, PdeAddr(a), PdeAddr(a));
    LastSlot(cr3, PdeAddr(a));
  }

  lemma PdeIsEntry(a: bv32)
    ensures EntryAddr(EntryAddr(a)) == PdeAddr(a) >= PD_VMA
    ensures PdIndex(PdeAddr(a)) == 1023 && PtIndex(PdeAddr(a)) == 1023
    ensures PdeAddr(a) & 0xFFF == PdIndex(a) << 2
  {
    EntryIsArray(a);
    EntryIsArray(EntryAddr(a));
  }

  lemma UnionInjective(a: bv32, b: bv32)
    requires PT_VMA | ((a >> 12) << 2) == PT_VMA | ((b >> 12) << 2)
    ensures a >> 12 == b >> 12
  {
  }

  /** Different pages have different entries. */
  lemma EntryInjective(a: bv32, b: bv32)
    ensures EntryAddr(a) == EntryAddr(b) <==> a >> 12 == b >> 12
  {
    hide EntryAddr;
    EntryIsArray(a);
    EntryIsArray(b);
    if EntryAddr(a) == EntryAddr(b) {
      UnionInjective(a, b);
    }
  }

  /** An address and its entry are on the levels page, table, directory. */
  function Level(a: bv32): nat {
    if a >= PD_VMA then 0 else if a >= PT_VMA then 1 else 2
  }

  /** Why a fault inside the fault handler ends: each entry is one level up, and on
      the directory's level nothing faults. */
  lemma FaultsDescend(mem: Memory, cr3: bv32, a: bv32)
    requires Recursive(mem, cr3)
    ensures Level(a) > 0 ==> Level(EntryAddr(a)) < Level(a)
    ensures Level(a) == 0 ==> Translates(mem, cr3, a)
  {
    hide EntryAddr, PdIndex, PtIndex, Frame;
    if Level(a) == 0 {
      DirectoryFields(a);
      LastSlot(cr3, a);
    } else {
      EntryDescends(a);
    }
  }

  lemma EntryDescends(a: bv32)
    ensures PT_VMA <= a ==> EntryAddr(a) >= PD_VMA
    ensures a < PT_VMA ==> PT_VMA <= EntryAddr(a) < PD_VMA
  {
    EntryIsArray(a);
  }
}

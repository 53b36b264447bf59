/** The memory manager's addresses by index are the address macros' 32-bit words. */
module AddressBits {
  import opened AddressSpace
  import opened PagingBits
  import P = PhysicalMemory

  const FRAMEPOOL_VMA: bv32 := 0xFF80_0000

  /** Directory index, table index and word of an address. */
  function VaOf(a: bv32): P.Va {
    P.Va(PdIndex(a) as nat, PtIndex(a) as nat, ((a >> 2) & 1023) as nat)
  }

  lemma WordOfEntry(e: bv32, t: bv32)
    requires e & 0xFFF == t << 2 && t <= 1023
    ensures (e >> 2) & 1023 == t
  {
  }

  lemma IndexBound(a: bv32)
    ensures PtIndex(a) <= 1023
  {
  }

  lemma LastIndex(x: bv32)
    requires x == 1023
    ensures x as nat == RECURSIVE_SLOT
  {
  }

  /** MMU_PT_PTR(addr)[MMU_PT_INDEX(addr)] is EntryVa. */
  lemma EntryByIndex(a: bv32)
    ensures VaOf(EntryAddr(a)) == P.EntryVa(VaOf(a))
  {
    hide EntryAddr, PdIndex, PtIndex;
    EntryFields(a);
    IndexBound(a);
    WordOfEntry(EntryAddr(a), PtIndex(a));
    LastIndex(PdIndex(EntryAddr(a)));
  }

  lemma SlotFields(i: bv32)
    requires i < 0x10_0000
    ensures var a := FRAMEPOOL_VMA + (i << 2);
      PdIndex(a) == 1022 && PtIndex(a) == i / 1024 && (a >> 2) & 1023 == i % 1024
  {
  }

  lemma JoinedNumber(q: bv32, r: bv32)
    requires q < 1024 && r < 1024
    ensures (q * 1024 + r) as nat == (q as nat) * 1024 + r as nat && r as nat < 1024
  {
  }

  lemma SplitNumber(i: bv32)
    requires i < 0x10_0000
    ensures i / 1024 < 1024 && i % 1024 < 1024 && i == (i / 1024) * 1024 + i % 1024
  {
  }

  lemma QuotientAndRest(i: nat, q: nat, r: nat)
    requires i == q * 1024 + r && r < 1024
    ensures q == i / ENTRIES && r == i % ENTRIES
  {
  }

  lemma WindowNumber(w: bv32)
    requires w == 1022
    ensures w as nat == WINDOW
  {
  }

  /** MMU_frames[i] is SlotVa. */
  lemma SlotByIndex(i: bv32)
    requires i < 0x10_0000
    ensures VaOf(FRAMEPOOL_VMA + (i << 2)) == P.SlotVa(i as nat)
  {
    hide PdIndex, PtIndex;
    SlotFields(i);
    WindowNumber(PdIndex(FRAMEPOOL_VMA + (i << 2)));
    IndicesOf(i);
  }

  lemma IndicesOf(i: bv32)
    requires i < 0x10_0000
    ensures (i / 1024) as nat == (i as nat) / ENTRIES && (i % 1024) as nat == (i as nat) % ENTRIES
  {
    SplitNumber(i);
    Indices(i, i / 1024, i % 1024);
  }

  lemma Indices(i: bv32, q: bv32, r: bv32)
    requires q < 1024 && r < 1024 && i == q * 1024 + r
    ensures q as nat == (i as nat) / ENTRIES && r as nat == (i as nat) % ENTRIES
  {
    JoinedNumber(q, r);
    QuotientAndRest(i as nat, q as nat, r as nat);
  }
}

/** The bump heap: consecutive blocks, whose pages are mapped on demand as they are
    handed out. */
module KernelHeap {
  import opened Options
  import opened AddressSpace
  import opened PhysicalMemory
  import opened Paging

  const WORD32: nat := 0x1_0000_0000
  const PAGE: nat := 4096

  /** The pages heap_alloc marks: from the page of the block's first byte, rounded up
      behind its last, in 32-bit sums. */
  function FirstPage(start: nat, ptr: nat): nat {
    (start + ptr) % WORD32 / PAGE
  }

  function EndPage(start: nat, ptr: nat, size: nat): nat {
    (start + ptr + size + 4095) % WORD32 / PAGE
  }

  /** struct HEAP. */
  datatype Bump = Bump(start: nat, limit: nat, prot: Prot, ptr: nat)

  predicate HasRoom(h: Bump, size: nat) {
    (h.ptr + size) % WORD32 < h.limit
  }

  /** The address space after the pages of a block have been marked. */
  function Marked(s: Space, from: nat, to: nat, prot: Prot): Space
    requires Formed(s) && to <= WINDOW * ENTRIES
  {
    if from < to then MarkRange(s, from, to - from, prot) else s
  }

  /** heap_alloc's caller has to see to it that the heap lies below the pool's window
      and that there are frames for its page tables. */
  ghost predicate Markable(s: Space, h: Bump, size: nat) {
    HasRoom(h, size) ==>
      var from, to := FirstPage(h.start, h.ptr), EndPage(h.start, h.ptr, size);
      Formed(s) && to <= WINDOW * ENTRIES && (from < to ==> Served(s, from, to - from, h.prot))
  }

  ghost function Mapped(s: Space, h: Bump, size: nat): Space
    requires Markable(s, h, size)
  {
    if HasRoom(h, size) then Marked(s, FirstPage(h.start, h.ptr), EndPage(h.start, h.ptr, size), h.prot) else s
  }

  class Heap {
    const start: nat
    const limit: nat
    const prot: Prot
    var ptr: nat

    /** heap_create. */
    constructor (start: nat, limit: nat, prot: Prot)
      ensures Now() == Bump(start, limit, prot, 0)
    {
      this.start, this.limit, this.prot, this.ptr := start, limit, prot, 0;
    }

    function Now(): Bump
      reads `ptr
    {
      Bump(start, limit, prot, ptr)
    }

    /** heap_alloc of a heap without HEAP_ALLOC_NOALLOC; None is NULL. */
    method Alloc(m: Machine, size: nat) returns (mem: Option<nat>)
      requires m.Valid() && Markable(m.Contents(), Now(), size)
      modifies `ptr, m
      ensures m.Valid()
      ensures mem == if (old(ptr) + size) % 0x1_0000_0000 < limit then Some((start + old(ptr)) % WORD32) else None
      ensures ptr == if mem.Some? then (old(ptr) + size) % WORD32 else old(ptr)
      ensures m.Contents() == Mapped(old(m.Contents()), old(Now()), size)
      ensures m.Fixed() && Keeps(old(m.Hardware()), m.Hardware(), m.book.owned, {})
    {
      hide Machine.Valid, Machine.Contents, Keeps;
      KeepsSame(m);
      if (ptr + size) % WORD32 >= limit {
        return None;
      }
      var from := (start + ptr) % WORD32 / PAGE * PAGE;
      var to := (start + ptr + size + 4095) % WORD32 / PAGE * PAGE;
      if to > from {
        m.Mmap(from / PAGE, (to - from) / PAGE, prot);
      }
      mem := Some((start + ptr) % WORD32);
      ptr := (ptr + size) % WORD32;
    }
  }

  lemma KeepsSame(m: Machine)
    requires m.Valid()
    ensures Keeps(m.Hardware(), m.Hardware(), m.book.owned, {})
  {
    KeepsSelf(m.Hardware(), m.book);
  }

  /** Page q can be used: it has a frame or gets one when touched. */
  predicate Usable(s: Space, q: nat) {
    Entry(s, q).present || Entry(s, q).ondemand
  }

  /** Marking a block's pages makes every byte of the block usable with the heap's
      protection; pages that had a frame keep it, and no other page changes. */
  lemma BlockUsable(s: Space, start: nat, ptr: nat, size: nat, prot: Prot)
    requires start + ptr + size + 4095 < WORD32 && Formed(s) && EndPage(start, ptr, size) <= WINDOW * ENTRIES
    ensures var r := Marked(s, FirstPage(start, ptr), EndPage(start, ptr, size), prot);
      && Formed(r)
      && (forall x :: start + ptr <= x < start + ptr + size ==> Usable(r, x / PAGE) && Entry(r, x / PAGE).prot == prot)
      && (forall q: nat :: Usable(s, q) ==> Usable(r, q))
      && (forall q: nat :: Entry(s, q).present ==> Entry(r, q).present && Entry(r, q).frame == Entry(s, q).frame)
      && (forall q: nat :: q < FirstPage(start, ptr) || EndPage(start, ptr, size) <= q ==> Entry(r, q) == Entry(s, q))
  {
    var from, to := FirstPage(start, ptr), EndPage(start, ptr, size);
    PagesOfBlock(start, ptr, size);
    hide FirstPage, EndPage;
    if from < to {
      MarkRangeMeaning(s, from, to - from, prot);
    }
  }

  /** It changes no page but those with a byte of the block. */
  lemma BlockAlone(s: Space, start: nat, ptr: nat, size: nat, prot: Prot, q: nat)
    requires start + ptr + size + 4095 < WORD32 && Formed(s) && EndPage(start, ptr, size) <= WINDOW * ENTRIES && size > 0
    requires forall x :: start + ptr <= x < start + ptr + size ==> x / 4096 != q
    ensures Entry(Marked(s, FirstPage(start, ptr), EndPage(start, ptr, size), prot), q) == Entry(s, q)
  {
    var from, to := FirstPage(start, ptr), EndPage(start, ptr, size);
    if from < to {
      MarkRangeMeaning(s, from, to - from, prot);
    }
    if from <= q < to {
      var x := ByteOnPage(start, ptr, size, q);
    }
  }

  /** Each page that is marked has a byte of the block. */
  lemma ByteOnPage(start: nat, ptr: nat, size: nat, q: nat) returns (x: nat)
    requires start + ptr + size + 4095 < WORD32 && size > 0 && FirstPage(start, ptr) <= q < EndPage(start, ptr, size)
    ensures start + ptr <= x < start + ptr + size && x / 4096 == q
  {
    x := if q == FirstPage(start, ptr) then start + ptr else q * 4096;
  }

  lemma PagesOfBlock(start: nat, ptr: nat, size: nat)
    requires start + ptr + size + 4095 < WORD32
    ensures forall x :: start + ptr <= x < start + ptr + size ==> FirstPage(start, ptr) <= x / PAGE < EndPage(start, ptr, size)
  {
  }

  /** Every byte the heap has handed out can be used. */
  ghost predicate UsedUsable(s: Space, h: Bump) {
    forall x :: h.start <= x < h.start + h.ptr ==> Usable(s, x / PAGE)
  }

  /** It stays so from block to block, unless the heap's sum wraps. */
  lemma UsedPartUsable(s: Space, h: Bump, size: nat)
    requires Markable(s, h, size) && HasRoom(h, size) && UsedUsable(s, h)
    requires h.ptr + size < WORD32 && h.start + h.limit + 4095 <= WORD32
    ensures UsedUsable(Mapped(s, h, size), h.(ptr := h.ptr + size))
  {
    BlockUsable(s, h.start, h.ptr, size, h.prot);
  }

  /** What other users of the address space do leaves the heap's pages usable, unless
      they unmap them. */
  lemma StepUsable(s: Space, e: Event, q: nat)
    requires Formed(s) && e.d < WINDOW && e.t < ENTRIES && Step(s, e).Some? && Usable(s, q)
    requires e.Release? ==> q != e.d * ENTRIES + e.t
    ensures Usable(Step(s, e).value, q)
    ensures Entry(s, q).present ==> Entry(Step(s, e).value, q).present && Entry(Step(s, e).value, q).frame == Entry(s, q).frame
  {
    var d, t := q / ENTRIES, q % ENTRIES;
    assert q == d * ENTRIES + t;
  }

  // ------------------------------------------------------------ access to a block

  /** Where user addresses and the heap may lie: below the pool's window. */
  const TOP: nat := WINDOW * ENTRIES * PAGE

  /** The word at an address. */
  function WordAt(x: nat): (va: Va)
    requires x < TOP
    ensures InRange(va) && va.dir < WINDOW && va.dir * ENTRIES + va.tbl == x / PAGE
  {
    Va(x / PAGE / ENTRIES, x / PAGE % ENTRIES, x % PAGE / 4)
  }

  /** An access to the page of address x: the address space after it, None for the halt. */
  function Accessed(s: Space, x: nat): Option<Space>
    requires Formed(s) && x < TOP
  {
    Touch(s, x / PAGE / ENTRIES, x / PAGE % ENTRIES)
  }

  /** The page is present or there is a frame for it. */
  predicate Accessible(s: Space, x: nat) {
    Entry(s, x / PAGE).present || s.pool != []
  }

  method Access(m: Machine, x: nat) returns (ok: bool)
    requires m.Valid() && x < TOP && Formed(m.Contents()) && Accessible(m.Contents(), x)
    modifies m
    ensures ok <==> Accessed(old(m.Contents()), x).Some?
    ensures ok ==> m.Valid() && Accessed(old(m.Contents()), x) == Some(m.Contents())
    ensures ok ==> m.Fixed() && Keeps(old(m.Hardware()), m.Hardware(), m.book.owned, {})
  {
    PresentWalks(m.Hardware(), m.book, x);
    hide Machine.Valid, Machine.Contents, Keeps, Walk, Touch;
    var w;
    ok, w := m.Load(WordAt(x));
  }

  lemma PresentWalks(h: Hw, b: Book, x: nat)
    requires Ok(h, b) && x < TOP && Accessible(View(h), x)
    ensures Walk(h, WordAt(x)) == None ==> h.index > 0
  {
    var va := WordAt(x);
    PageSeen(h, b, va.dir, va.tbl);
    PoolSize(h);
    assert PageFrame(h, va.dir, va.tbl) == Walk(h, va);
  }

  /** An access to a usable page succeeds, leaves all usable pages usable, and makes its
      own page present. */
  lemma AccessUsable(s: Space, x: nat)
    requires Formed(s) && x < TOP && Usable(s, x / PAGE)
    ensures var r := Accessed(s, x);
      && r.Some? && Formed(r.value) && Entry(r.value, x / PAGE).present
      && (forall q: nat :: Usable(s, q) ==> Usable(r.value, q))
  {
    var e := Event.Access(x / PAGE / ENTRIES, x / PAGE % ENTRIES);
    assert Step(s, e) == Accessed(s, x);
    forall q: nat | Usable(s, q)
      ensures Usable(Accessed(s, x).value, q)
    {
      StepUsable(s, e, q);
    }
  }
}

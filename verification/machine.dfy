/** The memory manager on physical memory.  Entries and free-frame slots are only
    read and written at virtual addresses, so every access may itself fault. */
module Paging {
  import opened Options
  import opened AddressSpace
  import opened PhysicalMemory
  import PageRanges

  /** An address, the entry of an address, or the entry of an entry. */
  function Level(va: Va): nat {
    if va.dir != RECURSIVE_SLOT then 2 else if va.tbl != RECURSIVE_SLOT then 1 else 0
  }

  /** What an access to va does to the address space; None if the kernel halts. */
  function Reach(s: Space, va: Va): Option<Space>
    requires Formed(s) && InRange(va)
  {
    if va.dir != RECURSIVE_SLOT then Touch(s, va.dir, va.tbl)
    else if va.tbl != RECURSIVE_SLOT then TouchTable(s, va.tbl)
    else Some(s)
  }

  /** When the kernel does not halt: an access to a page, to an entry of a table, which
      needs that table, and to a directory entry, which is always there. */
  lemma ReachIff(s: Space, va: Va)
    requires Formed(s) && InRange(va)
    ensures va.dir != RECURSIVE_SLOT ==> (Reach(s, va).Some? <==>
      && (s.pde[va.dir].present || s.pde[va.dir].ondemand)
      && (Entry(s, va.dir * ENTRIES + va.tbl).present || Entry(s, va.dir * ENTRIES + va.tbl).ondemand))
    ensures va.dir == RECURSIVE_SLOT != va.tbl ==> (Reach(s, va).Some? <==> s.pde[va.tbl].present || s.pde[va.tbl].ondemand)
    ensures va.dir == va.tbl == RECURSIVE_SLOT ==> Reach(s, va) == Some(s)
  {
    if va.dir != RECURSIVE_SLOT {
      PageRanges.TouchIff(s, va.dir, va.tbl);
    }
  }

  /** The word of the address space behind va. */
  ghost function Seen(h: Hw, va: Va): Word
    requires Walk(h, va).Some?
  {
    At(h.mem, Walk(h, va).value, va.word)
  }

  lemma TableSeen(h: Hw, b: Book, va: Va)
    requires Wired(h, b) && InRange(va) && va.dir < RECURSIVE_SLOT && Walk(h, EntryVa(va)).Some?
    ensures Formed(View(h)) && HasTable(View(h), va.dir)
    ensures Walk(h, EntryVa(va)) == Some(Pde(h, va.dir).frame)
    ensures Seen(h, EntryVa(va)) == View(h).pt[va.dir][va.tbl] == Pte(h, va.dir, va.tbl)
  {
  }

  lemma DirectorySeen(h: Hw, b: Book, d: nat)
    requires Wired(h, b) && d < ENTRIES
    ensures Walk(h, Va(RECURSIVE_SLOT, RECURSIVE_SLOT, d)) == Some(h.directory)
    ensures Seen(h, Va(RECURSIVE_SLOT, RECURSIVE_SLOT, d)) == View(h).pde[d] == Pde(h, d)
  {
  }

  /** The slots the pool uses never fault. */
  lemma SlotSeen(h: Hw, b: Book)
    requires Ok(h, b) && h.index > 0
    ensures Walk(h, SlotVa(h.index - 1)).Some?
    ensures Seen(h, SlotVa(h.index - 1)) == Address(Top(View(h).pool))
  {
    hide Conserved;
    SlotWalk(h, b, h.index - 1);
    assert Seen(h, SlotVa(h.index - 1)) == Slot(h, h.index - 1);
  }

  // --------------------------------------------------------- contents of pages

  function PageFrame(h: Hw, d: nat, t: nat): Option<nat> {
    Walk(h, Va(d, t, 0))
  }

  /** The pages backed by the pool, but for those listed, are still in the same
      frames with the same words in them. */
  ghost predicate Keeps(h: Hw, r: Hw, owned: set<nat>, but: set<nat>) {
    forall d: nat, t: nat ::
      d < WINDOW && t < ENTRIES && d * ENTRIES + t !in but && PageFrame(h, d, t).Some? && PageFrame(h, d, t).value in owned ==>
        PageFrame(r, d, t) == PageFrame(h, d, t) && HoldsSame(h, r, PageFrame(h, d, t).value)
  }

  predicate HoldsSame(h: Hw, r: Hw, f: nat) {
    f in h.mem && f in r.mem && r.mem[f] == h.mem[f]
  }

  predicate HoldsBlank(h: Hw, f: nat) {
    f in h.mem && h.mem[f] == Blank()
  }

  lemma KeepsOver(h: Hw, m: Hw, r: Hw, owned: set<nat>, but: set<nat>)
    requires Keeps(h, m, owned, {}) && Keeps(m, r, owned, but)
    ensures Keeps(h, r, owned, but)
  {
    hide Walk, PageFrame;
  }

  /** Frames in use for pages outside the window are not touched. */
  ghost predicate DataKept(h: Hw, r: Hw, b: Book) {
    forall f :: f in b.owned && f in b.role && b.role[f].Page? && b.role[f].d < WINDOW ==> HoldsSame(h, r, f)
  }

  /** Directory, tables, slots and free frames hold no page's contents. */
  lemma OthersKept(h: Hw, b: Book, r: Hw, g: nat, f: nat)
    requires forall x :: x in b.owned ==> x in h.mem
    requires g in b.role && !(b.role[g].Page? && b.role[g].d < WINDOW)
    requires f in b.role && !(b.role[f].Page? && b.role[f].d < WINDOW)
    requires r.mem.Keys == h.mem.Keys && forall x :: x in h.mem && x != g && x != f ==> r.mem[x] == h.mem[x]
    ensures DataKept(h, r, b)
  {
  }

  ghost predicate SameMapped(s: Space, n: Space, but: set<nat>)
    requires Formed(s) && Formed(n)
  {
    forall d: nat, t: nat :: d < WINDOW && t < ENTRIES && d * ENTRIES + t !in but && HasTable(s, d) && s.pt[d][t].present ==>
      HasTable(n, d) && n.pt[d][t].present && n.pt[d][t].frame == s.pt[d][t].frame
  }

  lemma KeepsIf(h: Hw, b: Book, r: Hw, c: Book, but: set<nat>)
    requires Ok(h, b) && Ok(r, c) && DataKept(h, r, b)
    requires Formed(View(h)) && Formed(View(r)) && SameMapped(View(h), View(r), but)
    ensures Keeps(h, r, b.owned, but)
  {
    hide Backed;
    forall d: nat, t: nat | d < WINDOW && t < ENTRIES && d * ENTRIES + t !in but && PageFrame(h, d, t).Some? && PageFrame(h, d, t).value in b.owned
      ensures PageFrame(r, d, t) == PageFrame(h, d, t) && HoldsSame(h, r, PageFrame(h, d, t).value)
    {
      PageSeen(h, b, d, t);
      PageSeen(r, c, d, t);
    }
  }

  /** The pages of the address space are those the processor finds. */
  lemma PageSeen(h: Hw, b: Book, d: nat, t: nat)
    requires Ok(h, b) && d < WINDOW && t < ENTRIES
    ensures Formed(View(h)) && (HasTable(View(h), d) <==> Pde(h, d).present)
    ensures PageFrame(h, d, t) == FrameAt(View(h), Page(d, t))
    ensures PageFrame(h, d, t).Some? && PageFrame(h, d, t).value in b.owned ==>
      PageFrame(h, d, t).value in b.role && b.role[PageFrame(h, d, t).value] == Page(d, t)
  {
    ViewFormed(h, b);
  }

  lemma ReachKeeps(s: Space, va: Va)
    requires Formed(s) && InRange(va) && Reach(s, va).Some? && Formed(Reach(s, va).value)
    ensures SameMapped(s, Reach(s, va).value, {})
  {
  }

  // ------------------------------------------------------------------- faults

  lemma PresentReach(h: Hw, b: Book, va: Va)
    requires Wired(h, b) && InRange(va) && Walk(h, va).Some?
    ensures Formed(View(h)) && Reach(View(h), va) == Some(View(h))
  {
    ViewFormed(h, b);
  }

  /** The place a fault on va gives its new frame. */
  function Target(va: Va): Place {
    if va.dir == RECURSIVE_SLOT then Table(va.tbl) else Page(va.dir, va.tbl)
  }

  /** An access goes through the entry, so it reaches what follows touching the entry. */
  lemma ReachAgain(s: Space, va: Va)
    requires Formed(s) && InRange(va) && Level(va) > 0
    ensures Reach(s, EntryVa(va)).None? ==> Reach(s, va).None?
    ensures Reach(s, EntryVa(va)).Some? ==>
      Formed(Reach(s, EntryVa(va)).value) && Reach(Reach(s, EntryVa(va)).value, va) == Reach(s, va)
  {
  }

  lemma ReachHalts(h: Hw, b: Book, va: Va)
    requires Ok(h, b) && InRange(va) && Walk(h, va) == None && Walk(h, EntryVa(va)).Some?
    requires !Seen(h, EntryVa(va)).ondemand
    ensures Formed(View(h)) && Reach(View(h), va) == None
  {
    ViewFormed(h, b);
  }

  /** A table that had to be made is empty, so a page behind it is not on demand. */
  lemma StillFrames(h: Hw, r: Hw, b: Book, va: Va)
    requires Ok(r, b) && Formed(View(h)) && InRange(va) && Level(va) > 0 && Walk(r, EntryVa(va)).Some?
    requires Reach(View(h), EntryVa(va)) == Some(View(r)) && Seen(r, EntryVa(va)).ondemand && h.index > 0
    ensures r.index > 0
  {
    if va.dir < RECURSIVE_SLOT {
      TableSeen(r, b, va);
    }
    assert |View(h).pool| == h.index && |View(r).pool| == r.index;
  }

  /** Making the entry accessible does not yet make the page present. */
  lemma StillAbsent(h: Hw, b: Book, r: Hw, c: Book, va: Va)
    requires Ok(h, b) && Ok(r, c) && InRange(va) && Walk(h, va) == None
    requires Formed(View(h)) && Reach(View(h), EntryVa(va)) == Some(View(r))
    ensures Walk(r, va) == None
  {
    FaultsBelow(h, b, va);
    if va.dir < RECURSIVE_SLOT {
      TableSeen(r, c, va);
      if Pde(h, va.dir).present {
        assert View(h).pt[va.dir][va.tbl] == Pte(h, va.dir, va.tbl);
      }
    }
  }

  lemma PoolSize(h: Hw)
    ensures |View(h).pool| == h.index
  {
  }

  lemma WalkIgnoresIndex(h: Hw, i: nat, va: Va)
    ensures Walk(h.(index := i), va) == Walk(h, va)
  {
  }

  lemma OkFormed(h: Hw, b: Book)
    requires Ok(h, b)
    ensures Formed(View(h))
  {
  }

  lemma FaultsBelow(h: Hw, b: Book, va: Va)
    requires Ok(h, b) && InRange(va) && Walk(h, va) == None
    ensures Level(va) > 0 && InRange(EntryVa(va)) && Level(EntryVa(va)) < Level(va)
  {
  }

  lemma PageFault(h: Hw, b: Book, va: Va)
    requires Ok(h, b) && h.index > 0 && InRange(va) && va.dir < RECURSIVE_SLOT && Walk(h, va) == None
    requires Pde(h, va.dir).present && Pte(h, va.dir, va.tbl).ondemand
    ensures var f, g, e := TopFrame(h), Pde(h, va.dir).frame, Pte(h, va.dir, va.tbl);
      && g in h.mem && va.tbl < |h.mem[g]|
      && var m := Put(h.mem, g, va.tbl, FillEntry(e, f));
      && Walk(Hw(m, h.directory, h.index - 1), va) == Some(f)
      && var r := Hw(m[f := Blank()], h.directory, h.index - 1);
      && Walk(r, va) == Some(f)
      && Ok(r, b.(role := b.role[f := Page(va.dir, va.tbl)]))
      && Formed(View(h)) && Touch(View(h), va.dir, va.tbl) == Some(View(r))
  {
    assert HasRole(h, b, Pde(h, va.dir).frame, Table(va.dir)) && HasRole(h, b, h.directory, Directory);
    assert |h.mem[Pde(h, va.dir).frame]| == ENTRIES;
    assert va.dir == WINDOW ==> b.backed <= va.tbl;
    TableSeen(h, b, va);
    PageFilled(h, b, va.dir, va.tbl);
  }

  lemma TableFault(h: Hw, b: Book, va: Va)
    requires Ok(h, b) && h.index > 0 && InRange(va) && va.dir == RECURSIVE_SLOT && Walk(h, va) == None
    requires Pde(h, va.tbl).ondemand
    ensures va.tbl < RECURSIVE_SLOT
    ensures var f, e := TopFrame(h), Pde(h, va.tbl);
      && h.directory in h.mem && va.tbl < |h.mem[h.directory]|
      && var m := Put(h.mem, h.directory, va.tbl, FillEntry(e, f));
      && Walk(Hw(m, h.directory, h.index - 1), va) == Some(f)
      && var r := Hw(m[f := Blank()], h.directory, h.index - 1);
      && Walk(r, va) == Some(f)
      && Ok(r, b.(role := b.role[f := Table(va.tbl)]))
      && Formed(View(h)) && TouchTable(View(h), va.tbl) == Some(View(r))
  {
    assert HasRole(h, b, h.directory, Directory);
    ViewFormed(h, b);
    TableFilled(h, b, va.tbl);
  }

  /** Once the entry of va is accessible and on demand, entering and clearing the top
      frame is what the fault has to do. */
  lemma FaultKeeps(s: Hw, h: Hw, b: Book, r: Hw, c: Book, va: Va)
    requires Ok(h, b) && Ok(r, c) && InRange(va) && Keeps(s, h, b.owned, {}) && DataKept(h, r, b)
    requires Formed(View(h)) && Reach(View(h), va) == Some(View(r))
    ensures Keeps(s, r, b.owned, {})
  {
    hide Ok, View, Keeps, DataKept, Reach;
    OkFormed(r, c);
    ReachKeeps(View(h), va);
    KeepsIf(h, b, r, c, {});
    KeepsOver(s, h, r, b.owned, {});
  }

  /** The pages from page on, n of them. */
  function PageSet(page: nat, n: nat): (r: set<nat>)
    ensures forall q: nat :: q in r <==> page <= q < page + n
  {
    if n == 0 then {} else PageSet(page, n - 1) + {page + n - 1}
  }

  lemma KeepsBoth(h: Hw, m: Hw, r: Hw, owned: set<nat>, a: set<nat>, b: set<nat>)
    requires Keeps(h, m, owned, a) && Keeps(m, r, owned, b)
    ensures Keeps(h, r, owned, a + b)
  {
    hide Walk, PageFrame;
  }

  lemma KeepsMore(h: Hw, r: Hw, owned: set<nat>, but: set<nat>)
    requires Keeps(h, r, owned, {})
    ensures Keeps(h, r, owned, but)
  {
    hide Walk, PageFrame;
  }

  lemma KeepsSelf(h: Hw, b: Book)
    requires Ok(h, b)
    ensures Keeps(h, h, b.owned, {})
  {
  }

  lemma EntryFrame(h: Hw, b: Book, va: Va)
    requires Ok(h, b) && InRange(va) && Walk(h, EntryVa(va)).Some?
    ensures var g := Walk(h, EntryVa(va)).value;
      && g in h.mem && va.tbl < |h.mem[g]| && g in b.role && !b.role[g].Page?
      && g == (if va.dir < RECURSIVE_SLOT then Pde(h, va.dir).frame else h.directory)
      && Seen(h, EntryVa(va)) == (if va.dir < RECURSIVE_SLOT then Pte(h, va.dir, va.tbl) else Pde(h, va.tbl))
      && (va.dir < RECURSIVE_SLOT ==> Pde(h, va.dir).present)
    ensures forall x :: x in b.owned ==> x in h.mem
  {
  }

  lemma FaultFills(h: Hw, b: Book, va: Va)
    requires Ok(h, b) && h.index > 0 && InRange(va) && Walk(h, va) == None
    requires Walk(h, EntryVa(va)).Some? && Seen(h, EntryVa(va)).ondemand
    ensures var f, g, e := TopFrame(h), Walk(h, EntryVa(va)).value, Seen(h, EntryVa(va));
      && g in h.mem && va.tbl < |h.mem[g]|
      && var m := Put(h.mem, g, va.tbl, FillEntry(e, f));
      && Walk(Hw(m, h.directory, h.index - 1), va) == Some(f)
      && var r := Hw(m[f := Blank()], h.directory, h.index - 1);
      && Walk(r, va) == Some(f) && DataKept(h, r, b)
      && Ok(r, b.(role := b.role[f := Target(va)]))
      && Formed(View(h)) && Reach(View(h), va) == Some(View(r))
  {
    var f, g, e := TopFrame(h), Walk(h, EntryVa(va)).value, Seen(h, EntryVa(va));
    TopIsFree(h, b);
    EntryFrame(h, b, va);
    OthersKept(h, b, Hw(Put(h.mem, g, va.tbl, FillEntry(e, f))[f := Blank()], h.directory, h.index - 1), g, f);
    hide Ok, DataKept, View, Reach, Put;
    if va.dir < RECURSIVE_SLOT {
      PageFault(h, b, va);
    } else {
      TableFault(h, b, va);
    }
  }

  /** Storing the flags of an entry through its address. */
  lemma EntryStored(h: Hw, b: Book, va: Va, w: Word)
    requires Ok(h, b) && InRange(va) && va.dir < RECURSIVE_SLOT && Walk(h, EntryVa(va)).Some?
    requires va.dir == WINDOW ==> b.backed <= va.tbl
    requires w.present == Seen(h, EntryVa(va)).present && (w.present ==> w.frame == Seen(h, EntryVa(va)).frame)
    ensures var g := Walk(h, EntryVa(va)).value;
      && g in h.mem && va.tbl < |h.mem[g]|
      && var r := h.(mem := Put(h.mem, g, va.tbl, w));
      && Ok(r, b) && Formed(View(h)) && HasTable(View(h), va.dir)
      && Seen(h, EntryVa(va)) == View(h).pt[va.dir][va.tbl]
      && View(r) == SetEntry(View(h), va.dir, va.tbl, w)
      && Keeps(h, r, b.owned, {})
  {
    hide Ok, DataKept, Keeps, Walk, View, SetEntry, SameMapped, Pde, Pte;
    EntrySeen(h, b, va);
    var g := Walk(h, EntryVa(va)).value;
    var r := h.(mem := Put(h.mem, g, va.tbl, w));
    OthersKept(h, b, r, g, g);
    EntryStoreOk(h, b, va.dir, va.tbl, w);
    OkFormed(r, b);
    FlagsMapped(View(h), va.dir, va.tbl, w);
    KeepsIf(h, b, r, b, {});
  }

  lemma EntrySeen(h: Hw, b: Book, va: Va)
    requires Ok(h, b) && InRange(va) && va.dir < RECURSIVE_SLOT && Walk(h, EntryVa(va)).Some?
    ensures var g := Walk(h, EntryVa(va)).value;
      && g in h.mem && va.tbl < |h.mem[g]| && g in b.role && !b.role[g].Page?
      && g == Pde(h, va.dir).frame && Pde(h, va.dir).present
      && Formed(View(h)) && HasTable(View(h), va.dir)
      && Seen(h, EntryVa(va)) == View(h).pt[va.dir][va.tbl] == Pte(h, va.dir, va.tbl)
    ensures forall x :: x in b.owned ==> x in h.mem
  {
    TableSeen(h, b, va);
    EntryFrame(h, b, va);
  }

  /** Storing an entry's flags moves no page to another frame. */
  lemma FlagsMapped(s: Space, d: nat, t: nat, w: Word)
    requires Formed(s) && HasTable(s, d) && t < ENTRIES && Formed(SetEntry(s, d, t, w))
    requires w.present == s.pt[d][t].present && (w.present ==> w.frame == s.pt[d][t].frame)
    ensures SameMapped(s, SetEntry(s, d, t, w), {})
  {
  }

  lemma OpenStored(h: Hw, b: Book, d: nat)
    requires Ok(h, b) && d < RECURSIVE_SLOT && !Pde(h, d).present && !Pde(h, d).ondemand
    ensures h.directory in h.mem && d < |h.mem[h.directory]|
    ensures var r := h.(mem := Put(h.mem, h.directory, d, Word(0, true, Prot(true, true), false)));
      && Ok(r, b) && Formed(View(h)) && View(r) == OpenDirectory(View(h), d)
      && Keeps(h, r, b.owned, {})
  {
    ViewFormed(h, b);
    var r := h.(mem := Put(h.mem, h.directory, d, Word(0, true, Prot(true, true), false)));
    assert DataKept(h, r, b);
    hide Conserved, Backed, Wired, DataKept, Keeps, Walk;
    DirectoryStore(h, b, d, Word(0, true, Prot(true, true), false));
    OkFormed(r, b);
    KeepsIf(h, b, r, b, {});
  }

  lemma MarkSteps(s: Space, d: nat, t: nat, prot: Prot)
    requires Formed(s) && d < RECURSIVE_SLOT && t < ENTRIES
    ensures var o := OpenDirectory(s, d);
      && Formed(o) && TouchTable(o, d).Some? && (s.pde[d].present ==> o.pde[d].present)
      && HasTable(TouchTable(o, d).value, d)
      && Mark(s, d, t, prot) == SetEntry(TouchTable(o, d).value, d, t, MarkEntry(TouchTable(o, d).value.pt[d][t], prot))
  {
  }

  lemma MayLoad(h: Hw, b: Book, d: nat, t: nat)
    requires Ok(h, b) && d < RECURSIVE_SLOT && t < ENTRIES && (View(h).pde[d].present || h.index > 0)
    ensures Walk(h, Va(RECURSIVE_SLOT, d, t)) == None ==> h.index > 0
  {
  }

  /** Unmapping a page with a frame: its entry is cleared and the frame pushed, which
      always finds a backed slot. */
  lemma ReleaseStored(h: Hw, b: Book, d: nat, t: nat)
    requires Ok(h, b) && d < WINDOW && t < ENTRIES && Pde(h, d).present
    requires Pte(h, d, t).present && Pte(h, d, t).frame in b.owned
    ensures var g, f := Pde(h, d).frame, Pte(h, d, t).frame;
      && g in h.mem && t < |h.mem[g]| && f != 0
      && var c := h.(mem := Put(h.mem, g, t, ZERO));
      && Walk(c, SlotVa(c.index)).Some?
      && var w := Walk(c, SlotVa(c.index)).value;
      && w in c.mem && SlotVa(c.index).word < |c.mem[w]|
      && var r := Hw(Put(c.mem, w, SlotVa(c.index).word, Address(f)), h.directory, h.index + 1);
      && Ok(r, b.(role := b.role[f := Free(h.index)]))
      && Formed(View(h)) && Unmap(View(h), d, t) == Some(View(r))
      && Keeps(h, r, b.owned, {d * ENTRIES + t})
  {
    hide Conserved, Wired, Backed, DataKept, Keeps;
    ReleaseView(h, b, d, t);
    var v, f := View(h), Pte(h, d, t).frame;
    EntryStore(h, b, d, t, ZERO);
    RoomToFree(h, b, f);
    var c := h.(mem := Put(h.mem, Pde(h, d).frame, t, ZERO));
    SlotWalk(c, b, c.index);
    SlotStore(c, b, f);
    ReleaseConserved(v, b.owned, b.role, d, t);
    var r := Hw(Put(c.mem, Walk(c, SlotVa(c.index)).value, SlotVa(c.index).word, Address(f)), h.directory, h.index + 1);
    ReleaseBook(r, b, f, Page(d, t), Free(h.index));
    ReleaseKept(h, b, r, b.(role := b.role[f := Free(h.index)]), d, t, Pde(h, d).frame, Walk(c, SlotVa(c.index)).value);
  }

  lemma ReleaseKept(h: Hw, b: Book, r: Hw, c: Book, d: nat, t: nat, g: nat, w: nat)
    requires Ok(h, b) && Ok(r, c) && d < WINDOW && t < ENTRIES && Formed(View(h)) && Unmap(View(h), d, t) == Some(View(r))
    requires g in b.role && b.role[g].Table? && w in b.role && b.role[w].Page? && b.role[w].d == WINDOW
    requires r.mem.Keys == h.mem.Keys && forall x :: x in h.mem && x != g && x != w ==> r.mem[x] == h.mem[x]
    ensures Keeps(h, r, b.owned, {d * ENTRIES + t})
  {
    assert forall x :: x in b.owned ==> x in h.mem;
    hide Ok, DataKept, Keeps, View;
    OthersKept(h, b, r, g, w);
    OkFormed(r, c);
    UnmapMapped(View(h), d, t);
    KeepsIf(h, b, r, c, {d * ENTRIES + t});
  }

  lemma UnmapMapped(s: Space, d: nat, t: nat)
    requires Formed(s) && d < WINDOW && t < ENTRIES && Unmap(s, d, t).Some? && Formed(Unmap(s, d, t).value)
    ensures SameMapped(s, Unmap(s, d, t).value, {d * ENTRIES + t})
  {
  }

  lemma ReleaseView(h: Hw, b: Book, d: nat, t: nat)
    requires Ok(h, b) && d < WINDOW && t < ENTRIES && Pde(h, d).present && Pte(h, d, t).present
    requires Pte(h, d, t).frame in b.owned
    ensures Formed(View(h)) && HasTable(View(h), d) && View(h).pt[d][t] == Pte(h, d, t)
    ensures Pte(h, d, t).frame != 0
    ensures Pte(h, d, t).frame in b.role && b.role[Pte(h, d, t).frame] == Page(d, t)
    ensures Pde(h, d).frame in h.mem && |h.mem[Pde(h, d).frame]| == ENTRIES
    ensures HasRole(h, b, Pde(h, d).frame, Table(d)) && forall x :: x in b.owned ==> x in h.mem
  {
    assert FrameAt(View(h), Page(d, t)) == Some(Pte(h, d, t).frame);
  }

  lemma UnmapTouches(s: Space, d: nat, t: nat)
    requires Formed(s) && d < WINDOW && t < ENTRIES
    ensures Unmap(s, d, t).Some? <==> TouchTable(s, d).Some?
  {
  }

  /** The entry read through its address: a fresh table has no page to release. */
  lemma LoadedEntry(s: Space, h: Hw, b: Book, d: nat, t: nat)
    requires Formed(s) && Ok(h, b) && d < WINDOW && t < ENTRIES
    requires TouchTable(s, d) == Some(View(h)) && Walk(h, Va(RECURSIVE_SLOT, d, t)).Some?
    requires HasTable(s, d) && s.pt[d][t].present ==> s.pt[d][t].frame in b.owned
    ensures Pde(h, d).present && Seen(h, Va(RECURSIVE_SLOT, d, t)) == Pte(h, d, t)
    ensures Walk(h, Va(RECURSIVE_SLOT, d, t)) == Some(Pde(h, d).frame)
    ensures Formed(View(h)) && Unmap(s, d, t) == Unmap(View(h), d, t) && HasTable(View(h), d)
    ensures !Pte(h, d, t).present ==> Unmap(s, d, t) == Some(SetEntry(View(h), d, t, ZERO))
    ensures Pte(h, d, t).present ==> Pte(h, d, t).frame in b.owned && Pte(h, d, t).frame != 0
  {
    TableSeen(h, b, Va(d, t, 0));
  }

  /** Giving a page's frame back changes no role the hardware walks rely on. */
  lemma ReleaseBook(h: Hw, b: Book, f: nat, p: Place, q: Place)
    requires Wired(h, b) && Backed(h, b) && f in b.role && b.role[f] == p && p.Page? && p.d != WINDOW
    ensures Wired(h, b.(role := b.role[f := q])) && Backed(h, b.(role := b.role[f := q]))
  {
  }

  /** The pool can serve the tables that mapping n pages needs. */
  ghost predicate Served(s: Space, page: nat, n: nat, prot: Prot)
    requires Formed(s) && page + n <= WINDOW * ENTRIES
    decreases n
  {
    n == 0 ||
    (&& (s.pde[page / ENTRIES].present || s.pool != [])
     && (MarkMeaning(s, page, prot);
         Served(Mark(s, page / ENTRIES, page % ENTRIES, prot), page + 1, n - 1, prot)))
  }

  /** The pool can serve the tables that unmapping n pages needs. */
  ghost predicate Unmappable(s: Space, page: nat, n: nat)
    requires Formed(s) && page + n <= WINDOW * ENTRIES
    decreases n
  {
    n == 0 ||
    var d, t := page / ENTRIES, page % ENTRIES;
    (&& (s.pde[d].present || s.pool != [])
     && (Unmap(s, d, t).Some? ==> Unmappable(Unmap(s, d, t).value, page + 1, n - 1)))
  }

  /** Faults keep the pages on frames of the pool. */
  lemma ReachOurs(h: Hw, b: Book, va: Va, r: Hw, kernel: set<nat>)
    requires Ok(h, b) && InRange(va) && h.index > 0 && Ours(View(h), b.owned, kernel)
    requires Formed(View(h)) && Reach(View(h), va) == Some(View(r))
    ensures Ours(View(r), b.owned, kernel)
  {
    TopIsFree(h, b);
    PoolSize(h);
    hide Ok, Ours, View, Touch, TouchTable;
    if va.dir != RECURSIVE_SLOT {
      TouchOurs(View(h), b.owned, kernel, va.dir, va.tbl);
    } else if va.tbl != RECURSIVE_SLOT {
      TouchTableOurs(View(h), b.owned, kernel, va.tbl);
    }
  }

  /** A page outside the kernel's own that is present has a frame of the pool. */
  lemma PageOwned(h: Hw, b: Book, kernel: set<nat>, d: nat, t: nat)
    requires Ok(h, b) && Ours(View(h), b.owned, kernel) && d < WINDOW && t < ENTRIES && d * ENTRIES + t !in kernel
    ensures PageFrame(h, d, t).Some? ==> PageFrame(h, d, t).value in b.owned
    ensures Formed(View(h)) && (HasTable(View(h), d) && View(h).pt[d][t].present ==> View(h).pt[d][t].frame in b.owned)
  {
    PageSeen(h, b, d, t);
  }

  /** A write to a page backed by the pool reaches no table and no slot. */
  lemma DataStored(h: Hw, b: Book, va: Va, w: Word)
    requires Ok(h, b) && InRange(va) && va.dir < WINDOW && Walk(h, va).Some? && Walk(h, va).value in b.owned
    ensures var f := Walk(h, va).value;
      && f in h.mem && va.word < |h.mem[f]|
      && var r := h.(mem := Put(h.mem, f, va.word, w));
      && Ok(r, b) && View(r) == View(h)
      && Keeps(h, r, b.owned, {va.dir * ENTRIES + va.tbl})
  {
    var f := Walk(h, va).value;
    DataFrame(h, b, va);
    var r := h.(mem := Put(h.mem, f, va.word, w));
    hide Ok, Keeps, Walk, View;
    DataView(h, b, r, f, Page(va.dir, va.tbl));
    DataKeeps(h, b, r, f, va.dir, va.tbl);
  }

  lemma DataFrame(h: Hw, b: Book, va: Va)
    requires Ok(h, b) && InRange(va) && va.dir < WINDOW && Walk(h, va).Some? && Walk(h, va).value in b.owned
    ensures var f := Walk(h, va).value;
      f in h.mem && |h.mem[f]| == ENTRIES && f in b.role && b.role[f] == Page(va.dir, va.tbl)
    ensures forall x :: x in b.owned ==> x in h.mem
  {
    PageSeen(h, b, va.dir, va.tbl);
    assert PageFrame(h, va.dir, va.tbl) == Walk(h, va);
  }

  lemma DataKeeps(h: Hw, b: Book, r: Hw, f: nat, d0: nat, t0: nat)
    requires Ok(h, b) && Ok(r, b) && View(r) == View(h) && f in b.role && b.role[f] == Page(d0, t0)
    requires forall x :: x in b.owned ==> x in h.mem
    requires r.mem.Keys == h.mem.Keys && forall x :: x in h.mem && x != f ==> r.mem[x] == h.mem[x]
    ensures Keeps(h, r, b.owned, {d0 * ENTRIES + t0})
  {
    hide Ok, View, Walk, PageFrame;
    forall d: nat, t: nat | d < WINDOW && t < ENTRIES && d * ENTRIES + t !in {d0 * ENTRIES + t0}
        && PageFrame(h, d, t).Some? && PageFrame(h, d, t).value in b.owned
      ensures PageFrame(r, d, t) == PageFrame(h, d, t) && HoldsSame(h, r, PageFrame(h, d, t).value)
    {
      PageSeen(h, b, d, t);
      PageSeen(r, b, d, t);
    }
  }

  lemma DataView(h: Hw, b: Book, r: Hw, f: nat, p: Place)
    requires Ok(h, b) && f in h.mem && f in b.role && b.role[f] == p && p.Page? && p.d < WINDOW
    requires r.directory == h.directory && r.index == h.index && r.mem.Keys == h.mem.Keys && |r.mem[f]| == ENTRIES
    requires forall x :: x in h.mem && x != f ==> r.mem[x] == h.mem[x]
    ensures Ok(r, b) && View(r) == View(h)
  {
    hide Conserved;
    SameTables(h, r, b);
    assert forall i :: 0 <= i < h.index ==> HasRole(h, b, Pte(h, WINDOW, i / ENTRIES).frame, Page(WINDOW, i / ENTRIES));
    assert forall i :: 0 <= i < h.index ==> Slot(r, i) == Slot(h, i);
    assert View(r).pool == View(h).pool;
  }

  /** What a fault maps comes from the pool. */
  lemma ReachOwned(h: Hw, b: Book, r: Hw, c: Book, va: Va)
    requires Ok(h, b) && Ok(r, c) && c.owned == b.owned && InRange(va) && va.dir < WINDOW && h.index > 0
    requires Formed(View(h)) && Reach(View(h), va) == Some(View(r))
    requires PageFrame(h, va.dir, va.tbl).Some? ==> PageFrame(h, va.dir, va.tbl).value in b.owned
    requires Walk(r, va).Some?
    ensures Walk(r, va).value in b.owned
  {
    PageSeen(h, b, va.dir, va.tbl);
    PageSeen(r, c, va.dir, va.tbl);
    assert PageFrame(r, va.dir, va.tbl) == Walk(r, va);
    if PageFrame(h, va.dir, va.tbl).None? {
      TopIsFree(h, b);
    }
  }

  lemma StoreOwned(h: Hw, b: Book, r: Hw, c: Book, va: Va)
    requires Ok(h, b) && Ok(r, c) && c.owned == b.owned && InRange(va) && va.dir < WINDOW
    requires Walk(h, va) == None ==> h.index > 0
    requires Formed(View(h)) && Reach(View(h), va) == Some(View(r)) && Keeps(h, r, b.owned, {})
    requires PageFrame(h, va.dir, va.tbl).Some? ==> PageFrame(h, va.dir, va.tbl).value in b.owned
    requires Walk(r, va).Some?
    ensures Walk(r, va).value in b.owned
  {
    assert PageFrame(h, va.dir, va.tbl) == Walk(h, va) && PageFrame(r, va.dir, va.tbl) == Walk(r, va);
    if Walk(h, va) == None {
      ReachOwned(h, b, r, c, va);
    }
  }

  lemma StoredSeen(h: Hw, b: Book, va: Va, w: Word)
    requires Ok(h, b) && InRange(va) && va.dir < WINDOW && Walk(h, va).Some?
    requires var f := Walk(h, va).value; f in h.mem && va.word < |h.mem[f]| && f in b.owned
    ensures var r := h.(mem := Put(h.mem, Walk(h, va).value, va.word, w));
      Walk(r, va) == Walk(h, va) && Seen(r, va) == w
  {
    PageSeen(h, b, va.dir, va.tbl);
    assert PageFrame(h, va.dir, va.tbl) == Walk(h, va);
  }

  class Machine {
    var mem: Memory
    const directory: nat
    var index: nat
    ghost var book: Book
    ghost const kernel: set<nat>  // the pages the bootstrap code mapped

    constructor (mem: Memory, directory: nat, ghost book: Book, ghost kernel: set<nat>)
      ensures Hardware() == Hw(mem, directory, 0) && this.book == book && this.kernel == kernel
    {
      this.mem, this.directory, this.index, this.book, this.kernel := mem, directory, 0, book, kernel;
    }

    function Hardware(): Hw
      reads `mem, `index
    {
      Hw(mem, directory, index)
    }

    ghost predicate Valid()
      reads `mem, `index, `book
    {
      Ok(Hardware(), book) && Ours(View(Hardware()), book.owned, kernel)
    }

    ghost function Contents(): Space
      reads `mem, `index
    {
      View(Hardware())
    }

    /** What no operation changes. */
    twostate predicate Fixed()
      reads `book, `mem
    {
      mem.Keys == old(mem.Keys) && book.owned == old(book.owned) && book.backed == old(book.backed)
    }

    // --------------------------------------------------------- the processor

    /** A read of a present page. */
    method Peek(va: Va) returns (w: Word)
      requires Walk(Hardware(), va).Some?
      ensures w == Seen(Hardware(), va)
    {
      w := At(mem, Walk(Hardware(), va).value, va.word);
    }

    /** A write to a present page. */
    method Poke(va: Va, w: Word)
      requires Walk(Hardware(), va).Some?
      requires var f := Walk(Hardware(), va).value; f in mem && va.word < |mem[f]|
      modifies `mem
      ensures mem == Put(old(mem), old(Walk(Hardware(), va)).value, va.word, w)
    {
      mem := Put(mem, Walk(Hardware(), va).value, va.word, w);
    }

    /** A read that faults first if the page is not present. */
    method Load(va: Va) returns (ok: bool, w: Word)
      requires Valid() && InRange(va)
      requires Walk(Hardware(), va) == None ==> index > 0
      modifies this
      ensures Formed(old(Contents())) && (ok <==> Reach(old(Contents()), va).Some?)
      ensures ok ==> Valid() && Fixed() && Reach(old(Contents()), va) == Some(Contents())
      ensures ok ==> Walk(Hardware(), va).Some? && w == Seen(Hardware(), va)
      ensures ok ==> Keeps(old(Hardware()), Hardware(), book.owned, {})
      decreases Level(va), 1
    {
      hide Touch, TouchTable, Conserved, Ours;
      ViewFormed(Hardware(), book);
      ok, w := true, ZERO;
      if Walk(Hardware(), va) == None {
        ok := Fault(va);
      } else {
        PresentReach(Hardware(), book, va);
        KeepsSelf(Hardware(), book);
      }
      if ok {
        ViewFormed(Hardware(), book);
        w := Peek(va);
      }
    }

    /** mmu_alloc: pops a frame, 0 if there is none. */
    method Alloc() returns (w: Word)
      requires Valid()
      modifies `index
      ensures index == if old(index) == 0 then 0 else old(index) - 1
      ensures w == Address(Top(old(Contents()).pool))
    {
      hide Ok, Ours, View, Walk, Conserved;
      w := ZERO;
      PoolSize(Hardware());
      if index > 0 {
        ghost var h := Hardware();
        SlotSeen(h, book);
        index := index - 1;
        WalkIgnoresIndex(h, index, SlotVa(index));
        w := Peek(SlotVa(index));
      }
    }

    /** INT_0E for a page that is not present. */
    method Fault(va: Va) returns (ok: bool)
      requires Valid() && InRange(va) && Walk(Hardware(), va) == None && index > 0
      modifies this
      ensures Formed(old(Contents())) && (ok <==> Reach(old(Contents()), va).Some?)
      ensures ok ==> Valid() && Fixed() && Reach(old(Contents()), va) == Some(Contents())
      ensures ok ==> Keeps(old(Hardware()), Hardware(), book.owned, {})
      ensures ok ==> Walk(Hardware(), va).Some? && HoldsBlank(Hardware(), Walk(Hardware(), va).value)
      decreases Level(va), 0
    {
      hide Ok, Ours, View, Reach, Formed, Walk, Put, Blank, Level, Target;
      ghost var s := Hardware();
      OkFormed(s, book);
      FaultsBelow(s, book, va);
      ReachAgain(View(s), va);
      var e;
      ok, e := Load(EntryVa(va));
      if !ok {
        return;
      }
      ghost var h, b := Hardware(), book;
      StillAbsent(s, old(book), h, b, va);
      if !e.ondemand {
        ReachHalts(h, b, va);
        return false;
      }
      StillFrames(s, h, b, va);
      FaultFills(h, b, va);
      TopIsFree(h, b);
      var page := Alloc();
      WalkIgnoresIndex(h, index, EntryVa(va));
      Poke(EntryVa(va), Fill(page, e));
      mem := mem[Walk(Hardware(), va).value := Blank()];
      book := b.(role := b.role[TopFrame(h) := Target(va)]);
      FaultKeeps(s, h, b, Hardware(), book, va);
      ReachOurs(h, b, va, Hardware(), kernel);
    }

    /** A write that faults first if the page is not present: what is read there
        afterwards is what was written, and every other page is as it was. */
    method Store(va: Va, w: Word) returns (ok: bool)
      requires Valid() && InRange(va) && va.dir < WINDOW
      requires va.dir * ENTRIES + va.tbl !in kernel
      requires Walk(Hardware(), va) == None ==> index > 0
      modifies this
      ensures Formed(old(Contents())) && (ok <==> Reach(old(Contents()), va).Some?)
      ensures ok ==> Valid() && Fixed() && Reach(old(Contents()), va) == Some(Contents())
      ensures ok ==> Walk(Hardware(), va).Some? && Seen(Hardware(), va) == w
      ensures ok ==> Keeps(old(Hardware()), Hardware(), book.owned, {va.dir * ENTRIES + va.tbl})
    {
      hide Ok, Ours, View, Reach, Keeps, Put;
      ghost var s, b := Hardware(), book;
      PageOwned(s, b, kernel, va.dir, va.tbl);
      var was;
      ok, was := Load(va);
      if ok {
        ghost var h := Hardware();
        StoreOwned(s, b, h, book, va);
        DataStored(h, book, va, w);
        Poke(va, w);
        StoredSeen(h, book, va, w);
        KeepsOver(s, h, Hardware(), book.owned, {va.dir * ENTRIES + va.tbl});
      }
    }

    // ------------------------------------------------------------ the manager

    /** The first half of mmu_mark: a directory entry without a table is put on demand. */
    method Open(d: nat)
      requires Valid() && d < RECURSIVE_SLOT
      modifies `mem
      ensures Valid() && Formed(old(Contents())) && Contents() == OpenDirectory(old(Contents()), d)
      ensures mem.Keys == old(mem.Keys) && Keeps(old(Hardware()), Hardware(), book.owned, {})
    {
      ghost var h, b := Hardware(), book;
      DirectorySeen(h, b, d);
      hide Ok, Ours, View, Put, Wired, Keeps;
      OkFormed(h, b);
      TouchTableOurs(View(h), b.owned, kernel, d);
      OkFormed(h, b);
      KeepsSelf(h, b);
      var e := Peek(Va(RECURSIVE_SLOT, RECURSIVE_SLOT, d));
      if !e.present && !e.ondemand {
        OpenStored(h, b, d);
        Poke(Va(RECURSIVE_SLOT, RECURSIVE_SLOT, d), Word(0, true, Prot(true, true), false));
      }
    }

    /** mmu_mark without MMU_PAGE_NOALLOC. */
    method Mark(page: nat, prot: Prot)
      requires Valid() && page < RECURSIVE_SLOT * ENTRIES
      requires page / ENTRIES == WINDOW ==> book.backed <= page % ENTRIES
      requires Formed(Contents()) && (Contents().pde[page / ENTRIES].present || index > 0)
      modifies this
      ensures Valid() && Fixed()
      ensures Contents() == AddressSpace.Mark(old(Contents()), page / ENTRIES, page % ENTRIES, prot)
      ensures Keeps(old(Hardware()), Hardware(), book.owned, {})
    {
      hide Ok, Ours, View, Put, Walk, Keeps, Touch, TouchTable, OpenDirectory, AddressSpace.Mark, SetEntry;
      var d, t := page / ENTRIES, page % ENTRIES;
      MarkSteps(Contents(), d, t, prot);
      MarkOurs(Contents(), book.owned, kernel, d, t, prot);
      ghost var h0 := Hardware();
      Open(d);
      ghost var h1 := Hardware();
      MayLoad(Hardware(), book, d, t);
      var ok, e := Load(Va(RECURSIVE_SLOT, d, t));
      ghost var h2 := Hardware();
      var w := if !e.present then Word(0, true, prot, false) else e.(prot := prot);
      EntryStored(Hardware(), book, Va(d, t, 0), w);
      Poke(Va(RECURSIVE_SLOT, d, t), w);
      KeepsOver(h0, h1, h2, book.owned, {});
      KeepsOver(h0, h2, Hardware(), book.owned, {});
    }

    /** mmu_mmap without MMU_PAGE_NOALLOC. */
    method Mmap(page: nat, n: nat, prot: Prot)
      requires Valid() && page + n <= WINDOW * ENTRIES
      requires Formed(Contents()) && Served(Contents(), page, n, prot)
      modifies this
      ensures Valid() && Fixed()
      ensures Contents() == MarkRange(old(Contents()), page, n, prot)
      ensures Keeps(old(Hardware()), Hardware(), book.owned, {})
    {
      hide Ok, Ours, View, AddressSpace.Mark, Keeps;
      ghost var s, h := Contents(), Hardware();
      KeepsSelf(h, book);
      var i := 0;
      while i < n
        invariant 0 <= i <= n && Valid() && Fixed() && Formed(Contents())
        invariant Served(Contents(), page + i, n - i, prot)
        invariant MarkRange(Contents(), page + i, n - i, prot) == MarkRange(s, page, n, prot)
        invariant Keeps(h, Hardware(), book.owned, {})
      {
        ghost var m := Hardware();
        PoolSize(m);
        Mark(page + i, prot);
        OkFormed(Hardware(), book);
        KeepsOver(h, m, Hardware(), book.owned, {});
        i := i + 1;
      }
    }

    /** mmu_free: pushes a frame. */
    method Free(w: Word)
      requires Walk(Hardware(), SlotVa(index)).Some?
      requires var f := Walk(Hardware(), SlotVa(index)).value; f in mem && SlotVa(index).word < |mem[f]|
      modifies `mem, `index
      ensures index == old(index) + 1
      ensures mem == Put(old(mem), old(Walk(Hardware(), SlotVa(index)).value), SlotVa(old(index)).word, w)
    {
      Poke(SlotVa(index), w);
      index := index + 1;
    }

    /** One page of mmu_munmap. */
    method Unmap(page: nat) returns (ok: bool)
      requires Valid() && page < WINDOW * ENTRIES
      requires Formed(Contents()) && (Contents().pde[page / ENTRIES].present || index > 0)
      requires page !in kernel
      modifies this
      ensures ok <==> AddressSpace.Unmap(old(Contents()), page / ENTRIES, page % ENTRIES).Some?
      ensures ok ==> Valid() && Fixed()
      ensures ok ==> AddressSpace.Unmap(old(Contents()), page / ENTRIES, page % ENTRIES) == Some(Contents())
      ensures ok ==> Keeps(old(Hardware()), Hardware(), book.owned, {page})
    {
      hide Ok, Ours, View, Put, Walk, Keeps, Touch, TouchTable, AddressSpace.Unmap, SetEntry;
      ghost var s, h0 := Contents(), Hardware();
      var d, t := page / ENTRIES, page % ENTRIES;
      PageOwned(h0, book, kernel, d, t);
      MayLoad(Hardware(), book, d, t);
      UnmapTouches(s, d, t);
      if AddressSpace.Unmap(s, d, t).Some? {
        UnmapOurs(s, book.owned, kernel, d, t);
      }
      var e;
      ok, e := Load(Va(RECURSIVE_SLOT, d, t));
      if !ok {
        return;
      }
      ghost var h, b := Hardware(), book;
      LoadedEntry(s, h, b, d, t);
      if e.present {
        ReleaseStored(h, b, d, t);
      } else {
        EntryStored(h, b, Va(d, t, 0), ZERO);
        KeepsMore(h, h.(mem := Put(h.mem, Pde(h, d).frame, t, ZERO)), b.owned, {page});
      }
      Poke(Va(RECURSIVE_SLOT, d, t), ZERO);
      if e.present {
        if e.frame != 0 {
          Free(Address(e.frame));
          book := b.(role := b.role[e.frame := Place.Free(h.index)]);
        }
      }
      KeepsOver(h0, h, Hardware(), book.owned, {page});
    }

    /** mmu_munmap, releasing the frames. */
    method Munmap(page: nat, n: nat) returns (ok: bool)
      requires Valid() && page + n <= WINDOW * ENTRIES
      requires Formed(Contents()) && Unmappable(Contents(), page, n)
      requires forall q :: page <= q < page + n ==> q !in kernel
      modifies this
      ensures ok <==> forall q: nat :: page <= q < page + n ==>
        old(Contents()).pde[q / ENTRIES].present || old(Contents()).pde[q / ENTRIES].ondemand
      ensures ok ==> Valid() && Fixed() && UnmapRange(old(Contents()), page, n) == Some(Contents())
      ensures ok ==> Keeps(old(Hardware()), Hardware(), book.owned, PageSet(page, n))
    {
      hide Ok, Ours, View, AddressSpace.Unmap, Keeps;
      ghost var s, h := Contents(), Hardware();
      PageRanges.UnmapRangeIff(s, page, n);
      KeepsSelf(h, book);
      var i := 0;
      while i < n
        invariant 0 <= i <= n && Valid() && Fixed() && Formed(Contents())
        invariant Unmappable(Contents(), page + i, n - i)
        invariant UnmapRange(Contents(), page + i, n - i) == UnmapRange(s, page, n)
        invariant Keeps(h, Hardware(), book.owned, PageSet(page, i))
      {
        ghost var m := Hardware();
        PoolSize(m);
        ok := Unmap(page + i);
        if !ok {
          return;
        }
        OkFormed(Hardware(), book);
        KeepsBoth(h, m, Hardware(), book.owned, PageSet(page, i), {page + i});
        i := i + 1;
      }
      ok := true;
    }
  }
}

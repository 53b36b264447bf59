/** Physical memory as the processor sees it: frames of words, reached through a
    directory whose last slot points at itself, with the stack of free frames
    stored behind the pool window.  Lemmas say what a store into each of these
    frames means for the address space. */
module PhysicalMemory {
  import opened Options
  import opened AddressSpace

  /** A word-aligned virtual address: directory index, table index, word. */
  datatype Va = Va(dir: nat, tbl: nat, word: nat)

  predicate InRange(va: Va) {
    va.dir < ENTRIES && va.tbl < ENTRIES && va.word < ENTRIES
  }

  /** MMU_PT_PTR(addr)[MMU_PT_INDEX(addr)]. */
  function EntryVa(va: Va): Va {
    Va(RECURSIVE_SLOT, va.dir, va.tbl)
  }

  /** MMU_frames[i]. */
  function SlotVa(i: nat): Va {
    Va(WINDOW, i / ENTRIES, i % ENTRIES)
  }

  type Memory = map<nat, seq<Word>>

  datatype Hw = Hw(mem: Memory, directory: nat, index: nat)

  /** Word i of frame f. */
  function At(mem: Memory, f: nat, i: nat): Word {
    if f in mem && i < |mem[f]| then mem[f][i] else ZERO
  }

  function Put(mem: Memory, f: nat, i: nat, w: Word): (r: Memory)
    requires f in mem && i < |mem[f]|
    ensures r.Keys == mem.Keys
  {
    mem[f := mem[f][i := w]]
  }

  function Pde(h: Hw, d: nat): Word { At(h.mem, h.directory, d) }
  function Pte(h: Hw, d: nat, t: nat): Word { At(h.mem, Pde(h, d).frame, t) }
  function Slot(h: Hw, i: nat): Word { At(h.mem, Pte(h, WINDOW, i / ENTRIES).frame, i % ENTRIES) }

  /** The hardware's walk: the frame holding the page of va, if both entries are present. */
  function Walk(h: Hw, va: Va): Option<nat> {
    if Pde(h, va.dir).present && Pte(h, va.dir, va.tbl).present then Some(Pte(h, va.dir, va.tbl).frame) else None
  }

  /** A free frame's address, as a word. */
  function Address(frame: nat): Word {
    Word(frame, false, Prot(false, false), false)
  }

  /** page | (entry & MMU_PROT_MASK) | MMU_PROT_PRESENT, field by field. */
  function Fill(page: Word, e: Word): Word {
    Word(page.frame, page.ondemand, Prot(page.prot.user || e.prot.user, page.prot.rw || e.prot.rw), true)
  }

  // -------------------------------------------------------------------- invariant

  /** The books: how many pages of the pool window have a frame, which frames the
      pool was given, and the one place each frame in use is referred to from. */
  datatype Book = Book(backed: nat, owned: set<nat>, role: map<nat, Place>)

  /** The frames in the first n slots. */
  function Pool(h: Hw, n: nat): (r: seq<nat>)
    ensures |r| == n && forall i :: 0 <= i < n ==> r[i] == Slot(h, i).frame
  {
    if n == 0 then [] else Pool(h, n - 1) + [Slot(h, n - 1).frame]
  }

  /** The words of the table of directory entry d, [] if it is absent. */
  function TableOf(h: Hw, d: nat): seq<Word> {
    if Pde(h, d).present && Pde(h, d).frame in h.mem then h.mem[Pde(h, d).frame] else []
  }

  function Tables(h: Hw, n: nat): (r: seq<seq<Word>>)
    ensures |r| == n && forall d :: 0 <= d < n ==> r[d] == TableOf(h, d)
  {
    if n == 0 then [] else Tables(h, n - 1) + [TableOf(h, n - 1)]
  }

  /** What the memory means. */
  function View(h: Hw): Space {
    Space(if h.directory in h.mem then h.mem[h.directory] else [],
          Tables(h, RECURSIVE_SLOT),
          Pool(h, h.index))
  }

  ghost predicate HasRole(h: Hw, b: Book, f: nat, p: Place) {
    f in h.mem && f in b.role && b.role[f] == p
  }

  ghost predicate Wired(h: Hw, b: Book) {
    && (forall f :: f in h.mem ==> |h.mem[f]| == ENTRIES)
    && HasRole(h, b, h.directory, Directory)
    && Pde(h, RECURSIVE_SLOT).present && Pde(h, RECURSIVE_SLOT).frame == h.directory
    && (forall d :: 0 <= d < RECURSIVE_SLOT && Pde(h, d).present ==> HasRole(h, b, Pde(h, d).frame, Table(d)))
    && (forall f :: f in b.owned ==> f in h.mem)
  }

  ghost predicate Backed(h: Hw, b: Book) {
    && 0 < b.backed <= ENTRIES && Pde(h, WINDOW).present
    && (forall k :: 0 <= k < b.backed ==>
          Pte(h, WINDOW, k).present && HasRole(h, b, Pte(h, WINDOW, k).frame, Page(WINDOW, k)))
    && (forall k :: 0 < k < b.backed ==> Pte(h, WINDOW, k).frame in b.owned)
    && h.index <= b.backed * ENTRIES
    && (forall i :: 0 <= i < h.index ==> Slot(h, i) == Address(Slot(h, i).frame))
  }

  ghost predicate Ok(h: Hw, b: Book) {
    && Wired(h, b) && Backed(h, b)
    && Conserved(View(h), b.owned, b.role)
    && |b.owned| <= b.backed * ENTRIES + b.backed - 1
  }

  // -------------------------------------------------------------- address walks

  /** The slots in use are behind present pages. */
  lemma SlotWalk(h: Hw, b: Book, i: nat)
    requires Wired(h, b) && Backed(h, b) && i < b.backed * ENTRIES
    ensures Walk(h, SlotVa(i)) == Some(Pte(h, WINDOW, i / ENTRIES).frame)
    ensures HasRole(h, b, Pte(h, WINDOW, i / ENTRIES).frame, Page(WINDOW, i / ENTRIES))
  {
  }

  // ------------------------------------------------------------ what stores mean

  lemma ViewFormed(h: Hw, b: Book)
    requires Wired(h, b)
    ensures Formed(View(h))
  {
  }

  /** A store into an entry of a table that does not back the pool changes that
      entry and nothing else. */
  lemma EntryStore(h: Hw, b: Book, d: nat, t: nat, w: Word)
    requires Wired(h, b) && Backed(h, b) && d < RECURSIVE_SLOT && Pde(h, d).present && t < ENTRIES
    requires d == WINDOW ==> b.backed <= t
    ensures var r := h.(mem := Put(h.mem, Pde(h, d).frame, t, w));
      && Wired(r, b) && Backed(r, b)
      && Formed(View(h)) && View(r) == SetEntry(View(h), d, t, w)
  {
    ViewFormed(h, b);
    var r := h.(mem := Put(h.mem, Pde(h, d).frame, t, w));
    assert forall e :: Pde(r, e) == Pde(h, e);
    assert forall k :: 0 <= k < b.backed ==> Pte(r, WINDOW, k) == Pte(h, WINDOW, k);
    assert forall i :: 0 <= i < h.index ==> Slot(r, i) == Slot(h, i);
    assert View(r).pool == View(h).pool;
    assert View(r).pt == SetEntry(View(h), d, t, w).pt;
  }

  /** A store into an absent directory entry that leaves it absent. */
  lemma AbsentStore(h: Hw, b: Book, d: nat, w: Word)
    requires Wired(h, b) && Backed(h, b) && d < RECURSIVE_SLOT && !Pde(h, d).present && !w.present
    ensures var r := h.(mem := Put(h.mem, h.directory, d, w));
      && Wired(r, b) && Backed(r, b)
      && View(r) == View(h).(pde := View(h).pde[d := w])
  {
    var r := h.(mem := Put(h.mem, h.directory, d, w));
    assert forall e :: e != d ==> Pde(r, e) == Pde(h, e);
    assert forall e :: 0 <= e < RECURSIVE_SLOT ==> TableOf(r, e) == TableOf(h, e);
    assert forall k :: 0 <= k < b.backed ==> Pte(r, WINDOW, k) == Pte(h, WINDOW, k);
    assert forall i :: 0 <= i < h.index ==> Slot(r, i) == Slot(h, i);
    assert View(r).pool == View(h).pool;
    assert View(r).pt == View(h).pt;
  }

  lemma DirectoryStore(h: Hw, b: Book, d: nat, w: Word)
    requires Ok(h, b) && d < RECURSIVE_SLOT && !Pde(h, d).present && !w.present
    ensures var r := h.(mem := Put(h.mem, h.directory, d, w));
      Ok(r, b) && View(r) == View(h).(pde := View(h).pde[d := w])
  {
    hide Wired, Backed;
    AbsentStore(h, b, d, w);
    AbsentConserved(View(h), b.owned, b.role, d, w);
  }

  /** A store over the flags of an entry keeps its frame where it is. */
  lemma EntryStoreOk(h: Hw, b: Book, d: nat, t: nat, w: Word)
    requires Ok(h, b) && d < RECURSIVE_SLOT && Pde(h, d).present && t < ENTRIES
    requires d == WINDOW ==> b.backed <= t
    requires w.present == Pte(h, d, t).present && (w.present ==> w.frame == Pte(h, d, t).frame)
    ensures var r := h.(mem := Put(h.mem, Pde(h, d).frame, t, w));
      Ok(r, b) && Formed(View(h)) && View(r) == SetEntry(View(h), d, t, w)
  {
    EntryStore(h, b, d, t, w);
    EntryConserved(View(h), b.owned, b.role, d, t, w);
  }

  /** The top frame of the stack. */
  function TopFrame(h: Hw): nat
    requires h.index > 0
  {
    Slot(h, h.index - 1).frame
  }

  lemma TopIsFree(h: Hw, b: Book)
    requires Ok(h, b) && h.index > 0
    ensures TopFrame(h) == Top(View(h).pool) && HasRole(h, b, TopFrame(h), Free(h.index - 1))
    ensures TopFrame(h) in b.owned && Slot(h, h.index - 1) == Address(TopFrame(h))
  {
    assert FrameAt(View(h), Free(h.index - 1)) == Some(TopFrame(h));
  }

  /** A change outside the directory and the tables changes no entry. */
  lemma SameTables(h: Hw, r: Hw, b: Book)
    requires Wired(h, b) && r.directory == h.directory && r.mem.Keys == h.mem.Keys
    requires forall x :: x in r.mem ==> |r.mem[x]| == ENTRIES
    requires forall x :: x in h.mem && x in b.role && (b.role[x].Directory? || b.role[x].Table?) ==> r.mem[x] == h.mem[x]
    ensures Wired(r, b)
    ensures View(r).pde == View(h).pde && View(r).pt == View(h).pt
    ensures forall d: nat :: Pde(r, d) == Pde(h, d)
    ensures Pde(h, WINDOW).present ==> forall k: nat :: Pte(r, WINDOW, k) == Pte(h, WINDOW, k)
  {
    assert forall d: nat :: Pde(r, d) == Pde(h, d);
    assert forall d :: 0 <= d < RECURSIVE_SLOT ==> TableOf(r, d) == TableOf(h, d);
    assert View(r).pt == View(h).pt;
  }

  /** Popping a frame and clearing it touches no table and no slot in use. */
  lemma PopAndClear(h: Hw, b: Book, f: nat, i: nat)
    requires Wired(h, b) && Backed(h, b) && h.index > 0 && HasRole(h, b, f, Free(i))
    ensures var r := h.(mem := h.mem[f := Blank()], index := h.index - 1);
      && Wired(r, b) && Backed(r, b)
      && View(r) == View(h).(pool := Rest(View(h).pool))
  {
    var r := h.(mem := h.mem[f := Blank()], index := h.index - 1);
    SameTables(h, r, b);
    forall j | 0 <= j < h.index
      ensures Slot(r, j) == Slot(h, j)
    {
      assert HasRole(h, b, Pte(h, WINDOW, j / ENTRIES).frame, Page(WINDOW, j / ENTRIES));
    }
    assert View(r).pool == Rest(View(h).pool);
  }

  /** Assigning a new place to a frame that was free disturbs no other frame's role. */
  lemma Reassign(h: Hw, b: Book, f: nat, i: nat, p: Place)
    requires Wired(h, b) && Backed(h, b) && f in b.role && b.role[f] == Free(i)
    ensures Wired(h, b.(role := b.role[f := p])) && Backed(h, b.(role := b.role[f := p]))
  {
  }

  /** Entering the frame and clearing it may come in either order. */
  lemma PutThenClear(mem: Memory, g: nat, i: nat, w: Word, f: nat)
    requires g in mem && i < |mem[g]| && f != g
    ensures Put(mem, g, i, w)[f := Blank()] == Put(mem[f := Blank()], g, i, w)
  {
  }

  /** The page fault on an on-demand page: the top frame is entered and cleared. */
  lemma PageFilled(h: Hw, b: Book, d: nat, t: nat)
    requires Ok(h, b) && h.index > 0 && d < RECURSIVE_SLOT && Pde(h, d).present && t < ENTRIES
    requires d == WINDOW ==> b.backed <= t
    requires !Pte(h, d, t).present
    ensures var f := TopFrame(h);
      var r := Hw(Put(h.mem, Pde(h, d).frame, t, FillEntry(Pte(h, d, t), f))[f := Blank()], h.directory, h.index - 1);
      && Ok(r, b.(role := b.role[f := Page(d, t)]))
      && Formed(View(h)) && View(r) == FillPage(View(h), d, t)
  {
    assert HasRole(h, b, Pde(h, d).frame, Table(d)) && HasRole(h, b, h.directory, Directory);
    hide Wired, Backed, Conserved, Tables, Pool;
    TopIsFree(h, b);
    ViewFormed(h, b);
    var f := TopFrame(h);
    PopAndClear(h, b, f, h.index - 1);
    var c := h.(mem := h.mem[f := Blank()], index := h.index - 1);
    var e := FillEntry(Pte(h, d, t), f);
    EntryStore(c, b, d, t, e);
    var r := c.(mem := Put(c.mem, Pde(c, d).frame, t, e));
    PutThenClear(h.mem, Pde(h, d).frame, t, e, f);
    assert View(r) == FillPage(View(h), d, t);
    PageConserved(View(h), b.owned, b.role, d, t);
    Reassign(r, b, f, h.index - 1, Page(d, t));
  }

  /** The page fault on a table: the top frame is entered in the directory and cleared. */
  lemma TableFilled(h: Hw, b: Book, d: nat)
    requires Ok(h, b) && h.index > 0 && d < RECURSIVE_SLOT && !Pde(h, d).present && Pde(h, d).ondemand
    ensures var f := TopFrame(h);
      var r := Hw(Put(h.mem, h.directory, d, FillEntry(Pde(h, d), f))[f := Blank()], h.directory, h.index - 1);
      && Ok(r, b.(role := b.role[f := Table(d)]))
      && Some(View(r)) == TouchTable(View(h), d)
  {
    assert HasRole(h, b, h.directory, Directory);
    hide Wired, Backed, Conserved, Tables, Pool;
    TopIsFree(h, b);
    var f := TopFrame(h);
    PopAndClear(h, b, f, h.index - 1);
    var c := h.(mem := h.mem[f := Blank()], index := h.index - 1);
    var e := FillEntry(Pde(h, d), f);
    var b' := b.(role := b.role[f := Table(d)]);
    Reassign(c, b, f, h.index - 1, Table(d));
    TableStore(c, b', d, e);
    TableConserved(View(h), b.owned, b.role, d);
    var r := c.(mem := Put(c.mem, c.directory, d, e));
    PutThenClear(h.mem, h.directory, d, e, f);
  }

  /** Entering a table frame in the directory makes the frame's words the table. */
  lemma TableStore(h: Hw, b: Book, d: nat, e: Word)
    requires Wired(h, b) && Backed(h, b) && d < RECURSIVE_SLOT && !Pde(h, d).present
    requires e.present && HasRole(h, b, e.frame, Table(d))
    ensures var r := h.(mem := Put(h.mem, h.directory, d, e));
      && Wired(r, b) && Backed(r, b)
      && View(r) == View(h).(pde := View(h).pde[d := e], pt := View(h).pt[d := h.mem[e.frame]])
  {
    var r := h.(mem := Put(h.mem, h.directory, d, e));
    assert forall x :: x != d ==> Pde(r, x) == Pde(h, x);
    assert forall x, t :: 0 <= x < RECURSIVE_SLOT && Pde(h, x).present ==> Pte(r, x, t) == Pte(h, x, t);
    assert forall i :: 0 <= i < h.index ==> Slot(r, i) == Slot(h, i);
    assert View(r).pool == View(h).pool;
    assert View(r).pt == View(h).pt[d := h.mem[e.frame]];
  }

  // ----------------------------------------------------------------- room to free

  lemma {:induction false} DistinctFit(xs: seq<nat>, s: set<nat>)
    requires forall i :: 0 <= i < |xs| ==> xs[i] in s
    requires forall i, j :: 0 <= i < j < |xs| ==> xs[i] != xs[j]
    ensures |xs| <= |s|
    decreases |xs|
  {
    if xs == [] {
    } else {
      var n := |xs| - 1;
      assert |s| == |s - {xs[n]}| + 1;
      DistinctFit(xs[..n], s - {xs[n]});
    }
  }

  function WindowFrames(h: Hw, n: nat): (r: seq<nat>)
    ensures |r| == n && forall k :: 0 <= k < n ==> r[k] == Pte(h, WINDOW, k + 1).frame
  {
    if n == 0 then [] else WindowFrames(h, n - 1) + [Pte(h, WINDOW, n).frame]
  }

  /** As long as a frame of the pool is in use as a table or a page outside the
      window, the stack has a backed slot left: mmu_free never runs off its end. */
  lemma RoomToFree(h: Hw, b: Book, f: nat)
    requires Ok(h, b) && f in b.owned
    requires b.role[f].Table? || (b.role[f].Page? && b.role[f].d != WINDOW)
    ensures h.index < b.backed * ENTRIES
  {
    var pool, window := View(h).pool, WindowFrames(h, b.backed - 1);
    var all := pool + window + [f];
    assert forall i :: 0 <= i < |pool| ==> FrameAt(View(h), Free(i)) == Some(pool[i]);
    assert forall i :: 0 <= i < |pool| ==> b.role[pool[i]] == Free(i);
    assert forall k :: 0 <= k < |window| ==> b.role[window[k]] == Page(WINDOW, k + 1);
    forall i, j | 0 <= i < j < |all|
      ensures all[i] != all[j]
    {
      assert b.role[all[i]] != b.role[all[j]];
    }
    DistinctFit(all, b.owned);
  }

  lemma SlotsDiffer(i: nat, j: nat)
    requires i != j && i / ENTRIES == j / ENTRIES
    ensures i % ENTRIES != j % ENTRIES
  {
  }

  /** Storing a frame in the next slot pushes it. */
  lemma SlotStore(h: Hw, b: Book, f: nat)
    requires Wired(h, b) && Backed(h, b) && h.index < b.backed * ENTRIES
    ensures var w := Pte(h, WINDOW, h.index / ENTRIES).frame;
      w in h.mem && |h.mem[w]| == ENTRIES &&
      var r := Hw(Put(h.mem, w, h.index % ENTRIES, Address(f)), h.directory, h.index + 1);
      && Wired(r, b) && Backed(r, b)
      && View(r) == View(h).(pool := View(h).pool + [f])
  {
    var k := h.index / ENTRIES;
    var w := Pte(h, WINDOW, k).frame;
    assert HasRole(h, b, w, Page(WINDOW, k));
    var r := Hw(Put(h.mem, w, h.index % ENTRIES, Address(f)), h.directory, h.index + 1);
    SameTables(h, r, b);
    forall i | 0 <= i < h.index
      ensures Slot(r, i) == Slot(h, i)
    {
      if Pte(h, WINDOW, i / ENTRIES).frame == w {
        assert HasRole(h, b, w, Page(WINDOW, i / ENTRIES));
        SlotsDiffer(i, h.index);
      }
    }
    assert View(r).pool == View(h).pool + [f];
  }
}

/** mmu_init: the stack of free frames is built from the boot loader's memory map,
    while the pages the stack itself lives in are taken from it by page faults. */
module FramePool {
  import opened Options
  import opened AddressSpace
  import opened PhysicalMemory
  import opened Paging

  const PAGE: nat := 4096
  const FRAMES: nat := 0x10_0000
  const WORD64: nat := 0x1_0000_0000_0000_0000

  /** An entry of the boot loader's map. */
  datatype Region = Region(addr: nat, len: nat, kind: nat)

  /** Frame f lies wholly in available memory, at or above kend and below 4 GiB. */
  predicate Usable(r: Region, kend: nat, f: nat) {
    r.kind == 1 && r.addr <= f * PAGE && f * PAGE + PAGE <= r.addr + r.len && kend <= f * PAGE && f < FRAMES
  }

  /** The region's bounds as the code rounds them, in 64-bit sums. */
  function Start(r: Region): nat { (r.addr + 4095) % WORD64 / PAGE * PAGE }
  function End(r: Region): nat { (r.addr + r.len) % WORD64 / PAGE * PAGE }

  /** The loop stores frame f for region r. */
  predicate Visited(r: Region, kend: nat, f: nat) {
    r.kind == 1 && Start(r) <= f * PAGE < End(r) && kend <= f * PAGE && f < FRAMES
  }

  /** The region's sums do not wrap, or it is behind 4 GiB and its end wraps to 0. */
  predicate Countable(r: Region) {
    r.kind != 1 || (r.addr + 4095 < WORD64 && r.addr + r.len < WORD64) ||
    (r.addr + r.len == WORD64 && r.addr > (FRAMES - 1) * PAGE)
  }

  /** The rounding finds exactly the region's usable frames under just that condition. */
  lemma VisitedIff(r: Region, kend: nat)
    requires r.addr < WORD64 && r.addr + r.len <= WORD64 && kend <= (FRAMES - 1) * PAGE
    ensures (forall f: nat :: Visited(r, kend, f) <==> Usable(r, kend, f)) <==> Countable(r)
  {
    var last := FRAMES - 1;
    if !Countable(r) {
      assert Visited(r, kend, last) != Usable(r, kend, last);
    }
  }

  /** A region in the last page below 2^64 wraps: every frame below 4 GiB is stored. */
  lemma RoundingWraps(kend: nat)
    requires kend <= (FRAMES - 1) * PAGE
    ensures var r := Region(WORD64 - 100, 50, 1); Visited(r, kend, FRAMES - 1) && !Usable(r, kend, FRAMES - 1)
  {
    assert Start(Region(WORD64 - 100, 50, 1)) == 0;
  }

  ghost predicate Available(rs: seq<Region>, n: nat, kend: nat, f: nat)
    requires n <= |rs|
  {
    exists i :: 0 <= i < n && Usable(rs[i], kend, f)
  }

  predicate Disjoint(rs: seq<Region>) {
    forall i, j :: 0 <= i < j < |rs| ==>
      rs[i].addr + rs[i].len <= rs[j].addr || rs[j].addr + rs[j].len <= rs[i].addr
  }

  // -------------------------------------------------------------------- invariant

  /** Frames of the pool are on the stack or back the stack's own pages. */
  ghost predicate Stocked(s: Space, owned: set<nat>) {
    forall p :: FrameAt(s, p).Some? && FrameAt(s, p).value in owned ==>
      p.Free? || (p.Page? && p.d == WINDOW && p.t > 0)
  }

  ghost predicate Filling(h: Hw, b: Book) {
    && Ok(h, b)
    && 0 < b.backed <= ENTRIES && h.index <= b.backed * ENTRIES
    && |b.owned| == h.index + b.backed - 1
    && Formed(View(h)) && HasTable(View(h), WINDOW)
    && (forall k :: b.backed <= k < ENTRIES ==> !View(h).pt[WINDOW][k].present)
    && Stocked(View(h), b.owned)
    && (forall f :: f in b.owned ==> 0 < f < FRAMES)
  }

  /** No entry and no slot refers to frame f yet. */
  ghost predicate Fresh(h: Hw, b: Book, f: nat) {
    f in h.mem && f != h.directory && f !in b.owned && forall p :: FrameAt(View(h), p) != Some(f)
  }

  lemma {:induction false} SetBound(s: set<nat>, n: nat)
    requires forall f :: f in s ==> f < n
    ensures |s| <= n
    decreases n
  {
    if n > 0 {
      SetBound(s - {n - 1}, n - 1);
      if n - 1 in s {
        assert |s| == |s - {n - 1}| + 1;
      } else {
        assert s == s - {n - 1};
      }
    } else {
      assert s == {};
    }
  }

  /** The 4 MiB window never runs out: there are not enough frames below 4 GiB. */
  lemma WindowSuffices(h: Hw, b: Book)
    requires Filling(h, b) && h.index == b.backed * ENTRIES
    ensures b.backed < ENTRIES
  {
    SetBound(b.owned, FRAMES);
  }

  // ------------------------------------------------------------------ pushing one

  lemma PushMeaning(h: Hw, b: Book, f: nat)
    requires Filling(h, b) && h.index < b.backed * ENTRIES && Fresh(h, b, f) && 0 < f < FRAMES
    ensures Walk(h, SlotVa(h.index)).Some?
    ensures var w := Walk(h, SlotVa(h.index)).value;
      && w in h.mem && SlotVa(h.index).word < |h.mem[w]|
      && var r := Hw(Put(h.mem, w, SlotVa(h.index).word, Address(f)), h.directory, h.index + 1);
      && var c := Book(b.backed, b.owned + {f}, b.role[f := Free(h.index)]);
      && Filling(r, c) && View(r) == View(h).(pool := View(h).pool + [f])
      && forall g: nat :: Fresh(h, b, g) && g != f ==> Fresh(r, c, g)
  {
    var c := Book(b.backed, b.owned + {f}, b.role[f := Free(h.index)]);
    hide Conserved, Wired, Backed, Pool, Tables, Stocked;
    SlotWalk(h, b, h.index);
    SlotStore(h, b, f);
    var r := Hw(Put(h.mem, Walk(h, SlotVa(h.index)).value, SlotVa(h.index).word, Address(f)), h.directory, h.index + 1);
    ClaimRoles(r, h, b, f);
    PushConserved(View(h), View(r), b.owned, b.role, f);
  }

  /** One more frame of the pool takes none from any page. */
  lemma OursGrows(s: Space, owned: set<nat>, kernel: set<nat>, f: nat)
    requires Ours(s, owned, kernel)
    ensures Ours(s.(pool := s.pool + [f]), owned + {f}, kernel)
  {
  }

  lemma ClaimRoles(r: Hw, h: Hw, b: Book, f: nat)
    requires Wired(r, b) && Backed(r, b) && Fresh(h, b, f)
    requires r.directory == h.directory && f in r.mem && View(r).pde == View(h).pde && View(r).pt == View(h).pt
    ensures Wired(r, Book(b.backed, b.owned + {f}, b.role[f := Free(h.index)]))
    ensures Backed(r, Book(b.backed, b.owned + {f}, b.role[f := Free(h.index)]))
  {
    hide Pool;
    ViewFormed(r, b);
    forall d | 0 <= d < RECURSIVE_SLOT && Pde(r, d).present
      ensures Pde(r, d).frame != f
    {
      assert FrameAt(View(h), Table(d)) == Some(Pde(r, d).frame);
    }
    forall k | 0 <= k < b.backed
      ensures Pte(r, WINDOW, k).frame != f
    {
      assert FrameAt(View(h), Page(WINDOW, k)) == Some(Pte(r, WINDOW, k).frame);
    }
  }

  lemma PushConserved(s: Space, n: Space, owned: set<nat>, role: map<nat, Place>, f: nat)
    requires Conserved(s, owned, role) && f != 0 && f !in owned && forall p :: FrameAt(s, p) != Some(f)
    requires n == s.(pool := s.pool + [f])
    ensures Conserved(n, owned + {f}, role[f := Free(|s.pool|)])
    ensures Stocked(s, owned) ==> Stocked(n, owned + {f})
    ensures forall g, p :: FrameAt(n, p) == Some(g) && g != f ==> FrameAt(s, p) == Some(g)
  {
    forall p
      ensures FrameAt(n, p) == if p == Free(|s.pool|) then Some(f) else FrameAt(s, p)
    {
    }
  }

  // ------------------------------------------------------- backing the next page

  /** Page k of the window is marked and faulted in. */
  function BackWindow(s: Space, k: nat): Space
    requires HasTable(s, WINDOW) && k < ENTRIES
  {
    FillPage(SetEntry(s, WINDOW, k, MarkEntry(s.pt[WINDOW][k], Prot(false, false))), WINDOW, k)
  }

  lemma MarkThenTouch(s: Space, k: nat)
    requires Formed(s) && HasTable(s, WINDOW) && k < ENTRIES && !s.pt[WINDOW][k].present
    ensures var m := Mark(s, WINDOW, k, Prot(false, false));
      && Formed(m) && HasTable(m, WINDOW) && !m.pt[WINDOW][k].present && m.pool == s.pool
      && Touch(m, WINDOW, k) == Some(BackWindow(s, k))
  {
  }

  lemma BackPlaces(s: Space, k: nat, owned: set<nat>, p: Place)
    requires Formed(s) && HasTable(s, WINDOW) && 0 < k < ENTRIES && !s.pt[WINDOW][k].present && s.pool != []
    ensures FrameAt(BackWindow(s, k), p) ==
      if p == Page(WINDOW, k) then Some(Top(s.pool)) else if p == Free(|s.pool| - 1) then None else FrameAt(s, p)
  {
  }

  lemma BackMeaning(h: Hw, b: Book, r: Hw, c: Book)
    requires Filling(h, b) && h.index == b.backed * ENTRIES && b.backed < ENTRIES
    requires Ok(r, c) && c.owned == b.owned && c.backed == b.backed
    requires r.directory == h.directory && r.mem.Keys == h.mem.Keys
    requires View(r) == BackWindow(View(h), b.backed)
    ensures Filling(r, c.(backed := b.backed + 1)) && r.index == h.index - 1
    ensures forall g: nat :: Fresh(h, b, g) ==> Fresh(r, c.(backed := b.backed + 1), g)
  {
    hide Pool, Tables, Conserved, Wired, Backed, BackWindow;
    var s, n, k := View(h), View(r), b.backed;
    PoolSize(h);
    PoolSize(r);
    TopIsFree(h, b);
    forall p
      ensures FrameAt(n, p) == if p == Page(WINDOW, k) then Some(Top(s.pool)) else if p == Free(|s.pool| - 1) then None else FrameAt(s, p)
    {
      BackPlaces(s, k, b.owned, p);
    }
    assert FrameAt(s, Free(|s.pool| - 1)) == Some(Top(s.pool));
    BackShape(s, k);
    Extend(r, c);
  }

  lemma BackShape(s: Space, k: nat)
    requires Formed(s) && HasTable(s, WINDOW) && 0 < k < ENTRIES && s.pool != []
    ensures var n := BackWindow(s, k);
      && Formed(n) && HasTable(n, WINDOW) && n.pt[WINDOW][k].present && n.pt[WINDOW][k].frame == Top(s.pool)
      && n.pool == s.pool[..|s.pool| - 1]
      && forall j :: 0 <= j < ENTRIES && j != k ==> n.pt[WINDOW][j] == s.pt[WINDOW][j]
  {
  }

  /** A window page backed by a frame of the pool makes room for more slots. */
  lemma Extend(h: Hw, b: Book)
    requires Ok(h, b) && b.backed < ENTRIES
    requires Formed(View(h)) && HasTable(View(h), WINDOW) && View(h).pt[WINDOW][b.backed].present
    requires View(h).pt[WINDOW][b.backed].frame in b.owned
    ensures Ok(h, b.(backed := b.backed + 1))
  {
    var f := View(h).pt[WINDOW][b.backed].frame;
    assert FrameAt(View(h), Page(WINDOW, b.backed)) == Some(f);
    assert Pte(h, WINDOW, b.backed).frame == f;
  }

  // -------------------------------------------------------------------- mmu_init

  lemma IndexBounds(h: Hw, b: Book)
    requires Filling(h, b)
    ensures Ok(h, b) && 0 < b.backed <= ENTRIES && h.index <= b.backed * ENTRIES
  {
  }

  /** The page for the next slot is marked on demand and read, so that the fault takes
      its frame from the stack before the store. */
  method Back(m: Machine)
    requires m.Valid() && Filling(m.Hardware(), m.book) && m.index == m.book.backed * ENTRIES
    modifies m
    ensures m.Valid() && Filling(m.Hardware(), m.book)
    ensures m.index == old(m.index) - 1 && m.book.backed == old(m.book.backed) + 1
    ensures m.book.owned == old(m.book.owned) && m.mem.Keys == old(m.mem.Keys)
    ensures forall g: nat :: old(Fresh(m.Hardware(), m.book, g)) ==> Fresh(m.Hardware(), m.book, g)
  {
    hide Ok, Ours, View, Fresh, Walk, Put, BackWindow, AddressSpace.Mark, Touch, Stocked;
    var k := m.index / ENTRIES;
    ghost var h, b := m.Hardware(), m.book;
    WindowSuffices(h, b);
    MarkThenTouch(View(h), k);
    PoolSize(h);
    m.Mark(WINDOW * ENTRIES + k, Prot(false, false));
    PoolSize(m.Hardware());
    var ok, w := m.Load(SlotVa(m.index));
    BackMeaning(h, b, m.Hardware(), m.book);
    m.book := m.book.(backed := b.backed + 1);
  }

  /** One frame: the page for its slot is backed if need be, then it is stored. */
  method Add(m: Machine, f: nat, ptIndex: nat) returns (next: nat)
    requires m.Valid() && Filling(m.Hardware(), m.book) && Fresh(m.Hardware(), m.book, f) && 0 < f < FRAMES
    requires ptIndex == m.book.backed - 1 && ptIndex * ENTRIES <= m.index
    modifies m
    ensures m.Valid() && Filling(m.Hardware(), m.book)
    ensures next == m.book.backed - 1 && next * ENTRIES <= m.index
    ensures m.book.owned == old(m.book.owned) + {f} && m.mem.Keys == old(m.mem.Keys)
    ensures forall g: nat :: old(Fresh(m.Hardware(), m.book, g)) && g != f ==> Fresh(m.Hardware(), m.book, g)
  {
    hide Ok, Ours, View, Filling, Fresh, Walk, Put;
    next := ptIndex;
    IndexBounds(m.Hardware(), m.book);
    if next != m.index / ENTRIES {
      next := m.index / ENTRIES;
      Back(m);
    }
    PushMeaning(m.Hardware(), m.book, f);
    ghost var b := m.book;
    OursGrows(m.Contents(), b.owned, m.kernel, f);
    m.book := Book(b.backed, b.owned + {f}, b.role[f := Free(m.index)]);
    m.Poke(SlotVa(m.index), Address(f));
    m.index := m.index + 1;
    IndexBounds(m.Hardware(), m.book);
  }

  /** The frames of region r below position end have been added, on top of what was there. */
  ghost predicate Taken(owned: set<nat>, was: set<nat>, r: Region, kend: nat, end: nat) {
    forall f: nat :: f in owned <==> f in was || (Usable(r, kend, f) && f * PAGE < end)
  }

  /** The inner loop. */
  method AddRegion(m: Machine, r: Region, kend: nat, ptIndex: nat) returns (next: nat)
    requires m.Valid() && Filling(m.Hardware(), m.book) && Countable(r) && 0 < kend
    requires ptIndex == m.book.backed - 1 && ptIndex * ENTRIES <= m.index
    requires forall f: nat :: Usable(r, kend, f) ==> Fresh(m.Hardware(), m.book, f)
    modifies m
    ensures m.Valid() && Filling(m.Hardware(), m.book)
    ensures next == m.book.backed - 1 && next * ENTRIES <= m.index
    ensures forall f: nat :: f in m.book.owned <==> f in old(m.book.owned) || Usable(r, kend, f)
    ensures forall g: nat :: old(Fresh(m.Hardware(), m.book, g)) && !Usable(r, kend, g) ==> Fresh(m.Hardware(), m.book, g)
  {
    hide Ok, Ours, View, Filling, Fresh;
    next := ptIndex;
    if r.kind != 1 {
      return;
    }
    var start := (r.addr + 4095) % WORD64 / PAGE * PAGE;
    var end := (r.addr + r.len) % WORD64 / PAGE * PAGE;
    Bounds(r, kend);
    ghost var was, h, b := m.book.owned, m.Hardware(), m.book;
    while start < end
      invariant start % PAGE == 0 && start >= Start(r)
      invariant m.Valid() && Filling(m.Hardware(), m.book)
      invariant next == m.book.backed - 1 && next * ENTRIES <= m.index
      invariant Taken(m.book.owned, was, r, kend, start)
      invariant forall g: nat :: Fresh(h, b, g) && !(Usable(r, kend, g) && g * PAGE < start) ==> Fresh(m.Hardware(), m.book, g)
      decreases end - start
    {
      var f := start / PAGE;
      hide Start, End;
      if kend <= start && start < 0x1_0000_0000 {
        next := Add(m, f, next);
      }
      start := start + PAGE;
    }
  }

  /** What the rounding means for a countable region. */
  lemma Bounds(r: Region, kend: nat)
    requires Countable(r) && r.kind == 1
    ensures Start(r) % PAGE == 0 && End(r) % PAGE == 0
    ensures forall f: nat :: Usable(r, kend, f) <==> Start(r) <= f * PAGE < End(r) && kend <= f * PAGE && f < FRAMES
  {
  }

  /** What the bootstrap code left: a directory with the kernel's table only, whose
      entries map frames below kend, and cleared pages for the pool. */
  ghost predicate Booted(ram: Memory, k: Kernel, kend: nat) {
    && (forall f :: f in ram ==> |ram[f]| == ENTRIES)
    && k.directory in ram && k.table in ram && k.poolTable in ram && k.firstPage in ram
    && k.directory != k.table && k.directory != k.poolTable && k.directory != k.firstPage
    && k.table != k.poolTable && k.table != k.firstPage && k.poolTable != k.firstPage
    && k.directory * PAGE < kend && k.table * PAGE < kend && k.poolTable * PAGE < kend && k.firstPage * PAGE < kend
    && k.slot < WINDOW && ram[k.directory][k.slot].present && ram[k.directory][k.slot].frame == k.table
    && (forall d :: 0 <= d < ENTRIES && d != k.slot ==> ram[k.directory][d] == ZERO)
    && (forall t :: 0 <= t < ENTRIES ==> ram[k.poolTable][t] == ZERO)
    && (forall t :: 0 <= t < ENTRIES && ram[k.table][t].present ==> ram[k.table][t].frame * PAGE < kend)
  }

  /** The frames of the kernel's own paging structures. */
  datatype Kernel = Kernel(directory: nat, slot: nat, table: nat, poolTable: nat, firstPage: nat)

  /** A kernel entry for a frame: its address plus 3. */
  function Mapped(f: nat): Word {
    Word(f, false, Prot(false, true), true)
  }

  /** The stores before the loop. */
  function Installed(ram: Memory, k: Kernel): Memory
    requires k.directory in ram && |ram[k.directory]| == ENTRIES
    requires k.poolTable in ram && |ram[k.poolTable]| == ENTRIES
  {
    Put(Put(Put(ram, k.directory, RECURSIVE_SLOT, Mapped(k.directory)),
            k.directory, WINDOW, Mapped(k.poolTable)),
        k.poolTable, 0, Mapped(k.firstPage))
  }

  function FirstBook(k: Kernel): Book {
    Book(1, {}, map[k.directory := Directory, k.table := Table(k.slot), k.poolTable := Table(WINDOW), k.firstPage := Page(WINDOW, 0)])
  }

  lemma BootFilling(ram: Memory, k: Kernel, kend: nat)
    requires Booted(ram, k, kend)
    ensures Filling(Hw(Installed(ram, k), k.directory, 0), FirstBook(k))
  {
    var h := Hw(Installed(ram, k), k.directory, 0);
    assert Wired(h, FirstBook(k));
    ViewFormed(h, FirstBook(k));
    assert Pde(h, WINDOW) == Mapped(k.poolTable) && Pte(h, WINDOW, 0) == Mapped(k.firstPage);
    assert View(h).pt[WINDOW] == h.mem[k.poolTable];
  }

  /** The pages of the kernel's table that the bootstrap code mapped. */
  function KernelPages(ram: Memory, k: Kernel, n: nat): (r: set<nat>)
    ensures forall q: nat :: q in r <==> q / ENTRIES == k.slot && q % ENTRIES < n && At(ram, k.table, q % ENTRIES).present
    requires n <= ENTRIES
  {
    if n == 0 then {}
    else KernelPages(ram, k, n - 1) + if At(ram, k.table, n - 1).present then {k.slot * ENTRIES + n - 1} else {}
  }

  /** Below the window only these pages are mapped. */
  lemma BootOurs(ram: Memory, k: Kernel, kend: nat)
    requires Booted(ram, k, kend)
    ensures Ours(View(Hw(Installed(ram, k), k.directory, 0)), {}, KernelPages(ram, k, ENTRIES))
  {
    var h := Hw(Installed(ram, k), k.directory, 0);
    forall d: nat, t: nat | d < WINDOW && t < ENTRIES && HasTable(View(h), d) && View(h).pt[d][t].present
      ensures d * ENTRIES + t in KernelPages(ram, k, ENTRIES)
    {
      assert d == k.slot && TableOf(h, d) == ram[k.table];
      assert (d * ENTRIES + t) / ENTRIES == d && (d * ENTRIES + t) % ENTRIES == t;
    }
  }

  lemma BootFresh(ram: Memory, k: Kernel, kend: nat, f: nat)
    requires Booted(ram, k, kend) && f in ram && kend <= f * PAGE
    ensures Fresh(Hw(Installed(ram, k), k.directory, 0), FirstBook(k), f)
  {
    var h := Hw(Installed(ram, k), k.directory, 0);
    forall p
      ensures FrameAt(View(h), p) != Some(f)
    {
      match p
      case Page(d, t) =>
        if d < RECURSIVE_SLOT && HasTable(View(h), d) {
          assert d == k.slot || d == WINDOW;
        }
      case _ =>
    }
  }

  /** The frames of the memory map below region n are the pool's. */
  ghost predicate Holds(owned: set<nat>, rs: seq<Region>, n: nat, kend: nat)
    requires n <= |rs|
  {
    forall f: nat :: f in owned <==> Available(rs, n, kend, f)
  }

  lemma AvailableAbove(rs: seq<Region>, kend: nat, f: nat)
    requires Available(rs, |rs|, kend, f)
    ensures kend <= f * PAGE
  {
  }

  method Init(ram: Memory, k: Kernel, rs: seq<Region>, kend: nat) returns (m: Machine)
    requires Booted(ram, k, kend) && Disjoint(rs)
    requires forall i :: 0 <= i < |rs| ==> Countable(rs[i])
    requires forall f: nat :: Available(rs, |rs|, kend, f) ==> f in ram
    ensures fresh(m) && m.Valid() && Filling(m.Hardware(), m.book)
    ensures Holds(m.book.owned, rs, |rs|, kend) && m.kernel == KernelPages(ram, k, ENTRIES)
    ensures Sound(m.Contents(), m.book.owned) && Ours(m.Contents(), m.book.owned, m.kernel)
  {
    hide Ok, Ours, View, Filling, Fresh, Usable;
    m := new Machine(Installed(ram, k), k.directory, FirstBook(k), KernelPages(ram, k, ENTRIES));
    BootOurs(ram, k, kend);
    ghost var h, b := m.Hardware(), m.book;
    BootFilling(ram, k, kend);
    forall f: nat | Available(rs, |rs|, kend, f)
      ensures Fresh(h, b, f)
    {
      AvailableAbove(rs, kend, f);
      BootFresh(ram, k, kend, f);
    }
    var ptIndex: nat := 0;
    IndexBounds(h, b);
    for i := 0 to |rs|
      invariant m.Valid() && Filling(m.Hardware(), m.book)
      invariant ptIndex == m.book.backed - 1 && ptIndex * ENTRIES <= m.index
      invariant Holds(m.book.owned, rs, i, kend)
      invariant forall f: nat :: Available(rs, |rs|, kend, f) && !Available(rs, i, kend, f) ==> Fresh(m.Hardware(), m.book, f)
    {
      OneRegion(rs, i, kend);
      ptIndex := AddRegion(m, rs[i], kend, ptIndex);
    }
    FillingSound(m.Hardware(), m.book);
  }

  lemma FillingSound(h: Hw, b: Book)
    requires Filling(h, b)
    ensures Sound(View(h), b.owned)
  {
    assert Conserved(View(h), b.owned, b.role);
  }

  lemma OneRegion(rs: seq<Region>, i: nat, kend: nat)
    requires i < |rs| && Disjoint(rs)
    ensures forall f: nat :: Available(rs, i + 1, kend, f) <==> Available(rs, i, kend, f) || Usable(rs[i], kend, f)
    ensures forall f: nat :: Usable(rs[i], kend, f) ==> Available(rs, |rs|, kend, f) && !Available(rs, i, kend, f)
  {
  }

  /** Entry n of the stack followed by the frames behind the stack's own pages. */
  function Stack(h: Hw, b: Book): (r: seq<nat>)
    requires b.backed > 0
  {
    View(h).pool + WindowFrames(h, b.backed - 1)
  }

  function StackPlace(h: Hw, n: nat): Place {
    if n < h.index then Free(n) else Page(WINDOW, n - h.index + 1)
  }

  lemma StackAt(h: Hw, b: Book, n: nat)
    requires Filling(h, b) && n < |Stack(h, b)|
    ensures FrameAt(View(h), StackPlace(h, n)) == Some(Stack(h, b)[n])
  {
    PoolSize(h);
    if n >= h.index {
      var k := n - h.index + 1;
      assert Stack(h, b)[n] == Pte(h, WINDOW, k).frame;
      assert View(h).pt[WINDOW][k] == Pte(h, WINDOW, k);
    }
  }

  /** The result: the stack and the frames behind the stack's own pages together are
      exactly the frames of the pool, each once; the stack stays inside its window. */
  lemma PoolExact(h: Hw, b: Book)
    requires Filling(h, b)
    ensures forall f: nat :: f in Stack(h, b) <==> f in b.owned
    ensures forall i, j :: 0 <= i < j < |Stack(h, b)| ==> Stack(h, b)[i] != Stack(h, b)[j]
    ensures h.index < FRAMES && 0 !in b.owned
  {
    var all, v := Stack(h, b), View(h);
    assert Conserved(v, b.owned, b.role);
    StackOwned(h, b);
    PoolSize(h);
    assert |all| == h.index + b.backed - 1;
    forall n: nat | n < |all|
      ensures all[n] in b.owned && b.role[all[n]] == StackPlace(h, n)
    {
      StackAt(h, b, n);
    }
    forall f: nat | f in b.owned
      ensures f in all
    {
      OnStack(h, b, f);
    }
    SetBound(b.owned + {0}, FRAMES);
  }

  lemma StackOwned(h: Hw, b: Book)
    requires Filling(h, b)
    ensures forall n: nat :: n < |Stack(h, b)| ==> Stack(h, b)[n] in b.owned
  {
    PoolSize(h);
    forall n: nat | n < |Stack(h, b)|
      ensures Stack(h, b)[n] in b.owned
    {
      if n >= h.index {
        assert Stack(h, b)[n] == Pte(h, WINDOW, n - h.index + 1).frame;
      }
    }
  }

  lemma OnStack(h: Hw, b: Book, f: nat)
    requires Filling(h, b) && f in b.owned
    ensures f in Stack(h, b)
  {
    var all, v, p := Stack(h, b), View(h), b.role[f];
    PoolSize(h);
    assert FrameAt(v, p) == Some(f);
    match p
    case Free(i) => assert all[i] == f;
    case Page(d, k) =>
      assert k < b.backed && v.pt[WINDOW][k] == Pte(h, WINDOW, k);
      assert all[h.index + k - 1] == f;
  }

  /** From start-up on, over any run of mapping, faults and releasing, every usable frame
      of the memory map is at exactly one place, and every page but the kernel's own that
      is mapped has one of them. */
  lemma ConservedFromInit(h: Hw, b: Book, kernel: set<nat>, rs: seq<Region>, kend: nat, es: seq<Event>, f: nat)
    requires Filling(h, b) && Ours(View(h), b.owned, kernel) && Holds(b.owned, rs, |rs|, kend)
    requires Sound(View(h), b.owned) && Legal(View(h), b.owned, kernel, es)
    requires Available(rs, |rs|, kend, f)
    ensures var r := Run(View(h), b.owned, kernel, es);
      r.Some? ==>
        && Ours(r.value, b.owned, kernel)
        && (exists p :: FrameAt(r.value, p) == Some(f))
        && (forall p, q :: FrameAt(r.value, p) == Some(f) && FrameAt(r.value, q) == Some(f) ==> p == q)
  {
    assert Formed(View(h));
    hide Filling, Conserved, FrameAt, Available, Legal, Ours;
    if Run(View(h), b.owned, kernel, es).Some? {
      RunSound(View(h), b.owned, kernel, es);
      SoundMeaning(Run(View(h), b.owned, kernel, es).value, b.owned);
    }
  }
}

/** One address space and the stack of free frames: what marking, touching and
    unmapping a page do to directory entries, table entries and the stack. */
module AddressSpace {
  import opened Options

  const ENTRIES: nat := 1024
  const RECURSIVE_SLOT: nat := 1023

  datatype Prot = Prot(user: bool, rw: bool)

  /** A directory or table entry by its fields. */
  datatype Word = Word(frame: nat, ondemand: bool, prot: Prot, present: bool)

  const ZERO := Word(0, false, Prot(false, false), false)

  /** What mmu_mark stores without MMU_PAGE_NOALLOC: a page that has a frame keeps
      it and changes protection, any other page becomes on-demand. */
  function MarkEntry(e: Word, prot: Prot): Word {
    if e.present then e.(prot := prot) else Word(0, true, prot, false)
  }

  /** What the page fault handler stores. */
  function FillEntry(e: Word, frame: nat): Word {
    Word(frame, false, e.prot, true)
  }

  function FrameNumber(w: bv32): nat {
    (w >> 12) as nat
  }

  /** The fields of a 32-bit entry. */
  function Fields(e: bv32): Word {
    Word(FrameNumber(e), e & 0x100 != 0, Prot(e & 4 != 0, e & 2 != 0), e & 1 != 0)
  }

  /** The entry words as mmu_mark and INT_0E compute them. */
  function MarkedWord(e: bv32, flag: bv32): bv32 {
    if e & 1 == 0 then 0x100 | (flag & 6) else (e & !6) | (flag & 6)
  }

  function FilledWord(e: bv32, page: bv32): bv32 {
    page | (e & 6) | 1
  }

  lemma MarkedParts(e: bv32, flag: bv32)
    ensures MarkedWord(e, flag) >> 12 == if e & 1 == 0 then 0 else e >> 12
    ensures MarkedWord(e, flag) & 0x100 == if e & 1 == 0 then 0x100 else e & 0x100
    ensures MarkedWord(e, flag) & 4 == flag & 4 && MarkedWord(e, flag) & 2 == flag & 2
    ensures MarkedWord(e, flag) & 1 == e & 1
  {
  }

  lemma FilledParts(e: bv32, page: bv32)
    requires page & 0xFFF == 0
    ensures FilledWord(e, page) >> 12 == page >> 12
    ensures FilledWord(e, page) & 0x100 == 0 && FilledWord(e, page) & 1 == 1
    ensures FilledWord(e, page) & 4 == e & 4 && FilledWord(e, page) & 2 == e & 2
  {
  }

  lemma SameFrameNumber(v: bv32, w: bv32)
    requires v >> 12 == w >> 12
    ensures FrameNumber(v) == FrameNumber(w)
  {
  }

  lemma NoFrameNumber(w: bv32)
    requires w >> 12 == 0
    ensures FrameNumber(w) == 0
  {
    var z: bv32 := 0;
    assert z as nat == 0;
  }

  /** On the fields these do what MarkEntry and FillEntry say. */
  lemma MarkedByFields(e: bv32, flag: bv32)
    ensures Fields(MarkedWord(e, flag)) == MarkEntry(Fields(e), Prot(flag & 4 != 0, flag & 2 != 0))
  {
    hide MarkedWord, FrameNumber;
    MarkedParts(e, flag);
    if e & 1 == 0 {
      NoFrameNumber(MarkedWord(e, flag));
    } else {
      SameFrameNumber(MarkedWord(e, flag), e);
    }
  }

  lemma FilledByFields(e: bv32, page: bv32)
    requires page & 0xFFF == 0
    ensures Fields(FilledWord(e, page)) == FillEntry(Fields(e), FrameNumber(page))
  {
    hide FilledWord, FrameNumber;
    FilledParts(e, page);
    SameFrameNumber(FilledWord(e, page), page);
  }

  /** Directory entries, the tables below them ([] where there is none), and the
      stack of free frames with its top last. */
  datatype Space = Space(pde: seq<Word>, pt: seq<seq<Word>>, pool: seq<nat>)

  ghost predicate Formed(s: Space) {
    && |s.pde| == ENTRIES && |s.pt| == RECURSIVE_SLOT
    && (forall d :: 0 <= d < RECURSIVE_SLOT ==> |s.pt[d]| == if s.pde[d].present then ENTRIES else 0)
  }

  predicate HasTable(s: Space, d: nat) {
    d < |s.pt| && |s.pt[d]| == ENTRIES
  }

  // ------------------------------------------------------------------- operations

  /** mmu_alloc: the top of the stack, or 0. */
  function Top(pool: seq<nat>): nat {
    if pool == [] then 0 else pool[|pool| - 1]
  }

  function Rest(pool: seq<nat>): seq<nat> {
    if pool == [] then [] else pool[..|pool| - 1]
  }

  function Zeros(n: nat): (s: seq<Word>)
    ensures |s| == n && forall i :: 0 <= i < n ==> s[i] == ZERO
  {
    if n == 0 then [] else Zeros(n - 1) + [ZERO]
  }

  function Blank(): (s: seq<Word>)
    ensures |s| == ENTRIES && forall i :: 0 <= i < ENTRIES ==> s[i] == ZERO
  {
    Zeros(ENTRIES)
  }

  /** The CPU needs the table of directory entry d: a fault fills an on-demand entry
      with a zeroed frame; None stands for the halt on unallocated memory. */
  function TouchTable(s: Space, d: nat): Option<Space>
    requires d < |s.pde| && d < |s.pt|
  {
    if s.pde[d].present then Some(s)
    else if s.pde[d].ondemand then
      Some(Space(s.pde[d := FillEntry(s.pde[d], Top(s.pool))], s.pt[d := Blank()], Rest(s.pool)))
    else None
  }

  function SetEntry(s: Space, d: nat, t: nat, e: Word): Space
    requires HasTable(s, d) && t < ENTRIES
  {
    s.(pt := s.pt[d := s.pt[d][t := e]])
  }

  function FillPage(s: Space, d: nat, t: nat): Space
    requires HasTable(s, d) && t < ENTRIES
  {
    SetEntry(s.(pool := Rest(s.pool)), d, t, FillEntry(s.pt[d][t], Top(s.pool)))
  }

  /** An access to page t of table d. */
  function Touch(s: Space, d: nat, t: nat): Option<Space>
    requires Formed(s) && d < RECURSIVE_SLOT && t < ENTRIES
  {
    match TouchTable(s, d)
    case None => None
    case Some(s1) =>
      if s1.pt[d][t].present then Some(s1)
      else if s1.pt[d][t].ondemand then Some(FillPage(s1, d, t))
      else None
  }

  function OpenDirectory(s: Space, d: nat): Space
    requires d < |s.pde|
  {
    if s.pde[d].present || s.pde[d].ondemand then s
    else s.(pde := s.pde[d := Word(0, true, Prot(true, true), false)])
  }

  /** mmu_mark without MMU_PAGE_NOALLOC. */
  function Mark(s: Space, d: nat, t: nat, prot: Prot): Space
    requires Formed(s) && d < RECURSIVE_SLOT && t < ENTRIES
  {
    var s1 := TouchTable(OpenDirectory(s, d), d).value;
    SetEntry(s1, d, t, MarkEntry(s1.pt[d][t], prot))
  }

  /** One page of mmu_munmap, releasing its frame. */
  function Unmap(s: Space, d: nat, t: nat): Option<Space>
    requires Formed(s) && d < RECURSIVE_SLOT && t < ENTRIES
  {
    match TouchTable(s, d)
    case None => None
    case Some(s1) =>
      var e := s1.pt[d][t];
      var s2 := SetEntry(s1, d, t, ZERO);
      Some(if e.present && e.frame != 0 then s2.(pool := s2.pool + [e.frame]) else s2)
  }

  // ----------------------------------------------------------------- conservation

  /** The places a frame can be referred to from. */
  datatype Place = Directory | Table(d: nat) | Page(d: nat, t: nat) | Free(i: nat)

  function FrameAt(s: Space, p: Place): Option<nat> {
    match p
    case Directory => None
    case Table(d) => if d < RECURSIVE_SLOT && d < |s.pde| && s.pde[d].present then Some(s.pde[d].frame) else None
    case Page(d, t) =>
      if HasTable(s, d) && t < ENTRIES && s.pt[d][t].present then Some(s.pt[d][t].frame) else None
    case Free(i) => if i < |s.pool| then Some(s.pool[i]) else None
  }

  /** role tells for each frame handed to the pool the one place it is at. */
  ghost predicate Conserved(s: Space, owned: set<nat>, role: map<nat, Place>) {
    && Formed(s) && 0 !in owned
    && (forall f :: f in owned ==> f in role && FrameAt(s, role[f]) == Some(f))
    && (forall p :: FrameAt(s, p).Some? && FrameAt(s, p).value in owned ==> role[FrameAt(s, p).value] == p)
    && (forall i :: 0 <= i < |s.pool| ==> s.pool[i] in owned)
  }

  /** The frames of the pool are conserved: each is at exactly one place. */
  ghost predicate Sound(s: Space, owned: set<nat>) {
    exists role :: Conserved(s, owned, role)
  }

  /** What that means: no frame of the pool is lost, and none is referred to twice,
      whether free, a table or a page. */
  lemma SoundMeaning(s: Space, owned: set<nat>)
    requires Sound(s, owned)
    ensures forall f :: f in owned ==> exists p :: FrameAt(s, p) == Some(f)
    ensures forall p, q :: FrameAt(s, p).Some? && FrameAt(s, p).value in owned && FrameAt(s, q) == FrameAt(s, p) ==> p == q
    ensures forall i, j :: 0 <= i < j < |s.pool| ==> s.pool[i] != s.pool[j]
  {
    var role :| Conserved(s, owned, role);
    forall i, j | 0 <= i < j < |s.pool|
      ensures s.pool[i] != s.pool[j]
    {
      assert FrameAt(s, Free(i)) == Some(s.pool[i]) && FrameAt(s, Free(j)) == Some(s.pool[j]);
    }
  }

  lemma AbsentConserved(s: Space, owned: set<nat>, role: map<nat, Place>, d: nat, w: Word)
    requires Conserved(s, owned, role) && d < RECURSIVE_SLOT && !s.pde[d].present && !w.present
    ensures Conserved(s.(pde := s.pde[d := w]), owned, role)
  {
    var n := s.(pde := s.pde[d := w]);
    forall p
      ensures FrameAt(n, p) == FrameAt(s, p)
    {
    }
    assert Formed(n);
  }

  lemma TableConserved(s: Space, owned: set<nat>, role: map<nat, Place>, d: nat)
    requires Conserved(s, owned, role) && d < RECURSIVE_SLOT
    requires !s.pde[d].present && s.pde[d].ondemand && s.pool != []
    ensures Conserved(TouchTable(s, d).value, owned, role[Top(s.pool) := Table(d)])
  {
    var n, f := TouchTable(s, d).value, Top(s.pool);
    assert FrameAt(s, Free(|s.pool| - 1)) == Some(f);
    forall p
      ensures FrameAt(n, p) == if p == Table(d) then Some(f) else if p == Free(|s.pool| - 1) then None else FrameAt(s, p)
    {
    }
  }

  lemma PageConserved(s: Space, owned: set<nat>, role: map<nat, Place>, d: nat, t: nat)
    requires Conserved(s, owned, role) && HasTable(s, d) && t < ENTRIES
    requires !s.pt[d][t].present && s.pool != []
    ensures Conserved(FillPage(s, d, t), owned, role[Top(s.pool) := Page(d, t)])
  {
    var n, f := FillPage(s, d, t), Top(s.pool);
    assert FrameAt(s, Free(|s.pool| - 1)) == Some(f);
    forall p
      ensures FrameAt(n, p) == if p == Page(d, t) then Some(f) else if p == Free(|s.pool| - 1) then None else FrameAt(s, p)
    {
    }
  }

  lemma EntryConserved(s: Space, owned: set<nat>, role: map<nat, Place>, d: nat, t: nat, e: Word)
    requires Conserved(s, owned, role) && HasTable(s, d) && t < ENTRIES
    requires e.present == s.pt[d][t].present && (e.present ==> e.frame == s.pt[d][t].frame)
    ensures Conserved(SetEntry(s, d, t, e), owned, role)
  {
    assert forall p :: FrameAt(SetEntry(s, d, t, e), p) == FrameAt(s, p);
  }

  lemma ReleaseConserved(s: Space, owned: set<nat>, role: map<nat, Place>, d: nat, t: nat)
    requires Conserved(s, owned, role) && HasTable(s, d) && t < ENTRIES
    requires s.pt[d][t].present && s.pt[d][t].frame in owned
    ensures Conserved(Unmap(s, d, t).value, owned, role[s.pt[d][t].frame := Free(|s.pool|)])
  {
    var n, f := Unmap(s, d, t).value, s.pt[d][t].frame;
    assert FrameAt(s, Page(d, t)) == Some(f);
    forall p
      ensures FrameAt(n, p) == if p == Page(d, t) then None else if p == Free(|s.pool|) then Some(f) else FrameAt(s, p)
    {
    }
  }

  // ------------------------------------------------------------------------- runs

  /** One page mapped on demand, accessed, or unmapped with release. */
  datatype Event = Map(d: nat, t: nat, prot: Prot) | Access(d: nat, t: nat) | Release(d: nat, t: nat)

  /** The pool window and the recursive slot are not for mapping. */
  const WINDOW: nat := 1022

  /** The event may need a frame: for the table, or for the accessed page. */
  predicate Faults(s: Space, e: Event)
    requires Formed(s) && e.d < RECURSIVE_SLOT && e.t < ENTRIES
  {
    !s.pde[e.d].present || (e.Access? && !s.pt[e.d][e.t].present)
  }

  /** Pages mapped on demand have frames of the pool; only the pages in kernel, which
      the bootstrap code mapped, have others. */
  ghost predicate Ours(s: Space, owned: set<nat>, kernel: set<nat>) {
    forall d: nat, t: nat ::
      d < WINDOW && t < ENTRIES && HasTable(s, d) && s.pt[d][t].present && d * ENTRIES + t !in kernel ==>
        s.pt[d][t].frame in owned
  }

  /** What the code does not check: that the pool can serve the faults of the event,
      and that the kernel's own pages are not released. */
  predicate Enabled(s: Space, kernel: set<nat>, e: Event)
    requires Formed(s)
  {
    && e.d < WINDOW && e.t < ENTRIES
    && (Faults(s, e) ==> s.pool != [])
    && (e.Release? ==> e.d * ENTRIES + e.t !in kernel)
  }

  /** None stands for the halt on unallocated memory. */
  function Step(s: Space, e: Event): Option<Space>
    requires Formed(s) && e.d < RECURSIVE_SLOT && e.t < ENTRIES
  {
    match e
    case Map(d, t, prot) => Some(Mark(s, d, t, prot))
    case Access(d, t) => Touch(s, d, t)
    case Release(d, t) => Unmap(s, d, t)
  }

  lemma TouchTableSound(s: Space, owned: set<nat>, d: nat)
    requires Sound(s, owned) && Formed(s) && d < RECURSIVE_SLOT
    requires !s.pde[d].present ==> s.pool != []
    ensures TouchTable(s, d).Some? ==> Sound(TouchTable(s, d).value, owned)
  {
    var role :| Conserved(s, owned, role);
    if !s.pde[d].present && s.pde[d].ondemand {
      TableConserved(s, owned, role, d);
    }
  }

  lemma OpenDirectorySound(s: Space, owned: set<nat>, d: nat)
    requires Sound(s, owned) && Formed(s) && d < RECURSIVE_SLOT
    ensures Sound(OpenDirectory(s, d), owned)
  {
    var role :| Conserved(s, owned, role);
    if !s.pde[d].present && !s.pde[d].ondemand {
      AbsentConserved(s, owned, role, d, Word(0, true, Prot(true, true), false));
    }
  }

  /** A new table has no pages, and marking or clearing an entry gives no page a frame. */
  lemma TouchTableOurs(s: Space, owned: set<nat>, kernel: set<nat>, d: nat)
    requires Formed(s) && Ours(s, owned, kernel) && d < RECURSIVE_SLOT
    ensures Ours(OpenDirectory(s, d), owned, kernel)
    ensures TouchTable(s, d).Some? ==> Formed(TouchTable(s, d).value) && Ours(TouchTable(s, d).value, owned, kernel)
  {
  }

  lemma EntryOurs(s: Space, owned: set<nat>, kernel: set<nat>, d: nat, t: nat, e: Word)
    requires Ours(s, owned, kernel) && HasTable(s, d) && t < ENTRIES
    requires e.present && d < WINDOW && d * ENTRIES + t !in kernel ==> e.frame in owned
    ensures Ours(SetEntry(s, d, t, e), owned, kernel)
  {
  }

  lemma MarkOurs(s: Space, owned: set<nat>, kernel: set<nat>, d: nat, t: nat, prot: Prot)
    requires Formed(s) && Ours(s, owned, kernel) && d < RECURSIVE_SLOT && t < ENTRIES
    ensures Formed(Mark(s, d, t, prot)) && Ours(Mark(s, d, t, prot), owned, kernel)
  {
    TouchTableOurs(s, owned, kernel, d);
    TouchTableOurs(OpenDirectory(s, d), owned, kernel, d);
    var s1 := TouchTable(OpenDirectory(s, d), d).value;
    EntryOurs(s1, owned, kernel, d, t, MarkEntry(s1.pt[d][t], prot));
  }

  lemma TouchOurs(s: Space, owned: set<nat>, kernel: set<nat>, d: nat, t: nat)
    requires Formed(s) && Ours(s, owned, kernel) && d < RECURSIVE_SLOT && t < ENTRIES && Touch(s, d, t).Some?
    requires s.pool != [] ==> Top(s.pool) in owned
    requires HasTable(s, d) && !s.pt[d][t].present ==> s.pool != []
    ensures Formed(Touch(s, d, t).value) && Ours(Touch(s, d, t).value, owned, kernel)
  {
    TouchTableOurs(s, owned, kernel, d);
    var s1 := TouchTable(s, d).value;
    if !s1.pt[d][t].present {
      EntryOurs(s1.(pool := Rest(s1.pool)), owned, kernel, d, t, FillEntry(s1.pt[d][t], Top(s1.pool)));
    }
  }

  lemma UnmapOurs(s: Space, owned: set<nat>, kernel: set<nat>, d: nat, t: nat)
    requires Formed(s) && Ours(s, owned, kernel) && d < WINDOW && t < ENTRIES && Unmap(s, d, t).Some?
    ensures Formed(Unmap(s, d, t).value) && Ours(Unmap(s, d, t).value, owned, kernel)
  {
    TouchTableOurs(s, owned, kernel, d);
    EntryOurs(TouchTable(s, d).value, owned, kernel, d, t, ZERO);
  }

  lemma TopOwned(s: Space, owned: set<nat>)
    requires Sound(s, owned)
    ensures s.pool != [] ==> Top(s.pool) in owned
  {
    var role :| Conserved(s, owned, role);
  }

  /** Mapping, accessing and releasing pages conserve the frames of the pool, and keep
      all pages but the kernel's on frames of the pool. */
  lemma StepSound(s: Space, owned: set<nat>, kernel: set<nat>, e: Event)
    requires Formed(s) && Sound(s, owned) && Ours(s, owned, kernel)
    requires Enabled(s, kernel, e) && Step(s, e).Some?
    ensures Formed(Step(s, e).value) && Sound(Step(s, e).value, owned) && Ours(Step(s, e).value, owned, kernel)
  {
    hide Sound, Ours;
    TopOwned(s, owned);
    match e
    case Map(d, t, prot) =>
      MarkSound(s, owned, d, t, prot);
      MarkOurs(s, owned, kernel, d, t, prot);
    case Access(d, t) =>
      TouchSound(s, owned, d, t);
      TouchOurs(s, owned, kernel, d, t);
    case Release(d, t) =>
      TouchTableSound(s, owned, d);
      TouchTableOurs(s, owned, kernel, d);
      ReleaseSound(TouchTable(s, d).value, owned, kernel, d, t);
      UnmapOurs(s, owned, kernel, d, t);
  }

  lemma MarkSound(s: Space, owned: set<nat>, d: nat, t: nat, prot: Prot)
    requires Formed(s) && Sound(s, owned) && d < WINDOW && t < ENTRIES && (!s.pde[d].present ==> s.pool != [])
    ensures Sound(Mark(s, d, t, prot), owned)
  {
    OpenDirectorySound(s, owned, d);
    TouchTableSound(OpenDirectory(s, d), owned, d);
    var s1 := TouchTable(OpenDirectory(s, d), d).value;
    var role :| Conserved(s1, owned, role);
    EntryConserved(s1, owned, role, d, t, MarkEntry(s1.pt[d][t], prot));
  }

  lemma TouchSound(s: Space, owned: set<nat>, d: nat, t: nat)
    requires Formed(s) && Sound(s, owned) && d < WINDOW && t < ENTRIES && Touch(s, d, t).Some?
    requires !HasTable(s, d) || !s.pt[d][t].present ==> s.pool != []
    ensures Sound(Touch(s, d, t).value, owned)
  {
    TouchTableSound(s, owned, d);
    var s1 := TouchTable(s, d).value;
    var role :| Conserved(s1, owned, role);
    if !s1.pt[d][t].present {
      PageConserved(s1, owned, role, d, t);
    }
  }

  /** That a released page's frame comes from the pool is not assumed, but follows. */
  lemma ReleaseSound(s: Space, owned: set<nat>, kernel: set<nat>, d: nat, t: nat)
    requires Formed(s) && Sound(s, owned) && Ours(s, owned, kernel) && HasTable(s, d)
    requires d < WINDOW && t < ENTRIES && d * ENTRIES + t !in kernel
    ensures s.pt[d][t].present ==> s.pt[d][t].frame in owned
    ensures Sound(Unmap(s, d, t).value, owned)
  {
    var role :| Conserved(s, owned, role);
    UnmapSound(s, owned, role, d, t);
  }

  lemma UnmapSound(s: Space, owned: set<nat>, role: map<nat, Place>, d: nat, t: nat)
    requires Conserved(s, owned, role) && HasTable(s, d) && t < ENTRIES
    requires s.pt[d][t].present ==> s.pt[d][t].frame in owned
    ensures Sound(Unmap(s, d, t).value, owned)
  {
    if s.pt[d][t].present {
      ReleaseConserved(s, owned, role, d, t);
    } else {
      EntryConserved(s, owned, role, d, t, ZERO);
    }
  }

  /** Releasing a page conserves the pool exactly when the page's frame came from it
      (or is frame 0, which is never released). */
  lemma ReleaseSoundIff(s: Space, owned: set<nat>, d: nat, t: nat)
    requires Formed(s) && Sound(s, owned) && HasTable(s, d) && t < ENTRIES
    ensures Sound(Unmap(s, d, t).value, owned) <==>
      (s.pt[d][t].present && s.pt[d][t].frame != 0 ==> s.pt[d][t].frame in owned)
  {
    var role :| Conserved(s, owned, role);
    var e, n := s.pt[d][t], Unmap(s, d, t).value;
    if e.present && e.frame in owned {
      ReleaseConserved(s, owned, role, d, t);
    } else if e.present && e.frame != 0 {
      assert n.pool[|s.pool|] !in owned;
    } else {
      assert forall p :: p != Page(d, t) ==> FrameAt(n, p) == FrameAt(s, p);
      assert FrameAt(n, Page(d, t)) == None;
      assert Conserved(n, owned, role);
    }
  }

  /** An on-demand page gets a frame of the pool exactly when the pool is not
      empty; the handler does not check, and otherwise maps frame 0. */
  lemma FillsFromPoolIff(s: Space, owned: set<nat>, d: nat, t: nat)
    requires Formed(s) && Sound(s, owned) && HasTable(s, d) && t < ENTRIES
    ensures FillPage(s, d, t).pt[d][t].frame in owned <==> s.pool != []
    ensures s.pool == [] ==> FillPage(s, d, t).pt[d][t].frame == 0
  {
    var role :| Conserved(s, owned, role);
  }

  ghost predicate Legal(s: Space, owned: set<nat>, kernel: set<nat>, es: seq<Event>)
    requires Formed(s) && Sound(s, owned) && Ours(s, owned, kernel)
    decreases |es|
  {
    es == [] ||
    (&& Enabled(s, kernel, es[0])
     && (Step(s, es[0]).Some? ==>
          (StepSound(s, owned, kernel, es[0]); Legal(Step(s, es[0]).value, owned, kernel, es[1..]))))
  }

  ghost function Run(s: Space, owned: set<nat>, kernel: set<nat>, es: seq<Event>): Option<Space>
    requires Formed(s) && Sound(s, owned) && Ours(s, owned, kernel) && Legal(s, owned, kernel, es)
    decreases |es|
  {
    if es == [] then Some(s)
    else match Step(s, es[0])
      case None => None
      case Some(n) =>
        StepSound(s, owned, kernel, es[0]);
        Run(n, owned, kernel, es[1..])
  }

  /** Over any run frames are conserved and never shared, and every page but the
      kernel's own that is mapped at its end has a frame of the pool. */
  lemma {:induction false} RunSound(s: Space, owned: set<nat>, kernel: set<nat>, es: seq<Event>)
    requires Formed(s) && Sound(s, owned) && Ours(s, owned, kernel)
    requires Legal(s, owned, kernel, es) && Run(s, owned, kernel, es).Some?
    ensures Sound(Run(s, owned, kernel, es).value, owned) && Ours(Run(s, owned, kernel, es).value, owned, kernel)
    decreases |es|
  {
    if es == [] {
    } else {
      StepSound(s, owned, kernel, es[0]);
      RunSound(Step(s, es[0]).value, owned, kernel, es[1..]);
    }
  }

  // ------------------------------------------------------------ where it goes wrong

  function Vacant(n: nat): (s: seq<seq<Word>>)
    ensures |s| == n && forall i :: 0 <= i < n ==> s[i] == []
  {
    if n == 0 then [] else Vacant(n - 1) + [[]]
  }

  /** An address space with nothing mapped and two free frames. */
  function TwoFrames(): (s: Space)
    ensures Formed(s) && Sound(s, {5, 6}) && Ours(s, {5, 6}, {})
  {
    assert Conserved(Space(Blank(), Vacant(RECURSIVE_SLOT), [5, 6]), {5, 6}, map[5 := Free(0), 6 := Free(1)]);
    Space(Blank(), Vacant(RECURSIVE_SLOT), [5, 6])
  }

  lemma LastFrames(prot: Prot)
    ensures var s := TwoFrames(); var m := Mark(s, 0, 0, prot);
      && Enabled(s, {}, Map(0, 0, prot)) && Formed(m)
      && Enabled(m, {}, Access(0, 0)) && Touch(m, 0, 0).Some?
      && var t := Touch(m, 0, 0).value;
      && Formed(t) && HasTable(t, 0) && t.pool == [] && forall u :: 0 < u < ENTRIES ==> t.pt[0][u] == ZERO
  {
    var m := Mark(TwoFrames(), 0, 0, prot);
    assert m.pde[0].present && m.pool == [5];
    assert m.pt[0] == Blank()[0 := Word(0, true, prot, false)];
  }

  lemma MapsFrameZero(s: Space, t: nat, prot: Prot)
    requires Formed(s) && HasTable(s, 0) && s.pool == [] && t < ENTRIES && !s.pt[0][t].present
    ensures var m := Mark(s, 0, t, prot);
      && Formed(m) && Touch(m, 0, t).Some?
      && var r := Touch(m, 0, t).value;
      && Formed(r) && HasTable(r, 0) && r.pool == [] && FrameAt(r, Page(0, t)) == Some(0)
      && forall u :: 0 <= u < ENTRIES && u != t ==> r.pt[0][u] == s.pt[0][u]
  {
  }

  /** A run that empties the pool, after which two pages share frame 0. */
  lemma PoolRunsOut(prot: Prot)
    ensures var m := Mark(TwoFrames(), 0, 0, prot);
      && Enabled(TwoFrames(), {}, Map(0, 0, prot)) && Formed(m)
      && Enabled(m, {}, Access(0, 0)) && Touch(m, 0, 0).Some?
      && var t := Touch(m, 0, 0).value;
      && Formed(t) && t.pool == []
      && var n := Mark(t, 0, 1, prot);
      && Formed(n) && Touch(n, 0, 1).Some? && Formed(Touch(n, 0, 1).value)
      && var u := Mark(Touch(n, 0, 1).value, 0, 2, prot);
      && Formed(u) && Touch(u, 0, 2).Some?
      && var r := Touch(u, 0, 2).value;
      FrameAt(r, Page(0, 1)) == FrameAt(r, Page(0, 2)) == Some(0)
  {
    hide Mark, Touch, Enabled, Formed;
    LastFrames(prot);
    var t := Touch(Mark(TwoFrames(), 0, 0, prot), 0, 0).value;
    MapsFrameZero(t, 1, prot);
    MapsFrameZero(Touch(Mark(t, 0, 1, prot), 0, 1).value, 2, prot);
  }

  /** The kernel's image mapped at 0xF0100000 from physical 1 MiB on, as at start-up. */
  function KernelImage(): (s: Space)
    ensures Formed(s) && HasTable(s, 960) && s.pt[960][256] == Word(256, false, Prot(false, true), true)
    ensures Sound(s, {}) && Ours(s, {}, {960 * ENTRIES + 256})
  {
    var image := Word(256, false, Prot(false, true), true);
    var s := Space(Blank()[960 := Word(2, false, Prot(false, true), true)],
                   Vacant(RECURSIVE_SLOT)[960 := Blank()[256 := image]], []);
    assert Conserved(s, {}, map[]);
    s
  }

  /** Releasing its first page puts a frame of the kernel image on the stack. */
  lemma KernelReleased()
    ensures var r := Unmap(KernelImage(), 960, 256);
      r.Some? && r.value.pool == [256] && !Sound(r.value, {})
  {
    ReleaseSoundIff(KernelImage(), {}, 960, 256);
  }

  lemma FillAndRelease(s: Space, d: nat, t: nat, e: Word)
    requires Formed(s) && HasTable(s, d) && t < ENTRIES && s.pt[d][t] == ZERO && s.pool != [] && Top(s.pool) != 0
    requires !e.present && e.ondemand
    ensures var m := SetEntry(s, d, t, e);
      Formed(m) && Touch(m, d, t).Some? && Formed(Touch(m, d, t).value) && Unmap(Touch(m, d, t).value, d, t) == Some(s)
  {
    var m := SetEntry(s, d, t, e);
    var u := Unmap(FillPage(m, d, t), d, t).value;
    assert u.pool == Rest(s.pool) + [Top(s.pool)] == s.pool;
    assert u.pt[d] == s.pt[d];
    assert u.pt == s.pt;
  }

  /** Mapping a free page, touching it and unmapping it gives back everything but a
      frame for the table if there was none. */
  lemma MapTouchUnmap(s: Space, d: nat, t: nat, prot: Prot, owned: set<nat>)
    requires Formed(s) && Sound(s, owned) && d < WINDOW && t < ENTRIES
    requires HasTable(s, d) ==> s.pt[d][t] == ZERO
    requires |s.pool| >= if HasTable(s, d) then 1 else 2
    ensures Formed(Mark(s, d, t, prot)) && Touch(Mark(s, d, t, prot), d, t).Some?
    ensures Formed(Touch(Mark(s, d, t, prot), d, t).value)
    ensures Unmap(Touch(Mark(s, d, t, prot), d, t).value, d, t) ==
      if HasTable(s, d) then Some(s) else TouchTable(OpenDirectory(s, d), d)
  {
    hide Touch, Unmap;
    var role :| Conserved(s, owned, role);
    var s1 := TouchTable(OpenDirectory(s, d), d).value;
    assert Formed(s1) && s1.pt[d][t] == ZERO;
    assert s1.pool[|s1.pool| - 1] == s.pool[|s1.pool| - 1];
    FillAndRelease(s1, d, t, MarkEntry(ZERO, prot));
  }

  // ----------------------------------------------------------------- page ranges

  /** The entry of page q, ZERO if there is no table for it. */
  function Entry(s: Space, q: nat): Word {
    var d, t := q / ENTRIES, q % ENTRIES;
    if HasTable(s, d) then s.pt[d][t] else ZERO
  }

  /** mmu_mmap without MMU_PAGE_NOALLOC over n pages. */
  function MarkRange(s: Space, page: nat, n: nat, prot: Prot): Space
    requires Formed(s) && page + n <= WINDOW * ENTRIES
    decreases n
  {
    if n == 0 then s
    else
      MarkMeaning(s, page, prot);
      MarkRange(Mark(s, page / ENTRIES, page % ENTRIES, prot), page + 1, n - 1, prot)
  }

  lemma MarkMeaning(s: Space, page: nat, prot: Prot)
    requires Formed(s) && page < WINDOW * ENTRIES
    ensures var r := Mark(s, page / ENTRIES, page % ENTRIES, prot);
      && Formed(r) && HasTable(r, page / ENTRIES)
      && Entry(r, page) == MarkEntry(Entry(s, page), prot)
      && (forall q: nat :: q != page ==> Entry(r, q) == Entry(s, q))
  {
    var d, t := page / ENTRIES, page % ENTRIES;
    var r := Mark(s, d, t, prot);
    forall q: nat | q != page
      ensures Entry(r, q) == Entry(s, q)
    {
      if q / ENTRIES == d {
        assert q % ENTRIES != t;
      }
    }
  }

  /** Afterwards every page of the range is present or on demand, pages that had a
      frame have kept it, and no other page has changed. */
  lemma {:induction false} MarkRangeMeaning(s: Space, page: nat, n: nat, prot: Prot)
    requires Formed(s) && page + n <= WINDOW * ENTRIES
    ensures var r := MarkRange(s, page, n, prot);
      && Formed(r)
      && (forall q: nat :: page <= q < page + n ==> Entry(r, q) == MarkEntry(Entry(s, q), prot))
      && (forall q: nat :: q < page || page + n <= q ==> Entry(r, q) == Entry(s, q))
    decreases n
  {
    if n == 0 {
    } else {
      MarkMeaning(s, page, prot);
      MarkRangeMeaning(Mark(s, page / ENTRIES, page % ENTRIES, prot), page + 1, n - 1, prot);
    }
  }

  /** mmu_munmap with release over n pages. */
  function UnmapRange(s: Space, page: nat, n: nat): Option<Space>
    requires Formed(s) && page + n <= WINDOW * ENTRIES
    decreases n
  {
    if n == 0 then Some(s)
    else match Unmap(s, page / ENTRIES, page % ENTRIES)
      case None => None
      case Some(r) => UnmapRange(r, page + 1, n - 1)
  }
}

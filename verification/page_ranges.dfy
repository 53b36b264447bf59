/** What unmapping a range of pages means, and the round trip of mapping a range,
    touching its pages and unmapping it. */
module PageRanges {
  import opened Options
  import opened AddressSpace

  lemma UnmapMeaning(s: Space, page: nat)
    requires Formed(s) && page < WINDOW * ENTRIES
    ensures var r := Unmap(s, page / ENTRIES, page % ENTRIES); r.Some? ==>
      && Formed(r.value) && HasTable(r.value, page / ENTRIES)
      && Entry(r.value, page) == ZERO
      && (forall q: nat :: q != page ==> Entry(r.value, q) == Entry(s, q))
      && (forall d: nat :: HasTable(s, d) ==> HasTable(r.value, d))
  {
    var d, t := page / ENTRIES, page % ENTRIES;
    if Unmap(s, d, t).Some? {
      var r := Unmap(s, d, t).value;
      forall q: nat | q != page
        ensures Entry(r, q) == Entry(s, q)
      {
        if q / ENTRIES == d {
          assert q % ENTRIES != t;
        }
      }
    }
  }

  /** Afterwards no page of the range is mapped, and no other page has changed. */
  lemma {:induction false} UnmapRangeMeaning(s: Space, page: nat, n: nat)
    requires Formed(s) && page + n <= WINDOW * ENTRIES
    ensures var r := UnmapRange(s, page, n); r.Some? ==>
      && Formed(r.value)
      && (forall q: nat :: page <= q < page + n ==> Entry(r.value, q) == ZERO && HasTable(r.value, q / ENTRIES))
      && (forall q: nat :: q < page || page + n <= q ==> Entry(r.value, q) == Entry(s, q))
      && (forall d: nat :: HasTable(s, d) ==> HasTable(r.value, d))
    decreases n
  {
    if n == 0 {
    } else {
      hide Entry, HasTable, Unmap;
      UnmapMeaning(s, page);
      if Unmap(s, page / ENTRIES, page % ENTRIES).Some? {
        UnmapRangeMeaning(Unmap(s, page / ENTRIES, page % ENTRIES).value, page + 1, n - 1);
      }
    }
  }

  /** There is a table for the page, or one is made on demand. */
  predicate Tabled(s: Space, q: nat)
    requires q / ENTRIES < |s.pde|
  {
    s.pde[q / ENTRIES].present || s.pde[q / ENTRIES].ondemand
  }

  lemma UnmapIff(s: Space, page: nat, n: nat)
    requires Formed(s) && page + n <= WINDOW * ENTRIES && n > 0
    ensures |s.pde| == ENTRIES
    ensures var r := Unmap(s, page / ENTRIES, page % ENTRIES);
      && (r.None? ==> UnmapRange(s, page, n) == None && !Tabled(s, page))
      && (r.Some? ==>
           && Formed(r.value) && |r.value.pde| == ENTRIES && Tabled(s, page)
           && UnmapRange(s, page, n) == UnmapRange(r.value, page + 1, n - 1)
           && (forall q: nat :: q / ENTRIES < ENTRIES ==> (Tabled(r.value, q) <==> Tabled(s, q))))
  {
  }

  lemma {:induction false} UnmapRangeTabled(s: Space, page: nat, n: nat)
    requires Formed(s) && page + n <= WINDOW * ENTRIES
    ensures |s.pde| == ENTRIES
    ensures UnmapRange(s, page, n).Some? <==> forall q: nat :: page <= q < page + n ==> Tabled(s, q)
    decreases n
  {
    if n > 0 {
      hide Tabled, Unmap, UnmapRange, Formed;
      UnmapIff(s, page, n);
      if Unmap(s, page / ENTRIES, page % ENTRIES).Some? {
        UnmapRangeTabled(Unmap(s, page / ENTRIES, page % ENTRIES).value, page + 1, n - 1);
      }
    }
  }

  /** Unmapping a range goes through exactly if there is a table for each page, or one
      is made on demand, whatever the pages' own entries say. */
  lemma UnmapRangeIff(s: Space, page: nat, n: nat)
    requires Formed(s) && page + n <= WINDOW * ENTRIES
    ensures UnmapRange(s, page, n).Some? <==>
      forall q: nat :: page <= q < page + n ==> s.pde[q / ENTRIES].present || s.pde[q / ENTRIES].ondemand
  {
    UnmapRangeTabled(s, page, n);
    hide UnmapRange, Formed;
    forall q: nat | page <= q < page + n
      ensures Tabled(s, q) <==> s.pde[q / ENTRIES].present || s.pde[q / ENTRIES].ondemand
    {
    }
  }

  /** Afterwards the pages that had a frame have it still, with the new protection, the
      others are on demand with it, and no other page has changed. */
  lemma MarkRangeFields(s: Space, page: nat, n: nat, prot: Prot)
    requires Formed(s) && page + n <= WINDOW * ENTRIES
    ensures var r := MarkRange(s, page, n, prot);
      && (forall q: nat :: page <= q < page + n && Entry(s, q).present ==> Entry(r, q) == Entry(s, q).(prot := prot))
      && (forall q: nat :: page <= q < page + n && !Entry(s, q).present ==>
            !Entry(r, q).present && Entry(r, q).ondemand && Entry(r, q).prot == prot)
      && (forall q: nat :: q < page || page + n <= q ==> Entry(r, q) == Entry(s, q))
  {
    MarkRangeMeaning(s, page, n, prot);
    hide MarkRange, Entry;
  }

  // --------------------------------------------------------------- touching a range

  /** An access goes through exactly if the page has a frame or may have one on demand,
      and its table likewise; a page with a frame is left as it is. */
  lemma TouchIff(s: Space, d: nat, t: nat)
    requires Formed(s) && d < RECURSIVE_SLOT && t < ENTRIES
    ensures Touch(s, d, t).Some? <==>
      (s.pde[d].present || s.pde[d].ondemand) && (Entry(s, d * ENTRIES + t).present || Entry(s, d * ENTRIES + t).ondemand)
    ensures Entry(s, d * ENTRIES + t).present ==> Touch(s, d, t) == Some(s)
  {
    assert (d * ENTRIES + t) / ENTRIES == d && (d * ENTRIES + t) % ENTRIES == t;
  }

  /** An access to each page of the range. */
  function TouchRange(s: Space, page: nat, n: nat): Option<Space>
    requires Formed(s) && page + n <= WINDOW * ENTRIES
    decreases n
  {
    if n == 0 then Some(s)
    else match Touch(s, page / ENTRIES, page % ENTRIES)
      case None => None
      case Some(r) => TouchRange(r, page + 1, n - 1)
  }

  predicate OnDemand(s: Space, q: nat) {
    HasTable(s, q / ENTRIES) && !Entry(s, q).present && Entry(s, q).ondemand
  }

  lemma TouchMeaning(s: Space, page: nat)
    requires Formed(s) && page < WINDOW * ENTRIES && OnDemand(s, page) && s.pool != []
    ensures var r := Touch(s, page / ENTRIES, page % ENTRIES);
      && r.Some? && Formed(r.value) && r.value.pde == s.pde && r.value.pool == s.pool[..|s.pool| - 1]
      && Entry(r.value, page) == FillEntry(Entry(s, page), s.pool[|s.pool| - 1])
      && (forall q: nat :: q != page ==> Entry(r.value, q) == Entry(s, q))
  {
    var d, t := page / ENTRIES, page % ENTRIES;
    var r := Touch(s, d, t).value;
    forall q: nat | q != page
      ensures Entry(r, q) == Entry(s, q)
    {
      if q / ENTRIES == d {
        assert q % ENTRIES != t;
      }
    }
  }

  /** Tables are there exactly where the directory says. */
  lemma SameTables(s: Space, r: Space)
    requires Formed(s) && Formed(r) && r.pde == s.pde
    ensures forall d: nat :: HasTable(r, d) <==> HasTable(s, d)
  {
  }

  /** Touching on-demand pages gives them the top frames of the stack, one by one. */
  lemma {:induction false} TouchRangeMeaning(s: Space, page: nat, n: nat)
    requires Formed(s) && page + n <= WINDOW * ENTRIES && n <= |s.pool|
    requires forall q: nat :: page <= q < page + n ==> OnDemand(s, q)
    ensures var r := TouchRange(s, page, n);
      && r.Some? && Formed(r.value) && r.value.pde == s.pde && r.value.pool == s.pool[..|s.pool| - n]
      && (forall q: nat :: page <= q < page + n ==>
            Entry(r.value, q) == FillEntry(Entry(s, q), s.pool[|s.pool| - 1 - (q - page)]))
      && (forall q: nat :: q < page || page + n <= q ==> Entry(r.value, q) == Entry(s, q))
    decreases n
  {
    if n == 0 {
    } else {
      TouchMeaning(s, page);
      var m := Touch(s, page / ENTRIES, page % ENTRIES).value;
      SameTables(s, m);
      hide Entry, Touch, Formed, HasTable;
      forall q: nat | page + 1 <= q < page + n
        ensures OnDemand(m, q)
      {
        assert OnDemand(s, q) && Entry(m, q) == Entry(s, q);
      }
      TouchRangeMeaning(m, page + 1, n - 1);
    }
  }

  // -------------------------------------------------------------- releasing a range

  /** The frames of n pages, in the order of the pages. */
  function Frames(s: Space, page: nat, n: nat): (r: seq<nat>)
    ensures |r| == n
    decreases n
  {
    if n == 0 then [] else [Entry(s, page).frame] + Frames(s, page + 1, n - 1)
  }

  lemma {:induction false} FramesAt(s: Space, page: nat, n: nat, i: nat)
    requires i < n
    ensures Frames(s, page, n)[i] == Entry(s, page + i).frame
    decreases n
  {
    if i == 0 {
    } else {
      FramesAt(s, page + 1, n - 1, i - 1);
    }
  }

  predicate Backed(s: Space, q: nat) {
    HasTable(s, q / ENTRIES) && Entry(s, q).present && Entry(s, q).frame != 0
  }

  /** What unmapping the page gives back. */
  function Given(s: Space, page: nat): seq<nat> {
    if Entry(s, page).present && Entry(s, page).frame != 0 then [Entry(s, page).frame] else []
  }

  /** The frames that unmapping n pages gives back, in the order of the pages: those of
      the pages that have one. */
  function Held(s: Space, page: nat, n: nat): seq<nat>
    decreases n
  {
    if n == 0 then []
    else Given(s, page) + Held(s, page + 1, n - 1)
  }

  lemma {:induction false} HeldSame(s: Space, m: Space, page: nat, n: nat)
    requires forall q: nat :: page <= q < page + n ==> Entry(m, q) == Entry(s, q)
    ensures Held(m, page, n) == Held(s, page, n)
    decreases n
  {
    if n == 0 {
    } else {
      HeldSame(s, m, page + 1, n - 1);
    }
  }

  lemma {:induction false} HeldAll(s: Space, page: nat, n: nat)
    ensures (forall q: nat :: page <= q < page + n ==> Backed(s, q)) ==> Held(s, page, n) == Frames(s, page, n)
    ensures (forall q: nat :: page <= q < page + n ==> !Entry(s, q).present) ==> Held(s, page, n) == []
    decreases n
  {
    if n == 0 {
    } else {
      HeldAll(s, page + 1, n - 1);
      assert Backed(s, page) ==> Entry(s, page).present && Entry(s, page).frame != 0;
    }
  }

  /** The pages have their tables. */
  ghost predicate HaveTables(s: Space, page: nat, n: nat) {
    forall q: nat :: page <= q < page + n ==> HasTable(s, q / ENTRIES)
  }

  lemma ReleaseOne(s: Space, page: nat, n: nat) returns (m: Space)
    requires Formed(s) && page + n <= WINDOW * ENTRIES && n > 0 && HaveTables(s, page, n)
    ensures Formed(m) && page + 1 + (n - 1) <= WINDOW * ENTRIES && HaveTables(m, page + 1, n - 1)
    ensures m.pde == s.pde && m.pool == s.pool + Given(s, page)
    ensures UnmapRange(s, page, n) == UnmapRange(m, page + 1, n - 1)
    ensures Held(s, page, n) == Given(s, page) + Held(m, page + 1, n - 1)
  {
    assert HasTable(s, page / ENTRIES);
    UnmapMeaning(s, page);
    m := Unmap(s, page / ENTRIES, page % ENTRIES).value;
    HeldSame(s, m, page + 1, n - 1);
  }

  lemma Regroup(a: seq<nat>, x: seq<nat>, b: seq<nat>)
    ensures (a + x) + b == a + (x + b)
  {
  }

  /** Unmapping pages, touched or not, pushes the frames they have in the order of the
      pages, and no more. */
  lemma {:induction false} ReleaseRange(s: Space, page: nat, n: nat)
    requires Formed(s) && page + n <= WINDOW * ENTRIES && HaveTables(s, page, n)
    ensures var r := UnmapRange(s, page, n);
      r.Some? && Formed(r.value) && r.value.pde == s.pde && r.value.pool == s.pool + Held(s, page, n)
    decreases n
  {
    if n == 0 {
    } else {
      hide *;
      var m := ReleaseOne(s, page, n);
      ReleaseRange(m, page + 1, n - 1);
      Regroup(s.pool, Given(s, page), Held(m, page + 1, n - 1));
    }
  }

  // ----------------------------------------------------------------- making tables

  /** The address space with the tables for n pages made. */
  function WithTables(s: Space, page: nat, n: nat): Space
    requires Formed(s) && page + n <= WINDOW * ENTRIES
    decreases n
  {
    if n == 0 then s
    else WithTables(TouchTable(OpenDirectory(s, page / ENTRIES), page / ENTRIES).value, page + 1, n - 1)
  }

  /** How many tables had to be made. */
  function Missing(s: Space, page: nat, n: nat): nat
    requires Formed(s) && page + n <= WINDOW * ENTRIES
    decreases n
  {
    if n == 0 then 0
    else
      var made := if s.pde[page / ENTRIES].present then 0 else 1;
      made + Missing(TouchTable(OpenDirectory(s, page / ENTRIES), page / ENTRIES).value, page + 1, n - 1)
  }

  /** The directory after marking a page: a table that was missing is on the top frame of
      the stack, open to user mode and to writes, and has no other page; no other
      directory entry has changed. */
  lemma MarkTable(s: Space, page: nat, prot: Prot)
    requires Formed(s) && page < WINDOW * ENTRIES
    ensures var r, d := Mark(s, page / ENTRIES, page % ENTRIES, prot), page / ENTRIES;
      && |r.pde| == ENTRIES
      && (s.pde[d].present ==> r.pde == s.pde && r.pool == s.pool)
      && (!s.pde[d].present ==>
            && r.pde[d].present && r.pde[d].frame == (if s.pool == [] then 0 else s.pool[|s.pool| - 1])
            && r.pde[d].prot == (if s.pde[d].ondemand then s.pde[d].prot else Prot(true, true))
            && (forall q: nat :: q / ENTRIES == d && q != page ==> Entry(r, q) == ZERO))
      && (forall e: nat :: e < ENTRIES && e != d ==> r.pde[e] == s.pde[e])
  {
    MarkMeaning(s, page, prot);
  }

  /** Directory entries of the n pages that are not present. */
  function Absent(s: Space, page: nat, n: nat): set<nat> {
    if n == 0 then {}
    else set d: nat | page / ENTRIES <= d <= (page + n - 1) / ENTRIES && d < |s.pde| && !s.pde[d].present
  }

  lemma {:induction false} MissingIsAbsent(s: Space, page: nat, n: nat)
    requires Formed(s) && page + n <= WINDOW * ENTRIES
    ensures Missing(s, page, n) == |Absent(s, page, n)|
    decreases n
  {
    hide *;
    if n == 0 {
      NoneMissing(s, page);
    } else {
      var m := MissingStep(s, page, n);
      MissingIsAbsent(m, page + 1, n - 1);
    }
  }

  lemma NoneMissing(s: Space, page: nat)
    requires Formed(s) && page <= WINDOW * ENTRIES
    ensures Missing(s, page, 0) == 0 && Absent(s, page, 0) == {}
  {
  }

  lemma MissingStep(s: Space, page: nat, n: nat) returns (m: Space)
    requires Formed(s) && page + n <= WINDOW * ENTRIES && n > 0
    ensures Formed(m) && page + 1 + (n - 1) <= WINDOW * ENTRIES
    ensures Missing(s, page, n) - Missing(m, page + 1, n - 1) == |Absent(s, page, n)| - |Absent(m, page + 1, n - 1)|
  {
    var d := page / ENTRIES;
    TableEntries(s, d);
    m := TouchTable(OpenDirectory(s, d), d).value;
    assert Missing(s, page, n) == Missing(m, page + 1, n - 1) + if s.pde[d].present then 0 else 1;
    hide Missing, TouchTable, OpenDirectory, Formed, Absent;
    AbsentStep(s, m, page, n);
  }

  lemma TableEntries(s: Space, d: nat)
    requires Formed(s) && d < WINDOW
    ensures var r := TouchTable(OpenDirectory(s, d), d);
      && r.Some? && Formed(r.value) && |r.value.pde| == |s.pde| == ENTRIES && r.value.pde[d].present
      && forall e: nat :: e < |s.pde| && e != d ==> r.value.pde[e] == s.pde[e]
  {
  }

  lemma AbsentStep(s: Space, m: Space, page: nat, n: nat)
    requires 0 < n && page + n <= |s.pde| * ENTRIES && |m.pde| == |s.pde|
    requires m.pde[page / ENTRIES].present
    requires forall d: nat :: d < |s.pde| && d != page / ENTRIES ==> m.pde[d] == s.pde[d]
    ensures Absent(s, page, n) == Absent(m, page + 1, n - 1) + if s.pde[page / ENTRIES].present then {} else {page / ENTRIES}
    ensures page / ENTRIES !in Absent(m, page + 1, n - 1)
  {
    var last := (page + n - 1) / ENTRIES;
    assert page / ENTRIES <= (page + 1) / ENTRIES <= page / ENTRIES + 1;
    if n == 1 {
      assert last == page / ENTRIES;
    } else {
      assert (page + 1) / ENTRIES <= last == (page + 1 + (n - 1) - 1) / ENTRIES;
    }
  }

  lemma TableMeaning(s: Space, d: nat)
    requires Formed(s) && d < WINDOW
    ensures var r := TouchTable(OpenDirectory(s, d), d);
      && r.Some? && Formed(r.value) && HasTable(r.value, d)
      && (forall e: nat :: HasTable(s, e) ==> HasTable(r.value, e))
      && (forall q: nat :: Entry(r.value, q) == Entry(s, q))
      && (s.pde[d].present ==> r.value == s)
      && r.value.pool == if s.pde[d].present then s.pool else Rest(s.pool)
  {
  }

  lemma RestPrefix(pool: seq<nat>, k: nat)
    ensures k < |pool| ==> |Rest(pool)| == |pool| - 1 && Rest(pool)[..|Rest(pool)| - k] == pool[..|pool| - (k + 1)]
  {
  }

  /** Making tables changes no page, and takes one frame for each. */
  lemma {:induction false} WithTablesMeaning(s: Space, page: nat, n: nat)
    requires Formed(s) && page + n <= WINDOW * ENTRIES && Missing(s, page, n) <= |s.pool|
    ensures var r := WithTables(s, page, n);
      && Formed(r) && (forall q: nat :: Entry(r, q) == Entry(s, q))
      && (forall q: nat :: page <= q < page + n ==> HasTable(r, q / ENTRIES))
      && (forall d: nat :: HasTable(s, d) ==> HasTable(r, d))
      && r.pool == s.pool[..|s.pool| - Missing(s, page, n)]
      && (Missing(s, page, n) == 0 ==> r == s)
    decreases n
  {
    if n == 0 {
    } else {
      hide Entry, HasTable, TouchTable, OpenDirectory, Formed;
      TableMeaning(s, page / ENTRIES);
      var m := TouchTable(OpenDirectory(s, page / ENTRIES), page / ENTRIES).value;
      assert WithTables(s, page, n) == WithTables(m, page + 1, n - 1);
      assert Missing(s, page, n) == Missing(m, page + 1, n - 1) + if s.pde[page / ENTRIES].present then 0 else 1;
      hide WithTables, Missing, Rest;
      RestPrefix(s.pool, Missing(m, page + 1, n - 1));
      WithTablesMeaning(m, page + 1, n - 1);
    }
  }

  /** Marking makes the same tables, from the same frames. */
  lemma {:induction false} MarkMakesTables(s: Space, o: Space, page: nat, n: nat, prot: Prot)
    requires Formed(s) && Formed(o) && s.pde == o.pde && s.pool == o.pool && page + n <= WINDOW * ENTRIES
    ensures var r, w := MarkRange(s, page, n, prot), WithTables(o, page, n);
      Formed(r) && r.pde == w.pde && r.pool == w.pool
    decreases n
  {
    if n == 0 {
    } else {
      hide Mark, TouchTable, OpenDirectory, Formed;
      MarkMakesTable(s, o, page, prot);
      MarkMakesTables(Mark(s, page / ENTRIES, page % ENTRIES, prot),
                      TouchTable(OpenDirectory(o, page / ENTRIES), page / ENTRIES).value, page + 1, n - 1, prot);
    }
  }

  lemma MarkMakesTable(s: Space, o: Space, page: nat, prot: Prot)
    requires Formed(s) && Formed(o) && s.pde == o.pde && s.pool == o.pool && page < WINDOW * ENTRIES
    ensures var r, w := Mark(s, page / ENTRIES, page % ENTRIES, prot), TouchTable(OpenDirectory(o, page / ENTRIES), page / ENTRIES);
      Formed(r) && w.Some? && Formed(w.value) && r.pde == w.value.pde && r.pool == w.value.pool
  {
    MarkMeaning(s, page, prot);
    TableMeaning(o, page / ENTRIES);
  }

  // ------------------------------------------------------------------ the round trip

  lemma {:induction false} ReversedMultiset(a: seq<nat>, b: seq<nat>)
    requires |a| == |b| && forall i :: 0 <= i < |a| ==> b[i] == a[|a| - 1 - i]
    ensures multiset(a) == multiset(b)
    decreases |a|
  {
    if a == [] {
    } else {
      var n := |a| - 1;
      assert a == a[..n] + [a[n]] && b == [b[0]] + b[1..];
      ReversedMultiset(a[..n], b[1..]);
    }
  }

  /** An address space is its directory, its pages and its stack. */
  lemma SamePages(s: Space, r: Space)
    requires Formed(s) && Formed(r) && r.pde == s.pde && forall q: nat :: Entry(r, q) == Entry(s, q)
    ensures r.pt == s.pt
  {
    forall d: nat | d < RECURSIVE_SLOT
      ensures r.pt[d] == s.pt[d]
    {
      if s.pde[d].present {
        forall t: nat | t < ENTRIES
          ensures r.pt[d][t] == s.pt[d][t]
        {
          assert (d * ENTRIES + t) / ENTRIES == d && (d * ENTRIES + t) % ENTRIES == t;
          assert Entry(r, d * ENTRIES + t) == Entry(s, d * ENTRIES + t);
        }
      }
    }
  }

  /** Mapping n free pages, touching each and unmapping them gives back all their frames.
      What remains is one frame for each table that had to be made; without such, the
      directory, the tables and the frames on the stack are as before, and only the
      order of the stack may differ. */
  lemma MapTouchUnmapRange(s: Space, owned: set<nat>, page: nat, n: nat, prot: Prot)
    requires Formed(s) && Sound(s, owned) && page + n <= WINDOW * ENTRIES
    requires forall q: nat :: page <= q < page + n ==> Entry(s, q) == ZERO
    requires |s.pool| >= Missing(s, page, n) + n
    ensures var m, w := MarkRange(s, page, n, prot), WithTables(s, page, n);
      && Formed(m) && TouchRange(m, page, n).Some?
      && var t := TouchRange(m, page, n).value;
      && Formed(t) && UnmapRange(t, page, n).Some?
      && var r := UnmapRange(t, page, n).value;
      && r.pde == w.pde && r.pt == w.pt && multiset(r.pool) == multiset(w.pool)
      && |r.pool| == |s.pool| - Missing(s, page, n)
      && (Missing(s, page, n) == 0 ==> w == s)
  {
    var role :| Conserved(s, owned, role);
    assert forall i :: 0 <= i < |s.pool| ==> s.pool[i] != 0;
    hide Conserved, Sound;
    WithTablesMeaning(s, page, n);
    MarkedRange(s, page, n, prot);
    var m, w := MarkRange(s, page, n, prot), WithTables(s, page, n);
    hide Formed, Entry, HasTable, MarkRange, WithTables, TouchRange, UnmapRange, Missing;
    TouchAndRelease(w, m, page, n);
  }

  lemma MapMeaning(s: Space, page: nat, n: nat, prot: Prot)
    requires Formed(s) && page + n <= WINDOW * ENTRIES && Missing(s, page, n) <= |s.pool|
    requires forall q: nat :: page <= q < page + n ==> Entry(s, q) == ZERO
    ensures var m := MarkRange(s, page, n, prot);
      && Formed(m) && m.pool == s.pool[..|s.pool| - Missing(s, page, n)]
      && (forall q: nat :: page <= q < page + n ==> OnDemand(m, q))
      && (forall q: nat, f: nat :: page <= q < page + n ==> FillEntry(Entry(m, q), f) == Word(f, false, prot, true))
      && (forall q: nat :: q < page || page + n <= q ==> Entry(m, q) == Entry(s, q))
  {
    hide Formed, Entry, HasTable, MarkRange, WithTables, Missing, OnDemand, FillEntry;
    WithTablesMeaning(s, page, n);
    MarkedRange(s, page, n, prot);
    NewPages(s, page, n, prot);
  }

  lemma NewPages(s: Space, page: nat, n: nat, prot: Prot)
    requires Formed(s) && page + n <= WINDOW * ENTRIES
    requires forall q: nat :: page <= q < page + n ==> Entry(s, q) == ZERO
    ensures var m := MarkRange(s, page, n, prot);
      && (forall q: nat, f: nat :: page <= q < page + n ==> FillEntry(Entry(m, q), f) == Word(f, false, prot, true))
      && (forall q: nat :: q < page || page + n <= q ==> Entry(m, q) == Entry(s, q))
  {
    MarkRangeFields(s, page, n, prot);
    hide MarkRange, Entry, Formed;
  }

  /** Mapped and touched, the pages are present with the protection asked for, on the top
      frames of the stack below those of the tables; no other page has changed. */
  lemma MapTouchRange(s: Space, page: nat, n: nat, prot: Prot)
    requires Formed(s) && page + n <= WINDOW * ENTRIES
    requires forall q: nat :: page <= q < page + n ==> Entry(s, q) == ZERO
    requires |s.pool| >= Missing(s, page, n) + n
    ensures Formed(MarkRange(s, page, n, prot)) && TouchRange(MarkRange(s, page, n, prot), page, n).Some?
    ensures var t, k := TouchRange(MarkRange(s, page, n, prot), page, n).value, |s.pool| - Missing(s, page, n);
      && t.pool == s.pool[..k - n]
      && (forall q: nat :: page <= q < page + n ==>
            Entry(t, q) == Word(s.pool[k - 1 - (q - page)], false, prot, true))
      && (forall q: nat :: q < page || page + n <= q ==> Entry(t, q) == Entry(s, q))
  {
    hide Formed, Entry, HasTable, MarkRange, WithTables, TouchRange, Missing, OnDemand, FillEntry;
    MapMeaning(s, page, n, prot);
    TouchRangeMeaning(MarkRange(s, page, n, prot), page, n);
  }

  /** After marking, the pages of the range are on demand and the tables made. */
  lemma MarkedRange(s: Space, page: nat, n: nat, prot: Prot)
    requires Formed(s) && page + n <= WINDOW * ENTRIES && Missing(s, page, n) <= |s.pool|
    requires forall q: nat :: page <= q < page + n ==> Entry(s, q) == ZERO
    ensures var m, w := MarkRange(s, page, n, prot), WithTables(s, page, n);
      && Formed(m) && Formed(w) && m.pde == w.pde && m.pool == w.pool
      && (forall q: nat :: page <= q < page + n ==> OnDemand(m, q) && Entry(w, q) == ZERO)
      && (forall q: nat :: q < page || page + n <= q ==> Entry(m, q) == Entry(w, q))
  {
    WithTablesMeaning(s, page, n);
    MarkMakesTables(s, s, page, n, prot);
    MarkRangeMeaning(s, page, n, prot);
    var m, w := MarkRange(s, page, n, prot), WithTables(s, page, n);
    SameTables(w, m);
    hide Formed, Entry, HasTable, MarkRange, WithTables, Missing;
  }

  lemma TouchedBacked(m: Space, t: Space, page: nat, n: nat)
    requires Formed(m) && Formed(t) && t.pde == m.pde && n <= |m.pool|
    requires forall i :: 0 <= i < |m.pool| ==> m.pool[i] != 0
    requires forall q: nat :: page <= q < page + n ==> OnDemand(m, q)
    requires forall q: nat :: page <= q < page + n ==>
      Entry(t, q) == FillEntry(Entry(m, q), m.pool[|m.pool| - 1 - (q - page)])
    ensures forall q: nat :: page <= q < page + n ==> Backed(t, q)
  {
    SameTables(m, t);
    hide Entry, HasTable, Formed;
    forall q: nat | page <= q < page + n
      ensures Backed(t, q)
    {
      assert OnDemand(m, q);
    }
  }

  lemma BackedTables(t: Space, page: nat, n: nat)
    requires forall q: nat :: page <= q < page + n ==> Backed(t, q)
    ensures HaveTables(t, page, n)
  {
    hide HasTable, Entry;
    forall q: nat | page <= q < page + n
      ensures HasTable(t, q / ENTRIES)
    {
      assert Backed(t, q);
    }
  }

  /** Mapping n free pages and unmapping them untouched undoes the mapping: the pages, the
      directory and the stack in its order are as before, but for the tables made. */
  lemma MapUnmapRange(s: Space, page: nat, n: nat, prot: Prot)
    requires Formed(s) && page + n <= WINDOW * ENTRIES
    requires forall q: nat :: page <= q < page + n ==> Entry(s, q) == ZERO
    requires |s.pool| >= Missing(s, page, n)
    ensures Formed(MarkRange(s, page, n, prot))
    ensures UnmapRange(MarkRange(s, page, n, prot), page, n) == Some(WithTables(s, page, n))
    ensures Missing(s, page, n) == 0 ==> WithTables(s, page, n) == s
  {
    WithTablesMeaning(s, page, n);
    MarkedRange(s, page, n, prot);
    var m, w := MarkRange(s, page, n, prot), WithTables(s, page, n);
    DemandTables(m, page, n);
    hide Formed, Entry, HasTable, MarkRange, WithTables, UnmapRange, Missing, OnDemand;
    ReleaseRange(m, page, n);
    HeldAll(m, page, n);
    UnmapRangeMeaning(m, page, n);
    assert m.pool + [] == m.pool;
    SamePages(w, UnmapRange(m, page, n).value);
  }

  lemma DemandTables(m: Space, page: nat, n: nat)
    requires forall q: nat :: page <= q < page + n ==> OnDemand(m, q)
    ensures HaveTables(m, page, n) && forall q: nat :: page <= q < page + n ==> !Entry(m, q).present
  {
    hide HasTable, Entry;
    forall q: nat | page <= q < page + n
      ensures HasTable(m, q / ENTRIES) && !Entry(m, q).present
    {
      assert OnDemand(m, q);
    }
  }

  lemma TouchAndRelease(w: Space, m: Space, page: nat, n: nat)
    requires Formed(m) && Formed(w) && m.pde == w.pde && m.pool == w.pool && page + n <= WINDOW * ENTRIES
    requires n <= |w.pool| && forall i :: 0 <= i < |w.pool| ==> w.pool[i] != 0
    requires forall q: nat :: page <= q < page + n ==> OnDemand(m, q) && Entry(w, q) == ZERO
    requires forall q: nat :: q < page || page + n <= q ==> Entry(m, q) == Entry(w, q)
    ensures TouchRange(m, page, n).Some?
    ensures var t := TouchRange(m, page, n).value;
      && Formed(t) && UnmapRange(t, page, n).Some?
      && var r := UnmapRange(t, page, n).value;
      r.pde == w.pde && r.pt == w.pt && multiset(r.pool) == multiset(w.pool) && |r.pool| == |w.pool|
  {
    hide Formed, Entry, HasTable, TouchRange, UnmapRange, OnDemand, Backed;
    TouchRangeMeaning(m, page, n);
    var t := TouchRange(m, page, n).value;
    TouchedBacked(m, t, page, n);
    ReleaseTouched(w, t, page, n);
  }

  lemma ReleaseTouched(w: Space, t: Space, page: nat, n: nat)
    requires Formed(t) && Formed(w) && t.pde == w.pde && page + n <= WINDOW * ENTRIES
    requires n <= |w.pool| && t.pool == w.pool[..|w.pool| - n]
    requires forall q: nat :: page <= q < page + n ==>
      Backed(t, q) && Entry(w, q) == ZERO && Entry(t, q).frame == w.pool[|w.pool| - 1 - (q - page)]
    requires forall q: nat :: q < page || page + n <= q ==> Entry(t, q) == Entry(w, q)
    ensures UnmapRange(t, page, n).Some?
    ensures var r := UnmapRange(t, page, n).value;
      r.pde == w.pde && r.pt == w.pt && multiset(r.pool) == multiset(w.pool) && |r.pool| == |w.pool|
  {
    hide *;
    BackedTables(t, page, n);
    ReleaseRange(t, page, n);
    UnmappedPages(w, t, page, n);
    RestackedFrames(w.pool, t, page, n);
  }

  lemma UnmappedPages(w: Space, t: Space, page: nat, n: nat)
    requires Formed(t) && Formed(w) && t.pde == w.pde && page + n <= WINDOW * ENTRIES
    requires UnmapRange(t, page, n).Some? && UnmapRange(t, page, n).value.pde == w.pde
    requires forall q: nat :: page <= q < page + n ==> Entry(w, q) == ZERO
    requires forall q: nat :: q < page || page + n <= q ==> Entry(t, q) == Entry(w, q)
    ensures UnmapRange(t, page, n).value.pt == w.pt
  {
    hide Formed, Entry, HasTable, UnmapRange;
    UnmapRangeMeaning(t, page, n);
    SamePages(w, UnmapRange(t, page, n).value);
  }

  lemma RestackedFrames(pool: seq<nat>, t: Space, page: nat, n: nat)
    requires n <= |pool|
    requires forall q: nat :: page <= q < page + n ==> Backed(t, q) && Entry(t, q).frame == pool[|pool| - 1 - (q - page)]
    ensures multiset(pool[..|pool| - n] + Held(t, page, n)) == multiset(pool) && |Held(t, page, n)| == n
  {
    hide Entry, Backed, Frames, Held;
    HeldAll(t, page, n);
    forall i | 0 <= i < n
      ensures Frames(t, page, n)[i] == pool[|pool| - 1 - i]
    {
      FramesAt(t, page, n, i);
    }
    Restacked(pool, n, Frames(t, page, n));
  }

  lemma Restacked(pool: seq<nat>, n: nat, frames: seq<nat>)
    requires n == |frames| <= |pool| && forall i :: 0 <= i < n ==> frames[i] == pool[|pool| - 1 - i]
    ensures multiset(pool[..|pool| - n] + frames) == multiset(pool)
  {
    var k := |pool| - n;
    assert pool == pool[..k] + pool[k..];
    ReversedMultiset(pool[k..], frames);
  }
}

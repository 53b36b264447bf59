/** Loading the segments of a program: the memory image they make, the pages they are
    put on, and the translation of program addresses. */
module ElfLoader {
  import opened AddressSpace
  import opened Paging
  import opened Kstring
  import KernelHeap

  const PAGE: nat := 4096
  const WORD32: nat := 0x1_0000_0000
  const PT_LOAD: nat := 1

  datatype Phdr = Phdr(kind: nat, offset: nat, vaddr: nat, filesz: nat, memsz: nat)
  datatype Segment = Segment(vaddr: nat, base: nat, size: nat)

  /** What the loader takes for granted about a header: the file holds its bytes, and
      its addresses are in user memory. */
  predicate Placed(p: Phdr, file: seq<byte>, limit: nat) {
    p.kind == PT_LOAD ==>
      && p.offset + p.filesz <= |file| && p.vaddr + p.memsz <= limit
      && p.vaddr + p.memsz + 4095 < WORD32 && p.vaddr / PAGE + Pages(p) <= WINDOW * ENTRIES
  }

  predicate AllPlaced(ps: seq<Phdr>, file: seq<byte>, limit: nat) {
    forall i :: 0 <= i < |ps| ==> Placed(ps[i], file, limit)
  }

  function Pages(p: Phdr): nat {
    (p.memsz + 4095) / PAGE
  }

  /** A segment that is loaded. */
  predicate Loads(p: Phdr) {
    p.kind == PT_LOAD && p.filesz <= p.memsz
  }

  /** The loader goes on. */
  predicate Accepted(p: Phdr) {
    p.kind == PT_LOAD ==> p.filesz <= p.memsz
  }

  predicate Covers(p: Phdr, x: nat) {
    Loads(p) && p.vaddr <= x < p.vaddr + p.memsz
  }

  /** The byte a segment has at an address it covers. */
  function ByteAt(p: Phdr, file: seq<byte>, x: nat): byte
    requires Covers(p, x) && p.offset + p.filesz <= |file|
  {
    if x - p.vaddr < p.filesz then file[p.offset + x - p.vaddr] else 0
  }

  // ------------------------------------------------------------------- the image

  /** mem with one segment's bytes written over it. */
  ghost predicate Overlaid(mem: seq<byte>, p: Phdr, file: seq<byte>, r: seq<byte>)
    requires Placed(p, file, |mem|)
  {
    |r| == |mem| && forall x :: 0 <= x < |mem| ==> r[x] == if Covers(p, x) then ByteAt(p, file, x) else mem[x]
  }

  /** Each byte comes from the last segment covering it, and is as it was if none does. */
  ghost predicate Image(mem: seq<byte>, ps: seq<Phdr>, file: seq<byte>, r: seq<byte>)
    requires AllPlaced(ps, file, |mem|)
  {
    |r| == |mem| && forall x :: 0 <= x < |mem| ==> r[x] == ImageAt(mem, ps, file, x)
  }

  function ImageAt(mem: seq<byte>, ps: seq<Phdr>, file: seq<byte>, x: nat): byte
    requires AllPlaced(ps, file, |mem|) && x < |mem|
  {
    if ps == [] then mem[x]
    else
      var n := |ps| - 1;
      assert Placed(ps[n], file, |mem|);
      if Covers(ps[n], x) then ByteAt(ps[n], file, x) else ImageAt(mem, ps[..n], file, x)
  }

  /** No two loaded segments cover the same address. */
  predicate Apart(p: Phdr, q: Phdr) {
    Loads(p) && Loads(q) ==> p.vaddr + p.memsz <= q.vaddr || q.vaddr + q.memsz <= p.vaddr
  }

  ghost predicate Disjoint(ps: seq<Phdr>) {
    forall i, j :: 0 <= i < j < |ps| ==> Apart(ps[i], ps[j])
  }

  /** For segments apart from each other the image holds, at each address of a segment,
      the file's byte or zero behind the file's part, and elsewhere what was there. */
  lemma {:induction false} ImageMeaning(mem: seq<byte>, ps: seq<Phdr>, file: seq<byte>, x: nat)
    requires AllPlaced(ps, file, |mem|) && Disjoint(ps) && x < |mem|
    ensures forall i :: 0 <= i < |ps| && Covers(ps[i], x) ==> ImageAt(mem, ps, file, x) == ByteAt(ps[i], file, x)
    ensures (forall i :: 0 <= i < |ps| ==> !Covers(ps[i], x)) ==> ImageAt(mem, ps, file, x) == mem[x]
    decreases |ps|
  {
    if ps == [] {
    } else {
      var n := |ps| - 1;
      assert Placed(ps[n], file, |mem|);
      ImageMeaning(mem, ps[..n], file, x);
      forall i | 0 <= i < |ps| && Covers(ps[i], x)
        ensures ImageAt(mem, ps, file, x) == ByteAt(ps[i], file, x)
      {
        if i < n {
          assert ps[..n][i] == ps[i] && Apart(ps[i], ps[n]);
        }
      }
    }
  }

  /** Segment i is the last of those loaded that has the address x. */
  ghost predicate LastAt(ps: seq<Phdr>, i: nat, x: nat) {
    && i < |ps| && ps[i].kind == 1 && ps[i].filesz <= ps[i].memsz && ps[i].vaddr <= x < ps[i].vaddr + ps[i].memsz
    && forall j :: i < j < |ps| && ps[j].kind == 1 && ps[j].filesz <= ps[j].memsz ==>
         !(ps[j].vaddr <= x < ps[j].vaddr + ps[j].memsz)
  }

  /** For any segments, overlapping or not: the last one with the address decides, by the
      file's byte or, behind the file's part, by zero. */
  lemma {:induction false} LastSegmentWins(mem: seq<byte>, ps: seq<Phdr>, file: seq<byte>, i: nat, x: nat)
    requires AllPlaced(ps, file, |mem|) && x < |mem| && LastAt(ps, i, x)
    ensures Placed(ps[i], file, |mem|)
    ensures ImageAt(mem, ps, file, x) ==
      if x < ps[i].vaddr + ps[i].filesz then file[ps[i].offset + (x - ps[i].vaddr)] else 0
    decreases |ps|
  {
    var n := |ps| - 1;
    if i < n {
      LastSegmentWins(mem, ps[..n], file, i, x);
    }
  }

  /** The address is in no segment's range. */
  ghost predicate Outside(ps: seq<Phdr>, x: nat) {
    forall i :: 0 <= i < |ps| && ps[i].kind == 1 ==> !(ps[i].vaddr <= x < ps[i].vaddr + ps[i].memsz)
  }

  /** And where no segment is, what was there. */
  lemma {:induction false} NoSegmentThere(mem: seq<byte>, ps: seq<Phdr>, file: seq<byte>, x: nat)
    requires AllPlaced(ps, file, |mem|) && x < |mem|
    requires Outside(ps, x)
    ensures ImageAt(mem, ps, file, x) == mem[x]
    decreases |ps|
  {
    if ps != [] {
      NoSegmentThere(mem, ps[..|ps| - 1], file, x);
    }
  }

  /** So the order of the headers does not matter. */
  lemma OrderIndependent(mem: seq<byte>, ps: seq<Phdr>, qs: seq<Phdr>, file: seq<byte>, r: seq<byte>)
    requires AllPlaced(ps, file, |mem|) && AllPlaced(qs, file, |mem|) && Disjoint(ps) && Disjoint(qs)
    requires multiset(ps) == multiset(qs)
    ensures Image(mem, ps, file, r) <==> Image(mem, qs, file, r)
  {
    forall x: nat | x < |mem|
      ensures ImageAt(mem, ps, file, x) == ImageAt(mem, qs, file, x)
    {
      ImageMeaning(mem, ps, file, x);
      ImageMeaning(mem, qs, file, x);
      if i: nat :| i < |ps| && Covers(ps[i], x) {
        assert ps[i] in multiset(qs);
        var j :| 0 <= j < |qs| && qs[j] == ps[i];
      } else {
        forall j | 0 <= j < |qs|
          ensures !Covers(qs[j], x)
        {
          assert qs[j] in multiset(ps);
        }
      }
    }
  }

  // ------------------------------------------------------------------- the pages

  const USER := Prot(true, true)

  /** The pages after mapping the loaded segments' pages. */
  ghost function Mapped(s: Space, ps: seq<Phdr>): Space
    requires Mappable(s, ps)
    decreases |ps|
  {
    if ps == [] then s
    else if ps[0].kind != PT_LOAD then Mapped(s, ps[1..])
    else Mapped(MarkRange(s, ps[0].vaddr / PAGE, Pages(ps[0]), USER), ps[1..])
  }

  /** The memory manager has frames for the page tables. */
  ghost predicate Mappable(s: Space, ps: seq<Phdr>)
    decreases |ps|
  {
    Formed(s) && (ps == [] ||
      if ps[0].kind != PT_LOAD then Mappable(s, ps[1..])
      else
        && ps[0].vaddr / PAGE + Pages(ps[0]) <= WINDOW * ENTRIES
        && Served(s, ps[0].vaddr / PAGE, Pages(ps[0]), USER)
        && Mappable(MarkRange(s, ps[0].vaddr / PAGE, Pages(ps[0]), USER), ps[1..]))
  }

  /** Rounding the size up covers a segment's pages exactly when the segment does not
      straddle one page more because of where it starts. */
  lemma CoveredIff(p: Phdr)
    requires p.memsz > 0
    ensures (forall x :: p.vaddr <= x < p.vaddr + p.memsz ==> p.vaddr / PAGE <= x / PAGE < p.vaddr / PAGE + Pages(p)) <==>
      p.vaddr % PAGE + p.memsz <= Pages(p) * PAGE
  {
    var last := p.vaddr + p.memsz - 1;
    if p.vaddr % PAGE + p.memsz <= Pages(p) * PAGE {
      assert last / PAGE < p.vaddr / PAGE + Pages(p);
    } else {
      assert last / PAGE >= p.vaddr / PAGE + Pages(p);
    }
  }

  /** 0x200 bytes at 0xF00 reach into a page that is not mapped for them. */
  lemma StraddlesPage()
    ensures var p := Phdr(PT_LOAD, 0, 0xF00, 0, 0x200);
      Covers(p, 0x1000) && 0x1000 / PAGE >= p.vaddr / PAGE + Pages(p)
  {
  }

  lemma {:induction false} MappedKeepsUsable(s: Space, ps: seq<Phdr>, q: nat)
    requires Mappable(s, ps) && KernelHeap.Usable(s, q)
    ensures KernelHeap.Usable(Mapped(s, ps), q)
    ensures Entry(s, q).prot == USER ==> Entry(Mapped(s, ps), q).prot == USER
    decreases |ps|
  {
    if ps == [] {
    } else {
      if ps[0].kind == PT_LOAD {
        MarkRangeMeaning(s, ps[0].vaddr / PAGE, Pages(ps[0]), USER);
        MappedKeepsUsable(MarkRange(s, ps[0].vaddr / PAGE, Pages(ps[0]), USER), ps[1..], q);
      } else {
        MappedKeepsUsable(s, ps[1..], q);
      }
    }
  }

  /** Every byte of a segment that does not straddle a page lies on a page that is usable
      from user mode. */
  lemma {:induction false} SegmentsUsable(s: Space, ps: seq<Phdr>, i: nat, x: nat)
    requires Mappable(s, ps) && i < |ps| && Covers(ps[i], x)
    requires ps[i].vaddr % PAGE + ps[i].memsz <= Pages(ps[i]) * PAGE
    ensures KernelHeap.Usable(Mapped(s, ps), x / PAGE) && Entry(Mapped(s, ps), x / PAGE).prot == USER
    decreases |ps|
  {
    if i == 0 {
      MarkRangeMeaning(s, ps[0].vaddr / PAGE, Pages(ps[0]), USER);
      CoveredIff(ps[0]);
      MappedKeepsUsable(MarkRange(s, ps[0].vaddr / PAGE, Pages(ps[0]), USER), ps[1..], x / PAGE);
    } else if ps[0].kind == PT_LOAD {
      SegmentsUsable(MarkRange(s, ps[0].vaddr / PAGE, Pages(ps[0]), USER), ps[1..], i - 1, x);
    } else {
      SegmentsUsable(s, ps[1..], i - 1, x);
    }
  }

  /** No page is mapped but those the headers ask for. */
  lemma {:induction false} NothingElseMapped(s: Space, ps: seq<Phdr>, q: nat)
    requires Mappable(s, ps)
    requires forall i :: 0 <= i < |ps| && ps[i].kind == 1 ==>
      !(ps[i].vaddr / 4096 <= q < ps[i].vaddr / 4096 + (ps[i].memsz + 4095) / 4096)
    ensures Entry(Mapped(s, ps), q) == Entry(s, q)
    decreases |ps|
  {
    if ps == [] {
    } else {
      if ps[0].kind == PT_LOAD {
        MarkRangeMeaning(s, ps[0].vaddr / PAGE, Pages(ps[0]), USER);
        NothingElseMapped(MarkRange(s, ps[0].vaddr / PAGE, Pages(ps[0]), USER), ps[1..], q);
      } else {
        NothingElseMapped(s, ps[1..], q);
      }
    }
  }

  // ------------------------------------------------------------ address translation

  function SegmentsOf(ps: seq<Phdr>): seq<Segment> {
    if ps == [] then []
    else
      var p := ps[|ps| - 1];
      SegmentsOf(ps[..|ps| - 1]) + if p.kind == PT_LOAD then [Segment(p.vaddr, p.vaddr, Pages(p) * PAGE)] else []
  }

  /** The bound is inclusive: the address just behind a segment counts as inside. */
  predicate Within(s: Segment, a: nat) {
    s.vaddr <= a <= s.vaddr + s.size
  }

  function Translated(ss: seq<Segment>, a: nat): nat {
    if ss == [] then 0
    else if Within(ss[0], a) then a - ss[0].vaddr + ss[0].base
    else Translated(ss[1..], a)
  }

  lemma {:induction false} SegmentsInPlace(ps: seq<Phdr>)
    ensures forall k :: 0 <= k < |SegmentsOf(ps)| ==> SegmentsOf(ps)[k].base == SegmentsOf(ps)[k].vaddr
    decreases |ps|
  {
    if ps == [] {
    } else {
      SegmentsInPlace(ps[..|ps| - 1]);
    }
  }

  lemma {:induction false} TranslatedInPlace(ss: seq<Segment>, a: nat)
    requires forall k :: 0 <= k < |ss| ==> ss[k].base == ss[k].vaddr
    ensures Translated(ss, a) == if Inside(ss, a) then a else 0
    decreases |ss|
  {
    if ss == [] {
    } else if !Within(ss[0], a) {
      TranslatedInPlace(ss[1..], a);
      if k: nat :| k < |ss| && Within(ss[k], a) {
        assert ss[1..][k - 1] == ss[k];
      }
    }
  }

  /** One of the segments has the address. */
  ghost predicate Inside(ss: seq<Segment>, a: nat) {
    exists k :: 0 <= k < |ss| && Within(ss[k], a)
  }

  /** The address is in the pages of the header's segment, or just behind them. */
  predicate Spans(p: Phdr, a: nat) {
    p.kind == 1 && p.vaddr <= a <= p.vaddr + (p.memsz + 4095) / 4096 * 4096
  }

  lemma InsideAppends(ss: seq<Segment>, s: Segment, a: nat)
    ensures Inside(ss + [s], a) <==> Inside(ss, a) || Within(s, a)
  {
    if k: nat :| k < |ss| && Within(ss[k], a) {
      assert (ss + [s])[k] == ss[k];
    }
    assert (ss + [s])[|ss|] == s;
  }

  ghost predicate Spanned(ps: seq<Phdr>, a: nat) {
    exists i :: 0 <= i < |ps| && Spans(ps[i], a)
  }

  lemma SpannedAppends(ps: seq<Phdr>, p: Phdr, a: nat)
    ensures Spanned(ps + [p], a) <==> Spanned(ps, a) || Spans(p, a)
  {
    if i: nat :| i < |ps| && Spans(ps[i], a) {
      assert (ps + [p])[i] == ps[i];
    }
    assert (ps + [p])[|ps|] == p;
  }

  lemma {:induction false} InsideIff(ps: seq<Phdr>, a: nat)
    ensures Inside(SegmentsOf(ps), a) <==> Spanned(ps, a)
    decreases |ps|
  {
    if ps == [] {
    } else {
      var n := |ps| - 1;
      var rest, p := ps[..n], ps[n];
      assert ps == rest + [p];
      InsideIff(rest, a);
      SpannedAppends(rest, p, a);
      if p.kind == PT_LOAD {
        InsideAppends(SegmentsOf(rest), Segment(p.vaddr, p.vaddr, Pages(p) * PAGE), a);
      }
      assert SegmentsOf(rest) + [] == SegmentsOf(rest);
      hide Inside, Spanned;
    }
  }

  /** Exactly the addresses of the loaded headers' pages, and the one just behind them,
      translate, and to themselves; all others give 0. */
  lemma LoadedTranslate(ps: seq<Phdr>, a: nat)
    ensures Translated(SegmentsOf(ps), a) == if Spanned(ps, a) then a else 0
  {
    SegmentsInPlace(ps);
    InsideIff(ps, a);
    TranslatedInPlace(SegmentsOf(ps), a);
  }

  // ------------------------------------------------------------------- the loader

  lemma ImageNothing(mem: seq<byte>, ps: seq<Phdr>, file: seq<byte>)
    ensures Image(mem, ps[..0], file, mem)
  {
  }

  /** What one header does to the memory. */
  ghost predicate Took(mem: seq<byte>, p: Phdr, file: seq<byte>, r: seq<byte>)
    requires Placed(p, file, |mem|)
  {
    if p.kind == PT_LOAD then Overlaid(mem, p, file, r) else r == mem
  }

  lemma ImageStep(mem: seq<byte>, ps: seq<Phdr>, i: nat, file: seq<byte>, r: seq<byte>, n: seq<byte>)
    requires AllPlaced(ps, file, |mem|) && i < |ps| && Accepted(ps[i])
    requires Image(mem, ps[..i], file, r) && Placed(ps[i], file, |r|) && Took(r, ps[i], file, n)
    ensures Image(mem, ps[..i + 1], file, n)
  {
    assert ps[..i + 1][..i] == ps[..i];
    assert forall k :: 0 <= k < i + 1 ==> Placed(ps[k], file, |mem|);
    forall x: nat | x < |mem|
      ensures n[x] == ImageAt(mem, ps[..i + 1], file, x)
    {
    }
  }

  /** What it does to the pages. */
  ghost predicate MappableOne(s: Space, p: Phdr) {
    Formed(s) &&
    (p.kind == PT_LOAD ==> p.vaddr / PAGE + Pages(p) <= WINDOW * ENTRIES && Served(s, p.vaddr / PAGE, Pages(p), USER))
  }

  ghost function MappedOne(s: Space, p: Phdr): Space
    requires MappableOne(s, p)
  {
    if p.kind == PT_LOAD then MarkRange(s, p.vaddr / PAGE, Pages(p), USER) else s
  }

  /** The loop's step for header i. */
  lemma StepFacts(s: Space, ps: seq<Phdr>, i: nat, file: seq<byte>, limit: nat)
    requires i < |ps| && AllPlaced(ps, file, limit) && Mappable(s, ps[i..])
    ensures Placed(ps[i], file, limit) && MappableOne(s, ps[i])
    ensures Mappable(MappedOne(s, ps[i]), ps[i + 1..])
    ensures Mapped(s, ps[i..]) == Mapped(MappedOne(s, ps[i]), ps[i + 1..])
    ensures SegmentsOf(ps[..i + 1]) == SegmentsOf(ps[..i]) + SegmentsOf([ps[i]])
  {
    assert ps[i..][1..] == ps[i + 1..] && ps[..i + 1][..i] == ps[..i];
    assert [ps[i]][..0] == [];
  }

  lemma StepsNothing(ps: seq<Phdr>)
    ensures ps[0..] == ps && SegmentsOf(ps[..0]) == []
  {
  }

  lemma StepsAll(s: Space, ps: seq<Phdr>)
    ensures ps[..|ps|] == ps && ps[|ps|..] == []
    ensures Mappable(s, []) ==> Mapped(s, []) == s
  {
  }

  lemma AllAccepted(ps: seq<Phdr>)
    ensures (forall i :: 0 <= i < |ps| ==> Accepted(ps[i])) <==>
      forall i :: 0 <= i < |ps| && ps[i].kind == 1 ==> ps[i].filesz <= ps[i].memsz
  {
    hide Accepted;
    forall i | 0 <= i < |ps|
      ensures Accepted(ps[i]) <==> (ps[i].kind == 1 ==> ps[i].filesz <= ps[i].memsz)
    {
      AcceptedIs(ps[i]);
    }
  }

  lemma AcceptedIs(p: Phdr)
    ensures Accepted(p) <==> (p.kind == 1 ==> p.filesz <= p.memsz)
  {
  }

  /** What that means byte by byte. */
  lemma LoadedBytes(mem: seq<byte>, ps: seq<Phdr>, file: seq<byte>, r: seq<byte>)
    requires AllPlaced(ps, file, |mem|) && Image(mem, ps, file, r) && forall i :: 0 <= i < |ps| ==> Accepted(ps[i])
    ensures |r| == |mem|
    ensures Disjoint(ps) ==> forall i :: 0 <= i < |ps| && ps[i].kind == 1 ==> var p := ps[i];
      && Placed(p, file, |r|) && p.filesz <= p.memsz
      && r[p.vaddr..p.vaddr + p.filesz] == file[p.offset..p.offset + p.filesz]
      && (forall x :: p.vaddr + p.filesz <= x < p.vaddr + p.memsz ==> r[x] == 0)
    ensures forall x :: 0 <= x < |r| && Outside(ps, x) ==> r[x] == mem[x]
  {
    hide ImageAt;
    forall i, x: nat | Disjoint(ps) && 0 <= i < |ps| && ps[i].kind == 1 && ps[i].vaddr <= x < ps[i].vaddr + ps[i].memsz
      ensures Placed(ps[i], file, |mem|) && x < |mem|
      ensures r[x] == if x < ps[i].vaddr + ps[i].filesz then file[ps[i].offset + (x - ps[i].vaddr)] else 0
    {
      forall j | i < j < |ps|
        ensures Apart(ps[i], ps[j])
      {
      }
      LastSegmentWins(mem, ps, file, i, x);
    }
    forall i | Disjoint(ps) && 0 <= i < |ps| && ps[i].kind == 1
      ensures var p := ps[i];
        && Placed(p, file, |r|) && p.filesz <= p.memsz
        && r[p.vaddr..p.vaddr + p.filesz] == file[p.offset..p.offset + p.filesz]
    {
      assert Accepted(ps[i]);
    }
    forall x: nat | x < |mem| && Outside(ps, x)
      ensures r[x] == mem[x]
    {
      NoSegmentThere(mem, ps, file, x);
    }
  }

  /** The bytes of one segment written over mem. */
  lemma OverlaidBy(mem: seq<byte>, p: Phdr, file: seq<byte>, r: seq<byte>)
    requires Loads(p) && Placed(p, file, |mem|) && |r| == |mem|
    requires r[..p.vaddr] == mem[..p.vaddr] && r[p.vaddr..p.vaddr + p.filesz] == file[p.offset..p.offset + p.filesz]
    requires forall x :: p.vaddr + p.filesz <= x < |r| ==> r[x] == if x < p.vaddr + p.memsz then 0 else mem[x]
    ensures Overlaid(mem, p, file, r)
  {
    forall x: nat | x < |mem|
      ensures r[x] == if Covers(p, x) then ByteAt(p, file, x) else mem[x]
    {
      if x < p.vaddr {
        assert r[..p.vaddr][x] == mem[..p.vaddr][x];
      } else if x < p.vaddr + p.filesz {
        assert r[p.vaddr..p.vaddr + p.filesz][x - p.vaddr] == file[p.offset..p.offset + p.filesz][x - p.vaddr];
      }
    }
  }

  class Loader {
    const memory: array<byte>  // user memory, by address
    var segments: seq<Segment>

    constructor (memory: array<byte>)
      ensures this.memory == memory && segments == []
    {
      this.memory, segments := memory, [];
    }

    /** The bytes of one segment. */
    method Fill(p: Phdr, file: seq<byte>)
      requires Loads(p) && Placed(p, file, memory.Length)
      modifies memory
      ensures Overlaid(old(memory[..]), p, file, memory[..])
      ensures memory[p.vaddr..p.vaddr + p.filesz] == file[p.offset..p.offset + p.filesz]
      ensures forall x :: 0 <= x < memory.Length && p.vaddr + p.filesz <= x ==>
        memory[x] == if x < p.vaddr + p.memsz then 0 else old(memory[x])
      ensures memory[..p.vaddr] == old(memory[..p.vaddr])
    {
      hide Overlaid, ByteAt;
      ghost var mem := memory[..];
      var n := Kmemcpy(memory, p.vaddr, file, p.offset, p.filesz);
      ghost var copied := memory[..];
      assert forall x :: p.vaddr + p.filesz <= x < memory.Length ==> copied[x] == mem[x];
      if p.filesz < p.memsz {
        Kmemset(memory, p.vaddr + p.filesz, 0, p.memsz - p.filesz);
      }
      assert memory[..p.vaddr + p.filesz] == copied[..p.vaddr + p.filesz];
      OverlaidBy(mem, p, file, memory[..]);
    }

    /** The segments of a program. */
    method LoadSegments(m: Machine, file: seq<byte>, phdrs: seq<Phdr>) returns (ok: bool)
      requires AllPlaced(phdrs, file, memory.Length) && m.Valid() && Mappable(m.Contents(), phdrs)
      modifies memory, `segments, m
      ensures m.Valid()
      ensures ok <==> forall i :: 0 <= i < |phdrs| && phdrs[i].kind == 1 ==> phdrs[i].filesz <= phdrs[i].memsz
      ensures ok ==> Image(old(memory[..]), phdrs, file, memory[..])
      ensures ok && Disjoint(phdrs) ==> forall i :: 0 <= i < |phdrs| && phdrs[i].kind == 1 ==> var p := phdrs[i];
        && Placed(p, file, memory.Length) && p.filesz <= p.memsz
        && memory[..][p.vaddr..p.vaddr + p.filesz] == file[p.offset..p.offset + p.filesz]
        && (forall x :: p.vaddr + p.filesz <= x < p.vaddr + p.memsz ==> memory[..][x] == 0)
      ensures ok ==> forall x :: 0 <= x < memory.Length && Outside(phdrs, x) ==> memory[..][x] == old(memory[..])[x]
      ensures ok ==> segments == old(segments) + SegmentsOf(phdrs)
      ensures ok ==> m.Contents() == Mapped(old(m.Contents()), phdrs)
      ensures m.Fixed() && Keeps(old(m.Hardware()), m.Hardware(), m.book.owned, {})
    {
      hide *;
      ghost var mem := memory[..];
      ok := LoadEach(m, file, phdrs);
      AllAccepted(phdrs);
      if ok {
        LoadedBytes(mem, phdrs, file, memory[..]);
      }
    }

    /** One header: true if the loader goes on. */
    method LoadOne(m: Machine, file: seq<byte>, p: Phdr) returns (ok: bool)
      requires Placed(p, file, memory.Length) && m.Valid() && MappableOne(m.Contents(), p)
      modifies memory, `segments, m
      ensures m.Valid() && (ok <==> Accepted(p))
      ensures ok ==> Took(old(memory[..]), p, file, memory[..])
      ensures ok ==> segments == old(segments) + SegmentsOf([p])
      ensures ok ==> m.Contents() == MappedOne(old(m.Contents()), p)
      ensures m.Fixed() && Keeps(old(m.Hardware()), m.Hardware(), m.book.owned, {})
    {
      hide Machine.Valid, Machine.Contents, Overlaid, Keeps;
      KernelHeap.KeepsSame(m);
      assert [p][..0] == [];
      if p.kind == PT_LOAD {
        if p.memsz < p.filesz {
          return false;
        }
        segments := segments + [Segment(p.vaddr, p.vaddr, (p.memsz + 4095) / PAGE * PAGE)];
        m.Mmap(p.vaddr / PAGE, (p.memsz + 4095) / PAGE, USER);
        Fill(p, file);
      }
      ok := true;
    }

    /** The loop over the program headers. */
    method LoadEach(m: Machine, file: seq<byte>, phdrs: seq<Phdr>) returns (ok: bool)
      requires AllPlaced(phdrs, file, memory.Length) && m.Valid() && Mappable(m.Contents(), phdrs)
      modifies memory, `segments, m
      ensures m.Valid() && (ok <==> forall i :: 0 <= i < |phdrs| ==> Accepted(phdrs[i]))
      ensures ok ==> Image(old(memory[..]), phdrs, file, memory[..])
      ensures ok ==> segments == old(segments) + SegmentsOf(phdrs)
      ensures ok ==> m.Contents() == Mapped(old(m.Contents()), phdrs)
      ensures m.Fixed() && Keeps(old(m.Hardware()), m.Hardware(), m.book.owned, {})
    {
      hide Machine.Valid, Machine.Contents, Image, Keeps, Placed, Accepted, Mapped, Mappable, MappedOne, MappableOne, SegmentsOf, Took;
      ghost var mem, s, h := memory[..], m.Contents(), m.Hardware();
      KernelHeap.KeepsSame(m);
      var i := 0;
      ImageNothing(mem, phdrs, file);
      StepsNothing(phdrs);
      while i < |phdrs|
        invariant i <= |phdrs| && m.Valid() && forall k :: 0 <= k < i ==> Accepted(phdrs[k])
        invariant m.Fixed() && Keeps(h, m.Hardware(), m.book.owned, {})
        invariant Image(mem, phdrs[..i], file, memory[..])
        invariant segments == old(segments) + SegmentsOf(phdrs[..i])
        invariant Mappable(m.Contents(), phdrs[i..]) && Mapped(m.Contents(), phdrs[i..]) == Mapped(s, phdrs)
      {
        ghost var was, k := memory[..], m.Hardware();
        StepFacts(m.Contents(), phdrs, i, file, memory.Length);
        ok := LoadOne(m, file, phdrs[i]);
        KeepsOver(h, k, m.Hardware(), m.book.owned, {});
        if !ok {
          return;
        }
        ImageStep(mem, phdrs, i, file, was, memory[..]);
        i := i + 1;
      }
      ok := true;
      StepsAll(m.Contents(), phdrs);
    }

    method TranslateAddr(vaddr: nat) returns (a: nat)
      requires forall k :: 0 <= k < |segments| ==> segments[k].vaddr + segments[k].size < WORD32
      ensures a == Translated(segments, vaddr)
    {
      var i := 0;
      assert segments[0..] == segments;
      while i < |segments|
        invariant i <= |segments| && Translated(segments, vaddr) == Translated(segments[i..], vaddr)
      {
        if segments[i].vaddr <= vaddr <= segments[i].vaddr + segments[i].size {
          return vaddr - segments[i].vaddr + segments[i].base;
        }
        assert segments[i..][1..] == segments[i + 1..];
        i := i + 1;
      }
      a := 0;
    }
  }
}

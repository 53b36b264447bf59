/** Archives in the ustar interchange format (the pax utility of IEEE Std 1003.1) and
    the walk over their blocks: looking a name up on the disk is looking it up in the
    list of members. */
module TarArchive {
  import opened Options
  import opened Kstring
  import opened Ramdisks

  const BLOCK: nat := 512
  const HEADER_SIZE: nat := 511  // of the struct the driver reads
  const LENGTH_AT: nat := 124

  // ------------------------------------------------------------------ octal numbers

  /** oct2uint64: wrapping at 64 bits, and taking any character for a digit. */
  function Oct(s: seq<byte>, r: nat): nat
    decreases |s|
  {
    if s == [] then r else Oct(s[1..], (r * 8 + Signed(s[0]) - 48) % WORD64)
  }

  function Octal(n: nat, digits: nat): (s: seq<byte>)
    ensures |s| == digits && 0 !in s
  {
    if digits == 0 then [] else Octal(n / 8, digits - 1) + [48 + n % 8]
  }

  function Power8(d: nat): nat {
    if d == 0 then 1 else 8 * Power8(d - 1)
  }

  lemma {:induction false} OctAppend(s: seq<byte>, c: byte, r: nat)
    ensures Oct(s + [c], r) == (Oct(s, r) * 8 + Signed(c) - 48) % WORD64
    decreases |s|
  {
    if s == [] {
      assert [c][1..] == [];
    } else {
      assert (s + [c])[1..] == s[1..] + [c];
      OctAppend(s[1..], c, (r * 8 + Signed(s[0]) - 48) % WORD64);
    }
  }

  /** Decoding inverts encoding. */
  lemma {:induction false} OctOfOctal(n: nat, digits: nat)
    requires n < Power8(digits) && n < WORD64
    ensures Oct(Octal(n, digits), 0) == n
    decreases digits
  {
    if digits == 0 {
    } else {
      OctOfOctal(n / 8, digits - 1);
      OctAppend(Octal(n / 8, digits - 1), 48 + n % 8, 0);
    }
  }

  // ---------------------------------------------------------------------- archives

  /** attributes: mode, uid and gid; trailer: everything behind the length. */
  datatype Member = Member(name: seq<byte>, content: seq<byte>, attributes: seq<byte>, trailer: seq<byte>)

  predicate Proper(m: Member) {
    && 1 <= |m.name| <= 99 && 0 !in m.name
    && |m.content| < Power8(11) && |m.attributes| == 24 && |m.trailer| == 376
  }

  function Zeros(n: nat): (s: seq<byte>)
    ensures |s| == n && forall i :: 0 <= i < n ==> s[i] == 0
  {
    if n == 0 then [] else Zeros(n - 1) + [0]
  }

  function Header(m: Member): (h: seq<byte>)
    requires Proper(m)
    ensures |h| == BLOCK
  {
    m.name + Zeros(100 - |m.name|) + m.attributes + Octal(|m.content|, 11) + [0] + m.trailer
  }

  function Padded(n: nat): nat {
    (n + 511) / BLOCK * BLOCK
  }

  function Entry(m: Member): (e: seq<byte>)
    requires Proper(m)
    ensures |e| == BLOCK + Padded(|m.content|)
  {
    Header(m) + m.content + Zeros(Padded(|m.content|) - |m.content|)
  }

  function Archive(ms: seq<Member>): seq<byte>
    requires forall i :: 0 <= i < |ms| ==> Proper(ms[i])
  {
    if ms == [] then [] else Entry(ms[0]) + Archive(ms[1..])
  }

  /** An archive with the end-of-archive blocks and whatever else is zero behind it. */
  function Disk(ms: seq<Member>, blanks: nat): seq<byte>
    requires forall i :: 0 <= i < |ms| ==> Proper(ms[i])
  {
    Archive(ms) + Zeros(BLOCK * blanks)
  }

  /** The first member with a name. */
  function Lookup(ms: seq<Member>, name: seq<byte>): Option<Member> {
    if ms == [] then None else if ms[0].name == name then Some(ms[0]) else Lookup(ms[1..], name)
  }

  /** Member i is the first with its name. */
  predicate First(ms: seq<Member>, i: nat) {
    i < |ms| && forall j :: 0 <= j < i ==> ms[j].name != ms[i].name
  }

  /** What Lookup finds: the first of all members with the name, wherever it stands, and
      nothing exactly if no member has the name. */
  lemma {:induction false} LookupIff(ms: seq<Member>, name: seq<byte>)
    ensures forall m :: Lookup(ms, name) == Some(m) <==> exists i: nat :: First(ms, i) && ms[i] == m && m.name == name
    ensures Lookup(ms, name) == None <==> forall i :: 0 <= i < |ms| ==> ms[i].name != name
    decreases |ms|
  {
    if exists k :: 0 <= k < |ms| && ms[k].name == name {
      var i := FirstOf(ms, name);
      LookupFirst(ms, i);
      forall k: nat | First(ms, k) && ms[k].name == name
        ensures k == i
      {
        assert !(k < i) && !(i < k);
      }
    } else {
      LookupNobody(ms, name);
    }
  }

  lemma {:induction false} FirstOf(ms: seq<Member>, name: seq<byte>) returns (i: nat)
    requires exists k :: 0 <= k < |ms| && ms[k].name == name
    ensures First(ms, i) && ms[i].name == name
    decreases |ms|
  {
    if ms[0].name == name {
      i := 0;
    } else {
      var k :| 0 <= k < |ms| && ms[k].name == name;
      assert ms[1..][k - 1].name == name;
      i := FirstOf(ms[1..], name);
      i := i + 1;
      assert forall j :: 0 < j < i ==> ms[j] == ms[1..][j - 1];
    }
  }

  lemma {:induction false} LookupFirst(ms: seq<Member>, i: nat)
    requires First(ms, i)
    ensures Lookup(ms, ms[i].name) == Some(ms[i])
    decreases i
  {
    if i > 0 {
      assert forall j :: 0 <= j < i - 1 ==> ms[1..][j] == ms[j + 1];
      LookupFirst(ms[1..], i - 1);
    }
  }

  lemma {:induction false} LookupNobody(ms: seq<Member>, name: seq<byte>)
    requires forall i :: 0 <= i < |ms| ==> ms[i].name != name
    ensures Lookup(ms, name) == None
    decreases |ms|
  {
    if ms == [] {
    } else {
      assert forall i :: 0 <= i < |ms| - 1 ==> ms[1..][i] == ms[i + 1];
      LookupNobody(ms[1..], name);
    }
  }

  // ---------------------------------------------------------------------- the walk

  function HeaderAt(disk: seq<byte>, cursor: nat): seq<byte>
    requires cursor + HEADER_SIZE <= |disk|
  {
    disk[cursor..cursor + HEADER_SIZE]
  }

  function NameAt(disk: seq<byte>, cursor: nat): seq<byte>
    requires cursor + HEADER_SIZE <= |disk|
  {
    Str(HeaderAt(disk, cursor))
  }

  function LengthAt(disk: seq<byte>, cursor: nat): nat
    requires cursor + HEADER_SIZE <= |disk|
  {
    Oct(Str(HeaderAt(disk, cursor)[LENGTH_AT..]), 0)
  }

  function Next(disk: seq<byte>, cursor: nat): nat
    requires cursor + HEADER_SIZE <= |disk|
  {
    cursor + Padded(LengthAt(disk, cursor)) + BLOCK
  }

  /** Every header the walk comes to is complete, has both its strings terminated, and
      moves the cursor without a 64-bit overflow. */
  ghost predicate Readable(disk: seq<byte>, cursor: nat)
    decreases |disk| - cursor
  {
    cursor >= |disk| ||
    (&& cursor + HEADER_SIZE <= |disk|
     && 0 in HeaderAt(disk, cursor) && 0 in HeaderAt(disk, cursor)[LENGTH_AT..]
     && cursor + LengthAt(disk, cursor) + 2 * BLOCK < WORD64
     && Readable(disk, Next(disk, cursor)))
  }

  /** Where the first header with the name is. */
  ghost function Find(disk: seq<byte>, cursor: nat, name: seq<byte>): (r: Option<nat>)
    requires Readable(disk, cursor)
    ensures r.Some? ==>
      && cursor <= r.value && r.value + HEADER_SIZE <= |disk| && NameAt(disk, r.value) == name
      && r.value + LengthAt(disk, r.value) + 2 * BLOCK < WORD64
    decreases |disk| - cursor
  {
    if cursor >= |disk| then None
    else if NameAt(disk, cursor) == name then Some(cursor)
    else Find(disk, Next(disk, cursor), name)
  }

  /** What fstat finds: the length of the file. */
  ghost function Stat(disk: seq<byte>, name: seq<byte>): Option<nat>
    requires Readable(disk, 0)
  {
    match Find(disk, 0, name)
    case None => None
    case Some(cursor) => Some(LengthAt(disk, cursor))
  }

  /** The part of a file of the given length behind the header at the cursor. */
  function Clip(disk: seq<byte>, cursor: nat, length: nat, offset: nat, size: nat): seq<byte> {
    if offset >= length then [] else Slice(disk, cursor + BLOCK + offset, Min(size, length - offset))
  }

  ghost function ClipAt(disk: seq<byte>, r: Option<nat>, offset: nat, size: nat): seq<byte>
    requires r.Some? ==> r.value + HEADER_SIZE <= |disk|
  {
    match r
    case None => []
    case Some(cursor) => Clip(disk, cursor, LengthAt(disk, cursor), offset, size)
  }

  /** What read delivers: the disk's bytes behind the header, clamped to the length. */
  ghost function Data(disk: seq<byte>, name: seq<byte>, offset: nat, size: nat): seq<byte>
    requires Readable(disk, 0)
  {
    ClipAt(disk, Find(disk, 0, name), offset, size)
  }

  // ----------------------------------------------------------- walking an archive

  lemma HeaderFields(m: Member, h: seq<byte>)
    requires Proper(m) && h == Header(m)[..HEADER_SIZE]
    ensures 0 in h && Str(h) == m.name
    ensures 0 in h[LENGTH_AT..] && Oct(Str(h[LENGTH_AT..]), 0) == |m.content|
  {
    NameField(m, h);
    var l := h[LENGTH_AT..];
    LengthField(m.name + Zeros(100 - |m.name|) + m.attributes, Octal(|m.content|, 11), m.trailer, h);
    assert forall k :: 0 <= k < 11 ==> l[k] == l[..11][k];
    StrFrom(l, 11);
    OctOfOctal(|m.content|, 11);
  }

  lemma NameField(m: Member, h: seq<byte>)
    requires Proper(m) && h == Header(m)[..HEADER_SIZE]
    ensures 0 in h && Str(h) == m.name
  {
    assert h[|m.name|] == 0;
    StrFrom(h, |m.name|);
    assert h[..|m.name|] == m.name;
  }

  lemma LengthField(left: seq<byte>, digits: seq<byte>, trailer: seq<byte>, h: seq<byte>)
    requires |left| == LENGTH_AT && |digits| == 11 && |trailer| == 376
    requires h == (left + digits + [0] + trailer)[..HEADER_SIZE]
    ensures h[LENGTH_AT..][..11] == digits && h[LENGTH_AT..][11] == 0
  {
  }

  /** At a member's header the walk sees the member's name and length, and moves on to
      the next member's header. */
  lemma AtMember(before: seq<byte>, m: Member, after: seq<byte>)
    requires Proper(m)
    ensures var disk, c := before + Entry(m) + after, |before|;
      && c + HEADER_SIZE <= |disk| && HeaderAt(disk, c) == Header(m)[..HEADER_SIZE]
      && 0 in HeaderAt(disk, c) && 0 in HeaderAt(disk, c)[LENGTH_AT..]
      && NameAt(disk, c) == m.name && LengthAt(disk, c) == |m.content|
      && Next(disk, c) == |before + Entry(m)|
  {
    var disk, c := before + Entry(m) + after, |before|;
    assert HeaderAt(disk, c) == Entry(m)[..HEADER_SIZE] == Header(m)[..HEADER_SIZE];
    HeaderFields(m, HeaderAt(disk, c));
  }

  /** A blank block has an empty name and no length. */
  lemma AtBlank(before: seq<byte>, blanks: nat)
    requires blanks > 0
    ensures var disk, c := before + Zeros(BLOCK * blanks), |before|;
      && c + HEADER_SIZE <= |disk| && 0 in HeaderAt(disk, c) && 0 in HeaderAt(disk, c)[LENGTH_AT..]
      && NameAt(disk, c) == [] && LengthAt(disk, c) == 0 && Next(disk, c) == c + BLOCK
  {
    var disk, c := before + Zeros(BLOCK * blanks), |before|;
    var h := HeaderAt(disk, c);
    assert h[0] == 0 && h[LENGTH_AT..][0] == 0;
    StrFrom(h, 0);
    StrFrom(h[LENGTH_AT..], 0);
  }

  lemma {:induction false} SplitZeros(n: nat, m: nat)
    ensures Zeros(n + m) == Zeros(n) + Zeros(m)
  {
  }

  lemma {:induction false} WalkBlanks(before: seq<byte>, blanks: nat, name: seq<byte>)
    requires |before| + BLOCK * blanks + BLOCK < WORD64
    ensures var disk := before + Zeros(BLOCK * blanks);
      && Readable(disk, |before|)
      && Find(disk, |before|, name) == if name == [] && blanks > 0 then Some(|before|) else None
    decreases blanks
  {
    if blanks == 0 {
    } else {
      AtBlank(before, blanks);
      OneBlankLess(before, blanks);
      WalkBlanks(before + Zeros(BLOCK), blanks - 1, name);
      hide Zeros, HeaderAt, NameAt, LengthAt, Next;
    }
  }

  lemma OneBlankLess(before: seq<byte>, blanks: nat)
    requires blanks > 0
    ensures before + Zeros(BLOCK * blanks) == (before + Zeros(BLOCK)) + Zeros(BLOCK * (blanks - 1))
  {
    SplitZeros(BLOCK, BLOCK * (blanks - 1));
  }

  /** Where the walk has to end: at the header of the member looked for, or else in a
      blank block if the empty name is looked for. */
  ghost predicate Ends(disk: seq<byte>, member: Option<Member>, blank: bool, r: Option<nat>) {
    match member
    case Some(m) =>
      && r.Some? && Proper(m)
      && r.value + |Entry(m)| <= |disk| && disk[r.value..r.value + |Entry(m)|] == Entry(m)
      && LengthAt(disk, r.value) == |m.content|
    case None => if blank then r.Some? && r.value + HEADER_SIZE <= |disk| && LengthAt(disk, r.value) == 0 else r.None?
  }

  lemma WalkNothing(before: seq<byte>, blanks: nat, name: seq<byte>)
    requires |before| + BLOCK * blanks + BLOCK < WORD64
    ensures var disk := before + Zeros(BLOCK * blanks);
      Readable(disk, |before|) && Ends(disk, None, name == [] && blanks > 0, Find(disk, |before|, name))
  {
    WalkBlanks(before, blanks, name);
    if blanks > 0 {
      AtBlank(before, blanks);
    }
    hide Readable, Find, Zeros, NameAt, LengthAt, Next;
  }

  /** One step of the walk through an archive. */
  lemma WalkMember(before: seq<byte>, ms: seq<Member>, blanks: nat)
    requires ms != [] && forall i :: 0 <= i < |ms| ==> Proper(ms[i])
    ensures var m, rest := ms[0], ms[1..]; var disk, c, next := before + Disk(ms, blanks), |before|, before + Entry(m);
      && disk == next + Disk(rest, blanks)
      && c + HEADER_SIZE <= |disk| && 0 in HeaderAt(disk, c) && 0 in HeaderAt(disk, c)[LENGTH_AT..]
      && c < |next| <= |disk| && c + LengthAt(disk, c) <= |disk|
      && NameAt(disk, c) == m.name && Next(disk, c) == |next|
      && forall blank :: Ends(disk, Some(m), blank, Some(c))
  {
    var m, rest := ms[0], ms[1..];
    DiskSplit(before, ms, blanks);
    AtMember(before, m, Disk(rest, blanks));
    Middle(before, Entry(m), Disk(rest, blanks));
    hide Entry, HeaderAt, NameAt, LengthAt, Next, Disk, Zeros, Archive;
  }

  lemma DiskSplit(before: seq<byte>, ms: seq<Member>, blanks: nat)
    requires ms != [] && forall i :: 0 <= i < |ms| ==> Proper(ms[i])
    ensures before + Disk(ms, blanks) == before + Entry(ms[0]) + Disk(ms[1..], blanks)
  {
    hide Entry, Zeros;
  }

  lemma {:induction false} WalkArchive(before: seq<byte>, ms: seq<Member>, blanks: nat, name: seq<byte>)
    requires forall i :: 0 <= i < |ms| ==> Proper(ms[i])
    requires |before + Disk(ms, blanks)| + 2 * BLOCK < WORD64
    ensures var disk := before + Disk(ms, blanks);
      && Readable(disk, |before|)
      && Ends(disk, Lookup(ms, name), name == [] && blanks > 0, Find(disk, |before|, name))
    decreases |ms|
  {
    var disk := before + Disk(ms, blanks);
    if ms == [] {
      assert disk == before + Zeros(BLOCK * blanks);
      WalkNothing(before, blanks, name);
    } else {
      hide Entry, HeaderAt, NameAt, LengthAt, Next, Disk, Ends, Proper;
      WalkMember(before, ms, blanks);
      WalkArchive(before + Entry(ms[0]), ms[1..], blanks, name);
    }
  }

  predicate Fits(ms: seq<Member>, blanks: nat)
    requires forall i :: 0 <= i < |ms| ==> Proper(ms[i])
  {
    |Disk(ms, blanks)| + 2 * BLOCK < WORD64
  }

  /** The disk holds the archive of the members. */
  predicate HoldsArchive(disk: seq<byte>, ms: seq<Member>, blanks: nat) {
    (forall i :: 0 <= i < |ms| ==> Proper(ms[i])) && Fits(ms, blanks) && disk == Disk(ms, blanks)
  }

  function LookupLength(ms: seq<Member>, name: seq<byte>): Option<nat> {
    match Lookup(ms, name) { case None => None case Some(m) => Some(|m.content|) }
  }

  /** Looking a name up on the disk is looking it up in the archive, except that the
      empty name is found in the blocks that end the archive. */
  lemma StatIsLookup(ms: seq<Member>, blanks: nat, name: seq<byte>)
    requires (forall i :: 0 <= i < |ms| ==> Proper(ms[i])) && Fits(ms, blanks)
    ensures Readable(Disk(ms, blanks), 0)
    ensures Stat(Disk(ms, blanks), name) ==
      if Lookup(ms, name).None? && name == [] && blanks > 0 then Some(0) else LookupLength(ms, name)
  {
    assert [] + Disk(ms, blanks) == Disk(ms, blanks);
    WalkArchive([], ms, blanks, name);
  }

  lemma {:induction false} NoEmptyName(ms: seq<Member>)
    requires forall i :: 0 <= i < |ms| ==> Proper(ms[i])
    ensures Lookup(ms, []) == None
    decreases |ms|
  {
    if ms == [] {
    } else {
      assert Proper(ms[0]);
      NoEmptyName(ms[1..]);
    }
  }

  /** So fstat answers for the archive's members and no other name exactly when the
      name is not empty or the archive is not ended by a blank block. */
  lemma StatExactIff(ms: seq<Member>, blanks: nat, name: seq<byte>)
    requires (forall i :: 0 <= i < |ms| ==> Proper(ms[i])) && Fits(ms, blanks)
    ensures Readable(Disk(ms, blanks), 0)
    ensures Stat(Disk(ms, blanks), name) == LookupLength(ms, name) <==> name != [] || blanks == 0
  {
    StatIsLookup(ms, blanks, name);
    NoEmptyName(ms);
  }

  /** In an empty archive of one blank block fstat finds a file without a name. */
  lemma EmptyNameFound()
    ensures Readable(Disk([], 1), 0)
    ensures Stat(Disk([], 1), []) == Some(0) != LookupLength([], [])
  {
    assert |Disk([], 1)| == BLOCK;
    StatIsLookup([], 1, []);
  }

  /** Reading a file of the disk is taking a slice of the first member with its name,
      whatever members stand before and behind it. */
  lemma DataIsSlice(ms: seq<Member>, blanks: nat, name: seq<byte>, offset: nat, size: nat)
    requires (forall i :: 0 <= i < |ms| ==> Proper(ms[i])) && Fits(ms, blanks)
    ensures Readable(Disk(ms, blanks), 0)
    ensures Data(Disk(ms, blanks), name, offset, size) ==
      match Lookup(ms, name) { case None => [] case Some(m) => Slice(m.content, offset, size) }
  {
    var disk := Disk(ms, blanks);
    assert [] + disk == disk;
    WalkArchive([], ms, blanks, name);
    hide Disk, Readable, Find, Fits, Slice, ClipAt, Ends;
    EndsInSlice(disk, Lookup(ms, name), name == [] && blanks > 0, Find(disk, 0, name), offset, size);
  }

  /** In an archive the walk finds each name's first member, however many stand in front:
      fstat gives its length and read its bytes from the offset on. */
  lemma MemberFound(ms: seq<Member>, blanks: nat, i: nat, offset: nat, size: nat)
    requires (forall k :: 0 <= k < |ms| ==> Proper(ms[k])) && Fits(ms, blanks) && First(ms, i)
    ensures Readable(Disk(ms, blanks), 0)
    ensures Stat(Disk(ms, blanks), ms[i].name) == Some(|ms[i].content|)
    ensures var data, content := Data(Disk(ms, blanks), ms[i].name, offset, size), ms[i].content;
      && |data| == (if offset >= |content| then 0 else if offset + size > |content| then |content| - offset else size)
      && forall k :: 0 <= k < |data| ==> data[k] == content[offset + k]
  {
    hide Disk, Readable, Stat, Data, Fits, Proper;
    LookupFirst(ms, i);
    StatIsLookup(ms, blanks, ms[i].name);
    DataIsSlice(ms, blanks, ms[i].name, offset, size);
    SliceBytes(ms[i].content, offset, size);
  }

  /** A name that no member has is not found, unless it is empty and a blank block ends
      the archive; it has no bytes in any case. */
  lemma NobodyFound(ms: seq<Member>, blanks: nat, name: seq<byte>, offset: nat, size: nat)
    requires (forall k :: 0 <= k < |ms| ==> Proper(ms[k])) && Fits(ms, blanks)
    requires forall i :: 0 <= i < |ms| ==> ms[i].name != name
    ensures Readable(Disk(ms, blanks), 0)
    ensures Stat(Disk(ms, blanks), name) == if name == [] && blanks > 0 then Some(0) else None
    ensures Data(Disk(ms, blanks), name, offset, size) == []
  {
    hide Disk, Readable, Stat, Data, Fits, Proper, Lookup;
    LookupIff(ms, name);
    StatIsLookup(ms, blanks, name);
    DataIsSlice(ms, blanks, name, offset, size);
  }

  lemma EndsInSlice(disk: seq<byte>, member: Option<Member>, blank: bool, r: Option<nat>, offset: nat, size: nat)
    requires Ends(disk, member, blank, r) && (r.Some? ==> r.value + HEADER_SIZE <= |disk|)
    ensures ClipAt(disk, r, offset, size) ==
      match member { case None => [] case Some(m) => Slice(m.content, offset, size) }
  {
    hide Slice, Clip, Entry;
    match member
    case Some(m) => ClipInside(disk, r.value, m, offset, size);
    case None =>
      if blank {
        ClipNothing(disk, r.value, offset, size);
      }
  }

  lemma ClipNothing(disk: seq<byte>, c: nat, offset: nat, size: nat)
    ensures Clip(disk, c, 0, offset, size) == []
  {
  }

  lemma ClipInside(disk: seq<byte>, c: nat, m: Member, offset: nat, size: nat)
    requires Proper(m) && c + |Entry(m)| <= |disk| && disk[c..c + |Entry(m)|] == Entry(m)
    ensures Clip(disk, c, |m.content|, offset, size) == Slice(m.content, offset, size)
  {
    var e, n := Entry(m), |m.content|;
    Middle(Header(m), m.content, Zeros(Padded(n) - n));
    hide Entry, Header, Zeros, Clip, Slice;
    SubSlice(disk, c, |e|, BLOCK, n);
    ClipPart(disk, c, m.content, offset, size);
  }

  lemma ClipPart(disk: seq<byte>, c: nat, content: seq<byte>, offset: nat, size: nat)
    requires c + BLOCK + |content| <= |disk| && disk[c + BLOCK..c + BLOCK + |content|] == content
    ensures Clip(disk, c, |content|, offset, size) == Slice(content, offset, size)
  {
    if offset < |content| {
      var k := Min(size, |content| - offset);
      SubSlice(disk, c + BLOCK, |content|, offset, k);
    }
  }

  lemma SubSlice(s: seq<byte>, a: nat, n: nat, o: nat, k: nat)
    requires a + n <= |s| && o + k <= n
    ensures s[a..a + n][o..o + k] == s[a + o..a + o + k]
  {
    var l, r := s[a..a + n][o..o + k], s[a + o..a + o + k];
    assert forall i :: 0 <= i < k ==> l[i] == r[i];
  }
}

/** The file system driver: it walks the disk's headers block by block. */
module Tarfs {
  import opened Options
  import opened Kstring
  import opened Ramdisks
  import opened TarArchive

  method Oct2uint64(s: seq<byte>) returns (r: nat)
    requires 0 in s
    ensures r == Oct(Str(s), 0)
  {
    r := 0;
    var i := 0;
    assert s[0..] == s;
    while s[i] != 0
      invariant i < |s| && 0 in s[i..] && Oct(Str(s), 0) == Oct(Str(s[i..]), r)
      decreases |s| - i
    {
      StrStep(s, i);
      assert s[i..][1..] == s[i + 1..];
      var n := Signed(s[i]) - 48;
      r := (r * 8 + n) % WORD64;
      i := i + 1;
    }
    StrStep(s, i);
  }

  /** The read of a header at the cursor. */
  method ReadHeader(disk: Ramdisk, cursor: nat) returns (header: seq<byte>)
    requires disk.Valid() && cursor + HEADER_SIZE <= |disk.Content()| && cursor + HEADER_SIZE < WORD64
    ensures header == HeaderAt(disk.Content(), cursor)
  {
    var buf := new byte[HEADER_SIZE];
    var n := disk.Read(buf, 0, cursor, HEADER_SIZE);
    header := buf[..];
    assert header == Slice(disk.Content(), cursor, HEADER_SIZE);
  }

  /** The cursor past a file that is not the one looked for. */
  function Advance(cursor: nat, filelen: nat): nat {
    (cursor + (filelen + 511) % WORD64 / BLOCK * BLOCK + BLOCK) % WORD64
  }

  lemma AdvanceIsNext(disk: seq<byte>, cursor: nat)
    requires cursor + HEADER_SIZE <= |disk| && cursor + LengthAt(disk, cursor) + 2 * BLOCK < WORD64
    ensures Advance(cursor, LengthAt(disk, cursor)) == Next(disk, cursor)
  {
    hide LengthAt;
    PaddedBound(LengthAt(disk, cursor));
  }

  lemma PaddedBound(n: nat)
    ensures n <= Padded(n) < n + BLOCK
  {
  }

  /** The walk both operations share: the cursor and length of the file, if it exists. */
  method Search(disk: Ramdisk, filename: seq<byte>) returns (found: bool, cursor: nat, filelen: nat)
    requires disk.Valid() && Readable(disk.Content(), 0) && 0 in filename
    ensures found <==> Find(disk.Content(), 0, Str(filename)).Some?
    ensures found ==> Find(disk.Content(), 0, Str(filename)) == Some(cursor) && filelen == LengthAt(disk.Content(), cursor)
  {
    var disksize := disk.Disksize();
    cursor, filelen := 0, 0;
    while cursor < disksize
      invariant Readable(disk.Content(), cursor)
      invariant Find(disk.Content(), 0, Str(filename)) == Find(disk.Content(), cursor, Str(filename))
      decreases disksize - cursor
    {
      var header := ReadHeader(disk, cursor);
      filelen := Oct2uint64(header[LENGTH_AT..]);
      var d := Kstrcmp(header, filename);
      CompareEqual(Str(header), Str(filename));
      if d == 0 {
        return true, cursor, filelen;
      }
      AdvanceIsNext(disk.Content(), cursor);
      cursor := Advance(cursor, filelen);
    }
    found := false;
  }

  method Fstat(disk: Ramdisk, filename: seq<byte>) returns (ok: bool, filelen: nat)
    requires disk.Valid() && Readable(disk.Content(), 0) && 0 in filename
    ensures Stat(disk.Content(), Str(filename)) == if ok then Some(filelen) else None
    ensures forall ms: seq<Member>, blanks: nat, i: nat :: HoldsArchive(disk.Content(), ms, blanks) && First(ms, i) && ms[i].name == Str(filename) ==>
      ok && filelen == |ms[i].content|
    ensures forall ms: seq<Member>, blanks: nat :: HoldsArchive(disk.Content(), ms, blanks) && (forall i :: 0 <= i < |ms| ==> ms[i].name != Str(filename)) ==>
      (ok <==> Str(filename) == [] && blanks > 0)
  {
    var cursor;
    ok, cursor, filelen := Search(disk, filename);
    hide *;
    StatBySearch(disk.Content(), Str(filename), ok, cursor, filelen);
    forall ms: seq<Member>, blanks: nat, i: nat | HoldsArchive(disk.Content(), ms, blanks) && First(ms, i) && ms[i].name == Str(filename)
      ensures Stat(disk.Content(), Str(filename)) == Some(|ms[i].content|)
    {
      HeldMember(disk.Content(), ms, blanks, i, 0, 0);
    }
    forall ms: seq<Member>, blanks: nat | HoldsArchive(disk.Content(), ms, blanks) && (forall i :: 0 <= i < |ms| ==> ms[i].name != Str(filename))
      ensures Stat(disk.Content(), Str(filename)) == if Str(filename) == [] && blanks > 0 then Some(0) else None
    {
      HeldNobody(disk.Content(), ms, blanks, Str(filename), 0, 0);
    }
  }

  lemma StatBySearch(disk: seq<byte>, name: seq<byte>, found: bool, cursor: nat, filelen: nat)
    requires Readable(disk, 0) && (found <==> Find(disk, 0, name).Some?)
    requires found ==> Find(disk, 0, name) == Some(cursor) && filelen == LengthAt(disk, cursor)
    ensures Stat(disk, name) == if found then Some(filelen) else None
  {
  }

  lemma HeldMember(disk: seq<byte>, ms: seq<Member>, blanks: nat, i: nat, offset: nat, size: nat)
    requires HoldsArchive(disk, ms, blanks) && First(ms, i)
    ensures i < |ms| && Readable(disk, 0) && Stat(disk, ms[i].name) == Some(|ms[i].content|)
    ensures var data, content := Data(disk, ms[i].name, offset, size), ms[i].content;
      && |data| == (if offset >= |content| then 0 else if offset + size > |content| then |content| - offset else size)
      && forall k :: 0 <= k < |data| ==> data[k] == content[offset + k]
  {
    MemberFound(ms, blanks, i, offset, size);
  }

  lemma HeldNobody(disk: seq<byte>, ms: seq<Member>, blanks: nat, name: seq<byte>, offset: nat, size: nat)
    requires HoldsArchive(disk, ms, blanks) && forall i :: 0 <= i < |ms| ==> ms[i].name != name
    ensures Readable(disk, 0) && Stat(disk, name) == (if name == [] && blanks > 0 then Some(0) else None)
    ensures Data(disk, name, offset, size) == []
  {
    NobodyFound(ms, blanks, name, offset, size);
  }

  /** The part of a read after the file has been found. */
  method ReadFound(disk: Ramdisk, buf: array<byte>, cursor: nat, filelen: nat, offset: nat, size: nat) returns (n: nat)
    requires disk.Valid() && buf != disk.memory && offset + size < WORD64 && cursor + filelen + 2 * BLOCK < WORD64
    requires |Clip(disk.Content(), cursor, filelen, offset, size)| <= buf.Length
    modifies buf
    ensures n == |Clip(disk.Content(), cursor, filelen, offset, size)|
    ensures buf[..] == Clip(disk.Content(), cursor, filelen, offset, size) + old(buf[n..])
  {
    hide Slice, Clip;
    if offset >= filelen {
      ClipBeyond(disk.Content(), cursor, filelen, offset, size);
      assert buf[..] == [] + buf[0..];
      return 0;
    }
    ClipWithin(disk.Content(), cursor, filelen, offset, size);
    var size' := size;
    if (offset + size) % WORD64 > filelen {
      size' := filelen - offset;
    }
    assert buf[..0] == [];
    n := disk.Read(buf, 0, cursor + 512 + offset, size');
  }

  /** buf has room for what is read, and its other bytes do not change. */
  method Read(disk: Ramdisk, filename: seq<byte>, buf: array<byte>, offset: nat, size: nat) returns (n: nat)
    requires disk.Valid() && Readable(disk.Content(), 0) && 0 in filename && buf != disk.memory
    requires offset + size < WORD64 && |Data(disk.Content(), Str(filename), offset, size)| <= buf.Length
    modifies buf
    ensures n == |Data(disk.Content(), Str(filename), offset, size)|
    ensures buf[..] == Data(disk.Content(), Str(filename), offset, size) + old(buf[n..])
    ensures forall ms: seq<Member>, blanks: nat, i: nat :: HoldsArchive(disk.Content(), ms, blanks) && First(ms, i) && ms[i].name == Str(filename) ==>
      && n == (if offset >= |ms[i].content| then 0 else Min(size, |ms[i].content| - offset))
      && forall k :: 0 <= k < n ==> buf[k] == ms[i].content[offset + k]
    ensures forall ms: seq<Member>, blanks: nat :: HoldsArchive(disk.Content(), ms, blanks) && (forall i :: 0 <= i < |ms| ==> ms[i].name != Str(filename)) ==>
      n == 0
  {
    n := ReadData(disk, filename, buf, offset, size);
    hide *;
    var data := Data(disk.Content(), Str(filename), offset, size);
    assert forall k :: 0 <= k < n ==> buf[..][k] == data[k];
    forall ms: seq<Member>, blanks: nat, i: nat | HoldsArchive(disk.Content(), ms, blanks) && First(ms, i) && ms[i].name == Str(filename)
      ensures i < |ms| && n == (if offset >= |ms[i].content| then 0 else Min(size, |ms[i].content| - offset))
      ensures forall k :: 0 <= k < n ==> data[k] == ms[i].content[offset + k]
    {
      HeldMember(disk.Content(), ms, blanks, i, offset, size);
    }
    forall ms: seq<Member>, blanks: nat | HoldsArchive(disk.Content(), ms, blanks) && (forall i :: 0 <= i < |ms| ==> ms[i].name != Str(filename))
      ensures n == 0
    {
      HeldNobody(disk.Content(), ms, blanks, Str(filename), offset, size);
    }
  }

  method ReadData(disk: Ramdisk, filename: seq<byte>, buf: array<byte>, offset: nat, size: nat) returns (n: nat)
    requires disk.Valid() && Readable(disk.Content(), 0) && 0 in filename && buf != disk.memory
    requires offset + size < WORD64 && |Data(disk.Content(), Str(filename), offset, size)| <= buf.Length
    modifies buf
    ensures n == |Data(disk.Content(), Str(filename), offset, size)|
    ensures buf[..] == Data(disk.Content(), Str(filename), offset, size) + old(buf[n..])
  {
    hide Readable, Find, LengthAt, Clip;
    var found, cursor, filelen := Search(disk, filename);
    if !found {
      assert buf[..] == [] + buf[0..];
      return 0;
    }
    n := ReadFound(disk, buf, cursor, filelen, offset, size);
  }

  lemma ClipBeyond(disk: seq<byte>, c: nat, filelen: nat, offset: nat, size: nat)
    ensures offset >= filelen ==> Clip(disk, c, filelen, offset, size) == []
  {
  }

  lemma ClipWithin(disk: seq<byte>, c: nat, filelen: nat, offset: nat, size: nat)
    requires offset < filelen && offset + size < WORD64
    ensures var n := if (offset + size) % WORD64 > filelen then filelen - offset else size;
      n <= filelen - offset && Clip(disk, c, filelen, offset, size) == Slice(disk, c + BLOCK + offset, n)
  {
  }
}

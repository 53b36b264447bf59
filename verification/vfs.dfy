/** The mount table: a path goes to the first file system mounted on a prefix of it. */
module VirtualFiles {
  import opened Options
  import opened Kstring
  import opened Ramdisks
  import opened TarArchive
  import Tarfs

  const MAX_ENTRIES: nat := 64
  const PATH_SIZE: nat := 256

  datatype Entry = Entry(path: seq<byte>, pathLen: nat, fs: Ramdisk?)

  predicate Mounted(e: Entry) {
    |e.path| == PATH_SIZE && 0 in e.path && e.pathLen == |Str(e.path)| && e.fs != null && e.fs.Valid()
  }

  /** The first entry whose path is a prefix of the name, |es| if there is none. */
  function FirstMount(es: seq<Entry>, name: seq<byte>): (i: nat)
    ensures i <= |es|
    ensures i < |es| ==> Str(es[i].path) <= name
    ensures forall k :: 0 <= k < i ==> !(Str(es[k].path) <= name)
  {
    if es == [] || Str(es[0].path) <= name then 0 else 1 + FirstMount(es[1..], name)
  }

  lemma {:induction false} FirstMountIs(es: seq<Entry>, name: seq<byte>, i: nat)
    requires i <= |es| && (i < |es| ==> Str(es[i].path) <= name)
    requires forall k :: 0 <= k < i ==> !(Str(es[k].path) <= name)
    ensures FirstMount(es, name) == i
    decreases i
  {
    if i == 0 {
    } else {
      assert !(Str(es[0].path) <= name);
      FirstMountIs(es[1..], name, i - 1);
    }
  }

  lemma {:induction false} StrSuffix(s: seq<byte>, n: nat)
    requires 0 in s && n <= |Str(s)|
    ensures 0 in s[n..] && Str(s[n..]) == Str(s)[n..]
    decreases n
  {
    if n == 0 {
      assert s[0..] == s;
    } else {
      assert s[1..][n - 1..] == s[n..];
      StrSuffix(s[1..], n - 1);
    }
  }

  // ------------------------------------------------------------- a tree of archives

  /** What a mounted archive is to its users. */
  datatype Volume = Volume(prefix: seq<byte>, members: seq<Member>, blanks: nat)

  predicate Sound(v: Volume) {
    (forall i :: 0 <= i < |v.members| ==> Proper(v.members[i])) && Fits(v.members, v.blanks)
  }

  /** The file with a path: in the first volume whose prefix starts the path, the first
      member with the rest of the path as its name. */
  function FileAt(vs: seq<Volume>, path: seq<byte>): Option<Member> {
    if vs == [] then None
    else if vs[0].prefix <= path then Lookup(vs[0].members, path[|vs[0].prefix|..])
    else FileAt(vs[1..], path)
  }

  /** Volume i is the first whose prefix starts the path. */
  predicate FirstVolume(vs: seq<Volume>, i: nat, path: seq<byte>) {
    i < |vs| && vs[i].prefix <= path && forall j :: 0 <= j < i ==> !(vs[j].prefix <= path)
  }

  /** The file with a path is member k of volume i exactly if volume i is the first whose
      prefix starts the path and k its first member with the rest of the path as name. */
  lemma FileAtMeaning(vs: seq<Volume>, path: seq<byte>, i: nat, k: nat)
    requires FirstVolume(vs, i, path)
    ensures First(vs[i].members, k) && path == vs[i].prefix + vs[i].members[k].name ==>
      FileAt(vs, path) == Some(vs[i].members[k])
    ensures (forall k :: 0 <= k < |vs[i].members| ==> path != vs[i].prefix + vs[i].members[k].name) <==> FileAt(vs, path) == None
  {
    FileAtVolume(vs, path, i);
    var v, rest := vs[i], path[|vs[i].prefix|..];
    assert path == v.prefix + rest;
    LookupIff(v.members, rest);
    forall k | 0 <= k < |v.members|
      ensures path == v.prefix + v.members[k].name <==> v.members[k].name == rest
    {
      if path == v.prefix + v.members[k].name {
        assert path[|v.prefix|..] == v.members[k].name;
      }
    }
    if First(v.members, k) && path == v.prefix + v.members[k].name {
      LookupFirst(v.members, k);
    }
  }

  lemma {:induction false} FileAtVolume(vs: seq<Volume>, path: seq<byte>, i: nat)
    requires FirstVolume(vs, i, path)
    ensures FileAt(vs, path) == Lookup(vs[i].members, path[|vs[i].prefix|..])
    decreases i
  {
    if i > 0 {
      assert !(vs[0].prefix <= path);
      assert forall j :: 0 <= j < i - 1 ==> vs[1..][j] == vs[j + 1];
      FileAtVolume(vs[1..], path, i - 1);
    }
  }

  /** Where no prefix starts the path there is no file. */
  lemma {:induction false} NoVolume(vs: seq<Volume>, path: seq<byte>)
    requires forall j :: 0 <= j < |vs| ==> !(vs[j].prefix <= path)
    ensures FileAt(vs, path) == None
  {
    if vs == [] {
    } else {
      assert !(vs[0].prefix <= path);
      NoVolume(vs[1..], path);
    }
  }

  /** Table entry i is the mount of volume i. */
  predicate Holds(es: seq<Entry>, vs: seq<Volume>) {
    |es| == |vs| && forall i :: 0 <= i < |es| ==> Str(es[i].path) == vs[i].prefix
  }

  lemma {:induction false} FileByMount(es: seq<Entry>, vs: seq<Volume>, path: seq<byte>)
    requires Holds(es, vs)
    ensures var i := FirstMount(es, path);
      FileAt(vs, path) == if i == |vs| then None else Lookup(vs[i].members, path[|vs[i].prefix|..])
    decreases |es|
  {
    if es == [] {
    } else {
      assert Str(es[0].path) == vs[0].prefix;
      if !(vs[0].prefix <= path) {
        FileByMount(es[1..], vs[1..], path);
      }
    }
  }

  function Content(vs: seq<Volume>, path: seq<byte>, offset: nat, size: nat): seq<byte> {
    match FileAt(vs, path) { case None => [] case Some(m) => Slice(m.content, offset, size) }
  }

  /** The path is that of a mount, whose archive ends in a blank block. */
  predicate MountPoint(es: seq<Entry>, vs: seq<Volume>, path: seq<byte>) {
    var i := FirstMount(es, path);
    i < |vs| && vs[i].prefix == path && vs[i].blanks > 0
  }

  function Length(es: seq<Entry>, vs: seq<Volume>, path: seq<byte>): Option<nat> {
    if MountPoint(es, vs, path) then Some(0)
    else match FileAt(vs, path) { case None => None case Some(m) => Some(|m.content|) }
  }

  /** Looking the rest of a path up on the mounted disk is looking the path up in the
      volumes; only a mount's own path is taken for an empty file. */
  lemma VolumeRefines(es: seq<Entry>, vs: seq<Volume>, path: seq<byte>, offset: nat, size: nat)
    requires Holds(es, vs) && FirstMount(es, path) < |es| && Sound(vs[FirstMount(es, path)])
    ensures var v := vs[FirstMount(es, path)]; var disk, rest := Disk(v.members, v.blanks), path[|v.prefix|..];
      && Readable(disk, 0)
      && Data(disk, rest, offset, size) == Content(vs, path, offset, size)
      && Stat(disk, rest) == Length(es, vs, path)
  {
    FileByMount(es, vs, path);
    var v := vs[FirstMount(es, path)];
    var rest := path[|v.prefix|..];
    assert Sound(v) && v.prefix == Str(es[FirstMount(es, path)].path) <= path;
    assert rest == [] <==> v.prefix == path;
    hide Disk, Readable, Data, Stat, Lookup, Slice, FileAt, Fits;
    DataIsSlice(v.members, v.blanks, rest, offset, size);
    StatIsLookup(v.members, v.blanks, rest);
    if rest == [] {
      NoEmptyName(v.members);
    }
  }

  /** Where a name leads: a disk, and the name of a file on it. */
  datatype Place = Place(fs: Ramdisk, rest: seq<byte>) {
    ghost predicate Fits(buf: array<byte>, offset: nat, size: nat)
      reads fs.memory
    {
      buf != fs.memory && Readable(fs.Content(), 0) && |Data(fs.Content(), rest, offset, size)| <= buf.Length
    }

    ghost predicate Delivered(buf: array<byte>, offset: nat, size: nat, n: nat, was: seq<byte>)
      reads fs.memory, buf
    {
      && Readable(fs.Content(), 0) && n == |Data(fs.Content(), rest, offset, size)| && n <= |was|
      && buf[..] == Data(fs.Content(), rest, offset, size) + was[n..]
    }
  }

  class Vfs {
    const entries: array<Entry>
    var count: nat

    ghost predicate Valid()
      reads this, entries
    {
      entries.Length == MAX_ENTRIES && count <= MAX_ENTRIES && forall i :: 0 <= i < count ==> Mounted(entries[i])
    }

    ghost function Mounts(): seq<Entry>
      requires Valid()
      reads this, entries
    {
      entries[..count]
    }

    constructor ()
      ensures Valid() && Mounts() == [] && fresh(entries)
    {
      entries := new Entry[MAX_ENTRIES];
      count := 0;
    }

    /** A new mount comes last; its path is cut off after 255 bytes. */
    method Mount(point: seq<byte>, fs: Ramdisk) returns (ok: bool)
      requires Valid() && 0 in point && fs.Valid()
      modifies this, entries
      ensures Valid() && (ok <==> |old(Mounts())| < MAX_ENTRIES)
      ensures !ok ==> Mounts() == old(Mounts())
      ensures ok ==>
        && |Mounts()| == |old(Mounts())| + 1 && Mounts()[..|old(Mounts())|] == old(Mounts())
        && Str(Mounts()[|old(Mounts())|].path) == Prefix(Str(point), PATH_SIZE - 1)
        && Mounts()[|old(Mounts())|].fs == fs
    {
      if count >= MAX_ENTRIES {
        return false;
      }
      var path := new byte[PATH_SIZE];
      var len := Kstrncpy(path, point, PATH_SIZE);
      StrFrom(path[..], len);
      assert Str(path[..]) == Prefix(Str(point), PATH_SIZE - 1);
      entries[count] := Entry(path[..], len, fs);
      count := count + 1;
      ok := true;
    }

    method Find(filename: seq<byte>) returns (i: nat)
      requires Valid() && 0 in filename
      ensures i == FirstMount(Mounts(), Str(filename))
    {
      i := 0;
      while i < count
        invariant i <= count
        invariant forall k :: 0 <= k < i ==> !(Str(Mounts()[k].path) <= Str(filename))
      {
        var e := entries[i];
        var d := Kstrncmp(e.path, filename, e.pathLen);
        ComparePrefix(Str(e.path), Str(filename));
        if d == 0 {
          break;
        }
        i := i + 1;
      }
      FirstMountIs(Mounts(), Str(filename), i);
    }

    /** The file system a name leads to, and the rest of the name. */
    ghost function Target(name: seq<byte>): Option<Place>
      requires Valid()
      reads this, entries
    {
      var i := FirstMount(Mounts(), name);
      if i == |Mounts()| then None
      else
        assert Mounted(Mounts()[i]);
        Some(Place(Mounts()[i].fs, name[|Str(Mounts()[i].path)|..]))
    }

    /** The memories of the mounted disks. */
    ghost function Memories(): set<array<byte>>
      reads this, entries
    {
      set i | 0 <= i < count && i < entries.Length && entries[i].fs != null :: entries[i].fs.memory
    }

    /** The mounted disks hold the archives of the volumes. */
    ghost predicate Mirrors(vs: seq<Volume>)
      requires Valid()
      reads this, entries, Memories()
    {
      && Holds(Mounts(), vs)
      && forall i :: 0 <= i < |vs| ==>
           Mounted(Mounts()[i]) && Sound(vs[i]) && Mounts()[i].fs.Content() == Disk(vs[i].members, vs[i].blanks)
    }

    /** Where a name leads then: to its file in the volumes. */
    lemma Mirrored(vs: seq<Volume>, name: seq<byte>, offset: nat, size: nat)
      requires Valid() && Mirrors(vs)
      ensures Target(name).None? ==> Content(vs, name, offset, size) == [] && Length(Mounts(), vs, name) == None
      ensures var t := Target(name); t.Some? ==>
        && Readable(t.value.fs.Content(), 0)
        && Data(t.value.fs.Content(), t.value.rest, offset, size) == Content(vs, name, offset, size)
        && Stat(t.value.fs.Content(), t.value.rest) == Length(Mounts(), vs, name)
    {
      FileByMount(Mounts(), vs, name);
      if Target(name).Some? {
        VolumeRefines(Mounts(), vs, name, offset, size);
      }
    }

    /** find, and the pointer behind the mount's path. */
    method Resolve(filename: seq<byte>) returns (fs: Ramdisk?, subpath: seq<byte>)
      requires Valid() && 0 in filename
      ensures fs == null <==> Target(Str(filename)).None?
      ensures fs != null ==> fs.Valid() && 0 in subpath && Target(Str(filename)) == Some(Place(fs, Str(subpath)))
    {
      var i := Find(filename);
      if i == count {
        return null, [];
      }
      var e := entries[i];
      assert Mounted(e) && e == Mounts()[i];
      StrSuffix(filename, e.pathLen);
      fs, subpath := e.fs, filename[e.pathLen..];
    }

    method Fstat(filename: seq<byte>) returns (ok: bool, filelen: nat)
      requires Valid() && 0 in filename
      requires var t := Target(Str(filename)); t.Some? ==> Readable(t.value.fs.Content(), 0)
      ensures var t := Target(Str(filename));
        (if ok then Some(filelen) else None) == if t.None? then None else Stat(t.value.fs.Content(), t.value.rest)
      ensures forall vs :: Mirrors(vs) ==> Length(Mounts(), vs, Str(filename)) == if ok then Some(filelen) else None
    {
      hide Readable, Stat, Length, Mirrors;
      var fs, subpath := Resolve(filename);
      ok, filelen := false, 0;
      if fs != null {
        ok, filelen := Tarfs.Fstat(fs, subpath);
      }
      forall vs | Mirrors(vs)
        ensures fs == null ==> Length(Mounts(), vs, Str(filename)) == None
        ensures fs != null ==> Length(Mounts(), vs, Str(filename)) == Stat(fs.Content(), Str(subpath))
      {
        Mirrored(vs, Str(filename), 0, 0);
      }
    }

    method Read(filename: seq<byte>, buf: array<byte>, offset: nat, size: nat) returns (n: nat)
      requires Valid() && 0 in filename && offset + size < WORD64
      requires var t := Target(Str(filename)); t.Some? ==> t.value.Fits(buf, offset, size)
      modifies buf
      ensures Valid() && Target(Str(filename)) == old(Target(Str(filename)))
      ensures var t := Target(Str(filename));
        if t.None? then n == 0 && buf[..] == old(buf[..]) else t.value.Delivered(buf, offset, size, n, old(buf[..]))
      ensures forall vs :: old(Mirrors(vs)) ==>
        n == |Content(vs, Str(filename), offset, size)| && buf[..] == Content(vs, Str(filename), offset, size) + old(buf[n..])
    {
      hide Readable, Data, Content, Mirrors;
      forall vs | Mirrors(vs)
        ensures var t := Target(Str(filename));
          Content(vs, Str(filename), offset, size) == if t.None? then [] else Data(t.value.fs.Content(), t.value.rest, offset, size)
      {
        Mirrored(vs, Str(filename), offset, size);
      }
      var fs, subpath := Resolve(filename);
      if fs == null {
        return 0;
      }
      ghost var was, place := buf[..], Place(fs, Str(subpath));
      n := Tarfs.Read(fs, subpath, buf, offset, size);
      assert old(buf[n..]) == was[n..];
      assert place.Delivered(buf, offset, size, n, was);
    }
  }
}

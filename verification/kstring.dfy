/** The kernel's C string and memory routines on byte buffers.  Buffers that are only
    read are sequences, buffers that are written are arrays. */
module Kstring {

  type byte = b: nat | b < 256

  /** The C string at the start of a buffer: what precedes the first NUL. */
  function Str(s: seq<byte>): (r: seq<byte>)
    ensures |r| <= |s| && r == s[..|r|] && 0 !in r
    ensures |r| < |s| ==> s[|r|] == 0
  {
    if s == [] || s[0] == 0 then [] else [s[0]] + Str(s[1..])
  }

  /** char is signed on this machine. */
  function Signed(b: byte): int {
    if b < 128 then b else b - 256
  }

  function Compare(a: seq<byte>, b: seq<byte>): int {
    if a != [] && b != [] then
      if Signed(a[0]) != Signed(b[0]) then Signed(a[0]) - Signed(b[0]) else Compare(a[1..], b[1..])
    else if a != [] then -1
    else if b != [] then 1
    else 0
  }

  function Min(x: nat, y: nat): nat { if x < y then x else y }

  function Prefix(s: seq<byte>, n: nat): seq<byte> {
    s[..Min(n, |s|)]
  }

  // ------------------------------------------------------------------- the order

  /** Zero exactly on equal strings. */
  lemma {:induction false} CompareEqual(a: seq<byte>, b: seq<byte>)
    ensures Compare(a, b) == 0 <==> a == b
    decreases |a|
  {
    if a == [] || b == [] {
    } else {
      CompareEqual(a[1..], b[1..]);
      assert a == [a[0]] + a[1..] && b == [b[0]] + b[1..];
    }
  }

  lemma {:induction false} CompareAntisymmetric(a: seq<byte>, b: seq<byte>)
    ensures Compare(a, b) < 0 <==> Compare(b, a) > 0
    decreases |a|
  {
    if a == [] || b == [] {
    } else {
      CompareAntisymmetric(a[1..], b[1..]);
    }
  }

  lemma {:induction false} CompareTransitive(a: seq<byte>, b: seq<byte>, c: seq<byte>)
    requires Compare(a, b) <= 0 && Compare(b, c) <= 0
    ensures Compare(a, c) <= 0
    decreases |a|
  {
    if a != [] && b != [] && c != [] && Signed(a[0]) == Signed(b[0]) == Signed(c[0]) {
      CompareTransitive(a[1..], b[1..], c[1..]);
    }
  }

  /** The end of a string ranks above every character: a string sorts behind its own
      extensions, the other way round than the standard strcmp has it. */
  lemma {:induction false} PrefixSortsAfter(a: seq<byte>, b: seq<byte>)
    requires b != []
    ensures Compare(a, a + b) > 0
    decreases |a|
  {
    if a == [] {
    } else {
      assert (a + b)[1..] == a[1..] + b;
      PrefixSortsAfter(a[1..], b);
    }
  }

  /** The first position where two strings differ decides, by its characters as signed
      numbers. */
  lemma {:induction false} CompareAtDifference(a: seq<byte>, b: seq<byte>, i: nat)
    requires i < |a| && i < |b| && a[..i] == b[..i] && a[i] != b[i]
    ensures Compare(a, b) == a[i] as int - b[i] as int - (if a[i] < 128 then 0 else 256) + (if b[i] < 128 then 0 else 256)
    decreases i
  {
    if i == 0 {
    } else {
      assert a[0] == a[..i][0] == b[..i][0] == b[0];
      assert a[1..][..i - 1] == a[..i][1..] && b[1..][..i - 1] == b[..i][1..];
      CompareAtDifference(a[1..], b[1..], i - 1);
    }
  }

  /** Comparing the first |p| characters against p tells whether p is a prefix. */
  lemma ComparePrefix(p: seq<byte>, s: seq<byte>)
    ensures Compare(Prefix(p, |p|), Prefix(s, |p|)) == 0 <==> p <= s
  {
    CompareEqual(p, Prefix(s, |p|));
    assert Prefix(p, |p|) == p;
  }

  // ----------------------------------------------------------------- the routines

  lemma StrStep(s: seq<byte>, i: nat)
    requires i < |s|
    ensures Str(s[i..]) == if s[i] == 0 then [] else [s[i]] + Str(s[i + 1..])
  {
    assert s[i..][1..] == s[i + 1..];
  }

  /** The pointers a and b advance together. */
  method Kstrcmp(a: seq<byte>, b: seq<byte>) returns (d: int)
    requires 0 in a && 0 in b
    ensures d == Compare(Str(a), Str(b))
  {
    var p, q := a, b;
    while p[0] != 0 && q[0] != 0
      invariant 0 in p && 0 in q && Compare(Str(a), Str(b)) == Compare(Str(p), Str(q))
      decreases |p|
    {
      d := Signed(p[0]) - Signed(q[0]);
      if d != 0 {
        return;
      }
      p, q := p[1..], q[1..];
    }
    if p[0] != 0 {
      return -1;
    }
    if q[0] != 0 {
      return 1;
    }
    d := 0;
  }

  lemma PrefixStep(s: seq<byte>, n: nat)
    requires s != [] && n > 0
    ensures Prefix(Str(s), n) == if s[0] == 0 then [] else [s[0]] + Prefix(Str(s[1..]), n - 1)
  {
  }

  /** What one step of the comparison of n characters does. */
  lemma CompareStep(p: seq<byte>, q: seq<byte>, n: nat)
    requires p != [] && q != [] && n > 0
    ensures Compare(Prefix(Str(p), n), Prefix(Str(q), n)) ==
      if p[0] != 0 && q[0] != 0 then
        if Signed(p[0]) != Signed(q[0]) then Signed(p[0]) - Signed(q[0])
        else Compare(Prefix(Str(p[1..]), n - 1), Prefix(Str(q[1..]), n - 1))
      else if p[0] != 0 then -1 else if q[0] != 0 then 1 else 0
  {
    PrefixStep(p, n);
    PrefixStep(q, n);
    hide Prefix, Str;
  }

  /** Comparing n characters is comparing the strings cut off after n characters. */
  method Kstrncmp(a: seq<byte>, b: seq<byte>, n: nat) returns (d: int)
    requires 0 in a || n <= |a|
    requires 0 in b || n <= |b|
    ensures d == Compare(Prefix(Str(a), n), Prefix(Str(b), n))
  {
    if n == 0 {
      return 0;
    }
    var p, q, m := a, b, n;
    hide Prefix, Str, Compare;
    CompareNothing(a, b);
    while p[0] != 0 && q[0] != 0
      invariant m > 0 && p != [] && q != [] && (0 in p || m <= |p|) && (0 in q || m <= |q|)
      invariant Compare(Prefix(Str(a), n), Prefix(Str(b), n)) == Compare(Prefix(Str(p), m), Prefix(Str(q), m))
      decreases m
    {
      CompareStep(p, q, m);
      d := Signed(p[0]) - Signed(q[0]);
      if d != 0 {
        return;
      }
      m := m - 1;
      if m == 0 {
        CompareNothing(p[1..], q[1..]);
        return 0;
      }
      p, q := p[1..], q[1..];
    }
    CompareStep(p, q, m);
    if p[0] != 0 {
      return -1;
    }
    if q[0] != 0 {
      return 1;
    }
    d := 0;
  }

  lemma CompareNothing(p: seq<byte>, q: seq<byte>)
    ensures Compare(Prefix(Str(p), 0), Prefix(Str(q), 0)) == 0
  {
  }

  method Kstrlen(s: seq<byte>) returns (count: nat)
    requires 0 in s
    ensures count == |Str(s)|
  {
    count := 0;
    assert s[0..] == s;
    while s[count] != 0
      invariant count < |s| && 0 in s[count..] && |Str(s)| == count + |Str(s[count..])|
      decreases |s| - count
    {
      StrStep(s, count);
      assert s[count..][1..] == s[count + 1..];
      count := count + 1;
    }
    StrStep(s, count);
  }

  lemma {:induction false} StrFrom(s: seq<byte>, n: nat)
    requires n <= |s| && forall k :: 0 <= k < n ==> s[k] != 0
    ensures n <= |Str(s)| && (n < |s| && s[n] == 0 ==> |Str(s)| == n)
    decreases n
  {
    if n == 0 {
    } else {
      StrFrom(s[1..], n - 1);
    }
  }

  /** At most deslen - 1 characters are copied, and a NUL behind them. */
  method Kstrncpy(des: array<byte>, src: seq<byte>, deslen: nat) returns (copied: nat)
    requires deslen <= des.Length && (0 in src || deslen <= |src| + 1)
    modifies des
    ensures deslen == 0 ==> copied == 0 && des[..] == old(des[..])
    ensures deslen > 0 ==>
      && copied == Min(|Str(src)|, deslen - 1)
      && (forall k :: 0 <= k < copied ==> des[k] == Str(src)[k])
      && des[copied] == 0
      && (forall k :: copied < k < des.Length ==> des[k] == old(des[k]))
  {
    copied := 0;
    if deslen == 0 {
      return;
    }
    while true
      invariant copied < deslen && copied <= |src| && (0 in src[copied..] || deslen <= |src| + 1)
      invariant forall k :: 0 <= k < copied ==> des[k] == src[k] != 0
      invariant forall k :: copied <= k < des.Length ==> des[k] == old(des[k])
      decreases deslen - copied
    {
      StrFrom(src, copied);
      if copied + 1 >= deslen {
        des[copied] := 0;
        return;
      }
      var c := src[copied];
      des[copied] := c;
      if c == 0 {
        return;
      }
      copied := copied + 1;
    }
  }

  method Kmemcpy(des: array<byte>, at: nat, src: seq<byte>, from: nat, len: nat) returns (n: nat)
    requires at + len <= des.Length && from + len <= |src|
    modifies des
    ensures n == len
    ensures des[..] == old(des[..at]) + src[from..from + len] + old(des[at + len..])
  {
    for i := 0 to len
      invariant des[..at] == old(des[..at]) && des[at + i..] == old(des[at + i..])
      invariant des[at..at + i] == src[from..from + i]
    {
      des[at + i] := src[from + i];
    }
    assert des[..] == des[..at] + des[at..at + len] + des[at + len..];
    n := len;
  }

  method Kmemset(des: array<byte>, at: nat, value: byte, len: nat)
    requires at + len <= des.Length
    modifies des
    ensures forall k :: 0 <= k < des.Length ==> des[k] == if at <= k < at + len then value else old(des[k])
  {
    for i := 0 to len
      invariant forall k :: 0 <= k < des.Length ==> des[k] == if at <= k < at + i then value else old(des[k])
    {
      des[at + i] := value;
    }
  }
}

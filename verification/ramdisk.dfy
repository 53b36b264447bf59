/** A disk in memory, read and written in clamped slices. */
module Ramdisks {
  import opened Kstring

  const WORD64: nat := 0x1_0000_0000_0000_0000
  const WORD32: nat := 0x1_0000_0000

  /** The bytes [offset, min(offset + size, length)). */
  function Slice(content: seq<byte>, offset: nat, size: nat): (r: seq<byte>)
    ensures offset <= |content| ==> |r| == Min(size, |content| - offset)
  {
    if offset >= |content| then [] else content[offset..Min(offset + size, |content|)]
  }

  lemma SliceBytes(content: seq<byte>, offset: nat, size: nat)
    ensures var r := Slice(content, offset, size);
      && |r| == (if offset >= |content| then 0 else if offset + size > |content| then |content| - offset else size)
      && forall k :: 0 <= k < |r| ==> r[k] == content[offset + k]
  {
  }

  /** The number of bytes the driver copies, as it computes it. */
  function Clamped(length: nat, offset: nat, size: nat): nat
    requires offset < length
  {
    if (offset + size) % WORD64 > length then length - offset else size
  }

  /** The clamp is right exactly when the sum does not wrap. */
  lemma ClampedIff(length: nat, offset: nat, size: nat)
    requires offset < length < WORD64 && size < WORD64
    ensures Clamped(length, offset, size) == Min(size, length - offset) <==> offset + size < WORD64
  {
  }

  /** A size with the wrap is not clamped at all. */
  lemma ClampWraps()
    ensures Clamped(512, 1, WORD64 - 1) == WORD64 - 1 && Min(WORD64 - 1, 512 - 1) == 511
  {
  }

  /** The byte count as kmemcpy's 32-bit parameter. */
  function Truncated(n: nat): (r: nat)
    ensures n < WORD32 ==> r == n
  {
    n % WORD32
  }

  lemma SliceLength(content: seq<byte>, offset: nat, size: nat)
    requires offset < |content| < WORD64 && offset + size < WORD64
    ensures Clamped(|content|, offset, size) == |Slice(content, offset, size)| <= |content| - offset
    ensures Slice(content, offset, size) == content[offset..offset + Clamped(|content|, offset, size)]
  {
    ClampedIff(|content|, offset, size);
  }

  /** Consecutive reads deliver what one read of their total size would. */
  lemma SlicesJoin(content: seq<byte>, offset: nat, n: nat, m: nat)
    ensures Slice(content, offset, n) + Slice(content, offset + n, m) == Slice(content, offset, n + m)
  {
  }

  function Total(sizes: seq<nat>): nat {
    if sizes == [] then 0 else sizes[0] + Total(sizes[1..])
  }

  /** Reading on with one size after the other. */
  function Chunks(content: seq<byte>, offset: nat, sizes: seq<nat>): seq<byte>
    decreases |sizes|
  {
    if sizes == [] then [] else Slice(content, offset, sizes[0]) + Chunks(content, offset + sizes[0], sizes[1..])
  }

  lemma SliceAll(content: seq<byte>, n: nat)
    ensures n >= |content| ==> Slice(content, 0, n) == content
    ensures forall offset: nat :: Slice(content, offset, 0) == []
  {
  }

  /** However a reader splits its reads, what it gets is the content from its offset on. */
  lemma {:induction false} ChunksJoin(content: seq<byte>, offset: nat, sizes: seq<nat>)
    ensures Chunks(content, offset, sizes) == Slice(content, offset, Total(sizes))
    ensures offset == 0 && Total(sizes) >= |content| ==> Chunks(content, offset, sizes) == content
    decreases |sizes|
  {
    hide Slice;
    SliceAll(content, Total(sizes));
    if sizes == [] {
    } else {
      ChunksJoin(content, offset + sizes[0], sizes[1..]);
      SlicesJoin(content, offset, sizes[0], Total(sizes[1..]));
    }
  }

  /** The content after a write. */
  function Written(content: seq<byte>, offset: nat, data: seq<byte>): (r: seq<byte>)
    ensures |r| == |content|
  {
    if offset >= |content| then content
    else
      var n := Min(|data|, |content| - offset);
      content[..offset] + data[..n] + content[offset + n..]
  }

  /** What was written is read back, and nothing else has changed. */
  lemma ReadAfterWrite(content: seq<byte>, offset: nat, data: seq<byte>)
    ensures var w := Written(content, offset, data);
      && Slice(w, offset, |data|) == data[..|Slice(content, offset, |data|)|]
      && (forall k :: 0 <= k < |content| && !(offset <= k < offset + |data|) ==> w[k] == content[k])
  {
    if offset < |content| {
      var n := Min(|data|, |content| - offset);
      Middle(content[..offset], data[..n], content[offset + n..]);
      assert |Slice(content, offset, |data|)| == n;
    }
  }

  lemma Middle(a: seq<byte>, b: seq<byte>, c: seq<byte>)
    ensures (a + b + c)[|a|..|a| + |b|] == b
  {
  }

  class Ramdisk {
    const memory: array<byte>

    /** ramdisk_open; the size of the memory is a 32-bit size_t. */
    constructor (memory: array<byte>)
      requires memory.Length < WORD32
      ensures this.memory == memory
    {
      this.memory := memory;
    }

    predicate Valid() { memory.Length < WORD32 }

    function Disksize(): nat { memory.Length }

    ghost function Content(): seq<byte>
      reads memory
    {
      memory[..]
    }

    /** buf has room from at on for what is read. */
    method Read(buf: array<byte>, at: nat, offset: nat, size: nat) returns (n: nat)
      requires Valid() && (offset < memory.Length ==> offset + size < WORD64) && buf != memory
      requires at + |Slice(Content(), offset, size)| <= buf.Length
      modifies buf
      ensures n == |Slice(Content(), offset, size)|
      ensures buf[..] == old(buf[..at]) + Slice(Content(), offset, size) + old(buf[at + n..])
    {
      if offset >= memory.Length {
        assert buf[..] == buf[..at] + [] + buf[at..];
        return 0;
      }
      SliceLength(Content(), offset, size);
      hide Slice, Truncated;
      n := size;
      if (offset + size) % WORD64 > memory.Length {
        n := memory.Length - offset;
      }
      assert n == Clamped(memory.Length, offset, size);
      hide Clamped;
      var len := Kmemcpy(buf, at, memory[..], offset, Truncated(n));
    }

    method Write(data: seq<byte>, offset: nat, size: nat) returns (n: nat)
      requires Valid() && (offset < memory.Length ==> offset + size < WORD64) && size <= |data|
      modifies memory
      ensures Content() == Written(old(Content()), offset, data[..size])
      ensures n == |Slice(old(Content()), offset, size)|
    {
      if offset >= memory.Length {
        return 0;
      }
      SliceLength(Content(), offset, size);
      ClampedIff(memory.Length, offset, size);
      hide Slice, Truncated;
      n := size;
      if (offset + size) % WORD64 > memory.Length {
        n := memory.Length - offset;
      }
      assert n == Clamped(memory.Length, offset, size) == Min(size, memory.Length - offset);
      hide Clamped;
      var len := Kmemcpy(memory, offset, data, 0, Truncated(n));
    }
  }
}

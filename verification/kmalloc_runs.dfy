/** Whole runs of requests and releases: the heap stays tiled, and the small classes
    never take more memory than their peak use. */
module KmallocRuns {
  import opened Options
  import opened KmallocModel

  datatype Event = Request(size: nat) | GiveBack(node: nat)

  /** Only live blocks are given back, and the heap's sum does not wrap. */
  ghost predicate Enabled(a: Arena, e: Event)
    requires Listed(a)
  {
    match e
    case Request(size) => Safe(a, BlockSize(size))
    case GiveBack(node) => Live(a, node)
  }

  function Step(a: Arena, e: Event): Arena
    requires Listed(a) && (e.GiveBack? ==> e.node in a.size)
  {
    match e
    case Request(size) => Alloc(a, size).0
    case GiveBack(node) => Release(a, node)
  }

  lemma StepKeepsInv(a: Arena, e: Event)
    requires Inv(a) && Enabled(a, e)
    ensures Inv(Step(a, e))
  {
    match e
    case Request(size) => AllocKeepsInv(a, size);
    case GiveBack(node) => ReleaseKeepsInv(a, node);
  }

  ghost predicate Legal(a: Arena, es: seq<Event>)
    requires Inv(a)
    decreases |es|
  {
    es == [] || (Enabled(a, es[0]) && (StepKeepsInv(a, es[0]); Legal(Step(a, es[0]), es[1..])))
  }

  ghost function Run(a: Arena, es: seq<Event>): (r: Arena)
    requires Inv(a) && Legal(a, es)
    ensures Inv(r)
    decreases |es|
  {
    if es == [] then a
    else
      StepKeepsInv(a, es[0]);
      Run(Step(a, es[0]), es[1..])
  }

  // ---------------------------------------------------------------------- counting

  /** Blocks of class c ever carved, and those of them in use. */
  function Carved(blocks: seq<nat>, size: map<nat, nat>, c: nat): nat {
    if blocks == [] then 0
    else
      var b := blocks[|blocks| - 1];
      Carved(blocks[..|blocks| - 1], size, c) + if b in size && Class(size[b]) == c then 1 else 0
  }

  function Used(blocks: seq<nat>, size: map<nat, nat>, free: seq<nat>, c: nat): nat {
    if blocks == [] then 0
    else
      var b := blocks[|blocks| - 1];
      Used(blocks[..|blocks| - 1], size, free, c) + if b in size && Class(size[b]) == c && b !in free then 1 else 0
  }

  function CarvedIn(a: Arena, c: nat): nat {
    Carved(a.blocks, a.size, c)
  }

  function UsedIn(a: Arena, c: nat): nat
    requires c < |a.free|
  {
    Used(a.blocks, a.size, a.free[c], c)
  }

  ghost predicate Distinct(s: seq<nat>) {
    forall i, j :: 0 <= i < j < |s| ==> s[i] != s[j]
  }

  predicate FreeAt(blocks: seq<nat>, size: map<nat, nat>, free: seq<nat>, c: nat, k: nat) {
    k < |free| ==> free[k] in blocks && free[k] in size && Class(size[free[k]]) == c
  }

  /** Each free block is one of the carved blocks not in use. */
  lemma {:induction false} UsedPlusFree(blocks: seq<nat>, size: map<nat, nat>, free: seq<nat>, c: nat)
    requires Distinct(blocks) && Distinct(free)
    requires forall k: nat :: FreeAt(blocks, size, free, c, k)
    ensures Used(blocks, size, free, c) + |free| == Carved(blocks, size, c)
    decreases |blocks|
  {
    if blocks == [] {
      var first := FreeAt(blocks, size, free, c, 0);
    } else {
      var rest, b := blocks[..|blocks| - 1], blocks[|blocks| - 1];
      if b in free {
        var i :| 0 <= i < |free| && free[i] == b;
        WithoutMembers(free, i);
        assert FreeAt(blocks, size, free, c, i);
        forall k: nat
          ensures FreeAt(rest, size, Without(free, i), c, k)
        {
          if k < |free| - 1 {
            assert FreeAt(blocks, size, free, c, if k < i then k else k + 1) && Without(free, i)[k] in Without(free, i);
          }
        }
        UsedPlusFree(rest, size, Without(free, i), c);
        SameUsed(rest, size, free, Without(free, i), c);
      } else {
        assert forall k: nat :: FreeAt(blocks, size, free, c, k) ==> FreeAt(rest, size, free, c, k);
        UsedPlusFree(rest, size, free, c);
      }
    }
  }

  lemma {:induction false} SameUsed(blocks: seq<nat>, size: map<nat, nat>, free: seq<nat>, other: seq<nat>, c: nat)
    requires forall b :: b in blocks ==> (b in free <==> b in other)
    ensures Used(blocks, size, free, c) == Used(blocks, size, other, c)
    decreases |blocks|
  {
    if blocks == [] {
    } else {
      SameUsed(blocks[..|blocks| - 1], size, free, other, c);
    }
  }

  lemma {:induction false} SameCarved(blocks: seq<nat>, size: map<nat, nat>, other: map<nat, nat>, c: nat)
    requires forall b :: b in blocks ==> b in size && b in other && other[b] == size[b]
    ensures Carved(blocks, size, c) == Carved(blocks, other, c)
    decreases |blocks|
  {
    if blocks == [] {
    } else {
      SameCarved(blocks[..|blocks| - 1], size, other, c);
    }
  }

  lemma InUse(a: Arena, c: nat)
    requires Inv(a) && c <= LARGE
    ensures UsedIn(a, c) + |a.free[c]| == CarvedIn(a, c)
  {
    forall i, j | 0 <= i < j < |a.blocks|
      ensures a.blocks[i] != a.blocks[j]
    {
      BlocksApart(a, i, j);
    }
    assert forall k: nat :: FreeAt(a.blocks, a.size, a.free[c], c, k);
    UsedPlusFree(a.blocks, a.size, a.free[c], c);
  }

  /** A new block counts for its class. */
  lemma CarveCarved(a: Arena, need: nat, c: nat)
    requires Inv(a) && Carve(a, need).1.Some?
    ensures CarvedIn(Carve(a, need).0, c) == CarvedIn(a, c) + if Class(need) == c then 1 else 0
  {
    var n := Carve(a, need).0;
    CarveIsNew(a, need);
    assert n.blocks[..|n.blocks| - 1] == a.blocks;
    BlocksHeld(a);
    hide Tiled, Sorted;
    SameCarved(a.blocks, a.size, n.size, c);
  }

  lemma BlocksHeld(a: Arena)
    requires Tiled(a)
    ensures forall b :: b in a.blocks ==> b in a.size
  {
    forall b | b in a.blocks
      ensures b in a.size
    {
      var i :| 0 <= i < |a.blocks| && a.blocks[i] == b;
      assert Adjoins(a, i);
    }
  }

  /** Only a request that finds no free block changes how many there are. */
  lemma StepCarved(a: Arena, e: Event, c: nat)
    requires Inv(a) && Enabled(a, e) && c <= LARGE
    ensures CarvedIn(Step(a, e), c) == CarvedIn(a, c) +
      if e.Request? && Class(BlockSize(e.size)) == c && |Step(a, e).blocks| > |a.blocks| then 1 else 0
  {
    hide BlockSize, Class, Carved, Tiled, Choice;
    if e.Request? && |Step(a, e).blocks| > |a.blocks| {
      CarveCarved(a, BlockSize(e.size), c);
    }
  }

  function Max(x: nat, y: nat): nat { if x < y then y else x }

  /** The most blocks of class c in use at any time of the run. */
  ghost function Peak(a: Arena, es: seq<Event>, c: nat): nat
    requires Inv(a) && Legal(a, es) && c <= LARGE
    decreases |es|
  {
    if es == [] then UsedIn(a, c)
    else
      StepKeepsInv(a, es[0]);
      Max(UsedIn(a, c), Peak(Step(a, es[0]), es[1..], c))
  }

  /** A block of a small class is carved only when all are in use. */
  lemma StepPeak(a: Arena, e: Event, c: nat)
    requires Inv(a) && Enabled(a, e) && c < LARGE
    ensures Inv(Step(a, e)) && CarvedIn(Step(a, e), c) == Max(CarvedIn(a, c), UsedIn(Step(a, e), c))
  {
    StepKeepsInv(a, e);
    StepCarved(a, e, c);
    InUse(a, c);
    InUse(Step(a, e), c);
  }

  lemma {:induction false} RunPeak(a: Arena, es: seq<Event>, c: nat)
    requires Inv(a) && Legal(a, es) && c < LARGE
    ensures CarvedIn(Run(a, es), c) == Max(CarvedIn(a, c), Peak(a, es, c))
    decreases |es|
  {
    InUse(a, c);
    if es == [] {
    } else {
      StepPeak(a, es[0], c);
      RunPeak(Step(a, es[0]), es[1..], c);
      PeakAtLeast(Step(a, es[0]), es[1..], c);
    }
  }

  lemma PeakAtLeast(a: Arena, es: seq<Event>, c: nat)
    requires Inv(a) && Legal(a, es) && c <= LARGE
    ensures Peak(a, es, c) >= UsedIn(a, c)
  {
  }

  /** Small classes take no more memory than they must: the blocks ever carved are as
      many as were in use at once at some time. */
  lemma SmallClassesOptimal(start: nat, limit: nat, es: seq<Event>, c: nat)
    requires c < LARGE && Legal(Empty(start, limit), es)
    ensures CarvedIn(Run(Empty(start, limit), es), c) == Peak(Empty(start, limit), es, c)
  {
    RunPeak(Empty(start, limit), es, c);
  }

  /** Large requests: a block is carved only if every free block is too small, and
      otherwise the first that fits is unlinked and no other. */
  lemma LargeByFirstFit(a: Arena, request: nat)
    requires Inv(a) && BlockSize(request) > 1024
    ensures var need, list := BlockSize(request), a.free[3]; var (n, r) := Alloc(a, request);
      if exists k :: 0 <= k < |list| && a.size[list[k]] >= need then
        exists k :: 0 <= k < |list| && a.size[list[k]] >= need
          && (forall j :: 0 <= j < k ==> a.size[list[j]] < need)
          && r == Some(list[k]) && n == a.(free := a.free[3 := list[..k] + list[k + 1..]])
      else n.free == a.free && (r.Some? <==> (a.ptr + need) % 0x1_0000_0000 < a.limit) && (r.Some? ==> r.value == a.start + a.ptr)
  {
  }

  /** Small requests: the block freed last, if the list has one. */
  lemma SmallFromFront(a: Arena, request: nat)
    requires Inv(a) && BlockSize(request) <= 1024
    ensures var c := if BlockSize(request) == 64 then 0 else if BlockSize(request) == 512 then 1 else 2;
      a.free[c] != [] ==>
        Alloc(a, request) == (a.(free := a.free[c := a.free[c][1..]]), Some(a.free[c][0])) && a.size[a.free[c][0]] == BlockSize(request)
  {
    BlockSizeMeaning(request);
    var c := Class(BlockSize(request));
    if a.free[c] != [] {
      SizeProper(a, a.free[c][0]);
      assert Without(a.free[c], 0) == a.free[c][1..];
    }
  }

  /** Over any run from an empty heap live blocks are disjoint and inside the heap. */
  lemma LiveBlocksDisjoint(start: nat, limit: nat, es: seq<Event>, m: nat, n: nat)
    requires Legal(Empty(start, limit), es)
    requires var r := Run(Empty(start, limit), es); Live(r, m) && Live(r, n) && m != n
    ensures var r := Run(Empty(start, limit), es);
      && (m + r.size[m] <= n || n + r.size[n] <= m)
      && start <= m && m + r.size[m] <= start + r.ptr
  {
    BlocksDisjoint(Run(Empty(start, limit), es), m, n);
    RunStart(Empty(start, limit), es);
  }

  lemma {:induction false} RunStart(a: Arena, es: seq<Event>)
    requires Inv(a) && Legal(a, es)
    ensures Run(a, es).start == a.start && Run(a, es).limit == a.limit
    decreases |es|
  {
    if es == [] {
    } else {
      StepKeepsInv(a, es[0]);
      RunStart(Step(a, es[0]), es[1..]);
    }
  }
}

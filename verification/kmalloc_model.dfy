/** The kernel allocator as a function of its state: blocks carved one after the other
    from the heap, and four free lists, newest first. */
module KmallocModel {
  import opened Options

  const WORD: nat := 0x1_0000_0000
  const HEADER: nat := 16
  const LARGE: nat := 3

  /** start, limit, ptr: the heap.  size: the size in each block's header, by the
      block's address.  blocks: the addresses in the order they were carved. */
  datatype Arena = Arena(start: nat, limit: nat, ptr: nat, blocks: seq<nat>, size: map<nat, nat>, free: seq<seq<nat>>)

  /** Rounding up to 16 with room for the header, in 32 bits. */
  function Rounded(request: nat): nat {
    (request + 15 + HEADER) % WORD / 16 * 16
  }

  /** The list for a size, as kmalloc and kfree choose it. */
  function Class(size: nat): (c: nat)
    ensures c <= LARGE
  {
    if size <= 64 then 0 else if size <= 512 then 1 else if size <= 1024 then 2 else LARGE
  }

  function BlockSize(request: nat): nat {
    var r := Rounded(request);
    if r <= 64 then 64 else if r <= 512 then 512 else if r <= 1024 then 1024 else r
  }

  /** Where the first large enough node of a list is, its length if there is none. */
  function FirstFit(list: seq<nat>, size: map<nat, nat>, need: nat): (i: nat)
    requires forall k :: 0 <= k < |list| ==> list[k] in size
    ensures i <= |list|
    ensures forall k :: 0 <= k < i ==> size[list[k]] < need
    ensures i < |list| ==> need <= size[list[i]]
  {
    if list == [] || need <= size[list[0]] then 0 else 1 + FirstFit(list[1..], size, need)
  }

  function Without(list: seq<nat>, i: nat): seq<nat>
    requires i < |list|
  {
    list[..i] + list[i + 1..]
  }

  ghost predicate Listed(a: Arena) {
    |a.free| == LARGE + 1 && forall c, k :: 0 <= c <= LARGE && 0 <= k < |a.free[c]| ==> a.free[c][k] in a.size
  }

  /** Small lists serve any request of their class, the large list by first fit. */
  function Choice(a: Arena, need: nat): nat
    requires Listed(a)
  {
    if Class(need) < LARGE then 0 else FirstFit(a.free[LARGE], a.size, need)
  }

  /** heap_alloc, with its 32-bit sum. */
  function Carve(a: Arena, need: nat): (Arena, Option<nat>) {
    if (a.ptr + need) % WORD >= a.limit then (a, None)
    else
      var node := a.start + a.ptr;
      (a.(ptr := (a.ptr + need) % WORD, blocks := a.blocks + [node], size := a.size[node := need]), Some(node))
  }

  function Serve(a: Arena, need: nat): (Arena, Option<nat>)
    requires Listed(a)
  {
    var c, i := Class(need), Choice(a, need);
    if i < |a.free[c]| then
      (a.(free := a.free[c := Without(a.free[c], i)]), Some(a.free[c][i]))
    else Carve(a, need)
  }

  /** kmalloc, giving the block rather than its payload. */
  function Alloc(a: Arena, request: nat): (Arena, Option<nat>)
    requires Listed(a)
  {
    Serve(a, BlockSize(request))
  }

  /** kfree of the block. */
  function Release(a: Arena, node: nat): Arena
    requires Listed(a) && node in a.size
  {
    var c := Class(a.size[node]);
    a.(free := a.free[c := [node] + a.free[c]])
  }

  // -------------------------------------------------------------------- invariant

  /** The sizes kmalloc gives blocks. */
  predicate Proper(size: nat) {
    size == 64 || size == 512 || size == 1024 || (size > 1024 && size % 16 == 0)
  }

  function End(a: Arena, i: nat): nat
    requires i < |a.blocks| && a.blocks[i] in a.size
  {
    a.blocks[i] + a.size[a.blocks[i]]
  }

  /** Block i has a proper size and ends where the next block begins. */
  predicate Adjoins(a: Arena, i: nat)
    requires i < |a.blocks|
  {
    && a.blocks[i] in a.size && Proper(a.size[a.blocks[i]])
    && End(a, i) == if i + 1 < |a.blocks| then a.blocks[i + 1] else a.start + a.ptr
  }

  /** The heap's used part is exactly tiled by the blocks. */
  ghost predicate Tiled(a: Arena) {
    && (forall i :: 0 <= i < |a.blocks| ==> Adjoins(a, i))
    && (if a.blocks == [] then a.ptr == 0 else a.blocks[0] == a.start)
    && (forall n :: n in a.size ==> n in a.blocks)
  }

  /** The lists hold blocks of their class, each block at most once. */
  ghost predicate Sorted(a: Arena) {
    && Listed(a)
    && (forall c, k :: 0 <= c <= LARGE && 0 <= k < |a.free[c]| ==> Class(a.size[a.free[c][k]]) == c)
    && (forall c, j, k :: 0 <= c <= LARGE && 0 <= j < k < |a.free[c]| ==> a.free[c][j] != a.free[c][k])
  }

  ghost predicate Inv(a: Arena) {
    Tiled(a) && Sorted(a)
  }

  /** A block handed out and not given back. */
  predicate Live(a: Arena, n: nat) {
    n in a.size && Class(a.size[n]) < |a.free| && n !in a.free[Class(a.size[n])]
  }

  function Empty(start: nat, limit: nat): (a: Arena)
    ensures Inv(a)
  {
    Arena(start, limit, 0, [], map[], [[], [], [], []])
  }

  /** Blocks do not overlap. */
  lemma {:induction false} BlocksApart(a: Arena, i: nat, j: nat)
    requires Tiled(a) && i < j < |a.blocks|
    ensures Adjoins(a, i) && Adjoins(a, j)
    ensures End(a, i) <= a.blocks[j] < End(a, j) <= a.start + a.ptr
    decreases |a.blocks| - i
  {
    assert Adjoins(a, i) && Adjoins(a, i + 1);
    if i + 1 < j {
      BlocksApart(a, i + 1, j);
    } else {
      BlockInside(a, j);
    }
  }

  lemma {:induction false} BlockInside(a: Arena, i: nat)
    requires Tiled(a) && i < |a.blocks|
    ensures Adjoins(a, i)
    ensures a.start <= a.blocks[i] < End(a, i) <= a.start + a.ptr
    decreases |a.blocks| - i
  {
    assert Adjoins(a, i);
    BlockAbove(a, i);
    if i + 1 < |a.blocks| {
      BlockInside(a, i + 1);
    }
  }

  lemma {:induction false} BlockAbove(a: Arena, i: nat)
    requires Tiled(a) && i < |a.blocks|
    ensures a.start <= a.blocks[i]
    decreases i
  {
    if i == 0 {
    } else {
      BlockAbove(a, i - 1);
      assert Adjoins(a, i - 1);
    }
  }

  lemma SizeProper(a: Arena, n: nat)
    requires Tiled(a) && n in a.size
    ensures Proper(a.size[n])
  {
    var i :| 0 <= i < |a.blocks| && a.blocks[i] == n;
    assert Adjoins(a, i);
  }

  // ------------------------------------------------------------------- one request

  /** The two sums that must not wrap, which the code does not check. */
  predicate RequestFits(request: nat) { request + 15 + HEADER < WORD }

  predicate HeapFits(a: Arena, need: nat) { a.ptr + need < WORD }

  lemma BlockSizeMeaning(request: nat)
    ensures Proper(BlockSize(request))
    ensures BlockSize(request) >= request + HEADER <==> RequestFits(request)
    ensures Class(BlockSize(request)) == Class(Rounded(request))
  {
  }

  /** It is the smallest proper size for request and header, in 32 bits. */
  lemma BlockSizeLeast(request: nat)
    ensures var wrapped := (request + 31) % 0x1_0000_0000;
      && Proper(BlockSize(request)) && BlockSize(request) + 15 >= wrapped
      && forall size: nat :: Proper(size) && size + 15 >= wrapped ==> size >= BlockSize(request)
  {
  }

  /** The classes by their sizes. */
  lemma ClassMeaning(size: nat)
    requires Proper(size)
    ensures Class(size) == if size == 64 then 0 else if size == 512 then 1 else if size == 1024 then 2 else 3
  {
  }

  /** A new block lies above all others, so its header is not one in use. */
  lemma CarveIsNew(a: Arena, need: nat)
    requires Inv(a) && Carve(a, need).1.Some?
    ensures Carve(a, need).1.value !in a.size && Sorted(Carve(a, need).0)
    ensures forall k :: 0 <= k < |a.blocks| ==> a.blocks[k] < Carve(a, need).1.value
  {
    forall k | 0 <= k < |a.blocks|
      ensures a.blocks[k] < a.start + a.ptr
    {
      BlockInside(a, k);
    }
  }

  lemma CarveEnds(a: Arena, need: nat)
    requires Inv(a) && Carve(a, need).1.Some?
    ensures var n := Carve(a, need).0;
      && |n.blocks| == |a.blocks| + 1 && (forall k :: 0 <= k < |n.blocks| ==> n.blocks[k] in n.size)
      && (forall k :: 0 <= k < |a.blocks| ==>
            Adjoins(a, k) && n.blocks[k] == a.blocks[k] && n.size[n.blocks[k]] == a.size[a.blocks[k]])
      && n.blocks[|a.blocks|] == a.start + a.ptr && End(n, |a.blocks|) == a.start + a.ptr + need
  {
    CarveIsNew(a, need);
    var n := Carve(a, need).0;
    forall k | 0 <= k < |a.blocks|
      ensures Adjoins(a, k) && n.blocks[k] == a.blocks[k] && n.blocks[k] in n.size && n.size[n.blocks[k]] == a.size[a.blocks[k]]
    {
    }
  }

  lemma CarveAdjoins(a: Arena, need: nat, k: nat)
    requires Tiled(a) && Proper(need) && Carve(a, need).1.Some? && HeapFits(a, need)
    ensures k < |Carve(a, need).0.blocks| ==> Adjoins(Carve(a, need).0, k)
  {
    hide Inv, Sorted, Listed, Proper;
    if k < |a.blocks| {
      BlockInside(a, k);
    }
    hide Tiled;
    var n := Carve(a, need).0;
    assert k + 1 < |a.blocks| ==> n.blocks[k + 1] == a.blocks[k + 1];
    assert k < |a.blocks| ==> n.blocks[k] == a.blocks[k] && n.size[n.blocks[k]] == a.size[a.blocks[k]];
  }

  lemma CarveTiled(a: Arena, need: nat)
    requires Inv(a) && Proper(need) && Carve(a, need).1.Some? && HeapFits(a, need)
    ensures Tiled(Carve(a, need).0)
  {
    hide Sorted, Proper, Adjoins, HeapFits;
    var n := Carve(a, need).0;
    forall k | 0 <= k < |n.blocks|
      ensures Adjoins(n, k)
    {
      CarveAdjoins(a, need, k);
    }
  }

  /** Carving keeps the heap tiled exactly when its sum does not wrap. */
  lemma CarveTiledIff(a: Arena, need: nat)
    requires Inv(a) && Proper(need) && need < WORD && Carve(a, need).1.Some?
    ensures Tiled(Carve(a, need).0) <==> HeapFits(a, need)
  {
    if HeapFits(a, need) {
      CarveTiled(a, need);
    } else {
      CarveEnds(a, need);
      assert !Adjoins(Carve(a, need).0, |a.blocks|);
    }
  }

  /** What a request does to the lists: the block served was free or is new, and it
      alone stops being free. */
  lemma AllocServes(a: Arena, request: nat)
    requires Inv(a) && Alloc(a, request).1.Some?
    ensures var (n, r) := Alloc(a, request);
      && !Live(a, r.value) && Live(n, r.value)
      && Sorted(n) && n.size[r.value] >= BlockSize(request)
      && Class(n.size[r.value]) == Class(BlockSize(request))
      && (forall b :: b in a.size ==> b in n.size && n.size[b] == a.size[b])
      && (forall b :: b != r.value ==> (Live(n, b) <==> Live(a, b)))
  {
    var need := BlockSize(request);
    BlockSizeMeaning(request);
    var c, i := Class(need), Choice(a, need);
    var (n, r) := Alloc(a, request);
    if i < |a.free[c]| {
      WithoutMembers(a.free[c], i);
      SizeProper(a, a.free[c][i]);
    } else {
      CarveIsNew(a, need);
    }
  }

  /** A free block can take the request: of exactly its size, or at least that if it is large. */
  ghost predicate FreeFits(a: Arena, need: nat) {
    exists c, k :: 0 <= c < |a.free| && 0 <= k < |a.free[c]| && a.free[c][k] in a.size &&
      if need <= 1024 then a.size[a.free[c][k]] == need else a.size[a.free[c][k]] >= need
  }

  /** Exactly when a request is refused: no free block can take it, and the heap's 32-bit
      sum reaches its limit. */
  lemma AllocServedIff(a: Arena, request: nat)
    requires Inv(a)
    ensures Alloc(a, request).1.Some? <==>
      FreeFits(a, BlockSize(request)) || (a.ptr + BlockSize(request)) % 0x1_0000_0000 < a.limit
  {
    BlockSizeMeaning(request);
    FreeFitsIff(a, BlockSize(request));
  }

  lemma FreeFitsIff(a: Arena, need: nat)
    requires Inv(a) && Proper(need)
    ensures FreeFits(a, need) <==> Choice(a, need) < |a.free[Class(need)]|
  {
    var c, i := Class(need), Choice(a, need);
    if i < |a.free[c]| {
      SizeProper(a, a.free[c][i]);
      assert a.free[c][i] in a.size;
    }
    if FreeFits(a, need) {
      var d, k :| 0 <= d < |a.free| && 0 <= k < |a.free[d]| && a.free[d][k] in a.size &&
        if need <= 1024 then a.size[a.free[d][k]] == need else a.size[a.free[d][k]] >= need;
      assert d == c;
    }
  }

  /** Where a new block is: behind all others, with the heap's pointer moved behind it. */
  lemma AllocNew(a: Arena, request: nat)
    requires Inv(a) && !FreeFits(a, BlockSize(request))
    ensures var need := BlockSize(request); var end := (a.ptr + need) % 0x1_0000_0000;
      Alloc(a, request) ==
        if end < a.limit
        then (Arena(a.start, a.limit, end, a.blocks + [a.start + a.ptr], a.size[a.start + a.ptr := need], a.free), Some(a.start + a.ptr))
        else (a, None)
  {
    BlockSizeMeaning(request);
    FreeFitsIff(a, BlockSize(request));
  }

  lemma WithoutMembers(list: seq<nat>, i: nat)
    requires i < |list| && forall j, k :: 0 <= j < k < |list| ==> list[j] != list[k]
    ensures var w := Without(list, i);
      && list[i] !in w
      && (forall x :: x in w <==> x in list && x != list[i])
      && (forall j, k :: 0 <= j < k < |w| ==> w[j] != w[k])
  {
    var w := Without(list, i);
    forall x | x in list && x != list[i]
      ensures x in w
    {
      var k :| 0 <= k < |list| && list[k] == x;
      assert w[if k < i then k else k - 1] == x;
    }
  }

  /** The lists do not matter for the tiling. */
  lemma SameTiled(a: Arena, n: Arena)
    requires Tiled(a) && n == a.(free := n.free)
    ensures Tiled(n)
  {
    forall k | 0 <= k < |n.blocks|
      ensures Adjoins(n, k)
    {
      assert Adjoins(a, k);
    }
  }

  /** A free block serves the request, or the sum for a new one does not wrap. */
  ghost predicate Safe(a: Arena, need: nat)
    requires Listed(a)
  {
    Choice(a, need) < |a.free[Class(need)]| || HeapFits(a, need)
  }

  /** Such a request keeps the invariant. */
  lemma AllocKeepsInv(a: Arena, request: nat)
    requires Inv(a) && Safe(a, BlockSize(request))
    ensures Inv(Alloc(a, request).0)
  {
    var need := BlockSize(request);
    BlockSizeMeaning(request);
    if Alloc(a, request).1.Some? {
      AllocServes(a, request);
      if Choice(a, need) == |a.free[Class(need)]| {
        CarveTiledIff(a, need);
      } else {
        SameTiled(a, Alloc(a, request).0);
      }
    }
  }

  /** Giving back a live block keeps the invariant, and makes that block free. */
  lemma ReleaseKeepsInv(a: Arena, node: nat)
    requires Inv(a) && Live(a, node)
    ensures Inv(Release(a, node)) && !Live(Release(a, node), node)
    ensures forall b :: b != node ==> (Live(Release(a, node), b) <==> Live(a, b))
  {
    SameTiled(a, Release(a, node));
  }

  /** kfree puts a block where kmalloc looks first: the next request it is large enough
      for and of its class gets it back, and the state is as before. */
  lemma ReleaseThenAlloc(a: Arena, node: nat, request: nat)
    requires Inv(a) && Live(a, node)
    requires Class(BlockSize(request)) == Class(a.size[node]) && BlockSize(request) <= a.size[node]
    ensures Listed(Release(a, node)) && Alloc(Release(a, node), request) == (a, Some(node))
  {
    hide Tiled, BlockSize, Class;
    var n, c := Release(a, node), Class(a.size[node]);
    assert n.free[c][0] == node && Without(n.free[c], 0) == a.free[c];
    assert n.free[c := a.free[c]] == a.free;
  }

  /** Freeing what a request was given at the front of a list undoes the request. */
  lemma AllocThenRelease(a: Arena, request: nat)
    requires Inv(a) && |a.free[Class(BlockSize(request))]| > 0 && Choice(a, BlockSize(request)) == 0
    ensures Alloc(a, request).1.Some? && Listed(Alloc(a, request).0) && Alloc(a, request).1.value in Alloc(a, request).0.size
    ensures Release(Alloc(a, request).0, Alloc(a, request).1.value) == a
  {
    var c := Class(BlockSize(request));
    assert [a.free[c][0]] + Without(a.free[c], 0) == a.free[c];
    assert a.free[c := a.free[c]] == a.free;
  }

  // --------------------------------------------------------------------- payloads

  /** What a caller gets. */
  function Payload(node: nat): nat { node + HEADER }

  /** Any two blocks, headers included, are disjoint and inside the heap's used part. */
  lemma BlocksDisjoint(a: Arena, m: nat, n: nat)
    requires Tiled(a) && m in a.size && n in a.size && m != n
    ensures m + a.size[m] <= n || n + a.size[n] <= m
    ensures a.start <= m && m + a.size[m] <= a.start + a.ptr
  {
    var i :| 0 <= i < |a.blocks| && a.blocks[i] == m;
    var j :| 0 <= j < |a.blocks| && a.blocks[j] == n;
    BlockInside(a, i);
    if i < j {
      BlocksApart(a, i, j);
    } else {
      BlocksApart(a, j, i);
    }
  }

  lemma {:induction false} BlocksAligned(a: Arena, i: nat)
    requires Tiled(a) && i < |a.blocks| && a.start % 16 == 0
    ensures a.blocks[i] % 16 == 0
    decreases i
  {
    if i == 0 {
    } else {
      BlocksAligned(a, i - 1);
      assert Adjoins(a, i - 1);
    }
  }

  /** What kmalloc gives: aligned memory behind the block's header, as large as asked for unless the rounding
      wraps, apart from the headers and payloads of all other blocks, and not in use. */
  lemma AllocMeaning(a: Arena, request: nat, other: nat)
    requires Inv(a) && Alloc(a, request).1.Some? && Safe(a, BlockSize(request))
    ensures var (n, r) := Alloc(a, request); var node := r.value;
      && (n.start % 16 == 0 ==> Payload(node) % 16 == 0)
      && Payload(node) == node + 16
      && (RequestFits(request) ==> Payload(node) + request <= node + n.size[node])
      && (other in n.size && other != node ==> node + n.size[node] <= other || other + n.size[other] <= node)
      && (Live(a, other) ==> other != node && Live(n, other) && n.size[other] == a.size[other])
  {
    AllocServes(a, request);
    AllocKeepsInv(a, request);
    BlockSizeMeaning(request);
    hide Tiled, Sorted, Alloc;
    var (n, r) := Alloc(a, request);
    BlockAligned(n, r.value);
    if other in n.size && other != r.value {
      BlocksDisjoint(n, r.value, other);
    }
  }

  lemma BlockAligned(a: Arena, node: nat)
    requires Tiled(a) && node in a.size
    ensures a.start % 16 == 0 ==> Payload(node) % 16 == 0
  {
    var i :| 0 <= i < |a.blocks| && a.blocks[i] == node;
    if a.start % 16 == 0 {
      BlocksAligned(a, i);
    }
  }

  /** A request is served with enough memory exactly when its rounding does not wrap. */
  lemma EnoughIff(a: Arena, request: nat)
    requires request < WORD && Inv(a) && Alloc(a, request).1.Some?
    ensures var (n, r) := Alloc(a, request);
      Payload(r.value) + request <= r.value + n.size[r.value] <==> RequestFits(request)
  {
    AllocServes(a, request);
    BlockSizeMeaning(request);
    var need := BlockSize(request);
    var (n, r) := Alloc(a, request);
    if !RequestFits(request) {
      assert need == 64 && Class(n.size[r.value]) == 0;
      if Choice(a, need) < |a.free[0]| {
        SizeProper(a, r.value);
      }
    }
  }

  /** A request for nearly 4 GiB gets a block of 64 bytes. */
  lemma RoundingWraps(start: nat, limit: nat)
    requires limit > 64
    ensures var (n, r) := Alloc(Empty(start, limit), 0xFFFF_FFF0);
      r == Some(start) && n.size[start] == 64 && !RequestFits(0xFFFF_FFF0)
  {
    assert BlockSize(0xFFFF_FFF0) == 64;
  }

  /** A slightly smaller one, after a request for one byte, wraps the heap: it is
      served, and the heap's used part ends inside the first block. */
  lemma HeapWraps(start: nat, limit: nat)
    requires limit > 64
    ensures var a := Alloc(Empty(start, limit), 1).0;
      && Inv(a) && Alloc(a, 0xFFFF_FFC0).1 == Some(start + 64)
      && var n := Alloc(a, 0xFFFF_FFC0).0;
      n.ptr == 16 && !Tiled(n)
  {
    var e := Empty(start, limit);
    assert BlockSize(1) == 64 && BlockSize(0xFFFF_FFC0) == 0xFFFF_FFD0;
    AllocKeepsInv(e, 1);
    var a := Alloc(e, 1).0;
    assert a.ptr == 64 && a.free == e.free;
    hide Tiled, BlockSize, FirstFit;
    CarveTiledIff(a, 0xFFFF_FFD0);
  }
}

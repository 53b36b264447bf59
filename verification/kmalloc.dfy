/** The kernel allocator on its headers: nodes in memory, linked through their next
    words from four list heads. */
module Kmallocs {
  import opened Options
  import AddressSpace
  import opened Paging
  import opened KernelHeap
  import opened KmallocModel

  /** struct KMALLOC_FREENODE. */
  datatype Node = Node(next: nat, size: nat)

  type Nodes = map<nat, Node>

  /** Node k of a chain is linked to node k + 1, the last one to NULL. */
  predicate Link(nodes: Nodes, chain: seq<nat>, k: nat)
    requires k < |chain|
  {
    && chain[k] in nodes && (k > 0 ==> chain[k] != 0)
    && nodes[chain[k]].next == if k + 1 < |chain| then chain[k + 1] else 0
  }

  ghost predicate Linked(nodes: Nodes, chain: seq<nat>) {
    forall k :: 0 <= k < |chain| ==> Link(nodes, chain, k)
  }

  /** Unlinking the node behind position k. */
  lemma Unlink(nodes: Nodes, chain: seq<nat>, k: nat)
    requires Linked(nodes, chain) && k + 1 < |chain|
    requires forall i, j :: 0 <= i < j < |chain| ==> chain[i] != chain[j]
    ensures chain[k] in nodes && chain[k + 1] in nodes
    ensures var n := nodes[chain[k] := nodes[chain[k]].(next := nodes[chain[k + 1]].next)];
      Linked(n, chain[..k + 1] + chain[k + 2..])
  {
    assert Link(nodes, chain, k) && Link(nodes, chain, k + 1);
    var n := nodes[chain[k] := nodes[chain[k]].(next := nodes[chain[k + 1]].next)];
    var c := chain[..k + 1] + chain[k + 2..];
    forall i | 0 <= i < |c|
      ensures Link(n, c, i)
    {
      assert Link(nodes, chain, if i <= k then i else i + 1);
    }
  }

  /** Pushing a node behind the head. */
  lemma Push(nodes: Nodes, chain: seq<nat>, node: nat)
    requires Linked(nodes, chain) && chain != [] && node in nodes && node != 0 && node !in chain
    requires forall k :: 0 < k < |chain| ==> chain[k] != chain[0]
    ensures chain[0] in nodes
    ensures var m := nodes[node := nodes[node].(next := nodes[chain[0]].next)];
      var n := m[chain[0] := m[chain[0]].(next := node)];
      Linked(n, [chain[0], node] + chain[1..])
  {
    assert Link(nodes, chain, 0);
    var m := nodes[node := nodes[node].(next := nodes[chain[0]].next)];
    var n := m[chain[0] := m[chain[0]].(next := node)];
    var c := [chain[0], node] + chain[1..];
    forall i | 0 <= i < |c|
      ensures Link(n, c, i)
    {
      assert i > 1 ==> Link(nodes, chain, i - 1);
    }
  }

  /** Changes to nodes outside a chain do not matter to it. */
  lemma Elsewhere(nodes: Nodes, n: Nodes, chain: seq<nat>)
    requires Linked(nodes, chain)
    requires forall k :: 0 <= k < |chain| && chain[k] in nodes ==> chain[k] in n && n[chain[k]].next == nodes[chain[k]].next
    ensures Linked(n, chain)
  {
    forall k | 0 <= k < |chain|
      ensures Link(n, chain, k)
    {
      assert Link(nodes, chain, k);
    }
  }

  // ------------------------------------------------- headers against the model

  /** List c with its head. */
  function Chain(lists: seq<nat>, a: Arena, c: nat): seq<nat>
    requires c < |lists| && c < |a.free|
  {
    [lists[c]] + a.free[c]
  }

  /** The heads lie below the heap, each starts its list, and the headers hold the sizes. */
  ghost predicate Chained(lists: seq<nat>, nodes: Nodes, a: Arena) {
    && |lists| == LARGE + 1 && |a.free| == LARGE + 1
    && (forall c :: 0 <= c <= LARGE ==> 0 < lists[c] < a.start)
    && (forall c, d :: 0 <= c < d <= LARGE ==> lists[c] != lists[d])
    && (forall n :: n in a.size ==> n in nodes && nodes[n].size == a.size[n])
    && (forall c :: 0 <= c <= LARGE ==> Linked(nodes, Chain(lists, a, c)))
    && a.start + a.limit + PAGE <= TOP && (a.ptr < a.limit || a.ptr == 0)
  }

  /** Node k of list c is linked, and behind the head its header holds its size. */
  lemma ChainAt(lists: seq<nat>, nodes: Nodes, a: Arena, c: nat, k: nat)
    requires Chained(lists, nodes, a) && Inv(a) && c <= LARGE
    ensures 0 < k < |Chain(lists, a, c)| ==>
      && Link(nodes, Chain(lists, a, c), k)
      && a.free[c][k - 1] in a.size && nodes[a.free[c][k - 1]].size == a.size[a.free[c][k - 1]]
  {
  }

  lemma BlocksAboveHeads(a: Arena, n: nat)
    requires Inv(a) && n in a.size
    ensures a.start <= n
  {
    var i :| 0 <= i < |a.blocks| && a.blocks[i] == n;
    BlockInside(a, i);
  }

  /** The chains share no node, and none contains a node twice. */
  lemma ChainsApart(lists: seq<nat>, nodes: Nodes, a: Arena, c: nat)
    requires Chained(lists, nodes, a) && Inv(a) && c <= LARGE
    ensures forall i, j :: 0 <= i < j < |Chain(lists, a, c)| ==> Chain(lists, a, c)[i] != Chain(lists, a, c)[j]
    ensures forall d, k :: 0 <= d <= LARGE && d != c && 0 <= k < |Chain(lists, a, d)| ==> Chain(lists, a, d)[k] !in Chain(lists, a, c)
  {
    forall n | n in a.size
      ensures a.start <= n
    {
      BlocksAboveHeads(a, n);
    }
    hide Tiled;
  }

  lemma OthersLinked(lists: seq<nat>, nodes: Nodes, a: Arena, n: Nodes, c: nat)
    requires Chained(lists, nodes, a) && Inv(a) && c <= LARGE
    requires forall x :: x in nodes && x !in Chain(lists, a, c) ==> x in n && n[x].next == nodes[x].next
    ensures forall d :: 0 <= d <= LARGE && d != c ==> Linked(n, Chain(lists, a, d))
  {
    ChainsApart(lists, nodes, a, c);
    hide Inv, Linked;
    forall d | 0 <= d <= LARGE && d != c
      ensures Linked(n, Chain(lists, a, d))
    {
      Elsewhere(nodes, n, Chain(lists, a, d));
    }
  }

  lemma DetachKeeps(lists: seq<nat>, nodes: Nodes, a: Arena, c: nat, i: nat)
    requires Chained(lists, nodes, a) && Inv(a) && c <= LARGE && i < |a.free[c]|
    ensures var parent, node := Chain(lists, a, c)[i], a.free[c][i];
      && parent in nodes && node in nodes
      && Chained(lists, nodes[parent := nodes[parent].(next := nodes[node].next)], a.(free := a.free[c := Without(a.free[c], i)]))
  {
    hide Inv, Linked;
    var chain := Chain(lists, a, c);
    assert chain[i + 1] == a.free[c][i];
    ChainsApart(lists, nodes, a, c);
    Unlink(nodes, chain, i);
    var n := nodes[chain[i] := nodes[chain[i]].(next := nodes[chain[i + 1]].next)];
    var b := a.(free := a.free[c := Without(a.free[c], i)]);
    OthersLinked(lists, nodes, a, n, c);
    assert Chain(lists, b, c) == chain[..i + 1] + chain[i + 2..];
    assert forall d :: 0 <= d <= LARGE && d != c ==> Chain(lists, b, d) == Chain(lists, a, d);
  }

  lemma CarveKeeps(lists: seq<nat>, nodes: Nodes, a: Arena, size: nat, next: nat)
    requires Chained(lists, nodes, a) && Inv(a) && Carve(a, size).1.Some?
    ensures Chained(lists, nodes[a.start + a.ptr := Node(next, size)], Carve(a, size).0)
    ensures a.start + a.ptr < WORD
  {
    var node, n := a.start + a.ptr, nodes[a.start + a.ptr := Node(next, size)];
    CarveIsNew(a, size);
    hide Tiled, Linked;
    forall c | 0 <= c <= LARGE
      ensures Linked(n, Chain(lists, a, c)) && Chain(lists, Carve(a, size).0, c) == Chain(lists, a, c)
    {
      Elsewhere(nodes, n, Chain(lists, a, c));
    }
  }

  lemma ReleaseKeeps(lists: seq<nat>, nodes: Nodes, a: Arena, node: nat)
    requires Chained(lists, nodes, a) && Inv(a) && Live(a, node)
    ensures var head := lists[Class(a.size[node])];
      && node in nodes && head in nodes
      && var m := nodes[node := nodes[node].(next := nodes[head].next)];
      && Chained(lists, m[head := m[head].(next := node)], Release(a, node))
  {
    var c := Class(a.size[node]);
    var chain := Chain(lists, a, c);
    BlocksAboveHeads(a, node);
    ChainsApart(lists, nodes, a, c);
    NotLinked(lists, nodes, a, node);
    Push(nodes, chain, node);
    var m := nodes[node := nodes[node].(next := nodes[chain[0]].next)];
    var n := m[chain[0] := m[chain[0]].(next := node)];
    hide Inv, Linked;
    assert Chain(lists, Release(a, node), c) == [chain[0], node] + chain[1..];
    forall d | 0 <= d <= LARGE && d != c
      ensures Linked(n, Chain(lists, a, d)) && Chain(lists, Release(a, node), d) == Chain(lists, a, d)
    {
      Elsewhere(nodes, n, Chain(lists, a, d));
    }
  }

  /** A live block is on no list. */
  lemma NotLinked(lists: seq<nat>, nodes: Nodes, a: Arena, node: nat)
    requires Chained(lists, nodes, a) && Inv(a) && Live(a, node) && a.start <= node
    ensures forall d :: 0 <= d <= LARGE ==> node !in Chain(lists, a, d)
  {
    hide Tiled, Linked;
  }

  lemma {:induction false} FirstFitIs(list: seq<nat>, size: map<nat, nat>, need: nat, i: nat)
    requires forall k :: 0 <= k < |list| ==> list[k] in size
    requires i <= |list| && (forall k :: 0 <= k < i ==> size[list[k]] < need) && (i < |list| ==> need <= size[list[i]])
    ensures FirstFit(list, size, need) == i
    decreases i
  {
    if i == 0 {
    } else {
      FirstFitIs(list[1..], size, need, i - 1);
    }
  }

  /** Where a block's size is stored. */
  function SizeWord(node: nat): nat { node + 4 }

  /** The memory manager can map a new block's pages, and back the page of its header. */
  ghost predicate Extendable(s: AddressSpace.Space, h: Bump, size: nat) {
    Markable(s, h, size) && (HasRoom(h, size) ==> Accessible(Mapped(s, h, size), SizeWord(h.start + h.ptr)))
  }

  lemma MappedFormed(s: AddressSpace.Space, h: Bump, size: nat)
    requires Markable(s, h, size) && HasRoom(h, size)
    ensures AddressSpace.Formed(Mapped(s, h, size))
  {
    var from, to := FirstPage(h.start, h.ptr), EndPage(h.start, h.ptr, size);
    if from < to {
      AddressSpace.MarkRangeMeaning(s, from, to - from, h.prot);
    }
  }

  /** The address space after a new block's pages have been marked and its size has been
      stored; None if that store halts the kernel. */
  ghost function Extended(s: AddressSpace.Space, h: Bump, size: nat): Option<AddressSpace.Space>
    requires Extendable(s, h, size) && (HasRoom(h, size) ==> SizeWord(h.start + h.ptr) < TOP)
  {
    if HasRoom(h, size) then
      MappedFormed(s, h, size);
      Accessed(Mapped(s, h, size), SizeWord(h.start + h.ptr))
    else Some(s)
  }

  lemma HeapBelow(lists: seq<nat>, nodes: Nodes, a: Arena)
    requires Chained(lists, nodes, a)
    ensures a.start + a.limit + PAGE <= TOP && (a.ptr < a.limit || a.ptr == 0)
  {
  }

  lemma MappedNothing(s: AddressSpace.Space, h: Bump, size: nat)
    requires Markable(s, h, size) && !HasRoom(h, size)
    ensures Mapped(s, h, size) == s
  {
  }

  /** Unless the heap's sum wraps, the store succeeds and the heap's used part stays usable. */
  lemma ExtendedUsable(s: AddressSpace.Space, h: Bump, size: nat)
    requires h.start + h.limit + PAGE <= TOP && (h.ptr < h.limit || h.ptr == 0)
    requires Extendable(s, h, size) && size > 4
    ensures HasRoom(h, size) ==> SizeWord(h.start + h.ptr) < TOP && h.start + h.ptr < WORD32
    ensures h.ptr + size < WORD ==> Extended(s, h, size).Some?
    ensures h.ptr + size < WORD && UsedUsable(s, h) ==>
      UsedUsable(Extended(s, h, size).value, if HasRoom(h, size) then h.(ptr := (h.ptr + size) % WORD32) else h)
  {
    if h.ptr + size < WORD && HasRoom(h, size) {
      MappedFormed(s, h, size);
      SizeUsable(s, h, size);
      hide Mapped, Markable, Usable, Accessed;
      AccessUsable(Mapped(s, h, size), SizeWord(h.start + h.ptr));
      if UsedUsable(s, h) {
        UsedPartUsable(s, h, size);
      }
    }
  }

  lemma SizeUsable(s: AddressSpace.Space, h: Bump, size: nat)
    requires Markable(s, h, size) && HasRoom(h, size) && 4 < size && h.ptr + size < WORD
    requires h.start + h.limit + PAGE <= TOP
    ensures Usable(Mapped(s, h, size), SizeWord(h.start + h.ptr) / PAGE)
  {
    BlockUsable(s, h.start, h.ptr, size, h.prot);
  }

  /** As long as the used part of the heap is usable, so is every byte of every block. */
  lemma PayloadUsable(a: Arena, s: AddressSpace.Space, h: Bump, node: nat, x: nat)
    requires Inv(a) && node in a.size && a.start == h.start && a.ptr == h.ptr && UsedUsable(s, h)
    requires node <= x < node + a.size[node]
    ensures Usable(s, x / PAGE)
  {
    var i :| 0 <= i < |a.blocks| && a.blocks[i] == node;
    BlockInside(a, i);
  }

  /** A block's caller gets its payload. */
  function Handed(r: (Arena, Option<nat>)): (Arena, Option<nat>) {
    (r.0, if r.1.Some? then Some(Payload(r.1.value)) else None)
  }

  lemma HandedIs(r: (Arena, Option<nat>))
    ensures Handed(r) == (r.0, if r.1.Some? then Some(r.1.value + 16) else None)
  {
  }

  class Kmalloc {
    const heap: Heap
    const lists: seq<nat>  // addresses of the four list heads
    var nodes: Nodes
    ghost var blocks: seq<nat>
    ghost var sizes: map<nat, nat>
    ghost var free: seq<seq<nat>>

    ghost function State(): Arena
      reads this, heap`ptr
    {
      Arena(heap.start, heap.limit, heap.ptr, blocks, sizes, free)
    }

    ghost predicate Structured()
      reads this, heap`ptr
    {
      Chained(lists, nodes, State())
    }

    ghost predicate Valid()
      reads this, heap`ptr
    {
      Structured() && Inv(State())
    }

    constructor (heap: Heap, lists: seq<nat>)
      requires |lists| == LARGE + 1 && (forall c :: 0 <= c <= LARGE ==> 0 < lists[c] < heap.start)
      requires forall c, d :: 0 <= c < d <= LARGE ==> lists[c] != lists[d]
      requires heap.ptr == 0 && heap.start + heap.limit + PAGE <= TOP
      ensures Valid() && this.heap == heap && State() == Empty(heap.start, heap.limit)
    {
      this.heap, this.lists := heap, lists;
      nodes := map[lists[0] := Node(0, 0), lists[1] := Node(0, 0), lists[2] := Node(0, 0), lists[3] := Node(0, 0)];
      blocks, sizes, free := [], map[], [[], [], [], []];
      new;
      assert forall c :: 0 <= c <= LARGE ==> Link(nodes, Chain(lists, State(), c), 0);
    }

    /** The walk along the large list. */
    method FindLarge(need: nat) returns (parent: nat, node: nat)
      requires Valid()
      ensures var i := FirstFit(free[LARGE], sizes, need);
        if i < |free[LARGE]| then node == free[LARGE][i] != 0 && parent == Chain(lists, State(), LARGE)[i] else node == 0
    {
      ghost var chain := Chain(lists, State(), LARGE);
      ghost var i := 0;
      parent := lists[LARGE];
      assert Link(nodes, chain, 0) && (1 < |chain| ==> Link(nodes, chain, 1));
      node := nodes[parent].next;
      hide Inv, Chained;
      while node != 0 && nodes[node].size < need
        invariant i <= |free[LARGE]| && parent == chain[i] && Link(nodes, chain, i) && node == nodes[parent].next
        invariant if i < |free[LARGE]| then
          node == free[LARGE][i] != 0 && node in nodes && nodes[node].size == sizes[node] else node == 0
        invariant forall k :: 0 <= k < i ==> sizes[free[LARGE][k]] < need
        decreases |chain| - i
      {
        parent := node;
        ChainAt(lists, nodes, State(), LARGE, i + 1);
        node := nodes[parent].next;
        i := i + 1;
        ChainAt(lists, nodes, State(), LARGE, i + 1);
      }
      FirstFitIs(free[LARGE], sizes, need, i);
    }

    /** What kmalloc may have to ask of the memory manager. */
    ghost predicate CanServe(m: Machine, need: nat)
      requires Valid()
      reads this, heap`ptr, m
    {
      Choice(State(), need) == |free[Class(need)]| ==> Extendable(m.Contents(), heap.Now(), need)
    }

    /** Every byte of every block can be used. */
    ghost predicate BlocksUsable(m: Machine)
      reads heap`ptr, m
    {
      UsedUsable(m.Contents(), heap.Now())
    }

    /** Unlinks the block at position i of list c. */
    method Detach(parent: nat, node: nat, ghost c: nat, ghost i: nat)
      requires Valid() && c <= LARGE && i < |free[c]|
      requires parent == Chain(lists, State(), c)[i] && node == free[c][i]
      modifies `nodes, `free
      ensures Structured() && free == old(free)[c := Without(old(free[c]), i)]
    {
      assert |free| == LARGE + 1;
      hide Inv, Linked, Chained;
      DetachKeeps(lists, nodes, State(), c, i);
      nodes := nodes[parent := nodes[parent].(next := nodes[node].next)];
      free := free[c := Without(free[c], i)];
    }

    /** A new block from the heap, with its size in its header; not ok if storing the
        size halts the kernel. */
    method Extend(m: Machine, size: nat) returns (ok: bool, mem: Option<nat>)
      requires Valid() && m.Valid() && Extendable(m.Contents(), heap.Now(), size) && size > 4
      modifies `nodes, `blocks, `sizes, heap`ptr, m
      ensures old(Fits(size)) && (ok <==> Extended(old(m.Contents()), old(heap.Now()), size).Some?)
      ensures ok ==> Structured() && m.Valid() && (State(), mem) == Carve(old(State()), size)
      ensures mem == if (old(heap.ptr) + size) % 0x1_0000_0000 < heap.limit then Some(heap.start + old(heap.ptr)) else None
      ensures ok ==> Extended(old(m.Contents()), old(heap.Now()), size) == Some(m.Contents())
      ensures ok ==> m.Fixed() && Keeps(old(m.Hardware()), m.Hardware(), m.book.owned, {})
      ensures old(HeapFits(State(), size)) ==> ok && (old(BlocksUsable(m)) ==> BlocksUsable(m))
    {
      hide Inv, Linked, Chained, Machine.Valid, Machine.Contents, Mapped, Keeps, UsedUsable, Accessed;
      ghost var a, s, now := State(), m.Contents(), heap.Now();
      HeapBelow(lists, nodes, a);
      ExtendedUsable(s, now, size);
      ok, mem := MapAndStore(m, size);
      if ok && mem.Some? {
        var next: nat := *;  // whatever was in the block
        CarveKeeps(lists, nodes, a, size, next);
        nodes := nodes[mem.value := Node(next, size)];
        blocks, sizes := blocks + [mem.value], sizes[mem.value := size];
      }
    }

    /** The header of the next block lies below the pool's window. */
    ghost predicate Fits(size: nat)
      reads heap`ptr
    {
      HasRoom(heap.Now(), size) ==> SizeWord(heap.start + heap.ptr) < TOP && heap.start + heap.ptr < WORD32
    }

    /** What extending the heap does to the address space. */
    method MapAndStore(m: Machine, size: nat) returns (ok: bool, mem: Option<nat>)
      requires m.Valid() && Extendable(m.Contents(), heap.Now(), size) && Fits(size)
      modifies heap`ptr, m
      ensures ok <==> Extended(old(m.Contents()), old(heap.Now()), size).Some?
      ensures ok ==> m.Valid() && Extended(old(m.Contents()), old(heap.Now()), size) == Some(m.Contents())
      ensures ok ==> m.Fixed() && Keeps(old(m.Hardware()), m.Hardware(), m.book.owned, {})
      ensures mem == if (old(heap.ptr) + size) % 0x1_0000_0000 < heap.limit then Some(heap.start + old(heap.ptr)) else None
      ensures heap.ptr == if mem.Some? then (old(heap.ptr) + size) % WORD32 else old(heap.ptr)
    {
      hide Machine.Valid, Machine.Contents, Mapped, Markable, Keeps, Accessed, Accessible;
      ghost var h, s, now := m.Hardware(), m.Contents(), heap.Now();
      mem := heap.Alloc(m, size);
      ok := true;
      if mem.Some? {
        MappedFormed(s, now, size);
        ghost var k := m.Hardware();
        ok := Access(m, SizeWord(mem.value));
        if ok {
          KeepsOver(h, k, m.Hardware(), m.book.owned, {});
        }
      } else {
        MappedNothing(s, now, size);
      }
    }

    /** The node a request for size would take from list c, and behind which node; 0 if
        the list has none. */
    method Find(c: nat, size: nat) returns (parent: nat, node: nat)
      requires Valid() && c == Class(size)
      ensures var i := Choice(State(), size);
        if i < |free[c]| then node == free[c][i] != 0 && parent == Chain(lists, State(), c)[i] else node == 0
    {
      if size <= 1024 {
        parent := lists[c];
        ghost var chain := Chain(lists, State(), c);
        assert Link(nodes, chain, 0) && (1 < |chain| ==> Link(nodes, chain, 1));
        node := nodes[parent].next;
      } else {
        parent, node := FindLarge(size);
      }
    }

    /** A block of the given size from its list, or else from the heap; not ok if the
        kernel halts. */
    method Serve(m: Machine, c: nat, size: nat) returns (ok: bool, mem: Option<nat>)
      requires Valid() && m.Valid() && c == Class(size) && CanServe(m, size) && size > 4
      modifies this, heap`ptr, m
      ensures ok ==> Structured() && m.Valid() && (State(), mem) == KmallocModel.Serve(old(State()), size)
      ensures ok ==> m.Fixed() && Keeps(old(m.Hardware()), m.Hardware(), m.book.owned, {})
      ensures old(Safe(State(), size)) ==> ok && (old(BlocksUsable(m)) ==> BlocksUsable(m))
    {
      assert |free| == LARGE + 1 && Listed(State());
      KeepsSame(m);
      hide Inv, Chained, Machine.Valid, Machine.Contents, Extendable, Choice, Class, Carve, Keeps, UsedUsable, HeapFits;
      ghost var i := Choice(State(), size);
      var parent, node := Find(c, size);
      if node != 0 {
        Detach(parent, node, c, i);
        ok, mem := true, Some(node);
      } else {
        ok, mem := Extend(m, size);
      }
    }

    /** kmalloc; not ok if the kernel halts, which it does only after a wrapped sum. */
    method Alloc(m: Machine, request: nat) returns (ok: bool, mem: Option<nat>)
      requires Valid() && m.Valid() && request < WORD && CanServe(m, BlockSize(request))
      modifies this, heap`ptr, m
      ensures ok ==> Structured() && m.Valid() && (State(), mem) == Handed(KmallocModel.Alloc(old(State()), request))
      ensures ok ==> (mem.Some? <==>
        || old(FreeFits(State(), BlockSize(request)))
        || (old(heap.ptr) + BlockSize(request)) % 0x1_0000_0000 < heap.limit)
      ensures ok ==> m.Fixed() && Keeps(old(m.Hardware()), m.Hardware(), m.book.owned, {})
      ensures old(Safe(State(), BlockSize(request))) ==> ok && Valid() && (old(BlocksUsable(m)) ==> BlocksUsable(m))
    {
      hide *;
      AllocFacts(request);
      ghost var a := State();
      var size := (request + 15 + 16) % 0x1_0000_0000 / 16 * 16;
      var list;
      if size <= 64 {
        list, size := 0, 64;
      } else if size <= 512 {
        list, size := 1, 512;
      } else if size <= 1024 {
        list, size := 2, 1024;
      } else {
        list := 3;
      }
      ok, mem := Serve(m, list, size);
      HandedIs(KmallocModel.Serve(a, size));
      if ok && mem.Some? {
        mem := Some(mem.value + 16);
      }
      if ok {
        IsValid();
      }
    }

    /** What kmalloc starts from, ... */
    lemma AllocFacts(request: nat)
      requires Valid()
      ensures Listed(State()) && Inv(State()) && State().ptr == heap.ptr && State().limit == heap.limit
      ensures var size := (request + 15 + 16) % 0x1_0000_0000 / 16 * 16;
        && BlockSize(request) == (if size <= 64 then 64 else if size <= 512 then 512 else if size <= 1024 then 1024 else size)
        && Class(BlockSize(request)) == (if size <= 64 then 0 else if size <= 512 then 1 else if size <= 1024 then 2 else 3)
      ensures KmallocModel.Alloc(State(), request) == KmallocModel.Serve(State(), BlockSize(request))
      ensures Safe(State(), BlockSize(request)) ==> Inv(KmallocModel.Alloc(State(), request).0)
      ensures KmallocModel.Alloc(State(), request).1.Some? <==>
        FreeFits(State(), BlockSize(request)) || (heap.ptr + BlockSize(request)) % 0x1_0000_0000 < heap.limit
    {
      AllocServedIff(State(), request);
      if Safe(State(), BlockSize(request)) {
        AllocKeepsInv(State(), request);
      }
    }

    /** ... and what it has to come to. */
    lemma IsValid()
      requires Structured()
      ensures Inv(State()) ==> Valid()
    {
    }

    /** kfree of a live block's payload; None is NULL. */
    method Free(ptr: Option<nat>)
      requires Valid()
      requires ptr.Some? ==> ptr.value >= HEADER && Live(State(), ptr.value - HEADER)
      modifies `nodes, `free
      ensures Valid()
      ensures State() == if ptr.None? then old(State()) else KmallocModel.Release(old(State()), ptr.value - HEADER)
    {
      if ptr.None? {
        return;
      }
      var node := ptr.value - 16;
      ReleaseKeeps(lists, nodes, State(), node);
      ReleaseKeepsInv(State(), node);
      var size := nodes[node].size;
      hide Inv, Linked, Chained;
      var list := if size <= 64 then 0 else if size <= 512 then 1 else if size <= 1024 then 2 else 3;
      nodes := nodes[node := nodes[node].(next := nodes[lists[list]].next)];
      nodes := nodes[lists[list] := nodes[lists[list]].(next := node)];
      free := free[list := [node] + free[list]];
    }
  }
}

/** Thread control blocks and the lists that chain them through their own next
    and prev fields behind a sentinel head. */
module TcbLists {
  import DeltaQueue

  type u32 = n: nat | n < 0x1_0000_0000

  class Tcb {
    var elapsed: u32
    var sleepTick: u32
    var quantum: u32
    var priority: u32
    var threadId: u32
    var flags: bv32
    var next: Tcb?
    var prev: Tcb?
    ghost var owner: TcbList?  // the list this node is on

    constructor (priority: u32, quantum: u32)
      ensures this.priority == priority && this.quantum == quantum
      ensures elapsed == 0 && threadId == 0 && flags == 0 && owner == null && next == null
    {
      this.priority, this.quantum := priority, quantum;
      elapsed, sleepTick, threadId, flags := 0, 0, 0, 0;
      next, prev, owner := null, null, null;
    }
  }

  /** The nodes store the ticks ds. */
  ghost predicate Ticks(ts: seq<Tcb>, ds: seq<nat>)
    reads ts`sleepTick
  {
    |ts| == |ds| && forall j :: 0 <= j < |ds| ==> ts[j].sleepTick == ds[j]
  }

  lemma TicksSpliced(ts: seq<Tcb>, ds: seq<nat>, i: nat, t: Tcb, n: nat)
    requires Ticks(ts, ds) && i <= |ts| && t.sleepTick == n
    ensures Ticks(ts[..i] + [t] + ts[i..], ds[..i] + [n] + ds[i..])
  {
  }

  lemma Regroup(a: seq<nat>, x: nat, b: seq<nat>)
    ensures a + ([x] + b) == (a + [x]) + b
  {
  }

  lemma Slices(ds: seq<nat>, i: nat, y: nat)
    requires i < |ds|
    ensures ds[i..] == [ds[i]] + ds[i + 1..] && ds[..i + 1] == ds[..i] + [ds[i]]
    ensures ds[i := y][..i] == ds[..i] && ds[i := y][i..] == [y] + ds[i + 1..]
  {
  }

  lemma InsertFront(x: nat, rest: seq<nat>, n: nat)
    ensures n <= x ==>
      DeltaQueue.Insert([x] + rest, n) == [n] + ([x - n] + rest) && DeltaQueue.Position([x] + rest, n) == 0
    ensures n > x ==>
      && DeltaQueue.Insert([x] + rest, n) == [x] + DeltaQueue.Insert(rest, n - x)
      && DeltaQueue.Position([x] + rest, n) == 1 + DeltaQueue.Position(rest, n - x)
  {
    assert ([x] + rest)[1..] == rest;
    if n <= x {
      Regroup([n], x - n, rest);
    }
  }

  /** The insertion walk stops in front of a node that is not due earlier, ... */
  lemma InsertHere(ds: seq<nat>, i: nat, n: nat)
    requires i < |ds| && n <= ds[i]
    ensures ds[..i] + DeltaQueue.Insert(ds[i..], n) == ds[i := ds[i] - n][..i] + [n] + ds[i := ds[i] - n][i..]
    ensures DeltaQueue.Position(ds[i..], n) == 0
  {
    hide DeltaQueue.Insert, DeltaQueue.Position;
    Slices(ds, i, ds[i] - n);
    InsertFront(ds[i], ds[i + 1..], n);
    Regroup(ds[..i], n, [ds[i] - n] + ds[i + 1..]);
  }

  /** ... and otherwise takes the node's delta off and goes on behind it. */
  lemma InsertBehind(ds: seq<nat>, i: nat, n: nat)
    requires i < |ds| && n > ds[i]
    ensures ds[..i] + DeltaQueue.Insert(ds[i..], n) == ds[..i + 1] + DeltaQueue.Insert(ds[i + 1..], n - ds[i])
    ensures DeltaQueue.Position(ds[i..], n) == 1 + DeltaQueue.Position(ds[i + 1..], n - ds[i])
  {
    hide DeltaQueue.Insert, DeltaQueue.Position;
    Slices(ds, i, 0);
    InsertFront(ds[i], ds[i + 1..], n);
    Regroup(ds[..i], ds[i], DeltaQueue.Insert(ds[i + 1..], n - ds[i]));
  }

  lemma InsertEnd(ds: seq<nat>, n: nat)
    ensures DeltaQueue.Insert(ds[|ds|..], n) == [n] && DeltaQueue.Position(ds[|ds|..], n) == 0
  {
  }

  /** c is what one finds following next from the head of l, and each node knows that
      it is on l. */
  ghost predicate NextLinked(c: seq<Tcb>, head: Tcb, l: TcbList)
    reads c`next, c`owner
  {
    && c != [] && c[0] == head
    && (forall i :: 0 <= i < |c| ==> c[i].owner == l)
    && (forall i :: 0 <= i < |c| - 1 ==> c[i].next == c[i + 1])
    && c[|c| - 1].next == null
  }

  ghost predicate PrevLinked(c: seq<Tcb>)
    reads c`prev
  {
    forall i :: 0 < i < |c| ==> c[i].prev == c[i - 1]
  }

  /** c with t put behind its node i. */
  ghost function Spliced(c: seq<Tcb>, i: nat, t: Tcb): (d: seq<Tcb>)
    requires i < |c|
    ensures |d| == |c| + 1
  {
    c[..i + 1] + [t] + c[i + 1..]
  }

  lemma SplicedParts(c: seq<Tcb>, i: nat, t: Tcb)
    requires i < |c|
    ensures var d := Spliced(c, i, t);
      && (forall j :: 0 <= j < |d| ==> d[j] == if j <= i then c[j] else if j == i + 1 then t else c[j - 1])
      && d[1..] == c[1..][..i] + [t] + c[1..][i..]
  {
  }


  /** If only the links around the gap have changed, the spliced chain is linked. */
  lemma SplicedLinks(c: seq<Tcb>, i: nat, t: Tcb, l: TcbList)
    requires i < |c| && t.owner == l && forall j :: 0 <= j < |c| ==> c[j].owner == l
    requires forall j :: 0 <= j < |c| - 1 && j != i ==> c[j].next == c[j + 1]
    requires i < |c| - 1 ==> c[|c| - 1].next == null
    requires c[i].next == t && t.next == if i == |c| - 1 then null else c[i + 1]
    requires forall j :: 0 < j < |c| && j != i + 1 ==> c[j].prev == c[j - 1]
    requires t.prev == c[i] && (i < |c| - 1 ==> c[i + 1].prev == t)
    ensures NextLinked(Spliced(c, i, t), c[0], l) && PrevLinked(Spliced(c, i, t))
    ensures Spliced(c, i, t)[1..] == c[1..][..i] + [t] + c[1..][i..]
  {
    SplicedParts(c, i, t);
    hide Spliced;
    var d := Spliced(c, i, t);
    forall j | 0 <= j < |d| - 1
      ensures d[j].next == d[j + 1]
    {
      if j < i {
        assert d[j] == c[j] && d[j + 1] == c[j + 1];
      } else if j > i {
        assert d[j + 1] == c[j] && (j > i + 1 ==> d[j] == c[j - 1]);
      }
    }
    forall j | 0 < j < |d|
      ensures d[j].prev == d[j - 1]
    {
      if j <= i {
        assert d[j] == c[j] && d[j - 1] == c[j - 1];
      } else if j > i + 1 {
        assert d[j] == c[j - 1] && (j > i + 2 ==> d[j - 1] == c[j - 2]);
      }
    }
  }

  class TcbList {
    const head: Tcb
    var tail: Tcb
    ghost var chain: seq<Tcb>  // the nodes from the head along next

    constructor ()
      ensures Singly() && Doubly() && Tailed() && chain == [head] && fresh(head)
    {
      var h := new Tcb(0, 0);
      head, tail, chain := h, h, [h];
      new;
      h.owner := this;
    }

    ghost predicate Singly()
      reads `chain, chain`next, chain`owner
    {
      NextLinked(chain, head, this)
    }

    /** Because the links end, the chain never returns to a node. */
    lemma Acyclic()
      requires Singly()
      ensures forall i, j :: 0 <= i < j < |chain| ==> chain[i] != chain[j]
    {
      forall i, j | 0 <= i < j < |chain|
        ensures chain[i] != chain[j]
      {
        NoReturn(i, j);
      }
    }

    lemma {:induction false} NoReturn(i: nat, j: nat)
      requires Singly() && i < j < |chain|
      ensures chain[i] != chain[j]
      decreases |chain| - j
    {
      assert chain[i].next == chain[i + 1];
      if j + 1 < |chain| {
        assert chain[j].next == chain[j + 1];
        NoReturn(i + 1, j + 1);
      }
    }

    ghost predicate Doubly()
      reads `chain, chain`next, chain`prev, chain`owner
    {
      Singly() && PrevLinked(chain)
    }

    lemma HeadFirst()
      requires Singly() || Doubly()
      ensures chain != [] && chain[0] == head
    {
    }

    /** The nodes are the head and the members. */
    lemma HeadAndMembers()
      requires chain != [] && chain[0] == head
      ensures forall t :: t in chain <==> t == head || t in Members()
    {
      assert chain == [head] + Members();
    }

    ghost predicate Tailed()
      reads `chain, `tail
    {
      chain != [] && tail == chain[|chain| - 1]
    }

    ghost function Members(): seq<Tcb>
      requires chain != []
      reads `chain
    {
      chain[1..]
    }

    lemma NextOf(i: nat)
      requires Singly() && i < |chain|
      ensures chain[i].next == if i + 1 == |chain| then null else chain[i + 1]
      ensures chain[i].owner == this
    {
    }

    lemma Neighbours()
      requires Singly()
      ensures head.next == if Members() == [] then null else chain[1]
      ensures Members() != [] ==> chain[1].owner == this && chain[1] != head
      ensures Members() != [] ==> chain[1].next == if |chain| == 2 then null else chain[2]
      ensures |chain| > 2 ==> chain[2].owner == this
    {
      Acyclic();
      assert |chain| > 1 ==> chain[0].next == chain[1];
      assert |chain| > 2 ==> chain[1].next == chain[2];
    }

    /** The body of scheduler_add. */
    method Append(t: Tcb)
      requires Doubly() && Tailed() && t.owner == null
      modifies this`tail, this`chain, chain`next, t`next, t`prev, t`owner
      ensures Doubly() && Tailed() && chain == old(chain) + [t] && Members() == old(Members()) + [t]
    {
      Acyclic();
      t.next := null;
      t.prev := tail;
      tail.next := t;
      tail := t;
      t.owner := this;
      chain := chain + [t];
    }

    /** The part of the pick loop that takes the head of an active list. */
    method RemoveFirst() returns (target: Tcb?)
      requires Doubly() && Tailed()
      modifies this`tail, this`chain, chain`next, chain`prev, chain`owner
      ensures Doubly() && Tailed()
      ensures target == null <==> old(Members()) == []
      ensures target == null ==> chain == old(chain)
      ensures target != null ==>
        target == old(Members())[0] && Members() == old(Members())[1..] && target.owner == null
    {
      Acyclic();
      Neighbours();
      target := head.next;
      if target != null {
        head.next := target.next;
        if target.next != null {
          target.next.prev := head;
        }
        if tail == target {
          tail := head;
        }
        target.owner := null;
        chain := [head] + chain[2..];
      }
    }

    /** The unlinking of the wake loop. */
    method RemoveWoken(first: Tcb)
      requires Doubly() && Members() != [] && first == Members()[0]
      modifies this`chain, chain`next, chain`prev, chain`owner
      ensures Doubly() && Members() == old(Members())[1..] && first.owner == null
    {
      Acyclic();
      Neighbours();
      assert first.prev == chain[0];
      head.next := first.next;
      if first.next != null {
        first.next.prev := first.prev;
      }
      first.owner := null;
      chain := [head] + chain[2..];
    }

    /** The delta insertion of scheduler_pick: the walk shortens the newcomer's
        ticks by every delta it passes and the next node's by what remains. */
    method InsertSleeper(current: Tcb, ghost ds: seq<nat>)
      requires Doubly() && current.owner == null && Ticks(Members(), ds)
      modifies this`chain, chain`next, chain`prev, chain`sleepTick
      modifies current`next, current`prev, current`sleepTick, current`owner
      ensures Doubly()
      ensures var at := DeltaQueue.Position(ds, old(current.sleepTick));
        at <= |ds| && Members() == old(Members())[..at] + [current] + old(Members())[at..]
      ensures Ticks(Members(), DeltaQueue.Insert(ds, old(current.sleepTick)))
    {
      DeltaQueue.InsertMeaning(ds, current.sleepTick);
      ghost var members := Members();
      assert |ds| == |members| == |chain| - 1;
      hide DeltaQueue.Insert, DeltaQueue.Position, Singly, Doubly, Ticks;
      var slept, next, i, after := Walk(current, ds);
      ghost var left := current.sleepTick;
      Shorten(current, next, i, ds, after);
      Splice(slept, next, current, i);
      TicksSpliced(members, after, i, current, left);
    }

    /** Takes the newcomer's ticks off the node behind it. */
    method Shorten(current: Tcb, next: Tcb?, ghost i: nat, ghost ds: seq<nat>, ghost after: seq<nat>)
      requires Doubly() && Ticks(Members(), ds) && i <= |ds|
      requires next == if i == |ds| then null else Members()[i]
      requires next != null ==> current.sleepTick <= ds[i] && after == ds[i := ds[i] - current.sleepTick]
      requires next == null ==> after == ds
      modifies chain`sleepTick
      ensures Ticks(Members(), after)
    {
      Acyclic();
      if next != null {
        next.sleepTick := next.sleepTick - current.sleepTick;
      }
    }

    /** The walk stops at the node the newcomer goes behind, with the newcomer's
        ticks reduced to what it sleeps beyond that node. */
    method Walk(current: Tcb, ghost ds: seq<nat>)
      returns (slept: Tcb, next: Tcb?, ghost i: nat, ghost after: seq<nat>)
      requires Doubly() && current.owner == null && Ticks(Members(), ds)
      modifies current`sleepTick
      ensures i <= |ds| && slept == chain[i] && next == if i == |ds| then null else Members()[i]
      ensures i == DeltaQueue.Position(ds, old(current.sleepTick))
      ensures next != null ==> current.sleepTick <= ds[i] && after == ds[i := ds[i] - current.sleepTick]
      ensures next == null ==> after == ds
      ensures DeltaQueue.Insert(ds, old(current.sleepTick)) == after[..i] + [current.sleepTick] + after[i..]
    {
      hide DeltaQueue.Insert, DeltaQueue.Position;
      ghost var n := current.sleepTick;
      slept, i, after := head, 0, ds;
      assert ds[0..] == ds;
      while true
        invariant 0 <= i < |chain| && slept == chain[i]
        invariant DeltaQueue.Insert(ds, n) == ds[..i] + DeltaQueue.Insert(ds[i..], current.sleepTick)
        invariant DeltaQueue.Position(ds, n) == i + DeltaQueue.Position(ds[i..], current.sleepTick)
        decreases |chain| - i
      {
        NextOf(i);
        next := slept.next;
        if next == null {
          InsertEnd(ds, current.sleepTick);
          after := ds;
          break;
        }
        assert Members()[i] == next;
        if current.sleepTick <= next.sleepTick {
          InsertHere(ds, i, current.sleepTick);
          after := ds[i := ds[i] - current.sleepTick];
          break;
        }
        InsertBehind(ds, i, current.sleepTick);
        current.sleepTick := current.sleepTick - next.sleepTick;
        slept := next;
        i := i + 1;
      }
    }

    method Splice(slept: Tcb, next: Tcb?, current: Tcb, ghost i: nat)
      requires Doubly() && current.owner == null
      requires i < |chain| && slept == chain[i] && next == if i + 1 == |chain| then null else Members()[i]
      modifies this`chain, chain`next, chain`prev, current`next, current`prev, current`owner
      ensures Doubly()
      ensures Members() == old(Members())[..i] + [current] + old(Members())[i..]
    {
      ghost var was := chain;
      LinkIn(slept, next, current, i);
      current.owner := this;
      SplicedLinks(was, i, current, this);
      hide Spliced, NextLinked, PrevLinked;
      chain := Spliced(was, i, current);
    }

    /** The four stores, before the newcomer counts as a member. */
    method LinkIn(slept: Tcb, next: Tcb?, current: Tcb, ghost i: nat)
      requires Doubly() && current.owner == null
      requires i < |chain| && slept == chain[i] && next == if i + 1 == |chain| then null else Members()[i]
      modifies chain`next, chain`prev, current`next, current`prev
      ensures forall j :: 0 <= j < |chain| - 1 && j != i ==> chain[j].next == chain[j + 1]
      ensures i < |chain| - 1 ==> chain[|chain| - 1].next == null
      ensures chain[i].next == current && current.next == if i == |chain| - 1 then null else chain[i + 1]
      ensures forall j :: 0 < j < |chain| && j != i + 1 ==> chain[j].prev == chain[j - 1]
      ensures current.prev == chain[i] && (i < |chain| - 1 ==> chain[i + 1].prev == current)
    {
      Acyclic();
      NextOf(i);
      assert next != null ==> next == chain[i + 1] && next.owner == this;
      current.next := next;
      slept.next := current;
      current.prev := slept;
      if next != null {
        next.prev := current;
      }
    }

    /** Zombies are pushed at the front; their prev field is not kept up. */
    method Push(t: Tcb)
      requires Singly() && t.owner == null
      modifies this`chain, chain`next, t`next, t`owner
      ensures Singly() && Members() == [t] + old(Members())
    {
      Acyclic();
      Neighbours();
      ghost var was := chain;
      t.next := head.next;
      head.next := t;
      t.owner := this;
      chain := [head, t] + was[1..];
      forall i | 0 <= i < |chain| - 1
        ensures chain[i].next == chain[i + 1]
      {
        if i > 1 {
          assert chain[i] == was[i - 1] && chain[i + 1] == was[i] && was[i - 1] != was[0];
        }
      }
    }

    method Pop() returns (t: Tcb?)
      requires Singly()
      modifies this`chain, chain`next, chain`owner
      ensures Singly()
      ensures t == null <==> old(Members()) == []
      ensures t == null ==> chain == old(chain)
      ensures t != null ==> t == old(Members())[0] && Members() == old(Members())[1..] && t.owner == null
    {
      Acyclic();
      Neighbours();
      t := head.next;
      if t != null {
        head.next := t.next;
        t.owner := null;
        chain := [head] + chain[2..];
      }
    }
  }
}

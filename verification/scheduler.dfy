/** The scheduler as the kernel keeps it: linked control blocks and global
    counters.  Every operation is proved to do to these what
    SchedulerSteps.Step does to the abstract state. */
module Scheduler {
  import opened Options
  import opened TcbLists
  import DeltaQueue
  import M = SchedulerModel
  import S = SchedulerSteps
  import opened ThreadLives

  const FLAG_SLEPT: bv32 := 1
  const FLAG_ZOMBIE: bv32 := 2

  // The lists by number; the first four are the active ones, by priority.
  const SLEPT: nat := 4
  const ZOMBIES: nat := 5

  ghost function Deltas(ts: seq<Tcb>): (ds: seq<nat>)
    reads ts`sleepTick
    ensures Ticks(ts, ds)
  {
    if ts == [] then [] else [ts[0].sleepTick] + Deltas(ts[1..])
  }

  lemma TicksUnique(ts: seq<Tcb>, ds: seq<nat>)
    ensures Ticks(ts, ds) <==> Deltas(ts) == ds
  {
  }

  /** The scheduling part of a control block. */
  ghost function Record(t: Tcb): M.Thread
    reads t`priority, t`quantum, t`elapsed
  {
    M.Thread(t.priority, t.quantum, t.elapsed)
  }

  ghost function IntentOf(t: Tcb): M.Intent
    reads t`flags, t`sleepTick
  {
    if t.flags & FLAG_ZOMBIE != 0 then M.Exiting
    else if t.flags & FLAG_SLEPT != 0 then M.Sleeping(t.sleepTick)
    else M.Running
  }

  /** The flags and priority of a thread on list k say that it belongs there. */
  ghost predicate Belongs(t: Tcb, k: nat)
    reads t`flags, t`priority
  {
    && (k < SLEPT ==> t.flags == 0 && t.priority == k)
    && (k == SLEPT ==> t.flags == FLAG_SLEPT)
    && (k == ZOMBIES ==> t.flags & FLAG_ZOMBIE != 0)
  }

  method NewLists() returns (ls: seq<TcbList>, ghost r: set<object>)
    ensures |ls| == ZOMBIES + 1 && fresh(r)
    ensures forall k :: 0 <= k <= ZOMBIES ==> ls[k] in r && ls[k].head in r
    ensures forall k :: 0 <= k <= ZOMBIES ==>
      ls[k].Doubly() && ls[k].Singly() && ls[k].Tailed() && ls[k].chain == [ls[k].head]
    ensures forall j, k :: 0 <= j < k <= ZOMBIES ==> ls[j] != ls[k]
  {
    hide TcbList.Singly, TcbList.Doubly, TcbList.Tailed;
    ls, r := [], {};
    for i := 0 to ZOMBIES + 1
      invariant |ls| == i && fresh(r)
      invariant forall k :: 0 <= k < i ==> ls[k] in r && ls[k].head in r
      invariant forall k :: 0 <= k < i ==>
        ls[k].Doubly() && ls[k].Singly() && ls[k].Tailed() && ls[k].chain == [ls[k].head]
      invariant forall j, k :: 0 <= j < k < i ==> ls[j] != ls[k]
    {
      var l := new TcbList();
      ls := ls + [l];
      r := r + {l, l.head};
    }
  }

  lemma DispatchFrom<T>(s: M.State<T>, p: nat)
    requires M.Shaped(s) && p < M.PRIORITIES && s.active[p] != [] && forall q :: 0 <= q < p ==> s.active[q] == []
    ensures var t := s.active[p][0];
      var c := s.threads[t];
      var used := if c.elapsed >= c.quantum then 0 else c.elapsed;
      M.Dispatch(s) == Some(s.(elapsed := 0, quantum := c.quantum - used, current := t, intent := M.Running,
                               active := s.active[p := s.active[p][1..]],
                               threads := s.threads[t := c.(elapsed := used)]))
  {
    assert M.Highest(s.active) == p;
  }

  lemma Started<T>(s: M.State<T>, t: T, priority: nat, quantum: nat)
    requires S.Inv(s) && S.Enabled(s, S.Spawn(t, priority, quantum))
    ensures var n := s.(threads := s.threads[t := M.Thread(priority, quantum, 0)]);
      && M.Shaped(s) && M.Shaped(n)
      && S.Step(s, S.Spawn(t, priority, quantum)) == Some(M.Enqueue(n, t)) && S.Inv(M.Enqueue(n, t))
      && M.Enqueue(n, t).intent == s.intent
  {
    S.StepKeepsInv(s, S.Spawn(t, priority, quantum));
  }

  lemma YieldFacts<T>(s: M.State<T>)
    requires S.Inv(s)
    ensures M.Shaped(s) && s.threads[s.current].elapsed + s.elapsed < M.WORD
    ensures S.Enabled(s, S.Yield) && S.Step(s, S.Yield) == M.Pick(s)
  {
  }

  lemma TickFacts<T>(s: M.State<T>)
    requires S.Inv(s)
    ensures 0 < s.quantum && s.elapsed + 1 < M.WORD
    ensures var a := s.(elapsed := s.elapsed + 1, quantum := s.quantum - 1);
      && M.Shaped(a) && a.threads[a.current].elapsed + a.elapsed < M.WORD
      && S.Enabled(s, S.Tick) && S.Step(s, S.Tick) == if a.quantum == 0 then M.Pick(a) else Some(a)
  {
    S.AtPickReady(s, S.Tick);
  }

  lemma PickParts<T>(s: M.State<T>)
    requires M.Shaped(s)
    ensures var c := M.Charge(s);
      && M.Shaped(c) && c.current == s.current && c.intent == s.intent
      && M.Shaped(M.Park(c)) && M.Shaped(M.Wake(M.Park(c))) && M.Wake(M.Park(c)).current == s.current
      && M.Pick(s) == M.Dispatch(M.Wake(M.Park(c)))
  {
    S.ReadyThreads(s);
    M.ParkShaped(M.Charge(s));
  }

  lemma DispatchRuns<T>(s: M.State<T>)
    requires M.Shaped(s)
    ensures M.Pick(s).Some? ==> M.Pick(s).value.intent == M.Running
  {
  }

  lemma MarksEnabled<T>(s: M.State<T>, tick: u32)
    ensures S.Enabled(s, S.MarkSleep(tick)) && S.Enabled(s, S.MarkExit)
  {
  }

  lemma DispatchNobody<T>(s: M.State<T>)
    requires M.Shaped(s) && forall q :: 0 <= q < M.PRIORITIES ==> s.active[q] == []
    ensures M.Dispatch(s) == None
  {
  }

  class Scheduler {
    var elapsed: u32
    var quantum: u32
    var current: Tcb
    const lists: seq<TcbList>  // active[0..3], slept, zombie
    var nextThreadId: u32

    ghost var book: map<Tcb, M.Thread>  // the live threads
    ghost var freed: seq<Tcb>
    ghost var repr: set<object>

    // ------------------------------------------------------- representation

    ghost predicate Owned()
      reads this
    {
      && |lists| == ZOMBIES + 1
      && this in repr
      && (forall k :: 0 <= k <= ZOMBIES ==> lists[k] in repr)
      && (forall j, k :: 0 <= j < k <= ZOMBIES ==> lists[j] != lists[k])
      && (forall t :: t in book ==> t in repr)
      && (forall i :: 0 <= i < |freed| ==> freed[i] in repr)
      && current in book
    }

    ghost function List(k: nat): TcbList
      requires k < |lists|
    {
      lists[k]
    }

    /** List k is well linked as far as the kernel keeps its links, and its members
        are live threads that belong there. */
    ghost predicate Sound(k: nat)
      requires Owned() && k <= ZOMBIES
      reads this, repr
    {
      && lists[k].head in repr
      && lists[k].chain != [] && lists[k].chain[0] == lists[k].head
      && (forall t :: t in lists[k].Members() ==> t in book && Belongs(t, k))
      && (lists[k].HeadAndMembers(); if k == ZOMBIES then lists[k].Singly() else lists[k].Doubly())
      && (k < SLEPT ==> lists[k].Tailed())
    }

    ghost predicate Booked()
      requires Owned()
      reads this, repr
    {
      forall t :: t in book ==> book[t] == Record(t)
    }

    ghost predicate Shape()
      reads this, repr
    {
      Owned() && Booked() && forall k :: 0 <= k <= ZOMBIES ==> Sound(k)
    }

    ghost function Members(k: nat): seq<Tcb>
      requires Owned() && k <= ZOMBIES && Sound(k)
      reads this, repr
    {
      lists[k].Members()
    }

    ghost function State(): M.State<Tcb>
      requires Shape()
      reads this, repr
    {
      M.State(elapsed, quantum, current, IntentOf(current),
              [Members(0), Members(1), Members(2), Members(3)],
              Members(SLEPT), Deltas(Members(SLEPT)), Members(ZOMBIES), freed, book)
    }

    /** The heap stands for s, whatever s says the current thread intends. */
    ghost predicate Is(s: M.State<Tcb>)
      reads this, repr
    {
      && Shape()
      && elapsed == s.elapsed && quantum == s.quantum && current == s.current
      && |s.active| == M.PRIORITIES && (forall p :: 0 <= p < M.PRIORITIES ==> Members(p) == s.active[p])
      && Members(SLEPT) == s.slept && Ticks(Members(SLEPT), s.deltas)
      && Members(ZOMBIES) == s.zombies && freed == s.freed
      && s.threads == book
    }

    lemma IsState(s: M.State<Tcb>)
      requires Is(s)
      ensures Shape() && State() == s.(intent := IntentOf(current))
    {
      TicksUnique(Members(SLEPT), s.deltas);
      assert [Members(0), Members(1), Members(2), Members(3)] == s.active;
    }

    lemma SelfState()
      requires Shape()
      ensures Is(State()) && State().elapsed == elapsed && State().quantum == quantum
      ensures State().current == current && current in book && State().intent == IntentOf(current)
    {
    }

    ghost predicate Valid()
      reads this, repr
    {
      Shape() && current.owner == null && current.flags <= 3 && S.Inv(State())
    }

    /** scheduler_init: empty lists, and main running with one tick to go. */
    constructor ()
      ensures Valid() && fresh(repr)
      ensures State() == M.Boot(current)
      ensures elapsed == 0 && quantum == 1 && current.priority == 3 && current.quantum == 4
      ensures current.threadId == 0 && nextThreadId == 1
    {
      hide TcbList.Singly, TcbList.Doubly, TcbList.Tailed, S.Inv, Sound, Members, State;
      var ls, r := NewLists();
      lists := ls;
      var main := new Tcb(3, 4);
      elapsed, quantum, current, nextThreadId := 0, 1, main, 1;
      book, freed := map[main := M.Thread(3, 4, 0)], [];
      repr := {this, main} + r;
      new;
      EmptyLists();
      BootState();
    }

    lemma EmptyLists()
      requires Owned()
      requires forall k :: 0 <= k <= ZOMBIES ==> lists[k].head in repr && lists[k].chain == [lists[k].head]
      requires forall k :: 0 <= k <= ZOMBIES ==> lists[k].Doubly() && lists[k].Singly() && lists[k].Tailed()
      ensures forall k :: 0 <= k <= ZOMBIES ==> Sound(k) && Members(k) == []
    {
      hide TcbList.Singly, TcbList.Doubly, TcbList.Tailed;
    }

    lemma BootState()
      requires Shape() && elapsed == 0 && quantum == 1 && freed == [] && book == map[current := M.Thread(3, 4, 0)]
      requires forall k :: 0 <= k <= ZOMBIES ==> Members(k) == []
      requires current.flags == 0
      ensures State() == M.Boot(current) && S.Inv(State())
    {
      S.BootInv(current);
    }

    // --------------------------------------------------------- list surgery

    /** No node is on two lists. */
    lemma Apart(p: nat)
      requires Shape() && p <= ZOMBIES
      ensures forall k, i, j :: 0 <= k <= ZOMBIES && k != p && 0 <= i < |lists[k].chain| && 0 <= j < |lists[p].chain| ==>
        lists[k].chain[i] != lists[p].chain[j]
    {
      assert Sound(p);
      forall k, i | 0 <= k <= ZOMBIES && 0 <= i < |lists[k].chain|
        ensures lists[k].chain[i].owner == lists[k]
      {
        assert Sound(k);
      }
    }

    /** A node that is off all lists is on none. */
    lemma OffList(t: Tcb)
      requires Shape() && t.owner == null
      ensures forall k, i :: 0 <= k <= ZOMBIES && 0 <= i < |lists[k].chain| ==> lists[k].chain[i] != t
    {
      forall k, i | 0 <= k <= ZOMBIES && 0 <= i < |lists[k].chain|
        ensures lists[k].chain[i] != t
      {
        assert Sound(k);
      }
    }

    /** scheduler_add: appends a thread to the active list of its priority. */
    method Add(t: Tcb)
      requires Shape() && t in book && t.owner == null && t.flags == 0 && t.priority < M.PRIORITIES
      modifies List(t.priority)`tail, List(t.priority)`chain, List(t.priority).chain`next, t`next, t`prev, t`owner
      ensures Shape() && Members(t.priority) == old(Members(t.priority)) + [t]
    {
      hide TcbList.Singly, TcbList.Doubly, TcbList.Tailed;
      ghost var p := t.priority;
      Apart(p);
      OffList(t);
      assert Sound(p);
      lists[t.priority].Append(t);
      lists[p].HeadFirst();
      forall k | 0 <= k <= ZOMBIES
        ensures Sound(k)
      {
        assert old(Sound(k));
      }
    }

    // ------------------------------------------------------------ scheduler_pick

    method ParkZombie(ghost s: M.State<Tcb>)
      requires Is(s) && current.owner == null && current.flags & FLAG_ZOMBIE != 0
      modifies repr
      ensures repr == old(repr) && nextThreadId == old(nextThreadId) && book.Keys == old(book.Keys) && Is(s.(zombies := [s.current] + s.zombies))
    {
      hide TcbList.Singly, TcbList.Doubly, TcbList.Tailed;
      assert Sound(ZOMBIES);
      Apart(ZOMBIES);
      OffList(current);
      lists[ZOMBIES].Push(current);
      lists[ZOMBIES].HeadFirst();
      forall k | 0 <= k <= ZOMBIES
        ensures Sound(k)
      {
        assert old(Sound(k));
      }
    }

    method ParkSleeper(ghost s: M.State<Tcb>)
      requires Is(s) && current.owner == null && current.flags == FLAG_SLEPT
      modifies repr
      ensures repr == old(repr) && nextThreadId == old(nextThreadId) && book.Keys == old(book.Keys)
      ensures var at := DeltaQueue.Position(s.deltas, old(current.sleepTick));
        && at <= |s.slept|
        && Is(s.(slept := s.slept[..at] + [s.current] + s.slept[at..],
                 deltas := DeltaQueue.Insert(s.deltas, old(current.sleepTick))))
    {
      hide TcbList.Singly, TcbList.Doubly, TcbList.Tailed, DeltaQueue.Insert, DeltaQueue.Position;
      assert Sound(SLEPT);
      Apart(SLEPT);
      OffList(current);
      lists[SLEPT].InsertSleeper(current, s.deltas);
      lists[SLEPT].HeadFirst();
      forall k | 0 <= k <= ZOMBIES
        ensures Sound(k)
      {
        assert old(Sound(k));
      }
    }

    method Requeue(t: Tcb, ghost s: M.State<Tcb>)
      requires Is(s) && M.Shaped(s) && t in book && t.owner == null && t.flags == 0
      modifies repr
      ensures repr == old(repr) && nextThreadId == old(nextThreadId) && book.Keys == old(book.Keys) && Is(M.Enqueue(s, t))
      ensures current == old(current) && current.flags == old(current.flags)
      ensures current.sleepTick == old(current.sleepTick) && (t != current ==> current.owner == old(current.owner))
      ensures t.threadId == old(t.threadId)
      ensures State() == M.Enqueue(s, t).(intent := IntentOf(current))
    {
      hide TcbList.Singly, TcbList.Doubly, TcbList.Tailed;
      assert Sound(t.priority);
      assert t.priority == s.threads[t].priority;
      Add(t);
      assert Is(M.Enqueue(s, t));
      IsState(M.Enqueue(s, t));
    }

    /** Files the current thread where its flags say. */
    method ParkCurrent(ghost s: M.State<Tcb>)
      requires Is(s) && M.Shaped(s) && s.current == current && current in book && s.intent == IntentOf(current)
      requires current.owner == null && current.flags <= 3
      modifies repr
      ensures repr == old(repr) && nextThreadId == old(nextThreadId) && book.Keys == old(book.Keys) && Is(M.Park(s))
    {
      hide Is;
      if current.flags & FLAG_ZOMBIE != 0 {
        ParkZombie(s);
      } else if current.flags & FLAG_SLEPT != 0 {
        ParkSleeper(s);
      } else {
        Requeue(current, s);
      }
    }

    /** One round of the wake loop. */
    method WakeFirst(first: Tcb, ghost s: M.State<Tcb>)
      requires Is(s) && M.Shaped(s) && s.slept != [] && first == s.slept[0] && s.deltas[0] <= s.elapsed
      modifies repr
      ensures repr == old(repr) && nextThreadId == old(nextThreadId) && book.Keys == old(book.Keys)
      ensures Is(M.Enqueue(s.(slept := s.slept[1..], deltas := s.deltas[1..]), first))
    {
      Unlink(first, s);
      Rouse(first, s.(slept := s.slept[1..], deltas := s.deltas[1..]));
      Requeue(first, s.(slept := s.slept[1..], deltas := s.deltas[1..]));
    }

    method Unlink(first: Tcb, ghost s: M.State<Tcb>)
      requires Is(s) && s.slept != [] && first == s.slept[0] && |s.slept| == |s.deltas|
      modifies repr
      ensures repr == old(repr) && nextThreadId == old(nextThreadId) && book.Keys == old(book.Keys)
      ensures Is(s.(slept := s.slept[1..], deltas := s.deltas[1..]))
      ensures first in book && first.owner == null && first.flags == FLAG_SLEPT
    {
      hide TcbList.Singly, TcbList.Doubly, TcbList.Tailed;
      assert Sound(SLEPT);
      assert first in lists[SLEPT].Members();
      Apart(SLEPT);
      lists[SLEPT].RemoveWoken(first);
      lists[SLEPT].HeadFirst();
      forall k | 0 <= k <= ZOMBIES
        ensures Sound(k)
      {
        assert old(Sound(k));
      }
    }

    /** A thread that is on no list can have its ticks and flags changed freely. */
    method Rouse(first: Tcb, ghost s: M.State<Tcb>)
      requires Is(s) && first in book && first.owner == null && first.flags == FLAG_SLEPT
      modifies first`sleepTick, first`flags
      ensures Is(s) && first.flags == 0
    {
      hide TcbList.Singly, TcbList.Doubly, TcbList.Tailed;
      OffList(first);
      assert Sound(SLEPT);
      ghost var m := Members(SLEPT);
      assert forall i :: 0 <= i < |m| ==> m[i] == lists[SLEPT].chain[i + 1];
      first.sleepTick := 0;
      first.flags := first.flags ^ FLAG_SLEPT;
      forall k | 0 <= k <= ZOMBIES
        ensures Sound(k)
      {
        assert old(Sound(k));
      }
      assert Members(SLEPT) == m;
    }

    /** The head's next field is the first member's address. */
    lemma FirstOf(k: nat)
      requires Shape() && k <= ZOMBIES
      ensures lists[k].head.next == if Members(k) == [] then null else Members(k)[0]
    {
      assert Sound(k);
      lists[k].Neighbours();
    }

    method ShortenHead(first: Tcb, ghost s: M.State<Tcb>)
      requires Is(s) && s.slept != [] && first == s.slept[0] && first.sleepTick > elapsed
      modifies first`sleepTick
      ensures Is(s.(deltas := s.deltas[0 := s.deltas[0] - s.elapsed]))
    {
      assert Sound(SLEPT);
      lists[SLEPT].Acyclic();
      ghost var m := Members(SLEPT);
      assert forall i :: 0 <= i < |m| ==> m[i] == lists[SLEPT].chain[i + 1];
      first.sleepTick := first.sleepTick - elapsed;
      assert Members(SLEPT) == m;
      forall k | 0 <= k <= ZOMBIES
        ensures Sound(k)
      {
        assert old(Sound(k));
      }
    }

    method WakeSleepers(ghost s: M.State<Tcb>)
      requires Is(s) && M.Shaped(s)
      modifies repr
      ensures repr == old(repr) && nextThreadId == old(nextThreadId) && book.Keys == old(book.Keys) && Is(M.Wake(s))
    {
      hide M.Wake, M.Enqueue;
      ghost var now := s;
      while true
        invariant repr == old(repr) && nextThreadId == old(nextThreadId) && book.Keys == old(book.Keys)
        invariant Is(now) && M.Shaped(now) && M.Wake(now) == M.Wake(s)
        decreases |now.slept|
      {
        FirstOf(SLEPT);
        M.WakeStep(now);
        var first := lists[SLEPT].head.next;
        if first == null {
          return;
        }
        if first.sleepTick > elapsed {
          ShortenHead(first, now);
          return;
        }
        WakeFirst(first, now);
        now := M.Enqueue(now.(slept := now.slept[1..], deltas := now.deltas[1..]), first);
      }
    }

    method TakeFrom(p: nat, ghost s: M.State<Tcb>) returns (target: Tcb?)
      requires Is(s) && p < M.PRIORITIES
      modifies repr
      ensures repr == old(repr) && nextThreadId == old(nextThreadId) && book.Keys == old(book.Keys)
      ensures target == null <==> s.active[p] == []
      ensures target == null ==> Is(s)
      ensures target != null ==>
        && target == s.active[p][0] && target in book && target.owner == null && target.flags == 0
        && Is(s.(active := s.active[p := s.active[p][1..]]))
    {
      hide TcbList.Singly, TcbList.Doubly, TcbList.Tailed;
      assert Sound(p);
      Apart(p);
      target := lists[p].RemoveFirst();
      lists[p].HeadFirst();
      forall k | 0 <= k <= ZOMBIES
        ensures Sound(k)
      {
        assert old(Sound(k));
      }
    }

    /** The search loop: the head of the first list with a thread. */
    method Search(ghost s: M.State<Tcb>) returns (target: Tcb?, ghost p: nat)
      requires Is(s)
      modifies repr
      ensures repr == old(repr) && nextThreadId == old(nextThreadId) && book.Keys == old(book.Keys) && p <= M.PRIORITIES == |s.active|
      ensures forall q :: 0 <= q < p ==> s.active[q] == []
      ensures target == null <==> p == M.PRIORITIES
      ensures target != null ==>
        && s.active[p] != [] && target == s.active[p][0] && target in book && target.owner == null && target.flags == 0
        && Is(s.(active := s.active[p := s.active[p][1..]]))
    {
      IsParts(s);
      hide Is, Shape, Owned, Booked, Sound;
      target, p := null, M.PRIORITIES;
      for i := 0 to M.PRIORITIES
        invariant repr == old(repr) && nextThreadId == old(nextThreadId) && book.Keys == old(book.Keys) && target == null && p == M.PRIORITIES && Is(s)
        invariant forall q :: 0 <= q < i ==> s.active[q] == []
      {
        target := TakeFrom(i, s);
        if target != null {
          p := i;
          return;
        }
      }
    }

    /** The search for a target, and its quantum. */
    method TakeTarget(ghost s: M.State<Tcb>) returns (target: Tcb?)
      requires Is(s) && M.Shaped(s)
      modifies repr
      ensures repr == old(repr) && nextThreadId == old(nextThreadId) && book.Keys == old(book.Keys)
      ensures target == null <==> M.Dispatch(s).None?
      ensures target != null ==> var r := M.Dispatch(s).value;
        && target == r.current && target.owner == null && target.flags == 0
        && current == s.current && target in book && Is(r.(current := s.current))
    {
      hide Is, M.Shaped, Shape, Owned, Booked, Sound, M.Dispatch, M.Highest;
      ghost var p;
      target, p := Search(s);
      if target != null {
        DispatchFrom(s, p);
        ghost var n := s.(active := s.active[p := s.active[p][1..]]);
        IsParts(n);
        Grant(target, n);
        IsOfIntent(M.Dispatch(s).value.(current := s.current), s.intent);
      } else {
        DispatchNobody(s);
      }
    }

    lemma IsParts(s: M.State<Tcb>)
      requires Is(s)
      ensures current == s.current && book == s.threads && |s.active| == M.PRIORITIES
      ensures this in repr && forall t :: t in book ==> t in repr
    {
    }

    /** What the current thread intends is not in the heap's part of the state. */
    lemma IsOfIntent(s: M.State<Tcb>, i: M.Intent)
      requires Is(s.(intent := i))
      ensures Is(s)
    {
    }

    method Grant(target: Tcb, ghost s: M.State<Tcb>)
      requires Is(s) && target in book
      modifies target`elapsed, this`elapsed, this`quantum, this`book
      ensures var c := s.threads[target]; var used := if c.elapsed >= c.quantum then 0 else c.elapsed;
        Is(s.(elapsed := 0, quantum := c.quantum - used, threads := s.threads[target := c.(elapsed := used)]))
    {
      hide TcbList.Singly, TcbList.Doubly, TcbList.Tailed, Ticks, Belongs;
      Renew(target, s);
      elapsed := 0;
      quantum := target.quantum - target.elapsed;
      forall k | 0 <= k <= ZOMBIES
        ensures Sound(k)
      {
        assert old(Sound(k));
      }
    }

    /** A thread that has spent its quantum starts a fresh one. */
    method Renew(target: Tcb, ghost s: M.State<Tcb>)
      requires Is(s) && target in book
      modifies target`elapsed, this`book
      ensures var c := s.threads[target];
        && target.elapsed == (if c.elapsed >= c.quantum then 0 else c.elapsed)
        && Is(s.(threads := s.threads[target := c.(elapsed := target.elapsed)]))
    {
      hide TcbList.Singly, TcbList.Doubly, TcbList.Tailed, Ticks, Belongs;
      if target.elapsed >= target.quantum {
        target.elapsed := 0;
      }
      book := book[target := book[target].(elapsed := target.elapsed)];
      assert book.Keys == old(book.Keys);
      forall k | 0 <= k <= ZOMBIES
        ensures Sound(k)
      {
        assert old(Sound(k));
      }
    }

    /** scheduler_pick.  NULL stands for the crash of a pick that finds nobody. */
    method Pick(ghost s: M.State<Tcb>) returns (target: Tcb?)
      requires Is(s) && M.Shaped(s) && s.current == current && current in book && s.intent == IntentOf(current)
      requires current.owner == null && current.flags <= 3
      requires s.threads[s.current].elapsed + s.elapsed < M.WORD
      modifies repr
      ensures repr == old(repr) && nextThreadId == old(nextThreadId) && book.Keys == old(book.Keys)
      ensures target == null <==> M.Pick(s).None?
      ensures target != null ==> var r := M.Pick(s).value;
        && target == r.current && target.owner == null && target.flags == 0
        && current == s.current && target in book && Is(r.(current := s.current))
    {
      hide *;
      IsParts(s);
      PickParts(s);
      ghost var c := M.Charge(s);
      Charge(s);
      ParkCurrent(c);
      WakeSleepers(M.Park(c));
      target := TakeTarget(M.Wake(M.Park(c)));
    }

    method Charge(ghost s: M.State<Tcb>)
      requires Is(s) && s.threads[s.current].elapsed + s.elapsed < M.WORD
      modifies current`elapsed, this`book
      ensures book.Keys == old(book.Keys) && Is(M.Charge(s))
    {
      hide TcbList.Singly, TcbList.Doubly, TcbList.Tailed;
      current.elapsed := current.elapsed + elapsed;
      book := book[current := book[current].(elapsed := current.elapsed)];
      forall k | 0 <= k <= ZOMBIES
        ensures Sound(k)
      {
        assert old(Sound(k));
      }
    }

    // ---------------------------------------------------------- the operations

    /** The switch of scheduler_yield: pick, then make the target current.  Not ok
        stands for the crash. */
    method Switch(ghost s: M.State<Tcb>) returns (ok: bool)
      requires Is(s) && M.Shaped(s) && s.current == current && current in book && s.intent == IntentOf(current)
      requires current.owner == null && current.flags <= 3
      requires s.threads[s.current].elapsed + s.elapsed < M.WORD
      modifies repr
      ensures repr == old(repr) && nextThreadId == old(nextThreadId)
      ensures ok <==> M.Pick(s).Some?
      ensures ok ==> Shape() && State() == M.Pick(s).value && current.owner == null && current.flags == 0
    {
      hide *;
      IsParts(s);
      DispatchRuns(s);
      var target := Pick(s);
      ok := target != null;
      if ok {
        SetCurrent(target, M.Pick(s).value);
      }
    }

    method SetCurrent(target: Tcb, ghost r: M.State<Tcb>)
      requires target in book && target.flags == 0
      requires target == r.current && r.intent == M.Running && Is(r.(current := current))
      modifies this`current
      ensures current == target && Shape() && State() == r
    {
      hide TcbList.Singly, TcbList.Doubly, TcbList.Tailed;
      current := target;
      forall k | 0 <= k <= ZOMBIES
        ensures Sound(k)
      {
        assert old(Sound(k));
      }
      IsState(r);
    }

    /** scheduler_yield. */
    method Yield() returns (ok: bool)
      requires Valid()
      modifies repr
      ensures repr == old(repr) && nextThreadId == old(nextThreadId)
      ensures ok <==> S.Step(old(State()), S.Yield).Some?
      ensures ok ==> Valid() && State() == S.Step(old(State()), S.Yield).value
    {
      hide Is, State, M.Pick, M.Shaped;
      hide *;
      Facts();
      ghost var s := State();
      YieldFacts(s);
      ok := Switch(s);
      if ok {
        S.StepKeepsInv(s, S.Yield);
        IsValid();
      }
    }

    /** What the operations start from, ... */
    lemma Facts()
      requires Valid()
      ensures Shape() && Is(State()) && S.Inv(State()) && this in repr && current in repr && current in book
      ensures State().current == current && State().intent == IntentOf(current) && State().threads == book
      ensures State().elapsed == elapsed && State().quantum == quantum
      ensures current.owner == null && current.flags <= 3
    {
      SelfState();
    }

    /** ... and what they have to come to. */
    lemma IsValid()
      requires Shape() && current.owner == null && current.flags <= 3 && S.Inv(State())
      ensures Valid()
    {
    }

    /** scheduler_tick: counts the tick, and yields when the quantum reaches zero. */
    method Tick() returns (ok: bool)
      requires Valid()
      modifies repr
      ensures repr == old(repr) && nextThreadId == old(nextThreadId)
      ensures ok <==> S.Step(old(State()), S.Tick).Some?
      ensures ok ==> Valid() && State() == S.Step(old(State()), S.Tick).value
    {
      hide *;
      Facts();
      ghost var s := State();
      TickFacts(s);
      ghost var a := s.(elapsed := s.elapsed + 1, quantum := s.quantum - 1);
      Count(s);
      if quantum == 0 {
        ok := Switch(a);
      } else {
        ok := true;
        IsState(a);
      }
      if ok {
        S.StepKeepsInv(s, S.Tick);
        IsValid();
      }
    }

    method Count(ghost s: M.State<Tcb>)
      requires Is(s) && 0 < quantum && elapsed + 1 < M.WORD
      modifies this`elapsed, this`quantum
      ensures elapsed == old(elapsed) + 1 && quantum == old(quantum) - 1
      ensures Is(s.(elapsed := s.elapsed + 1, quantum := s.quantum - 1))
    {
      hide TcbList.Singly, TcbList.Doubly, TcbList.Tailed;
      elapsed := elapsed + 1;
      quantum := quantum - 1;
      forall k | 0 <= k <= ZOMBIES
        ensures Sound(k)
      {
        assert old(Sound(k));
      }
    }

    /** The first half of scheduler_sleep. */
    method MarkSleep(tick: u32)
      requires Valid()
      modifies current`sleepTick, current`flags
      ensures Valid() && State() == S.Step(old(State()), S.MarkSleep(tick)).value
      ensures tick == 0 ==> current.sleepTick == old(current.sleepTick) && current.flags == old(current.flags)
      ensures tick != 0 ==> current.sleepTick == tick && current.flags == old(current.flags) | FLAG_SLEPT
    {
      hide Is, State, S.Inv, Shape, Owned, Booked, Sound;
      Facts();
      ghost var s := State();
      if tick != 0 {
        Mark(s, tick, current.flags | FLAG_SLEPT);
        S.StepKeepsInv(s, S.MarkSleep(tick));
      }
    }

    /** The first half of scheduler_exitthread. */
    method MarkExit()
      requires Valid()
      modifies current`sleepTick, current`flags
      ensures Valid() && State() == S.Step(old(State()), S.MarkExit).value
      ensures current.sleepTick == old(current.sleepTick) && current.flags == old(current.flags) | FLAG_ZOMBIE
    {
      hide Is, State, S.Inv, Shape, Owned, Booked, Sound;
      Facts();
      ghost var s := State();
      Mark(s, current.sleepTick, current.flags | FLAG_ZOMBIE);
      S.StepKeepsInv(s, S.MarkExit);
    }

    /** The running thread is on no list, so its ticks and flags are its own. */
    method Mark(ghost s: M.State<Tcb>, tick: u32, flags: bv32)
      requires Is(s) && current.owner == null
      modifies current`sleepTick, current`flags
      ensures Shape() && State() == s.(intent := IntentOf(current))
      ensures current.sleepTick == tick && current.flags == flags
    {
      hide TcbList.Singly, TcbList.Doubly, TcbList.Tailed;
      OffList(current);
      assert Sound(SLEPT);
      ghost var m := Members(SLEPT);
      assert forall i :: 0 <= i < |m| ==> m[i] == lists[SLEPT].chain[i + 1];
      current.sleepTick := tick;
      current.flags := flags;
      forall k | 0 <= k <= ZOMBIES
        ensures Sound(k)
      {
        assert old(Sound(k));
      }
      assert Members(SLEPT) == m;
      assert Is(s);
      IsState(s);
    }

    /** scheduler_sleep. */
    method Sleep(tick: u32) returns (ok: bool)
      requires Valid()
      modifies repr
      ensures repr == old(repr) && nextThreadId == old(nextThreadId)
      ensures ok <==> ThenYield(old(State()), S.MarkSleep(tick)).Some?
      ensures ok ==> Valid() && Some(State()) == ThenYield(old(State()), S.MarkSleep(tick))
    {
      hide *;
      Facts();
      MarksEnabled(State(), tick);
      ThenYieldIs(State(), S.MarkSleep(tick));
      MarkSleep(tick);
      ok := Yield();
    }

    /** scheduler_exitthread. */
    method ExitThread() returns (ok: bool)
      requires Valid()
      modifies repr
      ensures repr == old(repr) && nextThreadId == old(nextThreadId)
      ensures ok <==> ThenYield(old(State()), S.MarkExit).Some?
      ensures ok ==> Valid() && Some(State()) == ThenYield(old(State()), S.MarkExit)
      ensures ok ==> current != old(current) && State().zombies == [old(current)] + old(State().zombies)
    {
      hide *;
      Facts();
      ghost var s := State();
      MarksEnabled(s, 0);
      ThenYieldIs(s, S.MarkExit);
      MarkExit();
      ok := Yield();
      if ok {
        ExitThenYield(s);
        Facts();
      }
    }

    /** scheduler_run: a new control block, fresh from tcb_init. */
    method Run(t: Tcb)
      requires Valid() && t !in repr && t.owner == null && t.flags == 0 && t.elapsed == 0
      requires t.priority < M.PRIORITIES && 0 < t.quantum
      modifies repr, t
      ensures repr == old(repr) + {t} && t.threadId == old(nextThreadId) && nextThreadId == (old(nextThreadId) + 1) % M.WORD
      ensures Valid() && State() == S.Step(old(State()), S.Spawn(t, old(t.priority), old(t.quantum))).value
    {
      hide *;
      Facts();
      Unknown(t);
      ghost var s := State();
      Started(s, t, t.priority, t.quantum);
      Launch(t, s);
      IsValid();
    }

    lemma Unknown(t: Tcb)
      requires Shape() && t !in repr
      ensures t !in State().threads && t !in State().freed
      ensures t.priority < M.PRIORITIES ==> 0 < t.quantum ==> S.Enabled(State(), S.Spawn(t, t.priority, t.quantum))
    {
    }

    method Launch(t: Tcb, ghost s: M.State<Tcb>)
      requires Is(s) && M.Shaped(s) && t !in repr && t.owner == null && t.flags == 0 && t.elapsed == 0
      requires t.priority < M.PRIORITIES && current.owner == null
      modifies repr, t
      ensures repr == old(repr) + {t} && t.threadId == old(nextThreadId) && nextThreadId == (old(nextThreadId) + 1) % M.WORD
      ensures t.priority == old(t.priority) && t.quantum == old(t.quantum)
      ensures current.owner == null && current.flags == old(current.flags) && IntentOf(current) == old(IntentOf(current))
      ensures var n := s.(threads := s.threads[t := M.Thread(old(t.priority), old(t.quantum), 0)]);
        M.Shaped(n) && Shape() && State() == M.Enqueue(n, t).(intent := IntentOf(current))
    {
      assert t != current && this in repr;
      ghost var n := s.(threads := s.threads[t := M.Thread(t.priority, t.quantum, 0)]);
      assert M.Shaped(n);
      hide Is, Sound, State, M.Enqueue, M.Shaped;
      Register(t, s);
      Requeue(t, n);
    }

    method Register(t: Tcb, ghost s: M.State<Tcb>)
      requires Is(s) && t !in repr && t.flags == 0 && t.elapsed == 0
      modifies t`threadId, this`nextThreadId, this`book, this`repr
      ensures repr == old(repr) + {t} && t in book && t.threadId == old(nextThreadId) && nextThreadId == (old(nextThreadId) + 1) % M.WORD
      ensures Is(s.(threads := s.threads[t := M.Thread(t.priority, t.quantum, 0)]))
    {
      hide TcbList.Singly, TcbList.Doubly, TcbList.Tailed;
      t.threadId := nextThreadId;
      nextThreadId := (nextThreadId + 1) % M.WORD;
      book := book[t := M.Thread(t.priority, t.quantum, 0)];
      repr := repr + {t};
      forall k | 0 <= k <= ZOMBIES
        ensures Sound(k)
      {
        assert old(Sound(k));
      }
    }

    /** scheduler_cleanzombie: takes the first zombie off its list and frees it. */
    method CleanZombie() returns (cleaned: bool)
      requires Valid()
      modifies repr
      ensures repr == old(repr) && nextThreadId == old(nextThreadId)
      ensures cleaned <==> old(State()).zombies != []
      ensures Valid() && State() == S.Step(old(State()), S.Clean).value
    {
      ghost var s := State();
      SelfState();
      S.StepKeepsInv(s, S.Clean);
      FirstOf(ZOMBIES);
      cleaned := lists[ZOMBIES].head.next != null;
      if cleaned {
        S.ZombieOnlyThere(s, s.zombies[0]);
        hide Is, State, S.Inv, Sound;
        Reap(s);
      }
    }

    method Reap(ghost s: M.State<Tcb>)
      requires Is(s) && s.zombies != [] && s.zombies[0] != current && current.owner == null
      modifies repr
      ensures repr == old(repr) && nextThreadId == old(nextThreadId) && current.owner == null && current.flags == old(current.flags)
      ensures IntentOf(current) == old(IntentOf(current))
      ensures Shape()
      ensures State() == s.(zombies := s.zombies[1..], freed := s.freed + [s.zombies[0]],
                            threads := s.threads - {s.zombies[0]}, intent := IntentOf(current))
    {
      assert this in repr && s.zombies[0] in repr by {
        assert Sound(ZOMBIES);
        assert s.zombies[0] in Members(ZOMBIES);
      }
      hide Is, State;
      var tcb := TakeZombie(s);
      Forget(tcb, s.(zombies := s.zombies[1..]));
    }

    method TakeZombie(ghost s: M.State<Tcb>) returns (tcb: Tcb)
      requires Is(s) && s.zombies != [] && current.owner == null
      modifies repr
      ensures repr == old(repr) && nextThreadId == old(nextThreadId) && current == s.current && current.flags == old(current.flags)
      ensures current.sleepTick == old(current.sleepTick) && current.owner == null
      ensures tcb == s.zombies[0] && tcb.owner == null && Is(s.(zombies := s.zombies[1..]))
    {
      hide TcbList.Singly, TcbList.Doubly, TcbList.Tailed;
      assert Sound(ZOMBIES);
      Apart(ZOMBIES);
      OffList(current);
      var t := lists[ZOMBIES].Pop();
      tcb := t;
      lists[ZOMBIES].HeadFirst();
      forall k | 0 <= k <= ZOMBIES
        ensures Sound(k)
      {
        assert old(Sound(k));
      }
    }

    /** kfree of a control block that is on no list and not running. */
    method Forget(tcb: Tcb, ghost s: M.State<Tcb>)
      requires Is(s) && tcb in repr && tcb.owner == null && tcb != current
      modifies this`book, this`freed
      ensures Shape()
      ensures State() == s.(freed := s.freed + [tcb], threads := s.threads - {tcb}, intent := IntentOf(current))
    {
      hide TcbList.Singly, TcbList.Doubly, TcbList.Tailed;
      OffList(tcb);
      book := book - {tcb};
      freed := freed + [tcb];
      forall k | 0 <= k <= ZOMBIES
        ensures Sound(k)
      {
        assert old(Sound(k));
        lists[k].HeadAndMembers();
      }
      assert Is(s.(freed := s.freed + [tcb], threads := s.threads - {tcb}));
      IsState(s.(freed := s.freed + [tcb], threads := s.threads - {tcb}));
    }
  }
}

/** What becomes of a single thread over whole runs: what it is started with, that it
    sleeps when it asks to, and that it never runs again after its exit. */
module ThreadLives {
  import opened Options
  import opened SchedulerModel
  import opened SchedulerSteps
  import opened SchedulerRuns
  import DeltaQueue

  /** The running thread marks itself and yields. */
  function ThenYield<T>(s: State<T>, e: Event<T>): Option<State<T>>
    requires Inv(s) && Enabled(s, e) && (e.MarkSleep? || e.MarkExit?)
  {
    StepKeepsInv(s, e);
    Step(Step(s, e).value, Yield)
  }

  lemma ThenYieldIs<T>(s: State<T>, e: Event<T>)
    requires Inv(s) && Enabled(s, e) && (e.MarkSleep? || e.MarkExit?)
    ensures Step(s, e).Some? && Inv(Step(s, e).value) && ThenYield(s, e) == Step(Step(s, e).value, Yield)
  {
    StepKeepsInv(s, e);
  }

  // -------------------------------------------------------------------- the exit

  /** A zombie, or freed already. */
  predicate Gone<T(==)>(s: State<T>, t: T) {
    t in s.zombies || t in s.freed
  }

  /** Who is gone neither runs nor waits nor sleeps. */
  lemma GoneIsNowhere<T>(s: State<T>, t: T)
    requires Inv(s) && Gone(s, t)
    ensures t != s.current && t !in s.slept && forall p :: 0 <= p < PRIORITIES ==> t !in s.active[p]
  {
    assert Places(s, t) == 1;
    assert multiset(s.zombies)[t] + multiset(s.freed)[t] > 0 by {
      assert t in multiset(s.zombies) || t in multiset(s.freed);
    }
    assert t !in multiset(s.slept);
    forall p | 0 <= p < PRIORITIES
      ensures t !in s.active[p]
    {
      if t in s.active[p] {
        WaitingSees(s.active, p, t);
      }
    }
  }

  lemma StepStaysGone<T>(s: State<T>, e: Event<T>, t: T)
    requires Inv(s) && Enabled(s, e) && Step(s, e).Some? && Gone(s, t)
    ensures Gone(Step(s, e).value, t)
  {
    hide Inv, Pick, Ready;
    if Picks(s, e) {
      PickZombies(s, e);
    }
  }

  /** A pick files the running thread as a zombie or leaves the zombies alone. */
  lemma PickZombies<T>(s: State<T>, e: Event<T>)
    requires Inv(s) && Picks(s, e) && Enabled(s, e) && Step(s, e).Some?
    ensures var r := Step(s, e).value;
      && r.zombies == (if s.intent.Exiting? then [s.current] + s.zombies else s.zombies)
      && r.freed == s.freed
  {
    hide Placed, Budgeted, Queued, Pick;
    AtPickReady(s, e);
    PickRecords(AtPick(s, e));
  }

  /** The running thread wants to exit. */
  predicate Leaving<T(==)>(s: State<T>, t: T) {
    s.current == t && s.intent.Exiting?
  }

  lemma StepLeaving<T>(h: History<T>, e: Event<T>, t: T)
    requires Inv(h.s) && Enabled(h.s, e) && Advance(h, e).Some? && Leaving(h.s, t)
    ensures var n := Advance(h, e).value;
      if Picks(h.s, e) then n.s.zombies == [t] + h.s.zombies && |n.ledger| > |h.ledger|
      else Leaving(n.s, t) && n.ledger == h.ledger
  {
    hide Inv, Pick, Ready;
    if Picks(h.s, e) {
      PickZombies(h.s, e);
    }
  }

  lemma ExitThenYield<T>(s: State<T>)
    requires Inv(s) && ThenYield(s, MarkExit).Some?
    ensures var r := ThenYield(s, MarkExit).value; r.zombies == [s.current] + s.zombies && r.current != s.current
  {
    hide Inv, Pick;
    var m := Step(s, MarkExit).value;
    StepKeepsInv(s, MarkExit);
    PickZombies(m, Yield);
    StepKeepsInv(m, Yield);
    GoneIsNowhere(ThenYield(s, MarkExit).value, s.current);
  }

  lemma {:induction false} GoneRun<T>(h: History<T>, es: seq<Event<T>>, t: T)
    requires Inv(h.s) && Legal(h, es) && Run(h, es).Some? && Gone(h.s, t)
    ensures Inv(Run(h, es).value.s) && Gone(Run(h, es).value.s, t)
    decreases |es|
  {
    hide Inv, Step, Advance, Gone;
    if es == [] {
    } else {
      RunUnfolds(h, es, 0);
      StepStaysGone(h.s, es[0], t);
      hide Legal, Run;
      GoneRun(Advance(h, es[0]).value, es[1..], t);
    }
  }

  lemma {:induction false} LeavingRun<T>(h: History<T>, es: seq<Event<T>>, t: T)
    requires Inv(h.s) && Legal(h, es) && Run(h, es).Some? && Leaving(h.s, t)
    ensures var n := Run(h, es).value;
      && Inv(n.s)
      && (Gone(n.s, t) || (n.s.current == t && n.ledger == h.ledger && forall i :: 0 <= i < |es| ==> !es[i].Yield?))
    decreases |es|
  {
    hide Inv, Step, Advance;
    if es == [] {
    } else {
      RunUnfolds(h, es, 0);
      StepLeaving(h, es[0], t);
      var n := Advance(h, es[0]).value;
      hide Legal, Run;
      if Picks(h.s, es[0]) {
        GoneRun(n, es[1..], t);
      } else {
        LeavingRun(n, es[1..], t);
        assert forall i :: 0 < i < |es| ==> es[i] == es[1..][i - 1];
      }
    }
  }

  lemma Marked<T>(h: History<T>, e: Event<T>, es: seq<Event<T>>)
    requires Inv(h.s) && Legal(h, [e] + es) && Run(h, [e] + es).Some?
    ensures Enabled(h.s, e) && Advance(h, e).Some? && Step(h.s, e) == Some(Advance(h, e).value.s)
    ensures var m := Advance(h, e).value;
      Inv(m.s) && Legal(m, es) && Run(m, es) == Run(h, [e] + es)
  {
    RunUnfolds(h, [e] + es, 0);
    assert ([e] + es)[1..] == es;
  }

  /** A thread that exits is finished: over any run on from there, as soon as there has
      been a pick, by a yield or a tick, it is a zombie or freed, and it is nowhere else. */
  lemma ExitIsFinal<T>(h: History<T>, es: seq<Event<T>>, n: History<T>)
    requires Leads(h, [MarkExit] + es, n)
    requires n.ledger != h.ledger || exists i :: 0 <= i < |es| && es[i].Yield?
    ensures h.s.current in n.s.zombies || h.s.current in n.s.freed
    ensures h.s.current != n.s.current && h.s.current !in n.s.slept
    ensures forall p :: 0 <= p < |n.s.active| ==> h.s.current !in n.s.active[p]
  {
    hide Inv, Legal, Run;
    Marked(h, MarkExit, es);
    var m := Advance(h, MarkExit).value;
    assert Leaving(m.s, h.s.current) && m.ledger == h.ledger;
    LeavingRun(m, es, h.s.current);
    GoneIsNowhere(n.s, h.s.current);
    ListPerPriority(n.s);
  }

  /** The pick after the exit, made by a yield or by the tick that uses the quantum up,
      puts the thread in front of the zombies. */
  lemma ExitMakesZombie<T>(h: History<T>, e: Event<T>, n: History<T>)
    requires Leads(h, [MarkExit, e], n)
    requires e.Yield? || (e.Tick? && h.s.quantum == 1)
    ensures n.s.zombies == [h.s.current] + h.s.zombies
    ensures n.s.current != h.s.current
  {
    hide Inv, Legal, Run, Pick;
    assert [MarkExit] + [e] == [MarkExit, e];
    Marked(h, MarkExit, [e]);
    var m := Advance(h, MarkExit).value;
    assert [e] + [] == [e];
    Marked(m, e, []);
    RunsNothing(Advance(m, e).value);
    PickZombies(m.s, e);
    GoneIsNowhere(n.s, h.s.current);
  }

  lemma RunsNothing<T>(h: History<T>)
    requires Inv(h.s)
    ensures Legal(h, []) && Run(h, []) == Some(h)
  {
  }

  // ------------------------------------------------------------------- the sleep

  lemma {:induction false} NotIn<T>(s: seq<T>, p: nat, k: nat, t: T)
    requires p < |s| && k <= |s| && s[p] == t && forall i :: 0 <= i < |s| && i != p ==> s[i] != t
    ensures t in s[k..] <==> k <= p
  {
    if k <= p {
      assert s[k..][p - k] == t;
    }
  }

  /** Parked, the thread stands where its delta belongs, and nowhere else in the queue. */
  lemma ParkedAt<T>(a: State<T>)
    requires Shaped(a) && a.intent.Sleeping? && a.current !in a.slept
    ensures var p := DeltaQueue.Position(a.deltas, a.intent.ticks); var q := Park(a).slept;
      && p < |q| && q[p] == a.current && (forall i :: 0 <= i < |q| && i != p ==> q[i] != a.current)
      && Park(a).deltas == DeltaQueue.Insert(a.deltas, a.intent.ticks)
  {
    DeltaQueue.InsertMeaning(a.deltas, a.intent.ticks);
  }

  lemma PickSleeps<T>(a: State<T>)
    requires Shaped(a) && a.intent.Sleeping? && a.current !in a.slept && Pick(a).Some?
    ensures a.current in Pick(a).value.slept <==> DeltaQueue.Outlasts(a.deltas, a.intent.ticks, a.elapsed)
  {
    ParkedAt(a);
    ReadyQueue(a);
    DispatchKeepsQueue(Ready(a));
    hide Shaped, Park, Ready;
    var ds, n, e := a.deltas, a.intent.ticks, a.elapsed;
    DeltaQueue.StaysAsleepIff(ds, n, e);
    NotIn(Park(a).slept, DeltaQueue.Position(ds, n), DeltaQueue.Expired(Park(a).deltas, e), a.current);
  }

  lemma DispatchKeepsQueue<T>(s: State<T>)
    requires Shaped(s) && Dispatch(s).Some?
    ensures Dispatch(s).value.slept == s.slept
  {
  }

  lemma StepSleeps<T>(s: State<T>, e: Event<T>)
    requires Inv(s) && Picks(s, e) && Enabled(s, e) && Step(s, e).Some? && s.intent.Sleeping?
    ensures s.current in Step(s, e).value.slept <==> DeltaQueue.Outlasts(s.deltas, s.intent.ticks, AtPick(s, e).elapsed)
    ensures s.current in Step(s, e).value.threads
  {
    hide Placed, Budgeted, Pick;
    AtPickReady(s, e);
    CurrentAwake(s);
    PickRecords(AtPick(s, e));
    PickSleeps(AtPick(s, e));
  }

  lemma TickUsed<T>(s: State<T>, e: Event<T>)
    requires Inv(s) && (e.Yield? || (e.Tick? && s.quantum == 1))
    ensures Picks(s, e) && AtPick(s, e).elapsed == if e.Tick? then s.elapsed + 1 else s.elapsed
  {
    AtPickReady(s, e);
  }

  /** A thread that asks for k ticks is asleep after the pick exactly if its delta, or one
      in front of it, exceeds what the slice has used; else the wake loop of that same pick
      makes it runnable again. */
  lemma SleepsIff<T>(h: History<T>, k: nat, e: Event<T>, n: History<T>)
    requires k > 0 && !h.s.intent.Exiting? && Leads(h, [MarkSleep(k), e], n)
    requires e.Yield? || (e.Tick? && h.s.quantum == 1)
    ensures h.s.current in n.s.slept <==>
      DeltaQueue.Outlasts(h.s.deltas, k, if e.Tick? then h.s.elapsed + 1 else h.s.elapsed)
    ensures h.s.current in n.s.threads && n.s.zombies == h.s.zombies
  {
    hide Inv, Legal, Run, Pick;
    assert [MarkSleep(k)] + [e] == [MarkSleep(k), e];
    Marked(h, MarkSleep(k), [e]);
    var m := Advance(h, MarkSleep(k)).value;
    assert [e] + [] == [e];
    Marked(m, e, []);
    RunsNothing(Advance(m, e).value);
    assert m.s == h.s.(intent := Sleeping(k));
    TickUsed(m.s, e);
    PickZombies(m.s, e);
    StepSleeps(m.s, e);
  }

  /** Asking for no ticks is yielding. */
  lemma SleepsNotAtAll<T>(s: State<T>)
    requires Inv(s)
    ensures Step(s, MarkSleep(0)) == Some(s)
  {
  }

  // ------------------------------------------------------------- start and freeing

  lemma StepParameters<T>(s: State<T>, e: Event<T>, t: T)
    requires Inv(s) && Enabled(s, e) && Step(s, e).Some?
    ensures var r := Step(s, e).value;
      && (t in s.threads ==>
            if t in r.threads then r.threads[t].priority == s.threads[t].priority && r.threads[t].quantum == s.threads[t].quantum
            else t in r.freed)
      && (t in s.freed ==> t in r.freed)
  {
    hide Placed, Budgeted, Queued, Pick;
    if Picks(s, e) {
      AtPickReady(s, e);
      PickRecords(AtPick(s, e));
      PickElapsed(AtPick(s, e));
    }
  }

  lemma {:induction false} FreedStays<T>(h: History<T>, es: seq<Event<T>>, t: T)
    requires Inv(h.s) && Legal(h, es) && Run(h, es).Some? && t in h.s.freed
    ensures t in Run(h, es).value.s.freed
    decreases |es|
  {
    hide Inv, Step, Advance;
    if es == [] {
    } else {
      RunUnfolds(h, es, 0);
      StepParameters(h.s, es[0], t);
      hide Legal, Run;
      FreedStays(Advance(h, es[0]).value, es[1..], t);
    }
  }

  /** A thread's priority and quantum are never changed while it is on record, and
      whoever leaves the record has been freed. */
  lemma {:induction false} ParametersStay<T>(h: History<T>, es: seq<Event<T>>, t: T)
    requires Inv(h.s) && Legal(h, es) && Run(h, es).Some? && t in h.s.threads
    ensures var s, r := h.s, Run(h, es).value.s;
      t in r.freed || (t in r.threads && r.threads[t].priority == s.threads[t].priority && r.threads[t].quantum == s.threads[t].quantum)
    decreases |es|
  {
    hide Inv, Step, Advance;
    if es == [] {
    } else {
      RunUnfolds(h, es, 0);
      StepParameters(h.s, es[0], t);
      var n := Advance(h, es[0]).value;
      hide Legal, Run;
      if t in n.s.threads {
        ParametersStay(n, es[1..], t);
      } else {
        FreedStays(n, es[1..], t);
      }
    }
  }

  lemma SpawnRecords<T>(s: State<T>, t: T, priority: nat, quantum: nat)
    requires Inv(s) && Enabled(s, Spawn(t, priority, quantum))
    ensures var r := Step(s, Spawn(t, priority, quantum)).value;
      && r.threads == s.threads[t := Thread(priority, quantum, 0)]
      && r == s.(threads := r.threads, active := s.active[priority := s.active[priority] + [t]])
  {
  }

  /** A thread is started behind everybody of its priority, and has the priority and the
      quantum it was started with for as long as it is on record. */
  lemma SpawnedAsAsked<T>(h: History<T>, t: T, priority: nat, quantum: nat, es: seq<Event<T>>, n: History<T>)
    requires Leads(h, [Spawn(t, priority, quantum)] + es, n)
    ensures priority < |h.s.active| && Advance(h, Spawn(t, priority, quantum)).Some?
    ensures Advance(h, Spawn(t, priority, quantum)).value.s.active == h.s.active[priority := h.s.active[priority] + [t]]
    ensures t in n.s.freed || (t in n.s.threads && n.s.threads[t].priority == priority && n.s.threads[t].quantum == quantum)
  {
    hide Inv, Legal, Run, Pick, Step, Advance;
    ListPerPriority(h.s);
    Marked(h, Spawn(t, priority, quantum), es);
    SpawnRecords(h.s, t, priority, quantum);
    ParametersStay(Advance(h, Spawn(t, priority, quantum)).value, es, t);
  }

  function Cleans<T>(k: nat): (es: seq<Event<T>>)
    ensures |es| == k
  {
    if k == 0 then [] else [Clean] + Cleans(k - 1)
  }

  /** Cleaning up k times frees the k threads that exited last, the last one first, and
      touches nothing else but their records. */
  lemma {:induction false} CleansFree<T>(h: History<T>, k: nat, n: History<T>)
    requires k <= |h.s.zombies| && Leads(h, Cleans(k), n)
    ensures n.s.zombies == h.s.zombies[k..] && n.s.freed == h.s.freed + h.s.zombies[..k]
    ensures forall t :: t in n.s.threads <==> t in h.s.threads && t !in h.s.zombies[..k]
    ensures n.s == h.s.(zombies := n.s.zombies, freed := n.s.freed, threads := n.s.threads)
    decreases k
  {
    hide Inv, Pick;
    if k == 0 {
    } else {
      Marked(h, Clean, Cleans(k - 1));
      hide Legal, Run, Cleans;
      CleansFree(Advance(h, Clean).value, k - 1, n);
      assert h.s.zombies[..k] == [h.s.zombies[0]] + h.s.zombies[1..][..k - 1];
    }
  }

  /** With no zombies there is nothing to clean. */
  lemma CleansNothing<T>(s: State<T>)
    requires Inv(s) && s.zombies == []
    ensures Step(s, Clean) == Some(s)
  {
  }

  // ----------------------------------------------------------------- preemption

  /** Whoever is preempted waits behind everybody who waited in its list already, in
      front of those woken by the same pick. */
  lemma ReadyOrder<T>(s: State<T>, p: nat)
    requires Shaped(s) && p < PRIORITIES
    ensures var k := DeltaQueue.Expired(Park(s).deltas, s.elapsed);
      && Shaped(Ready(s)) && Shaped(Park(s)) && k <= |Park(s).slept|
      && Ready(s).active[p] ==
           s.active[p]
           + (if s.intent.Running? && s.threads[s.current].priority == p then [s.current] else [])
           + OfPriority(Park(s).slept[..k], s.threads, p)
  {
    var c := Charge(s);
    ParkOrder(s, p);
    WakeMeaning(Park(c));
    hide Shaped, Park, OfPriority, Wake;
    SameOfPriority(Park(s).slept[..DeltaQueue.Expired(Park(s).deltas, s.elapsed)], s.threads, c.threads, p);
  }

  /** Charging changes no priority, so parking after it files everybody alike. */
  lemma ParkOrder<T>(s: State<T>, p: nat)
    requires Shaped(s) && p < PRIORITIES
    ensures var c := Charge(s);
      && Shaped(c) && Shaped(Park(c)) && Shaped(Park(s))
      && Park(c).slept == Park(s).slept && Park(c).deltas == Park(s).deltas && Park(c).elapsed == s.elapsed
      && Park(c).threads == c.threads && c.threads.Keys == s.threads.Keys
      && (forall t :: t in s.threads ==> c.threads[t].priority == s.threads[t].priority)
      && (forall i :: 0 <= i < |Park(s).slept| ==> Park(s).slept[i] in s.threads)
      && Park(c).active[p] ==
           s.active[p] + if s.intent.Running? && s.threads[s.current].priority == p then [s.current] else []
  {
    ParkShaped(Charge(s));
    ParkShaped(s);
  }

  /** So a preempted thread is dispatched again at once only if nobody else waited in its
      list, and otherwise waits at the place behind all that did. */
  lemma PreemptedPlace<T>(s: State<T>, e: Event<T>, p: nat)
    requires Inv(s) && Picks(s, e) && Enabled(s, e) && s.intent.Running? && s.threads[s.current].priority == p
    ensures Step(s, e).Some? && p < PRIORITIES
    ensures var r := Step(s, e).value;
      if r.current == s.current then s.active[p] == []
      else if Serving(s, e, p) then s.active[p] != [] && At(r, p, |s.active[p]| - 1, s.current)
      else At(r, p, |s.active[p]|, s.current)
  {
    hide Placed, Budgeted, Queued, Park, OfPriority;
    var a := AtPick(s, e);
    AtPickReady(s, e);
    ReadyOrder(a, p);
    CurrentOffLists(s, p);
    hide Ready;
    assert a.active == s.active;
    assert Ready(a).active[p][|s.active[p]|] == s.current;
    DispatchPlace(Ready(a), p, s.active[p], s.current);
  }

  lemma CurrentOffLists<T>(s: State<T>, p: nat)
    requires Inv(s) && p < PRIORITIES
    ensures s.current !in s.active[p]
  {
    assert Places(s, s.current) == 1;
    if s.current in s.active[p] {
      WaitingSees(s.active, p, s.current);
    }
  }

  lemma DispatchPlace<T>(r: State<T>, p: nat, before: seq<T>, t: T)
    requires Shaped(r) && p < PRIORITIES && |before| < |r.active[p]| && before <= r.active[p] && r.active[p][|before|] == t
    requires t !in before && t in r.threads && r.threads[t].priority == p
    ensures Dispatch(r).Some?
    ensures var n := Dispatch(r).value;
      if n.current == t then before == []
      else if Highest(r.active) == p then before != [] && At(n, p, |before| - 1, t)
      else At(n, p, |before|, t)
  {
    assert Highest(r.active) == p ==> r.active[p][0] == Dispatch(r).value.current;
  }

  lemma {:induction false} SameOfPriority<T>(ts: seq<T>, a: map<T, Thread>, b: map<T, Thread>, p: nat)
    requires forall i :: 0 <= i < |ts| ==> ts[i] in a && ts[i] in b && a[ts[i]].priority == b[ts[i]].priority
    ensures OfPriority(ts, a, p) == OfPriority(ts, b, p)
  {
    if ts == [] {
    } else {
      SameOfPriority(ts[1..], a, b, p);
    }
  }
}

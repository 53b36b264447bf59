/** Whole runs of the scheduler: time, deadlines, the account of charged ticks,
    waiting, and the guarantee that a pick always finds somebody. */
module SchedulerRuns {
  import opened Options
  import opened SchedulerModel
  import opened SchedulerSteps
  import DeltaQueue

  /** One line of the account: ticks charged to a thread, or a fresh quantum granted to it. */
  datatype Entry<T> = Charged(t: T, ticks: nat) | Renewed(t: T)

  /** A scheduler state with what an observer remembers: the ticks since boot, for
      each thread that asked to sleep the time of the pick that had dispatched it
      plus the ticks it asked for, and the account. */
  datatype History<T(==)> = History(s: State<T>, now: nat, deadline: map<T, int>, ledger: seq<Entry<T>>)

  function Start<T>(main: T): (h: History<T>)
    ensures Inv(h.s)
  {
    BootInv(main);
    History(Boot(main), 0, map[], [])
  }

  /** The pick made in state a grants its target a fresh quantum. */
  predicate Renews<T>(a: State<T>)
    requires Shaped(a) && Pick(a).Some?
  {
    PickElapsed(a);
    var c := Charge(a).threads[Pick(a).value.current];
    c.elapsed >= c.quantum
  }

  /** The new lines of the account when a pick happens in state a. */
  function Lines<T(==)>(a: State<T>): seq<Entry<T>>
    requires Shaped(a) && Pick(a).Some?
  {
    [Charged(a.current, a.elapsed)] + if Renews(a) then [Renewed(Pick(a).value.current)] else []
  }

  function Advance<T>(h: History<T>, e: Event<T>): Option<History<T>>
    requires Inv(h.s) && Enabled(h.s, e)
  {
    match Step(h.s, e)
    case None => None
    case Some(r) =>
      AtPickReady(h.s, e);
      Some(History(
        r,
        if e.Tick? then h.now + 1 else h.now,
        if e.MarkSleep? && e.ticks > 0 then h.deadline[h.s.current := h.now - h.s.elapsed + e.ticks] else h.deadline,
        if Picks(h.s, e) then h.ledger + Lines(AtPick(h.s, e)) else h.ledger))
  }

  /** Callers keep their side at every step of the run. */
  ghost predicate Legal<T>(h: History<T>, es: seq<Event<T>>)
    requires Inv(h.s)
    decreases |es|
  {
    es == [] ||
    (Enabled(h.s, es[0]) &&
     (Advance(h, es[0]).Some? ==>
        (StepKeepsInv(h.s, es[0]); Legal(Advance(h, es[0]).value, es[1..]))))
  }

  /** The run of the events es, or None if some pick finds nobody to run. */
  ghost function Run<T>(h: History<T>, es: seq<Event<T>>): Option<History<T>>
    requires Inv(h.s) && Legal(h, es)
    decreases |es|
  {
    if es == [] then Some(h)
    else match Advance(h, es[0])
      case None => None
      case Some(n) =>
        StepKeepsInv(h.s, es[0]);
        Run(n, es[1..])
  }

  /** The run of es from boot ends in h. */
  ghost predicate Reached<T>(main: T, es: seq<Event<T>>, h: History<T>) {
    Legal(Start(main), es) && Run(Start(main), es) == Some(h)
  }

  /** The run of es leads from h to n. */
  ghost predicate Leads<T>(h: History<T>, es: seq<Event<T>>, n: History<T>) {
    Inv(h.s) && Legal(h, es) && Run(h, es) == Some(n) && Inv(n.s)
  }

  /** The event e leads from h to n. */
  ghost predicate Follows<T>(h: History<T>, e: Event<T>, n: History<T>) {
    Inv(h.s) && Enabled(h.s, e) && Advance(h, e) == Some(n)
  }

  // ------------------------------------------------------------- what runs maintain

  /** Nobody asleep has more left than its deadline allows, counted from the last pick. */
  ghost predicate Punctual<T>(h: History<T>) {
    && h.s.elapsed <= h.now
    && |h.s.slept| == |h.s.deltas|
    && (forall i :: 0 <= i < |h.s.slept| ==> h.s.slept[i] in h.deadline)
    && (forall i :: 0 <= i < |h.s.slept| ==>
          0 < DeltaQueue.Due(h.s.deltas, i) <= h.deadline[h.s.slept[i]] - (h.now - h.s.elapsed))
    && (h.s.intent.Sleeping? ==>
          h.s.current in h.deadline && h.deadline[h.s.current] == h.now - h.s.elapsed + h.s.intent.ticks)
  }

  /** All ticks ever charged. */
  function TotalCharged<T>(ledger: seq<Entry<T>>): nat {
    if ledger == [] then 0
    else (match ledger[0] case Charged(_, n) => n case Renewed(_) => 0) + TotalCharged(ledger[1..])
  }

  /** What t was charged since it was last granted a fresh quantum. */
  function SinceRenewal<T(==)>(ledger: seq<Entry<T>>, t: T): nat {
    if ledger == [] then 0
    else match ledger[|ledger| - 1]
      case Renewed(x) => if x == t then 0 else SinceRenewal(ledger[..|ledger| - 1], t)
      case Charged(x, n) => SinceRenewal(ledger[..|ledger| - 1], t) + if x == t then n else 0
  }

  ghost predicate Accounted<T>(h: History<T>) {
    && TotalCharged(h.ledger) + h.s.elapsed == h.now
    && (forall t :: t in h.s.threads ==> SinceRenewal(h.ledger, t) == h.s.threads[t].elapsed)
    && (forall i :: 0 <= i < |h.ledger| ==> h.ledger[i].t in h.s.threads || h.ledger[i].t in h.s.freed)
  }

  ghost predicate Good<T>(h: History<T>) {
    Inv(h.s) && Punctual(h) && Accounted(h)
  }

  lemma StartGood<T>(main: T)
    ensures Good(Start(main))
  {
    BootInv(main);
  }

  // ------------------------------------------------------------------ never late

  /** A pick at time now leaves asleep only threads whose deadline is still ahead,
      each with at most the time that is left until then. */
  lemma PickPunctual<T>(h: History<T>, e: Event<T>)
    requires Inv(h.s) && Punctual(h) && Enabled(h.s, e) && Picks(h.s, e) && Advance(h, e).Some?
    ensures var n := Advance(h, e).value;
      Punctual(n) && n.s.elapsed == 0 && n.s.intent == Running
  {
    hide Placed, Budgeted, Funded, Wake, Park, Charge, Ready;
    var n := Advance(h, e).value;
    var a := AtPick(h.s, e);
    AtPickReady(h.s, e);
    ReadyPunctual(h.(s := a, now := n.now));
  }

  /** Whom the wake loop leaves asleep has its deadline ahead and is left with no more. */
  lemma ReadyPunctual<T>(h: History<T>)
    requires Shaped(h.s) && Queued(h.s) && Punctual(h)
    ensures var r := Ready(h.s);
      && Shaped(r)
      && (forall i :: 0 <= i < |r.slept| ==> r.slept[i] in h.deadline)
      && (forall i :: 0 <= i < |r.slept| ==> 0 < DeltaQueue.Due(r.deltas, i) <= h.deadline[r.slept[i]] - h.now)
  {
    ParkPunctual(h);
    ReadyQueue(h.s);
    var p, r := Park(h.s), Ready(h.s);
    hide Placed, Shaped, Queued, Ready, Park;
    var k := DeltaQueue.Expired(p.deltas, h.s.elapsed);
    DeltaQueue.AfterWakeNeverLate(p.deltas, h.s.elapsed);
    forall i | 0 <= i < |r.slept|
      ensures r.slept[i] in h.deadline
      ensures 0 < DeltaQueue.Due(r.deltas, i) <= h.deadline[r.slept[i]] - h.now
    {
      assert r.slept[i] == p.slept[k + i];
      assert DeltaQueue.Due(r.deltas, i) <= DeltaQueue.Due(p.deltas, k + i) - h.s.elapsed;
    }
  }

  /** Parking files a sleeper under its deadline and moves nobody else's. */
  lemma ParkPunctual<T>(h: History<T>)
    requires Shaped(h.s) && Queued(h.s) && Punctual(h)
    ensures var p := Park(h.s);
      && |p.slept| == |p.deltas|
      && (forall i :: 0 <= i < |p.slept| ==> p.slept[i] in h.deadline)
      && (forall i :: 0 <= i < |p.slept| ==>
            DeltaQueue.Due(p.deltas, i) <= h.deadline[p.slept[i]] - (h.now - h.s.elapsed))
  {
    if h.s.intent.Sleeping? {
      var n := h.s.intent.ticks;
      DeltaQueue.InsertMeaning(h.s.deltas, n);
      var at, p := DeltaQueue.Position(h.s.deltas, n), Park(h.s);
      forall i | 0 <= i < |p.slept|
        ensures p.slept[i] in h.deadline
        ensures DeltaQueue.Due(p.deltas, i) <= h.deadline[p.slept[i]] - (h.now - h.s.elapsed)
      {
        if i > at {
          assert p.slept[i] == h.s.slept[i - 1];
          assert DeltaQueue.Due(p.deltas, i - 1 + 1) == DeltaQueue.Due(h.s.deltas, i - 1);
        }
      }
    }
  }

  lemma StepPunctual<T>(h: History<T>, e: Event<T>)
    requires Inv(h.s) && Punctual(h) && Enabled(h.s, e) && Advance(h, e).Some?
    ensures Punctual(Advance(h, e).value)
  {
    hide Placed;
    AtPickReady(h.s, e);
    if Picks(h.s, e) {
      PickPunctual(h, e);
    } else if e.MarkSleep? && e.ticks > 0 {
      CurrentAwake(h.s);
    }
  }

  lemma CurrentAwake<T>(s: State<T>)
    requires Inv(s)
    ensures forall i :: 0 <= i < |s.slept| ==> s.slept[i] != s.current
  {
    assert Places(s, s.current) == 1;
    forall i | 0 <= i < |s.slept|
      ensures s.slept[i] != s.current
    {
      assert s.slept[i] in multiset(s.slept);
    }
  }

  // -------------------------------------------------------------- tick accounting

  lemma {:induction false} TotalAppends<T>(a: seq<Entry<T>>, b: seq<Entry<T>>)
    ensures TotalCharged(a + b) == TotalCharged(a) + TotalCharged(b)
  {
    if a == [] {
      assert a + b == b;
    } else {
      assert (a + b)[1..] == a[1..] + b;
      TotalAppends(a[1..], b);
    }
  }

  lemma SinceAppends<T>(ledger: seq<Entry<T>>, e: Entry<T>, t: T)
    ensures SinceRenewal(ledger + [e], t) ==
      match e
      case Renewed(x) => if x == t then 0 else SinceRenewal(ledger, t)
      case Charged(x, n) => SinceRenewal(ledger, t) + if x == t then n else 0
  {
    assert (ledger + [e])[..|ledger|] == ledger;
  }

  lemma {:induction false} SinceUnmentioned<T>(ledger: seq<Entry<T>>, t: T)
    requires forall i :: 0 <= i < |ledger| ==> ledger[i].t != t
    ensures SinceRenewal(ledger, t) == 0
  {
    if ledger == [] {
    } else {
      SinceUnmentioned(ledger[..|ledger| - 1], t);
    }
  }

  /** The lines of a pick carry exactly the change of the threads' elapsed fields. */
  lemma PickSince<T>(ledger: seq<Entry<T>>, a: State<T>, t: T)
    requires Shaped(a) && Pick(a).Some? && t in a.threads
    requires SinceRenewal(ledger, t) == a.threads[t].elapsed
    ensures t in Pick(a).value.threads
    ensures SinceRenewal(ledger + Lines(a), t) == Pick(a).value.threads[t].elapsed
  {
    PickElapsed(a);
    var charged, target := Charged(a.current, a.elapsed), Pick(a).value.current;
    SinceAppends(ledger, charged, t);
    if Renews(a) {
      SinceAppends(ledger + [charged], Renewed(target), t);
      assert ledger + Lines(a) == (ledger + [charged]) + [Renewed(target)];
    } else {
      assert ledger + Lines(a) == ledger + [charged];
    }
  }

  lemma PickTotal<T>(ledger: seq<Entry<T>>, a: State<T>)
    requires Shaped(a) && Pick(a).Some?
    ensures TotalCharged(ledger + Lines(a)) == TotalCharged(ledger) + a.elapsed
    ensures forall i :: 0 <= i < |Lines(a)| ==> Lines(a)[i].t in a.threads
  {
    PickElapsed(a);
    var lines := Lines(a);
    TotalAppends(ledger, lines);
    assert lines[0] == Charged(a.current, a.elapsed);
    if |lines| == 2 {
      assert lines[1..][0].Renewed?;
      assert TotalCharged(lines[1..][1..]) == 0;
    } else {
      assert lines[1..] == [];
    }
  }

  lemma PickAccounted<T>(h: History<T>, e: Event<T>)
    requires Inv(h.s) && Accounted(h) && Enabled(h.s, e) && Picks(h.s, e) && Advance(h, e).Some?
    ensures Accounted(Advance(h, e).value)
  {
    hide Placed, Lines, SinceRenewal, TotalCharged, Pick;
    var n, a := Advance(h, e).value, AtPick(h.s, e);
    AtPickReady(h.s, e);
    PickRecords(a);
    PickElapsed(a);
    PickTotal(h.ledger, a);
    forall t | t in n.s.threads
      ensures SinceRenewal(n.ledger, t) == n.s.threads[t].elapsed
    {
      PickSince(h.ledger, a, t);
    }
  }

  lemma StepAccounted<T>(h: History<T>, e: Event<T>)
    requires Inv(h.s) && Accounted(h) && Enabled(h.s, e) && Advance(h, e).Some?
    ensures Accounted(Advance(h, e).value)
  {
    AtPickReady(h.s, e);
    if Picks(h.s, e) {
      PickAccounted(h, e);
    } else if e.Spawn? {
      SinceUnmentioned(h.ledger, e.t);
    }
  }

  // ---------------------------------------------------------------- runs, theorems

  lemma StepGood<T>(h: History<T>, e: Event<T>)
    requires Good(h) && Enabled(h.s, e) && Advance(h, e).Some?
    ensures Good(Advance(h, e).value)
  {
    StepKeepsInv(h.s, e);
    StepPunctual(h, e);
    StepAccounted(h, e);
  }

  /** Every state of every legal run satisfies all invariants. */
  lemma {:induction false} RunGood<T>(h: History<T>, es: seq<Event<T>>)
    requires Good(h) && Legal(h, es) && Run(h, es).Some?
    ensures Good(Run(h, es).value)
    decreases |es|
  {
    if es == [] {
    } else {
      StepGood(h, es[0]);
      RunGood(Advance(h, es[0]).value, es[1..]);
    }
  }

  lemma ReachedGood<T>(main: T, es: seq<Event<T>>, h: History<T>)
    requires Reached(main, es, h)
    ensures Good(h)
  {
    StartGood(main);
    RunGood(Start(main), es);
  }

  /** Over any run nobody who was ever added disappears from the records. */
  lemma {:induction false} NobodyIsLost<T>(h: History<T>, es: seq<Event<T>>, t: T)
    requires Inv(h.s) && Legal(h, es) && Run(h, es).Some?
    requires t in h.s.threads || t in h.s.freed || exists i :: 0 <= i < |es| && es[i].Spawn? && es[i].t == t
    ensures Inv(Run(h, es).value.s)
    ensures t in Run(h, es).value.s.threads || t in Run(h, es).value.s.freed
    decreases |es|
  {
    hide Placed, Budgeted, Queued, Step;
    if es == [] {
    } else {
      RunUnfolds(h, es, 0);
      var n := Advance(h, es[0]).value;
      if t in h.s.threads || t in h.s.freed || (es[0].Spawn? && es[0].t == t) {
        StepKeepsRecords(h.s, es[0], t);
      }
      assert forall i :: 0 < i < |es| ==> es[i] == es[1..][i - 1];
      NobodyIsLost(n, es[1..], t);
    }
  }

  lemma StepKeepsRecords<T>(s: State<T>, e: Event<T>, t: T)
    requires Inv(s) && Enabled(s, e) && Step(s, e).Some?
    requires t in s.threads || t in s.freed || (e.Spawn? && e.t == t)
    ensures t in Step(s, e).value.threads || t in Step(s, e).value.freed
  {
    hide Placed, Pick;
    if Picks(s, e) {
      AtPickReady(s, e);
      PickRecords(AtPick(s, e));
    }
  }

  /** No sleeper is ever late.  In any run, right after any pick, whoever is still
      asleep has its deadline ahead, and its deltas add up to no more than the time
      until then; so whoever's deadline has passed is awake. */
  lemma NoSleeperIsLate<T>(main: T, es: seq<Event<T>>, h: History<T>, e: Event<T>, n: History<T>)
    requires Reached(main, es, h) && Follows(h, e, n) && Picks(h.s, e)
    ensures |n.s.slept| == |n.s.deltas|
    ensures forall i :: 0 <= i < |n.s.slept| ==>
      n.s.slept[i] in n.deadline && 0 < DeltaQueue.Due(n.s.deltas, i) <= n.deadline[n.s.slept[i]] - n.now
  {
    hide Placed, Pick, Budgeted, Accounted, Run, Legal;
    ReachedGood(main, es, h);
    PickPunctual(h, e);
  }

  /** Between picks a deadline can pass unnoticed, but by less than what the
      running thread has already used of its slice. */
  lemma OverdueLessThanASlice<T>(main: T, es: seq<Event<T>>, h: History<T>)
    requires Reached(main, es, h)
    ensures h.s.current in h.s.threads
    ensures forall t :: t in h.s.slept ==> t in h.deadline && h.now - h.deadline[t] < h.s.elapsed
    ensures h.s.elapsed < h.s.threads[h.s.current].quantum
  {
    ReachedGood(main, es, h);
  }

  /** In any run, all ticks since boot are on the account, nobody was charged more
      than a quantum since its last renewal, and the running thread's share, used
      and granted, stays within its quantum; the granted part never runs out
      between ticks. */
  lemma TicksAreAccounted<T>(main: T, es: seq<Event<T>>, h: History<T>)
    requires Reached(main, es, h)
    ensures TotalCharged(h.ledger) + h.s.elapsed == h.now
    ensures forall t :: t in h.s.threads ==> SinceRenewal(h.ledger, t) <= h.s.threads[t].quantum
    ensures h.s.current in h.s.threads && 0 < h.s.quantum
    ensures SinceRenewal(h.ledger, h.s.current) + h.s.elapsed + h.s.quantum <= h.s.threads[h.s.current].quantum
  {
    ReachedGood(main, es, h);
  }

  /** A pick hands out exactly what is left of the target's quantum, and a fresh
      quantum only to a thread that has used up the old one exactly. */
  lemma RenewedOnlyWhenSpent<T>(h: History<T>, e: Event<T>, n: History<T>)
    requires Good(h) && Follows(h, e, n) && Picks(h.s, e)
    ensures n.s.current in n.s.threads
    ensures SinceRenewal(n.ledger, n.s.current) + n.s.quantum == n.s.threads[n.s.current].quantum
    ensures var charged := h.ledger + [Charged(h.s.current, AtPick(h.s, e).elapsed)];
      || n.ledger == charged
      || (&& n.ledger == charged + [Renewed(n.s.current)]
          && SinceRenewal(charged, n.s.current) == n.s.threads[n.s.current].quantum)
  {
    hide Accounted, Punctual, Inv, SinceRenewal, Pick, Lines, Renews;
    AdvanceAtPick(h, e, n);
    PickGrants(h.ledger, AtPick(h.s, e));
  }

  lemma AdvanceAtPick<T>(h: History<T>, e: Event<T>, n: History<T>)
    requires Good(h) && Follows(h, e, n) && Picks(h.s, e)
    ensures var a := AtPick(h.s, e);
      && Shaped(a) && Pick(a) == Some(n.s) && n.ledger == h.ledger + Lines(a) && a.current == h.s.current
      && Funded(a) && a.threads[a.current].elapsed + a.elapsed <= a.threads[a.current].quantum
      && forall t :: t in a.threads ==> SinceRenewal(h.ledger, t) == a.threads[t].elapsed
  {
    hide Placed, Pick, Queued, SinceRenewal, TotalCharged;
    AtPickReady(h.s, e);
  }

  /** The account after a pick in state a. */
  lemma PickGrants<T>(ledger: seq<Entry<T>>, a: State<T>)
    requires Shaped(a) && Funded(a) && Pick(a).Some?
    requires a.threads[a.current].elapsed + a.elapsed <= a.threads[a.current].quantum
    requires forall t :: t in a.threads ==> SinceRenewal(ledger, t) == a.threads[t].elapsed
    ensures var r := Pick(a).value; var charged := ledger + [Charged(a.current, a.elapsed)];
      && r.current in r.threads
      && SinceRenewal(ledger + Lines(a), r.current) + r.quantum == r.threads[r.current].quantum
      && (|| ledger + Lines(a) == charged
          || (&& ledger + Lines(a) == charged + [Renewed(r.current)]
              && SinceRenewal(charged, r.current) == r.threads[r.current].quantum))
  {
    PickElapsed(a);
    PickBudgeted(a);
    PickRecords(a);
    var r := Pick(a).value;
    PickSince(ledger, a, r.current);
    SinceAppends(ledger, Charged(a.current, a.elapsed), r.current);
    hide Pick, Ready, SinceRenewal, Shaped;
    if Renews(a) {
      assert ledger + Lines(a) == ledger + [Charged(a.current, a.elapsed)] + [Renewed(r.current)];
    } else {
      assert ledger + Lines(a) == ledger + [Charged(a.current, a.elapsed)];
    }
  }

  /** The running thread's share, used and granted, is its whole quantum. */
  ghost predicate FullyBudgeted<T>(s: State<T>) {
    s.current in s.threads &&
    s.threads[s.current].elapsed + s.elapsed + s.quantum == s.threads[s.current].quantum
  }

  /** Every pick makes it so, and every other event leaves it so. */
  lemma StepFullyBudgeted<T>(s: State<T>, e: Event<T>)
    requires Inv(s) && Enabled(s, e) && Step(s, e).Some? && (FullyBudgeted(s) || Picks(s, e))
    ensures FullyBudgeted(Step(s, e).value)
  {
    hide Placed, Pick, Queued;
    AtPickReady(s, e);
    if Picks(s, e) {
      PickBudgeted(AtPick(s, e));
    } else if e.Clean? && s.zombies != [] {
      ZombieOnlyThere(s, s.zombies[0]);
    }
  }

  /** From the first pick on it holds at every moment of the run: only the boot slice
      is shorter than a quantum. */
  lemma {:induction false} AlwaysFullyBudgeted<T>(h: History<T>, es: seq<Event<T>>)
    requires Inv(h.s) && Legal(h, es) && Run(h, es).Some?
    requires FullyBudgeted(h.s) || (es != [] && Picks(h.s, es[0]))
    ensures FullyBudgeted(Run(h, es).value.s)
    decreases |es|
  {
    hide Placed, Budgeted, Queued, Step, FullyBudgeted;
    if es == [] {
    } else {
      RunUnfolds(h, es, 0);
      StepFullyBudgeted(h.s, es[0]);
      AlwaysFullyBudgeted(Advance(h, es[0]).value, es[1..]);
    }
  }

  // ------------------------------------------------------------------------ waiting

  /** The event makes a pick that serves priority p. */
  predicate Serving<T>(s: State<T>, e: Event<T>, p: nat)
    requires Inv(s)
  {
    AtPickReady(s, e);
    ReadyThreads(AtPick(s, e));
    Picks(s, e) && Highest(Ready(AtPick(s, e)).active) == p
  }

  /** Thread t waits at place k of the list of priority p. */
  predicate At<T(==)>(s: State<T>, p: nat, k: nat, t: T) {
    p < |s.active| && k < |s.active[p]| && s.active[p][k] == t
  }

  /** Whoever waits at place k of its list moves up one place when its priority is
      served, and is dispatched from place 0; otherwise it keeps its place. */
  lemma WaitingStep<T>(s: State<T>, e: Event<T>, p: nat, k: nat)
    requires Inv(s) && Enabled(s, e) && Step(s, e).Some? && p < PRIORITIES && k < |s.active[p]|
    ensures |Step(s, e).value.active| == PRIORITIES
    ensures Serving(s, e, p) && k == 0 ==> Step(s, e).value.current == s.active[p][0]
    ensures Serving(s, e, p) && k > 0 ==> At(Step(s, e).value, p, k - 1, s.active[p][k])
    ensures !Serving(s, e, p) ==> At(Step(s, e).value, p, k, s.active[p][k])
  {
    hide Placed, Ready, Budgeted, Queued, Wake, Park;
    if Picks(s, e) {
      var a := AtPick(s, e);
      AtPickReady(s, e);
      ReadyThreads(a);
      ReadyAppends(a, p);
    }
  }

  /** A pick never serves a priority below one that has somebody waiting. */
  lemma NeverServesBelow<T>(s: State<T>, e: Event<T>, p: nat)
    requires Inv(s) && Picks(s, e) && p < PRIORITIES && s.active[p] != []
    ensures exists q: nat :: q <= p && Serving(s, e, q)
  {
    var a := AtPick(s, e);
    AtPickReady(s, e);
    ReadyThreads(a);
    ReadyAppends(a, p);
    assert Serving(s, e, Highest(Ready(a).active));
  }

  /** How many picks of the run serve priority p. */
  ghost function Serves<T>(h: History<T>, es: seq<Event<T>>, p: nat): nat
    requires Inv(h.s) && Legal(h, es) && Run(h, es).Some?
    decreases |es|
  {
    if es == [] then 0
    else
      StepKeepsInv(h.s, es[0]);
      (if Serving(h.s, es[0], p) then 1 else 0) + Serves(Advance(h, es[0]).value, es[1..], p)
  }

  lemma RunUnfolds<T>(h: History<T>, es: seq<Event<T>>, p: nat)
    requires Inv(h.s) && Legal(h, es) && Run(h, es).Some? && es != []
    ensures Enabled(h.s, es[0]) && Advance(h, es[0]).Some?
    ensures var n := Advance(h, es[0]).value;
      && Step(h.s, es[0]) == Some(n.s)
      && Inv(n.s) && Legal(n, es[1..]) && Run(n, es[1..]) == Run(h, es)
      && Serves(h, es, p) == (if Serving(h.s, es[0], p) then 1 else 0) + Serves(n, es[1..], p)
  {
    StepKeepsInv(h.s, es[0]);
  }

  lemma ListPerPriority<T>(s: State<T>)
    requires Inv(s)
    ensures |s.active| == PRIORITIES
  {
  }

  /** Whatever is added, woken or queued again meanwhile, the thread at place k has
      moved up by exactly the number of picks that served its priority ... */
  lemma {:induction false} BoundedWaiting<T>(h: History<T>, es: seq<Event<T>>, p: nat, k: nat)
    requires Inv(h.s) && Legal(h, es) && Run(h, es).Some? && p < PRIORITIES && k < |h.s.active[p]|
    requires Serves(h, es, p) <= k
    ensures Inv(Run(h, es).value.s)
    ensures At(Run(h, es).value.s, p, k - Serves(h, es, p), h.s.active[p][k])
    decreases |es|
  {
    hide Inv, Serving, Step, Advance;
    if es == [] {
      ListPerPriority(h.s);
    } else {
      RunUnfolds(h, es, p);
      WaitingStep(h.s, es[0], p, k);
      hide Legal, Run, Serves;
      BoundedWaiting(Advance(h, es[0]).value, es[1..], p, if Serving(h.s, es[0], p) then k - 1 else k);
    }
  }

  /** ... and the next such pick after k of them dispatches it. */
  lemma DispatchedInTurn<T>(h: History<T>, es: seq<Event<T>>, e: Event<T>, n: History<T>, p: nat, k: nat)
    requires Inv(h.s) && Legal(h, es) && Run(h, es).Some? && p < PRIORITIES && k < |h.s.active[p]|
    requires Serves(h, es, p) == k
    requires Follows(Run(h, es).value, e, n) && Serving(Run(h, es).value.s, e, p)
    ensures n.s.current == h.s.active[p][k]
  {
    hide Placed, Legal, Run, Serves, Serving, Step;
    BoundedWaiting(h, es, p, k);
    WaitingStep(Run(h, es).value.s, e, p, 0);
  }

  // ------------------------------------------------------------- somebody always runs

  /** A pick takes the head of the highest non-empty list and nobody else. */
  lemma PickTakesHighest<T>(s: State<T>)
    requires Shaped(s)
    ensures Shaped(Ready(s))
    ensures Pick(s).None? <==> forall p :: 0 <= p < PRIORITIES ==> Ready(s).active[p] == []
    ensures Pick(s).Some? ==> exists p ::
      && 0 <= p < PRIORITIES && Ready(s).active[p] != []
      && (forall q :: 0 <= q < p ==> Ready(s).active[q] == [])
      && Pick(s).value.current == Ready(s).active[p][0]
  {
    ReadyThreads(s);
  }

  /** The wake loop leaves all lists empty only if they were and it wakes nobody. */
  lemma WakeEmptyIff<T>(s: State<T>)
    requires Shaped(s)
    ensures Shaped(Wake(s))
    ensures (forall p :: 0 <= p < PRIORITIES ==> Wake(s).active[p] == []) <==>
      (forall p :: 0 <= p < PRIORITIES ==> s.active[p] == []) && (s.slept != [] ==> s.deltas[0] > s.elapsed)
  {
    hide Places, Placed;
    WakeMeaning(s);
    var k := DeltaQueue.Expired(s.deltas, s.elapsed);
    if k > 0 {
      assert s.slept[..k][0] == s.slept[0];
      assert Wake(s).active[s.threads[s.slept[0]].priority] != [];
    } else {
      assert s.slept[..k] == [];
      assert forall p :: 0 <= p < PRIORITIES ==> Wake(s).active[p] == s.active[p];
    }
  }

  /** Exactly when a pick dereferences NULL: nothing is runnable, the current
      thread does not want to run on, and nobody asleep is due by its head delta. */
  lemma PickFailsIff<T>(s: State<T>)
    requires Shaped(s)
    ensures Pick(s).None? <==>
      && (forall p :: 0 <= p < PRIORITIES ==> s.active[p] == [])
      && !s.intent.Running?
      && (s.slept != [] ==> s.deltas[0] > s.elapsed)
      && (s.intent.Sleeping? ==> s.intent.ticks > s.elapsed)
  {
    hide Places, Placed, Pick, Wake;
    PickTakesHighest(s);
    var c := Charge(s);
    ParkShaped(c);
    WakeEmptyIff(Park(c));
    match s.intent
    case Running => assert Park(c).active[c.threads[s.current].priority] != [];
    case Exiting =>
    case Sleeping(n) =>
      DeltaQueue.InsertMeaning(s.deltas, n);
      assert Park(c).slept != [] && Park(c).deltas == DeltaQueue.Insert(s.deltas, n);
  }

  /** It happens: the boot thread goes to sleep with nobody else to run. */
  lemma PickFails<T>(main: T)
    ensures var es := [MarkSleep(5), Yield];
      Legal(Start(main), es) && Run(Start(main), es) == None
  {
    hide Placed, Budgeted, Queued, Pick;
    var h, es := Start(main), [MarkSleep(5), Yield];
    var n := Advance(h, es[0]).value;
    assert n.s == Boot(main).(intent := Sleeping(5)) && es[1..] == [Yield];
    StepKeepsInv(h.s, es[0]);
    PickFailsIff(n.s);
    assert Advance(n, Yield) == None;
  }

  /** The thread idle never sleeps or exits in this run. */
  ghost predicate NeverStops<T>(h: History<T>, es: seq<Event<T>>, idle: T)
    requires Inv(h.s) && Legal(h, es)
    decreases |es|
  {
    es == [] ||
    (&& (h.s.current == idle ==> !es[0].MarkExit? && !(es[0].MarkSleep? && es[0].ticks > 0))
     && (Advance(h, es[0]).Some? ==>
           (StepKeepsInv(h.s, es[0]); NeverStops(Advance(h, es[0]).value, es[1..], idle))))
  }

  /** The thread is running and wants to, or waits in the list of its priority. */
  ghost predicate Runnable<T>(s: State<T>, t: T)
    requires Shaped(s)
  {
    (s.current == t && s.intent.Running?) || exists p :: 0 <= p < PRIORITIES && t in s.active[p]
  }

  lemma RunnableStep<T>(s: State<T>, e: Event<T>, t: T)
    requires Inv(s) && Enabled(s, e) && Runnable(s, t)
    requires s.current == t ==> !e.MarkExit? && !(e.MarkSleep? && e.ticks > 0)
    ensures Step(s, e).Some? && Shaped(Step(s, e).value) && Runnable(Step(s, e).value, t)
  {
    if Picks(s, e) {
      RunnablePick(s, e, t);
    } else if s.current != t || !s.intent.Running? {
      StepKeepsInv(s, e);
      var p :| 0 <= p < PRIORITIES && t in s.active[p];
      var k :| 0 <= k < |s.active[p]| && s.active[p][k] == t;
      WaitingStep(s, e, p, k);
    } else {
      StepKeepsInv(s, e);
    }
  }

  lemma RunnablePick<T>(s: State<T>, e: Event<T>, t: T)
    requires Inv(s) && Picks(s, e) && Enabled(s, e) && Runnable(s, t)
    ensures Step(s, e).Some? && Shaped(Step(s, e).value) && Runnable(Step(s, e).value, t)
  {
    hide Placed, Ready, Budgeted, Queued;
    var a := AtPick(s, e);
    AtPickReady(s, e);
    assert Runnable(a, t);
    RunnableReady(a, t);
    RunnableDispatch(Ready(a), t);
  }

  lemma RunnableDispatch<T>(s: State<T>, t: T)
    requires Shaped(s) && exists p :: 0 <= p < PRIORITIES && t in s.active[p]
    ensures Dispatch(s).Some? && Shaped(Dispatch(s).value) && Runnable(Dispatch(s).value, t)
  {
    var r := Dispatch(s).value;
    DispatchShaped(s);
    var p :| 0 <= p < PRIORITIES && t in s.active[p];
    var k :| 0 <= k < |s.active[p]| && s.active[p][k] == t;
    if r.current != t {
      if Highest(s.active) == p {
        assert k > 0 && r.active[p] == s.active[p][1..];
        assert r.active[p][k - 1] == t;
      } else {
        assert r.active[p] == s.active[p];
      }
    }
  }

  lemma RunnableReady<T>(a: State<T>, t: T)
    requires Shaped(a) && Runnable(a, t)
    ensures Shaped(Ready(a)) && exists p :: 0 <= p < PRIORITIES && t in Ready(a).active[p]
  {
    ReadyThreads(a);
    var c := Charge(a);
    ParkShaped(c);
    WakeMeaning(Park(c));
    if a.current == t && a.intent.Running? {
      var p := a.threads[t].priority;
      assert t in Park(c).active[p];
      assert t in Ready(a).active[p];
    } else {
      var p :| 0 <= p < PRIORITIES && t in a.active[p];
      ReadyAppends(a, p);
      assert t in Ready(a).active[p];
    }
  }

  /** With one thread that never sleeps or exits, no pick of any run fails. */
  lemma {:induction false} IdleKeepsRunning<T>(h: History<T>, es: seq<Event<T>>, idle: T)
    requires Inv(h.s) && Legal(h, es) && Runnable(h.s, idle) && NeverStops(h, es, idle)
    ensures Run(h, es).Some?
    decreases |es|
  {
    if es == [] {
    } else {
      RunnableStep(h.s, es[0], idle);
      StepKeepsInv(h.s, es[0]);
      IdleKeepsRunning(Advance(h, es[0]).value, es[1..], idle);
    }
  }
}

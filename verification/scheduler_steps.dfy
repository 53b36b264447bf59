/** The scheduler as a transition system: its events, what every step keeps, and
    what a single pick means. */
module SchedulerSteps {
  import opened Options
  import opened SchedulerModel
  import DeltaQueue

  /** What can happen to the scheduler.  A sleeping thread first marks itself and
      then yields, and an exiting one likewise; the two halves are separate events
      because a tick may come between them. */
  datatype Event<T(==)> =
    | Spawn(t: T, priority: nat, quantum: nat)
    | Tick
    | MarkSleep(ticks: nat)
    | MarkExit
    | Yield
    | Clean

  /** What callers owe: a new control block with a known priority and a positive
      quantum, and tick counts that fit a machine word. */
  predicate Enabled<T>(s: State<T>, e: Event<T>) {
    match e
    case Spawn(t, priority, quantum) =>
      t !in s.threads && t !in s.freed && priority < PRIORITIES && 0 < quantum < WORD
    case MarkSleep(n) => n < WORD
    case _ => true
  }

  /** The two counter updates of a timer interrupt, in 32-bit arithmetic. */
  function Ticked<T>(s: State<T>): State<T> {
    s.(elapsed := (s.elapsed + 1) % WORD, quantum := (s.quantum + WORD - 1) % WORD)
  }

  predicate Picks<T>(s: State<T>, e: Event<T>) {
    e.Yield? || (e.Tick? && Ticked(s).quantum == 0)
  }

  /** The state scheduler_pick is called in. */
  function AtPick<T>(s: State<T>, e: Event<T>): State<T> {
    if e.Tick? then Ticked(s) else s
  }

  function Step<T>(s: State<T>, e: Event<T>): Option<State<T>>
    requires Inv(s) && Enabled(s, e)
  {
    match e
    case Spawn(t, priority, quantum) =>
      Some(Enqueue(s.(threads := s.threads[t := Thread(priority, quantum, 0)]), t))
    case Tick => if Ticked(s).quantum == 0 then Pick(Ticked(s)) else Some(Ticked(s))
    case MarkSleep(n) => Some(if n == 0 || s.intent.Exiting? then s else s.(intent := Sleeping(n)))
    case MarkExit => Some(s.(intent := Exiting))
    case Yield => Pick(s)
    case Clean =>
      if s.zombies == [] then Some(s)
      else Some(s.(zombies := s.zombies[1..], freed := s.freed + [s.zombies[0]],
                   threads := s.threads - {s.zombies[0]}))
  }

  // ------------------------------------------------------------------- invariant

  /** How often t stands on one of the lists. */
  function Waiting<T(==)>(lists: seq<seq<T>>, t: T): nat {
    if lists == [] then 0 else multiset(lists[0])[t] + Waiting(lists[1..], t)
  }

  /** How often t is on record anywhere but on the processor. */
  function OffCpu<T(==)>(s: State<T>, t: T): nat {
    Waiting(s.active, t) + multiset(s.slept)[t] + multiset(s.zombies)[t] + multiset(s.freed)[t]
  }

  /** How often t is on record: running, runnable, asleep, zombie or freed. */
  function Places<T(==)>(s: State<T>, t: T): nat {
    (if t == s.current then 1 else 0) + OffCpu(s, t)
  }

  /** Every thread ever added is in exactly one place, and the live ones are those
      not yet freed. */
  ghost predicate Placed<T>(s: State<T>) {
    && (forall t :: t in s.threads ==> Places(s, t) == 1)
    && (forall t :: t in s.freed ==> Places(s, t) == 1)
    && (forall i :: 0 <= i < |s.zombies| ==> s.zombies[i] in s.threads)
    && (forall i :: 0 <= i < |s.freed| ==> s.freed[i] !in s.threads)
  }

  ghost predicate Funded<T>(s: State<T>) {
    forall t :: t in s.threads ==>
      0 < s.threads[t].quantum < WORD && s.threads[t].elapsed <= s.threads[t].quantum
  }

  /** The running thread never gets more than is left of its quantum. */
  ghost predicate Budgeted<T>(s: State<T>)
    requires s.current in s.threads
  {
    && Funded(s)
    && 0 < s.quantum
    && var c := s.threads[s.current]; c.elapsed + s.elapsed + s.quantum <= c.quantum
  }

  ghost predicate Queued<T>(s: State<T>) {
    && DeltaQueue.Bounded(s.deltas, WORD)
    && (s.deltas != [] ==> s.deltas[0] > 0)
    && (s.intent.Sleeping? ==> 0 < s.intent.ticks < WORD)
  }

  ghost predicate Inv<T>(s: State<T>) {
    Shaped(s) && Placed(s) && Budgeted(s) && Queued(s)
  }

  lemma BootInv<T>(main: T)
    ensures Inv(Boot(main))
  {
  }

  // --------------------------------------------------- where everybody is, by step

  lemma {:induction false} WaitingUpdate<T>(lists: seq<seq<T>>, p: nat, q: seq<T>, t: T)
    requires p < |lists|
    ensures Waiting(lists[p := q], t) + multiset(lists[p])[t] == Waiting(lists, t) + multiset(q)[t]
  {
    if p == 0 {
      assert lists[p := q][1..] == lists[1..];
    } else {
      assert lists[p := q][1..] == lists[1..][p - 1 := q];
      WaitingUpdate(lists[1..], p - 1, q, t);
    }
  }

  /** Nobody on a list escapes the count. */
  lemma {:induction false} WaitingSees<T>(lists: seq<seq<T>>, p: nat, t: T)
    requires p < |lists| && t in lists[p]
    ensures Waiting(lists, t) > 0
  {
    if p > 0 {
      WaitingSees(lists[1..], p - 1, t);
    } else {
      assert t in multiset(lists[0]);
    }
  }

  lemma EnqueueCounts<T>(s: State<T>, x: T, t: T)
    requires Shaped(s) && x in s.threads
    ensures OffCpu(Enqueue(s, x), t) == OffCpu(s, t) + if t == x then 1 else 0
  {
    var p := s.threads[x].priority;
    WaitingUpdate(s.active, p, s.active[p] + [x], t);
  }

  lemma ParkCounts<T>(s: State<T>, t: T)
    requires Shaped(s)
    ensures OffCpu(Park(s), t) == Places(s, t)
  {
    match s.intent
    case Exiting =>
    case Running => EnqueueCounts(s, s.current, t);
    case Sleeping(n) =>
      DeltaQueue.InsertMeaning(s.deltas, n);
      var p := DeltaQueue.Position(s.deltas, n);
      assert s.slept == s.slept[..p] + s.slept[p..];
  }

  lemma {:induction false} WakeCounts<T>(s: State<T>, t: T)
    requires Shaped(s)
    ensures OffCpu(Wake(s), t) == OffCpu(s, t)
    decreases |s.slept|
  {
    if s.slept == [] {
    } else if s.deltas[0] <= s.elapsed {
      var r := s.(slept := s.slept[1..], deltas := s.deltas[1..]);
      assert s.slept == [s.slept[0]] + r.slept;
      EnqueueCounts(r, s.slept[0], t);
      WakeCounts(Enqueue(r, s.slept[0]), t);
    }
  }

  lemma DispatchCounts<T>(s: State<T>, t: T)
    requires Shaped(s) && Dispatch(s).Some?
    ensures Places(Dispatch(s).value, t) == OffCpu(s, t)
  {
    var p := Highest(s.active);
    WaitingUpdate(s.active, p, s.active[p][1..], t);
    assert s.active[p] == [s.active[p][0]] + s.active[p][1..];
  }

  lemma DispatchShaped<T>(s: State<T>)
    requires Shaped(s) && Dispatch(s).Some?
    ensures Shaped(Dispatch(s).value)
  {
  }

  // ------------------------------------------------------- what a pick does, in all

  function OfPriority<T>(ts: seq<T>, threads: map<T, Thread>, p: nat): seq<T>
    requires forall i :: 0 <= i < |ts| ==> ts[i] in threads
  {
    if ts == [] then []
    else (if threads[ts[0]].priority == p then [ts[0]] else []) + OfPriority(ts[1..], threads, p)
  }

  /** The wake loop releases the leading sleepers whose deltas do not exceed the
      elapsed time, appends them in sleeping order to the lists of their
      priorities, and touches nothing else. */
  lemma {:induction false} WakeMeaning<T>(s: State<T>)
    requires Shaped(s)
    ensures var r, k := Wake(s), DeltaQueue.Expired(s.deltas, s.elapsed);
      && Shaped(r)
      && k <= |s.slept|
      && r.slept == s.slept[k..]
      && r.deltas == DeltaQueue.AfterWake(s.deltas, s.elapsed)
      && (forall p :: 0 <= p < PRIORITIES ==> r.active[p] == s.active[p] + OfPriority(s.slept[..k], s.threads, p))
      && r == s.(slept := r.slept, deltas := r.deltas, active := r.active)
    decreases |s.slept|
  {
    hide Placed, Places, OfPriority, Wake;
    WakeShaped(s);
    WakeStep(s);
    if s.slept != [] && s.deltas[0] <= s.elapsed {
      var k := DeltaQueue.Expired(s.deltas, s.elapsed);
      var n := Enqueue(s.(slept := s.slept[1..], deltas := s.deltas[1..]), s.slept[0]);
      WakeMeaning(n);
      assert s.slept[1..][k - 1..] == s.slept[k..];
      forall p | 0 <= p < PRIORITIES
        ensures Wake(n).active[p] == s.active[p] + OfPriority(s.slept[..k], s.threads, p)
      {
        WakeFirst(s, k, p);
      }
    } else {
      NobodyOfPriority(s);
    }
  }

  lemma NobodyOfPriority<T>(s: State<T>)
    requires Shaped(s)
    ensures s.slept[..0] == [] && s.slept[0..] == s.slept
    ensures forall p :: OfPriority(s.slept[..0], s.threads, p) == []
  {
  }

  /** Waking the first of k sleepers leaves its list with the other k - 1 still to come. */
  lemma WakeFirst<T>(s: State<T>, k: nat, p: nat)
    requires Shaped(s) && 0 < k <= |s.slept| && p < PRIORITIES
    ensures var n := Enqueue(s.(slept := s.slept[1..], deltas := s.deltas[1..]), s.slept[0]);
      && (forall i :: 0 <= i < |n.slept| ==> n.slept[i] in n.threads)
      && n.active[p] + OfPriority(n.slept[..k - 1], n.threads, p) == s.active[p] + OfPriority(s.slept[..k], s.threads, p)
  {
    assert s.slept[..k][1..] == s.slept[1..][..k - 1];
  }

  /** The state in which a pick searches for its target: nobody is lost, ... */
  lemma ReadyCounts<T>(s: State<T>, t: T)
    requires Shaped(s)
    ensures OffCpu(Ready(s), t) == Places(s, t)
  {
    var c := Charge(s);
    ParkShaped(c);
    ParkCounts(c, t);
    WakeCounts(Park(c), t);
  }

  lemma ReadyThreads<T>(s: State<T>)
    requires Shaped(s)
    ensures var r := Ready(s);
      && Shaped(r) && r.threads == Charge(s).threads && r.freed == s.freed && r.zombies == Park(s).zombies
      && r.current == s.current
  {
    var c := Charge(s);
    ParkShaped(c);
    WakeMeaning(Park(c));
  }

  /** ... the sleep queue is what parking and the wake loop leave of it, ... */
  lemma ReadyQueue<T>(s: State<T>)
    requires Shaped(s)
    ensures Shaped(Park(s)) && Shaped(Ready(s))
    ensures Ready(s).deltas == DeltaQueue.AfterWake(Park(s).deltas, s.elapsed)
    ensures var k := DeltaQueue.Expired(Park(s).deltas, s.elapsed);
      k <= |Park(s).slept| && Ready(s).slept == Park(s).slept[k..]
  {
    var c := Charge(s);
    ParkShaped(c);
    ParkShaped(s);
    WakeMeaning(Park(c));
    assert Park(c).slept == Park(s).slept && Park(c).deltas == Park(s).deltas;
  }

  /** ... and whoever was waiting in an active list still waits at the same place. */
  lemma ReadyAppends<T>(s: State<T>, p: nat)
    requires Shaped(s) && p < PRIORITIES
    ensures Shaped(Ready(s))
    ensures s.active[p] <= Ready(s).active[p]
  {
    var c := Charge(s);
    ParkShaped(c);
    WakeMeaning(Park(c));
    assert s.active[p] <= Park(c).active[p];
  }

  lemma PickCounts<T>(s: State<T>, t: T)
    requires Shaped(s) && Pick(s).Some?
    ensures Places(Pick(s).value, t) == Places(s, t)
  {
    ReadyThreads(s);
    ReadyCounts(s, t);
    DispatchCounts(Ready(s), t);
  }

  /** A pick neither adds nor removes a thread. */
  lemma PickRecords<T>(s: State<T>)
    requires Shaped(s) && Pick(s).Some?
    ensures var r := Pick(s).value;
      r.threads.Keys == s.threads.Keys && r.freed == s.freed && r.zombies == Park(s).zombies && r.elapsed == 0
  {
    ReadyThreads(s);
  }

  /** A pick changes the threads' used-up ticks in two ways only: the old current
      thread is charged, and a target that has spent its quantum starts afresh. */
  lemma PickElapsed<T>(s: State<T>)
    requires Shaped(s) && Pick(s).Some?
    ensures var r, charged := Pick(s).value, Charge(s).threads;
      && r.current in s.threads
      && r.threads == if charged[r.current].elapsed >= charged[r.current].quantum
                      then charged[r.current := charged[r.current].(elapsed := 0)] else charged
  {
    ReadyThreads(s);
  }

  lemma PickPlaced<T>(s: State<T>)
    requires Shaped(s) && Placed(s) && Pick(s).Some?
    ensures Placed(Pick(s).value)
  {
    hide Places, Pick;
    PickRecords(s);
    var r := Pick(s).value;
    forall t | t in s.threads || t in s.freed
      ensures Places(r, t) == 1
    {
      PickCounts(s, t);
    }
  }

  /** A pick spends the elapsed ticks on the old thread and grants the new one
      exactly what is left of its quantum. */
  lemma PickBudgeted<T>(s: State<T>)
    requires Shaped(s) && Funded(s) && Pick(s).Some?
    requires s.threads[s.current].elapsed + s.elapsed <= s.threads[s.current].quantum
    ensures Shaped(Pick(s).value) && Budgeted(Pick(s).value)
    ensures var r := Pick(s).value; r.threads[r.current].elapsed + r.elapsed + r.quantum == r.threads[r.current].quantum
  {
    ReadyThreads(s);
    DispatchShaped(Ready(s));
    assert Funded(Ready(s));
  }

  lemma PickQueued<T>(s: State<T>)
    requires Shaped(s) && Queued(s) && Pick(s).Some?
    ensures Queued(Pick(s).value)
  {
    ReadyQueue(s);
    if s.intent.Sleeping? {
      DeltaQueue.InsertBounded(s.deltas, s.intent.ticks, WORD);
    }
    DeltaQueue.AfterWakeBounded(Park(s).deltas, s.elapsed, WORD);
    DeltaQueue.AfterWakeNeverLate(Park(s).deltas, s.elapsed);
  }

  lemma SpawnCounts<T>(s: State<T>, t: T, priority: nat, quantum: nat, x: T)
    requires Inv(s) && Enabled(s, Spawn(t, priority, quantum))
    ensures Places(Step(s, Spawn(t, priority, quantum)).value, x) == Places(s, x) + if x == t then 1 else 0
  {
    var n := s.(threads := s.threads[t := Thread(priority, quantum, 0)]);
    EnqueueCounts(n, t, x);
    assert OffCpu(n, x) == OffCpu(s, x);
  }

  lemma SpawnKeepsInv<T>(s: State<T>, t: T, priority: nat, quantum: nat)
    requires Inv(s) && Enabled(s, Spawn(t, priority, quantum))
    ensures Inv(Step(s, Spawn(t, priority, quantum)).value)
  {
    hide Places;
    var r := Step(s, Spawn(t, priority, quantum)).value;
    NobodyElse(s, t);
    forall x | x in r.threads || x in r.freed
      ensures Places(r, x) == 1
    {
      SpawnCounts(s, t, priority, quantum, x);
    }
    assert Shaped(r) && Placed(r);
  }

  lemma CleanCounts<T>(s: State<T>, x: T)
    requires Inv(s)
    ensures Places(Step(s, Clean).value, x) == Places(s, x)
  {
    if s.zombies != [] {
      assert s.zombies == [s.zombies[0]] + s.zombies[1..];
    }
  }

  lemma CleanKeepsInv<T>(s: State<T>)
    requires Inv(s) && s.zombies != []
    ensures Inv(Step(s, Clean).value)
  {
    hide Places;
    var r, z := Step(s, Clean).value, s.zombies[0];
    ZombieOnlyThere(s, z);
    forall x | x in s.threads || x in s.freed
      ensures Places(r, x) == 1
    {
      CleanCounts(s, x);
    }
    assert Placed(r) by {
      assert forall i :: 0 <= i < |r.zombies| ==> r.zombies[i] == s.zombies[i + 1];
    }
  }

  /** Every step keeps the invariant. */
  lemma StepKeepsInv<T>(s: State<T>, e: Event<T>)
    requires Inv(s) && Enabled(s, e) && Step(s, e).Some?
    ensures Inv(Step(s, e).value)
  {
    hide Places;
    if Picks(s, e) {
      var a := AtPick(s, e);
      AtPickReady(s, e);
      PickPlaced(a);
      PickBudgeted(a);
      PickQueued(a);
    } else if e.Spawn? {
      SpawnKeepsInv(s, e.t, e.priority, e.quantum);
    } else if e.Clean? && s.zombies != [] {
      CleanKeepsInv(s);
    } else {
      CountersDoNotPlace(s, Step(s, e).value);
    }
  }

  lemma CountersDoNotPlace<T>(s: State<T>, r: State<T>)
    requires Placed(s) && r == s.(elapsed := r.elapsed, quantum := r.quantum, intent := r.intent)
    ensures Placed(r)
  {
    assert forall t :: Places(r, t) == Places(s, t);
  }

  /** A tick that leads to a pick has used up exactly the granted quantum; neither counter wraps. */
  lemma AtPickReady<T>(s: State<T>, e: Event<T>)
    requires Inv(s)
    ensures e.Tick? ==> Ticked(s) == s.(elapsed := s.elapsed + 1, quantum := s.quantum - 1)
    ensures var a := AtPick(s, e);
      && Shaped(a) && Placed(a) && Queued(a) && Funded(a)
      && a.threads[a.current].elapsed + a.elapsed <= a.threads[a.current].quantum
  {
    CountersDoNotPlace(s, AtPick(s, e));
  }

  /** Who is not on record is on no list. */
  lemma NobodyElse<T>(s: State<T>, t: T)
    requires Inv(s) && t !in s.threads && t !in s.freed
    ensures Places(s, t) == 0
  {
    if Waiting(s.active, t) > 0 {
      var p := WaitingFinds(s.active, t);
    }
  }

  lemma {:induction false} WaitingFinds<T>(lists: seq<seq<T>>, t: T) returns (p: nat)
    requires Waiting(lists, t) > 0
    ensures p < |lists| && t in lists[p]
  {
    if t in lists[0] {
      p := 0;
    } else {
      p := WaitingFinds(lists[1..], t);
      p := p + 1;
    }
  }

  lemma ZombieOnce<T>(s: State<T>, z: T)
    requires Inv(s) && z in s.zombies
    ensures forall i :: 0 < i < |s.zombies| && z == s.zombies[0] ==> s.zombies[i] != z
  {
    assert Places(s, z) == 1;
    forall i | 0 < i < |s.zombies| && z == s.zombies[0]
      ensures s.zombies[i] != z
    {
      assert s.zombies == [z] + s.zombies[1..i] + [s.zombies[i]] + s.zombies[i + 1..];
    }
  }

  /** A zombie is nowhere else: cleaning never frees a thread that is running, runnable or asleep. */
  lemma ZombieOnlyThere<T>(s: State<T>, z: T)
    requires Inv(s) && z in s.zombies
    ensures z != s.current && z !in s.slept && z !in s.freed
    ensures forall p :: 0 <= p < PRIORITIES ==> z !in s.active[p]
    ensures forall i :: 0 < i < |s.zombies| && z == s.zombies[0] ==> s.zombies[i] != z
  {
    ZombieOnce(s, z);
    assert z in multiset(s.zombies);
    assert Places(s, z) == 1;
    assert z in s.slept ==> z in multiset(s.slept);
    forall p | 0 <= p < PRIORITIES
      ensures z !in s.active[p]
    {
      if z in s.active[p] {
        WaitingSees(s.active, p, z);
      }
    }
  }

  function One(b: bool): nat { if b then 1 else 0 }

  /** Counted over the running thread, the list of its own priority, the sleep queue,
      the zombies and the freed threads, every thread is found exactly once, and on no
      other priority's list. */
  lemma ExactlyOnePlace<T>(s: State<T>, t: T)
    requires Inv(s) && (t in s.threads || t in s.freed)
    ensures One(t == s.current) + One(t in s.threads && t in s.active[s.threads[t].priority])
      + One(t in s.slept) + One(t in s.zombies) + One(t in s.freed) == 1
    ensures forall p :: 0 <= p < PRIORITIES && t in s.active[p] ==> t in s.threads && s.threads[t].priority == p
  {
    assert Places(s, t) == 1;
    assert t in s.slept <==> multiset(s.slept)[t] > 0;
    assert t in s.zombies <==> multiset(s.zombies)[t] > 0;
    assert t in s.freed <==> multiset(s.freed)[t] > 0;
    hide Placed, Budgeted, Queued;
    if Waiting(s.active, t) > 0 {
      var p := WaitingFinds(s.active, t);
    } else if t in s.threads && t in s.active[s.threads[t].priority] {
      WaitingSees(s.active, s.threads[t].priority, t);
    }
  }
}

/** A run from boot in which a sleeper wakes three ticks before its deadline. */
module EarlyWake {
  import opened Options
  import opened SchedulerModel
  import opened SchedulerSteps
  import opened SchedulerRuns
  import DeltaQueue

  /** The boot thread 0, and the first n of three threads of high priority, the third
      of which has used some ticks. */
  function Threads(n: nat, used: nat): map<nat, Thread> {
    var main := map[0 := Thread(PRIORITY_IDLE, QUANTUM_SHORT, 0)];
    if n == 0 then main
    else if n == 1 then main[1 := Thread(0, 10, 0)]
    else if n == 2 then main[1 := Thread(0, 10, 0)][2 := Thread(0, 10, 0)]
    else main[1 := Thread(0, 10, 0)][2 := Thread(0, 10, 0)][3 := Thread(0, 10, used)]
  }

  /** States before the first pick, ... */
  function Booting(n: nat, high: seq<nat>): State<nat> {
    State(0, 1, 0, Running, [high, [], [], []], [], [], [], [], Threads(n, 0))
  }

  /** ... and after it. */
  function Going(t: nat, elapsed: nat, quantum: nat, intent: Intent, high: seq<nat>, slept: seq<nat>, deltas: seq<nat>, used: nat): State<nat> {
    State(elapsed, quantum, t, intent, [high, [], [], [0]], slept, deltas, [], [], Threads(3, used))
  }

  lemma Spawns(n: nat, high: seq<nat>)
    requires n < 3 && Inv(Booting(n, high))
    ensures Step(Booting(n, high), Spawn(n + 1, 0, 10)) == Some(Booting(n + 1, high + [n + 1]))
  {
    hide Inv;
    var s := Booting(n, high);
    assert s.threads[n + 1 := Thread(0, 10, 0)] == Threads(n + 1, 0);
    assert s.active[0 := high + [n + 1]] == Booting(n + 1, high + [n + 1]).active;
  }

  lemma FirstPick()
    requires Shaped(Booting(3, [1, 2, 3]))
    ensures Pick(Booting(3, [1, 2, 3])) == Some(Going(1, 0, 10, Running, [2, 3], [], [], 0))
  {
    var s := Booting(3, [1, 2, 3]);
    assert Charge(s) == s;
    ParkShaped(s);
    var p := Park(s);
    assert [] + [0] == [0] && s.active[3 := [0]] == p.active == [[1, 2, 3], [], [], [0]];
    assert Wake(p) == p && Highest(p.active) == 0;
    assert p.active[0 := [2, 3]] == [[2, 3], [], [], [0]];
    assert p.threads[1 := Thread(0, 10, 0)] == p.threads;
  }

  /** The first thread goes to sleep for 3 ticks, ... */
  lemma SecondPick()
    requires Shaped(Going(1, 0, 10, Sleeping(3), [2, 3], [], [], 0))
    ensures Pick(Going(1, 0, 10, Sleeping(3), [2, 3], [], [], 0)) == Some(Going(2, 0, 10, Running, [3], [1], [3], 0))
  {
    var s := Going(1, 0, 10, Sleeping(3), [2, 3], [], [], 0);
    assert Charge(s) == s;
    ParkShaped(s);
    var p := Park(s);
    assert p.slept == [1] && p.deltas == [3];
    WakeStep(p);
    assert p.deltas[0 := 3] == p.deltas && Wake(p) == p && Ready(s) == p;
    assert Highest(p.active) == 0 && p.active[0 := [3]] == [[3], [], [], [0]];
    assert p.threads[2 := Thread(0, 10, 0)] == p.threads;
  }

  /** ... the second for 6, ... */
  lemma ThirdPick()
    requires Shaped(Going(2, 0, 10, Sleeping(6), [3], [1], [3], 0))
    ensures Pick(Going(2, 0, 10, Sleeping(6), [3], [1], [3], 0)) == Some(Going(3, 0, 10, Running, [], [1, 2], [3, 3], 0))
  {
    var s := Going(2, 0, 10, Sleeping(6), [3], [1], [3], 0);
    assert Charge(s) == s;
    ParkShaped(s);
    var p := Park(s);
    assert DeltaQueue.Position([3], 6) == 1 && DeltaQueue.Insert([3], 6) == [3, 3];
    assert p.slept == [1, 2] && p.deltas == [3, 3];
    WakeStep(p);
    assert p.deltas[0 := 3] == p.deltas && Wake(p) == p && Ready(s) == p;
    assert Highest(p.active) == 0 && p.active[0 := []] == [[], [], [], [0]];
    assert p.threads[3 := Thread(0, 10, 0)] == p.threads;
  }

  function Waking(high: seq<nat>, slept: seq<nat>, deltas: seq<nat>): State<nat> {
    Going(3, 3, 7, Running, high, slept, deltas, 3)
  }

  lemma ThirdRequeued()
    requires Shaped(Going(3, 3, 7, Running, [], [1, 2], [3, 3], 0))
    ensures Shaped(Waking([3], [1, 2], [3, 3]))
    ensures Ready(Going(3, 3, 7, Running, [], [1, 2], [3, 3], 0)) == Wake(Waking([3], [1, 2], [3, 3]))
  {
    var s := Going(3, 3, 7, Running, [], [1, 2], [3, 3], 0);
    var c := Charge(s);
    assert c.threads == Threads(3, 3);
    ParkShaped(c);
    assert [] + [3] == [3] && c.active[0 := [3]] == [[3], [], [], [0]];
  }

  lemma OneWakes(high: seq<nat>, t: nat, slept: seq<nat>, deltas: seq<nat>)
    requires 0 < t < 3 && Shaped(Waking(high, [t] + slept, [3] + deltas))
    ensures Shaped(Waking(high + [t], slept, deltas))
    ensures Wake(Waking(high, [t] + slept, [3] + deltas)) == Wake(Waking(high + [t], slept, deltas))
  {
    var p := Waking(high, [t] + slept, [3] + deltas);
    WakeStep(p);
    assert p.slept[1..] == slept && p.deltas[1..] == deltas;
    assert p.active[0 := high + [t]] == [high + [t], [], [], [0]];
  }

  /** ... and three ticks later both wake. */
  lemma FourthPick()
    requires Shaped(Going(3, 3, 7, Running, [], [1, 2], [3, 3], 0))
    ensures Pick(Going(3, 3, 7, Running, [], [1, 2], [3, 3], 0)) == Some(Going(3, 0, 7, Running, [1, 2], [], [], 3))
  {
    hide Wake, Ready;
    ThirdRequeued();
    assert [1, 2] == [1] + [2] && [3, 3] == [3] + [3];
    OneWakes([3], 1, [2], [3]);
    assert [2] == [2] + [] && [3] == [3] + [] && [3] + [1] == [3, 1];
    OneWakes([3, 1], 2, [], []);
    assert [3, 1] + [2] == [3, 1, 2];
    LastDispatched();
  }

  lemma LastDispatched()
    requires Shaped(Waking([3, 1, 2], [], []))
    ensures Wake(Waking([3, 1, 2], [], [])) == Waking([3, 1, 2], [], [])
    ensures Dispatch(Waking([3, 1, 2], [], [])) == Some(Going(3, 0, 7, Running, [1, 2], [], [], 3))
  {
    var r := Waking([3, 1, 2], [], []);
    assert Highest(r.active) == 0 && r.active[0 := [1, 2]] == [[1, 2], [], [], [0]];
    assert r.threads[3 := Thread(0, 10, 3)] == r.threads;
  }

  // ---------------------------------------------------------------------- the run

  lemma {:induction false} LeadsOn(h: History<nat>, es: seq<Event<nat>>, n: History<nat>, e: Event<nat>, m: History<nat>)
    requires Leads(h, es, n) && Enabled(n.s, e) && Advance(n, e) == Some(m) && Inv(m.s)
    ensures Leads(h, es + [e], m)
    decreases |es|
  {
    hide Inv, Advance;
    if es == [] {
      LeadsOne(n, e, m);
      assert es + [e] == [e];
    } else {
      RunUnfolds(h, es, 0);
      LeadsOn(Advance(h, es[0]).value, es[1..], n, e, m);
      assert (es + [e])[1..] == es[1..] + [e];
    }
  }

  lemma LeadsOne(n: History<nat>, e: Event<nat>, m: History<nat>)
    requires Inv(n.s) && Enabled(n.s, e) && Advance(n, e) == Some(m) && Inv(m.s)
    ensures Leads(n, [e], m)
  {
    hide Inv, Advance;
    assert [e][1..] == [];
    assert Legal(m, []) && Run(m, []) == Some(m);
  }

  /** What an observer notes when the event e takes the state to s. */
  lemma Next(n: History<nat>, e: Event<nat>, s: State<nat>) returns (m: History<nat>)
    requires Inv(n.s) && Moves(n.s, e, s)
    ensures Inv(s) && Enabled(n.s, e) && Advance(n, e) == Some(m)
    ensures m.s == s && m.now == (if e.Tick? then n.now + 1 else n.now)
    ensures m.deadline ==
      if e.MarkSleep? && e.ticks > 0 then n.deadline[n.s.current := n.now - n.s.elapsed + e.ticks] else n.deadline
  {
    hide Inv, Step, Picks, Lines, Enabled;
    StepKeepsInv(n.s, e);
    m := Advance(n, e).value;
  }

  /** One more event, that takes the state to s. */
  lemma Follow(es: seq<Event<nat>>, n: History<nat>, e: Event<nat>, s: State<nat>) returns (m: History<nat>)
    requires Leads(Start(0), es, n) && Moves(n.s, e, s)
    ensures Leads(Start(0), es + [e], m) && m.s == s && m.now == (if e.Tick? then n.now + 1 else n.now)
    ensures m.deadline ==
      if e.MarkSleep? && e.ticks > 0 then n.deadline[n.s.current := n.now - n.s.elapsed + e.ticks] else n.deadline
  {
    LeadsSound(Start(0), es, n);
    hide *;
    m := Next(n, e, s);
    LeadsOn(Start(0), es, n, e, m);
  }

  lemma LeadsSound(h: History<nat>, es: seq<Event<nat>>, n: History<nat>)
    requires Leads(h, es, n)
    ensures Inv(n.s)
  {
  }

  /** In state s the event e leads to state t. */
  ghost predicate Moves(s: State<nat>, e: Event<nat>, t: State<nat>) {
    Inv(s) ==> Enabled(s, e) && Step(s, e) == Some(t)
  }

  lemma SpawnMoves(n: nat, high: seq<nat>)
    requires n < 3
    ensures Moves(Booting(n, high), Spawn(n + 1, 0, 10), Booting(n + 1, high + [n + 1]))
  {
    if Inv(Booting(n, high)) {
      Spawns(n, high);
    }
  }

  lemma YieldMoves(s: State<nat>, t: State<nat>)
    requires Shaped(s) ==> Pick(s) == Some(t)
    ensures Moves(s, Yield, t)
  {
    hide Pick;
  }

  lemma SleepMoves(t: nat, ticks: nat, high: seq<nat>, slept: seq<nat>, deltas: seq<nat>)
    requires 0 < ticks < WORD
    ensures Moves(Going(t, 0, 10, Running, high, slept, deltas, 0), MarkSleep(ticks),
                  Going(t, 0, 10, Sleeping(ticks), high, slept, deltas, 0))
  {
  }

  lemma TickMoves(k: nat)
    requires k < 3
    ensures Moves(Late(k), Tick, Late(k + 1))
  {
    if Inv(Late(k)) {
      Ticks(k);
    }
  }

  /** The third thread runs and k ticks have passed. */
  function Late(k: nat): State<nat>
    requires k < 10
  {
    Going(3, k, 10 - k, Running, [], [1, 2], [3, 3], 0)
  }

  lemma Ticks(k: nat)
    requires k < 3 && Inv(Late(k))
    ensures Step(Late(k), Tick) == Some(Late(k + 1))
  {
    hide Inv, Threads;
    assert (10 - k + WORD - 1) % WORD == 9 - k;
  }

  /** Going on from n with an event other than a tick or a mark, ... */
  lemma Then(es: seq<Event<nat>>, n: History<nat>, e: Event<nat>, s: State<nat>) returns (m: History<nat>)
    requires Moves(n.s, e, s) && !e.MarkSleep?
    requires Leads(Start(0), es, n)
    ensures m.s == s
    ensures m.now == (if e.Tick? then n.now + 1 else n.now) && m.deadline == n.deadline
    ensures Leads(Start(0), es + [e], m)
  {
    hide *;
    m := Follow(es, n, e, s);
  }

  /** ... and with a mark of thread t. */
  lemma ThenSleep(es: seq<Event<nat>>, n: History<nat>, t: nat, ticks: nat, high: seq<nat>, slept: seq<nat>, deltas: seq<nat>)
    returns (m: History<nat>)
    requires n.s == Going(t, 0, 10, Running, high, slept, deltas, 0) && 0 < ticks < WORD
    requires Leads(Start(0), es, n)
    ensures m.s == Going(t, 0, 10, Sleeping(ticks), high, slept, deltas, 0)
    ensures m.now == n.now && m.deadline == n.deadline[t := n.now + ticks]
    ensures Leads(Start(0), es + [MarkSleep(ticks)], m)
  {
    hide *;
    SleepMoves(t, ticks, high, slept, deltas);
    GoingParts(t, high, slept, deltas);
    m := Follow(es, n, MarkSleep(ticks), Going(t, 0, 10, Sleeping(ticks), high, slept, deltas, 0));
  }

  lemma GoingParts(t: nat, high: seq<nat>, slept: seq<nat>, deltas: seq<nat>)
    ensures var s := Going(t, 0, 10, Running, high, slept, deltas, 0); s.current == t && s.elapsed == 0
  {
  }

  lemma Boots() returns (n: History<nat>)
    ensures n.s == Booting(0, []) && n.now == 0 && n.deadline == map[]
    ensures Leads(Start(0), [], n)
  {
    n := Start(0);
    assert Leads(Start(0), [], n) by {
      hide Boot, Inv;
    }
  }

  lemma Spawned()
    ensures Moves(Booting(0, []), Spawn(1, 0, 10), Booting(1, [1]))
    ensures Moves(Booting(1, [1]), Spawn(2, 0, 10), Booting(2, [1, 2]))
    ensures Moves(Booting(2, [1, 2]), Spawn(3, 0, 10), Booting(3, [1, 2, 3]))
  {
    hide Moves, Booting;
    SpawnMoves(0, []);
    SpawnMoves(1, [1]);
    SpawnMoves(2, [1, 2]);
    assert [] + [1] == [1] && [1] + [2] == [1, 2] && [1, 2] + [3] == [1, 2, 3];
  }

  /** Three threads are started and the boot thread yields. */
  lemma Opening() returns (n: History<nat>)
    ensures Leads(Start(0), Opened(), n)
    ensures n.s == Going(1, 0, 10, Running, [2, 3], [], [], 0) && n.now == 0 && n.deadline == map[]
  {
    n := Boots();
    Spawned();
    FirstYield();
    hide *;
    n := Then([], n, Spawn(1, 0, 10), Booting(1, [1]));
    n := Then([] + [Spawn(1, 0, 10)], n, Spawn(2, 0, 10), Booting(2, [1, 2]));
    n := Then([] + [Spawn(1, 0, 10)] + [Spawn(2, 0, 10)], n, Spawn(3, 0, 10), Booting(3, [1, 2, 3]));
    n := Then([] + [Spawn(1, 0, 10)] + [Spawn(2, 0, 10)] + [Spawn(3, 0, 10)], n, Yield, Going(1, 0, 10, Running, [2, 3], [], [], 0));
    OpenedIs();
  }

  function Opened(): seq<Event<nat>> {
    [Spawn(1, 0, 10), Spawn(2, 0, 10), Spawn(3, 0, 10), Yield]
  }

  lemma OpenedIs()
    ensures [] + [Spawn(1, 0, 10)] + [Spawn(2, 0, 10)] + [Spawn(3, 0, 10)] + [Yield] == Opened()
  {
  }

  lemma FirstYield()
    ensures Moves(Booting(3, [1, 2, 3]), Yield, Going(1, 0, 10, Running, [2, 3], [], [], 0))
  {
    hide Pick;
    if Shaped(Booting(3, [1, 2, 3])) {
      FirstPick();
    }
    YieldMoves(Booting(3, [1, 2, 3]), Going(1, 0, 10, Running, [2, 3], [], [], 0));
  }

  lemma LaterYields()
    ensures Moves(Going(1, 0, 10, Sleeping(3), [2, 3], [], [], 0), Yield, Going(2, 0, 10, Running, [3], [1], [3], 0))
    ensures Moves(Going(2, 0, 10, Sleeping(6), [3], [1], [3], 0), Yield, Late(0))
    ensures Moves(Late(3), Yield, Going(3, 0, 7, Running, [1, 2], [], [], 3))
  {
    hide Pick, Shaped, Moves;
    if Shaped(Going(1, 0, 10, Sleeping(3), [2, 3], [], [], 0)) {
      SecondPick();
    }
    YieldMoves(Going(1, 0, 10, Sleeping(3), [2, 3], [], [], 0), Going(2, 0, 10, Running, [3], [1], [3], 0));
    if Shaped(Going(2, 0, 10, Sleeping(6), [3], [1], [3], 0)) {
      ThirdPick();
    }
    YieldMoves(Going(2, 0, 10, Sleeping(6), [3], [1], [3], 0), Late(0));
    if Shaped(Late(3)) {
      FourthPick();
    }
    YieldMoves(Late(3), Going(3, 0, 7, Running, [1, 2], [], [], 3));
  }

  /** The events up to the ticks: two threads go to sleep. */
  function Slept(): seq<Event<nat>> {
    Opened() + [MarkSleep(3)] + [Yield] + [MarkSleep(6)] + [Yield]
  }

  lemma SleptIs()
    ensures Slept() == Opened() + [MarkSleep(3)] + [Yield] + [MarkSleep(6)] + [Yield]
  {
  }

  /** The deadline of thread 2 is the sixth tick. */
  predicate WantsSix(deadline: map<nat, int>) {
    2 in deadline && deadline[2] == 6
  }

  lemma SixWanted(n: History<nat>, m: History<nat>)
    requires n.now == 0 && m.deadline == n.deadline[2 := n.now + 6]
    ensures WantsSix(m.deadline)
  {
  }

  lemma FirstSleeps() returns (n: History<nat>)
    ensures n.now == 0
    ensures n.s == Going(2, 0, 10, Running, [3], [1], [3], 0)
    ensures Leads(Start(0), Opened() + [MarkSleep(3)] + [Yield], n)
  {
    assert 3 < WORD;
    hide *;
    LaterYields();
    n := Opening();
    n := ThenSleep(Opened(), n, 1, 3, [2, 3], [], []);
    n := Then(Opened() + [MarkSleep(3)], n, Yield, Going(2, 0, 10, Running, [3], [1], [3], 0));
  }

  lemma SecondMarks() returns (n: History<nat>)
    ensures n.now == 0 && WantsSix(n.deadline)
    ensures n.s == Going(2, 0, 10, Sleeping(6), [3], [1], [3], 0)
    ensures Leads(Start(0), Opened() + [MarkSleep(3)] + [Yield] + [MarkSleep(6)], n)
  {
    assert 6 < WORD;
    hide *;
    var h := FirstSleeps();
    n := ThenSleep(Opened() + [MarkSleep(3)] + [Yield], h, 2, 6, [3], [1], [3]);
    SixWanted(h, n);
  }

  lemma SecondSleeps() returns (n: History<nat>)
    ensures n.s == Late(0) && n.now == 0 && WantsSix(n.deadline)
    ensures Leads(Start(0), Slept(), n)
  {
    hide *;
    LaterYields();
    SleptIs();
    n := SecondMarks();
    n := Then(Opened() + [MarkSleep(3)] + [Yield] + [MarkSleep(6)], n, Yield, Late(0));
  }

  lemma TicksPass() returns (n: History<nat>)
    ensures n.s == Late(3) && n.now == 3 && WantsSix(n.deadline)
    ensures Leads(Start(0), Slept() + [Tick] + [Tick] + [Tick], n)
  {
    hide *;
    TickMoves(0);
    TickMoves(1);
    TickMoves(2);
    n := SecondSleeps();
    n := Then(Slept(), n, Tick, Late(1));
    n := Then(Slept() + [Tick], n, Tick, Late(2));
    n := Then(Slept() + [Tick] + [Tick], n, Tick, Late(3));
  }

  /** Threads 1, 2 and 3 are started; 1 asks for three ticks and 2 for six; three ticks pass. */
  function ThreeTicks(): seq<Event<nat>> {
    Slept() + [Tick] + [Tick] + [Tick] + [Yield]
  }

  lemma Wakes() returns (n: History<nat>)
    ensures n.s == Going(3, 0, 7, Running, [1, 2], [], [], 3)
    ensures n.now == 3 && WantsSix(n.deadline)
    ensures Leads(Start(0), ThreeTicks(), n)
  {
    hide *;
    LaterYields();
    ThreeTicksIs();
    n := TicksPass();
    n := Then(Slept() + [Tick] + [Tick] + [Tick], n, Yield, Going(3, 0, 7, Running, [1, 2], [], [], 3));
  }

  /** It happens on a run from boot: after three ticks thread 2 is runnable, although
      it asked to sleep until the sixth. */
  lemma WakesThreeTicksEarly() returns (n: History<nat>)
    ensures Reached(0, ThreeTicks(), n)
    ensures n.now == 3 && WantsSix(n.deadline)
    ensures n.s.slept == [] && n.s.current == 3 && n.s.active == [[1, 2], [], [], [0]]
  {
    hide *;
    n := Wakes();
    LeadsReached(ThreeTicks(), n);
    EndsWith();
  }

  lemma ThreeTicksIs()
    ensures ThreeTicks() == Slept() + [Tick] + [Tick] + [Tick] + [Yield]
  {
  }

  lemma EndsWith()
    ensures var s := Going(3, 0, 7, Running, [1, 2], [], [], 3);
      s.slept == [] && s.current == 3 && s.active == [[1, 2], [], [], [0]]
  {
  }

  lemma LeadsReached(es: seq<Event<nat>>, n: History<nat>)
    requires Leads(Start(0), es, n)
    ensures Reached(0, es, n)
  {
  }
}

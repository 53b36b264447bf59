/** The scheduler's bookkeeping as a value and its operations as functions on
    it, step for step as the kernel performs them.  T stands for whatever
    identifies a thread. */
module SchedulerModel {
  import opened Options
  import DeltaQueue

  const PRIORITIES: nat := 4
  const PRIORITY_IDLE: nat := 3
  const QUANTUM_SHORT: nat := 4
  const WORD: nat := 0x1_0000_0000

  /** The scheduling part of a thread control block. */
  datatype Thread = Thread(priority: nat, quantum: nat, elapsed: nat)

  /** What the flags of the current thread ask the next pick to do with it. */
  datatype Intent = Running | Sleeping(ticks: nat) | Exiting

  datatype State<T(==)> = State(
    elapsed: nat,
    quantum: nat,
    current: T,
    intent: Intent,
    active: seq<seq<T>>,
    slept: seq<T>,
    deltas: seq<nat>,
    zombies: seq<T>,
    freed: seq<T>,
    threads: map<T, Thread>
  )

  // ---------------------------------------------------------------- operations

  /** The state scheduler_init leaves behind, with main as the running thread. */
  function Boot<T>(main: T): State<T> {
    State(0, 1, main, Running, [[], [], [], []], [], [], [], [], map[main := Thread(PRIORITY_IDLE, QUANTUM_SHORT, 0)])
  }

  function Enqueue<T>(s: State<T>, t: T): State<T>
    requires Shaped(s) && t in s.threads
  {
    var p := s.threads[t].priority;
    s.(active := s.active[p := s.active[p] + [t]])
  }

  function Charge<T>(s: State<T>): State<T>
    requires s.current in s.threads
  {
    var c := s.threads[s.current];
    s.(threads := s.threads[s.current := c.(elapsed := c.elapsed + s.elapsed)])
  }

  /** Files the current thread where its flags say. */
  function Park<T>(s: State<T>): State<T>
    requires Shaped(s)
  {
    match s.intent
    case Exiting => s.(zombies := [s.current] + s.zombies)
    case Sleeping(n) =>
      DeltaQueue.InsertMeaning(s.deltas, n);
      var p := DeltaQueue.Position(s.deltas, n);
      s.(slept := s.slept[..p] + [s.current] + s.slept[p..], deltas := DeltaQueue.Insert(s.deltas, n))
    case Running => Enqueue(s, s.current)
  }

  /** The wake loop. */
  function Wake<T>(s: State<T>): State<T>
    requires Shaped(s)
    decreases |s.slept|
  {
    if s.slept == [] then s
    else if s.deltas[0] > s.elapsed then s.(deltas := s.deltas[0 := s.deltas[0] - s.elapsed])
    else Wake(Enqueue(s.(slept := s.slept[1..], deltas := s.deltas[1..]), s.slept[0]))
  }

  /** The first priority with a runnable thread, or PRIORITIES if there is none. */
  function Highest<T>(active: seq<seq<T>>): (p: nat)
    ensures p <= |active|
    ensures forall q :: 0 <= q < p ==> active[q] == []
    ensures p < |active| ==> active[p] != []
  {
    if active == [] || active[0] != [] then 0 else 1 + Highest(active[1..])
  }

  /** Takes the head of the first non-empty list and gives it what is left of its
      quantum, or a fresh quantum.  None stands for the NULL dereference of a pick
      that finds nobody to run. */
  function Dispatch<T>(s: State<T>): Option<State<T>>
    requires Shaped(s)
  {
    var p := Highest(s.active);
    if p == |s.active| then None
    else
      var t := s.active[p][0];
      var c := s.threads[t];
      var used := if c.elapsed >= c.quantum then 0 else c.elapsed;
      Some(s.(elapsed := 0, quantum := c.quantum - used, current := t, intent := Running,
              active := s.active[p := s.active[p][1..]],
              threads := s.threads[t := c.(elapsed := used)]))
  }

  /** The state a pick searches for its target. */
  function Ready<T>(s: State<T>): State<T>
    requires Shaped(s)
  {
    ParkShaped(Charge(s));
    Wake(Park(Charge(s)))
  }

  function Pick<T>(s: State<T>): Option<State<T>>
    requires Shaped(s)
  {
    ParkShaped(Charge(s));
    WakeShaped(Park(Charge(s)));
    Dispatch(Ready(s))
  }

  // --------------------------------------------------------------------- shape

  ghost predicate Shaped<T>(s: State<T>) {
    && |s.active| == PRIORITIES
    && |s.slept| == |s.deltas|
    && s.current in s.threads
    && (forall t :: t in s.threads ==> s.threads[t].priority < PRIORITIES)
    && (forall i :: 0 <= i < |s.slept| ==> s.slept[i] in s.threads)
    && (forall p, i :: 0 <= p < PRIORITIES && 0 <= i < |s.active[p]| ==>
          s.active[p][i] in s.threads && s.threads[s.active[p][i]].priority == p)
  }

  lemma ParkShaped<T>(s: State<T>)
    requires Shaped(s)
    ensures Shaped(Park(s))
  {
    if s.intent.Sleeping? {
      DeltaQueue.InsertMeaning(s.deltas, s.intent.ticks);
    }
  }

  lemma {:induction false} WakeShaped<T>(s: State<T>)
    requires Shaped(s)
    ensures Shaped(Wake(s))
    decreases |s.slept|
  {
    if s.slept == [] {
    } else if s.deltas[0] <= s.elapsed {
      WakeShaped(Enqueue(s.(slept := s.slept[1..], deltas := s.deltas[1..]), s.slept[0]));
    }
  }

  /** One round of the wake loop. */
  lemma WakeStep<T>(s: State<T>)
    requires Shaped(s)
    ensures s.slept == [] ==> Wake(s) == s
    ensures s.slept != [] && s.deltas[0] > s.elapsed ==>
      Wake(s) == s.(deltas := s.deltas[0 := s.deltas[0] - s.elapsed])
    ensures s.slept != [] && s.deltas[0] <= s.elapsed ==>
      var n := Enqueue(s.(slept := s.slept[1..], deltas := s.deltas[1..]), s.slept[0]);
      Shaped(n) && n.slept == s.slept[1..] && Wake(s) == Wake(n)
  {
  }
}

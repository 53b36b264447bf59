/** The arithmetic of the sleep queue.  Each sleeper stores only the ticks that
    separate it from the sleeper in front of it, so the time an entry has left
    is the sum of all deltas up to and including its own. */
module DeltaQueue {

  function Sum(ds: seq<nat>): nat {
    if ds == [] then 0 else ds[0] + Sum(ds[1..])
  }

  /** The ticks entry i has left: what the deltas mean. */
  function Due(ds: seq<nat>, i: nat): nat
    requires i < |ds|
  {
    if i == 0 then ds[0] else ds[0] + Due(ds[1..], i - 1)
  }

  /** Where the walk of the insertion stops: in front of the first entry that is
      not due earlier. */
  function Position(ds: seq<nat>, n: nat): nat {
    if ds == [] || n <= ds[0] then 0 else 1 + Position(ds[1..], n - ds[0])
  }

  /** Insertion of a sleeper that asks for n ticks. */
  function Insert(ds: seq<nat>, n: nat): seq<nat> {
    if ds == [] then [n]
    else if n <= ds[0] then [n, ds[0] - n] + ds[1..]
    else [ds[0]] + Insert(ds[1..], n - ds[0])
  }

  /** Insertion gives the newcomer exactly the ticks it asked for, changes nobody
      else's remaining time, and keeps the queue in order of remaining time. */
  lemma {:induction false} InsertMeaning(ds: seq<nat>, n: nat)
    ensures Position(ds, n) <= |ds| && |Insert(ds, n)| == |ds| + 1
    ensures Due(Insert(ds, n), Position(ds, n)) == n
    ensures forall i :: 0 <= i < Position(ds, n) ==> Due(Insert(ds, n), i) == Due(ds, i) < n
    ensures forall i :: Position(ds, n) <= i < |ds| ==> n <= Due(ds, i) == Due(Insert(ds, n), i + 1)
  {
    var r, p := Insert(ds, n), Position(ds, n);
    if ds == [] {
    } else if n <= ds[0] {
      forall i | 0 <= i < |ds|
        ensures n <= Due(ds, i) == Due(r, i + 1)
      {
        assert r[1..] == [ds[0] - n] + ds[1..] && r[1..][1..] == ds[1..];
      }
    } else {
      InsertMeaning(ds[1..], n - ds[0]);
      assert r[1..] == Insert(ds[1..], n - ds[0]);
      forall i | 0 <= i < p
        ensures Due(r, i) == Due(ds, i) < n
      {
        if i > 0 {
          assert Due(r[1..], i - 1) == Due(ds[1..], i - 1);
        }
      }
      forall i | p <= i < |ds|
        ensures n <= Due(ds, i) == Due(r, i + 1)
      {
        assert Due(r[1..], i) == Due(ds[1..], i - 1);
      }
    }
  }

  predicate Bounded(ds: seq<nat>, bound: nat) {
    forall i :: 0 <= i < |ds| ==> ds[i] < bound
  }

  /** No delta grows, so none can outgrow the machine word it is stored in. */
  lemma {:induction false} InsertBounded(ds: seq<nat>, n: nat, bound: nat)
    requires n < bound && Bounded(ds, bound)
    ensures Bounded(Insert(ds, n), bound)
  {
    if ds == [] {
    } else if ds[0] < n {
      InsertBounded(ds[1..], n - ds[0], bound);
    }
  }

  /** How many entries the wake loop releases: it compares each head delta with
      the whole elapsed time and never uses the time up. */
  function Expired(ds: seq<nat>, e: nat): nat {
    if ds == [] || ds[0] > e then 0 else 1 + Expired(ds[1..], e)
  }

  /** The deltas that remain after the wake loop. */
  function AfterWake(ds: seq<nat>, e: nat): seq<nat> {
    if ds == [] then []
    else if ds[0] > e then [ds[0] - e] + ds[1..]
    else AfterWake(ds[1..], e)
  }

  /** What a delta queue is for: letting e ticks pass for everybody. */
  function Advance(ds: seq<nat>, e: nat): seq<nat> {
    if ds == [] then []
    else if ds[0] > e then [ds[0] - e] + ds[1..]
    else Advance(ds[1..], e - ds[0])
  }

  /** Advance removes exactly the entries whose time has come and takes e ticks
      off every other one. */
  lemma {:induction false} AdvanceMeaning(ds: seq<nat>, e: nat)
    ensures |Advance(ds, e)| <= |ds|
    ensures var k := |ds| - |Advance(ds, e)|;
            && (forall i :: 0 <= i < k ==> Due(ds, i) <= e)
            && (forall i :: k <= i < |ds| ==> Due(ds, i) == Due(Advance(ds, e), i - k) + e > e)
  {
    if ds == [] {
    } else if ds[0] > e {
      forall i | 0 <= i < |ds|
        ensures Due(ds, i) == Due(Advance(ds, e), i) + e > e
      {
        assert Advance(ds, e)[1..] == ds[1..];
      }
    } else {
      AdvanceMeaning(ds[1..], e - ds[0]);
      var k := |ds| - |Advance(ds, e)|;
      forall i | 0 <= i < k
        ensures Due(ds, i) <= e
      {
        if i > 0 {
          assert Due(ds[1..], i - 1) <= e - ds[0];
        }
      }
      forall i | k <= i < |ds|
        ensures Due(ds, i) == Due(Advance(ds, e), i - k) + e > e
      {
        assert Due(ds[1..], i - 1) == Due(Advance(ds, e), i - k) + (e - ds[0]);
      }
    }
  }

  /** The wake loop never lets anybody sleep too long: whoever is left had more
      than e ticks to go, is left with at most what it should have, and the new
      head is strictly positive. */
  lemma {:induction false} AfterWakeNeverLate(ds: seq<nat>, e: nat)
    ensures Expired(ds, e) <= |ds| && |AfterWake(ds, e)| == |ds| - Expired(ds, e)
    ensures forall j :: 0 <= j < |AfterWake(ds, e)| ==>
      0 < Due(AfterWake(ds, e), j) <= Due(ds, Expired(ds, e) + j) - e
    ensures AfterWake(ds, e) != [] ==> AfterWake(ds, e)[0] > 0
  {
    if ds == [] {
    } else if ds[0] > e {
      forall j | 0 <= j < |ds|
        ensures 0 < Due(AfterWake(ds, e), j) <= Due(ds, j) - e
      {
        assert AfterWake(ds, e)[1..] == ds[1..];
      }
    } else {
      AfterWakeNeverLate(ds[1..], e);
      var k := Expired(ds[1..], e);
      forall j | 0 <= j < |AfterWake(ds, e)|
        ensures 0 < Due(AfterWake(ds, e), j) <= Due(ds, 1 + k + j) - e
      {
        assert 0 < Due(AfterWake(ds[1..], e), j) <= Due(ds[1..], k + j) - e;
      }
    }
  }

  lemma {:induction false} AfterWakeBounded(ds: seq<nat>, e: nat, bound: nat)
    requires Bounded(ds, bound)
    ensures Bounded(AfterWake(ds, e), bound)
  {
    if ds == [] {
    } else if ds[0] <= e {
      AfterWakeBounded(ds[1..], e, bound);
    }
  }

  /** The first sleeper with any time left at all has more than e ticks left. */
  predicate HeadOutlasts(ds: seq<nat>, e: nat) {
    ds != [] && (ds[0] > e || (ds[0] == 0 && HeadOutlasts(ds[1..], e)))
  }

  /** The wake loop is not a delta queue's advance: of two sleepers with 3 and 6
      ticks to go, both wake after 3. */
  lemma WakesEarly()
    ensures AfterWake([3, 3], 3) == [] != Advance([3, 3], 3)
  {
    assert AfterWake([3, 3], 3) == AfterWake([3], 3) == AfterWake([], 3);
    assert Advance([3, 3], 3) == Advance([3], 0) == [3];
  }

  /** Exactly when the wake loop does what a delta queue should: either everybody
      is due, or nobody with time left is. */
  lemma {:induction false} WakeExactIff(ds: seq<nat>, e: nat)
    ensures AfterWake(ds, e) == Advance(ds, e) <==> Sum(ds) <= e || HeadOutlasts(ds, e)
  {
    if ds != [] && ds[0] <= e {
      if ds[0] == 0 {
        WakeExactIff(ds[1..], e);
      } else {
        WakeAheadOfAdvance(ds[1..], e, e - ds[0]);
      }
    } else if ds != [] {
      assert HeadOutlasts(ds, e);
    }
  }

  lemma {:induction false} WakeAheadOfAdvance(ds: seq<nat>, e: nat, left: nat)
    requires left < e
    ensures AfterWake(ds, e) == Advance(ds, left) <==> Sum(ds) <= left
  {
    if ds == [] {
    } else if ds[0] > e {
      assert AfterWake(ds, e)[0] != Advance(ds, left)[0];
    } else if ds[0] <= left {
      WakeAheadOfAdvance(ds[1..], e, left - ds[0]);
    } else {
      AfterWakeNeverLate(ds[1..], e);
    }
  }

  /** Somebody due before n has a delta of more than e, or n is more than e ticks behind
      everybody due before it and behind now. */
  ghost predicate Outlasts(ds: seq<nat>, n: nat, e: nat) {
    || (exists i :: 0 <= i < |ds| && Due(ds, i) < n && ds[i] > e)
    || (n > e && forall i :: 0 <= i < |ds| && Due(ds, i) < n ==> n - Due(ds, i) > e)
  }

  /** Exactly when the wake loop that follows the insertion leaves the newcomer asleep. */
  lemma {:induction false} StaysAsleepIff(ds: seq<nat>, n: nat, e: nat)
    ensures Expired(Insert(ds, n), e) <= Position(ds, n) <==> Outlasts(ds, n, e)
    decreases |ds|
  {
    if ds == [] {
    } else if n <= ds[0] {
      DueFromHead(ds);
    } else if ds[0] > e {
      assert Due(ds, 0) < n;
    } else {
      StaysAsleepIff(ds[1..], n - ds[0], e);
      OutlastsBehind(ds, n, e);
      assert Insert(ds, n)[1..] == Insert(ds[1..], n - ds[0]);
    }
  }

  lemma DueFromHead(ds: seq<nat>)
    requires ds != []
    ensures forall i :: 0 <= i < |ds| ==> Due(ds, i) >= ds[0]
  {
  }

  lemma OutlastsBehind(ds: seq<nat>, n: nat, e: nat)
    requires ds != [] && ds[0] < n && ds[0] <= e
    ensures Outlasts(ds, n, e) <==> Outlasts(ds[1..], n - ds[0], e)
  {
    var rest, m := ds[1..], n - ds[0];
    assert forall i :: 0 < i < |ds| ==> Due(ds, i) == ds[0] + Due(rest, i - 1) && ds[i] == rest[i - 1];
    assert Due(ds, 0) == ds[0];
    if Outlasts(rest, m, e) {
      if i :| 0 <= i < |rest| && Due(rest, i) < m && rest[i] > e {
        assert Due(ds, i + 1) < n && ds[i + 1] > e;
      }
    }
    if Outlasts(ds, n, e) {
      if i :| 0 <= i < |ds| && Due(ds, i) < n && ds[i] > e {
        assert Due(rest, i - 1) < m && rest[i - 1] > e;
      } else {
        forall i | 0 <= i < |rest| && Due(rest, i) < m
          ensures m - Due(rest, i) > e
        {
          assert Due(ds, i + 1) < n;
        }
      }
    }
  }
}

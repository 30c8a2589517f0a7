/** Round-robin scheduling as a relation on thread states, and what it guarantees over runs. */
module Scheduling {
  import opened Memory
  import opened SwitchThread

  const MAX_TRIES: nat := 500

  /** Thread states in list order, the search index, the position of the current thread. */
  datatype Sched = Sched(states: seq<TCBState>, index: nat, current: nat, enabled: bool)

  predicate Valid(s: Sched) {
    s.index < |s.states| && s.current < |s.states|
  }

  function Next(i: nat, n: nat): nat {
    if i + 1 >= n then 0 else i + 1
  }

  /** The index after k steps of the search. */
  function Advance(i: nat, k: nat, n: nat): nat {
    if k == 0 then i else Next(Advance(i, k - 1, n), n)
  }

  /** How many steps ahead of a position another lies: 1 for the next, n for itself. */
  function Distance(a: nat, b: nat, n: nat): (d: nat)
    requires a < n && b < n
    ensures 1 <= d <= n
  {
    if b > a then b - a else b + n - a
  }

  lemma {:induction false} AdvanceSteps(a: nat, k: nat, n: nat)
    requires a < n
    ensures Advance(a, k, n) < n
    ensures 1 <= k <= n ==> Advance(a, k, n) == if a + k < n then a + k else a + k - n
    ensures 1 <= k <= n ==> Distance(a, Advance(a, k, n), n) == k
  {
    if k > 0 {
      AdvanceSteps(a, k - 1, n);
    }
  }

  /** Thread t is the ready one nearest ahead of the index. */
  ghost predicate NextReady(s: Sched, t: nat)
    requires Valid(s)
  {
    && t < |s.states| && s.states[t] == Ready
    && forall u :: 0 <= u < |s.states| && s.states[u] == Ready ==>
         Distance(s.index, t, |s.states|) <= Distance(s.index, u, |s.states|)
  }

  /** Is any ready thread met before the search gives up? */
  ghost predicate ReadyInReach(s: Sched)
    requires Valid(s)
  {
    exists t :: 0 <= t < |s.states| && s.states[t] == Ready && Distance(s.index, t, |s.states|) <= MAX_TRIES + 1
  }

  function Picked(s: Sched, t: nat): Sched
    requires Valid(s) && t < |s.states|
  {
    s.(states := s.states[s.current := Ready][t := Running], index := t, current := t)
  }

  /** One call of Schedule. */
  ghost predicate Scheduled(s: Sched, s': Sched)
    requires Valid(s)
  {
    if !s.enabled then s' == s
    else if ReadyInReach(s) then forall t: nat :: NextReady(s, t) ==> s' == Picked(s, t)
    else s' == s.(index := Advance(s.index, MAX_TRIES + 1, |s.states|))
  }

  /** There is exactly one nearest ready thread, so the call's outcome is determined. */
  lemma NextReadyUnique(s: Sched, t: nat, u: nat)
    requires Valid(s) && NextReady(s, t) && NextReady(s, u)
    ensures t == u
  {
  }

  lemma {:induction false} NearestFrom(s: Sched, t: nat, d: nat) returns (u: nat)
    requires Valid(s) && t < |s.states| && s.states[t] == Ready && Distance(s.index, t, |s.states|) == d
    ensures NextReady(s, u) && Distance(s.index, u, |s.states|) <= d
    decreases d
  {
    if v :| 0 <= v < |s.states| && s.states[v] == Ready && Distance(s.index, v, |s.states|) < d {
      u := NearestFrom(s, v, Distance(s.index, v, |s.states|));
    } else {
      u := t;
    }
  }

  /** A call picks somebody exactly when scheduling is enabled and a ready thread is in reach. */
  lemma ScheduledPicks(s: Sched, s': Sched) returns (t: nat)
    requires Valid(s) && Scheduled(s, s') && s.enabled && ReadyInReach(s)
    ensures NextReady(s, t) && s' == Picked(s, t)
  {
    var u: nat :| u < |s.states| && s.states[u] == Ready && Distance(s.index, u, |s.states|) <= MAX_TRIES + 1;
    t := NearestFrom(s, u, Distance(s.index, u, |s.states|));
  }

  lemma ScheduledValid(s: Sched, s': Sched)
    requires Valid(s) && Scheduled(s, s')
    ensures Valid(s') && |s'.states| == |s.states| && s'.enabled == s.enabled
  {
    if s.enabled {
      if ReadyInReach(s) {
        var t := ScheduledPicks(s, s');
      } else {
        AdvanceSteps(s.index, MAX_TRIES + 1, |s.states|);
      }
    }
  }

  /** Positions go round: the k-th step of the search looks at the thread k places after the index. */
  lemma {:induction false} AdvanceGoesRound(i: nat, k: nat, n: nat)
    requires i < n
    ensures Advance(i, k, n) == (i + k) % n
  {
    if k == 0 {
      DivModUnique(0, i, n);
    } else {
      AdvanceGoesRound(i, k - 1, n);
      NextGoesRound(i + k - 1, n);
    }
  }

  lemma NextGoesRound(x: nat, n: nat)
    requires n > 0
    ensures Next(x % n, n) == (x + 1) % n
  {
    var q, r := x / n, x % n;
    assert x == q * n + r;
    if r + 1 < n {
      DivModUnique(q, r + 1, n);
    } else {
      assert x + 1 == (q + 1) * n + 0;
      DivModUnique(q + 1, 0, n);
    }
  }

  /** The state of the thread so many places after the index, going round. */
  function Ahead(s: Sched, e: nat): TCBState
    requires Valid(s)
  {
    s.states[(s.index + e) % |s.states|]
  }

  /**
   An enabled call, spelled out: the first of the 501 threads after the index that is Ready becomes Running and
   current, and the thread that was current becomes Ready.
  */
  lemma SwitchesToFirstReady(s: Sched, s': Sched, d: nat)
    requires Valid(s) && Scheduled(s, s') && s.enabled && 1 <= d <= 501
    requires Ahead(s, d) == Ready
    requires forall e: nat | 1 <= e < d :: Ahead(s, e) != Ready
    ensures var t := (s.index + d) % |s.states|;
            s' == Sched(s.states[s.current := Ready][t := Running], t, t, true)
  {
    hide Advance;
    var n, t := |s.states|, (s.index + d) % |s.states|;
    WithinRound(s, d);
    AdvanceSteps(s.index, d, n);
    AdvanceGoesRound(s.index, d, n);
    assert Distance(s.index, t, n) == d;
    assert ReadyInReach(s);
    var u := ScheduledPicks(s, s');
    var e := Distance(s.index, u, n);
    AtDistance(s.index, u, n);
    assert e <= d;
    assert Ahead(s, e) == Ready;
  }

  /** The thread at a distance. */
  lemma AtDistance(a: nat, b: nat, n: nat)
    requires a < n && b < n
    ensures (a + Distance(a, b, n)) % n == b
  {
    if b > a {
      DivModUnique(0, b, n);
    } else {
      DivModUnique(1, b, n);
    }
  }

  /** The first Ready thread is met before the search comes round to where it was. */
  lemma WithinRound(s: Sched, d: nat)
    requires Valid(s) && d >= 1 && Ahead(s, d) == Ready
    requires forall e: nat | 1 <= e < d :: Ahead(s, e) != Ready
    ensures d <= |s.states|
  {
    if d > |s.states| {
      AheadGoesRound(s, d - |s.states|);
    }
  }

  lemma AheadGoesRound(s: Sched, e: nat)
    requires Valid(s)
    ensures Ahead(s, e + |s.states|) == Ahead(s, e)
  {
    AddDivisorMod(s.index + e, |s.states|);
    assert s.index + (e + |s.states|) == s.index + e + |s.states|;
  }

  /** With none of those 501 Ready, a call only moves the index past them. */
  lemma GivesUpAfter501(s: Sched, s': Sched)
    requires Valid(s) && Scheduled(s, s') && s.enabled
    requires forall e: nat | 1 <= e <= 501 :: Ahead(s, e) != Ready
    ensures s' == s.(index := (s.index + 501) % |s.states|)
  {
    hide Advance;
    var n := |s.states|;
    AdvanceGoesRound(s.index, 501, n);
    forall t | 0 <= t < n && s.states[t] == Ready ensures Distance(s.index, t, n) > MAX_TRIES + 1 {
      AtDistance(s.index, t, n);
      assert Ahead(s, Distance(s.index, t, n)) == Ready;
    }
  }

  // ----- states over runs -----

  datatype Event =
    | Schedule
    | Create
    | Outside(thread: nat, state: TCBState)

  /** Scheduling, adding a ready thread, or a change from outside to a thread that is not current, never to Running. */
  ghost predicate Step(s: Sched, e: Event, s': Sched)
    requires Valid(s)
  {
    match e
    case Schedule => Scheduled(s, s')
    case Create => s' == s.(states := s.states + [Ready])
    case Outside(t, state) =>
      t < |s.states| && t != s.current && state != Running && s' == s.(states := s.states[t := state])
  }

  ghost predicate Run(trace: seq<Sched>, events: seq<Event>) {
    && |trace| == |events| + 1
    && (forall k :: 0 <= k < |trace| ==> Valid(trace[k]))
    && (forall k :: 0 <= k < |events| ==> Step(trace[k], events[k], trace[k + 1]))
  }

  /** Only the current thread can be Running. */
  ghost predicate OnlyCurrentRuns(s: Sched) {
    forall t :: 0 <= t < |s.states| && s.states[t] == Running ==> t == s.current
  }

  /** Exactly the current thread is Running. */
  ghost predicate CurrentRuns(s: Sched)
    requires Valid(s)
  {
    forall t :: 0 <= t < |s.states| ==> (s.states[t] == Running <==> t == s.current)
  }

  lemma StepKeepsRunning(s: Sched, e: Event, s': Sched)
    requires Valid(s) && Valid(s') && Step(s, e, s') && OnlyCurrentRuns(s)
    ensures OnlyCurrentRuns(s')
    ensures CurrentRuns(s) || (e == Schedule && s.enabled && ReadyInReach(s)) ==> CurrentRuns(s')
  {
    if e == Schedule && s.enabled && ReadyInReach(s) {
      var t := ScheduledPicks(s, s');
    }
  }

  /** In every state of every run at most the current thread is Running. */
  lemma {:induction false} RunningIsCurrent(trace: seq<Sched>, events: seq<Event>, k: nat)
    requires Run(trace, events) && k < |trace| && OnlyCurrentRuns(trace[0])
    ensures OnlyCurrentRuns(trace[k])
  {
    if k > 0 {
      RunningIsCurrent(trace, events, k - 1);
      StepKeepsRunning(trace[k - 1], events[k - 1], trace[k]);
    }
  }

  /** From the first switch on, exactly one thread is Running, and it is the current one. */
  lemma {:induction false} ExactlyOneRuns(trace: seq<Sched>, events: seq<Event>, first: nat, k: nat)
    requires Run(trace, events) && first < k < |trace| && OnlyCurrentRuns(trace[0])
    requires events[first] == Schedule && trace[first].enabled && ReadyInReach(trace[first])
    ensures CurrentRuns(trace[k])
    decreases k
  {
    RunningIsCurrent(trace, events, k - 1);
    if k > first + 1 {
      ExactlyOneRuns(trace, events, first, k - 1);
    }
    StepKeepsRunning(trace[k - 1], events[k - 1], trace[k]);
  }

  /** Schedule neither chooses nor changes a thread that is Dead or Waiting, unless it is the current one. */
  lemma SleepersUntouched(s: Sched, s': Sched, t: nat)
    requires Valid(s) && Scheduled(s, s') && t < |s.states| && t != s.current
    requires s.states[t] == Dead || s.states[t] == Waiting
    ensures |s'.states| == |s.states| && s'.states[t] == s.states[t] && s'.current != t
  {
    if s.enabled && ReadyInReach(s) {
      var u := ScheduledPicks(s, s');
    }
  }

  predicate Alive(st: TCBState) {
    st == Ready || st == Running
  }

  /**
   Schedule keeps the set of Ready-or-Running threads exactly when it does not switch, or the current thread is
   in that set: switching away from a current thread that is Dead or Waiting makes it Ready again.
  */
  lemma KeepsAliveIff(s: Sched, s': Sched)
    requires Valid(s) && Scheduled(s, s')
    ensures |s'.states| == |s.states|
    ensures (forall t :: 0 <= t < |s.states| ==> (Alive(s'.states[t]) <==> Alive(s.states[t]))) <==>
            !s.enabled || !ReadyInReach(s) || Alive(s.states[s.current])
  {
    if s.enabled && ReadyInReach(s) {
      var u := ScheduledPicks(s, s');
      assert Alive(s'.states[s.current]);
    }
  }

  /** A Dead thread that is current comes back to life when the one after it is picked. */
  lemma DeadRevived()
    ensures var s, s' := Sched([Dead, Ready], 0, 0, true), Sched([Ready, Running], 1, 1, true);
            Valid(s) && Scheduled(s, s') && !Alive(s.states[0]) && Alive(s'.states[0])
  {
    var s := Sched([Dead, Ready], 0, 0, true);
    assert NextReady(s, 1);
    assert s.states[1] == Ready && Distance(s.index, 1, |s.states|) <= MAX_TRIES + 1;
  }

  // ----- bounded waiting -----

  /** Between two calls anything may happen to the states of threads other than t. */
  predicate Elsewhere(s: Sched, s': Sched) {
    |s'.states| == |s.states| && s'.index == s.index && s'.current == s.current && s'.enabled == s.enabled
  }

  /** Calls of Schedule, before and after each, with changes in between. */
  ghost predicate Rounds(before: seq<Sched>, after: seq<Sched>) {
    && |before| == |after|
    && (forall k :: 0 <= k < |before| ==> Valid(before[k]) && Scheduled(before[k], after[k]))
    && (forall k :: 0 <= k < |before| - 1 ==> Elsewhere(after[k], before[k + 1]))
  }

  /** Thread t is ready before every call until the one that runs it. */
  ghost predicate ReadyUntilRun(before: seq<Sched>, after: seq<Sched>, t: nat)
    requires |before| == |after|
  {
    forall k :: 0 <= k < |before| && (forall j :: 0 <= j < k ==> after[j].current != t) ==>
      t < |before[k].states| && before[k].states[t] == Ready
  }

  /** One call with t ready in reach: t runs, or a thread strictly between the index and t does. */
  lemma RoundMovesTowards(s: Sched, s': Sched, t: nat)
    requires Valid(s) && Scheduled(s, s') && s.enabled && |s.states| <= 501
    requires t < |s.states| && s.states[t] == Ready
    ensures Valid(s') && |s'.states| == |s.states| && s'.enabled && s'.index == s'.current
    ensures Distance(s.index, s'.index, |s.states|) <= Distance(s.index, t, |s.states|)
    ensures s'.current != t ==>
      Distance(s'.index, t, |s.states|) == Distance(s.index, t, |s.states|) - Distance(s.index, s'.index, |s.states|)
  {
    ScheduledValid(s, s');
    var u := ScheduledPicks(s, s');
  }

  lemma DistanceAdds(a: nat, b: nat, c: nat, n: nat)
    requires a < n && b < n && c < n && Distance(a, b, n) + Distance(b, c, n) <= n
    ensures Distance(a, c, n) == Distance(a, b, n) + Distance(b, c, n)
  {
  }

  /**
   Bounded waiting: with at most 501 threads, a thread that stays ready at distance d ahead of the index is run by
   the d-th call at the latest, whatever happens to the states of the other threads, and the threads run up to
   then lie at strictly growing distances, so none runs twice.
  */
  lemma {:induction false} BoundedWaiting(before: seq<Sched>, after: seq<Sched>, t: nat, d: nat) returns (k: nat)
    requires Rounds(before, after) && d <= |before| && 0 < |before|
    requires before[0].enabled && |before[0].states| <= 501 && t < |before[0].states|
    requires Distance(before[0].index, t, |before[0].states|) == d && ReadyUntilRun(before, after, t)
    ensures k < d && after[k].current == t
    ensures forall i :: 0 <= i <= k ==>
              after[i].current < |before[0].states| && Distance(before[0].index, after[i].current, |before[0].states|) <= d
    ensures forall i, j :: 0 <= i < j <= k ==>
              Distance(before[0].index, after[i].current, |before[0].states|)
                < Distance(before[0].index, after[j].current, |before[0].states|)
    decreases d
  {
    hide Scheduled, ReadyInReach, NextReady, Advance;
    var s, n := before[0], |before[0].states|;
    assert s.states[t] == Ready;
    RoundMovesTowards(s, after[0], t);
    if after[0].current == t {
      k := 0;
    } else {
      var b, a := before[1..], after[1..];
      var e := Distance(s.index, after[0].index, n);
      LaterRounds(before, after, t);
      var k1 := BoundedWaiting(b, a, t, d - e);
      k := k1 + 1;
      forall i | 1 <= i <= k
        ensures after[i].current < n && Distance(s.index, after[i].current, n) == e + Distance(b[0].index, a[i - 1].current, n)
      {
        DistanceAdds(s.index, after[0].index, after[i].current, n);
      }
    }
  }

  lemma LaterRounds(before: seq<Sched>, after: seq<Sched>, t: nat)
    requires Rounds(before, after) && |before| > 1 && ReadyUntilRun(before, after, t) && after[0].current != t
    ensures Rounds(before[1..], after[1..]) && ReadyUntilRun(before[1..], after[1..], t)
    ensures Elsewhere(after[0], before[1])
  {
    var b, a := before[1..], after[1..];
    forall k | 0 <= k < |b| ensures Valid(b[k]) && Scheduled(b[k], a[k]) {
      assert b[k] == before[k + 1] && a[k] == after[k + 1];
    }
    forall k | 0 <= k < |b| - 1 ensures Elsewhere(a[k], b[k + 1]) {
      assert a[k] == after[k + 1] && b[k + 1] == before[k + 2];
    }
    forall k | 0 <= k < |b| && (forall j :: 0 <= j < k ==> a[j].current != t)
      ensures t < |b[k].states| && b[k].states[t] == Ready
    {
      forall j | 0 <= j < k + 1 ensures after[j].current != t {
        if j > 0 {
          assert a[j - 1].current != t;
        }
      }
      assert b[k] == before[k + 1];
    }
  }
}

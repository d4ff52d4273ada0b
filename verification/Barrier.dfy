/** The reusable barrier of `janus_workload/TATP/tatp_nvm.cc`, crossed again and again by
    exactly as many threads as it counts. */
module Barrier {
  import opened Wrappers

  /** Where a thread is in `barrier_cross`: outside; holding the mutex and about to count
      itself; parked in `pthread_cond_wait`; woken and in need of the mutex again; holding
      the mutex on its way out. */
  datatype Place = Outside | Holding | Parked | Woken | Leaving

  /** `rounds` counts the crossings a thread has completed. */
  datatype Thread = Thread(place: Place, rounds: nat)

  datatype State = State(threads: seq<Thread>, mutex: Option<nat>, crossing: nat)

  datatype Action =
    | Lock(t: nat)    // pthread_mutex_lock returns
    | Cross(t: nat)   // count; then wait, or broadcast and reset
    | Relock(t: nat)  // pthread_cond_wait returns
    | Unlock(t: nat)  // pthread_mutex_unlock

  predicate Enabled(s: State, a: Action) {
    a.t < |s.threads| &&
    match a
    case Lock(t) => s.threads[t].place == Outside && s.mutex == None
    case Cross(t) => s.threads[t].place == Holding
    case Relock(t) => s.threads[t].place == Woken && s.mutex == None
    case Unlock(t) => s.threads[t].place == Leaving
  }

  function Wake(th: Thread): (r: Thread) {
    if th.place == Parked then th.(place := Woken) else th
  }

  function WakeAll(ts: seq<Thread>): (r: seq<Thread>)
    ensures |r| == |ts|
  {
    seq(|ts|, i requires 0 <= i < |ts| => Wake(ts[i]))
  }

  function Apply(s: State, a: Action): (r: State)
    requires Enabled(s, a)
    ensures |r.threads| == |s.threads|
  {
    var me := s.threads[a.t];
    match a
    case Lock(t) => s.(threads := s.threads[t := me.(place := Holding)], mutex := Some(t))
    case Cross(t) =>
      if s.crossing + 1 < |s.threads|
      then State(s.threads[t := me.(place := Parked)], None, s.crossing + 1)
      else State(WakeAll(s.threads)[t := me.(place := Leaving)], s.mutex, 0)
    case Relock(t) => s.(threads := s.threads[t := me.(place := Leaving)], mutex := Some(t))
    case Unlock(t) => s.(threads := s.threads[t := Thread(Outside, me.rounds + 1)], mutex := None)
  }

  /** A step changes other threads only by the broadcast of the last to cross, which wakes
      those parked and no others. */
  lemma StepElsewhere(s: State, a: Action, u: nat)
    requires Enabled(s, a) && u < |s.threads| && u != a.t
    ensures Apply(s, a).threads[u] ==
            if a.Cross? && s.crossing + 1 >= |s.threads| && s.threads[u].place == Parked
            then Thread(Woken, s.threads[u].rounds) else s.threads[u]
  {}

  function ParkedCount(ts: seq<Thread>): (n: nat)
    ensures n <= |ts|
  {
    if ts == [] then 0 else ParkedCount(ts[..|ts| - 1]) + if ts[|ts| - 1].place == Parked then 1 else 0
  }

  lemma {:induction false} ParkedAfter(ts: seq<Thread>, t: nat, th: Thread)
    requires t < |ts|
    ensures ParkedCount(ts[t := th]) ==
            ParkedCount(ts) - (if ts[t].place == Parked then 1 else 0) + if th.place == Parked then 1 else 0
    decreases |ts|
  {
    var n := |ts| - 1;
    if t == n {
      assert ts[t := th][..n] == ts[..n];
    } else {
      assert ts[t := th][..n] == ts[..n][t := th];
      ParkedAfter(ts[..n], t, th);
    }
  }

  lemma {:induction false} AllParked(ts: seq<Thread>)
    requires ParkedCount(ts) == |ts|
    ensures forall u :: 0 <= u < |ts| ==> ts[u].place == Parked
    decreases |ts|
  {
    if ts != [] { AllParked(ts[..|ts| - 1]); }
  }

  lemma {:induction false} NoneParked(ts: seq<Thread>)
    requires forall u :: 0 <= u < |ts| ==> ts[u].place != Parked
    ensures ParkedCount(ts) == 0
    decreases |ts|
  {
    if ts != [] { NoneParked(ts[..|ts| - 1]); }
  }

  /** When all but one are parked, every other thread is. */
  lemma OthersParked(ts: seq<Thread>, t: nat)
    requires t < |ts| && ts[t].place != Parked && ParkedCount(ts) >= |ts| - 1
    ensures forall u :: 0 <= u < |ts| && u != t ==> ts[u].place == Parked
  {
    var all := ts[t := ts[t].(place := Parked)];
    ParkedAfter(ts, t, ts[t].(place := Parked));
    AllParked(all);
    assert forall u :: 0 <= u < |ts| && u != t ==> ts[u] == all[u];
  }

  /** `b` broadcasts have happened: who is waking or leaving still owes round `b - 1` its
      completion, all others have completed `b` rounds. */
  ghost predicate InRound(s: State, b: nat) {
    && (forall t :: 0 <= t < |s.threads| ==> ThreadIn(s, t, b))
    && s.crossing == ParkedCount(s.threads)
    && (|s.threads| > 0 ==> s.crossing < |s.threads|)
    && (s.mutex.Some? ==> s.mutex.value < |s.threads| && Holds(s.threads[s.mutex.value]))
  }

  predicate Holds(th: Thread) {
    th.place == Holding || th.place == Leaving
  }

  ghost predicate ThreadIn(s: State, t: nat, b: nat)
    requires t < |s.threads|
  {
    && s.threads[t].rounds + (if s.threads[t].place in {Woken, Leaving} then 1 else 0) == b
    && (Holds(s.threads[t]) ==> s.mutex == Some(t))
  }

  /** A broadcast finds everybody else parked. */
  lemma BroadcastStartsRound(s: State, t: nat, b: nat)
    requires InRound(s, b) && Enabled(s, Cross(t)) && s.crossing + 1 >= |s.threads|
    ensures InRound(Apply(s, Cross(t)), b + 1)
  {
    var r := Apply(s, Cross(t));
    OthersParked(s.threads, t);
    forall u | 0 <= u < |r.threads|
      ensures ThreadIn(r, u, b + 1) && r.threads[u].place != Parked
    {
      assert ThreadIn(s, u, b) && ThreadIn(s, t, b);
    }
    NoneParked(r.threads);
  }

  lemma StepKeepsRound(s: State, a: Action, b: nat)
    requires InRound(s, b) && Enabled(s, a) && !(a.Cross? && s.crossing + 1 >= |s.threads|)
    ensures InRound(Apply(s, a), b)
  {
    var r := Apply(s, a);
    assert ThreadIn(s, a.t, b);
    ParkedAfter(s.threads, a.t, r.threads[a.t]);
    forall u | 0 <= u < |r.threads|
      ensures ThreadIn(r, u, b)
    {
      assert ThreadIn(s, u, b);
    }
  }

  // ------------------------------------------------------------------------- runs

  ghost predicate Executes(s: State, run: seq<Action>)
    decreases |run|
  {
    run == [] || (Enabled(s, run[0]) && Executes(Apply(s, run[0]), run[1..]))
  }

  ghost function Final(s: State, run: seq<Action>): (r: State)
    requires Executes(s, run)
    decreases |run|
  {
    if run == [] then s else Final(Apply(s, run[0]), run[1..])
  }

  /** `barrier_init` for `n` threads. */
  function Initial(n: nat): (r: State) {
    State(seq(n, _ => Thread(Outside, 0)), None, 0)
  }

  lemma {:induction false} RunInRound(s: State, run: seq<Action>, b: nat) returns (c: nat)
    requires InRound(s, b) && Executes(s, run)
    ensures b <= c && InRound(Final(s, run), c) && |Final(s, run).threads| == |s.threads|
    decreases |run|
  {
    c := b;
    if run != [] {
      var a := run[0];
      if a.Cross? && s.crossing + 1 >= |s.threads| {
        BroadcastStartsRound(s, a.t, b);
        c := RunInRound(Apply(s, a), run[1..], b + 1);
      } else {
        StepKeepsRound(s, a, b);
        c := RunInRound(Apply(s, a), run[1..], b);
      }
    }
  }

  /** Rounds a thread has arrived at. */
  function Arrived(th: Thread): (n: nat) {
    th.rounds + if th.place in {Parked, Woken, Leaving} then 1 else 0
  }

  /** The barrier's promises, in every reachable state: whoever has completed `k` rounds,
      all threads have arrived at the `k`th; two threads are never more than a round apart;
      and while the mutex is free `crossing` is the number of parked threads. */
  lemma NobodyLeavesEarly(n: nat, run: seq<Action>, t: nat, u: nat)
    requires Executes(Initial(n), run) && t < n && u < n
    ensures |Final(Initial(n), run).threads| == n
    ensures var s := Final(Initial(n), run);
            && s.threads[t].rounds <= Arrived(s.threads[u])
            && s.threads[t].rounds <= s.threads[u].rounds + 1
            && s.crossing == ParkedCount(s.threads)
  {
    NoneParked(Initial(n).threads);
    var b := RunInRound(Initial(n), run, 0);
    var s := Final(Initial(n), run);
    assert ThreadIn(s, t, b) && ThreadIn(s, u, b);
  }

  /** The barrier never blocks for good: some thread can always move. */
  lemma SomeoneMoves(n: nat, run: seq<Action>) returns (a: Action)
    requires n > 0 && Executes(Initial(n), run)
    ensures Enabled(Final(Initial(n), run), a)
  {
    NoneParked(Initial(n).threads);
    var b := RunInRound(Initial(n), run, 0);
    var s := Final(Initial(n), run);
    if s.mutex.Some? {
      a := if s.threads[s.mutex.value].place == Holding then Cross(s.mutex.value) else Unlock(s.mutex.value);
    } else {
      var t := NotParked(s.threads);
      assert ThreadIn(s, t, b);
      a := if s.threads[t].place == Outside then Lock(t) else Relock(t);
    }
  }

  lemma {:induction false} NotParked(ts: seq<Thread>) returns (t: nat)
    requires ParkedCount(ts) < |ts|
    ensures t < |ts| && ts[t].place != Parked
    decreases |ts|
  {
    var n := |ts| - 1;
    if ts[n].place != Parked {
      t := n;
    } else {
      t := NotParked(ts[..n]);
    }
  }

  // ------------------------------------------------------------- spurious wakeups

  /** `pthread_cond_wait` of thread `t` wakes up by itself. */
  function Jolt(s: State, t: nat): (r: State)
    requires t < |s.threads|
  {
    s.(threads := s.threads[t := Wake(s.threads[t])])
  }

  /** The thread everybody waits for holds the mutex and is about to count itself. */
  predicate LastArrival(s: State) {
    && s.mutex.Some? && s.mutex.value < |s.threads| && s.threads[s.mutex.value].place == Holding
    && s.crossing + 1 >= |s.threads|
  }

  /** Some thread has completed a round that another has not arrived at. */
  ghost predicate LeftEarly(s: State) {
    exists t, u :: 0 <= t < |s.threads| && 0 <= u < |s.threads| && s.threads[t].rounds > Arrived(s.threads[u])
  }

  /** The run takes some thread out of a round too early. */
  ghost predicate EndsEarly(s: State, run: seq<Action>) {
    Executes(s, run) && LeftEarly(Final(s, run))
  }

  lemma OneStep(s: State, a: Action)
    requires Enabled(s, a)
    ensures Executes(s, [a]) && Final(s, [a]) == Apply(s, a)
  {
    assert |[a][1..]| == 0;
  }

  lemma MoreSteps(s: State, a: Action, run: seq<Action>)
    requires Enabled(s, a) && Executes(Apply(s, a), run)
    ensures Executes(s, [a] + run) && Final(s, [a] + run) == Final(Apply(s, a), run)
  {
    assert ([a] + run)[1..] == run;
  }

  /** With the mutex free, a woken thread goes off on its own. */
  lemma WokenLeaves(s: State, t: nat, u: nat, b: nat)
    requires t < |s.threads| && u < |s.threads| && u != t && s.mutex == None
    requires s.threads[t] == Thread(Woken, b) && Arrived(s.threads[u]) <= b
    ensures EndsEarly(s, [Relock(t)] + [Unlock(t)])
  {
    var r := Apply(s, Relock(t));
    OneStep(r, Unlock(t));
    MoreSteps(s, Relock(t), [Unlock(t)]);
    var e := Apply(r, Unlock(t));
    assert e.threads[t].rounds > Arrived(e.threads[u]);
  }

  /** Somebody else has not arrived, or not yet finished the round before. */
  lemma SomeoneMissing(s: State, t: nat, b: nat) returns (u: nat)
    requires InRound(s, b) && t < |s.threads| && s.threads[t].place == Parked
    ensures u < |s.threads| && u != t && s.threads[u].place != Parked && Arrived(s.threads[u]) <= b
  {
    u := NotParked(s.threads);
    assert ThreadIn(s, u, b);
  }

  lemma JoltLeavesEarly(s: State, t: nat, b: nat) returns (run: seq<Action>)
    requires InRound(s, b) && t < |s.threads| && s.threads[t].place == Parked && !LastArrival(s)
    ensures EndsEarly(Jolt(s, t), run)
  {
    assert ThreadIn(s, t, b);
    var j := Jolt(s, t);
    run := [Relock(t)] + [Unlock(t)];
    if s.mutex == None {
      var u := SomeoneMissing(s, t, b);
      WokenLeaves(j, t, u, b);
    } else {
      var m := s.mutex.value;
      assert ThreadIn(s, m, b);
      var a := if s.threads[m].place == Holding then Cross(m) else Unlock(m);
      StepKeepsRound(s, a, b);
      var u := SomeoneMissing(Apply(s, a), t, b);
      WokenLeaves(Apply(j, a), t, u, b);
      MoreSteps(j, a, run);
      run := [a] + run;
    }
  }

  /** Once the last arrival holds the mutex, nothing can happen before its broadcast. */
  lemma OnlyBroadcast(s: State, t: nat, b: nat, a: Action)
    requires InRound(s, b) && t < |s.threads| && s.threads[t].place == Parked && LastArrival(s)
    requires Enabled(Jolt(s, t), a)
    ensures a == Cross(s.mutex.value) && Enabled(s, a) && Apply(Jolt(s, t), a) == Apply(s, a)
  {
    assert ThreadIn(s, a.t, b) && ThreadIn(s, t, b);
  }

  lemma JoltTooLate(s: State, t: nat, b: nat, run: seq<Action>)
    requires InRound(s, b) && t < |s.threads| && s.threads[t].place == Parked && LastArrival(s)
    ensures !EndsEarly(Jolt(s, t), run)
  {
    if run == [] {
      NotEarly(s, b);
    } else if Executes(Jolt(s, t), run) {
      OnlyBroadcast(s, t, b, run[0]);
      BroadcastStartsRound(s, s.mutex.value, b);
      var c := RunInRound(Apply(s, run[0]), run[1..], b + 1);
      NotEarly(Final(Jolt(s, t), run), c);
    }
  }

  lemma NotEarly(s: State, b: nat)
    requires InRound(s, b)
    ensures !LeftEarly(s)
  {
    forall t, u | 0 <= t < |s.threads| && 0 <= u < |s.threads|
      ensures s.threads[t].rounds <= Arrived(s.threads[u])
    {
      assert ThreadIn(s, t, b) && ThreadIn(s, u, b);
    }
  }

  /** `pthread_cond_wait` is not in a loop. In every reachable state, whichever parked thread
      wakes up by itself: it can complete a round that another thread has not arrived at,
      unless the last arrival is already about to count itself. */
  lemma SpuriousWakeupExact(n: nat, run: seq<Action>, t: nat)
    requires Executes(Initial(n), run) && t < |Final(Initial(n), run).threads|
    requires Final(Initial(n), run).threads[t].place == Parked
    ensures var s := Final(Initial(n), run);
            (exists more :: EndsEarly(Jolt(s, t), more)) <==> !LastArrival(s)
  {
    NoneParked(Initial(n).threads);
    var b := RunInRound(Initial(n), run, 0);
    var s := Final(Initial(n), run);
    if LastArrival(s) {
      forall more
        ensures !EndsEarly(Jolt(s, t), more)
      {
        JoltTooLate(s, t, b, more);
      }
    } else {
      var more := JoltLeavesEarly(s, t, b);
    }
  }

  /** Such a state is reached whenever there are two threads or more. */
  lemma SpuriousWakeupLeavesEarly(n: nat) returns (more: seq<Action>)
    requires n >= 2
    ensures var parked := [Lock(0)] + [Cross(0)];
            && Executes(Initial(n), parked)
            && var s := Final(Initial(n), parked);
            && 0 < |s.threads| && s.threads[0].place == Parked
            && EndsEarly(Jolt(s, 0), more)
  {
    var s0 := Initial(n);
    OneStep(Apply(s0, Lock(0)), Cross(0));
    MoreSteps(s0, Lock(0), [Cross(0)]);
    NoneParked(s0.threads);
    var b := RunInRound(s0, [Lock(0)] + [Cross(0)], 0);
    more := JoltLeavesEarly(Final(s0, [Lock(0)] + [Cross(0)]), 0, b);
  }
}

/** Any number of threads that take their transaction's locks in increasing order and
    release them again (`acquire_locks`, `release_locks` in
    `janus_workload/TPCC/tpcc_db.cc`), step by step. */
module LockOrder {
  import opened LockQueue
  import opened Wrappers

  datatype Phase = Idle | Acquiring | Releasing

  /** `asked` is the whole request and `released` what has been unlocked of it; `requested`
      and `mine` are the two queues; `waiting` is the lock to be taken next. */
  datatype Thread = Thread(phase: Phase, asked: seq<nat>, requested: seq<nat>, mine: seq<nat>,
                           waiting: Option<nat>, released: seq<nat>)

  datatype State = State(threads: seq<Thread>, owner: map<nat, nat>)

  datatype Action =
    | Start(t: nat, request: seq<nat>) // a new transaction
    | Note(t: nat)                     // front, push, pop
    | Take(t: nat)                     // pthread_mutex_lock returns
    | Turn(t: nat)                     // all locks are held; on to release_locks
    | Release(t: nat)                  // front, pop, pthread_mutex_unlock
    | Finish(t: nat)

  predicate Increasing(s: seq<nat>) {
    forall i, j :: 0 <= i < j < |s| ==> s[i] < s[j]
  }

  function Push(q: seq<nat>, x: nat): (r: seq<nat>) {
    if |q| < CAPACITY then q + [x] else q
  }

  predicate Enabled(s: State, a: Action) {
    a.t < |s.threads| &&
    var me := s.threads[a.t];
    match a
    case Start(_, request) => me.phase == Idle && me.mine == [] && Increasing(request) && |request| <= CAPACITY
    case Note(_) => me.phase == Acquiring && me.waiting == None && me.requested != []
    case Take(_) => me.phase == Acquiring && me.waiting.Some? && me.waiting.value !in s.owner
    case Turn(_) => me.phase == Acquiring && me.waiting == None && me.requested == []
    case Release(_) => me.phase == Releasing && me.mine != []
    case Finish(_) => me.phase == Releasing && me.mine == []
  }

  function Apply(s: State, a: Action): (r: State)
    requires Enabled(s, a)
    ensures |r.threads| == |s.threads|
  {
    var me := s.threads[a.t];
    match a
    case Start(t, request) => s.(threads := s.threads[t := Thread(Acquiring, request, request, [], None, [])])
    case Note(t) =>
      var i := me.requested[0];
      s.(threads := s.threads[t := me.(mine := Push(me.mine, i), requested := me.requested[1..], waiting := Some(i))])
    case Take(t) =>
      State(s.threads[t := me.(waiting := None)], s.owner[me.waiting.value := t])
    case Turn(t) => s.(threads := s.threads[t := me.(phase := Releasing)])
    case Release(t) =>
      State(s.threads[t := me.(mine := me.mine[1..], released := me.released + [me.mine[0]])], s.owner - {me.mine[0]})
    case Finish(t) => s.(threads := s.threads[t := me.(phase := Idle)])
  }

  /** The locks of the queue that are really held: all but the one still waited for. */
  function Held(th: Thread): (r: seq<nat>)
    requires th.waiting.Some? ==> th.mine != []
  {
    if th.waiting.Some? then th.mine[..|th.mine| - 1] else th.mine
  }

  ghost predicate ThreadOk(th: Thread) {
    && Increasing(th.asked) && |th.asked| <= CAPACITY
    && (th.waiting.Some? ==> th.phase == Acquiring && th.mine != [] && th.mine[|th.mine| - 1] == th.waiting.value)
    && (th.phase == Acquiring ==> th.mine + th.requested == th.asked && th.released == [])
    && (th.phase == Releasing ==> th.released + th.mine == th.asked)
    && (th.phase == Idle ==> th.mine == [] && th.released == th.asked)
  }

  /** Every queue is in order, and a lock's owner is the thread that holds it. */
  ghost predicate Inv(s: State) {
    && (forall t :: 0 <= t < |s.threads| ==> ThreadOk(s.threads[t]))
    && (forall t :: 0 <= t < |s.threads| ==> OwnersOk(s, t))
    && (forall i :: i in s.owner ==> s.owner[i] < |s.threads| && i in Held(s.threads[s.owner[i]]))
  }

  lemma StepKeepsThread(s: State, a: Action)
    requires Inv(s) && Enabled(s, a)
    ensures ThreadOk(Apply(s, a).threads[a.t])
  {
    var me, next := s.threads[a.t], Apply(s, a).threads[a.t];
    assert ThreadOk(me);
    match a {
      case Start(_, _) => assert [] + next.requested == next.asked;
      case Note(_) =>
        assert |me.mine| + |me.requested| == |me.asked|;
        assert next.mine + next.requested == me.mine + me.requested;
      case Take(_) =>
      case Turn(_) => assert [] + me.mine == me.mine + [];
      case Release(_) => assert next.released + next.mine == me.released + me.mine;
      case Finish(_) => assert me.released + [] == me.released;
    }
  }

  /** In an increasing request no lock occurs twice. */
  lemma HeldOnce(th: Thread, k: nat)
    requires ThreadOk(th) && th.phase != Idle && k < |th.mine|
    ensures forall i :: 0 <= i < |th.mine| && i != k ==> th.mine[i] != th.mine[k]
  {
    var at := if th.phase == Acquiring then 0 else |th.released|;
    forall i | 0 <= i < |th.mine|
      ensures th.mine[i] == th.asked[at + i]
    {
    }
  }

  lemma HeldAfter(s: State, a: Action)
    requires Inv(s) && Enabled(s, a)
    ensures ThreadOk(Apply(s, a).threads[a.t])
    ensures var before, after := Held(s.threads[a.t]), Held(Apply(s, a).threads[a.t]);
            match a
            case Take(t) => forall i :: i in after <==> i in before || i == s.threads[t].waiting.value
            case Release(t) => forall i :: i in after <==> i in before && i != s.threads[t].mine[0]
            case _ => after == before
  {
    StepKeepsThread(s, a);
    var me := s.threads[a.t];
    assert ThreadOk(me);
    match a {
      case Take(t) => assert me.mine == me.mine[..|me.mine| - 1] + [me.waiting.value];
      case Release(t) =>
        HeldOnce(me, 0);
        assert me.mine == [me.mine[0]] + me.mine[1..];
      case Note(t) => assert |me.mine| + |me.requested| == |me.asked|;
      case _ =>
    }
  }

  ghost predicate OwnersOk(s: State, t: nat)
    requires t < |s.threads| && ThreadOk(s.threads[t])
  {
    forall i :: i in Held(s.threads[t]) ==> i in s.owner && s.owner[i] == t
  }

  lemma StepKeepsOwn(s: State, a: Action)
    requires Inv(s) && Enabled(s, a)
    ensures ThreadOk(Apply(s, a).threads[a.t]) && OwnersOk(Apply(s, a), a.t)
  {
    HeldAfter(s, a);
    assert ThreadOk(s.threads[a.t]) && OwnersOk(s, a.t);
  }

  lemma StepKeepsOthers(s: State, a: Action, t: nat)
    requires Inv(s) && Enabled(s, a) && t < |s.threads| && t != a.t
    ensures ThreadOk(Apply(s, a).threads[t]) && OwnersOk(Apply(s, a), t)
  {
    assert ThreadOk(s.threads[t]) && OwnersOk(s, t);
    if a.Release? {
      assert ThreadOk(s.threads[a.t]) && OwnersOk(s, a.t);
      assert s.threads[a.t].mine[0] in Held(s.threads[a.t]);
    }
  }

  lemma StepKeepsHolders(s: State, a: Action, i: nat)
    requires Inv(s) && Enabled(s, a) && i in Apply(s, a).owner
    requires forall t :: 0 <= t < |s.threads| ==> ThreadOk(Apply(s, a).threads[t])
    ensures Apply(s, a).owner[i] < |s.threads| && i in Held(Apply(s, a).threads[Apply(s, a).owner[i]])
  {
    HeldAfter(s, a);
    if i in s.owner {
      assert i in Held(s.threads[s.owner[i]]);
    }
  }

  lemma StepKeepsInv(s: State, a: Action)
    requires Inv(s) && Enabled(s, a)
    ensures Inv(Apply(s, a))
  {
    var r := Apply(s, a);
    forall t | 0 <= t < |r.threads|
      ensures ThreadOk(r.threads[t]) && OwnersOk(r, t)
    {
      if t == a.t { StepKeepsOwn(s, a); } else { StepKeepsOthers(s, a, t); }
    }
    forall i | i in r.owner
      ensures r.owner[i] < |r.threads| && i in Held(r.threads[r.owner[i]])
    {
      StepKeepsHolders(s, a, i);
    }
  }

  // ------------------------------------------------------------------------- runs

  ghost predicate Executes(s: State, run: seq<Action>)
    decreases |run|
  {
    run == [] || (Enabled(s, run[0]) && Executes(Apply(s, run[0]), run[1..]))
  }

  ghost function Final(s: State, run: seq<Action>): (r: State)
    requires Executes(s, run)
    decreases |run|
  {
    if run == [] then s else Final(Apply(s, run[0]), run[1..])
  }

  /** Idle threads, free locks. */
  function Initial(n: nat): (r: State) {
    State(seq(n, _ => Thread(Idle, [], [], [], None, [])), map[])
  }

  lemma {:induction false} RunKeepsInv(s: State, run: seq<Action>)
    requires Inv(s) && Executes(s, run)
    ensures Inv(Final(s, run))
    decreases |run|
  {
    if run != [] {
      StepKeepsInv(s, run[0]);
      RunKeepsInv(Apply(s, run[0]), run[1..]);
    }
  }

  // --------------------------------------------------------------------- progress

  ghost predicate Waits(s: State, t: nat)
    requires t < |s.threads|
  {
    s.threads[t].waiting.Some? && s.threads[t].waiting.value in s.owner
  }

  /** What a thread in the middle of a transaction does next, unless it waits. */
  function Next(s: State, t: nat): (a: Action)
    requires t < |s.threads|
  {
    var me := s.threads[t];
    if me.phase == Acquiring then
      (if me.waiting.Some? then Take(t) else if me.requested != [] then Note(t) else Turn(t))
    else if me.mine != [] then Release(t) else Finish(t)
  }

  /** A waiting thread's lock is held by a thread that only waits for a higher one. */
  lemma HolderWaitsHigher(s: State, t: nat)
    requires Inv(s) && t < |s.threads| && Waits(s, t)
    ensures var holder := s.owner[s.threads[t].waiting.value];
            && holder < |s.threads| && s.threads[holder].phase != Idle
            && (s.threads[holder].waiting.Some? ==> s.threads[t].waiting.value < s.threads[holder].waiting.value)
  {
    var i := s.threads[t].waiting.value;
    var th := s.threads[s.owner[i]];
    assert i in Held(th) && ThreadOk(th);
    if th.waiting.Some? {
      var k :| 0 <= k < |Held(th)| && Held(th)[k] == i;
      assert th.mine[k] == th.asked[k] && th.mine[|th.mine| - 1] == th.asked[|th.mine| - 1];
    }
  }

  /** Follow the waiting from thread to thread: it ends at one that can move. */
  lemma Moveable(s: State, t: nat, bound: nat) returns (m: nat)
    requires Inv(s) && t < |s.threads| && s.threads[t].phase != Idle
    requires forall u :: 0 <= u < |s.threads| && s.threads[u].waiting.Some? ==> s.threads[u].waiting.value < bound
    ensures m < |s.threads| && s.threads[m].phase != Idle && Enabled(s, Next(s, m))
    decreases if s.threads[t].waiting.Some? then bound - s.threads[t].waiting.value else 0
  {
    assert ThreadOk(s.threads[t]);
    if Waits(s, t) {
      HolderWaitsHigher(s, t);
      m := Moveable(s, s.owner[s.threads[t].waiting.value], bound);
    } else {
      m := t;
    }
  }

  lemma {:induction false} Bound(threads: seq<Thread>) returns (bound: nat)
    ensures forall u :: 0 <= u < |threads| && threads[u].waiting.Some? ==> threads[u].waiting.value < bound
  {
    if threads == [] {
      bound := 0;
    } else {
      var last := threads[|threads| - 1];
      bound := Bound(threads[..|threads| - 1]);
      if last.waiting.Some? && last.waiting.value >= bound {
        bound := last.waiting.value + 1;
      }
    }
  }

  /** In every reachable state with a transaction under way, some transaction can go on. */
  lemma NoDeadlock(n: nat, run: seq<Action>, t: nat) returns (m: nat)
    requires Executes(Initial(n), run)
    requires var s := Final(Initial(n), run); t < |s.threads| && s.threads[t].phase != Idle
    ensures var s := Final(Initial(n), run);
            m < |s.threads| && s.threads[m].phase != Idle && Enabled(s, Next(s, m))
  {
    var s := Final(Initial(n), run);
    RunKeepsInv(Initial(n), run);
    var bound := Bound(s.threads);
    m := Moveable(s, t, bound);
  }

  /** No push is dropped, and a finished transaction has unlocked exactly the locks it
      asked for, in that order, while nobody but the thread held them. */
  lemma LocksBalance(n: nat, run: seq<Action>, t: nat)
    requires Executes(Initial(n), run) && t < |Final(Initial(n), run).threads|
    ensures var me := Final(Initial(n), run).threads[t];
            && (me.phase == Acquiring ==> me.mine + me.requested == me.asked)
            && (me.phase == Idle ==> me.released == me.asked && me.mine == [])
            && (me.waiting.Some? ==> me.mine != [])
            && forall i :: i in Held(me) ==> i in Final(Initial(n), run).owner && Final(Initial(n), run).owner[i] == t
  {
    RunKeepsInv(Initial(n), run);
    assert ThreadOk(Final(Initial(n), run).threads[t]) && OwnersOk(Final(Initial(n), run), t);
  }

  // ------------------------------------------------------------------- completion

  /** Steps a thread still has to make until its transaction is over. */
  function Work(th: Thread): (r: nat) {
    4 * |th.requested| + (if th.waiting.Some? then 2 else 0) + |th.mine| +
    match th.phase case Idle => 0 case Acquiring => 2 case Releasing => 1
  }

  function TotalWork(threads: seq<Thread>): (r: nat) {
    if threads == [] then 0 else TotalWork(threads[..|threads| - 1]) + Work(threads[|threads| - 1])
  }

  lemma {:induction false} TotalAfter(threads: seq<Thread>, t: nat, th: Thread)
    requires t < |threads|
    ensures TotalWork(threads[t := th]) == TotalWork(threads) - Work(threads[t]) + Work(th)
    decreases |threads|
  {
    var n := |threads| - 1;
    if t == n {
      assert threads[t := th][..n] == threads[..n];
    } else {
      assert threads[t := th][..n] == threads[..n][t := th];
      TotalAfter(threads[..n], t, th);
    }
  }

  lemma {:induction false} SomeoneBusy(threads: seq<Thread>) returns (t: nat)
    requires !forall u :: 0 <= u < |threads| ==> threads[u].phase == Idle
    ensures t < |threads| && threads[t].phase != Idle
  {
    t :| t < |threads| && threads[t].phase != Idle;
  }

  ghost predicate SameRequests(s: State, r: State) {
    |r.threads| == |s.threads| && forall t :: 0 <= t < |s.threads| ==> r.threads[t].asked == s.threads[t].asked
  }

  /** With a transaction under way, one of them goes on. */
  lemma OneMoves(s: State) returns (a: Action, r: State)
    requires Inv(s) && !forall u :: 0 <= u < |s.threads| ==> s.threads[u].phase == Idle
    ensures Enabled(s, a) && r == Apply(s, a) && Inv(r) && TotalWork(r.threads) < TotalWork(s.threads)
    ensures SameRequests(s, r)
  {
    var t := SomeoneBusy(s.threads);
    var bound := Bound(s.threads);
    var m := Moveable(s, t, bound);
    a := Next(s, m);
    r := Apply(s, a);
    StepKeepsInv(s, a);
    TotalAfter(s.threads, m, r.threads[m]);
  }

  /** The run ends all transactions and starts none. */
  ghost predicate Completes(s: State, rest: seq<Action>) {
    && Executes(s, rest) && SameRequests(s, Final(s, rest)) && Inv(Final(s, rest))
    && forall t :: 0 <= t < |s.threads| ==> Final(s, rest).threads[t].phase == Idle
  }

  lemma FirstMove(s: State, a: Action, r: State, rest: seq<Action>)
    requires Enabled(s, a) && r == Apply(s, a) && Executes(r, rest)
    ensures Executes(s, [a] + rest) && Final(s, [a] + rest) == Final(r, rest)
  {
    assert ([a] + rest)[1..] == rest;
  }

  /** From every reachable state all transactions under way can be completed. */
  lemma {:induction false} AllCanFinish(s: State) returns (rest: seq<Action>)
    requires Inv(s)
    ensures Completes(s, rest)
    decreases TotalWork(s.threads)
  {
    rest := [];
    if !forall u :: 0 <= u < |s.threads| ==> s.threads[u].phase == Idle {
      var a, r := OneMoves(s);
      var more := AllCanFinish(r);
      FirstMove(s, a, r, more);
      rest := [a] + more;
    }
  }

  /** An idle thread can have any request served whose ids increase and fit the queue,
      whatever the others hold at that point. */
  lemma RequestServed(s: State, t: nat, request: seq<nat>) returns (run: seq<Action>)
    requires Inv(s) && t < |s.threads| && s.threads[t].phase == Idle
    requires |request| <= 19 && forall i :: 0 <= i < |request| - 1 ==> request[i] < request[i + 1]
    ensures run != [] && run[0] == Start(t, request) && Executes(s, run)
    ensures |Final(s, run).threads| == |s.threads|
    ensures Final(s, run).threads[t].phase == Idle && Final(s, run).threads[t].released == request
  {
    StepwiseIncreasing(request);
    assert ThreadOk(s.threads[t]);
    var a := Start(t, request);
    StepKeepsInv(s, a);
    var rest := AllCanFinish(Apply(s, a));
    FirstMove(s, a, Apply(s, a), rest);
    run := [a] + rest;
    assert ThreadOk(Final(s, run).threads[t]);
  }

  lemma {:induction false} StepwiseIncreasing(s: seq<nat>)
    requires forall i :: 0 <= i < |s| - 1 ==> s[i] < s[i + 1]
    ensures Increasing(s)
    decreases |s|
  {
    if s != [] {
      var n := |s| - 1;
      StepwiseIncreasing(s[..n]);
      forall i | 0 <= i < n
        ensures s[i] < s[n]
      {
        assert i < n - 1 ==> s[..n][i] < s[..n][n - 1];
      }
      assert forall i, j :: 0 <= i < j < n ==> s[..n][i] < s[..n][j];
    }
  }
}

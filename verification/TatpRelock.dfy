/** What goes wrong without the discipline: `update_locations` releases the mutex before
    it discards its log, so another thread may finish an update that the stale log then
    undoes. */
module TatpRelock {
  import opened TatpLog

  /** The table starts a line, as the start of the pool does; a row is two lines. */
  predicate Aligned(c: Layout) {
    c.table % PER_LINE == 0
  }

  /** Thread `t` has released its mutex and still has a durable log holding `saved`. */
  ghost predicate Stale(c: Layout, st: State, t: nat, saved: Row)
    requires Shape(c, st) && t < c.threads
  {
    st.dur[c.ValidAddr(t)] == 1 && RowAt(st.vol, c.LogAddr(t)) == RowAt(st.dur, c.LogAddr(t)) == saved
  }

  /** Writing back what `u` flushes leaves the valid word of `t` durably set. */
  ghost predicate Spared(c: Layout, st: State, t: nat, u: nat, s: nat)
    requires Shape(c, st) && t < c.threads && u < c.threads && s < c.subs
  {
    st.vol[c.ValidAddr(t)] == 1 || (!FlushesFirst(c, t, u) && ValidLine(c, t) !in LinesOf(c.RowAddr(s), ROW))
  }

  /** The lines of an aligned row hold nothing else. */
  lemma RowLinesApart(c: Layout, t: nat, s: nat)
    requires c.Ok() && Aligned(c) && t < c.threads && s < c.subs
    ensures ValidLine(c, t) !in LinesOf(c.RowAddr(s), ROW)
  {
    forall i | c.RowAddr(s) <= i < c.RowAddr(s) + ROW
      ensures i / PER_LINE != ValidLine(c, t)
    {
      LinesApart(c.table / PER_LINE + 2 * s, c.ValidAddr(t), i);
    }
  }

  lemma LinesApart(k: nat, v: nat, i: nat)
    requires 8 * k <= i < 8 * k + 16 && (v < 8 * k || 8 * k + 16 <= v)
    ensures i / 8 != v / 8
  {}

  /** From `st0` to `st` only thread `u` and the cache have acted. */
  ghost predicate OnlyBy(c: Layout, st0: State, st: State, u: nat)
    requires Shape(c, st0) && Shape(c, st) && u < c.threads
  {
    forall x :: 0 <= x < c.threads && x != u ==>
      && st.threads[x] == st0.threads[x] && st.vol[c.ValidAddr(x)] == st0.vol[c.ValidAddr(x)]
      && (st.dur[c.ValidAddr(x)] == st0.dur[c.ValidAddr(x)] || st.dur[c.ValidAddr(x)] == st0.vol[c.ValidAddr(x)])
  }

  predicate AfterUpdate(pc: Pc) {
    && pc != Copying && pc != LogFlushed && pc != LogDurable && pc != Marked && pc != MarkFlushed && pc != Armed
  }

  /** Thread `u` is carrying out its update of subscriber `s` towards `post`. */
  ghost predicate Solo(c: Layout, st0: State, st: State, u: nat, t: nat, s: nat, saved: Row, post: Row) {
    && Shape(c, st0) && Shape(c, st) && u < c.threads && t < c.threads && u != t && s < c.subs
    && ThreadInv(c, st, u) && PendingOk(c, st, u) && Stale(c, st, t, saved)
    && Spared(c, st, t, u, s) && OnlyBy(c, st0, st, u)
    && (st.threads[u].pc != Idle ==> st.threads[u].s == s && Post(st.threads[u]) == post)
    && (AfterUpdate(st.threads[u].pc) ==> RowAt(st.vol, c.RowAddr(s)) == post)
  }

  function Rank(th: Thread): (r: nat)
  {
    match th.pc
    case Copying => if th.copied <= ROW then 20 + ROW - th.copied else 20
    case LogFlushed => 12
    case LogDurable => 11
    case Marked => 10
    case MarkFlushed => 9
    case Armed => 8
    case Updated => 7
    case UpdateFlushed => 6
    case UpdateDurable => 5
    case Unlocked => 4
    case Unmarked => 3
    case UnmarkFlushed => 2
    case Idle => 0
  }

  /** One store into `u`'s own cells does not touch the log of `t`. */
  lemma StaleFrame(c: Layout, st: State, st': State, u: nat, t: nat, saved: Row, a: nat, x: int)
    requires Shape(c, st) && Shape(c, st') && u < c.threads && t < c.threads && u != t && Stale(c, st, t, saved)
    requires st'.dur == st.dur && a < c.total &&
             (st'.vol == st.vol || (st'.vol == st.vol[a := x] && OwnCell(c, st, u, a)))
    requires forall x :: 0 <= x < c.threads && x != u ==> st'.threads[x] == st.threads[x]
    ensures Stale(c, st', t, saved) && OnlyBy(c, st, st', u) && st'.vol[c.ValidAddr(t)] == st.vol[c.ValidAddr(t)]
  {
    if st'.vol != st.vol {
      StoreOutside(st.vol, a, x, c.LogAddr(t));
    }
  }

  lemma SoloGoOthers(c: Layout, st: State, u: nat, t: nat, saved: Row)
    requires Shape(c, st) && Enabled(c, st, Go(u)) && t < c.threads && u != t && Stale(c, st, t, saved)
    ensures var st' := Apply(c, st, Go(u));
            && Shape(c, st') && Stale(c, st', t, saved) && OnlyBy(c, st, st', u)
            && st'.vol[c.ValidAddr(t)] == st.vol[c.ValidAddr(t)]
  {
    GoFrame(c, st, u);
    var a, x := c.ValidAddr(t), 0;
    if Stores(st.threads[u]) {
      a, x := GoStores(c, st, u);
    }
    StaleFrame(c, st, Apply(c, st, Go(u)), u, t, saved, a, x);
  }

  lemma OwnStep(c: Layout, st: State, u: nat)
    requires Shape(c, st) && Enabled(c, st, Go(u)) && ThreadInv(c, st, u)
    ensures var st' := Apply(c, st, Go(u)); Shape(c, st') && ThreadInv(c, st', u)
    ensures Rank(Apply(c, st, Go(u)).threads[u]) < Rank(st.threads[u])
  {
    var th := st.threads[u];
    if th.pc == Copying && th.copied < ROW {
      GoCopyOwn(c, st, u);
    } else if th.pc == LogDurable || th.pc == Unlocked {
      GoMarkOwn(c, st, u);
    } else if th.pc == Armed {
      GoUpdateOwn(c, st, u);
    } else {
      GoOtherOwn(c, st, u);
    }
  }

  lemma SoloGo(c: Layout, st0: State, st: State, u: nat, t: nat, s: nat, saved: Row, post: Row)
    requires Solo(c, st0, st, u, t, s, saved, post) && Enabled(c, st, Go(u))
    ensures Solo(c, st0, Apply(c, st, Go(u)), u, t, s, saved, post)
    ensures Rank(Apply(c, st, Go(u)).threads[u]) < Rank(st.threads[u])
  {
    OwnStep(c, st, u);
    SoloGoOthers(c, st, u, t, saved);
    GoPending(c, st, u, u);
    GoRows(c, st, u, s);
  }

  lemma SoloEvict(c: Layout, st0: State, st: State, u: nat, t: nat, s: nat, saved: Row, post: Row, line: nat)
    requires Solo(c, st0, st, u, t, s, saved, post) && line in st.pending[u]
    ensures Solo(c, st0, Apply(c, st, Evict(line)), u, t, s, saved, post)
  {
    assert line in Outstanding(c, st.threads[u], u);
    EvictThread(c, st, line, u);
    EvictRow(st, line, c.LogAddr(t));
  }

  lemma {:induction false} Append(c: Layout, st: State, a: seq<Action>, b: seq<Action>)
    requires Executes(c, st, a) && Executes(c, Final(c, st, a), b)
    ensures Executes(c, st, a + b) && Final(c, st, a + b) == Final(c, Final(c, st, a), b)
    decreases |a|
  {
    if a == [] {
      assert a + b == b;
    } else {
      assert (a + b)[1..] == a[1..] + b;
      Append(c, Apply(c, st, a[0]), a[1..], b);
    }
  }

  ghost predicate NoBegin(acts: seq<Action>) {
    forall k :: 0 <= k < |acts| ==> !acts[k].Begin?
  }

  lemma SoloStep(c: Layout, st0: State, st: State, u: nat, t: nat, s: nat, saved: Row, post: Row) returns (a: Action)
    requires Solo(c, st0, st, u, t, s, saved, post) && st.threads[u].pc != Idle
    ensures !a.Begin? && Enabled(c, st, a) && Solo(c, st0, Apply(c, st, a), u, t, s, saved, post)
    ensures var st' := Apply(c, st, a);
            || Rank(st'.threads[u]) < Rank(st.threads[u])
            || (st'.threads[u] == st.threads[u] && |st'.pending[u]| < |st.pending[u]|)
  {
    a := Go(u);
    if AtFence(st.threads[u].pc) && st.pending[u] != {} {
      var line :| line in st.pending[u];
      a := Evict(line);
      SoloEvict(c, st0, st, u, t, s, saved, post, line);
    } else {
      SoloGo(c, st0, st, u, t, s, saved, post);
    }
  }

  /** Left alone, `u` finishes: the cache writes back what its fences wait for. */
  lemma {:induction false} SoloFinishes(c: Layout, st0: State, st: State, u: nat, t: nat, s: nat, saved: Row, post: Row)
    returns (acts: seq<Action>)
    requires Solo(c, st0, st, u, t, s, saved, post)
    ensures Executes(c, st, acts) && NoBegin(acts)
    ensures Solo(c, st0, Final(c, st, acts), u, t, s, saved, post)
    ensures Final(c, st, acts).threads[u].pc == Idle
    decreases Rank(st.threads[u]), |st.pending[u]|
  {
    if st.threads[u].pc == Idle {
      acts := [];
    } else {
      var a := SoloStep(c, st0, st, u, t, s, saved, post);
      var rest := SoloFinishes(c, st0, Apply(c, st, a), u, t, s, saved, post);
      acts := [a] + rest;
      FirstThen(c, st, a, rest);
    }
  }

  lemma FirstThen(c: Layout, st: State, a: Action, rest: seq<Action>)
    requires Shape(c, st) && Enabled(c, st, a) && Executes(c, Apply(c, st, a), rest)
    ensures Executes(c, st, [a] + rest) && Final(c, st, [a] + rest) == Final(c, Apply(c, st, a), rest)
  {
    assert ([a] + rest)[1..] == rest;
  }

  /** Some new location differs from both rows of the stale update. */
  lemma FreshVlr(pre: Row, post: Row) returns (vlr: nat)
    requires |pre| == |post| == ROW
    ensures SetVlr(post, vlr) != pre && SetVlr(post, vlr) != post
  {
    var w := (v: nat) => post[VLR_WORD] % HALF + HALF * (v % HALF);
    assert w(0) != w(1) && w(1) != w(2) && w(0) != w(2);
    vlr := if w(0) != pre[VLR_WORD] && w(0) != post[VLR_WORD] then 0
           else if w(1) != pre[VLR_WORD] && w(1) != post[VLR_WORD] then 1 else 2;
  }

  lemma LastLogWins(c: Layout, st: State, order: seq<nat>, t: nat, s: nat, saved: Row)
    requires Shape(c, st) && t < c.threads && Stale(c, st, t, saved) && SId(saved) == s < c.subs
    requires forall k :: 0 <= k < |order| ==> order[k] < c.threads
    ensures Recover(c, st.dur, order + [t], Table(c, st.dur))[s] == saved
  {
    assert (order + [t])[..|order|] == order;
  }

  /** Thread `t` has a live log about `s`, whose mutex is free. */
  ghost predicate Leftover(c: Layout, st: State, t: nat, s: nat) {
    Inv(c, st) && t < c.threads && Live(c, st, t) && st.threads[t].s == s && s < c.subs && st.owner[s] == FREE
  }

  /** Its update is finished and durable, its log too. */
  lemma LeftoverIs(c: Layout, st: State, t: nat, s: nat)
    requires Leftover(c, st, t, s)
    ensures st.threads[t].pc == Unlocked || Discarding(st.threads[t])
    ensures Stale(c, st, t, st.threads[t].pre) && SId(st.threads[t].pre) == s && RowIs(c, st, s, Post(st.threads[t]))
    ensures st.threads[t].pc == Unlocked ==> st.vol[c.ValidAddr(t)] == 1
  {
    assert ThreadInv(c, st, t);
  }

  lemma SoloStarts(c: Layout, st: State, t: nat, u: nat, s: nat, vlr: nat)
    requires Leftover(c, st, t, s) && u < c.threads && t != u && Enabled(c, st, Begin(u, s, vlr)) &&
             Spared(c, st, t, u, s)
    ensures Solo(c, st, Apply(c, st, Begin(u, s, vlr)), u, t, s, st.threads[t].pre,
                 SetVlr(RowAt(st.vol, c.RowAddr(s)), vlr))
  {
    LeftoverIs(c, st, t, s);
    assert ThreadInv(c, st, u) && PendingOk(c, st, u);
  }

  /** Apart from `t` no thread has a live log about the subscriber. */
  lemma OnlyStale(c: Layout, st0: State, st: State, t: nat, u: nat, s: nat, post: Row, x: nat)
    requires Leftover(c, st0, t, s) && x < c.threads
    requires Solo(c, st0, st, u, t, s, st0.threads[t].pre, post) && st.threads[u].pc == Idle
    requires Live(c, st, x) && st.threads[x].s == s
    ensures x == t
  {
    LeftoverIs(c, st0, t, s);
    assert ThreadInv(c, st0, x);
    assert Live(c, st0, x);
    assert PairOk(c, st0, x, t);
  }

  lemma NotAcceptable(c: Layout, st0: State, st: State, t: nat, u: nat, s: nat, post: Row)
    requires Leftover(c, st0, t, s)
    requires Solo(c, st0, st, u, t, s, st0.threads[t].pre, post) && st.threads[u].pc == Idle
    requires post != st0.threads[t].pre && post != Post(st0.threads[t])
    ensures !Acceptable(c, st, s, st0.threads[t].pre)
  {
    forall x | 0 <= x < c.threads && Live(c, st, x) && st.threads[x].s == s
      ensures x == t
    {
      OnlyStale(c, st0, st, t, u, s, post, x);
    }
  }

  lemma LastInOrder(c: Layout, t: nat) returns (order: seq<nat>)
    requires t < c.threads
    ensures Complete(c, order + [t]) && forall k :: 0 <= k < |order| ==> order[k] < c.threads
  {
    order := seq(c.threads, k requires 0 <= k < c.threads => k);
    forall x | 0 <= x < c.threads ensures x in order + [t] { assert (order + [t])[x] == x; }
  }

  lemma StaleLogUndoes(c: Layout, st0: State, st: State, t: nat, u: nat, s: nat, post: Row)
    requires Leftover(c, st0, t, s)
    requires Solo(c, st0, st, u, t, s, st0.threads[t].pre, post) && st.threads[u].pc == Idle
    requires post != st0.threads[t].pre && post != Post(st0.threads[t])
    ensures !Recoverable(c, st)
  {
    var saved := st0.threads[t].pre;
    LeftoverIs(c, st0, t, s);
    var order := LastInOrder(c, t);
    LastLogWins(c, st, order, t, s, saved);
    NotAcceptable(c, st0, st, t, u, s, post);
  }

  lemma LeftoverSpared(c: Layout, st: State, t: nat, u: nat, s: nat)
    requires Leftover(c, st, t, s) && u < c.threads
    requires st.threads[t].pc == Unlocked || (Aligned(c) && !FlushesFirst(c, t, u))
    ensures Spared(c, st, t, u, s)
  {
    LeftoverIs(c, st, t, s);
    if st.threads[t].pc != Unlocked {
      RowLinesApart(c, t, s);
    }
  }

  /** Whenever a mutex is released and the log not yet durably discarded, taking it again has
      a continuation in which the second thread finishes and recovery then loses its update:
      always if the discard is not even stored, and otherwise if the second thread does not
      happen to flush it. */
  lemma RelockLosesUpdate(c: Layout, st: State, t: nat, u: nat, s: nat) returns (vlr: nat, acts: seq<Action>)
    requires Leftover(c, st, t, s) && u < c.threads && st.threads[u].pc == Idle
    requires st.threads[t].pc == Unlocked || (Aligned(c) && !FlushesFirst(c, t, u))
    ensures Executes(c, st, [Begin(u, s, vlr)] + acts) && NoBegin(acts)
    ensures Final(c, st, [Begin(u, s, vlr)] + acts).threads[u].pc == Idle
    ensures !Recoverable(c, Final(c, st, [Begin(u, s, vlr)] + acts))
  {
    LeftoverIs(c, st, t, s);
    LeftoverSpared(c, st, t, u, s);
    var saved, row := st.threads[t].pre, RowAt(st.vol, c.RowAddr(s));
    vlr := FreshVlr(saved, row);
    SoloStarts(c, st, t, u, s, vlr);
    var st1 := Apply(c, st, Begin(u, s, vlr));
    acts := SoloFinishes(c, st, st1, u, t, s, saved, SetVlr(row, vlr));
    FirstThen(c, st, Begin(u, s, vlr), acts);
    StaleLogUndoes(c, st, Final(c, st1, acts), t, u, s, SetVlr(row, vlr));
  }

  // ------------------------------------------------------------- every lock, decided

  lemma {:induction false} NoBeginDisciplined(c: Layout, st: State, acts: seq<Action>)
    requires Executes(c, st, acts) && NoBegin(acts)
    ensures Disciplined(c, st, acts)
    decreases |acts|
  {
    if acts != [] {
      assert !acts[0].Begin?;
      NoBeginDisciplined(c, Apply(c, st, acts[0]), acts[1..]);
    }
  }

  /** Thread `u` takes the mutex of `s`, and from then on everybody is careful. */
  ghost predicate CarefulAfter(c: Layout, st: State, u: nat, s: nat, vlr: nat, acts: seq<Action>)
    requires Shape(c, st) && Enabled(c, st, Begin(u, s, vlr))
  {
    var st1 := Apply(c, st, Begin(u, s, vlr));
    Executes(c, st1, acts) && Disciplined(c, st1, acts)
  }

  /** Recovery works after any such run. */
  ghost predicate SafeToBegin(c: Layout, st: State, u: nat, s: nat) {
    && Shape(c, st) && u < c.threads && s < c.subs && st.threads[u].pc == Idle && st.owner[s] == FREE
    && forall vlr, acts :: CarefulAfter(c, st, u, s, vlr, acts) ==>
       Recoverable(c, Final(c, Apply(c, st, Begin(u, s, vlr)), acts))
  }

  lemma CarefulIsSafe(c: Layout, st: State, u: nat, s: nat)
    requires Inv(c, st) && u < c.threads && s < c.subs && st.threads[u].pc == Idle && st.owner[s] == FREE &&
             Careful(c, st, u, s)
    ensures SafeToBegin(c, st, u, s)
  {
    forall vlr, acts | CarefulAfter(c, st, u, s, vlr, acts)
      ensures Recoverable(c, Final(c, Apply(c, st, Begin(u, s, vlr)), acts))
    {
      var st1 := Apply(c, st, Begin(u, s, vlr));
      BeginKeepsInv(c, st, u, s, vlr);
      RunKeepsInv(c, st1, acts);
      InvRecovers(c, Final(c, st1, acts));
    }
  }

  lemma CarelessIsNot(c: Layout, st: State, u: nat, s: nat)
    requires Inv(c, st) && u < c.threads && s < c.subs && st.threads[u].pc == Idle && st.owner[s] == FREE &&
             !Careful(c, st, u, s)
    requires Aligned(c)
    ensures !SafeToBegin(c, st, u, s)
  {
    var t :| 0 <= t < c.threads && Live(c, st, t) && st.threads[t].s == s &&
        !(Discarding(st.threads[t]) && FlushesFirst(c, t, u));
    LeftoverIs(c, st, t, s);
    var vlr, acts := RelockLosesUpdate(c, st, t, u, s);
    var st1 := Apply(c, st, Begin(u, s, vlr));
    assert ([Begin(u, s, vlr)] + acts)[1..] == acts;
    NoBeginDisciplined(c, st1, acts);
    assert CarefulAfter(c, st, u, s, vlr, acts);
  }

  /** Every lock that can be taken is decided: whatever happens next, as long as the later
      ones are taken with care, recovery works if and only if this one is. */
  lemma BeginDecided(c: Layout, st: State, u: nat, s: nat)
    requires Inv(c, st) && Aligned(c) && u < c.threads && s < c.subs && st.threads[u].pc == Idle && st.owner[s] == FREE
    ensures SafeToBegin(c, st, u, s) <==> Careful(c, st, u, s)
  {
    if Careful(c, st, u, s) {
      CarefulIsSafe(c, st, u, s);
    } else {
      CarelessIsNot(c, st, u, s);
    }
  }

  /** Where an action leaves thread `t`: still before the unlock, or right after it. */
  ghost predicate Towards(c: Layout, st: State, st': State, t: nat)
    requires Shape(c, st) && Shape(c, st') && t < c.threads && st.threads[t].s < c.subs
  {
    && st'.threads[t].s == st.threads[t].s
    && (HoldsMutex(st'.threads[t].pc) || (st'.threads[t].pc == Unlocked && st'.owner[st.threads[t].s] == FREE))
    && forall x :: 0 <= x < c.threads && x != t ==> st'.threads[x] == st.threads[x]
  }

  lemma GoTowards(c: Layout, st: State, t: nat)
    requires Shape(c, st) && t < c.threads && HoldsMutex(st.threads[t].pc) && Enabled(c, st, Go(t))
    ensures Shape(c, Apply(c, st, Go(t))) && Towards(c, st, Apply(c, st, Go(t)), t)
  {
    GoFrame(c, st, t);
  }

  lemma EvictTowards(c: Layout, st: State, t: nat, line: nat)
    requires Shape(c, st) && t < c.threads && HoldsMutex(st.threads[t].pc) && line in st.pending[t]
    ensures var st' := Apply(c, st, Evict(line));
            && Shape(c, st') && Towards(c, st, st', t)
            && st'.threads[t] == st.threads[t] && |st'.pending[t]| < |st.pending[t]|
  {}

  lemma StepTowardsUnlock(c: Layout, st: State, t: nat) returns (a: Action)
    requires Inv(c, st) && t < c.threads && HoldsMutex(st.threads[t].pc)
    ensures Enabled(c, st, a)
    ensures var st' := Apply(c, st, a);
            && Inv(c, st') && Towards(c, st, st', t)
            && (Rank(st'.threads[t]) < Rank(st.threads[t])
                || (st'.threads[t] == st.threads[t] && |st'.pending[t]| < |st.pending[t]|))
  {
    assert ThreadInv(c, st, t);
    if AtFence(st.threads[t].pc) && st.pending[t] != {} {
      var line :| line in st.pending[t];
      a := Evict(line);
      EvictTowards(c, st, t, line);
      EvictKeepsInv(c, st, line);
    } else {
      a := Go(t);
      OwnStep(c, st, t);
      GoTowards(c, st, t);
      GoKeepsInv(c, st, t);
    }
  }

  /** A thread left alone reaches the point between unlocking and discarding. */
  lemma {:induction false} ReachesUnlocked(c: Layout, st: State, t: nat) returns (acts: seq<Action>)
    requires Inv(c, st) && t < c.threads
    requires HoldsMutex(st.threads[t].pc)
             || (st.threads[t].pc == Unlocked && st.owner[st.threads[t].s] == FREE)
    ensures Executes(c, st, acts) && Inv(c, Final(c, st, acts))
    ensures var end := Final(c, st, acts);
            && end.threads[t].pc == Unlocked && end.threads[t].s == st.threads[t].s
            && end.owner[end.threads[t].s] == FREE
            && forall x :: 0 <= x < c.threads && x != t ==> end.threads[x] == st.threads[x]
    decreases Rank(st.threads[t]), |st.pending[t]|
  {
    if st.threads[t].pc == Unlocked {
      acts := [];
    } else {
      var a := StepTowardsUnlock(c, st, t);
      var rest := ReachesUnlocked(c, Apply(c, st, a), t);
      acts := [a] + rest;
      assert acts[1..] == rest;
    }
  }

  lemma InitialInv(c: Layout, st: State)
    requires Initial(c, st)
    ensures Inv(c, st) && forall u, s :: 0 <= u < c.threads && 0 <= s < c.subs ==> Careful(c, st, u, s)
  {}

  /** So the code as it stands loses finished updates: with two threads and a subscriber,
      from every initial state. */
  lemma CodeLosesUpdates(c: Layout, st: State) returns (acts: seq<Action>)
    requires Initial(c, st) && c.threads >= 2 && c.subs >= 1
    ensures Executes(c, st, acts) && !Recoverable(c, Final(c, st, acts))
  {
    InitialInv(c, st);
    BeginKeepsInv(c, st, 0, 0, 0);
    var first := Begin(0, 0, 0);
    var st1 := Apply(c, st, first);
    var a := ReachesUnlocked(c, st1, 0);
    assert ([first] + a)[1..] == a;
    var st2 := Final(c, st1, a);
    var vlr, b := RelockLosesUpdate(c, st2, 0, 1, 0);
    Append(c, st, [first] + a, [Begin(1, 0, vlr)] + b);
    acts := [first] + a + ([Begin(1, 0, vlr)] + b);
  }
}

/** Transactions driven by locks (`janus_workload/TATP/context.cpp`): the lock wrappers of
    one thread open a transaction with its first mutex or write lock and commit it before
    the last lock is released; `tx_lock` and `tx_unlock` do so by hand. */
module TxSections {

  datatype Mode = Read | Write

  /** What happens in order: a lock is taken or released, a transaction opened or committed.
      Taking a mutex counts as taking a write lock. */
  datatype Event = Acquired(mode: Mode) | Released | Opened | Committed

  /** A call of a wrapper; `granted` tells whether the real lock call succeeded. */
  datatype Call =
    | ReadLock(granted: bool)
    | WriteLock(granted: bool)
    | MutexLock(granted: bool)
    | RwUnlock
    | MutexUnlock
    | TxLock
    | TxUnlock

  datatype State = State(locksHeld: nat, openTxs: nat, trace: seq<Event>)

  predicate Unlocks(c: Call) {
    c.RwUnlock? || c.MutexUnlock?
  }

  /** The wrappers assert that an unlock finds a lock held. */
  predicate Allowed(s: State, c: Call) {
    Unlocks(c) ==> s.locksHeld > 0
  }

  function Open(s: State): (r: State) {
    if s.openTxs == 0 then s.(openTxs := 1, trace := s.trace + [Opened]) else s
  }

  function Commit(s: State): (r: State) {
    if s.openTxs > 0 then s.(openTxs := s.openTxs - 1, trace := s.trace + [Committed]) else s
  }

  function Acquire(s: State, mode: Mode): (r: State) {
    var t := s.(trace := s.trace + [Acquired(mode)]);
    var u := if mode == Write then Open(t) else t;
    u.(locksHeld := s.locksHeld + 1)
  }

  function Release(s: State): (r: State)
    requires s.locksHeld > 0
  {
    var t := s.(locksHeld := s.locksHeld - 1);
    var u := if t.locksHeld == 0 then Commit(t) else t;
    u.(trace := u.trace + [Released])
  }

  function Step(s: State, c: Call): (r: State)
    requires Allowed(s, c)
  {
    match c
    case ReadLock(granted) => if granted then Acquire(s, Read) else s
    case WriteLock(granted) => if granted then Acquire(s, Write) else s
    case MutexLock(granted) => if granted then Acquire(s, Write) else s
    case RwUnlock => Release(s)
    case MutexUnlock => Release(s)
    case TxLock => Open(s)
    case TxUnlock => Commit(s)
  }

  // ------------------------------------------------------------------------- runs

  ghost predicate Runs(calls: seq<Call>)
    decreases |calls|, 0
  {
    calls == [] || (Runs(calls[..|calls| - 1]) && Allowed(After(calls[..|calls| - 1]), calls[|calls| - 1]))
  }

  /** A fresh context after the calls. */
  ghost function After(calls: seq<Call>): (s: State)
    requires Runs(calls)
    decreases |calls|, 1
  {
    if calls == [] then State(0, 0, []) else Step(After(calls[..|calls| - 1]), calls[|calls| - 1])
  }

  /** Locks taken less locks released, going by the calls alone. */
  function Balance(calls: seq<Call>): (n: int) {
    if calls == [] then 0
    else
      var c := calls[|calls| - 1];
      Balance(calls[..|calls| - 1]) +
      if (c.ReadLock? || c.WriteLock? || c.MutexLock?) && c.granted then 1
      else if c.RwUnlock? || c.MutexUnlock? then -1 else 0
  }

  /** A sequence of calls gets past the assertions of the wrappers if and only if it never
      releases more locks than it took. */
  lemma {:induction false} RunsIff(calls: seq<Call>)
    ensures Runs(calls) <==> forall k :: 0 <= k <= |calls| ==> Balance(calls[..k]) >= 0
    ensures Runs(calls) ==> After(calls).locksHeld == Balance(calls)
    decreases |calls|
  {
    if calls != [] {
      var rest := calls[..|calls| - 1];
      RunsIff(rest);
      assert forall k :: 0 <= k < |calls| ==> calls[..k] == rest[..k];
      assert calls[..|calls|] == calls;
    }
  }

  function Count(trace: seq<Event>, e: Event): (n: nat) {
    if trace == [] then 0 else Count(trace[..|trace| - 1], e) + if trace[|trace| - 1] == e then 1 else 0
  }

  lemma CountNext(trace: seq<Event>, x: Event, e: Event)
    ensures Count(trace + [x], e) == Count(trace, e) + if x == e then 1 else 0
  {
    assert (trace + [x])[..|trace|] == trace;
  }

  // ------------------------------------------------------------------ alternation

  function Pending(trace: seq<Event>): (n: int) {
    Count(trace, Opened) - Count(trace, Committed)
  }

  /** Opens and commits take turns: after any number of events, no more than one
      transaction is open, and none was committed that was not. */
  ghost predicate Alternate(trace: seq<Event>) {
    forall k :: 0 <= k <= |trace| ==> 0 <= Pending(trace[..k]) <= 1
  }

  lemma AlternateNext(trace: seq<Event>, x: Event)
    requires Alternate(trace) && (x == Opened ==> Pending(trace) == 0) && (x == Committed ==> Pending(trace) == 1)
    ensures Alternate(trace + [x])
    ensures Pending(trace + [x]) == Pending(trace) + (if x == Opened then 1 else if x == Committed then -1 else 0)
  {
    CountNext(trace, x, Opened);
    CountNext(trace, x, Committed);
    forall k | 0 <= k <= |trace + [x]|
      ensures 0 <= Pending((trace + [x])[..k]) <= 1
    {
      if k <= |trace| {
        assert (trace + [x])[..k] == trace[..k];
      } else {
        assert (trace + [x])[..k] == trace + [x] && trace[..|trace|] == trace;
      }
    }
  }

  ghost predicate InStep(s: State) {
    Alternate(s.trace) && Pending(s.trace) == s.openTxs && s.openTxs <= 1
  }

  lemma AcquireInStep(s: State, mode: Mode)
    requires InStep(s)
    ensures InStep(Acquire(s, mode))
  {
    AlternateNext(s.trace, Acquired(mode));
    if mode == Write && s.openTxs == 0 {
      AlternateNext(s.trace + [Acquired(mode)], Opened);
    }
  }

  lemma ReleaseInStep(s: State)
    requires InStep(s) && s.locksHeld > 0
    ensures InStep(Release(s))
  {
    if s.locksHeld == 1 && s.openTxs > 0 {
      AlternateNext(s.trace, Committed);
      AlternateNext(s.trace + [Committed], Released);
    } else {
      AlternateNext(s.trace, Released);
    }
  }

  lemma StepInStep(s: State, c: Call)
    requires InStep(s) && Allowed(s, c)
    ensures InStep(Step(s, c))
  {
    if Unlocks(c) {
      ReleaseInStep(s);
    } else if c.TxLock? {
      if s.openTxs == 0 { AlternateNext(s.trace, Opened); }
    } else if c.TxUnlock? {
      if s.openTxs > 0 { AlternateNext(s.trace, Committed); }
    } else if c.granted {
      AcquireInStep(s, if c.ReadLock? then Read else Write);
    }
  }

  /** Whatever a thread calls, transactions open and commit in turn and `openTxs` is the
      number of open ones, 0 or 1. */
  lemma {:induction false} TransactionsAlternate(calls: seq<Call>)
    requires Runs(calls)
    ensures InStep(After(calls))
    decreases |calls|
  {
    if calls != [] {
      TransactionsAlternate(calls[..|calls| - 1]);
      StepInStep(After(calls[..|calls| - 1]), calls[|calls| - 1]);
    }
  }

  // --------------------------------------------------------------------- sections

  function Depth(trace: seq<Event>): (n: int) {
    Count(trace, Acquired(Read)) + Count(trace, Acquired(Write)) - Count(trace, Released)
  }

  lemma DepthNext(trace: seq<Event>, x: Event)
    ensures Depth(trace + [x]) == Depth(trace) + (if x.Acquired? then 1 else if x == Released then -1 else 0)
  {
    CountNext(trace, x, Acquired(Read));
    CountNext(trace, x, Acquired(Write));
    CountNext(trace, x, Released);
    assert x.Acquired? ==> x.mode == Read || x.mode == Write;
  }

  /** Some lock is held from the first event on. */
  ghost predicate Busy(trace: seq<Event>) {
    forall k :: 0 < k <= |trace| ==> Depth(trace[..k]) > 0
  }

  /** An outermost section: from the first lock taken to the last one released. */
  ghost predicate Section(trace: seq<Event>) {
    |trace| > 0 && Depth(trace) == 0 && Busy(trace[..|trace| - 1]) && trace[|trace| - 1] == Released
  }

  predicate Writes(trace: seq<Event>) {
    Acquired(Write) in trace
  }

  /** The transaction opens right after the first write lock or mutex. */
  ghost predicate OpensAtFirstWrite(trace: seq<Event>) {
    exists i :: 0 < i < |trace| && trace[i] == Opened && trace[i - 1] == Acquired(Write) &&
      Acquired(Write) !in trace[..i - 1]
  }

  /** A section with a write lock or mutex is covered by exactly one transaction, committed
      right before its last lock is released; any other section has none. */
  ghost predicate Covered(section: seq<Event>) {
    if Writes(section) then
      && Count(section, Opened) == 1 && Count(section, Committed) == 1 && OpensAtFirstWrite(section)
      && |section| >= 2 && section[|section| - 2] == Committed
    else Count(section, Opened) == 0 && Count(section, Committed) == 0
  }

  function Join(sections: seq<seq<Event>>): (r: seq<Event>) {
    if sections == [] then [] else Join(sections[..|sections| - 1]) + sections[|sections| - 1]
  }

  /** The section under way. */
  ghost predicate Current(s: State, c: seq<Event>) {
    && Busy(c) && Depth(c) == s.locksHeld && (c == [] <==> s.locksHeld == 0)
    && Count(c, Committed) == 0 && Count(c, Opened) == s.openTxs && (s.openTxs == 1 <==> Writes(c)) && s.openTxs <= 1
    && (Writes(c) ==> OpensAtFirstWrite(c))
  }

  predicate Implicit(calls: seq<Call>) {
    forall k :: 0 <= k < |calls| ==> !calls[k].TxLock? && !calls[k].TxUnlock?
  }

  lemma BusyNext(trace: seq<Event>, x: Event)
    requires Busy(trace) && Depth(trace + [x]) > 0
    ensures Busy(trace + [x])
  {
    forall k | 0 < k <= |trace + [x]|
      ensures Depth((trace + [x])[..k]) > 0
    {
      if k <= |trace| {
        assert (trace + [x])[..k] == trace[..k];
      } else {
        assert (trace + [x])[..k] == trace + [x];
      }
    }
  }

  lemma OpensNext(trace: seq<Event>, x: Event)
    requires OpensAtFirstWrite(trace)
    ensures OpensAtFirstWrite(trace + [x])
  {
    var i :| 0 < i < |trace| && trace[i] == Opened && trace[i - 1] == Acquired(Write) &&
        Acquired(Write) !in trace[..i - 1];
    assert (trace + [x])[i] == Opened && (trace + [x])[..i - 1] == trace[..i - 1];
  }

  lemma AcquireCurrent(s: State, c: seq<Event>, mode: Mode)
    requires Current(s, c)
    ensures var events := if mode == Write && s.openTxs == 0 then [Acquired(mode), Opened] else [Acquired(mode)];
            Acquire(s, mode).trace == s.trace + events && Current(Acquire(s, mode), c + events)
  {
    var x := Acquired(mode);
    DepthNext(c, x);
    BusyNext(c, x);
    CountNext(c, x, Opened);
    CountNext(c, x, Committed);
    if mode == Write && s.openTxs == 0 {
      DepthNext(c + [x], Opened);
      BusyNext(c + [x], Opened);
      CountNext(c + [x], Opened, Opened);
      CountNext(c + [x], Opened, Committed);
      var d := c + [x] + [Opened];
      assert d == c + [x, Opened] && s.trace + [x] + [Opened] == s.trace + [x, Opened];
      assert d[|c| + 1] == Opened && d[|c|] == x && d[..|c|] == c;
    } else if Writes(c) {
      OpensNext(c, x);
    }
  }

  lemma ReleaseInner(s: State, c: seq<Event>)
    requires Current(s, c) && s.locksHeld > 1
    ensures Release(s).trace == s.trace + [Released] && Current(Release(s), c + [Released])
  {
    DepthNext(c, Released);
    BusyNext(c, Released);
    CountNext(c, Released, Opened);
    CountNext(c, Released, Committed);
    if Writes(c) {
      OpensNext(c, Released);
    }
  }

  lemma ReleaseLast(s: State, c: seq<Event>)
    requires Current(s, c) && s.locksHeld == 1
    ensures var events := if s.openTxs == 1 then [Committed, Released] else [Released];
            && Release(s).trace == s.trace + events && Section(c + events) && Covered(c + events)
            && Release(s).openTxs == 0 && Release(s).locksHeld == 0
  {
    if s.openTxs == 1 {
      var d := c + [Committed];
      DepthNext(c, Committed);
      BusyNext(c, Committed);
      CountNext(c, Committed, Opened);
      CountNext(c, Committed, Committed);
      OpensNext(c, Committed);
      DepthNext(d, Released);
      CountNext(d, Released, Opened);
      CountNext(d, Released, Committed);
      OpensNext(d, Released);
      assert d + [Released] == c + [Committed, Released] && (d + [Released])[..|d|] == d;
      assert s.trace + [Committed] + [Released] == s.trace + [Committed, Released];
    } else {
      DepthNext(c, Released);
      CountNext(c, Released, Opened);
      CountNext(c, Released, Committed);
      assert (c + [Released])[..|c|] == c;
    }
  }

  /** The events are one outermost section after another, each covered by its
      transaction, and then the section under way. */
  ghost predicate Splits(s: State, sections: seq<seq<Event>>, current: seq<Event>) {
    && s.trace == Join(sections) + current && Current(s, current)
    && forall k :: 0 <= k < |sections| ==> Section(sections[k]) && Covered(sections[k])
  }

  lemma SplitsAcquire(s: State, mode: Mode, sections: seq<seq<Event>>, current: seq<Event>) returns (next: seq<Event>)
    requires Splits(s, sections, current)
    ensures Splits(Acquire(s, mode), sections, next)
  {
    var events := if mode == Write && s.openTxs == 0 then [Acquired(mode), Opened] else [Acquired(mode)];
    AcquireCurrent(s, current, mode);
    next := current + events;
    assert Join(sections) + current + events == Join(sections) + next;
  }

  lemma SplitsInner(s: State, sections: seq<seq<Event>>, current: seq<Event>)
    requires Splits(s, sections, current) && s.locksHeld > 1
    ensures Splits(Release(s), sections, current + [Released])
  {
    ReleaseInner(s, current);
    assert Join(sections) + current + [Released] == Join(sections) + (current + [Released]);
  }

  lemma SplitsLast(s: State, sections: seq<seq<Event>>, current: seq<Event>) returns (section: seq<Event>)
    requires Splits(s, sections, current) && s.locksHeld == 1
    ensures Splits(Release(s), sections + [section], [])
  {
    var events := if s.openTxs == 1 then [Committed, Released] else [Released];
    ReleaseLast(s, current);
    section := current + events;
    var more := sections + [section];
    assert more[..|more| - 1] == sections;
    assert Join(sections) + current + events == Join(more) + [];
  }

  lemma SplitsStep(s: State, c: Call, sections: seq<seq<Event>>, current: seq<Event>)
    returns (sections': seq<seq<Event>>, current': seq<Event>)
    requires Splits(s, sections, current) && Allowed(s, c) && !c.TxLock? && !c.TxUnlock?
    ensures Splits(Step(s, c), sections', current')
  {
    sections', current' := sections, current;
    if Unlocks(c) {
      if s.locksHeld == 1 {
        var section := SplitsLast(s, sections, current);
        sections', current' := sections + [section], [];
      } else {
        SplitsInner(s, sections, current);
        current' := current + [Released];
      }
    } else if c.granted {
      current' := SplitsAcquire(s, if c.ReadLock? then Read else Write, sections, current);
    }
  }

  /** Without `tx_lock` and `tx_unlock` every outermost section of a thread is covered. */
  lemma {:induction false} SectionsCovered(calls: seq<Call>) returns (sections: seq<seq<Event>>, current: seq<Event>)
    requires Runs(calls) && Implicit(calls)
    ensures Splits(After(calls), sections, current)
    decreases |calls|
  {
    sections, current := [], [];
    if calls != [] {
      sections, current := SectionsCovered(calls[..|calls| - 1]);
      sections, current := SplitsStep(After(calls[..|calls| - 1]), calls[|calls| - 1], sections, current);
    }
  }

  // ------------------------------------------------------------------- the wrappers

  lemma StepDepth(s: State, c: Call)
    requires Allowed(s, c) && Depth(s.trace) == s.locksHeld
    ensures Depth(Step(s, c).trace) == Step(s, c).locksHeld
  {
    if Unlocks(c) {
      DepthNext(s.trace, Committed);
      DepthNext(s.trace + [Committed], Released);
      DepthNext(s.trace, Released);
    } else if c.TxLock? {
      DepthNext(s.trace, Opened);
    } else if c.TxUnlock? {
      DepthNext(s.trace, Committed);
    } else if c.granted {
      var x := Acquired(if c.ReadLock? then Read else Write);
      DepthNext(s.trace, x);
      DepthNext(s.trace + [x], Opened);
    }
  }

  /** A context after the calls: its counters are the locks held and the transactions open
      in the events so far, these open and commit in turn, and unless a transaction was
      opened or committed by hand, every outermost section is covered by its own. */
  ghost predicate Tracks(s: State, calls: seq<Call>, sections: seq<seq<Event>>, current: seq<Event>) {
    && Runs(calls) && s == After(calls) && Depth(s.trace) == s.locksHeld && InStep(s)
    && (Implicit(calls) ==> Splits(s, sections, current))
  }

  lemma StepTracks(s: State, c: Call, calls: seq<Call>, sections: seq<seq<Event>>, current: seq<Event>)
    returns (sections': seq<seq<Event>>, current': seq<Event>)
    requires Tracks(s, calls, sections, current) && Allowed(s, c)
    ensures Tracks(Step(s, c), calls + [c], sections', current')
  {
    var more := calls + [c];
    assert more[..|calls|] == calls && more[|calls|] == c;
    StepDepth(s, c);
    StepInStep(s, c);
    sections', current' := sections, current;
    if Implicit(more) {
      assert forall k :: 0 <= k < |calls| ==> more[k] == calls[k];
      sections', current' := SplitsStep(s, c, sections, current);
    }
  }

  /** A thread's context as the wrappers update it. */
  class ThreadContext {
    var locksHeld: int
    var openTxs: nat
    var trace: seq<Event>
    ghost var calls: seq<Call>
    ghost var sections: seq<seq<Event>>
    ghost var current: seq<Event>

    ghost predicate Valid()
      reads this
    {
      locksHeld >= 0 && Tracks(View(), calls, sections, current)
    }

    ghost function View(): (s: State)
      reads this
      requires locksHeld >= 0
    {
      State(locksHeld, openTxs, trace)
    }

    constructor ()
      ensures Valid() && calls == [] && trace == []
    {
      locksHeld, openTxs, trace := 0, 0, [];
      calls, sections, current := [], [], [];
    }

    /** The call of `c` in state `s` has been carried out. */
    ghost method Note(s: State, c: Call)
      requires locksHeld >= 0 && Tracks(s, calls, sections, current) && Allowed(s, c) && View() == Step(s, c)
      modifies this`calls, this`sections, this`current
      ensures Valid() && calls == old(calls) + [c]
    {
      sections, current := StepTracks(s, c, calls, sections, current);
      calls := calls + [c];
    }

    /** Afterwards a transaction is open; it is a new one exactly if none was. */
    method TxLock()
      requires Valid()
      modifies this
      ensures Valid() && calls == old(calls) + [Call.TxLock] && Pending(trace) == 1
      ensures trace == old(trace) + if old(Pending(trace)) == 0 then [Opened] else []
    {
      ghost var s, c := View(), Call.TxLock;
      if openTxs == 0 {
        trace := trace + [Opened];
        openTxs := openTxs + 1;
      }
      Note(s, c);
    }

    /** Afterwards none is open. */
    method TxUnlock()
      requires Valid()
      modifies this
      ensures Valid() && calls == old(calls) + [Call.TxUnlock] && Pending(trace) == 0
      ensures trace == old(trace) + if old(Pending(trace)) == 1 then [Committed] else []
    {
      ghost var s, c := View(), Call.TxUnlock;
      if openTxs > 0 {
        trace := trace + [Committed];
        openTxs := openTxs - 1;
      }
      Note(s, c);
    }

    /** A read lock opens no transaction. */
    method ReadLock(granted: bool)
      requires Valid()
      modifies this
      ensures Valid() && calls == old(calls) + [Call.ReadLock(granted)]
      ensures trace == old(trace) + if granted then [Acquired(Read)] else []
    {
      ghost var s, c := View(), Call.ReadLock(granted);
      if granted {
        trace := trace + [Acquired(Read)];
        locksHeld := locksHeld + 1;
      }
      Note(s, c);
    }

    /** The write-lock and the mutex wrapper: under a write lock or mutex a transaction is
        open, opened right after the lock was taken if none was. */
    method ExclusiveLock(granted: bool, ghost mutex: bool)
      requires Valid()
      modifies this
      ensures Valid() && calls == old(calls) + [if mutex then MutexLock(granted) else WriteLock(granted)]
      ensures !granted ==> trace == old(trace)
      ensures granted ==> Pending(trace) == 1 && Depth(trace) == old(Depth(trace)) + 1
      ensures granted ==> trace == old(trace) + [Acquired(Write)] + if old(Pending(trace)) == 0 then [Opened] else []
    {
      ghost var s, c := View(), if mutex then MutexLock(granted) else WriteLock(granted);
      if granted {
        trace := trace + [Acquired(Write)];
        if openTxs == 0 {
          trace := trace + [Opened];
          openTxs := openTxs + 1;
        }
        locksHeld := locksHeld + 1;
      }
      Note(s, c);
    }

    /** Both unlock wrappers: no transaction outlives the last lock, and none is committed
        while another lock is held. */
    method Unlock(ghost mutex: bool)
      requires Valid() && locksHeld > 0
      modifies this
      ensures Valid() && calls == old(calls) + [if mutex then MutexUnlock else RwUnlock]
      ensures Depth(trace) == old(Depth(trace)) - 1
      ensures Pending(trace) == if Depth(trace) == 0 then 0 else old(Pending(trace))
      ensures var commit := Depth(trace) == 0 && old(Pending(trace)) == 1;
              trace == old(trace) + (if commit then [Committed] else []) + [Released]
    {
      ghost var s, c := View(), if mutex then MutexUnlock else RwUnlock;
      locksHeld := locksHeld - 1;
      if locksHeld == 0 && openTxs > 0 {
        trace := trace + [Committed];
        openTxs := openTxs - 1;
      }
      trace := trace + [Released];
      Note(s, c);
    }

    method Perform(c: Call)
      requires Valid() && (Unlocks(c) ==> locksHeld > 0)
      modifies this
      ensures Valid() && calls == old(calls) + [c]
    {
      match c
      case ReadLock(granted) => ReadLock(granted);
      case WriteLock(granted) => ExclusiveLock(granted, false);
      case MutexLock(granted) => ExclusiveLock(granted, true);
      case RwUnlock => Unlock(false);
      case MutexUnlock => Unlock(true);
      case TxLock => TxLock();
      case TxUnlock => TxUnlock();
    }

    /** Whatever a thread calls, up to the first unlock without a lock, where the wrappers'
        assertion fails: transactions open and commit in turn, and without `tx_lock` and
        `tx_unlock` the events are outermost sections, each covered by its own transaction. */
    method Run(more: seq<Call>) returns (done: nat)
      requires Valid()
      modifies this
      ensures Valid() && done <= |more| && calls == old(calls) + more[..done]
      ensures done < |more| ==> Unlocks(more[done]) && Depth(trace) == 0
      ensures Alternate(trace)
      ensures Implicit(calls) ==> Splits(View(), sections, current)
    {
      done := 0;
      while done < |more| && (Unlocks(more[done]) ==> locksHeld > 0)
        invariant Valid() && done <= |more| && calls == old(calls) + more[..done]
      {
        Perform(more[done]);
        assert more[..done + 1] == more[..done] + [more[done]];
        done := done + 1;
      }
    }
  }
}

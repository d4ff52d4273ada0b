/** The table of thread contexts (`janus_workload/TATP/context.cpp`): slots are claimed by
    load and compare-and-swap, found by probing from a thread id's hash, and freed by the
    join wrapper. Any number of calls run at once; `hash` is any hash function. */
module ContextTable {

  const MAX_THREADS: nat := 128
  const WORD: nat := 0x1_0000_0000_0000_0000

  /** A call in progress: probing for a free slot (`loaded` once a slot was seen free,
      `calm` while no slot has been freed since the call began), probing for an id, or
      about to free the slot found. */
  datatype Call =
    | Idle
    | Creating(id: nat, i: nat, loaded: bool, calm: bool)
    | Looking(id: nat, i: nat, joining: bool)
    | Freeing(id: nat, slot: nat)

  /** `home` tells which slot each registered id has claimed. */
  datatype State = State(slots: seq<nat>, calls: seq<Call>, home: map<nat, nat>)

  datatype Action =
    | Create(c: nat, id: nat)
    | Load(c: nat)
    | Cas(c: nat)
    | GiveUp(c: nat)
    | Find(c: nat, id: nat)
    | Join(c: nat, id: nat)
    | Look(c: nat)
    | Missing(c: nat)
    | Free(c: nat)

  /** A probe order: slot number `i` that is tried for an id. */
  type Order = (nat, nat) -> nat

  /** Every id's first 128 probes visit all the slots. */
  ghost predicate Covers(probe: Order) {
    && (forall id: nat, i: nat :: probe(id, i) < MAX_THREADS)
    && (forall id: nat, p: nat :: p < MAX_THREADS ==> Ahead(probe, id, 0, p))
  }

  /** The slot is among the probes from `i` on. */
  ghost predicate Ahead(probe: Order, id: nat, i: nat, p: nat) {
    exists k :: i <= k < MAX_THREADS && probe(id, k) == p
  }

  function Creators(calls: seq<Call>): (ids: set<nat>) {
    set c | 0 <= c < |calls| && calls[c].Creating? :: calls[c].id
  }

  function Live(s: State): (ids: set<nat>) {
    s.home.Keys + Creators(s.calls)
  }

  predicate Uses(call: Call, id: nat) {
    (call.Looking? || call.Freeing?) && call.id == id
  }

  predicate Removes(call: Call, id: nat) {
    Uses(call, id) && (call.Looking? ==> call.joining)
  }

  /** New ids are non-zero, distinct from the live ones, and at most 128 are live at a time.
      A thread is joined once, after its own lookups. */
  ghost predicate Enabled(s: State, a: Action) {
    a.c < |s.calls| &&
    var call := s.calls[a.c];
    match a
    case Create(_, id) => call == Idle && id != 0 && id !in Live(s) && |Live(s)| < MAX_THREADS
    case Load(_) => call.Creating? && !call.loaded && call.i < MAX_THREADS
    case Cas(_) => call.Creating? && call.loaded
    case GiveUp(_) => call.Creating? && call.i == MAX_THREADS
    case Find(_, id) => call == Idle && id in s.home && forall d :: 0 <= d < |s.calls| ==> !Removes(s.calls[d], id)
    case Join(_, id) => call == Idle && id in s.home && forall d :: 0 <= d < |s.calls| ==> !Uses(s.calls[d], id)
    case Look(_) => call.Looking? && call.i < MAX_THREADS
    case Missing(_) => call.Looking? && call.i == MAX_THREADS
    case Free(_) => call.Freeing?
  }

  function Disturb(call: Call): (r: Call) {
    if call.Creating? then call.(calm := false) else call
  }

  function DisturbAll(calls: seq<Call>): (r: seq<Call>)
    ensures |r| == |calls| && forall c :: 0 <= c < |r| ==> r[c] == Disturb(calls[c])
  {
    seq(|calls|, c requires 0 <= c < |calls| => Disturb(calls[c]))
  }

  /** The compare-and-swap that succeeds. */
  ghost predicate Claims(probe: Order, s: State, a: Action)
    requires Covers(probe) && |s.slots| == MAX_THREADS && Enabled(s, a)
  {
    a.Cas? && s.slots[probe(s.calls[a.c].id, s.calls[a.c].i)] == 0
  }

  /** What the call does next. */
  ghost function NextCall(probe: Order, s: State, a: Action): (r: Call)
    requires Covers(probe) && |s.slots| == MAX_THREADS && Enabled(s, a)
  {
    var call := s.calls[a.c];
    match a
    case Create(_, id) => Creating(id, 0, false, true)
    case Load(_) =>
      var taken := s.slots[probe(call.id, call.i)] != 0;
      Creating(call.id, if taken then call.i + 1 else call.i, !taken, call.calm)
    case Cas(_) => if Claims(probe, s, a) then Idle else Creating(call.id, call.i + 1, false, call.calm)
    case Find(_, id) => Looking(id, 0, false)
    case Join(_, id) => Looking(id, 0, true)
    case Look(_) =>
      if s.slots[probe(call.id, call.i)] != call.id then Looking(call.id, call.i + 1, call.joining)
      else if call.joining then Freeing(call.id, probe(call.id, call.i))
      else Idle
    case _ => Idle
  }

  ghost function Apply(probe: Order, s: State, a: Action): (r: State)
    requires Covers(probe) && |s.slots| == MAX_THREADS && Enabled(s, a)
    requires s.calls[a.c].Freeing? ==> s.calls[a.c].slot < MAX_THREADS
    ensures |r.slots| == MAX_THREADS && |r.calls| == |s.calls|
  {
    var call, calls := s.calls[a.c], s.calls[a.c := NextCall(probe, s, a)];
    if Claims(probe, s, a) then
      var p := probe(call.id, call.i);
      State(s.slots[p := call.id], calls, s.home[call.id := p])
    else if a.Free? then State(s.slots[call.slot := 0], DisturbAll(calls), s.home - {call.id})
    else s.(calls := calls)
  }

  // -------------------------------------------------------------------- invariant

  /** Slots and registered ids are in one-to-one correspondence. */
  ghost predicate Housed(s: State) {
    && |s.slots| == MAX_THREADS
    && (forall id :: id in s.home ==> id != 0 && s.home[id] < MAX_THREADS && s.slots[s.home[id]] == id)
    && (forall p :: 0 <= p < MAX_THREADS && s.slots[p] != 0 ==> s.slots[p] in s.home && s.home[s.slots[p]] == p)
  }

  ghost predicate CallOk(probe: Order, s: State, call: Call)
    requires Covers(probe) && |s.slots| == MAX_THREADS
  {
    match call
    case Idle => true
    case Creating(id, i, loaded, calm) =>
      && id != 0 && id !in s.home && i <= MAX_THREADS && (loaded ==> i < MAX_THREADS)
      && (calm ==> forall k :: 0 <= k < i ==> s.slots[probe(id, k)] != 0)
    case Looking(id, i, _) => id in s.home && i <= MAX_THREADS && Ahead(probe, id, i, s.home[id])
    case Freeing(id, slot) => id in s.home && s.home[id] == slot && slot < MAX_THREADS
  }

  ghost predicate Compatible(a: Call, b: Call) {
    && (a.Creating? && b.Creating? ==> a.id != b.id)
    && (Removes(a, if a.Idle? then 0 else a.id) && !b.Idle? ==> !Uses(b, a.id))
  }

  ghost predicate Inv(probe: Order, s: State) {
    && Covers(probe) && Housed(s)
    && (forall c :: 0 <= c < |s.calls| ==> CallOk(probe, s, s.calls[c]))
    && (forall c, d :: 0 <= c < |s.calls| && 0 <= d < |s.calls| && c != d ==> Compatible(s.calls[c], s.calls[d]))
    && |Live(s)| <= MAX_THREADS
  }

  lemma ClaimKeepsHoused(s: State, r: State, p: nat, id: nat)
    requires Housed(s) && p < MAX_THREADS && s.slots[p] == 0 && id != 0 && id !in s.home
    requires r.slots == s.slots[p := id] && r.home == s.home[id := p]
    ensures Housed(r)
  {}

  lemma FreeKeepsHoused(s: State, r: State, p: nat, id: nat)
    requires Housed(s) && id in s.home && s.home[id] == p
    requires r.slots == s.slots[p := 0] && r.home == s.home - {id}
    ensures Housed(r)
  {}

  lemma StepKeepsHoused(probe: Order, s: State, a: Action)
    requires Inv(probe, s) && Enabled(s, a)
    ensures CallOk(probe, s, s.calls[a.c]) && Housed(Apply(probe, s, a))
  {
    assert CallOk(probe, s, s.calls[a.c]);
    var r, call := Apply(probe, s, a), s.calls[a.c];
    if Claims(probe, s, a) {
      ClaimKeepsHoused(s, r, probe(call.id, call.i), call.id);
    } else if a.Free? {
      FreeKeepsHoused(s, r, call.slot, call.id);
    }
  }

  /** Looking at one more slot either finds the id or leaves its slot ahead. */
  lemma LookAhead(probe: Order, s: State, id: nat, i: nat)
    requires Covers(probe) && Housed(s) && id in s.home && i <= MAX_THREADS && Ahead(probe, id, i, s.home[id])
    ensures i < MAX_THREADS && (s.slots[probe(id, i)] == id <==> probe(id, i) == s.home[id])
    ensures s.slots[probe(id, i)] != id ==> Ahead(probe, id, i + 1, s.home[id])
  {
    var k :| i <= k < MAX_THREADS && probe(id, k) == s.home[id];
    assert k > i || probe(id, i) == s.home[id];
  }

  /** All that a step of call `c` needs of the invariant. */
  ghost predicate Sound(probe: Order, s: State, a: Action) {
    Covers(probe) && Housed(s) && Enabled(s, a) && CallOk(probe, s, s.calls[a.c])
  }

  lemma ProbingGoesOn(probe: Order, s: State, a: Action)
    requires Sound(probe, s, a) && (a.Load? || a.Cas?)
    ensures CallOk(probe, Apply(probe, s, a), Apply(probe, s, a).calls[a.c])
  {}

  lemma LookingGoesOn(probe: Order, s: State, a: Action)
    requires Sound(probe, s, a) && a.Look?
    ensures CallOk(probe, Apply(probe, s, a), Apply(probe, s, a).calls[a.c])
  {
    LookAhead(probe, s, s.calls[a.c].id, s.calls[a.c].i);
  }

  lemma LookingStarts(probe: Order, s: State, a: Action)
    requires Sound(probe, s, a) && (a.Find? || a.Join?)
    ensures CallOk(probe, Apply(probe, s, a), Apply(probe, s, a).calls[a.c])
  {
    assert Ahead(probe, a.id, 0, s.home[a.id]);
  }

  lemma StepKeepsOwnCall(probe: Order, s: State, a: Action)
    requires Sound(probe, s, a)
    ensures CallOk(probe, Apply(probe, s, a), Apply(probe, s, a).calls[a.c])
  {
    if a.Load? || a.Cas? {
      ProbingGoesOn(probe, s, a);
    } else if a.Look? {
      LookingGoesOn(probe, s, a);
    } else if a.Find? || a.Join? {
      LookingStarts(probe, s, a);
    }
  }

  lemma StepKeepsOtherCall(probe: Order, s: State, a: Action, d: nat)
    requires Sound(probe, s, a) && d < |s.calls| && d != a.c
    requires CallOk(probe, s, s.calls[d]) && Compatible(s.calls[a.c], s.calls[d])
    ensures CallOk(probe, Apply(probe, s, a), Apply(probe, s, a).calls[d])
  {}

  /** A step changes its own call and at most disturbs the others. */
  lemma CallAfter(probe: Order, s: State, a: Action, c: nat)
    requires Covers(probe) && |s.slots| == MAX_THREADS && Enabled(s, a) && c < |s.calls|
    requires s.calls[a.c].Freeing? ==> s.calls[a.c].slot < MAX_THREADS
    ensures var r := Apply(probe, s, a).calls[c];
            if c == a.c then r == NextCall(probe, s, a) else r == s.calls[c] || r == Disturb(s.calls[c])
  {}

  lemma NextCallIds(probe: Order, s: State, a: Action)
    requires Sound(probe, s, a)
    ensures var call, next := s.calls[a.c], NextCall(probe, s, a);
            && (next.Creating? ==> (a.Create? && next.id == a.id) || (call.Creating? && next.id == call.id))
            && (next.Looking? || next.Freeing? ==>
                  || (a.Find? && next == Looking(a.id, 0, false)) || (a.Join? && next == Looking(a.id, 0, true))
                  || (call.Looking? && next.id == call.id && (Removes(next, next.id) <==> Removes(call, next.id))))
  {}

  lemma StepKeepsPairs(probe: Order, s: State, a: Action, d: nat)
    requires Sound(probe, s, a) && d < |s.calls| && d != a.c
    requires Compatible(s.calls[a.c], s.calls[d]) && Compatible(s.calls[d], s.calls[a.c])
    ensures var calls := Apply(probe, s, a).calls; Compatible(calls[a.c], calls[d]) && Compatible(calls[d], calls[a.c])
  {
    CallAfter(probe, s, a, a.c);
    CallAfter(probe, s, a, d);
    NextCallIds(probe, s, a);
    if a.Create? {
      assert s.calls[d].Creating? ==> s.calls[d].id in Creators(s.calls);
    }
  }

  lemma {:induction false} SubsetSize<T>(a: set<T>, b: set<T>)
    requires a <= b
    ensures |a| <= |b|
    decreases |a|
  {
    if a != {} {
      var x :| x in a;
      SubsetSize(a - {x}, b - {x});
    }
  }

  lemma LiveWithin(s: State, r: State, limit: set<nat>)
    requires r.home.Keys <= limit && |limit| <= MAX_THREADS
    requires forall c :: 0 <= c < |r.calls| && r.calls[c].Creating? ==> r.calls[c].id in limit
    ensures |Live(r)| <= MAX_THREADS
  {
    SubsetSize(Live(r), limit);
  }

  lemma StepKeepsLive(probe: Order, s: State, a: Action)
    requires Sound(probe, s, a) && |Live(s)| <= MAX_THREADS
    ensures |Live(Apply(probe, s, a))| <= MAX_THREADS
  {
    var r := Apply(probe, s, a);
    var limit := if a.Create? then Live(s) + {a.id} else Live(s);
    forall c | 0 <= c < |s.calls| && s.calls[c].Creating?
      ensures s.calls[c].id in Live(s)
    {
      assert s.calls[c].id in Creators(s.calls);
    }
    forall c | 0 <= c < |r.calls| && r.calls[c].Creating?
      ensures r.calls[c].id in limit
    {
      CallAfter(probe, s, a, c);
      NextCallIds(probe, s, a);
    }
    LiveWithin(s, r, limit);
  }

  lemma StepKeepsCalls(probe: Order, s: State, a: Action, c: nat)
    requires Inv(probe, s) && Sound(probe, s, a) && c < |s.calls|
    ensures CallOk(probe, Apply(probe, s, a), Apply(probe, s, a).calls[c])
  {
    if c == a.c {
      StepKeepsOwnCall(probe, s, a);
    } else {
      assert CallOk(probe, s, s.calls[c]) && Compatible(s.calls[a.c], s.calls[c]);
      StepKeepsOtherCall(probe, s, a, c);
    }
  }

  lemma StepKeepsCompatible(probe: Order, s: State, a: Action, c: nat, d: nat)
    requires Inv(probe, s) && Sound(probe, s, a) && c < |s.calls| && d < |s.calls| && c != d
    ensures var calls := Apply(probe, s, a).calls; Compatible(calls[c], calls[d])
  {
    assert Compatible(s.calls[c], s.calls[d]) && Compatible(s.calls[d], s.calls[c]);
    if c == a.c {
      StepKeepsPairs(probe, s, a, d);
    } else if d == a.c {
      StepKeepsPairs(probe, s, a, c);
    } else {
      CallAfter(probe, s, a, c);
      CallAfter(probe, s, a, d);
    }
  }

  lemma StepKeepsInv(probe: Order, s: State, a: Action)
    requires Inv(probe, s) && Enabled(s, a)
    ensures CallOk(probe, s, s.calls[a.c]) && Inv(probe, Apply(probe, s, a))
  {
    StepKeepsHoused(probe, s, a);
    var r := Apply(probe, s, a);
    forall c | 0 <= c < |r.calls|
      ensures CallOk(probe, r, r.calls[c])
    {
      StepKeepsCalls(probe, s, a, c);
    }
    forall c, d | 0 <= c < |r.calls| && 0 <= d < |r.calls| && c != d
      ensures Compatible(r.calls[c], r.calls[d])
    {
      StepKeepsCompatible(probe, s, a, c, d);
    }
    StepKeepsLive(probe, s, a);
  }

  // ------------------------------------------------------------------------- runs

  ghost predicate Executes(probe: Order, s: State, run: seq<Action>)
    decreases |run|
  {
    run == [] ||
    (Covers(probe) && |s.slots| == MAX_THREADS && Enabled(s, run[0])
     && (s.calls[run[0].c].Freeing? ==> s.calls[run[0].c].slot < MAX_THREADS)
     && Executes(probe, Apply(probe, s, run[0]), run[1..]))
  }

  ghost function Final(probe: Order, s: State, run: seq<Action>): (r: State)
    requires Executes(probe, s, run)
    decreases |run|
  {
    if run == [] then s else Final(probe, Apply(probe, s, run[0]), run[1..])
  }

  /** An empty table and `n` callers. */
  function Initial(n: nat): (r: State) {
    State(seq(MAX_THREADS, _ => 0), seq(n, _ => Idle), map[])
  }

  lemma {:induction false} RunKeepsInv(probe: Order, s: State, run: seq<Action>)
    requires Inv(probe, s) && Executes(probe, s, run)
    ensures Inv(probe, Final(probe, s, run))
    decreases |run|
  {
    if run != [] {
      StepKeepsInv(probe, s, run[0]);
      RunKeepsInv(probe, Apply(probe, s, run[0]), run[1..]);
    }
  }

  lemma InitialInv(probe: Order, n: nat)
    requires Covers(probe)
    ensures Inv(probe, Initial(n))
  {
    assert Live(Initial(n)) == {};
  }

  // ------------------------------------------------------------------- probe order

  type HashFunction = nat -> nat

  /** The probe order of the code: 64-bit addition to the hash, modulo the table size. */
  ghost function ProbeOf(hash: HashFunction): (probe: Order) {
    (id, i) => (hash(id) % WORD + i) % WORD % MAX_THREADS
  }

  lemma WrapKeeps(x: nat)
    ensures x % WORD % MAX_THREADS == x % MAX_THREADS
  {
    var q, r := x / WORD, x % WORD;
    assert x == MAX_THREADS * (q * (WORD / MAX_THREADS)) + r;
    RemainderShift(q * (WORD / MAX_THREADS), r);
  }

  lemma RemainderShift(k: nat, r: nat)
    ensures (MAX_THREADS * k + r) % MAX_THREADS == r % MAX_THREADS
  {}

  lemma Reaches(start: nat, p: nat) returns (i: nat)
    requires p < MAX_THREADS
    ensures i < MAX_THREADS && (start + i) % WORD % MAX_THREADS == p
  {
    i := (p + MAX_THREADS - start % MAX_THREADS) % MAX_THREADS;
    WrapKeeps(start + i);
    var q := start / MAX_THREADS;
    if p >= start % MAX_THREADS {
      assert start + i == MAX_THREADS * q + p;
      RemainderShift(q, p);
    } else {
      assert start + i == MAX_THREADS * (q + 1) + p;
      RemainderShift(q + 1, p);
    }
  }

  /** Wrapping at the end of the 64-bit range does no harm: the 128 probes of an id visit
      every slot. */
  lemma ProbeCovers(hash: HashFunction)
    ensures Covers(ProbeOf(hash))
  {
    forall id: nat, p: nat | p < MAX_THREADS
      ensures Ahead(ProbeOf(hash), id, 0, p)
    {
      var i := Reaches(hash(id) % WORD, p);
      assert ProbeOf(hash)(id, i) == p;
    }
  }

  // ------------------------------------------------------------------------ results

  lemma Reachable(hash: HashFunction, n: nat, run: seq<Action>)
    requires Executes(ProbeOf(hash), Initial(n), run)
    ensures Inv(ProbeOf(hash), Final(ProbeOf(hash), Initial(n), run))
  {
    ProbeCovers(hash);
    InitialInv(ProbeOf(hash), n);
    RunKeepsInv(ProbeOf(hash), Initial(n), run);
  }

  /** In every reachable state a slot belongs to one registered id and a registered id has
      one slot, whatever slots before it in the probe order have been freed meanwhile. */
  lemma OneSlotPerId(hash: HashFunction, n: nat, run: seq<Action>, p: nat, id: nat)
    requires Executes(ProbeOf(hash), Initial(n), run) && p < MAX_THREADS && id != 0
    ensures var s := Final(ProbeOf(hash), Initial(n), run);
            |s.slots| == MAX_THREADS && (s.slots[p] == id <==> id in s.home && s.home[id] == p)
  {
    Reachable(hash, n, run);
  }

  /** The next probe is within the table, and it finds the id's own slot or nothing. */
  ghost predicate FindsOwnSlot(probe: Order, s: State, call: Call) {
    && call.Looking? && |s.slots| == MAX_THREADS && call.id in s.home && call.i < MAX_THREADS
    && probe(call.id, call.i) < MAX_THREADS
    && (s.slots[probe(call.id, call.i)] == call.id <==> probe(call.id, call.i) == s.home[call.id])
  }

  lemma LookupGoesOn(probe: Order, s: State, c: nat)
    requires Inv(probe, s) && c < |s.calls| && s.calls[c].Looking?
    ensures FindsOwnSlot(probe, s, s.calls[c])
  {
    assert CallOk(probe, s, s.calls[c]);
    LookAhead(probe, s, s.calls[c].id, s.calls[c].i);
  }

  /** A lookup never runs past the last slot. */
  lemma LookupsSucceed(hash: HashFunction, n: nat, run: seq<Action>, c: nat)
    requires Executes(ProbeOf(hash), Initial(n), run)
    requires c < |Final(ProbeOf(hash), Initial(n), run).calls| &&
             Final(ProbeOf(hash), Initial(n), run).calls[c].Looking?
    ensures var s := Final(ProbeOf(hash), Initial(n), run);
            FindsOwnSlot(ProbeOf(hash), s, s.calls[c]) && !Enabled(s, Missing(c))
  {
    Reachable(hash, n, run);
    LookupGoesOn(ProbeOf(hash), Final(ProbeOf(hash), Initial(n), run), c);
  }

  /** As many ids as occupied slots. */
  lemma {:induction false} FullTable(s: State, n: nat) returns (ids: set<nat>)
    requires Housed(s) && n <= MAX_THREADS && forall p :: 0 <= p < n ==> s.slots[p] != 0
    ensures ids <= s.home.Keys && |ids| == n && forall id :: id in ids ==> s.home[id] < n
  {
    ids := {};
    if n > 0 {
      var rest := FullTable(s, n - 1);
      ids := rest + {s.slots[n - 1]};
    }
  }

  lemma AllTaken(probe: Order, s: State, c: nat)
    requires Inv(probe, s) && c < |s.calls| && s.calls[c].Creating? && s.calls[c].calm && s.calls[c].i == MAX_THREADS
    ensures forall p :: 0 <= p < MAX_THREADS ==> s.slots[p] != 0
  {
    var id := s.calls[c].id;
    assert CallOk(probe, s, s.calls[c]);
    forall p: nat | p < MAX_THREADS
      ensures s.slots[p] != 0
    {
      assert Ahead(probe, id, 0, p);
      var k :| 0 <= k < MAX_THREADS && probe(id, k) == p;
    }
  }

  lemma CalmCreateGoesOn(probe: Order, s: State, c: nat)
    requires Inv(probe, s) && c < |s.calls| && s.calls[c].Creating? && s.calls[c].calm
    ensures s.calls[c].i < MAX_THREADS
  {
    assert CallOk(probe, s, s.calls[c]);
    if s.calls[c].i == MAX_THREADS {
      AllTaken(probe, s, c);
      var ids := FullTable(s, MAX_THREADS);
      assert s.calls[c].id in Creators(s.calls) && s.calls[c].id !in ids;
      SubsetSize(ids + {s.calls[c].id}, Live(s));
    }
  }

  /** A create that sees no join meanwhile does not give up: it finds a slot. */
  lemma CreatesSucceed(hash: HashFunction, n: nat, run: seq<Action>, c: nat)
    requires Executes(ProbeOf(hash), Initial(n), run)
    requires c < |Final(ProbeOf(hash), Initial(n), run).calls| &&
             Final(ProbeOf(hash), Initial(n), run).calls[c].Creating?
    requires Final(ProbeOf(hash), Initial(n), run).calls[c].calm
    ensures !Enabled(Final(ProbeOf(hash), Initial(n), run), GiveUp(c))
  {
    Reachable(hash, n, run);
    CalmCreateGoesOn(ProbeOf(hash), Final(ProbeOf(hash), Initial(n), run), c);
  }

  /** Probes a create or lookup still has to make at most. */
  function Remaining(call: Call): (n: int) {
    match call
    case Idle => 0
    case Creating(_, i, loaded, _) => 2 * (MAX_THREADS - i) + (if loaded then 1 else 2)
    case Looking(_, i, _) => 2 * (MAX_THREADS - i) + 2
    case Freeing(_, _) => 1
  }

  /** Every step of a call brings it closer to its end, and no other call's step takes it
      further away. */
  lemma CallsEnd(probe: Order, s: State, a: Action, c: nat)
    requires Inv(probe, s) && Enabled(s, a) && c < |s.calls| && !(a.Create? || a.Find? || a.Join?)
    requires s.calls[a.c].Freeing? ==> s.calls[a.c].slot < MAX_THREADS
    ensures 0 <= Remaining(s.calls[c])
    ensures if c == a.c then Remaining(Apply(probe, s, a).calls[c]) < Remaining(s.calls[c])
            else Remaining(Apply(probe, s, a).calls[c]) == Remaining(s.calls[c])
  {
    assert CallOk(probe, s, s.calls[a.c]) && CallOk(probe, s, s.calls[c]);
    CallAfter(probe, s, a, c);
  }

  // -------------------------------------------------------- what the calls come to

  /** The step a call in progress takes next. */
  function Onward(call: Call, c: nat): (a: Action)
    requires call != Idle
  {
    match call
    case Creating(_, i, loaded, _) => if i == MAX_THREADS then GiveUp(c) else if loaded then Cas(c) else Load(c)
    case Looking(_, i, _) => if i == MAX_THREADS then Missing(c) else Look(c)
    case Freeing(_, _) => Free(c)
  }

  /** A create that saw no join registers its id, a join removes its id, a lookup changes
      nothing. */
  ghost predicate Outcome(call: Call, s: State, e: State) {
    match call
    case Idle => e.home == s.home
    case Creating(id, _, _, calm) => calm ==> id in e.home && e.home - {id} == s.home
    case Looking(id, _, joining) => e.home == if joining then s.home - {id} else s.home
    case Freeing(id, _) => e.home == s.home - {id}
  }

  /** What a call's own step makes of it. */
  ghost predicate Towards(call: Call, s: State, next: Call, r: State) {
    match call
    case Idle => false
    case Creating(id, _, _, calm) =>
      || (next.Creating? && next.id == id && next.calm == calm && r.home == s.home)
      || (next == Idle && id in r.home && r.home - {id} == s.home)
      || (next == Idle && !calm)
    case Looking(id, _, joining) =>
      && r.home == s.home
      && (|| (next.Looking? && next.id == id && next.joining == joining)
          || (if joining then next.Freeing? && next.id == id else next == Idle))
    case Freeing(id, _) => next == Idle && r.home == s.home - {id}
  }

  lemma TowardsOutcome(call: Call, s: State, next: Call, r: State, e: State)
    requires Towards(call, s, next, r) && Outcome(next, r, e)
    ensures Outcome(call, s, e)
  {}

  lemma ClaimRegisters(home: map<nat, nat>, id: nat, p: nat)
    requires id !in home
    ensures home[id := p] - {id} == home
  {}

  lemma CreatingStep(probe: Order, s: State, c: nat, r: State)
    requires Inv(probe, s) && c < |s.calls| && s.calls[c].Creating? && Enabled(s, Onward(s.calls[c], c))
    requires r == Apply(probe, s, Onward(s.calls[c], c))
    ensures Towards(s.calls[c], s, r.calls[c], r)
  {
    var call, a := s.calls[c], Onward(s.calls[c], c);
    assert CallOk(probe, s, call);
    if a.GiveUp? {
      if call.calm {
        CalmCreateGoesOn(probe, s, c);
      }
    } else if Claims(probe, s, a) {
      ClaimRegisters(s.home, call.id, probe(call.id, call.i));
    }
  }

  lemma OtherStep(probe: Order, s: State, c: nat, r: State)
    requires Inv(probe, s) && c < |s.calls| && (s.calls[c].Looking? || s.calls[c].Freeing?)
    requires Enabled(s, Onward(s.calls[c], c)) && (s.calls[c].Freeing? ==> s.calls[c].slot < MAX_THREADS)
    requires r == Apply(probe, s, Onward(s.calls[c], c))
    ensures Towards(s.calls[c], s, r.calls[c], r)
  {
    if s.calls[c].Looking? {
      LookupGoesOn(probe, s, c);
    }
  }

  /** A call in progress can take a step of its own, which brings it closer to its end. */
  lemma OnwardStep(probe: Order, s: State, c: nat) returns (a: Action, r: State)
    requires Inv(probe, s) && c < |s.calls| && s.calls[c] != Idle
    ensures a.c == c && Enabled(s, a) && (s.calls[c].Freeing? ==> s.calls[c].slot < MAX_THREADS)
    ensures r == Apply(probe, s, a) && Inv(probe, r) && Closer(s, r, c)
  {
    assert CallOk(probe, s, s.calls[c]);
    a := Onward(s.calls[c], c);
    StepKeepsInv(probe, s, a);
    CallsEnd(probe, s, a, c);
    r := Apply(probe, s, a);
    assert CallOk(probe, r, r.calls[c]);
    if s.calls[c].Creating? {
      CreatingStep(probe, s, c, r);
    } else {
      OtherStep(probe, s, c, r);
    }
  }

  ghost predicate Closer(s: State, r: State, c: nat) {
    && c < |s.calls| == |r.calls| && 0 <= Remaining(r.calls[c]) < Remaining(s.calls[c])
    && Towards(s.calls[c], s, r.calls[c], r)
  }

  lemma FirstStep(probe: Order, s: State, a: Action, rest: seq<Action>)
    requires Covers(probe) && |s.slots| == MAX_THREADS && Enabled(s, a)
    requires s.calls[a.c].Freeing? ==> s.calls[a.c].slot < MAX_THREADS
    requires Executes(probe, Apply(probe, s, a), rest)
    ensures Executes(probe, s, [a] + rest)
    ensures Final(probe, s, [a] + rest) == Final(probe, Apply(probe, s, a), rest)
  {
    assert ([a] + rest)[1..] == rest;
  }

  /** The steps end call `c`, and are its own. */
  ghost predicate Ends(probe: Order, s: State, c: nat, more: seq<Action>)
    requires c < |s.calls|
  {
    && (forall k :: 0 <= k < |more| ==> more[k].c == c) && |more| <= Remaining(s.calls[c]) && Executes(probe, s, more)
    && var e := Final(probe, s, more);
    |e.calls| == |s.calls| && e.calls[c] == Idle && Outcome(s.calls[c], s, e)
  }

  lemma EndsSooner(probe: Order, s: State, c: nat, a: Action, r: State, rest: seq<Action>)
    requires Covers(probe) && |s.slots| == MAX_THREADS && Closer(s, r, c) && Enabled(s, a) && a.c == c
    requires (s.calls[c].Freeing? ==> s.calls[c].slot < MAX_THREADS) && r == Apply(probe, s, a)
    requires Ends(probe, r, c, rest)
    ensures Ends(probe, s, c, [a] + rest)
  {
    FirstStep(probe, s, a, rest);
    TowardsOutcome(s.calls[c], s, r.calls[c], r, Final(probe, r, rest));
  }

  /** A call left to itself ends within `Remaining` steps, with that outcome. */
  lemma {:induction false} CallFinishes(probe: Order, s: State, c: nat) returns (more: seq<Action>)
    requires Inv(probe, s) && c < |s.calls|
    ensures Ends(probe, s, c, more)
    decreases Remaining(s.calls[c])
  {
    more := [];
    if s.calls[c] != Idle {
      var a, r := OnwardStep(probe, s, c);
      var rest := CallFinishes(probe, r, c);
      EndsSooner(probe, s, c, a, r, rest);
      more := [a] + rest;
    }
  }

  /** Wherever a run has got to, every call can end without help from the others. */
  lemma EveryCallCanEnd(hash: HashFunction, n: nat, run: seq<Action>, c: nat) returns (more: seq<Action>)
    requires Executes(ProbeOf(hash), Initial(n), run) && c < |Final(ProbeOf(hash), Initial(n), run).calls|
    ensures Ends(ProbeOf(hash), Final(ProbeOf(hash), Initial(n), run), c, more)
  {
    Reachable(hash, n, run);
    more := CallFinishes(ProbeOf(hash), Final(ProbeOf(hash), Initial(n), run), c);
  }
}

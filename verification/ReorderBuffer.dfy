/** The bounded reorder buffer of the pipeline viewer (`gem5/util/o3-pipeview.py`):
    instructions arrive in retirement order and are printed in fetch order. */
module ReorderBuffer {

  /** An instruction of the trace: sequence number, fetch tick, the latest tick of any of
      its lines, and its retirement tick, 0 if it was squashed. */
  datatype Inst = Inst(sn: nat, fetch: nat, latest: nat, retire: nat)

  /** The `insts` settings; 0 switches a bound off. */
  datatype Options = Options(minThreshold: nat, maxThreshold: nat, snStart: nat, snStop: nat,
                             tickStart: nat, tickStop: nat, drift: nat, onlyCommitted: bool)

  predicate Wanted(o: Options, x: Inst) {
    && (o.snStart > 0 ==> x.sn >= o.snStart) && (o.snStop > 0 ==> x.sn <= o.snStop)
    && (o.tickStart > 0 ==> x.fetch >= o.tickStart) && (o.tickStop > 0 ==> x.fetch <= o.tickStop)
    && (o.onlyCommitted ==> x.retire != 0)
  }

  /** A fetch that ends the region of interest. */
  predicate Stops(o: Options, x: Inst) {
    (o.tickStop > 0 && x.fetch > o.tickStop + o.drift) || (o.snStop > 0 && x.sn > o.snStop + o.maxThreshold)
  }

  // ------------------------------------------------------------------ stable sort

  /** `x` after everything that is not larger, seen from the end. */
  function Insert(s: seq<Inst>, x: Inst): (r: seq<Inst>) {
    if s == [] || s[|s| - 1].sn <= x.sn then s + [x] else Insert(s[..|s| - 1], x) + [s[|s| - 1]]
  }

  /** `list.sort` by sequence number. */
  function Sort(s: seq<Inst>): (r: seq<Inst>) {
    if s == [] then [] else Insert(Sort(s[..|s| - 1]), s[|s| - 1])
  }

  predicate Sorted(s: seq<Inst>) {
    forall i, j :: 0 <= i < j < |s| ==> s[i].sn <= s[j].sn
  }

  function Filter(s: seq<Inst>, p: Inst -> bool): (r: seq<Inst>) {
    if s == [] then []
    else if p(s[|s| - 1]) then Filter(s[..|s| - 1], p) + [s[|s| - 1]]
    else Filter(s[..|s| - 1], p)
  }

  lemma {:induction false} InsertSorted(s: seq<Inst>, x: Inst)
    requires Sorted(s)
    ensures |Insert(s, x)| == |s| + 1 && Sorted(Insert(s, x))
    ensures forall i :: 0 <= i < |Insert(s, x)| ==> Insert(s, x)[i] == x || Insert(s, x)[i] in s
    decreases |s|
  {
    if s != [] && s[|s| - 1].sn > x.sn {
      var rest, last := s[..|s| - 1], s[|s| - 1];
      InsertSorted(rest, x);
      forall i | 0 <= i < |s|
        ensures Insert(rest, x)[i].sn <= last.sn
      {
      }
    }
  }

  lemma {:induction false} SortSorted(s: seq<Inst>)
    ensures |Sort(s)| == |s| && Sorted(Sort(s))
    decreases |s|
  {
    if s != [] {
      SortSorted(s[..|s| - 1]);
      InsertSorted(Sort(s[..|s| - 1]), s[|s| - 1]);
    }
  }

  lemma FilterNext(s: seq<Inst>, x: Inst, p: Inst -> bool)
    ensures Filter(s + [x], p) == Filter(s, p) + if p(x) then [x] else []
  {
    assert (s + [x])[..|s|] == s;
  }

  lemma {:induction false} FilterSorted(s: seq<Inst>, p: Inst -> bool)
    requires Sorted(s)
    ensures Sorted(Filter(s, p)) && forall i :: 0 <= i < |Filter(s, p)| ==> Filter(s, p)[i] in s
    decreases |s|
  {
    if s != [] {
      FilterSorted(s[..|s| - 1], p);
      assert s == s[..|s| - 1] + [s[|s| - 1]];
    }
  }

  lemma {:induction false} InsertLast(s: seq<Inst>, x: Inst)
    requires forall i :: 0 <= i < |s| ==> s[i].sn <= x.sn
    ensures Insert(s, x) == s + [x]
  {}

  lemma {:induction false} FilterInsert(s: seq<Inst>, x: Inst, p: Inst -> bool)
    requires Sorted(s)
    ensures Filter(Insert(s, x), p) == if p(x) then Insert(Filter(s, p), x) else Filter(s, p)
    decreases |s|
  {
    if s == [] || s[|s| - 1].sn <= x.sn {
      FilterNext(s, x, p);
      FilterSorted(s, p);
      InsertLast(Filter(s, p), x);
    } else {
      var rest, last := s[..|s| - 1], s[|s| - 1];
      FilterInsert(rest, x, p);
      FilterNext(Insert(rest, x), last, p);
      assert s == rest + [last];
      if p(last) && p(x) {
        assert Filter(s, p) == Filter(rest, p) + [last] && Filter(s, p)[..|Filter(s, p)| - 1] == Filter(rest, p);
      }
    }
  }

  /** Filtering before or after sorting makes no difference. */
  lemma {:induction false} FilterSort(s: seq<Inst>, p: Inst -> bool)
    ensures Filter(Sort(s), p) == Sort(Filter(s, p))
    decreases |s|
  {
    if s != [] {
      var rest, last := s[..|s| - 1], s[|s| - 1];
      FilterSort(rest, p);
      SortSorted(rest);
      FilterInsert(Sort(rest), last, p);
      if p(last) {
        assert (Filter(rest, p) + [last])[..|Filter(rest, p)|] == Filter(rest, p);
      }
    }
  }

  lemma {:induction false} SortOfSorted(s: seq<Inst>)
    requires Sorted(s)
    ensures Sort(s) == s
    decreases |s|
  {
    if s != [] {
      SortOfSorted(s[..|s| - 1]);
      InsertLast(s[..|s| - 1], s[|s| - 1]);
      assert s == s[..|s| - 1] + [s[|s| - 1]];
    }
  }

  lemma {:induction false} FilterAll(s: seq<Inst>, p: Inst -> bool, sn: nat)
    requires p == ((x: Inst) => x.sn == sn)
    ensures forall i :: 0 <= i < |Filter(s, p)| ==> Filter(s, p)[i].sn == sn
    decreases |s|
  {
    if s != [] { FilterAll(s[..|s| - 1], p, sn); }
  }

  /** Stability: instructions with the same number keep their order. */
  lemma SortStable(s: seq<Inst>, sn: nat)
    ensures var p := (x: Inst) => x.sn == sn; Filter(Sort(s), p) == Filter(s, p)
  {
    var p := (x: Inst) => x.sn == sn;
    FilterSort(s, p);
    FilterAll(s, p, sn);
    SortOfSorted(Filter(s, p));
  }

  lemma {:induction false} InsertPermutes(s: seq<Inst>, x: Inst)
    ensures multiset(Insert(s, x)) == multiset(s) + multiset{x}
    decreases |s|
  {
    if s != [] && s[|s| - 1].sn > x.sn {
      InsertPermutes(s[..|s| - 1], x);
      assert s == s[..|s| - 1] + [s[|s| - 1]];
    }
  }

  lemma {:induction false} SortPermutes(s: seq<Inst>)
    ensures multiset(Sort(s)) == multiset(s)
    decreases |s|
  {
    if s != [] {
      SortPermutes(s[..|s| - 1]);
      InsertPermutes(Sort(s[..|s| - 1]), s[|s| - 1]);
      assert s == s[..|s| - 1] + [s[|s| - 1]];
    }
  }

  // ------------------------------------------------------------- how far out of order

  /** How many have a larger number. */
  function Larger(s: seq<Inst>, sn: nat): (n: nat)
    ensures n <= |s|
  {
    if s == [] then 0 else Larger(s[..|s| - 1], sn) + if s[|s| - 1].sn > sn then 1 else 0
  }

  /** No instruction is preceded by more than `n` with a larger number. */
  ghost predicate OutOfOrderBy(s: seq<Inst>, n: nat) {
    forall k :: 0 <= k < |s| ==> Larger(s[..k], s[k].sn) <= n
  }

  lemma LargerNext(s: seq<Inst>, x: Inst, sn: nat)
    ensures Larger(s + [x], sn) == Larger(s, sn) + if x.sn > sn then 1 else 0
  {
    assert (s + [x])[..|s|] == s;
  }

  lemma {:induction false} LargerInsert(s: seq<Inst>, x: Inst, sn: nat)
    ensures Larger(Insert(s, x), sn) == Larger(s, sn) + if x.sn > sn then 1 else 0
    decreases |s|
  {
    if s == [] || s[|s| - 1].sn <= x.sn {
      LargerNext(s, x, sn);
    } else {
      LargerInsert(s[..|s| - 1], x, sn);
      LargerNext(Insert(s[..|s| - 1], x), s[|s| - 1], sn);
    }
  }

  lemma {:induction false} LargerSort(s: seq<Inst>, sn: nat)
    ensures Larger(Sort(s), sn) == Larger(s, sn)
    decreases |s|
  {
    if s != [] {
      LargerSort(s[..|s| - 1], sn);
      LargerInsert(Sort(s[..|s| - 1]), s[|s| - 1], sn);
    }
  }

  /** In a sorted list everything from a larger one on is larger. */
  lemma {:induction false} LargerSuffix(s: seq<Inst>, i: nat, sn: nat)
    requires Sorted(s) && i < |s| && s[i].sn > sn
    ensures Larger(s, sn) >= |s| - i
    decreases |s|
  {
    if i < |s| - 1 {
      LargerSuffix(s[..|s| - 1], i, sn);
    }
  }

  // --------------------------------------------------------------------- the buffer

  /** An instruction at least as large as all of `p` is inserted behind them. */
  lemma {:induction false} InsertBehind(p: seq<Inst>, s: seq<Inst>, x: Inst)
    requires forall i :: 0 <= i < |p| ==> p[i].sn <= x.sn
    ensures Insert(p + s, x) == p + Insert(s, x)
    decreases |s|
  {
    if s == [] {
      assert p + s == p && p + [x] == p + (s + [x]);
      InsertLast(p, x);
    } else {
      assert (p + s)[|p + s| - 1] == s[|s| - 1] && (p + s)[..|p + s| - 1] == p + s[..|s| - 1];
      if s[|s| - 1].sn > x.sn {
        InsertBehind(p, s[..|s| - 1], x);
        assert p + Insert(s[..|s| - 1], x) + [s[|s| - 1]] == p + (Insert(s[..|s| - 1], x) + [s[|s| - 1]]);
      } else {
        assert p + s + [x] == p + (s + [x]);
      }
    }
  }

  /** What has been taken out is in place for good, provided the buffer still holds
      `minThreshold` instructions: a later one that belonged before would be preceded by
      all of those and one more. */
  ghost predicate Ordered(seen: seq<Inst>, drained: seq<Inst>, queue: seq<Inst>, n: nat) {
    drained + Sort(queue) == Sort(seen) && (drained != [] ==> |queue| >= n)
  }

  lemma DrainedNotLarger(seen: seq<Inst>, drained: seq<Inst>, queue: seq<Inst>, n: nat, x: Inst, i: nat)
    requires Ordered(seen, drained, queue, n) && Larger(seen, x.sn) <= n && i < |drained|
    ensures drained[i].sn <= x.sn
  {
    var all := Sort(seen);
    SortSorted(seen);
    SortSorted(queue);
    LargerSort(seen, x.sn);
    assert drained[i] == all[i];
    if all[i].sn > x.sn { LargerSuffix(all, i, x.sn); }
  }

  lemma NextIsBehind(seen: seq<Inst>, drained: seq<Inst>, queue: seq<Inst>, n: nat, x: Inst)
    requires Ordered(seen, drained, queue, n) && Larger(seen, x.sn) <= n
    ensures Ordered(seen + [x], drained, queue + [x], n)
  {
    forall i | 0 <= i < |drained|
      ensures drained[i].sn <= x.sn
    {
      DrainedNotLarger(seen, drained, queue, n, x, i);
    }
    InsertBehind(drained, Sort(queue), x);
    assert (seen + [x])[..|seen|] == seen && (queue + [x])[..|queue|] == queue;
  }

  lemma DrainOne(drained: seq<Inst>, queue: seq<Inst>)
    requires queue != [] && Sorted(queue)
    ensures Sorted(queue[1..]) && drained + [queue[0]] + queue[1..] == drained + queue
  {}

  /** The viewer's queue, and what it has printed. */
  class Viewer {
    const options: Options
    var queue: seq<Inst>
    var printed: seq<Inst>
    /** The instructions queued so far, and those taken out again. */
    ghost var seen: seq<Inst>
    ghost var drained: seq<Inst>

    /** Whatever the order of the trace, nothing is lost or repeated. */
    ghost predicate Valid()
      reads this
    {
      multiset(drained + queue) == multiset(seen) && printed == Filter(drained, x => Wanted(options, x))
    }

    ghost predicate InOrder()
      reads this
    {
      Ordered(seen, drained, queue, options.minThreshold)
    }

    constructor (options: Options)
      ensures Valid() && InOrder() && this.options == options && queue == [] && printed == [] && seen == []
    {
      this.options := options;
      queue, printed, seen, drained := [], [], [], [];
    }

    /** `print_insts`: sorts the queue and prints from its front down to the threshold. */
    method PrintInsts(lower: nat)
      requires Valid()
      modifies this
      ensures Valid() && seen == old(seen) && drained + Sort(queue) == old(drained + Sort(queue))
      ensures |queue| == if |old(queue)| > lower then lower else |old(queue)|
      ensures |queue| == |old(queue)| ==> drained == old(drained)
      ensures forall x :: x in printed ==> WithinBounds(options, x)
    {
      SortSorted(queue);
      SortPermutes(queue);
      ghost var goal := drained + Sort(queue);
      assert multiset(goal) == multiset(drained + queue);
      queue := Sort(queue);
      while |queue| > lower
        invariant printed == Filter(drained, x => Wanted(options, x)) && seen == old(seen)
        invariant Sorted(queue) && drained + queue == goal && |queue| <= |old(queue)|
        invariant |queue| >= if |old(queue)| > lower then lower else |old(queue)|
        invariant |queue| == |old(queue)| ==> drained == old(drained)
        decreases |queue|
      {
        var item := queue[0];
        DrainOne(drained, queue);
        FilterNext(drained, item, x => Wanted(options, x));
        queue := queue[1..];
        drained := drained + [item];
        if Wanted(options, item) {
          printed := printed + [item];
        }
      }
      SortOfSorted(queue);
      PrintedWithin(drained, options);
    }

    /** `queue_inst`. */
    method QueueInst(inst: Inst)
      requires Valid()
      modifies this
      ensures Valid() && seen == old(seen) + [inst]
      ensures old(InOrder()) && Larger(old(seen), inst.sn) <= options.minThreshold ==> InOrder()
    {
      if InOrder() && Larger(seen, inst.sn) <= options.minThreshold {
        NextIsBehind(seen, drained, queue, options.minThreshold, inst);
      }
      queue, seen := queue + [inst], seen + [inst];
      assert drained + queue == drained + old(queue) + [inst];
      if |queue| > options.maxThreshold {
        PrintInsts(options.minThreshold);
      }
    }

    /** The main loop: queues instructions up to the first fetch that ends the region. */
    method QueueRegion(trace: seq<Inst>, start: nat) returns (i: nat)
      requires Valid() && InOrder() && seen == [] && start <= |trace|
      modifies this
      ensures Valid() && i == StopFrom(options, trace, start) && seen == trace[start..i]
      ensures OutOfOrderBy(trace, options.minThreshold) ==> InOrder()
    {
      i := start;
      while i < |trace| && !Stops(options, trace[i])
        invariant start <= i <= |trace| && Valid() && seen == trace[start..i]
        invariant StopFrom(options, trace, start) == StopFrom(options, trace, i)
        invariant OutOfOrderBy(trace, options.minThreshold) ==> InOrder()
      {
        LargerWithin(trace, start, i);
        SliceNext(trace, start, i);
        QueueInst(trace[i]);
        i := i + 1;
      }
    }

    /** `process_trace`. At a fetch past the end of the region the code means to print the
        rest, but calls `print_insts` with one argument too few, which raises an exception;
        `repaired` tells whether it printed instead. */
    method ProcessTrace(trace: seq<Inst>, repaired: bool) returns (raised: bool)
      requires Valid() && InOrder() && seen == []
      modifies this
      ensures Valid() && seen == Region(options, trace) && (raised <==> !repaired && StopsEarly(options, trace))
      ensures !raised ==> multiset(printed) == multiset(Filter(Region(options, trace), x => Wanted(options, x)))
      ensures OutOfOrderBy(trace, options.minThreshold) ==>
                var all := Sort(Filter(Region(options, trace), x => Wanted(options, x)));
                printed <= all && (!raised ==> printed == all)
      ensures forall x :: x in printed ==> x in Region(options, trace) && WithinBounds(options, x)
      ensures !raised ==> forall x :: x in Region(options, trace) && x !in printed ==> !WithinBounds(options, x)
    {
      var start := FindStart(options, trace);
      var i := QueueRegion(trace, start);
      if i < |trace| && !repaired {
        if InOrder() {
          PrintedSoFar(drained, queue, seen, options);
        }
        PrintedIff(drained, queue, seen, options);
        return true;
      }
      PrintInsts(0);
      AllPrinted(drained, queue, seen, options);
      PrintedIff(drained, queue, seen, options);
      return false;
    }
  }

  lemma SliceNext(trace: seq<Inst>, start: nat, i: nat)
    requires start <= i < |trace|
    ensures trace[start..i + 1] == trace[start..i] + [trace[i]]
  {}

  /** The five bounds, one by one. */
  ghost predicate WithinBounds(o: Options, x: Inst) {
    && !(o.snStart != 0 && x.sn < o.snStart)
    && !(o.snStop != 0 && x.sn > o.snStop)
    && !(o.tickStart != 0 && x.fetch < o.tickStart)
    && !(o.tickStop != 0 && x.fetch > o.tickStop)
    && !(o.onlyCommitted && x.retire == 0)
  }

  lemma {:induction false} FilterMembers(s: seq<Inst>, p: Inst -> bool, x: Inst)
    ensures x in Filter(s, p) <==> x in s && p(x)
    decreases |s|
  {
    if s != [] { FilterMembers(s[..|s| - 1], p, x); }
  }

  lemma PrintedWithin(drained: seq<Inst>, o: Options)
    ensures forall x :: x in Filter(drained, x => Wanted(o, x)) <==> x in drained && WithinBounds(o, x)
  {
    forall x
      ensures x in Filter(drained, x => Wanted(o, x)) <==> x in drained && WithinBounds(o, x)
    {
      FilterMembers(drained, x => Wanted(o, x), x);
    }
  }

  /** Exactly the instructions within the bounds are printed of those taken out. */
  lemma PrintedIff(drained: seq<Inst>, queue: seq<Inst>, seen: seq<Inst>, o: Options)
    requires multiset(drained + queue) == multiset(seen)
    ensures forall x :: x in Filter(drained, x => Wanted(o, x)) ==> x in seen && WithinBounds(o, x)
    ensures |queue| == 0 ==>
              forall x :: x in seen && x !in Filter(drained, x => Wanted(o, x)) ==> !WithinBounds(o, x)
  {
    PrintedWithin(drained, o);
    forall x
      ensures x in drained || x in queue <==> x in seen
    {
      assert x in drained + queue <==> x in multiset(drained + queue);
      assert x in seen <==> x in multiset(seen);
    }
  }

  /** What was taken out in order is the front of the result. */
  lemma PrintedSoFar(drained: seq<Inst>, queue: seq<Inst>, seen: seq<Inst>, o: Options)
    requires drained + Sort(queue) == Sort(seen)
    ensures var p := (x: Inst) => Wanted(o, x); Filter(drained, p) <= Sort(Filter(seen, p))
  {
    var p := (x: Inst) => Wanted(o, x);
    FilterJoin(drained, Sort(queue), p);
    FilterSort(seen, p);
  }

  lemma AllPrinted(drained: seq<Inst>, queue: seq<Inst>, seen: seq<Inst>, o: Options)
    requires |queue| == 0 && multiset(drained + queue) == multiset(seen)
    ensures var p := (x: Inst) => Wanted(o, x); multiset(Filter(drained, p)) == multiset(Filter(seen, p))
    ensures drained + Sort(queue) == Sort(seen) ==>
              var p := (x: Inst) => Wanted(o, x); Filter(drained, p) == Sort(Filter(seen, p))
  {
    var p := (x: Inst) => Wanted(o, x);
    assert drained + queue == drained && Sort(queue) == [];
    FilterBag(drained, seen, p);
    if drained + Sort(queue) == Sort(seen) {
      assert drained + Sort(queue) == drained;
      FilterSort(seen, p);
    }
  }

  lemma {:induction false} FilterCount(s: seq<Inst>, p: Inst -> bool, x: Inst)
    ensures multiset(Filter(s, p))[x] == if p(x) then multiset(s)[x] else 0
    decreases |s|
  {
    if s != [] {
      FilterCount(s[..|s| - 1], p, x);
      assert s == s[..|s| - 1] + [s[|s| - 1]];
    }
  }

  lemma FilterBag(s: seq<Inst>, t: seq<Inst>, p: Inst -> bool)
    requires multiset(s) == multiset(t)
    ensures multiset(Filter(s, p)) == multiset(Filter(t, p))
  {
    forall x: Inst
      ensures multiset(Filter(s, p))[x] == multiset(Filter(t, p))[x]
    {
      FilterCount(s, p, x);
      FilterCount(t, p, x);
    }
  }

  // ------------------------------------------------------------ the region of interest

  predicate Reaches(x: Inst, tick: nat) {
    x.fetch >= tick || x.latest >= tick
  }

  /** The first instruction from `i` on with a line at or after the starting tick. */
  function FirstTick(o: Options, trace: seq<Inst>, i: nat): (r: nat)
    requires i <= |trace|
    ensures i <= r <= |trace| && forall k :: i <= k < r ==> !Reaches(trace[k], o.tickStart)
    ensures r < |trace| ==> Reaches(trace[r], o.tickStart)
    decreases |trace| - i
  {
    if i == |trace| || Reaches(trace[i], o.tickStart) then i else FirstTick(o, trace, i + 1)
  }

  function FirstSn(o: Options, trace: seq<Inst>, i: nat): (r: nat)
    requires i <= |trace|
    ensures i <= r <= |trace| && forall k :: i <= k < r ==> trace[k].sn < o.snStart
    decreases |trace| - i
  {
    if i == |trace| || trace[i].sn >= o.snStart then i else FirstSn(o, trace, i + 1)
  }

  /** Where the main loop starts: the first fetch after the lines skipped. */
  function Start(o: Options, trace: seq<Inst>): (r: nat)
    ensures r <= |trace|
  {
    if o.tickStart != 0 then
      var i := FirstTick(o, trace, 0);
      if i < |trace| && trace[i].fetch < o.tickStart then i + 1 else i
    else if o.snStart != 0 then FirstSn(o, trace, 0)
    else 0
  }

  /** The lines before instruction `i` are skipped, and no more: with a starting tick, all
      fetches there are earlier, and all lines but those of the last instruction; with a
      starting number only, all numbers there are smaller. */
  ghost predicate StartsAt(o: Options, trace: seq<Inst>, i: nat) {
    && i <= |trace|
    && if o.tickStart != 0 then
         && (forall k :: 0 <= k < i ==> trace[k].fetch < o.tickStart)
         && (forall k :: 0 <= k < i - 1 ==> trace[k].latest < o.tickStart)
         && (i < |trace| && (i == 0 || trace[i - 1].latest < o.tickStart) ==> trace[i].fetch >= o.tickStart)
       else if o.snStart != 0 then
         (forall k :: 0 <= k < i ==> trace[k].sn < o.snStart) && (i < |trace| ==> trace[i].sn >= o.snStart)
       else i == 0
  }

  /** There is one such place. */
  lemma OneStart(o: Options, trace: seq<Inst>, i: nat)
    ensures StartsAt(o, trace, i) <==> i == Start(o, trace)
  {
    StartIs(o, trace);
  }

  lemma {:induction false} FirstSnIs(o: Options, trace: seq<Inst>, i: nat)
    requires i <= |trace|
    ensures FirstSn(o, trace, i) < |trace| ==> trace[FirstSn(o, trace, i)].sn >= o.snStart
    decreases |trace| - i
  {
    if i < |trace| && trace[i].sn < o.snStart { FirstSnIs(o, trace, i + 1); }
  }

  lemma StartIs(o: Options, trace: seq<Inst>)
    ensures StartsAt(o, trace, Start(o, trace))
  {
    FirstSnIs(o, trace, 0);
  }

  method FindStart(o: Options, trace: seq<Inst>) returns (i: nat)
    ensures i == Start(o, trace) && StartsAt(o, trace, i)
  {
    StartIs(o, trace);
    i := 0;
    if o.tickStart != 0 {
      while i < |trace| && !Reaches(trace[i], o.tickStart)
        invariant i <= |trace| && FirstTick(o, trace, 0) == FirstTick(o, trace, i)
      {
        i := i + 1;
      }
      if i < |trace| && trace[i].fetch < o.tickStart {
        i := i + 1;
      }
    } else if o.snStart != 0 {
      while i < |trace| && trace[i].sn < o.snStart
        invariant i <= |trace| && FirstSn(o, trace, 0) == FirstSn(o, trace, i)
      {
        i := i + 1;
      }
    }
  }

  function StopFrom(o: Options, trace: seq<Inst>, i: nat): (r: nat)
    requires i <= |trace|
    ensures i <= r <= |trace| && forall k :: i <= k < r ==> !Stops(o, trace[k])
    decreases |trace| - i
  {
    if i == |trace| || Stops(o, trace[i]) then i else StopFrom(o, trace, i + 1)
  }

  function Stop(o: Options, trace: seq<Inst>): (r: nat)
    ensures Start(o, trace) <= r <= |trace|
  {
    StopFrom(o, trace, Start(o, trace))
  }

  predicate StopsEarly(o: Options, trace: seq<Inst>) {
    Stop(o, trace) < |trace|
  }

  function Region(o: Options, trace: seq<Inst>): (r: seq<Inst>) {
    trace[Start(o, trace)..Stop(o, trace)]
  }

  lemma {:induction false} LargerJoin(s: seq<Inst>, t: seq<Inst>, sn: nat)
    ensures Larger(s + t, sn) == Larger(s, sn) + Larger(t, sn)
    decreases |t|
  {
    if t == [] {
      assert s + t == s;
    } else {
      assert (s + t)[..|s + t| - 1] == s + t[..|t| - 1];
      LargerJoin(s, t[..|t| - 1], sn);
    }
  }

  lemma LargerWithin(trace: seq<Inst>, start: nat, i: nat)
    requires start <= i < |trace|
    ensures Larger(trace[start..i], trace[i].sn) <= Larger(trace[..i], trace[i].sn)
  {
    assert trace[..i] == trace[..start] + trace[start..i];
    LargerJoin(trace[..start], trace[start..i], trace[i].sn);
  }

  lemma {:induction false} FilterJoin(s: seq<Inst>, t: seq<Inst>, p: Inst -> bool)
    ensures Filter(s + t, p) == Filter(s, p) + Filter(t, p)
    decreases |t|
  {
    if t == [] {
      assert s + t == s;
    } else {
      assert (s + t)[..|s + t| - 1] == s + t[..|t| - 1];
      FilterJoin(s, t[..|t| - 1], p);
    }
  }

  lemma {:induction false} FilterNone(s: seq<Inst>, p: Inst -> bool)
    requires forall i :: 0 <= i < |s| ==> !p(s[i])
    ensures Filter(s, p) == []
    decreases |s|
  {
    if s != [] { FilterNone(s[..|s| - 1], p); }
  }

  lemma {:induction false} ThreeParts(trace: seq<Inst>, a: nat, k: nat, p: Inst -> bool)
    requires a <= k <= |trace|
    ensures Filter(trace, p) == Filter(trace[..a], p) + Filter(trace[a..k], p) + Filter(trace[k..], p)
  {
    assert trace == trace[..a] + trace[a..k] + trace[k..];
    FilterJoin(trace[..a] + trace[a..k], trace[k..], p);
    FilterJoin(trace[..a], trace[a..k], p);
  }

  /** Skipping to the start loses nothing. */
  lemma SkippingLosesNothing(o: Options, trace: seq<Inst>)
    ensures Filter(trace[..Start(o, trace)], x => Wanted(o, x)) == []
  {
    FilterNone(trace[..Start(o, trace)], x => Wanted(o, x));
  }

  lemma SortedAlike(s: seq<Inst>, rest: seq<Inst>)
    ensures Sort(s) == Sort(s + rest) <==> rest == []
  {
    SortSorted(s);
    SortSorted(s + rest);
    if rest == [] {
      assert s + rest == s;
    }
  }

  /** Stopping early loses exactly what is wanted of the rest. So what is printed is the
      sorted, filtered trace if and only if nothing wanted comes at or after the stopping
      fetch. */
  lemma CompleteIffNothingWantedLater(o: Options, trace: seq<Inst>)
    ensures var p := (x: Inst) => Wanted(o, x);
            Sort(Filter(Region(o, trace), p)) == Sort(Filter(trace, p)) <==> Filter(trace[Stop(o, trace)..], p) == []
  {
    var p := (x: Inst) => Wanted(o, x);
    var a, k := Start(o, trace), Stop(o, trace);
    ThreeParts(trace, a, k, p);
    SkippingLosesNothing(o, trace);
    assert Filter(trace, p) == Filter(trace[a..k], p) + Filter(trace[k..], p);
    SortedAlike(Filter(trace[a..k], p), Filter(trace[k..], p));
  }

  /** It does happen, for every stopping number: a trace out of order by one place whose
      wanted instruction is never printed. */
  lemma StoppingLosesInstruction(o: Options)
    requires o.snStop > 0 && o.minThreshold >= 1 && o.snStart == o.tickStart == o.tickStop == 0
    ensures var trace := [Inst(o.snStop + o.maxThreshold + 1, 0, 0, 1), Inst(o.snStop, 0, 0, 1)];
            && OutOfOrderBy(trace, o.minThreshold) && Wanted(o, trace[1])
            && Sort(Filter(Region(o, trace), x => Wanted(o, x))) == []
  {
    var trace := [Inst(o.snStop + o.maxThreshold + 1, 0, 0, 1), Inst(o.snStop, 0, 0, 1)];
    assert Stop(o, trace) == 0;
    forall k | 0 <= k < |trace|
      ensures Larger(trace[..k], trace[k].sn) <= o.minThreshold
    {
      assert |trace[..k]| <= 1;
    }
  }

  /** Every instruction is within `d` places of where its number belongs. */
  ghost predicate Displaced(trace: seq<Inst>, base: int, d: nat) {
    forall i :: 0 <= i < |trace| ==> base + i - d <= trace[i].sn <= base + i + d
  }

  lemma {:induction false} StopsThere(o: Options, trace: seq<Inst>, i: nat)
    requires i <= |trace|
    ensures StopFrom(o, trace, i) < |trace| ==> Stops(o, trace[StopFrom(o, trace, i)])
    decreases |trace| - i
  {
    if i < |trace| && !Stops(o, trace[i]) { StopsThere(o, trace, i + 1); }
  }

  /** No fetch comes more than `d` ticks after a later one in the trace. */
  ghost predicate Delayed(trace: seq<Inst>, d: nat) {
    forall i, j :: 0 <= i < j < |trace| ==> trace[i].fetch <= trace[j].fetch + d
  }

  ghost predicate SafeForTicks(o: Options, d: nat) {
    forall trace :: Delayed(trace, d) ==> Filter(trace[Stop(o, trace)..], x => Wanted(o, x)) == []
  }

  /** When stopping at a tick is safe: exactly if no fetch is out of order by more ticks
      than the drift. */
  lemma TickStoppingSafeIff(o: Options, d: nat)
    requires o.tickStop > 0 && o.tickStart <= o.tickStop && o.snStart == o.snStop == 0
    ensures SafeForTicks(o, d) <==> d <= o.drift
  {
    if d <= o.drift {
      forall trace | Delayed(trace, d)
        ensures Filter(trace[Stop(o, trace)..], x => Wanted(o, x)) == []
      {
        LaterFetches(o, trace, d);
      }
    } else {
      var trace := DelayedLoses(o, d);
    }
  }

  lemma DelayedLoses(o: Options, d: nat) returns (trace: seq<Inst>)
    requires o.tickStop > 0 && o.tickStart <= o.tickStop && o.snStart == o.snStop == 0 && d > o.drift
    ensures Delayed(trace, d) && Filter(trace[Stop(o, trace)..], x => Wanted(o, x)) != []
  {
    trace := [Inst(1, o.tickStop + o.drift + 1, 0, 1), Inst(0, o.tickStop, 0, 1)];
    assert Start(o, trace) == 0 && Stop(o, trace) == 0 && trace[0..] == trace;
    assert trace[..1] + [trace[1]] == trace;
    FilterNext(trace[..1], trace[1], x => Wanted(o, x));
  }

  lemma LaterFetches(o: Options, trace: seq<Inst>, d: nat)
    requires o.tickStop > 0 && o.snStop == 0 && Delayed(trace, d) && d <= o.drift
    ensures Filter(trace[Stop(o, trace)..], x => Wanted(o, x)) == []
  {
    var k := Stop(o, trace);
    StopsThere(o, trace, Start(o, trace));
    forall i | 0 <= i < |trace[k..]|
      ensures !Wanted(o, trace[k..][i])
    {
      assert trace[k..][i] == trace[k + i] && (i > 0 ==> trace[k].fetch <= trace[k + i].fetch + d);
    }
    FilterNone(trace[k..], x => Wanted(o, x));
  }

  /** Whatever comes after the stopping fetch is larger than the last number wanted. */
  lemma StoppingLosesNothing(o: Options, trace: seq<Inst>, base: int, d: nat)
    requires o.tickStop == 0 && Displaced(trace, base, d) && 2 * d <= o.maxThreshold + 1
    ensures Filter(trace[Stop(o, trace)..], x => Wanted(o, x)) == []
  {
    var k := Stop(o, trace);
    StopsThere(o, trace, Start(o, trace));
    forall i | 0 <= i < |trace[k..]|
      ensures !Wanted(o, trace[k..][i])
    {
      assert trace[k..][i] == trace[k + i] && trace[k].sn <= base + k + d && base + (k + i) - d <= trace[k + i].sn;
    }
    FilterNone(trace[k..], x => Wanted(o, x));
  }

  /** Beyond that, two instructions displaced towards each other lose the second one. */
  lemma DisplacedLoses(o: Options, d: nat) returns (trace: seq<Inst>, base: int)
    requires o.snStop > 0 && o.snStart <= o.snStop && o.tickStart == o.tickStop == 0 && 2 * d > o.maxThreshold + 1
    ensures Displaced(trace, base, d) && Filter(trace[Stop(o, trace)..], x => Wanted(o, x)) != []
  {
    base := o.snStop + d - 1;
    trace := [Inst(o.snStop + 2 * d - 1, 0, 0, 1), Inst(o.snStop, 0, 0, 1)];
    assert Stop(o, trace) == 0 && trace[0..] == trace;
    assert trace[..1] + [trace[1]] == trace;
    FilterNext(trace[..1], trace[1], x => Wanted(o, x));
  }

  /** No trace that is out of place by at most `d` loses anything. */
  ghost predicate SafeFor(o: Options, d: nat) {
    forall trace, base :: Displaced(trace, base, d) ==> Filter(trace[Stop(o, trace)..], x => Wanted(o, x)) == []
  }

  /** When stopping at a sequence number is safe: exactly if twice the displacement is at
      most one above the maximum threshold. The defaults meet it. */
  lemma StoppingSafeIff(o: Options, d: nat)
    requires o.snStop > 0 && o.snStart <= o.snStop && o.tickStart == o.tickStop == 0
    ensures SafeFor(o, d) <==> 2 * d <= o.maxThreshold + 1
  {
    if 2 * d <= o.maxThreshold + 1 {
      forall trace, base | Displaced(trace, base, d)
        ensures Filter(trace[Stop(o, trace)..], x => Wanted(o, x)) == []
      {
        StoppingLosesNothing(o, trace, base, d);
      }
    } else {
      var trace, base := DisplacedLoses(o, d);
    }
  }
}

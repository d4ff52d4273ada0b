/** The numbers a run of new-order requests hands out, and which orders are still in the
    tables after it (`new_orders`, `janus_workload/TPCC/tpcc_nvm.cc`; `tpcc_db.cc`). */
module TpccHistory {
  import opened TpccRequest
  import opened TpccFields
  import opened TpccRuns

  predicate SameDistrict(r: Request, q: Request) {
    r.w == q.w && r.d == q.d
  }

  predicate WellNumbered(r: Request, o: int) {
    1 <= r.w && 1 <= r.d <= 10 && 1 <= o <= 15 && |r.items| <= 15
  }

  /** The counter a request finds. */
  function CounterOf(s: State, r: Request): (c: nat)
    requires 0 <= 10 * (r.w - 1) + r.d - 1 < |s.counters|
  {
    s.counters[10 * (r.w - 1) + r.d - 1]
  }

  /** Request `j` leads from the one state to the next. */
  ghost predicate Link(states: seq<State>, requests: seq<Request>, ni: nat, j: nat)
    requires |states| == |requests| + 1 && j < |requests|
  {
    var s, e, r := states[j], states[j + 1], requests[j];
    && 0 <= 10 * (r.w - 1) + r.d - 1 < |s.counters|
    && WellNumbered(r, OrderId(CounterOf(s, r))) && OrderPlaced(s, e, r, OrderId(CounterOf(s, r)), ni)
  }

  /** A run: the states between its requests. */
  ghost predicate Chain(states: seq<State>, requests: seq<Request>, ni: nat) {
    |states| == |requests| + 1 && forall j :: 0 <= j < |requests| ==> Link(states, requests, ni, j)
  }

  /** The number request `j` gets. */
  ghost function NumberOf(states: seq<State>, requests: seq<Request>, ni: nat, j: nat): (o: nat)
    requires Chain(states, requests, ni) && j < |requests|
    ensures WellNumbered(requests[j], o)
  {
    assert Link(states, requests, ni, j);
    OrderId(CounterOf(states[j], requests[j]))
  }

  /** How many of the requests from `i` up to `j` are for the district of `r`. */
  function Orders(requests: seq<Request>, r: Request, i: nat, j: nat): (n: nat)
    requires i <= j <= |requests|
    decreases j
  {
    if i == j then 0 else Orders(requests, r, i, j - 1) + if SameDistrict(requests[j - 1], r) then 1 else 0
  }

  lemma {:induction false} AtLeastItself(requests: seq<Request>, i: nat, j: nat)
    requires i < j <= |requests|
    ensures Orders(requests, requests[i], i, j) >= 1
    decreases j
  {
    if i + 1 < j {
      AtLeastItself(requests, i, j - 1);
    }
  }

  // ------------------------------------------------------------------------ numbers

  lemma LinkCounts(states: seq<State>, requests: seq<Request>, ni: nat, j: nat, r: Request)
    requires Chain(states, requests, ni) && j < |requests| && 1 <= r.w && 1 <= r.d <= 10
    requires 0 <= 10 * (r.w - 1) + r.d - 1 < |states[j].counters|
    ensures |states[j + 1].counters| == |states[j].counters|
    ensures CounterOf(states[j + 1], r) == CounterOf(states[j], r) + if SameDistrict(requests[j], r) then 1 else 0
  {
    assert Link(states, requests, ni, j);
  }

  /** A district's counter counts that district's orders. */
  lemma {:induction false} CountersCount(states: seq<State>, requests: seq<Request>, ni: nat, r: Request,
                                         i: nat, j: nat)
    requires Chain(states, requests, ni) && i <= j <= |requests| && 1 <= r.w && 1 <= r.d <= 10
    requires 0 <= 10 * (r.w - 1) + r.d - 1 < |states[i].counters|
    ensures |states[j].counters| == |states[i].counters|
    ensures CounterOf(states[j], r) == CounterOf(states[i], r) + Orders(requests, r, i, j)
    decreases j
  {
    if i < j {
      CountersCount(states, requests, ni, r, i, j - 1);
      LinkCounts(states, requests, ni, j - 1, r);
    }
  }

  /** Two orders of a district share a number exactly when a multiple of fifteen orders of
      that district lie from the one up to the other. */
  lemma NumbersRepeatIff(states: seq<State>, requests: seq<Request>, ni: nat, i: nat, j: nat)
    requires Chain(states, requests, ni) && i <= j < |requests| && SameDistrict(requests[i], requests[j])
    ensures NumberOf(states, requests, ni, i) == NumberOf(states, requests, ni, j) <==>
            Orders(requests, requests[i], i, j) % 15 == 0
  {
    var r := requests[i];
    assert Link(states, requests, ni, i);
    CountersCount(states, requests, ni, r, i, j);
    SameNumberIff(CounterOf(states[i], r), CounterOf(states[j], r));
  }

  /** Any fifteen consecutive orders of one district have different numbers and rows. */
  lemma FifteenApart(states: seq<State>, requests: seq<Request>, ni: nat, i: nat, j: nat)
    requires Chain(states, requests, ni) && i < j < |requests| && SameDistrict(requests[i], requests[j])
    requires Orders(requests, requests[i], i, j) < 15
    ensures NumberOf(states, requests, ni, i) != NumberOf(states, requests, ni, j)
    ensures RowsApart(requests[i], NumberOf(states, requests, ni, i), requests[j], NumberOf(states, requests, ni, j))
  {
    AtLeastItself(requests, i, j);
    NumbersRepeatIff(states, requests, ni, i, j);
    OtherRows(requests[i], NumberOf(states, requests, ni, i), requests[j], NumberOf(states, requests, ni, j));
  }

  /** No row of the one order is a row of the other. */
  ghost predicate RowsApart(r: Request, o: int, q: Request, p: int) {
    && NewOrderRowNumber(r, o) != NewOrderRowNumber(q, p) && OrderRowNumber(r, o) != OrderRowNumber(q, p)
    && (|| LineRowNumber(r, o) + |r.items| <= LineRowNumber(q, p)
        || LineRowNumber(q, p) + |q.items| <= LineRowNumber(r, o))
  }

  lemma OtherRows(r: Request, o: int, q: Request, p: int)
    requires WellNumbered(r, o) && WellNumbered(q, p) && (!SameDistrict(r, q) || o != p)
    ensures RowsApart(r, o, q, p)
  {
    if NewOrderRowNumber(r, o) == NewOrderRowNumber(q, p) {
      NewOrderDigits(r.w, r.d, o, q.w, q.d, p);
    }
    LineDigits(r.w, r.d, o, q.w, q.d, p);
  }

  lemma LineDigits(w: int, d: int, o: int, x: int, e: int, p: int)
    requires 1 <= w && 1 <= d <= 10 && 1 <= o <= 15 && 1 <= x && 1 <= e <= 10 && 1 <= p <= 15
    ensures var i := 450000 * (w - 1) + 45000 * (d - 1) + 15 * (o - 1);
            var j := 450000 * (x - 1) + 45000 * (e - 1) + 15 * (p - 1);
            i + 15 <= j || j + 15 <= i || (w == x && d == e && o == p)
  {
    if w < x {
      assert 450000 * (w - 1) + 450000 <= 450000 * (x - 1);
    } else if w == x && d < e {
      assert 45000 * (d - 1) + 45000 <= 45000 * (e - 1);
    }
  }

  // ------------------------------------------------------------ orders still on file

  /** All rows of the order are in the tables. */
  ghost predicate OnFile(e: State, r: Request, o: int) {
    && (var i := NewOrderRowNumber(r, o); 0 <= i < |e.db.newOrders| && NewOrderFields(e.db.newOrders[i], r, o))
    && (var i := OrderRowNumber(r, o); 0 <= i < |e.db.orders| && OrderFields(e.db.orders[i], r, o))
    && forall k :: 0 <= k < |r.items| ==> LineOnFile(e, r, o, k)
  }

  ghost predicate LineOnFile(e: State, r: Request, o: int, k: nat) {
    var i := LineRowNumber(r, o) + k; 0 <= i < |e.lines| && LineFields(e.lines[i], r, o, k)
  }

  lemma PlacedOnFile(s: State, e: State, r: Request, o: int, ni: nat)
    requires OrderPlaced(s, e, r, o, ni)
    ensures OnFile(e, r, o)
  {
    forall k | 0 <= k < |r.items|
      ensures LineOnFile(e, r, o, k)
    {
      var i := LineRowNumber(r, o) + k;
      assert LineFields(e.lines[i], r, o, i - LineRowNumber(r, o));
    }
  }

  /** An order with other rows leaves it there. */
  lemma StaysOnFile(s: State, e: State, q: Request, p: int, ni: nat, r: Request, o: int)
    requires OrderPlaced(s, e, q, p, ni) && OnFile(s, r, o) && RowsApart(r, o, q, p)
    ensures OnFile(e, r, o)
  {
    forall k | 0 <= k < |r.items|
      ensures LineOnFile(e, r, o, k)
    {
      assert LineOnFile(s, r, o, k);
      assert e.lines[LineRowNumber(r, o) + k] == s.lines[LineRowNumber(r, o) + k];
    }
  }

  /** The fifteen latest orders of every district are on file, whatever came between. */
  lemma {:induction false} LatestOnFile(states: seq<State>, requests: seq<Request>, ni: nat, i: nat, j: nat)
    requires Chain(states, requests, ni) && i < j <= |requests| && Orders(requests, requests[i], i, j) <= 15
    ensures OnFile(states[j], requests[i], NumberOf(states, requests, ni, i))
    decreases j
  {
    var m := j - 1;
    var o, p := NumberOf(states, requests, ni, i), NumberOf(states, requests, ni, m);
    assert Link(states, requests, ni, m);
    if i == m {
      PlacedOnFile(states[m], states[j], requests[m], p, ni);
    } else {
      LatestOnFile(states, requests, ni, i, m);
      if SameDistrict(requests[m], requests[i]) {
        FifteenApart(states, requests, ni, i, m);
      } else {
        OtherRows(requests[i], o, requests[m], p);
      }
      StaysOnFile(states[m], states[j], requests[m], p, ni, requests[i], o);
    }
  }

  /** After the whole run, so are the fifteen latest of each district. */
  ghost predicate LatestKept(states: seq<State>, requests: seq<Request>, ni: nat)
    requires Chain(states, requests, ni)
  {
    forall i :: 0 <= i < |requests| && Orders(requests, requests[i], i, |requests|) <= 15 ==>
      OnFile(states[|requests|], requests[i], NumberOf(states, requests, ni, i))
  }

  lemma ChainKeepsLatest(states: seq<State>, requests: seq<Request>, ni: nat)
    requires Chain(states, requests, ni)
    ensures LatestKept(states, requests, ni)
  {
    forall i | 0 <= i < |requests| && Orders(requests, requests[i], i, |requests|) <= 15
      ensures OnFile(states[|requests|], requests[i], NumberOf(states, requests, ni, i))
    {
      LatestOnFile(states, requests, ni, i, |requests|);
    }
  }

  // -------------------------------------------------------------- the run of a program

  ghost function StatesOf(shop: Shop, s: State, requests: seq<Request>): (r: seq<State>)
    requires Fits(shop, s) && AllSound(shop, requests)
    ensures |r| == |requests| + 1 && forall j :: 0 <= j <= |requests| ==> r[j] == AfterFirst(shop, s, requests, j)
  {
    seq(|requests| + 1, j requires 0 <= j <= |requests| => AfterFirst(shop, s, requests, j))
  }

  lemma NextLinks(shop: Shop, s: State, r: Request)
    requires Fits(shop, s) && Sound(r, shop.nw, shop.ni)
    ensures 0 <= 10 * (r.w - 1) + r.d - 1 < |s.counters| && WellNumbered(r, OrderId(CounterOf(s, r)))
    ensures OrderPlaced(s, Next(shop, s, r), r, OrderId(CounterOf(s, r)), shop.ni)
  {
    DistrictFits(shop, r);
    NextPlaces(shop, s, r);
  }

  lemma RunIsChain(shop: Shop, s: State, requests: seq<Request>)
    requires Fits(shop, s) && AllSound(shop, requests)
    ensures Chain(StatesOf(shop, s, requests), requests, shop.ni)
  {
    var states := StatesOf(shop, s, requests);
    forall j | 0 <= j < |requests|
      ensures Link(states, requests, shop.ni, j)
    {
      AfterOneMore(shop, s, requests, j);
      NextLinks(shop, states[j], requests[j]);
    }
  }

  lemma RunHistory(shop: Shop, s: State, requests: seq<Request>) returns (states: seq<State>)
    requires Fits(shop, s) && AllSound(shop, requests)
    ensures Chain(states, requests, shop.ni) && LatestKept(states, requests, shop.ni)
    ensures states[0] == s && states[|requests|] == After(shop, s, requests)
  {
    states := StatesOf(shop, s, requests);
    RunIsChain(shop, s, requests);
    ChainKeepsLatest(states, requests, shop.ni);
    assert requests[..|requests|] == requests;
  }
}

/** What one new-order request means for the tables: where its rows lie and what they
    become (`TPCC_DB::new_order_tx` in `janus_workload/TPCC/tpcc_db.cc`). */
module TpccRequest {
  import opened PersistentMemory
  import opened TpccLog
  import opened TpccPhases
  import opened TpccSteps
  import opened TpccWindow
  import opened Wrappers

  const DISTRICTS: nat := 10
  const NEW_ORDERS: nat := 900     // per district
  const ORDERS: nat := 3000        // per district
  const LINES: nat := 45000        // per district

  datatype Request = Request(w: nat, d: nat, c: nat, items: seq<nat>, amounts: seq<int>)

  /** The tables hold `nw` warehouses with `ni` items each. */
  predicate Sized(lay: Layout, nw: nat, ni: nat) {
    && lay.Ok() && lay.districts == nw * DISTRICTS && lay.stocks == nw * ni
    && lay.newOrders == nw * (DISTRICTS * NEW_ORDERS) && lay.orders == nw * (DISTRICTS * ORDERS)
    && lay.lines == nw * (DISTRICTS * LINES)
  }

  /** Requests as `new_orders` makes them. */
  predicate Sound(r: Request, nw: nat, ni: nat) {
    && 1 <= r.w <= nw && 1 <= r.d <= DISTRICTS
    && |r.items| <= ITEMS_PER_ORDER && |r.amounts| == |r.items| && Distinct(r.items)
    && forall i :: 0 <= i < |r.items| ==> 1 <= r.items[i] <= ni
  }

  /** C's remainder, which takes the sign of the dividend. */
  function CRem(a: int, b: int): (r: int)
    requires b > 0
    ensures -b < r < b && (a >= 0 ==> 0 <= r) && (a <= 0 ==> r <= 0)
  {
    if a >= 0 then a % b else -((-a) % b)
  }

  function OrderId(counter: nat): (o: nat)
    ensures 1 <= o <= 15
  {
    counter % 15 + 1
  }

  function DistrictIndex(r: Request): (i: int) {
    (r.w - 1) * DISTRICTS + r.d - 1
  }

  function NewOrderIndex(r: Request, o: nat, nw: nat): (i: int)
    requires nw > 0
  {
    var i := (r.w - 1) * (DISTRICTS * NEW_ORDERS) + (r.d - 1) * NEW_ORDERS + CRem(o - 2101, NEW_ORDERS);
    (if i < 0 then -i else i) % (nw * (DISTRICTS * NEW_ORDERS))
  }

  function OrderIndex(r: Request, o: nat): (i: int) {
    (r.w - 1) * (DISTRICTS * ORDERS) + (r.d - 1) * ORDERS + CRem(o - 1, ORDERS)
  }

  function StockIndex(w: nat, item: nat, ni: nat): (i: int) {
    (w - 1) * ni + item - 1
  }

  function LineIndex(r: Request, o: nat, k: nat): (i: int) {
    (r.w - 1) * (DISTRICTS * LINES) + (r.d - 1) * LINES + (o - 1) * ITEMS_PER_ORDER + k
  }

  lemma WarehouseFits(w: nat, nw: nat, per: nat)
    requires 1 <= w <= nw
    ensures 0 <= (w - 1) * per && (w - 1) * per + per <= nw * per
  {
    MulOrder(w, nw, per);
    assert (w - 1) * per + per == w * per;
  }

  lemma IndexesFit(r: Request, o: nat, lay: Layout, nw: nat, ni: nat)
    requires Sized(lay, nw, ni) && Sound(r, nw, ni) && 1 <= o <= 15
    ensures 0 <= DistrictIndex(r) < lay.districts
    ensures 0 <= NewOrderIndex(r, o, nw) < lay.newOrders && 0 <= OrderIndex(r, o) < lay.orders
    ensures forall k :: 0 <= k < |r.items| ==> 0 <= StockIndex(r.w, r.items[k], ni) < lay.stocks
    ensures forall k :: 0 <= k < |r.items| ==> 0 <= LineIndex(r, o, k) < lay.lines
  {
    WarehouseFits(r.w, nw, DISTRICTS);
    WarehouseFits(r.w, nw, ni);
    WarehouseFits(r.w, nw, DISTRICTS * ORDERS);
    WarehouseFits(r.w, nw, DISTRICTS * LINES);
  }

  lemma NewOrderRowOf(r: Request, o: nat, nw: nat)
    requires 1 <= r.w <= nw && 1 <= r.d <= DISTRICTS && 1 <= o <= 15
    ensures NewOrderIndex(r, o, nw) ==
            if r.w == r.d == 1 then 301 - o else 9000 * r.w + 900 * r.d + o - 10201
  {
    assert (o - 2101) == -((2101 - o) / 900 * 900 + (2101 - o) % 900) && CRem(o - 2101, NEW_ORDERS) == o - 301;
    WarehouseFits(r.w, nw, DISTRICTS * NEW_ORDERS);
    var i := 9000 * r.w + 900 * r.d + o - 10201;
    SmallRemainder(if i < 0 then -i else i, nw * (DISTRICTS * NEW_ORDERS));
  }

  lemma SmallRemainder(x: nat, m: nat)
    requires x < m
    ensures x % m == x
  {}

  lemma OrderRowOf(r: Request, o: nat)
    requires 1 <= r.w && 1 <= r.d && 1 <= o <= 15
    ensures OrderIndex(r, o) == 30000 * r.w + 3000 * r.d + o - 33001
  {}

  /** Orders a district has open at the same time never share a row, neither with each
      other nor with another district's. */
  lemma OrderRowsOwn(r: Request, o: nat, s: Request, p: nat)
    requires 1 <= r.w && 1 <= r.d <= DISTRICTS && 1 <= o <= 15 && 1 <= s.w && 1 <= s.d <= DISTRICTS && 1 <= p <= 15
    requires OrderIndex(r, o) == OrderIndex(s, p)
    ensures r.w == s.w && r.d == s.d && o == p
  {
    OrderRowOf(r, o);
    OrderRowOf(s, p);
  }

  lemma NewOrderRowsOwn(r: Request, o: nat, s: Request, p: nat, nw: nat)
    requires 1 <= r.w <= nw && 1 <= r.d <= DISTRICTS && 1 <= o <= 15
    requires 1 <= s.w <= nw && 1 <= s.d <= DISTRICTS && 1 <= p <= 15
    requires NewOrderIndex(r, o, nw) == NewOrderIndex(s, p, nw)
    ensures r.w == s.w && r.d == s.d && o == p
  {
    NewOrderRowOf(r, o, nw);
    NewOrderRowOf(s, p, nw);
    NewOrderDigits(r.w, r.d, o, s.w, s.d, p);
  }

  lemma NewOrderDigits(w: nat, d: nat, o: nat, x: nat, e: nat, p: nat)
    requires 1 <= w && 1 <= d <= 10 && 1 <= o <= 15 && 1 <= x && 1 <= e <= 10 && 1 <= p <= 15
    requires (if w == d == 1 then 301 - o else 9000 * w + 900 * d + o - 10201) ==
             if x == e == 1 then 301 - p else 9000 * x + 900 * e + p - 10201
    ensures w == x && d == e && o == p
  {}

  // ------------------------------------------------------------------- the effect

  const ENTRY_TIME: nat := 12112342433241

  function NewOrderCells(r: Request, o: nat): (xs: seq<int>) { [o, r.d, r.w] }

  function OrderCells(r: Request, o: nat): (xs: seq<int>) {
    [o, r.d, r.w, r.c, ENTRY_TIME % 0x1_0000_0000, ENTRY_TIME / 0x1_0000_0000, 0, |r.items|, 1]
  }

  function LineCells(r: Request, o: nat, k: nat): (xs: seq<int>)
    requires k < |r.items| == |r.amounts|
  {
    [o, r.d, r.w, k, r.items[k], r.w, 0, 0, 5, r.amounts[k]]
  }

  function StockIndexes(r: Request, ni: nat): (s: seq<int>)
    ensures |s| == |r.items|
  {
    seq(|r.items|, k requires 0 <= k < |r.items| => StockIndex(r.w, r.items[k], ni))
  }

  lemma IndexesDistinct(r: Request, ni: nat)
    requires Distinct(r.items)
    ensures Distinct(StockIndexes(r, ni))
  {}

  /** The rows after selling one item from each of the named ones in turn. */
  ghost function SellAll(rows: seq<Row>, indexes: seq<int>): (r: seq<Row>)
    requires forall i :: 0 <= i < |rows| ==> |rows[i]| == STOCK_ROW
    ensures |r| == |rows| && forall i :: 0 <= i < |r| ==> |r[i]| == STOCK_ROW
    decreases |indexes|
  {
    if indexes == [] then rows
    else
      var i, sold := indexes[|indexes| - 1], SellAll(rows, indexes[..|indexes| - 1]);
      if 0 <= i < |rows| then sold[i := Sold(sold[i])] else sold
  }

  /** Pairwise distinct items: each named row is sold from once, the rest stays. */
  lemma {:induction false} EachSoldOnce(rows: seq<Row>, indexes: seq<int>)
    requires forall i :: 0 <= i < |rows| ==> |rows[i]| == STOCK_ROW
    requires forall i, j :: 0 <= i < j < |indexes| ==> indexes[i] != indexes[j]
    ensures forall i :: 0 <= i < |rows| ==> SellAll(rows, indexes)[i] == if i in indexes then Sold(rows[i]) else rows[i]
    decreases |indexes|
  {
    if indexes != [] {
      var rest, last := indexes[..|indexes| - 1], indexes[|indexes| - 1];
      EachSoldOnce(rows, rest);
      assert indexes == rest + [last];
    }
  }

  predicate RowsSized(db: Db, lay: Layout) {
    && |db.newOrders| == lay.newOrders && |db.orders| == lay.orders && |db.stock| == lay.stocks
    && (forall i :: 0 <= i < |db.newOrders| ==> |db.newOrders[i]| == ROW)
    && (forall i :: 0 <= i < |db.orders| ==> |db.orders[i]| == ROW)
    && (forall i :: 0 <= i < |db.stock| ==> |db.stock[i]| == STOCK_ROW)
  }

  ghost function Inserted(db: Db, r: Request, o: nat, no: nat, oi: nat): (e: Db)
    requires no < |db.newOrders| && oi < |db.orders| && |db.newOrders[no]| == ROW && |db.orders[oi]| == ROW
  {
    db.(newOrders := db.newOrders[no := Overwrite(db.newOrders[no], 0, NewOrderCells(r, o))],
        orders := db.orders[oi := Overwrite(db.orders[oi], 0, OrderCells(r, o))])
  }

  /** What the two logged row updates make of the tables. */
  lemma InsertedBoth(lay: Layout, u: Image, v: Image, w: Image, r: Request, o: nat, no: nat, oi: nat)
    requires lay.Ok() && |u| == |v| == |w| == lay.total && no < lay.newOrders && oi < lay.orders
    requires Kept(lay, NewOrderRow, u, v) && Kept(lay, OrderRow, v, w)
    requires Table(v, lay.NewOrderArea()) ==
             Table(u, lay.NewOrderArea())[no := Overwrite(RowAt(u, lay.newOrder, no), 0, NewOrderCells(r, o))]
    requires Table(w, lay.OrderArea()) ==
             Table(v, lay.OrderArea())[oi := Overwrite(RowAt(v, lay.order, oi), 0, OrderCells(r, o))]
    ensures SameSlots(lay, u, w) && w[lay.log + STOCK_VALID] == u[lay.log + STOCK_VALID]
    ensures Tables(lay, w) == Inserted(Tables(lay, u), r, o, no, oi)
  {
    KeptSlots(lay, u, v, w);
    assert Table(v, lay.OrderArea())[oi] == RowAt(v, lay.order, oi);
  }

  predicate LinesSized(lines: seq<Row>, lay: Layout) {
    |lines| == lay.lines && forall i :: 0 <= i < |lines| ==> |lines[i]| == ROW
  }

  /** The order-line table once the first `n` lines of an order are in. */
  ghost function FirstLines(lines: seq<Row>, r: Request, o: nat, n: nat): (e: seq<Row>)
    requires n <= |r.items| == |r.amounts| && forall i :: 0 <= i < |lines| ==> |lines[i]| == ROW
    ensures |e| == |lines| && forall i :: 0 <= i < |e| ==> |e[i]| == ROW
  {
    var at := LineIndex(r, o, 0);
    seq(|lines|, i requires 0 <= i < |lines| =>
      if at <= i < at + n then Overwrite(lines[i], 0, LineCells(r, o, i - at)) else lines[i])
  }

  lemma NoLines(lines: seq<Row>, r: Request, o: nat, lay: Layout)
    requires LinesSized(lines, lay) && |r.items| == |r.amounts|
    ensures FirstLines(lines, r, o, 0) == lines
  {}

  lemma OneMoreLine(lines: seq<Row>, r: Request, o: nat, n: nat, lay: Layout)
    requires LinesSized(lines, lay) && n < |r.items| == |r.amounts| && 0 <= LineIndex(r, o, n) < lay.lines
    ensures var at, had := LineIndex(r, o, n), FirstLines(lines, r, o, n);
            FirstLines(lines, r, o, n + 1) == had[at := Overwrite(had[at], 0, LineCells(r, o, n))]
  {}

  /** Sizes of the tables; their contents and the districts' counters. */
  datatype Shop = Shop(lay: Layout, nw: nat, ni: nat)
  datatype State = State(db: Db, lines: seq<Row>, counters: seq<nat>)

  ghost predicate Fits(shop: Shop, s: State) {
    && Sized(shop.lay, shop.nw, shop.ni) && RowsSized(s.db, shop.lay) && LinesSized(s.lines, shop.lay)
    && |s.counters| == shop.lay.districts
  }

  /** The tables after the transaction. */
  ghost function Placed(shop: Shop, db: Db, r: Request, o: nat): (e: Db)
    requires Sized(shop.lay, shop.nw, shop.ni) && RowsSized(db, shop.lay) && Sound(r, shop.nw, shop.ni) && 1 <= o <= 15
    ensures RowsSized(e, shop.lay)
  {
    IndexesFit(r, o, shop.lay, shop.nw, shop.ni);
    var inserted := Inserted(db, r, o, NewOrderIndex(r, o, shop.nw), OrderIndex(r, o));
    inserted.(stock := SellAll(db.stock, StockIndexes(r, shop.ni)))
  }

  /** One transaction sells each of its items once, whichever order they come in. */
  lemma PlacedSells(shop: Shop, db: Db, r: Request, o: nat, i: nat)
    requires Sized(shop.lay, shop.nw, shop.ni) && RowsSized(db, shop.lay) && Sound(r, shop.nw, shop.ni) && 1 <= o <= 15
    requires i < shop.lay.stocks
    ensures Placed(shop, db, r, o).stock[i] ==
            if i in StockIndexes(r, shop.ni) then Sold(db.stock[i]) else db.stock[i]
  {
    EachSoldOnce(db.stock, StockIndexes(r, shop.ni));
  }

  lemma DistrictFits(shop: Shop, r: Request)
    requires Sized(shop.lay, shop.nw, shop.ni) && Sound(r, shop.nw, shop.ni)
    ensures 0 <= DistrictIndex(r) < shop.lay.districts
  {
    WarehouseFits(r.w, shop.nw, DISTRICTS);
  }

  ghost function Next(shop: Shop, s: State, r: Request): (e: State)
    requires Fits(shop, s) && Sound(r, shop.nw, shop.ni)
    ensures Fits(shop, e)
  {
    DistrictFits(shop, r);
    var d := DistrictIndex(r);
    var o := OrderId(s.counters[d]);
    State(Placed(shop, s.db, r, o), FirstLines(s.lines, r, o, |r.items|), s.counters[d := s.counters[d] + 1])
  }

  lemma TablesSized(lay: Layout, v: Image)
    requires lay.Ok() && |v| == lay.total
    ensures RowsSized(Tables(lay, v), lay) && LinesSized(LineTable(lay, v), lay)
  {}
}

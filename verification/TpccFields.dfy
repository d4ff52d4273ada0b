/** What a new-order request does to the tables, field by field, at the rows and offsets
    the program's structs have (`janus_workload/TPCC/tpcc_db.cc`, `table_entries.h`). */
module TpccFields {
  import opened PersistentMemory
  import opened TpccLog
  import opened TpccSteps
  import opened TpccRequest
  import opened Wrappers

  // ------------------------------------------------------------------------- fields

  ghost predicate NewOrderFields(row: Row, r: Request, o: int) {
    |row| == 16 && row[0] == o && row[1] == r.d && row[2] == r.w
  }

  /** `o_entry_d` takes two cells. */
  ghost predicate OrderFields(row: Row, r: Request, o: int) {
    && |row| == 16 && row[0] == o && row[1] == r.d && row[2] == r.w && row[3] == r.c
    && row[4] + 0x1_0000_0000 * row[5] == 12112342433241 && 0 <= row[4] < 0x1_0000_0000
    && row[6] == 0 && row[7] == |r.items| && row[8] == 1
  }

  ghost predicate LineFields(row: Row, r: Request, o: int, k: nat) {
    && k < |r.items| == |r.amounts|
    && |row| == 16 && row[0] == o && row[1] == r.d && row[2] == r.w && row[3] == k && row[4] == r.items[k]
    && row[5] == r.w && row[6] == row[7] == 0 && row[8] == 5 && row[9] == r.amounts[k]
  }

  /** Seven units fewer, or 84 more when that would leave ten or less. */
  ghost predicate StockFields(before: Row, after: Row) {
    && |before| == |after| == 80
    && after[2] == (if before[2] > 17 then before[2] - 7 else before[2] + 84)
    && after[63] == before[63] + 7 && after[64] == before[64] + 1
    && forall c :: 0 <= c < 80 && c != 2 && c != 63 && c != 64 ==> after[c] == before[c]
  }

  /** From cell `n` on nothing changes. */
  ghost predicate RestKept(before: Row, after: Row, n: nat) {
    |before| == |after| && forall c :: n <= c < |before| ==> after[c] == before[c]
  }

  // --------------------------------------------------------------------------- rows

  ghost predicate OnlyRow<T>(before: seq<T>, after: seq<T>, i: int) {
    0 <= i < |before| == |after| && forall j :: 0 <= j < |before| && j != i ==> after[j] == before[j]
  }

  function NewOrderRowNumber(r: Request, o: int): (i: int) {
    if r.w == 1 && r.d == 1 then 301 - o else 9000 * r.w + 900 * r.d + o - 10201
  }

  function OrderRowNumber(r: Request, o: int): (i: int) {
    30000 * r.w + 3000 * r.d + o - 33001
  }

  /** The row of the order's line 0; the others follow it. */
  function LineRowNumber(r: Request, o: int): (i: int) {
    450000 * (r.w - 1) + 45000 * (r.d - 1) + 15 * (o - 1)
  }

  ghost predicate NewOrderWritten(before: seq<Row>, after: seq<Row>, r: Request, o: int) {
    var i := NewOrderRowNumber(r, o);
    OnlyRow(before, after, i) && NewOrderFields(after[i], r, o) && RestKept(before[i], after[i], 3)
  }

  ghost predicate OrderWritten(before: seq<Row>, after: seq<Row>, r: Request, o: int) {
    var i := OrderRowNumber(r, o);
    OnlyRow(before, after, i) && OrderFields(after[i], r, o) && RestKept(before[i], after[i], 9)
  }

  ghost predicate LinesWritten(before: seq<Row>, after: seq<Row>, r: Request, o: int) {
    var at := LineRowNumber(r, o);
    && |before| == |after| && 0 <= at && at + |r.items| <= |before|
    && forall i :: 0 <= i < |before| ==>
         if at <= i < at + |r.items| then LineFields(after[i], r, o, i - at) && RestKept(before[i], after[i], 10)
         else after[i] == before[i]
  }

  /** Stock row `i` is about item `i % ni + 1` of warehouse `i / ni + 1`. */
  ghost predicate StockWritten(before: seq<Row>, after: seq<Row>, r: Request, ni: nat) {
    && |before| == |after|
    && forall i :: 0 <= i < |before| ==>
         if ni > 0 && i / ni + 1 == r.w && i % ni + 1 in r.items then StockFields(before[i], after[i])
         else after[i] == before[i]
  }

  /** A request of number `o` and nothing else has happened. */
  ghost predicate OrderPlaced(s: State, e: State, r: Request, o: int, ni: nat) {
    && (var d := 10 * (r.w - 1) + r.d - 1; OnlyRow(s.counters, e.counters, d) && e.counters[d] == s.counters[d] + 1)
    && NewOrderWritten(s.db.newOrders, e.db.newOrders, r, o) && OrderWritten(s.db.orders, e.db.orders, r, o)
    && StockWritten(s.db.stock, e.db.stock, r, ni) && LinesWritten(s.lines, e.lines, r, o)
  }

  // --------------------------------------------------------- one request meets them

  lemma NewOrderMade(before: seq<Row>, r: Request, o: nat, nw: nat)
    requires 1 <= r.w <= nw && 1 <= r.d <= DISTRICTS && 1 <= o <= 15
    requires forall i :: 0 <= i < |before| ==> |before[i]| == ROW
    requires 0 <= NewOrderIndex(r, o, nw) < |before|
    ensures var no := NewOrderIndex(r, o, nw);
            NewOrderWritten(before, before[no := Overwrite(before[no], 0, NewOrderCells(r, o))], r, o)
  {
    NewOrderRowOf(r, o, nw);
  }

  lemma OrderMade(before: seq<Row>, r: Request, o: nat)
    requires 1 <= r.w && 1 <= r.d && 1 <= o <= 15
    requires forall i :: 0 <= i < |before| ==> |before[i]| == ROW
    requires 0 <= OrderIndex(r, o) < |before|
    ensures var oi := OrderIndex(r, o);
            OrderWritten(before, before[oi := Overwrite(before[oi], 0, OrderCells(r, o))], r, o)
  {
    OrderRowOf(r, o);
  }

  lemma LineFilled(row: Row, e: Row, r: Request, o: nat, k: nat)
    requires |row| == ROW && k < |r.items| == |r.amounts| && e == Overwrite(row, 0, LineCells(r, o, k))
    ensures LineFields(e, r, o, k) && RestKept(row, e, 10)
  {}

  lemma LineRowMade(before: seq<Row>, r: Request, o: nat, i: nat)
    requires |r.items| == |r.amounts| && i < |before| && forall j :: 0 <= j < |before| ==> |before[j]| == ROW
    ensures var at, row := LineRowNumber(r, o), FirstLines(before, r, o, |r.items|)[i];
            if at <= i < at + |r.items| then LineFields(row, r, o, i - at) && RestKept(before[i], row, 10)
            else row == before[i]
  {
    var at, row := LineRowNumber(r, o), FirstLines(before, r, o, |r.items|)[i];
    if at <= i < at + |r.items| {
      LineFilled(before[i], row, r, o, i - at);
    }
  }

  lemma LinesMade(before: seq<Row>, r: Request, o: nat, lay: Layout, nw: nat, ni: nat)
    requires LinesSized(before, lay) && Sized(lay, nw, ni) && Sound(r, nw, ni) && 1 <= o <= 15
    ensures LinesWritten(before, FirstLines(before, r, o, |r.items|), r, o)
  {
    WarehouseFits(r.w, nw, DISTRICTS * LINES);
    var at, after := LineRowNumber(r, o), FirstLines(before, r, o, |r.items|);
    forall i | 0 <= i < |before|
      ensures if at <= i < at + |r.items| then LineFields(after[i], r, o, i - at) && RestKept(before[i], after[i], 10)
              else after[i] == before[i]
    {
      LineRowMade(before, r, o, i);
    }
  }

  lemma StockMade(row: Row)
    requires |row| == STOCK_ROW
    ensures StockFields(row, Sold(row))
  {}

  /** Row and item determine each other. */
  lemma StockRowOf(w: nat, item: nat, ni: nat, i: int)
    requires 1 <= w && 1 <= item <= ni && 0 <= i
    ensures i == StockIndex(w, item, ni) <==> i / ni + 1 == w && i % ni + 1 == item
  {
    if i == StockIndex(w, item, ni) {
      Remainder(i, w - 1, item - 1, ni);
    } else if i / ni + 1 == w {
      assert i == ni * (i / ni) + i % ni;
    }
  }

  lemma StockNamed(r: Request, nw: nat, ni: nat, i: nat)
    requires Sound(r, nw, ni)
    ensures i in StockIndexes(r, ni) <==> ni > 0 && i / ni + 1 == r.w && i % ni + 1 in r.items
  {
    if i in StockIndexes(r, ni) {
      var k :| 0 <= k < |r.items| && StockIndexes(r, ni)[k] == i;
      StockRowOf(r.w, r.items[k], ni, i);
    }
    if ni > 0 && i / ni + 1 == r.w && i % ni + 1 in r.items {
      var k :| 0 <= k < |r.items| && r.items[k] == i % ni + 1;
      StockRowOf(r.w, r.items[k], ni, i);
      assert StockIndexes(r, ni)[k] == i;
    }
  }

  lemma StockAllMade(shop: Shop, db: Db, r: Request, o: nat)
    requires Sized(shop.lay, shop.nw, shop.ni) && RowsSized(db, shop.lay) && Sound(r, shop.nw, shop.ni) && 1 <= o <= 15
    ensures StockWritten(db.stock, Placed(shop, db, r, o).stock, r, shop.ni)
  {
    var after := Placed(shop, db, r, o).stock;
    forall i | 0 <= i < |db.stock|
      ensures if i in StockIndexes(r, shop.ni) then StockFields(db.stock[i], after[i]) else after[i] == db.stock[i]
      ensures i in StockIndexes(r, shop.ni) <==>
              shop.ni > 0 && i / shop.ni + 1 == r.w && i % shop.ni + 1 in r.items
    {
      PlacedSells(shop, db, r, o, i);
      StockMade(db.stock[i]);
      StockNamed(r, shop.nw, shop.ni, i);
    }
  }

  /** One request, field by field. */
  lemma NextPlaces(shop: Shop, s: State, r: Request)
    requires Fits(shop, s) && Sound(r, shop.nw, shop.ni) && 0 <= 10 * (r.w - 1) + r.d - 1 < |s.counters|
    ensures OrderPlaced(s, Next(shop, s, r), r, OrderId(s.counters[10 * (r.w - 1) + r.d - 1]), shop.ni)
  {
    var o := OrderId(s.counters[10 * (r.w - 1) + r.d - 1]);
    IndexesFit(r, o, shop.lay, shop.nw, shop.ni);
    NewOrderMade(s.db.newOrders, r, o, shop.nw);
    OrderMade(s.db.orders, r, o);
    LinesMade(s.lines, r, o, shop.lay, shop.nw, shop.ni);
    StockAllMade(shop, s.db, r, o);
  }

  // ------------------------------------------------------------------- order numbers

  /** Numbers run from 1 to 15 and start over. */
  lemma OrderNumbers(c: nat)
    ensures OrderId(0) == 1
    ensures OrderId(c + 1) == if OrderId(c) == 15 then 1 else OrderId(c) + 1
  {}

  lemma SameNumberIff(a: nat, b: nat)
    requires a <= b
    ensures OrderId(a) == OrderId(b) <==> (b - a) % 15 == 0
  {}
}

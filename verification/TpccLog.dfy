/** The TPCC new-order transaction's undo log: what is laid out where, what recovery
    makes of a crash image, and which images it can undo
    (`janus_workload/TPCC/tpcc_db.h`, `tpcc_db.cc`). Cells are 4 bytes, 16 to a line. */
module TpccLog {
  import opened PersistentMemory

  type Row = seq<int>

  // sizes in cells
  const ROW: nat := 16          // new_order_entry and order_entry, 64 bytes
  const STOCK_ROW: nat := 80    // stock_entry, 320 bytes
  const DISTRICT_ROW: nat := 32 // district_entry, 128 bytes
  const NEXT_O_ID: nat := 25    // d_next_o_id in a district_entry
  const ITEMS_PER_ORDER: nat := 15

  // offsets in backUpLog
  const DISTRICT_BACK: nat := 0
  const NEW_ORDER_BACK: nat := 32
  const ORDER_BACK: nat := 48
  const STOCK_BACK: nat := 64
  const NEW_ORDER_INDX: nat := 1264
  const ORDER_INDX: nat := 1265
  const STOCK_INDX: nat := 1266
  const DISTRICT_VALID: nat := 1282
  const NEW_ORDER_VALID: nat := 1284
  const ORDER_VALID: nat := 1286
  const STOCK_VALID: nat := 1288
  const LINE_VALID: nat := 1290
  const LOG_VALID: nat := 1292
  const LOG_CELLS: nat := 1294

  /** The fields of `backUpLog` follow one another without gaps, flags of two cells each. */
  lemma LogFields()
    ensures DISTRICT_BACK == 0 && NEW_ORDER_BACK == 32 && ORDER_BACK == NEW_ORDER_BACK + 16
    ensures STOCK_BACK == ORDER_BACK + 16 && NEW_ORDER_INDX == STOCK_BACK + 15 * 80
    ensures ORDER_INDX == NEW_ORDER_INDX + 1 && STOCK_INDX == ORDER_INDX + 1 && DISTRICT_VALID == STOCK_INDX + 16
    ensures NEW_ORDER_VALID == DISTRICT_VALID + 2 && ORDER_VALID == NEW_ORDER_VALID + 2
    ensures STOCK_VALID == ORDER_VALID + 2 && LINE_VALID == STOCK_VALID + 2
    ensures LOG_VALID == LINE_VALID + 2 && LOG_CELLS == LOG_VALID + 2
  {}

  /** The tables and the thread's log, in the order the bump allocator hands them out. */
  datatype Layout = Layout(districts: nat, stocks: nat, orders: nat, lines: nat, newOrders: nat,
                           district: nat, stock: nat, order: nat, orderLine: nat, newOrder: nat, log: nat, total: nat)
  {
    predicate Ok() {
      && district + DISTRICT_ROW * districts <= stock
      && stock + STOCK_ROW * stocks <= order
      && order + ROW * orders <= orderLine
      && orderLine + ROW * lines <= newOrder
      && newOrder + ROW * newOrders <= log
      && log + LOG_CELLS <= total
    }
    function NewOrderArea(): Area {
      Area(log + NEW_ORDER_VALID, log + NEW_ORDER_INDX, log + NEW_ORDER_BACK, newOrder, newOrders)
    }
    function OrderArea(): Area {
      Area(log + ORDER_VALID, log + ORDER_INDX, log + ORDER_BACK, order, orders)
    }
  }

  /** A table with a one-row undo record: its valid flag, saved index and saved row. */
  datatype Area = Area(flag: nat, indx: nat, back: nat, base: nat, count: nat) {
    predicate In(total: nat) {
      flag < total && indx < total && back + ROW <= total && base + ROW * count <= total
    }
  }

  function RowAt(h: Image, base: nat, i: nat): (r: Row)
    requires base + ROW * (i + 1) <= |h|
  {
    h[base + ROW * i..base + ROW * i + ROW]
  }

  function StockRowAt(h: Image, base: nat, i: nat): (r: Row)
    requires base + STOCK_ROW * (i + 1) <= |h|
  {
    h[base + STOCK_ROW * i..base + STOCK_ROW * i + STOCK_ROW]
  }

  ghost function Table(h: Image, a: Area): (r: seq<Row>)
    requires a.In(|h|)
    ensures |r| == a.count && forall i :: 0 <= i < a.count ==> r[i] == RowAt(h, a.base, i)
  {
    seq(a.count, i requires 0 <= i < a.count => RowAt(h, a.base, i))
  }

  ghost function StockTable(lay: Layout, h: Image): (r: seq<Row>)
    requires lay.Ok() && |h| == lay.total
    ensures |r| == lay.stocks && forall i :: 0 <= i < lay.stocks ==> r[i] == StockRowAt(h, lay.stock, i)
  {
    seq(lay.stocks, i requires 0 <= i < lay.stocks => StockRowAt(h, lay.stock, i))
  }

  /** The order-line table, which recovery leaves alone. */
  ghost function LineTable(lay: Layout, h: Image): (r: seq<Row>)
    requires lay.Ok() && |h| == lay.total
    ensures |r| == lay.lines && forall i :: 0 <= i < lay.lines ==> r[i] == RowAt(h, lay.orderLine, i)
  {
    seq(lay.lines, i requires 0 <= i < lay.lines => RowAt(h, lay.orderLine, i))
  }

  // ------------------------------------------------------------------ the bitset

  /** Bit `i` of the bitset, and `b | (1 << i)`. */
  predicate BitSet(b: int, i: nat)
    decreases i
  {
    if i == 0 then b % 2 == 1 else BitSet(b / 2, i - 1)
  }

  function OrBit(b: int, i: nat): (r: int)
    decreases i
  {
    if i == 0 then (if b % 2 == 1 then b else b + 1) else 2 * OrBit(b / 2, i - 1) + b % 2
  }

  /** Item `k` of the order has bit `k + 1`. */
  predicate ItemBit(b: int, k: nat) {
    BitSet(b, k + 1)
  }

  lemma {:induction false} OrBitSets(b: int, i: nat, j: nat)
    ensures BitSet(OrBit(b, i), j) <==> i == j || BitSet(b, j)
    decreases i
  {
    if i > 0 && j > 0 {
      assert OrBit(b, i) / 2 == OrBit(b / 2, i - 1);
      OrBitSets(b / 2, i - 1, j - 1);
    }
  }

  lemma {:induction false} ZeroHasNoBits(j: nat)
    ensures !BitSet(0, j)
    decreases j
  {
    if j > 0 { ZeroHasNoBits(j - 1); }
  }

  // -------------------------------------------------------------------- recovery

  ghost function PutBack(rows: seq<Row>, indx: int, row: Row): (r: seq<Row>)
    ensures |r| == |rows|
  {
    if 0 <= indx < |rows| then rows[indx := row] else rows
  }

  ghost function RecoverArea(h: Image, a: Area, undo: bool): (r: seq<Row>)
    requires a.In(|h|)
  {
    if undo && h[a.flag] != 0 then PutBack(Table(h, a), h[a.indx], h[a.back..a.back + ROW]) else Table(h, a)
  }

  function StockIndx(lay: Layout, k: nat): (r: nat) { lay.log + STOCK_INDX + k }
  function StockBack(lay: Layout, k: nat): (r: nat) { lay.log + STOCK_BACK + STOCK_ROW * k }

  /** The saved stock rows whose bit is set go back, in the order given. */
  ghost function UndoStock(lay: Layout, h: Image, order: seq<nat>, rows: seq<Row>): (r: seq<Row>)
    requires lay.Ok() && |h| == lay.total && forall k :: 0 <= k < |order| ==> order[k] < ITEMS_PER_ORDER
    ensures |r| == |rows|
    decreases |order|
  {
    if order == [] then rows
    else
      var k, rest := order[|order| - 1], UndoStock(lay, h, order[..|order| - 1], rows);
      if ItemBit(h[lay.log + STOCK_VALID], k)
      then PutBack(rest, h[StockIndx(lay, k)], h[StockBack(lay, k)..StockBack(lay, k) + STOCK_ROW])
      else rest
  }

  datatype Db = Db(newOrders: seq<Row>, orders: seq<Row>, stock: seq<Row>)

  ghost predicate Undoing(lay: Layout, h: Image)
    requires lay.Ok() && |h| == lay.total
  {
    h[lay.log + LOG_VALID] != 0
  }

  ghost predicate AnyOrder(order: seq<nat>) {
    && (forall k :: 0 <= k < |order| ==> order[k] < ITEMS_PER_ORDER)
    && forall k :: 0 <= k < ITEMS_PER_ORDER ==> k in order
  }

  /** What recovery finds: nothing is undone unless `log_valid` is set, and then each
      part whose own flag or bit is set. */
  ghost function Recover(lay: Layout, h: Image, order: seq<nat>): (r: Db)
    requires lay.Ok() && |h| == lay.total && AnyOrder(order)
  {
    Db(RecoverArea(h, lay.NewOrderArea(), Undoing(lay, h)),
       RecoverArea(h, lay.OrderArea(), Undoing(lay, h)),
       if Undoing(lay, h) then UndoStock(lay, h, order, StockTable(lay, h)) else StockTable(lay, h))
  }

  /** Whatever the order in which the stock records are undone, `h` recovers to `db`. */
  ghost predicate RecoversTo(lay: Layout, h: Image, db: Db) {
    lay.Ok() && |h| == lay.total && forall order :: AnyOrder(order) ==> Recover(lay, h, order) == db
  }

  ghost function Tables(lay: Layout, h: Image): (r: Db)
    requires lay.Ok() && |h| == lay.total
  {
    Db(Table(h, lay.NewOrderArea()), Table(h, lay.OrderArea()), StockTable(lay, h))
  }

  // ------------------------------------------------------------ images that differ

  /** Nothing but the district table, the `n` cells from `a` and the `m` cells from `b`
      differs. (The code never flushes the counter it keeps in the district table.) */
  ghost predicate Near(lay: Layout, v: Image, h: Image, a: nat, n: nat, b: nat, m: nat) {
    |v| == |h| == lay.total &&
    forall i :: 0 <= i < lay.total && !(lay.district <= i < lay.stock) && !(a <= i < a + n) && !(b <= i < b + m)
      ==> h[i] == v[i]
  }

  lemma NearCellwise(lay: Layout, v: Image, a: nat, n: nat, b: nat, m: nat)
    ensures Cellwise((h: Image) => Near(lay, v, h, a, n, b, m))
  {}

  /** The `n` cells from `a` hold nothing of the area. */
  predicate Apart(a: nat, n: nat, area: Area) {
    n == 0 || (
      && !(a <= area.flag < a + n) && !(a <= area.indx < a + n)
      && (a + n <= area.back || area.back + ROW <= a)
      && (a + n <= area.base || area.base + ROW * area.count <= a))
  }

  ghost predicate AreaSame(v: Image, h: Image, area: Area)
    requires area.In(|v|) && |h| == |v|
  {
    h[area.flag] == v[area.flag] && h[area.indx] == v[area.indx]
    && h[area.back..area.back + ROW] == v[area.back..area.back + ROW] && Table(h, area) == Table(v, area)
  }

  /** An area lies outside the district table. */
  predicate Outside(lay: Layout, area: Area) {
    && area.In(lay.total) && lay.stock <= area.flag && lay.stock <= area.indx
    && lay.stock <= area.back && lay.stock <= area.base
  }

  lemma NearArea(lay: Layout, v: Image, h: Image, a: nat, n: nat, b: nat, m: nat, area: Area)
    requires Near(lay, v, h, a, n, b, m) && Outside(lay, area) && Apart(a, n, area) && Apart(b, m, area)
    ensures AreaSame(v, h, area)
  {
    assert h[area.back..area.back + ROW] == v[area.back..area.back + ROW];
    forall i | 0 <= i < area.count
      ensures RowAt(h, area.base, i) == RowAt(v, area.base, i)
    {
    }
  }

  /** No order line either. */
  predicate LinesApart(lay: Layout, a: nat, n: nat) {
    n == 0 || a + n <= lay.orderLine || lay.newOrder <= a
  }

  lemma NearLines(lay: Layout, v: Image, h: Image, a: nat, n: nat, b: nat, m: nat)
    requires lay.Ok() && Near(lay, v, h, a, n, b, m) && LinesApart(lay, a, n) && LinesApart(lay, b, m)
    ensures LineTable(lay, h) == LineTable(lay, v)
  {
    forall i | 0 <= i < lay.lines
      ensures RowAt(h, lay.orderLine, i) == RowAt(v, lay.orderLine, i)
    {
    }
  }

  predicate StockApart(lay: Layout, a: nat, n: nat) {
    n == 0 || (
      && (a + n <= lay.stock || lay.order <= a)
      && (a + n <= lay.log + STOCK_BACK || lay.log + NEW_ORDER_INDX <= a)
      && (a + n <= lay.log + STOCK_INDX || lay.log + DISTRICT_VALID <= a)
      && !(a <= lay.log + STOCK_VALID < a + n))
  }

  ghost predicate StockSame(lay: Layout, v: Image, h: Image)
    requires lay.Ok() && |v| == |h| == lay.total
  {
    && h[lay.log + STOCK_VALID] == v[lay.log + STOCK_VALID] && StockTable(lay, h) == StockTable(lay, v)
    && forall k :: 0 <= k < ITEMS_PER_ORDER ==> SameRecord(lay, v, h, k)
  }

  ghost predicate SameRecord(lay: Layout, v: Image, h: Image, k: nat)
    requires lay.Ok() && |v| == |h| == lay.total && k < ITEMS_PER_ORDER
  {
    && h[StockIndx(lay, k)] == v[StockIndx(lay, k)]
    && h[StockBack(lay, k)..StockBack(lay, k) + STOCK_ROW] == v[StockBack(lay, k)..StockBack(lay, k) + STOCK_ROW]
  }

  lemma NearStock(lay: Layout, v: Image, h: Image, a: nat, n: nat, b: nat, m: nat)
    requires lay.Ok() && Near(lay, v, h, a, n, b, m) && StockApart(lay, a, n) && StockApart(lay, b, m)
    ensures StockSame(lay, v, h)
  {
    forall k | 0 <= k < ITEMS_PER_ORDER
      ensures SameRecord(lay, v, h, k)
    {
    }
    forall i | 0 <= i < lay.stocks
      ensures StockRowAt(h, lay.stock, i) == StockRowAt(v, lay.stock, i)
    {
    }
  }

  // --------------------------------------------------- what recovery depends on

  /** The two images undo to the same table: where they differ, the record decides. */
  ghost predicate AreaAgrees(v: Image, h: Image, area: Area)
    requires area.In(|v|) && |h| == |v|
  {
    RecoverArea(h, area, true) == RecoverArea(v, area, true)
  }

  /** Same records for the bits that are set, and rows that differ only where such a
      record puts a row back. */
  ghost predicate StockAgrees(lay: Layout, v: Image, h: Image)
    requires lay.Ok() && |v| == |h| == lay.total
  {
    var bits := v[lay.log + STOCK_VALID];
    && h[lay.log + STOCK_VALID] == bits
    && (forall k :: 0 <= k < ITEMS_PER_ORDER && ItemBit(bits, k) ==> SameRecord(lay, v, h, k))
    && forall i :: 0 <= i < lay.stocks ==>
         StockRowAt(h, lay.stock, i) == StockRowAt(v, lay.stock, i) || PutBackAt(lay, v, i)
  }

  ghost predicate PutBackAt(lay: Layout, v: Image, i: nat)
    requires lay.Ok() && |v| == lay.total
  {
    exists k :: 0 <= k < ITEMS_PER_ORDER && ItemBit(v[lay.log + STOCK_VALID], k) && v[StockIndx(lay, k)] == i
  }

  ghost predicate PutBackBy(lay: Layout, v: Image, order: seq<nat>, i: nat)
    requires lay.Ok() && |v| == lay.total
  {
    exists k :: k in order && k < ITEMS_PER_ORDER && ItemBit(v[lay.log + STOCK_VALID], k) && v[StockIndx(lay, k)] == i
  }

  /** Undoing the same records makes row `i` the same, once one of them is about `i`. */
  lemma {:induction false} UndoStockAgrees(lay: Layout, v: Image, h: Image, order: seq<nat>, i: nat)
    requires lay.Ok() && |v| == |h| == lay.total && StockAgrees(lay, v, h) && i < lay.stocks
    requires forall k :: 0 <= k < |order| ==> order[k] < ITEMS_PER_ORDER
    requires StockRowAt(h, lay.stock, i) == StockRowAt(v, lay.stock, i) || PutBackBy(lay, v, order, i)
    ensures UndoStock(lay, h, order, StockTable(lay, h))[i] == UndoStock(lay, v, order, StockTable(lay, v))[i]
    decreases |order|
  {
    if order != [] {
      var rest, k := order[..|order| - 1], order[|order| - 1];
      assert order == rest + [k];
      if ItemBit(v[lay.log + STOCK_VALID], k) {
        assert SameRecord(lay, v, h, k);
      }
      if !(ItemBit(v[lay.log + STOCK_VALID], k) && v[StockIndx(lay, k)] == i) {
        UndoStockAgrees(lay, v, h, rest, i);
      }
    }
  }

  lemma StockRecoversSame(lay: Layout, v: Image, h: Image, order: seq<nat>)
    requires lay.Ok() && |v| == |h| == lay.total && StockAgrees(lay, v, h) && AnyOrder(order)
    ensures UndoStock(lay, h, order, StockTable(lay, h)) == UndoStock(lay, v, order, StockTable(lay, v))
  {
    forall i | 0 <= i < lay.stocks
      ensures UndoStock(lay, h, order, StockTable(lay, h))[i] == UndoStock(lay, v, order, StockTable(lay, v))[i]
    {
      if StockRowAt(h, lay.stock, i) != StockRowAt(v, lay.stock, i) {
        assert PutBackAt(lay, v, i) && PutBackBy(lay, v, order, i);
      }
      UndoStockAgrees(lay, v, h, order, i);
    }
  }

  /** With the log raised in both, images that agree part by part recover alike. */
  lemma AgreeingImages(lay: Layout, v: Image, h: Image, db: Db)
    requires RecoversTo(lay, v, db) && |h| == lay.total && Undoing(lay, v) && Undoing(lay, h)
    requires AreaAgrees(v, h, lay.NewOrderArea()) && AreaAgrees(v, h, lay.OrderArea()) && StockAgrees(lay, v, h)
    ensures RecoversTo(lay, h, db)
  {
    forall order | AnyOrder(order)
      ensures Recover(lay, h, order) == db
    {
      StockRecoversSame(lay, v, h, order);
      assert Recover(lay, v, order) == db;
    }
  }

  lemma SameAgrees(v: Image, h: Image, area: Area)
    requires area.In(|v|) && |h| == |v| && AreaSame(v, h, area)
    ensures AreaAgrees(v, h, area)
  {}

  lemma StockSameAgrees(lay: Layout, v: Image, h: Image)
    requires lay.Ok() && |v| == |h| == lay.total && StockSame(lay, v, h)
    ensures StockAgrees(lay, v, h)
  {
    forall i | 0 <= i < lay.stocks
      ensures StockRowAt(h, lay.stock, i) == StockRowAt(v, lay.stock, i)
    {
      assert StockTable(lay, h)[i] == StockTable(lay, v)[i];
    }
  }

  /** With the log lowered an image recovers to its tables as they stand. */
  lemma LoweredRecovers(lay: Layout, h: Image)
    requires lay.Ok() && |h| == lay.total && !Undoing(lay, h)
    ensures RecoversTo(lay, h, Tables(lay, h))
  {}
}

/** The phases of the new-order transaction, each from one fence to the next: whatever
    part of its stores is durable, recovery finds the database of before. */
module TpccPhases {
  import opened PersistentMemory
  import opened TpccLog

  /** The two tables with a one-row undo record. */
  datatype Kind = NewOrderRow | OrderRow

  function AreaOf(lay: Layout, k: Kind): (r: Area) {
    if k == NewOrderRow then lay.NewOrderArea() else lay.OrderArea()
  }

  function Other(k: Kind): (r: Kind) {
    if k == NewOrderRow then OrderRow else NewOrderRow
  }

  /** A store that concerns neither the other table nor the stock nor `log_valid`. */
  predicate OnlyKind(lay: Layout, k: Kind, a: nat, n: nat) {
    n == 0 || (Apart(a, n, AreaOf(lay, Other(k))) && StockApart(lay, a, n) && !(a <= lay.log + LOG_VALID < a + n))
  }

  lemma OthersAgree(lay: Layout, k: Kind, v: Image, h: Image, a: nat, n: nat, b: nat, m: nat, db: Db)
    requires RecoversTo(lay, v, db) && Undoing(lay, v) && Near(lay, v, h, a, n, b, m)
    requires OnlyKind(lay, k, a, n) && OnlyKind(lay, k, b, m) && AreaAgrees(v, h, AreaOf(lay, k))
    ensures RecoversTo(lay, h, db)
  {
    NearArea(lay, v, h, a, n, b, m, AreaOf(lay, Other(k)));
    SameAgrees(v, h, AreaOf(lay, Other(k)));
    NearStock(lay, v, h, a, n, b, m);
    StockSameAgrees(lay, v, h);
    AgreeingImages(lay, v, h, db);
  }

  /** Stores into cells recovery does not look at: the district backup, the counter, the
      order lines and their index. */
  lemma InertPhase(lay: Layout, v: Image, h: Image, a: nat, n: nat, b: nat, m: nat, db: Db)
    requires RecoversTo(lay, v, db) && Undoing(lay, v) && Near(lay, v, h, a, n, b, m)
    requires OnlyKind(lay, NewOrderRow, a, n) && OnlyKind(lay, NewOrderRow, b, m)
    requires Apart(a, n, lay.NewOrderArea()) && Apart(b, m, lay.NewOrderArea())
    ensures RecoversTo(lay, h, db)
  {
    NearArea(lay, v, h, a, n, b, m, lay.NewOrderArea());
    SameAgrees(v, h, lay.NewOrderArea());
    OthersAgree(lay, NewOrderRow, v, h, a, n, b, m, db);
  }

  /** The rows of a table when only its record, or nothing of it, may have changed. */
  lemma RowsKept(lay: Layout, k: Kind, v: Image, h: Image, a: nat, n: nat, b: nat, m: nat)
    requires lay.Ok() && Near(lay, v, h, a, n, b, m)
    requires lay.log <= a && (m == 0 || lay.log <= b)
    ensures Table(h, AreaOf(lay, k)) == Table(v, AreaOf(lay, k))
  {
    var area := AreaOf(lay, k);
    forall i | 0 <= i < area.count
      ensures RowAt(h, area.base, i) == RowAt(v, area.base, i)
    {
    }
  }

  /** Saving index and row while the row's flag is down. */
  lemma SavePhase(lay: Layout, k: Kind, v: Image, h: Image, db: Db)
    requires RecoversTo(lay, v, db) && Undoing(lay, v) && v[AreaOf(lay, k).flag] == 0
    requires Near(lay, v, h, AreaOf(lay, k).indx, 1, AreaOf(lay, k).back, ROW)
    ensures RecoversTo(lay, h, db)
  {
    var area := AreaOf(lay, k);
    RowsKept(lay, k, v, h, area.indx, 1, area.back, ROW);
    assert h[area.flag] == 0;
    OthersAgree(lay, k, v, h, area.indx, 1, area.back, ROW, db);
  }

  /** The record describes the row it names as it stands. */
  ghost predicate RecordTrue(lay: Layout, k: Kind, v: Image, indx: nat)
    requires lay.Ok() && |v| == lay.total && indx < AreaOf(lay, k).count
  {
    && v[AreaOf(lay, k).indx] == indx
    && v[AreaOf(lay, k).back..AreaOf(lay, k).back + ROW] == RowAt(v, AreaOf(lay, k).base, indx)
  }

  /** Raising the flag of a record that describes its row. */
  lemma FlagPhase(lay: Layout, k: Kind, v: Image, h: Image, indx: nat, db: Db)
    requires RecoversTo(lay, v, db) && Undoing(lay, v) && indx < AreaOf(lay, k).count
    requires v[AreaOf(lay, k).flag] == 0 && RecordTrue(lay, k, v, indx)
    requires Near(lay, v, h, AreaOf(lay, k).flag, 1, 0, 0)
    ensures RecoversTo(lay, h, db)
  {
    var area := AreaOf(lay, k);
    RowsKept(lay, k, v, h, area.flag, 1, 0, 0);
    assert h[area.back..area.back + ROW] == v[area.back..area.back + ROW];
    assert Table(h, area)[indx := Table(h, area)[indx]] == Table(h, area);
    OthersAgree(lay, k, v, h, area.flag, 1, 0, 0, db);
  }

  /** Writing the row whose record is raised. */
  lemma RowPhase(lay: Layout, k: Kind, v: Image, h: Image, indx: nat, db: Db)
    requires RecoversTo(lay, v, db) && Undoing(lay, v) && indx < AreaOf(lay, k).count
    requires v[AreaOf(lay, k).flag] != 0 && v[AreaOf(lay, k).indx] == indx
    requires Near(lay, v, h, AreaOf(lay, k).base + ROW * indx, ROW, 0, 0)
    ensures RecoversTo(lay, h, db)
  {
    var area := AreaOf(lay, k);
    assert h[area.back..area.back + ROW] == v[area.back..area.back + ROW];
    forall i | 0 <= i < area.count && i != indx
      ensures Table(h, area)[i] == Table(v, area)[i]
    {
      assert RowAt(h, area.base, i) == RowAt(v, area.base, i);
    }
    OthersAgree(lay, k, v, h, area.base + ROW * indx, ROW, 0, 0, db);
  }

  /** Clearing the flags while `log_valid` is down. */
  lemma ClearPhase(lay: Layout, v: Image, h: Image)
    requires lay.Ok() && |v| == lay.total && !Undoing(lay, v)
    requires Near(lay, v, h, lay.log + DISTRICT_VALID, LOG_VALID - DISTRICT_VALID, 0, 0)
    ensures RecoversTo(lay, h, Tables(lay, v))
  {
    var a, n := lay.log + DISTRICT_VALID, LOG_VALID - DISTRICT_VALID;
    RowsKept(lay, NewOrderRow, v, h, a, n, 0, 0);
    RowsKept(lay, OrderRow, v, h, a, n, 0, 0);
    StockRows(lay, v, h, a, n, 0, 0);
    LoweredRecovers(lay, h);
  }

  ghost predicate FlagsClear(lay: Layout, v: Image)
    requires lay.Ok() && |v| == lay.total
  {
    v[lay.log + NEW_ORDER_VALID] == 0 && v[lay.log + ORDER_VALID] == 0 && v[lay.log + STOCK_VALID] == 0
  }

  lemma {:induction false} NoBitsNoUndo(lay: Layout, h: Image, order: seq<nat>, rows: seq<Row>)
    requires lay.Ok() && |h| == lay.total && h[lay.log + STOCK_VALID] == 0
    requires forall k :: 0 <= k < |order| ==> order[k] < ITEMS_PER_ORDER
    ensures UndoStock(lay, h, order, rows) == rows
    decreases |order|
  {
    if order != [] {
      ZeroHasNoBits(order[|order| - 1] + 1);
      NoBitsNoUndo(lay, h, order[..|order| - 1], rows);
    }
  }

  /** Raising `log_valid` over cleared flags. */
  lemma RaisePhase(lay: Layout, v: Image, h: Image)
    requires lay.Ok() && |v| == lay.total && FlagsClear(lay, v)
    requires Near(lay, v, h, lay.log + LOG_VALID, 1, 0, 0)
    ensures RecoversTo(lay, h, Tables(lay, v))
  {
    RowsKept(lay, NewOrderRow, v, h, lay.log + LOG_VALID, 1, 0, 0);
    RowsKept(lay, OrderRow, v, h, lay.log + LOG_VALID, 1, 0, 0);
    StockRows(lay, v, h, lay.log + LOG_VALID, 1, 0, 0);
    forall order | AnyOrder(order)
      ensures Recover(lay, h, order) == Tables(lay, v)
    {
      NoBitsNoUndo(lay, h, order, StockTable(lay, h));
    }
  }

  /** Lowering `log_valid`: all of before, or all of what stands now. */
  lemma LowerPhase(lay: Layout, v: Image, h: Image, db: Db)
    requires RecoversTo(lay, v, db) && Undoing(lay, v) && Near(lay, v, h, lay.log + LOG_VALID, 1, 0, 0)
    ensures RecoversTo(lay, h, if Undoing(lay, h) then db else Tables(lay, v))
  {
    if Undoing(lay, h) {
      NearArea(lay, v, h, lay.log + LOG_VALID, 1, 0, 0, lay.NewOrderArea());
      NearArea(lay, v, h, lay.log + LOG_VALID, 1, 0, 0, lay.OrderArea());
      NearStock(lay, v, h, lay.log + LOG_VALID, 1, 0, 0);
      StockSameAgrees(lay, v, h);
      AgreeingImages(lay, v, h, db);
    } else {
      RowsKept(lay, NewOrderRow, v, h, lay.log + LOG_VALID, 1, 0, 0);
      RowsKept(lay, OrderRow, v, h, lay.log + LOG_VALID, 1, 0, 0);
      StockRows(lay, v, h, lay.log + LOG_VALID, 1, 0, 0);
      LoweredRecovers(lay, h);
    }
  }

  // ----------------------------------------------------------------------- stock

  /** A store that concerns the stock alone. */
  lemma StockPhase(lay: Layout, v: Image, h: Image, a: nat, n: nat, b: nat, m: nat, db: Db)
    requires RecoversTo(lay, v, db) && Undoing(lay, v) && Near(lay, v, h, a, n, b, m) && Undoing(lay, h)
    requires Apart(a, n, lay.NewOrderArea()) && Apart(b, m, lay.NewOrderArea())
    requires Apart(a, n, lay.OrderArea()) && Apart(b, m, lay.OrderArea())
    requires StockAgrees(lay, v, h)
    ensures RecoversTo(lay, h, db)
  {
    NearArea(lay, v, h, a, n, b, m, lay.NewOrderArea());
    NearArea(lay, v, h, a, n, b, m, lay.OrderArea());
    SameAgrees(v, h, lay.NewOrderArea());
    SameAgrees(v, h, lay.OrderArea());
    AgreeingImages(lay, v, h, db);
  }

  /** Writing a stock row whose record has its bit set. */
  lemma StockRowPhase(lay: Layout, v: Image, h: Image, indx: nat, db: Db)
    requires RecoversTo(lay, v, db) && Undoing(lay, v) && indx < lay.stocks && PutBackAt(lay, v, indx)
    requires Near(lay, v, h, lay.stock + STOCK_ROW * indx, STOCK_ROW, 0, 0)
    ensures RecoversTo(lay, h, db)
  {
    forall k | 0 <= k < ITEMS_PER_ORDER
      ensures SameRecord(lay, v, h, k)
    {
    }
    forall i | 0 <= i < lay.stocks && i != indx
      ensures StockRowAt(h, lay.stock, i) == StockRowAt(v, lay.stock, i)
    {
    }
    StockPhase(lay, v, h, lay.stock + STOCK_ROW * indx, STOCK_ROW, 0, 0, db);
  }

  ghost predicate RowsRecoverTo(lay: Layout, h: Image, db: Db) {
    && lay.Ok() && |h| == lay.total
    && RecoverArea(h, lay.NewOrderArea(), Undoing(lay, h)) == db.newOrders
    && RecoverArea(h, lay.OrderArea(), Undoing(lay, h)) == db.orders
  }

  /** Order item `k` may be recorded: its bit is down and no raised record names row `indx`. */
  ghost predicate Recordable(lay: Layout, v: Image, k: nat, indx: nat)
    requires lay.Ok() && |v| == lay.total
  {
    && k < ITEMS_PER_ORDER && indx < lay.stocks && !ItemBit(v[lay.log + STOCK_VALID], k)
    && forall j :: 0 <= j < ITEMS_PER_ORDER && ItemBit(v[lay.log + STOCK_VALID], j) ==> v[StockIndx(lay, j)] != indx
  }

  /** Index, saved row and bit of order item `k`, stored one after another. */
  function RecordWrites(lay: Layout, v: Image, k: nat, indx: nat): (r: Writes)
    requires lay.Ok() && |v| == lay.total && k < ITEMS_PER_ORDER && indx < lay.stocks
  {
    [(StockIndx(lay, k), [indx]), (StockBack(lay, k), StockRowAt(v, lay.stock, indx)),
     (lay.log + STOCK_VALID, [OrBit(v[lay.log + STOCK_VALID], k + 1)])]
  }

  /** Between `v` and `w`: outside the district table every cell is one of the two. */
  ghost predicate Within(lay: Layout, v: Image, w: Image, h: Image) {
    |v| == |w| == |h| == lay.total &&
    forall i :: 0 <= i < lay.total && !(lay.district <= i < lay.stock) ==> h[i] == v[i] || h[i] == w[i]
  }

  predicate RecordCell(lay: Layout, k: nat, i: nat) {
    i == StockIndx(lay, k) || i == lay.log + STOCK_VALID || StockBack(lay, k) <= i < StockBack(lay, k) + STOCK_ROW
  }

  /** `w` is `v` with the record of item `k` written. */
  ghost predicate Recorded(lay: Layout, v: Image, w: Image, k: nat, indx: nat)
    requires lay.Ok() && |v| == lay.total && k < ITEMS_PER_ORDER && indx < lay.stocks
  {
    && |w| == lay.total
    && w[StockIndx(lay, k)] == indx
    && w[StockBack(lay, k)..StockBack(lay, k) + STOCK_ROW] == StockRowAt(v, lay.stock, indx)
    && w[lay.log + STOCK_VALID] == OrBit(v[lay.log + STOCK_VALID], k + 1)
    && forall i :: 0 <= i < lay.total && !RecordCell(lay, k, i) ==> w[i] == v[i]
  }

  lemma RecordWritten(lay: Layout, v: Image, k: nat, indx: nat)
    requires lay.Ok() && |v| == lay.total && k < ITEMS_PER_ORDER && indx < lay.stocks
    ensures WritesFit(|v|, RecordWrites(lay, v, k, indx))
    ensures Recorded(lay, v, ApplyWrites(v, RecordWrites(lay, v, k, indx)), k, indx)
  {
    var ws := RecordWrites(lay, v, k, indx);
    ThreeWrites(v, ws[0], ws[1], ws[2]);
    RecordIs(lay, v, k, indx);
  }

  lemma RecordIs(lay: Layout, v: Image, k: nat, indx: nat)
    requires lay.Ok() && |v| == lay.total && k < ITEMS_PER_ORDER && indx < lay.stocks
    ensures var row := StockRowAt(v, lay.stock, indx);
            var w := Overwrite(Overwrite(v, StockIndx(lay, k), [indx]), StockBack(lay, k), row);
            Recorded(lay, v, Overwrite(w, lay.log + STOCK_VALID, [OrBit(v[lay.log + STOCK_VALID], k + 1)]), k, indx)
  {}

  /** Records other than item `k`'s are the same anywhere between `v` and `w`. */
  lemma OtherRecords(lay: Layout, v: Image, w: Image, h: Image, k: nat, indx: nat, j: nat)
    requires lay.Ok() && |v| == lay.total && k < ITEMS_PER_ORDER && indx < lay.stocks && j < ITEMS_PER_ORDER && j != k
    requires Recorded(lay, v, w, k, indx) && Within(lay, v, w, h)
    ensures SameRecord(lay, v, h, j)
  {
    forall i | StockBack(lay, j) <= i < StockBack(lay, j) + STOCK_ROW
      ensures h[i] == v[i]
    {
    }
  }

  /** Seen from `v`, the window moves the item's record, and then the bitset. */
  lemma WindowNear(lay: Layout, v: Image, w: Image, h: Image, k: nat, indx: nat) returns (g: Image)
    requires lay.Ok() && |v| == lay.total && k < ITEMS_PER_ORDER && indx < lay.stocks
    requires Recorded(lay, v, w, k, indx) && Within(lay, v, w, h)
    ensures Near(lay, v, g, StockIndx(lay, k), 1, StockBack(lay, k), STOCK_ROW)
    ensures Near(lay, g, h, lay.log + STOCK_VALID, 1, 0, 0)
  {
    g := h[lay.log + STOCK_VALID := v[lay.log + STOCK_VALID]];
  }

  lemma WindowRows(lay: Layout, v: Image, w: Image, h: Image, k: nat, indx: nat)
    requires lay.Ok() && |v| == lay.total && k < ITEMS_PER_ORDER && indx < lay.stocks
    requires Recorded(lay, v, w, k, indx) && Within(lay, v, w, h)
    ensures StockTable(lay, h) == StockTable(lay, v) && Undoing(lay, h) == Undoing(lay, v)
    ensures AreaSame(v, h, lay.NewOrderArea()) && AreaSame(v, h, lay.OrderArea())
  {
    var g := WindowNear(lay, v, w, h, k, indx);
    StockRows(lay, v, g, StockIndx(lay, k), 1, StockBack(lay, k), STOCK_ROW);
    StockRows(lay, g, h, lay.log + STOCK_VALID, 1, 0, 0);
    WindowArea(lay, v, g, h, k, lay.NewOrderArea());
    WindowArea(lay, v, g, h, k, lay.OrderArea());
  }

  lemma StockRows(lay: Layout, v: Image, h: Image, a: nat, n: nat, b: nat, m: nat)
    requires lay.Ok() && Near(lay, v, h, a, n, b, m) && lay.log <= a && (m == 0 || lay.log <= b)
    ensures StockTable(lay, h) == StockTable(lay, v)
  {
    forall i | 0 <= i < lay.stocks
      ensures StockRowAt(h, lay.stock, i) == StockRowAt(v, lay.stock, i)
    {
    }
  }

  lemma WindowArea(lay: Layout, v: Image, g: Image, h: Image, k: nat, area: Area)
    requires Outside(lay, area) && Near(lay, v, g, StockIndx(lay, k), 1, StockBack(lay, k), STOCK_ROW)
    requires Near(lay, g, h, lay.log + STOCK_VALID, 1, 0, 0)
    requires Apart(StockIndx(lay, k), 1, area) && Apart(StockBack(lay, k), STOCK_ROW, area)
    requires Apart(lay.log + STOCK_VALID, 1, area)
    ensures AreaSame(v, h, area)
  {
    NearArea(lay, v, g, StockIndx(lay, k), 1, StockBack(lay, k), STOCK_ROW, area);
    NearArea(lay, g, h, lay.log + STOCK_VALID, 1, 0, 0, area);
  }

  lemma WindowAgrees(lay: Layout, v: Image, w: Image, h: Image, k: nat, indx: nat)
    requires lay.Ok() && |v| == lay.total && Recordable(lay, v, k, indx)
    requires Recorded(lay, v, w, k, indx) && Within(lay, v, w, h)
    requires h[lay.log + STOCK_VALID] == v[lay.log + STOCK_VALID] && StockTable(lay, h) == StockTable(lay, v)
    ensures StockAgrees(lay, v, h)
  {
    forall j | 0 <= j < ITEMS_PER_ORDER && ItemBit(v[lay.log + STOCK_VALID], j)
      ensures SameRecord(lay, v, h, j)
    {
      OtherRecords(lay, v, w, h, k, indx, j);
    }
    forall i | 0 <= i < lay.stocks
      ensures StockRowAt(h, lay.stock, i) == StockRowAt(v, lay.stock, i)
    {
      assert StockTable(lay, h)[i] == StockTable(lay, v)[i];
    }
  }

  /** With all of the record written, undoing puts row `indx` back as it stands. */
  lemma {:induction false} RecordedUndoes(lay: Layout, v: Image, w: Image, k: nat, indx: nat, order: seq<nat>)
    requires lay.Ok() && |v| == lay.total && Recordable(lay, v, k, indx) && Recorded(lay, v, w, k, indx)
    requires StockTable(lay, w) == StockTable(lay, v)
    requires forall j :: 0 <= j < |order| ==> order[j] < ITEMS_PER_ORDER
    ensures UndoStock(lay, w, order, StockTable(lay, w)) == UndoStock(lay, v, order, StockTable(lay, v))
    ensures UndoStock(lay, v, order, StockTable(lay, v))[indx] == StockRowAt(v, lay.stock, indx)
    decreases |order|
  {
    if order != [] {
      var j := order[|order| - 1];
      RecordedUndoes(lay, v, w, k, indx, order[..|order| - 1]);
      OrBitSets(v[lay.log + STOCK_VALID], k + 1, j + 1);
      if j != k {
        OtherRecords(lay, v, w, w, k, indx, j);
      }
    }
  }

  lemma RecordedRecovers(lay: Layout, v: Image, w: Image, k: nat, indx: nat, db: Db)
    requires RecoversTo(lay, v, db) && Undoing(lay, v) && Recordable(lay, v, k, indx) && Recorded(lay, v, w, k, indx)
    ensures RecoversTo(lay, w, db) && Undoing(lay, w)
  {
    WindowRows(lay, v, w, w, k, indx);
    forall order | AnyOrder(order)
      ensures Recover(lay, w, order) == db
    {
      RecordedUndoes(lay, v, w, k, indx, order);
      assert Recover(lay, v, order) == db;
    }
  }

  /** The record of item `k` does no harm: its bit is down, it names no row, or it saves
      the row it names as it was. */
  ghost predicate Harmless(lay: Layout, h: Image, k: nat, db: Db)
    requires lay.Ok() && |h| == lay.total && k < ITEMS_PER_ORDER && |db.stock| == lay.stocks
  {
    ItemBit(h[lay.log + STOCK_VALID], k) && 0 <= h[StockIndx(lay, k)] < lay.stocks ==>
      h[StockBack(lay, k)..StockBack(lay, k) + STOCK_ROW] == db.stock[h[StockIndx(lay, k)]]
  }

  /** Row by row, undoing `h` does what undoing `v` does, but may put the right row where
      the torn record points. */
  ghost predicate UndoneAlike(a: seq<Row>, b: seq<Row>, at: int, row: Row) {
    |a| == |b| && forall i :: 0 <= i < |a| ==> a[i] == b[i] || (i == at && a[i] == row)
  }

  lemma {:induction false} WindowUndoes(lay: Layout, v: Image, w: Image, h: Image, k: nat, indx: nat, order: seq<nat>)
    requires lay.Ok() && |v| == lay.total && Recordable(lay, v, k, indx) && Recorded(lay, v, w, k, indx) &&
             Within(lay, v, w, h)
    requires StockTable(lay, h) == StockTable(lay, v)
    requires forall j :: 0 <= j < |order| ==> order[j] < ITEMS_PER_ORDER
    ensures UndoneAlike(UndoStock(lay, h, order, StockTable(lay, h)), UndoStock(lay, v, order, StockTable(lay, v)),
                        h[StockIndx(lay, k)], h[StockBack(lay, k)..StockBack(lay, k) + STOCK_ROW])
    decreases |order|
  {
    if order != [] {
      var j := order[|order| - 1];
      WindowUndoes(lay, v, w, h, k, indx, order[..|order| - 1]);
      OrBitSets(v[lay.log + STOCK_VALID], k + 1, j + 1);
      if j != k {
        OtherRecords(lay, v, w, h, k, indx, j);
      }
    }
  }

  lemma HarmlessRecovers(lay: Layout, v: Image, w: Image, h: Image, k: nat, indx: nat, db: Db)
    requires RecoversTo(lay, v, db) && Undoing(lay, v) && Recordable(lay, v, k, indx)
    requires Recorded(lay, v, w, k, indx) && Within(lay, v, w, h) && RowsRecoverTo(lay, h, db) && Undoing(lay, h)
    requires StockTable(lay, h) == StockTable(lay, v) && |db.stock| == lay.stocks && Harmless(lay, h, k, db)
    requires ItemBit(h[lay.log + STOCK_VALID], k)
    ensures RecoversTo(lay, h, db)
  {
    forall order | AnyOrder(order)
      ensures Recover(lay, h, order) == db
    {
      assert Recover(lay, v, order) == db;
      WindowUndoes(lay, v, w, h, k, indx, order);
      var got := UndoStock(lay, h, order, StockTable(lay, h));
      assert forall i :: 0 <= i < |got| ==> got[i] == db.stock[i];
    }
  }

  /** A durable bit over a record that is not the row of before is fatal, whatever the rest
      of the image holds. */
  lemma TornBitCorrupts(lay: Layout, h: Image, db: Db, k: nat)
    requires lay.Ok() && |h| == lay.total && Undoing(lay, h) && k < ITEMS_PER_ORDER && |db.stock| == lay.stocks
    requires !Harmless(lay, h, k, db)
    ensures !RecoversTo(lay, h, db)
  {
    var any := Ascending();
    var order := any + [k];
    assert AnyOrder(order) by {
      forall j | 0 <= j < ITEMS_PER_ORDER ensures j in order { assert order[j] == j; }
    }
    assert order[..|order| - 1] == any;
    assert Recover(lay, h, order).stock[h[StockIndx(lay, k)]] == h[StockBack(lay, k)..StockBack(lay, k) + STOCK_ROW];
  }

  function Ascending(): (r: seq<nat>)
    ensures |r| == ITEMS_PER_ORDER && forall j :: 0 <= j < ITEMS_PER_ORDER ==> r[j] == j
  {
    seq(ITEMS_PER_ORDER, j requires 0 <= j < ITEMS_PER_ORDER => j)
  }

  lemma AscendingIsComplete()
    ensures AnyOrder(Ascending())
  {
    forall j | 0 <= j < ITEMS_PER_ORDER ensures j in Ascending() { assert Ascending()[j] == j; }
  }

  /** While the record is being written the two tables are safe throughout, and the stock
      exactly as long as the record does no harm. */
  lemma WindowPhase(lay: Layout, v: Image, w: Image, h: Image, k: nat, indx: nat, db: Db)
    requires RecoversTo(lay, v, db) && Undoing(lay, v) && Recordable(lay, v, k, indx)
    requires Recorded(lay, v, w, k, indx) && Within(lay, v, w, h)
    ensures RowsRecoverTo(lay, h, db) && |db.stock| == lay.stocks
    ensures RecoversTo(lay, h, db) <==> Harmless(lay, h, k, db)
  {
    WindowRows(lay, v, w, h, k, indx);
    AscendingIsComplete();
    assert Recover(lay, v, Ascending()) == db;
    if !ItemBit(h[lay.log + STOCK_VALID], k) {
      UnsetRecovers(lay, v, w, h, k, indx, db);
    } else if Harmless(lay, h, k, db) {
      HarmlessRecovers(lay, v, w, h, k, indx, db);
    } else {
      TornBitCorrupts(lay, h, db, k);
    }
  }

  lemma UnsetRecovers(lay: Layout, v: Image, w: Image, h: Image, k: nat, indx: nat, db: Db)
    requires RecoversTo(lay, v, db) && Undoing(lay, v) && Recordable(lay, v, k, indx)
    requires Recorded(lay, v, w, k, indx) && Within(lay, v, w, h) && !ItemBit(h[lay.log + STOCK_VALID], k)
    ensures RecoversTo(lay, h, db)
  {
    WindowRows(lay, v, w, h, k, indx);
    OrBitSets(v[lay.log + STOCK_VALID], k + 1, k + 1);
    assert h[lay.log + STOCK_VALID] == v[lay.log + STOCK_VALID];
    WindowAgrees(lay, v, w, h, k, indx);
    AgreeingImages(lay, v, h, db);
  }
}

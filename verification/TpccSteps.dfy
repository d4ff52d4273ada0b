/** What each phase of the new-order transaction needs beforehand and leaves behind. */
module TpccSteps {
  import opened PersistentMemory
  import opened TpccLog
  import opened TpccPhases
  import opened TpccWindow

  ghost predicate WritesIn(writes: Writes, a: nat, n: nat, b: nat, m: nat) {
    forall j :: 0 <= j < |writes| ==>
      || (a <= writes[j].0 && writes[j].0 + |writes[j].1| <= a + n)
      || (b <= writes[j].0 && writes[j].0 + |writes[j].1| <= b + m)
  }

  lemma {:induction false} WritesStayNear(lay: Layout, v0: Image, v: Image, writes: Writes, a: nat, n: nat, b: nat,
                                          m: nat)
    requires Near(lay, v0, v, a, n, b, m) && WritesIn(writes, a, n, b, m) && a + n <= lay.total && b + m <= lay.total
    ensures WritesFit(|v|, writes) && Near(lay, v0, ApplyWrites(v, writes), a, n, b, m)
    ensures WritesStay((h: Image) => Near(lay, v0, h, a, n, b, m), v, writes)
    decreases |writes|
  {
    if writes != [] {
      WritesStayNear(lay, v0, Overwrite(v, writes[0].0, writes[0].1), writes[1..], a, n, b, m);
    }
  }

  lemma NearPhase(lay: Layout, perLine: nat, v: Image, writes: Writes, a: nat, n: nat, b: nat, m: nat)
    requires perLine > 0 && |v| == lay.total && WritesIn(writes, a, n, b, m) && a + n <= lay.total && b + m <= lay.total
    ensures WritesFit(|v|, writes) && Near(lay, v, ApplyWrites(v, writes), a, n, b, m)
    ensures var P := (h: Image) => Near(lay, v, h, a, n, b, m); Linewise(perLine, P) && WritesPass(P, v, writes)
  {
    var P := (h: Image) => Near(lay, v, h, a, n, b, m);
    NearCellwise(lay, v, a, n, b, m);
    WritesStayNear(lay, v, v, writes, a, n, b, m);
    CellwisePhase(perLine, P, v, writes);
  }

  function CounterCell(lay: Layout, d: nat): (r: nat) {
    lay.district + DISTRICT_ROW * d + NEXT_O_ID
  }

  ghost predicate CountersAre(lay: Layout, v: Image, counters: seq<nat>)
    requires lay.Ok() && |v| == lay.total
  {
    |counters| == lay.districts && forall d :: 0 <= d < lay.districts ==> v[CounterCell(lay, d)] == counters[d]
  }

  ghost function CountersOf(lay: Layout, v: Image): (r: seq<nat>)
    requires lay.Ok() && |v| == lay.total && forall d :: 0 <= d < lay.districts ==> v[CounterCell(lay, d)] >= 0
    ensures CountersAre(lay, v, r)
  {
    seq(lay.districts, d requires 0 <= d < lay.districts => v[CounterCell(lay, d)] as nat)
  }

  lemma RecordKeepsCounters(lay: Layout, v: Image, w: Image, k: nat, indx: nat, counters: seq<nat>)
    requires lay.Ok() && |v| == lay.total && k < ITEMS_PER_ORDER && indx < lay.stocks && Recorded(lay, v, w, k, indx)
    requires CountersAre(lay, v, counters)
    ensures CountersAre(lay, w, counters)
  {
    forall d | 0 <= d < lay.districts
      ensures w[CounterCell(lay, d)] == counters[d]
    {
      assert !RecordCell(lay, k, CounterCell(lay, d));
    }
  }

  lemma {:induction false} WritesKeepCounters(lay: Layout, v: Image, writes: Writes, counters: seq<nat>)
    requires lay.Ok() && |v| == lay.total && CountersAre(lay, v, counters)
    requires WritesFit(|v|, writes) && forall j :: 0 <= j < |writes| && |writes[j].1| > 0 ==> lay.stock <= writes[j].0
    ensures CountersAre(lay, ApplyWrites(v, writes), counters)
    decreases |writes|
  {
    if writes != [] {
      WritesKeepCounters(lay, Overwrite(v, writes[0].0, writes[0].1), writes[1..], counters);
    }
  }

  /** Item `k` has joined the recorded ones. */
  ghost predicate OneMoreItem(lay: Layout, v: Image, w: Image, k: nat, indx: nat)
    requires lay.Ok() && |v| == |w| == lay.total
  {
    forall j :: 0 <= j < ITEMS_PER_ORDER ==> ItemNow(lay, v, w, k, indx, j)
  }

  ghost predicate ItemNow(lay: Layout, v: Image, w: Image, k: nat, indx: nat, j: nat)
    requires lay.Ok() && |v| == |w| == lay.total && j < ITEMS_PER_ORDER
  {
    && (ItemBit(w[lay.log + STOCK_VALID], j) <==> j == k || ItemBit(v[lay.log + STOCK_VALID], j))
    && w[StockIndx(lay, j)] == if j == k then indx else v[StockIndx(lay, j)]
  }

  lemma OneMoreKept(lay: Layout, u: Image, v: Image, w: Image, k: nat, indx: nat)
    requires lay.Ok() && |u| == |v| == |w| == lay.total && OneMoreItem(lay, u, v, k, indx) && SameBits(lay, v, w)
    ensures OneMoreItem(lay, u, w, k, indx)
  {
    forall j | 0 <= j < ITEMS_PER_ORDER
      ensures ItemNow(lay, u, w, k, indx, j)
    {
      assert ItemNow(lay, u, v, k, indx, j);
    }
  }

  lemma RecordedLines(lay: Layout, v: Image, w: Image, k: nat, indx: nat)
    requires lay.Ok() && |v| == lay.total && k < ITEMS_PER_ORDER && indx < lay.stocks && Recorded(lay, v, w, k, indx)
    ensures LineTable(lay, w) == LineTable(lay, v)
  {
    forall i | 0 <= i < lay.lines
      ensures RowAt(w, lay.orderLine, i) == RowAt(v, lay.orderLine, i)
    {
    }
  }

  lemma RecordedFacts(lay: Layout, v: Image, w: Image, k: nat, indx: nat)
    requires lay.Ok() && |v| == lay.total && k < ITEMS_PER_ORDER && indx < lay.stocks && Recorded(lay, v, w, k, indx)
    ensures SameRows(lay, v, w) && StockTable(lay, w) == StockTable(lay, v) && OneMoreItem(lay, v, w, k, indx)
    ensures LineTable(lay, w) == LineTable(lay, v)
    ensures PutBackAt(lay, w, indx) && StockRowAt(w, lay.stock, indx) == StockRowAt(v, lay.stock, indx)
  {
    WindowRows(lay, v, w, w, k, indx);
    RecordedLines(lay, v, w, k, indx);
    assert StockTable(lay, w)[indx] == StockTable(lay, v)[indx];
    forall j | 0 <= j < ITEMS_PER_ORDER
      ensures ItemNow(lay, v, w, k, indx, j)
    {
      OrBitSets(v[lay.log + STOCK_VALID], k + 1, j + 1);
    }
    assert ItemNow(lay, v, w, k, indx, k);
  }

  lemma LineReady(lay: Layout, v: Image, indx: nat, pre: Db, C: Image -> bool)
    requires RecoversTo(lay, v, pre) && Undoing(lay, v) && indx < lay.lines
    requires forall h: Image :: RecoversTo(lay, h, pre) ==> C(h)
    ensures forall h: Image :: Near(lay, v, h, lay.orderLine + ROW * indx, ROW, lay.log + LINE_VALID, 2) ==> C(h)
  {
    forall h: Image | Near(lay, v, h, lay.orderLine + ROW * indx, ROW, lay.log + LINE_VALID, 2)
      ensures C(h)
    {
      LineKept(lay, v, h, indx, pre);
    }
  }

  lemma LineKept(lay: Layout, v: Image, w: Image, indx: nat, pre: Db)
    requires RecoversTo(lay, v, pre) && Undoing(lay, v) && indx < lay.lines
    requires Near(lay, v, w, lay.orderLine + ROW * indx, ROW, lay.log + LINE_VALID, 2)
    ensures RecoversTo(lay, w, pre) && Undoing(lay, w) && SameRows(lay, v, w) && StockSame(lay, v, w)
  {
    var at, flag := lay.orderLine + ROW * indx, lay.log + LINE_VALID;
    InertPhase(lay, v, w, at, ROW, flag, 2, pre);
    NearArea(lay, v, w, at, ROW, flag, 2, lay.NewOrderArea());
    NearArea(lay, v, w, at, ROW, flag, 2, lay.OrderArea());
    NearStock(lay, v, w, at, ROW, flag, 2);
  }

  lemma LineStored(lay: Layout, v: Image, indx: nat, xs: seq<int>, i: nat)
    requires lay.Ok() && |v| == lay.total && indx < lay.lines && |xs| <= ROW && i < lay.lines
    ensures RowAt(Overwrite(v, lay.orderLine + ROW * indx, xs), lay.orderLine, i) ==
            if i == indx then Overwrite(RowAt(v, lay.orderLine, indx), 0, xs) else RowAt(v, lay.orderLine, i)
  {
    if i != indx {
      var from := lay.orderLine + ROW * i;
      OverwriteElsewhere(v, lay.orderLine + ROW * indx, xs, from, from + ROW);
    }
  }

  lemma LineStore(lay: Layout, v: Image, indx: nat, xs: seq<int>)
    requires lay.Ok() && |v| == lay.total && indx < lay.lines && |xs| <= ROW
    ensures var lines := LineTable(lay, v);
            LineTable(lay, Overwrite(v, lay.orderLine + ROW * indx, xs)) == lines[indx := Overwrite(lines[indx], 0, xs)]
  {
    var u, lines := Overwrite(v, lay.orderLine + ROW * indx, xs), LineTable(lay, v);
    forall i | 0 <= i < lay.lines
      ensures LineTable(lay, u)[i] == if i == indx then Overwrite(lines[indx], 0, xs) else lines[i]
    {
      LineStored(lay, v, indx, xs, i);
    }
  }

  lemma LinesElsewhere(lay: Layout, u: Image, at: nat, x: int)
    requires lay.Ok() && |u| == lay.total && lay.newOrder <= at < lay.total
    ensures LineTable(lay, Overwrite(u, at, [x])) == LineTable(lay, u)
  {
    forall i | 0 <= i < lay.lines
      ensures RowAt(Overwrite(u, at, [x]), lay.orderLine, i) == RowAt(u, lay.orderLine, i)
    {
      OverwriteElsewhere(u, at, [x], lay.orderLine + ROW * i, lay.orderLine + ROW * i + ROW);
    }
  }

  /** What the two stores of an order line make of the table. */
  lemma LineMade(lay: Layout, v: Image, w: Image, indx: nat, xs: seq<int>, at: nat)
    requires lay.Ok() && |v| == lay.total && indx < lay.lines && |xs| <= ROW && at == lay.orderLine + ROW * indx
    requires var ws := [(at, xs), (lay.log + LINE_VALID, [indx])]; WritesFit(|v|, ws) && w == ApplyWrites(v, ws)
    ensures var lines := LineTable(lay, v); LineTable(lay, w) == lines[indx := Overwrite(lines[indx], 0, xs)]
  {
    TwoWrites(v, (at, xs), (lay.log + LINE_VALID, [indx]));
    BothStored(lay, v, w, indx, xs, at);
  }

  lemma BothStored(lay: Layout, v: Image, w: Image, indx: nat, xs: seq<int>, at: nat)
    requires lay.Ok() && |v| == lay.total && indx < lay.lines && |xs| <= ROW && at == lay.orderLine + ROW * indx
    requires w == Overwrite(Overwrite(v, at, xs), lay.log + LINE_VALID, [indx])
    ensures var lines := LineTable(lay, v); LineTable(lay, w) == lines[indx := Overwrite(lines[indx], 0, xs)]
  {
    var u := Overwrite(v, at, xs);
    LineStore(lay, v, indx, xs);
    LinesElsewhere(lay, u, lay.log + LINE_VALID, indx);
  }

  lemma LineWritten(at: nat, flag: nat, xs: seq<int>, indx: nat)
    requires |xs| <= ROW
    ensures forall i: nat :: InWrites([(at, xs), (flag, [indx])], i) ==> at <= i < at + ROW || flag <= i < flag + 2
  {}

  // offsets in stock_entry
  const QUANTITY: nat := 2
  const YTD: nat := 63
  const ORDER_CNT: nat := 64
  const SOLD_UNITS := 7

  /** A stock row after one sale. */
  function Sold(row: Row): (r: Row)
    requires |row| == STOCK_ROW
    ensures |r| == STOCK_ROW
  {
    var q := row[QUANTITY] - SOLD_UNITS;
    row[QUANTITY := if q > 10 then q else q + 91][YTD := row[YTD] + SOLD_UNITS][ORDER_CNT := row[ORDER_CNT] + 1]
  }

  ghost function SoldAt(v: Image, at: nat): (r: Image)
    requires at + STOCK_ROW <= |v|
  {
    var q := v[at + QUANTITY] - SOLD_UNITS;
    v[at + QUANTITY := if q > 10 then q else q + 91]
    [at + YTD := v[at + YTD] + SOLD_UNITS]
    [at + ORDER_CNT := v[at + ORDER_CNT] + 1]
  }

  /** Both single-row tables and their records are the same. */
  ghost predicate SameRows(lay: Layout, v: Image, w: Image)
    requires lay.Ok() && |v| == |w| == lay.total
  {
    AreaSame(v, w, lay.NewOrderArea()) && AreaSame(v, w, lay.OrderArea())
  }

  ghost predicate SameBits(lay: Layout, v: Image, w: Image)
    requires lay.Ok() && |v| == |w| == lay.total
  {
    && w[lay.log + STOCK_VALID] == v[lay.log + STOCK_VALID]
    && forall k :: 0 <= k < ITEMS_PER_ORDER ==> w[StockIndx(lay, k)] == v[StockIndx(lay, k)]
  }

  lemma SellReady(lay: Layout, v: Image, indx: nat, pre: Db, C: Image -> bool)
    requires RecoversTo(lay, v, pre) && Undoing(lay, v) && indx < lay.stocks && PutBackAt(lay, v, indx)
    requires forall h: Image :: RecoversTo(lay, h, pre) ==> C(h)
    ensures var at := lay.stock + STOCK_ROW * indx;
            at + STOCK_ROW <= lay.total && forall h: Image :: Near(lay, v, h, at, STOCK_ROW, 0, 0) ==> C(h)
  {
    var at := lay.stock + STOCK_ROW * indx;
    forall h: Image | Near(lay, v, h, at, STOCK_ROW, 0, 0)
      ensures C(h)
    {
      StockRowPhase(lay, v, h, indx, pre);
    }
  }

  lemma SellKept(lay: Layout, v: Image, w: Image, indx: nat, pre: Db)
    requires RecoversTo(lay, v, pre) && Undoing(lay, v) && indx < lay.stocks && PutBackAt(lay, v, indx)
    requires Near(lay, v, w, lay.stock + STOCK_ROW * indx, STOCK_ROW, 0, 0)
    ensures RecoversTo(lay, w, pre) && Undoing(lay, w) && SameRows(lay, v, w) && SameBits(lay, v, w) &&
            SameSlots(lay, v, w) && LineTable(lay, w) == LineTable(lay, v)
  {
    var at := lay.stock + STOCK_ROW * indx;
    NearLines(lay, v, w, at, STOCK_ROW, 0, 0);
    StockRowPhase(lay, v, w, indx, pre);
    NearSlots(lay, v, w, at, STOCK_ROW);
    NearArea(lay, v, w, at, STOCK_ROW, 0, 0, lay.NewOrderArea());
    NearArea(lay, v, w, at, STOCK_ROW, 0, 0, lay.OrderArea());
  }

  lemma SellDone(lay: Layout, v: Image, w: Image, indx: nat, pre: Db)
    requires RecoversTo(lay, v, pre) && Undoing(lay, v) && indx < lay.stocks && PutBackAt(lay, v, indx)
    requires w == SoldAt(v, lay.stock + STOCK_ROW * indx)
    ensures RecoversTo(lay, w, pre) && Undoing(lay, w) && SameRows(lay, v, w) && SameBits(lay, v, w) &&
            SameSlots(lay, v, w) && LineTable(lay, w) == LineTable(lay, v)
    ensures StockTable(lay, w) == StockTable(lay, v)[indx := Sold(StockRowAt(v, lay.stock, indx))]
  {
    SellKept(lay, v, w, indx, pre);
    SellMade(lay, v, indx);
  }

  lemma SellMade(lay: Layout, v: Image, indx: nat)
    requires lay.Ok() && |v| == lay.total && indx < lay.stocks
    ensures StockTable(lay, SoldAt(v, lay.stock + STOCK_ROW * indx)) ==
            StockTable(lay, v)[indx := Sold(StockRowAt(v, lay.stock, indx))]
  {
    var at := lay.stock + STOCK_ROW * indx;
    var row := StockRowAt(v, lay.stock, indx);
    var q := v[at + QUANTITY] - SOLD_UNITS;
    RowCells(v, at, if q > 10 then q else q + 91, v[at + YTD] + SOLD_UNITS, v[at + ORDER_CNT] + 1);
    StockStore(lay, v, indx, Sold(row));
  }

  lemma StockStore(lay: Layout, v: Image, indx: nat, row: Row)
    requires lay.Ok() && |v| == lay.total && indx < lay.stocks && |row| == STOCK_ROW
    ensures StockTable(lay, Overwrite(v, lay.stock + STOCK_ROW * indx, row)) == StockTable(lay, v)[indx := row]
  {
    var at := lay.stock + STOCK_ROW * indx;
    OverwriteSlice(v, at, row);
    forall i | 0 <= i < lay.stocks && i != indx
      ensures StockRowAt(Overwrite(v, at, row), lay.stock, i) == StockRowAt(v, lay.stock, i)
    {
      OverwriteElsewhere(v, at, row, lay.stock + STOCK_ROW * i, lay.stock + STOCK_ROW * i + STOCK_ROW);
    }
  }

  lemma RowCells(v: Image, at: nat, x: int, y: int, z: int)
    requires at + STOCK_ROW <= |v|
    ensures v[at + QUANTITY := x][at + YTD := y][at + ORDER_CNT := z] ==
            Overwrite(v, at, v[at..at + STOCK_ROW][QUANTITY := x][YTD := y][ORDER_CNT := z])
  {}

  function RecordRanges(lay: Layout, k: nat): (r: Ranges) {
    [(StockIndx(lay, k), 1), (StockBack(lay, k), STOCK_ROW), (lay.log + STOCK_VALID, 2)]
  }

  lemma RecordFlushed(lay: Layout, v: Image, k: nat, indx: nat)
    requires lay.Ok() && |v| == lay.total && k < ITEMS_PER_ORDER && indx < lay.stocks
    ensures RangesFit(lay.total, RecordRanges(lay, k))
    ensures forall i: nat :: InWrites(RecordWrites(lay, v, k, indx), i) ==> InRanges(RecordRanges(lay, k), i)
  {
    var ws, ranges := RecordWrites(lay, v, k, indx), RecordRanges(lay, k);
    forall i: nat | InWrites(ws, i)
      ensures InRanges(ranges, i)
    {
      var j :| 0 <= j < |ws| && ws[j].0 <= i < ws[j].0 + |ws[j].1|;
      assert ranges[j].0 <= i < ranges[j].0 + ranges[j].1;
    }
  }

  lemma RecordReady(lay: Layout, perLine: nat, v: Image, k: nat, indx: nat, counters: seq<nat>, pre: Db,
                    D: (Image, nat) -> bool)
    requires RecoversTo(lay, v, pre) && Undoing(lay, v) && Recordable(lay, v, k, indx) && CountersAre(lay, v, counters)
    requires perLine > 0 && forall h: Image :: TornFrom(lay, perLine, v, k, indx, h) ==> D(h, k)
    ensures var writes := RecordWrites(lay, v, k, indx);
            && WritesFit(|v|, writes) && RangesFit(lay.total, RecordRanges(lay, k))
            && (forall i: nat :: InWrites(writes, i) ==> InRanges(RecordRanges(lay, k), i))
            && var w := ApplyWrites(v, writes);
            && WritesPass((h: Image) => Torn(lay, perLine, v, w, h), v, writes) && Recorded(lay, v, w, k, indx)
            && RecoversTo(lay, w, pre) && Undoing(lay, w) && CountersAre(lay, w, counters)
            && forall h: Image :: Torn(lay, perLine, v, w, h) ==> D(h, k)
  {
    RecordWritten(lay, v, k, indx);
    RecordPasses(lay, perLine, v, k, indx);
    RecordFlushed(lay, v, k, indx);
    var w := ApplyWrites(v, RecordWrites(lay, v, k, indx));
    RecordedRecovers(lay, v, w, k, indx, pre);
    RecordKeepsCounters(lay, v, w, k, indx, counters);
    forall h: Image | Torn(lay, perLine, v, w, h)
      ensures D(h, k)
    {
      assert TornFrom(lay, perLine, v, k, indx, h);
    }
  }

  /** Apart from one table and its record, all that recovery looks at is the same, and the
      order lines are. */
  ghost predicate Kept(lay: Layout, kind: Kind, v: Image, w: Image)
    requires lay.Ok() && |v| == |w| == lay.total
  {
    AreaSame(v, w, AreaOf(lay, Other(kind))) && StockSame(lay, v, w) && LineTable(lay, w) == LineTable(lay, v)
  }

  lemma KeptTwice(lay: Layout, kind: Kind, u: Image, v: Image, w: Image)
    requires lay.Ok() && |u| == |v| == |w| == lay.total && Kept(lay, kind, u, v) && Kept(lay, kind, v, w)
    ensures Kept(lay, kind, u, w)
  {
    forall k | 0 <= k < ITEMS_PER_ORDER
      ensures SameRecord(lay, u, w, k)
    {
      assert SameRecord(lay, u, v, k) && SameRecord(lay, v, w, k);
    }
  }

  lemma NearKept(lay: Layout, kind: Kind, v: Image, w: Image, a: nat, n: nat, b: nat, m: nat)
    requires lay.Ok() && Near(lay, v, w, a, n, b, m) && OnlyKind(lay, kind, a, n) && OnlyKind(lay, kind, b, m)
    requires LinesApart(lay, a, n) && LinesApart(lay, b, m)
    ensures Kept(lay, kind, v, w)
  {
    NearLines(lay, v, w, a, n, b, m);
    NearArea(lay, v, w, a, n, b, m, AreaOf(lay, Other(kind)));
    NearStock(lay, v, w, a, n, b, m);
  }

  lemma SaveKept(lay: Layout, kind: Kind, v: Image, w: Image, pre: Db)
    requires RecoversTo(lay, v, pre) && Undoing(lay, v) && v[AreaOf(lay, kind).flag] == 0
    requires Near(lay, v, w, AreaOf(lay, kind).indx, 1, AreaOf(lay, kind).back, ROW)
    ensures RecoversTo(lay, w, pre) && Undoing(lay, w) && Kept(lay, kind, v, w) &&
            Table(w, AreaOf(lay, kind)) == Table(v, AreaOf(lay, kind))
  {
    var area := AreaOf(lay, kind);
    SavePhase(lay, kind, v, w, pre);
    NearKept(lay, kind, v, w, area.indx, 1, area.back, ROW);
    RowsKept(lay, kind, v, w, area.indx, 1, area.back, ROW);
  }

  lemma FlagReady(lay: Layout, kind: Kind, v: Image, indx: nat, pre: Db, C: Image -> bool)
    requires RecoversTo(lay, v, pre) && Undoing(lay, v) && indx < AreaOf(lay, kind).count
    requires v[AreaOf(lay, kind).flag] == 0 && RecordTrue(lay, kind, v, indx)
    requires forall h: Image :: RecoversTo(lay, h, pre) ==> C(h)
    ensures var flag := AreaOf(lay, kind).flag;
            && RangesFit(lay.total, [(flag, 2)]) && InRanges([(flag, 2)], flag)
            && forall h: Image :: Near(lay, v, h, flag, 1, 0, 0) ==> C(h)
  {
    var flag := AreaOf(lay, kind).flag;
    OneRange([(flag, 2)]);
    forall h: Image | Near(lay, v, h, flag, 1, 0, 0)
      ensures C(h)
    {
      FlagPhase(lay, kind, v, h, indx, pre);
    }
  }

  lemma FlagKept(lay: Layout, kind: Kind, v: Image, w: Image, indx: nat, pre: Db)
    requires RecoversTo(lay, v, pre) && Undoing(lay, v) && indx < AreaOf(lay, kind).count
    requires v[AreaOf(lay, kind).flag] == 0 && RecordTrue(lay, kind, v, indx)
    requires Near(lay, v, w, AreaOf(lay, kind).flag, 1, 0, 0)
    requires var writes := [(AreaOf(lay, kind).flag, [1])]; WritesFit(|v|, writes) && w == ApplyWrites(v, writes)
    ensures RecoversTo(lay, w, pre) && Undoing(lay, w) && Kept(lay, kind, v, w) &&
            Table(w, AreaOf(lay, kind)) == Table(v, AreaOf(lay, kind))
    ensures w[AreaOf(lay, kind).flag] == 1 && w[AreaOf(lay, kind).indx] == indx
  {
    var area := AreaOf(lay, kind);
    OneWrite(v, (area.flag, [1]));
    FlagPhase(lay, kind, v, w, indx, pre);
    NearKept(lay, kind, v, w, area.flag, 1, 0, 0);
    RowsKept(lay, kind, v, w, area.flag, 1, 0, 0);
  }

  lemma RowReady(lay: Layout, kind: Kind, v: Image, indx: nat, xs: seq<int>, pre: Db, C: Image -> bool)
    requires RecoversTo(lay, v, pre) && Undoing(lay, v) && indx < AreaOf(lay, kind).count && |xs| <= ROW
    requires v[AreaOf(lay, kind).flag] != 0 && v[AreaOf(lay, kind).indx] == indx
    requires forall h: Image :: RecoversTo(lay, h, pre) ==> C(h)
    ensures var at := AreaOf(lay, kind).base + ROW * indx;
            && at + ROW <= lay.total && RangesFit(lay.total, [(at, ROW)]) && WritesIn([(at, xs)], at, ROW, 0, 0)
            && (forall i :: at <= i < at + ROW ==> InRanges([(at, ROW)], i))
            && forall h: Image :: Near(lay, v, h, at, ROW, 0, 0) ==> C(h)
  {
    var at := AreaOf(lay, kind).base + ROW * indx;
    OneRange([(at, ROW)]);
    forall h: Image | Near(lay, v, h, at, ROW, 0, 0)
      ensures C(h)
    {
      RowPhase(lay, kind, v, h, indx, pre);
    }
  }

  lemma RowKept(lay: Layout, kind: Kind, v: Image, w: Image, indx: nat, pre: Db)
    requires RecoversTo(lay, v, pre) && Undoing(lay, v) && indx < AreaOf(lay, kind).count
    requires v[AreaOf(lay, kind).flag] != 0 && v[AreaOf(lay, kind).indx] == indx
    requires Near(lay, v, w, AreaOf(lay, kind).base + ROW * indx, ROW, 0, 0)
    ensures RecoversTo(lay, w, pre) && Undoing(lay, w) && Kept(lay, kind, v, w)
  {
    RowPhase(lay, kind, v, w, indx, pre);
    NearKept(lay, kind, v, w, AreaOf(lay, kind).base + ROW * indx, ROW, 0, 0);
  }

  lemma TableStore(v: Image, area: Area, indx: nat, xs: seq<int>)
    requires area.In(|v|) && indx < area.count && |xs| <= ROW
    ensures Table(Overwrite(v, area.base + ROW * indx, xs), area) ==
            Table(v, area)[indx := Overwrite(RowAt(v, area.base, indx), 0, xs)]
  {
    var w := Overwrite(v, area.base + ROW * indx, xs);
    forall i | 0 <= i < area.count
      ensures RowAt(w, area.base, i) ==
              if i == indx then Overwrite(RowAt(v, area.base, indx), 0, xs) else RowAt(v, area.base, i)
    {
      if i != indx {
        OverwriteElsewhere(v, area.base + ROW * indx, xs, area.base + ROW * i, area.base + ROW * i + ROW);
      }
    }
  }

  lemma RowMade(lay: Layout, kind: Kind, v: Image, w: Image, indx: nat, xs: seq<int>, at: nat)
    requires lay.Ok() && |v| == lay.total && indx < AreaOf(lay, kind).count && |xs| <= ROW
    requires at == AreaOf(lay, kind).base + ROW * indx && WritesFit(|v|, [(at, xs)]) && w == ApplyWrites(v, [(at, xs)])
    ensures var area := AreaOf(lay, kind);
            Table(w, area) == Table(v, area)[indx := Overwrite(RowAt(v, area.base, indx), 0, xs)]
  {
    var area := AreaOf(lay, kind);
    OneWrite(v, (at, xs));
    TableStore(v, area, indx, xs);
  }

  lemma OneRange(ranges: Ranges)
    requires |ranges| == 1
    ensures forall i :: ranges[0].0 <= i < ranges[0].0 + ranges[0].1 ==> InRanges(ranges, i)
  {}

  lemma TwoRanges(ranges: Ranges)
    requires |ranges| == 2
    ensures forall i :: ranges[0].0 <= i < ranges[0].0 + ranges[0].1 || ranges[1].0 <= i < ranges[1].0 + ranges[1].1
              ==> InRanges(ranges, i)
  {}

  lemma SaveReady(lay: Layout, kind: Kind, v: Image, indx: nat, pre: Db, C: Image -> bool)
    requires RecoversTo(lay, v, pre) && Undoing(lay, v) && v[AreaOf(lay, kind).flag] == 0 &&
             indx < AreaOf(lay, kind).count
    requires forall h: Image :: RecoversTo(lay, h, pre) ==> C(h)
    ensures var area := AreaOf(lay, kind);
            var writes := [(area.indx, [indx]), (area.back, RowAt(v, area.base, indx))];
            var ranges := [(area.indx, 1), (area.back, ROW)];
            && WritesIn(writes, area.indx, 1, area.back, ROW) && RangesFit(lay.total, ranges)
            && (forall i :: area.indx <= i < area.indx + 1 || area.back <= i < area.back + ROW ==> InRanges(ranges, i))
            && forall h: Image :: Near(lay, v, h, area.indx, 1, area.back, ROW) ==> C(h)
  {
    var area := AreaOf(lay, kind);
    TwoRanges([(area.indx, 1), (area.back, ROW)]);
    forall h: Image | Near(lay, v, h, area.indx, 1, area.back, ROW)
      ensures C(h)
    {
      SavePhase(lay, kind, v, h, pre);
    }
  }

  lemma SaveCells(v: Image, area: Area, indx: nat)
    requires area.In(|v|) && indx < area.count && area.indx != area.flag
    requires !(area.back <= area.indx < area.back + ROW) && !(area.back <= area.flag < area.back + ROW)
    requires area.base + ROW * area.count <= area.back || area.back + ROW <= area.base
    requires area.base + ROW * area.count <= area.indx || area.indx < area.base
    ensures var row := RowAt(v, area.base, indx);
            var w := Overwrite(Overwrite(v, area.indx, [indx]), area.back, row);
            && w[area.indx] == indx && w[area.back..area.back + ROW] == row == RowAt(w, area.base, indx)
            && w[area.flag] == v[area.flag]
  {
    var row := RowAt(v, area.base, indx);
    var v1 := Overwrite(v, area.indx, [indx]);
    OverwriteSlice(v1, area.back, row);
    var at := area.base + ROW * indx;
    OverwriteElsewhere(v, area.indx, [indx], at, at + ROW);
    OverwriteElsewhere(v1, area.back, row, at, at + ROW);
  }

  lemma SaveMade(lay: Layout, kind: Kind, v: Image, w: Image, indx: nat)
    requires lay.Ok() && |v| == lay.total && indx < AreaOf(lay, kind).count
    requires var area := AreaOf(lay, kind);
             var writes := [(area.indx, [indx]), (area.back, RowAt(v, area.base, indx))];
             WritesFit(|v|, writes) && w == ApplyWrites(v, writes)
    ensures RecordTrue(lay, kind, w, indx) && w[AreaOf(lay, kind).flag] == v[AreaOf(lay, kind).flag]
  {
    var area := AreaOf(lay, kind);
    TwoWrites(v, (area.indx, [indx]), (area.back, RowAt(v, area.base, indx)));
    SaveCells(v, area, indx);
  }

  // ------------------------------------------------------------- begin and commit

  function ClearWrites(lay: Layout): (r: Writes)
    ensures ClearsFlags(lay, r)
  {
    [(lay.log + DISTRICT_VALID, [0]), (lay.log + NEW_ORDER_VALID, [0]), (lay.log + LINE_VALID, [0]),
     (lay.log + ORDER_VALID, [0]), (lay.log + STOCK_VALID, [0])]
  }

  function ClearRanges(lay: Layout): (r: Ranges) {
    [(lay.log + DISTRICT_VALID, 2), (lay.log + LINE_VALID, 2), (lay.log + NEW_ORDER_VALID, 2),
     (lay.log + ORDER_VALID, 2), (lay.log + STOCK_VALID, 2)]
  }

  lemma {:induction false} ZerosWritten(v: Image, writes: Writes, i: nat)
    requires WritesFit(|v|, writes) && i < |v| && forall j :: 0 <= j < |writes| ==> writes[j].1 == [0]
    requires v[i] == 0 || InWrites(writes, i)
    ensures ApplyWrites(v, writes)[i] == 0
    decreases |writes|
  {
    if writes != [] {
      var w := Overwrite(v, writes[0].0, writes[0].1);
      if w[i] != 0 {
        var j :| 0 <= j < |writes| && writes[j].0 <= i < writes[j].0 + |writes[j].1|;
        assert writes[1..][j - 1] == writes[j];
      }
      ZerosWritten(w, writes[1..], i);
    }
  }

  lemma ZeroAt(v: Image, writes: Writes, w: Image, j: nat)
    requires WritesFit(|v|, writes) && j < |writes| && forall k :: 0 <= k < |writes| ==> writes[k].1 == [0]
    requires w == ApplyWrites(v, writes)
    ensures w[writes[j].0] == 0
  {
    ZerosWritten(v, writes, writes[j].0);
  }

  lemma ClearReady(lay: Layout, v: Image, C: Image -> bool)
    requires lay.Ok() && |v| == lay.total && !Undoing(lay, v)
    requires forall h: Image :: RecoversTo(lay, h, Tables(lay, v)) ==> C(h)
    ensures var a, n := lay.log + DISTRICT_VALID, LOG_VALID - DISTRICT_VALID;
            && WritesIn(ClearWrites(lay), a, n, 0, 0) && RangesFit(lay.total, ClearRanges(lay))
            && (forall i :: a <= i < a + n ==> InRanges(ClearRanges(lay), i))
            && forall h: Image :: Near(lay, v, h, a, n, 0, 0) ==> C(h)
  {
    var a, n := lay.log + DISTRICT_VALID, LOG_VALID - DISTRICT_VALID;
    forall i | a <= i < a + n
      ensures InRanges(ClearRanges(lay), i)
    {
      var j := if i < lay.log + NEW_ORDER_VALID then 0 else if i < lay.log + ORDER_VALID then 2
               else if i < lay.log + STOCK_VALID then 3 else if i < lay.log + LINE_VALID then 4 else 1;
      assert ClearRanges(lay)[j].0 <= i < ClearRanges(lay)[j].0 + ClearRanges(lay)[j].1;
    }
    forall h: Image | Near(lay, v, h, a, n, 0, 0)
      ensures C(h)
    {
      ClearPhase(lay, v, h);
    }
  }

  lemma TablesKept(lay: Layout, v: Image, h: Image, a: nat, n: nat)
    requires lay.Ok() && Near(lay, v, h, a, n, 0, 0) && lay.log <= a
    ensures Tables(lay, h) == Tables(lay, v) && LineTable(lay, h) == LineTable(lay, v)
  {
    NearLines(lay, v, h, a, n, 0, 0);
    RowsKept(lay, NewOrderRow, v, h, a, n, 0, 0);
    RowsKept(lay, OrderRow, v, h, a, n, 0, 0);
    StockRows(lay, v, h, a, n, 0, 0);
  }

  ghost predicate ClearsFlags(lay: Layout, ws: Writes) {
    && |ws| == 5 && (forall j :: 0 <= j < |ws| ==> ws[j].1 == [0])
    && ws[1].0 == lay.log + NEW_ORDER_VALID && ws[3].0 == lay.log + ORDER_VALID && ws[4].0 == lay.log + STOCK_VALID
  }

  lemma ClearMade(lay: Layout, v: Image, w: Image, ws: Writes)
    requires lay.Ok() && |v| == lay.total && !Undoing(lay, v) && ClearsFlags(lay, ws)
    requires WritesFit(|v|, ws) && w == ApplyWrites(v, ws)
    requires Near(lay, v, w, lay.log + DISTRICT_VALID, LOG_VALID - DISTRICT_VALID, 0, 0)
    ensures FlagsClear(lay, w) && !Undoing(lay, w) && Tables(lay, w) == Tables(lay, v) && SameSlots(lay, v, w)
    ensures LineTable(lay, w) == LineTable(lay, v)
  {
    NearSlots(lay, v, w, lay.log + DISTRICT_VALID, LOG_VALID - DISTRICT_VALID);
    ZeroAt(v, ws, w, 1);
    ZeroAt(v, ws, w, 3);
    ZeroAt(v, ws, w, 4);
    TablesKept(lay, v, w, lay.log + DISTRICT_VALID, LOG_VALID - DISTRICT_VALID);
  }

  lemma LogRange(lay: Layout)
    requires lay.Ok()
    ensures RangesFit(lay.total, [(lay.log + LOG_VALID, 2)]) &&
            InRanges([(lay.log + LOG_VALID, 2)], lay.log + LOG_VALID)
  {
    OneRange([(lay.log + LOG_VALID, 2)]);
  }

  lemma RaiseReady(lay: Layout, v: Image, C: Image -> bool)
    requires lay.Ok() && |v| == lay.total && FlagsClear(lay, v)
    requires forall h: Image :: RecoversTo(lay, h, Tables(lay, v)) ==> C(h)
    ensures RangesFit(lay.total, [(lay.log + LOG_VALID, 2)]) &&
            InRanges([(lay.log + LOG_VALID, 2)], lay.log + LOG_VALID)
    ensures forall h: Image :: Near(lay, v, h, lay.log + LOG_VALID, 1, 0, 0) ==> C(h)
  {
    LogRange(lay);
    forall h: Image | Near(lay, v, h, lay.log + LOG_VALID, 1, 0, 0)
      ensures C(h)
    {
      RaisePhase(lay, v, h);
    }
  }

  lemma LowerReady(lay: Layout, v: Image, pre: Db, C: Image -> bool)
    requires RecoversTo(lay, v, pre) && Undoing(lay, v)
    requires forall h: Image :: RecoversTo(lay, h, pre) || RecoversTo(lay, h, Tables(lay, v)) ==> C(h)
    ensures RangesFit(lay.total, [(lay.log + LOG_VALID, 2)]) &&
            InRanges([(lay.log + LOG_VALID, 2)], lay.log + LOG_VALID)
    ensures forall h: Image :: Near(lay, v, h, lay.log + LOG_VALID, 1, 0, 0) ==> C(h)
  {
    LogRange(lay);
    forall h: Image | Near(lay, v, h, lay.log + LOG_VALID, 1, 0, 0)
      ensures C(h)
    {
      LowerPhase(lay, v, h, pre);
    }
  }

  lemma LogMade(lay: Layout, v: Image, w: Image, x: int)
    requires lay.Ok() && |v| == lay.total && Near(lay, v, w, lay.log + LOG_VALID, 1, 0, 0)
    requires var writes := [(lay.log + LOG_VALID, [x])]; WritesFit(|v|, writes) && w == ApplyWrites(v, writes)
    ensures w[lay.log + LOG_VALID] == x && Tables(lay, w) == Tables(lay, v) && SameSlots(lay, v, w)
    ensures LineTable(lay, w) == LineTable(lay, v)
    ensures FlagsClear(lay, v) ==> FlagsClear(lay, w)
  {
    NearSlots(lay, v, w, lay.log + LOG_VALID, 1);
    OneWrite(v, (lay.log + LOG_VALID, [x]));
    TablesKept(lay, v, w, lay.log + LOG_VALID, 1);
  }

  lemma BackupKept(lay: Layout, v: Image, w: Image, pre: Db)
    requires RecoversTo(lay, v, pre) && Undoing(lay, v) && Near(lay, v, w, lay.log + DISTRICT_BACK, DISTRICT_ROW, 0, 0)
    ensures RecoversTo(lay, w, pre) && Undoing(lay, w) && SameRows(lay, v, w) && StockSame(lay, v, w)
    ensures LineTable(lay, w) == LineTable(lay, v)
  {
    var a := lay.log + DISTRICT_BACK;
    NearLines(lay, v, w, a, DISTRICT_ROW, 0, 0);
    InertPhase(lay, v, w, a, DISTRICT_ROW, 0, 0, pre);
    NearArea(lay, v, w, a, DISTRICT_ROW, 0, 0, lay.NewOrderArea());
    NearArea(lay, v, w, a, DISTRICT_ROW, 0, 0, lay.OrderArea());
    NearStock(lay, v, w, a, DISTRICT_ROW, 0, 0);
  }

  lemma BackupMade(v: Image, w: Image, to: nat, row: Row)
    requires WritesFit(|v|, [(to, row)]) && w == ApplyWrites(v, [(to, row)]) && to + |row| <= |v|
    ensures to + |row| <= |w| && w[to..to + |row|] == row
  {
    OneWrite(v, (to, row));
    OverwriteSlice(v, to, row);
  }

  lemma BackupReady(lay: Layout, v: Image, d: nat, pre: Db, C: Image -> bool)
    requires RecoversTo(lay, v, pre) && Undoing(lay, v) && d < lay.districts
    requires forall h: Image :: RecoversTo(lay, h, pre) ==> C(h)
    ensures var to := lay.log + DISTRICT_BACK;
            var ranges := [(to, DISTRICT_ROW), (CounterCell(lay, d), 1)];
            && RangesFit(lay.total, ranges) && (forall i :: to <= i < to + DISTRICT_ROW ==> InRanges(ranges, i))
            && forall h: Image :: Near(lay, v, h, to, DISTRICT_ROW, 0, 0) ==> C(h)
  {
    var to := lay.log + DISTRICT_BACK;
    TwoRanges([(to, DISTRICT_ROW), (CounterCell(lay, d), 1)]);
    forall h: Image | Near(lay, v, h, to, DISTRICT_ROW, 0, 0)
      ensures C(h)
    {
      BackupKept(lay, v, h, pre);
    }
  }

  lemma BumpKept(lay: Layout, v: Image, w: Image, pre: Db)
    requires RecoversTo(lay, v, pre) && Undoing(lay, v) && Near(lay, v, w, 0, 0, 0, 0)
    ensures RecoversTo(lay, w, pre) && Undoing(lay, w) && SameRows(lay, v, w) && StockSame(lay, v, w)
    ensures LineTable(lay, w) == LineTable(lay, v)
  {
    NearLines(lay, v, w, 0, 0, 0, 0);
    InertPhase(lay, v, w, 0, 0, 0, 0, pre);
    NearArea(lay, v, w, 0, 0, 0, 0, lay.NewOrderArea());
    NearArea(lay, v, w, 0, 0, 0, 0, lay.OrderArea());
    NearStock(lay, v, w, 0, 0, 0, 0);
  }

  lemma BumpReady(lay: Layout, v: Image, pre: Db, C: Image -> bool)
    requires RecoversTo(lay, v, pre) && Undoing(lay, v)
    requires forall h: Image :: RecoversTo(lay, h, pre) ==> C(h)
    ensures forall h: Image :: Near(lay, v, h, 0, 0, 0, 0) ==> C(h)
  {
    forall h: Image | Near(lay, v, h, 0, 0, 0, 0)
      ensures C(h)
    {
      BumpKept(lay, v, h, pre);
    }
  }

  // -------------------------------------------------------------- the item loop

  /** The first `i` of the named rows are recorded, and nothing else. */
  ghost predicate ItemsRecorded(lay: Layout, v: Image, indexes: seq<int>, i: nat)
    requires lay.Ok() && |v| == lay.total && i <= |indexes|
  {
    forall j :: 0 <= j < ITEMS_PER_ORDER ==> ItemRecorded(lay, v, indexes, i, j)
  }

  ghost predicate ItemRecorded(lay: Layout, v: Image, indexes: seq<int>, i: nat, j: nat)
    requires lay.Ok() && |v| == lay.total && i <= |indexes| && j < ITEMS_PER_ORDER
  {
    && (ItemBit(v[lay.log + STOCK_VALID], j) <==> j < i)
    && (j < i ==> v[StockIndx(lay, j)] == indexes[j])
  }

  lemma NoneRecorded(lay: Layout, v: Image, indexes: seq<int>, i: nat)
    requires lay.Ok() && |v| == lay.total && v[lay.log + STOCK_VALID] == 0 && i == 0
    ensures ItemsRecorded(lay, v, indexes, i)
  {
    forall j | 0 <= j < ITEMS_PER_ORDER
      ensures ItemRecorded(lay, v, indexes, i, j)
    {
      ZeroHasNoBits(j + 1);
    }
  }

  lemma NextRecordable(lay: Layout, v: Image, indexes: seq<int>, i: nat)
    requires lay.Ok() && |v| == lay.total && i < |indexes| <= ITEMS_PER_ORDER && ItemsRecorded(lay, v, indexes, i)
    requires 0 <= indexes[i] < lay.stocks && forall j :: 0 <= j < i ==> indexes[j] != indexes[i]
    ensures Recordable(lay, v, i, indexes[i])
  {
    assert ItemRecorded(lay, v, indexes, i, i);
    forall j | 0 <= j < ITEMS_PER_ORDER && ItemBit(v[lay.log + STOCK_VALID], j)
      ensures v[StockIndx(lay, j)] != indexes[i]
    {
      assert ItemRecorded(lay, v, indexes, i, j);
    }
  }

  lemma OneMoreRecorded(lay: Layout, u: Image, v: Image, w: Image, indexes: seq<int>, i: nat, next: nat)
    requires next == i + 1 && lay.Ok() && |u| == |v| == |w| == lay.total && i < |indexes| <= ITEMS_PER_ORDER &&
             0 <= indexes[i]
    requires ItemsRecorded(lay, u, indexes, i) && OneMoreItem(lay, u, v, i, indexes[i]) && StockSame(lay, v, w)
    ensures ItemsRecorded(lay, w, indexes, next)
  {
    forall j | 0 <= j < ITEMS_PER_ORDER
      ensures ItemRecorded(lay, w, indexes, next, j)
    {
      assert ItemRecorded(lay, u, indexes, i, j) && ItemNow(lay, u, v, i, indexes[i], j) && SameRecord(lay, v, w, j);
    }
  }

  /** From item `i` on the slots are as they were at the start. */
  ghost predicate SlotsFrom(lay: Layout, start: Image, v: Image, i: nat)
    requires lay.Ok() && |start| == |v| == lay.total
  {
    forall k :: i <= k < ITEMS_PER_ORDER ==> SameRecord(lay, start, v, k)
  }

  /** Every slot but item `k`'s. */
  ghost predicate OtherSlots(lay: Layout, v: Image, w: Image, k: nat)
    requires lay.Ok() && |v| == |w| == lay.total
  {
    forall j :: 0 <= j < ITEMS_PER_ORDER && j != k ==> SameRecord(lay, v, w, j)
  }

  lemma SlotsAfterItem(lay: Layout, start: Image, u: Image, v: Image, w: Image, i: nat)
    requires lay.Ok() && |start| == |u| == |v| == |w| == lay.total
    requires SlotsFrom(lay, start, u, i) && OtherSlots(lay, u, v, i) && StockSame(lay, v, w)
    ensures SlotsFrom(lay, start, w, i + 1)
  {
    forall k | i + 1 <= k < ITEMS_PER_ORDER
      ensures SameRecord(lay, start, w, k)
    {
      assert SameRecord(lay, start, u, k) && SameRecord(lay, u, v, k) && SameRecord(lay, v, w, k);
    }
  }

  lemma RecordedSlots(lay: Layout, u: Image, v: Image, w: Image, k: nat, indx: nat)
    requires lay.Ok() && |u| == lay.total && k < ITEMS_PER_ORDER && indx < lay.stocks && Recorded(lay, u, v, k, indx)
    requires |w| == lay.total && SameSlots(lay, v, w)
    ensures OtherSlots(lay, u, w, k)
  {
    forall j | 0 <= j < ITEMS_PER_ORDER && j != k
      ensures SameRecord(lay, u, w, j)
    {
      OtherRecords(lay, u, v, v, k, indx, j);
      assert SameRecord(lay, v, w, j);
    }
  }

  lemma KeptSlots(lay: Layout, u: Image, v: Image, w: Image)
    requires lay.Ok() && |u| == |v| == |w| == lay.total && StockSame(lay, u, v) && StockSame(lay, v, w)
    ensures SameSlots(lay, u, w) && StockTable(lay, w) == StockTable(lay, u)
  {
    SlotsTwice(lay, u, v, w);
  }

  lemma SlotsTwice(lay: Layout, u: Image, v: Image, w: Image)
    requires lay.Ok() && |u| == |v| == |w| == lay.total && SameSlots(lay, u, v) && SameSlots(lay, v, w)
    ensures SameSlots(lay, u, w)
  {
    forall k | 0 <= k < ITEMS_PER_ORDER
      ensures SameRecord(lay, u, w, k)
    {
      assert SameRecord(lay, u, v, k) && SameRecord(lay, v, w, k);
    }
  }
}

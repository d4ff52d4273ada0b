/** The window in which `update_stock_entry` writes an undo record: index, saved row and
    bit go out under one fence, in whatever order the cache likes. When that is safe, told
    from memory as it is before the call. */
module TpccWindow {
  import opened PersistentMemory
  import opened TpccLog
  import opened TpccPhases

  function BitCell(lay: Layout): (r: nat) { lay.log + STOCK_VALID }

  /** Images a crash may leave while the record of `w` is written over the one of `v`. The
      bit is stored last, so once it is durable so are the other new cells of its line. */
  ghost predicate Torn(lay: Layout, perLine: nat, v: Image, w: Image, h: Image)
    requires perLine > 0 && lay.Ok()
  {
    && Within(lay, v, w, h)
    && (h[BitCell(lay)] != v[BitCell(lay)] ==> NewOnLine(lay, perLine, w, h))
  }

  ghost predicate NewOnLine(lay: Layout, perLine: nat, w: Image, h: Image)
    requires perLine > 0 && |w| == |h| == lay.total
  {
    forall i :: 0 <= i < lay.total && !(lay.district <= i < lay.stock) && i / perLine == BitCell(lay) / perLine ==>
      h[i] == w[i]
  }

  lemma TornLinewise(lay: Layout, perLine: nat, v: Image, w: Image)
    requires perLine > 0 && lay.Ok()
    ensures Linewise(perLine, (h: Image) => Torn(lay, perLine, v, w, h))
  {
    forall d, u, line: nat | |d| == |u| && Torn(lay, perLine, v, w, d) && Torn(lay, perLine, v, w, u)
      ensures Torn(lay, perLine, v, w, WriteBack(d, u, perLine, line))
    {
      var h := WriteBack(d, u, perLine, line);
      assert h[BitCell(lay)] == if BitCell(lay) / perLine == line then u[BitCell(lay)] else d[BitCell(lay)];
    }
  }

  /** What to look at before the call: the row saved in this slot by an earlier order is, but
      for cells on the bit's line, the row about to be saved; and the index saved there goes
      out together with the bit, or names no row, or one with the same contents. */
  ghost predicate SafeRecord(lay: Layout, perLine: nat, v: Image, k: nat, indx: nat, db: Db)
    requires perLine > 0 && lay.Ok() && |v| == lay.total && k < ITEMS_PER_ORDER && indx < lay.stocks
  {
    |db.stock| == lay.stocks &&
    var row, stale := StockRowAt(v, lay.stock, indx), v[StockIndx(lay, k)];
    && SavedBefore(lay, perLine, v, k, row)
    && (SharesLine(lay, perLine, StockIndx(lay, k)) || !(0 <= stale < lay.stocks) || db.stock[stale] == row)
  }

  ghost predicate SharesLine(lay: Layout, perLine: nat, i: nat)
    requires perLine > 0
  {
    i / perLine == BitCell(lay) / perLine
  }

  ghost predicate SavedBefore(lay: Layout, perLine: nat, v: Image, k: nat, row: Row)
    requires perLine > 0 && lay.Ok() && |v| == lay.total && k < ITEMS_PER_ORDER && |row| == STOCK_ROW
  {
    forall i :: StockBack(lay, k) <= i < StockBack(lay, k) + STOCK_ROW && !SharesLine(lay, perLine, i) ==>
      v[i] == row[i - StockBack(lay, k)]
  }

  /** Undoing `v` leaves the row about to be sold as it stands. */
  lemma RowUntouched(lay: Layout, v: Image, w: Image, k: nat, indx: nat, db: Db)
    requires RecoversTo(lay, v, db) && Undoing(lay, v) && Recordable(lay, v, k, indx) && Recorded(lay, v, w, k, indx)
    ensures |db.stock| == lay.stocks && db.stock[indx] == StockRowAt(v, lay.stock, indx)
  {
    AscendingIsComplete();
    WindowRows(lay, v, w, w, k, indx);
    RecordedUndoes(lay, v, w, k, indx, Ascending());
    assert Recover(lay, v, Ascending()) == db;
  }

  /** The saved row of an image between the two. */
  lemma SavedIs(lay: Layout, perLine: nat, v: Image, w: Image, h: Image, k: nat, indx: nat)
    requires perLine > 0 && lay.Ok() && |v| == lay.total && k < ITEMS_PER_ORDER && indx < lay.stocks
    requires Recorded(lay, v, w, k, indx) && Within(lay, v, w, h) && NewOnLine(lay, perLine, w, h)
    requires SavedBefore(lay, perLine, v, k, StockRowAt(v, lay.stock, indx))
    ensures h[StockBack(lay, k)..StockBack(lay, k) + STOCK_ROW] == StockRowAt(v, lay.stock, indx)
  {
    var row, at := StockRowAt(v, lay.stock, indx), StockBack(lay, k);
    forall i | at <= i < at + STOCK_ROW
      ensures h[i] == row[i - at]
    {
      assert w[at..at + STOCK_ROW][i - at] == w[i];
    }
  }

  lemma BitIsNew(lay: Layout, v: Image, w: Image, h: Image, k: nat, indx: nat)
    requires lay.Ok() && |v| == lay.total && Recordable(lay, v, k, indx) && Recorded(lay, v, w, k, indx) &&
             Within(lay, v, w, h)
    ensures ItemBit(h[BitCell(lay)], k) <==> h[BitCell(lay)] == w[BitCell(lay)]
    ensures w[BitCell(lay)] != v[BitCell(lay)]
  {
    OrBitSets(v[BitCell(lay)], k + 1, k + 1);
  }

  lemma SafeIsHarmless(lay: Layout, perLine: nat, v: Image, w: Image, h: Image, k: nat, indx: nat, db: Db)
    requires RecoversTo(lay, v, db) && Undoing(lay, v) && Recordable(lay, v, k, indx) && Recorded(lay, v, w, k, indx)
    requires perLine > 0 && Torn(lay, perLine, v, w, h) && SafeRecord(lay, perLine, v, k, indx, db)
    ensures Harmless(lay, h, k, db)
  {
    BitIsNew(lay, v, w, h, k, indx);
    if ItemBit(h[BitCell(lay)], k) {
      SavedIs(lay, perLine, v, w, h, k, indx);
      RowUntouched(lay, v, w, k, indx, db);
    }
  }

  /** The cache wrote back the line of the new index, then the bit's line. */
  function TornRow(lay: Layout, perLine: nat, v: Image, w: Image, k: nat, indx: nat): (h: Image)
    requires perLine > 0 && lay.Ok() && |v| == |w| == lay.total && k < ITEMS_PER_ORDER
  {
    WriteBack(v[StockIndx(lay, k) := indx], w, perLine, BitCell(lay) / perLine)
  }

  /** The cache wrote back the bit's line only. */
  function TornIndex(lay: Layout, perLine: nat, v: Image, w: Image): (h: Image)
    requires perLine > 0 && |v| == |w| == lay.total
  {
    WriteBack(v, w, perLine, BitCell(lay) / perLine)
  }

  lemma BothTorn(lay: Layout, perLine: nat, v: Image, w: Image, k: nat, indx: nat)
    requires perLine > 0 && lay.Ok() && |v| == lay.total && k < ITEMS_PER_ORDER && indx < lay.stocks &&
             Recorded(lay, v, w, k, indx)
    ensures Torn(lay, perLine, v, w, TornRow(lay, perLine, v, w, k, indx)) &&
            Torn(lay, perLine, v, w, TornIndex(lay, perLine, v, w))
  {}

  lemma TornRowSaved(lay: Layout, perLine: nat, v: Image, w: Image, k: nat, indx: nat, row: Row)
    requires perLine > 0 && lay.Ok() && |v| == |w| == lay.total && k < ITEMS_PER_ORDER && |row| == STOCK_ROW
    requires TornRow(lay, perLine, v, w, k, indx)[StockBack(lay, k)..StockBack(lay, k) + STOCK_ROW] == row
    ensures SavedBefore(lay, perLine, v, k, row)
  {
    var h, at := TornRow(lay, perLine, v, w, k, indx), StockBack(lay, k);
    forall i | at <= i < at + STOCK_ROW && !SharesLine(lay, perLine, i)
      ensures v[i] == row[i - at]
    {
      assert h[at..at + STOCK_ROW][i - at] == h[i];
    }
  }

  lemma TornRowDecides(lay: Layout, perLine: nat, v: Image, w: Image, k: nat, indx: nat, db: Db)
    requires RecoversTo(lay, v, db) && Undoing(lay, v) && Recordable(lay, v, k, indx) && Recorded(lay, v, w, k, indx)
    requires perLine > 0 && |db.stock| == lay.stocks && Harmless(lay, TornRow(lay, perLine, v, w, k, indx), k, db)
    ensures SavedBefore(lay, perLine, v, k, StockRowAt(v, lay.stock, indx))
  {
    var h := TornRow(lay, perLine, v, w, k, indx);
    BothTorn(lay, perLine, v, w, k, indx);
    BitIsNew(lay, v, w, h, k, indx);
    RowUntouched(lay, v, w, k, indx, db);
    assert h[StockIndx(lay, k)] == indx;
    TornRowSaved(lay, perLine, v, w, k, indx, StockRowAt(v, lay.stock, indx));
  }

  lemma TornIndexDecides(lay: Layout, perLine: nat, v: Image, w: Image, k: nat, indx: nat, db: Db)
    requires RecoversTo(lay, v, db) && Undoing(lay, v) && Recordable(lay, v, k, indx) && Recorded(lay, v, w, k, indx)
    requires perLine > 0 && |db.stock| == lay.stocks && Harmless(lay, TornIndex(lay, perLine, v, w), k, db)
    requires SavedBefore(lay, perLine, v, k, StockRowAt(v, lay.stock, indx))
    ensures SafeRecord(lay, perLine, v, k, indx, db)
  {
    var h := TornIndex(lay, perLine, v, w);
    BothTorn(lay, perLine, v, w, k, indx);
    BitIsNew(lay, v, w, h, k, indx);
    SavedIs(lay, perLine, v, w, h, k, indx);
  }

  /** Every crash in the window recovers if and only if the record is safe to write; if it
      is not, one of two images that the cache can make of it does not recover. */
  lemma WindowSafeIff(lay: Layout, perLine: nat, v: Image, w: Image, k: nat, indx: nat, db: Db)
    requires RecoversTo(lay, v, db) && Undoing(lay, v) && Recordable(lay, v, k, indx) && Recorded(lay, v, w, k, indx)
    requires perLine > 0
    ensures |db.stock| == lay.stocks
    ensures (forall h: Image :: Torn(lay, perLine, v, w, h) ==> RecoversTo(lay, h, db)) <==>
            SafeRecord(lay, perLine, v, k, indx, db)
    ensures !SafeRecord(lay, perLine, v, k, indx, db) ==>
              || !RecoversTo(lay, TornRow(lay, perLine, v, w, k, indx), db)
              || !RecoversTo(lay, TornIndex(lay, perLine, v, w), db)
  {
    RowUntouched(lay, v, w, k, indx, db);
    if SafeRecord(lay, perLine, v, k, indx, db) {
      forall h: Image | Torn(lay, perLine, v, w, h)
        ensures RecoversTo(lay, h, db)
      {
        SafeIsHarmless(lay, perLine, v, w, h, k, indx, db);
        WindowPhase(lay, v, w, h, k, indx, db);
      }
    } else {
      var g, h := TornRow(lay, perLine, v, w, k, indx), TornIndex(lay, perLine, v, w);
      BothTorn(lay, perLine, v, w, k, indx);
      WindowPhase(lay, v, w, g, k, indx, db);
      WindowPhase(lay, v, w, h, k, indx, db);
      if Harmless(lay, g, k, db) && Harmless(lay, h, k, db) {
        TornRowDecides(lay, perLine, v, w, k, indx, db);
        TornIndexDecides(lay, perLine, v, w, k, indx, db);
      }
    }
  }

  // -------------------------------------------------------------- a window that tears

  ghost predicate NeverUsed(lay: Layout, v: Image, k: nat)
    requires lay.Ok() && |v| == lay.total && k < ITEMS_PER_ORDER
  {
    forall i :: StockBack(lay, k) <= i < StockBack(lay, k) + STOCK_ROW ==> v[i] == 0
  }

  /** The first record in a slot tears, whatever else memory holds: a crash with its bit and
      index durable and its row not makes recovery zero the stock. */
  lemma FreshSlotTears(lay: Layout, perLine: nat, v: Image, w: Image, k: nat, indx: nat, cell: nat, db: Db)
    requires RecoversTo(lay, v, db) && Undoing(lay, v) && Recordable(lay, v, k, indx) && Recorded(lay, v, w, k, indx)
    requires perLine > 0 && NeverUsed(lay, v, k)
    requires cell < STOCK_ROW && StockRowAt(v, lay.stock, indx)[cell] != 0
    requires !SharesLine(lay, perLine, StockBack(lay, k) + cell)
    ensures !SafeRecord(lay, perLine, v, k, indx, db)
    ensures Torn(lay, perLine, v, w, TornRow(lay, perLine, v, w, k, indx))
    ensures !RecoversTo(lay, TornRow(lay, perLine, v, w, k, indx), db)
  {
    var h := TornRow(lay, perLine, v, w, k, indx);
    BothTorn(lay, perLine, v, w, k, indx);
    assert !SavedBefore(lay, perLine, v, k, StockRowAt(v, lay.stock, indx)) by {
      assert v[StockBack(lay, k) + cell] == 0;
    }
    RowUntouched(lay, v, w, k, indx, db);
    if Harmless(lay, h, k, db) {
      TornRowDecides(lay, perLine, v, w, k, indx, db);
    }
    WindowPhase(lay, v, w, h, k, indx, db);
  }

  /** Memory at the first item of the first order: one stock row in use, the log and both row
      flags raised, and no slot used. */
  function FirstOrder(lay: Layout): (v: Image)
    requires lay.Ok()
  {
    var ones := {lay.stock, lay.log + LOG_VALID, lay.log + NEW_ORDER_VALID, lay.log + ORDER_VALID};
    seq(lay.total, i => if i in ones then 1 else 0)
  }

  lemma ZeroRowBack(v: Image, area: Area)
    requires area.In(|v|) && v[area.indx] == 0
    requires forall i :: area.back <= i < area.back + ROW ==> v[i] == 0
    requires forall i :: area.base <= i < area.base + ROW * area.count ==> v[i] == 0
    ensures RecoverArea(v, area, true) == Table(v, area)
  {
    if area.count > 0 {
      assert Table(v, area)[0] == RowAt(v, area.base, 0);
      assert v[area.back..area.back + ROW] == RowAt(v, area.base, 0);
    }
  }

  lemma FirstOrderRecovers(lay: Layout)
    requires lay.Ok() && lay.stocks >= 1
    ensures var v := FirstOrder(lay);
            RecoversTo(lay, v, Tables(lay, v)) && Undoing(lay, v) && Recordable(lay, v, 0, 0)
  {
    var v := FirstOrder(lay);
    ZeroRowBack(v, lay.NewOrderArea());
    ZeroRowBack(v, lay.OrderArea());
    forall order | AnyOrder(order)
      ensures Recover(lay, v, order) == Tables(lay, v)
    {
      NoBitsNoUndo(lay, v, order, StockTable(lay, v));
    }
    var bits := v[lay.log + STOCK_VALID];
    forall j | 0 <= j < ITEMS_PER_ORDER
      ensures !ItemBit(bits, j)
    {
      ZeroHasNoBits(j + 1);
    }
  }

  /** So there is such a memory for every layout and line size. */
  lemma FirstRecordTears(lay: Layout, perLine: nat)
    requires lay.Ok() && lay.stocks >= 1 && 0 < perLine <= LINE_BYTES
    ensures var v := FirstOrder(lay);
            && WritesFit(|v|, RecordWrites(lay, v, 0, 0))
            && var w := ApplyWrites(v, RecordWrites(lay, v, 0, 0));
            && !SafeRecord(lay, perLine, v, 0, 0, Tables(lay, v))
            && Torn(lay, perLine, v, w, TornRow(lay, perLine, v, w, 0, 0))
            && !RecoversTo(lay, TornRow(lay, perLine, v, w, 0, 0), Tables(lay, v))
  {
    var v := FirstOrder(lay);
    RecordWritten(lay, v, 0, 0);
    FirstOrderRecovers(lay);
    FarApart(StockBack(lay, 0), BitCell(lay), perLine);
    FreshSlotTears(lay, perLine, v, ApplyWrites(v, RecordWrites(lay, v, 0, 0)), 0, 0, 0, Tables(lay, v));
  }

  lemma FarApart(i: nat, j: nat, perLine: nat)
    requires 0 < perLine && i + perLine <= j
    ensures i / perLine < j / perLine
  {}

  // ------------------------------------------------------------------- for the caller

  /** An image a crash may leave while item `k` is recorded in memory `v`. */
  ghost predicate TornFrom(lay: Layout, perLine: nat, v: Image, k: nat, indx: nat, h: Image)
    requires perLine > 0 && lay.Ok() && |v| == lay.total && k < ITEMS_PER_ORDER && indx < lay.stocks
  {
    exists w :: Recorded(lay, v, w, k, indx) && Torn(lay, perLine, v, w, h)
  }

  /** The three stores stay in the window all the way. */
  lemma RecordPasses(lay: Layout, perLine: nat, v: Image, k: nat, indx: nat)
    requires perLine > 0 && lay.Ok() && |v| == lay.total && k < ITEMS_PER_ORDER && indx < lay.stocks
    ensures var writes := RecordWrites(lay, v, k, indx);
            && WritesFit(|v|, writes)
            && WritesPass((h: Image) => Torn(lay, perLine, v, ApplyWrites(v, writes), h), v, writes)
  {
    var ws := RecordWrites(lay, v, k, indx);
    RecordWritten(lay, v, k, indx);
    ThreeWrites(v, ws[0], ws[1], ws[2]);
    var w := ApplyWrites(v, ws);
    var v1 := Overwrite(v, ws[0].0, ws[0].1);
    var v2 := Overwrite(v1, ws[1].0, ws[1].1);
    RecordMiddle(lay, v, w, k, indx);
    EarlyStore(lay, perLine, v, w, v, v1);
    EarlyStore(lay, perLine, v, w, v1, v2);
    LastStore(lay, perLine, v, v2, w);
    ThreePass((h: Image) => Torn(lay, perLine, v, w, h), v, v1, v2, w, ws);
  }

  /** The images between the three stores lie between the first and the last. */
  lemma RecordMiddle(lay: Layout, v: Image, w: Image, k: nat, indx: nat)
    requires lay.Ok() && |v| == lay.total && k < ITEMS_PER_ORDER && indx < lay.stocks && Recorded(lay, v, w, k, indx)
    ensures var v1 := Overwrite(v, StockIndx(lay, k), [indx]);
            && Within(lay, v, w, v1)
            && Within(lay, v, w, Overwrite(v1, StockBack(lay, k), StockRowAt(v, lay.stock, indx)))
  {
    var row, at := StockRowAt(v, lay.stock, indx), StockBack(lay, k);
    forall i | at <= i < at + STOCK_ROW
      ensures w[i] == row[i - at]
    {
      assert w[at..at + STOCK_ROW][i - at] == w[i];
    }
  }

  /** A store before the bit's. */
  lemma EarlyStore(lay: Layout, perLine: nat, v: Image, w: Image, u: Image, u': Image)
    requires perLine > 0 && lay.Ok() && Within(lay, v, w, u) && Within(lay, v, w, u')
    requires u[BitCell(lay)] == u'[BitCell(lay)] == v[BitCell(lay)]
    ensures Passes((h: Image) => Torn(lay, perLine, v, w, h), u, u')
  {}

  lemma LastStore(lay: Layout, perLine: nat, v: Image, u: Image, w: Image)
    requires perLine > 0 && lay.Ok() && Within(lay, v, w, u) && u[BitCell(lay)] == v[BitCell(lay)]
    requires forall i :: 0 <= i < lay.total && i != BitCell(lay) ==> u[i] == w[i]
    ensures Passes((h: Image) => Torn(lay, perLine, v, w, h), u, w)
  {}

  lemma NextPasses(P: Image -> bool, v: Image, w: Image, writes: Writes)
    requires writes != [] && writes[0].0 + |writes[0].1| <= |v| && w == Overwrite(v, writes[0].0, writes[0].1)
    requires Passes(P, v, w) && WritesPass(P, w, writes[1..])
    ensures WritesPass(P, v, writes)
  {
    assert forall j :: 1 <= j < |writes| ==> writes[j] == writes[1..][j - 1];
  }

  lemma ThreePass(P: Image -> bool, v: Image, v1: Image, v2: Image, v3: Image, writes: Writes)
    requires |writes| == 3 && WritesFit(|v|, writes) && v1 == Overwrite(v, writes[0].0, writes[0].1)
    requires v2 == Overwrite(v1, writes[1].0, writes[1].1) && v3 == Overwrite(v2, writes[2].0, writes[2].1)
    requires Passes(P, v, v1) && Passes(P, v1, v2) && Passes(P, v2, v3)
    ensures WritesPass(P, v, writes)
  {
    assert writes[1..][1..] == writes[2..] && writes[2..][1..] == [];
    NextPasses(P, v2, v3, writes[2..]);
    NextPasses(P, v1, v2, writes[1..]);
    NextPasses(P, v, v1, writes);
  }

  // -------------------------------------------------------------------- a whole order

  /** Before the order is placed: its item `k` will be recorded safely. */
  ghost predicate SafeItem(lay: Layout, perLine: nat, v: Image, indexes: seq<int>, k: nat, db: Db) {
    && perLine > 0 && lay.Ok() && |v| == lay.total
    && k < |indexes| && k < ITEMS_PER_ORDER && 0 <= indexes[k] < lay.stocks
    && SafeRecord(lay, perLine, v, k, indexes[k], db)
  }

  ghost predicate SameSlots(lay: Layout, v: Image, w: Image)
    requires lay.Ok() && |v| == |w| == lay.total
  {
    forall k :: 0 <= k < ITEMS_PER_ORDER ==> SameRecord(lay, v, w, k)
  }

  lemma NearSlots(lay: Layout, v: Image, w: Image, a: nat, n: nat)
    requires lay.Ok() && Near(lay, v, w, a, n, 0, 0)
    requires a + n <= lay.log + STOCK_BACK || lay.log + DISTRICT_VALID <= a
    ensures SameSlots(lay, v, w)
  {
    forall k | 0 <= k < ITEMS_PER_ORDER
      ensures SameRecord(lay, v, w, k)
    {
    }
  }

  /** It depends on the slot and on the row only. */
  lemma SafeKept(lay: Layout, perLine: nat, v: Image, w: Image, indexes: seq<int>, k: nat, db: Db)
    requires lay.Ok() && |v| == |w| == lay.total && k < |indexes| && k < ITEMS_PER_ORDER && 0 <= indexes[k] < lay.stocks
    requires SameRecord(lay, v, w, k) && StockRowAt(w, lay.stock, indexes[k]) == StockRowAt(v, lay.stock, indexes[k])
    ensures SafeItem(lay, perLine, w, indexes, k, db) <==> SafeItem(lay, perLine, v, indexes, k, db)
  {
    var at := StockBack(lay, k);
    forall i | at <= i < at + STOCK_ROW
      ensures w[i] == v[i]
    {
      assert w[at..at + STOCK_ROW][i - at] == v[at..at + STOCK_ROW][i - at];
    }
  }
}

/** `TPCC_DB::new_order_tx` and its helpers, run against persistent memory
    (`janus_workload/TPCC/tpcc_db.cc`). */
module TpccOrder {
  import opened PersistentMemory
  import opened TpccLog
  import opened TpccPhases
  import opened TpccWindow
  import opened TpccSteps
  import opened TpccRequest
  import opened TpccFields
  import opened TpccHistory
  import opened TpccRecording
  import opened TpccRuns
  import opened Wrappers

  class TpccDb {
    const lay: Layout
    const mem: Memory
    /** For each crash image, the order item whose stock record was being written, if any. */
    ghost var window: seq<Option<nat>>
    /** The districts' `d_next_o_id`. */
    ghost var counters: seq<nat>

    /** Between phases everything but the district table is durable. */
    ghost predicate Clean()
      reads this, mem
    {
      && mem.Valid() && lay.Ok() && |mem.vol| == lay.total && |window| == |mem.crashes|
      && CountersAre(lay, mem.vol, counters)
      && forall i :: 0 <= i < lay.total && !(lay.district <= i < lay.stock) ==> mem.dur[i] == mem.vol[i]
    }

    /** Every crash image since then meets `C`, or `D` if it fell into a window. */
    ghost predicate Since(crashes: seq<Image>, windows: seq<Option<nat>>, C: Image -> bool, D: (Image, nat) -> bool)
      reads this, mem
    {
      && crashes <= mem.crashes && windows <= window && |window| == |mem.crashes|
      && forall k :: |crashes| <= k < |mem.crashes| ==>
           match window[k] case None => C(mem.crashes[k]) case Some(item) => D(mem.crashes[k], item)
    }

    constructor (lay: Layout, mem: Memory)
      requires mem.Valid() && lay.Ok() && |mem.vol| == lay.total && mem.dur == mem.vol
      requires forall d :: 0 <= d < lay.districts ==> mem.vol[lay.district + 32 * d + 25] >= 0
      ensures this.lay == lay && this.mem == mem && Clean()
      ensures forall k :: 0 <= k < |window| ==> window[k] == None
    {
      this.lay := lay;
      this.mem := mem;
      window := seq(|mem.crashes|, _ => None);
      counters := CountersOf(lay, mem.vol);
    }

    /** One phase whose stores stay within the given cells, all of them flushed. */
    method Step(writes: Writes, ranges: Ranges, ghost a: nat, ghost n: nat, ghost b: nat, ghost m: nat,
                ghost C: Image -> bool, ghost D: (Image, nat) -> bool)
      requires Clean() && WritesIn(writes, a, n, b, m) && a + n <= lay.total && b + m <= lay.total
      requires (n == 0 || lay.stock <= a) && (m == 0 || lay.stock <= b)
      requires RangesFit(lay.total, ranges)
      requires forall i :: a <= i < a + n || b <= i < b + m ==> InRanges(ranges, i)
      requires forall h: Image :: Near(lay, mem.vol, h, a, n, b, m) ==> C(h)
      modifies mem, this`window
      ensures Clean() && WritesFit(lay.total, writes) && mem.vol == ApplyWrites(old(mem.vol), writes)
      ensures Near(lay, old(mem.vol), mem.vol, a, n, b, m)
      ensures Since(old(mem.crashes), old(window), C, D)
    {
      ghost var v0 := mem.vol;
      ghost var P := (h: Image) => Near(lay, v0, h, a, n, b, m);
      NearPhase(lay, mem.perLine, v0, writes, a, n, b, m);
      mem.Phase(writes, ranges, P);
      WritesKeepCounters(lay, v0, writes, counters);
      window := window + seq(|mem.crashes| - |window|, _ => None);
      assert forall k :: |old(mem.crashes)| <= k < |mem.crashes| ==> P(mem.crashes[k]);
    }

    /** A transaction is running: `log_valid` is set and undoing leads back to `pre`. */
    ghost predicate InTx(pre: Db)
      reads this, mem
    {
      Clean() && Undoing(lay, mem.vol) && RecoversTo(lay, mem.vol, pre)
    }

    /** Index and row are saved and fenced while the row's flag is down. */
    method SaveRow(kind: Kind, indx: nat, ghost pre: Db, ghost C: Image -> bool, ghost D: (Image, nat) -> bool)
      requires InTx(pre) && indx < AreaOf(lay, kind).count && mem.vol[AreaOf(lay, kind).flag] == 0
      requires forall h: Image :: RecoversTo(lay, h, pre) ==> C(h)
      modifies mem, this`window
      ensures InTx(pre) && mem.vol[AreaOf(lay, kind).flag] == 0 && RecordTrue(lay, kind, mem.vol, indx)
      ensures Kept(lay, kind, old(mem.vol), mem.vol) &&
              Table(mem.vol, AreaOf(lay, kind)) == old(Table(mem.vol, AreaOf(lay, kind)))
      ensures Since(old(mem.crashes), old(window), C, D)
    {
      var area := AreaOf(lay, kind);
      var row := RowAt(mem.vol, area.base, indx);
      SaveReady(lay, kind, mem.vol, indx, pre, C);
      Step([(area.indx, [indx]), (area.back, row)], [(area.indx, 1), (area.back, ROW)], area.indx, 1, area.back, ROW,
           C, D);
      SaveMade(lay, kind, old(mem.vol), mem.vol, indx);
      SaveKept(lay, kind, old(mem.vol), mem.vol, pre);
    }

    /** The row's own flag is raised and fenced. */
    method RaiseFlag(kind: Kind, indx: nat, ghost pre: Db, ghost C: Image -> bool, ghost D: (Image, nat) -> bool)
      requires InTx(pre) && indx < AreaOf(lay, kind).count && mem.vol[AreaOf(lay, kind).flag] == 0
      requires RecordTrue(lay, kind, mem.vol, indx)
      requires forall h: Image :: RecoversTo(lay, h, pre) ==> C(h)
      modifies mem, this`window
      ensures InTx(pre) && mem.vol[AreaOf(lay, kind).flag] == 1 && mem.vol[AreaOf(lay, kind).indx] == indx
      ensures Kept(lay, kind, old(mem.vol), mem.vol) &&
              Table(mem.vol, AreaOf(lay, kind)) == old(Table(mem.vol, AreaOf(lay, kind)))
      ensures Since(old(mem.crashes), old(window), C, D)
    {
      var area := AreaOf(lay, kind);
      FlagReady(lay, kind, mem.vol, indx, pre, C);
      Step([(area.flag, [1])], [(area.flag, 2)], area.flag, 1, 0, 0, C, D);
      FlagKept(lay, kind, old(mem.vol), mem.vol, indx, pre);
    }

    /** The leading cells of the saved row are overwritten and fenced. */
    method WriteRow(kind: Kind, indx: nat, xs: seq<int>, ghost pre: Db, ghost C: Image -> bool,
                    ghost D: (Image, nat) -> bool)
      requires InTx(pre) && indx < AreaOf(lay, kind).count && |xs| <= ROW
      requires mem.vol[AreaOf(lay, kind).flag] == 1 && mem.vol[AreaOf(lay, kind).indx] == indx
      requires forall h: Image :: RecoversTo(lay, h, pre) ==> C(h)
      modifies mem, this`window
      ensures InTx(pre) && Kept(lay, kind, old(mem.vol), mem.vol)
      ensures Table(mem.vol, AreaOf(lay, kind)) ==
              old(Table(mem.vol, AreaOf(lay, kind)))
              [indx := Overwrite(old(RowAt(mem.vol, AreaOf(lay, kind).base, indx)), 0, xs)]
      ensures Since(old(mem.crashes), old(window), C, D)
    {
      var at := AreaOf(lay, kind).base + ROW * indx;
      RowReady(lay, kind, mem.vol, indx, xs, pre, C);
      Step([(at, xs)], [(at, ROW)], at, ROW, 0, 0, C, D);
      RowKept(lay, kind, old(mem.vol), mem.vol, indx, pre);
      RowMade(lay, kind, old(mem.vol), mem.vol, indx, xs, at);
    }

    /** The undo-logged update of one row that `fill_new_order_entry` and
        `update_order_entry` both make: save index and row; raise the flag; write the
        row's leading cells. */
    method UpdateLoggedRow(kind: Kind, indx: nat, xs: seq<int>, ghost pre: Db, ghost C: Image -> bool,
                           ghost D: (Image, nat) -> bool)
      requires InTx(pre) && indx < AreaOf(lay, kind).count && |xs| <= ROW && mem.vol[AreaOf(lay, kind).flag] == 0
      requires forall h: Image :: RecoversTo(lay, h, pre) ==> C(h)
      modifies mem, this`window
      ensures InTx(pre) && Kept(lay, kind, old(mem.vol), mem.vol)
      ensures Table(mem.vol, AreaOf(lay, kind)) ==
              old(Table(mem.vol, AreaOf(lay, kind)))
              [indx := Overwrite(old(RowAt(mem.vol, AreaOf(lay, kind).base, indx)), 0, xs)]
      ensures Since(old(mem.crashes), old(window), C, D)
    {
      ghost var v0 := mem.vol;
      SaveRow(kind, indx, pre, C, D);
      ghost var v1 := mem.vol;
      RaiseFlag(kind, indx, pre, C, D);
      ghost var v2 := mem.vol;
      WriteRow(kind, indx, xs, pre, C, D);
      assert Table(v2, AreaOf(lay, kind))[indx] == RowAt(v2, AreaOf(lay, kind).base, indx);
      KeptTwice(lay, kind, v0, v1, v2);
      KeptTwice(lay, kind, v0, v2, mem.vol);
    }

    /** Lines 654-660: index, saved row and bit go out under one fence. */
    method RecordItem(k: nat, indx: nat, ghost pre: Db, ghost C: Image -> bool, ghost D: (Image, nat) -> bool)
      requires InTx(pre) && Recordable(lay, mem.vol, k, indx)
      requires forall h: Image :: TornFrom(lay, mem.perLine, mem.vol, k, indx, h) ==> D(h, k)
      modifies mem, this`window
      ensures InTx(pre) && Recorded(lay, old(mem.vol), mem.vol, k, indx)
      ensures Since(old(mem.crashes), old(window), C, D)
    {
      ghost var v0 := mem.vol;
      var writes := RecordWrites(lay, mem.vol, k, indx);
      var ranges := RecordRanges(lay, k);
      RecordReady(lay, mem.perLine, v0, k, indx, counters, pre, D);
      ghost var w := ApplyWrites(v0, writes);
      ghost var P := (h: Image) => Torn(lay, mem.perLine, v0, w, h);
      TornLinewise(lay, mem.perLine, v0, w);
      mem.Phase(writes, ranges, P);
      window := window + seq(|mem.crashes| - |window|, _ => Some(k));
      assert forall j :: |old(mem.crashes)| <= j < |mem.crashes| ==> P(mem.crashes[j]);
    }

    /** One store into the row at `at`, in a phase begun at `v0`. */
    method StoreInRow(at: nat, field: nat, x: int, ghost v0: Image, ghost past: seq<Image>)
      requires RowOpen(at, v0, past) && field < STOCK_ROW
      modifies mem
      ensures RowOpen(at, v0, past) && mem.vol == old(mem.vol)[at + field := x]
    {
      ghost var P := (h: Image) => Near(lay, v0, h, at, STOCK_ROW, 0, 0);
      NearCellwise(lay, v0, at, STOCK_ROW, 0, 0);
      CellwiseIsLinewise(mem.perLine, P);
      mem.Store(at + field, x, P);
    }

    ghost predicate RowOpen(at: nat, v0: Image, past: seq<Image>)
      reads this, mem
    {
      && mem.Valid() && lay.Ok() && |mem.vol| == lay.total && lay.stock <= at && at + STOCK_ROW <= lay.total
      && CountersAre(lay, mem.vol, counters)
      && Near(lay, v0, mem.vol, at, STOCK_ROW, 0, 0) && Near(lay, v0, mem.dur, at, STOCK_ROW, 0, 0)
      && (forall i :: 0 <= i < lay.total && !(lay.district <= i < lay.stock) && !(at <= i < at + STOCK_ROW)
            ==> mem.dur[i] == mem.vol[i])
      && mem.CrashesMeet(past, (h: Image) => Near(lay, v0, h, at, STOCK_ROW, 0, 0))
    }

    /** The stores of one sale: seven units fewer, restocked by 91 when at most ten would
        be left; year-to-date and order count grow. */
    method SellStores(at: nat, ghost v0: Image, ghost past: seq<Image>)
      requires RowOpen(at, v0, past)
      modifies mem
      ensures RowOpen(at, v0, past) && mem.vol == SoldAt(old(mem.vol), at)
    {
      StoreInRow(at, QUANTITY, mem.vol[at + QUANTITY] - SOLD_UNITS, v0, past);
      if mem.vol[at + QUANTITY] <= 10 {
        StoreInRow(at, QUANTITY, mem.vol[at + QUANTITY] + 91, v0, past);
      }
      StoreInRow(at, YTD, mem.vol[at + YTD] + SOLD_UNITS, v0, past);
      StoreInRow(at, ORDER_CNT, mem.vol[at + ORDER_CNT] + 1, v0, past);
    }

    /** Lines 667-685: the recorded stock row is written and fenced. */
    method SellRow(indx: nat, ghost pre: Db, ghost C: Image -> bool, ghost D: (Image, nat) -> bool)
      requires InTx(pre) && indx < lay.stocks && PutBackAt(lay, mem.vol, indx)
      requires forall h: Image :: RecoversTo(lay, h, pre) ==> C(h)
      modifies mem, this`window
      ensures InTx(pre) && SameRows(lay, old(mem.vol), mem.vol)
      ensures LineTable(lay, mem.vol) == old(LineTable(lay, mem.vol))
      ensures SameBits(lay, old(mem.vol), mem.vol) && SameSlots(lay, old(mem.vol), mem.vol)
      ensures StockTable(lay, mem.vol) ==
              old(StockTable(lay, mem.vol))[indx := Sold(old(StockRowAt(mem.vol, lay.stock, indx)))]
      ensures Since(old(mem.crashes), old(window), C, D)
    {
      ghost var v0 := mem.vol;
      var at := lay.stock + STOCK_ROW * indx;
      SellReady(lay, v0, indx, pre, C);
      SellPhase(at, C, D);
      SellDone(lay, v0, mem.vol, indx, pre);
    }

    method SellPhase(at: nat, ghost C: Image -> bool, ghost D: (Image, nat) -> bool)
      requires Clean() && lay.stock <= at && at + STOCK_ROW <= lay.total
      requires forall h: Image :: Near(lay, mem.vol, h, at, STOCK_ROW, 0, 0) ==> C(h)
      modifies mem, this`window
      ensures Clean() && mem.vol == SoldAt(old(mem.vol), at) && Since(old(mem.crashes), old(window), C, D)
    {
      ghost var v0 := mem.vol;
      SellStores(at, v0, mem.crashes);
      OneRange([(at, STOCK_ROW)]);
      Settle([(at, STOCK_ROW)], at, STOCK_ROW, 0, 0, v0, old(mem.crashes), C, D);
    }

    /** Flushes and fence that end a phase begun at `v0`. */
    method Settle(ranges: Ranges, ghost a: nat, ghost n: nat, ghost b: nat, ghost m: nat,
                  ghost v0: Image, ghost past: seq<Image>, ghost C: Image -> bool, ghost D: (Image, nat) -> bool)
      requires mem.Valid() && lay.Ok() && |mem.vol| == lay.total && |window| == |past| && past <= mem.crashes
      requires CountersAre(lay, mem.vol, counters)
      requires RangesFit(lay.total, ranges) && forall i :: a <= i < a + n || b <= i < b + m ==> InRanges(ranges, i)
      requires Near(lay, v0, mem.vol, a, n, b, m) && Near(lay, v0, mem.dur, a, n, b, m)
      requires forall i ::
                 0 <= i < lay.total && !(lay.district <= i < lay.stock) && !(a <= i < a + n) && !(b <= i < b + m) ==>
                   mem.dur[i] == mem.vol[i]
      requires mem.CrashesMeet(past, (h: Image) => Near(lay, v0, h, a, n, b, m))
      requires forall h: Image :: Near(lay, v0, h, a, n, b, m) ==> C(h)
      modifies mem, this`window
      ensures Clean() && mem.vol == old(mem.vol) && Since(past, old(window), C, D)
    {
      ghost var P := (h: Image) => Near(lay, v0, h, a, n, b, m);
      NearCellwise(lay, v0, a, n, b, m);
      CellwiseIsLinewise(mem.perLine, P);
      mem.Phase([], ranges, P);
      window := window + seq(|mem.crashes| - |window|, _ => None);
      assert forall k :: |past| <= k < |mem.crashes| ==> P(mem.crashes[k]);
    }

    /** `update_stock_entry` for order item `k`. */
    method UpdateStockEntry(k: nat, indx: nat, ghost pre: Db, ghost C: Image -> bool, ghost D: (Image, nat) -> bool)
      returns (ghost between: Image)
      requires InTx(pre) && Recordable(lay, mem.vol, k, indx)
      requires forall h: Image :: RecoversTo(lay, h, pre) ==> C(h)
      requires forall h: Image :: TornFrom(lay, mem.perLine, mem.vol, k, indx, h) ==> D(h, k)
      modifies mem, this`window
      ensures InTx(pre) && SameRows(lay, old(mem.vol), mem.vol) && Recorded(lay, old(mem.vol), between, k, indx)
      ensures OneMoreItem(lay, old(mem.vol), mem.vol, k, indx) && OtherSlots(lay, old(mem.vol), mem.vol, k)
      ensures LineTable(lay, mem.vol) == old(LineTable(lay, mem.vol))
      ensures StockTable(lay, mem.vol) ==
              old(StockTable(lay, mem.vol))[indx := Sold(old(StockRowAt(mem.vol, lay.stock, indx)))]
      ensures Since(old(mem.crashes), old(window), C, D)
    {
      RecordItem(k, indx, pre, C, D);
      between := mem.vol;
      RecordedFacts(lay, old(mem.vol), between, k, indx);
      SellRow(indx, pre, C, D);
      RecordedSlots(lay, old(mem.vol), between, mem.vol, k, indx);
      OneMoreKept(lay, old(mem.vol), between, mem.vol, k, indx);
    }

    /** `fill_new_order_line_entry`: the row is stored, its index is fenced first, the row after. */
    method FillOrderLine(indx: nat, xs: seq<int>, ghost pre: Db, ghost C: Image -> bool, ghost D: (Image, nat) -> bool)
      requires InTx(pre) && indx < lay.lines && |xs| <= ROW
      requires forall h: Image :: RecoversTo(lay, h, pre) ==> C(h)
      modifies mem, this`window
      ensures InTx(pre) && SameRows(lay, old(mem.vol), mem.vol) && StockSame(lay, old(mem.vol), mem.vol)
      ensures LineTable(lay, mem.vol) ==
              old(LineTable(lay, mem.vol))[indx := Overwrite(old(LineTable(lay, mem.vol))[indx], 0, xs)]
      ensures Since(old(mem.crashes), old(window), C, D)
    {
      var at := lay.orderLine + ROW * indx;
      ghost var v0 := mem.vol;
      LineReady(lay, v0, indx, pre, C);
      StoreLine(indx, at, xs, C, D);
      LineKept(lay, v0, mem.vol, indx, pre);
      LineMade(lay, v0, mem.vol, indx, xs, at);
    }

    method StoreLine(indx: nat, at: nat, xs: seq<int>, ghost C: Image -> bool, ghost D: (Image, nat) -> bool)
      requires Clean() && indx < lay.lines && |xs| <= ROW && at == lay.orderLine + ROW * indx
      requires forall h: Image :: Near(lay, mem.vol, h, at, ROW, lay.log + LINE_VALID, 2) ==> C(h)
      modifies mem, this`window
      ensures Clean() && Near(lay, old(mem.vol), mem.vol, at, ROW, lay.log + LINE_VALID, 2)
      ensures var ws := [(at, xs), (lay.log + LINE_VALID, [indx])];
              WritesFit(lay.total, ws) && mem.vol == ApplyWrites(old(mem.vol), ws)
      ensures Since(old(mem.crashes), old(window), C, D)
    {
      var flag := lay.log + LINE_VALID;
      ghost var v0 := mem.vol;
      ghost var P := (h: Image) => Near(lay, v0, h, at, ROW, flag, 2);
      NearPhase(lay, mem.perLine, v0, [(at, xs), (flag, [indx])], at, ROW, flag, 2);
      mem.Phase([(at, xs), (flag, [indx])], [(flag, 2)], P);
      WritesKeepCounters(lay, v0, [(at, xs), (flag, [indx])], counters);
      TwoRanges([(flag, 2), (at, ROW)]);
      LineWritten(at, flag, xs, indx);
      Settle([(flag, 2), (at, ROW)], at, ROW, flag, 2, v0, old(mem.crashes), C, D);
    }

    /** No transaction is running. */
    ghost predicate Idle()
      reads this, mem
    {
      Clean() && !Undoing(lay, mem.vol)
    }

    /** The five flags are cleared and fenced while `log_valid` is down. */
    method ClearFlags(ghost C: Image -> bool, ghost D: (Image, nat) -> bool)
      requires Idle() && forall h: Image :: RecoversTo(lay, h, Tables(lay, mem.vol)) ==> C(h)
      modifies mem, this`window
      ensures Idle() && FlagsClear(lay, mem.vol) && Tables(lay, mem.vol) == old(Tables(lay, mem.vol))
      ensures SameSlots(lay, old(mem.vol), mem.vol) && LineTable(lay, mem.vol) == old(LineTable(lay, mem.vol))
      ensures Since(old(mem.crashes), old(window), C, D)
    {
      ClearReady(lay, mem.vol, C);
      Step(ClearWrites(lay), ClearRanges(lay), lay.log + DISTRICT_VALID, LOG_VALID - DISTRICT_VALID, 0, 0, C, D);
      ClearMade(lay, old(mem.vol), mem.vol, ClearWrites(lay));
    }

    /** `log_valid` is raised and fenced. */
    method RaiseLog(ghost C: Image -> bool, ghost D: (Image, nat) -> bool)
      requires Clean() && FlagsClear(lay, mem.vol)
      requires forall h: Image :: RecoversTo(lay, h, Tables(lay, mem.vol)) ==> C(h)
      modifies mem, this`window
      ensures InTx(old(Tables(lay, mem.vol))) && FlagsClear(lay, mem.vol) &&
              Tables(lay, mem.vol) == old(Tables(lay, mem.vol))
      ensures SameSlots(lay, old(mem.vol), mem.vol) && LineTable(lay, mem.vol) == old(LineTable(lay, mem.vol))
      ensures Since(old(mem.crashes), old(window), C, D)
    {
      RaiseReady(lay, mem.vol, C);
      Step([(lay.log + LOG_VALID, [1])], [(lay.log + LOG_VALID, 2)], lay.log + LOG_VALID, 1, 0, 0, C, D);
      LogMade(lay, old(mem.vol), mem.vol, 1);
      RaisePhase(lay, old(mem.vol), mem.vol);
    }

    /** The district row is saved and fenced; no flag ever says so. */
    method BackupDistrict(d: nat, ghost pre: Db, ghost C: Image -> bool, ghost D: (Image, nat) -> bool)
      requires InTx(pre) && d < lay.districts
      requires forall h: Image :: RecoversTo(lay, h, pre) ==> C(h)
      modifies mem, this`window
      ensures InTx(pre) && SameRows(lay, old(mem.vol), mem.vol) && StockSame(lay, old(mem.vol), mem.vol)
      ensures LineTable(lay, mem.vol) == old(LineTable(lay, mem.vol))
      ensures var at, to := lay.district + DISTRICT_ROW * d, lay.log + DISTRICT_BACK;
              mem.vol[to..to + DISTRICT_ROW] == old(mem.vol[at..at + DISTRICT_ROW])
      ensures Since(old(mem.crashes), old(window), C, D)
    {
      var at := lay.district + DISTRICT_ROW * d;
      StoreBackup(d, mem.vol[at..at + DISTRICT_ROW], pre, C, D);
    }

    method StoreBackup(d: nat, row: Row, ghost pre: Db, ghost C: Image -> bool, ghost D: (Image, nat) -> bool)
      requires InTx(pre) && d < lay.districts && |row| == DISTRICT_ROW
      requires forall h: Image :: RecoversTo(lay, h, pre) ==> C(h)
      modifies mem, this`window
      ensures InTx(pre) && SameRows(lay, old(mem.vol), mem.vol) && StockSame(lay, old(mem.vol), mem.vol)
      ensures LineTable(lay, mem.vol) == old(LineTable(lay, mem.vol))
      ensures mem.vol[lay.log + DISTRICT_BACK..lay.log + DISTRICT_BACK + DISTRICT_ROW] == row
      ensures Since(old(mem.crashes), old(window), C, D)
    {
      var to := lay.log + DISTRICT_BACK;
      BackupReady(lay, mem.vol, d, pre, C);
      Step([(to, row)], [(to, DISTRICT_ROW), (CounterCell(lay, d), 1)], to, DISTRICT_ROW, 0, 0, C, D);
      BackupMade(old(mem.vol), mem.vol, to, row);
      BackupKept(lay, old(mem.vol), mem.vol, pre);
    }

    /** `d_next_o_id` is stored and never flushed. */
    method BumpCounter(d: nat, ghost pre: Db, ghost C: Image -> bool, ghost D: (Image, nat) -> bool)
      requires InTx(pre) && d < lay.districts
      requires forall h: Image :: RecoversTo(lay, h, pre) ==> C(h)
      modifies mem, this`window, this`counters
      ensures InTx(pre) && SameRows(lay, old(mem.vol), mem.vol) && StockSame(lay, old(mem.vol), mem.vol)
      ensures counters == old(counters)[d := old(counters)[d] + 1]
      ensures LineTable(lay, mem.vol) == old(LineTable(lay, mem.vol))
      ensures Since(old(mem.crashes), old(window), C, D)
    {
      ghost var v0 := mem.vol;
      ghost var P := (h: Image) => Near(lay, v0, h, 0, 0, 0, 0);
      NearCellwise(lay, v0, 0, 0, 0, 0);
      CellwiseIsLinewise(mem.perLine, P);
      BumpReady(lay, v0, pre, C);
      var cell := CounterCell(lay, d);
      mem.Store(cell, mem.vol[cell] + 1, P);
      BumpKept(lay, v0, mem.vol, pre);
      window := window + seq(|mem.crashes| - |window|, _ => None);
      counters := counters[d := counters[d] + 1];
      assert forall k :: |old(mem.crashes)| <= k < |mem.crashes| ==> P(mem.crashes[k]);
    }

    /** `log_valid` is lowered and fenced: the commit. */
    method EndTx(ghost pre: Db, ghost C: Image -> bool, ghost D: (Image, nat) -> bool)
      requires InTx(pre)
      requires forall h: Image :: RecoversTo(lay, h, pre) || RecoversTo(lay, h, Tables(lay, mem.vol)) ==> C(h)
      modifies mem, this`window
      ensures Idle() && Tables(lay, mem.vol) == old(Tables(lay, mem.vol))
      ensures LineTable(lay, mem.vol) == old(LineTable(lay, mem.vol))
      ensures Since(old(mem.crashes), old(window), C, D)
    {
      LowerReady(lay, mem.vol, pre, C);
      Step([(lay.log + LOG_VALID, [0])], [(lay.log + LOG_VALID, 2)], lay.log + LOG_VALID, 1, 0, 0, C, D);
      LogMade(lay, old(mem.vol), mem.vol, 0);
    }

    /** The transaction up to its first table update. */
    method BeginTx(d: nat, ghost C: Image -> bool, ghost D: (Image, nat) -> bool)
      requires Idle() && d < lay.districts
      requires forall h: Image :: RecoversTo(lay, h, Tables(lay, mem.vol)) ==> C(h)
      modifies mem, this`window, this`counters
      ensures InTx(old(Tables(lay, mem.vol))) && FlagsClear(lay, mem.vol) &&
              Tables(lay, mem.vol) == old(Tables(lay, mem.vol))
      ensures SameSlots(lay, old(mem.vol), mem.vol) && LineTable(lay, mem.vol) == old(LineTable(lay, mem.vol))
      ensures counters == old(counters)[d := old(counters)[d] + 1]
      ensures Since(old(mem.crashes), old(window), C, D)
    {
      ghost var pre := Tables(lay, mem.vol);
      ClearFlags(C, D);
      ghost var v1 := mem.vol;
      RaiseLog(C, D);
      ghost var v2 := mem.vol;
      BackupDistrict(d, pre, C, D);
      ghost var v3 := mem.vol;
      BumpCounter(d, pre, C, D);
      SlotsTwice(lay, old(mem.vol), v1, v2);
      SlotsTwice(lay, old(mem.vol), v2, v3);
      SlotsTwice(lay, old(mem.vol), v3, mem.vol);
    }

    /** `fill_new_order_entry`, then `update_order_entry`. */
    method InsertOrder(r: Request, o: nat, no: nat, oi: nat, ghost pre: Db, ghost C: Image -> bool,
                       ghost D: (Image, nat) -> bool)
      requires InTx(pre) && pre == Tables(lay, mem.vol) && FlagsClear(lay, mem.vol) && no < lay.newOrders &&
               oi < lay.orders
      requires forall h: Image :: RecoversTo(lay, h, pre) ==> C(h)
      modifies mem, this`window
      ensures InTx(pre) && mem.vol[lay.log + STOCK_VALID] == 0 && Tables(lay, mem.vol) == Inserted(pre, r, o, no, oi)
      ensures SameSlots(lay, old(mem.vol), mem.vol) && LineTable(lay, mem.vol) == old(LineTable(lay, mem.vol))
      ensures Since(old(mem.crashes), old(window), C, D)
    {
      UpdateLoggedRow(NewOrderRow, no, NewOrderCells(r, o), pre, C, D);
      ghost var v1 := mem.vol;
      UpdateLoggedRow(OrderRow, oi, OrderCells(r, o), pre, C, D);
      InsertedBoth(lay, old(mem.vol), v1, mem.vol, r, o, no, oi);
    }

    /** One round of the item loop, in an order begun with memory `start`. */
    method OrderItem(r: Request, o: nat, indexes: seq<int>, i: nat, line: nat, ghost pre: Db, ghost base: Db,
                     ghost lines: seq<Row>, ghost start: Image, ghost C: Image -> bool, ghost D: (Image, nat) -> bool)
      returns (ghost step: (Image, Image))
      requires InTx(pre) && RowsSized(pre, lay) && RowsSized(base, lay) && base.stock == pre.stock
      requires i < |indexes| == |r.items| == |r.amounts| <= ITEMS_PER_ORDER && 0 <= indexes[i] < lay.stocks
      requires ItemsOrdered(base, indexes, i) && Distinct(indexes) && line == LineIndex(r, o, i) < lay.lines
      requires LinesFilled(lines, r, o, i)
      requires |start| == lay.total && SlotsFrom(lay, start, mem.vol, i)
      requires forall h: Image :: RecoversTo(lay, h, pre) ==> C(h)
      requires forall h: Image, k: nat :: InWindow(lay, mem.perLine, start, pre, indexes, k, h) ==> D(h, k)
      modifies mem, this`window
      ensures InTx(pre) && ItemsOrdered(base, indexes, i + 1) && SlotsFrom(lay, start, mem.vol, i + 1)
      ensures Recording(lay, start, pre, indexes, i, step.0, step.1) && LinesFilled(lines, r, o, i + 1)
      ensures Since(old(mem.crashes), old(window), C, D)
    {
      ghost var v0 := mem.vol;
      NextRecordable(lay, v0, indexes, i);
      WindowReady(lay, mem.perLine, start, pre, indexes, i, v0, D);
      ghost var between := UpdateStockEntry(i, indexes[i], pre, C, D);
      step := (v0, between);
      ghost var v1 := mem.vol;
      FillOrderLine(line, LineCells(r, o, i), pre, C, D);
      OneMoreLine(lines, r, o, i, lay);
      SlotsAfterItem(lay, start, v0, v1, mem.vol, i);
      OneMoreRecorded(lay, v0, v1, mem.vol, indexes, i, i + 1);
      assert indexes[..i + 1][..i] == indexes[..i];
      assert StockTable(lay, v0)[indexes[i]] == StockRowAt(v0, lay.stock, indexes[i]);
    }

    /** The first `i` items are recorded and sold, on top of `base`. */
    ghost predicate ItemsOrdered(base: Db, indexes: seq<int>, i: nat)
      requires Clean() && RowsSized(base, lay) && i <= |indexes|
      reads this, mem
    {
      && ItemsRecorded(lay, mem.vol, indexes, i)
      && Tables(lay, mem.vol) == base.(stock := SellAll(base.stock, indexes[..i]))
    }

    /** The first `i` lines of the order are on top of `lines`. */
    ghost predicate LinesFilled(lines: seq<Row>, r: Request, o: nat, i: nat)
      requires Clean()
      reads this, mem
    {
      && i <= |r.items| == |r.amounts| <= ITEMS_PER_ORDER && LinesSized(lines, lay)
      && LineTable(lay, mem.vol) == FirstLines(lines, r, o, i)
    }

    /** The item loop. */
    method OrderEach(r: Request, o: nat, indexes: seq<int>, ghost pre: Db, ghost base: Db, ghost lines: seq<Row>,
                     ghost start: Image, ghost C: Image -> bool, ghost D: (Image, nat) -> bool)
      returns (ghost steps: seq<(Image, Image)>)
      requires InTx(pre) && RowsSized(pre, lay) && RowsSized(base, lay) && base.stock == pre.stock
      requires |indexes| == |r.items| == |r.amounts| <= ITEMS_PER_ORDER && Distinct(indexes)
      requires forall i :: 0 <= i < |indexes| ==> 0 <= indexes[i] < lay.stocks && 0 <= LineIndex(r, o, i) < lay.lines
      requires ItemsOrdered(base, indexes, 0) && |start| == lay.total && SlotsFrom(lay, start, mem.vol, 0)
      requires LinesFilled(lines, r, o, 0)
      requires forall h: Image :: RecoversTo(lay, h, pre) ==> C(h)
      requires forall h: Image, k: nat :: InWindow(lay, mem.perLine, start, pre, indexes, k, h) ==> D(h, k)
      modifies mem, this`window
      ensures InTx(pre) && ItemsOrdered(base, indexes, |indexes|) && LinesFilled(lines, r, o, |r.items|)
      ensures |steps| == |indexes| && AllRecorded(lay, start, pre, indexes, steps)
      ensures Since(old(mem.crashes), old(window), C, D)
    {
      var i := 0;
      steps := [];
      while i < |r.items|
        invariant i <= |r.items| && InTx(pre) && ItemsOrdered(base, indexes, i) && SlotsFrom(lay, start, mem.vol, i)
        invariant |steps| == i && AllRecorded(lay, start, pre, indexes, steps) && LinesFilled(lines, r, o, i)
        invariant Since(old(mem.crashes), old(window), C, D)
      {
        ghost var step := OrderItem(r, o, indexes, i, LineIndex(r, o, i), pre, base, lines, start, C, D);
        OneMoreWindow(lay, start, pre, indexes, steps, step);
        steps := steps + [step];
        i := i + 1;
      }
    }

    /** All items of an order. */
    method OrderItems(r: Request, o: nat, shop: Shop, ghost pre: Db, ghost base: Db, ghost start: Image,
                      ghost C: Image -> bool, ghost D: (Image, nat) -> bool)
      returns (ghost steps: seq<(Image, Image)>)
      requires InTx(pre) && RowsSized(pre, lay) && base == Tables(lay, mem.vol) && RowsSized(base, lay)
      requires base.stock == pre.stock && mem.vol[lay.log + STOCK_VALID] == 0
      requires |start| == lay.total && SameSlots(lay, start, mem.vol)
      requires shop.lay == lay && Sized(lay, shop.nw, shop.ni) && Sound(r, shop.nw, shop.ni) && 1 <= o <= 15
      requires forall h: Image :: RecoversTo(lay, h, pre) ==> C(h)
      requires forall h: Image, k: nat ::
                 InWindow(lay, mem.perLine, start, pre, StockIndexes(r, shop.ni), k, h) ==> D(h, k)
      modifies mem, this`window
      ensures InTx(pre) && Tables(lay, mem.vol) == base.(stock := SellAll(base.stock, StockIndexes(r, shop.ni)))
      ensures LineTable(lay, mem.vol) == FirstLines(old(LineTable(lay, mem.vol)), r, o, |r.items|)
      ensures |steps| == |r.items| && AllRecorded(lay, start, pre, StockIndexes(r, shop.ni), steps)
      ensures Since(old(mem.crashes), old(window), C, D)
    {
      var indexes := StockIndexes(r, shop.ni);
      IndexesFit(r, o, lay, shop.nw, shop.ni);
      IndexesDistinct(r, shop.ni);
      NoneRecorded(lay, mem.vol, indexes, 0);
      ghost var lines := LineTable(lay, mem.vol);
      NoLines(lines, r, o, lay);
      steps := OrderEach(r, o, indexes, pre, base, lines, start, C, D);
      assert indexes[..|indexes|] == indexes;
    }

    /** All the rows of one order. */
    method FillOrder(r: Request, o: nat, shop: Shop, ghost pre: Db, ghost start: Image,
                     ghost C: Image -> bool, ghost D: (Image, nat) -> bool)
      returns (ghost steps: seq<(Image, Image)>)
      requires InTx(pre) && pre == Tables(lay, mem.vol) && RowsSized(pre, lay) && FlagsClear(lay, mem.vol)
      requires shop.lay == lay && Sized(lay, shop.nw, shop.ni) && Sound(r, shop.nw, shop.ni) && 1 <= o <= 15
      requires |start| == lay.total && SameSlots(lay, start, mem.vol)
      requires forall h: Image :: RecoversTo(lay, h, pre) ==> C(h)
      requires forall h: Image, k: nat ::
                 InWindow(lay, mem.perLine, start, pre, StockIndexes(r, shop.ni), k, h) ==> D(h, k)
      modifies mem, this`window
      ensures InTx(pre) && Tables(lay, mem.vol) == Placed(shop, pre, r, o)
      ensures LineTable(lay, mem.vol) == FirstLines(old(LineTable(lay, mem.vol)), r, o, |r.items|)
      ensures |steps| == |r.items| && AllRecorded(lay, start, pre, StockIndexes(r, shop.ni), steps)
      ensures Since(old(mem.crashes), old(window), C, D)
    {
      IndexesFit(r, o, lay, shop.nw, shop.ni);
      InsertOrder(r, o, NewOrderIndex(r, o, shop.nw), OrderIndex(r, o), pre, C, D);
      ghost var base := Tables(lay, mem.vol);
      TablesSized(lay, mem.vol);
      SlotsTwice(lay, start, old(mem.vol), mem.vol);
      steps := OrderItems(r, o, shop, pre, base, start, C, D);
    }

    /** Tables and counters as the program sees them. */
    ghost function Now(): (s: State)
      requires Clean()
      reads this, mem
    {
      State(Tables(lay, mem.vol), LineTable(lay, mem.vol), counters)
    }

    /** Tables and counters between transactions. */
    ghost predicate Holds(shop: Shop, s: State)
      reads this, mem
    {
      Idle() && shop.lay == lay && s == Now() && Fits(shop, s)
    }

    method PlaceOrder(r: Request, o: nat, d: nat, shop: Shop, ghost pre: Db, ghost C: Image -> bool,
                      ghost D: (Image, nat) -> bool)
      returns (ghost steps: seq<(Image, Image)>)
      requires Idle() && d < lay.districts && pre == Tables(lay, mem.vol) && RowsSized(pre, lay)
      requires shop.lay == lay && Sized(lay, shop.nw, shop.ni) && Sound(r, shop.nw, shop.ni) && 1 <= o <= 15
      requires forall h: Image :: RecoversTo(lay, h, pre) ==> C(h)
      requires forall h: Image :: RecoversTo(lay, h, Placed(shop, pre, r, o)) ==> C(h)
      requires forall h: Image, k: nat ::
                 InWindow(lay, mem.perLine, mem.vol, pre, StockIndexes(r, shop.ni), k, h) ==> D(h, k)
      modifies mem, this`window, this`counters
      ensures Idle() && Tables(lay, mem.vol) == Placed(shop, pre, r, o)
      ensures LineTable(lay, mem.vol) == FirstLines(old(LineTable(lay, mem.vol)), r, o, |r.items|)
      ensures counters == old(counters)[d := old(counters)[d] + 1]
      ensures |steps| == |r.items| && AllRecorded(lay, old(mem.vol), pre, StockIndexes(r, shop.ni), steps)
      ensures Since(old(mem.crashes), old(window), C, D)
    {
      BeginTx(d, C, D);
      steps := FillOrder(r, o, shop, pre, old(mem.vol), C, D);
      EndTx(pre, C, D);
    }

    /** `new_order_tx`. Outside the windows in which its items are recorded, every crash
        leaves all of it or nothing; `steps` tells the windows. */
    method NewOrderTx(r: Request, shop: Shop, ghost s: State, ghost C: Image -> bool, ghost D: (Image, nat) -> bool)
      returns (ghost steps: seq<(Image, Image)>)
      requires Holds(shop, s) && Sound(r, shop.nw, shop.ni)
      requires forall h: Image :: RecoversTo(lay, h, s.db) ==> C(h)
      requires forall h: Image :: RecoversTo(lay, h, Next(shop, s, r).db) ==> C(h)
      requires forall h: Image, k: nat ::
                 InWindow(lay, mem.perLine, mem.vol, s.db, StockIndexes(r, shop.ni), k, h) ==> D(h, k)
      modifies mem, this`window, this`counters
      ensures Holds(shop, Next(shop, s, r)) && 0 <= 10 * (r.w - 1) + r.d - 1 < |s.counters|
      ensures OrderPlaced(s, Now(), r, OrderId(s.counters[10 * (r.w - 1) + r.d - 1]), shop.ni)
      ensures |steps| == |r.items| && AllRecorded(lay, old(mem.vol), s.db, StockIndexes(r, shop.ni), steps)
      ensures Since(old(mem.crashes), old(window), C, D)
    {
      DistrictFits(shop, r);
      var d := DistrictIndex(r);
      var o := OrderId(mem.vol[CounterCell(lay, d)]);
      assert Next(shop, s, r) ==
             State(Placed(shop, s.db, r, o), FirstLines(s.lines, r, o, |r.items|), counters[d := counters[d] + 1]);
      steps := PlaceOrder(r, o, d, shop, s.db, C, D);
      NextPlaces(shop, s, r);
    }

    /** One more transaction of a run. */
    method NextOrder(requests: seq<Request>, i: nat, shop: Shop, ghost s: State)
      requires Fits(shop, s) && AllSound(shop, requests) && i < |requests| &&
               Holds(shop, AfterFirst(shop, s, requests, i))
      modifies mem, this`window, this`counters
      ensures Holds(shop, AfterFirst(shop, s, requests, i + 1))
      ensures old(mem.crashes) <= mem.crashes && old(window) <= window && |window| == |mem.crashes|
      ensures forall k :: |old(mem.crashes)| <= k < |mem.crashes| ==>
                DuringRequest(shop, s, requests, i, mem.perLine, old(mem.vol), mem.crashes[k], window[k])
    {
      AfterOneMore(shop, s, requests, i);
      ghost var v0 := mem.vol;
      ghost var C := (h: Image) => DuringRequest(shop, s, requests, i, mem.perLine, v0, h, None);
      ghost var D := (h: Image, k: nat) => DuringRequest(shop, s, requests, i, mem.perLine, v0, h, Some(k));
      DuringReady(shop, s, requests, i, mem.perLine, v0, C, D);
      Follow(requests[i], shop, AfterFirst(shop, s, requests, i), C, D);
    }

    /** The transaction, with no account of its windows. */
    method Follow(r: Request, shop: Shop, ghost s: State, ghost C: Image -> bool, ghost D: (Image, nat) -> bool)
      requires Holds(shop, s) && Sound(r, shop.nw, shop.ni)
      requires forall h: Image :: RecoversTo(lay, h, s.db) ==> C(h)
      requires forall h: Image :: RecoversTo(lay, h, Next(shop, s, r).db) ==> C(h)
      requires forall h: Image, k: nat ::
                 InWindow(lay, mem.perLine, mem.vol, s.db, StockIndexes(r, shop.ni), k, h) ==> D(h, k)
      modifies mem, this`window, this`counters
      ensures Holds(shop, Next(shop, s, r)) && Since(old(mem.crashes), old(window), C, D)
    {
      ghost var steps := NewOrderTx(r, shop, s, C, D);
    }

    /** What is known after the first `i` requests of a run begun with `crashes` images. */
    ghost predicate Ran(requests: seq<Request>, i: nat, shop: Shop, s: State, crashes: nat, marks: seq<nat>,
                        starts: seq<Image>)
      reads this, mem
    {
      && Fits(shop, s) && AllSound(shop, requests) && i <= |requests| && |window| == |mem.crashes|
      && Holds(shop, AfterFirst(shop, s, requests, i)) && |marks| == i + 1 && |starts| == i && marks[0] == crashes
      && Atomic(shop, s, requests, mem.perLine, marks, starts, mem.crashes, window)
    }

    method OneMoreOrder(requests: seq<Request>, i: nat, shop: Shop, ghost s: State, ghost crashes: nat,
                        ghost marks: seq<nat>, ghost starts: seq<Image>)
      returns (ghost more: seq<nat>, ghost begun: seq<Image>)
      requires i < |requests| && Ran(requests, i, shop, s, crashes, marks, starts)
      modifies mem, this`window, this`counters
      ensures begun == starts + [old(mem.vol)] && Ran(requests, i + 1, shop, s, crashes, more, begun)
    {
      ghost var past, items, start := mem.crashes, window, mem.vol;
      NextOrder(requests, i, shop, s);
      OneMoreAtomic(shop, s, requests, mem.perLine, marks, starts, start, past, items, mem.crashes, window);
      more, begun := marks + [|mem.crashes|], starts + [start];
    }

    /** `new_orders`: one transaction after another. A crash during a request leaves all
        of it or nothing of it; what an earlier request wrote is never lost. Afterwards the
        fifteen latest orders of each district are in the tables. */
    method NewOrders(requests: seq<Request>, shop: Shop, ghost s: State)
      returns (ghost marks: seq<nat>, ghost starts: seq<Image>, ghost states: seq<State>)
      requires Holds(shop, s) && AllSound(shop, requests)
      modifies mem, this`window, this`counters
      ensures Holds(shop, After(shop, s, requests))
      ensures Chain(states, requests, shop.ni) && states[0] == s && states[|requests|] == Now()
      ensures LatestKept(states, requests, shop.ni)
      ensures |marks| == |requests| + 1 && marks[0] == |old(mem.crashes)|
      ensures Atomic(shop, s, requests, mem.perLine, marks, starts, mem.crashes, window)
      ensures |requests| > 0 ==> starts[0] == old(mem.vol)
    {
      var i := 0;
      marks, starts := [|mem.crashes|], [];
      while i < |requests|
        invariant i <= |requests| && Ran(requests, i, shop, s, |old(mem.crashes)|, marks, starts)
        invariant if i == 0 then mem.vol == old(mem.vol) else starts[0] == old(mem.vol)
      {
        marks, starts := OneMoreOrder(requests, i, shop, s, |old(mem.crashes)|, marks, starts);
        i := i + 1;
      }
      assert requests[..i] == requests;
      states := RunHistory(shop, s, requests);
    }
  }
}

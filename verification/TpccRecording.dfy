/** When an order item is recorded, and which crash images that window leaves
    (`update_stock_entry` within `new_order_tx`, `janus_workload/TPCC/tpcc_db.cc`). */
module TpccRecording {
  import opened PersistentMemory
  import opened TpccLog
  import opened TpccPhases
  import opened TpccRequest
  import opened TpccWindow
  import opened Wrappers

  /** Memory right before and right after item `k` is recorded, in an order on the tables
      `pre` that began with memory `start`: the items before it are sold, and no others. */
  ghost predicate Recording(lay: Layout, start: Image, pre: Db, indexes: seq<int>, k: nat, v: Image, w: Image) {
    && lay.Ok() && |start| == |v| == lay.total && RowsSized(pre, lay)
    && k < |indexes| && k < ITEMS_PER_ORDER && 0 <= indexes[k] < lay.stocks
    && RecoversTo(lay, v, pre) && Undoing(lay, v)
    && Recordable(lay, v, k, indexes[k]) && Recorded(lay, v, w, k, indexes[k])
    && SameRecord(lay, start, v, k) && StockTable(lay, v) == SellAll(pre.stock, indexes[..k])
  }

  /** A crash image left while item `k` was recorded. */
  ghost predicate InWindow(lay: Layout, perLine: nat, start: Image, pre: Db, indexes: seq<int>, k: nat, h: Image) {
    perLine > 0 && exists v, w :: Recording(lay, start, pre, indexes, k, v, w) && Torn(lay, perLine, v, w, h)
  }

  /** The row about to be recorded is still the one of the start. */
  lemma RowOfStart(lay: Layout, start: Image, pre: Db, indexes: seq<int>, k: nat, v: Image, w: Image)
    requires Recording(lay, start, pre, indexes, k, v, w) && Distinct(indexes) && StockTable(lay, start) == pre.stock
    ensures StockRowAt(v, lay.stock, indexes[k]) == StockRowAt(start, lay.stock, indexes[k])
  {
    var i := indexes[k];
    EachSoldOnce(pre.stock, indexes[..k]);
    assert StockTable(lay, v)[i] == StockRowAt(v, lay.stock, i) &&
           StockTable(lay, start)[i] == StockRowAt(start, lay.stock, i);
    assert i !in indexes[..k];
  }

  /** Every crash in the window of item `k` recovers if and only if its record was safe to
      write when the order began; otherwise one of two images that the cache can make of
      the window does not recover. */
  lemma RecordingSafeIff(lay: Layout, perLine: nat, start: Image, pre: Db, indexes: seq<int>, k: nat, v: Image,
                         w: Image)
    requires Recording(lay, start, pre, indexes, k, v, w) && Distinct(indexes) && StockTable(lay, start) == pre.stock
    requires perLine > 0
    ensures (forall h: Image :: Torn(lay, perLine, v, w, h) ==> RecoversTo(lay, h, pre)) <==>
            SafeItem(lay, perLine, start, indexes, k, pre)
    ensures !SafeItem(lay, perLine, start, indexes, k, pre) ==>
              || !RecoversTo(lay, TornRow(lay, perLine, v, w, k, indexes[k]), pre)
              || !RecoversTo(lay, TornIndex(lay, perLine, v, w), pre)
  {
    RowOfStart(lay, start, pre, indexes, k, v, w);
    SafeKept(lay, perLine, start, v, indexes, k, pre);
    WindowSafeIff(lay, perLine, v, w, k, indexes[k], pre);
  }

  /** What a crash in the window leaves: the row tables recover, exactly the items before
      `k` are sold, and the stock recovers exactly if the record does no harm, which is
      certain if it was safe to write when the order began. */
  lemma InWindowDecides(lay: Layout, perLine: nat, start: Image, pre: Db, indexes: seq<int>, k: nat, h: Image)
    requires InWindow(lay, perLine, start, pre, indexes, k, h) && Distinct(indexes)
    requires lay.Ok() && |start| == lay.total && StockTable(lay, start) == pre.stock && RowsSized(pre, lay)
    ensures RowsRecoverTo(lay, h, pre) && k < |indexes| && k < ITEMS_PER_ORDER
    ensures StockTable(lay, h) == SellAll(pre.stock, indexes[..k])
    ensures RecoversTo(lay, h, pre) <==> Harmless(lay, h, k, pre)
    ensures SafeItem(lay, perLine, start, indexes, k, pre) ==> RecoversTo(lay, h, pre)
  {
    var v, w :| Recording(lay, start, pre, indexes, k, v, w) && Torn(lay, perLine, v, w, h);
    WindowRows(lay, v, w, h, k, indexes[k]);
    WindowPhase(lay, v, w, h, k, indexes[k], pre);
    RecordingSafeIff(lay, perLine, start, pre, indexes, k, v, w);
  }

  /** For each item the memory before and after it was recorded. */
  ghost predicate AllRecorded(lay: Layout, start: Image, pre: Db, indexes: seq<int>, steps: seq<(Image, Image)>) {
    forall k :: 0 <= k < |steps| ==> Recording(lay, start, pre, indexes, k, steps[k].0, steps[k].1)
  }

  lemma OneMoreWindow(lay: Layout, start: Image, pre: Db, indexes: seq<int>, steps: seq<(Image, Image)>,
                      step: (Image, Image))
    requires AllRecorded(lay, start, pre, indexes, steps)
    requires Recording(lay, start, pre, indexes, |steps|, step.0, step.1)
    ensures AllRecorded(lay, start, pre, indexes, steps + [step])
  {}

  lemma WindowReady(lay: Layout, perLine: nat, start: Image, pre: Db, indexes: seq<int>, k: nat, v: Image,
                    D: (Image, nat) -> bool)
    requires perLine > 0 && lay.Ok() && |start| == |v| == lay.total && RowsSized(pre, lay)
    requires k < |indexes| && k < ITEMS_PER_ORDER && 0 <= indexes[k] < lay.stocks
    requires RecoversTo(lay, v, pre) && Undoing(lay, v) && Recordable(lay, v, k, indexes[k])
    requires SameRecord(lay, start, v, k) && StockTable(lay, v) == SellAll(pre.stock, indexes[..k])
    requires forall h: Image, j: nat :: InWindow(lay, perLine, start, pre, indexes, j, h) ==> D(h, j)
    ensures forall h: Image :: TornFrom(lay, perLine, v, k, indexes[k], h) ==> D(h, k)
    ensures forall w :: Recorded(lay, v, w, k, indexes[k]) ==> Recording(lay, start, pre, indexes, k, v, w)
  {
    forall h: Image | TornFrom(lay, perLine, v, k, indexes[k], h)
      ensures D(h, k)
    {
      var w :| Recorded(lay, v, w, k, indexes[k]) && Torn(lay, perLine, v, w, h);
      assert Recording(lay, start, pre, indexes, k, v, w);
    }
  }
}

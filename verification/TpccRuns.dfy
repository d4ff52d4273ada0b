/** Runs of new-order requests: the state after each, and what a crash during one leaves
    (`new_orders`, `janus_workload/TPCC/tpcc_nvm.cc`). */
module TpccRuns {
  import opened PersistentMemory
  import opened TpccLog
  import opened TpccRecording
  import opened TpccRequest
  import opened Wrappers

  ghost predicate AllSound(shop: Shop, requests: seq<Request>) {
    forall j :: 0 <= j < |requests| ==> Sound(requests[j], shop.nw, shop.ni)
  }

  ghost function After(shop: Shop, s: State, requests: seq<Request>): (e: State)
    requires Fits(shop, s) && AllSound(shop, requests)
    ensures Fits(shop, e)
    decreases |requests|
  {
    if requests == [] then s
    else Next(shop, After(shop, s, requests[..|requests| - 1]), requests[|requests| - 1])
  }

  /** The state after the first `j` requests. */
  ghost function AfterFirst(shop: Shop, s: State, requests: seq<Request>, j: nat): (e: State)
    requires Fits(shop, s) && AllSound(shop, requests) && j <= |requests|
    ensures Fits(shop, e)
  {
    After(shop, s, requests[..j])
  }

  lemma AfterOneMore(shop: Shop, s: State, requests: seq<Request>, j: nat)
    requires Fits(shop, s) && AllSound(shop, requests) && j < |requests|
    ensures AfterFirst(shop, s, requests, j + 1) == Next(shop, AfterFirst(shop, s, requests, j), requests[j])
  {
    assert requests[..j + 1][..j] == requests[..j];
  }

  /** An image taken while request `j` was running, `item` telling which order item was
      being recorded, if any: all of the request or nothing of it; and one from the window
      of such an item is as `TpccRecording.InWindowDecides` says. */
  ghost predicate DuringRequest(shop: Shop, s: State, requests: seq<Request>, j: nat, perLine: nat, start: Image,
                                h: Image, item: Option<nat>)
    requires Fits(shop, s) && AllSound(shop, requests) && j < |requests|
  {
    var pre := AfterFirst(shop, s, requests, j).db;
    match item
    case None => RecoversTo(shop.lay, h, pre) || RecoversTo(shop.lay, h, AfterFirst(shop, s, requests, j + 1).db)
    case Some(k) => InWindow(shop.lay, perLine, start, pre, StockIndexes(requests[j], shop.ni), k, h)
  }

  lemma DuringReady(shop: Shop, s: State, requests: seq<Request>, j: nat, perLine: nat, start: Image,
                    C: Image -> bool, D: (Image, nat) -> bool)
    requires Fits(shop, s) && AllSound(shop, requests) && j < |requests|
    requires forall h: Image :: DuringRequest(shop, s, requests, j, perLine, start, h, None) ==> C(h)
    requires forall h: Image, k: nat :: DuringRequest(shop, s, requests, j, perLine, start, h, Some(k)) ==> D(h, k)
    ensures var t := AfterFirst(shop, s, requests, j);
            && (forall h: Image :: RecoversTo(shop.lay, h, t.db) ==> C(h))
            && (forall h: Image :: RecoversTo(shop.lay, h, Next(shop, t, requests[j]).db) ==> C(h))
            && forall h: Image, k: nat ::
                 InWindow(shop.lay, perLine, start, t.db, StockIndexes(requests[j], shop.ni), k, h) ==> D(h, k)
  {
    AfterOneMore(shop, s, requests, j);
    var t := AfterFirst(shop, s, requests, j);
    forall h: Image, k: nat | InWindow(shop.lay, perLine, start, t.db, StockIndexes(requests[j], shop.ni), k, h)
      ensures D(h, k)
    {
      assert DuringRequest(shop, s, requests, j, perLine, start, h, Some(k));
    }
    forall h: Image
      ensures RecoversTo(shop.lay, h, t.db) ==> C(h)
      ensures RecoversTo(shop.lay, h, AfterFirst(shop, s, requests, j + 1).db) ==> C(h)
    {
      assert DuringRequest(shop, s, requests, j, perLine, start, h, None) ==> C(h);
    }
  }

  /** Request by request, the images taken while it ran: `marks[j]` is how many there
      were when request `j` started, with memory as in `starts[j]`. */
  ghost predicate Atomic(shop: Shop, s: State, requests: seq<Request>, perLine: nat, marks: seq<nat>,
                         starts: seq<Image>, crashes: seq<Image>, items: seq<Option<nat>>)
    requires Fits(shop, s) && AllSound(shop, requests) && |crashes| == |items|
  {
    && 0 < |marks| == |starts| + 1 <= |requests| + 1 && marks[|marks| - 1] == |crashes|
    && (forall i, j :: 0 <= i <= j < |marks| ==> marks[i] <= marks[j])
    && forall j, k :: 0 <= j < |marks| - 1 && marks[j] <= k < marks[j + 1] ==>
         DuringRequest(shop, s, requests, j, perLine, starts[j], crashes[k], items[k])
  }

  lemma OneMoreAtomic(shop: Shop, s: State, requests: seq<Request>, perLine: nat, marks: seq<nat>, starts: seq<Image>,
                      start: Image, crashes: seq<Image>, items: seq<Option<nat>>,
                      moreCrashes: seq<Image>, moreItems: seq<Option<nat>>)
    requires Fits(shop, s) && AllSound(shop, requests) && |crashes| == |items| && |moreCrashes| == |moreItems|
    requires crashes <= moreCrashes && items <= moreItems
    requires Atomic(shop, s, requests, perLine, marks, starts, crashes, items) && |marks| <= |requests|
    requires forall k :: |crashes| <= k < |moreCrashes| ==>
               DuringRequest(shop, s, requests, |marks| - 1, perLine, start, moreCrashes[k], moreItems[k])
    ensures Atomic(shop, s, requests, perLine, marks + [|moreCrashes|], starts + [start], moreCrashes, moreItems)
  {
    var more, begun := marks + [|moreCrashes|], starts + [start];
    forall j, k | 0 <= j < |more| - 1 && more[j] <= k < more[j + 1]
      ensures DuringRequest(shop, s, requests, j, perLine, begun[j], moreCrashes[k], moreItems[k])
    {
      if j < |marks| - 1 {
        Before(marks, j, k, |crashes|);
        assert begun[j] == starts[j] && more[j] == marks[j] && more[j + 1] == marks[j + 1];
        assert crashes[k] == moreCrashes[k] && items[k] == moreItems[k];
      }
    }
  }

  lemma Before(marks: seq<nat>, j: nat, k: nat, end: nat)
    requires j < |marks| - 1 && k < marks[j + 1] && marks[|marks| - 1] == end
    requires forall a, b :: 0 <= a <= b < |marks| ==> marks[a] <= marks[b]
    ensures k < end
  {
    assert marks[j + 1] <= marks[|marks| - 1];
  }
}

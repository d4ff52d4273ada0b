/** The array-swap workload: two items are exchanged under a two-entry undo log
    guarded by one commit flag (`janus_workload/arr_swap/arr_swap.h`). */
module ArraySwap {
  import opened PersistentMemory

  /** An item is one cache line: eight 8-byte words. */
  type Item = seq<int>
  const ITEM: nat := 8
  /** A log entry is an item followed by the word holding its index. */
  const ENTRY: nat := 9

  /** Where the commit flag, the two log entries and the `n` items live. */
  datatype Layout = Layout(flag: nat, backup: nat, start: nat, n: nat, total: nat) {
    ghost predicate Valid() {
      && flag < total && backup + 2 * ENTRY <= total && start + ITEM * n <= total
      && !(backup <= flag < backup + 2 * ENTRY)
      && !(start <= flag < start + ITEM * n)
      && (backup + 2 * ENTRY <= start || start + ITEM * n <= backup)
    }

    function At(i: nat): (r: nat) {
      start + ITEM * i
    }
  }

  ghost predicate Fits(lay: Layout, h: Image) {
    lay.Valid() && |h| == lay.total
  }

  function ItemAt(h: Image, at: nat): (r: Item)
    requires at + ITEM <= |h|
    ensures |r| == ITEM == 8
  {
    h[at..at + ITEM]
  }

  ghost function Items(lay: Layout, h: Image): (r: seq<Item>)
    requires Fits(lay, h)
    ensures |r| == lay.n
    ensures forall i :: 0 <= i < lay.n ==> r[i] == ItemAt(h, lay.At(i))
  {
    seq(lay.n, i requires 0 <= i < lay.n => ItemAt(h, lay.At(i)))
  }

  ghost function PutBack(items: seq<Item>, index: int, item: Item): (r: seq<Item>) {
    if 0 <= index < |items| then items[index := item] else items
  }

  /** What recovery makes of a crash image: with the flag set, each logged item goes
      back to its logged index. */
  ghost function Recovered(lay: Layout, h: Image): (r: seq<Item>)
    requires Fits(lay, h)
  {
    if h[lay.flag] == 0 then Items(lay, h)
    else
      var one := PutBack(Items(lay, h), h[lay.backup + ITEM], ItemAt(h, lay.backup));
      PutBack(one, h[lay.backup + ENTRY + ITEM], ItemAt(h, lay.backup + ENTRY))
  }

  function Exchange<T>(s: seq<T>, a: nat, b: nat): (r: seq<T>)
    requires a < |s| && b < |s|
  {
    s[a := s[b]][b := s[a]]
  }

  lemma ExchangePermutes<T>(s: seq<T>, a: nat, b: nat)
    requires a < |s| && b < |s|
    ensures multiset(Exchange(s, a, b)) == multiset(s)
  {}

  function ExchangeAll<T>(s: seq<T>, calls: seq<(nat, nat)>): (r: seq<T>)
    requires forall c :: c in calls ==> c.0 < |s| && c.1 < |s|
    ensures |r| == |s|
    decreases |calls|
  {
    if calls == [] then s
    else
      var last := calls[|calls| - 1];
      Exchange(ExchangeAll(s, calls[..|calls| - 1]), last.0, last.1)
  }

  lemma {:induction false} ExchangeAllPermutes<T>(s: seq<T>, calls: seq<(nat, nat)>)
    requires forall c :: c in calls ==> c.0 < |s| && c.1 < |s|
    ensures multiset(ExchangeAll(s, calls)) == multiset(s)
    decreases |calls|
  {
    if calls != [] {
      var last := calls[|calls| - 1];
      ExchangeAllPermutes(s, calls[..|calls| - 1]);
      ExchangePermutes(ExchangeAll(s, calls[..|calls| - 1]), last.0, last.1);
    }
  }

  // ------------------------------------------------- the stages of one swap

  ghost predicate LogHolds(lay: Layout, before: seq<Item>, a: nat, b: nat, h: Image)
    requires Fits(lay, h) && a < |before| && b < |before|
  {
    && ItemAt(h, lay.backup) == before[a] && h[lay.backup + ITEM] == a
    && ItemAt(h, lay.backup + ENTRY) == before[b] && h[lay.backup + ENTRY + ITEM] == b
  }

  /** No swap is committed: the flag is down and the items are `now`. */
  ghost predicate Quiet(lay: Layout, now: seq<Item>, h: Image) {
    Fits(lay, h) && h[lay.flag] == 0 && Items(lay, h) == now
  }

  /** The log describes `before`; the items are `now`; the flag is being switched. */
  ghost predicate Switching(lay: Layout, before: seq<Item>, a: nat, b: nat, now: seq<Item>, h: Image)
    requires a < |before| && b < |before|
  {
    && Fits(lay, h) && (h[lay.flag] == 0 || h[lay.flag] == 1)
    && LogHolds(lay, before, a, b, h) && Items(lay, h) == now
  }

  /** The flag is up, so the two logged items may hold anything. */
  ghost predicate Undoable(lay: Layout, before: seq<Item>, a: nat, b: nat, h: Image)
    requires a < |before| && b < |before|
  {
    && Fits(lay, h) && h[lay.flag] == 1
    && |before| == lay.n && LogHolds(lay, before, a, b, h)
    && forall i :: 0 <= i < lay.n && i != a && i != b ==> ItemAt(h, lay.At(i)) == before[i]
  }

  lemma ItemsMix(lay: Layout, d: Image, v: Image, h: Image)
    requires Fits(lay, d) && Fits(lay, v) && Mix(d, v, h) && Items(lay, d) == Items(lay, v)
    ensures Items(lay, h) == Items(lay, d)
  {
    forall i | 0 <= i < lay.n
      ensures ItemAt(h, lay.At(i)) == ItemAt(d, lay.At(i))
    {
      assert Items(lay, d)[i] == Items(lay, v)[i];
      MixSlice(d, v, h, lay.At(i), lay.At(i) + ITEM);
    }
  }

  lemma LogMix(lay: Layout, before: seq<Item>, a: nat, b: nat, d: Image, v: Image, h: Image)
    requires Fits(lay, d) && Fits(lay, v) && Mix(d, v, h) && a < |before| && b < |before|
    requires LogHolds(lay, before, a, b, d) && LogHolds(lay, before, a, b, v)
    ensures LogHolds(lay, before, a, b, h)
  {
    MixSlice(d, v, h, lay.backup, lay.backup + ITEM);
    MixSlice(d, v, h, lay.backup + ENTRY, lay.backup + ENTRY + ITEM);
  }

  lemma QuietCellwise(lay: Layout, now: seq<Item>)
    ensures Cellwise((h: Image) => Quiet(lay, now, h))
  {
    forall d, v, h: Image | Quiet(lay, now, d) && Quiet(lay, now, v) && Mix(d, v, h)
      ensures Quiet(lay, now, h)
    {
      ItemsMix(lay, d, v, h);
    }
  }

  lemma SwitchingCellwise(lay: Layout, before: seq<Item>, a: nat, b: nat, now: seq<Item>)
    requires a < |before| && b < |before|
    ensures Cellwise((h: Image) => Switching(lay, before, a, b, now, h))
  {
    forall d, v, h: Image | Switching(lay, before, a, b, now, d) && Switching(lay, before, a, b, now, v) && Mix(d, v, h)
      ensures Switching(lay, before, a, b, now, h)
    {
      ItemsMix(lay, d, v, h);
      LogMix(lay, before, a, b, d, v, h);
    }
  }

  lemma UndoableCellwise(lay: Layout, before: seq<Item>, a: nat, b: nat)
    requires a < |before| && b < |before|
    ensures Cellwise((h: Image) => Undoable(lay, before, a, b, h))
  {
    forall d, v, h: Image | Undoable(lay, before, a, b, d) && Undoable(lay, before, a, b, v) && Mix(d, v, h)
      ensures Undoable(lay, before, a, b, h)
    {
      LogMix(lay, before, a, b, d, v, h);
      forall i | 0 <= i < lay.n && i != a && i != b
        ensures ItemAt(h, lay.At(i)) == before[i]
      {
        MixSlice(d, v, h, lay.At(i), lay.At(i) + ITEM);
      }
    }
  }

  /** The shape of every image a swap or a recovery can leave: if the flag is up, the
      log names two slots of the array, and names one slot twice only with one item. */
  ghost predicate Restartable(lay: Layout, h: Image) {
    && Fits(lay, h)
    && (h[lay.flag] == 0 ||
        (&& h[lay.flag] == 1
         && 0 <= h[lay.backup + ITEM] < lay.n && 0 <= h[lay.backup + ENTRY + ITEM] < lay.n
         && (h[lay.backup + ITEM] == h[lay.backup + ENTRY + ITEM] ==>
               ItemAt(h, lay.backup) == ItemAt(h, lay.backup + ENTRY))))
  }

  /** With the flag up the log always takes the array back to where it was. */
  lemma UndoRestores(lay: Layout, before: seq<Item>, a: nat, b: nat, h: Image)
    requires a < |before| && b < |before| && Undoable(lay, before, a, b, h)
    ensures Recovered(lay, h) == before && Restartable(lay, h)
  {}

  lemma SwitchingRecovers(lay: Layout, before: seq<Item>, a: nat, b: nat, now: seq<Item>, h: Image)
    requires a < |before| && b < |before| == |now|
    requires now == before || now == Exchange(before, a, b)
    requires Switching(lay, before, a, b, now, h)
    ensures Recovered(lay, h) == (if h[lay.flag] == 0 then now else before) && Restartable(lay, h)
  {}

  /** Storing one item changes that item and nothing else of the layout. */
  lemma OverwriteItem(lay: Layout, v: Image, at: nat, item: Item)
    requires Fits(lay, v) && at < lay.n && |item| == ITEM
    ensures var w := Overwrite(v, lay.At(at), item);
            && Fits(lay, w) && Items(lay, w) == Items(lay, v)[at := item]
            && w[lay.flag] == v[lay.flag]
            && w[lay.backup..lay.backup + 2 * ENTRY] == v[lay.backup..lay.backup + 2 * ENTRY]
  {
    var w := Overwrite(v, lay.At(at), item);
    forall i | 0 <= i < lay.n
      ensures ItemAt(w, lay.At(i)) == if i == at then item else ItemAt(v, lay.At(i))
    {
    }
  }

  /** The words of one log entry. */
  lemma LogSlices(lay: Layout, before: seq<Item>, a: nat, b: nat, h: Image, g: Image)
    requires Fits(lay, h) && Fits(lay, g) && a < |before| && b < |before|
    requires LogHolds(lay, before, a, b, h)
    requires g[lay.backup..lay.backup + 2 * ENTRY] == h[lay.backup..lay.backup + 2 * ENTRY]
    ensures LogHolds(lay, before, a, b, g)
  {
    forall i | lay.backup <= i < lay.backup + 2 * ENTRY
      ensures g[i] == h[i]
    {
      assert g[lay.backup..lay.backup + 2 * ENTRY][i - lay.backup] ==
             h[lay.backup..lay.backup + 2 * ENTRY][i - lay.backup];
    }
  }

  /** Storing into the log leaves the flag and the items alone. */
  lemma OverwriteLog(lay: Layout, v: Image, at: nat, xs: seq<int>)
    requires Fits(lay, v) && lay.backup <= at && at + |xs| <= lay.backup + 2 * ENTRY
    ensures var w := Overwrite(v, at, xs);
            Fits(lay, w) && Items(lay, w) == Items(lay, v) && w[lay.flag] == v[lay.flag]
  {
    var w := Overwrite(v, at, xs);
    forall i | 0 <= i < lay.n
      ensures ItemAt(w, lay.At(i)) == ItemAt(v, lay.At(i))
    {
    }
  }

  lemma SetFlag(lay: Layout, v: Image, x: int)
    requires Fits(lay, v)
    ensures var w := v[lay.flag := x];
            && Fits(lay, w) && Items(lay, w) == Items(lay, v)
            && w[lay.backup..lay.backup + 2 * ENTRY] == v[lay.backup..lay.backup + 2 * ENTRY]
  {
    var w := v[lay.flag := x];
    forall i | 0 <= i < lay.n
      ensures ItemAt(w, lay.At(i)) == ItemAt(v, lay.At(i))
    {
    }
  }

  /** The four stores of the log-writing part. */
  function LogWrites(lay: Layout, first: Item, second: Item, a: nat, b: nat): (r: Writes)
    ensures AreLogWrites(r, lay, first, second, a, b)
  {
    [(lay.backup, first), (lay.backup + ENTRY, second), (lay.backup + ITEM, [a]), (lay.backup + ENTRY + ITEM, [b])]
  }

  ghost predicate AreLogWrites(ws: Writes, lay: Layout, first: Item, second: Item, a: nat, b: nat) {
    && |ws| == 4 && ws[0] == (lay.backup, first) && ws[1] == (lay.backup + ENTRY, second)
    && ws[2] == (lay.backup + ITEM, [a]) && ws[3] == (lay.backup + ENTRY + ITEM, [b])
  }

  lemma {:induction false} LogWritesStay(lay: Layout, before: seq<Item>, v: Image, writes: Writes)
    requires Quiet(lay, before, v)
    requires forall j :: 0 <= j < |writes| ==>
               lay.backup <= writes[j].0 && writes[j].0 + |writes[j].1| <= lay.backup + 2 * ENTRY
    ensures WritesStay((h: Image) => Quiet(lay, before, h), v, writes)
    decreases |writes|
  {
    if writes != [] {
      OverwriteLog(lay, v, writes[0].0, writes[0].1);
      LogWritesStay(lay, before, Overwrite(v, writes[0].0, writes[0].1), writes[1..]);
    }
  }

  lemma LogWritten(lay: Layout, before: seq<Item>, a: nat, b: nat, v: Image, ws: Writes)
    requires Fits(lay, v) && a < |before| && b < |before| && |before[a]| == |before[b]| == ITEM
    requires AreLogWrites(ws, lay, before[a], before[b], a, b)
    ensures WritesFit(|v|, ws) && Fits(lay, ApplyWrites(v, ws)) && LogHolds(lay, before, a, b, ApplyWrites(v, ws))
  {
    assert ws == [ws[0], ws[1], ws[2], ws[3]];
    FourWrites(v, ws[0], ws[1], ws[2], ws[3]);
    EntriesHold(lay, before, a, b, v, ApplyWrites(v, ws));
  }

  lemma EntriesHold(lay: Layout, before: seq<Item>, a: nat, b: nat, v: Image, w: Image)
    requires Fits(lay, v) && a < |before| && b < |before| && |before[a]| == |before[b]| == ITEM
    requires var v2 := Overwrite(Overwrite(v, lay.backup, before[a]), lay.backup + ENTRY, before[b]);
             w == Overwrite(Overwrite(v2, lay.backup + ITEM, [a]), lay.backup + ENTRY + ITEM, [b])
    ensures Fits(lay, w) && LogHolds(lay, before, a, b, w)
  {
    var v1 := Overwrite(v, lay.backup, before[a]);
    var v2 := Overwrite(v1, lay.backup + ENTRY, before[b]);
    var v3 := Overwrite(v2, lay.backup + ITEM, [a]);
    OverwriteSlice(v, lay.backup, before[a]);
    OverwriteElsewhere(v1, lay.backup + ENTRY, before[b], lay.backup, lay.backup + ITEM);
    OverwriteElsewhere(v2, lay.backup + ITEM, [a], lay.backup, lay.backup + ITEM);
    OverwriteElsewhere(v3, lay.backup + ENTRY + ITEM, [b], lay.backup, lay.backup + ITEM);
    OverwriteSlice(v1, lay.backup + ENTRY, before[b]);
    OverwriteElsewhere(v2, lay.backup + ITEM, [a], lay.backup + ENTRY, lay.backup + ENTRY + ITEM);
    OverwriteElsewhere(v3, lay.backup + ENTRY + ITEM, [b], lay.backup + ENTRY, lay.backup + ENTRY + ITEM);
  }

  lemma UndoableItems(lay: Layout, before: seq<Item>, a: nat, b: nat, v: Image, w: Image, at: nat, item: Item)
    requires a < |before| && b < |before| && Undoable(lay, before, a, b, v)
    requires Fits(lay, w) && at < lay.n && (at == a || at == b)
    requires Items(lay, w) == Items(lay, v)[at := item] && w[lay.flag] == v[lay.flag]
    requires w[lay.backup..lay.backup + 2 * ENTRY] == v[lay.backup..lay.backup + 2 * ENTRY]
    ensures Undoable(lay, before, a, b, w)
  {
    LogSlices(lay, before, a, b, v, w);
    forall i | 0 <= i < lay.n && i != a && i != b
      ensures ItemAt(w, lay.At(i)) == before[i]
    {
      assert Items(lay, w)[i] == Items(lay, v)[i];
    }
  }

  /** Read backwards: a raised flag makes the image undoable towards what it recovers to. */
  lemma RestartableUndoes(lay: Layout, h: Image)
    requires Restartable(lay, h) && h[lay.flag] == 1
    ensures Undoable(lay, Recovered(lay, h), h[lay.backup + ITEM], h[lay.backup + ENTRY + ITEM], h)
  {
    forall i | 0 <= i < lay.n && i != h[lay.backup + ITEM] && i != h[lay.backup + ENTRY + ITEM]
      ensures ItemAt(h, lay.At(i)) == Recovered(lay, h)[i]
    {
      assert Items(lay, h)[i] == ItemAt(h, lay.At(i));
    }
  }

  class SwapArray {
    const lay: Layout
    const mem: Memory

    /** Between calls: the flag is durably down and every item is durable. */
    ghost predicate Valid()
      reads this, mem
    {
      && mem.Valid() && Fits(lay, mem.vol) && Fits(lay, mem.dur)
      && mem.vol[lay.flag] == 0 && mem.dur[lay.flag] == 0
      && Items(lay, mem.dur) == Items(lay, mem.vol)
    }

    ghost function Contents(): (r: seq<Item>)
      reads this, mem
      requires Valid()
    {
      Items(lay, mem.vol)
    }

    /** Every crash image recorded since `past` recovers to one of the two arrays. */
    ghost predicate Atomic(past: seq<Image>, before: seq<Item>, after: seq<Item>)
      reads this, mem
    {
      && past <= mem.crashes
      && forall k :: |past| <= k < |mem.crashes| ==>
           && Restartable(lay, mem.crashes[k])
           && (Recovered(lay, mem.crashes[k]) == before || Recovered(lay, mem.crashes[k]) == after)
    }

    constructor (lay: Layout, mem: Memory)
      requires mem.Valid() && Fits(lay, mem.vol) && mem.dur == mem.vol && mem.vol[lay.flag] == 0
      ensures Valid() && this.lay == lay && this.mem == mem
    {
      this.lay := lay;
      this.mem := mem;
    }

    method PersistLog(a: nat, b: nat, ghost before: seq<Item>)
      requires mem.Valid() && Quiet(lay, before, mem.vol) && Quiet(lay, before, mem.dur)
      requires a < |before| && b < |before| && LogHolds(lay, before, a, b, mem.vol)
      modifies mem
      ensures mem.Valid() && mem.vol == old(mem.vol) && Quiet(lay, before, mem.dur)
      ensures LogHolds(lay, before, a, b, mem.dur)
      ensures Atomic(old(mem.crashes), before, before)
    {
      ghost var P := (h: Image) => Quiet(lay, before, h);
      QuietCellwise(lay, before);
      CellwiseIsLinewise(mem.perLine, P);
      mem.FlushCells(lay.backup, 2 * ENTRY, P);
      mem.Fence(P);
      assert mem.dur[lay.backup..lay.backup + 2 * ENTRY] == mem.vol[lay.backup..lay.backup + 2 * ENTRY];
      LogSlices(lay, before, a, b, mem.vol, mem.dur);
      assert forall k :: |old(mem.crashes)| <= k < |mem.crashes| ==> P(mem.crashes[k]);
    }

    method StoreEntries(a: nat, b: nat, ghost before: seq<Item>)
      requires mem.Valid() && Quiet(lay, before, mem.vol) && Quiet(lay, before, mem.dur) && a < lay.n && b < lay.n
      modifies mem
      ensures mem.Valid() && Quiet(lay, before, mem.vol) && Quiet(lay, before, mem.dur)
      ensures LogHolds(lay, before, a, b, mem.vol)
      ensures Atomic(old(mem.crashes), before, before)
    {
      ghost var P := (h: Image) => Quiet(lay, before, h);
      QuietCellwise(lay, before);
      var writes := LogWrites(lay, ItemAt(mem.vol, lay.At(a)), ItemAt(mem.vol, lay.At(b)), a, b);
      LogWritesStay(lay, before, mem.vol, writes);
      LogWritten(lay, before, a, b, mem.vol, writes);
      CellwisePhase(mem.perLine, P, mem.vol, writes);
      mem.StoreAll(writes, P);
      assert forall k :: |old(mem.crashes)| <= k < |mem.crashes| ==> P(mem.crashes[k]);
    }

    /** First part: the log is written, flushed and fenced while the flag is down. */
    method WriteLog(a: nat, b: nat)
      requires Valid() && a < lay.n && b < lay.n
      modifies mem
      ensures Valid() && Contents() == old(Contents())
      ensures LogHolds(lay, Contents(), a, b, mem.vol) && LogHolds(lay, Contents(), a, b, mem.dur)
      ensures Atomic(old(mem.crashes), Contents(), Contents())
    {
      StoreEntries(a, b, Contents());
      PersistLog(a, b, old(Contents()));
    }

    /** Switching the commit flag to `x` while the log describes `before`. */
    method SwitchFlag(x: int, a: nat, b: nat, ghost before: seq<Item>, ghost now: seq<Item>)
      requires x == 0 || x == 1
      requires mem.Valid() && a < |before| && b < |before| == |now|
      requires now == before || now == Exchange(before, a, b)
      requires Switching(lay, before, a, b, now, mem.vol) && Switching(lay, before, a, b, now, mem.dur)
      modifies mem
      ensures mem.Valid() && Switching(lay, before, a, b, now, mem.vol) && Switching(lay, before, a, b, now, mem.dur)
      ensures mem.vol[lay.flag] == mem.dur[lay.flag] == x
      ensures Atomic(old(mem.crashes), before, now)
    {
      ghost var P := (h: Image) => Switching(lay, before, a, b, now, h);
      SwitchingCellwise(lay, before, a, b, now);
      CellwiseIsLinewise(mem.perLine, P);
      SetFlag(lay, mem.vol, x);
      LogSlices(lay, before, a, b, mem.vol, mem.vol[lay.flag := x]);
      mem.Store(lay.flag, x, P);
      mem.FlushCells(lay.flag, 1, P);
      mem.Fence(P);
      forall k | |old(mem.crashes)| <= k < |mem.crashes|
        ensures && Restartable(lay, mem.crashes[k])
                && (Recovered(lay, mem.crashes[k]) == before || Recovered(lay, mem.crashes[k]) == now)
      {
        assert P(mem.crashes[k]);
        SwitchingRecovers(lay, before, a, b, now, mem.crashes[k]);
      }
    }

    method StoreItem(at: nat, item: Item, a: nat, b: nat, ghost before: seq<Item>)
      requires mem.Valid() && a < |before| && b < |before| && |item| == ITEM
      requires Undoable(lay, before, a, b, mem.vol) && Undoable(lay, before, a, b, mem.dur)
      requires at < lay.n && (at == a || at == b)
      modifies mem
      ensures mem.Valid()
      ensures Undoable(lay, before, a, b, mem.vol) && Undoable(lay, before, a, b, mem.dur)
      ensures Items(lay, mem.vol) == old(Items(lay, mem.vol))[at := item]
      ensures Atomic(old(mem.crashes), before, before)
    {
      ghost var P := (h: Image) => Undoable(lay, before, a, b, h);
      UndoableCellwise(lay, before, a, b);
      CellwiseIsLinewise(mem.perLine, P);
      OverwriteItem(lay, mem.vol, at, item);
      UndoableItems(lay, before, a, b, mem.vol, Overwrite(mem.vol, lay.At(at), item), at, item);
      CellwisePasses(P, mem.vol, Overwrite(mem.vol, lay.At(at), item));
      mem.StoreRange(lay.At(at), item, P);
      UndoableCrashes(before, a, b, old(mem.crashes));
    }

    method PersistItems(a: nat, b: nat, ghost before: seq<Item>)
      requires mem.Valid() && a < |before| && b < |before|
      requires Undoable(lay, before, a, b, mem.vol) && Undoable(lay, before, a, b, mem.dur)
      modifies mem
      ensures mem.Valid() && mem.vol == old(mem.vol)
      ensures Undoable(lay, before, a, b, mem.dur) && Items(lay, mem.dur) == Items(lay, mem.vol)
      ensures Atomic(old(mem.crashes), before, before)
    {
      ghost var P := (h: Image) => Undoable(lay, before, a, b, h);
      UndoableCellwise(lay, before, a, b);
      CellwiseIsLinewise(mem.perLine, P);
      mem.FlushCells(lay.At(a), ITEM, P);
      mem.FlushCells(lay.At(b), ITEM, P);
      mem.Fence(P);
      forall i | 0 <= i < lay.n
        ensures ItemAt(mem.dur, lay.At(i)) == ItemAt(mem.vol, lay.At(i))
      {
      }
      UndoableCrashes(before, a, b, old(mem.crashes));
    }

    lemma UndoableCrashes(before: seq<Item>, a: nat, b: nat, past: seq<Image>)
      requires a < |before| && b < |before|
      requires mem.CrashesMeet(past, (h: Image) => Undoable(lay, before, a, b, h))
      ensures Atomic(past, before, before)
    {
      var P := (h: Image) => Undoable(lay, before, a, b, h);
      forall k | |past| <= k < |mem.crashes|
        ensures Restartable(lay, mem.crashes[k]) && Recovered(lay, mem.crashes[k]) == before
      {
        assert P(mem.crashes[k]);
        UndoRestores(lay, before, a, b, mem.crashes[k]);
      }
    }

    /** The exchange itself, made while the flag is up. */
    method ExchangeItems(a: nat, b: nat, ghost before: seq<Item>)
      requires mem.Valid() && a < |before| && b < |before|
      requires Undoable(lay, before, a, b, mem.vol) && Undoable(lay, before, a, b, mem.dur)
      requires Items(lay, mem.vol) == before
      modifies mem
      ensures mem.Valid()
      ensures Undoable(lay, before, a, b, mem.vol) && Undoable(lay, before, a, b, mem.dur)
      ensures Items(lay, mem.vol) == Items(lay, mem.dur) == Exchange(before, a, b)
      ensures ItemAt(mem.vol, lay.At(a)) == before[b] && ItemAt(mem.vol, lay.At(b)) == before[a]
      ensures forall i :: 0 <= i < lay.n && i != a && i != b ==> ItemAt(mem.vol, lay.At(i)) == before[i]
      ensures Atomic(old(mem.crashes), before, before)
    {
      var temp := ItemAt(mem.vol, lay.At(a));
      StoreItem(a, ItemAt(mem.vol, lay.At(b)), a, b, before);
      StoreItem(b, temp, a, b, before);
      PersistItems(a, b, before);
      ghost var after := Items(lay, mem.vol);
      assert after == Exchange(before, a, b);
      assert after[a] == ItemAt(mem.vol, lay.At(a)) && after[b] == ItemAt(mem.vol, lay.At(b));
    }

    /** `ArraySwap::swap`. Whatever the cache does and whenever power is lost during
        the call, recovery finds the array of before the call or of after it; once the
        call has returned it finds the latter. */
    method Swap(a: nat, b: nat)
      requires Valid() && a < lay.n && b < lay.n
      modifies mem
      ensures Valid() && Contents() == Exchange(old(Contents()), a, b)
      ensures Contents()[a] == old(Contents())[b] && Contents()[b] == old(Contents())[a]
      ensures forall i :: 0 <= i < lay.n && i != a && i != b ==> Contents()[i] == old(Contents())[i]
      ensures Recovered(lay, mem.dur) == Contents()
      ensures Atomic(old(mem.crashes), old(Contents()), Contents())
    {
      ghost var before := Contents();
      ghost var after := Exchange(before, a, b);
      WriteLog(a, b);
      SwitchFlag(1, a, b, before, before);
      ExchangeItems(a, b, before);
      SwitchFlag(0, a, b, before, after);
    }

    /** Recovery after a restart, when memory holds just what survived. Power may fail
        again during it: each image it passes through still recovers to the same array. */
    method Recover()
      requires mem.Valid() && mem.vol == mem.dur && Restartable(lay, mem.dur)
      modifies mem
      ensures Valid() && Contents() == old(Recovered(lay, mem.dur))
      ensures Atomic(old(mem.crashes), Contents(), Contents())
    {
      if mem.vol[lay.flag] == 1 {
        ghost var goal := Recovered(lay, mem.dur);
        RestartableUndoes(lay, mem.dur);
        var a, b := mem.vol[lay.backup + ITEM], mem.vol[lay.backup + ENTRY + ITEM];
        StoreItem(a, ItemAt(mem.vol, lay.backup), a, b, goal);
        StoreItem(b, ItemAt(mem.vol, lay.backup + ENTRY), a, b, goal);
        PersistItems(a, b, goal);
        assert Items(lay, mem.vol) == goal;
        SwitchFlag(0, a, b, goal, goal);
      }
    }

    /** Any sequence of swaps: from one call to the next the array changes in the two slots
        named, and a crash during a call recovers to the array reached before it or after it,
        which is a permutation of the initial array. */
    method SwapAll(calls: seq<(nat, nat)>) returns (ghost marks: seq<nat>, ghost arrays: seq<seq<Item>>)
      requires Valid() && forall c :: c in calls ==> c.0 < lay.n && c.1 < lay.n
      modifies mem
      ensures Valid() && Contents() == ExchangeAll(old(Contents()), calls)
      ensures |arrays| == |calls| + 1 && arrays[0] == old(Contents()) && arrays[|calls|] == Contents()
      ensures forall j :: 0 <= j < |calls| ==> Swapped(arrays[j], arrays[j + 1], calls[j].0, calls[j].1)
      ensures |marks| == |calls| + 1 && marks[0] == |old(mem.crashes)|
      ensures forall j, k :: 0 <= j < |calls| && marks[j] <= k < marks[j + 1] <= |mem.crashes| ==>
                RecoversTo(lay, mem.crashes[k], arrays[j], arrays[j + 1])
      ensures Rounds(marks, mem.crashes, DuringCall(lay, old(Contents()), calls))
    {
      ghost var initial := Contents();
      ghost var Q := DuringCall(lay, initial, calls);
      var j := 0;
      marks := [|mem.crashes|];
      while j < |calls|
        invariant 0 <= j <= |calls| && Valid() && Contents() == ExchangeFirst(initial, calls, j)
        invariant |marks| == j + 1 && marks[0] == |old(mem.crashes)| && Rounds(marks, mem.crashes, Q)
      {
        ghost var past := mem.crashes;
        ExchangeOneMore(initial, calls, j);
        Swap(calls[j].0, calls[j].1);
        OneMoreRound(marks, past, mem.crashes, Q);
        marks := marks + [|mem.crashes|];
        j := j + 1;
      }
      assert calls[..j] == calls && calls[..0] == [];
      arrays := ArraysOf(initial, calls);
      RoundsBetween(lay, initial, calls, arrays, marks, mem.crashes);
    }
  }

  /** The array before the first call, and after each. */
  ghost function ArraysOf<T(!new)>(s: seq<T>, calls: seq<(nat, nat)>): (arrays: seq<seq<T>>)
    requires forall c :: c in calls ==> c.0 < |s| && c.1 < |s|
    ensures |arrays| == |calls| + 1 && forall j :: 0 <= j <= |calls| ==> arrays[j] == ExchangeFirst(s, calls, j)
    ensures forall j :: 0 <= j < |calls| ==> Swapped(arrays[j], arrays[j + 1], calls[j].0, calls[j].1)
  {
    ArraysSwap(s, calls);
    seq(|calls| + 1, j requires 0 <= j <= |calls| => ExchangeFirst(s, calls, j))
  }

  lemma ArraysSwap<T(!new)>(s: seq<T>, calls: seq<(nat, nat)>)
    requires forall c :: c in calls ==> c.0 < |s| && c.1 < |s|
    ensures forall j :: 0 <= j < |calls| ==>
              Swapped(ExchangeFirst(s, calls, j), ExchangeFirst(s, calls, j + 1), calls[j].0, calls[j].1)
  {
    forall j | 0 <= j < |calls|
      ensures Swapped(ExchangeFirst(s, calls, j), ExchangeFirst(s, calls, j + 1), calls[j].0, calls[j].1)
    {
      assert calls[j] in calls;
      ExchangeOneMore(s, calls, j);
    }
  }

  /** The image recovers to one of the two arrays. */
  ghost predicate RecoversTo(lay: Layout, h: Image, before: seq<Item>, after: seq<Item>) {
    Restartable(lay, h) && (Recovered(lay, h) == before || Recovered(lay, h) == after)
  }

  lemma RoundsBetween(lay: Layout, initial: seq<Item>, calls: seq<(nat, nat)>, arrays: seq<seq<Item>>, marks: seq<nat>,
                      crashes: seq<Image>)
    requires forall c :: c in calls ==> c.0 < |initial| && c.1 < |initial|
    requires |arrays| == |marks| == |calls| + 1
    requires forall i :: 0 <= i <= |calls| ==> arrays[i] == ExchangeFirst(initial, calls, i)
    requires Rounds(marks, crashes, DuringCall(lay, initial, calls))
    ensures forall j, k :: 0 <= j < |calls| && marks[j] <= k < marks[j + 1] <= |crashes| ==>
              RecoversTo(lay, crashes[k], arrays[j], arrays[j + 1])
  {
    forall j, k | 0 <= j < |calls| && marks[j] <= k < marks[j + 1] <= |crashes|
      ensures RecoversTo(lay, crashes[k], arrays[j], arrays[j + 1])
    {
      assert DuringCall(lay, initial, calls)(j, crashes[k]);
    }
  }

  /** The items in slots `a` and `b` have changed places, and all others stay. */
  ghost predicate Swapped<T(!new)>(s: seq<T>, t: seq<T>, a: nat, b: nat) {
    && |s| == |t| && a < |s| && b < |s| && t[a] == s[b] && t[b] == s[a]
    && forall i :: 0 <= i < |s| && i != a && i != b ==> t[i] == s[i]
  }

  /** The array after the first `j` calls. */
  function ExchangeFirst<T>(s: seq<T>, calls: seq<(nat, nat)>, j: nat): (r: seq<T>)
    requires j <= |calls| && forall c :: c in calls ==> c.0 < |s| && c.1 < |s|
    ensures |r| == |s|
  {
    ExchangeAll(s, calls[..j])
  }

  lemma ExchangeOneMore<T>(s: seq<T>, calls: seq<(nat, nat)>, j: nat)
    requires j < |calls| && forall c :: c in calls ==> c.0 < |s| && c.1 < |s|
    ensures ExchangeFirst(s, calls, j + 1) == Exchange(ExchangeFirst(s, calls, j), calls[j].0, calls[j].1)
    ensures multiset(ExchangeFirst(s, calls, j)) == multiset(ExchangeFirst(s, calls, j + 1)) == multiset(s)
  {
    assert calls[..j + 1][..j] == calls[..j];
    ExchangeAllPermutes(s, calls[..j]);
    ExchangeAllPermutes(s, calls[..j + 1]);
  }

  /** An image taken while call `j` ran. */
  ghost function DuringCall(lay: Layout, initial: seq<Item>, calls: seq<(nat, nat)>): (Q: (nat, Image) -> bool)
    requires forall c :: c in calls ==> c.0 < |initial| && c.1 < |initial|
  {
    (j: nat, h: Image) =>
      && j < |calls| && Restartable(lay, h)
      && (|| Recovered(lay, h) == ExchangeFirst(initial, calls, j)
          || Recovered(lay, h) == ExchangeFirst(initial, calls, j + 1))
      && multiset(Recovered(lay, h)) == multiset(initial)
  }
}

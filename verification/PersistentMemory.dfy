/** Persistent memory behind a write-back cache, as seen by code that issues
    stores, `clwb` and `sfence`.

    Memory is a sequence of cells, a cell being the unit of one store. Every cell
    has a volatile value (what the program reads) and a durable value (what a crash
    leaves behind). The cache may write any line back at any moment; a `clwb` only
    obliges it to do so before the next fence completes. `crashes` records every
    durable image memory has passed through, so a statement about all of them is a
    statement about every crash point and every order of write-backs. */
module PersistentMemory {

  type Image = seq<int>

  const LINE_BYTES: nat := 64

  /** Every cell of `h` is the one in `d` or the one in `v`. */
  ghost predicate Mix(d: Image, v: Image, h: Image) {
    |d| == |v| == |h| && forall i :: 0 <= i < |h| ==> h[i] == d[i] || h[i] == v[i]
  }

  /** A condition on images that survives writing back any part of a state whose
      volatile and durable images both meet it. */
  ghost predicate Cellwise(P: Image -> bool) {
    forall d, v, h :: P(d) && P(v) && Mix(d, v, h) ==> P(h)
  }

  lemma MixSlice(d: Image, v: Image, h: Image, lo: nat, hi: nat)
    requires Mix(d, v, h) && lo <= hi <= |h| && d[lo..hi] == v[lo..hi]
    ensures h[lo..hi] == d[lo..hi]
  {
    forall i | 0 <= i < hi - lo
      ensures h[lo..hi][i] == d[lo..hi][i]
    {
      assert d[lo..hi][i] == d[lo + i] && v[lo..hi][i] == v[lo + i];
    }
  }

  function Overwrite(v: Image, a: nat, xs: seq<int>): (r: Image)
    requires a + |xs| <= |v|
    ensures |r| == |v|
    ensures forall i {:trigger r[i]} :: 0 <= i < |v| ==> r[i] == if a <= i < a + |xs| then xs[i - a] else v[i]
  {
    seq(|v|, i requires 0 <= i < |v| => if a <= i < a + |xs| then xs[i - a] else v[i])
  }

  lemma OverwriteSlice(v: Image, a: nat, xs: seq<int>)
    requires a + |xs| <= |v|
    ensures Overwrite(v, a, xs)[a..a + |xs|] == xs
  {}

  lemma OverwriteElsewhere(v: Image, a: nat, xs: seq<int>, lo: nat, hi: nat)
    requires a + |xs| <= |v| && lo <= hi <= |v| && (hi <= a || a + |xs| <= lo)
    ensures Overwrite(v, a, xs)[lo..hi] == v[lo..hi]
  {}

  function WriteBack(d: Image, v: Image, perLine: nat, line: nat): (r: Image)
    requires |d| == |v| && perLine > 0
  {
    seq(|d|, i requires 0 <= i < |d| => if i / perLine == line then v[i] else d[i])
  }

  lemma WriteBackMixes(d: Image, v: Image, perLine: nat, line: nat)
    requires |d| == |v| && perLine > 0
    ensures Mix(d, v, WriteBack(d, v, perLine, line))
  {}

  /** The weaker condition that is enough: it survives writing back whole lines. */
  ghost predicate Linewise(perLine: nat, P: Image -> bool)
    requires perLine > 0
  {
    forall d, v, line: nat :: |d| == |v| && P(d) && P(v) ==> P(WriteBack(d, v, perLine, line))
  }

  lemma CellwiseIsLinewise(perLine: nat, P: Image -> bool)
    requires perLine > 0 && Cellwise(P)
    ensures Linewise(perLine, P)
  {
    forall d, v, line: nat | |d| == |v| && P(d) && P(v)
      ensures P(WriteBack(d, v, perLine, line))
    {
      WriteBackMixes(d, v, perLine, line);
    }
  }

  /** On the way from one image to the other, cell by cell in any order, `P` holds. */
  ghost predicate Passes(P: Image -> bool, v: Image, w: Image) {
    forall h :: Mix(v, w, h) ==> P(h)
  }

  lemma CellwisePasses(P: Image -> bool, v: Image, w: Image)
    requires Cellwise(P) && P(v) && P(w)
    ensures Passes(P, v, w)
  {}

  // ------------------------------------------------------------- cache_flush

  /** `cache_flush(addr, size)` walks over this line. */
  predicate Flushed(addr: nat, size: nat, line: nat) {
    addr / LINE_BYTES <= line < (addr + size + LINE_BYTES - 1) / LINE_BYTES
  }

  ghost predicate HoldsByteOf(addr: nat, size: nat, line: nat) {
    exists b: nat :: addr <= b < addr + size && b / LINE_BYTES == line
  }

  /** For a non-empty range those are exactly the lines holding one of its bytes;
      for an empty range at most the line `addr` points into. */
  lemma FlushedLinesExact(addr: nat, size: nat, line: nat)
    ensures size > 0 ==> (Flushed(addr, size, line) <==> HoldsByteOf(addr, size, line))
    ensures size == 0 ==>
              (Flushed(addr, size, line) <==> addr % LINE_BYTES != 0 && line == addr / LINE_BYTES)
  {
    if size > 0 && Flushed(addr, size, line) {
      var b := if line == addr / LINE_BYTES then addr else line * LINE_BYTES;
      assert addr <= b < addr + size && b / LINE_BYTES == line;
    }
  }

  // ------------------------------------------------------------ stores and ranges

  /** Stores made one after another, each a run of cells; ranges of cells to flush. */
  type Writes = seq<(nat, seq<int>)>
  type Ranges = seq<(nat, nat)>

  ghost predicate WritesFit(total: nat, writes: Writes) {
    forall j :: 0 <= j < |writes| ==> writes[j].0 + |writes[j].1| <= total
  }

  ghost predicate RangesFit(total: nat, ranges: Ranges) {
    forall j :: 0 <= j < |ranges| ==> ranges[j].0 + ranges[j].1 <= total
  }

  ghost function ApplyWrites(v: Image, writes: Writes): (r: Image)
    requires WritesFit(|v|, writes)
    ensures |r| == |v|
    decreases |writes|
  {
    if writes == [] then v else ApplyWrites(Overwrite(v, writes[0].0, writes[0].1), writes[1..])
  }

  /** None of the stores leaves the condition. */
  ghost predicate WritesStay(P: Image -> bool, v: Image, writes: Writes)
    decreases |writes|
  {
    && WritesFit(|v|, writes)
    && (writes != [] ==>
          && P(Overwrite(v, writes[0].0, writes[0].1))
          && WritesStay(P, Overwrite(v, writes[0].0, writes[0].1), writes[1..]))
  }

  /** `P` holds all the way through the stores. */
  ghost predicate WritesPass(P: Image -> bool, v: Image, writes: Writes)
    decreases |writes|
  {
    && WritesFit(|v|, writes)
    && (writes != [] ==>
          && Passes(P, v, Overwrite(v, writes[0].0, writes[0].1))
          && WritesPass(P, Overwrite(v, writes[0].0, writes[0].1), writes[1..]))
  }

  lemma {:induction false} StayingPasses(P: Image -> bool, v: Image, writes: Writes)
    requires Cellwise(P) && P(v) && WritesStay(P, v, writes)
    ensures WritesPass(P, v, writes)
    decreases |writes|
  {
    if writes != [] {
      var w := Overwrite(v, writes[0].0, writes[0].1);
      CellwisePasses(P, v, w);
      StayingPasses(P, w, writes[1..]);
    }
  }

  lemma CellwisePhase(perLine: nat, P: Image -> bool, v: Image, writes: Writes)
    requires perLine > 0 && Cellwise(P) && P(v) && WritesStay(P, v, writes)
    ensures Linewise(perLine, P) && WritesPass(P, v, writes)
  {
    CellwiseIsLinewise(perLine, P);
    StayingPasses(P, v, writes);
  }

  lemma OneWrite(v: Image, w: (nat, seq<int>))
    requires w.0 + |w.1| <= |v|
    ensures WritesFit(|v|, [w]) && ApplyWrites(v, [w]) == Overwrite(v, w.0, w.1)
  {
    assert |[w][1..]| == 0;
  }

  lemma TwoWrites(v: Image, w: (nat, seq<int>), x: (nat, seq<int>))
    requires w.0 + |w.1| <= |v| && x.0 + |x.1| <= |v|
    ensures WritesFit(|v|, [w, x]) && ApplyWrites(v, [w, x]) == Overwrite(Overwrite(v, w.0, w.1), x.0, x.1)
  {
    assert [w, x][1..] == [x];
    OneWrite(Overwrite(v, w.0, w.1), x);
  }

  lemma MoreWrites(v: Image, w: (nat, seq<int>), rest: Writes)
    requires w.0 + |w.1| <= |v| && WritesFit(|v|, rest)
    ensures WritesFit(|v|, [w] + rest)
    ensures ApplyWrites(v, [w] + rest) == ApplyWrites(Overwrite(v, w.0, w.1), rest)
  {
    assert ([w] + rest)[1..] == rest;
  }

  lemma ThreeWrites(v: Image, w: (nat, seq<int>), x: (nat, seq<int>), y: (nat, seq<int>))
    requires w.0 + |w.1| <= |v| && x.0 + |x.1| <= |v| && y.0 + |y.1| <= |v|
    ensures WritesFit(|v|, [w, x, y])
    ensures ApplyWrites(v, [w, x, y]) == Overwrite(Overwrite(Overwrite(v, w.0, w.1), x.0, x.1), y.0, y.1)
  {
    assert [w, x, y] == [w] + [x, y];
    TwoWrites(v, x, y);
    MoreWrites(v, w, [x, y]);
    TwoWrites(Overwrite(v, w.0, w.1), x, y);
  }

  lemma FourWrites(v: Image, w: (nat, seq<int>), x: (nat, seq<int>), y: (nat, seq<int>), z: (nat, seq<int>))
    requires w.0 + |w.1| <= |v| && x.0 + |x.1| <= |v| && y.0 + |y.1| <= |v| && z.0 + |z.1| <= |v|
    ensures WritesFit(|v|, [w, x, y, z])
    ensures ApplyWrites(v, [w, x, y, z]) ==
            Overwrite(Overwrite(Overwrite(Overwrite(v, w.0, w.1), x.0, x.1), y.0, y.1), z.0, z.1)
  {
    assert [w, x, y, z] == [w] + [x, y, z];
    ThreeWrites(v, x, y, z);
    MoreWrites(v, w, [x, y, z]);
    ThreeWrites(Overwrite(v, w.0, w.1), x, y, z);
  }

  ghost predicate InRanges(ranges: Ranges, i: nat) {
    exists j :: 0 <= j < |ranges| && ranges[j].0 <= i < ranges[j].0 + ranges[j].1
  }

  ghost predicate InWrites(writes: Writes, i: nat) {
    exists j :: 0 <= j < |writes| && writes[j].0 <= i < writes[j].0 + |writes[j].1|
  }

  // ------------------------------------------------------------------ durable images

  /** Outside one line the images are the same. */
  ghost predicate OnlyLine(perLine: nat, g: Image, h: Image, line: nat)
    requires perLine > 0
  {
    |g| == |h| && forall i :: 0 <= i < |h| && i / perLine != line ==> h[i] == g[i]
  }

  ghost predicate OneLine(perLine: nat, g: Image, h: Image)
    requires perLine > 0
  {
    exists line: nat :: OnlyLine(perLine, g, h, line)
  }

  /** No durable image is missing: the last one is the present one, and from each to the
      next at most one line was written back. */
  ghost predicate History(perLine: nat, crashes: seq<Image>, dur: Image)
    requires perLine > 0
  {
    && |crashes| > 0 && crashes[|crashes| - 1] == dur
    && forall k {:trigger OneLine(perLine, crashes[k - 1], crashes[k])} :: 0 < k < |crashes| ==>
         OneLine(perLine, crashes[k - 1], crashes[k])
  }

  lemma OneMoreImage(perLine: nat, crashes: seq<Image>, g: Image, h: Image, line: nat)
    requires perLine > 0 && History(perLine, crashes, g) && OnlyLine(perLine, g, h, line)
    ensures History(perLine, crashes + [h], h)
  {
    var more := crashes + [h];
    forall k | 0 < k < |more|
      ensures OneLine(perLine, more[k - 1], more[k])
    {
      if k < |crashes| {
        assert OneLine(perLine, crashes[k - 1], crashes[k]);
      } else {
        assert OnlyLine(perLine, more[k - 1], more[k], line);
      }
    }
  }

  // --------------------------------------------------------------- calls in a row

  /** `marks[j]` crash images had been recorded when call `j` began; those recorded while
      it ran meet `Q(j, _)`. */
  ghost predicate Rounds(marks: seq<nat>, crashes: seq<Image>, Q: (nat, Image) -> bool) {
    && 0 < |marks| && marks[|marks| - 1] == |crashes|
    && (forall i, j :: 0 <= i <= j < |marks| ==> marks[i] <= marks[j])
    && forall j, k :: 0 <= j < |marks| - 1 && marks[j] <= k < marks[j + 1] ==> Q(j, crashes[k])
  }

  lemma OneMoreRound(marks: seq<nat>, crashes: seq<Image>, more: seq<Image>, Q: (nat, Image) -> bool)
    requires Rounds(marks, crashes, Q) && crashes <= more
    requires forall k :: |crashes| <= k < |more| ==> Q(|marks| - 1, more[k])
    ensures Rounds(marks + [|more|], more, Q)
  {
    var next := marks + [|more|];
    forall j, k | 0 <= j < |next| - 1 && next[j] <= k < next[j + 1]
      ensures Q(j, more[k])
    {
      if j < |marks| - 1 {
        assert marks[j + 1] <= marks[|marks| - 1];
        assert crashes[k] == more[k];
      }
    }
  }

  class Memory {
    const perLine: nat
    var vol: Image
    var dur: Image
    var pending: set<nat>
    ghost var crashes: seq<Image>

    ghost predicate Valid()
      reads this
    {
      perLine > 0 && LINE_BYTES % perLine == 0 && |vol| == |dur| && History(perLine, crashes, dur)
    }

    function CellBytes(): (r: nat)
      requires perLine > 0 && LINE_BYTES % perLine == 0
      ensures r * perLine == LINE_BYTES
    {
      LINE_BYTES / perLine
    }

    /** A fence issued now makes cell `i` durable. */
    ghost predicate Covered(i: nat)
      reads this
      requires Valid() && i < |vol|
    {
      i / perLine in pending || dur[i] == vol[i]
    }

    /** Nothing but further crash images, all meeting `P`, was recorded since `before`. */
    ghost predicate CrashesMeet(before: seq<Image>, P: Image -> bool)
      reads this
    {
      before <= crashes && forall k :: |before| <= k < |crashes| ==> P(crashes[k])
    }

    constructor (perLine: nat, image: Image)
      requires perLine > 0 && LINE_BYTES % perLine == 0
      ensures Valid() && this.perLine == perLine
      ensures vol == dur == image && pending == {} && crashes == [image]
    {
      this.perLine := perLine;
      vol, dur, pending, crashes := image, image, {}, [image];
    }

    /** The cache writes one line back. */
    method WriteBackLine(line: nat, ghost P: Image -> bool)
      requires Valid() && Linewise(perLine, P) && P(vol) && P(dur)
      modifies this
      ensures Valid() && vol == old(vol) && P(dur)
      ensures Mix(old(dur), vol, dur)
      ensures pending == old(pending) - {line}
      ensures forall i :: 0 <= i < |vol| && (old(Covered(i)) || i / perLine == line) ==> Covered(i)
      ensures CrashesMeet(old(crashes), P)
    {
      WriteBackMixes(dur, vol, perLine, line);
      OneMoreImage(perLine, crashes, dur, WriteBack(dur, vol, perLine, line), line);
      dur := WriteBack(dur, vol, perLine, line);
      pending := pending - {line};
      crashes := crashes + [dur];
    }

    /** Any number of lines written back early, in any order. */
    method EarlyWriteBacks(ghost P: Image -> bool)
      requires Valid() && Linewise(perLine, P) && P(vol) && P(dur)
      modifies this
      ensures Valid() && vol == old(vol) && P(dur) && pending <= old(pending)
      ensures forall i :: 0 <= i < |vol| && old(Covered(i)) ==> Covered(i)
      ensures forall i :: 0 <= i < |vol| && old(dur[i]) == vol[i] ==> dur[i] == vol[i]
      ensures CrashesMeet(old(crashes), P)
    {
      var lines: seq<nat> := *;
      var k := 0;
      OneMoreImage(perLine, crashes, dur, dur, 0);
      crashes := crashes + [dur];
      while k < |lines|
        invariant 0 <= k <= |lines|
        invariant Valid() && vol == old(vol) && P(dur) && pending <= old(pending)
        invariant forall i :: 0 <= i < |vol| && old(Covered(i)) ==> Covered(i)
        invariant forall i :: 0 <= i < |vol| && old(dur[i]) == vol[i] ==> dur[i] == vol[i]
        invariant CrashesMeet(old(crashes), P)
      {
        WriteBackLine(lines[k], P);
        k := k + 1;
      }
    }

    /** A store to one cell. */
    method Store(a: nat, x: int, ghost P: Image -> bool)
      requires Valid() && a < |vol| && Linewise(perLine, P) && P(vol[a := x]) && P(dur)
      modifies this
      ensures Valid() && vol == old(vol)[a := x] && P(dur)
      ensures forall i :: 0 <= i < |vol| && i != a && old(Covered(i)) ==> Covered(i)
      ensures forall i :: 0 <= i < |vol| && i != a && old(dur[i]) == vol[i] ==> dur[i] == vol[i]
      ensures CrashesMeet(old(crashes), P)
    {
      vol := vol[a := x];
      EarlyWriteBacks(P);
    }

    /** A structure copy: the cells of `xs` are stored one after another. */
    method StoreRange(a: nat, xs: seq<int>, ghost P: Image -> bool)
      requires Valid() && a + |xs| <= |vol| && Linewise(perLine, P)
      requires Passes(P, vol, Overwrite(vol, a, xs)) && P(dur)
      modifies this
      ensures Valid() && vol == Overwrite(old(vol), a, xs) && P(dur)
      ensures forall i :: 0 <= i < |vol| && !(a <= i < a + |xs|) && old(Covered(i)) ==> Covered(i)
      ensures forall i :: 0 <= i < |vol| && !(a <= i < a + |xs|) && old(dur[i]) == vol[i] ==> dur[i] == vol[i]
      ensures CrashesMeet(old(crashes), P)
    {
      ghost var goal := Overwrite(vol, a, xs);
      var k := 0;
      while k < |xs|
        invariant 0 <= k <= |xs|
        invariant Valid() && |vol| == |goal| && P(dur)
        invariant forall i :: 0 <= i < |vol| ==> vol[i] == if a <= i < a + k then xs[i - a] else old(vol)[i]
        invariant forall i :: 0 <= i < |vol| && !(a <= i < a + |xs|) && old(Covered(i)) ==> Covered(i)
        invariant forall i :: 0 <= i < |vol| && !(a <= i < a + |xs|) && old(dur[i]) == old(vol[i]) ==> dur[i] == vol[i]
        invariant CrashesMeet(old(crashes), P)
      {
        assert Mix(old(vol), goal, vol[a + k := xs[k]]);
        Store(a + k, xs[k], P);
        k := k + 1;
      }
      assert vol == goal;
    }

    /** `clwb`: the line is on its way to memory. */
    method Clwb(line: nat, ghost P: Image -> bool)
      requires Valid() && Linewise(perLine, P) && P(vol) && P(dur)
      modifies this
      ensures Valid() && vol == old(vol) && P(dur)
      ensures forall i :: 0 <= i < |vol| && (old(Covered(i)) || i / perLine == line) ==> Covered(i)
      ensures forall i :: 0 <= i < |vol| && old(dur[i]) == vol[i] ==> dur[i] == vol[i]
      ensures CrashesMeet(old(crashes), P)
    {
      pending := pending + {line};
      EarlyWriteBacks(P);
    }

    /** `cache_flush` over `size` bytes from byte address `addr`. */
    method CacheFlush(addr: nat, size: nat, ghost P: Image -> bool)
      requires Valid() && Linewise(perLine, P) && P(vol) && P(dur)
      modifies this
      ensures Valid() && vol == old(vol) && P(dur)
      ensures forall i :: 0 <= i < |vol| && (old(Covered(i)) || Flushed(addr, size, i / perLine)) ==> Covered(i)
      ensures forall i :: 0 <= i < |vol| && old(dur[i]) == vol[i] ==> dur[i] == vol[i]
      ensures CrashesMeet(old(crashes), P)
    {
      var cur := addr / 64 * 64;
      var end := (addr + size + 63) / 64 * 64;
      ghost var first, line := addr / 64, addr / 64;
      while cur < end
        invariant first <= line && cur == 64 * line
        invariant Valid() && vol == old(vol) && P(dur)
        invariant forall i :: 0 <= i < |vol| && (old(Covered(i)) || first <= i / perLine < line) ==> Covered(i)
        invariant forall i :: 0 <= i < |vol| && old(dur[i]) == vol[i] ==> dur[i] == vol[i]
        invariant CrashesMeet(old(crashes), P)
      {
        Clwb(cur / 64, P);
        cur, line := cur + 64, line + 1;
      }
      AllFlushed(addr, size, line);
    }

    /** `cache_flush` of the `n` cells from cell `a` on. */
    method FlushCells(a: nat, n: nat, ghost P: Image -> bool)
      requires Valid() && a + n <= |vol| && Linewise(perLine, P) && P(vol) && P(dur)
      modifies this
      ensures Valid() && vol == old(vol) && P(dur)
      ensures forall i :: 0 <= i < |vol| && (old(Covered(i)) || a <= i < a + n) ==> Covered(i)
      ensures forall i :: 0 <= i < |vol| && old(dur[i]) == vol[i] ==> dur[i] == vol[i]
      ensures CrashesMeet(old(crashes), P)
    {
      CacheFlush(a * CellBytes(), n * CellBytes(), P);
      forall i | a <= i < a + n
        ensures Covered(i)
      {
        CellLine(perLine, CellBytes(), a, n, i);
      }
    }

    /** `sfence`: completes only once every pending line has been written back. */
    method Fence(ghost P: Image -> bool)
      requires Valid() && Linewise(perLine, P) && P(vol) && P(dur)
      modifies this
      ensures Valid() && vol == old(vol) && P(dur) && pending == {}
      ensures forall i :: 0 <= i < |vol| && old(Covered(i)) ==> dur[i] == vol[i]
      ensures CrashesMeet(old(crashes), P)
    {
      EarlyWriteBacks(P);
      while pending != {}
        invariant Valid() && vol == old(vol) && P(dur)
        invariant forall i :: 0 <= i < |vol| && old(Covered(i)) ==> Covered(i)
        invariant CrashesMeet(old(crashes), P)
        decreases |pending|
      {
        var line :| line in pending;
        WriteBackLine(line, P);
      }
      EarlyWriteBacks(P);
    }

    method StoreAll(writes: Writes, ghost P: Image -> bool)
      requires Valid() && Linewise(perLine, P) && P(vol) && P(dur) && WritesPass(P, vol, writes)
      modifies this
      ensures Valid() && vol == ApplyWrites(old(vol), writes) && P(vol) && P(dur)
      ensures forall i :: 0 <= i < |vol| && !InWrites(writes, i) && old(dur[i]) == old(vol[i]) ==> dur[i] == vol[i]
      ensures CrashesMeet(old(crashes), P)
    {
      var j := 0;
      assert writes[0..] == writes;
      while j < |writes|
        invariant 0 <= j <= |writes|
        invariant Valid() && P(vol) && P(dur) && |vol| == old(|vol|) && WritesPass(P, vol, writes[j..])
        invariant ApplyWrites(vol, writes[j..]) == ApplyWrites(old(vol), writes)
        invariant forall i :: 0 <= i < |vol| && !InWrites(writes, i) && old(dur[i]) == old(vol[i]) ==> dur[i] == vol[i]
        invariant CrashesMeet(old(crashes), P)
      {
        assert writes[j..][1..] == writes[j + 1..];
        assert Mix(vol, Overwrite(vol, writes[j].0, writes[j].1), Overwrite(vol, writes[j].0, writes[j].1));
        StoreRange(writes[j].0, writes[j].1, P);
        j := j + 1;
      }
    }

    method FlushAll(ranges: Ranges, ghost P: Image -> bool)
      requires Valid() && Linewise(perLine, P) && P(vol) && P(dur) && RangesFit(|vol|, ranges)
      modifies this
      ensures Valid() && vol == old(vol) && P(dur)
      ensures forall i :: 0 <= i < |vol| && (InRanges(ranges, i) || old(Covered(i))) ==> Covered(i)
      ensures CrashesMeet(old(crashes), P)
    {
      var j := 0;
      while j < |ranges|
        invariant 0 <= j <= |ranges|
        invariant Valid() && vol == old(vol) && P(dur)
        invariant forall i :: 0 <= i < |vol| && (InRanges(ranges[..j], i) || old(Covered(i))) ==> Covered(i)
        invariant CrashesMeet(old(crashes), P)
      {
        FlushCells(ranges[j].0, ranges[j].1, P);
        j := j + 1;
      }
      assert ranges[..j] == ranges;
    }

    /** Code from one fence to the next: some stores, then the flushes, then the fence. */
    method Phase(writes: Writes, ranges: Ranges, ghost P: Image -> bool)
      requires Valid() && Linewise(perLine, P) && P(vol) && P(dur)
      requires WritesPass(P, vol, writes) && RangesFit(|vol|, ranges)
      modifies this
      ensures Valid() && vol == ApplyWrites(old(vol), writes) && P(vol) && P(dur)
      ensures forall i :: 0 <= i < |vol| && InRanges(ranges, i) ==> dur[i] == vol[i]
      ensures forall i :: 0 <= i < |vol| && !InWrites(writes, i) && old(dur[i]) == old(vol[i]) ==> dur[i] == vol[i]
      ensures CrashesMeet(old(crashes), P)
    {
      StoreAll(writes, P);
      FlushAll(ranges, P);
      Fence(P);
    }
  }

  /** Once the walk has reached the end of the range every line of it has been met. */
  lemma AllFlushed(addr: nat, size: nat, line: nat)
    requires 64 * line >= (addr + size + 63) / 64 * 64
    ensures forall k: nat :: Flushed(addr, size, k) ==> addr / 64 <= k < line
  {}

  /** A cell flushed by its byte range lies in a flushed line. */
  lemma CellLine(perLine: nat, w: nat, a: nat, n: nat, i: nat)
    requires perLine > 0 && w * perLine == LINE_BYTES && a <= i < a + n
    ensures Flushed(a * w, n * w, i / perLine)
  {
    CellAddress(perLine, w, i);
    assert w > 0;
    MulOrder(a, i, w);
    MulOrder(i + 1, a + n, w);
    assert (a + n) * w == a * w + n * w && (i + 1) * w == i * w + w;
    FlushedLinesExact(a * w, n * w, i / perLine);
  }

  lemma MulOrder(x: nat, y: nat, w: nat)
    requires x <= y
    ensures x * w <= y * w
  {}

  lemma CellAddress(perLine: nat, w: nat, i: nat)
    requires perLine > 0 && w * perLine == LINE_BYTES
    ensures (i * w) / LINE_BYTES == i / perLine
  {
    var q, r := i / perLine, i % perLine;
    calc {
      i * w;
      (q * perLine + r) * w;
      q * (w * perLine) + r * w;
    }
    MulOrder(r, perLine - 1, w);
    assert (perLine - 1) * w == LINE_BYTES - w;
    assert w > 0;
  }
}

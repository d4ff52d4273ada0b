/** What a location update does to a subscriber entry, byte by byte, and what a run leaves
    in its `vlr_location` (`janus_workload/TATP/tableEntries.h`, `tatp_db.cc`). */
module TatpFields {
  import opened TatpLog

  /** Byte `b` of an entry; the words are little-endian. */
  function ByteOf(row: Row, b: nat): (r: int)
    requires |row| == ROW && b < 8 * ROW
  {
    row[b / 8] / Weight(b % 8) % 256
  }

  /** 256 to the power `k`. */
  function Weight(k: nat): (r: nat)
    requires k < 8
    ensures r > 0
  {
    if k == 0 then 1 else 256 * Weight(k - 1)
  }

  /** The 32-bit field at byte offset `at`. */
  function Field(row: Row, at: nat): (r: int)
    requires |row| == ROW && at + 4 <= 8 * ROW
  {
    ByteOf(row, at) + 256 * ByteOf(row, at + 1) + 65536 * ByteOf(row, at + 2) + 16777216 * ByteOf(row, at + 3)
  }

  // offsets in subscriber_entry, in bytes
  const S_ID: nat := 0
  const VLR_LOCATION: nat := 84

  lemma Weights()
    ensures Weight(0) == 1 && Weight(1) == 0x100 && Weight(2) == 0x1_0000 && Weight(3) == 0x100_0000
    ensures Weight(4) == 0x1_0000_0000 && Weight(5) == 0x100_0000_0000
    ensures Weight(6) == 0x1_0000_0000_0000 && Weight(7) == 0x100_0000_0000_0000
  {
    assert Weight(2) == 256 * Weight(1) && Weight(4) == 256 * Weight(3) && Weight(6) == 256 * Weight(5);
  }

  lemma FourBytes(v: int)
    requires 0 <= v < 0x1_0000_0000
    ensures v % 256 + 256 * (v / 256 % 256) + 65536 * (v / 65536 % 256) + 16777216 * (v / 16777216 % 256) == v
  {}

  /** The upper half of a word does not reach into its lower bytes. */
  lemma LowerHalf(low: int, a: int)
    ensures (low + 0x1_0000_0000 * a) / 0x100 == low / 0x100 + 256 * (0x1_0000 * a)
    ensures (low + 0x1_0000_0000 * a) / 0x1_0000 == low / 0x1_0000 + 256 * (0x100 * a)
    ensures (low + 0x1_0000_0000 * a) / 0x100_0000 == low / 0x100_0000 + 256 * a
  {}

  lemma LastByte(x: int, y: int)
    ensures (x + 256 * y) % 256 == x % 256
  {}

  lemma LowByte(w: int, low: int, a: int)
    requires w == low + 0x1_0000_0000 * a
    ensures w % 256 == low % 256 && w / 0x100 % 256 == low / 0x100 % 256
    ensures w / 0x1_0000 % 256 == low / 0x1_0000 % 256 && w / 0x100_0000 % 256 == low / 0x100_0000 % 256
  {
    LowerHalf(low, a);
    LastByte(low, 0x100_0000 * a);
    LastByte(low / 0x100, 0x1_0000 * a);
    LastByte(low / 0x1_0000, 0x100 * a);
    LastByte(low / 0x100_0000, a);
  }

  lemma LowBytes(w: int, v: int)
    ensures var u := w % 0x1_0000_0000 + 0x1_0000_0000 * v;
            && u % 256 == w % 256 && u / 0x100 % 256 == w / 0x100 % 256
            && u / 0x1_0000 % 256 == w / 0x1_0000 % 256 && u / 0x100_0000 % 256 == w / 0x100_0000 % 256
  {
    var low := w % 0x1_0000_0000;
    LowByte(w, low, w / 0x1_0000_0000);
    LowByte(low + 0x1_0000_0000 * v, low, v);
  }

  lemma HighBytes(low: int, v: int)
    requires 0 <= low < 0x1_0000_0000
    ensures (low + 0x1_0000_0000 * v) / 0x1_0000_0000 == v
    ensures (low + 0x1_0000_0000 * v) / 0x100_0000_0000 == v / 0x100
    ensures (low + 0x1_0000_0000 * v) / 0x1_0000_0000_0000 == v / 0x1_0000
    ensures (low + 0x1_0000_0000 * v) / 0x100_0000_0000_0000 == v / 0x100_0000
  {}

  lemma OtherBytes(row: Row, vlr: nat, b: nat)
    requires |row| == ROW && b < 8 * ROW && !(VLR_LOCATION <= b < VLR_LOCATION + 4)
    ensures ByteOf(SetVlr(row, vlr), b) == ByteOf(row, b)
  {
    if b / 8 == VLR_WORD {
      Weights();
      LowBytes(row[VLR_WORD], vlr % HALF);
      assert b % 8 == 0 || b % 8 == 1 || b % 8 == 2 || b % 8 == 3;
    }
  }

  lemma LocationBytes(row: Row, vlr: nat)
    requires |row| == ROW
    ensures Field(SetVlr(row, vlr), VLR_LOCATION) == vlr % 0x1_0000_0000
  {
    Weights();
    HighBytes(row[VLR_WORD] % HALF, vlr % HALF);
    FourBytes(vlr % HALF);
  }

  /** The update sets the field at byte 84 and leaves every other byte. */
  ghost predicate Relocated(before: Row, after: Row, vlr: nat) {
    OthersSame(before, after) && Field(after, VLR_LOCATION) == vlr % 0x1_0000_0000
  }

  /** The same bytes, apart from the location's. */
  ghost predicate OthersSame(before: Row, after: Row) {
    && |before| == |after| == ROW
    && forall b :: 0 <= b < 8 * ROW && !(VLR_LOCATION <= b < VLR_LOCATION + 4) ==> ByteOf(after, b) == ByteOf(before, b)
  }

  lemma SetVlrRelocates(row: Row, vlr: nat)
    requires |row| == ROW
    ensures Relocated(row, SetVlr(row, vlr), vlr)
  {
    LocationBytes(row, vlr);
    forall b | 0 <= b < 8 * ROW && !(VLR_LOCATION <= b < VLR_LOCATION + 4)
      ensures ByteOf(SetVlr(row, vlr), b) == ByteOf(row, b)
    {
      OtherBytes(row, vlr, b);
    }
  }

  /** So every other 32-bit field is the same. */
  lemma OtherFields(before: Row, after: Row, vlr: nat, at: nat)
    requires Relocated(before, after, vlr) && at + 4 <= 8 * ROW && (at + 4 <= VLR_LOCATION || VLR_LOCATION + 4 <= at)
    ensures Field(after, at) == Field(before, at)
  {}

  /** Recovery goes by the field at byte 0. */
  lemma SIdIsField(row: Row)
    requires |row| == ROW
    ensures SId(row) == Field(row, S_ID)
  {
    Weights();
    var low := row[0] % HALF;
    LowByte(row[0], low, row[0] / HALF);
    FourBytes(low);
  }

  // ------------------------------------------------------------------ steps and runs

  /** The only step that changes a subscriber's entry is its holder's update, and that sets
      the location to the holder's. */
  lemma StepRelocates(c: Layout, st: State, a: Action, s: nat)
    requires Shape(c, st) && Enabled(c, st, a) && s < c.subs
    ensures var st' := Apply(c, st, a);
            && Shape(c, st')
            && if a.Go? && st.threads[a.t].pc == Armed && st.threads[a.t].s == s
               then Relocated(RowAt(st.vol, c.RowAddr(s)), RowAt(st'.vol, c.RowAddr(s)), st.threads[a.t].vlr)
               else RowAt(st'.vol, c.RowAddr(s)) == RowAt(st.vol, c.RowAddr(s))
  {
    if a.Go? {
      GoRelocates(c, st, a.t, s);
    }
  }

  lemma GoRelocates(c: Layout, st: State, t: nat, s: nat)
    requires Shape(c, st) && Enabled(c, st, Go(t)) && s < c.subs
    ensures var st' := Apply(c, st, Go(t));
            && Shape(c, st')
            && if st.threads[t].pc == Armed && st.threads[t].s == s
               then Relocated(RowAt(st.vol, c.RowAddr(s)), RowAt(st'.vol, c.RowAddr(s)), st.threads[t].vlr)
               else RowAt(st'.vol, c.RowAddr(s)) == RowAt(st.vol, c.RowAddr(s))
  {
    GoShape(c, st, t);
    var th, at := st.threads[t], c.RowAddr(s);
    if th.pc == Armed && th.s == s {
      var row := RowAt(st.vol, at);
      SetVlrRelocates(row, th.vlr);
      StoreInRow(st.vol, at, VLR_WORD, SetVlr(row, th.vlr)[VLR_WORD]);
      assert row[VLR_WORD := SetVlr(row, th.vlr)[VLR_WORD]] == SetVlr(row, th.vlr);
    } else if Stores(th) {
      var a, x := GoStores(c, st, t);
      StoreOutside(st.vol, a, x, at);
    } else {
      GoFrame(c, st, t);
    }
  }

  lemma StoreInRow(h: seq<int>, at: nat, k: nat, x: int)
    requires at + ROW <= |h| && k < ROW
    ensures RowAt(h[at + k := x], at) == RowAt(h, at)[k := x]
  {}

  /** The locations stored into subscriber `s` during a run, in order. */
  ghost function Locations(c: Layout, st: State, acts: seq<Action>, s: nat): (r: seq<nat>)
    requires Executes(c, st, acts)
    decreases |acts|
  {
    if acts == [] then []
    else
      var a := acts[0];
      var here := if a.Go? && st.threads[a.t].pc == Armed && st.threads[a.t].s == s then [st.threads[a.t].vlr] else [];
      here + Locations(c, Apply(c, st, a), acts[1..], s)
  }

  /** After any run, disciplined or not, the program sees the last location stored. */
  lemma {:induction false} LastLocation(c: Layout, st: State, acts: seq<Action>, s: nat)
    requires Executes(c, st, acts) && s < c.subs
    ensures var stored := Locations(c, st, acts, s);
            Field(RowAt(Final(c, st, acts).vol, c.RowAddr(s)), VLR_LOCATION) ==
            if stored == [] then Field(RowAt(st.vol, c.RowAddr(s)), VLR_LOCATION)
            else stored[|stored| - 1] % 0x1_0000_0000
    decreases |acts|
  {
    if acts != [] {
      StepRelocates(c, st, acts[0], s);
      LastLocation(c, Apply(c, st, acts[0]), acts[1..], s);
    }
  }

  /** Thread `t`'s last lock in the run was for `s`, with location `vlr`. */
  ghost predicate BegunWith(acts: seq<Action>, t: nat, s: nat, vlr: nat) {
    exists k :: 0 <= k < |acts| && acts[k] == Begin(t, s, vlr) && NoneLater(acts, k, t)
  }

  ghost predicate NoneLater(acts: seq<Action>, k: int, t: nat) {
    forall j :: 0 <= j < |acts| && k < j ==> !(acts[j].Begin? && acts[j].t == t)
  }

  lemma StepKeepsTarget(c: Layout, st: State, a: Action, t: nat)
    requires Shape(c, st) && Enabled(c, st, a) && t < c.threads && !(a.Begin? && a.t == t)
    ensures var st' := Apply(c, st, a);
            |st'.threads| == c.threads && st'.threads[t].s == st.threads[t].s && st'.threads[t].vlr == st.threads[t].vlr
  {
    if a.Go? {
      GoShape(c, st, a.t);
    }
  }

  /** A thread works for the lock it took last. */
  lemma {:induction false} WorksFor(c: Layout, st: State, acts: seq<Action>, t: nat)
    requires Executes(c, st, acts) && t < c.threads
    ensures var th := Final(c, st, acts).threads[t];
            || BegunWith(acts, t, th.s, th.vlr)
            || (NoneLater(acts, -1, t) && th.s == st.threads[t].s && th.vlr == st.threads[t].vlr)
    decreases |acts|
  {
    if acts != [] {
      var a, rest := acts[0], acts[1..];
      var th := Final(c, st, acts).threads[t];
      WorksFor(c, Apply(c, st, a), rest, t);
      if BegunWith(rest, t, th.s, th.vlr) {
        var k :| 0 <= k < |rest| && rest[k] == Begin(t, th.s, th.vlr) && NoneLater(rest, k, t);
        LaterShift(acts, k, t);
        assert acts[k + 1] == Begin(t, th.s, th.vlr) && NoneLater(acts, k + 1, t);
      } else {
        LaterShift(acts, -1, t);
        if a.Begin? && a.t == t {
          assert acts[0] == Begin(t, th.s, th.vlr) && NoneLater(acts, 0, t);
        } else {
          StepKeepsTarget(c, st, a, t);
        }
      }
    }
  }

  lemma LaterShift(acts: seq<Action>, k: int, t: nat)
    requires acts != [] && k >= -1 && NoneLater(acts[1..], k, t)
    ensures NoneLater(acts, k + 1, t)
  {
    forall j | k + 1 < j < |acts|
      ensures !(acts[j].Begin? && acts[j].t == t)
    {
      assert acts[j] == acts[1..][j - 1];
    }
  }

  predicate HasUpdated(pc: Pc) {
    pc == Updated || pc == UpdateFlushed || pc == UpdateDurable || pc == Unlocked
  }

  lemma {:induction false} IdleUntilBegin(c: Layout, st: State, acts: seq<Action>, t: nat)
    requires Executes(c, st, acts) && t < c.threads && st.threads[t].pc == Idle && NoneLater(acts, -1, t)
    ensures Final(c, st, acts).threads[t].pc == Idle
    decreases |acts|
  {
    if acts != [] {
      var a := acts[0];
      assert !(a.Begin? && a.t == t);
      if a.Go? { GoFrame(c, st, a.t); }
      forall j | -1 < j < |acts[1..]|
        ensures !(acts[1..][j].Begin? && acts[1..][j].t == t)
      {
        assert acts[1..][j] == acts[j + 1];
      }
      IdleUntilBegin(c, Apply(c, st, a), acts[1..], t);
    }
  }

  /** Once a thread has updated, and until its log is discarded, the field at byte 84 of its
      subscriber is the location given when it took the lock, all other bytes are as they
      were then, and from the fence on this is durable. */
  lemma UpdateArrives(c: Layout, st: State, acts: seq<Action>, t: nat)
    requires Initial(c, st) && Executes(c, st, acts) && Disciplined(c, st, acts) && t < c.threads
    requires HasUpdated(Final(c, st, acts).threads[t].pc)
    ensures var end := Final(c, st, acts);
            var th := end.threads[t];
            && BegunWith(acts, t, th.s, th.vlr) && th.s < c.subs
            && Relocated(th.pre, RowAt(end.vol, c.RowAddr(th.s)), th.vlr)
            && (th.pc == UpdateDurable || th.pc == Unlocked ==>
                  Relocated(th.pre, RowAt(end.dur, c.RowAddr(th.s)), th.vlr))
  {
    var end := Final(c, st, acts);
    var th := end.threads[t];
    RunKeepsInv(c, st, acts);
    assert ThreadInv(c, end, t);
    SetVlrRelocates(th.pre, th.vlr);
    WorksFor(c, st, acts, t);
    if !BegunWith(acts, t, th.s, th.vlr) {
      IdleUntilBegin(c, st, acts, t);
    }
  }

  /** No run, disciplined or not, changes anything but locations in the table. */
  lemma {:induction false} OnlyLocations(c: Layout, st: State, acts: seq<Action>, s: nat)
    requires Executes(c, st, acts) && s < c.subs
    ensures OthersSame(RowAt(st.vol, c.RowAddr(s)), RowAt(Final(c, st, acts).vol, c.RowAddr(s)))
    decreases |acts|
  {
    if acts != [] {
      StepRelocates(c, st, acts[0], s);
      OnlyLocations(c, Apply(c, st, acts[0]), acts[1..], s);
    }
  }

  /** The location of the row the thread saved, or the one it was given. */
  ghost predicate LocationOf(th: Thread, row: Row) {
    && |th.pre| == |row| == ROW
    && (|| Field(row, VLR_LOCATION) == Field(th.pre, VLR_LOCATION)
        || Field(row, VLR_LOCATION) == th.vlr % 0x1_0000_0000)
  }

  /** Whatever a disciplined run is recovered to, subscriber `s` has its original bytes
      around the location, which is the one the program sees or that of a live thread's row
      before or after its update. */
  lemma RecoveredFields(c: Layout, st: State, acts: seq<Action>, order: seq<nat>, s: nat)
    requires Initial(c, st) && Executes(c, st, acts) && Disciplined(c, st, acts) && Complete(c, order) && s < c.subs
    ensures var end := Final(c, st, acts);
            var row := Recover(c, end.dur, order, Table(c, end.dur))[s];
            && OthersSame(RowAt(st.vol, c.RowAddr(s)), row)
            && (|| Field(row, VLR_LOCATION) == Field(RowAt(end.vol, c.RowAddr(s)), VLR_LOCATION)
                || exists t :: 0 <= t < c.threads && Live(c, end, t) && end.threads[t].s == s &&
                               LocationOf(end.threads[t], row))
  {
    var end := Final(c, st, acts);
    var row, now := Recover(c, end.dur, order, Table(c, end.dur))[s], RowAt(end.vol, c.RowAddr(s));
    DisciplinedRunsRecover(c, st, acts);
    assert Acceptable(c, end, s, row);
    OnlyLocations(c, st, acts, s);
    if row != now {
      var t :| 0 <= t < c.threads && Live(c, end, t) && end.threads[t].s == s
               && (now == end.threads[t].pre || now == Post(end.threads[t]))
               && (row == end.threads[t].pre || row == Post(end.threads[t]));
      SetVlrRelocates(end.threads[t].pre, end.threads[t].vlr);
      assert LocationOf(end.threads[t], row);
    }
  }
}

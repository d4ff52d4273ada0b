/** The TATP location update: any number of threads, each with its own one-entry undo
    log, updating rows of a shared table under one mutex per subscriber
    (`janus_workload/TATP/tatp_nvm.cc`, `tatp_db.cc`). */
module TatpLog {
  import opened PersistentMemory

  /** A subscriber entry is 128 bytes: sixteen 8-byte words, two lines' worth. */
  type Row = seq<int>
  const ROW: nat := 16
  const PER_LINE: nat := 8
  const HALF: nat := 0x1_0000_0000
  /** `s_id` is the low half of word 0; `vlr_location` the high half of word 10. */
  const VLR_WORD: nat := 10

  function SId(row: Row): (r: int)
    requires |row| == ROW
  {
    row[0] % HALF
  }

  function SetVlr(row: Row, vlr: nat): (r: Row)
    requires |row| == ROW
    ensures |r| == ROW && SId(r) == SId(row)
  {
    row[VLR_WORD := row[VLR_WORD] % HALF + HALF * (vlr % HALF)]
  }

  /** Where the subscriber table, the per-thread backups and the per-thread valid words live. */
  datatype Layout = Layout(table: nat, backup: nat, valid: nat, subs: nat, threads: nat, total: nat) {
    ghost predicate Ok() {
      && subs <= HALF
      && TableEnd() <= total && BackupEnd() <= total && ValidEnd() <= total
      && (TableEnd() <= backup || BackupEnd() <= table)
      && (TableEnd() <= valid || ValidEnd() <= table)
      && (BackupEnd() <= valid || ValidEnd() <= backup)
    }
    function TableEnd(): nat { table + ROW * subs }
    function BackupEnd(): nat { backup + ROW * threads }
    function ValidEnd(): nat { valid + threads }
    function RowAddr(s: nat): nat { table + ROW * s }
    function LogAddr(t: nat): nat { backup + ROW * t }
    function ValidAddr(t: nat): nat { valid + t }
  }

  /** The point a thread has reached in one iteration of `update_locations`. */
  datatype Pc =
    | Idle            // outside, no mutex held
    | Copying         // mutex held, row being copied into the backup
    | LogFlushed      // backup flushed, fence outstanding
    | LogDurable
    | Marked          // valid = 1 stored
    | MarkFlushed
    | Armed           // valid = 1 durable
    | Updated         // vlr_location stored
    | UpdateFlushed
    | UpdateDurable
    | Unlocked        // mutex released, log not yet discarded
    | Unmarked        // valid = 0 stored
    | UnmarkFlushed

  /** `pre` is the row as it was when the mutex was taken; the code does not store it. */
  datatype Thread = Thread(pc: Pc, s: nat, vlr: nat, copied: nat, pre: Row)

  datatype State = State(vol: Image, dur: Image, threads: seq<Thread>, pending: seq<set<nat>>, owner: seq<int>)

  const FREE := -1

  datatype Action =
    | Begin(t: nat, s: nat, vlr: nat)  // pthread_mutex_lock succeeds
    | Go(t: nat)                       // the thread's next instruction
    | Evict(line: nat)                 // the cache writes a line back

  ghost predicate Shape(c: Layout, st: State) {
    && c.Ok() && |st.vol| == |st.dur| == c.total
    && |st.threads| == |st.pending| == c.threads && |st.owner| == c.subs
    && forall t :: 0 <= t < c.threads ==> st.threads[t].pc != Idle ==>
         st.threads[t].s < c.subs && st.threads[t].copied <= ROW && |st.threads[t].pre| == ROW
  }

  function RowAt(h: Image, at: nat): (r: Row)
    requires at + ROW <= |h|
    ensures |r| == ROW
  {
    h[at..at + ROW]
  }

  /** The lines `flush_caches` covers for `n` words from word `a`. */
  function LinesOf(a: nat, n: nat): (r: set<nat>)
    ensures forall i :: a <= i < a + n ==> i / PER_LINE in r
  {
    set i | a <= i < a + n :: i / PER_LINE
  }

  /** They are the lines a flush of the words' bytes walks over. */
  lemma LinesFlushed(a: nat, n: nat, line: nat)
    requires n > 0
    ensures line in LinesOf(a, n) <==> Flushed(8 * a, 8 * n, line)
  {
    FlushedLinesExact(8 * a, 8 * n, line);
    if line in LinesOf(a, n) {
      var i :| a <= i < a + n && i / PER_LINE == line;
      assert 8 * a <= 8 * i < 8 * a + 8 * n && 8 * i / LINE_BYTES == line;
    }
    if Flushed(8 * a, 8 * n, line) {
      var b: nat :| 8 * a <= b < 8 * a + 8 * n && b / LINE_BYTES == line;
      assert a <= b / 8 < a + n && b / 8 / PER_LINE == line;
    }
  }

  predicate AtFence(pc: Pc) {
    pc == LogFlushed || pc == MarkFlushed || pc == UpdateFlushed || pc == UnmarkFlushed
  }

  ghost predicate Enabled(c: Layout, st: State, a: Action)
    requires Shape(c, st)
  {
    match a
    case Begin(t, s, _) => t < c.threads && st.threads[t].pc == Idle && s < c.subs && st.owner[s] == FREE
    case Go(t) => t < c.threads && st.threads[t].pc != Idle && (AtFence(st.threads[t].pc) ==> st.pending[t] == {})
    case Evict(_) => true
  }

  function Advance(st: State, t: nat, pc: Pc): (r: State)
    requires t < |st.threads|
  {
    st.(threads := st.threads[t := st.threads[t].(pc := pc)])
  }

  function Flush(st: State, t: nat, a: nat, n: nat): (r: State)
    requires t < |st.pending|
  {
    st.(pending := st.pending[t := st.pending[t] + LinesOf(a, n)])
  }

  function StoreWord(st: State, a: nat, x: int): (r: State)
    requires a < |st.vol|
  {
    st.(vol := st.vol[a := x])
  }

  ghost function Apply(c: Layout, st: State, a: Action): (r: State)
    requires Shape(c, st) && Enabled(c, st, a)
  {
    match a
    case Begin(t, s, vlr) =>
      st.(threads := st.threads[t := Thread(Copying, s, vlr, 0, RowAt(st.vol, c.RowAddr(s)))],
          owner := st.owner[s := t])
    case Evict(line) =>
      st.(dur := WriteBack(st.dur, st.vol, PER_LINE, line),
          pending := seq(|st.pending|, u requires 0 <= u < |st.pending| => st.pending[u] - {line}))
    case Go(t) =>
      var th := st.threads[t];
      match th.pc
      case Copying =>
        if th.copied < ROW then
          StoreWord(st, c.LogAddr(t) + th.copied, st.vol[c.RowAddr(th.s) + th.copied])
          .(threads := st.threads[t := th.(copied := th.copied + 1)])
        else Advance(Flush(st, t, c.LogAddr(t), ROW), t, LogFlushed)
      case LogFlushed => Advance(st, t, LogDurable)
      case LogDurable => Advance(StoreWord(st, c.ValidAddr(t), 1), t, Marked)
      case Marked => Advance(Flush(st, t, c.ValidAddr(t), 1), t, MarkFlushed)
      case MarkFlushed => Advance(st, t, Armed)
      case Armed =>
        var at := c.RowAddr(th.s);
        Advance(StoreWord(st, at + VLR_WORD, SetVlr(RowAt(st.vol, at), th.vlr)[VLR_WORD]), t, Updated)
      case Updated => Advance(Flush(st, t, c.RowAddr(th.s), ROW), t, UpdateFlushed)
      case UpdateFlushed => Advance(st, t, UpdateDurable)
      case UpdateDurable => Advance(st, t, Unlocked).(owner := st.owner[th.s := FREE])
      case Unlocked => Advance(StoreWord(st, c.ValidAddr(t), 0), t, Unmarked)
      case Unmarked => Advance(Flush(st, t, c.ValidAddr(t), 1), t, UnmarkFlushed)
      case UnmarkFlushed => Advance(st, t, Idle)
  }

  // ------------------------------------------------------------------ recovery

  /** Recovery undoes the logs of the threads in `order`: where a valid word is set, the
      saved row goes back to the slot its own `s_id` names. */
  ghost function Recover(c: Layout, dur: Image, order: seq<nat>, table: seq<Row>): (r: seq<Row>)
    requires c.Ok() && |dur| == c.total && forall k :: 0 <= k < |order| ==> order[k] < c.threads
    ensures |r| == |table|
    decreases |order|
  {
    if order == [] then table
    else
      var t, rest := order[|order| - 1], Recover(c, dur, order[..|order| - 1], table);
      var saved := RowAt(dur, c.LogAddr(t));
      if dur[c.ValidAddr(t)] != 0 && SId(saved) < |rest| then rest[SId(saved) := saved] else rest
  }

  ghost function Table(c: Layout, h: Image): (r: seq<Row>)
    requires c.Ok() && |h| == c.total
    ensures |r| == c.subs && forall s :: 0 <= s < c.subs ==> r[s] == RowAt(h, c.RowAddr(s))
  {
    seq(c.subs, s requires 0 <= s < c.subs => RowAt(h, c.RowAddr(s)))
  }

  /** The thread's log still matters: its update is in flight, or finished but with
      the discard of its log not yet durable. */
  ghost predicate Live(c: Layout, st: State, t: nat)
    requires Shape(c, st) && t < c.threads
  {
    match st.threads[t].pc
    case Idle => false
    case Unmarked => st.dur[c.ValidAddr(t)] != 0
    case UnmarkFlushed => st.dur[c.ValidAddr(t)] != 0
    case _ => true
  }

  function Post(th: Thread): (r: Row)
    requires |th.pre| == ROW
  {
    SetVlr(th.pre, th.vlr)
  }

  /** `row` is what the program sees in subscriber `s`, give or take one in-flight update. */
  ghost predicate Acceptable(c: Layout, st: State, s: nat, row: Row)
    requires Shape(c, st) && s < c.subs
  {
    var now := RowAt(st.vol, c.RowAddr(s));
    || row == now
    || exists t :: 0 <= t < c.threads && Live(c, st, t) && st.threads[t].s == s
         && (now == st.threads[t].pre || now == Post(st.threads[t]))
         && (row == st.threads[t].pre || row == Post(st.threads[t]))
  }

  /** Recovery in any order that reaches every thread loses at most in-flight updates. */
  ghost predicate Recoverable(c: Layout, st: State)
    requires Shape(c, st)
  {
    forall order: seq<nat>, s :: Complete(c, order) && 0 <= s < c.subs ==>
      Acceptable(c, st, s, Recover(c, st.dur, order, Table(c, st.dur))[s])
  }

  ghost predicate Complete(c: Layout, order: seq<nat>) {
    (forall k :: 0 <= k < |order| ==> order[k] < c.threads) && forall t :: 0 <= t < c.threads ==> t in order
  }

  // ----------------------------------------------------------------- invariant

  ghost predicate CoveredBy(st: State, t: nat, a: nat, n: nat)
    requires t < |st.pending| && |st.vol| == |st.dur| && a + n <= |st.vol|
  {
    forall i :: a <= i < a + n ==> i / PER_LINE in st.pending[t] || st.dur[i] == st.vol[i]
  }

  predicate HoldsMutex(pc: Pc) {
    pc != Idle && pc != Unlocked && pc != Unmarked && pc != UnmarkFlushed
  }

  ghost predicate Flag(c: Layout, st: State, t: nat, vol: int, dur: int)
    requires Shape(c, st) && t < c.threads
  {
    st.vol[c.ValidAddr(t)] == vol && st.dur[c.ValidAddr(t)] == dur
  }

  ghost predicate LogIs(c: Layout, st: State, t: nat)
    requires Shape(c, st) && t < c.threads
  {
    RowAt(st.vol, c.LogAddr(t)) == RowAt(st.dur, c.LogAddr(t)) == st.threads[t].pre
  }

  ghost predicate RowIs(c: Layout, st: State, s: nat, row: Row)
    requires Shape(c, st) && s < c.subs
  {
    RowAt(st.vol, c.RowAddr(s)) == RowAt(st.dur, c.RowAddr(s)) == row
  }

  ghost predicate ThreadInv(c: Layout, st: State, t: nat)
    requires Shape(c, st) && t < c.threads
  {
    var th := st.threads[t];
    && (HoldsMutex(th.pc) ==> st.owner[th.s] == t)
    && (th.pc != Idle ==> SId(th.pre) == th.s)
    && match th.pc
       case Idle => Flag(c, st, t, 0, 0)
       case Copying =>
         && Flag(c, st, t, 0, 0) && RowIs(c, st, th.s, th.pre)
         && st.vol[c.LogAddr(t)..c.LogAddr(t) + th.copied] == th.pre[..th.copied]
       case LogFlushed =>
         && Flag(c, st, t, 0, 0) && RowIs(c, st, th.s, th.pre)
         && RowAt(st.vol, c.LogAddr(t)) == th.pre && CoveredBy(st, t, c.LogAddr(t), ROW)
       case LogDurable => Flag(c, st, t, 0, 0) && RowIs(c, st, th.s, th.pre) && LogIs(c, st, t)
       case Marked =>
         (Flag(c, st, t, 1, 0) || Flag(c, st, t, 1, 1)) && RowIs(c, st, th.s, th.pre) && LogIs(c, st, t)
       case MarkFlushed =>
         && (Flag(c, st, t, 1, 0) || Flag(c, st, t, 1, 1)) && RowIs(c, st, th.s, th.pre) && LogIs(c, st, t)
         && CoveredBy(st, t, c.ValidAddr(t), 1)
       case Armed => Flag(c, st, t, 1, 1) && RowIs(c, st, th.s, th.pre) && LogIs(c, st, t)
       case Updated =>
         && Flag(c, st, t, 1, 1) && LogIs(c, st, t) && RowAt(st.vol, c.RowAddr(th.s)) == Post(th)
       case UpdateFlushed =>
         && Flag(c, st, t, 1, 1) && LogIs(c, st, t) && RowAt(st.vol, c.RowAddr(th.s)) == Post(th)
         && CoveredBy(st, t, c.RowAddr(th.s), ROW)
       case UpdateDurable => Flag(c, st, t, 1, 1) && LogIs(c, st, t) && RowIs(c, st, th.s, Post(th))
       case Unlocked => Flag(c, st, t, 1, 1) && LogIs(c, st, t) && RowIs(c, st, th.s, Post(th))
       case Unmarked =>
         || Flag(c, st, t, 0, 0)
         || (Flag(c, st, t, 0, 1) && LogIs(c, st, t) && RowIs(c, st, th.s, Post(th)))
       case UnmarkFlushed =>
         && CoveredBy(st, t, c.ValidAddr(t), 1)
         && (|| Flag(c, st, t, 0, 0)
             || (Flag(c, st, t, 0, 1) && LogIs(c, st, t) && RowIs(c, st, th.s, Post(th))))
  }

  ghost predicate Quiet(c: Layout, st: State, s: nat)
    requires Shape(c, st)
  {
    forall t :: 0 <= t < c.threads && Live(c, st, t) ==> st.threads[t].s != s
  }

  function ValidLine(c: Layout, t: nat): (line: nat) { c.ValidAddr(t) / PER_LINE }

  /** Before its update thread `u` flushes the line of `t`'s valid word, together with its
      own backup or its own valid word. */
  predicate FlushesFirst(c: Layout, t: nat, u: nat) {
    ValidLine(c, t) in LinesOf(c.LogAddr(u), ROW) || ValidLine(c, t) == ValidLine(c, u)
  }

  predicate Discarding(th: Thread) {
    th.pc == Unmarked || th.pc == UnmarkFlushed
  }

  /** Thread `t` has stored its discard, and a fence of `u` will wait for it before `u`
      updates. */
  ghost predicate Fading(c: Layout, st: State, t: nat, u: nat)
    requires Shape(c, st) && t < c.threads && u < c.threads
  {
    var pc, line := st.threads[u].pc, ValidLine(c, t);
    && Discarding(st.threads[t])
    && if pc == Copying then FlushesFirst(c, t, u)
       else if pc == LogFlushed then line in st.pending[u] || line == ValidLine(c, u)
       else if pc == LogDurable || pc == Marked then line == ValidLine(c, u)
       else pc == MarkFlushed && line in st.pending[u]
  }

  ghost predicate PairOk(c: Layout, st: State, t: nat, u: nat)
    requires Shape(c, st) && t < c.threads && u < c.threads
  {
    t != u && Live(c, st, t) && Live(c, st, u) && st.threads[t].s == st.threads[u].s ==>
      Fading(c, st, t, u) || Fading(c, st, u, t)
  }

  /** The lines a thread may still be waiting for. */
  function Outstanding(c: Layout, th: Thread, t: nat): (r: set<nat>) {
    if th.pc == LogFlushed then LinesOf(c.LogAddr(t), ROW)
    else if th.pc == MarkFlushed || th.pc == UnmarkFlushed then LinesOf(c.ValidAddr(t), 1)
    else if th.pc == UpdateFlushed then LinesOf(c.RowAddr(th.s), ROW)
    else {}
  }

  ghost predicate PendingOk(c: Layout, st: State, t: nat)
    requires Shape(c, st) && t < c.threads
  {
    st.pending[t] <= Outstanding(c, st.threads[t], t)
  }

  ghost predicate Inv(c: Layout, st: State) {
    && Shape(c, st)
    && (forall t :: 0 <= t < c.threads ==> ThreadInv(c, st, t))
    && (forall t :: 0 <= t < c.threads ==> PendingOk(c, st, t))
    && (forall t, u :: 0 <= t < c.threads && 0 <= u < c.threads ==> PairOk(c, st, t, u))
    && (forall s :: 0 <= s < c.subs ==> SId(RowAt(st.vol, c.RowAddr(s))) == s)
    && (forall s :: 0 <= s < c.subs && Quiet(c, st, s) ==> RowIs(c, st, s, RowAt(st.vol, c.RowAddr(s))))
  }

  // -------------------------------------------------------------- preservation

  /** Everything thread `u`'s part of the invariant looks at is the same in both states. */
  ghost predicate SameFor(c: Layout, st: State, st': State, u: nat)
    requires Shape(c, st) && Shape(c, st') && u < c.threads
  {
    && st'.threads[u] == st.threads[u] && st'.pending[u] == st.pending[u] && st'.dur == st.dur
    && st'.vol[c.ValidAddr(u)] == st.vol[c.ValidAddr(u)]
    && RowAt(st'.vol, c.LogAddr(u)) == RowAt(st.vol, c.LogAddr(u))
    && (Live(c, st, u) ==> RowAt(st'.vol, c.RowAddr(st.threads[u].s)) == RowAt(st.vol, c.RowAddr(st.threads[u].s)))
    && (HoldsMutex(st.threads[u].pc) ==> st'.owner[st.threads[u].s] == st.owner[st.threads[u].s])
  }

  lemma RowEq(g: Image, h: Image, at: nat)
    requires at + ROW <= |g| == |h| && RowAt(g, at) == RowAt(h, at)
    ensures forall i :: at <= i < at + ROW ==> g[i] == h[i]
  {
    forall i | at <= i < at + ROW
      ensures g[i] == h[i]
    {
      assert RowAt(g, at)[i - at] == RowAt(h, at)[i - at];
    }
  }

  lemma SameKeeps(c: Layout, st: State, st': State, u: nat)
    requires Shape(c, st) && Shape(c, st') && u < c.threads
    requires ThreadInv(c, st, u) && SameFor(c, st, st', u)
    ensures ThreadInv(c, st', u) && Live(c, st', u) == Live(c, st, u)
  {
    RowEq(st'.vol, st.vol, c.LogAddr(u));
    if Live(c, st, u) {
      RowEq(st'.vol, st.vol, c.RowAddr(st.threads[u].s));
    }
    var th := st.threads[u];
    if th.pc == Copying {
      assert st'.vol[c.LogAddr(u)..c.LogAddr(u) + th.copied] == st.vol[c.LogAddr(u)..c.LogAddr(u) + th.copied];
    }
  }

  /** A store by thread `t` into its own log, its own valid word or its own row. */
  ghost predicate OwnCell(c: Layout, st: State, t: nat, a: nat)
    requires Shape(c, st) && t < c.threads
  {
    || a == c.ValidAddr(t)
    || c.LogAddr(t) <= a < c.LogAddr(t) + ROW
    || (st.threads[t].pc == Armed && c.RowAddr(st.threads[t].s) <= a < c.RowAddr(st.threads[t].s) + ROW)
  }

  lemma StoreSame(c: Layout, st: State, st': State, t: nat, a: nat, x: int, u: nat)
    requires Shape(c, st) && Shape(c, st') && t < c.threads && u < c.threads && t != u
    requires st.threads[t].pc == Armed && Live(c, st, u) ==> st.threads[t].s != st.threads[u].s
    requires OwnCell(c, st, t, a) && a < c.total && st'.vol == st.vol[a := x] && st'.dur == st.dur
    requires st'.threads[u] == st.threads[u] && st'.pending[u] == st.pending[u]
    requires HoldsMutex(st.threads[u].pc) ==> st'.owner[st.threads[u].s] == st.owner[st.threads[u].s]
    ensures SameFor(c, st, st', u)
  {
    StoreOutside(st.vol, a, x, c.LogAddr(u));
    if Live(c, st, u) {
      StoreOutside(st.vol, a, x, c.RowAddr(st.threads[u].s));
    }
  }

  lemma StoreOutside(h: Image, a: nat, x: int, at: nat)
    requires a < |h| && at + ROW <= |h| && !(at <= a < at + ROW)
    ensures RowAt(h[a := x], at) == RowAt(h, at)
  {}

  lemma StoreNext(h: Image, at: nat, k: nat, x: int)
    requires at + k < |h|
    ensures h[at + k := x][at..at + k + 1] == h[at..at + k] + [x]
  {}

  lemma GoShape(c: Layout, st: State, t: nat)
    requires Shape(c, st) && Enabled(c, st, Go(t))
    ensures Shape(c, Apply(c, st, Go(t)))
  {}

  /** One more word of the backup is stored. */
  ghost predicate CopiesWord(c: Layout, st: State, st': State, t: nat)
    requires Shape(c, st) && Shape(c, st') && t < c.threads
  {
    var th := st.threads[t];
    && th.pc == Copying && th.copied < ROW && st'.threads[t] == th.(copied := th.copied + 1)
    && st'.vol == st.vol[c.LogAddr(t) + th.copied := st.vol[c.RowAddr(th.s) + th.copied]]
    && st'.dur == st.dur && st'.owner == st.owner
  }

  lemma GoCopies(c: Layout, st: State, t: nat)
    requires Shape(c, st) && Enabled(c, st, Go(t)) && st.threads[t].pc == Copying && st.threads[t].copied < ROW
    ensures Shape(c, Apply(c, st, Go(t))) && CopiesWord(c, st, Apply(c, st, Go(t)), t)
  {
    GoShape(c, st, t);
  }

  lemma CopyKeeps(c: Layout, st: State, st': State, t: nat)
    requires Shape(c, st) && Shape(c, st') && t < c.threads && ThreadInv(c, st, t) && CopiesWord(c, st, st', t)
    ensures ThreadInv(c, st', t)
  {
    var th := st.threads[t];
    var log, row := c.LogAddr(t), c.RowAddr(th.s);
    assert st.vol[row + th.copied] == RowAt(st.vol, row)[th.copied];
    StoreNext(st.vol, log, th.copied, th.pre[th.copied]);
    assert th.pre[..th.copied + 1] == th.pre[..th.copied] + [th.pre[th.copied]];
    StoreOutside(st.vol, log + th.copied, th.pre[th.copied], row);
  }

  /** Storing the next word of the backup. */
  lemma GoCopyOwn(c: Layout, st: State, t: nat)
    requires Shape(c, st) && Enabled(c, st, Go(t)) && ThreadInv(c, st, t)
    requires st.threads[t].pc == Copying && st.threads[t].copied < ROW
    ensures var st' := Apply(c, st, Go(t));
            Shape(c, st') && ThreadInv(c, st', t) && Live(c, st', t) == Live(c, st, t)
  {
    GoCopies(c, st, t);
    CopyKeeps(c, st, Apply(c, st, Go(t)), t);
  }

  /** Storing the valid word. */
  lemma GoMarkOwn(c: Layout, st: State, t: nat)
    requires Shape(c, st) && Enabled(c, st, Go(t)) && ThreadInv(c, st, t)
    requires st.threads[t].pc == LogDurable || st.threads[t].pc == Unlocked
    ensures var st' := Apply(c, st, Go(t));
            Shape(c, st') && ThreadInv(c, st', t) && Live(c, st', t) == Live(c, st, t)
  {
    GoShape(c, st, t);
    var st', th := Apply(c, st, Go(t)), st.threads[t];
    assert RowAt(st'.vol, c.RowAddr(th.s)) == RowAt(st.vol, c.RowAddr(th.s));
    assert RowAt(st'.vol, c.LogAddr(t)) == RowAt(st.vol, c.LogAddr(t));
  }

  /** Storing the new location. */
  lemma GoUpdateOwn(c: Layout, st: State, t: nat)
    requires Shape(c, st) && Enabled(c, st, Go(t)) && ThreadInv(c, st, t)
    requires st.threads[t].pc == Armed
    ensures var st' := Apply(c, st, Go(t));
            Shape(c, st') && ThreadInv(c, st', t) && Live(c, st', t) == Live(c, st, t)
  {
    GoShape(c, st, t);
    var st', th := Apply(c, st, Go(t)), st.threads[t];
    assert RowAt(st'.vol, c.RowAddr(th.s)) == Post(th);
    assert RowAt(st'.vol, c.LogAddr(t)) == RowAt(st.vol, c.LogAddr(t));
  }

  /** What the instructions that flush, fence or unlock do: the thread goes on to the next
      point, and lines may become pending. */
  ghost predicate Moves(c: Layout, st: State, st': State, t: nat, pc: Pc, a: nat, n: nat)
    requires Shape(c, st) && Shape(c, st') && t < c.threads
  {
    && st'.vol == st.vol && st'.dur == st.dur && st'.threads[t] == st.threads[t].(pc := pc)
    && (st'.owner == st.owner || pc == Unlocked) && st'.pending[t] == st.pending[t] + LinesOf(a, n)
  }

  predicate Flushes(pc: Pc) {
    pc == Copying || pc == Marked || pc == Updated || pc == Unmarked
  }

  /** The point after a flush, fence or unlock, and the words flushed. */
  function NextPc(pc: Pc): (r: Pc) {
    match pc
    case Copying => LogFlushed
    case LogFlushed => LogDurable
    case Marked => MarkFlushed
    case MarkFlushed => Armed
    case Updated => UpdateFlushed
    case UpdateFlushed => UpdateDurable
    case UpdateDurable => Unlocked
    case Unmarked => UnmarkFlushed
    case _ => Idle
  }

  function FlushedFrom(c: Layout, th: Thread, t: nat): (a: nat) {
    if th.pc == Copying then c.LogAddr(t) else if th.pc == Updated then c.RowAddr(th.s) else c.ValidAddr(t)
  }

  function FlushedWords(pc: Pc): (n: nat) {
    if pc == Copying || pc == Updated then ROW else if pc == Marked || pc == Unmarked then 1 else 0
  }

  lemma GoMoves(c: Layout, st: State, t: nat)
    requires Shape(c, st) && Enabled(c, st, Go(t)) && !Stores(st.threads[t])
    ensures Shape(c, Apply(c, st, Go(t)))
    ensures var th := st.threads[t];
            Moves(c, st, Apply(c, st, Go(t)), t, NextPc(th.pc), FlushedFrom(c, th, t), FlushedWords(th.pc))
  {
    GoShape(c, st, t);
  }

  lemma FlushKeeps(c: Layout, st: State, st': State, t: nat)
    requires Shape(c, st) && Shape(c, st') && t < c.threads && ThreadInv(c, st, t)
    requires var th := st.threads[t];
             && Flushes(th.pc) && !Stores(th) && st'.owner == st.owner
             && Moves(c, st, st', t, NextPc(th.pc), FlushedFrom(c, th, t), FlushedWords(th.pc))
    ensures ThreadInv(c, st', t) && Live(c, st', t) == Live(c, st, t)
  {
    var th := st.threads[t];
    if th.pc == Copying {
      assert RowAt(st.vol, c.LogAddr(t)) == th.pre by { assert th.copied == ROW; assert th.pre[..ROW] == th.pre; }
    }
  }

  /** A fence that has waited for its lines. */
  lemma FenceKeeps(c: Layout, st: State, st': State, t: nat)
    requires Shape(c, st) && Shape(c, st') && t < c.threads && ThreadInv(c, st, t)
    requires AtFence(st.threads[t].pc) && st.pending[t] == {} && st'.owner == st.owner
    requires st'.vol == st.vol && st'.dur == st.dur && st'.threads[t] == st.threads[t].(pc := NextPc(st.threads[t].pc))
    ensures ThreadInv(c, st', t) && Live(c, st', t) == Live(c, st, t)
  {
    var th := st.threads[t];
    if th.pc == LogFlushed {
      assert RowAt(st.dur, c.LogAddr(t)) == RowAt(st.vol, c.LogAddr(t));
    } else if th.pc == UpdateFlushed {
      assert RowAt(st.dur, c.RowAddr(th.s)) == RowAt(st.vol, c.RowAddr(th.s));
    } else {
      assert st.dur[c.ValidAddr(t)] == st.vol[c.ValidAddr(t)];
    }
  }

  /** The instructions that flush, fence or unlock. */
  lemma GoOtherOwn(c: Layout, st: State, t: nat)
    requires Shape(c, st) && Enabled(c, st, Go(t)) && ThreadInv(c, st, t) && !Stores(st.threads[t])
    ensures var st' := Apply(c, st, Go(t));
            Shape(c, st') && ThreadInv(c, st', t) && Live(c, st', t) == Live(c, st, t)
  {
    GoMoves(c, st, t);
    var st', th := Apply(c, st, Go(t)), st.threads[t];
    if Flushes(th.pc) {
      FlushKeeps(c, st, st', t);
    } else if AtFence(th.pc) {
      FenceKeeps(c, st, st', t);
    }
  }

  predicate Stores(th: Thread) {
    (th.pc == Copying && th.copied < ROW) || th.pc == LogDurable || th.pc == Armed || th.pc == Unlocked
  }

  /** The word an instruction stores belongs to its thread. */
  lemma GoStores(c: Layout, st: State, t: nat) returns (a: nat, x: int)
    requires Shape(c, st) && Enabled(c, st, Go(t)) && Stores(st.threads[t])
    ensures a < c.total && OwnCell(c, st, t, a)
    ensures var st' := Apply(c, st, Go(t));
            st'.vol == st.vol[a := x] && st'.dur == st.dur && st'.pending == st.pending && st'.owner == st.owner
  {
    var th := st.threads[t];
    if th.pc == Copying {
      a, x := c.LogAddr(t) + th.copied, st.vol[c.RowAddr(th.s) + th.copied];
    } else if th.pc == LogDurable {
      a, x := c.ValidAddr(t), 1;
    } else if th.pc == Unlocked {
      a, x := c.ValidAddr(t), 0;
    } else {
      a := c.RowAddr(th.s) + VLR_WORD;
      x := SetVlr(RowAt(st.vol, c.RowAddr(th.s)), th.vlr)[VLR_WORD];
    }
  }

  /** What an instruction of `t` leaves alone. */
  lemma GoFrame(c: Layout, st: State, t: nat)
    requires Shape(c, st) && Enabled(c, st, Go(t))
    ensures var st' := Apply(c, st, Go(t));
            && Shape(c, st') && st'.dur == st.dur && (!Stores(st.threads[t]) ==> st'.vol == st.vol)
            && (forall u :: 0 <= u < c.threads && u != t ==>
                  st'.threads[u] == st.threads[u] && st'.pending[u] == st.pending[u])
            && forall s :: 0 <= s < c.subs && st.owner[s] != t ==> st'.owner[s] == st.owner[s] || s == st.threads[t].s
    ensures !(st.threads[t].pc == UpdateDurable) ==> Apply(c, st, Go(t)).owner == st.owner
  {
    GoShape(c, st, t);
  }

  lemma OthersKept(c: Layout, st: State, st': State, t: nat, u: nat, a: nat, x: int)
    requires Shape(c, st) && Shape(c, st') && t < c.threads && u < c.threads && u != t && a < c.total
    requires ThreadInv(c, st, u) && (st.threads[t].pc == Armed && Live(c, st, u) ==> st.threads[t].s != st.threads[u].s)
    requires st'.dur == st.dur && st'.threads[u] == st.threads[u] && st'.pending[u] == st.pending[u]
    requires st'.vol == st.vol || (st'.vol == st.vol[a := x] && OwnCell(c, st, t, a))
    requires HoldsMutex(st.threads[u].pc) ==> st'.owner[st.threads[u].s] == st.owner[st.threads[u].s]
    ensures ThreadInv(c, st', u) && Live(c, st', u) == Live(c, st, u)
  {
    if st'.vol != st.vol {
      StoreSame(c, st, st', t, a, x, u);
    }
    SameKeeps(c, st, st', u);
  }

  lemma GoOthers(c: Layout, st: State, t: nat, u: nat)
    requires Shape(c, st) && Enabled(c, st, Go(t)) && u < c.threads && u != t
    requires ThreadInv(c, st, t) && ThreadInv(c, st, u)
    requires st.threads[t].pc == Armed && Live(c, st, u) ==> st.threads[t].s != st.threads[u].s
    ensures var st' := Apply(c, st, Go(t));
            && Shape(c, st') && ThreadInv(c, st', u)
            && Live(c, st', u) == Live(c, st, u) && st'.threads[u] == st.threads[u]
  {
    GoFrame(c, st, t);
    var a, x := c.ValidAddr(t), 0;
    if Stores(st.threads[t]) {
      a, x := GoStores(c, st, t);
    }
    OthersKept(c, st, Apply(c, st, Go(t)), t, u, a, x);
  }

  /** The only row an instruction changes is the one its thread is updating. */
  lemma GoRows(c: Layout, st: State, t: nat, s: nat)
    requires Shape(c, st) && Enabled(c, st, Go(t)) && s < c.subs && ThreadInv(c, st, t)
    ensures var st', th := Apply(c, st, Go(t)), st.threads[t];
            && Shape(c, st') && st'.dur == st.dur
            && RowAt(st'.vol, c.RowAddr(s)) ==
                 if th.pc == Armed && s == th.s then Post(th) else RowAt(st.vol, c.RowAddr(s))
  {
    GoShape(c, st, t);
    assert ThreadInv(c, st, t);
  }

  lemma GoThread(c: Layout, st: State, t: nat, u: nat)
    requires Inv(c, st) && Enabled(c, st, Go(t)) && u < c.threads
    ensures var st' := Apply(c, st, Go(t));
            && Shape(c, st') && ThreadInv(c, st', u) && Live(c, st', u) == Live(c, st, u)
            && st'.threads[u].s == st.threads[u].s
  {
    var th := st.threads[t];
    assert ThreadInv(c, st, t) && ThreadInv(c, st, u) && PairOk(c, st, t, u);
    if u != t {
      GoOthers(c, st, t, u);
    } else if th.pc == Copying && th.copied < ROW {
      GoCopyOwn(c, st, t);
    } else if th.pc == LogDurable || th.pc == Unlocked {
      GoMarkOwn(c, st, t);
    } else if th.pc == Armed {
      GoUpdateOwn(c, st, t);
    } else {
      GoOtherOwn(c, st, t);
    }
  }

  lemma GoTable(c: Layout, st: State, t: nat, s: nat)
    requires Inv(c, st) && Enabled(c, st, Go(t)) && s < c.subs
    ensures var st' := Apply(c, st, Go(t));
            && Shape(c, st') && SId(RowAt(st'.vol, c.RowAddr(s))) == s
            && (Quiet(c, st, s) ==> RowIs(c, st', s, RowAt(st'.vol, c.RowAddr(s))))
  {
    assert ThreadInv(c, st, t);
    GoRows(c, st, t, s);
    assert st.threads[t].pc == Armed ==> Live(c, st, t);
  }

  lemma GoPending(c: Layout, st: State, t: nat, u: nat)
    requires Shape(c, st) && Enabled(c, st, Go(t)) && u < c.threads && PendingOk(c, st, u)
    ensures Shape(c, Apply(c, st, Go(t))) && PendingOk(c, Apply(c, st, Go(t)), u)
  {
    GoFrame(c, st, t);
    if u == t && !Stores(st.threads[t]) {
      GoMoves(c, st, t);
    }
  }

  /** A discard that is on its way stays so while `t` goes on. */
  lemma GoFading(c: Layout, st: State, t: nat, x: nat, u: nat)
    requires Shape(c, st) && Enabled(c, st, Go(t)) && x < c.threads && u < c.threads && x != u && Fading(c, st, x, u)
    requires Shape(c, Apply(c, st, Go(t))) && Live(c, Apply(c, st, Go(t)), x)
    ensures Fading(c, Apply(c, st, Go(t)), x, u)
  {
    GoFrame(c, st, t);
    if !Stores(st.threads[t]) {
      GoMoves(c, st, t);
    }
  }

  lemma GoPair(c: Layout, st: State, t: nat, x: nat, u: nat)
    requires Shape(c, st) && Enabled(c, st, Go(t)) && x < c.threads && u < c.threads && PairOk(c, st, x, u)
    requires var st' := Apply(c, st, Go(t));
             && Shape(c, st') && Live(c, st', x) == Live(c, st, x) && Live(c, st', u) == Live(c, st, u)
             && st'.threads[x].s == st.threads[x].s && st'.threads[u].s == st.threads[u].s
    ensures PairOk(c, Apply(c, st, Go(t)), x, u)
  {
    if x != u && Live(c, st, x) && Live(c, st, u) && st.threads[x].s == st.threads[u].s {
      if Fading(c, st, x, u) {
        GoFading(c, st, t, x, u);
      } else {
        GoFading(c, st, t, u, x);
      }
    }
  }

  lemma GoKeepsInv(c: Layout, st: State, t: nat)
    requires Inv(c, st) && Enabled(c, st, Go(t))
    ensures Inv(c, Apply(c, st, Go(t)))
  {
    var st' := Apply(c, st, Go(t));
    GoShape(c, st, t);
    forall u | 0 <= u < c.threads
      ensures ThreadInv(c, st', u) && Live(c, st', u) == Live(c, st, u) && st'.threads[u].s == st.threads[u].s
    {
      GoThread(c, st, t, u);
    }
    forall u | 0 <= u < c.threads
      ensures PendingOk(c, st', u)
    {
      assert PendingOk(c, st, u);
      GoPending(c, st, t, u);
    }
    forall x, u | 0 <= x < c.threads && 0 <= u < c.threads
      ensures PairOk(c, st', x, u)
    {
      assert PairOk(c, st, x, u);
      GoPair(c, st, t, x, u);
    }
    forall s | 0 <= s < c.subs
      ensures SId(RowAt(st'.vol, c.RowAddr(s))) == s
      ensures Quiet(c, st', s) ==> RowIs(c, st', s, RowAt(st'.vol, c.RowAddr(s)))
    {
      assert Quiet(c, st', s) ==> Quiet(c, st, s);
      GoTable(c, st, t, s);
    }
  }

  /** Where thread `u` may take the mutex of `s`: every live log about `s` has its discard
      stored, and `u` itself will push it out in time. */
  ghost predicate Careful(c: Layout, st: State, u: nat, s: nat)
    requires Shape(c, st) && u < c.threads
  {
    forall x :: 0 <= x < c.threads && Live(c, st, x) && st.threads[x].s == s ==>
      Discarding(st.threads[x]) && FlushesFirst(c, x, u)
  }

  /** The row about to be locked is durable as it stands. */
  lemma CarefulRow(c: Layout, st: State, u: nat, s: nat)
    requires Inv(c, st) && u < c.threads && s < c.subs && Careful(c, st, u, s)
    ensures RowIs(c, st, s, RowAt(st.vol, c.RowAddr(s)))
  {
    if x: nat :| x < c.threads && Live(c, st, x) && st.threads[x].s == s {
      assert ThreadInv(c, st, x);
    } else {
      assert Quiet(c, st, s);
    }
  }

  /** Thread `t` has just taken the mutex of `s`. */
  ghost predicate Begins(c: Layout, st: State, st': State, t: nat, s: nat)
    requires Shape(c, st) && Shape(c, st') && t < c.threads && s < c.subs
  {
    && st'.vol == st.vol && st'.dur == st.dur && st'.pending == st.pending
    && st.threads[t].pc == Idle && st.owner[s] == FREE
    && st'.owner == st.owner[s := t] && st'.threads == st.threads[t := st'.threads[t]]
    && st'.threads[t].pc == Copying && st'.threads[t].s == s && st'.threads[t].copied == 0
    && st'.threads[t].pre == RowAt(st.vol, c.RowAddr(s))
  }

  lemma BeginOthers(c: Layout, st: State, st': State, t: nat, s: nat, u: nat)
    requires Shape(c, st) && Shape(c, st') && t < c.threads && s < c.subs && Begins(c, st, st', t, s)
    requires u < c.threads && u != t && ThreadInv(c, st, u)
    ensures ThreadInv(c, st', u) && Live(c, st', u) == Live(c, st, u) && st'.threads[u] == st.threads[u]
  {
    assert HoldsMutex(st.threads[u].pc) ==> st.threads[u].s != s;
    SameKeeps(c, st, st', u);
  }

  lemma BeginOwn(c: Layout, st: State, st': State, t: nat, s: nat)
    requires Inv(c, st) && Shape(c, st') && t < c.threads && s < c.subs && Begins(c, st, st', t, s) &&
             Careful(c, st, t, s)
    ensures ThreadInv(c, st', t)
  {
    assert ThreadInv(c, st, t);
    CarefulRow(c, st, t, s);
  }

  lemma BeginPair(c: Layout, st: State, st': State, t: nat, s: nat, x: nat, u: nat)
    requires Inv(c, st) && Shape(c, st') && t < c.threads && s < c.subs && Begins(c, st, st', t, s) &&
             Careful(c, st, t, s)
    requires x < c.threads && u < c.threads
    ensures PairOk(c, st', x, u)
  {
    assert PairOk(c, st, x, u);
    assert forall y :: 0 <= y < c.threads && y != t ==> Live(c, st', y) == Live(c, st, y);
  }

  lemma BeginRows(c: Layout, st: State, st': State, t: nat, s: nat, r: nat)
    requires Inv(c, st) && Shape(c, st') && t < c.threads && s < c.subs && Begins(c, st, st', t, s) && r < c.subs &&
             Quiet(c, st', r)
    ensures RowIs(c, st', r, RowAt(st'.vol, c.RowAddr(r)))
  {
    assert !Live(c, st, t);
    assert forall y :: 0 <= y < c.threads && y != t ==> Live(c, st', y) == Live(c, st, y);
    assert Quiet(c, st, r);
  }

  /** Taking a mutex with care keeps the invariant. */
  lemma BeginKeepsInv(c: Layout, st: State, t: nat, s: nat, vlr: nat)
    requires Inv(c, st) && Enabled(c, st, Begin(t, s, vlr)) && Careful(c, st, t, s)
    ensures Inv(c, Apply(c, st, Begin(t, s, vlr)))
  {
    BegunKeepsInv(c, st, Apply(c, st, Begin(t, s, vlr)), t, s);
  }

  lemma BegunKeepsInv(c: Layout, st: State, st': State, t: nat, s: nat)
    requires Inv(c, st) && Shape(c, st') && t < c.threads && s < c.subs && Begins(c, st, st', t, s) &&
             Careful(c, st, t, s)
    ensures Inv(c, st')
  {
    forall u | 0 <= u < c.threads
      ensures ThreadInv(c, st', u)
    {
      assert ThreadInv(c, st, u);
      if u == t { BeginOwn(c, st, st', t, s); } else { BeginOthers(c, st, st', t, s, u); }
    }
    forall u | 0 <= u < c.threads
      ensures PendingOk(c, st', u)
    {
      assert PendingOk(c, st, u);
    }
    forall x, u | 0 <= x < c.threads && 0 <= u < c.threads
      ensures PairOk(c, st', x, u)
    {
      BeginPair(c, st, st', t, s, x, u);
    }
    forall r | 0 <= r < c.subs && Quiet(c, st', r)
      ensures RowIs(c, st', r, RowAt(st'.vol, c.RowAddr(r)))
    {
      BeginRows(c, st, st', t, s, r);
    }
  }

  lemma EvictRow(st: State, line: nat, at: nat)
    requires |st.vol| == |st.dur| && at + ROW <= |st.vol| && RowAt(st.vol, at) == RowAt(st.dur, at)
    ensures RowAt(WriteBack(st.dur, st.vol, PER_LINE, line), at) == RowAt(st.dur, at)
  {
    RowEq(st.vol, st.dur, at);
  }

  ghost predicate Evicts(c: Layout, st: State, st': State, line: nat)
    requires Shape(c, st) && Shape(c, st')
  {
    && st'.vol == st.vol && st'.threads == st.threads && st'.owner == st.owner
    && st'.dur == WriteBack(st.dur, st.vol, PER_LINE, line)
    && forall u :: 0 <= u < c.threads ==> st'.pending[u] == st.pending[u] - {line}
  }

  lemma EvictCovered(c: Layout, st: State, st': State, line: nat, u: nat, a: nat, n: nat)
    requires Shape(c, st) && Shape(c, st') && Evicts(c, st, st', line) && u < c.threads && a + n <= c.total
    requires CoveredBy(st, u, a, n)
    ensures CoveredBy(st', u, a, n)
  {}

  lemma EvictedThread(c: Layout, st: State, st': State, line: nat, u: nat)
    requires Shape(c, st) && Shape(c, st') && Evicts(c, st, st', line) && u < c.threads && ThreadInv(c, st, u)
    ensures ThreadInv(c, st', u) && (Live(c, st', u) ==> Live(c, st, u))
  {
    var th := st.threads[u];
    if RowAt(st.vol, c.LogAddr(u)) == RowAt(st.dur, c.LogAddr(u)) {
      EvictRow(st, line, c.LogAddr(u));
    }
    if th.pc != Idle && RowAt(st.vol, c.RowAddr(th.s)) == RowAt(st.dur, c.RowAddr(th.s)) {
      EvictRow(st, line, c.RowAddr(th.s));
    }
    if th.pc == LogFlushed {
      EvictCovered(c, st, st', line, u, c.LogAddr(u), ROW);
    } else if th.pc == UpdateFlushed {
      EvictCovered(c, st, st', line, u, c.RowAddr(th.s), ROW);
    } else if th.pc == MarkFlushed || th.pc == UnmarkFlushed {
      EvictCovered(c, st, st', line, u, c.ValidAddr(u), 1);
    }
  }

  lemma EvictThread(c: Layout, st: State, line: nat, u: nat)
    requires Shape(c, st) && u < c.threads && ThreadInv(c, st, u)
    ensures var st' := Apply(c, st, Evict(line));
            Shape(c, st') && ThreadInv(c, st', u) && (Live(c, st', u) ==> Live(c, st, u))
  {
    EvictedThread(c, st, Apply(c, st, Evict(line)), line, u);
  }

  /** A discard that is on its way stays so, unless it arrives. */
  lemma EvictPair(c: Layout, st: State, line: nat, x: nat, u: nat)
    requires Shape(c, st) && x < c.threads && u < c.threads && PairOk(c, st, x, u) && ThreadInv(c, st, x) &&
             ThreadInv(c, st, u)
    requires var st' := Apply(c, st, Evict(line));
             Shape(c, st') && (Live(c, st', x) ==> Live(c, st, x)) && (Live(c, st', u) ==> Live(c, st, u))
    ensures PairOk(c, Apply(c, st, Evict(line)), x, u)
  {}

  /** An early write-back keeps the invariant; it may end a finished update's log. */
  lemma EvictKeepsInv(c: Layout, st: State, line: nat)
    requires Inv(c, st)
    ensures Inv(c, Apply(c, st, Evict(line)))
  {
    var st' := Apply(c, st, Evict(line));
    forall u | 0 <= u < c.threads
      ensures ThreadInv(c, st', u) && (Live(c, st', u) ==> Live(c, st, u))
    {
      assert ThreadInv(c, st, u);
      EvictThread(c, st, line, u);
    }
    forall u | 0 <= u < c.threads
      ensures PendingOk(c, st', u)
    {
      assert PendingOk(c, st, u);
    }
    forall x, u | 0 <= x < c.threads && 0 <= u < c.threads
      ensures PairOk(c, st', x, u)
    {
      assert PairOk(c, st, x, u) && ThreadInv(c, st, x) && ThreadInv(c, st, u);
      EvictPair(c, st, line, x, u);
    }
    forall s | 0 <= s < c.subs && Quiet(c, st', s)
      ensures RowIs(c, st', s, RowAt(st'.vol, c.RowAddr(s)))
    {
      EvictQuiet(c, st, line, s);
    }
  }

  lemma EvictQuiet(c: Layout, st: State, line: nat, s: nat)
    requires Inv(c, st) && s < c.subs && Quiet(c, Apply(c, st, Evict(line)), s)
    ensures RowIs(c, Apply(c, st, Evict(line)), s, RowAt(st.vol, c.RowAddr(s)))
  {
    if u: nat :| u < c.threads && Live(c, st, u) && st.threads[u].s == s {
      assert ThreadInv(c, st, u);
      assert !Live(c, Apply(c, st, Evict(line)), u);
    } else {
      assert Quiet(c, st, s);
    }
    EvictRow(st, line, c.RowAddr(s));
  }

  // ------------------------------------------------------------------- recovery

  lemma FlagMeansLog(c: Layout, st: State, t: nat)
    requires Shape(c, st) && t < c.threads && ThreadInv(c, st, t) && st.dur[c.ValidAddr(t)] != 0
    ensures Live(c, st, t) && LogIs(c, st, t) && SId(st.threads[t].pre) == st.threads[t].s
    ensures var th := st.threads[t];
            RowAt(st.vol, c.RowAddr(th.s)) == th.pre || RowAt(st.vol, c.RowAddr(th.s)) == Post(th)
  {}

  /** Recovery puts back the saved row of the one thread with a live, durable log for `s`. */
  lemma {:induction false} RecoverRow(c: Layout, st: State, order: seq<nat>, s: nat)
    requires Inv(c, st) && s < c.subs && forall k :: 0 <= k < |order| ==> order[k] < c.threads
    ensures var r := Recover(c, st.dur, order, Table(c, st.dur))[s];
            || (exists t :: t in order && t < c.threads && st.dur[c.ValidAddr(t)] != 0
                  && st.threads[t].s == s && r == st.threads[t].pre)
            || ((forall t :: t in order && t < c.threads && st.dur[c.ValidAddr(t)] != 0 ==> st.threads[t].s != s)
                && r == RowAt(st.dur, c.RowAddr(s)))
    decreases |order|
  {
    if order != [] {
      var rest, t := order[..|order| - 1], order[|order| - 1];
      assert order == rest + [t];
      RecoverRow(c, st, rest, s);
      assert ThreadInv(c, st, t);
      if st.dur[c.ValidAddr(t)] != 0 {
        FlagMeansLog(c, st, t);
      }
    }
  }

  lemma InvRecovers(c: Layout, st: State)
    requires Inv(c, st)
    ensures Recoverable(c, st)
  {
    forall order: seq<nat>, s | Complete(c, order) && 0 <= s < c.subs
      ensures Acceptable(c, st, s, Recover(c, st.dur, order, Table(c, st.dur))[s])
    {
      RecoverRow(c, st, order, s);
      var r := Recover(c, st.dur, order, Table(c, st.dur))[s];
      if t: nat :|
        && t in order && t < c.threads && st.dur[c.ValidAddr(t)] != 0
        && st.threads[t].s == s && r == st.threads[t].pre
      {
        assert ThreadInv(c, st, t);
        FlagMeansLog(c, st, t);
      } else if t: nat :| t < c.threads && Live(c, st, t) && st.threads[t].s == s {
        assert ThreadInv(c, st, t);
      } else {
        assert Quiet(c, st, s);
      }
    }
  }

  // ----------------------------------------------------------------- whole runs

  ghost predicate Initial(c: Layout, st: State) {
    && Shape(c, st)
    && (forall t :: 0 <= t < c.threads ==> st.threads[t].pc == Idle && Flag(c, st, t, 0, 0) && st.pending[t] == {})
    && (forall s :: 0 <= s < c.subs ==> st.owner[s] == FREE)
    && (forall s :: 0 <= s < c.subs ==>
          RowIs(c, st, s, RowAt(st.vol, c.RowAddr(s))) && SId(RowAt(st.vol, c.RowAddr(s))) == s)
  }

  /** Every action is one the code can take next. */
  ghost predicate Executes(c: Layout, st: State, acts: seq<Action>)
    decreases |acts|
  {
    Shape(c, st) && (acts != [] ==> Enabled(c, st, acts[0]) && Executes(c, Apply(c, st, acts[0]), acts[1..]))
  }

  ghost function Final(c: Layout, st: State, acts: seq<Action>): (r: State)
    requires Executes(c, st, acts)
    ensures Shape(c, r)
    decreases |acts|
  {
    if acts == [] then st else Final(c, Apply(c, st, acts[0]), acts[1..])
  }

  /** No mutex is taken again before its previous holder's discard is durable, or at least
      bound to be before the next update. */
  ghost predicate Disciplined(c: Layout, st: State, acts: seq<Action>)
    requires Executes(c, st, acts)
    decreases |acts|
  {
    acts != [] ==>
      && (acts[0].Begin? ==> Careful(c, st, acts[0].t, acts[0].s))
      && Disciplined(c, Apply(c, st, acts[0]), acts[1..])
  }

  lemma {:induction false} RunKeepsInv(c: Layout, st: State, acts: seq<Action>)
    requires Inv(c, st) && Executes(c, st, acts) && Disciplined(c, st, acts)
    ensures Inv(c, Final(c, st, acts))
    decreases |acts|
  {
    if acts != [] {
      match acts[0] {
        case Begin(t, s, vlr) => BeginKeepsInv(c, st, t, s, vlr);
        case Go(t) => GoKeepsInv(c, st, t);
        case Evict(line) => EvictKeepsInv(c, st, line);
      }
      RunKeepsInv(c, Apply(c, st, acts[0]), acts[1..]);
    }
  }

  /** Any number of threads, any interleaving, any write-backs, a crash anywhere: as long
      as the discipline is kept, recovery in any order finds every subscriber at its last
      finished update, or differing from it by the one update in flight. */
  lemma DisciplinedRunsRecover(c: Layout, st: State, acts: seq<Action>)
    requires Initial(c, st) && Executes(c, st, acts) && Disciplined(c, st, acts)
    ensures Recoverable(c, Final(c, st, acts))
  {
    RunKeepsInv(c, st, acts);
    InvRecovers(c, Final(c, st, acts));
  }
}

/** Which listings of connections can be bound in some order: those whose connections do
    not wait for each other in a cycle. */
module PortDeadlocks {
  import opened Cycles
  import opened PortPass
  import opened PortSchedules
  import opened Wrappers

  predicate Earlier(p: Port, q: Port) {
    p.Vector() == q.Vector() && p.index < q.index
  }

  /** `d` has a port that must be bound before one of `c`. */
  predicate Waits(c: Connection, d: Connection) {
    Earlier(d.from, c.from) || Earlier(d.from, c.to) || Earlier(d.to, c.from) || Earlier(d.to, c.to)
  }

  /** Every port is in one connection. */
  predicate PortsOnce(connections: seq<Connection>) {
    forall i, j :: 0 <= i < |connections| && 0 <= j < |connections| && connections[i].from == connections[j].from ==>
      i == j
  }

  /** Every vector is used from 0 on without gaps. */
  ghost predicate NoGaps(connections: seq<Connection>) {
    forall c, j: nat :: c in connections && j < c.from.index ==> Listed(connections, PortOf(c.from.Vector(), j))
  }

  ghost predicate Listed(connections: seq<Connection>, p: Port) {
    exists i :: 0 <= i < |connections| && connections[i].from == p
  }

  /** Connections waiting for each other all the way round. */
  ghost predicate Deadlock(connections: seq<Connection>, c: seq<Connection>) {
    Cycle((a: Connection, b: Connection) => Waits(a, b), c) && forall i :: 0 <= i < |c| ==> c[i] in connections
  }

  /** Some order of the connections lets all of them be bound. */
  ghost predicate Bindable(connections: seq<Connection>) {
    exists order, made :: multiset(order) == multiset(connections) && Schedule(connections, order, made)
  }

  lemma MadeOf(connections: seq<Connection>, made: seq<Connection>, c: Connection) returns (i: nat)
    requires Symmetric(connections) && OneEach(connections, made) && c in connections
    ensures i < |made| && (made[i] == c || made[i] == Reverse(c))
  {
    var d := if c in made then c else Reverse(c);
    i :| 0 <= i < |made| && made[i] == d;
  }

  lemma ScheduledOnce(connections: seq<Connection>, made: seq<Connection>)
    requires Listing(connections) && OneEach(connections, made) && AllApart(made)
    ensures PortsOnce(connections)
  {
    forall i, j | 0 <= i < |connections| && 0 <= j < |connections| && connections[i].from == connections[j].from
      ensures i == j
    {
      var c, d := connections[i], connections[j];
      var a := MadeOf(connections, made, c);
      var b := MadeOf(connections, made, d);
      SamePort(made, made[a], made[b], c.from);
      assert c == d;
    }
  }

  lemma UsedListed(connections: seq<Connection>, made: seq<Connection>, p: Port)
    requires Symmetric(connections) && (forall c :: c in made ==> c in connections) && Used(made, p)
    ensures Listed(connections, p)
  {
    var i :| 0 <= i < |made| && HasPort(made[i], p);
    var d := if made[i].from == p then made[i] else Reverse(made[i]);
    assert made[i] in connections && d in connections;
    var k :| 0 <= k < |connections| && connections[k] == d;
    assert connections[k].from == p;
  }

  lemma ScheduledNoGaps(connections: seq<Connection>, made: seq<Connection>, next: map<Name, nat>)
    requires Listing(connections) && OneEach(connections, made) && InOrder(made, next)
    ensures NoGaps(connections)
  {
    forall c, j: nat | c in connections && j < c.from.index
      ensures Listed(connections, PortOf(c.from.Vector(), j))
    {
      var i := MadeOf(connections, made, c);
      assert Below(made[i].from, next) && Below(made[i].to, next);
      UsedIffBelow(made, next, PortOf(c.from.Vector(), j));
      UsedListed(connections, made, PortOf(c.from.Vector(), j));
    }
  }

  /** In a schedule the one that is waited for comes first. */
  lemma WaitsLater(made: seq<Connection>, i: nat, j: nat, p: Port, q: Port)
    requires InTurn(made) && i < |made| && j < |made| && HasPort(made[i], p) && HasPort(made[j], q) && Earlier(q, p)
    ensures j < i
  {
    var n := p.Vector();
    TurnOfPrefix(made, made[..i + 1]);
    TurnOfPrefix(made, made[..j + 1]);
    IndexAt(made, i, p);
    IndexAt(made, j, q);
    if i < j {
      IndicesGrow(made, n, i + 1, j);
    }
  }

  lemma IndexAt(made: seq<Connection>, i: nat, p: Port)
    requires i < |made| && InTurn(made[..i + 1]) && HasPort(made[i], p)
    ensures p.index == |Indices(made[..i], p.Vector())| && |Indices(made[..i + 1], p.Vector())| == p.index + 1
  {
    var n := p.Vector();
    assert made[..i + 1] == made[..i] + [made[i]] && made[..i + 1][i] == made[i];
    IndicesNext(made[..i], made[i], n);
    assert Indices(made[..i + 1], n)[|Indices(made[..i], n)|] == p.index;
  }

  lemma {:induction false} IndicesGrow(made: seq<Connection>, n: Name, i: nat, j: nat)
    requires i <= j <= |made|
    ensures |Indices(made[..i], n)| <= |Indices(made[..j], n)|
    decreases j
  {
    if i < j {
      IndicesGrow(made, n, i, j - 1);
      assert made[..j][..j - 1] == made[..j - 1];
    }
  }

  lemma WaitsBack(connections: seq<Connection>, made: seq<Connection>, c: Connection, i: nat, d: Connection)
    returns (j: nat)
    requires Listing(connections) && OneEach(connections, made) && InTurn(made)
    requires i < |made| && (made[i] == c || made[i] == Reverse(c)) && d in connections && Waits(c, d)
    ensures j < i && (made[j] == d || made[j] == Reverse(d))
  {
    j := MadeOf(connections, made, d);
    if Earlier(d.from, c.from) {
      WaitsLater(made, i, j, c.from, d.from);
    } else if Earlier(d.from, c.to) {
      WaitsLater(made, i, j, c.to, d.from);
    } else if Earlier(d.to, c.from) {
      WaitsLater(made, i, j, c.from, d.to);
    } else {
      WaitsLater(made, i, j, c.to, d.to);
    }
  }

  lemma {:induction false} NoDeadlock(connections: seq<Connection>, made: seq<Connection>, cycle: seq<Connection>,
                                      k: nat, i: nat)
    requires Listing(connections) && OneEach(connections, made) && InTurn(made) && k < |cycle|
    requires i < |made| && (made[i] == cycle[k] || made[i] == Reverse(cycle[k]))
    ensures !Deadlock(connections, cycle)
    decreases i
  {
    if Deadlock(connections, cycle) {
      var next := if k + 1 < |cycle| then k + 1 else 0;
      assert Waits(cycle[k], cycle[next]);
      var j := WaitsBack(connections, made, cycle[k], i, cycle[next]);
      NoDeadlock(connections, made, cycle, next, j);
    }
  }

  lemma ScheduledNoDeadlock(connections: seq<Connection>, made: seq<Connection>, cycle: seq<Connection>)
    requires Listing(connections) && OneEach(connections, made) && InTurn(made)
    ensures !Deadlock(connections, cycle)
  {
    if Deadlock(connections, cycle) {
      var i := MadeOf(connections, made, cycle[0]);
      NoDeadlock(connections, made, cycle, 0, i);
    }
  }

  // ------------------------------------------------------------- making a schedule

  /** Bound so far, each in its turn. */
  ghost predicate Underway(connections: seq<Connection>, made: seq<Connection>, next: map<Name, nat>) {
    && (forall c :: c in made ==> c in connections)
    && InOrder(made, next) && AllApart(made) && next.Keys == Vectors(connections)
    && forall i :: 0 <= i < |made| ==> made[i].from.Vector() != made[i].to.Vector()
  }

  ghost function Left(connections: seq<Connection>, made: seq<Connection>): (r: set<Connection>) {
    set c | c in connections && !BoundIn(made, c)
  }

  lemma BoundBelow(made: seq<Connection>, next: map<Name, nat>, d: Connection)
    requires InOrder(made, next) && BoundIn(made, d)
    ensures Below(d.from, next)
  {
    var e := if d in made then d else Reverse(d);
    var i :| 0 <= i < |made| && made[i] == e;
    assert Below(made[i].from, next) && Below(made[i].to, next);
  }

  /** A listed connection whose port was bound is bound. */
  lemma PassedBound(connections: seq<Connection>, made: seq<Connection>, next: map<Name, nat>, e: Connection)
    requires Listing(connections) && PortsOnce(connections) && Underway(connections, made, next)
    requires e in connections && Below(e.from, next)
    ensures BoundIn(made, e)
  {
    var p := e.from;
    UsedIffBelow(made, next, p);
    var i :| 0 <= i < |made| && HasPort(made[i], p);
    var d := if made[i].from == p then made[i] else Reverse(made[i]);
    assert made[i] in connections && d in connections;
    var a :| 0 <= a < |connections| && connections[a] == d;
    var b :| 0 <= b < |connections| && connections[b] == e;
    assert a == b && Reverse(Reverse(made[i])) == made[i];
  }

  /** A connection one of whose ports has to wait: so has the one it waits for. */
  lemma WaitsForLeft(connections: seq<Connection>, made: seq<Connection>, next: map<Name, nat>, c: Connection, p: Port)
    returns (d: Connection)
    requires Listing(connections) && PortsOnce(connections) && NoGaps(connections) && Underway(connections, made, next)
    requires c in Left(connections, made) && HasPort(c, p) && !Next(p, next)
    ensures d in Left(connections, made) && Waits(c, d)
  {
    var e := if c.from == p then c else Reverse(c);
    var n := p.Vector();
    assert Reverse(c) in connections && Reverse(Reverse(c)) == c;
    assert e in connections && e.from == p && n in next && !BoundIn(made, e);
    assert next[n] < p.index by {
      if Below(p, next) { PassedBound(connections, made, next, e); }
    }
    assert Listed(connections, PortOf(n, next[n]));
    var k :| 0 <= k < |connections| && connections[k].from == PortOf(n, next[n]);
    d := connections[k];
    if BoundIn(made, d) { BoundBelow(made, next, d); }
  }

  /** If no more can be bound, connections wait for each other in a cycle. */
  lemma StuckDeadlocks(connections: seq<Connection>, made: seq<Connection>, next: map<Name, nat>)
    returns (cycle: seq<Connection>)
    requires Listing(connections) && PortsOnce(connections) && NoGaps(connections) && Underway(connections, made, next)
    requires Left(connections, made) != {}
    requires forall c :: c in Left(connections, made) ==> !(Next(c.from, next) && Next(c.to, next))
    ensures Deadlock(connections, cycle)
  {
    var left, R := Left(connections, made), (a: Connection, b: Connection) => Waits(a, b);
    forall c | c in left
      ensures GoesOn(R, left, c)
    {
      var d := WaitsForLeft(connections, made, next, c, if Next(c.from, next) then c.to else c.from);
      assert R(c, d);
    }
    cycle := GoingCycles(R, left);
  }

  lemma OneMoreBound(connections: seq<Connection>, made: seq<Connection>, next: map<Name, nat>, c: Connection)
    requires Listing(connections) && Underway(connections, made, next)
    requires c in Left(connections, made) && Next(c.from, next) && Next(c.to, next)
    ensures Underway(connections, made + [c], Advance(c, next))
    ensures Left(connections, made + [c]) < Left(connections, made)
  {
    var k :| 0 <= k < |connections| && connections[k] == c;
    AdvanceOrder(made, next, c);
    AdvanceApart(made, next, c);
    forall d | d in Left(connections, made + [c])
      ensures d in Left(connections, made)
    {
      assert !BoundIn(made, d);
    }
    assert c !in Left(connections, made + [c]);
  }

  /** Binding whatever can be bound ends with everything bound. */
  lemma {:induction false} BindAll(connections: seq<Connection>, made: seq<Connection>, next: map<Name, nat>)
    returns (full: seq<Connection>, last: map<Name, nat>)
    requires Listing(connections) && PortsOnce(connections) && NoGaps(connections) && Underway(connections, made, next)
    requires forall cycle :: !Deadlock(connections, cycle)
    ensures Underway(connections, full, last) && Left(connections, full) == {}
    decreases Left(connections, made)
  {
    full, last := made, next;
    if Left(connections, made) != {} {
      if c :| c in Left(connections, made) && Next(c.from, next) && Next(c.to, next) {
        OneMoreBound(connections, made, next, c);
        full, last := BindAll(connections, made + [c], Advance(c, next));
      } else {
        var cycle := StuckDeadlocks(connections, made, next);
      }
    }
  }

  lemma AllIsOneEach(connections: seq<Connection>, full: seq<Connection>, last: map<Name, nat>)
    requires Listing(connections) && Underway(connections, full, last) && Left(connections, full) == {}
    ensures OneEach(connections, full) && InTurn(full)
  {
    InOrderInTurn(full, last);
    forall i, j | 0 <= i < j < |full|
      ensures full[i] != full[j]
    {
      assert Apart(full[i], full[j]);
    }
    forall c | c in connections
      ensures c in full <==> Reverse(c) !in full
    {
      assert c !in Left(connections, full);
      if c in full { NeverBoth(connections, full, c); }
    }
  }

  lemma {:induction false} SubsequencePrefix<T>(s: seq<T>, t: seq<T>)
    ensures Subsequence(s, s + t)
    decreases |s| + |t|
  {
    if t != [] {
      assert (s + t)[..|s + t| - 1] == s + t[..|t| - 1];
      SubsequencePrefix(s, t[..|t| - 1]);
    } else if s != [] {
      assert s + t == s && s[..|s| - 1] + [] == s[..|s| - 1];
      SubsequencePrefix(s[..|s| - 1], []);
    }
  }

  lemma {:induction false} DistinctCounts<T>(s: seq<T>, x: T)
    requires Distinct(s)
    ensures multiset(s)[x] == if x in s then 1 else 0
    decreases |s|
  {
    if s != [] {
      var rest, last := s[..|s| - 1], s[|s| - 1];
      assert s == rest + [last];
      DistinctCounts(rest, x);
    }
  }

  lemma BothWays(connections: seq<Connection>, made: seq<Connection>)
    requires Listing(connections) && OneEach(connections, made)
    ensures multiset(made + Reverses(made)) == multiset(connections)
  {
    var back := Reverses(made);
    ReversesDistinct(made);
    BothHalves(connections, made);
    forall c
      ensures multiset(made + back)[c] == multiset(connections)[c]
    {
      assert multiset(made + back) == multiset(made) + multiset(back);
      DistinctCounts(made, c);
      DistinctCounts(back, c);
      DistinctCounts(connections, c);
    }
  }

  lemma NothingYet(connections: seq<Connection>)
    ensures Underway(connections, [], Zeros(connections))
  {}

  lemma TurnBindable(connections: seq<Connection>, made: seq<Connection>)
    requires Listing(connections) && OneEach(connections, made) && InTurn(made)
    ensures Bindable(connections)
  {
    BothWays(connections, made);
    SubsequencePrefix(made, Reverses(made));
    assert Schedule(connections, made + Reverses(made), made);
  }

  lemma NoDeadlockBinds(connections: seq<Connection>)
    requires Listing(connections) && PortsOnce(connections) && NoGaps(connections)
    requires forall cycle :: !Deadlock(connections, cycle)
    ensures Bindable(connections)
  {
    NothingYet(connections);
    var made, last := BindAll(connections, [], Zeros(connections));
    AllIsOneEach(connections, made, last);
    TurnBindable(connections, made);
  }

  lemma BindableNeeds(connections: seq<Connection>, made: seq<Connection>)
    requires Listing(connections) && OneEach(connections, made) && InTurn(made)
    ensures PortsOnce(connections) && NoGaps(connections) && forall cycle :: !Deadlock(connections, cycle)
  {
    var start := Zeros(connections);
    ZerosKnown(connections, made);
    TurnPasses(start, made);
    PassInOrder(start, made);
    ScheduledOnce(connections, made);
    ScheduledNoGaps(connections, made, Pass(start, made).1);
    forall cycle
      ensures !Deadlock(connections, cycle)
    {
      ScheduledNoDeadlock(connections, made, cycle);
    }
  }

  /** When sorting can help at all: some order lets `bind_ports` bind everything if and only
      if every port is in one connection, no vector has gaps, and no connections wait for
      each other in a cycle. */
  lemma BindableIff(connections: seq<Connection>)
    requires Listing(connections)
    ensures Bindable(connections) <==>
            PortsOnce(connections) && NoGaps(connections) && forall cycle :: !Deadlock(connections, cycle)
  {
    if order, made :| multiset(order) == multiset(connections) && Schedule(connections, order, made) {
      BindableNeeds(connections, made);
    }
    if PortsOnce(connections) && NoGaps(connections) && forall cycle :: !Deadlock(connections, cycle) {
      NoDeadlockBinds(connections);
    }
  }
}

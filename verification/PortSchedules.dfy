/** The greedy pass is exact: it binds every connection if and only if some choice of
    orientations in the given order could. */
module PortSchedules {
  import opened PortPass
  import opened Wrappers

  ghost predicate Subsequence<T>(s: seq<T>, t: seq<T>)
    decreases |t|
  {
    if t == [] then s == []
    else
      var rest := t[..|t| - 1];
      Subsequence(s, rest) || (s != [] && s[|s| - 1] == t[|t| - 1] && Subsequence(s[..|s| - 1], rest))
  }

  /** Every vector's ports come in index order from 0, and no connection joins two ports of
      one vector. */
  ghost predicate InTurn(made: seq<Connection>) {
    && (forall n: Name :: Indices(made, n) == Upto(|Indices(made, n)|))
    && forall i :: 0 <= i < |made| ==> made[i].from.Vector() != made[i].to.Vector()
  }

  /** One orientation of each connection. */
  ghost predicate OneEach(connections: seq<Connection>, made: seq<Connection>) {
    && Distinct(made) && (forall c :: c in made ==> c in connections)
    && forall c :: c in connections ==> (c in made <==> Reverse(c) !in made)
  }

  /** A way to bind all connections in the given order. */
  ghost predicate Schedule(connections: seq<Connection>, order: seq<Connection>, made: seq<Connection>) {
    Subsequence(made, order) && OneEach(connections, made) && InTurn(made)
  }

  lemma {:induction false} PassPicks(start: map<Name, nat>, order: seq<Connection>)
    ensures Subsequence(Pass(start, order).0, order) && Pass(start, order).1.Keys == start.Keys
    decreases |order|
  {
    if order != [] {
      var rest := order[..|order| - 1];
      PassPicks(start, rest);
      var made := Pass(start, rest).0;
      assert (made + [order[|order| - 1]])[..|made|] == made;
    }
  }

  /** What a pass has bound stays bound. */
  lemma PassKeeps(start: map<Name, nat>, order: seq<Connection>)
    requires order != []
    ensures Pass(start, order[..|order| - 1]).0 <= Pass(start, order).0
  {}

  ghost predicate Known(start: map<Name, nat>, s: seq<Connection>) {
    forall i :: 0 <= i < |s| ==> s[i].from.Vector() in start && s[i].to.Vector() in start && s[i].from != s[i].to
  }

  lemma ZerosKnown(connections: seq<Connection>, s: seq<Connection>)
    requires Symmetric(connections) && NoLoops(connections) && forall c :: c in s ==> c in connections
    ensures Known(Zeros(connections), s)
  {
    forall i | 0 <= i < |s|
      ensures s[i].from.Vector() in Zeros(connections) && s[i].to.Vector() in Zeros(connections) && s[i].from != s[i].to
    {
      assert s[i] in connections;
      Reversed(connections, s[i]);
    }
  }

  ghost predicate AllZero(start: map<Name, nat>) {
    forall n :: n in start ==> start[n] == 0
  }

  /** The pass keeps its indices in step with what it has bound. */
  lemma {:induction false} PassInOrder(start: map<Name, nat>, order: seq<Connection>)
    requires AllZero(start) && Known(start, order)
    ensures var (made, next) := Pass(start, order);
            && InOrder(made, next) && AllApart(made)
            && forall i :: 0 <= i < |made| ==> made[i].from.Vector() != made[i].to.Vector()
    decreases |order|
  {
    if order != [] {
      var rest, c := order[..|order| - 1], order[|order| - 1];
      PassInOrder(start, rest);
      PassPicks(start, rest);
      var (made, next) := Pass(start, rest);
      if Next(c.from, next) && Next(c.to, next) {
        AdvanceOrder(made, next, c);
        AdvanceApart(made, next, c);
      }
    }
  }

  lemma {:induction false} NoIndices(made: seq<Connection>, n: Name)
    requires forall i :: 0 <= i < |made| ==> made[i].from.Vector() != n && made[i].to.Vector() != n
    ensures Indices(made, n) == []
    decreases |made|
  {
    if made != [] { NoIndices(made[..|made| - 1], n); }
  }

  lemma InOrderInTurn(made: seq<Connection>, next: map<Name, nat>)
    requires InOrder(made, next) && forall i :: 0 <= i < |made| ==> made[i].from.Vector() != made[i].to.Vector()
    ensures InTurn(made)
  {
    forall n: Name
      ensures Indices(made, n) == Upto(|Indices(made, n)|)
    {
      if n !in next {
        forall i | 0 <= i < |made|
          ensures made[i].from.Vector() != n && made[i].to.Vector() != n
        {
          assert Below(made[i].from, next) && Below(made[i].to, next);
        }
        NoIndices(made, n);
      }
    }
  }

  /** Whose turn it is, counted on what was bound. */
  lemma TurnNext(made: seq<Connection>, next: map<Name, nat>, c: Connection, p: Port)
    requires InOrder(made, next) && InTurn(made + [c]) && (p == c.from || p == c.to) && p.Vector() in next
    ensures Next(p, next)
  {
    var n := p.Vector();
    assert (made + [c])[|made|] == c;
    IndicesNext(made, c, n);
    assert Indices(made + [c], n)[next[n]] == p.index;
  }

  lemma TurnPrefix(made: seq<Connection>, c: Connection)
    requires InTurn(made + [c])
    ensures InTurn(made)
  {
    assert (made + [c])[|made|] == c;
    forall n: Name
      ensures Indices(made, n) == Upto(|Indices(made, n)|)
    {
      IndicesNext(made, c, n);
      UptoPrefix(Indices(made + [c], n), Indices(made, n));
    }
    forall i | 0 <= i < |made|
      ensures made[i].from.Vector() != made[i].to.Vector()
    {
      assert (made + [c])[i] == made[i];
    }
  }

  lemma UptoPrefix(s: seq<nat>, t: seq<nat>)
    requires s == Upto(|s|) && t <= s
    ensures t == Upto(|t|)
  {}

  /** Passing over connections that come in turn binds all of them. */
  lemma {:induction false} TurnPasses(start: map<Name, nat>, made: seq<Connection>)
    requires AllZero(start) && Known(start, made) && InTurn(made)
    ensures Pass(start, made).0 == made
    decreases |made|
  {
    if made != [] {
      var rest, c := made[..|made| - 1], made[|made| - 1];
      assert made == rest + [c];
      TurnPrefix(rest, c);
      TurnPasses(start, rest);
      PassInOrder(start, rest);
      PassPicks(start, rest);
      var next := Pass(start, rest).1;
      TurnNext(rest, next, c, c.from);
      TurnNext(rest, next, c, c.to);
    }
  }

  // ---------------------------------------------------------------- the pass is exact

  predicate HasPort(c: Connection, p: Port) {
    c.from == p || c.to == p
  }

  ghost predicate Used(made: seq<Connection>, p: Port) {
    exists i :: 0 <= i < |made| && HasPort(made[i], p)
  }

  function PortOf(n: Name, j: nat): (p: Port)
    ensures p.Vector() == n && p.index == j
  {
    Port(n.0, n.1, j)
  }

  lemma {:induction false} IndexUsed(made: seq<Connection>, n: Name, j: nat)
    requires j in Indices(made, n)
    ensures Used(made, PortOf(n, j))
    decreases |made|
  {
    var rest, c := made[..|made| - 1], made[|made| - 1];
    if j in Indices(rest, n) {
      IndexUsed(rest, n, j);
      var i :| 0 <= i < |rest| && HasPort(rest[i], PortOf(n, j));
      assert HasPort(made[i], PortOf(n, j));
    } else {
      assert HasPort(made[|made| - 1], PortOf(n, j));
    }
  }

  /** The ports of a vector used so far are those below its next index. */
  lemma UsedIffBelow(made: seq<Connection>, next: map<Name, nat>, p: Port)
    requires InOrder(made, next) && p.Vector() in next
    ensures Used(made, p) <==> p.index < next[p.Vector()]
  {
    var n := p.Vector();
    if p.index < next[n] {
      assert Indices(made, n)[p.index] == p.index;
      IndexUsed(made, n, p.index);
      assert PortOf(n, p.index) == p;
    }
    if Used(made, p) {
      var i :| 0 <= i < |made| && HasPort(made[i], p);
      assert Below(made[i].from, next) && Below(made[i].to, next);
    }
  }

  predicate BoundIn(made: seq<Connection>, c: Connection) {
    c in made || Reverse(c) in made
  }

  ghost predicate AllBoundIn(made: seq<Connection>, s: seq<Connection>) {
    forall c :: c in s ==> BoundIn(made, c)
  }

  lemma UsedCarries(made: seq<Connection>, s: seq<Connection>, p: Port)
    requires AllBoundIn(made, s) && Used(s, p)
    ensures Used(made, p)
  {
    var i :| 0 <= i < |s| && HasPort(s[i], p);
    assert BoundIn(made, s[i]);
    var d := if s[i] in made then s[i] else Reverse(s[i]);
    var k :| 0 <= k < |made| && made[k] == d;
    assert HasPort(made[k], p);
  }

  /** Who has bound all that another has is nowhere behind. */
  lemma NotBehind(made: seq<Connection>, next: map<Name, nat>, s: seq<Connection>, turn: map<Name, nat>, n: Name)
    requires InOrder(made, next) && InOrder(s, turn) && AllBoundIn(made, s) && n in next && n in turn
    ensures turn[n] <= next[n]
  {
    if turn[n] > 0 {
      var p := PortOf(n, turn[n] - 1);
      UsedIffBelow(s, turn, p);
      UsedCarries(made, s, p);
      UsedIffBelow(made, next, p);
    }
  }

  /** A schedule has one connection for each port. */
  lemma SamePort(full: seq<Connection>, c: Connection, d: Connection, p: Port)
    requires AllApart(full) && c in full && d in full && HasPort(c, p) && HasPort(d, p)
    ensures c == d
  {
    var i :| 0 <= i < |full| && full[i] == c;
    var j :| 0 <= j < |full| && full[j] == d;
    assert i < j ==> Apart(full[i], full[j]);
    assert j < i ==> Apart(full[j], full[i]);
  }

  /** A port of `c` whose turn has passed was bound with `c`. */
  lemma PassedIsBound(connections: seq<Connection>, full: seq<Connection>, made: seq<Connection>, next: map<Name, nat>,
                      c: Connection, p: Port)
    requires OneEach(connections, full) && AllApart(full) && InOrder(made, next)
    requires forall d :: d in made ==> d in connections
    requires c in full && HasPort(c, p) && p.Vector() in next && p.index < next[p.Vector()]
    ensures BoundIn(made, c)
  {
    UsedIffBelow(made, next, p);
    var i :| 0 <= i < |made| && HasPort(made[i], p);
    var d := made[i];
    assert d in connections;
    SamePort(full, c, if d in full then d else Reverse(d), p);
    assert Reverse(Reverse(d)) == d;
  }

  lemma {:induction false} PassFrom(start: map<Name, nat>, order: seq<Connection>)
    ensures forall c :: c in Pass(start, order).0 ==> c in order
    decreases |order|
  {
    if order != [] {
      PassFrom(start, order[..|order| - 1]);
    }
  }

  /** One more connection of the schedule: the pass binds it, or has. */
  lemma GreedyNext(connections: seq<Connection>, full: seq<Connection>, start: map<Name, nat>, order: seq<Connection>,
                   chosen: seq<Connection>, c: Connection)
    requires AllZero(start) && Known(start, order + [c]) && Known(start, chosen + [c])
    requires forall d :: d in order ==> d in connections
    requires OneEach(connections, full) && AllApart(full) && c in full && InTurn(chosen + [c])
    requires AllBoundIn(Pass(start, order).0, chosen)
    ensures BoundIn(Pass(start, order + [c]).0, c)
  {
    assert (order + [c])[..|order|] == order && (order + [c])[|order|] == c && (chosen + [c])[|chosen|] == c;
    assert Known(start, order) by { KnownPrefix(start, order, c); }
    assert Known(start, chosen) by { KnownPrefix(start, chosen, c); }
    var (made, next) := Pass(start, order);
    PassInOrder(start, order);
    PassPicks(start, order);
    PassFrom(start, order);
    TurnPrefix(chosen, c);
    TurnPasses(start, chosen);
    PassInOrder(start, chosen);
    PassPicks(start, chosen);
    var turn := Pass(start, chosen).1;
    GreedyPort(connections, full, made, next, chosen, turn, c, c.from);
    GreedyPort(connections, full, made, next, chosen, turn, c, c.to);
  }

  lemma KnownPrefix(start: map<Name, nat>, s: seq<Connection>, c: Connection)
    requires Known(start, s + [c])
    ensures Known(start, s)
  {
    assert forall i :: 0 <= i < |s| ==> (s + [c])[i] == s[i];
  }

  lemma GreedyPort(connections: seq<Connection>, full: seq<Connection>, made: seq<Connection>, next: map<Name, nat>,
                   chosen: seq<Connection>, turn: map<Name, nat>, c: Connection, p: Port)
    requires OneEach(connections, full) && AllApart(full) && c in full && InTurn(chosen + [c]) &&
             (p == c.from || p == c.to)
    requires InOrder(made, next) && InOrder(chosen, turn) && AllBoundIn(made, chosen)
    requires forall d :: d in made ==> d in connections
    requires p.Vector() in next && p.Vector() in turn
    ensures Next(p, next) || BoundIn(made, c)
  {
    TurnNext(chosen, turn, c, p);
    NotBehind(made, next, chosen, turn, p.Vector());
    if p.index < next[p.Vector()] {
      PassedIsBound(connections, full, made, next, c, p);
    }
  }

  /** Whatever a schedule has chosen so far, the pass has bound. */
  lemma {:induction false} GreedyFollows(connections: seq<Connection>, full: seq<Connection>, start: map<Name, nat>,
                                         order: seq<Connection>, chosen: seq<Connection>)
    requires AllZero(start) && Known(start, order) && Known(start, full) && forall d :: d in order ==> d in connections
    requires OneEach(connections, full) && AllApart(full) && InTurn(full)
    requires chosen <= full && Subsequence(chosen, order)
    ensures AllBoundIn(Pass(start, order).0, chosen)
    decreases |order|
  {
    if order != [] {
      var rest, c := order[..|order| - 1], order[|order| - 1];
      assert order == rest + [c];
      KnownPrefix(start, rest, c);
      PassKeeps(start, order);
      if Subsequence(chosen, rest) {
        GreedyFollows(connections, full, start, rest, chosen);
        BoundStays(Pass(start, rest).0, Pass(start, order).0, chosen);
      } else {
        var before := chosen[..|chosen| - 1];
        assert chosen == before + [c];
        GreedyFollows(connections, full, start, rest, before);
        BoundStays(Pass(start, rest).0, Pass(start, order).0, before);
        TurnOfPrefix(full, chosen);
        GreedyNext(connections, full, start, rest, before, c);
      }
    }
  }

  lemma BoundStays(made: seq<Connection>, more: seq<Connection>, s: seq<Connection>)
    requires made <= more && AllBoundIn(made, s)
    ensures AllBoundIn(more, s)
  {
    forall c | c in s
      ensures BoundIn(more, c)
    {
      assert BoundIn(made, c);
    }
  }

  lemma {:induction false} TurnOfPrefix(full: seq<Connection>, chosen: seq<Connection>)
    requires InTurn(full) && chosen <= full
    ensures InTurn(chosen)
    decreases |full|
  {
    if chosen != full {
      var rest, c := full[..|full| - 1], full[|full| - 1];
      assert full == rest + [c];
      TurnPrefix(rest, c);
      TurnOfPrefix(rest, chosen);
    }
  }

  /** A listing of connections as the code asks for it: in both orientations. */
  ghost predicate Listing(connections: seq<Connection>) {
    Symmetric(connections) && Distinct(connections) && NoLoops(connections)
  }

  lemma BothHalves(connections: seq<Connection>, made: seq<Connection>)
    requires Symmetric(connections) && OneEach(connections, made)
    ensures forall d :: d in connections <==> d in made || d in Reverses(made)
    ensures forall d :: d in made ==> d !in Reverses(made)
  {
    var back := Reverses(made);
    forall d
      ensures d in back <==> Reverse(d) in made
    {
      if d in back { BackIsMade(made, d); }
      if Reverse(d) in made {
        var i :| 0 <= i < |made| && made[i] == Reverse(d);
        assert back[i] == d;
      }
    }
    forall d
      ensures Reverse(d) in made ==> d in connections
    {
      assert Reverse(Reverse(d)) == d;
    }
  }

  lemma OneEachHalf(connections: seq<Connection>, made: seq<Connection>)
    requires Listing(connections) && OneEach(connections, made)
    ensures 2 * |made| == |connections|
  {
    var back := Reverses(made);
    var there, again, all := set c | c in made, set c | c in back, set c | c in connections;
    ReversesDistinct(made);
    BothHalves(connections, made);
    DistinctSize(made);
    DistinctSize(back);
    DistinctSize(connections);
    assert there + again == all && there !! again;
  }

  lemma SameMembers(connections: seq<Connection>, order: seq<Connection>)
    requires multiset(order) == multiset(connections)
    ensures forall c :: c in order <==> c in connections
  {
    forall c
      ensures c in order <==> c in connections
    {
      assert c in order <==> c in multiset(order);
      assert c in connections <==> c in multiset(connections);
    }
  }

  lemma ScheduleBinds(connections: seq<Connection>, order: seq<Connection>, made: seq<Connection>)
    requires Listing(connections) && multiset(order) == multiset(connections) && Schedule(connections, order, made)
    ensures 2 * |Pass(Zeros(connections), order).0| == |connections|
  {
    var start := Zeros(connections);
    var got := Pass(start, order).0;
    SameMembers(connections, order);
    ZerosKnown(connections, order);
    ZerosKnown(connections, made);
    TurnPasses(start, made);
    PassInOrder(start, made);
    PassInOrder(start, order);
    PassFrom(start, order);
    GreedyFollows(connections, made, start, order, made);
    FollowedIsOneEach(connections, made, got);
    OneEachHalf(connections, got);
  }

  lemma FollowedIsOneEach(connections: seq<Connection>, made: seq<Connection>, got: seq<Connection>)
    requires Listing(connections) && OneEach(connections, made) && AllBoundIn(got, made)
    requires AllApart(got) && forall c :: c in got ==> c in connections
    ensures OneEach(connections, got)
  {
    forall i, j | 0 <= i < j < |got|
      ensures got[i] != got[j]
    {
      assert Apart(got[i], got[j]);
    }
    forall c | c in connections
      ensures c in got <==> Reverse(c) !in got
    {
      assert Reverse(Reverse(c)) == c;
      assert BoundIn(got, if c in made then c else Reverse(c));
      if c in got { NeverBoth(connections, got, c); }
    }
  }

  lemma MadeIsSchedule(connections: seq<Connection>, order: seq<Connection>, made: seq<Connection>,
                       next: map<Name, nat>)
    requires Listing(connections) && Subsequence(made, order) && (forall c :: c in made ==> c in connections)
    requires InOrder(made, next) && AllApart(made)
    requires forall i :: 0 <= i < |made| ==> made[i].from.Vector() != made[i].to.Vector()
    requires 2 * |made| == |connections|
    ensures Schedule(connections, order, made)
  {
    EachOnce(connections, made);
    InOrderInTurn(made, next);
  }

  lemma HalfIsSchedule(connections: seq<Connection>, order: seq<Connection>)
    requires Listing(connections) && multiset(order) == multiset(connections)
    requires 2 * |Pass(Zeros(connections), order).0| == |connections|
    ensures Schedule(connections, order, Pass(Zeros(connections), order).0)
  {
    var start := Zeros(connections);
    var (made, next) := Pass(start, order);
    SameMembers(connections, order);
    ZerosKnown(connections, order);
    PassPicks(start, order);
    PassInOrder(start, order);
    PassFrom(start, order);
    MadeIsSchedule(connections, order, made, next);
  }

  /** The greedy pass binds everything if and only if the order allows it at all. */
  lemma PassExact(connections: seq<Connection>, order: seq<Connection>)
    requires Listing(connections) && multiset(order) == multiset(connections)
    ensures 2 * |Pass(Zeros(connections), order).0| == |connections| <==>
            exists made :: Schedule(connections, order, made)
  {
    if 2 * |Pass(Zeros(connections), order).0| == |connections| {
      HalfIsSchedule(connections, order);
    }
    if made :| Schedule(connections, order, made) {
      ScheduleBinds(connections, order, made);
    }
  }
}

/** `ConfigManager.bind_ports` (`gem5/configs/example/read_config.py`): connections are
    listed in both orientations, and each is bound in one of them, the ports of every
    vector in index order. */
module PortBinder {
  import opened PortDeadlocks
  import opened PortPass
  import opened PortSchedules
  import opened Wrappers

  datatype Outcome = Bound(made: seq<Connection>) | Unordered | UnknownPort

  method Mark(connections: seq<Connection>) returns (bound: map<Name, nat>)
    ensures bound == Zeros(connections)
  {
    bound := map[];
    for i := 0 to |connections|
      invariant bound == Zeros(connections[..i])
    {
      assert connections[..i + 1] == connections[..i] + [connections[i]];
      bound := bound[connections[i].from.Vector() := 0];
    }
    assert connections[..|connections|] == connections;
  }

  /** The greedy pass over the connections. */
  method Collect(connections: seq<Connection>, order: seq<Connection>)
    returns (out: Outcome, ghost next: map<Name, nat>)
    requires multiset(order) == multiset(connections) && NoLoops(connections)
    ensures !out.Unordered? && (Symmetric(connections) ==> out.Bound?)
    ensures out.Bound? ==> (out.made, next) == Pass(Zeros(connections), order)
    ensures out.Bound? ==> InOrder(out.made, next) && AllApart(out.made)
    ensures out.Bound? ==> forall c :: c in out.made ==> c in connections
  {
    var bound := Mark(connections);
    next := bound;
    var made: seq<Connection> := [];
    var k := 0;
    while k < |order|
      invariant k <= |order| && (made, bound) == Pass(Zeros(connections), order[..k]) &&
                bound.Keys == Vectors(connections)
      invariant InOrder(made, bound) && AllApart(made) && forall c :: c in made ==> c in connections
    {
      var c := order[k];
      assert order[..k + 1][..k] == order[..k];
      Ordered(connections, order, k);
      if bound[c.from.Vector()] == c.from.index {
        if c.to.Vector() !in bound {
          Reversed(connections, c);
          return UnknownPort, bound;
        }
        if bound[c.to.Vector()] == c.to.index {
          AdvanceOrder(made, bound, c);
          AdvanceApart(made, bound, c);
          made, bound := made + [c], Advance(c, bound);
        }
      }
      k := k + 1;
    }
    assert order[..k] == order;
    return Bound(made), bound;
  }

  /** `bind_ports`, for any order that `sorted` may give the connections. Ports are bound in
      index order, no port twice; and if it does not raise, every connection is bound in
      exactly one orientation. */
  method BindPorts(connections: seq<Connection>, order: seq<Connection>)
    returns (out: Outcome, ghost next: map<Name, nat>)
    requires multiset(order) == multiset(connections) && NoLoops(connections)
    ensures Symmetric(connections) ==> !out.UnknownPort?
    ensures !out.UnknownPort? ==> (out.Unordered? <==> 2 * |Pass(Zeros(connections), order).0| != |connections|)
    ensures Symmetric(connections) && Distinct(connections) ==>
              (out.Bound? <==> exists made :: Schedule(connections, order, made))
    ensures out.Bound? ==> InOrder(out.made, next) && AllApart(out.made)
    ensures out.Bound? ==> forall c :: c in out.made ==> c in connections
    ensures out.Bound? && Symmetric(connections) && Distinct(connections) ==>
              Distinct(out.made) && forall c :: c in connections ==> (c in out.made <==> Reverse(c) !in out.made)
  {
    if Symmetric(connections) && Distinct(connections) {
      PassExact(connections, order);
    }
    out, next := Collect(connections, order);
    if out.Bound? {
      if 2 * |out.made| != |connections| {
        return Unordered, next;
      }
      if Symmetric(connections) && Distinct(connections) {
        EachOnce(connections, out.made);
      }
    }
  }

  // --------------------------------------------------------- what cannot be bound

  lemma {:induction false} NothingBound(start: map<Name, nat>, order: seq<Connection>)
    requires forall i :: 0 <= i < |order| ==> !(Next(order[i].from, start) && Next(order[i].to, start))
    ensures Pass(start, order) == ([], start)
    decreases |order|
  {
    if order != [] {
      NothingBound(start, order[..|order| - 1]);
    }
  }

  /** Two vectors connected crosswise. */
  function Crossed(n: Name, m: Name): (r: seq<Connection>) {
    var n0, n1, m0, m1 := Port(n.0, n.1, 0), Port(n.0, n.1, 1), Port(m.0, m.1, 0), Port(m.0, m.1, 1);
    [Connection(n0, m1), Connection(n1, m0), Connection(m0, n1), Connection(m1, n0)]
  }

  lemma CrossedListed(n: Name, m: Name)
    requires n != m
    ensures Listing(Crossed(n, m))
  {
    var s := Crossed(n, m);
    forall c | c in s
      ensures Reverse(c) in s
    {
      assert s[0] in s && s[1] in s && s[2] in s && s[3] in s;
    }
  }

  /** Sorting does not make every listing bindable: crosswise connections are symmetric,
      without repetition or loops, and no order binds any of them. */
  lemma CrossedCannotBind(n: Name, m: Name, order: seq<Connection>)
    requires n != m && multiset(order) == multiset(Crossed(n, m))
    ensures Listing(Crossed(n, m))
    ensures Pass(Zeros(Crossed(n, m)), order).0 == [] && forall made :: !Schedule(Crossed(n, m), order, made)
  {
    var s := Crossed(n, m);
    CrossedListed(n, m);
    SameMembers(s, order);
    forall i | 0 <= i < |order|
      ensures !(Next(order[i].from, Zeros(s)) && Next(order[i].to, Zeros(s)))
    {
      assert order[i] in s;
    }
    NothingBound(Zeros(s), order);
    PassExact(s, order);
  }

  // ------------------------------------------------------ what another order would bind

  /** The order of names, ports and connections that `sorted` goes by. */
  predicate StringLess(s: string, t: string) {
    t != [] && (s == [] || s[0] < t[0] || (s[0] == t[0] && StringLess(s[1..], t[1..])))
  }

  predicate NameLess(a: Name, b: Name) {
    StringLess(a.0, b.0) || (a.0 == b.0 && StringLess(a.1, b.1))
  }

  predicate PortLess(p: Port, q: Port) {
    NameLess(p.Vector(), q.Vector()) || (p.Vector() == q.Vector() && p.index < q.index)
  }

  predicate ConnectionLess(c: Connection, d: Connection) {
    PortLess(c.from, d.from) || (c.from == d.from && PortLess(c.to, d.to))
  }

  predicate Ascending(s: seq<Connection>) {
    forall i, j :: 0 <= i < j < |s| ==> ConnectionLess(s[i], s[j])
  }

  lemma {:induction false} StringNotLess(s: string)
    ensures !StringLess(s, s)
    decreases |s|
  {
    if s != [] { StringNotLess(s[1..]); }
  }

  lemma {:induction false} StringLessTwice(s: string, t: string, u: string)
    requires StringLess(s, t) && StringLess(t, u)
    ensures StringLess(s, u)
    decreases |s|
  {
    if s != [] && s[0] == t[0] && t[0] == u[0] { StringLessTwice(s[1..], t[1..], u[1..]); }
  }

  lemma NameLessTwice(a: Name, b: Name, c: Name)
    requires NameLess(a, b) && NameLess(b, c)
    ensures NameLess(a, c) && a != b
  {
    StringNotLess(a.0);
    StringNotLess(a.1);
    if StringLess(a.0, b.0) && StringLess(b.0, c.0) { StringLessTwice(a.0, b.0, c.0); }
    if StringLess(a.1, b.1) && StringLess(b.1, c.1) { StringLessTwice(a.1, b.1, c.1); }
  }

  lemma {:induction false} StringsCompare(s: string, t: string)
    ensures StringLess(s, t) || s == t || StringLess(t, s)
    decreases |s|
  {
    if s != [] && t != [] && s[0] == t[0] {
      StringsCompare(s[1..], t[1..]);
      assert s == [s[0]] + s[1..] && t == [t[0]] + t[1..];
    }
  }

  /** Any two connections compare, and none with itself. */
  lemma ConnectionsCompare(c: Connection, d: Connection)
    ensures !ConnectionLess(c, c)
    ensures ConnectionLess(c, d) || c == d || ConnectionLess(d, c)
  {
    PortsCompare(c.from, d.from);
    PortsCompare(c.to, d.to);
    PortsCompare(c.from, c.from);
    PortsCompare(c.to, c.to);
  }

  lemma PortsCompare(p: Port, q: Port)
    ensures !PortLess(p, p)
    ensures PortLess(p, q) || p == q || PortLess(q, p)
  {
    StringNotLess(p.owner);
    StringNotLess(p.port);
    StringsCompare(p.owner, q.owner);
    StringsCompare(p.port, q.port);
  }

  lemma PortLessTwice(p: Port, q: Port, r: Port)
    requires PortLess(p, q) && PortLess(q, r)
    ensures PortLess(p, r)
  {
    if NameLess(p.Vector(), q.Vector()) && NameLess(q.Vector(), r.Vector()) {
      NameLessTwice(p.Vector(), q.Vector(), r.Vector());
    }
  }

  lemma ConnectionLessTwice(c: Connection, d: Connection, e: Connection)
    requires ConnectionLess(c, d) && ConnectionLess(d, e)
    ensures ConnectionLess(c, e)
  {
    if PortLess(c.from, d.from) && PortLess(d.from, e.from) { PortLessTwice(c.from, d.from, e.from); }
    if PortLess(c.to, d.to) && PortLess(d.to, e.to) { PortLessTwice(c.to, d.to, e.to); }
  }

  lemma NotBoth(c: Connection, d: Connection)
    ensures !(ConnectionLess(c, d) && ConnectionLess(d, c))
  {
    if ConnectionLess(c, d) && ConnectionLess(d, c) {
      ConnectionLessTwice(c, d, c);
      ConnectionsCompare(c, c);
    }
  }

  /** Sorting leaves one order only. */
  lemma {:induction false} SortedOnce(s: seq<Connection>, t: seq<Connection>)
    requires Ascending(s) && Ascending(t) && multiset(s) == multiset(t)
    ensures s == t
    decreases |s|
  {
    SameMembers(s, t);
    assert |s| == |multiset(s)| && |t| == |multiset(t)|;
    if s != [] {
      FirstSame(s, t);
      assert s == [s[0]] + s[1..] && t == [t[0]] + t[1..];
      assert multiset(s[1..]) == multiset(s) - multiset{s[0]} && multiset(t[1..]) == multiset(t) - multiset{t[0]};
      SortedOnce(s[1..], t[1..]);
    }
  }

  lemma FirstSame(s: seq<Connection>, t: seq<Connection>)
    requires Ascending(s) && Ascending(t) && s != [] && t != [] && s[0] in t && t[0] in s
    ensures s[0] == t[0]
  {
    NotBoth(s[0], t[0]);
    var i :| 0 <= i < |t| && t[i] == s[0];
    var j :| 0 <= j < |s| && s[j] == t[0];
  }

  lemma NamesApart(a: Name, b: Name)
    requires NameLess(a, b)
    ensures a != b
  {
    StringNotLess(a.0);
    StringNotLess(a.1);
  }

  predicate NamesAscend(a: Name, b: Name, c: Name, d: Name) {
    NameLess(a, b) && NameLess(b, c) && NameLess(c, d)
  }

  lemma FourAscending(a: Name, b: Name, c: Name, d: Name)
    requires NamesAscend(a, b, c, d)
    ensures NameLess(a, c) && NameLess(b, d) && NameLess(a, d) && FourNames(a, b, c, d)
  {
    NameLessTwice(a, b, c);
    NameLessTwice(b, c, d);
    NameLessTwice(a, b, d);
    NamesApart(a, c);
    NamesApart(a, d);
    NamesApart(b, d);
    NamesApart(c, d);
  }

  /** A chain of connections between vectors `a` to `d`, each waiting for the next. */
  function Chain(a: Name, b: Name, c: Name, d: Name): (r: seq<Connection>) {
    var first := Connection(PortOf(a, 0), PortOf(b, 1));
    var second := Connection(PortOf(b, 0), PortOf(c, 1));
    var third := Connection(PortOf(c, 0), PortOf(d, 0));
    [first, second, Reverse(first), third, Reverse(second), Reverse(third)]
  }

  predicate FourNames(a: Name, b: Name, c: Name, d: Name) {
    a != b && a != c && a != d && b != c && b != d && c != d
  }

  /** This is the order sorting gives them. */
  lemma ChainAscends(a: Name, b: Name, c: Name, d: Name)
    requires NamesAscend(a, b, c, d)
    ensures Ascending(Chain(a, b, c, d))
  {
    FourAscending(a, b, c, d);
    var s := Chain(a, b, c, d);
    forall i, j | 0 <= i < j < |s|
      ensures PortLess(s[i].from, s[j].from)
    {
    }
  }

  lemma ChainListed(a: Name, b: Name, c: Name, d: Name)
    requires FourNames(a, b, c, d)
    ensures Listing(Chain(a, b, c, d))
  {
    var s := Chain(a, b, c, d);
    forall x | x in s
      ensures Reverse(x) in s
    {
      assert s[0] in s && s[1] in s && s[2] in s && s[3] in s && s[4] in s && s[5] in s;
    }
  }

  /** One more connection of a pass. */
  lemma PassOne(start: map<Name, nat>, order: seq<Connection>, k: nat)
    requires k < |order|
    ensures var (made, next) := Pass(start, order[..k]);
            Pass(start, order[..k + 1]) ==
            if Next(order[k].from, next) && Next(order[k].to, next) then (made + [order[k]], Advance(order[k], next))
            else (made, next)
  {
    assert order[..k + 1][..k] == order[..k];
  }

  /** In sorted order the pass comes to each of them too early, and leaves the first. */
  lemma ChainSorted(z: map<Name, nat>, a: Name, b: Name, c: Name, d: Name)
    requires FourNames(a, b, c, d) && a in z && b in z && c in z && d in z && AllZero(z)
    ensures var s := Chain(a, b, c, d); Pass(z, s).0 == [s[3], s[4]]
  {
    var s := Chain(a, b, c, d);
    NothingBound(z, s[..3]);
    PassOne(z, s, 3);
    var next := Pass(z, s[..4]).1;
    assert next[b] == 0 && next[c] == 1 && next[d] == 1;
    PassOne(z, s, 4);
    var last := Pass(z, s[..5]).1;
    assert last[d] == 1;
    PassOne(z, s, 5);
    assert s[..6] == s;
  }

  lemma ChainVectors(a: Name, b: Name, c: Name, d: Name)
    ensures var z := Zeros(Chain(a, b, c, d)); a in z && b in z && c in z && d in z && AllZero(z)
  {
    var s := Chain(a, b, c, d);
    assert s[0] in s && s[1] in s && s[3] in s && s[5] in s;
  }

  /** One orientation of each, the last of the chain first. */
  function ChainBack(a: Name, b: Name, c: Name, d: Name): (r: seq<Connection>) {
    [Connection(PortOf(c, 0), PortOf(d, 0)), Connection(PortOf(c, 1), PortOf(b, 0)),
     Connection(PortOf(b, 1), PortOf(a, 0))]
  }

  lemma ChainBackBinds(z: map<Name, nat>, a: Name, b: Name, c: Name, d: Name)
    requires FourNames(a, b, c, d) && a in z && b in z && c in z && d in z && AllZero(z)
    ensures Pass(z, ChainBack(a, b, c, d)).0 == ChainBack(a, b, c, d)
  {
    var t := ChainBack(a, b, c, d);
    PassOne(z, t, 0);
    var next := Pass(z, t[..1]).1;
    assert next[a] == 0 && next[b] == 0 && next[c] == 1;
    PassOne(z, t, 1);
    var last := Pass(z, t[..2]).1;
    assert last[a] == 0 && last[b] == 1;
    PassOne(z, t, 2);
    assert t[..3] == t;
  }

  lemma ChainBackEach(a: Name, b: Name, c: Name, d: Name)
    requires FourNames(a, b, c, d)
    ensures OneEach(Chain(a, b, c, d), ChainBack(a, b, c, d))
  {
    var s, t := Chain(a, b, c, d), ChainBack(a, b, c, d);
    assert t[0] == s[3] && t[1] == s[4] && t[2] == s[2];
    assert t[0] in t && t[1] in t && t[2] in t;
  }

  lemma ChainBindable(a: Name, b: Name, c: Name, d: Name)
    requires FourNames(a, b, c, d)
    ensures Bindable(Chain(a, b, c, d))
  {
    var s, t := Chain(a, b, c, d), ChainBack(a, b, c, d);
    ChainListed(a, b, c, d);
    ChainBackEach(a, b, c, d);
    ChainVectors(a, b, c, d);
    ChainBackBinds(Zeros(s), a, b, c, d);
    AllPassedTurn(s, t);
    TurnBindable(s, t);
  }

  lemma AllPassedTurn(connections: seq<Connection>, made: seq<Connection>)
    requires Listing(connections) && OneEach(connections, made) && Pass(Zeros(connections), made).0 == made
    ensures InTurn(made)
  {
    ZerosKnown(connections, made);
    PassInOrder(Zeros(connections), made);
    InOrderInTurn(made, Pass(Zeros(connections), made).1);
  }

  /** So sorting is not the order to choose: the chain can be bound, but not in that order. */
  lemma SortingMisses(a: Name, b: Name, c: Name, d: Name, order: seq<Connection>)
    requires NamesAscend(a, b, c, d) && Ascending(order) && multiset(order) == multiset(Chain(a, b, c, d))
    ensures var s := Chain(a, b, c, d); order == s && Bindable(s) && forall made :: !Schedule(s, order, made)
  {
    var s := Chain(a, b, c, d);
    FourAscending(a, b, c, d);
    ChainAscends(a, b, c, d);
    SortedOnce(order, s);
    ChainListed(a, b, c, d);
    ChainBindable(a, b, c, d);
    ChainVectors(a, b, c, d);
    ChainSorted(Zeros(s), a, b, c, d);
    PassExact(s, s);
  }
}

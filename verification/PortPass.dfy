/** Ports, connections and the greedy pass of `ConfigManager.bind_ports`
    (`gem5/configs/example/read_config.py`): what it binds, and that it binds in order. */
module PortPass {
  import opened Wrappers

  type Name = (string, string)

  datatype Port = Port(owner: string, port: string, index: nat)
  {
    function Vector(): (n: Name) { (owner, port) }
  }

  datatype Connection = Connection(from: Port, to: Port)

  function Reverse(c: Connection): (r: Connection) {
    Connection(c.to, c.from)
  }

  ghost predicate Symmetric(s: seq<Connection>) {
    forall c :: c in s ==> Reverse(c) in s
  }

  predicate NoLoops(s: seq<Connection>) {
    forall i :: 0 <= i < |s| ==> s[i].from != s[i].to
  }

  /** No port at both. */
  predicate Apart(a: Connection, b: Connection) {
    a.from != b.from && a.from != b.to && a.to != b.from && a.to != b.to
  }

  /** The indices of one vector's ports in the order they are bound. */
  function Indices(made: seq<Connection>, n: Name): (r: seq<nat>) {
    if made == [] then []
    else
      var rest, c := Indices(made[..|made| - 1], n), made[|made| - 1];
      var from := if c.from.Vector() == n then [c.from.index] else [];
      var to := if c.to.Vector() == n then [c.to.index] else [];
      rest + from + to
  }

  function Upto(n: nat): (r: seq<nat>)
    ensures |r| == n
  {
    seq(n, i => i)
  }

  /** The next index of each vector is the number of its ports bound so far, and these
      were bound in order. */
  ghost predicate InOrder(made: seq<Connection>, next: map<Name, nat>) {
    && (forall n :: n in next ==> Indices(made, n) == Upto(next[n]))
    && forall i :: 0 <= i < |made| ==> Below(made[i].from, next) && Below(made[i].to, next)
  }

  predicate Below(p: Port, next: map<Name, nat>) {
    p.Vector() in next && p.index < next[p.Vector()]
  }

  predicate Next(p: Port, next: map<Name, nat>) {
    p.Vector() in next && next[p.Vector()] == p.index
  }

  ghost predicate AllApart(made: seq<Connection>) {
    forall i, j :: 0 <= i < j < |made| ==> Apart(made[i], made[j])
  }

  /** Both ends are bound: their vectors move on by one. */
  function Advance(c: Connection, next: map<Name, nat>): (r: map<Name, nat>)
    requires c.from.Vector() in next && c.to.Vector() in next
  {
    var mid := next[c.from.Vector() := next[c.from.Vector()] + 1];
    mid[c.to.Vector() := mid[c.to.Vector()] + 1]
  }

  lemma IndicesNext(made: seq<Connection>, c: Connection, n: Name)
    requires c.from.Vector() != c.to.Vector()
    ensures Indices(made + [c], n) == Indices(made, n) +
            if c.from.Vector() == n then [c.from.index] else if c.to.Vector() == n then [c.to.index] else []
  {
    assert (made + [c])[..|made|] == made;
  }

  lemma UptoNext(n: nat)
    ensures Upto(n) + [n] == Upto(n + 1)
  {}

  lemma AdvanceIndices(made: seq<Connection>, next: map<Name, nat>, c: Connection, n: Name)
    requires n in next && Indices(made, n) == Upto(next[n]) && c.from.Vector() != c.to.Vector()
    requires Next(c.from, next) && Next(c.to, next)
    ensures Indices(made + [c], n) == Upto(Advance(c, next)[n])
  {
    IndicesNext(made, c, n);
    AdvanceAt(c, next, n);
    UptoNext(next[n]);
  }

  lemma AdvanceAt(c: Connection, next: map<Name, nat>, n: Name)
    requires n in next && c.from.Vector() in next && c.to.Vector() in next && c.from.Vector() != c.to.Vector()
    ensures Advance(c, next)[n] == next[n] + if n == c.from.Vector() || n == c.to.Vector() then 1 else 0
  {}

  lemma AdvanceBelow(p: Port, next: map<Name, nat>, c: Connection)
    requires Next(c.from, next) && Next(c.to, next) && c.from.Vector() != c.to.Vector()
    requires Below(p, next) || p == c.from || p == c.to
    ensures Below(p, Advance(c, next))
  {
    AdvanceAt(c, next, p.Vector());
  }

  lemma AdvanceOrder(made: seq<Connection>, next: map<Name, nat>, c: Connection)
    requires InOrder(made, next) && Next(c.from, next) && Next(c.to, next) && c.from != c.to
    ensures InOrder(made + [c], Advance(c, next))
  {
    var more := made + [c];
    forall n | n in next
      ensures Indices(more, n) == Upto(Advance(c, next)[n])
    {
      AdvanceIndices(made, next, c, n);
    }
    forall i | 0 <= i < |more|
      ensures Below(more[i].from, Advance(c, next)) && Below(more[i].to, Advance(c, next))
    {
      AdvanceBelow(more[i].from, next, c);
      AdvanceBelow(more[i].to, next, c);
    }
  }

  /** A port whose turn it is has not been bound before. */
  lemma AdvanceApart(made: seq<Connection>, next: map<Name, nat>, c: Connection)
    requires InOrder(made, next) && AllApart(made) && Next(c.from, next) && Next(c.to, next)
    ensures AllApart(made + [c])
  {
    var more := made + [c];
    forall i, j | 0 <= i < j < |more|
      ensures Apart(more[i], more[j])
    {
      if j == |made| {
        assert Below(made[i].from, next) && Below(made[i].to, next);
      }
    }
  }

  function Vectors(connections: seq<Connection>): (r: set<Name>) {
    set c | c in connections :: c.from.Vector()
  }

  /** Every vector that is listed first in a connection starts at 0. */
  function Zeros(connections: seq<Connection>): (r: map<Name, nat>) {
    map n | n in Vectors(connections) :: 0
  }

  /** What a pass over the connections binds, and the indices it leaves. */
  function Pass(start: map<Name, nat>, order: seq<Connection>): (r: (seq<Connection>, map<Name, nat>)) {
    if order == [] then ([], start)
    else
      var (made, next), c := Pass(start, order[..|order| - 1]), order[|order| - 1];
      if Next(c.from, next) && Next(c.to, next) then (made + [c], Advance(c, next)) else (made, next)
  }

  lemma Ordered(connections: seq<Connection>, order: seq<Connection>, k: nat)
    requires multiset(order) == multiset(connections) && NoLoops(connections) && k < |order|
    ensures order[k] in connections && order[k].from != order[k].to && order[k].from.Vector() in Vectors(connections)
  {
    assert order[k] in multiset(order);
  }

  lemma Reversed(connections: seq<Connection>, c: Connection)
    requires c in connections
    ensures Symmetric(connections) ==> c.to.Vector() in Vectors(connections)
  {
    if Symmetric(connections) {
      assert Reverse(c) in connections && Reverse(c).from.Vector() == c.to.Vector();
    }
  }

  // -------------------------------------------------------------------- counting

  lemma {:induction false} DistinctSize<T>(s: seq<T>)
    requires Distinct(s)
    ensures |set x | x in s| == |s|
    decreases |s|
  {
    if s != [] {
      var rest, last := s[..|s| - 1], s[|s| - 1];
      DistinctSize(rest);
      assert s == rest + [last];
      assert (set x | x in s) == (set x | x in rest) + {last};
    }
  }

  lemma {:induction false} SameSize<T>(a: set<T>, b: set<T>)
    requires a <= b && |a| == |b|
    ensures a == b
    decreases |a|
  {
    if x :| x in a {
      SameSize(a - {x}, b - {x});
      assert a == a - {x} + {x} && b == b - {x} + {x};
    } else {
      assert b == {};
    }
  }

  function Reverses(s: seq<Connection>): (r: seq<Connection>)
    ensures |r| == |s| && forall i :: 0 <= i < |s| ==> r[i] == Reverse(s[i])
  {
    seq(|s|, i requires 0 <= i < |s| => Reverse(s[i]))
  }

  /** Connections that share no port, half as many as are listed: with their reverses they
      are all of them. */
  lemma EachOnce(connections: seq<Connection>, made: seq<Connection>)
    requires Symmetric(connections) && Distinct(connections) && NoLoops(connections)
    requires AllApart(made) && (forall c :: c in made ==> c in connections) && 2 * |made| == |connections|
    ensures Distinct(made) && forall c :: c in connections ==> (c in made <==> Reverse(c) !in made)
  {
    forall i, j | 0 <= i < j < |made|
      ensures made[i] != made[j]
    {
      assert Apart(made[i], made[j]);
    }
    forall c | c in made
      ensures Reverse(c) !in made
    {
      NeverBoth(connections, made, c);
    }
    forall c | c in connections
      ensures c in made || Reverse(c) in made
    {
      OneOfThem(connections, made, c);
    }
  }

  lemma ReversesDistinct(made: seq<Connection>)
    requires Distinct(made)
    ensures Distinct(Reverses(made))
  {
    forall i, j | 0 <= i < j < |made|
      ensures Reverse(made[i]) != Reverse(made[j])
    {
      assert made[i] != made[j];
    }
  }

  lemma OneOfThem(connections: seq<Connection>, made: seq<Connection>, c: Connection)
    requires Symmetric(connections) && Distinct(connections) && Distinct(made) && 2 * |made| == |connections|
    requires (forall c :: c in made ==> c in connections && Reverse(c) !in made) && c in connections
    ensures c in made || Reverse(c) in made
  {
    var back := Reverses(made);
    var there, again, all := set c | c in made, set c | c in back, set c | c in connections;
    ReversesDistinct(made);
    forall d | d in back
      ensures d !in made && d in connections
    {
      BackIsMade(made, d);
      assert Reverse(Reverse(d)) == d;
    }
    DistinctSize(made);
    DistinctSize(back);
    DistinctSize(connections);
    SameSize(there + again, all);
    assert c in there + again;
    if c in back { BackIsMade(made, c); }
  }

  lemma BackIsMade(made: seq<Connection>, c: Connection)
    requires c in Reverses(made)
    ensures Reverse(c) in made
  {
    var i :| 0 <= i < |made| && Reverses(made)[i] == c;
    assert Reverse(c) == made[i];
  }

  /** No connection is bound in both orientations. */
  lemma NeverBoth(connections: seq<Connection>, made: seq<Connection>, c: Connection)
    requires NoLoops(connections) && AllApart(made) && (forall c :: c in made ==> c in connections) && c in made
    ensures Reverse(c) !in made
  {
    var i :| 0 <= i < |made| && made[i] == c;
    var k :| 0 <= k < |connections| && connections[k] == c;
    forall j | 0 <= j < |made|
      ensures made[j] != Reverse(c)
    {
      assert i < j ==> Apart(made[i], made[j]);
      assert j < i ==> Apart(made[j], made[i]);
    }
  }
}

/** The chains of the singly linked hash table as they lie in memory
    (`janus_workload/hash/singly_linked_hash.h`). Cells are 8 bytes: a node is an item of
    eight cells, its value first, and the link to the next node; 0 is the null pointer. */
module HashChains {
  import opened PersistentMemory
  import opened Wrappers

  const ITEM: nat := 8
  const NODE: nat := 9
  const MULTIPLIER := 49979693

  /** The product, as 64 bits hold it. */
  function Product(val: int): (word: nat)
    ensures word < 0x1_0000_0000_0000_0000
  {
    val * MULTIPLIER % 0x1_0000_0000_0000_0000
  }

  function Hash(val: int, size: nat): (r: nat)
    requires size > 0
    ensures r < size
  {
    Product(val) % size
  }

  /** From one value to the next the word grows by 49979693, less 2^64 when it gets there. */
  lemma ProductGrows(val: int)
    ensures Product(0) == 0
    ensures Product(val + 1) == Product(val) + 49979693 ||
            Product(val + 1) == Product(val) + 49979693 - 18446744073709551616
  {
    assert (val + 1) * MULTIPLIER == val * MULTIPLIER + MULTIPLIER;
    WordGrows(val * MULTIPLIER, MULTIPLIER, 0x1_0000_0000_0000_0000);
  }

  lemma WordGrows(x: int, d: int, m: int)
    requires 0 <= d < m
    ensures (x + d) % m == x % m + d || (x + d) % m == x % m + d - m
  {
    var y := x / m * m;
    assert x + d == y + (x % m + d);
    if x % m + d < m {
      Remainder(x + d, x / m, x % m + d, m);
    } else {
      Remainder(x + d, x / m + 1, x % m + d - m, m);
    }
  }

  /** The bucket is the number below the table size that differs from the word by a
      multiple of the size. */
  lemma HashIs(val: int, size: nat, b: nat, q: nat)
    requires size > 0 && b < size
    ensures Product(val) == q * size + b ==> Hash(val, size) == b
    ensures exists k: nat :: Product(val) == k * size + Hash(val, size)
  {
    if Product(val) == q * size + b {
      Remainder(Product(val), q, b, size);
    }
    assert Product(val) == Product(val) / size * size + Product(val) % size;
    assert Product(val) / size >= 0;
  }

  datatype Node = Node(addr: nat, item: seq<int>)

  /** Bucket by bucket, the nodes behind the bucket's head in order. */
  type Chains = seq<seq<Node>>

  /** Position 0 of a bucket is its head, position `i` its `i`th node. */
  predicate Spot(t: Chains, b: nat, i: nat) {
    b < |t| && i <= |t[b]|
  }

  function At(start: nat, t: Chains, b: nat, i: nat): (r: nat)
    requires Spot(t, b, i)
  {
    if i == 0 then start + NODE * b else t[b][i - 1].addr
  }

  /** What the link at that position points to. */
  function Link(t: Chains, b: nat, i: nat): (r: nat)
    requires Spot(t, b, i)
  {
    if i < |t[b]| then t[b][i].addr else 0
  }

  predicate Clear(a: nat, b: nat) {
    a + NODE <= b || b + NODE <= a
  }

  /** Heads and nodes lie apart from each other, and the chains hold items. */
  ghost predicate Placed(start: nat, t: Chains, total: nat) {
    && (forall b, i :: Spot(t, b, i) ==> At(start, t, b, i) + NODE <= total)
    && (forall b: nat, i: nat :: Spot(t, b, i) && i > 0 ==> At(start, t, b, i) > 0 && |t[b][i - 1].item| == ITEM)
    && forall b, i, c, j :: Spot(t, b, i) && Spot(t, c, j) && (b != c || i != j) ==>
       Clear(At(start, t, b, i), At(start, t, c, j))
  }

  ghost predicate SpotHolds(start: nat, t: Chains, h: Image, b: nat, i: nat)
    requires Placed(start, t, |h|) && Spot(t, b, i)
  {
    && h[At(start, t, b, i) + ITEM] == Link(t, b, i)
    && (i > 0 ==> h[At(start, t, b, i)..At(start, t, b, i) + ITEM] == t[b][i - 1].item)
  }

  /** The image holds exactly these chains: following the links from each head visits the
      nodes in order, finds their items, and ends in null. */
  ghost predicate Holds(start: nat, t: Chains, h: Image) {
    Placed(start, t, |h|) && forall b, i :: Spot(t, b, i) ==> SpotHolds(start, t, h, b, i)
  }

  ghost predicate Hashed(t: Chains) {
    |t| > 0 && forall b: nat, i: nat :: Spot(t, b, i) && i > 0 ==>
      |t[b][i - 1].item| == ITEM && Hash(t[b][i - 1].item[0], |t|) == b
  }

  // ------------------------------------------------------- an image decides the chains

  /** Only the last link of a bucket is null. */
  lemma NullEnds(start: nat, t: Chains, total: nat, b: nat, i: nat)
    requires Placed(start, t, total) && Spot(t, b, i)
    ensures Link(t, b, i) == 0 <==> i == |t[b]|
  {
    if i < |t[b]| {
      assert Spot(t, b, i + 1) && At(start, t, b, i + 1) > 0;
    }
  }

  lemma {:induction false} SameChain(start: nat, t: Chains, u: Chains, h: Image, b: nat, i: nat)
    requires Holds(start, t, h) && Holds(start, u, h) && |t| == |u| && b < |t| && i <= |t[b]|
    ensures i <= |u[b]| && t[b][..i] == u[b][..i] && (i == |t[b]| ==> |u[b]| == i)
    decreases i
  {
    if i > 0 {
      SameChain(start, t, u, h, b, i - 1);
      assert Spot(t, b, i - 1) && Spot(u, b, i - 1);
      assert SpotHolds(start, t, h, b, i - 1) && SpotHolds(start, u, h, b, i - 1);
      assert Spot(t, b, i) && SpotHolds(start, t, h, b, i);
      assert i <= |u[b]| && Spot(u, b, i) && SpotHolds(start, u, h, b, i);
      assert t[b][..i] == t[b][..i - 1] + [t[b][i - 1]] && u[b][..i] == u[b][..i - 1] + [u[b][i - 1]];
    }
    if i == |t[b]| {
      assert Spot(t, b, i) && SpotHolds(start, t, h, b, i) && Spot(u, b, i) && SpotHolds(start, u, h, b, i);
      NullEnds(start, u, |h|, b, i);
    }
  }

  /** No image holds two different tables. */
  lemma OneTable(start: nat, t: Chains, u: Chains, h: Image)
    requires Holds(start, t, h) && Holds(start, u, h) && |t| == |u|
    ensures t == u
  {
    forall b | 0 <= b < |t|
      ensures t[b] == u[b]
    {
      SameChain(start, t, u, h, b, |t[b]|);
      assert t[b][..|t[b]|] == t[b] && u[b][..|u[b]|] == u[b];
    }
  }

  // --------------------------------------------------------------------- appending

  /** A node that lies apart from all heads and nodes in use. */
  ghost predicate Fresh(start: nat, t: Chains, total: nat, node: nat) {
    0 < node && node + NODE <= total && forall b, i :: Spot(t, b, i) ==> Clear(At(start, t, b, i), node)
  }

  function Append(t: Chains, b: nat, n: Node): (r: Chains)
    requires b < |t|
  {
    t[b := t[b] + [n]]
  }

  lemma AppendSpots(start: nat, t: Chains, b: nat, n: Node, c: nat, j: nat)
    requires b < |t| && Spot(Append(t, b, n), c, j)
    ensures (c == b && j == |t[b]| + 1) || Spot(t, c, j)
    ensures At(start, Append(t, b, n), c, j) == if c == b && j == |t[b]| + 1 then n.addr else At(start, t, c, j)
    ensures Link(Append(t, b, n), c, j) ==
            if c == b && j == |t[b]| then n.addr else if c == b && j == |t[b]| + 1 then 0 else Link(t, c, j)
  {}

  lemma AppendPlaced(start: nat, t: Chains, b: nat, n: Node, total: nat)
    requires Placed(start, t, total) && Fresh(start, t, total, n.addr) && |n.item| == ITEM && b < |t|
    ensures Placed(start, Append(t, b, n), total)
  {
    var u := Append(t, b, n);
    forall c: nat, i: nat | Spot(u, c, i)
      ensures At(start, u, c, i) + NODE <= total
      ensures i > 0 ==> At(start, u, c, i) > 0 && |u[c][i - 1].item| == ITEM
    {
      AppendSpots(start, t, b, n, c, i);
    }
    forall c, i, d, j | Spot(u, c, i) && Spot(u, d, j) && (c != d || i != j)
      ensures Clear(At(start, u, c, i), At(start, u, d, j))
    {
      AppendSpots(start, t, b, n, c, i);
      AppendSpots(start, t, b, n, d, j);
    }
  }

  /** A cell of a head or node in use. */
  ghost predicate Used(start: nat, t: Chains, x: nat) {
    exists b, i :: Spot(t, b, i) && At(start, t, b, i) <= x < At(start, t, b, i) + NODE
  }

  /** The images agree on the cells in question. */
  ghost predicate Same(v: Image, h: Image, K: nat -> bool) {
    |h| == |v| && forall x: nat :: x < |h| && K(x) ==> h[x] == v[x]
  }

  /** The last link of the bucket. */
  function Tail(start: nat, t: Chains, b: nat): (r: nat)
    requires b < |t|
  {
    At(start, t, b, |t[b]|) + ITEM
  }

  lemma SameSpot(start: nat, t: Chains, v: Image, h: Image, K: nat -> bool, b: nat, i: nat)
    requires Placed(start, t, |v|) && Spot(t, b, i) && SpotHolds(start, t, v, b, i) && Same(v, h, K)
    requires forall x: nat :: At(start, t, b, i) <= x < At(start, t, b, i) + NODE ==> K(x)
    ensures SpotHolds(start, t, h, b, i)
  {
    var a := At(start, t, b, i);
    assert h[a..a + ITEM] == v[a..a + ITEM];
  }

  /** Images that agree on the cells in use hold the same chains. */
  lemma SameHolds(start: nat, t: Chains, v: Image, h: Image, K: nat -> bool)
    requires Holds(start, t, v) && Same(v, h, K) && forall x: nat :: Used(start, t, x) ==> K(x)
    ensures Holds(start, t, h)
  {
    forall b, i | Spot(t, b, i)
      ensures SpotHolds(start, t, h, b, i)
    {
      assert forall x: nat :: At(start, t, b, i) <= x < At(start, t, b, i) + NODE ==> Used(start, t, x);
      SameSpot(start, t, v, h, K, b, i);
    }
  }

  /** A new last node: its own cells, and the link that leads to it. */
  lemma AppendHolds(start: nat, t: Chains, b: nat, n: Node, v: Image, h: Image)
    requires Holds(start, t, v) && Fresh(start, t, |v|, n.addr) && |n.item| == ITEM && b < |t| && |h| == |v|
    requires forall x: nat :: x < |v| && Used(start, t, x) && x != Tail(start, t, b) ==> h[x] == v[x]
    requires h[n.addr..n.addr + ITEM] == n.item && h[n.addr + ITEM] == 0 && h[Tail(start, t, b)] == n.addr
    ensures Holds(start, Append(t, b, n), h)
  {
    var u := Append(t, b, n);
    AppendPlaced(start, t, b, n, |v|);
    forall c, i | Spot(u, c, i)
      ensures SpotHolds(start, u, h, c, i)
    {
      AppendSpots(start, t, b, n, c, i);
      if Spot(t, c, i) {
        OldSpot(start, t, b, n, v, h, c, i);
      }
    }
  }

  lemma OldSpot(start: nat, t: Chains, b: nat, n: Node, v: Image, h: Image, c: nat, i: nat)
    requires Holds(start, t, v) && b < |t| && |h| == |v| && Placed(start, Append(t, b, n), |h|) && Spot(t, c, i)
    requires forall x: nat :: x < |v| && Used(start, t, x) && x != Tail(start, t, b) ==> h[x] == v[x]
    requires h[Tail(start, t, b)] == n.addr
    ensures Spot(Append(t, b, n), c, i) && SpotHolds(start, Append(t, b, n), h, c, i)
  {
    var a := At(start, t, c, i);
    assert SpotHolds(start, t, v, c, i);
    assert Spot(t, b, |t[b]|);
    forall x: nat | a <= x < a + NODE && x != Tail(start, t, b)
      ensures h[x] == v[x]
    {
      assert Used(start, t, x);
    }
    if c != b || i != |t[b]| {
      assert Clear(a, At(start, t, b, |t[b]|));
    }
    assert h[a..a + ITEM] == v[a..a + ITEM];
    AppendSpots(start, t, b, n, c, i);
  }

  // ---------------------------------------------------------------------- removing

  /** The chains without node `i` of bucket `b`. */
  function Remove(t: Chains, b: nat, i: nat): (r: Chains)
    requires b < |t| && i < |t[b]|
  {
    t[b := t[b][..i] + t[b][i + 1..]]
  }

  /** The position a position of the shorter chains had before. */
  function Was(b: nat, i: nat, c: nat, j: nat): (r: nat) {
    if c == b && j > i then j + 1 else j
  }

  lemma RemoveSpots(start: nat, t: Chains, b: nat, i: nat, c: nat, j: nat)
    requires b < |t| && i < |t[b]| && Spot(Remove(t, b, i), c, j)
    ensures Spot(t, c, Was(b, i, c, j)) && At(start, Remove(t, b, i), c, j) == At(start, t, c, Was(b, i, c, j))
    ensures Link(Remove(t, b, i), c, j) == if c == b && j == i then Link(t, b, i + 1) else Link(t, c, Was(b, i, c, j))
    ensures j > 0 ==> Remove(t, b, i)[c][j - 1] == t[c][Was(b, i, c, j) - 1]
  {}

  lemma RemovePlaced(start: nat, t: Chains, b: nat, i: nat, total: nat)
    requires Placed(start, t, total) && b < |t| && i < |t[b]|
    ensures Placed(start, Remove(t, b, i), total)
  {
    var u := Remove(t, b, i);
    forall c: nat, j: nat | Spot(u, c, j)
      ensures At(start, u, c, j) + NODE <= total
      ensures j > 0 ==> At(start, u, c, j) > 0 && |u[c][j - 1].item| == ITEM
    {
      RemoveSpots(start, t, b, i, c, j);
    }
    forall c, j, d, k | Spot(u, c, j) && Spot(u, d, k) && (c != d || j != k)
      ensures Clear(At(start, u, c, j), At(start, u, d, k))
    {
      RemoveSpots(start, t, b, i, c, j);
      RemoveSpots(start, t, b, i, d, k);
    }
  }

  /** One store unlinks node `i`: its successor is written to its predecessor's link. */
  lemma RemoveHolds(start: nat, t: Chains, b: nat, i: nat, v: Image)
    requires Holds(start, t, v) && b < |t| && i < |t[b]|
    ensures At(start, t, b, i) + NODE <= |v|
    ensures Holds(start, Remove(t, b, i), v[At(start, t, b, i) + ITEM := Link(t, b, i + 1)])
  {
    var u, cell := Remove(t, b, i), At(start, t, b, i) + ITEM;
    assert Spot(t, b, i);
    var h := v[cell := Link(t, b, i + 1)];
    RemovePlaced(start, t, b, i, |v|);
    forall c, j | Spot(u, c, j)
      ensures SpotHolds(start, u, h, c, j)
    {
      RemoveSpots(start, t, b, i, c, j);
      var k := Was(b, i, c, j);
      var a := At(start, t, c, k);
      assert SpotHolds(start, t, v, c, k);
      if c != b || k != i {
        assert Clear(a, At(start, t, b, i));
      }
      assert h[a..a + ITEM] == v[a..a + ITEM];
    }
  }

  // ------------------------------------------------------------ the table as a multiset

  function ValueOf(n: Node): (r: int) {
    if |n.item| > 0 then n.item[0] else 0
  }

  /** How often a value occurs in a chain, and in the table. */
  function ChainCount(s: seq<Node>, x: int): (r: nat) {
    if s == [] then 0 else ChainCount(s[..|s| - 1], x) + if ValueOf(s[|s| - 1]) == x then 1 else 0
  }

  function Count(t: Chains, x: int): (r: nat) {
    if t == [] then 0 else Count(t[..|t| - 1], x) + ChainCount(t[|t| - 1], x)
  }

  lemma {:induction false} CountOfOther(t: Chains, b: nat, s: seq<Node>, x: int)
    requires b < |t|
    ensures Count(t[b := s], x) == Count(t, x) - ChainCount(t[b], x) + ChainCount(s, x)
    decreases |t|
  {
    var n := |t| - 1;
    if b == n {
      assert t[b := s][..n] == t[..n];
    } else {
      assert t[b := s][..n] == t[..n][b := s];
      CountOfOther(t[..n], b, s, x);
    }
  }

  lemma {:induction false} ChainWithout(s: seq<Node>, i: nat, x: int)
    requires i < |s|
    ensures ChainCount(s, x) == ChainCount(s[..i] + s[i + 1..], x) + if ValueOf(s[i]) == x then 1 else 0
    decreases |s|
  {
    var n, shorter := |s| - 1, s[..i] + s[i + 1..];
    if i < n {
      assert shorter[..n - 1] == s[..n][..i] + s[..n][i + 1..] && shorter[n - 1] == s[n];
      ChainWithout(s[..n], i, x);
    } else {
      assert shorter == s[..n];
    }
  }

  lemma {:induction false} ChainLacks(s: seq<Node>, x: int)
    requires forall i :: 0 <= i < |s| ==> ValueOf(s[i]) != x
    ensures ChainCount(s, x) == 0
    decreases |s|
  {
    if s != [] { ChainLacks(s[..|s| - 1], x); }
  }

  lemma {:induction false} TableLacks(t: Chains, x: int)
    requires forall b :: 0 <= b < |t| ==> ChainCount(t[b], x) == 0
    ensures Count(t, x) == 0
    decreases |t|
  {
    if t != [] { TableLacks(t[..|t| - 1], x); }
  }

  lemma AppendCounts(t: Chains, b: nat, n: Node, x: int)
    requires b < |t|
    ensures Count(Append(t, b, n), x) == Count(t, x) + if ValueOf(n) == x then 1 else 0
  {
    var s := t[b] + [n];
    assert s[..|s| - 1] == t[b];
    CountOfOther(t, b, s, x);
  }

  lemma RemoveCounts(t: Chains, b: nat, i: nat, x: int)
    requires b < |t| && i < |t[b]|
    ensures Count(Remove(t, b, i), x) == Count(t, x) - if ValueOf(t[b][i]) == x then 1 else 0
  {
    ChainWithout(t[b], i, x);
    CountOfOther(t, b, t[b][..i] + t[b][i + 1..], x);
  }

  /** A value missing from its own bucket is missing from the table. */
  lemma MissingEverywhere(t: Chains, x: int)
    requires Hashed(t) && forall i :: 0 <= i < |t[Hash(x, |t|)]| ==> ValueOf(t[Hash(x, |t|)][i]) != x
    ensures Count(t, x) == 0
  {
    forall b | 0 <= b < |t|
      ensures ChainCount(t[b], x) == 0
    {
      forall i | 0 <= i < |t[b]|
        ensures ValueOf(t[b][i]) != x
      {
        assert Spot(t, b, i + 1);
      }
      ChainLacks(t[b], x);
    }
    TableLacks(t, x);
  }
}

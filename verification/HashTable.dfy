/** `HashTable` of `janus_workload/hash/singly_linked_hash.h`, run against persistent
    memory. */
module HashTable {
  import opened PersistentMemory
  import opened HashChains

  /** While a new node's item goes out nothing in use changes, nor does the node's link. */
  ghost predicate ItemPhase(start: nat, t: Chains, node: nat, v: Image, h: Image) {
    |h| == |v| && forall x: nat :: x < |h| && (Used(start, t, x) || x == node + ITEM) ==> h[x] == v[x]
  }

  /** While it is linked nothing in use changes but the bucket's last link. */
  ghost predicate LinkPhase(start: nat, t: Chains, b: nat, node: nat, v: Image, h: Image) {
    && |h| == |v| && b < |t| && Tail(start, t, b) < |h|
    && (forall x: nat :: x < |h| && x != Tail(start, t, b) && (Used(start, t, x) || node <= x < node + NODE) ==>
          h[x] == v[x])
    && (h[Tail(start, t, b)] == 0 || h[Tail(start, t, b)] == node)
  }

  lemma ItemPhaseHolds(start: nat, t: Chains, node: nat, v: Image, h: Image)
    requires Holds(start, t, v) && ItemPhase(start, t, node, v, h)
    ensures Holds(start, t, h)
  {
    SameHolds(start, t, v, h, (x: nat) => Used(start, t, x));
  }

  lemma LinkPhaseHolds(start: nat, t: Chains, b: nat, n: Node, v: Image, h: Image)
    requires Holds(start, t, v) && Fresh(start, t, |v|, n.addr) && |n.item| == ITEM && b < |t|
    requires v[n.addr..n.addr + ITEM] == n.item && v[n.addr + ITEM] == 0
    requires LinkPhase(start, t, b, n.addr, v, h)
    ensures Holds(start, if h[Tail(start, t, b)] == 0 then t else Append(t, b, n), h)
  {
    assert Spot(t, b, |t[b]|) && SpotHolds(start, t, v, b, |t[b]|);
    if h[Tail(start, t, b)] == 0 {
      SameHolds(start, t, v, h, (x: nat) => Used(start, t, x));
    } else {
      assert !(n.addr <= Tail(start, t, b) < n.addr + NODE) by {
        assert Clear(At(start, t, b, |t[b]|), n.addr);
      }
      assert h[n.addr..n.addr + ITEM] == v[n.addr..n.addr + ITEM];
      AppendHolds(start, t, b, n, v, h);
    }
  }

  lemma FreshCells(start: nat, t: Chains, total: nat, node: nat)
    requires Fresh(start, t, total, node)
    ensures forall x: nat :: Used(start, t, x) ==> !(node <= x < node + NODE)
  {
    forall x: nat | Used(start, t, x)
      ensures !(node <= x < node + NODE)
    {
      var b, i :| Spot(t, b, i) && At(start, t, b, i) <= x < At(start, t, b, i) + NODE;
      assert Clear(At(start, t, b, i), node);
    }
  }

  /** The crash condition of the item's phase; none if the table was not durable before. */
  ghost function ItemCond(start: nat, t: Chains, node: nat, v: Image, durable: bool): (P: Image -> bool) {
    h => durable ==> ItemPhase(start, t, node, v, h)
  }

  ghost function LinkCond(start: nat, t: Chains, b: nat, node: nat, v: Image, durable: bool): (P: Image -> bool) {
    h => durable ==> LinkPhase(start, t, b, node, v, h)
  }

  /** Where the value first occurs, or the chain's length. */
  function FirstIndex(s: seq<Node>, x: int): (i: nat)
    ensures i <= |s| && (i < |s| ==> ValueOf(s[i]) == x) && forall j :: 0 <= j < i ==> ValueOf(s[j]) != x
  {
    if s == [] then 0
    else
      var i := FirstIndex(s[..|s| - 1], x);
      if i < |s| - 1 || ValueOf(s[|s| - 1]) == x then i else |s|
  }

  function EraseFirst(t: Chains, x: int): (r: Chains)
    requires |t| > 0
  {
    var b := Hash(x, |t|);
    var i := FirstIndex(t[b], x);
    if i < |t[b]| then Remove(t, b, i) else t
  }

  /** One occurrence of the value goes, if there is one anywhere; no other value's count
      changes. */
  lemma EraseCounts(t: Chains, x: int, y: int)
    requires Hashed(t)
    ensures Count(EraseFirst(t, x), y) == if y == x && Count(t, x) > 0 then Count(t, x) - 1 else Count(t, y)
  {
    var b := Hash(x, |t|);
    var i := FirstIndex(t[b], x);
    if i < |t[b]| {
      RemoveCounts(t, b, i, y);
    } else {
      MissingEverywhere(t, x);
    }
  }

  lemma EraseHashed(t: Chains, b: nat, i: nat)
    requires Hashed(t) && b < |t| && i < |t[b]|
    ensures Hashed(Remove(t, b, i))
  {
    var u := Remove(t, b, i);
    forall c: nat, j: nat | Spot(u, c, j) && j > 0
      ensures |u[c][j - 1].item| == ITEM && Hash(u[c][j - 1].item[0], |u|) == c
    {
      RemoveSpots(0, t, b, i, c, j);
    }
  }

  class HashTable {
    const mem: Memory
    const start: nat
    const size: nat
    ghost var chains: Chains

    ghost predicate Valid()
      reads this, mem
    {
      mem.Valid() && size > 0 && |chains| == size && Hashed(chains) && Holds(start, chains, mem.vol)
    }

    /** Every cell in use is durable. */
    ghost predicate Durable()
      reads this, mem
    {
      |mem.dur| == |mem.vol| && forall x: nat :: x < |mem.vol| && Used(start, chains, x) ==> mem.dur[x] == mem.vol[x]
    }

    /** A table of `size` heads with null links. */
    constructor (mem: Memory, start: nat, size: nat)
      requires mem.Valid() && size > 0 && start + 9 * size <= |mem.vol|
      requires forall b :: 0 <= b < size ==> mem.vol[start + 9 * b + 8] == 0
      ensures Valid() && this.mem == mem && this.start == start && this.size == size
      ensures chains == seq(size, _ => [])
    {
      this.mem := mem;
      this.start := start;
      this.size := size;
      chains := seq(size, _ => []);
      new;
      forall b, i | Spot(chains, b, i)
        ensures At(start, chains, b, i) + NODE <= |mem.vol| && At(start, chains, b, i) == start + NODE * b && i == 0
      {
      }
    }

    /** The walk to the end of a chain. */
    method FindTail(b: nat) returns (location: nat)
      requires Valid() && b < size
      ensures location == At(start, chains, b, |chains[b]|)
    {
      location := start + NODE * b;
      ghost var i := 0;
      assert SpotHolds(start, chains, mem.vol, b, 0);
      NullEnds(start, chains, |mem.vol|, b, 0);
      while mem.vol[location + ITEM] != 0
        invariant i <= |chains[b]| && location == At(start, chains, b, i) && location + NODE <= |mem.vol|
        invariant mem.vol[location + ITEM] == Link(chains, b, i) && (Link(chains, b, i) == 0 <==> i == |chains[b]|)
        decreases |chains[b]| - i
      {
        location := mem.vol[location + ITEM];
        i := i + 1;
        assert Spot(chains, b, i) && SpotHolds(start, chains, mem.vol, b, i);
        NullEnds(start, chains, |mem.vol|, b, i);
      }
    }

    /** The item is copied into the new node, flushed and fenced. */
    method StoreItem(node: nat, item: seq<int>, ghost durable: bool)
      requires Valid() && Fresh(start, chains, |mem.vol|, node) && |item| == ITEM
      requires durable ==> Durable() && mem.dur[node + ITEM] == mem.vol[node + ITEM]
      modifies mem
      ensures Valid() && mem.vol == Overwrite(old(mem.vol), node, item)
      ensures forall x :: node <= x < node + ITEM ==> mem.dur[x] == mem.vol[x]
      ensures mem.vol[node..node + ITEM] == item &&
              StaysExcept(old(mem.vol), old(mem.dur), mem.vol, mem.dur, node, ITEM)
      ensures durable ==> Durable() && mem.dur[node + ITEM] == mem.vol[node + ITEM]
      ensures old(mem.crashes) <= mem.crashes
      ensures durable ==> forall k :: |old(mem.crashes)| <= k < |mem.crashes| ==> Holds(start, chains, mem.crashes[k])
    {
      ghost var v0 := mem.vol;
      ItemReady(start, chains, node, v0, item, durable);
      CellwisePhase(mem.perLine, ItemCond(start, chains, node, v0, durable), v0, [(node, item)]);
      mem.Phase([(node, item)], [(node, ITEM)], ItemCond(start, chains, node, v0, durable));
      OneCells(node, item);
      FreshCells(start, chains, |v0|, node);
      OverwriteSlice(v0, node, item);
      ItemPhaseHolds(start, chains, node, v0, mem.vol);
      if durable {
        forall k | |old(mem.crashes)| <= k < |mem.crashes|
          ensures Holds(start, chains, mem.crashes[k])
        {
          assert ItemCond(start, chains, node, v0, durable)(mem.crashes[k]);
          ItemPhaseHolds(start, chains, node, v0, mem.crashes[k]);
        }
      }
    }

    /** The bucket's last link is set to the node, flushed and fenced. */
    method LinkNode(location: nat, node: nat, ghost b: nat, ghost item: seq<int>, ghost durable: bool)
      requires Valid() && b < size && location == At(start, chains, b, |chains[b]|)
      requires Fresh(start, chains, |mem.vol|, node) && |item| == ITEM && Hash(item[0], size) == b
      requires mem.vol[node..node + ITEM] == item && mem.vol[node + ITEM] == 0
      requires durable ==> Durable() && forall x :: node <= x < node + NODE ==> mem.dur[x] == mem.vol[x]
      modifies mem, this`chains
      ensures Valid() && chains == Append(old(chains), b, Node(node, item))
      ensures mem.vol == old(mem.vol)[location + ITEM := node] && mem.dur[location + ITEM] == node
      ensures StaysExcept(old(mem.vol), old(mem.dur), mem.vol, mem.dur, location + ITEM, 1)
      ensures durable ==> Durable()
      ensures old(mem.crashes) <= mem.crashes
      ensures durable ==> forall k :: |old(mem.crashes)| <= k < |mem.crashes| ==>
              EitherHolds(start, old(chains), chains, mem.crashes[k])
    {
      ghost var t, v0, n := chains, mem.vol, Node(node, item);
      LinkReady(start, t, b, n, v0, durable);
      CellwisePhase(mem.perLine, LinkCond(start, t, b, node, v0, durable), v0, [(location + ITEM, [node])]);
      mem.Phase([(location + ITEM, [node])], [(location + ITEM, 1)], LinkCond(start, t, b, node, v0, durable));
      OneCells(location + ITEM, [node]);
      LinkPhaseHolds(start, t, b, n, v0, mem.vol);
      chains := Append(t, b, n);
      AppendUsed(start, t, b, n);
      if durable {
        forall k | |old(mem.crashes)| <= k < |mem.crashes|
          ensures EitherHolds(start, t, chains, mem.crashes[k])
        {
          assert LinkCond(start, t, b, node, v0, durable)(mem.crashes[k]);
          LinkPhaseHolds(start, t, b, n, v0, mem.crashes[k]);
        }
      }
    }

    /** `insert`: the item is durable before the link to it is stored. A crash leaves the
        chains of before or of after. */
    method Insert(node: nat, item: seq<int>)
      requires Valid() && Fresh(start, chains, |mem.vol|, node) && |item| == ITEM && mem.vol[node + ITEM] == 0
      modifies mem, this`chains
      ensures Valid() && chains == Append(old(chains), Hash(item[0], size), Node(node, item))
      ensures old(mem.crashes) <= mem.crashes && |mem.vol| == old(|mem.vol|)
      ensures old(Durable() && mem.dur[node + ITEM] == 0) ==>
                Durable() && forall k :: |old(mem.crashes)| <= k < |mem.crashes| ==>
                  EitherHolds(start, old(chains), chains, mem.crashes[k])
      ensures ElsewhereStays(start, old(chains), node, old(mem.vol), old(mem.dur), mem.vol, mem.dur)
    {
      ghost var durable := Durable() && mem.dur[node + ITEM] == 0;
      var b := Hash(item[0], size);
      StoreItem(node, item, durable);
      ghost var v1, d1 := mem.vol, mem.dur;
      var location := FindTail(b);
      LinkNode(location, node, b, item, durable);
      StaysTwice(start, old(chains), node, b, old(mem.vol), old(mem.dur), v1, d1, mem.vol, mem.dur);
    }

    /** `init_insert`: links a node whose item is already in place; nothing is flushed. */
    method InitInsert(node: nat)
      requires Valid() && Fresh(start, chains, |mem.vol|, node) && mem.vol[node + ITEM] == 0
      modifies mem, this`chains
      ensures Valid() && |mem.vol| == old(|mem.vol|)
      ensures chains == Append(old(chains), Hash(old(mem.vol[node]), size), Node(node, old(mem.vol[node..node + ITEM])))
      ensures forall x: nat :: x < |mem.vol| && !old(Used(start, chains, x)) ==> mem.vol[x] == old(mem.vol[x])
    {
      ghost var v0, n := mem.vol, Node(node, mem.vol[node..node + ITEM]);
      var b := Hash(mem.vol[node], size);
      var location := FindTail(b);
      LinkReady(start, chains, b, n, v0, false);
      mem.Store(location + ITEM, node, h => true);
      LinkPhaseHolds(start, chains, b, n, v0, mem.vol);
      TailUsed(start, chains, b);
      chains := Append(chains, b, n);
    }

    /** The walk to the first node with the value; `location` is null if there is none. */
    method FindValue(b: nat, val: int) returns (previous: nat, location: nat, ghost i: nat)
      requires Valid() && b < size
      ensures i == FirstIndex(chains[b], val) && (location == 0 <==> i == |chains[b]|)
      ensures previous == At(start, chains, b, i) && location == Link(chains, b, i)
    {
      i, previous := 0, start + NODE * b;
      assert Spot(chains, b, 0) && SpotHolds(start, chains, mem.vol, b, 0);
      location := mem.vol[previous + ITEM];
      NullEnds(start, chains, |mem.vol|, b, 0);
      while location != 0
        invariant i <= |chains[b]| && previous == At(start, chains, b, i) && location == Link(chains, b, i)
        invariant location == 0 <==> i == |chains[b]|
        invariant forall j :: 0 <= j < i ==> ValueOf(chains[b][j]) != val
        decreases |chains[b]| - i
      {
        NodeAt(start, chains, mem.vol, b, i);
        if mem.vol[location] == val {
          break;
        }
        previous := location;
        location := mem.vol[location + ITEM];
        i := i + 1;
        NullEnds(start, chains, |mem.vol|, b, i);
      }
    }

    /** `erase`: unlinks the first node with the value, if there is one. */
    method Erase(val: int)
      requires Valid()
      modifies mem, this`chains
      ensures Valid() && |mem.vol| == old(|mem.vol|) && chains == EraseFirst(old(chains), val)
      ensures forall x: nat :: x < |mem.vol| && !old(Used(start, chains, x)) ==> mem.vol[x] == old(mem.vol[x])
    {
      ghost var i: nat;
      var b, previous, location := Hash(val, size), 0, 0;
      previous, location, i := FindValue(b, val);
      if location != 0 {
        NodeAt(start, chains, mem.vol, b, i);
        Unlink(previous, mem.vol[location + ITEM], b, i);
      }
    }

    method Unlink(previous: nat, next: nat, ghost b: nat, ghost i: nat)
      requires Valid() && b < size && i < |chains[b]| && previous == At(start, chains, b, i) &&
               next == Link(chains, b, i + 1)
      modifies mem, this`chains
      ensures Valid() && |mem.vol| == old(|mem.vol|) && chains == Remove(old(chains), b, i)
      ensures forall x: nat :: x < |mem.vol| && !old(Used(start, chains, x)) ==> mem.vol[x] == old(mem.vol[x])
    {
      RemoveHolds(start, chains, b, i, mem.vol);
      EraseHashed(chains, b, i);
      SpotUsed(start, chains, b, i);
      mem.Store(previous + ITEM, next, h => true);
      mem.Fence(h => true);
      chains := Remove(chains, b, i);
    }

    method Perform(op: Op)
      requires Valid() && Awaits(start, chains, mem.vol, op)
      modifies mem, this`chains
      ensures Valid() && chains == Step(old(chains), op) && Undisturbed(start, old(chains), op, old(mem.vol), mem.vol)
    {
      match op
      case Init(node, item) =>
        assert mem.vol[node] == mem.vol[node..node + ITEM][0];
        InitInsert(node);
      case Add(node, item) =>
        Insert(node, item);
      case Drop(val) =>
        Erase(val);
    }

    /** Any mix of operations, each on a node of its own. */
    method Run(ops: seq<Op>)
      requires Valid() && NodesApart(ops)
      requires forall k :: 0 <= k < |ops| ==> Awaits(start, chains, mem.vol, ops[k])
      modifies mem, this`chains
      ensures Valid() && chains == After(old(chains), ops)
    {
      var i := 0;
      while i < |ops|
        invariant 0 <= i <= |ops| && Valid() && chains == AfterFirst(old(chains), ops, i)
        invariant forall k :: i <= k < |ops| ==> Awaits(start, chains, mem.vol, ops[k])
      {
        ghost var t, v := chains, mem.vol;
        assert Awaits(start, chains, mem.vol, ops[i]);
        Perform(ops[i]);
        StepFrame(start, t, v, mem.vol, ops, i);
        AfterOneMore(old(chains), ops, i);
        i := i + 1;
      }
      assert ops[..i] == ops;
    }

    /** The first `i` inserts of a run on the chains `t` are over; the others may follow. */
    ghost predicate Inserted(t: Chains, ops: seq<Op>, i: nat, crashes: nat, marks: seq<nat>)
      reads this, mem
    {
      && Valid() && Durable() && NodesApart(ops) && i <= |ops| && chains == AfterFirst(t, ops, i)
      && (forall k :: i <= k < |ops| ==> AwaitsDurably(start, chains, mem.vol, mem.dur, ops[k]))
      && |marks| == i + 1 && marks[0] == crashes && Rounds(marks, mem.crashes, DuringOp(start, t, ops))
    }

    method InsertNext(ghost t: Chains, ops: seq<Op>, i: nat, ghost crashes: nat, ghost marks: seq<nat>)
      returns (ghost more: seq<nat>)
      requires i < |ops| && Inserted(t, ops, i, crashes, marks)
      modifies mem, this`chains
      ensures Inserted(t, ops, i + 1, crashes, more)
    {
      ghost var u, v, d, past := chains, mem.vol, mem.dur, mem.crashes;
      assert AwaitsDurably(start, chains, mem.vol, mem.dur, ops[i]);
      Insert(ops[i].node, ops[i].item);
      DurableFrame(start, u, v, d, mem.vol, mem.dur, ops, i);
      AfterOneMore(t, ops, i);
      OneMoreRound(marks, past, mem.crashes, DuringOp(start, t, ops));
      more := marks + [|mem.crashes|];
    }

    /** Inserts into a durable table: a crash finds in every bucket the nodes of the
        inserts that are over, and at most the one that is running. */
    method InsertAll(ops: seq<Op>) returns (ghost marks: seq<nat>)
      requires Valid() && Durable() && NodesApart(ops)
      requires forall k :: 0 <= k < |ops| ==> AwaitsDurably(start, chains, mem.vol, mem.dur, ops[k])
      modifies mem, this`chains
      ensures Valid() && Durable() && chains == After(old(chains), ops)
      ensures |marks| == |ops| + 1 && marks[0] == |old(mem.crashes)|
      ensures Rounds(marks, mem.crashes, DuringOp(start, old(chains), ops))
    {
      var i := 0;
      marks := [|mem.crashes|];
      while i < |ops|
        invariant i <= |ops| && Inserted(old(chains), ops, i, |old(mem.crashes)|, marks)
      {
        marks := InsertNext(old(chains), ops, i, |old(mem.crashes)|, marks);
        i := i + 1;
      }
      assert ops[..i] == ops;
    }
  }

  /** Outside the given cells nothing changed, and what was durable still is. */
  ghost predicate StaysExcept(v: Image, d: Image, w: Image, e: Image, a: nat, n: nat) {
    && |w| == |e| == |v| == |d|
    && forall x :: 0 <= x < |v| && !(a <= x < a + n) ==> w[x] == v[x] && (d[x] == v[x] ==> e[x] == w[x])
  }

  ghost predicate EitherHolds(start: nat, t: Chains, u: Chains, h: Image) {
    Holds(start, t, h) || Holds(start, u, h)
  }

  /** Outside the new node and the cells in use before, nothing changed and what was
      durable still is. */
  ghost predicate ElsewhereStays(start: nat, t: Chains, node: nat, v: Image, d: Image, w: Image, e: Image) {
    && |w| == |e| == |v| == |d|
    && forall x: nat :: x < |v| && !(node <= x < node + NODE) && !Used(start, t, x) ==>
         w[x] == v[x] && (d[x] == v[x] ==> e[x] == w[x])
  }

  lemma StaysTwice(start: nat, t: Chains, node: nat, b: nat, v: Image, d: Image, w: Image, e: Image, x: Image, f: Image)
    requires b < |t| && StaysExcept(v, d, w, e, node, ITEM) && StaysExcept(w, e, x, f, Tail(start, t, b), 1)
    ensures ElsewhereStays(start, t, node, v, d, x, f)
  {
    TailUsed(start, t, b);
  }

  lemma SpotUsed(start: nat, t: Chains, b: nat, i: nat)
    requires Spot(t, b, i)
    ensures Used(start, t, At(start, t, b, i) + ITEM)
  {}

  lemma TailUsed(start: nat, t: Chains, b: nat)
    requires b < |t|
    ensures Used(start, t, Tail(start, t, b))
  {
    assert Spot(t, b, |t[b]|);
  }

  lemma AppendUsed(start: nat, t: Chains, b: nat, n: Node)
    requires b < |t|
    ensures forall x: nat :: Used(start, Append(t, b, n), x) ==> Used(start, t, x) || n.addr <= x < n.addr + NODE
  {
    forall x: nat | Used(start, Append(t, b, n), x)
      ensures Used(start, t, x) || n.addr <= x < n.addr + NODE
    {
      var c, i :| Spot(Append(t, b, n), c, i) &&
          At(start, Append(t, b, n), c, i) <= x < At(start, Append(t, b, n), c, i) + NODE;
      AppendSpots(start, t, b, n, c, i);
    }
  }

  lemma OneCells(a: nat, xs: seq<int>)
    ensures forall x: nat :: InWrites([(a, xs)], x) <==> a <= x < a + |xs|
    ensures forall x: nat :: InRanges([(a, |xs|)], x) <==> a <= x < a + |xs|
  {
    forall x: nat | a <= x < a + |xs|
      ensures InWrites([(a, xs)], x) && InRanges([(a, |xs|)], x)
    {
      assert [(a, xs)][0].0 <= x < [(a, xs)][0].0 + |[(a, xs)][0].1|;
      assert [(a, |xs|)][0].0 <= x < [(a, |xs|)][0].0 + [(a, |xs|)][0].1;
    }
  }

  lemma ItemReady(start: nat, t: Chains, node: nat, v: Image, item: seq<int>, durable: bool)
    requires Placed(start, t, |v|) && Fresh(start, t, |v|, node) && |item| == ITEM
    ensures var P := ItemCond(start, t, node, v, durable); Cellwise(P) && WritesStay(P, v, [(node, item)])
    ensures WritesFit(|v|, [(node, item)]) && ApplyWrites(v, [(node, item)]) == Overwrite(v, node, item)
    ensures ItemPhase(start, t, node, v, Overwrite(v, node, item))
  {
    OneWrite(v, (node, item));
    FreshCells(start, t, |v|, node);
    assert |[(node, item)][1..]| == 0;
  }

  lemma LinkCellwise(start: nat, t: Chains, b: nat, node: nat, v: Image, durable: bool)
    ensures Cellwise(LinkCond(start, t, b, node, v, durable))
  {}

  /** The bucket's last link is null and in memory, and setting it stays in the phase. */
  lemma LinkSet(start: nat, t: Chains, b: nat, node: nat, v: Image)
    requires Holds(start, t, v) && b < |t|
    ensures Tail(start, t, b) < |v| && v[Tail(start, t, b)] == 0
    ensures LinkPhase(start, t, b, node, v, v) && LinkPhase(start, t, b, node, v, v[Tail(start, t, b) := node])
  {
    assert Spot(t, b, |t[b]|) && SpotHolds(start, t, v, b, |t[b]|);
  }

  lemma OneCell(P: Image -> bool, v: Image, cell: nat, x: int)
    requires cell < |v| && P(v[cell := x])
    ensures var w := [(cell, [x])]; WritesFit(|v|, w) && ApplyWrites(v, w) == v[cell := x] && WritesStay(P, v, w)
  {
    OneWrite(v, (cell, [x]));
    assert Overwrite(v, cell, [x]) == v[cell := x];
    assert |[(cell, [x])][1..]| == 0;
  }

  lemma LinkReady(start: nat, t: Chains, b: nat, n: Node, v: Image, durable: bool)
    requires Holds(start, t, v) && Hashed(t) && Fresh(start, t, |v|, n.addr) && b < |t| && |n.item| == ITEM &&
             Hash(n.item[0], |t|) == b
    ensures var P := LinkCond(start, t, b, n.addr, v, durable);
            var cell := Tail(start, t, b);
            var w := [(cell, [n.addr])];
            && cell < |v| && P(v) && Cellwise(P) && WritesStay(P, v, w)
            && WritesFit(|v|, w) && ApplyWrites(v, w) == v[cell := n.addr]
            && LinkPhase(start, t, b, n.addr, v, v[cell := n.addr])
    ensures Hashed(Append(t, b, n))
  {
    LinkSet(start, t, b, n.addr, v);
    LinkCellwise(start, t, b, n.addr, v, durable);
    OneCell(LinkCond(start, t, b, n.addr, v, durable), v, Tail(start, t, b), n.addr);
    AppendHashed(t, b, n);
  }

  lemma AppendHashed(t: Chains, b: nat, n: Node)
    requires Hashed(t) && b < |t| && |n.item| == ITEM && Hash(n.item[0], |t|) == b
    ensures Hashed(Append(t, b, n))
  {
    var u := Append(t, b, n);
    forall c: nat, j: nat | Spot(u, c, j) && j > 0
      ensures |u[c][j - 1].item| == ITEM && Hash(u[c][j - 1].item[0], |u|) == c
    {
      if Spot(t, c, j) { assert u[c][j - 1] == t[c][j - 1]; }
    }
  }

  /** The node behind position `i`: its value and its link. */
  lemma NodeAt(start: nat, t: Chains, h: Image, b: nat, i: nat)
    requires Holds(start, t, h) && b < |t| && i < |t[b]|
    ensures t[b][i].addr == Link(t, b, i) == At(start, t, b, i + 1) && t[b][i].addr + NODE <= |h|
    ensures h[t[b][i].addr] == ValueOf(t[b][i]) && h[t[b][i].addr + ITEM] == Link(t, b, i + 1)
  {
    assert Spot(t, b, i + 1) && SpotHolds(start, t, h, b, i + 1);
    var a := t[b][i].addr;
    assert h[a] == h[a..a + ITEM][0];
  }

  // --------------------------------------------------------------------- whole runs

  datatype Op = Init(node: nat, item: seq<int>) | Add(node: nat, item: seq<int>) | Drop(val: int)

  function Step(t: Chains, op: Op): (r: Chains)
    ensures |r| == |t|
  {
    if |t| == 0 then t
    else
      match op
      case Init(node, item) => if |item| == ITEM then Append(t, Hash(item[0], |t|), Node(node, item)) else t
      case Add(node, item) => if |item| == ITEM then Append(t, Hash(item[0], |t|), Node(node, item)) else t
      case Drop(val) => EraseFirst(t, val)
  }

  function After(t: Chains, ops: seq<Op>): (r: Chains)
    ensures |r| == |t|
  {
    if ops == [] then t else Step(After(t, ops[..|ops| - 1]), ops[|ops| - 1])
  }

  function AfterFirst(t: Chains, ops: seq<Op>, i: nat): (r: Chains)
    requires i <= |ops|
    ensures |r| == |t|
  {
    After(t, ops[..i])
  }

  lemma AfterOneMore(t: Chains, ops: seq<Op>, i: nat)
    requires i < |ops|
    ensures AfterFirst(t, ops, i + 1) == Step(AfterFirst(t, ops, i), ops[i])
  {
    assert ops[..i + 1][..i] == ops[..i];
  }

  /** No two operations bring nodes that overlap. */
  ghost predicate NodesApart(ops: seq<Op>) {
    forall i, j :: 0 <= i < j < |ops| && !ops[i].Drop? && !ops[j].Drop? ==> Clear(ops[i].node, ops[j].node)
  }

  /** The operation's node is unused, its link is null, and `init_insert` finds the item
      already there. */
  ghost predicate Awaits(start: nat, t: Chains, v: Image, op: Op) {
    !op.Drop? ==>
      && Fresh(start, t, |v|, op.node) && v[op.node + ITEM] == 0 && |op.item| == ITEM
      && (op.Init? ==> v[op.node..op.node + ITEM] == op.item)
  }

  ghost predicate AwaitsDurably(start: nat, t: Chains, v: Image, d: Image, op: Op) {
    op.Add? && Awaits(start, t, v, op) && |d| == |v| && d[op.node + ITEM] == 0
  }

  lemma StepSpots(start: nat, t: Chains, op: Op, b: nat, i: nat)
    requires Spot(Step(t, op), b, i) && (!op.Drop? ==> |op.item| == ITEM)
    ensures || (!op.Drop? && At(start, Step(t, op), b, i) == op.node)
            || exists j :: Spot(t, b, j) && At(start, t, b, j) == At(start, Step(t, op), b, i)
  {
    if op.Drop? {
      var c := Hash(op.val, |t|);
      var k := FirstIndex(t[c], op.val);
      if k < |t[c]| {
        RemoveSpots(start, t, c, k, b, i);
      } else {
        assert Spot(t, b, i);
      }
    } else {
      AppendSpots(start, t, Hash(op.item[0], |t|), Node(op.node, op.item), b, i);
    }
  }

  lemma StillFresh(start: nat, t: Chains, op: Op, total: nat, node: nat)
    requires Fresh(start, t, total, node) && (!op.Drop? ==> |op.item| == ITEM && Clear(op.node, node))
    ensures Fresh(start, Step(t, op), total, node)
  {
    forall b, i | Spot(Step(t, op), b, i)
      ensures Clear(At(start, Step(t, op), b, i), node)
    {
      StepSpots(start, t, op, b, i);
    }
  }

  ghost predicate Undisturbed(start: nat, t: Chains, op: Op, v: Image, w: Image) {
    |w| == |v| && forall x: nat :: x < |v| && !Used(start, t, x) && !(op.Add? && op.node <= x < op.node + NODE) ==>
      w[x] == v[x]
  }

  lemma StillAwaits(start: nat, t: Chains, v: Image, w: Image, op: Op, later: Op)
    requires Awaits(start, t, v, op) && Awaits(start, t, v, later) && Undisturbed(start, t, op, v, w)
    requires !op.Drop? && !later.Drop? ==> Clear(op.node, later.node)
    ensures Awaits(start, Step(t, op), w, later)
  {
    if !later.Drop? {
      StillFresh(start, t, op, |v|, later.node);
      FreshCells(start, t, |v|, later.node);
      assert w[later.node..later.node + ITEM] == v[later.node..later.node + ITEM];
    }
  }

  lemma StepFrame(start: nat, t: Chains, v: Image, w: Image, ops: seq<Op>, i: nat)
    requires i < |ops| && NodesApart(ops) && Undisturbed(start, t, ops[i], v, w)
    requires forall k :: i <= k < |ops| ==> Awaits(start, t, v, ops[k])
    ensures forall k :: i + 1 <= k < |ops| ==> Awaits(start, Step(t, ops[i]), w, ops[k])
  {
    forall k | i + 1 <= k < |ops|
      ensures Awaits(start, Step(t, ops[i]), w, ops[k])
    {
      StillAwaits(start, t, v, w, ops[i], ops[k]);
    }
  }

  lemma DurableFrame(start: nat, t: Chains, v: Image, d: Image, w: Image, e: Image, ops: seq<Op>, i: nat)
    requires i < |ops| && NodesApart(ops) && ops[i].Add? && ElsewhereStays(start, t, ops[i].node, v, d, w, e)
    requires forall k :: i <= k < |ops| ==> AwaitsDurably(start, t, v, d, ops[k])
    ensures forall k :: i + 1 <= k < |ops| ==> AwaitsDurably(start, Step(t, ops[i]), w, e, ops[k])
  {
    forall k | i + 1 <= k < |ops|
      ensures AwaitsDurably(start, Step(t, ops[i]), w, e, ops[k])
    {
      assert AwaitsDurably(start, t, v, d, ops[k]) && AwaitsDurably(start, t, v, d, ops[i]);
      StillAwaits(start, t, v, w, ops[i], ops[k]);
      FreshCells(start, t, |v|, ops[k].node);
    }
  }

  /** An image taken while operation `j` ran holds the chains of before or of after it. */
  ghost function DuringOp(start: nat, t: Chains, ops: seq<Op>): (Q: (nat, Image) -> bool) {
    (j: nat, h: Image) => j < |ops| && EitherHolds(start, AfterFirst(t, ops, j), AfterFirst(t, ops, j + 1), h)
  }

  // ----------------------------------------------------- what a run leaves in the table

  /** The multiset the table stands for, operation by operation. */
  function Bag(m: multiset<int>, ops: seq<Op>): (r: multiset<int>) {
    if ops == [] then m
    else
      var before := Bag(m, ops[..|ops| - 1]);
      match ops[|ops| - 1]
      case Init(_, item) => if |item| == ITEM then before + multiset{item[0]} else before
      case Add(_, item) => if |item| == ITEM then before + multiset{item[0]} else before
      case Drop(val) => before - multiset{val}
  }

  lemma StepHashed(t: Chains, op: Op)
    requires Hashed(t)
    ensures Hashed(Step(t, op))
  {
    match op {
      case Init(node, item) => if |item| == ITEM { AppendHashed(t, Hash(item[0], |t|), Node(node, item)); }
      case Add(node, item) => if |item| == ITEM { AppendHashed(t, Hash(item[0], |t|), Node(node, item)); }
      case Drop(val) =>
        var b := Hash(val, |t|);
        if FirstIndex(t[b], val) < |t[b]| { EraseHashed(t, b, FirstIndex(t[b], val)); }
    }
  }

  /** After any run the table holds every value as often as the multiset does. */
  lemma {:induction false} RunRefinesBag(t: Chains, ops: seq<Op>, m: multiset<int>)
    requires Hashed(t) && forall x :: Count(t, x) == m[x]
    ensures Hashed(After(t, ops)) && forall x :: Count(After(t, ops), x) == Bag(m, ops)[x]
    decreases |ops|
  {
    if ops != [] {
      var rest, op := ops[..|ops| - 1], ops[|ops| - 1];
      RunRefinesBag(t, rest, m);
      var u := After(t, rest);
      StepHashed(u, op);
      forall x
        ensures Count(Step(u, op), x) == Bag(m, ops)[x]
      {
        match op {
          case Init(node, item) => if |item| == ITEM { AppendCounts(u, Hash(item[0], |u|), Node(node, item), x); }
          case Add(node, item) => if |item| == ITEM { AppendCounts(u, Hash(item[0], |u|), Node(node, item), x); }
          case Drop(val) => EraseCounts(u, val, x);
        }
      }
    }
  }

  /** The nodes that inserts bring to one bucket, in order. */
  function Brought(ops: seq<Op>, size: nat, b: nat): (r: seq<Node>)
    requires size > 0
  {
    if ops == [] then []
    else
      var rest, op := Brought(ops[..|ops| - 1], size, b), ops[|ops| - 1];
      if op.Add? && |op.item| == ITEM && Hash(op.item[0], size) == b then rest + [Node(op.node, op.item)] else rest
  }

  /** An insert-only run appends to each bucket exactly the nodes hashed there, in order. */
  lemma {:induction false} InsertsInOrder(t: Chains, ops: seq<Op>, b: nat)
    requires b < |t| && forall k :: 0 <= k < |ops| ==> ops[k].Add?
    ensures After(t, ops)[b] == t[b] + Brought(ops, |t|, b)
    decreases |ops|
  {
    if ops != [] {
      InsertsInOrder(t, ops[..|ops| - 1], b);
    }
  }
}

/** The ring buffer that holds a transaction's lock ids
    (`janus_workload/TPCC/simple_queue.h`), and the two loops that fill and drain it
    (`acquire_locks`, `release_locks` in `janus_workload/TPCC/tpcc_db.cc`). */
module LockQueue {
  const QUEUE_SIZE: nat := 20
  const CAPACITY: nat := QUEUE_SIZE - 1

  class SimpleQueue {
    const entries: array<int>
    var head: nat
    var tail: nat
    /** Oldest entry first. */
    ghost var contents: seq<int>

    ghost predicate Valid()
      reads this, entries
    {
      && entries.Length == QUEUE_SIZE && head < QUEUE_SIZE && tail < QUEUE_SIZE
      && contents == if tail <= head then entries[tail..head] else entries[tail..] + entries[..head]
    }

    constructor ()
      ensures Valid() && contents == [] && fresh(entries) && entries.Length == 20
    {
      entries := new int[QUEUE_SIZE];
      head, tail, contents := 0, 0, [];
    }

    predicate Empty()
      reads this, entries
      requires Valid()
      ensures Empty() <==> contents == []
    {
      head == tail
    }

    predicate Full()
      reads this, entries
      requires Valid()
      ensures Full() <==> |contents| == 19
    {
      if tail == 0 then head == QUEUE_SIZE - 1 else head == tail - 1
    }

    function Size(): (n: nat)
      reads this, entries
      requires Valid()
      ensures n == |contents|
    {
      if head >= tail then head - tail else QUEUE_SIZE - tail + head
    }

    /** Whatever slot the tail points at; the oldest entry if there is one. */
    function Front(): (x: int)
      reads this, entries
      requires Valid()
      ensures contents != [] ==> x == contents[0]
    {
      entries[tail]
    }

    method Push(entry: int) returns (ok: bool)
      requires Valid()
      modifies this`head, this`contents, entries
      ensures Valid() && (ok <==> |old(contents)| < 19)
      ensures contents == if ok then old(contents) + [entry] else old(contents)
    {
      if Full() {
        return false;
      }
      entries[head] := entry;
      contents := contents + [entry];
      if head == QUEUE_SIZE - 1 {
        head := 0;
      } else {
        head := head + 1;
      }
      return true;
    }

    method Pop() returns (ok: bool)
      requires Valid()
      modifies this`tail, this`contents
      ensures Valid() && (ok <==> old(contents) != [])
      ensures contents == if ok then old(contents)[1..] else []
    {
      if Empty() {
        return false;
      }
      contents := contents[1..];
      if tail == QUEUE_SIZE - 1 {
        tail := 0;
      } else {
        tail := tail + 1;
      }
      return true;
    }
  }

  /** `acquire_locks`: takes the requested locks in order. All of them are noted while the
      queue has room; what does not fit is locked all the same. */
  method AcquireLocks(requested: SimpleQueue, mine: SimpleQueue) returns (locked: seq<int>)
    requires requested.Valid() && mine.Valid() && requested != mine && requested.entries != mine.entries
    modifies requested`tail, requested`contents, mine`head, mine`contents, mine.entries
    ensures requested.Valid() && mine.Valid() && requested.contents == []
    ensures locked == old(requested.contents) && mine.contents == Noted(old(mine.contents), locked)
    ensures mine.contents <= old(mine.contents) + locked
    ensures var all := |old(mine.contents)| + |locked|; |mine.contents| == if all < 19 then all else 19
  {
    locked := [];
    while !requested.Empty()
      invariant requested.Valid() && mine.Valid()
      invariant locked + requested.contents == old(requested.contents)
      invariant mine.contents == Noted(old(mine.contents), locked)
      decreases |requested.contents|
    {
      var i := requested.Front();
      NextFirst(locked, requested.contents);
      NotedNext(old(mine.contents), locked, i);
      var _ := mine.Push(i);
      var _ := requested.Pop();
      locked := locked + [i];
    }
  }

  /** The queue after pushing one id after another; a full queue takes no more. */
  function Noted(q: seq<int>, ids: seq<int>): (r: seq<int>) {
    if |q + ids| <= CAPACITY then q + ids else (q + ids)[..CAPACITY]
  }

  lemma NotedNext(q: seq<int>, ids: seq<int>, i: int)
    requires |q| <= CAPACITY
    ensures Noted(q, ids + [i]) == if |Noted(q, ids)| < CAPACITY then Noted(q, ids) + [i] else Noted(q, ids)
  {
    assert q + (ids + [i]) == q + ids + [i];
  }

  lemma NextFirst(done: seq<int>, left: seq<int>)
    requires left != []
    ensures done + [left[0]] + left[1..] == done + left
  {}

  /** `release_locks`: releases the noted locks, oldest first. */
  method ReleaseLocks(mine: SimpleQueue) returns (unlocked: seq<int>)
    requires mine.Valid()
    modifies mine`tail, mine`contents
    ensures mine.Valid() && mine.contents == [] && unlocked == old(mine.contents)
  {
    unlocked := [];
    while !mine.Empty()
      invariant mine.Valid() && unlocked + mine.contents == old(mine.contents)
      decreases |mine.contents|
    {
      var i := mine.Front();
      NextFirst(unlocked, mine.contents);
      var _ := mine.Pop();
      unlocked := unlocked + [i];
    }
  }
}

/** Cycles of a relation on finitely many things. */
module Cycles {

  /** Each thing is related to the next one, and the last to the first. */
  ghost predicate Cycle<T(!new)>(R: (T, T) -> bool, c: seq<T>) {
    |c| > 0 && forall i :: 0 <= i < |c| ==> R(c[i], c[if i + 1 < |c| then i + 1 else 0])
  }

  ghost predicate Path<T(!new)>(R: (T, T) -> bool, among: set<T>, p: seq<T>) {
    (forall i :: 0 <= i < |p| ==> p[i] in among) && forall i :: 0 <= i < |p| - 1 ==> R(p[i], p[i + 1])
  }

  ghost predicate GoesOn<T(!new)>(R: (T, T) -> bool, among: set<T>, x: T) {
    exists y :: y in among && R(x, y)
  }

  /** Everything is related to something of the set. */
  ghost predicate Goes<T(!new)>(R: (T, T) -> bool, among: set<T>) {
    forall x {:trigger GoesOn(R, among, x)} :: x in among ==> GoesOn(R, among, x)
  }

  lemma {:induction false} LongPath<T(!new)>(R: (T, T) -> bool, among: set<T>, n: nat) returns (p: seq<T>)
    requires among != {} && Goes(R, among)
    ensures |p| == n + 1 && Path(R, among, p)
    decreases n
  {
    if n == 0 {
      var x :| x in among;
      p := [x];
    } else {
      p := LongPath(R, among, n - 1);
      assert GoesOn(R, among, p[n - 1]);
      var y :| y in among && R(p[n - 1], y);
      p := p + [y];
    }
  }

  lemma {:induction false} Pigeonhole<T(!new)>(s: seq<T>, among: set<T>) returns (i: nat, j: nat)
    requires |s| > |among| && forall k :: 0 <= k < |s| ==> s[k] in among
    ensures i < j < |s| && s[i] == s[j]
    decreases |s|
  {
    var last := s[|s| - 1];
    if k :| 0 <= k < |s| - 1 && s[k] == last {
      i, j := k, |s| - 1;
    } else {
      i, j := Pigeonhole(s[..|s| - 1], among - {last});
    }
  }

  /** Going on and on within a finite set ends in a cycle. */
  lemma GoingCycles<T(!new)>(R: (T, T) -> bool, among: set<T>) returns (c: seq<T>)
    requires among != {} && Goes(R, among)
    ensures Cycle(R, c) && forall i :: 0 <= i < |c| ==> c[i] in among
  {
    var p := LongPath(R, among, |among|);
    var i, j := Pigeonhole(p, among);
    c := p[i..j];
    forall k | 0 <= k < |c|
      ensures R(c[k], c[if k + 1 < |c| then k + 1 else 0])
    {
      assert R(p[i + k], p[i + k + 1]);
    }
  }
}

/** The checkpoint upgrader (`gem5/util/cpt_upgrader.py`), for registries that hold
    upgraders only: how dependencies are gathered, and the worklist that applies the tags a
    checkpoint lacks. */
module Upgraders {
  import Cycles
  import opened Wrappers

  type Tag = string
  type Depends = map<Tag, seq<Tag>>

  /** What an upgrader script declares. */
  datatype Script = Script(depends: seq<Tag>, fwdDepends: seq<Tag>)

  function SetOf(s: seq<Tag>): (r: set<Tag>) {
    set t | t in s
  }

  // ---------------------------------------------------------------------- load_all

  /** Scripts by tag, and tags by legacy version. */
  datatype Registry = Registry(scripts: map<Tag, Script>, legacy: map<nat, Tag>)

  predicate Loadable(r: Registry) {
    && (forall v :: v in r.legacy ==> r.legacy[v] in r.scripts)
    && (forall v, w :: v in r.legacy && w in r.legacy && r.legacy[v] == r.legacy[w] ==> v == w)
    && (3 in r.legacy ==> 2 in r.legacy)
  }

  /** Consecutive legacy versions from 3 up to `v`. */
  predicate Linear(r: Registry, v: nat) {
    v >= 3 && forall w :: 3 <= w <= v ==> w in r.legacy
  }

  /** A tag's own dependencies: a legacy version depends on the one before it, whatever its
      script says. */
  ghost predicate OwnDepends(r: Registry, tag: Tag, deps: seq<Tag>)
    requires Loadable(r) && tag in r.scripts
  {
    && (forall v: nat :: Linear(r, v) && r.legacy[v] == tag ==> v - 1 in r.legacy && deps == [r.legacy[v - 1]])
    && ((forall v: nat :: Linear(r, v) ==> r.legacy[v] != tag) ==> deps == r.scripts[tag].depends)
  }

  /** The tags that declare themselves as forward dependencies of `tag`. */
  function Forward(r: Registry, done: set<Tag>, tag: Tag): (s: set<Tag>)
    requires done <= r.scripts.Keys
  {
    set u | u in done && tag in r.scripts[u].fwdDepends
  }

  ghost predicate Chained(r: Registry, own: Depends, v: nat) {
    v in r.legacy && r.legacy[v] in own && v >= 1 && v - 1 in r.legacy && own[r.legacy[v]] == [r.legacy[v - 1]]
  }

  /** Versions below `i` are chained, other tags are as their scripts say. */
  ghost predicate ChainedTo(r: Registry, own: Depends, i: nat) {
    && i >= 3 && own.Keys == r.scripts.Keys && (forall v: nat :: 3 <= v < i ==> Chained(r, own, v))
    && forall t :: t in own && (forall v: nat :: 3 <= v < i && v in r.legacy ==> r.legacy[v] != t) ==>
       own[t] == r.scripts[t].depends
  }

  lemma ChainNext(r: Registry, own: Depends, i: nat)
    requires Loadable(r) && ChainedTo(r, own, i) && i in r.legacy
    ensures i - 1 in r.legacy && ChainedTo(r, own[r.legacy[i] := [r.legacy[i - 1]]], i + 1)
  {
    assert i > 3 ==> Chained(r, own, i - 1);
    var next := own[r.legacy[i] := [r.legacy[i - 1]]];
    forall v: nat | 3 <= v < i + 1
      ensures Chained(r, next, v)
    {
      assert v < i ==> Chained(r, own, v);
    }
  }

  method ChainLegacy(r: Registry) returns (own: Depends)
    requires Loadable(r)
    ensures own.Keys == r.scripts.Keys && forall t :: t in own ==> OwnDepends(r, t, own[t])
  {
    own := map t | t in r.scripts :: r.scripts[t].depends;
    var i := 3;
    ghost var versions := r.legacy.Keys;
    while i in r.legacy
      invariant ChainedTo(r, own, i) && versions == set v | v in r.legacy && !(3 <= v < i)
      decreases versions
    {
      ChainNext(r, own, i);
      own := own[r.legacy[i] := [r.legacy[i - 1]]];
      assert i in versions;
      versions := versions - {i};
      i := i + 1;
    }
    forall t | t in own
      ensures OwnDepends(r, t, own[t])
    {
      ChainedOwn(r, own, i, t);
    }
  }

  lemma ChainedOwn(r: Registry, own: Depends, end: nat, t: Tag)
    requires Loadable(r) && own.Keys == r.scripts.Keys && t in own && end >= 3 && end !in r.legacy
    requires ChainedTo(r, own, end)
    ensures OwnDepends(r, t, own[t])
  {
    forall v: nat | Linear(r, v)
      ensures v < end && Chained(r, own, v)
    {
    }
    forall v: nat | 3 <= v < end
      ensures Linear(r, v)
    {
      forall w: nat | 3 <= w <= v
        ensures w in r.legacy
      {
        assert Chained(r, own, w);
      }
    }
  }

  /** What every tag depends on in the end. */
  ghost predicate Gathered(r: Registry, own: Depends, done: set<Tag>, depends: Depends)
    requires done <= r.scripts.Keys
  {
    && depends.Keys == own.Keys
    && forall t :: t in own ==> SetOf(depends[t]) == SetOf(own[t]) + Forward(r, done, t)
  }

  ghost predicate Declared(r: Registry, own: Depends, t: Tag)
    requires t in r.scripts && t in own
  {
    SetOf(own[t]) <= r.scripts.Keys && SetOf(r.scripts[t].fwdDepends) <= r.scripts.Keys
  }

  /** Appends `tag` to the dependencies of the tags in its `fwd_depends`. */
  method PushForward(tag: Tag, fwd: seq<Tag>, depends: Depends) returns (out: Result<Depends>)
    ensures out.Ok? <==> SetOf(fwd) <= depends.Keys
    ensures out.Ok? ==> out.value.Keys == depends.Keys && forall t :: t in depends ==>
              SetOf(out.value[t]) == SetOf(depends[t]) + if t in fwd then {tag} else {}
  {
    var k, d := 0, depends;
    while k < |fwd|
      invariant k <= |fwd| && d.Keys == depends.Keys && SetOf(fwd[..k]) <= depends.Keys
      invariant forall t :: t in depends ==> SetOf(d[t]) == SetOf(depends[t]) + if t in fwd[..k] then {tag} else {}
    {
      assert fwd[..k + 1] == fwd[..k] + [fwd[k]];
      if fwd[k] !in d {
        assert fwd[k] in SetOf(fwd);
        return Err;
      }
      d := d[fwd[k] := d[fwd[k]] + [tag]];
      k := k + 1;
    }
    assert fwd[..k] == fwd;
    return Ok(d);
  }

  /** One turn of the loop over all tags: forward dependencies, then the audit. */
  method Visit(r: Registry, tag: Tag, depends: Depends, ghost own: Depends, ghost done: set<Tag>)
    returns (out: Result<Depends>)
    requires own.Keys == r.scripts.Keys && tag in r.scripts && tag !in done && Visited(r, own, done, depends)
    ensures out.Ok? <==> Declared(r, own, tag)
    ensures out.Ok? ==> Visited(r, own, done + {tag}, out.value)
  {
    out := PushForward(tag, r.scripts[tag].fwdDepends, depends);
    if out.Ok? {
      PushGathers(r, own, done, depends, tag, out.value);
      AuditMeansDeclared(r, own, done + {tag}, out.value, tag);
      VisitedNext(r, own, done, depends, tag, out.value);
      if !(SetOf(out.value[tag]) <= out.value.Keys) {
        out := Err;
      }
    }
  }

  lemma VisitedNext(r: Registry, own: Depends, done: set<Tag>, depends: Depends, tag: Tag, next: Depends)
    requires Visited(r, own, done, depends) && tag in r.scripts && tag in own && Gathered(r, own, done + {tag}, next)
    ensures Declared(r, own, tag) ==> Visited(r, own, done + {tag}, next)
  {}

  /** Forward dependencies always exist, so the audit is about the tag's own ones. */
  lemma AuditMeansDeclared(r: Registry, own: Depends, done: set<Tag>, depends: Depends, tag: Tag)
    requires own.Keys == r.scripts.Keys && done <= r.scripts.Keys && tag in own && Gathered(r, own, done, depends)
    ensures SetOf(depends[tag]) <= depends.Keys <==> SetOf(own[tag]) <= r.scripts.Keys
  {
    assert SetOf(depends[tag]) == SetOf(own[tag]) + Forward(r, done, tag);
  }

  /** The loop over all tags, in whatever order. */
  method GatherAll(r: Registry, own: Depends) returns (out: Result<Depends>)
    requires own.Keys == r.scripts.Keys
    ensures out.Ok? <==> AllDeclared(r, own, own.Keys)
    ensures out.Ok? ==> Gathered(r, own, own.Keys, out.value) && Audited(out.value)
  {
    ghost var all := own.Keys;
    var todo := own.Keys;
    out := Ok(own);
    while todo != {}
      invariant todo <= all && out.Ok? && Visited(r, own, all - todo, out.value)
      decreases todo
    {
      var tag :| tag in todo;
      out := Visit(r, tag, out.value, own, all - todo);
      if out.Err? {
        return;
      }
      OneLess(all, todo, tag);
      todo := todo - {tag};
    }
    NoneLeft(all, todo);
    GatheredAudited(r, own, out.value);
  }

  ghost predicate Visited(r: Registry, own: Depends, done: set<Tag>, depends: Depends) {
    done <= r.scripts.Keys && Gathered(r, own, done, depends) && AllDeclared(r, own, done)
  }

  ghost predicate AllDeclared(r: Registry, own: Depends, done: set<Tag>) {
    forall t :: t in done ==> t in r.scripts && t in own && Declared(r, own, t)
  }

  /** `load_all`: gathers own and forward dependencies of every tag; fails exactly when one
      of them names a tag that does not exist. */
  method LoadAll(r: Registry) returns (own: Depends, out: Result<Depends>)
    requires Loadable(r)
    ensures own.Keys == r.scripts.Keys && forall t :: t in own ==> OwnDepends(r, t, own[t])
    ensures out.Ok? <==> AllDeclared(r, own, own.Keys)
    ensures out.Ok? ==> Gathered(r, own, own.Keys, out.value) && Audited(out.value)
  {
    own := ChainLegacy(r);
    out := GatherAll(r, own);
  }

  lemma NoneLeft(all: set<Tag>, todo: set<Tag>)
    requires todo == {}
    ensures all - todo == all
  {}

  lemma OneLess(all: set<Tag>, todo: set<Tag>, tag: Tag)
    requires todo <= all && tag in todo
    ensures all - (todo - {tag}) == all - todo + {tag}
  {}

  lemma GatheredAudited(r: Registry, own: Depends, depends: Depends)
    requires own.Keys == r.scripts.Keys && Visited(r, own, own.Keys, depends)
    ensures Audited(depends)
  {
    forall t, k | t in depends && 0 <= k < |depends[t]|
      ensures depends[t][k] in depends
    {
      assert depends[t][k] in SetOf(depends[t]) && Declared(r, own, t);
    }
  }

  lemma PushGathers(r: Registry, own: Depends, done: set<Tag>, depends: Depends, tag: Tag, next: Depends)
    requires done <= r.scripts.Keys && tag in r.scripts && tag !in done && Gathered(r, own, done, depends)
    requires next.Keys == depends.Keys
    requires forall t :: t in depends ==>
             SetOf(next[t]) == SetOf(depends[t]) + if t in r.scripts[tag].fwdDepends then {tag} else {}
    ensures Gathered(r, own, done + {tag}, next)
  {
    forall t | t in own
      ensures SetOf(next[t]) == SetOf(own[t]) + Forward(r, done + {tag}, t)
    {
      ForwardNext(r, done, tag, t);
    }
  }

  lemma ForwardNext(r: Registry, done: set<Tag>, tag: Tag, t: Tag)
    requires done <= r.scripts.Keys && tag in r.scripts
    ensures Forward(r, done + {tag}, t) == Forward(r, done, t) + if t in r.scripts[tag].fwdDepends then {tag} else {}
  {}

  // --------------------------------------------------------------------- the worklist

  predicate Ready(depends: Depends, tag: Tag, tags: set<Tag>)
    requires tag in depends
  {
    forall k :: 0 <= k < |depends[tag]| ==> depends[tag][k] in tags
  }

  function ReadyTags(depends: Depends, toApply: set<Tag>, tags: set<Tag>): (r: set<Tag>) {
    set t | t in toApply && t in depends && Ready(depends, t, tags)
  }

  /** Every dependency names a tag of the registry. */
  predicate Audited(depends: Depends) {
    forall t, k :: t in depends && 0 <= k < |depends[t]| ==> depends[t][k] in depends
  }

  /** The tags applied so far, in order: none twice, each with all its dependencies among
      the checkpoint's own tags and those applied before. */
  ghost predicate Applied(depends: Depends, tags: set<Tag>, log: seq<Tag>) {
    && (forall i, j :: 0 <= i < j < |log| ==> log[i] != log[j])
    && forall i :: 0 <= i < |log| ==>
         log[i] in depends && log[i] !in tags && Ready(depends, log[i], tags + SetOf(log[..i]))
  }

  lemma AppliedNext(depends: Depends, tags: set<Tag>, log: seq<Tag>, tag: Tag)
    requires Applied(depends, tags, log) && tag in depends && tag !in tags && tag !in log
    requires Ready(depends, tag, tags + SetOf(log))
    ensures Applied(depends, tags, log + [tag]) && SetOf(log + [tag]) == SetOf(log) + {tag}
  {
    var more := log + [tag];
    forall i | 0 <= i < |more|
      ensures more[i] in depends && more[i] !in tags && Ready(depends, more[i], tags + SetOf(more[..i]))
    {
      assert more[..i] == if i < |log| then log[..i] else log;
    }
  }

  /** One round: the ready tags are applied in whatever order the set yields them. */
  method ApplyRound(depends: Depends, ready: set<Tag>, ghost before: set<Tag>, tags: set<Tag>, log: seq<Tag>)
    returns (newTags: set<Tag>, newLog: seq<Tag>)
    requires Applied(depends, before, log) && tags == before + SetOf(log)
    requires forall t :: t in ready ==> t in depends && t !in tags && Ready(depends, t, tags)
    ensures Applied(depends, before, newLog) && newTags == before + SetOf(newLog) == tags + ready
  {
    newTags, newLog := tags, log;
    var left := ready;
    while left != {}
      invariant left <= ready && Applied(depends, before, newLog)
      invariant newTags == before + SetOf(newLog) == tags + (ready - left)
      decreases left
    {
      var tag :| tag in left;
      AppliedNext(depends, before, newLog, tag);
      newTags, newLog := newTags + {tag}, newLog + [tag];
      left := left - {tag};
    }
  }

  /** The worklist of `process_file`: applies every missing tag once, dependencies first, or
      aborts; it aborts exactly when missing tags depend on each other in a cycle. */
  method Upgrade(depends: Depends, tags: set<Tag>) returns (aborted: bool, newTags: set<Tag>, log: seq<Tag>)
    requires Audited(depends)
    ensures Applied(depends, tags, log) && newTags == tags + SetOf(log)
    ensures !aborted ==> newTags == tags + depends.Keys && SetOf(log) == depends.Keys - tags
    ensures aborted <==> exists c :: Cycle(depends, depends.Keys - tags, c)
  {
    newTags, log := tags, [];
    var toApply := depends.Keys - tags;
    while toApply != {}
      invariant toApply == depends.Keys - newTags && newTags == tags + SetOf(log) && Applied(depends, tags, log)
      decreases toApply
    {
      var ready := ReadyTags(depends, toApply, newTags);
      if ready == {} {
        var c := StuckCycles(depends, toApply, newTags);
        CycleWidens(depends, toApply, depends.Keys - tags, c);
        return true, newTags, log;
      }
      newTags, log := ApplyRound(depends, ready, tags, newTags, log);
      toApply := toApply - ready;
    }
    aborted := false;
    AllApplied(depends, tags, log);
    forall c
      ensures !Cycle(depends, depends.Keys - tags, c)
    {
      if Cycle(depends, depends.Keys - tags, c) {
        AppliedAcyclic(depends, tags, log, c);
      }
    }
  }

  lemma AllApplied(depends: Depends, tags: set<Tag>, log: seq<Tag>)
    requires Applied(depends, tags, log) && depends.Keys - (tags + SetOf(log)) == {}
    ensures tags + SetOf(log) == tags + depends.Keys && SetOf(log) == depends.Keys - tags
  {
    forall t
      ensures t in SetOf(log) <==> t in depends && t !in tags
    {
      if t in depends && t !in tags {
        assert t !in depends.Keys - (tags + SetOf(log));
      }
    }
  }

  // ------------------------------------------------------------------------- cycles

  ghost predicate DependsOn(depends: Depends, a: Tag, b: Tag) {
    a in depends && b in depends[a]
  }

  /** Each tag of the sequence depends on the next one, and the last on the first. */
  ghost predicate Cycle(depends: Depends, among: set<Tag>, c: seq<Tag>) {
    && Cycles.Cycle((a: Tag, b: Tag) => DependsOn(depends, a, b), c)
    && forall i :: 0 <= i < |c| ==> c[i] in among
  }

  lemma CycleWidens(depends: Depends, a: set<Tag>, b: set<Tag>, c: seq<Tag>)
    requires Cycle(depends, a, c) && a <= b
    ensures Cycle(depends, b, c)
  {}

  /** Where no tag is ready, every tag depends on another one that is missing too. */
  lemma StuckDepends(depends: Depends, stuck: set<Tag>, tags: set<Tag>, t: Tag) returns (d: Tag)
    requires Audited(depends) && stuck == depends.Keys - tags && t in stuck && !Ready(depends, t, tags)
    ensures d in stuck && DependsOn(depends, t, d)
  {
    var k :| 0 <= k < |depends[t]| && depends[t][k] !in tags;
    d := depends[t][k];
  }

  lemma StuckCycles(depends: Depends, stuck: set<Tag>, tags: set<Tag>) returns (c: seq<Tag>)
    requires Audited(depends) && stuck == depends.Keys - tags && stuck != {}
    requires ReadyTags(depends, stuck, tags) == {}
    ensures Cycle(depends, stuck, c)
  {
    var R := (a: Tag, b: Tag) => DependsOn(depends, a, b);
    forall t | t in stuck
      ensures Cycles.GoesOn(R, stuck, t)
    {
      assert t !in ReadyTags(depends, stuck, tags);
      var d := StuckDepends(depends, stuck, tags, t);
      assert R(t, d);
    }
    c := Cycles.GoingCycles(R, stuck);
  }

  /** Once all of a cycle's tags were applied, the first of them had a dependency missing. */
  lemma AppliedAcyclic(depends: Depends, tags: set<Tag>, log: seq<Tag>, c: seq<Tag>)
    requires Applied(depends, tags, log) && SetOf(log) == depends.Keys - tags
    ensures !Cycle(depends, depends.Keys - tags, c)
  {
    if Cycle(depends, depends.Keys - tags, c) {
      assert c[0] in SetOf(log);
      var i :| 0 <= i < |log| && log[i] == c[0];
      NotBefore(depends, tags, log, c, 0, i);
    }
  }

  lemma {:induction false} NotBefore(depends: Depends, tags: set<Tag>, log: seq<Tag>, c: seq<Tag>, k: nat, i: nat)
    requires Applied(depends, tags, log) && Cycle(depends, depends.Keys - tags, c) && k < |c| && i < |log| &&
             log[i] == c[k]
    ensures false
    decreases i
  {
    var next := if k + 1 < |c| then k + 1 else 0;
    assert DependsOn(depends, c[k], c[next]);
    var m :| 0 <= m < |depends[c[k]]| && depends[c[k]][m] == c[next];
    assert Ready(depends, log[i], tags + SetOf(log[..i]));
    assert c[next] in SetOf(log[..i]);
    var j :| 0 <= j < i && log[..i][j] == c[next];
    NotBefore(depends, tags, log, c, next, j);
  }
}

/** The item selection loop of `new_orders` (`janus_workload/TPCC/tpcc_nvm.cc`), the
    random numbers it draws being given. */
module ItemSelection {
  import TpccRequest
  import opened Wrappers

  function Ids(draws: seq<nat>, ni: nat): (r: seq<nat>)
    requires ni > 0
    ensures |r| == |draws| && forall i :: 0 <= i < |r| ==> r[i] == draws[i] % ni + 1
  {
    seq(|draws|, i requires 0 <= i < |draws| => draws[i] % ni + 1)
  }

  /** The values of `s` in the order in which they first occur. */
  function FirstOccurrences(s: seq<nat>): (r: seq<nat>)
    ensures |r| <= |s|
  {
    if s == [] then []
    else
      var rest, last := FirstOccurrences(s[..|s| - 1]), s[|s| - 1];
      if last in rest then rest else rest + [last]
  }

  lemma {:induction false} FirstOccurrencesDistinct(s: seq<nat>)
    ensures Distinct(FirstOccurrences(s)) && forall x :: x in FirstOccurrences(s) <==> x in s
  {
    if s != [] {
      FirstOccurrencesDistinct(s[..|s| - 1]);
      assert s == s[..|s| - 1] + [s[|s| - 1]];
    }
  }

  /** Rejecting a draw that is among the first `i` ids. */
  method Taken(id: nat, ids: array<nat>, i: nat) returns (taken: bool)
    requires i <= ids.Length
    ensures taken <==> id in ids[..i]
  {
    taken := false;
    var j := 0;
    while j < i && !taken
      invariant 0 <= j <= i && (taken <==> id in ids[..j])
    {
      assert ids[..j + 1] == ids[..j] + [ids[j]];
      if id == ids[j] {
        taken := true;
      }
      j := j + 1;
    }
    if taken {
      assert ids[..j] <= ids[..i];
    }
  }

  /** The ids picked from the first `used` draws. */
  function Picked(draws: seq<nat>, ni: nat, used: nat): (r: seq<nat>)
    requires ni > 0 && used <= |draws|
  {
    FirstOccurrences(Ids(draws[..used], ni))
  }

  lemma PickedNext(draws: seq<nat>, ni: nat, used: nat)
    requires ni > 0 && used < |draws|
    ensures var id, now := draws[used] % ni + 1, Picked(draws, ni, used);
            Picked(draws, ni, used + 1) == if id in now then now else now + [id]
  {
    var s := Ids(draws[..used + 1], ni);
    assert s[..used] == Ids(draws[..used], ni) && s[used] == draws[used] % ni + 1;
  }

  lemma PickedDistinct(draws: seq<nat>, ni: nat, used: nat)
    requires ni > 0 && used <= |draws|
    ensures Distinct(Picked(draws, ni, used))
    ensures forall k :: 0 <= k < |Picked(draws, ni, used)| ==> 1 <= Picked(draws, ni, used)[k] <= ni
  {
    var s := Ids(draws[..used], ni);
    FirstOccurrencesDistinct(s);
    forall k | 0 <= k < |Picked(draws, ni, used)|
      ensures 1 <= Picked(draws, ni, used)[k] <= ni
    {
      assert Picked(draws, ni, used)[k] in s;
    }
  }

  /** Fills `ids[..count]` with pairwise distinct ids, using up draws until it has them. */
  method Select(draws: seq<nat>, ni: nat, count: nat, ids: array<nat>) returns (filled: nat, used: nat)
    requires ni > 0 && count <= ids.Length
    modifies ids
    ensures used <= |draws| && filled <= count && (filled < count ==> used == |draws|)
    ensures ids[..filled] == Picked(draws, ni, used) && ids[count..] == old(ids[count..])
    ensures used > 0 ==> |Picked(draws, ni, used - 1)| < count
    ensures Distinct(ids[..filled]) && forall k :: 0 <= k < filled ==> 1 <= ids[..filled][k] <= ni
  {
    filled, used := 0, 0;
    while filled < count && used < |draws|
      invariant used <= |draws| && filled <= count
      invariant ids[..filled] == Picked(draws, ni, used) && ids[count..] == old(ids[count..])
      invariant used > 0 ==> |Picked(draws, ni, used - 1)| < count
      decreases |draws| - used
    {
      var id := draws[used] % ni + 1;
      PickedNext(draws, ni, used);
      var rejected := Taken(id, ids, filled);
      if !rejected {
        ids[filled] := id;
        filled := filled + 1;
      }
      used := used + 1;
    }
    PickedDistinct(draws, ni, used);
  }

  /** One round of `new_orders` up to the transaction: what it asks for fits the tables.
      There is no request if the draws run out. */
  method MakeRequest(random: nat, draws: seq<nat>, amounts: seq<int>, nw: nat, ni: nat)
    returns (r: Option<TpccRequest.Request>, used: nat)
    requires nw > 0 && ni > 0 && |amounts| == 15
    ensures used <= |draws| && (r.None? ==> used == |draws|)
    ensures r.Some? ==>
              && TpccRequest.Sound(r.value, nw, ni) && r.value.w == random % nw + 1
              && r.value.d == random / 16 % 10 + 1 && r.value.c == random / 256 % 3000 + 1
              && |r.value.items| == random / 4096 % 10 + 5 && r.value.items == Picked(draws, ni, used)
  {
    var ids := new nat[15];
    var count := random / 4096 % 10 + 5;
    var filled;
    filled, used := Select(draws, ni, count, ids);
    if filled < count {
      return None, used;
    }
    var w, d, c := random % nw + 1, random / 16 % 10 + 1, random / 256 % 3000 + 1;
    r := Some(TpccRequest.Request(w, d, c, ids[..count], amounts[..count]));
  }
}

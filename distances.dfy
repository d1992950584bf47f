/** `select_distances`: the atoms of the measured pairs whose distance
    passes the cutoff, grouped by object into sets of atom indices (the
    `sele_dict` that is then selected object by object). The measured
    pairs of each state are what the host reports; they are a parameter. */
module Distances {
  import opened Common

  /** One measured pair: its two atoms and their distance. */
  datatype Pair = Pair(a: AtomId, b: AtomId, dist: real)

  /** `[state] if state else list(range(1, count + 1))`: a non-zero state
      is taken alone, state 0 means every state of the selection. */
  function States(state: int, count: nat): (r: seq<int>)
    ensures state != 0 ==> r == [state]
    ensures state == 0 ==> |r| == count && forall k :: 0 <= k < count ==> r[k] == k + 1
  {
    if state != 0 then [state] else seq(count, k => k + 1)
  }

  /** `cutoff <= 0.0 or dist <= cutoff`. */
  predicate Kept(p: Pair, cutoff: real) {
    cutoff <= 0.0 || p.dist <= cutoff
  }

  /** The atoms the inner loop adds for `pairs`, in order. */
  function Ends(pairs: seq<Pair>, cutoff: real): seq<AtomId> {
    if |pairs| == 0 then []
    else
      var p := pairs[|pairs| - 1];
      Ends(pairs[..|pairs| - 1], cutoff) + (if Kept(p, cutoff) then [p.a, p.b] else [])
  }

  /** The atoms both loops add for `states`. */
  function AllEnds(states: seq<int>, raw: int -> seq<Pair>, cutoff: real): seq<AtomId> {
    if |states| == 0 then []
    else AllEnds(states[..|states| - 1], raw, cutoff) + Ends(raw(states[|states| - 1]), cutoff)
  }

  /** `id` is in the selection dictionary. */
  ghost predicate Holds(sele: map<string, set<int>>, id: AtomId) {
    id.model in sele && id.index in sele[id.model]
  }

  /** `sele_dict[model].add(index)` on a `defaultdict(set)`. */
  function Add(sele: map<string, set<int>>, id: AtomId): (r: map<string, set<int>>)
    ensures forall x :: Holds(r, x) <==> Holds(sele, x) || x == id
    ensures forall m :: m in r ==> m in sele || m == id.model
    ensures id.model in r && r[id.model] != {}
  {
    sele[id.model := (if id.model in sele then sele[id.model] else {}) + {id.index}]
  }

  /** The inner loop over one state's pairs. */
  method AddPairs(sele: map<string, set<int>>, pairs: seq<Pair>, cutoff: real) returns (r: map<string, set<int>>)
    ensures forall x :: Holds(r, x) <==> Holds(sele, x) || x in Ends(pairs, cutoff)
    ensures forall m :: m in r ==> m in sele || r[m] != {}
    ensures forall m :: m in sele ==> m in r && sele[m] <= r[m]
  {
    r := sele;
    for j := 0 to |pairs|
      invariant forall x :: Holds(r, x) <==> Holds(sele, x) || x in Ends(pairs[..j], cutoff)
      invariant forall m :: m in r ==> m in sele || r[m] != {}
      invariant forall m :: m in sele ==> m in r && sele[m] <= r[m]
    {
      assert pairs[..j + 1][..j] == pairs[..j];
      var p := pairs[j];
      if cutoff <= 0.0 || p.dist <= cutoff {
        r := Add(r, p.a);
        r := Add(r, p.b);
      }
    }
    assert pairs[..|pairs|] == pairs;
  }

  /** Both loops: every kept pair's atoms end up in their objects' sets,
      nothing else does, and no object is listed with an empty set. */
  method Collect(states: seq<int>, raw: int -> seq<Pair>, cutoff: real) returns (sele: map<string, set<int>>)
    ensures forall x :: Holds(sele, x) <==> x in AllEnds(states, raw, cutoff)
    ensures forall m :: m in sele ==> sele[m] != {}
  {
    sele := map[];
    for i := 0 to |states|
      invariant forall x :: Holds(sele, x) <==> x in AllEnds(states[..i], raw, cutoff)
      invariant forall m :: m in sele ==> sele[m] != {}
    {
      assert states[..i + 1][..i] == states[..i];
      sele := AddPairs(sele, raw(states[i]), cutoff);
    }
    assert states[..|states|] == states;
  }

  /** Some kept pair of `pairs` has `x` at one end. */
  ghost predicate PairHas(pairs: seq<Pair>, cutoff: real, x: AtomId) {
    exists j :: 0 <= j < |pairs| && Kept(pairs[j], cutoff) && (pairs[j].a == x || pairs[j].b == x)
  }

  lemma {:induction false} EndsMembers(pairs: seq<Pair>, cutoff: real, x: AtomId)
    ensures x in Ends(pairs, cutoff) <==> PairHas(pairs, cutoff, x)
    decreases |pairs|
  {
    if |pairs| > 0 {
      var n := |pairs| - 1;
      EndsMembers(pairs[..n], cutoff, x);
      if PairHas(pairs, cutoff, x) {
        var j :| 0 <= j < |pairs| && Kept(pairs[j], cutoff) && (pairs[j].a == x || pairs[j].b == x);
        if j < n {
          assert pairs[..n][j] == pairs[j];
        }
      }
      if PairHas(pairs[..n], cutoff, x) {
        var j :| 0 <= j < n && Kept(pairs[..n][j], cutoff) && (pairs[..n][j].a == x || pairs[..n][j].b == x);
        assert pairs[..n][j] == pairs[j];
      }
    }
  }

  /** Some state's kept pair has `x` at one end. */
  ghost predicate StateHas(states: seq<int>, raw: int -> seq<Pair>, cutoff: real, x: AtomId) {
    exists s :: 0 <= s < |states| && PairHas(raw(states[s]), cutoff, x)
  }

  /** An atom is selected exactly when, in one of the states, it is an end
      of a pair within the cutoff (or the cutoff is not positive). */
  lemma {:induction false} AllEndsMembers(states: seq<int>, raw: int -> seq<Pair>, cutoff: real, x: AtomId)
    ensures x in AllEnds(states, raw, cutoff) <==> StateHas(states, raw, cutoff, x)
    decreases |states|
  {
    if |states| > 0 {
      var n := |states| - 1;
      AllEndsMembers(states[..n], raw, cutoff, x);
      EndsMembers(raw(states[n]), cutoff, x);
      if StateHas(states, raw, cutoff, x) {
        var s :| 0 <= s < |states| && PairHas(raw(states[s]), cutoff, x);
        if s < n {
          assert states[..n][s] == states[s];
        }
      }
      if StateHas(states[..n], raw, cutoff, x) {
        var s :| 0 <= s < n && PairHas(raw(states[..n][s]), cutoff, x);
        assert states[..n][s] == states[s];
      }
    }
  }

  /** A cutoff that is not positive keeps every pair: two atoms per pair. */
  lemma {:induction false} NoCutoffKeepsAll(pairs: seq<Pair>, cutoff: real)
    requires cutoff <= 0.0
    ensures |Ends(pairs, cutoff)| == 2 * |pairs|
    decreases |pairs|
  {
    if |pairs| > 0 {
      NoCutoffKeepsAll(pairs[..|pairs| - 1], cutoff);
    }
  }

  /** A positive cutoff drops exactly the pairs that are farther apart. */
  lemma DroppedPair(pairs: seq<Pair>, cutoff: real, j: nat)
    requires j < |pairs| && 0.0 < cutoff < pairs[j].dist
    ensures Ends(pairs, cutoff) == Ends(pairs[..j], cutoff) + Ends(pairs[j + 1..], cutoff)
  {
    EndsSplit(pairs, j);
    EndsSplit(pairs[j..], 1);
    assert pairs[j..][..1] == [pairs[j]] && pairs[j..][1..] == pairs[j + 1..];
    assert Ends([pairs[j]], cutoff) == Ends([], cutoff) + [] by {
      assert [pairs[j]][..0] == [];
    }
  }

  lemma {:induction false} EndsSplit(pairs: seq<Pair>, j: nat)
    requires j <= |pairs|
    ensures forall cutoff :: Ends(pairs, cutoff) == Ends(pairs[..j], cutoff) + Ends(pairs[j..], cutoff)
    decreases |pairs|
  {
    if j < |pairs| {
      var n := |pairs| - 1;
      EndsSplit(pairs[..n], j);
      assert pairs[..n][..j] == pairs[..j];
      assert pairs[j..][..|pairs[j..]| - 1] == pairs[..n][j..];
    } else {
      assert pairs[..j] == pairs;
      assert pairs[j..] == [];
    }
  }

  /** `select_distances` up to the host selection calls: with `count` the
      number of states of the selection, an atom is selected exactly when
      it ends a kept pair of one of the states asked for. */
  method SelectDistances(state: int, count: nat, raw: int -> seq<Pair>, cutoff: real) returns (sele: map<string, set<int>>)
    ensures forall x :: Holds(sele, x) <==> StateHas(States(state, count), raw, cutoff, x)
    ensures forall m :: m in sele ==> sele[m] != {}
  {
    var states := if state != 0 then [state] else seq(count, k => k + 1);
    assert states == States(state, count);
    sele := Collect(states, raw, cutoff);
    forall x
      ensures Holds(sele, x) <==> StateHas(states, raw, cutoff, x)
    {
      AllEndsMembers(states, raw, cutoff, x);
    }
  }
}

/** Window selection of `local_rms`: for every residue number between the
    first and the last guide atom of the mobile selection, the atom range
    over which a local RMSD is computed. The RMSD itself is floating-point
    numerics and is not modelled; the map produced here says, per residue,
    which atom indices `[first..last]` the RMSD would be taken over. */
module LocalRms {
  import opened Common

  /** The inclusive atom index range of one residue's window. */
  datatype Window = Window(first: nat, last: nat)

  /** `m` is the `resv2i` dictionary of `res`: every residue number present
      maps to the LAST atom index carrying it (later atoms overwrite earlier
      ones in the dict comprehension). */
  ghost predicate IndexesResidues(m: map<int, nat>, res: seq<int>) {
    (forall v :: v in m <==> v in res) &&
    (forall v :: v in m ==>
       m[v] < |res| && res[m[v]] == v && forall j :: m[v] < j < |res| ==> res[j] != v)
  }

  /** Builds `resv2i` from the residue numbers of the atoms, in atom order. */
  method IndexByResidue(res: seq<int>) returns (m: map<int, nat>)
    ensures IndexesResidues(m, res)
  {
    m := map[];
    for i := 0 to |res|
      invariant forall v :: v in m <==> v in res[..i]
      invariant forall v :: v in m ==>
        m[v] < i && res[m[v]] == v && forall j :: m[v] < j < i ==> res[j] != v
    {
      m := m[res[i] := i];
    }
    assert res[..|res|] == res;
  }

  /** The smallest residue number in `[lo, hi]` that is present. */
  function Lowest(m: map<int, nat>, lo: int, hi: int): (r: Option<int>)
    ensures r.Some? ==> lo <= r.value <= hi && r.value in m
    ensures r.Some? ==> forall v :: lo <= v < r.value ==> v !in m
    ensures r.None? ==> forall v :: lo <= v <= hi ==> v !in m
    decreases hi - lo
  {
    if lo > hi then None else if lo in m then Some(lo) else Lowest(m, lo + 1, hi)
  }

  /** The largest residue number in `[lo, hi]` that is present. */
  function Highest(m: map<int, nat>, lo: int, hi: int): (r: Option<int>)
    ensures r.Some? ==> lo <= r.value <= hi && r.value in m
    ensures r.Some? ==> forall v :: r.value < v <= hi ==> v !in m
    ensures r.None? ==> forall v :: lo <= v <= hi ==> v !in m
    decreases hi - lo
  {
    if lo > hi then None else if hi in m then Some(hi) else Highest(m, lo, hi - 1)
  }

  function IndexOf(m: map<int, nat>, v: Option<int>): Option<nat>
    requires v.Some? ==> v.value in m
  {
    if v.Some? then Some(m[v.value]) else None
  }

  /** The upward search for `i_from`: the first residue number of
      `[lo, hi]`, in increasing order, that has an atom. */
  method SearchUp(m: map<int, nat>, lo: int, hi: int) returns (found: Option<nat>)
    ensures found == IndexOf(m, Lowest(m, lo, hi))
  {
    var v := lo;
    found := None;
    while v <= hi
      invariant lo <= v && (v <= hi + 1 || v == lo)
      invariant Lowest(m, lo, hi) == Lowest(m, v, hi)
      invariant found == None
      decreases hi - v
    {
      if v in m {
        found := Some(m[v]);
        return;
      }
      v := v + 1;
    }
  }

  /** The downward search for `i_to`: the first residue number of
      `[lo, hi]`, in decreasing order, that has an atom. */
  method SearchDown(m: map<int, nat>, lo: int, hi: int) returns (found: Option<nat>)
    ensures found == IndexOf(m, Highest(m, lo, hi))
  {
    var v := hi;
    found := None;
    while lo <= v
      invariant v <= hi && (lo - 1 <= v || v == hi)
      invariant Highest(m, lo, hi) == Highest(m, lo, v)
      invariant found == None
      decreases v - lo
    {
      if v in m {
        found := Some(m[v]);
        return;
      }
      v := v - 1;
    }
  }

  /** The window of residue `resv` for half-width `w2` and minimal span `w4`,
      or None when the residue is skipped. */
  function WindowOf(m: map<int, nat>, resv: int, w2: nat, w4: nat): Option<Window>
  {
    var f := IndexOf(m, Lowest(m, resv - w2, resv));
    var t := IndexOf(m, Highest(m, resv, resv + w2));
    if f.None? || t.None? then None
    else if t.value - f.value < w4 then None
    else Some(Window(f.value, t.value))
  }

  /** What a window means in terms of the atoms: it starts at the atom of
      the lowest present residue number in `[resv - w2, resv]`, ends at the
      atom of the highest present one in `[resv, resv + w2]`, spans at
      least `w4` atoms beyond its first, and a residue is skipped exactly
      when one side has no atom or the span is shorter than that. */
  lemma WindowMeaning(res: seq<int>, m: map<int, nat>, resv: int, w2: nat, w4: nat)
    requires IndexesResidues(m, res)
    ensures WindowOf(m, resv, w2, w4).Some? ==>
      var w := WindowOf(m, resv, w2, w4).value;
      w.first + w4 <= w.last < |res| &&
      resv - w2 <= res[w.first] <= resv && resv <= res[w.last] <= resv + w2 &&
      (forall j :: 0 <= j < |res| ==> !(resv - w2 <= res[j] < res[w.first])) &&
      (forall j :: 0 <= j < |res| ==> !(res[w.last] < res[j] <= resv + w2))
    ensures WindowOf(m, resv, w2, w4).None? ==>
      (forall j :: 0 <= j < |res| ==> !(resv - w2 <= res[j] <= resv)) ||
      (forall j :: 0 <= j < |res| ==> !(resv <= res[j] <= resv + w2)) ||
      exists f, t :: 0 <= f < |res| && 0 <= t < |res| && t - f < w4 &&
        resv - w2 <= res[f] <= resv && resv <= res[t] <= resv + w2 &&
        (forall j :: 0 <= j < |res| ==> !(resv - w2 <= res[j] < res[f])) &&
        (forall j :: 0 <= j < |res| ==> !(res[t] < res[j] <= resv + w2))
    ensures (forall j :: 0 <= j < |res| ==> !(resv - w2 <= res[j] <= resv)) ==>
      WindowOf(m, resv, w2, w4).None?
    ensures (forall j :: 0 <= j < |res| ==> !(resv <= res[j] <= resv + w2)) ==>
      WindowOf(m, resv, w2, w4).None?
  {
    var lo := Lowest(m, resv - w2, resv);
    var hi := Highest(m, resv, resv + w2);
    if lo.None? {
      forall j | 0 <= j < |res|
        ensures !(resv - w2 <= res[j] <= resv)
      {
        assert res[j] in res;
      }
    } else if hi.None? {
      forall j | 0 <= j < |res|
        ensures !(resv <= res[j] <= resv + w2)
      {
        assert res[j] in res;
      }
    } else {
      forall j | 0 <= j < |res|
        ensures !(resv - w2 <= res[j] < lo.value)
        ensures !(hi.value < res[j] <= resv + w2)
      {
        assert res[j] in res;
      }
      assert res[m[lo.value]] == lo.value;
      assert resv - w2 <= res[m[lo.value]] <= resv;
      assert resv <= res[m[hi.value]] <= resv + w2;
    }
  }

  /** The windows of every residue number from the first to the last guide
      atom; there is no first atom when the selection is empty. */
  method LocalWindows(res: seq<int>, window: nat) returns (r: Result<map<int, Window>>)
    ensures r.Err? <==> |res| == 0
    ensures r.Ok? ==> forall v :: v in r.value <==>
      res[0] <= v <= res[|res| - 1] && WindowOf(IndexByResidueSpec(res), v, window / 2, window / 4).Some?
    ensures r.Ok? ==> forall v :: v in r.value ==>
      r.value[v] == WindowOf(IndexByResidueSpec(res), v, window / 2, window / 4).value
  {
    if |res| == 0 {
      return Err("IndexError");
    }
    var m := IndexByResidue(res);
    IndexByResidueUnique(res, m);
    var windows := WindowsBetween(m, res[0], res[|res| - 1], window / 2, window / 4);
    return Ok(windows);
  }

  /** The loop over `range(seq_start, seq_end + 1)` filling `resv2b`. */
  method WindowsBetween(m: map<int, nat>, seqStart: int, seqEnd: int, w2: nat, w4: nat)
    returns (windows: map<int, Window>)
    ensures forall v :: v in windows <==> seqStart <= v <= seqEnd && WindowOf(m, v, w2, w4).Some?
    ensures forall v :: v in windows ==> windows[v] == WindowOf(m, v, w2, w4).value
  {
    windows := map[];
    var resv := seqStart;
    while resv <= seqEnd
      invariant seqStart <= resv && (resv <= seqEnd + 1 || resv == seqStart)
      invariant forall v :: v in windows <==> seqStart <= v < resv && WindowOf(m, v, w2, w4).Some?
      invariant forall v :: v in windows ==> windows[v] == WindowOf(m, v, w2, w4).value
      decreases seqEnd - resv
    {
      var w := WindowAt(m, resv, w2, w4);
      if w.Some? {
        windows := windows[resv := w.value];
      }
      resv := resv + 1;
    }
  }

  /** One iteration of that loop: search up from `resv - w2`, search down
      from `resv + w2`, and keep the window when it is wide enough. */
  method WindowAt(m: map<int, nat>, resv: int, w2: nat, w4: nat) returns (w: Option<Window>)
    ensures w == WindowOf(m, resv, w2, w4)
  {
    var iFrom := SearchUp(m, resv - w2, resv);
    var iTo := SearchDown(m, resv, resv + w2);
    if iFrom.Some? && iTo.Some? && iTo.value - iFrom.value >= w4 {
      w := Some(Window(iFrom.value, iTo.value));
    } else {
      w := None;
    }
  }

  /** `resv2i` as a value: the last index of each residue number. */
  function IndexByResidueSpec(res: seq<int>): (m: map<int, nat>)
    ensures IndexesResidues(m, res)
  {
    if |res| == 0 then map[]
    else
      var m := IndexByResidueSpec(res[..|res| - 1]);
      assert forall v :: v in res <==> v in res[..|res| - 1] || v == res[|res| - 1];
      m[res[|res| - 1] := |res| - 1]
  }

  /** The index dictionary of a residue list is unique. */
  lemma IndexByResidueUnique(res: seq<int>, m: map<int, nat>)
    requires IndexesResidues(m, res)
    ensures m == IndexByResidueSpec(res)
  {
    var s := IndexByResidueSpec(res);
    forall v | v in m
      ensures m[v] == s[v]
    {
      assert v in res;
      assert v in s;
    }
    forall v
      ensures v in m.Keys <==> v in s.Keys
    {
      assert v in m <==> v in res;
      assert v in s <==> v in res;
    }
    assert m.Keys == s.Keys;
  }
}

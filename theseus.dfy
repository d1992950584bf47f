/** The matrices built from THESEUS's rotations and translations
    (`theseus` and `intra_theseus`): a 3x3 rotation given row by row and a
    translation vector become a row-major 4x4 homogeneous matrix whose last
    column holds the (signed) translation. */
module Theseus {
  import opened Common

  /** Python's `s[lo:hi]` for `0 <= lo <= hi`: bounds past the end are clamped. */
  function Slice(s: seq<real>, lo: nat, hi: nat): (r: seq<real>)
    requires lo <= hi
    ensures |s| >= hi ==> r == s[lo..hi]
    ensures |s| < hi ==> r == (if |s| <= lo then [] else s[lo..])
    ensures |r| <= hi - lo
  {
    if |s| <= lo then [] else if |s| <= hi then s[lo..] else s[lo..hi]
  }

  /** `R[0:3] + [i * t[0]] + R[3:6] + [i * t[1]] + R[6:9] + [i * t[2], 0, 0, 0, 1]`;
      `t[2]` raises when the translation has fewer than three entries. */
  function Homogeneous(rotation: seq<real>, translation: seq<real>, sign: real): (r: Result<seq<real>>)
    ensures r.Err? <==> |translation| < 3
    ensures r.Ok? && |rotation| >= 9 ==> |r.value| == 16
    ensures r.Ok? && |rotation| >= 9 ==>
      forall row :: 0 <= row < 3 ==> r.value[4 * row..4 * row + 3] == rotation[3 * row..3 * row + 3]
    ensures r.Ok? && |rotation| >= 9 ==>
      forall row :: 0 <= row < 3 ==> r.value[4 * row + 3] == sign * translation[row]
    ensures r.Ok? ==> |r.value| >= 7 && r.value[|r.value| - 4..] == [0.0, 0.0, 0.0, 1.0]
  {
    if |translation| < 3 then Err("IndexError")
    else
      var m := Slice(rotation, 0, 3) + [sign * translation[0]] + Slice(rotation, 3, 6) + [sign * translation[1]]
        + Slice(rotation, 6, 9) + [sign * translation[2], 0.0, 0.0, 0.0, 1.0];
      assert |rotation| >= 9 ==>
        m[0..3] == rotation[0..3] && m[4..7] == rotation[3..6] && m[8..11] == rotation[6..9];
      Ok(m)
  }

  /** The list comprehension over `zip(rotations, translations, signs)`:
      it stops at the shortest input and raises at the first bad translation. */
  function Matrices(rotations: seq<seq<real>>, translations: seq<seq<real>>, signs: seq<real>): (r: Result<seq<seq<real>>>)
    ensures r.Ok? ==> |r.value| == Min3(|rotations|, |translations|, |signs|)
    ensures r.Ok? ==> forall k :: 0 <= k < |r.value| ==>
      Homogeneous(rotations[k], translations[k], signs[k]) == Ok(r.value[k])
    ensures r.Err? <==> exists k :: 0 <= k < Min3(|rotations|, |translations|, |signs|) && |translations[k]| < 3
  {
    if |rotations| == 0 || |translations| == 0 || |signs| == 0 then Ok([])
    else
      match Homogeneous(rotations[0], translations[0], signs[0])
      case Err(e) => Err(e)
      case Ok(m) =>
        match Matrices(rotations[1..], translations[1..], signs[1..])
        case Err(e) => Err(e)
        case Ok(ms) => Ok([m] + ms)
  }

  function Min3(a: nat, b: nat, c: nat): nat {
    if a <= b && a <= c then a else if b <= c then b else c
  }

  /** `theseus`: the mobile is moved by the first matrix (translation
      negated) and then by the second; both must exist. */
  function PairwiseMatrices(rotations: seq<seq<real>>, translations: seq<seq<real>>): (r: Result<(seq<real>, seq<real>)>)
    ensures r.Ok? ==> |rotations| >= 2 && |translations| >= 2
    ensures r.Ok? ==> Homogeneous(rotations[0], translations[0], -1.0) == Ok(r.value.0)
    ensures r.Ok? ==> Homogeneous(rotations[1], translations[1], 1.0) == Ok(r.value.1)
    ensures |rotations| >= 2 && |translations| >= 2 && |translations[0]| >= 3 && |translations[1]| >= 3 ==> r.Ok?
  {
    match Matrices(rotations, translations, [-1.0, 1.0])
    case Err(e) => Err(e)
    case Ok(ms) => if |ms| < 2 then Err("IndexError") else Ok((ms[0], ms[1]))
  }

  /** `intra_theseus`: one matrix per state, as many as the shorter of the
      two lists, each with its translation negated. */
  function IntraMatrices(rotations: seq<seq<real>>, translations: seq<seq<real>>): (r: Result<seq<seq<real>>>)
    ensures r.Ok? ==> |r.value| == (if |rotations| <= |translations| then |rotations| else |translations|)
    ensures r.Ok? ==> forall k :: 0 <= k < |r.value| ==> Homogeneous(rotations[k], translations[k], -1.0) == Ok(r.value[k])
    ensures r.Err? <==> exists k :: 0 <= k < |rotations| && k < |translations| && |translations[k]| < 3
  {
    Matrices(rotations, translations, Negatives(if |rotations| <= |translations| then |rotations| else |translations|))
  }

  function Negatives(n: nat): (s: seq<real>)
    ensures |s| == n && forall k :: 0 <= k < n ==> s[k] == -1.0
  {
    seq(n, _ => -1.0)
  }

  /** The fit back to a given state: nothing happens unless `0 < state <=
      len(matrices)`; otherwise a copy of that state's matrix has entries 3,
      7 and 11 negated, and a matrix too short for one of them raises
      IndexError. */
  method FitBack(matrices: seq<seq<real>>, state: int) returns (r: Result<Option<seq<real>>>)
    ensures !(0 < state <= |matrices|) ==> r == Ok(None)
    ensures 0 < state <= |matrices| && |matrices[state - 1]| < 12 ==> r == Err("IndexError")
    ensures 0 < state <= |matrices| && |matrices[state - 1]| >= 12 ==>
      r.Ok? && r.value.Some? && |r.value.value| == |matrices[state - 1]| &&
      forall i :: 0 <= i < |r.value.value| ==>
        r.value.value[i] == (if i == 3 || i == 7 || i == 11 then -matrices[state - 1][i] else matrices[state - 1][i])
  {
    if !(0 < state <= |matrices|) {
      return Ok(None);
    }
    var matrix := matrices[state - 1];
    var m := matrix;
    var positions := [3, 7, 11];
    for j := 0 to 3
      invariant |m| == |matrix|
      invariant 0 < j ==> positions[j - 1] < |matrix|
      invariant forall i :: 0 <= i < |m| ==>
        m[i] == (if i in positions[..j] then -matrix[i] else matrix[i])
    {
      var i := positions[j];
      if i >= |m| {
        return Err("IndexError");
      }
      m := m[i := -1.0 * m[i]];
    }
    assert positions[..3] == positions;
    r := Ok(Some(m));
  }

  lemma RowEntry(p: seq<real>, m: seq<real>, rotation: seq<real>, row: nat, col: nat)
    requires row < 3 && col < 3 && |p| == |m| == 16 && |rotation| >= 9
    requires p[4 * row..4 * row + 3] == rotation[3 * row..3 * row + 3] == m[4 * row..4 * row + 3]
    ensures p[4 * row + col] == m[4 * row + col]
  {
    assert p[4 * row + col] == p[4 * row..4 * row + 3][col];
    assert m[4 * row + col] == m[4 * row..4 * row + 3][col];
  }

  /** Flipping the translation column of a state's matrix, which was built
      with the translation negated, gives the matrix built from the same
      rotation with the translation taken positively,
      `Homogeneous(rotation, translation, 1.0)`. */
  lemma FitBackUndoesNegation(rotation: seq<real>, translation: seq<real>, m: seq<real>, flipped: seq<real>)
    requires |rotation| >= 9
    requires Homogeneous(rotation, translation, -1.0) == Ok(m)
    requires |flipped| == |m| &&
      forall i :: 0 <= i < |m| ==> flipped[i] == (if i == 3 || i == 7 || i == 11 then -m[i] else m[i])
    ensures Homogeneous(rotation, translation, 1.0) == Ok(flipped)
  {
    var p := Homogeneous(rotation, translation, 1.0).value;
    assert |p| == 16 && |m| == 16;
    forall i | 0 <= i < 16
      ensures p[i] == flipped[i]
    {
      if i >= 12 {
        assert p[i] == p[12..][i - 12] && m[i] == m[12..][i - 12];
      } else {
        var row := if i < 4 then 0 else if i < 8 then 1 else 2;
        var col := i - 4 * row;
        if col == 3 {
          assert p[4 * row + 3] == translation[row] && m[4 * row + 3] == -translation[row];
        } else {
          RowEntry(p, m, rotation, row, col);
        }
      }
    }
    assert p == flipped;
  }
}

/** Scraping the output of the TMalign program (fitting.py, `tmalign`): the
    TM-score, the program's header word, the rotation matrix and the three
    lines of the sequence alignment; and the insertion of gaps into the
    per-structure atom lists. Running the program and reading its files is
    not modelled: the scanner works on the lines it printed. Python's
    `float()` is the parameter `toFloat` (None where it would raise). */
module TMalign {
  import opened Common

  /** What the scan has seen so far: `rowcount` counts lines since the
      rotation-matrix header (0 before it), `header` is set once by the first
      `" * "` line with at least three words. */
  datatype ScanState = ScanState(
    rowcount: int,
    header: Option<string>,
    matrix: seq<real>,
    alignment: seq<string>,
    score: Option<real>)

  const Start := ScanState(0, None, [], [], None)

  const RotationHeader := " -------- rotation matrix"
  const AlignmentHeader := "(\":\" denotes"

  /** The result of a complete scan. */
  datatype Output = Output(score: Option<real>, matrix: seq<real>, header: Option<string>, alignment: seq<string>)

  /** `list(map(float, ws))`. */
  function ParseFloats(ws: seq<string>, toFloat: string -> Option<real>): (r: Result<seq<real>>)
    ensures r.Ok? ==> |r.value| == |ws| && forall k :: 0 <= k < |ws| ==> toFloat(ws[k]) == Some(r.value[k])
    ensures r.Err? ==> exists k :: 0 <= k < |ws| && toFloat(ws[k]).None?
  {
    if |ws| == 0 then Ok([])
    else match toFloat(ws[0])
      case None => Err("ValueError")
      case Some(x) =>
        match ParseFloats(ws[1..], toFloat)
        case Err(e) => Err(e)
        case Ok(xs) => Ok([x] + xs)
  }

  /** The four matrix entries taken from one row line: columns 2, 3 and 4
      (as far as present), then column 1. */
  function RowEntries(line: string, toFloat: string -> Option<real>): (r: Result<seq<real>>)
  {
    match ParseFloats(Words(line), toFloat)
    case Err(e) => Err(e)
    case Ok(a) =>
      if |a| < 2 then Err("IndexError")
      else Ok(a[2..if |a| < 5 then |a| else 5] + [a[1]])
  }

  /** A full row: rotation entries (columns 2, 3, 4) then the translation (column 1). */
  function Entries(a: seq<real>): seq<real>
    requires |a| >= 5
  {
    [a[2], a[3], a[4], a[1]]
  }

  lemma RowEntriesLayout(line: string, toFloat: string -> Option<real>, a: seq<real>)
    requires ParseFloats(Words(line), toFloat) == Ok(a) && |a| >= 5
    ensures RowEntries(line, toFloat) == Ok(Entries(a))
  {
    assert RowEntries(line, toFloat) == Ok(a[2..5] + [a[1]]);
    assert a[2..5] == [a[2], a[3], a[4]];
    assert a[2..5] + [a[1]] == Entries(a);
  }

  function SkipSpaces(s: string): (r: string)
    ensures |r| <= |s| && r == s[|s| - |r|..]
    ensures |r| > 0 ==> !IsSpace(r[0])
  {
    if |s| > 0 && IsSpace(s[0]) then SkipSpaces(s[1..]) else s
  }

  function DigitPrefix(s: string): (d: string)
    ensures |d| <= |s| && d == s[..|d|]
    ensures forall i :: 0 <= i < |d| ==> IsDigit(d[i])
    ensures |d| < |s| ==> !IsDigit(s[|d|])
  {
    if |s| > 0 && IsDigit(s[0]) then [s[0]] + DigitPrefix(s[1..]) else []
  }

  /** `TM-score\s*=\s*(\d*\.\d*)` matched at the start of `s`: the group. */
  function ScoreAt(s: string): Option<string>
  {
    if !StartsWith(s, "TM-score") then None
    else
      var b := SkipSpaces(s[8..]);
      if |b| == 0 || b[0] != '=' then None
      else
        var c := SkipSpaces(b[1..]);
        var d := DigitPrefix(c);
        var e := c[|d|..];
        if |e| == 0 || e[0] != '.' then None
        else Some(d + "." + DigitPrefix(e[1..]))
  }

  /** `re.search` of the score pattern: the group of the leftmost match. */
  function ScoreGroup(s: string): Option<string>
  {
    if |s| == 0 then None
    else match ScoreAt(s)
      case Some(g) => Some(g)
      case None => ScoreGroup(s[1..])
  }

  /** One step of the scan: how many lines it consumes and the new state. */
  datatype Step = Step(consumed: nat, next: ScanState)

  /** The branch the loop body takes on `lines[0]`. */
  function StepAt(lines: seq<string>, st: ScanState, toFloat: string -> Option<real>): (r: Result<Step>)
    requires |lines| > 0
    ensures r.Ok? ==> 1 <= r.value.consumed <= |lines|
  {
    var line := lines[0];
    if 0 < st.rowcount <= 4 then
      if st.rowcount >= 2 then
        match RowEntries(line, toFloat)
        case Err(e) => Err(e)
        case Ok(entries) => Ok(Step(1, st.(rowcount := st.rowcount + 1, matrix := st.matrix + entries)))
      else Ok(Step(1, st.(rowcount := st.rowcount + 1)))
    else if st.header.None? && StartsWith(line, " * ") then
      var a := Words(line);
      Ok(Step(1, if |a| >= 3 then st.(header := Some(a[1])) else st))
    else if StartsWith(Lower(line), RotationHeader) then
      Ok(Step(1, st.(rowcount := 1)))
    else if StartsWith(line, AlignmentHeader) then
      if |lines| < 4 then Err("StopIteration")
      else Ok(Step(4, st.(alignment := [RStrip(lines[1]), RStrip(lines[2]), RStrip(lines[3])])))
    else
      match ScoreGroup(line)
      case None => Ok(Step(1, st))
      case Some(g) =>
        match toFloat(g)
        case None => Err("ValueError")
        case Some(v) => Ok(Step(1, st.(score := Some(v))))
  }

  /** The whole loop over `lines`, from state `st`. */
  function Scan(lines: seq<string>, st: ScanState, toFloat: string -> Option<real>): Result<ScanState>
    decreases |lines|
  {
    if |lines| == 0 then Ok(st)
    else match StepAt(lines, st, toFloat)
      case Err(e) => Err(e)
      case Ok(s) => Scan(lines[s.consumed..], s.next, toFloat)
  }

  /** After the loop: printing the alignment needs one (when not quiet), the
      matrix must hold exactly 12 entries, and the bottom row 0 0 0 1 is added. */
  function Finish(r: Result<ScanState>, quiet: bool): (out: Result<Output>)
    ensures out.Ok? ==> r.Ok? && |out.value.matrix| == 16 && out.value.matrix[12..] == [0.0, 0.0, 0.0, 1.0]
    ensures out.Ok? ==> out.value.matrix[..12] == r.value.matrix && out.value.score == r.value.score
    ensures r.Ok? && |r.value.matrix| != 12 ==> out.Err?
  {
    match r
    case Err(e) => Err(e)
    case Ok(st) =>
      if !quiet && |st.alignment| == 0 then Err("IndexError")
      else if |st.matrix| != 12 then Err("AssertionError")
      else Ok(Output(st.score, st.matrix + [0.0, 0.0, 0.0, 1.0], st.header, st.alignment))
  }

  /** Scanning from a line is taking that line's step, then scanning on. */
  lemma ScanStep(lines: seq<string>, st: ScanState, toFloat: string -> Option<real>)
    requires |lines| > 0
    ensures StepAt(lines, st, toFloat).Err? ==> Scan(lines, st, toFloat) == Err(StepAt(lines, st, toFloat).msg)
    ensures StepAt(lines, st, toFloat).Ok? ==>
              var s := StepAt(lines, st, toFloat).value;
              Scan(lines, st, toFloat) == Scan(lines[s.consumed..], s.next, toFloat)
  {
  }

  /** The body of the scraping loop on the line `lines[0]`, updating the
      counter, the header flag, the matrix, the alignment and the score. */
  method ScanLine(lines: seq<string>, st: ScanState, toFloat: string -> Option<real>) returns (r: Result<Step>)
    requires |lines| > 0
    ensures r == StepAt(lines, st, toFloat)
  {
    var line := lines[0];
    var rowcount, header, matrix, alignment, score := st.rowcount, st.header, st.matrix, st.alignment, st.score;
    var consumed := 1;
    if 0 < rowcount <= 4 {
      if rowcount >= 2 {
        var entries := RowEntries(line, toFloat);
        if entries.Err? {
          return Err(entries.msg);
        }
        matrix := matrix + entries.value;
      }
      rowcount := rowcount + 1;
    } else if header.None? && StartsWith(line, " * ") {
      var a := Words(line);
      if |a| >= 3 {
        header := Some(a[1]);
      }
    } else if StartsWith(Lower(line), RotationHeader) {
      rowcount := 1;
    } else if StartsWith(line, AlignmentHeader) {
      if |lines| < 4 {
        return Err("StopIteration");
      }
      alignment := [RStrip(lines[1]), RStrip(lines[2]), RStrip(lines[3])];
      consumed := 4;
    } else {
      var g := ScoreGroup(line);
      if g.Some? {
        var v := toFloat(g.value);
        if v.None? {
          return Err("ValueError");
        }
        score := Some(v.value);
      }
    }
    r := Ok(Step(consumed, ScanState(rowcount, header, matrix, alignment, score)));
  }

  /** The scraping loop of `tmalign`, with its counter, one-shot header flag
      and last-seen score. */
  method ParseOutput(lines: seq<string>, quiet: bool, toFloat: string -> Option<real>) returns (out: Result<Output>)
    ensures out == Finish(Scan(lines, Start, toFloat), quiet)
  {
    var st := Start;
    var i := 0;
    while i < |lines|
      invariant 0 <= i <= |lines|
      invariant Scan(lines, Start, toFloat) == Scan(lines[i..], st, toFloat)
      decreases |lines| - i
    {
      ghost var rest := lines[i..];
      var step := ScanLine(lines[i..], st, toFloat);
      ScanStep(rest, st, toFloat);
      if step.Err? {
        return Err(step.msg);
      }
      assert rest[step.value.consumed..] == lines[i + step.value.consumed..];
      st := step.value.next;
      i := i + step.value.consumed;
    }
    out := Finish(Ok(st), quiet);
  }

  // ----- properties of the scan -----

  predicate IsRotationHeader(line: string) {
    StartsWith(Lower(line), RotationHeader)
  }

  /** A line read while the counter runs (1 to 4): the first is skipped,
      the others contribute their matrix entries. */
  lemma CountedLine(lines: seq<string>, st: ScanState, toFloat: string -> Option<real>, a: seq<real>)
    requires |lines| > 0 && 0 < st.rowcount <= 4
    requires st.rowcount >= 2 ==> ParseFloats(Words(lines[0]), toFloat) == Ok(a) && |a| >= 5
    ensures Scan(lines, st, toFloat) ==
            Scan(lines[1..], st.(rowcount := st.rowcount + 1,
                                 matrix := if st.rowcount >= 2 then st.matrix + Entries(a) else st.matrix), toFloat)
  {
    var next := st.(rowcount := st.rowcount + 1,
                    matrix := if st.rowcount >= 2 then st.matrix + Entries(a) else st.matrix);
    if st.rowcount >= 2 {
      RowEntriesLayout(lines[0], toFloat, a);
    }
    assert StepAt(lines, st, toFloat) == Ok(Step(1, next));
    ScanStep(lines, st, toFloat);
  }

  /** The rotation-matrix header line starts the counter. */
  lemma HeaderLine(lines: seq<string>, st: ScanState, toFloat: string -> Option<real>)
    requires |lines| > 0 && !(0 < st.rowcount <= 4) && IsRotationHeader(lines[0])
    ensures Scan(lines, st, toFloat) == Scan(lines[1..], st.(rowcount := 1), toFloat)
  {
    var low := Lower(lines[0]);
    LowerAt(lines[0], 1);
    assert low[1] == low[..|RotationHeader|][1] == '-';
    assert lines[0][1] == '-';
    if |lines[0]| >= 3 {
      assert lines[0][..3][1] == lines[0][1];
    }
    assert !StartsWith(lines[0], " * ");
    assert StepAt(lines, st, toFloat) == Ok(Step(1, st.(rowcount := 1)));
  }

  /** The rotation-matrix header: the line after it is skipped and each of
      the next three lines contributes its columns 2, 3, 4 and then 1. */
  lemma RotationBlock(lines: seq<string>, st: ScanState, toFloat: string -> Option<real>,
                      a1: seq<real>, a2: seq<real>, a3: seq<real>)
    requires |lines| >= 5 && !(0 < st.rowcount <= 4) && IsRotationHeader(lines[0])
    requires ParseFloats(Words(lines[2]), toFloat) == Ok(a1) && |a1| >= 5
    requires ParseFloats(Words(lines[3]), toFloat) == Ok(a2) && |a2| >= 5
    requires ParseFloats(Words(lines[4]), toFloat) == Ok(a3) && |a3| >= 5
    ensures Scan(lines, st, toFloat) ==
            Scan(lines[5..], st.(rowcount := 5, matrix := st.matrix + Entries(a1) + Entries(a2) + Entries(a3)), toFloat)
  {
    var l1, l2, l3, l4, l5 := lines[1..], lines[2..], lines[3..], lines[4..], lines[5..];
    assert l1[1..] == l2 && l2[1..] == l3 && l3[1..] == l4 && l4[1..] == l5;
    assert l2[0] == lines[2] && l3[0] == lines[3] && l4[0] == lines[4];
    var s1 := st.(rowcount := 1);
    var s2 := s1.(rowcount := 2);
    var s3 := s2.(rowcount := 3, matrix := st.matrix + Entries(a1));
    var s4 := s3.(rowcount := 4, matrix := s3.matrix + Entries(a2));
    var s5 := s4.(rowcount := 5, matrix := s4.matrix + Entries(a3));
    HeaderLine(lines, st, toFloat);
    CountedLine(l1, s1, toFloat, a1);
    CountedLine(l2, s2, toFloat, a1);
    CountedLine(l3, s3, toFloat, a2);
    CountedLine(l4, s4, toFloat, a3);
    assert s5 == st.(rowcount := 5, matrix := st.matrix + Entries(a1) + Entries(a2) + Entries(a3));
  }

  /** The 16 entries of the transformation read row by row: rotation entry
      (r, c) of row line r is its column c + 2, the translation of row r is
      its column 1, and the last row is 0 0 0 1. */
  lemma TransformLayout(st: ScanState, a1: seq<real>, a2: seq<real>, a3: seq<real>, quiet: bool)
    requires |a1| >= 5 && |a2| >= 5 && |a3| >= 5
    requires st.matrix == Entries(a1) + Entries(a2) + Entries(a3)
    requires quiet || |st.alignment| > 0
    ensures Finish(Ok(st), quiet).Ok?
    ensures var m := Finish(Ok(st), quiet).value.matrix;
            var rows := [a1, a2, a3];
            (forall r :: 0 <= r < 3 ==> m[4 * r..4 * r + 4] == [rows[r][2], rows[r][3], rows[r][4], rows[r][1]]) &&
            m[12..] == [0.0, 0.0, 0.0, 1.0]
  {
  }

  /** Once set, the header word never changes. */
  lemma {:induction false} HeaderSetOnce(lines: seq<string>, st: ScanState, toFloat: string -> Option<real>)
    requires st.header.Some?
    ensures Scan(lines, st, toFloat).Ok? ==> Scan(lines, st, toFloat).value.header == st.header
    decreases |lines|
  {
    if |lines| > 0 {
      var s := StepAt(lines, st, toFloat);
      if s.Ok? {
        assert s.value.next.header == st.header;
        HeaderSetOnce(lines[s.value.consumed..], s.value.next, toFloat);
      }
    }
  }

  /** Lines without a score match leave the score as it was. */
  lemma {:induction false} ScoreUntouched(lines: seq<string>, st: ScanState, toFloat: string -> Option<real>)
    requires forall k :: 0 <= k < |lines| ==> ScoreGroup(lines[k]).None?
    ensures Scan(lines, st, toFloat).Ok? ==> Scan(lines, st, toFloat).value.score == st.score
    decreases |lines|
  {
    if |lines| > 0 {
      var s := StepAt(lines, st, toFloat);
      if s.Ok? {
        assert s.value.next.score == st.score;
        var rest := lines[s.value.consumed..];
        assert forall k :: 0 <= k < |rest| ==> rest[k] == lines[k + s.value.consumed];
        ScoreUntouched(rest, s.value.next, toFloat);
      }
    }
  }

  /** The score kept is the last one matched: a scored line followed only by
      lines without a match determines the result. */
  lemma LastScoreWins(lines: seq<string>, st: ScanState, toFloat: string -> Option<real>, g: string, v: real)
    requires |lines| > 0
    requires !(0 < st.rowcount <= 4)
    requires !(st.header.None? && StartsWith(lines[0], " * "))
    requires !IsRotationHeader(lines[0]) && !StartsWith(lines[0], AlignmentHeader)
    requires ScoreGroup(lines[0]) == Some(g) && toFloat(g) == Some(v)
    requires forall k :: 1 <= k < |lines| ==> ScoreGroup(lines[k]).None?
    ensures Scan(lines, st, toFloat).Ok? ==> Scan(lines, st, toFloat).value.score == Some(v)
  {
    assert StepAt(lines, st, toFloat) == Ok(Step(1, st.(score := Some(v))));
    assert forall k :: 0 <= k < |lines[1..]| ==> lines[1..][k] == lines[k + 1];
    ScoreUntouched(lines[1..], st.(score := Some(v)), toFloat);
  }

  // ----- gap insertion -----

  /** Python's `list.insert(i, x)`: past the end it appends. */
  function InsertAt<T>(s: seq<T>, i: nat, x: T): (r: seq<T>)
    ensures |r| == |s| + 1
  {
    if i <= |s| then s[..i] + [x] + s[i..] else s + [x]
  }

  function Wrap<T>(s: seq<T>): (r: seq<Option<T>>)
    ensures |r| == |s| && forall k :: 0 <= k < |s| ==> r[k] == Some(s[k])
  {
    seq(|s|, k requires 0 <= k < |s| => Some(s[k]))
  }

  /** The effect of inserting None at every '-' of `aln`, scanning left to right. */
  function Inserted<T>(s: seq<Option<T>>, aln: string): seq<Option<T>>
  {
    if |aln| == 0 then s
    else
      var n := |aln| - 1;
      var p := Inserted(s, aln[..n]);
      if aln[n] == '-' then InsertAt(p, n, None) else p
  }

  /** In-place gap insertion into an atom list. */
  method InsertGaps<T>(idx: seq<T>, aln: string) returns (r: seq<Option<T>>)
    ensures r == Inserted(Wrap(idx), aln)
  {
    r := Wrap(idx);
    for i := 0 to |aln|
      invariant r == Inserted(Wrap(idx), aln[..i])
    {
      assert aln[..i + 1][..i] == aln[..i];
      if aln[i] == '-' {
        r := if i <= |r| then r[..i] + [None] + r[i..] else r + [None];
      }
    }
    assert aln[..|aln|] == aln;
  }

  /** Number of non-gap characters. */
  function Residues(aln: string): (n: nat)
    ensures n <= |aln|
  {
    if |aln| == 0 then 0 else Residues(aln[..|aln| - 1]) + (if aln[|aln| - 1] == '-' then 0 else 1)
  }

  /** The intended result: one entry per alignment column, None exactly at
      gaps, and the atoms in their original order at the other columns. */
  function Aligned<T>(idx: seq<T>, aln: string): (r: seq<Option<T>>)
    requires Residues(aln) <= |idx|
    ensures |r| == |aln|
  {
    if |aln| == 0 then []
    else
      var n := |aln| - 1;
      Aligned(idx, aln[..n]) + [if aln[n] == '-' then None else Some(idx[Residues(aln) - 1])]
  }

  lemma {:induction false} AlignedAt<T>(idx: seq<T>, aln: string, k: nat)
    requires Residues(aln) <= |idx| && k < |aln|
    ensures aln[k] != '-' ==> Residues(aln[..k]) < Residues(aln)
    ensures Aligned(idx, aln)[k] == if aln[k] == '-' then None else Some(idx[Residues(aln[..k])])
  {
    var n := |aln| - 1;
    ResiduesPrefix(aln, k + 1);
    assert aln[..k + 1][..k] == aln[..k];
    if k < n {
      assert aln[..n][..k] == aln[..k];
      AlignedAt(idx, aln[..n], k);
    } else {
      assert aln[..k] == aln[..n];
    }
  }

  /** When the list holds one atom per non-gap column, scanning left to right
      inserts every None exactly at its gap: the result is `Aligned`. */
  lemma GapsLandInPlace<T>(idx: seq<T>, aln: string)
    requires Residues(aln) == |idx|
    ensures Inserted(Wrap(idx), aln) == Aligned(idx, aln)
  {
    forall i | 0 <= i <= |aln|
      ensures Residues(aln[..i]) <= |idx|
    {
      ResiduesPrefix(aln, i);
    }
    InsertedPrefix(idx, aln, |aln|);
    assert aln[..|aln|] == aln;
  }

  lemma {:induction false} ResiduesPrefix(aln: string, i: nat)
    requires i <= |aln|
    ensures Residues(aln[..i]) <= Residues(aln)
    decreases |aln|
  {
    if i < |aln| {
      var n := |aln| - 1;
      assert aln[..n][..i] == aln[..i];
      ResiduesPrefix(aln[..n], i);
    } else {
      assert aln[..i] == aln;
    }
  }

  lemma {:induction false} InsertedPrefix<T>(idx: seq<T>, aln: string, i: nat)
    requires i <= |aln|
    requires forall j :: 0 <= j <= |aln| ==> Residues(aln[..j]) <= |idx|
    ensures Inserted(Wrap(idx), aln[..i]) == Aligned(idx, aln[..i]) + Wrap(idx[Residues(aln[..i])..])
  {
    if i == 0 {
      assert aln[..0] == [];
      assert idx[0..] == idx;
    } else {
      var p := aln[..i];
      var n := i - 1;
      assert p[..n] == aln[..n];
      InsertedPrefix(idx, aln, n);
      assert Residues(p) <= |idx|;
      if p[n] == '-' {
        GapColumn(idx, p);
      } else {
        ResidueColumn(idx, p);
      }
    }
  }

  /** A gap column: the None is inserted just after the columns before it. */
  lemma GapColumn<T>(idx: seq<T>, p: string)
    requires |p| > 0 && p[|p| - 1] == '-' && Residues(p) <= |idx|
    requires var q := p[..|p| - 1];
      Inserted(Wrap(idx), q) == Aligned(idx, q) + Wrap(idx[Residues(q)..])
    ensures Inserted(Wrap(idx), p) == Aligned(idx, p) + Wrap(idx[Residues(p)..])
  {
    var n := |p| - 1;
    var before := Aligned(idx, p[..n]);
    var after := Wrap(idx[Residues(p)..]);
    assert (before + after)[..n] == before;
    assert (before + after)[n..] == after;
  }

  /** A residue column: the next atom already sits in place. */
  lemma ResidueColumn<T>(idx: seq<T>, p: string)
    requires |p| > 0 && p[|p| - 1] != '-' && Residues(p) <= |idx|
    requires var q := p[..|p| - 1];
      Inserted(Wrap(idx), q) == Aligned(idx, q) + Wrap(idx[Residues(q)..])
    ensures Inserted(Wrap(idx), p) == Aligned(idx, p) + Wrap(idx[Residues(p)..])
  {
    var q := p[..|p| - 1];
    var g := Residues(q);
    var head := Aligned(idx, q);
    assert Residues(p) == g + 1;
    WrapFrom(idx, g);
    calc {
      Inserted(Wrap(idx), p);
      Inserted(Wrap(idx), q);
      head + Wrap(idx[g..]);
      head + ([Some(idx[g])] + Wrap(idx[g + 1..]));
      (head + [Some(idx[g])]) + Wrap(idx[g + 1..]);
      Aligned(idx, p) + Wrap(idx[g + 1..]);
    }
  }

  lemma WrapFrom<T>(s: seq<T>, g: nat)
    requires g < |s|
    ensures Wrap(s[g..]) == [Some(s[g])] + Wrap(s[g + 1..])
  {
  }


}

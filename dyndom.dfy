/** The parser of a DynDom `.info` file (`dyndom_parse_info`): it walks the
    lines with a FIXED/MOVING mode flag, remembers the current domain number
    and colour, and turns every RESIDUE NUMBERS line into a selection and a
    colouring of `domain_<number>`; BENDING RESIDUES lines are collected
    into one final `bending` selection. The host's `select`/`color` calls
    are recorded as commands; the result is the name of the last domain
    selected while in FIXED mode. */
module DynDom {
  import opened Common

  /** A host call issued by the parser. */
  datatype Command = Select(name: string, expr: string) | Color(color: string, name: string)

  datatype Outcome = Outcome(fixedName: Option<string>, commands: seq<Command>)

  /** The parser's local variables. `domNr` is None while `dom_nr` still
      holds its initial integer 0, which cannot be concatenated to a string. */
  datatype DState = DState(fixed: bool, fixedName: Option<string>, domNr: Option<string>,
                           color: string, bending: seq<string>, commands: seq<Command>)

  const Start := DState(false, None, None, "none", [], [])

  const FixedPrefix := "FIXED  DOMAIN"
  const MovingPrefix := "MOVING DOMAIN"
  const DomainPrefix := "DOMAIN NUMBER:"
  const ResiduePrefix := "RESIDUE NUMBERS :"
  const BendingPrefix := "BENDING RESIDUES:"
  const ColouredInfix := " (coloured "

  /** Regular-expression word characters, restricted to ASCII. */
  predicate IsWordChar(c: char) {
    'a' <= c <= 'z' || 'A' <= c <= 'Z' || '0' <= c <= '9' || c == '_'
  }

  /** Length of the longest prefix of `s` whose characters all satisfy `p`. */
  function Span(s: string, p: char -> bool): (n: nat)
    ensures n <= |s|
    ensures forall i :: 0 <= i < n ==> p(s[i])
    ensures n < |s| ==> !p(s[n])
  {
    if |s| == 0 || !p(s[0]) then 0 else 1 + Span(s[1..], p)
  }

  predicate IsBlank(c: char) {
    c == ' '
  }

  predicate NotNewline(c: char) {
    c != '\n'
  }

  /** What `(.*)` captures: the text up to the first newline. */
  function RestOfLine(s: string): (r: string)
    ensures |r| <= |s| && r == s[..|r|] && '\n' !in r
    ensures |r| < |s| ==> s[|r|] == '\n'
  {
    s[..Span(s, NotNewline)]
  }

  /** A run of characters satisfying `p`, followed by one that does not
      (or by nothing), has exactly the run's length as its span. */
  lemma {:induction false} SpanOf(x: string, y: string, p: char -> bool)
    requires forall i :: 0 <= i < |x| ==> p(x[i])
    requires |y| > 0 ==> !p(y[0])
    ensures Span(x + y, p) == |x|
    decreases |x|
  {
    if |x| == 0 {
      assert x + y == y;
    } else {
      assert (x + y)[0] == x[0] && (x + y)[1..] == x[1..] + y;
      SpanOf(x[1..], y, p);
    }
  }

  /** `resi.replace(',', '+').replace(' ', '')`: every comma becomes a `+`,
      every blank is dropped, and every other character stays in place
      (`CleanResiChar`, `CleanResiAppend`). */
  function CleanResi(s: string): (r: string)
    ensures ',' !in r && ' ' !in r
    ensures |r| <= |s|
    ensures (',' !in s && ' ' !in s) ==> r == s
  {
    if |s| == 0 then ""
    else CleanChar(s[0]) + CleanResi(s[1..])
  }

  function CleanChar(c: char): string {
    if c == ' ' then "" else if c == ',' then "+" else [c]
  }

  lemma CleanResiCons(s: string)
    requires |s| > 0
    ensures CleanResi(s) == CleanChar(s[0]) + CleanResi(s[1..])
  {
  }

  lemma StringAssoc(a: string, b: string, c: string)
    ensures a + (b + c) == a + b + c
  {
  }

  /** A single character: a comma becomes `+`, a blank vanishes, anything
      else is kept. */
  lemma CleanResiChar(c: char)
    ensures CleanResi([',']) == "+"
    ensures CleanResi([' ']) == ""
    ensures c != ',' && c != ' ' ==> CleanResi([c]) == [c]
  {
    assert [c][1..] == [] && [','][1..] == [] && [' '][1..] == [];
  }

  /** Both replacements work character by character, so the cleaned text
      of a concatenation is the concatenation of the cleaned texts. */
  lemma {:induction false} CleanResiAppend(a: string, b: string)
    ensures CleanResi(a + b) == CleanResi(a) + CleanResi(b)
    decreases |a|
  {
    if |a| == 0 {
      assert a + b == b;
    } else {
      assert (a + b)[0] == a[0] && (a + b)[1..] == a[1..] + b;
      CleanResiCons(a + b);
      CleanResiAppend(a[1..], b);
      CleanResiCons(a);
      StringAssoc(CleanChar(a[0]), CleanResi(a[1..]), CleanResi(b));
    }
  }

  /** `re.match(r'DOMAIN NUMBER: *(\d+) \(coloured (\w+)', line)`: the
      domain number and the colour when the line matches. */
  function DomainMatch(line: string): (r: Option<(string, string)>)
    ensures r.Some? ==> StartsWith(line, DomainPrefix)
    ensures r.Some? ==> |r.value.0| > 0 && forall i :: 0 <= i < |r.value.0| ==> IsDigit(r.value.0[i])
    ensures r.Some? ==> |r.value.1| > 0 && forall i :: 0 <= i < |r.value.1| ==> IsWordChar(r.value.1[i])
  {
    if !StartsWith(line, DomainPrefix) then None
    else
      var s1 := line[|DomainPrefix|..];
      NumberAndColour(s1[Span(s1, IsBlank)..])
  }

  /** The pattern after `DOMAIN NUMBER: *`: `(\d+) \(coloured (\w+)`. */
  function NumberAndColour(s2: string): (r: Option<(string, string)>)
    ensures r.Some? ==> |r.value.0| > 0 && forall i :: 0 <= i < |r.value.0| ==> IsDigit(r.value.0[i])
    ensures r.Some? ==> |r.value.1| > 0 && forall i :: 0 <= i < |r.value.1| ==> IsWordChar(r.value.1[i])
  {
    var n := Span(s2, IsDigit);
    if n == 0 || !StartsWith(s2[n..], ColouredInfix) then None
    else
      var s3 := s2[n + |ColouredInfix|..];
      var w := Span(s3, IsWordChar);
      if w == 0 then None else Some((s2[..n], s3[..w]))
  }

  /** The parts of a line the domain pattern matches: blanks, the domain
      number, the colour, and a rest that does not extend the colour. */
  ghost predicate DomainLine(sp: string, d: string, c: string, rest: string) {
    (forall i :: 0 <= i < |sp| ==> sp[i] == ' ') &&
    |d| > 0 && (forall i :: 0 <= i < |d| ==> IsDigit(d[i])) &&
    |c| > 0 && (forall i :: 0 <= i < |c| ==> IsWordChar(c[i])) &&
    (|rest| > 0 ==> !IsWordChar(rest[0]))
  }

  /** Every line of the pattern's form is matched, and the captures are
      the whole digit run and the whole word run. */
  lemma {:induction false} DomainMatchComplete(sp: string, d: string, c: string, rest: string)
    requires DomainLine(sp, d, c, rest)
    ensures DomainMatch(DomainPrefix + (sp + (d + (ColouredInfix + (c + rest))))) == Some((d, c))
  {
    var s2 := d + (ColouredInfix + (c + rest));
    var s1 := sp + s2;
    var line := DomainPrefix + s1;
    assert line[..|DomainPrefix|] == DomainPrefix && line[|DomainPrefix|..] == s1;
    SpanOf(sp, s2, IsBlank);
    assert s1[|sp|..] == s2;
    NumberAndColourComplete(d, c, rest);
  }

  lemma {:induction false} NumberAndColourComplete(d: string, c: string, rest: string)
    requires |d| > 0 && (forall i :: 0 <= i < |d| ==> IsDigit(d[i]))
    requires |c| > 0 && (forall i :: 0 <= i < |c| ==> IsWordChar(c[i]))
    requires |rest| > 0 ==> !IsWordChar(rest[0])
    ensures NumberAndColour(d + (ColouredInfix + (c + rest))) == Some((d, c))
  {
    var s3 := c + rest;
    var t := ColouredInfix + s3;
    var s2 := d + t;
    SpanOf(d, t, IsDigit);
    assert s2[|d|..] == t && s2[..|d|] == d;
    assert t[..|ColouredInfix|] == ColouredInfix;
    assert s2[|d| + |ColouredInfix|..] == s3;
    SpanOf(c, rest, IsWordChar);
    assert s3[..|c|] == c;
  }

  /** Conversely, a matched line has that form, with the captures in place. */
  lemma {:induction false} DomainMatchSound(line: string) returns (sp: string, d: string, c: string, rest: string)
    requires DomainMatch(line).Some?
    ensures DomainMatch(line) == Some((d, c))
    ensures DomainLine(sp, d, c, rest)
    ensures line == DomainPrefix + (sp + (d + (ColouredInfix + (c + rest))))
  {
    var s1 := line[|DomainPrefix|..];
    var tail;
    sp, tail := LeadingBlanks(s1);
    DomainMatchAfterBlanks(line, s1);
    d, c := NumberAndColour(tail).value.0, NumberAndColour(tail).value.1;
    rest := NumberAndColourSound(tail);
    PrefixGlue(line, sp, tail);
  }

  lemma {:induction false} LeadingBlanks(s: string) returns (sp: string, tail: string)
    ensures sp == s[..Span(s, IsBlank)] && tail == s[Span(s, IsBlank)..] && s == sp + tail
    ensures forall i :: 0 <= i < |sp| ==> sp[i] == ' '
  {
    var b := Span(s, IsBlank);
    sp, tail := s[..b], s[b..];
  }

  lemma {:induction false} DomainMatchAfterBlanks(line: string, s1: string)
    requires StartsWith(line, DomainPrefix) && s1 == line[|DomainPrefix|..]
    ensures DomainMatch(line) == NumberAndColour(s1[Span(s1, IsBlank)..])
  {
  }

  lemma {:induction false} PrefixGlue(line: string, sp: string, tail: string)
    requires StartsWith(line, DomainPrefix) && line[|DomainPrefix|..] == sp + tail
    ensures line == DomainPrefix + (sp + tail)
  {
    assert line == line[..|DomainPrefix|] + line[|DomainPrefix|..];
  }

  lemma {:induction false} NumberAndColourSound(s2: string) returns (rest: string)
    requires NumberAndColour(s2).Some?
    ensures var r := NumberAndColour(s2).value;
      s2 == r.0 + (ColouredInfix + (r.1 + rest)) && (|rest| > 0 ==> !IsWordChar(rest[0]))
  {
    var n := Span(s2, IsDigit);
    var s3 := s2[n + |ColouredInfix|..];
    var w := Span(s3, IsWordChar);
    rest := s3[w..];
    SplitAt(s3, w);
    SplitAt(s2[n..], |ColouredInfix|);
    SplitAt(s2, n);
  }

  lemma SplitAt(s: string, k: nat)
    requires k <= |s|
    ensures s == s[..k] + s[k..]
  {
  }

  /** The selection expression `(%s) and (resi %s)`. */
  function ResiSelection(selection: string, resi: string): string {
    "(" + selection + ") and (resi " + resi + ")"
  }

  /** The effect of one line on the parser's variables. */
  function Step(st: DState, line: string, selection: string): (r: Result<DState>)
  {
    if StartsWith(line, FixedPrefix) then Ok(st.(fixed := true))
    else if StartsWith(line, MovingPrefix) then Ok(st.(fixed := false))
    else if DomainMatch(line).Some? then
      Ok(st.(domNr := Some(DomainMatch(line).value.0), color := DomainMatch(line).value.1))
    else if StartsWith(line, ResiduePrefix) then
      if st.domNr.None? then Err("TypeError")
      else
        var resi := CleanResi(RestOfLine(line[|ResiduePrefix|..]));
        var name := "domain_" + st.domNr.value;
        Ok(st.(commands := st.commands + [Select(name, ResiSelection(selection, resi)), Color(st.color, name)],
               fixedName := if st.fixed then Some(name) else st.fixedName))
    else if StartsWith(line, BendingPrefix) then
      Ok(st.(bending := st.bending + [BendingText(line)]))
    else Ok(st)
  }

  function Scan(lines: seq<string>, st: DState, selection: string): Result<DState>
    decreases |lines|
  {
    if |lines| == 0 then Ok(st)
    else match Step(st, lines[0], selection)
      case Err(e) => Err(e)
      case Ok(next) => Scan(lines[1..], next, selection)
  }

  /** The cleaned capture of a BENDING RESIDUES line. */
  function BendingText(line: string): string
    requires StartsWith(line, BendingPrefix)
  {
    CleanResi(RestOfLine(line[|BendingPrefix|..]))
  }

  /** After the last line: the bending selection, if any bending residues were seen. */
  function Finish(st: DState, selection: string): Outcome
  {
    if |st.bending| > 0 then
      Outcome(st.fixedName, st.commands +
        [Select("bending", ResiSelection(selection, Join("+", st.bending))), Color("green", "bending")])
    else Outcome(st.fixedName, st.commands)
  }

  /** `dyndom_parse_info` over the lines of the file. */
  method ParseInfo(lines: seq<string>, selection: string) returns (r: Result<Outcome>)
    ensures Scan(lines, Start, selection).Err? ==> r == Err(Scan(lines, Start, selection).msg)
    ensures Scan(lines, Start, selection).Ok? ==> r == Ok(Finish(Scan(lines, Start, selection).value, selection))
  {
    var fixed := false;
    var fixedName: Option<string> := None;
    var domNr: Option<string> := None;
    var color := "none";
    var bending: seq<string> := [];
    var commands: seq<Command> := [];
    for i := 0 to |lines|
      invariant Scan(lines, Start, selection) ==
        Scan(lines[i..], DState(fixed, fixedName, domNr, color, bending, commands), selection)
    {
      var line := lines[i];
      ghost var st := DState(fixed, fixedName, domNr, color, bending, commands);
      assert lines[i..][0] == line && lines[i..][1..] == lines[i + 1..];
      if StartsWith(line, FixedPrefix) {
        fixed := true;
        continue;
      }
      if StartsWith(line, MovingPrefix) {
        fixed := false;
        continue;
      }
      var m := DomainMatch(line);
      if m.Some? {
        domNr := Some(m.value.0);
        color := m.value.1;
        continue;
      }
      if StartsWith(line, ResiduePrefix) {
        var resi := CleanResi(RestOfLine(line[|ResiduePrefix|..]));
        if domNr.None? {
          return Err("TypeError");
        }
        var name := "domain_" + domNr.value;
        commands := commands + [Select(name, ResiSelection(selection, resi)), Color(color, name)];
        if fixed {
          fixedName := Some(name);
        }
        assert Step(st, line, selection) == Ok(DState(fixed, fixedName, domNr, color, bending, commands));
        continue;
      }
      if StartsWith(line, BendingPrefix) {
        var resi := CleanResi(RestOfLine(line[|BendingPrefix|..]));
        bending := bending + [resi];
      }
    }
    var st := DState(fixed, fixedName, domNr, color, bending, commands);
    return Ok(Finish(st, selection));
  }

  /** A domain selection name: `domain_` followed by the decimal domain number. */
  predicate IsDomainName(name: string) {
    |name| > 7 && name[..7] == "domain_" && forall i :: 7 <= i < |name| ==> IsDigit(name[i])
  }

  /** What the parser's state guarantees about the host calls so far: every
      selection made is a domain selection, every selection is coloured
      right after it is made, and the remembered fixed domain is one of the
      selections made. */
  ghost predicate Consistent(st: DState) {
    (st.domNr.Some? ==> |st.domNr.value| > 0 && forall i :: 0 <= i < |st.domNr.value| ==> IsDigit(st.domNr.value[i])) &&
    |st.commands| % 2 == 0 &&
    (forall k :: 0 <= k < |st.commands| / 2 ==>
       st.commands[2 * k].Select? && IsDomainName(st.commands[2 * k].name) &&
       st.commands[2 * k + 1].Color? && st.commands[2 * k + 1].name == st.commands[2 * k].name) &&
    (st.fixedName.Some? ==> exists k :: 0 <= k < |st.commands| / 2 && st.commands[2 * k].name == st.fixedName.value)
  }

  lemma StepConsistent(st: DState, line: string, selection: string)
    requires Consistent(st)
    ensures Step(st, line, selection).Ok? ==> Consistent(Step(st, line, selection).value)
  {
    if Step(st, line, selection).Ok? && !StartsWith(line, FixedPrefix) && !StartsWith(line, MovingPrefix)
       && DomainMatch(line).None? && StartsWith(line, ResiduePrefix) {
      var resi := CleanResi(RestOfLine(line[|ResiduePrefix|..]));
      var name := "domain_" + st.domNr.value;
      DomainNameOf(st.domNr.value);
      AppendDomain(st, name, ResiSelection(selection, resi));
      assert Step(st, line, selection).value ==
        st.(commands := st.commands + [Select(name, ResiSelection(selection, resi)), Color(st.color, name)],
            fixedName := if st.fixed then Some(name) else st.fixedName);
    }
  }

  /** `domain_` followed by a domain number is a domain selection name. */
  lemma DomainNameOf(nr: string)
    requires |nr| > 0 && forall i :: 0 <= i < |nr| ==> IsDigit(nr[i])
    ensures IsDomainName("domain_" + nr)
  {
    var name := "domain_" + nr;
    assert name[..7] == "domain_";
    forall i | 7 <= i < |name|
      ensures IsDigit(name[i])
    {
      assert name[i] == nr[i - 7];
    }
  }

  /** Selecting and colouring one more domain keeps the parser consistent. */
  lemma AppendDomain(st: DState, name: string, expr: string)
    requires Consistent(st) && IsDomainName(name)
    ensures Consistent(st.(commands := st.commands + [Select(name, expr), Color(st.color, name)],
                           fixedName := if st.fixed then Some(name) else st.fixedName))
  {
    var next := st.(commands := st.commands + [Select(name, expr), Color(st.color, name)],
                    fixedName := if st.fixed then Some(name) else st.fixedName);
    var n := |st.commands| / 2;
    assert next.commands[2 * n].name == name;
    forall k | 0 <= k < n
      ensures next.commands[2 * k] == st.commands[2 * k] && next.commands[2 * k + 1] == st.commands[2 * k + 1]
    {
    }
    if st.fixed {
      assert next.commands[2 * n].name == next.fixedName.value;
    } else if st.fixedName.Some? {
      var k :| 0 <= k < n && st.commands[2 * k].name == st.fixedName.value;
      assert next.commands[2 * k].name == next.fixedName.value;
    }
  }

  /** Every line keeps the parser consistent. */
  lemma {:induction false} ScanConsistent(lines: seq<string>, st: DState, selection: string)
    requires Consistent(st)
    ensures Scan(lines, st, selection).Ok? ==> Consistent(Scan(lines, st, selection).value)
    decreases |lines|
  {
    if |lines| > 0 {
      StepConsistent(st, lines[0], selection);
      if Step(st, lines[0], selection).Ok? {
        ScanConsistent(lines[1..], Step(st, lines[0], selection).value, selection);
      }
    }
  }

  /** The returned fixed domain, when there is one, is one of the domains
      the parser selected, and every selection before the final bending one
      is a `domain_<number>` selection followed by its colouring. */
  lemma FixedNameIsSelectedDomain(lines: seq<string>, selection: string)
    ensures Scan(lines, Start, selection).Ok? ==>
      var o := Finish(Scan(lines, Start, selection).value, selection);
      (o.fixedName.Some? ==>
         IsDomainName(o.fixedName.value) && exists e :: Select(o.fixedName.value, e) in o.commands)
  {
    ScanConsistent(lines, Start, selection);
    if Scan(lines, Start, selection).Ok? {
      var st := Scan(lines, Start, selection).value;
      var o := Finish(st, selection);
      if o.fixedName.Some? {
        var k :| 0 <= k < |st.commands| / 2 && st.commands[2 * k].name == st.fixedName.value;
        assert o.commands[2 * k] == st.commands[2 * k];
        assert Select(o.fixedName.value, st.commands[2 * k].expr) in o.commands;
      }
    }
  }

  predicate IsDomainLine(line: string) {
    !StartsWith(line, FixedPrefix) && !StartsWith(line, MovingPrefix) && DomainMatch(line).Some?
  }

  /** A RESIDUE NUMBERS line met before any DOMAIN NUMBER line makes the
      parser fail: there is no domain number to name the selection after. */
  lemma {:induction false} ResiduesBeforeDomainFail(lines: seq<string>, st: DState, selection: string, k: nat)
    requires st.domNr.None?
    requires k < |lines| && StartsWith(lines[k], ResiduePrefix)
    requires forall j :: 0 <= j < k ==> !IsDomainLine(lines[j])
    ensures Scan(lines, st, selection).Err?
    decreases k
  {
    var line := lines[0];
    if k == 0 {
      ResidueLineKind(line);
    } else if Step(st, line, selection).Ok? {
      assert !IsDomainLine(lines[0]);
      StepKeepsDomain(st, line, selection);
      ResiduesBeforeDomainFail(lines[1..], Step(st, line, selection).value, selection, k - 1);
    }
  }

  /** A RESIDUE NUMBERS line is neither a mode line nor a domain line. */
  lemma ResidueLineKind(line: string)
    requires StartsWith(line, ResiduePrefix)
    ensures !StartsWith(line, FixedPrefix) && !StartsWith(line, MovingPrefix) && DomainMatch(line).None?
  {
    assert line[0] == ResiduePrefix[..|ResiduePrefix|][0] == 'R';
    assert FixedPrefix[0] == 'F' && MovingPrefix[0] == 'M' && DomainPrefix[0] == 'D';
  }

  /** Only a DOMAIN NUMBER line changes the domain number. */
  lemma StepKeepsDomain(st: DState, line: string, selection: string)
    requires !IsDomainLine(line) && Step(st, line, selection).Ok?
    ensures Step(st, line, selection).value.domNr == st.domNr
  {
  }

  /** Every BENDING RESIDUES line appends its cleaned residue list to
      `bending`, in line order, and nothing else touches it. */
  lemma {:induction false} BendingCollected(lines: seq<string>, st: DState, selection: string)
    ensures Scan(lines, st, selection).Ok? ==> Scan(lines, st, selection).value.bending == st.bending + BendingTexts(lines)
    decreases |lines|
  {
    if |lines| > 0 && Step(st, lines[0], selection).Ok? {
      var next := Step(st, lines[0], selection).value;
      BendingStep(st, lines[0], selection);
      BendingCollected(lines[1..], next, selection);
      ScanHead(lines, st, selection);
      BendingTextsHead(lines);
      AppendAssoc(st.bending, BendingOf(lines[0]), BendingTexts(lines[1..]));
    } else if |lines| == 0 {
      assert st.bending + [] == st.bending;
    }
  }

  /** One line appends its cleaned list to `bending` exactly when it is a
      BENDING RESIDUES line. */
  lemma BendingStep(st: DState, line: string, selection: string)
    requires Step(st, line, selection).Ok?
    ensures Step(st, line, selection).value.bending == st.bending + BendingOf(line)
  {
  }

  lemma BendingTextsHead(lines: seq<string>)
    requires |lines| > 0
    ensures BendingTexts(lines) == BendingOf(lines[0]) + BendingTexts(lines[1..])
  {
  }

  lemma AppendAssoc(a: seq<string>, b: seq<string>, c: seq<string>)
    ensures a + b + c == a + (b + c)
  {
  }

  lemma ScanHead(lines: seq<string>, st: DState, selection: string)
    requires |lines| > 0 && Step(st, lines[0], selection).Ok?
    ensures Scan(lines, st, selection) == Scan(lines[1..], Step(st, lines[0], selection).value, selection)
  {
  }

  predicate IsBendingLine(line: string) {
    !StartsWith(line, FixedPrefix) && !StartsWith(line, MovingPrefix) && DomainMatch(line).None? &&
    !StartsWith(line, ResiduePrefix) && StartsWith(line, BendingPrefix)
  }

  /** What one line contributes to `bending`. */
  function BendingOf(line: string): seq<string> {
    if IsBendingLine(line) then [BendingText(line)] else []
  }

  /** The cleaned captures of the BENDING RESIDUES lines, in line order. */
  function BendingTexts(lines: seq<string>): (r: seq<string>)
    ensures |r| <= |lines|
    ensures |r| == 0 <==> forall j :: 0 <= j < |lines| ==> !IsBendingLine(lines[j])
  {
    if |lines| == 0 then []
    else BendingOf(lines[0]) + BendingTexts(lines[1..])
  }

  /** The parse makes the `bending` selection, coloured green, iff some
      line is a BENDING RESIDUES line, and its residue text is the
      `+`-join of those lines' cleaned captures, in line order. */
  lemma BendingSelectionIffBendingLine(lines: seq<string>, selection: string)
    ensures Scan(lines, Start, selection).Ok? ==> Scan(lines, Start, selection).value.bending == BendingTexts(lines)
    ensures Scan(lines, Start, selection).Ok? ==>
      (Select("bending", ResiSelection(selection, Join("+", BendingTexts(lines))))
         in Finish(Scan(lines, Start, selection).value, selection).commands
       <==> exists j :: 0 <= j < |lines| && IsBendingLine(lines[j]))
    ensures Scan(lines, Start, selection).Ok? && (exists j :: 0 <= j < |lines| && IsBendingLine(lines[j])) ==>
      var cmds := Finish(Scan(lines, Start, selection).value, selection).commands;
      |cmds| >= 2 && cmds[|cmds| - 1] == Color("green", "bending")
  {
    BendingCollected(lines, Start, selection);
    ScanConsistent(lines, Start, selection);
    if Scan(lines, Start, selection).Ok? {
      var st := Scan(lines, Start, selection).value;
      assert Start.bending + BendingTexts(lines) == BendingTexts(lines);
      var sel := Select("bending", ResiSelection(selection, Join("+", st.bending)));
      NoDomainIsBending(st, ResiSelection(selection, Join("+", st.bending)));
      if |st.bending| > 0 {
        assert Finish(st, selection).commands[|st.commands|] == sel;
      }
    }
  }

  /** No domain selection is the `bending` selection. */
  lemma NoDomainIsBending(st: DState, expr: string)
    requires Consistent(st)
    ensures Select("bending", expr) !in st.commands
  {
    forall i | 0 <= i < |st.commands|
      ensures st.commands[i] != Select("bending", expr)
    {
      var k := i / 2;
      if i % 2 == 0 {
        assert i == 2 * k && IsDomainName(st.commands[2 * k].name);
        assert "bending"[..7][0] == 'b' && "domain_"[0] == 'd';
      } else {
        assert i == 2 * k + 1 && st.commands[2 * k + 1].Color?;
      }
    }
  }

}

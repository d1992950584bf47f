/** `collapse_resi`: the residue numbers of a selection, grouped by
    (model, segi, chain), each group sorted and merged into maximal runs of
    consecutive numbers, printed as `/model/segi/chain/f-t+f+...` and the
    groups joined with spaces. */
module CollapseResi {
  import opened Common

  datatype ResidueKey = ResidueKey(model: string, segi: string, chain: string)

  /** An inclusive run of residue numbers `first..last`. */
  datatype Range = Range(first: int, last: int)

  predicate StrictlyIncreasing(s: seq<int>) {
    forall i, j :: 0 <= i < j < |s| ==> s[i] < s[j]
  }

  /** `s.add(x)` on a set kept as its ascending, duplicate-free sequence. */
  function Insert(r: seq<int>, x: int): (r': seq<int>)
    requires StrictlyIncreasing(r)
    ensures StrictlyIncreasing(r')
    ensures |r'| > 0 && (r'[0] == x || (|r| > 0 && r'[0] == r[0]))
    decreases |r|
  {
    if |r| == 0 then [x]
    else if x < r[0] then [x] + r
    else if x == r[0] then r
    else [r[0]] + Insert(r[1..], x)
  }

  /** After `add`, the set holds the old members and `x`, nothing else. */
  lemma {:induction false} InsertMembers(r: seq<int>, x: int, y: int)
    requires StrictlyIncreasing(r)
    ensures y in Insert(r, x) <==> y in r || y == x
    decreases |r|
  {
    if |r| > 0 && x > r[0] {
      InsertMembers(r[1..], x, y);
      assert y in r <==> y == r[0] || y in r[1..];
    }
  }

  /** The insertion as the loop that finds the position of `x`. */
  method Add(r: seq<int>, x: int) returns (r': seq<int>)
    requires StrictlyIncreasing(r)
    ensures r' == Insert(r, x)
  {
    var i := 0;
    while i < |r| && r[i] < x
      invariant 0 <= i <= |r|
      invariant Insert(r, x) == r[..i] + Insert(r[i..], x)
    {
      InsertSkips(r, i, x);
      i := i + 1;
    }
    InsertLands(r, i, x);
    if i < |r| && r[i] == x {
      r' := r;
    } else {
      r' := r[..i] + [x] + r[i..];
    }
  }

  lemma InsertSkips(r: seq<int>, i: nat, x: int)
    requires StrictlyIncreasing(r) && i < |r| && r[i] < x
    ensures StrictlyIncreasing(r[i..]) && StrictlyIncreasing(r[i + 1..])
    ensures r[..i] + Insert(r[i..], x) == r[..i + 1] + Insert(r[i + 1..], x)
  {
    assert r[i..][0] == r[i] && r[i..][1..] == r[i + 1..];
    assert r[..i + 1] == r[..i] + [r[i]];
  }

  lemma InsertLands(r: seq<int>, i: nat, x: int)
    requires StrictlyIncreasing(r) && i <= |r| && (i == |r| || x <= r[i])
    ensures StrictlyIncreasing(r[i..])
    ensures i < |r| && r[i] == x ==> r[..i] + Insert(r[i..], x) == r
    ensures !(i < |r| && r[i] == x) ==> r[..i] + Insert(r[i..], x) == r[..i] + [x] + r[i..]
  {
    assert r[..i] + r[i..] == r;
  }

  /** The merge loop of `collapse_resi` as a value: each number either
      extends the last range (`i <= r[-1][1] + 1`) or opens a new one. */
  function RangesOf(s: seq<int>): (r: seq<Range>)
    requires |s| > 0
    ensures |r| > 0
  {
    if |s| == 1 then [Range(s[0], s[0])]
    else
      var r := RangesOf(s[..|s| - 1]);
      var i := s[|s| - 1];
      if i <= r[|r| - 1].last + 1 then r[..|r| - 1] + [Range(r[|r| - 1].first, i)]
      else r + [Range(i, i)]
  }

  /** The merge loop itself, updating the last range in place. */
  method Ranges(s: seq<int>) returns (r: seq<Range>)
    requires |s| > 0
    ensures r == RangesOf(s)
  {
    r := [Range(s[0], s[0])];
    assert s[..1] == [s[0]];
    for n := 1 to |s|
      invariant r == RangesOf(s[..n])
    {
      var i := s[n];
      assert s[..n + 1][..n] == s[..n];
      if i <= r[|r| - 1].last + 1 {
        r := r[|r| - 1 := Range(r[|r| - 1].first, i)];
      } else {
        r := r + [Range(i, i)];
      }
    }
    assert s[..|s|] == s;
  }

  /** `x` lies in one of the ranges. */
  ghost predicate Covered(r: seq<Range>, x: int) {
    exists k :: 0 <= k < |r| && r[k].first <= x <= r[k].last
  }

  /** The ranges are ascending, each starts and ends on a member, and
      consecutive ranges are separated by at least one missing number. */
  ghost predicate Separated(s: seq<int>, r: seq<Range>) {
    (forall k :: 0 <= k < |r| ==> r[k].first <= r[k].last && r[k].first in s && r[k].last in s) &&
    (forall k :: 0 <= k < |r| - 1 ==> r[k].last + 1 < r[k + 1].first)
  }

  lemma {:induction false} RangesSeparated(s: seq<int>)
    requires |s| > 0 && StrictlyIncreasing(s)
    ensures Separated(s, RangesOf(s))
    ensures RangesOf(s)[|RangesOf(s)| - 1].last == s[|s| - 1]
    decreases |s|
  {
    if |s| > 1 {
      var p := s[..|s| - 1];
      var i := s[|s| - 1];
      RangesSeparated(p);
      var q := RangesOf(p);
      assert s == p + [i];
      RangesOfSnoc(p, i, q);
      assert q[|q| - 1].last == p[|p| - 1] < i;
      if i <= q[|q| - 1].last + 1 {
        SeparatedMerge(p, i, q);
      } else {
        SeparatedOpen(p, i, q);
      }
    }
  }

  /** One step of the merge loop, as a value. */
  lemma RangesOfSnoc(p: seq<int>, i: int, q: seq<Range>)
    requires |p| > 0 && q == RangesOf(p)
    ensures i <= q[|q| - 1].last + 1 ==> RangesOf(p + [i]) == q[..|q| - 1] + [Range(q[|q| - 1].first, i)]
    ensures q[|q| - 1].last + 1 < i ==> RangesOf(p + [i]) == q + [Range(i, i)]
  {
    var s := p + [i];
    assert |s| > 1 && s[..|s| - 1] == p && s[|s| - 1] == i;
  }

  lemma SeparatedMerge(p: seq<int>, i: int, q: seq<Range>)
    requires |q| > 0 && Separated(p, q) && q[|q| - 1].last < i <= q[|q| - 1].last + 1
    ensures Separated(p + [i], q[..|q| - 1] + [Range(q[|q| - 1].first, i)])
  {
    var r := q[..|q| - 1] + [Range(q[|q| - 1].first, i)];
    forall k | 0 <= k < |r|
      ensures r[k].first <= r[k].last && r[k].first in p + [i] && r[k].last in p + [i]
    {
      if k < |q| - 1 {
        assert r[k] == q[k];
      }
    }
    forall k | 0 <= k < |r| - 1
      ensures r[k].last + 1 < r[k + 1].first
    {
      assert r[k] == q[k] && r[k + 1].first == q[k + 1].first;
    }
  }

  lemma SeparatedOpen(p: seq<int>, i: int, q: seq<Range>)
    requires |q| > 0 && Separated(p, q) && q[|q| - 1].last + 1 < i
    ensures Separated(p + [i], q + [Range(i, i)])
  {
    var r := q + [Range(i, i)];
    forall k | 0 <= k < |r|
      ensures r[k].first <= r[k].last && r[k].first in p + [i] && r[k].last in p + [i]
    {
      if k < |q| {
        assert r[k] == q[k];
      }
    }
  }

  /** A number is covered by the ranges iff it is a member: together with
      `RangesSeparated`, the ranges are exactly the maximal runs. */
  lemma {:induction false} RangesCover(s: seq<int>, x: int)
    requires |s| > 0 && StrictlyIncreasing(s)
    ensures x in s <==> Covered(RangesOf(s), x)
    decreases |s|
  {
    if |s| > 1 {
      var p := s[..|s| - 1];
      var i := s[|s| - 1];
      assert StrictlyIncreasing(p);
      RangesCover(p, x);
      RangesSeparated(p);
      var q := RangesOf(p);
      assert q[|q| - 1].first <= q[|q| - 1].last == p[|p| - 1] < i;
      assert s == p + [i];
      assert x in s <==> x in p || x == i;
      CoverStep(p, i, x);
    } else {
      var r := RangesOf(s);
      if x == s[0] {
        assert r[0].first <= x <= r[0].last;
      }
    }
  }

  /** One step of the merge loop keeps "covered iff member". */
  lemma CoverStep(p: seq<int>, i: int, x: int)
    requires |p| > 0 && RangesOf(p)[|RangesOf(p)| - 1].first <= RangesOf(p)[|RangesOf(p)| - 1].last < i
    requires x in p <==> Covered(RangesOf(p), x)
    ensures (x in p || x == i) <==> Covered(RangesOf(p + [i]), x)
  {
    var q := RangesOf(p);
    RangesOfSnoc(p, i, q);
    if i <= q[|q| - 1].last + 1 {
      CoverMerge(p, i, q, x);
    } else {
      CoverOpen(p, i, q, x);
    }
  }

  /** `i` extends the last range. */
  lemma CoverMerge(p: seq<int>, i: int, q: seq<Range>, x: int)
    requires |q| > 0 && q[|q| - 1].first <= q[|q| - 1].last < i <= q[|q| - 1].last + 1
    requires x in p <==> Covered(q, x)
    ensures (x in p || x == i) <==> Covered(q[..|q| - 1] + [Range(q[|q| - 1].first, i)], x)
  {
    var n := |q| - 1;
    var r := q[..n] + [Range(q[n].first, i)];
    if x in p {
      var k :| 0 <= k < |q| && q[k].first <= x <= q[k].last;
      assert r[k].first <= x <= r[k].last;
    } else if x == i {
      assert r[n].first <= x <= r[n].last;
    }
    if Covered(r, x) {
      var k :| 0 <= k < |r| && r[k].first <= x <= r[k].last;
      if k < n {
        assert q[k] == r[k];
      } else if x != i {
        assert q[n].first <= x <= q[n].last;
      }
    }
  }

  /** `i` opens a range of its own. */
  lemma CoverOpen(p: seq<int>, i: int, q: seq<Range>, x: int)
    requires x in p <==> Covered(q, x)
    ensures (x in p || x == i) <==> Covered(q + [Range(i, i)], x)
  {
    var r := q + [Range(i, i)];
    if x in p {
      var k :| 0 <= k < |q| && q[k].first <= x <= q[k].last;
      assert r[k] == q[k];
    } else if x == i {
      assert r[|q|].first <= x <= r[|q|].last;
    }
    if Covered(r, x) {
      var k :| 0 <= k < |r| && r[k].first <= x <= r[k].last;
      if k < |q| {
        assert q[k] == r[k];
      }
    }
  }

  /** `'%d-%d' % (f, t) if f != t else '%d' % (f)`. */
  function RangeText(rg: Range): string {
    if rg.first != rg.last then IntToString(rg.first) + "-" + IntToString(rg.last) else IntToString(rg.first)
  }

  function RangeTexts(r: seq<Range>): (ts: seq<string>)
    ensures |ts| == |r| && forall k :: 0 <= k < |r| ==> ts[k] == RangeText(r[k])
  {
    if |r| == 0 then [] else [RangeText(r[0])] + RangeTexts(r[1..])
  }

  /** The text of one group: `'/%s/%s/%s/' % key + resi`. */
  function GroupText(key: ResidueKey, r: seq<Range>): string {
    "/" + key.model + "/" + key.segi + "/" + key.chain + "/" + Join("+", RangeTexts(r))
  }

  /** Position of the first occurrence of `c` in `s`, or `|s|`. */
  function Find(s: string, c: char): (p: nat)
    ensures p <= |s| && c !in s[..p] && (p < |s| ==> s[p] == c)
  {
    if |s| == 0 then 0 else if s[0] == c then 0 else 1 + Find(s[1..], c)
  }

  /** The pieces of `s` between occurrences of `c`. */
  function Split(s: string, c: char): (parts: seq<string>)
    ensures |parts| > 0
    decreases |s|
  {
    var p := Find(s, c);
    if p == |s| then [s] else [s[..p]] + Split(s[p + 1..], c)
  }

  predicate AllDigits(s: string) {
    forall i :: 0 <= i < |s| ==> IsDigit(s[i])
  }

  function ParseNat(s: string): Option<int> {
    if |s| > 0 && AllDigits(s) then Some(DigitsValue(s)) else None
  }

  /** Reads a range back: `f` or `f-t` with non-negative numbers. */
  function ParseRange(t: string): Option<Range> {
    var p := Find(t, '-');
    if p == |t| then
      (if ParseNat(t).Some? then Some(Range(ParseNat(t).value, ParseNat(t).value)) else None)
    else if ParseNat(t[..p]).Some? && ParseNat(t[p + 1..]).Some? then
      Some(Range(ParseNat(t[..p]).value, ParseNat(t[p + 1..]).value))
    else None
  }

  function ParseRanges(ts: seq<string>): Option<seq<Range>> {
    if |ts| == 0 then Some([])
    else if ParseRange(ts[0]).None? || ParseRanges(ts[1..]).None? then None
    else Some([ParseRange(ts[0]).value] + ParseRanges(ts[1..]).value)
  }

  lemma {:induction false} DigitsHaveNoSeparator(s: string, c: char)
    requires AllDigits(s) && !IsDigit(c)
    ensures Find(s, c) == |s|
    decreases |s|
  {
    if |s| > 0 {
      assert s[0] != c;
      DigitsHaveNoSeparator(s[1..], c);
    }
  }

  /** A range with non-negative bounds reads back as itself. */
  lemma RangeTextRoundTrip(rg: Range)
    requires 0 <= rg.first
    requires 0 <= rg.last
    ensures ParseRange(RangeText(rg)) == Some(rg)
  {
    NumberReadsBack(rg.first);
    NumberReadsBack(rg.last);
    if rg.first != rg.last {
      PairReadsBack(IntToString(rg.first), IntToString(rg.last), rg.first, rg.last);
    }
  }

  /** A non-negative number's text holds no `-` and parses back to it. */
  lemma NumberReadsBack(n: int)
    requires 0 <= n
    ensures '-' !in IntToString(n) && ParseNat(IntToString(n)) == Some(n)
  {
    var f := NatToString(n);
    assert IntToString(n) == f;
    NatToStringValue(n);
    DigitsHaveNoSeparator(f, '-');
  }

  lemma PairReadsBack(f: string, t: string, a: int, b: int)
    requires '-' !in f && ParseNat(f) == Some(a) && ParseNat(t) == Some(b)
    ensures ParseRange(f + "-" + t) == Some(Range(a, b))
  {
    var txt := f + "-" + t;
    assert txt == f + ("-" + t);
    assert ("-" + t)[0] == '-';
    FindPastPrefix(f, "-" + t, '-');
    assert Find(txt, '-') == |f|;
    assert txt[..|f|] == f;
    assert txt[|f| + 1..] == t;
  }

  lemma {:induction false} FindPastPrefix(a: string, b: string, c: char)
    requires c !in a
    ensures Find(a + b, c) == |a| + Find(b, c)
    decreases |a|
  {
    if |a| > 0 {
      assert (a + b)[1..] == a[1..] + b;
      FindPastPrefix(a[1..], b, c);
    } else {
      assert a + b == b;
    }
  }

  /** Splitting a `sep`-joined list whose parts do not contain `sep` gives the parts back. */
  lemma {:induction false} SplitJoin(parts: seq<string>, sep: char)
    requires |parts| > 0
    requires forall k :: 0 <= k < |parts| ==> sep !in parts[k]
    ensures Split(Join([sep], parts), sep) == parts
    decreases |parts|
  {
    if |parts| == 1 {
      FindPastPrefix(parts[0], "", sep);
      assert parts[0] + "" == parts[0];
    } else {
      var rest := Join([sep], parts[1..]);
      assert Join([sep], parts) == parts[0] + [sep] + rest;
      SplitAtFirst(parts[0], sep, rest);
      SplitJoin(parts[1..], sep);
      assert parts == [parts[0]] + parts[1..];
    }
  }

  /** The first piece of a split ends at the first separator. */
  lemma SplitAtFirst(a: string, sep: char, rest: string)
    requires sep !in a
    ensures Split(a + [sep] + rest, sep) == [a] + Split(rest, sep)
  {
    var s := a + [sep] + rest;
    FindPastPrefix(a, [sep] + rest, sep);
    assert s == a + ([sep] + rest);
    assert Find(s, sep) == |a|;
    assert s[..|a|] == a;
    assert s[|a| + 1..] == rest;
  }

  lemma {:induction false} RangeTextsRoundTrip(r: seq<Range>)
    requires forall k :: 0 <= k < |r| ==> 0 <= r[k].first && 0 <= r[k].last
    ensures ParseRanges(RangeTexts(r)) == Some(r)
    decreases |r|
  {
    if |r| > 0 {
      RangeTextRoundTrip(r[0]);
      RangeTextsRoundTrip(r[1..]);
      assert RangeTexts(r)[1..] == RangeTexts(r[1..]);
      assert r == [r[0]] + r[1..];
    }
  }

  lemma RangeTextHasNoPlus(rg: Range)
    ensures '+' !in RangeText(rg)
  {
    NumberHasNoPlus(rg.first);
    NumberHasNoPlus(rg.last);
  }

  /** A number's text is an optional `-` followed by digits. */
  lemma NumberHasNoPlus(n: int)
    ensures '+' !in IntToString(n)
  {
    var f := IntToString(n);
    forall i | 0 <= i < |f|
      ensures f[i] != '+'
    {
      if i == 0 && 0 <= n {
        assert f == NatToString(n);
      }
    }
  }

  /** The residue part of a group reads back as its ranges: split at `+`,
      then each piece at its first `-` (for non-negative residue numbers). */
  lemma ResiTextRoundTrip(r: seq<Range>)
    requires |r| > 0
    requires forall k :: 0 <= k < |r| ==> 0 <= r[k].first && 0 <= r[k].last
    ensures ParseRanges(Split(Join("+", RangeTexts(r)), '+')) == Some(r)
  {
    forall k | 0 <= k < |r|
      ensures '+' !in RangeTexts(r)[k]
    {
      RangeTextHasNoPlus(r[k]);
    }
    SplitJoin(RangeTexts(r), '+');
    RangeTextsRoundTrip(r);
  }

  /** Some iterated atom carries `key`. */
  ghost predicate HasKey(pairs: seq<(ResidueKey, int)>, key: ResidueKey) {
    exists i :: 0 <= i < |pairs| && pairs[i].0 == key
  }

  lemma HasKeySnoc(pairs: seq<(ResidueKey, int)>, key: ResidueKey)
    requires |pairs| > 0
    ensures HasKey(pairs, key) <==> HasKey(pairs[..|pairs| - 1], key) || pairs[|pairs| - 1].0 == key
  {
    var p := pairs[..|pairs| - 1];
    if HasKey(pairs, key) {
      var i :| 0 <= i < |pairs| && pairs[i].0 == key;
      if i < |p| {
        assert p[i].0 == key;
      }
    }
    if HasKey(p, key) {
      var i :| 0 <= i < |p| && p[i].0 == key;
      assert pairs[i].0 == key;
    }
  }

  /** The keys in order of first appearance, as a dict keeps them. */
  function KeysInOrder(pairs: seq<(ResidueKey, int)>): (keys: seq<ResidueKey>)
    decreases |pairs|
  {
    if |pairs| == 0 then []
    else
      var keys := KeysInOrder(pairs[..|pairs| - 1]);
      if pairs[|pairs| - 1].0 in keys then keys else keys + [pairs[|pairs| - 1].0]
  }

  /** Every key appears once, and exactly the keys of the atoms appear. */
  lemma {:induction false} KeysInOrderDistinct(pairs: seq<(ResidueKey, int)>)
    ensures forall a, b :: 0 <= a < b < |KeysInOrder(pairs)| ==> KeysInOrder(pairs)[a] != KeysInOrder(pairs)[b]
    ensures forall k :: k in KeysInOrder(pairs) <==> HasKey(pairs, k)
    decreases |pairs|
  {
    if |pairs| > 0 {
      KeysInOrderDistinct(pairs[..|pairs| - 1]);
      forall k
        ensures HasKey(pairs, k) <==> HasKey(pairs[..|pairs| - 1], k) || pairs[|pairs| - 1].0 == k
      {
        HasKeySnoc(pairs, k);
      }
    }
  }

  /** `s_dict[key]`: the residue numbers collected for `key`, kept as an
      ascending duplicate-free sequence. */
  function ResvOf(pairs: seq<(ResidueKey, int)>, key: ResidueKey): (r: seq<int>)
    ensures StrictlyIncreasing(r)
    decreases |pairs|
  {
    if |pairs| == 0 then []
    else
      var r := ResvOf(pairs[..|pairs| - 1], key);
      if pairs[|pairs| - 1].0 == key then Insert(r, pairs[|pairs| - 1].1) else r
  }

  /** The collected set holds exactly the residue numbers of the atoms with that key. */
  lemma {:induction false} ResvOfMembers(pairs: seq<(ResidueKey, int)>, key: ResidueKey, x: int)
    ensures x in ResvOf(pairs, key) <==> exists i :: 0 <= i < |pairs| && pairs[i] == (key, x)
    decreases |pairs|
  {
    if |pairs| > 0 {
      var p := pairs[..|pairs| - 1];
      ResvOfMembers(p, key, x);
      InsertMembers(ResvOf(p, key), pairs[|pairs| - 1].1, x);
      if exists i :: 0 <= i < |pairs| && pairs[i] == (key, x) {
        var i :| 0 <= i < |pairs| && pairs[i] == (key, x);
        if i < |p| {
          assert p[i] == (key, x);
        }
      }
      if exists i :: 0 <= i < |p| && p[i] == (key, x) {
        var i :| 0 <= i < |p| && p[i] == (key, x);
        assert pairs[i] == (key, x);
      }
    }
  }

  /** A key that occurs has at least one residue number. */
  lemma {:induction false} ResvOfNonEmpty(pairs: seq<(ResidueKey, int)>, key: ResidueKey)
    requires HasKey(pairs, key)
    ensures |ResvOf(pairs, key)| > 0
  {
    var i :| 0 <= i < |pairs| && pairs[i].0 == key;
    ResvOfMembers(pairs, key, pairs[i].1);
    assert pairs[i] == (key, pairs[i].1);
  }

  /** `s_dict[model, segi, chain].add(resv)` over the iterated atoms. */
  method Group(pairs: seq<(ResidueKey, int)>) returns (keys: seq<ResidueKey>, sets: map<ResidueKey, seq<int>>)
    ensures keys == KeysInOrder(pairs)
    ensures forall k :: k in sets <==> k in keys
    ensures forall k :: k in sets ==> sets[k] == ResvOf(pairs, k)
  {
    keys := [];
    sets := map[];
    for i := 0 to |pairs|
      invariant keys == KeysInOrder(pairs[..i])
      invariant forall k :: k in sets <==> k in keys
      invariant forall k :: k in sets ==> sets[k] == ResvOf(pairs[..i], k)
      invariant forall k :: k !in sets ==> ResvOf(pairs[..i], k) == []
    {
      var key := pairs[i].0;
      var resv := pairs[i].1;
      KeysStep(pairs, i);
      var next: seq<int>;
      if key in sets {
        next := Add(sets[key], resv);
      } else {
        keys := keys + [key];
        next := [resv];
      }
      assert next == Insert(ResvOf(pairs[..i], key), resv);
      SetsStep(pairs, i, sets, next, sets[key := next]);
      sets := sets[key := next];
    }
    assert pairs[..|pairs|] == pairs;
  }

  lemma KeysStep(pairs: seq<(ResidueKey, int)>, i: nat)
    requires i < |pairs|
    ensures KeysInOrder(pairs[..i + 1]) ==
      if pairs[i].0 in KeysInOrder(pairs[..i]) then KeysInOrder(pairs[..i]) else KeysInOrder(pairs[..i]) + [pairs[i].0]
  {
    assert pairs[..i + 1][..i] == pairs[..i];
  }

  /** Adding atom `i` to the dictionary of the first `i` atoms gives the
      dictionary of the first `i + 1`. */
  lemma SetsStep(pairs: seq<(ResidueKey, int)>, i: nat, sets: map<ResidueKey, seq<int>>, next: seq<int>,
                 sets': map<ResidueKey, seq<int>>)
    requires i < |pairs|
    requires forall k :: k in sets ==> sets[k] == ResvOf(pairs[..i], k)
    requires forall k :: k !in sets ==> ResvOf(pairs[..i], k) == []
    requires next == Insert(ResvOf(pairs[..i], pairs[i].0), pairs[i].1)
    requires sets' == sets[pairs[i].0 := next]
    ensures forall k :: k in sets' ==> sets'[k] == ResvOf(pairs[..i + 1], k)
    ensures forall k :: k !in sets' ==> ResvOf(pairs[..i + 1], k) == []
  {
    forall k
      ensures k != pairs[i].0 ==> ResvOf(pairs[..i + 1], k) == ResvOf(pairs[..i], k)
      ensures k == pairs[i].0 ==> ResvOf(pairs[..i + 1], k) == next
    {
      ResvStep(pairs, i, k);
    }
  }

  lemma ResvStep(pairs: seq<(ResidueKey, int)>, i: nat, k: ResidueKey)
    requires i < |pairs|
    ensures pairs[i].0 == k ==> ResvOf(pairs[..i + 1], k) == Insert(ResvOf(pairs[..i], k), pairs[i].1)
    ensures pairs[i].0 != k ==> ResvOf(pairs[..i + 1], k) == ResvOf(pairs[..i], k)
  {
    assert pairs[..i + 1][..i] == pairs[..i];
  }

  /** The text of every group, in order. */
  function GroupTexts(pairs: seq<(ResidueKey, int)>, keys: seq<ResidueKey>): (ts: seq<string>)
    requires forall k :: k in keys ==> HasKey(pairs, k)
    ensures |ts| == |keys|
  {
    if |keys| == 0 then []
    else
      ResvOfNonEmpty(pairs, keys[0]);
      [GroupText(keys[0], RangesOf(ResvOf(pairs, keys[0])))] + GroupTexts(pairs, keys[1..])
  }

  /** `collapse_resi`: one group text per key, in first-appearance order,
      joined with spaces. */
  method Collapse(pairs: seq<(ResidueKey, int)>) returns (text: string)
    ensures KeysInOrderHaveResidues(pairs) && text == Join(" ", GroupTexts(pairs, KeysInOrder(pairs)))
  {
    KeysInOrderDistinct(pairs);
    var keys, sets := Group(pairs);
    var all: seq<string> := [];
    assert forall k :: k in keys ==> HasKey(pairs, k);
    for g := 0 to |keys|
      invariant forall k :: k in keys[..g] ==> HasKey(pairs, k)
      invariant all == GroupTexts(pairs, keys[..g])
    {
      var key := keys[g];
      assert key in keys && sets[key] == ResvOf(pairs, key);
      ResvOfNonEmpty(pairs, key);
      var r := Ranges(sets[key]);
      GroupTextsSnoc(pairs, keys[..g], key);
      PrefixSnoc(keys, g);
      all := all + [GroupText(key, r)];
    }
    assert keys[..|keys|] == keys;
    text := Join(" ", all);
  }

  lemma PrefixSnoc<T>(s: seq<T>, g: nat)
    requires g < |s|
    ensures s[..g + 1] == s[..g] + [s[g]]
  {
  }

  ghost predicate KeysInOrderHaveResidues(pairs: seq<(ResidueKey, int)>) {
    forall k :: k in KeysInOrder(pairs) ==> HasKey(pairs, k)
  }

  lemma {:induction false} GroupTextsSnoc(pairs: seq<(ResidueKey, int)>, keys: seq<ResidueKey>, key: ResidueKey)
    requires forall k :: k in keys ==> HasKey(pairs, k)
    requires HasKey(pairs, key) && |ResvOf(pairs, key)| > 0
    ensures GroupTexts(pairs, keys + [key]) == GroupTexts(pairs, keys) + [GroupText(key, RangesOf(ResvOf(pairs, key)))]
    decreases |keys|
  {
    ResvOfNonEmpty(pairs, key);
    if |keys| > 0 {
      assert (keys + [key])[1..] == keys[1..] + [key];
      GroupTextsSnoc(pairs, keys[1..], key);
    }
  }

  /** What a group's ranges say about the residues: for every key of the
      output, a residue number is covered by one of the key's ranges iff
      some atom with that key has it, and the ranges are ascending,
      separated by gaps and bounded by members. */
  lemma GroupRangesExact(pairs: seq<(ResidueKey, int)>, key: ResidueKey, x: int)
    requires HasKey(pairs, key)
    ensures |ResvOf(pairs, key)| > 0
    ensures Covered(RangesOf(ResvOf(pairs, key)), x) <==> exists i :: 0 <= i < |pairs| && pairs[i] == (key, x)
    ensures Separated(ResvOf(pairs, key), RangesOf(ResvOf(pairs, key)))
  {
    ResvOfNonEmpty(pairs, key);
    ResvOfMembers(pairs, key, x);
    RangesCover(ResvOf(pairs, key), x);
    RangesSeparated(ResvOf(pairs, key));
  }
}

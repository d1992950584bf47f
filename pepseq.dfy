/** `select_pepseq` and `select_nucseq`: the guide atoms of a selection
    are laid out as a one-letter sequence in which a `#` (paired with no
    atom) marks every chain break, the regular-expression match spans on
    that sequence are mapped back to atoms, and those atoms' residues are
    selected. The atoms, in iteration order, and the match spans are
    inputs; the regular-expression engine is not modelled. */
module PepSeq {
  import opened Common

  datatype Coord = Coord(x: real, y: real, z: real)

  /** What the iteration callback sees of one guide atom. */
  datatype Atom = Atom(model: string, index: int, resn: string, coord: Coord)

  /** The parallel `seq_list` / `idx_list` pair. */
  datatype Layout = Layout(seqList: seq<char>, idxList: seq<Option<AtomId>>)

  /** The initial `prev`, `[1e300, 1e300, 1e300]`. */
  const Sentinel := Coord(1.0e300, 1.0e300, 1.0e300)

  function SquaredDistance(a: Coord, b: Coord): real {
    (a.x - b.x) * (a.x - b.x) + (a.y - b.y) * (a.y - b.y) + (a.z - b.z) * (a.z - b.z)
  }

  /** `cpv.distance(a, b) > cutoff`, compared on squares so that no square
      root is needed; a negative cutoff is exceeded by every distance. */
  predicate Far(a: Coord, b: Coord, cutoff: real) {
    cutoff < 0.0 || SquaredDistance(a, b) > cutoff * cutoff
  }

  /** `one_letter.get(resn, '#')`. */
  function Letter(letters: map<string, char>, resn: string): char {
    if resn in letters then letters[resn] else '#'
  }

  /** The value of `prev` after the callback has seen `atoms`. */
  function Prev(atoms: seq<Atom>): Coord {
    if |atoms| == 0 then Sentinel else atoms[|atoms| - 1].coord
  }

  function Id(a: Atom): AtomId {
    AtomId(a.model, a.index)
  }

  /** The two lists after the callback has seen `atoms`: before each atom
      farther than `cutoff` from the previous one, a `#` with no atom; then
      the atom's letter with its identifier. */
  function LayoutOf(atoms: seq<Atom>, letters: map<string, char>, cutoff: real): (l: Layout)
    ensures |l.seqList| == |l.idxList|
    ensures forall k :: 0 <= k < |l.idxList| && l.idxList[k].None? ==> l.seqList[k] == '#'
    ensures forall k :: 0 <= k < |l.seqList| ==> l.seqList[k] == '#' || l.seqList[k] in letters.Values
  {
    if |atoms| == 0 then Layout([], [])
    else
      var l := LayoutOf(atoms[..|atoms| - 1], letters, cutoff);
      var a := atoms[|atoms| - 1];
      var gap := Far(a.coord, Prev(atoms[..|atoms| - 1]), cutoff);
      Layout(l.seqList + (if gap then ['#'] else []) + [Letter(letters, a.resn)],
             l.idxList + (if gap then [None] else []) + [Some(Id(a))])
  }

  /** The callback, run once per atom in iteration order. */
  method BuildSequence(atoms: seq<Atom>, letters: map<string, char>, cutoff: real)
    returns (seqList: seq<char>, idxList: seq<Option<AtomId>>)
    ensures Layout(seqList, idxList) == LayoutOf(atoms, letters, cutoff)
  {
    seqList := [];
    idxList := [];
    var prev := Sentinel;
    for i := 0 to |atoms|
      invariant Layout(seqList, idxList) == LayoutOf(atoms[..i], letters, cutoff)
      invariant prev == Prev(atoms[..i])
    {
      var a := atoms[i];
      assert atoms[..i + 1][..i] == atoms[..i];
      if Far(a.coord, prev, cutoff) {
        seqList := seqList + ['#'];
        idxList := idxList + [None];
      }
      seqList := seqList + [Letter(letters, a.resn)];
      idxList := idxList + [Some(Id(a))];
      prev := a.coord;
    }
    assert atoms[..|atoms|] == atoms;
  }

  /** The letter and atom of every entry that has an atom, in list order. */
  function Entries(l: Layout): (es: seq<(char, AtomId)>)
    requires |l.seqList| == |l.idxList|
    ensures |es| <= |l.idxList|
    decreases |l.idxList|
  {
    if |l.idxList| == 0 then []
    else
      var n := |l.idxList| - 1;
      Entries(Layout(l.seqList[..n], l.idxList[..n])) + (if l.idxList[n].Some? then [(l.seqList[n], l.idxList[n].value)] else [])
  }

  lemma EntriesSnoc(l: Layout, c: char, o: Option<AtomId>)
    requires |l.seqList| == |l.idxList|
    ensures Entries(Layout(l.seqList + [c], l.idxList + [o])) == Entries(l) + (if o.Some? then [(c, o.value)] else [])
  {
    var n := |l.idxList|;
    assert (l.seqList + [c])[..n] == l.seqList && (l.idxList + [o])[..n] == l.idxList;
  }

  /** Each atom's letter and identifier, in iteration order. */
  function AtomEntries(letters: map<string, char>, atoms: seq<Atom>): (es: seq<(char, AtomId)>)
    ensures |es| == |atoms|
    ensures forall k :: 0 <= k < |atoms| ==> es[k] == (Letter(letters, atoms[k].resn), Id(atoms[k]))
  {
    if |atoms| == 0 then []
    else AtomEntries(letters, atoms[..|atoms| - 1]) + [(Letter(letters, atoms[|atoms| - 1].resn), Id(atoms[|atoms| - 1]))]
  }

  /** One callback step adds exactly one entry with an atom. */
  lemma EntriesStep(p: Layout, gap: bool, c: char, id: AtomId)
    requires |p.seqList| == |p.idxList|
    ensures Entries(Layout(p.seqList + (if gap then ['#'] else []) + [c], p.idxList + (if gap then [None] else []) + [Some(id)]))
      == Entries(p) + [(c, id)]
  {
    if gap {
      var q := Layout(p.seqList + ['#'], p.idxList + [None]);
      EntriesSnoc(p, '#', None);
      EntriesSnoc(q, c, Some(id));
    } else {
      assert p.seqList + [] + [c] == p.seqList + [c] && p.idxList + [] + [Some(id)] == p.idxList + [Some(id)];
      EntriesSnoc(p, c, Some(id));
    }
  }

  /** Leaving out the gap markers, the two lists hold exactly the atoms in
      iteration order, each with its residue's letter (`#` for a residue
      name the table does not know). */
  lemma {:induction false} LayoutEntries(atoms: seq<Atom>, letters: map<string, char>, cutoff: real)
    ensures Entries(LayoutOf(atoms, letters, cutoff)) == AtomEntries(letters, atoms)
    decreases |atoms|
  {
    if |atoms| > 0 {
      var n := |atoms| - 1;
      var a := atoms[n];
      LayoutEntries(atoms[..n], letters, cutoff);
      EntriesStep(LayoutOf(atoms[..n], letters, cutoff), Far(a.coord, Prev(atoms[..n]), cutoff), Letter(letters, a.resn), Id(a));
    }
  }

  /** Number of atoms preceded by a chain break. */
  function Breaks(atoms: seq<Atom>, cutoff: real): nat {
    if |atoms| == 0 then 0
    else Breaks(atoms[..|atoms| - 1], cutoff) + (if Far(atoms[|atoms| - 1].coord, Prev(atoms[..|atoms| - 1]), cutoff) then 1 else 0)
  }

  /** One entry per atom plus one marker per chain break. */
  lemma {:induction false} LayoutLength(atoms: seq<Atom>, letters: map<string, char>, cutoff: real)
    ensures |LayoutOf(atoms, letters, cutoff).idxList| == |atoms| + Breaks(atoms, cutoff)
    decreases |atoms|
  {
    if |atoms| > 0 {
      LayoutLength(atoms[..|atoms| - 1], letters, cutoff);
    }
  }

  /** The lists for a prefix of the atoms are a prefix of the lists. */
  lemma {:induction false} LayoutPrefix(atoms: seq<Atom>, i: nat, letters: map<string, char>, cutoff: real)
    requires i <= |atoms|
    ensures var p := LayoutOf(atoms[..i], letters, cutoff);
      var l := LayoutOf(atoms, letters, cutoff);
      |p.idxList| <= |l.idxList| && l.seqList[..|p.seqList|] == p.seqList && l.idxList[..|p.idxList|] == p.idxList
    decreases |atoms| - i
  {
    if i < |atoms| {
      var n := |atoms| - 1;
      assert atoms[..n][..i] == atoms[..i];
      LayoutPrefix(atoms[..n], i, letters, cutoff);
    } else {
      assert atoms[..i] == atoms;
    }
  }

  /** The first atom opens with a gap marker whenever it is farther than
      the cutoff from the initial `prev`, so a match never runs into
      whatever precedes the selection. */
  lemma FirstAtomOpensGap(atoms: seq<Atom>, letters: map<string, char>, cutoff: real)
    requires |atoms| > 0 && Far(atoms[0].coord, Sentinel, cutoff)
    ensures LayoutOf(atoms, letters, cutoff).idxList[0] == None
    ensures LayoutOf(atoms, letters, cutoff).seqList[0] == '#'
  {
    LayoutPrefix(atoms, 1, letters, cutoff);
    assert atoms[..1][..0] == [];
    var p := LayoutOf(atoms[..1], letters, cutoff);
    assert p.idxList[0] == None;
  }

  /** The atoms of a list of entries, skipping the `None` markers. */
  function Present(ix: seq<Option<AtomId>>): (r: seq<AtomId>)
    ensures |r| <= |ix|
  {
    if |ix| == 0 then []
    else Present(ix[..|ix| - 1]) + (if ix[|ix| - 1].Some? then [ix[|ix| - 1].value] else [])
  }

  lemma {:induction false} PresentMembers(ix: seq<Option<AtomId>>, x: AtomId)
    ensures x in Present(ix) <==> Some(x) in ix
    decreases |ix|
  {
    if |ix| > 0 {
      var n := |ix| - 1;
      PresentMembers(ix[..n], x);
      assert ix == ix[..n] + [ix[n]];
      assert Some(x) in ix <==> Some(x) in ix[..n] || ix[n] == Some(x);
    }
  }

  /** Python's `idx_list[start:stop]` for non-negative bounds. */
  function Slice(ix: seq<Option<AtomId>>, start: nat, stop: nat): (r: seq<Option<AtomId>>)
    ensures forall k :: 0 <= k < |r| ==> start + k < stop && start + k < |ix| && r[k] == ix[start + k]
    ensures forall k :: start <= k < stop && k < |ix| ==> k - start < |r| && r[k - start] == ix[k]
  {
    var hi := if stop < |ix| then stop else |ix|;
    if start >= hi then [] else ix[start..hi]
  }

  /** `sel_list` after the match spans `spans`: the atoms of each span,
      span after span. */
  function Selected(ix: seq<Option<AtomId>>, spans: seq<(nat, nat)>): seq<AtomId> {
    if |spans| == 0 then []
    else
      var sp := spans[|spans| - 1];
      Selected(ix, spans[..|spans| - 1]) + Present(Slice(ix, sp.0, sp.1))
  }

  /** The loop over the matches, extending `sel_list` span by span. */
  method SelectAtoms(ix: seq<Option<AtomId>>, spans: seq<(nat, nat)>) returns (selList: seq<AtomId>)
    ensures selList == Selected(ix, spans)
  {
    selList := [];
    for m := 0 to |spans|
      invariant selList == Selected(ix, spans[..m])
    {
      assert spans[..m + 1][..m] == spans[..m];
      selList := selList + Present(Slice(ix, spans[m].0, spans[m].1));
    }
    assert spans[..|spans|] == spans;
  }

  /** Some entry inside the span `sp` carries atom `x`. */
  ghost predicate SpanHas(ix: seq<Option<AtomId>>, sp: (nat, nat), x: AtomId) {
    exists k :: sp.0 <= k < sp.1 && k < |ix| && ix[k] == Some(x)
  }

  lemma SliceMembers(ix: seq<Option<AtomId>>, sp: (nat, nat), x: AtomId)
    ensures x in Present(Slice(ix, sp.0, sp.1)) <==> SpanHas(ix, sp, x)
  {
    var sl := Slice(ix, sp.0, sp.1);
    PresentMembers(sl, x);
    if Some(x) in sl {
      var j :| 0 <= j < |sl| && sl[j] == Some(x);
      assert sp.0 + j < sp.1 && sp.0 + j < |ix| && ix[sp.0 + j] == Some(x);
    }
    if SpanHas(ix, sp, x) {
      var k :| sp.0 <= k < sp.1 && k < |ix| && ix[k] == Some(x);
      assert sl[k - sp.0] == Some(x);
    }
  }

  /** Some span among `spans` has an entry carrying atom `x`. */
  ghost predicate SomeSpanHas(ix: seq<Option<AtomId>>, spans: seq<(nat, nat)>, x: AtomId) {
    exists m :: 0 <= m < |spans| && SpanHas(ix, spans[m], x)
  }

  lemma SomeSpanSnoc(ix: seq<Option<AtomId>>, spans: seq<(nat, nat)>, x: AtomId)
    requires |spans| > 0
    ensures SomeSpanHas(ix, spans, x) <==>
      SomeSpanHas(ix, spans[..|spans| - 1], x) || SpanHas(ix, spans[|spans| - 1], x)
  {
    var n := |spans| - 1;
    if SomeSpanHas(ix, spans, x) {
      var m :| 0 <= m < |spans| && SpanHas(ix, spans[m], x);
      if m < n {
        assert spans[..n][m] == spans[m];
      }
    }
    if SomeSpanHas(ix, spans[..n], x) {
      var m :| 0 <= m < n && SpanHas(ix, spans[..n][m], x);
      assert spans[..n][m] == spans[m];
    }
  }

  /** An atom is selected exactly when some match span covers one of its
      entries. */
  lemma {:induction false} SelectedMembers(ix: seq<Option<AtomId>>, spans: seq<(nat, nat)>, x: AtomId)
    ensures x in Selected(ix, spans) <==> SomeSpanHas(ix, spans, x)
    decreases |spans|
  {
    if |spans| > 0 {
      var n := |spans| - 1;
      SelectedMembers(ix, spans[..n], x);
      SliceMembers(ix, spans[n], x);
      SomeSpanSnoc(ix, spans, x);
    }
  }

  /** `'%s`%d' % idx`. */
  function AtomText(id: AtomId): string {
    id.model + "`" + IntToString(id.index)
  }

  function AtomTexts(ids: seq<AtomId>): (ts: seq<string>)
    ensures |ts| == |ids| && forall k :: 0 <= k < |ids| ==> ts[k] == AtomText(ids[k])
  {
    if |ids| == 0 then [] else [AtomText(ids[0])] + AtomTexts(ids[1..])
  }

  /** The selection restricted to whole residues of the selected atoms;
      with no match it selects nothing (`byres (none )`). */
  function SelectionText(selection: string, ids: seq<AtomId>): (r: string)
    ensures StartsWith(r, "(" + selection + ") and byres (none ")
    ensures r[|r| - 1] == ')'
    ensures |ids| == 0 ==> r == "(" + selection + ") and byres (none )"
  {
    var head := "(" + selection + ") and byres (none ";
    var r := head + Join(" ", AtomTexts(ids)) + ")";
    assert r[..|head|] == head;
    r
  }

  /** `select_pepseq` from the atoms and the match spans. */
  method SelectPepseq(atoms: seq<Atom>, letters: map<string, char>, cutoff: real, spans: seq<(nat, nat)>, selection: string)
    returns (sequence: seq<char>, sele: string)
    ensures sequence == LayoutOf(atoms, letters, cutoff).seqList
    ensures sele == SelectionText(selection, Selected(LayoutOf(atoms, letters, cutoff).idxList, spans))
  {
    var idxList;
    sequence, idxList := BuildSequence(atoms, letters, cutoff);
    var selList := SelectAtoms(idxList, spans);
    sele := SelectionText(selection, selList);
  }

  /** `select_nucseq`'s table: each nucleotide stands for itself. */
  const NucLetters: map<string, char> := map["A" := 'A', "C" := 'C', "T" := 'T', "G" := 'G', "U" := 'U']

  /** `select_nucseq` uses the nucleotide table and a 6.5 cutoff. */
  const NucCutoff: real := 6.5

  /** A nucleotide sequence holds only A, C, G, T, U and gap markers. */
  lemma NucSequenceLetters(atoms: seq<Atom>)
    ensures forall k :: 0 <= k < |LayoutOf(atoms, NucLetters, NucCutoff).seqList| ==>
      LayoutOf(atoms, NucLetters, NucCutoff).seqList[k] in "ACGTU#"
  {
    assert NucLetters.Values == {'A', 'C', 'T', 'G', 'U'} by {
      assert NucLetters["A"] == 'A' && NucLetters["C"] == 'C' && NucLetters["T"] == 'T';
      assert NucLetters["G"] == 'G' && NucLetters["U"] == 'U';
    }
  }
}

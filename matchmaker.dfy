/** Pairing of atoms between a mobile and a target selection (fitting.py,
    class MatchMaker). The host's answers -- atom indices of a selection,
    the columns of an alignment object, unused names, atom counts -- are
    given as plain values. */
module MatchMaking {
  import opened Common

  /** What the `match` argument asks for. */
  datatype Strategy =
    | Unchanged                     // "none": use both selections as they are
    | Operator(op: string)          // "in" or "like": match atoms by a selection operator
    | Aligner(command: string)      // "align" or "super": align into a fresh alignment object
    | AlignmentObject(name: string) // the name of an existing alignment object

  /** Interprets `matchName` the way the constructor does; `isAlignmentObject`
      tells whether the host knows an object of that name whose type is an
      alignment. Any other name is refused with an error. */
  function Resolve(matchName: string, isAlignmentObject: bool): (r: Result<Strategy>)
    ensures r.Err? <==> matchName !in {"none", "in", "like", "align", "super"} && !isAlignmentObject
    ensures r == Ok(Unchanged) <==> matchName == "none"
    ensures r.Ok? && r.value.Operator? ==> r.value.op == matchName && matchName in {"in", "like"}
    ensures r.Ok? && r.value.Aligner? ==> r.value.command == matchName && matchName in {"align", "super"}
    ensures r.Ok? && r.value.AlignmentObject? ==>
              r.value.name == matchName && isAlignmentObject && matchName !in {"none", "in", "like", "align", "super"}
  {
    if matchName == "none" then Ok(Unchanged)
    else if matchName == "in" || matchName == "like" then Ok(Operator(matchName))
    else if matchName == "align" || matchName == "super" then Ok(Aligner(matchName))
    else if isAlignmentObject then Ok(AlignmentObject(matchName))
    else Err("unkown match method")
  }

  /** `(a) op (b)`: the atoms of `a` that have a partner in `b` under `op`. */
  function OperatorSelection(a: string, op: string, b: string): string {
    "(" + a + ") " + op + " (" + b + ")"
  }

  /** The atoms of `idx` that occur in an alignment column
      (`set(idx).intersection(column)`). */
  function Hits(idx: set<AtomId>, column: seq<AtomId>): set<AtomId> {
    set a | a in column && a in idx
  }

  /** A column pairs exactly one mobile atom with exactly one target atom. */
  predicate Usable(mobileIdx: set<AtomId>, targetIdx: set<AtomId>, column: seq<AtomId>) {
    |Hits(mobileIdx, column)| == 1 && |Hits(targetIdx, column)| == 1
  }

  /** The positions of the usable columns, in alignment order. */
  function KeptColumns(mobileIdx: set<AtomId>, targetIdx: set<AtomId>, columns: seq<seq<AtomId>>): (kept: seq<nat>)
    ensures forall i :: 0 <= i < |kept| ==> kept[i] < |columns| && Usable(mobileIdx, targetIdx, columns[kept[i]])
    ensures forall i, j :: 0 <= i < j < |kept| ==> kept[i] < kept[j]
    ensures forall c :: 0 <= c < |columns| && Usable(mobileIdx, targetIdx, columns[c]) ==> c in kept
  {
    if |columns| == 0 then []
    else
      var n := |columns| - 1;
      KeptColumns(mobileIdx, targetIdx, columns[..n]) + (if Usable(mobileIdx, targetIdx, columns[n]) then [n] else [])
  }

  /** The i-th mobile and the i-th target atom are the sole mobile and the
      sole target atom of the i-th kept column. */
  ghost predicate PairedByColumn(mobileSel: seq<AtomId>, targetSel: seq<AtomId>,
                                 mobileIdx: set<AtomId>, targetIdx: set<AtomId>,
                                 columns: seq<seq<AtomId>>, kept: seq<nat>)
  {
    |mobileSel| == |targetSel| == |kept| &&
    (forall i :: 0 <= i < |kept| ==> kept[i] < |columns|) &&
    (forall i :: 0 <= i < |kept| ==>
       Hits(mobileIdx, columns[kept[i]]) == {mobileSel[i]} &&
       Hits(targetIdx, columns[kept[i]]) == {targetSel[i]})
  }

  /** The column filter of `from_alignment`: walks the alignment columns and
      keeps a (mobile, target) pair from each column that holds exactly one
      atom of each selection. The two lists grow together, so they always
      have the same length, and a column with no atom or several atoms of
      either selection contributes nothing. */
  method PairColumns(mobileIdx: set<AtomId>, targetIdx: set<AtomId>, columns: seq<seq<AtomId>>)
    returns (mobileSel: seq<AtomId>, targetSel: seq<AtomId>)
    ensures PairedByColumn(mobileSel, targetSel, mobileIdx, targetIdx, columns,
                           KeptColumns(mobileIdx, targetIdx, columns))
    ensures forall i :: 0 <= i < |mobileSel| ==> mobileSel[i] in mobileIdx && targetSel[i] in targetIdx
  {
    mobileSel, targetSel := [], [];
    for n := 0 to |columns|
      invariant PairedByColumn(mobileSel, targetSel, mobileIdx, targetIdx, columns,
                               KeptColumns(mobileIdx, targetIdx, columns[..n]))
    {
      assert columns[..n + 1][..n] == columns[..n];
      var mobiles := set a | a in columns[n] && a in mobileIdx;
      if |mobiles| == 1 {
        var targets := set a | a in columns[n] && a in targetIdx;
        if |targets| == 1 {
          var m :| m in mobiles;
          var t :| t in targets;
          SingletonIs(mobiles, m);
          SingletonIs(targets, t);
          mobileSel, targetSel := mobileSel + [m], targetSel + [t];
        }
      }
    }
    assert columns[..|columns|] == columns;
    forall i | 0 <= i < |mobileSel|
      ensures mobileSel[i] in mobileIdx && targetSel[i] in targetIdx
    {
      var c := columns[KeptColumns(mobileIdx, targetIdx, columns)[i]];
      assert mobileSel[i] in Hits(mobileIdx, c);
      assert targetSel[i] in Hits(targetIdx, c);
    }
  }

  lemma SingletonIs<T>(s: set<T>, x: T)
    requires |s| == 1 && x in s
    ensures s == {x}
  {
    var rest := s - {x};
    assert |rest| == 0;
    assert rest == {};
  }

  /** What the host reports while a MatchMaker is being set up from an alignment. */
  datatype AlignmentHost = AlignmentHost(
    alignmentName: string,      // unused name for the alignment object made by "align"/"super"
    countsAgree: bool,          // whether the two "(sel) and aln" selections have equal atom counts
    mobileIndex: set<AtomId>,   // index(mobile)
    targetIndex: set<AtomId>,   // index(target)
    columns: seq<seq<AtomId>>,  // get_raw_alignment of the alignment object
    mobileName: string,         // unused name for the temporary mobile selection
    targetName: string          // unused name for the temporary target selection
  )

  /** Two matched subselections of equal atom count, plus the temporary
      names they are made of; the names are deleted on cleanup while
      `autodelete` holds. `deleted` records, in order, every name handed to
      the host's delete. */
  class MatchMaker {
    var mobile: string
    var target: string
    var autodelete: bool
    var temporary: seq<string>
    var mobileAtoms: seq<AtomId>
    var targetAtoms: seq<AtomId>
    var deleted: seq<string>

    /** The outcome of `from_alignment` on `host`, as a predicate on the fields. */
    ghost predicate FromAlignmentResult(mobileSel: string, targetSel: string, alnObj: string,
                                        host: AlignmentHost, temporaryBefore: seq<string>)
      reads this
    {
      if host.countsAgree then
        mobile == "(" + mobileSel + ") and " + alnObj &&
        target == "(" + targetSel + ") and " + alnObj &&
        temporary == temporaryBefore
      else
        mobile == host.mobileName && target == host.targetName &&
        temporary == temporaryBefore + [host.mobileName, host.targetName] &&
        PairedByColumn(mobileAtoms, targetAtoms, host.mobileIndex, host.targetIndex, host.columns,
                       KeptColumns(host.mobileIndex, host.targetIndex, host.columns))
    }

    constructor (mobileSel: string, targetSel: string, strategy: Strategy, autodelete: bool, host: AlignmentHost)
      ensures this.autodelete == autodelete && deleted == []
      ensures strategy == Unchanged ==> mobile == mobileSel && target == targetSel && temporary == []
      ensures strategy.Operator? ==>
                mobile == OperatorSelection(mobileSel, strategy.op, targetSel) &&
                target == OperatorSelection(targetSel, strategy.op, mobileSel) &&
                temporary == []
      ensures strategy.Aligner? ==> FromAlignmentResult(mobileSel, targetSel, host.alignmentName, host, [host.alignmentName])
      ensures strategy.AlignmentObject? ==> FromAlignmentResult(mobileSel, targetSel, strategy.name, host, [])
    {
      this.autodelete := autodelete;
      temporary := [];
      deleted := [];
      mobile, target := mobileSel, targetSel;
      mobileAtoms, targetAtoms := [], [];
      new;
      match strategy
      case Unchanged =>
      case Operator(op) =>
        mobile := OperatorSelection(mobileSel, op, targetSel);
        target := OperatorSelection(targetSel, op, mobileSel);
      case Aligner(_) =>
        Align(mobileSel, targetSel, host);
      case AlignmentObject(name) =>
        FromAlignment(mobileSel, targetSel, name, host);
    }

    /** Runs the aligner into a new alignment object, which becomes temporary,
        and matches from it. */
    method Align(mobileSel: string, targetSel: string, host: AlignmentHost)
      modifies this`temporary, this`mobile, this`target, this`mobileAtoms, this`targetAtoms
      ensures FromAlignmentResult(mobileSel, targetSel, host.alignmentName, host, old(temporary) + [host.alignmentName])
    {
      temporary := temporary + [host.alignmentName];
      FromAlignment(mobileSel, targetSel, host.alignmentName, host);
    }

    /** Matches through alignment object `alnObj`: if restricting both
        selections to the alignment already gives equal counts those
        restrictions are used; otherwise the usable columns are paired into
        two new temporary selections. */
    method FromAlignment(mobileSel: string, targetSel: string, alnObj: string, host: AlignmentHost)
      modifies this`temporary, this`mobile, this`target, this`mobileAtoms, this`targetAtoms
      ensures FromAlignmentResult(mobileSel, targetSel, alnObj, host, old(temporary))
    {
      mobile := "(" + mobileSel + ") and " + alnObj;
      target := "(" + targetSel + ") and " + alnObj;
      if host.countsAgree {
        return;
      }
      mobileAtoms, targetAtoms := PairColumns(host.mobileIndex, host.targetIndex, host.columns);
      mobile, target := host.mobileName, host.targetName;
      temporary := temporary + [mobile];
      temporary := temporary + [target];
    }

    /** `_cleanup` (also what `__del__` does): deletes every temporary name,
        in order, unless `autodelete` has been switched off. */
    method Cleanup()
      modifies this`deleted
      ensures deleted == old(deleted) + (if autodelete then temporary else [])
    {
      if !autodelete {
        return;
      }
      for i := 0 to |temporary|
        invariant deleted == old(deleted) + temporary[..i]
      {
        deleted := deleted + [temporary[i]];
      }
    }

    /** `__exit__`: clean up once, then switch `autodelete` off so that a
        later cleanup deletes nothing. */
    method Exit()
      modifies this`deleted, this`autodelete
      ensures deleted == old(deleted) + (if old(autodelete) then temporary else [])
      ensures !autodelete
    {
      Cleanup();
      autodelete := false;
    }
  }

  /** `MatchMaker(mobile, target, match)`: an unknown match method raises,
      every other one builds the matcher. */
  method Open(mobileSel: string, targetSel: string, matchName: string, isAlignmentObject: bool,
              autodelete: bool, host: AlignmentHost)
    returns (r: Result<MatchMaker>)
    ensures r.Err? <==> Resolve(matchName, isAlignmentObject).Err?
    ensures r.Ok? ==> fresh(r.value) && r.value.autodelete == autodelete && r.value.deleted == []
    ensures r.Ok? && matchName == "none" ==> r.value.mobile == mobileSel && r.value.target == targetSel
  {
    var strategy := Resolve(matchName, isAlignmentObject);
    if strategy.Err? {
      return Err(strategy.msg);
    }
    var mm := new MatchMaker(mobileSel, targetSel, strategy.value, autodelete, host);
    return Ok(mm);
  }

  /** Exiting and then being collected deletes the temporary names exactly once. */
  method ExitThenCollect(mm: MatchMaker)
    modifies mm
    ensures mm.deleted == old(mm.deleted) + (if old(mm.autodelete) then mm.temporary else [])
    ensures mm.temporary == old(mm.temporary) && !mm.autodelete
  {
    mm.Exit();
    mm.Cleanup();
  }
}

/** `diff` and `symdiff`: the selection expression that picks the atoms of
    one selection without a counterpart in the other, and the union of the
    two one-sided differences. What an atomic selection text selects is
    the host's business and a parameter (`sel`); so is the identifier an
    operator such as `in` or `like` compares atoms by (`key`), and, for
    `align`, the atoms the alignment object holds. */
module Diff {
  /** The part of the selection language the two commands produce. */
  datatype Expr =
    | Text(s: string)
    | Paren(e: Expr)
    | AndNot(a: Expr, b: Expr)
    | Match(a: Expr, op: string, b: Expr)

  function Render(e: Expr): string {
    match e
    case Text(s) => s
    case Paren(inner) => "(" + Render(inner) + ")"
    case AndNot(a, b) => Render(a) + " and not " + Render(b)
    case Match(a, op, b) => Render(a) + " " + op + " " + Render(b)
  }

  /** Atoms of `sel1` with a counterpart in `sel2` under operator `op`. */
  ghost predicate Matched<K>(x: int, others: set<int>, op: string, key: (string, int) -> K) {
    exists y :: y in others && key(op, y) == key(op, x)
  }

  ghost function Eval<K>(e: Expr, sel: string -> set<int>, key: (string, int) -> K): set<int> {
    match e
    case Text(s) => sel(s)
    case Paren(inner) => Eval(inner, sel, key)
    case AndNot(a, b) => Eval(a, sel, key) - Eval(b, sel, key)
    case Match(a, op, b) =>
      var others := Eval(b, sel, key);
      set x | x in Eval(a, sel, key) && Matched(x, others, op, key)
  }

  /** The selection string `diff` hands to the host. */
  function DiffText(sele1: string, sele2: string, operator: string, alnobj: string): string {
    if operator == "align" then "(" + sele1 + ") and not " + alnobj
    else "(" + sele1 + ") and not ((" + sele1 + ") " + operator + " (" + sele2 + "))"
  }

  /** The same selection as an expression. */
  function DiffExpr(sele1: string, sele2: string, operator: string, alnobj: string): Expr {
    if operator == "align" then AndNot(Paren(Text(sele1)), Text(alnobj))
    else AndNot(Paren(Text(sele1)), Paren(Match(Paren(Text(sele1)), operator, Paren(Text(sele2)))))
  }

  /** The string is the rendering of the expression, so the host reads it
      with the structure `DiffExpr` gives it. */
  lemma DiffTextParses(sele1: string, sele2: string, operator: string, alnobj: string)
    ensures DiffText(sele1, sele2, operator, alnobj) == Render(DiffExpr(sele1, sele2, operator, alnobj))
  {
    if operator == "align" {
      AlignTextParses(sele1, alnobj);
    } else {
      MatchTextParses(sele1, sele2, operator);
    }
  }

  lemma AlignTextParses(sele1: string, alnobj: string)
    ensures "(" + sele1 + ") and not " + alnobj == Render(AndNot(Paren(Text(sele1)), Text(alnobj)))
  {
    var text := "(" + sele1 + ") and not " + alnobj;
    var whole := ("(" + sele1 + ")") + " and not " + alnobj;
    assert Render(Paren(Text(sele1))) == "(" + sele1 + ")";
    assert Render(AndNot(Paren(Text(sele1)), Text(alnobj))) == whole;
    assert |whole| == |text|;
    forall i | 0 <= i < |whole|
      ensures whole[i] == text[i]
    {
    }
  }

  lemma MatchTextParses(sele1: string, sele2: string, operator: string)
    ensures "(" + sele1 + ") and not ((" + sele1 + ") " + operator + " (" + sele2 + "))" ==
      Render(AndNot(Paren(Text(sele1)), Paren(Match(Paren(Text(sele1)), operator, Paren(Text(sele2))))))
  {
    var p1 := "(" + sele1 + ")";
    var p2 := "(" + sele2 + ")";
    var m := p1 + " " + operator + " " + p2;
    var tail := "((" + sele1 + ") " + operator + " (" + sele2 + "))";
    assert Render(Paren(Text(sele1))) == p1 && Render(Paren(Text(sele2))) == p2;
    assert Render(Match(Paren(Text(sele1)), operator, Paren(Text(sele2)))) == m;
    assert Render(Paren(Match(Paren(Text(sele1)), operator, Paren(Text(sele2))))) == "(" + m + ")";
    MatchInParens(sele1, sele2, operator);
    AndNotPrefix(sele1, tail);
    MatchTextSplit(sele1, sele2, operator);
  }

  lemma MatchInParens(sele1: string, sele2: string, operator: string)
    ensures "(" + (("(" + sele1 + ")") + " " + operator + " " + ("(" + sele2 + ")")) + ")" ==
      "((" + sele1 + ") " + operator + " (" + sele2 + "))"
  {
    var whole := "(" + (("(" + sele1 + ")") + " " + operator + " " + ("(" + sele2 + ")")) + ")";
    var text := "((" + sele1 + ") " + operator + " (" + sele2 + "))";
    assert |whole| == |text|;
    forall i | 0 <= i < |whole|
      ensures whole[i] == text[i]
    {
    }
  }

  lemma AndNotPrefix(sele1: string, tail: string)
    ensures ("(" + sele1 + ")") + " and not " + tail == "(" + sele1 + ") and not " + tail
  {
    var whole := ("(" + sele1 + ")") + " and not ";
    var text := "(" + sele1 + ") and not ";
    assert |whole| == |text|;
    forall i | 0 <= i < |whole|
      ensures whole[i] == text[i]
    {
    }
  }

  lemma MatchTextSplit(sele1: string, sele2: string, operator: string)
    ensures "(" + sele1 + ") and not ((" + sele1 + ") " + operator + " (" + sele2 + "))" ==
      "(" + sele1 + ") and not " + "((" + sele1 + ") " + operator + " (" + sele2 + "))"
  {
    var whole := "(" + sele1 + ") and not ((" + sele1 + ") " + operator + " (" + sele2 + "))";
    var text := "(" + sele1 + ") and not " + "((" + sele1 + ") " + operator + " (" + sele2 + "))";
    assert |whole| == |text|;
    forall i | 0 <= i < |whole|
      ensures whole[i] == text[i]
    {
    }
  }

  /** `diff`: an atom is picked exactly when it is in the first selection
      and has no counterpart in the second (with `align`: is not part of the
      alignment object). */
  lemma DiffMeaning<K>(sele1: string, sele2: string, operator: string, alnobj: string,
                           sel: string -> set<int>, key: (string, int) -> K, x: int)
    ensures operator == "align" ==>
      (x in Eval(DiffExpr(sele1, sele2, operator, alnobj), sel, key) <==> x in sel(sele1) && x !in sel(alnobj))
    ensures operator != "align" ==>
      (x in Eval(DiffExpr(sele1, sele2, operator, alnobj), sel, key) <==>
       x in sel(sele1) && !Matched(x, sel(sele2), operator, key))
  {
    var first := Paren(Text(sele1));
    assert Eval(first, sel, key) == sel(sele1);
    if operator != "align" {
      var inner := Match(first, operator, Paren(Text(sele2)));
      assert Eval(Paren(Text(sele2)), sel, key) == sel(sele2);
      assert x in Eval(Paren(inner), sel, key) <==> x in sel(sele1) && Matched(x, sel(sele2), operator, key);
    }
  }

  /** The atoms `diff` selects. */
  ghost function DiffAtoms<K>(sele1: string, sele2: string, operator: string, alnobj: string,
                                 sel: string -> set<int>, key: (string, int) -> K): set<int> {
    Eval(DiffExpr(sele1, sele2, operator, alnobj), sel, key)
  }

  /** `symdiff`: both one-sided differences merged into one selection; each
      uses its own alignment object. */
  ghost function SymdiffAtoms<K>(sele1: string, sele2: string, operator: string, aln12: string, aln21: string,
                                    sel: string -> set<int>, key: (string, int) -> K): set<int> {
    DiffAtoms(sele1, sele2, operator, aln12, sel, key) + DiffAtoms(sele2, sele1, operator, aln21, sel, key)
  }

  /** Whatever the operator, `diff` only picks atoms of its first selection. */
  lemma DiffWithinFirst<K>(sele1: string, sele2: string, operator: string, alnobj: string,
                               sel: string -> set<int>, key: (string, int) -> K)
    ensures DiffAtoms(sele1, sele2, operator, alnobj, sel, key) <= sel(sele1)
  {
    forall x | x in DiffAtoms(sele1, sele2, operator, alnobj, sel, key)
      ensures x in sel(sele1)
    {
      DiffMeaning(sele1, sele2, operator, alnobj, sel, key, x);
    }
  }

  /** A selection compared with itself by `in` or `like` has no difference. */
  lemma DiffSelfEmpty<K>(sele: string, operator: string, alnobj: string,
                             sel: string -> set<int>, key: (string, int) -> K)
    requires operator != "align"
    ensures DiffAtoms(sele, sele, operator, alnobj, sel, key) == {}
  {
    forall x
      ensures x !in DiffAtoms(sele, sele, operator, alnobj, sel, key)
    {
      DiffMeaning(sele, sele, operator, alnobj, sel, key, x);
      assert x in sel(sele) ==> Matched(x, sel(sele), operator, key);
    }
  }

  /** With `in` or `like` the symmetric difference does not depend on the
      order of the two selections, and it consists of the atoms of either
      selection without a counterpart in the other. */
  lemma SymdiffMeaning<K>(sele1: string, sele2: string, operator: string, aln12: string, aln21: string,
                              sel: string -> set<int>, key: (string, int) -> K, x: int)
    requires operator != "align"
    ensures SymdiffAtoms(sele1, sele2, operator, aln12, aln21, sel, key) ==
            SymdiffAtoms(sele2, sele1, operator, aln21, aln12, sel, key)
    ensures x in SymdiffAtoms(sele1, sele2, operator, aln12, aln21, sel, key) <==>
            (x in sel(sele1) && !Matched(x, sel(sele2), operator, key)) ||
            (x in sel(sele2) && !Matched(x, sel(sele1), operator, key))
  {
    DiffMeaning(sele1, sele2, operator, aln12, sel, key, x);
    DiffMeaning(sele2, sele1, operator, aln21, sel, key, x);
  }
}

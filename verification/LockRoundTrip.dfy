/**
 Printing a compiled lock and parsing the text again gives the same tree, except that
 chains of & and of | come back grouped to the right.
 */
module LockRoundTrip {
  import opened Basics
  import opened LockLanguage
  import opened LockTree
  import opened LockAssembler
  import opened LockScanner
  import opened LockText
  import opened LockPatch
  import opened LockDecompiler

  // ----- regrouping -----

  /** `a & b`, with the chain in `a` hung to the right. */
  function JoinAnd(a: Expr, b: Expr): Expr {
    if a.And? then And(a.left, JoinAnd(a.right, b)) else And(a, b)
  }

  function JoinOr(a: Expr, b: Expr): Expr {
    if a.Or? then Or(a.left, JoinOr(a.right, b)) else Or(a, b)
  }

  /** The tree with every chain of one operator grouped to the right. */
  function Regrouped(e: Expr): (r: Expr)
    ensures r.And? == e.And? && r.Or? == e.Or? && (r.Not? == e.Not?)
  {
    match e
    case And(a, b) => JoinAnd(Regrouped(a), Regrouped(b))
    case Or(a, b) => JoinOr(Regrouped(a), Regrouped(b))
    case Not(n) => Not(Regrouped(n))
    case _ => e
  }

  lemma {:induction false} JoinAndAssoc(x: Expr, y: Expr, z: Expr)
    ensures JoinAnd(JoinAnd(x, y), z) == JoinAnd(x, JoinAnd(y, z))
  {
    if x.And? { JoinAndAssoc(x.right, y, z); }
  }

  lemma {:induction false} JoinOrAssoc(x: Expr, y: Expr, z: Expr)
    ensures JoinOr(JoinOr(x, y), z) == JoinOr(x, JoinOr(y, z))
  {
    if x.Or? { JoinOrAssoc(x.right, y, z); }
  }

  lemma {:induction false} JoinAndEval(w: World, a: Expr, b: Expr, m: Regs)
    ensures EvalTree(w, JoinAnd(a, b), m) == EvalTree(w, And(a, b), m)
  {
    if a.And? { JoinAndEval(w, a.right, b, EvalTree(w, a.left, m)); }
  }

  lemma {:induction false} JoinOrEval(w: World, a: Expr, b: Expr, m: Regs)
    ensures EvalTree(w, JoinOr(a, b), m) == EvalTree(w, Or(a, b), m)
  {
    if a.Or? { JoinOrEval(w, a.right, b, EvalTree(w, a.left, m)); }
  }

  /** Regrouping keeps the value, the tests and their order. */
  lemma {:induction false} RegroupedEval(w: World, e: Expr, m: Regs)
    ensures EvalTree(w, Regrouped(e), m) == EvalTree(w, e, m)
  {
    match e
    case And(a, b) =>
      JoinAndEval(w, Regrouped(a), Regrouped(b), m);
      RegroupedEval(w, a, m);
      RegroupedEval(w, b, EvalTree(w, a, m));
    case Or(a, b) =>
      JoinOrEval(w, Regrouped(a), Regrouped(b), m);
      RegroupedEval(w, a, m);
      RegroupedEval(w, b, EvalTree(w, a, m));
    case Not(n) => RegroupedEval(w, n, m);
    case _ =>
  }

  // ----- reading back what was printed -----

  /** The printed form stands for a factor: an atom, a negation, or something in parentheses. */
  predicate IsFactor(e: Expr, outer: Outer) {
    Parens(e, outer) || (!e.And? && !e.Or?)
  }

  lemma {:induction false} ParsePrintedF(e: Expr, outer: Outer, rest: seq<Tok>)
    requires IsFactor(e, outer)
    ensures ParseF(Printed(e, outer) + rest) == Some((Regrouped(e), rest))
    decreases e, 2
  {
    var ts := Printed(e, outer) + rest;
    match e
    case Not(n) =>
      ParsePrintedF(n, InNot, rest);
      assert ts[1..] == Printed(n, InNot) + rest;
    case And(_, _) => ParsePrintedParens(e, outer, rest);
    case Or(_, _) => ParsePrintedParens(e, outer, rest);
    case _ => ParsePrintedAtom(e, outer, rest);
  }

  lemma ParsePrintedAtom(e: Expr, outer: Outer, rest: seq<Tok>)
    requires !e.And? && !e.Or? && !e.Not?
    ensures ParseF(Printed(e, outer) + rest) == Some((Regrouped(e), rest))
  {
    match e
    case Ref(Const, d) => ParseOne(NameTok(d), rest);
    case Ref(k, d) => ParseMark(Printed(e, outer)[0], k, d, rest);
    case Ind(d, lock) => ParseSlash(d, lock, rest);
    case Pair(k, name, text) => ParseOne(PairTok(k, name, text), rest);
    case Flag(k, text) => ParseOne(FlagTok(k, text), rest);
    case Bool(v) => ParseOne(TruthTok(v), rest);
  }

  lemma ParseOne(t: Tok, rest: seq<Tok>)
    requires t.NameTok? || t.TruthTok? || t.PairTok? || t.FlagTok?
    ensures ParseF([t] + rest) ==
            Some((match t
                  case NameTok(d) => Ref(Const, d)
                  case TruthTok(v) => Bool(v)
                  case PairTok(k, name, text) => Pair(k, name, text)
                  case FlagTok(k, text) => Flag(k, text), rest))
  {
    var ts := [t] + rest;
    assert ts[0] == t && ts[1..] == rest;
    assert ParseF(ts) == ParseA(ts) == ParseL(ts);
  }

  lemma ParseMark(mark: Tok, k: RefKind, d: Dbref, rest: seq<Tok>)
    requires mark == (if k == Is then EqTok else if k == Carry then PlusTok else DollarTok) && k != Const
    ensures ParseF([mark, NameTok(d)] + rest) == Some((Ref(k, d), rest))
  {
    var ts := [mark, NameTok(d)] + rest;
    assert ts[0] == mark && ts[1..] == [NameTok(d)] + rest && ts[1..][1..] == rest;
    assert ParseR(ts[1..]) == Some((Ref(Const, d), rest));
    assert ParseF(ts) == ParseA(ts) == ParseMarked(ts[1..], k);
  }

  lemma ParseSlash(d: Dbref, lock: Text, rest: seq<Tok>)
    ensures ParseF([AtTok, NameTok(d), SlashTok(lock)] + rest) == Some((Ind(d, lock), rest))
  {
    var ts := [AtTok, NameTok(d), SlashTok(lock)] + rest;
    assert ts[0] == AtTok && ts[1..] == [NameTok(d), SlashTok(lock)] + rest;
    assert ts[1..][1..] == [SlashTok(lock)] + rest && ts[1..][1..][1..] == rest;
    assert ParseR(ts[1..]) == Some((Ref(Const, d), ts[1..][1..]));
    assert ParseF(ts) == ParseA(ts) == ParseIndirect(ts[1..]);
  }

  lemma {:induction false} ParsePrintedParens(e: Expr, outer: Outer, rest: seq<Tok>)
    requires (e.And? || e.Or?) && Parens(e, outer)
    ensures ParseF(Printed(e, outer) + rest) == Some((Regrouped(e), rest))
    decreases e, 1
  {
    hide Printed, ParseE, Regrouped;
    var body := Printed(e.left, Inner(e)) + [OperatorTok(e)] + Printed(e.right, Inner(e));
    var ts := Printed(e, outer) + rest;
    PrintedInParens(e, outer);
    ParseBinary(e, [CloseTok] + rest);
    assert ts[0] == OpenTok && ts[1..] == body + ([CloseTok] + rest);
    var close := [CloseTok] + rest;
    assert close[0] == CloseTok && close[1..] == rest;
    assert ParseE(ts[1..]) == Some((Regrouped(e), close));
    assert ParseL(ts) == Some((Regrouped(e), rest));
  }

  /** Does the rest go on with & or |? */
  predicate GoesOn(rest: seq<Tok>) { Starts(rest, AndTok) || Starts(rest, OrTok) }

  /** A term: anything that is not a bare OR. */
  lemma {:induction false} ParsePrintedT(e: Expr, outer: Outer, rest: seq<Tok>)
    requires outer != InNot && (e.Or? ==> Parens(e, outer)) && !Starts(rest, AndTok)
    ensures ParseT(Printed(e, outer) + rest) == Some((Regrouped(e), rest))
    decreases e, 3
  {
    hide Printed, ParseF;
    if e.And? {
      PrintedBinary(e, outer);
      var tail := Printed(e.right, InAnd) + rest;
      ParsePrintedT(e.right, InAnd, rest);
      ParseAndChain(e.left, tail, Regrouped(e.right), rest);
      assert Printed(e, outer) + rest == Printed(e.left, InAnd) + ([AndTok] + tail);
    } else {
      ParsePrintedF(e, outer, rest);
    }
  }

  /** A chain of factors in front of a term that is already read. */
  lemma {:induction false} ParseAndChain(e: Expr, tail: seq<Tok>, t: Expr, rest: seq<Tok>)
    requires ParseT(tail) == Some((t, rest))
    ensures ParseT(Printed(e, InAnd) + ([AndTok] + tail)) == Some((JoinAnd(Regrouped(e), t), rest))
    decreases e, 3
  {
    hide Printed, ParseF;
    var ts := [AndTok] + tail;
    assert ts[1..] == tail;
    if e.And? {
      PrintedBinary(e, InAnd);
      ParseAndChain(e.right, tail, t, rest);
      ParseAndChain(e.left, Printed(e.right, InAnd) + ts, JoinAnd(Regrouped(e.right), t), rest);
      JoinAndAssoc(Regrouped(e.left), Regrouped(e.right), t);
      assert Printed(e, InAnd) + ts == Printed(e.left, InAnd) + ([AndTok] + (Printed(e.right, InAnd) + ts));
    } else {
      ParsePrintedF(e, InAnd, ts);
    }
  }

  /** An expression. */
  lemma {:induction false} ParsePrintedE(e: Expr, outer: Outer, rest: seq<Tok>)
    requires (outer == Top || outer == InOr) && !GoesOn(rest)
    ensures ParseE(Printed(e, outer) + rest) == Some((Regrouped(e), rest))
    decreases e, 4
  {
    hide Printed, ParseT;
    if e.Or? {
      PrintedBinary(e, outer);
      var tail := Printed(e.right, InOr) + rest;
      ParsePrintedE(e.right, InOr, rest);
      ParseOrChain(e.left, tail, Regrouped(e.right), rest);
      assert Printed(e, outer) + rest == Printed(e.left, InOr) + ([OrTok] + tail);
    } else {
      ParsePrintedT(e, outer, rest);
    }
  }

  lemma {:induction false} ParseOrChain(e: Expr, tail: seq<Tok>, t: Expr, rest: seq<Tok>)
    requires ParseE(tail) == Some((t, rest))
    ensures ParseE(Printed(e, InOr) + ([OrTok] + tail)) == Some((JoinOr(Regrouped(e), t), rest))
    decreases e, 4
  {
    hide Printed, ParseT;
    var ts := [OrTok] + tail;
    assert ts[1..] == tail;
    if e.Or? {
      PrintedBinary(e, InOr);
      ParseOrChain(e.right, tail, t, rest);
      ParseOrChain(e.left, Printed(e.right, InOr) + ts, JoinOr(Regrouped(e.right), t), rest);
      JoinOrAssoc(Regrouped(e.left), Regrouped(e.right), t);
      assert Printed(e, InOr) + ts == Printed(e.left, InOr) + ([OrTok] + (Printed(e.right, InOr) + ts));
    } else {
      ParsePrintedT(e, InOr, ts);
    }
  }

  /** The operands of AND or OR with the operator between them, as they stand inside parentheses. */
  lemma {:induction false} ParseBinary(e: Expr, rest: seq<Tok>)
    requires (e.And? || e.Or?) && !GoesOn(rest)
    ensures ParseE(Printed(e.left, Inner(e)) + [OperatorTok(e)] + Printed(e.right, Inner(e)) + rest)
            == Some((Regrouped(e), rest))
    decreases e, 0
  {
    hide Printed, ParseT;
    var ts := Printed(e.left, Inner(e)) + [OperatorTok(e)] + Printed(e.right, Inner(e)) + rest;
    var tail := Printed(e.right, Inner(e)) + rest;
    assert ts == Printed(e.left, Inner(e)) + ([OperatorTok(e)] + tail);
    if e.Or? {
      ParsePrintedE(e.right, InOr, rest);
      ParseOrChain(e.left, tail, Regrouped(e.right), rest);
    } else {
      ParsePrintedT(e.right, InAnd, rest);
      ParseAndChain(e.left, tail, Regrouped(e.right), rest);
      ParseTermAsE(ts, Regrouped(e), rest);
    }
  }

  lemma ParseTermAsE(ts: seq<Tok>, e: Expr, rest: seq<Tok>)
    requires ParseT(ts) == Some((e, rest)) && !Starts(rest, OrTok)
    ensures ParseE(ts) == Some((e, rest))
  {
  }

  /** Tokens printed from compiled code, patched since or not, parse to the tree without the objects that are gone,
      regrouped. */
  lemma DecompileReparse(gone: Dbref -> bool, p: seq<Ins>, e: Expr)
    requires Normal(e) && CompiledShape(p, e)
    ensures ParseE(Unparsed(Patched(gone, p), 0, None)) == Some((Regrouped(WithoutGone(gone, e)), []))
  {
    hide Printed, Unparsed, ParseE, Patched, WithoutGone, Regrouped;
    var e' := WithoutGone(gone, e);
    UnparsedTree(gone, p, e);
    ParsePrintedE(e', Top, []);
    assert Printed(e', Top) + [] == Printed(e', Top);
  }
}

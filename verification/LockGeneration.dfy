/**
 The generator is correct: running the linked assembly of a tree is evaluating the tree.
 */
module LockGeneration {
  import opened Basics
  import opened LockLanguage
  import opened LockAssembler

  /** `code` and `strs` are what the assembly `st` has grown into. */
  predicate GrowsTo(st: Asm, code: seq<Insn>, strs: seq<Text>) {
    st.insns <= code && st.strs <= strs
  }

  lemma RunAppend(w: World, st: Asm, op: Op, arg: int, code: seq<Insn>, strs: seq<Text>, m: Regs)
    requires GrowsTo(Append(st, op, arg), code, strs) && op != Label && !IsJmp(op) && op != Ret
    ensures var p := LinkPart(code, code, strs);
            Run(w, p, Real(st.insns), m) ==
            Run(w, p, Real(Append(st, op, arg).insns), Effect(w, Resolve(Insn(op, arg), code, strs), m))
  {
    hide Real, LinkPart;
    var i := |st.insns|;
    assert code[i] == Append(st, op, arg).insns[i];
    assert code[..i] == st.insns && code[..i + 1] == Append(st, op, arg).insns;
    LinkAt(code, strs, i);
    SplitAt(code, i);
  }

  lemma RunAppendString(w: World, st: Asm, op: Op, s: Text, code: seq<Insn>, strs: seq<Text>, m: Regs)
    requires GrowsTo(AppendString(st, op, s), code, strs) && TakesString(op)
    ensures var p := LinkPart(code, code, strs);
            var i := if op == LoadS then ILoadS(s) else if op.TPair? then IPair(op.pair, s) else IFlag(op.flag, s);
            Run(w, p, Real(st.insns), m) == Run(w, p, Real(AppendString(st, op, s).insns), Effect(w, i, m))
  {
    hide Real, LinkPart, Run;
    var i := IndexOf(st.strs, s);
    var st' := AppendString(st, op, s);
    assert st'.strs[i] == s && strs[i] == st'.strs[i];
    RunAppend(w, st.(strs := st'.strs), op, i, code, strs, m);
  }

  lemma RunAppendIf(w: World, c: bool, st: Asm, arg: int, code: seq<Insn>, strs: seq<Text>, m: Regs)
    requires GrowsTo(AppendIf(c, st, Paren, arg), code, strs)
    ensures var p := LinkPart(code, code, strs);
            Run(w, p, Real(st.insns), m) == Run(w, p, Real(AppendIf(c, st, Paren, arg).insns), m)
  {
    if c { RunAppend(w, st, Paren, arg, code, strs, m); }
  }

  lemma RunJump(w: World, st: Asm, jump: Op, l: int, code: seq<Insn>, strs: seq<Text>, m: Regs)
    requires GrowsTo(Append(st, jump, l), code, strs) && IsJmp(jump)
    requires Real(st.insns) < PosOfLabel(code, l)
    ensures var p := LinkPart(code, code, strs);
            Run(w, p, Real(st.insns), m) ==
            Run(w, p, if m.r == (jump == JmpT) then PosOfLabel(code, l) else Real(Append(st, jump, l).insns), m)
  {
    hide Real, LinkPart;
    var i := |st.insns|;
    assert code[i] == Append(st, jump, l).insns[i];
    assert code[..i] == st.insns && code[..i + 1] == Append(st, jump, l).insns;
    LinkAt(code, strs, i);
    SplitAt(code, i);
  }

  /** A label placed for the first time is where the code before it ends. */
  lemma PlacedLabel(st: Asm, l: int, code: seq<Insn>)
    requires Append(st, Label, l).insns <= code && !HasLabel(st.insns, l)
    ensures PosOfLabel(code, l) == Real(st.insns) == Real(Append(st, Label, l).insns)
  {
    var i := |st.insns|;
    assert code[i] == Append(st, Label, l).insns[i];
    assert code[..i] == st.insns && code[..i + 1] == Append(st, Label, l).insns;
    SplitAt(code, i);
    assert code == code[..i] + code[i..] && code[i..][0] == Insn(Label, l);
    PosAppend(code[..i], code[i..], l);
  }

  lemma RealGrows(a: seq<Insn>, b: seq<Insn>)
    requires a <= b
    ensures Real(a) <= Real(b)
  {
  }

  /** The states the generator goes through for AND and OR. */
  datatype Stages = Stages(s1: Asm, a1: Asm, s2: Asm, b2: Asm, s3: Asm, end: Asm)

  function StagesOf(e: Expr, parens: bool, inner: Outer, jump: Op, st: Asm): (g: Stages)
    requires e.And? || e.Or?
    ensures g.end == GenBinary(e, parens, inner, jump, st)
  {
    var s1 := AppendIf(parens, st.(next := st.next + 1), Paren, 0);
    var a1 := Gen(e.left, inner, s1);
    var s2 := Append(a1, jump, st.next);
    var b2 := Gen(e.right, inner, s2);
    var s3 := AppendIf(parens, b2, Paren, 1);
    Stages(s1, a1, s2, b2, s3, Append(s3, Label, st.next))
  }

  lemma StagesFacts(e: Expr, parens: bool, inner: Outer, jump: Op, st: Asm, code: seq<Insn>, strs: seq<Text>)
    requires (e.And? || e.Or?) && Tidy(st) && IsJmp(jump)
    requires GrowsTo(GenBinary(e, parens, inner, jump, st), code, strs)
    ensures var g := StagesOf(e, parens, inner, jump, st);
            Tidy(g.s1) && Tidy(g.s2) &&
            GrowsTo(g.s1, code, strs) && GrowsTo(g.a1, code, strs) && GrowsTo(g.s2, code, strs) &&
            GrowsTo(g.b2, code, strs) && GrowsTo(g.s3, code, strs) &&
            PosOfLabel(code, st.next) == Real(g.s3.insns) == Real(g.end.insns) &&
            Real(g.a1.insns) < Real(g.s2.insns) <= Real(g.b2.insns) <= Real(g.end.insns)
  {
    hide Gen, Real, PosOfLabel, IndexOf;
    var g := StagesOf(e, parens, inner, jump, st);
    GenTidy(e.left, inner, g.s1);
    TidyAppend(g.a1, jump, st.next);
    GenExtends(e.left, inner, g.s1);
    GenExtends(e.right, inner, g.s2);
    GenFresh(e.left, inner, g.s1, st.next);
    GenFresh(e.right, inner, g.s2, st.next);
    HasLabelAppend(g.a1, jump, st.next, st.next);
    assert !HasLabel(g.s3.insns, st.next);
    PlacedLabel(g.s3, st.next, code);
    RealOne(Insn(jump, st.next));
    RealAppend(g.a1.insns, [Insn(jump, st.next)]);
    RealGrows(g.s2.insns, g.b2.insns);
    RealGrows(g.b2.insns, g.s3.insns);
  }

  lemma GenRunsAtom(w: World, e: Expr, outer: Outer, st: Asm, code: seq<Insn>, strs: seq<Text>, m: Regs)
    requires e.Bool? || e.Ref? || e.Flag?
    requires GrowsTo(Gen(e, outer, st), code, strs)
    ensures var p := LinkPart(code, code, strs);
            Run(w, p, Real(st.insns), m) == Run(w, p, Real(Gen(e, outer, st).insns), EvalTree(w, e, m))
  {
    hide Run, LinkPart, Real, IndexOf;
    match e
    case Bool(v) => RunAppend(w, st, LoadR, if v then 1 else 0, code, strs, m);
    case Ref(k, thing) => RunAppend(w, st, TRef(k), thing, code, strs, m);
    case Flag(k, text) => RunAppendString(w, st, TFlag(k), text, code, strs, m);
  }

  lemma GenRunsTwoWords(w: World, e: Expr, outer: Outer, st: Asm, code: seq<Insn>, strs: seq<Text>, m: Regs)
    requires e.Ind? || e.Pair?
    requires GrowsTo(Gen(e, outer, st), code, strs)
    ensures var p := LinkPart(code, code, strs);
            Run(w, p, Real(st.insns), m) == Run(w, p, Real(Gen(e, outer, st).insns), EvalTree(w, e, m))
  {
    hide Run, LinkPart, Real, IndexOf;
    var word := if e.Ind? then e.lock else e.name;
    var s1 := AppendString(st, LoadS, word);
    var m1 := m.(s := Some(word));
    if e.Ind? {
      RunAppend(w, s1, TInd, e.thing, code, strs, m1);
    } else {
      RunAppendString(w, s1, TPair(e.pair), e.text, code, strs, m1);
    }
    assert GrowsTo(s1, code, strs);
    RunAppendString(w, st, LoadS, word, code, strs, m);
  }

  /** Running the code of a tree inside any program it has grown into is evaluating the tree. */
  lemma {:induction false} GenRuns(w: World, e: Expr, outer: Outer, st: Asm, code: seq<Insn>, strs: seq<Text>, m: Regs)
    requires Tidy(st) && GrowsTo(Gen(e, outer, st), code, strs)
    ensures var p := LinkPart(code, code, strs);
            Run(w, p, Real(st.insns), m) == Run(w, p, Real(Gen(e, outer, st).insns), EvalTree(w, e, m))
    decreases e, 1
  {
    hide Run, LinkPart, Real, IndexOf;
    match e
    case And(_, _) => GenRunsBinary(w, e, outer == InNot, InAnd, JmpF, st, code, strs, m);
    case Or(_, _) => GenRunsBinary(w, e, outer == InNot || outer == InAnd, InOr, JmpT, st, code, strs, m);
    case Not(n) =>
      GenRuns(w, n, InNot, st, code, strs, m);
      RunAppend(w, Gen(n, InNot, st), NegR, 0, code, strs, EvalTree(w, n, m));
    case Ind(_, _) => GenRunsTwoWords(w, e, outer, st, code, strs, m);
    case Pair(_, _, _) => GenRunsTwoWords(w, e, outer, st, code, strs, m);
    case _ => GenRunsAtom(w, e, outer, st, code, strs, m);
  }

  lemma {:induction false} GenRunsBinary(w: World, e: Expr, parens: bool, inner: Outer, jump: Op, st: Asm,
                                         code: seq<Insn>, strs: seq<Text>, m: Regs)
    requires (e.And? && jump == JmpF) || (e.Or? && jump == JmpT)
    requires Tidy(st) && GrowsTo(GenBinary(e, parens, inner, jump, st), code, strs)
    ensures var p := LinkPart(code, code, strs);
            Run(w, p, Real(st.insns), m) ==
            Run(w, p, Real(GenBinary(e, parens, inner, jump, st).insns), EvalTree(w, e, m))
    decreases e, 0
  {
    hide Run, LinkPart, Real, Gen;
    var g := StagesOf(e, parens, inner, jump, st);
    StagesFacts(e, parens, inner, jump, st, code, strs);
    RunAppendIf(w, parens, st.(next := st.next + 1), 0, code, strs, m);
    GenRuns(w, e.left, inner, g.s1, code, strs, m);
    var m1 := EvalTree(w, e.left, m);
    RunJump(w, g.a1, jump, st.next, code, strs, m1);
    if m1.r != (jump == JmpT) {
      GenRuns(w, e.right, inner, g.s2, code, strs, m1);
      RunAppendIf(w, parens, g.b2, 1, code, strs, EvalTree(w, e.right, m1));
    }
  }

  /** Every jump of the code of a tree goes forward, no further than to the end of that code. */
  predicate JumpsForward(from: nat, to: nat, code: seq<Insn>)
    requires from <= to <= |code|
  {
    forall i :: from <= i < to && IsJmp(code[i].op) ==>
      Real(code[..i]) < PosOfLabel(code, code[i].arg) <= Real(code[..to])
  }

  lemma JumpsForwardJoin(from: nat, mid: nat, to: nat, code: seq<Insn>)
    requires from <= mid <= to <= |code| && JumpsForward(from, mid, code) && JumpsForward(mid, to, code)
    ensures JumpsForward(from, to, code)
  {
    RealGrows(code[..mid], code[..to]);
  }

  lemma {:induction false} GenForward(e: Expr, outer: Outer, st: Asm, code: seq<Insn>, strs: seq<Text>)
    requires Tidy(st) && GrowsTo(Gen(e, outer, st), code, strs)
    ensures |st.insns| <= |Gen(e, outer, st).insns|
    ensures JumpsForward(|st.insns|, |Gen(e, outer, st).insns|, code)
    decreases e, 1
  {
    hide Run, LinkPart, Real, IndexOf, PosOfLabel;
    GenExtends(e, outer, st);
    match e
    case And(_, _) => GenForwardBinary(e, outer == InNot, InAnd, JmpF, st, code, strs);
    case Or(_, _) => GenForwardBinary(e, outer == InNot || outer == InAnd, InOr, JmpT, st, code, strs);
    case Not(n) =>
      var st1 := Gen(n, InNot, st);
      GenExtends(n, InNot, st);
      GenForward(n, InNot, st, code, strs);
      NoJumps(st1.insns, Gen(e, outer, st).insns, code);
      JumpsForwardJoin(|st.insns|, |st1.insns|, |st1.insns| + 1, code);
    case _ => NoJumps(st.insns, Gen(e, outer, st).insns, code);
  }

  lemma {:induction false} GenForwardBinary(e: Expr, parens: bool, inner: Outer, jump: Op, st: Asm,
                                            code: seq<Insn>, strs: seq<Text>)
    requires (e.And? || e.Or?) && Tidy(st) && IsJmp(jump)
    requires GrowsTo(GenBinary(e, parens, inner, jump, st), code, strs)
    ensures |st.insns| <= |GenBinary(e, parens, inner, jump, st).insns|
    ensures JumpsForward(|st.insns|, |GenBinary(e, parens, inner, jump, st).insns|, code)
    decreases e, 0
  {
    hide Run, LinkPart, Real, IndexOf, Gen, PosOfLabel;
    var g := StagesOf(e, parens, inner, jump, st);
    StagesFacts(e, parens, inner, jump, st, code, strs);
    GenForward(e.left, inner, g.s1, code, strs);
    GenForward(e.right, inner, g.s2, code, strs);
    var i0, i1, i2, i4, i5 := |st.insns|, |g.s1.insns|, |g.a1.insns|, |g.b2.insns|, |g.end.insns|;
    NoJumps(st.insns, g.s1.insns, code);
    JumpsForwardJoin(i0, i1, i2, code);
    NoJumps(g.b2.insns, g.end.insns, code);
    assert code[..i2] == g.a1.insns && code[..i5] == g.end.insns;
    assert code[i2] == g.s2.insns[i2] == Insn(jump, st.next);
    JumpBetween(i2, i4, i5, code);
    JumpsForwardJoin(i0, i2, i5, code);
  }

  lemma NoJumps(a: seq<Insn>, b: seq<Insn>, code: seq<Insn>)
    requires a <= b <= code
    requires forall i :: |a| <= i < |b| ==> !IsJmp(b[i].op)
    ensures JumpsForward(|a|, |b|, code)
  {
  }

  /** A jump to a label placed at or after `mid` joins the code behind it. */
  lemma {:induction false} JumpBetween(i: nat, mid: nat, to: nat, code: seq<Insn>)
    requires i < mid <= to <= |code| && JumpsForward(i + 1, mid, code) && IsJmp(code[i].op)
    requires Real(code[..i]) < PosOfLabel(code, code[i].arg) == Real(code[..to])
    requires JumpsForward(mid, to, code)
    ensures JumpsForward(i, to, code)
  {
    RealGrows(code[..mid], code[..to]);
  }

  lemma RunStops(w: World, st: Asm, code: seq<Insn>, strs: seq<Text>, m: Regs)
    requires code == Append(st, Ret, 0).insns
    ensures Run(w, LinkPart(code, code, strs), Real(st.insns), m) == m
  {
    var i := |st.insns|;
    assert code[..i] == st.insns;
    LinkAt(code, strs, i);
  }

  /** The program generated for a tree is forward, and running it evaluates the tree. */
  lemma GeneratedCorrect(w: World, e: Expr, m: Regs)
    ensures Forward(Linked(Generated(e)))
    ensures Run(w, Linked(Generated(e)), 0, m) == EvalTree(w, e, m)
    ensures Tidy(Generated(e))
  {
    hide Run, LinkPart, Gen, Forward;
    var st := Gen(e, Top, EMPTY);
    var code, strs := Generated(e).insns, Generated(e).strs;
    GenTidy(e, Top, EMPTY);
    TidyAppend(st, Ret, 0);
    GenRuns(w, e, Top, EMPTY, code, strs, m);
    GeneratedForward(e);
    RunStops(w, st, code, strs, EvalTree(w, e, m));
  }

  lemma GeneratedForward(e: Expr)
    ensures Forward(Linked(Generated(e)))
  {
    hide Real, LinkPart, Gen, PosOfLabel, Forward;
    var st := Gen(e, Top, EMPTY);
    var code, strs := Generated(e).insns, Generated(e).strs;
    GenForward(e, Top, EMPTY, code, strs);
    GenNoRet(e, Top, EMPTY);
    var i := |st.insns|;
    assert code[..i] == st.insns && code[i] == Insn(Ret, 0) && code[..i + 1] == code;
    RealOne(Insn(Ret, 0));
    RealAppend(st.insns, [Insn(Ret, 0)]);
    ForwardFromAsm(code, strs);
  }

  lemma LinkSource(part: seq<Insn>, code: seq<Insn>, strs: seq<Text>, k: nat) returns (i: nat)
    requires k < Real(part)
    ensures i < |part| && part[i].op != Label && Real(part[..i]) == k
  {
    if part[0].op != Label && k == 0 {
      i := 0;
    } else {
      var j := LinkSource(part[1..], code, strs, if part[0].op == Label then k else k - 1);
      i := j + 1;
      assert part[..i] == [part[0]] + part[1..][..j];
      RealAppend([part[0]], part[1..][..j]);
    }
  }

  /** Forwardness of the linked program, from what holds of the jumps of the assembly. */
  lemma ForwardFromAsm(code: seq<Insn>, strs: seq<Text>)
    requires |code| > 0 && code[|code| - 1].op == Ret && NoRet(code[..|code| - 1])
    requires forall i :: 0 <= i < |code| && IsJmp(code[i].op) ==>
                           Real(code[..i]) < PosOfLabel(code, code[i].arg) < Real(code)
    ensures Forward(LinkPart(code, code, strs))
  {
    var p := LinkPart(code, code, strs);
    var n := |code| - 1;
    SplitAt(code, n);
    LinkAt(code, strs, n);
    assert code[n + 1..] == [];
    forall k | 0 <= k < |p| && p[k].IJmp?
      ensures k < p[k].target < |p|
    {
      var i := LinkSource(code, code, strs, k);
      LinkAt(code, strs, i);
    }
    forall k | 0 <= k < |p| - 1
      ensures p[k] != IRet
    {
      var i := LinkSource(code, code, strs, k);
      LinkAt(code, strs, i);
      assert i != n && code[..n][i] == code[i];
    }
  }
}

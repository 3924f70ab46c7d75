/**
 From code back to text. Parentheses come from the PAREN instructions, a leading `!`
 from looking ahead for NEGR.
 */
module LockDecompiler {
  import opened Basics
  import opened LockLanguage
  import opened LockTree
  import opened LockAssembler
  import opened LockThreading
  import opened LockGeneration
  import opened LockBytecode
  import opened LockMachine
  import opened LockPatch
  import opened LockScanner
  import opened LockSpelling

  // ----- the code of a tree, jump targets aside -----

  /** Where the generator puts parentheses. */
  predicate Parens(e: Expr, outer: Outer) {
    (e.And? && outer == InNot) || (e.Or? && (outer == InNot || outer == InAnd))
  }

  function Inner(e: Expr): Outer { if e.And? then InAnd else InOr }

  /** 1 with parentheses and 0 without. */
  function Paren1(e: Expr, outer: Outer): nat { if Parens(e, outer) then 1 else 0 }

  function CodeLen(e: Expr, outer: Outer): nat {
    match e
    case And(a, b) => CodeLen(a, InAnd) + 1 + CodeLen(b, InAnd) + 2 * Paren1(e, outer)
    case Or(a, b) => CodeLen(a, InOr) + 1 + CodeLen(b, InOr) + 2 * Paren1(e, outer)
    case Not(n) => CodeLen(n, InNot) + 1
    case Ind(_, _) => 2
    case Pair(_, _, _) => 2
    case _ => 1
  }

  predicate InsIs(p: seq<Ins>, k: nat, i: Ins) { k < |p| && p[k] == i }

  predicate JmpIs(p: seq<Ins>, k: nat, on: bool) { k < |p| && p[k].IJmp? && p[k].on == on }

  /** The program holds the code of `e` from `k` on. */
  predicate CodeAt(p: seq<Ins>, k: nat, e: Expr, outer: Outer)
    decreases e, 1
  {
    match e
    case And(_, _) => BinaryAt(p, k, e, outer)
    case Or(_, _) => BinaryAt(p, k, e, outer)
    case Not(n) => CodeAt(p, k, n, InNot) && InsIs(p, k + CodeLen(n, InNot), INegR)
    case Bool(v) => InsIs(p, k, ILoadR(if v then 1 else 0))
    case Ref(kind, thing) => InsIs(p, k, IRef(kind, thing))
    case Ind(thing, lock) => InsIs(p, k, ILoadS(lock)) && InsIs(p, k + 1, IInd(thing))
    case Pair(kind, name, text) => InsIs(p, k, ILoadS(name)) && InsIs(p, k + 1, IPair(kind, text))
    case Flag(kind, text) => InsIs(p, k, IFlag(kind, text))
  }

  function LeftAt(k: nat, e: Expr, outer: Outer): nat { k + Paren1(e, outer) }

  function JmpAt(k: nat, e: Expr, outer: Outer): nat
    requires e.And? || e.Or?
  {
    LeftAt(k, e, outer) + CodeLen(e.left, Inner(e))
  }

  function CloseAt(k: nat, e: Expr, outer: Outer): nat
    requires e.And? || e.Or?
  {
    JmpAt(k, e, outer) + 1 + CodeLen(e.right, Inner(e))
  }

  predicate BinaryAt(p: seq<Ins>, k: nat, e: Expr, outer: Outer)
    requires e.And? || e.Or?
    decreases e, 0
  {
    (Parens(e, outer) ==> InsIs(p, k, IParen(0)) && InsIs(p, CloseAt(k, e, outer), IParen(1))) &&
    CodeAt(p, LeftAt(k, e, outer), e.left, Inner(e)) &&
    JmpIs(p, JmpAt(k, e, outer), e.Or?) &&
    CodeAt(p, JmpAt(k, e, outer) + 1, e.right, Inner(e))
  }

  lemma InsAppended(st: Asm, op: Op, arg: int, code: seq<Insn>, strs: seq<Text>)
    requires GrowsTo(Append(st, op, arg), code, strs)
    ensures Real(Append(st, op, arg).insns) == Real(st.insns) + if op == Label then 0 else 1
    ensures op != Label ==> InsIs(LinkPart(code, code, strs), Real(st.insns), Resolve(Insn(op, arg), code, strs))
  {
    hide Real, LinkPart;
    var i := |st.insns|;
    assert code[i] == Append(st, op, arg).insns[i];
    assert code[..i] == st.insns && code[..i + 1] == Append(st, op, arg).insns;
    SplitAt(code, i);
    if op != Label { LinkAt(code, strs, i); }
  }

  lemma StringAppended(st: Asm, op: Op, s: Text, code: seq<Insn>, strs: seq<Text>)
    requires GrowsTo(AppendString(st, op, s), code, strs) && TakesString(op)
    ensures Real(AppendString(st, op, s).insns) == Real(st.insns) + 1
    ensures InsIs(LinkPart(code, code, strs), Real(st.insns),
                  if op == LoadS then ILoadS(s) else if op.TPair? then IPair(op.pair, s) else IFlag(op.flag, s))
  {
    hide Real, LinkPart;
    var i := IndexOf(st.strs, s);
    var st' := AppendString(st, op, s);
    assert st'.strs[i] == s && strs[i] == s;
    InsAppended(st.(strs := st'.strs), op, i, code, strs);
  }

  lemma ParenAppended(wanted: bool, st: Asm, side: int, code: seq<Insn>, strs: seq<Text>)
    requires GrowsTo(AppendIf(wanted, st, Paren, side), code, strs)
    ensures Real(AppendIf(wanted, st, Paren, side).insns) == Real(st.insns) + if wanted then 1 else 0
    ensures wanted ==> InsIs(LinkPart(code, code, strs), Real(st.insns), IParen(side))
  {
    if wanted { InsAppended(st, Paren, side, code, strs); }
  }

  /** The generator puts the code of a tree where it says. */
  lemma {:induction false} GenCodeAt(e: Expr, outer: Outer, st: Asm, code: seq<Insn>, strs: seq<Text>)
    requires Tidy(st) && GrowsTo(Gen(e, outer, st), code, strs)
    ensures CodeAt(LinkPart(code, code, strs), Real(st.insns), e, outer)
    ensures Real(Gen(e, outer, st).insns) == Real(st.insns) + CodeLen(e, outer)
    decreases e, 1
  {
    hide Real, LinkPart, IndexOf;
    match e
    case And(_, _) => GenBinaryAt(e, outer, JmpF, st, code, strs);
    case Or(_, _) => GenBinaryAt(e, outer, JmpT, st, code, strs);
    case Not(n) =>
      GenCodeAt(n, InNot, st, code, strs);
      InsAppended(Gen(n, InNot, st), NegR, 0, code, strs);
    case _ => GenAtomAt(e, outer, st, code, strs);
  }

  lemma GenAtomAt(e: Expr, outer: Outer, st: Asm, code: seq<Insn>, strs: seq<Text>)
    requires !e.And? && !e.Or? && !e.Not? && GrowsTo(Gen(e, outer, st), code, strs)
    ensures CodeAt(LinkPart(code, code, strs), Real(st.insns), e, outer)
    ensures Real(Gen(e, outer, st).insns) == Real(st.insns) + CodeLen(e, outer)
  {
    hide Real, LinkPart, IndexOf, PosOfLabel;
    match e
    case Bool(v) => InsAppended(st, LoadR, if v then 1 else 0, code, strs);
    case Ref(k, thing) => InsAppended(st, TRef(k), thing, code, strs);
    case Ind(thing, lock) =>
      StringAppended(st, LoadS, lock, code, strs);
      InsAppended(AppendString(st, LoadS, lock), TInd, thing, code, strs);
    case Pair(k, name, text) =>
      StringAppended(st, LoadS, name, code, strs);
      StringAppended(AppendString(st, LoadS, name), Op.TPair(k), text, code, strs);
    case Flag(k, text) => StringAppended(st, Op.TFlag(k), text, code, strs);
  }

  lemma {:induction false} GenBinaryAt(e: Expr, outer: Outer, jump: Op, st: Asm, code: seq<Insn>, strs: seq<Text>)
    requires (e.And? && jump == JmpF) || (e.Or? && jump == JmpT)
    requires IsJmp(jump) && Tidy(st) && GrowsTo(GenBinary(e, Parens(e, outer), Inner(e), jump, st), code, strs)
    ensures BinaryAt(LinkPart(code, code, strs), Real(st.insns), e, outer)
    ensures Real(GenBinary(e, Parens(e, outer), Inner(e), jump, st).insns) == Real(st.insns) + CodeLen(e, outer)
    decreases e, 0
  {
    hide *;
    var parens := Parens(e, outer);
    var g := StagesOf(e, parens, Inner(e), jump, st);
    StagesChain(e, parens, Inner(e), jump, st);
    StagesFacts(e, parens, Inner(e), jump, st, code, strs);
    ParenAppended(parens, st.(next := st.next + 1), 0, code, strs);
    GenCodeAt(e.left, Inner(e), g.s1, code, strs);
    JumpAppended(g.a1, jump, st.next, code, strs);
    GenCodeAt(e.right, Inner(e), g.s2, code, strs);
    ParenAppended(parens, g.b2, 1, code, strs);
    BinaryFrom(LinkPart(code, code, strs), Real(st.insns), e, outer, Real(g.s1.insns), Real(g.a1.insns),
        Real(g.b2.insns));
  }

  lemma StagesChain(e: Expr, parens: bool, inner: Outer, jump: Op, st: Asm)
    requires e.And? || e.Or?
    ensures var g := StagesOf(e, parens, inner, jump, st);
            g.s1 == AppendIf(parens, st.(next := st.next + 1), Paren, 0) &&
            g.a1 == Gen(e.left, inner, g.s1) && g.s2 == Append(g.a1, jump, st.next) &&
            g.b2 == Gen(e.right, inner, g.s2) && g.s3 == AppendIf(parens, g.b2, Paren, 1)
  {
    hide Gen;
  }

  lemma JumpAppended(st: Asm, jump: Op, l: int, code: seq<Insn>, strs: seq<Text>)
    requires GrowsTo(Append(st, jump, l), code, strs) && IsJmp(jump)
    ensures Real(Append(st, jump, l).insns) == Real(st.insns) + 1
    ensures JmpIs(LinkPart(code, code, strs), Real(st.insns), jump == JmpT)
  {
    hide Real, LinkPart, PosOfLabel;
    InsAppended(st, jump, l, code, strs);
  }

  lemma BinaryFrom(p: seq<Ins>, k: nat, e: Expr, outer: Outer, left: nat, jmp: nat, close: nat)
    requires (e.And? || e.Or?) && left == k + (if Parens(e, outer) then 1 else 0)
    requires CodeAt(p, left, e.left, Inner(e)) && jmp == left + CodeLen(e.left, Inner(e)) && JmpIs(p, jmp, e.Or?)
    requires CodeAt(p, jmp + 1, e.right, Inner(e)) && close == jmp + 1 + CodeLen(e.right, Inner(e))
    requires Parens(e, outer) ==> InsIs(p, k, IParen(0)) && InsIs(p, close, IParen(1))
    ensures BinaryAt(p, k, e, outer)
    ensures close + (if Parens(e, outer) then 1 else 0) == k + CodeLen(e, outer)
  {
    hide CodeAt;
  }

  /** Retargeting jumps leaves the code of a tree the code of that tree. */
  lemma {:induction false} CodeAtShape(p: seq<Ins>, q: seq<Ins>, k: nat, e: Expr, outer: Outer)
    requires SameShape(p, q) && CodeAt(p, k, e, outer)
    ensures CodeAt(q, k, e, outer)
    decreases e, 1
  {
    match e
    case And(_, _) => BinaryAtShape(p, q, k, e, outer);
    case Or(_, _) => BinaryAtShape(p, q, k, e, outer);
    case Not(n) => CodeAtShape(p, q, k, n, InNot);
    case _ =>
  }

  lemma {:induction false} BinaryAtShape(p: seq<Ins>, q: seq<Ins>, k: nat, e: Expr, outer: Outer)
    requires (e.And? || e.Or?) && SameShape(p, q) && BinaryAt(p, k, e, outer)
    ensures BinaryAt(q, k, e, outer)
    decreases e, 0
  {
    hide CodeAt, CodeLen;
    CodeAtShape(p, q, LeftAt(k, e, outer), e.left, Inner(e));
    CodeAtShape(p, q, JmpAt(k, e, outer) + 1, e.right, Inner(e));
  }

  /** `p` is the compiled form of `e`, up to where its jumps lead. */
  predicate CompiledShape(p: seq<Ins>, e: Expr) {
    CodeAt(p, 0, e, Top) && |p| == CodeLen(e, Top) + 1 && p[CodeLen(e, Top)] == IRet
  }

  lemma GeneratedShape(e: Expr)
    ensures CompiledShape(Linked(Generated(e)), e)
  {
    hide LinkPart, Gen, CodeAt;
    var st := Gen(e, Top, EMPTY);
    GenCodeAt(e, Top, EMPTY, Generated(e).insns, Generated(e).strs);
    InsAppended(st, Ret, 0, Generated(e).insns, Generated(e).strs);
  }

  lemma CompiledShapeKept(p: seq<Ins>, q: seq<Ins>, e: Expr)
    requires SameShape(q, p) && CompiledShape(p, e)
    ensures CompiledShape(q, e)
  {
    assert SameShape(p, q);
    CodeAtShape(p, q, 0, e, Top);
  }

  // ----- the printer -----

  /** Looking ahead from inside `depth` open parentheses: is the one that closes them all negated? */
  predicate NegAfter(p: seq<Ins>, k: nat, depth: int)
    decreases |p| - k
  {
    if k >= |p| then false
    else if p[k].IParen? then
      var d := if p[k].side != 0 then depth - 1 else depth + 1;
      if d == 0 then k + 1 < |p| && p[k + 1] == INegR else NegAfter(p, k + 1, d)
    else NegAfter(p, k + 1, depth)
  }

  function NotIf(c: bool): seq<Tok> { if c then [NotTok] else [] }

  /** What one instruction prints, given the string register and what lies ahead. */
  function Shown(p: seq<Ins>, k: nat, s: Option<Text>): seq<Tok>
    requires k < |p|
  {
    NotIf(k + 1 < |p| && p[k + 1] == INegR && !p[k].IRet? && !p[k].IParen?) +
    match p[k]
    case IJmp(on, _) => [if on then OrTok else AndTok]
    case IRef(Const, thing) => [NameTok(thing)]
    case IRef(Carry, thing) => [PlusTok, NameTok(thing)]
    case IRef(Is, thing) => [EqTok, NameTok(thing)]
    case IRef(Owner, thing) => [DollarTok, NameTok(thing)]
    case IInd(thing) => [AtTok, NameTok(thing), SlashTok(s.GetOr([]))]
    case IPair(kind, text) => [PairTok(kind, s.GetOr([]), text)]
    case IFlag(kind, text) => [FlagTok(kind, text)]
    case ILoadS(_) => []
    case ILoadR(v) => [TruthTok(v != 0)]
    case INegR => []
    case IParen(side) =>
      if side == 0 then NotIf(NegAfter(p, k + 1, 1)) + [OpenTok] else if side == 1 then [CloseTok] else []
    case IRet => []
  }

  function NewS(i: Ins, s: Option<Text>): Option<Text> {
    if i.ILoadS? then Some(i.text) else s
  }

  function Unparsed(p: seq<Ins>, k: nat, s: Option<Text>): seq<Tok>
    decreases |p| - k
  {
    if k >= |p| || p[k] == IRet then [] else Shown(p, k, s) + Unparsed(p, k + 1, NewS(p[k], s))
  }

  // ----- what the printer prints for a tree -----

  function Printed(e: Expr, outer: Outer): seq<Tok> {
    match e
    case And(a, b) =>
      if Parens(e, outer) then [OpenTok] + (Printed(a, InAnd) + [AndTok] + Printed(b, InAnd)) + [CloseTok]
      else Printed(a, InAnd) + [AndTok] + Printed(b, InAnd)
    case Or(a, b) =>
      if Parens(e, outer) then [OpenTok] + (Printed(a, InOr) + [OrTok] + Printed(b, InOr)) + [CloseTok]
      else Printed(a, InOr) + [OrTok] + Printed(b, InOr)
    case Not(n) => [NotTok] + Printed(n, InNot)
    case Bool(v) => [TruthTok(v)]
    case Ref(Const, thing) => [NameTok(thing)]
    case Ref(Carry, thing) => [PlusTok, NameTok(thing)]
    case Ref(Is, thing) => [EqTok, NameTok(thing)]
    case Ref(Owner, thing) => [DollarTok, NameTok(thing)]
    case Ind(thing, lock) => [AtTok, NameTok(thing), SlashTok(lock)]
    case Pair(k, name, text) => [PairTok(k, name, text)]
    case Flag(k, text) => [FlagTok(k, text)]
  }

  /** The string register after the code of a tree. */
  function LastS(e: Expr, s: Option<Text>): Option<Text> {
    match e
    case And(a, b) => LastS(b, LastS(a, s))
    case Or(a, b) => LastS(b, LastS(a, s))
    case Not(n) => LastS(n, s)
    case Ind(_, lock) => Some(lock)
    case Pair(_, name, _) => Some(name)
    case _ => s
  }

  lemma {:induction false} CodeStart(p: seq<Ins>, k: nat, e: Expr, outer: Outer)
    requires CodeAt(p, k, e, outer)
    ensures 0 < CodeLen(e, outer) && k + CodeLen(e, outer) <= |p|
    ensures p[k] != INegR && p[k] != IRet
    decreases e
  {
    match e
    case And(a, b) =>
      CodeStart(p, LeftAt(k, e, outer), a, InAnd);
      CodeStart(p, JmpAt(k, e, outer) + 1, b, InAnd);
    case Or(a, b) =>
      CodeStart(p, LeftAt(k, e, outer), a, InOr);
      CodeStart(p, JmpAt(k, e, outer) + 1, b, InOr);
    case Not(n) => CodeStart(p, k, n, InNot);
    case _ =>
  }

  /** The code of a tree is balanced: looking ahead passes over it. */
  lemma {:induction false} NegAfterCode(p: seq<Ins>, k: nat, e: Expr, outer: Outer, depth: int)
    requires depth >= 1 && CodeAt(p, k, e, outer)
    ensures NegAfter(p, k, depth) == NegAfter(p, k + CodeLen(e, outer), depth)
    ensures Balanced(p, k, depth) == Balanced(p, k + CodeLen(e, outer), depth)
    decreases e, 1
  {
    match e
    case And(_, _) => NegAfterBinary(p, k, e, outer, depth);
    case Or(_, _) => NegAfterBinary(p, k, e, outer, depth);
    case Not(n) => NegAfterCode(p, k, n, InNot, depth);
    case _ =>
  }

  lemma {:induction false} NegAfterBinary(p: seq<Ins>, k: nat, e: Expr, outer: Outer, depth: int)
    requires (e.And? || e.Or?) && depth >= 1 && BinaryAt(p, k, e, outer)
    ensures NegAfter(p, k, depth) == NegAfter(p, k + CodeLen(e, outer), depth)
    ensures Balanced(p, k, depth) == Balanced(p, k + CodeLen(e, outer), depth)
    decreases e, 0
  {
    hide CodeAt;
    var d := depth + Paren1(e, outer);
    NegAfterCode(p, LeftAt(k, e, outer), e.left, Inner(e), d);
    NegAfterCode(p, JmpAt(k, e, outer) + 1, e.right, Inner(e), d);
  }

  /** From an opening parenthesis the printer finds the matching one and what follows it. */
  lemma OpenNegated(p: seq<Ins>, k: nat, e: Expr, outer: Outer)
    requires (e.And? || e.Or?) && Parens(e, outer) && BinaryAt(p, k, e, outer) && k + CodeLen(e, outer) < |p|
    ensures NegAfter(p, k + 1, 1) == (p[k + CodeLen(e, outer)] == INegR)
    ensures Balanced(p, k + 1, 1)
  {
    hide CodeAt;
    NegAfterCode(p, k + 1, e.left, Inner(e), 1);
    NegAfterCode(p, JmpAt(k, e, outer) + 1, e.right, Inner(e), 1);
  }

  /** The context a piece of normalised code stands in: NEGR behind it exactly under a NOT. */
  predicate Fits(p: seq<Ins>, k: nat, e: Expr, outer: Outer) {
    CodeAt(p, k, e, outer) && Normal(e) && k + CodeLen(e, outer) < |p| &&
    (p[k + CodeLen(e, outer)] == INegR <==> outer == InNot) && (outer == InNot ==> !e.Not?)
  }

  /** Patching changes neither parentheses nor negations. */
  lemma {:induction false} NegAfterPatched(gone: Dbref -> bool, p: seq<Ins>, k: nat, depth: int)
    ensures NegAfter(Patched(gone, p), k, depth) == NegAfter(p, k, depth)
    ensures Balanced(Patched(gone, p), k, depth) == Balanced(p, k, depth)
    decreases |p| - k
  {
    if k < |p| {
      var q := Patched(gone, p);
      assert q[k] == PatchedIns(gone, p[k]);
      assert k + 1 < |p| ==> q[k + 1] == PatchedIns(gone, p[k + 1]);
      if p[k].IParen? {
        NegAfterPatched(gone, p, k + 1, if p[k].side != 0 then depth - 1 else depth + 1);
      } else {
        NegAfterPatched(gone, p, k + 1, depth);
      }
    }
  }

  /** The printer prints a tree without the objects that are gone, with the `!` of the NOT above it in front. */
  lemma {:induction false} UnparsedCode(gone: Dbref -> bool, p: seq<Ins>, k: nat, e: Expr, outer: Outer,
      s: Option<Text>)
    requires Fits(p, k, e, outer)
    ensures var q := Patched(gone, p);
            Unparsed(q, k, s) == NotIf(outer == InNot) + Printed(WithoutGone(gone, e), outer) +
                                 Unparsed(q, k + CodeLen(e, outer), LastS(e, s))
    decreases e, 1
  {
    hide *;
    var q := Patched(gone, p);
    match e
    case And(_, _) => UnparsedBinary(gone, p, k, e, outer, s);
    case Or(_, _) => UnparsedBinary(gone, p, k, e, outer, s);
    case Not(n) =>
      NotPieces(gone, p, k, e, outer, s);
      UnparsedCode(gone, p, k, n, InNot, s);
      GlueNot(Printed(WithoutGone(gone, n), InNot), Unparsed(q, k + CodeLen(e, outer), LastS(e, s)), NotIf(true),
              NotIf(false));
    case _ => UnparsedAtom(gone, p, k, e, outer, s);
  }

  lemma NotPieces(gone: Dbref -> bool, p: seq<Ins>, k: nat, e: Expr, outer: Outer, s: Option<Text>)
    requires e.Not? && Fits(p, k, e, outer)
    ensures Fits(p, k, e.body, InNot) && NotIf(outer == InNot) == NotIf(false) == []
    ensures Printed(WithoutGone(gone, e), outer) == [NotTok] + Printed(WithoutGone(gone, e.body), InNot)
    ensures NotIf(true) == [NotTok]
    ensures var q := Patched(gone, p);
            Unparsed(q, k + CodeLen(e.body, InNot), LastS(e.body, s)) == Unparsed(q, k + CodeLen(e, outer), LastS(e, s))
  {
    hide NegAfter, Unparsed, Printed, Shown, Patched;
    PrintedNot(WithoutGone(gone, e), outer);
    var q, i := Patched(gone, p), k + CodeLen(e.body, InNot);
    assert q[i] == PatchedIns(gone, p[i]) && q[i + 1] == PatchedIns(gone, p[i + 1]);
    UnparsedNeg(q, i, LastS(e, s));
  }

  lemma PrintedNot(e: Expr, outer: Outer)
    requires e.Not?
    ensures Printed(e, outer) == [NotTok] + Printed(e.body, InNot)
  {
  }

  /** A negation prints nothing where it stands. */
  lemma UnparsedNeg(p: seq<Ins>, k: nat, s: Option<Text>)
    requires k + 1 < |p| && p[k] == INegR && p[k + 1] != INegR
    ensures Unparsed(p, k, s) == Unparsed(p, k + 1, s)
  {
    hide Unparsed, NegAfter;
    UnparsedOne(p, k, s);
    assert Shown(p, k, s) == [];
  }

  lemma GlueNot(a: seq<Tok>, b: seq<Tok>, n: seq<Tok>, z: seq<Tok>)
    requires n == [NotTok] && z == []
    ensures n + a + b == z + ([NotTok] + a) + b
  {
  }

  lemma UnparsedAtom(gone: Dbref -> bool, p: seq<Ins>, k: nat, e: Expr, outer: Outer, s: Option<Text>)
    requires Fits(p, k, e, outer) && !e.And? && !e.Or? && !e.Not?
    ensures var q := Patched(gone, p);
            Unparsed(q, k, s) == NotIf(outer == InNot) + Printed(WithoutGone(gone, e), outer) +
                                 Unparsed(q, k + CodeLen(e, outer), LastS(e, s))
  {
    if e.Ind? || e.Pair? {
      UnparsedNamed(gone, p, k, e, outer, s);
    } else {
      hide Unparsed, Patched, Shown, Printed, WithoutGone, NewS, LastS, Fits;
      AtomShown(gone, p, k, e, outer, s);
      UnparsedOne(Patched(gone, p), k, s);
    }
  }

  /** A test of one instruction. */
  lemma AtomShown(gone: Dbref -> bool, p: seq<Ins>, k: nat, e: Expr, outer: Outer, s: Option<Text>)
    requires Fits(p, k, e, outer) && !e.And? && !e.Or? && !e.Not? && !e.Ind? && !e.Pair?
    ensures var q := Patched(gone, p);
            k < |q| && q[k] != IRet && CodeLen(e, outer) == 1 && NewS(q[k], s) == LastS(e, s) &&
            Shown(q, k, s) == NotIf(outer == InNot) + Printed(WithoutGone(gone, e), outer)
  {
    hide NegAfter, Patched;
    var q := Patched(gone, p);
    assert q[k] == PatchedIns(gone, p[k]) && q[k + 1] == PatchedIns(gone, p[k + 1]);
  }

  /** A test that loads a string first. */
  lemma UnparsedNamed(gone: Dbref -> bool, p: seq<Ins>, k: nat, e: Expr, outer: Outer, s: Option<Text>)
    requires Fits(p, k, e, outer) && (e.Ind? || e.Pair?)
    ensures var q := Patched(gone, p);
            Unparsed(q, k, s) == NotIf(outer == InNot) + Printed(WithoutGone(gone, e), outer) +
                                 Unparsed(q, k + CodeLen(e, outer), LastS(e, s))
  {
    hide Unparsed, Patched, Shown, Printed, WithoutGone, NewS, LastS, Fits;
    NamedShown(gone, p, k, e, outer, s);
    UnparsedOne(Patched(gone, p), k, s);
    UnparsedOne(Patched(gone, p), k + 1, LastS(e, s));
  }

  lemma NamedShown(gone: Dbref -> bool, p: seq<Ins>, k: nat, e: Expr, outer: Outer, s: Option<Text>)
    requires Fits(p, k, e, outer) && (e.Ind? || e.Pair?)
    ensures var q := Patched(gone, p);
            k + 1 < |q| && q[k] != IRet && q[k + 1] != IRet && CodeLen(e, outer) == 2 && Shown(q, k, s) == [] &&
            NewS(q[k], s) == LastS(e, s) && NewS(q[k + 1], LastS(e, s)) == LastS(e, s) &&
            Shown(q, k + 1, LastS(e, s)) == NotIf(outer == InNot) + Printed(WithoutGone(gone, e), outer)
  {
    hide NegAfter, Patched;
    var q := Patched(gone, p);
    assert q[k] == PatchedIns(gone, p[k]) && q[k + 1] == PatchedIns(gone, p[k + 1]);
    assert q[k + 2] == PatchedIns(gone, p[k + 2]);
  }

  lemma WithoutGoneBinary(gone: Dbref -> bool, e: Expr, outer: Outer)
    requires e.And? || e.Or?
    ensures var e' := WithoutGone(gone, e);
            e'.And? == e.And? && e'.Or? == e.Or? && e'.left == WithoutGone(gone, e.left) &&
            e'.right == WithoutGone(gone, e.right) && Parens(e', outer) == Parens(e, outer) && Inner(e') == Inner(e) &&
            OperatorTok(e') == OperatorTok(e)
  {
  }

  lemma {:induction false} UnparsedBinary(gone: Dbref -> bool, p: seq<Ins>, k: nat, e: Expr, outer: Outer,
      s: Option<Text>)
    requires (e.And? || e.Or?) && Fits(p, k, e, outer)
    ensures var q := Patched(gone, p);
            Unparsed(q, k, s) == NotIf(outer == InNot) + Printed(WithoutGone(gone, e), outer) +
                                 Unparsed(q, k + CodeLen(e, outer), LastS(e, s))
    decreases e, 0, 1
  {
    hide *;
    var q, e' := Patched(gone, p), WithoutGone(gone, e);
    WithoutGoneBinary(gone, e, outer);
    UnparsedOperands(gone, p, k, e, outer, s);
    PrintedBinary(e', outer);
    LastSBinary(e, s);
    if Parens(e, outer) {
      PrintedInParens(e', outer);
      ParensShown(gone, p, k, e, outer, s);
      var body := Printed(e'.left, Inner(e)) + [OperatorTok(e)] + Printed(e'.right, Inner(e));
      GlueParens(Unparsed(q, k, s), Unparsed(q, k + 1, s), Unparsed(q, CloseAt(k, e, outer), LastS(e, s)),
                 Unparsed(q, k + CodeLen(e, outer), LastS(e, s)), NotIf(outer == InNot), body);
    } else {
      NoParens(k, e, outer);
    }
  }

  lemma NoParens(k: nat, e: Expr, outer: Outer)
    requires (e.And? || e.Or?) && !Parens(e, outer)
    ensures NotIf(outer == InNot) == []
    ensures LeftAt(k, e, outer) == k && CloseAt(k, e, outer) == k + CodeLen(e, outer)
  {
  }

  lemma ParensShown(gone: Dbref -> bool, p: seq<Ins>, k: nat, e: Expr, outer: Outer, s: Option<Text>)
    requires (e.And? || e.Or?) && Fits(p, k, e, outer) && Parens(e, outer)
    ensures LeftAt(k, e, outer) == k + 1
    ensures Unparsed(Patched(gone, p), k, s) ==
            NotIf(outer == InNot) + [OpenTok] + Unparsed(Patched(gone, p), k + 1, s)
    ensures Unparsed(Patched(gone, p), CloseAt(k, e, outer), LastS(e, s)) ==
            [CloseTok] + Unparsed(Patched(gone, p), k + CodeLen(e, outer), LastS(e, s))
  {
    hide Patched, Unparsed, NegAfter, CodeAt;
    var q, close := Patched(gone, p), CloseAt(k, e, outer);
    BinaryPieces(p, k, e, outer);
    OpenNegated(p, k, e, outer);
    NegAfterPatched(gone, p, k + 1, 1);
    assert q[k] == PatchedIns(gone, p[k]) && q[close] == PatchedIns(gone, p[close]);
    ParenShown(q, k, s, outer == InNot);
    ParenShown(q, close, LastS(e, s), false);
  }

  lemma ParenShown(p: seq<Ins>, k: nat, s: Option<Text>, neg: bool)
    requires k < |p| && p[k].IParen?
    requires p[k].side == 0 ==> neg == NegAfter(p, k + 1, 1)
    ensures p[k].side == 0 ==> Unparsed(p, k, s) == NotIf(neg) + [OpenTok] + Unparsed(p, k + 1, s)
    ensures p[k].side == 1 ==> Unparsed(p, k, s) == [CloseTok] + Unparsed(p, k + 1, s)
  {
    hide NegAfter, Unparsed;
    UnparsedOne(p, k, s);
    ParenTokens(p, k, s, neg);
  }

  lemma ParenTokens(p: seq<Ins>, k: nat, s: Option<Text>, neg: bool)
    requires k < |p| && p[k].IParen?
    requires p[k].side == 0 ==> neg == NegAfter(p, k + 1, 1)
    ensures p[k].side == 0 ==> Shown(p, k, s) == NotIf(neg) + [OpenTok]
    ensures p[k].side == 1 ==> Shown(p, k, s) == [CloseTok]
    ensures NewS(p[k], s) == s
  {
  }

  lemma {:induction false} UnparsedOperands(gone: Dbref -> bool, p: seq<Ins>, k: nat, e: Expr, outer: Outer,
      s: Option<Text>)
    requires (e.And? || e.Or?) && Fits(p, k, e, outer)
    ensures var q := Patched(gone, p);
            Unparsed(q, LeftAt(k, e, outer), s) ==
            Printed(WithoutGone(gone, e.left), Inner(e)) + [OperatorTok(e)] +
            Printed(WithoutGone(gone, e.right), Inner(e)) +
            Unparsed(q, CloseAt(k, e, outer), LastS(e.right, LastS(e.left, s)))
    decreases e, 0, 0
  {
    hide *;
    var q := Patched(gone, p);
    BinaryPieces(p, k, e, outer);
    var s1 := LastS(e.left, s);
    UnparsedCode(gone, p, LeftAt(k, e, outer), e.left, Inner(e), s);
    OperatorKept(gone, p, k, e, outer);
    UnparsedOperator(q, k, e, outer, s1);
    UnparsedCode(gone, p, JmpAt(k, e, outer) + 1, e.right, Inner(e), s1);
    PositionsAfter(k, e, outer);
    Glue(Unparsed(q, LeftAt(k, e, outer), s), Unparsed(q, JmpAt(k, e, outer), s1),
         Unparsed(q, JmpAt(k, e, outer) + 1, s1), Unparsed(q, CloseAt(k, e, outer), LastS(e.right, s1)),
         NotIf(Inner(e) == InNot), Printed(WithoutGone(gone, e.left), Inner(e)), OperatorTok(e),
         Printed(WithoutGone(gone, e.right), Inner(e)));
  }

  lemma OperatorKept(gone: Dbref -> bool, p: seq<Ins>, k: nat, e: Expr, outer: Outer)
    requires (e.And? || e.Or?) && JmpIs(p, JmpAt(k, e, outer), e.Or?)
    requires JmpAt(k, e, outer) + 1 < |p| && p[JmpAt(k, e, outer) + 1] != INegR
    ensures var q := Patched(gone, p);
            JmpIs(q, JmpAt(k, e, outer), e.Or?) && |q| == |p| && q[JmpAt(k, e, outer) + 1] != INegR
  {
    hide Patched, JmpAt;
    var i, q := JmpAt(k, e, outer), Patched(gone, p);
    assert q[i] == PatchedIns(gone, p[i]) && q[i + 1] == PatchedIns(gone, p[i + 1]);
  }

  lemma PositionsAfter(k: nat, e: Expr, outer: Outer)
    requires e.And? || e.Or?
    ensures LeftAt(k, e, outer) + CodeLen(e.left, Inner(e)) == JmpAt(k, e, outer)
    ensures JmpAt(k, e, outer) + 1 + CodeLen(e.right, Inner(e)) == CloseAt(k, e, outer)
    ensures NotIf(Inner(e) == InNot) == []
  {
  }

  lemma UnparsedOperator(p: seq<Ins>, k: nat, e: Expr, outer: Outer, s: Option<Text>)
    requires (e.And? || e.Or?) && JmpIs(p, JmpAt(k, e, outer), e.Or?)
    requires JmpAt(k, e, outer) + 1 < |p| && p[JmpAt(k, e, outer) + 1] != INegR
    ensures Unparsed(p, JmpAt(k, e, outer), s) == [OperatorTok(e)] + Unparsed(p, JmpAt(k, e, outer) + 1, s)
  {
    hide NegAfter, JmpAt;
  }

  lemma Glue(u0: seq<Tok>, u1: seq<Tok>, u2: seq<Tok>, u3: seq<Tok>, n: seq<Tok>, a: seq<Tok>, x: Tok, b: seq<Tok>)
    requires n == [] && u0 == n + a + u1 && u1 == [x] + u2 && u2 == n + b + u3
    ensures u0 == a + [x] + b + u3
  {
  }

  lemma GlueParens(u0: seq<Tok>, u1: seq<Tok>, u2: seq<Tok>, u3: seq<Tok>, n: seq<Tok>, body: seq<Tok>)
    requires u0 == n + [OpenTok] + u1 && u1 == body + u2 && u2 == [CloseTok] + u3
    ensures u0 == n + ([OpenTok] + body + [CloseTok]) + u3
  {
  }

  lemma FitsBinary(p: seq<Ins>, k: nat, e: Expr, outer: Outer)
    requires (e.And? || e.Or?) && Fits(p, k, e, outer)
    ensures BinaryAt(p, k, e, outer) && Normal(e.left) && Normal(e.right)
  {
  }

  lemma BinaryPieces(p: seq<Ins>, k: nat, e: Expr, outer: Outer)
    requires (e.And? || e.Or?) && Fits(p, k, e, outer)
    ensures BinaryAt(p, k, e, outer) && CloseAt(k, e, outer) + Paren1(e, outer) == k + CodeLen(e, outer)
    ensures Fits(p, LeftAt(k, e, outer), e.left, Inner(e)) && Fits(p, JmpAt(k, e, outer) + 1, e.right, Inner(e))
    ensures JmpIs(p, JmpAt(k, e, outer), e.Or?)
    ensures JmpAt(k, e, outer) + 1 < |p| && p[JmpAt(k, e, outer) + 1] != INegR
    ensures Parens(e, outer) ==> p[k] == IParen(0) && p[CloseAt(k, e, outer)] == IParen(1)
  {
    hide CodeAt, Normal;
    FitsBinary(p, k, e, outer);
    CodeStart(p, JmpAt(k, e, outer) + 1, e.right, Inner(e));
  }

  lemma UnparsedOne(p: seq<Ins>, k: nat, s: Option<Text>)
    requires k < |p| && p[k] != IRet
    ensures Unparsed(p, k, s) == Shown(p, k, s) + Unparsed(p, k + 1, NewS(p[k], s))
  {
  }

  lemma UnparsedRet(p: seq<Ins>, k: nat, s: Option<Text>)
    requires k < |p| && p[k] == IRet
    ensures Unparsed(p, k, s) == []
  {
  }

  function OperatorTok(e: Expr): Tok { if e.Or? then OrTok else AndTok }

  lemma PrintedBinary(e: Expr, outer: Outer)
    requires e.And? || e.Or?
    ensures !Parens(e, outer) ==>
      Printed(e, outer) == Printed(e.left, Inner(e)) + [OperatorTok(e)] + Printed(e.right, Inner(e))
  {
  }

  lemma LastSBinary(e: Expr, s: Option<Text>)
    requires e.And? || e.Or?
    ensures LastS(e, s) == LastS(e.right, LastS(e.left, s))
  {
  }

  lemma PrintedInParens(e: Expr, outer: Outer)
    requires Parens(e, outer)
    ensures Printed(e, outer) ==
            [OpenTok] + (Printed(e.left, Inner(e)) + [OperatorTok(e)] + Printed(e.right, Inner(e))) + [CloseTok]
  {
  }

  /** Printing the compiled form of a normalised tree, patched since or not, prints the tree without the objects that
      are gone. */
  lemma UnparsedTree(gone: Dbref -> bool, p: seq<Ins>, e: Expr)
    requires Normal(e) && CompiledShape(p, e)
    ensures Unparsed(Patched(gone, p), 0, None) == Printed(WithoutGone(gone, e), Top)
  {
    hide CodeAt, Unparsed, Normal, Patched;
    var n, q := CodeLen(e, Top), Patched(gone, p);
    UnparsedCode(gone, p, 0, e, Top, None);
    assert q[n] == PatchedIns(gone, p[n]);
    UnparsedRet(q, n, LastS(e, None));
    assert Printed(WithoutGone(gone, e), Top) + [] == Printed(WithoutGone(gone, e), Top);
  }

  // ----- the printer as it runs -----

  /** Every opening parenthesis of compiled code is closed. */
  lemma {:induction false} AllBalanced(p: seq<Ins>, k: nat, e: Expr, outer: Outer, i: nat)
    requires CodeAt(p, k, e, outer) && k + CodeLen(e, outer) < |p|
    requires k <= i < k + CodeLen(e, outer) && p[i] == IParen(0)
    ensures Balanced(p, i + 1, 1)
    decreases e, 1
  {
    hide NegAfter, Balanced;
    match e
    case And(_, _) => AllBalancedBinary(p, k, e, outer, i);
    case Or(_, _) => AllBalancedBinary(p, k, e, outer, i);
    case Not(n) => AllBalanced(p, k, n, InNot, i);
    case _ => assert false;
  }

  lemma {:induction false} AllBalancedBinary(p: seq<Ins>, k: nat, e: Expr, outer: Outer, i: nat)
    requires (e.And? || e.Or?) && BinaryAt(p, k, e, outer) && k + CodeLen(e, outer) < |p|
    requires k <= i < k + CodeLen(e, outer) && p[i] == IParen(0)
    ensures Balanced(p, i + 1, 1)
    decreases e, 0
  {
    hide NegAfter, Balanced;
    if i == k && Parens(e, outer) {
      OpenNegated(p, k, e, outer);
    } else if i < JmpAt(k, e, outer) {
      AllBalanced(p, LeftAt(k, e, outer), e.left, Inner(e), i);
    } else {
      AllBalanced(p, JmpAt(k, e, outer) + 1, e.right, Inner(e), i);
    }
  }

  method ScanForNegation(bytecode: seq<Byte>, start: nat, ghost p: seq<Ins>, ghost k: nat) returns (neg: bool)
    requires Forward(p) && Encodes(bytecode, p) && 0 < k < |p| && start == INSN_LEN * k
    requires Balanced(p, k, 1)
    ensures neg == NegAfter(p, k, 1)
  {
    hide Encodes, Forward, OpOf, IntAt;
    var tpc := start;
    var pstack := 1;
    ghost var i := k;
    while true
      invariant k <= i < |p| && tpc == INSN_LEN * i && pstack >= 1 && Balanced(p, i, pstack)
      invariant NegAfter(p, k, 1) == NegAfter(p, i, pstack)
      decreases |p| - i
    {
      Decoded(bytecode, p, i);
      if OpOf(bytecode[tpc]) == Some(Paren) {
        pstack := if IntAt(bytecode, tpc + 1) != 0 then pstack - 1 else pstack + 1;
        if pstack == 0 {
          tpc := tpc + INSN_LEN;
          Decoded(bytecode, p, i + 1);
          neg := OpOf(bytecode[tpc]) == Some(NegR);
          return;
        }
      }
      tpc := tpc + INSN_LEN;
      i := i + 1;
    }
  }

  /** A closing parenthesis for every open one, with an instruction behind the last. */
  predicate Balanced(p: seq<Ins>, k: nat, depth: int)
    decreases |p| - k
  {
    k < |p| &&
    if p[k].IParen? then
      var d := if p[k].side != 0 then depth - 1 else depth + 1;
      if d == 0 then k + 1 < |p| else Balanced(p, k + 1, d)
    else Balanced(p, k + 1, depth)
  }

  /** Print the lock in the bytes: as much of it as there is room for. */
  method UnparseBoolexp(show: Show, bytecode: seq<Byte>, ghost p: seq<Ins>) returns (out: seq<Byte>)
    requires Forward(p) && Encodes(bytecode, p)
    requires forall k :: 0 <= k < |p| && p[k] == IParen(0) ==> Balanced(p, k + 1, 1)
    ensures out == Written(show, [], Unparsed(p, 0, None))
  {
    hide Encodes, OpOf, IntAt, NegAfter, StringFrom, Balanced, Shown, Unparsed, Forward, Written;
    ForwardStarts(p);
    var buf := new Writer();
    var pc := 0;
    var s := None;
    ghost var k := 0;
    while true
      invariant buf.Valid() && fresh(buf) && fresh(buf.buf)
      invariant k < |p| && pc == INSN_LEN * k
      invariant Written(show, [], Unparsed(p, 0, None)) == Written(show, buf.Out(), Unparsed(p, k, s))
      decreases |p| - k
    {
      Decoded(bytecode, p, k);
      if OpOf(bytecode[pc]) == Some(Ret) {
        UnparsedRet(p, k, s);
        WrittenNothing(show, buf.Out());
        return buf.Out();
      }
      UnparsedOne(p, k, s);
      WrittenAppend(show, buf.Out(), Shown(p, k, s), Unparsed(p, k + 1, NewS(p[k], s)));
      ForwardGoesOn(p, k);
      s := UnparseOne(show, buf, bytecode, pc, s, p, k);
      pc := pc + INSN_LEN;
      k := k + 1;
    }
  }

  lemma WrittenNothing(show: Show, out: seq<Byte>)
    requires |out| <= LIMIT
    ensures Written(show, out, []) == out
  {
  }

  /** Print one instruction. */
  method UnparseOne(show: Show, buf: Writer, bytecode: seq<Byte>, pc: nat, s: Option<Text>, ghost p: seq<Ins>,
                    ghost k: nat) returns (s': Option<Text>)
    requires Forward(p) && Encodes(bytecode, p) && k + 1 < |p| && p[k] != IRet && pc == INSN_LEN * k
    requires (p[k] == IParen(0) ==> Balanced(p, k + 1, 1)) && buf.Valid()
    modifies buf`len, buf.buf
    ensures buf.Valid() && s' == NewS(p[k], s) && buf.Out() == Written(show, old(buf.Out()), Shown(p, k, s))
  {
    hide Encodes, OpOf, IntAt, NegAfter, StringFrom, Balanced, Shown, NewS, Forward, Written;
    Decoded(bytecode, p, k);
    Decoded(bytecode, p, k + 1);
    ShownDecoded(bytecode, p, k, s);
    var op := OpOf(bytecode[pc]);
    var arg := IntAt(bytecode, pc + 1);
    s' := s;
    var toks := NotIf(OpOf(bytecode[pc + INSN_LEN]) == Some(NegR) && op != Some(Paren));
    if op == Some(Paren) && arg == 0 {
      var neg := ScanForNegation(bytecode, pc + INSN_LEN, p, k + 1);
      toks := toks + (NotIf(neg) + [OpenTok]);
    } else {
      if op == Some(LoadS) { s' := Some(StringFrom(bytecode, arg)); }
      toks := toks + ShowAtom(op, arg, s, if TextOp(op) then StringFrom(bytecode, arg) else []);
    }
    PutToks(show, buf, toks);
  }

  method PutToks(show: Show, buf: Writer, toks: seq<Tok>)
    requires buf.Valid()
    modifies buf`len, buf.buf
    ensures buf.Valid() && buf.Out() == Written(show, old(buf.Out()), toks)
  {
    hide Put;
    var i := 0;
    assert toks[0..] == toks;
    while i < |toks|
      invariant 0 <= i <= |toks| && buf.Valid()
      invariant Written(show, buf.Out(), toks[i..]) == Written(show, old(buf.Out()), toks)
    {
      assert toks[i..][1..] == toks[i + 1..];
      buf.PutTok(show, toks[i]);
      i := i + 1;
    }
  }

  /** What the instruction at `k` prints, from its bytes. */
  lemma ShownDecoded(bs: seq<Byte>, p: seq<Ins>, k: nat, s: Option<Text>)
    requires Encodes(bs, p) && k + 1 < |p| && p[k] != IRet
    ensures var op, arg := OpOf(bs[INSN_LEN * k]), IntAt(bs, INSN_LEN * k + 1);
            Shown(p, k, s) ==
            NotIf(OpOf(bs[INSN_LEN * (k + 1)]) == Some(NegR) && op != Some(Paren)) +
            if op == Some(Paren) && arg == 0 then NotIf(NegAfter(p, k + 1, 1)) + [OpenTok]
            else ShowAtom(op, arg, s, if TextOp(op) then StringFrom(bs, arg) else [])
    ensures var op, arg := OpOf(bs[INSN_LEN * k]), IntAt(bs, INSN_LEN * k + 1);
            NewS(p[k], s) == if op == Some(LoadS) then Some(StringFrom(bs, arg)) else s
  {
    hide Encodes, OpOf, IntAt, Means;
    Decoded(bs, p, k);
    Decoded(bs, p, k + 1);
    var next, op, arg := OpOf(bs[INSN_LEN * (k + 1)]), OpOf(bs[INSN_LEN * k]), IntAt(bs, INSN_LEN * k + 1);
    MeansNeg(bs, next, IntAt(bs, INSN_LEN * (k + 1) + 1), p[k + 1]);
    ShownMeant(bs, p, k, s, op, arg);
  }

  lemma MeansNeg(bs: seq<Byte>, op: Option<Op>, arg: int, i: Ins)
    requires Means(bs, op, arg, i)
    ensures op == Some(NegR) <==> i == INegR
  {
  }

  lemma ShownMeant(bs: seq<Byte>, p: seq<Ins>, k: nat, s: Option<Text>, op: Option<Op>, arg: int)
    requires k + 1 < |p| && Means(bs, op, arg, p[k]) && p[k] != IRet
    ensures Shown(p, k, s) ==
            NotIf(p[k + 1] == INegR && op != Some(Paren)) +
            if op == Some(Paren) && arg == 0 then NotIf(NegAfter(p, k + 1, 1)) + [OpenTok]
            else ShowAtom(op, arg, s, if TextOp(op) then StringFrom(bs, arg) else [])
    ensures NewS(p[k], s) == if op == Some(LoadS) then Some(StringFrom(bs, arg)) else s
  {
    hide NegAfter, StringFrom;
  }

  predicate TextOp(op: Option<Op>) { op.Some? && (op.value.TPair? || op.value.TFlag?) }

  /** The tokens of one instruction other than a string load or an opening parenthesis. */
  function ShowAtom(op: Option<Op>, arg: int, s: Option<Text>, text: Text): seq<Tok> {
    match op
    case Some(JmpT) => [OrTok]
    case Some(JmpF) => [AndTok]
    case Some(LoadR) => [TruthTok(arg != 0)]
    case Some(Paren) => if arg == 1 then [CloseTok] else []
    case Some(TRef(Const)) => [NameTok(arg)]
    case Some(TRef(Carry)) => [PlusTok, NameTok(arg)]
    case Some(TRef(Is)) => [EqTok, NameTok(arg)]
    case Some(TRef(Owner)) => [DollarTok, NameTok(arg)]
    case Some(TInd) => [AtTok, NameTok(arg), SlashTok(s.GetOr([]))]
    case Some(TPair(kind)) => [PairTok(kind, s.GetOr([]), text)]
    case Some(TFlag(kind)) => [FlagTok(kind, text)]
    case _ => []
  }
}

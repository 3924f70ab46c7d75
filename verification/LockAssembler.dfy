/**
 From parse trees to assembly: instructions with labels for jumps and numbered strings.
 `Linked` reads an assembly as the instruction sequence it stands for.
 */
module LockAssembler {
  import opened Basics
  import opened LockLanguage

  datatype Op =
    | JmpT | JmpF | TRef(ref: RefKind) | TInd | TPair(pair: PairKind) | TFlag(flag: FlagKind)
    | LoadS | LoadR | NegR | Paren | Label | Ret

  /** The argument is a number, a label, or the number of a string. */
  datatype Insn = Insn(op: Op, arg: int)

  /** The kind of node above, as far as parentheses depend on it. */
  datatype Outer = InAnd | InOr | InNot | Top

  datatype Asm = Asm(insns: seq<Insn>, strs: seq<Text>, next: nat)

  const EMPTY := Asm([], [], 0)

  // ----- appending -----

  predicate IsJmp(op: Op) { op == JmpT || op == JmpF }

  predicate TakesString(op: Op) { op.TPair? || op.TFlag? || op == LoadS }

  /** The first place of a string in the list; the length of the list when it is not there. */
  function IndexOf(strs: seq<Text>, s: Text): (i: nat)
    ensures i <= |strs| && (i < |strs| ==> strs[i] == s)
  {
    if strs == [] || strs[0] == s then 0 else 1 + IndexOf(strs[1..], s)
  }

  function Append(st: Asm, op: Op, arg: int): Asm {
    st.(insns := st.insns + [Insn(op, arg)])
  }

  function AppendString(st: Asm, op: Op, s: Text): Asm {
    var i := IndexOf(st.strs, s);
    Append(st.(strs := if i < |st.strs| then st.strs else st.strs + [s]), op, i)
  }

  function AppendIf(c: bool, st: Asm, op: Op, arg: int): Asm {
    if c then Append(st, op, arg) else st
  }

  /** What generating code for `e` makes of the assembly `st`. */
  function Gen(e: Expr, outer: Outer, st: Asm): Asm
    decreases e, 1
  {
    match e
    case And(_, _) => GenBinary(e, outer == InNot, InAnd, JmpF, st)
    case Or(_, _) => GenBinary(e, outer == InNot || outer == InAnd, InOr, JmpT, st)
    case Not(n) => Append(Gen(n, InNot, st), NegR, 0)
    case Bool(v) => Append(st, LoadR, if v then 1 else 0)
    case Ref(k, thing) => Append(st, TRef(k), thing)
    case Ind(thing, lock) => Append(AppendString(st, LoadS, lock), TInd, thing)
    case Pair(k, name, text) => AppendString(AppendString(st, LoadS, name), TPair(k), text)
    case Flag(k, text) => AppendString(st, TFlag(k), text)
  }

  /** Code for AND and OR: the first operand, a jump past the second, the second, the label. */
  function GenBinary(e: Expr, parens: bool, inner: Outer, jump: Op, st: Asm): Asm
    requires e.And? || e.Or?
    decreases e, 0
  {
    var s1 := AppendIf(parens, st.(next := st.next + 1), Paren, 0);
    var s2 := Append(Gen(e.left, inner, s1), jump, st.next);
    var s3 := AppendIf(parens, Gen(e.right, inner, s2), Paren, 1);
    Append(s3, Label, st.next)
  }

  function Generated(e: Expr): Asm {
    Append(Gen(e, Top, EMPTY), Ret, 0)
  }

  // ----- positions, labels and linking -----

  /** The instructions that are not labels. */
  function Real(code: seq<Insn>): nat {
    if code == [] then 0 else (if code[0].op == Label then 0 else 1) + Real(code[1..])
  }

  predicate HasLabel(code: seq<Insn>, l: int) {
    Insn(Label, l) in code
  }

  /** The number of instructions before a label; all of them when the label is missing. */
  function PosOfLabel(code: seq<Insn>, l: int): nat {
    if code == [] || code[0] == Insn(Label, l) then 0
    else (if code[0].op == Label then 0 else 1) + PosOfLabel(code[1..], l)
  }

  function StringAt(strs: seq<Text>, i: int): Text {
    if 0 <= i < |strs| then strs[i] else []
  }

  /** One instruction with its label and string looked up in the whole program. */
  function Resolve(i: Insn, code: seq<Insn>, strs: seq<Text>): Ins
    requires i.op != Label
  {
    match i.op
    case JmpT => IJmp(true, PosOfLabel(code, i.arg))
    case JmpF => IJmp(false, PosOfLabel(code, i.arg))
    case TRef(k) => IRef(k, i.arg)
    case TInd => IInd(i.arg)
    case TPair(k) => IPair(k, StringAt(strs, i.arg))
    case TFlag(k) => IFlag(k, StringAt(strs, i.arg))
    case LoadS => ILoadS(StringAt(strs, i.arg))
    case LoadR => ILoadR(i.arg)
    case NegR => INegR
    case Paren => IParen(i.arg)
    case Ret => IRet
  }

  function LinkPart(part: seq<Insn>, code: seq<Insn>, strs: seq<Text>): (p: seq<Ins>)
    ensures |p| == Real(part)
  {
    if part == [] then []
    else (if part[0].op == Label then [] else [Resolve(part[0], code, strs)]) + LinkPart(part[1..], code, strs)
  }

  /** The instruction sequence an assembly stands for. */
  function Linked(st: Asm): seq<Ins> {
    LinkPart(st.insns, st.insns, st.strs)
  }

  lemma {:induction false} RealAppend(a: seq<Insn>, b: seq<Insn>)
    ensures Real(a + b) == Real(a) + Real(b)
  {
    if a == [] {
      assert a + b == b;
    } else {
      assert (a + b)[1..] == a[1..] + b;
      RealAppend(a[1..], b);
    }
  }

  lemma {:induction false} LinkAppend(a: seq<Insn>, b: seq<Insn>, code: seq<Insn>, strs: seq<Text>)
    ensures LinkPart(a + b, code, strs) == LinkPart(a, code, strs) + LinkPart(b, code, strs)
  {
    if a == [] {
      assert a + b == b;
    } else {
      assert (a + b)[1..] == a[1..] + b;
      LinkAppend(a[1..], b, code, strs);
    }
  }

  lemma {:induction false} PosAppend(a: seq<Insn>, b: seq<Insn>, l: int)
    ensures PosOfLabel(a + b, l) == if HasLabel(a, l) then PosOfLabel(a, l) else Real(a) + PosOfLabel(b, l)
  {
    if a == [] {
      assert a + b == b;
    } else {
      assert (a + b)[1..] == a[1..] + b;
      PosAppend(a[1..], b, l);
    }
  }

  lemma RealOne(i: Insn)
    ensures Real([i]) == if i.op == Label then 0 else 1
  {
  }

  lemma SplitSeq(code: seq<Insn>, i: nat)
    requires i < |code|
    ensures code[..i + 1] == code[..i] + [code[i]]
    ensures code == code[..i + 1] + code[i + 1..]
  {
  }

  /** Counting a program up to, at and after one of its instructions. */
  lemma {:induction false} SplitAt(code: seq<Insn>, i: nat)
    requires i < |code|
    ensures Real(code[..i + 1]) == Real(code[..i]) + if code[i].op == Label then 0 else 1
    ensures Real(code) == Real(code[..i + 1]) + Real(code[i + 1..])
  {
    hide Real;
    SplitSeq(code, i);
    RealOne(code[i]);
    RealAppend(code[..i], [code[i]]);
    RealAppend(code[..i + 1], code[i + 1..]);
  }

  /** Instruction `i` of the assembly is instruction `Real(code[..i])` of the linked program. */
  lemma LinkAt(code: seq<Insn>, strs: seq<Text>, i: nat)
    requires i < |code| && code[i].op != Label
    ensures Real(code[..i]) < Real(code)
    ensures LinkPart(code, code, strs)[Real(code[..i])] == Resolve(code[i], code, strs)
  {
    hide Real;
    SplitAt(code, i);
    SplitSeq(code, i);
    LinkAppend(code[..i + 1], code[i + 1..], code, strs);
    LinkAppend(code[..i], [code[i]], code, strs);
  }

  // ----- generated code keeps what was there, and its labels are its own -----

  /** `s` is `st` with code, strings and labels added. */
  predicate Extends(st: Asm, s: Asm) {
    st.insns <= s.insns && st.strs <= s.strs && st.next <= s.next
  }

  lemma ExtendsTrans(a: Asm, b: Asm, c: Asm)
    requires Extends(a, b) && Extends(b, c)
    ensures Extends(a, c)
  {
  }

  lemma AppendExtends(st: Asm, op: Op, arg: int, s: Text)
    ensures Extends(st, st) && Extends(st, Append(st, op, arg)) && Extends(st, AppendString(st, op, s))
    ensures Extends(st, st.(next := st.next + 1))
  {
  }

  /** Generating code only appends. */
  lemma {:induction false} GenExtends(e: Expr, outer: Outer, st: Asm)
    ensures var s := Gen(e, outer, st);
            st.insns <= s.insns && st.strs <= s.strs && st.next <= s.next
    decreases e, 1
  {
    match e
    case And(_, _) => GenBinaryExtends(e, outer == InNot, InAnd, JmpF, st);
    case Or(_, _) => GenBinaryExtends(e, outer == InNot || outer == InAnd, InOr, JmpT, st);
    case Not(n) => GenExtends(n, InNot, st);
    case _ =>
  }

  lemma {:induction false} GenBinaryExtends(e: Expr, parens: bool, inner: Outer, jump: Op, st: Asm)
    requires e.And? || e.Or?
    ensures Extends(st, GenBinary(e, parens, inner, jump, st))
    decreases e, 0
  {
    hide Append, AppendString, Gen;
    var s0 := st.(next := st.next + 1);
    var s1 := AppendIf(parens, s0, Paren, 0);
    var g1 := Gen(e.left, inner, s1);
    var s2 := Append(g1, jump, st.next);
    var g2 := Gen(e.right, inner, s2);
    var s3 := AppendIf(parens, g2, Paren, 1);
    GenExtends(e.left, inner, s1);
    GenExtends(e.right, inner, s2);
    hide Extends;
    AppendExtends(st, Paren, 0, []);
    AppendExtends(s0, Paren, 0, []);
    AppendExtends(g1, jump, st.next, []);
    AppendExtends(g2, Paren, 1, []);
    AppendExtends(s3, Label, st.next, []);
    assert Extends(s1, g1) && Extends(s2, g2);
    ExtendsTrans(st, s0, s1);
    ExtendsTrans(st, s1, g1);
    ExtendsTrans(st, g1, s2);
    ExtendsTrans(st, s2, g2);
    ExtendsTrans(st, g2, s3);
    ExtendsTrans(st, s3, Append(s3, Label, st.next));
  }

  predicate NoRet(code: seq<Insn>) {
    forall i :: 0 <= i < |code| ==> code[i].op != Ret
  }

  lemma {:induction false} GenNoRet(e: Expr, outer: Outer, st: Asm)
    requires NoRet(st.insns)
    ensures NoRet(Gen(e, outer, st).insns)
    decreases e
  {
    hide IndexOf;
    match e
    case And(a, b) =>
      var s1 := AppendIf(outer == InNot, st.(next := st.next + 1), Paren, 0);
      GenNoRet(a, InAnd, s1);
      GenNoRet(b, InAnd, Append(Gen(a, InAnd, s1), JmpF, st.next));
    case Or(a, b) =>
      var s1 := AppendIf(outer == InNot || outer == InAnd, st.(next := st.next + 1), Paren, 0);
      GenNoRet(a, InOr, s1);
      GenNoRet(b, InOr, Append(Gen(a, InOr, s1), JmpT, st.next));
    case Not(n) => GenNoRet(n, InNot, st);
    case _ =>
  }

  /** All labels lie below the next label id and no label occurs twice. */
  predicate Tidy(st: Asm) {
    (forall i :: 0 <= i < |st.insns| && st.insns[i].op == Label ==> 0 <= st.insns[i].arg < st.next) &&
    LabelsUnique(st.insns)
  }

  predicate LabelsUnique(code: seq<Insn>) {
    forall i, j :: 0 <= i < j < |code| && code[i].op == Label && code[j].op == Label ==> code[i].arg != code[j].arg
  }

  lemma HasLabelAppend(st: Asm, op: Op, arg: int, l: int)
    ensures HasLabel(Append(st, op, arg).insns, l) <==> HasLabel(st.insns, l) || (op == Label && arg == l)
  {
  }

  lemma TidyAppend(st: Asm, op: Op, arg: int)
    requires Tidy(st) && (op == Label ==> 0 <= arg < st.next && !HasLabel(st.insns, arg))
    ensures Tidy(Append(st, op, arg))
  {
  }

  /** A label that has been handed out but not placed is not placed by generating code. */
  lemma {:induction false} GenFresh(e: Expr, outer: Outer, st: Asm, l: nat)
    requires l < st.next && !HasLabel(st.insns, l)
    ensures !HasLabel(Gen(e, outer, st).insns, l)
    decreases e
  {
    match e
    case And(a, b) =>
      var s1 := AppendIf(outer == InNot, st.(next := st.next + 1), Paren, 0);
      GenFresh(a, InAnd, s1, l);
      GenExtends(a, InAnd, s1);
      GenFresh(b, InAnd, Append(Gen(a, InAnd, s1), JmpF, st.next), l);
    case Or(a, b) =>
      var s1 := AppendIf(outer == InNot || outer == InAnd, st.(next := st.next + 1), Paren, 0);
      GenFresh(a, InOr, s1, l);
      GenExtends(a, InOr, s1);
      GenFresh(b, InOr, Append(Gen(a, InOr, s1), JmpT, st.next), l);
    case Not(n) => GenFresh(n, InNot, st, l);
    case _ =>
  }

  lemma {:induction false} GenTidy(e: Expr, outer: Outer, st: Asm)
    requires Tidy(st)
    ensures Tidy(Gen(e, outer, st))
    decreases e, 1
  {
    hide Real, IndexOf, PosOfLabel;
    match e
    case And(_, _) => GenTidyBinary(e, outer == InNot, InAnd, JmpF, st);
    case Or(_, _) => GenTidyBinary(e, outer == InNot || outer == InAnd, InOr, JmpT, st);
    case Not(n) => GenTidy(n, InNot, st);
    case _ =>
  }

  lemma {:induction false} GenTidyBinary(e: Expr, parens: bool, inner: Outer, jump: Op, st: Asm)
    requires (e.And? || e.Or?) && Tidy(st) && IsJmp(jump)
    ensures Tidy(GenBinary(e, parens, inner, jump, st))
    decreases e, 0
  {
    var l := st.next;
    var s1 := AppendIf(parens, st.(next := l + 1), Paren, 0);
    assert Tidy(s1) && !HasLabel(s1.insns, l);
    GenTidy(e.left, inner, s1);
    GenFresh(e.left, inner, s1, l);
    GenExtends(e.left, inner, s1);
    var s2 := Append(Gen(e.left, inner, s1), jump, l);
    TidyAppend(Gen(e.left, inner, s1), jump, l);
    GenTidy(e.right, inner, s2);
    GenFresh(e.right, inner, s2, l);
    GenExtends(e.right, inner, s2);
    var s3 := AppendIf(parens, Gen(e.right, inner, s2), Paren, 1);
    assert Tidy(s3) && !HasLabel(s3.insns, l);
    TidyAppend(s3, Label, l);
  }
}

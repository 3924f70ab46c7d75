/**
 The compiler passes as they run: an assembler whose lists grow and are relinked in
 place, and the emission of the bytes.
 */
module LockCompiler {
  import opened Basics
  import opened MachineInts
  import opened LockLanguage
  import opened LockTree
  import opened LockAssembler
  import opened LockGeneration
  import opened LockThreading
  import opened LockBytecode

  /** Every label a jump uses is there. */
  predicate LabelsPlaced(code: seq<Insn>) {
    forall i :: 0 <= i < |code| && IsJmp(code[i].op) ==> HasLabel(code, code[i].arg)
  }

  /** What the passes behind the generator rely on. */
  predicate Complete(st: Asm) {
    Tidy(st) && LabelsPlaced(st.insns) && Forward(Linked(st)) &&
    |st.insns| > 0 && st.insns[|st.insns| - 1].op == Ret
  }

  /** A label lies before the position it marks. */
  lemma LabelIndex(code: seq<Insn>, l: int, i: nat)
    requires i < |code| && code[i] == Insn(Label, l) && LabelsUnique(code)
    ensures PosOfLabel(code, l) == Real(code[..i])
  {
    forall j | 0 <= j < i ensures code[..i][j] != Insn(Label, l) {}
    PosAppend(code[..i], code[i..], l);
    assert code == code[..i] + code[i..] && code[i..][0] == Insn(Label, l);
  }

  // ----- the two ways of threading a jump -----

  function Retargeted(st: Asm, n: nat, l: int): Asm
    requires n < |st.insns|
  {
    st.(insns := st.insns[n := Insn(st.insns[n].op, l)])
  }

  function WithLabelAt(st: Asm, q: nat): Asm
    requires q <= |st.insns|
  {
    Asm(st.insns[..q] + [Insn(Label, st.next)] + st.insns[q..], st.strs, st.next + 1)
  }

  lemma RetargetKeeps(st: Asm, n: nat, l: int)
    requires n < |st.insns| && IsJmp(st.insns[n].op) && Tidy(st) && LabelsPlaced(st.insns) && HasLabel(st.insns, l)
    ensures Tidy(Retargeted(st, n, l)) && LabelsPlaced(Retargeted(st, n, l).insns)
  {
    var code' := Retargeted(st, n, l).insns;
    forall i | 0 <= i < |code'| && IsJmp(code'[i].op) ensures HasLabel(code', code'[i].arg) {
      ReplaceCounts(st.insns, n, code'[n], code'[i].arg);
    }
  }

  lemma WithLabelKeeps(st: Asm, q: nat)
    requires q <= |st.insns| && Tidy(st) && LabelsPlaced(st.insns)
    ensures Tidy(WithLabelAt(st, q)) && LabelsPlaced(WithLabelAt(st, q).insns)
    ensures HasLabel(WithLabelAt(st, q).insns, st.next)
    ensures Linked(WithLabelAt(st, q)) == Linked(st)
    ensures PosOfLabel(WithLabelAt(st, q).insns, st.next) == Real(st.insns[..q])
  {
    hide LinkPart, Real, PosOfLabel;
    var code, code' := st.insns, WithLabelAt(st, q).insns;
    assert code'[q] == Insn(Label, st.next);
    forall i | 0 <= i < |code| ensures code[i] in code' {
      assert code'[if i < q then i else i + 1] == code[i];
    }
    forall j | 0 <= j < |code| && IsJmp(code[j].op) ensures code[j].arg != st.next {
      assert HasLabel(code, code[j].arg);
    }
    InsertLabelLinks(code, st.strs, q, st.next);
  }

  /** The jump at `n` and the jump at `t` that it lands on. */
  predicate Daisy(st: Asm, n: nat, t: nat) {
    n < |st.insns| && t < |st.insns| && IsJmp(st.insns[n].op) && IsJmp(st.insns[t].op) &&
    Real(st.insns[..t]) == PosOfLabel(st.insns, st.insns[n].arg)
  }

  lemma DaisyLinked(st: Asm, n: nat, t: nat)
    requires Daisy(st, n, t) && Forward(Linked(st))
    ensures var k := Real(st.insns[..n]); var p := Linked(st);
            JumpToJump(p, k) && p[k].on == (st.insns[n].op == JmpT) && p[k].target == Real(st.insns[..t]) &&
            p[p[k].target] == IJmp(st.insns[t].op == JmpT, PosOfLabel(st.insns, st.insns[t].arg)) && n < t
  {
    hide LinkPart, Real, PosOfLabel, Forward;
    LinkAt(st.insns, st.strs, n);
    LinkAt(st.insns, st.strs, t);
    assert Forward(Linked(st)) ==> Real(st.insns[..n]) < Real(st.insns[..t])
        by { ForwardJump(Linked(st), Real(st.insns[..n])); }
    if t <= n {
      assert st.insns[..t] <= st.insns[..n];
      RealGrows(st.insns[..t], st.insns[..n]);
    }
  }

  lemma ForwardJump(p: seq<Ins>, k: nat)
    requires Forward(p) && k < |p| && p[k].IJmp?
    ensures k < p[k].target < |p|
  {
  }

  /** Both jumps on the same condition: take over the second jump's label. */
  lemma ThreadSame(st: Asm, n: nat, t: nat)
    requires Complete(st) && Daisy(st, n, t) && st.insns[n].op == st.insns[t].op
    ensures var st' := Retargeted(st, n, st.insns[t].arg); var k := Real(st.insns[..n]);
            Complete(st') && JumpToJump(Linked(st), k) && Linked(st') == ThreadOne(Linked(st), k)
  {
    hide LinkPart, Real, PosOfLabel, Forward;
    DaisyLinked(st, n, t);
    RetargetKeeps(st, n, st.insns[t].arg);
    RetargetLinks(st.insns, st.strs, n, st.insns[t].arg);
    ThreadOneFacts(Linked(st), Real(st.insns[..n]));
  }

  /** Opposite conditions: jump to a new label right behind the second jump. */
  lemma ThreadOpposite(st: Asm, n: nat, t: nat)
    requires Complete(st) && Daisy(st, n, t) && st.insns[n].op != st.insns[t].op
    ensures var st' := Retargeted(WithLabelAt(st, t + 1), n, st.next); var k := Real(st.insns[..n]);
            Complete(st') && JumpToJump(Linked(st), k) && Linked(st') == ThreadOne(Linked(st), k)
  {
    hide LinkPart, Real, PosOfLabel, Forward, Tidy, LabelsPlaced, SameRuns, SameShape, Threaded;
    DaisyLinked(st, n, t);
    WithLabelKeeps(st, t + 1);
    var s1 := WithLabelAt(st, t + 1);
    assert s1.insns[n] == st.insns[n] && s1.insns[..n] == st.insns[..n];
    RetargetKeeps(s1, n, st.next);
    RetargetLinks(s1.insns, s1.strs, n, st.next);
    SplitAt(st.insns, t);
    ThreadOneFacts(Linked(st), Real(st.insns[..n]));
  }

  /** The labels right at `n`. */
  function LabelRun(code: seq<Insn>, n: nat): nat
    decreases |code| - n
  {
    if n < |code| && code[n].op == Label then 1 + LabelRun(code, n + 1) else 0
  }

  lemma RetargetedDecreases(st: Asm, st': Asm, n: nat)
    requires n < |st.insns| && n < |st'.insns| && IsJmp(st.insns[n].op) && IsJmp(st'.insns[n].op)
    requires st.insns[..n] == st'.insns[..n] && JumpToJump(Linked(st), Real(st.insns[..n])) && Forward(Linked(st))
    requires Linked(st') == ThreadOne(Linked(st), Real(st.insns[..n]))
    ensures PosOfLabel(st.insns, st.insns[n].arg) < PosOfLabel(st'.insns, st'.insns[n].arg) < |Linked(st)|
  {
    hide LinkPart, Real, PosOfLabel, Forward;
    var k := Real(st.insns[..n]);
    LinkAt(st.insns, st.strs, n);
    LinkAt(st'.insns, st'.strs, n);
    ThreadOneFacts(Linked(st), k);
    ForwardJump(Linked(st'), k);
  }

  /** Nothing to thread at `n`: the finished part grows by one. */
  lemma AdvanceThreaded(st: Asm, n: nat, target: int)
    requires n < |st.insns| && Forward(Linked(st)) && Threaded(Linked(st), Real(st.insns[..n])) &&
        LabelsPlaced(st.insns)
    requires IsJmp(st.insns[n].op) ==>
      0 <= target < |st.insns| && st.insns[target].op != Label && !IsJmp(st.insns[target].op) &&
      Real(st.insns[..target]) == PosOfLabel(st.insns, st.insns[n].arg)
    ensures Threaded(Linked(st), Real(st.insns[..n + 1]))
    ensures Real(st.insns[..n + 1]) == Real(st.insns[..n]) + if st.insns[n].op == Label then 0 else 1
    ensures Real(st.insns[..n + 1]) <= |Linked(st)|
    ensures st.insns[n].op == Label ==> LabelRun(st.insns, n + 1) < LabelRun(st.insns, n)
  {
    hide LinkPart, Real, PosOfLabel, Forward;
    SplitAt(st.insns, n);
    if st.insns[n].op != Label {
      LinkAt(st.insns, st.strs, n);
    }
    if IsJmp(st.insns[n].op) {
      LinkAt(st.insns, st.strs, target);
    }
  }

  /** Threading touches no string number and no object number. */
  lemma ThreadedArgs(st: Asm, n: nat, l: int, q: nat)
    requires n < q <= |st.insns| && IsJmp(st.insns[n].op)
    ensures ArgsOk(st) ==> ArgsOk(Retargeted(st, n, l)) && ArgsOk(Retargeted(WithLabelAt(st, q), n, st.next))
  {
    hide IsInt;
  }

  lemma ThreadingStarts(code: seq<Insn>, p: seq<Ins>)
    ensures Real(code[..0]) == 0 && Threaded(p, 0) && SameRuns(p, p) && SameShape(p, p)
  {
  }

  lemma ThreadStepKeeps(p: seq<Ins>, k: nat, p0: seq<Ins>)
    requires JumpToJump(p, k) && Forward(p) && SameRuns(p, p0) && SameShape(p, p0)
    ensures SameRuns(ThreadOne(p, k), p0) && SameShape(ThreadOne(p, k), p0)
    ensures Threaded(p, k) ==> Threaded(ThreadOne(p, k), k)
  {
    hide Run;
    ThreadOneFacts(p, k);
  }

  lemma SameLength(p: seq<Ins>, q: seq<Ins>)
    requires SameShape(p, q)
    ensures |p| == |q|
  {
  }

  lemma LinkedLength(st: Asm)
    ensures |Linked(st)| == Real(st.insns)
  {
  }

  // ----- emission helpers -----

  /** The same labels in the same places; other arguments may differ. */
  predicate SameLabels(a: seq<Insn>, b: seq<Insn>) {
    |a| == |b| && forall i :: 0 <= i < |a| ==> a[i].op == b[i].op && (a[i].op == Label ==> a[i].arg == b[i].arg)
  }

  lemma EmptyCode(code: seq<Insn>, strs: seq<Text>)
    ensures Real(code[..0]) == 0 && CodeBytes(code[..0], code, strs) == [] && SameLabels(code, code)
  {
  }

  lemma {:induction false} SameLabelsPos(a: seq<Insn>, b: seq<Insn>, l: int)
    requires SameLabels(a, b)
    ensures PosOfLabel(a, l) == PosOfLabel(b, l)
  {
    if a != [] { SameLabelsPos(a[1..], b[1..], l); }
  }

  lemma NextInsnBytes(code: seq<Insn>, strs: seq<Text>, n: nat)
    requires n < |code|
    ensures Real(code[..n + 1]) == Real(code[..n]) + (if code[n].op == Label then 0 else 1) <= Real(code)
    ensures CodeBytes(code[..n + 1], code, strs) == CodeBytes(code[..n], code, strs) +
            if code[n].op == Label then [] else InsnBytes(code[n], code, strs)
  {
    SplitAt(code, n);
    SplitSeq(code, n);
    CodeBytesAppend(code[..n], [code[n]], code, strs);
    assert [code[n]][1..] == [];
  }

  method CopyBytes(dst: array<Byte>, at: nat, src: seq<Byte>)
    requires at + |src| <= dst.Length
    modifies dst
    ensures dst[..at + |src|] == old(dst[..at]) + src
  {
    var i := 0;
    while i < |src|
      invariant i <= |src|
      invariant dst[..at] == old(dst[..at]) && dst[at..at + i] == src[..i]
    {
      dst[at + i] := src[i];
      i := i + 1;
    }
  }

  class Assembler {
    var insns: seq<Insn>
    var strs: seq<Text>
    var next: nat

    function State(): Asm
      reads this
    {
      Asm(insns, strs, next)
    }

    constructor ()
      ensures State() == EMPTY
    {
      insns, strs, next := [], [], 0;
    }

    method GenLabelId() returns (l: nat)
      modifies this
      ensures l == old(next) && State() == old(State()).(next := old(next) + 1)
    {
      l := next;
      next := next + 1;
    }

    method AppendInsn(op: Op, arg: int)
      modifies this
      ensures State() == Append(old(State()), op, arg)
    {
      insns := insns + [Insn(op, arg)];
    }

    method AppendParen(wanted: bool, side: int)
      modifies this
      ensures State() == AppendIf(wanted, old(State()), Paren, side)
    {
      if wanted { AppendInsn(Paren, side); }
    }

    /** Append an instruction with a string, sharing the copy of a string seen before. */
    method AppendStringInsn(op: Op, s: Text)
      modifies this
      ensures State() == AppendString(old(State()), op, s)
    {
      var count := 0;
      while count < |strs| && strs[count] != s
        invariant count <= |strs|
        invariant IndexOf(strs, s) == count + IndexOf(strs[count..], s)
      {
        assert strs[count..][1..] == strs[count + 1..];
        count := count + 1;
      }
      if count == |strs| {
        assert strs[count..] == [];
        strs := strs + [s];
      } else {
        assert strs[count..][0] == s;
      }
      AppendInsn(op, count);
    }

    /** Walk the parse tree and append its code. */
    method Generate(b: Node, outer: Outer)
      requires b.Valid()
      modifies this
      ensures State() == Gen(b.Tree(), outer, old(State()))
      decreases b.Tree(), 1
    {
      hide IndexOf;
      match b.kind
      case KAnd => GenerateBinary(b, outer == InNot, InAnd, JmpF);
      case KOr => GenerateBinary(b, outer == InNot || outer == InAnd, InOr, JmpT);
      case KInd =>
        AppendStringInsn(LoadS, b.name);
        AppendInsn(TInd, b.thing);
      case KRef(k) =>
        AppendInsn(TRef(k), b.thing);
      case KNot =>
        Generate(b.a, InNot);
        AppendInsn(NegR, 0);
      case KBool =>
        AppendInsn(LoadR, b.thing);
      case KPair(k) =>
        AppendStringInsn(LoadS, b.name);
        AppendStringInsn(TPair(k), b.text);
      case KFlag(k) =>
        AppendStringInsn(TFlag(k), b.text);
    }

    /** Code for AND and OR nodes. */
    method GenerateBinary(b: Node, parens: bool, inner: Outer, jump: Op)
      requires b.Valid()
      requires b.kind == KAnd || b.kind == KOr
      modifies this
      ensures State() == GenBinary(b.Tree(), parens, inner, jump, old(State()))
      decreases b.Tree(), 0
    {
      hide IndexOf, Gen, GenBinary, Append, AppendIf, Node.Valid, Node.Tree;
      ghost var st, e := State(), b.Tree();
      b.Operands();
      ghost var g := StagesOf(e, parens, inner, jump, st);
      var lbl := GenLabelId();
      AppendParen(parens, 0);
      assert State() == g.s1;
      Generate(b.a, inner);
      assert State() == g.a1;
      AppendInsn(jump, lbl);
      assert State() == g.s2;
      Generate(b.b, inner);
      assert State() == g.b2;
      AppendParen(parens, 1);
      assert State() == g.s3;
      AppendInsn(Label, lbl);
      assert State() == g.end;
    }

    /** The first real instruction after a label; -1 when there is no such label. */
    method InsnAfterLabel(l: int) returns (t: int)
      requires |insns| > 0 && insns[|insns| - 1].op == Ret && LabelsUnique(insns)
      ensures t == -1 <==> !HasLabel(insns, l)
      ensures t != -1 ==> 0 <= t < |insns| && insns[t].op != Label && Real(insns[..t]) == PosOfLabel(insns, l)
    {
      var n := 0;
      while n < |insns|
        invariant n <= |insns|
        invariant !HasLabel(insns[..n], l)
      {
        if insns[n] == Insn(Label, l) {
          LabelIndex(insns, l, n);
          SplitAt(insns, n);
          t := n + 1;
          while insns[t].op == Label
            invariant n < t < |insns|
            invariant Real(insns[..t]) == PosOfLabel(insns, l)
            decreases |insns| - t
          {
            SplitAt(insns, t);
            t := t + 1;
          }
          return;
        }
        SplitSeq(insns, n);
        n := n + 1;
      }
      assert insns[..n] == insns;
      t := -1;
    }

    /** The number of instructions before a label. */
    method CountToLabel(l: int) returns (offset: nat)
      ensures offset == PosOfLabel(insns, l)
    {
      offset := 0;
      var n := 0;
      while n < |insns|
        invariant n <= |insns|
        invariant PosOfLabel(insns, l) == offset + PosOfLabel(insns[n..], l)
      {
        assert insns[n..][0] == insns[n] && insns[n..][1..] == insns[n + 1..];
        if insns[n] == Insn(Label, l) { return; }
        if insns[n].op != Label { offset := offset + 1; }
        n := n + 1;
      }
    }

    /** Send every jump that lands on a jump further on, until none does. */
    method OptimizeAsm()
      requires Complete(State())
      modifies this
      ensures Complete(State()) && strs == old(strs)
      ensures SameRuns(Linked(State()), old(Linked(State())))
      ensures SameShape(Linked(State()), old(Linked(State())))
      ensures Threaded(Linked(State()), |Linked(State())|)
      ensures old(ArgsOk(State())) ==> ArgsOk(State())
    {
      hide LinkPart, Real, PosOfLabel, Forward, Run, Tidy, LabelsPlaced, SameRuns, SameShape, Threaded, ThreadOne,
           ArgsOk;
      ghost var p0 := Linked(State());
      var n := 0;
      ThreadingStarts(insns, p0);
      while n < |insns|
        invariant n <= |insns| && Complete(State()) && strs == old(strs)
        invariant SameRuns(Linked(State()), p0) && SameShape(Linked(State()), p0)
        invariant Threaded(Linked(State()), Real(insns[..n]))
        invariant old(ArgsOk(State())) ==> ArgsOk(State())
        decreases |p0| - Real(insns[..n]), LabelRun(insns, n),
                  if n < |insns| && IsJmp(insns[n].op) then |p0| - PosOfLabel(insns, insns[n].arg) else 0
      {
        ghost var st := State();
        var target := FindTarget(n);
        if target != -1 && IsJmp(insns[target].op) {
          ThreadJump(n, target);
          ThreadStepKeeps(Linked(st), Real(insns[..n]), p0);
        } else {
          AdvanceThreaded(st, n, target);
          n := n + 1;
        }
        SameLength(Linked(State()), p0);
      }
      assert insns[..n] == insns;
      LinkedLength(State());
    }

    /** Where the jump at `n` lands; -1 when there is no jump at `n`. */
    method FindTarget(n: nat) returns (t: int)
      requires n < |insns| && Complete(State())
      ensures t != -1 <==> IsJmp(insns[n].op)
      ensures t != -1 ==> 0 <= t < |insns| && insns[t].op != Label &&
                          Real(insns[..t]) == PosOfLabel(insns, insns[n].arg)
    {
      t := -1;
      if IsJmp(insns[n].op) {
        t := InsnAfterLabel(insns[n].arg);
      }
    }

    /** Send the jump at `n` past the jump at `target`. */
    method ThreadJump(n: nat, target: nat)
      requires Complete(State()) && Daisy(State(), n, target)
      modifies this
      ensures Complete(State()) && strs == old(strs) && n < |insns| && insns[..n] == old(insns[..n])
      ensures IsJmp(insns[n].op)
      ensures old(ArgsOk(State())) ==> ArgsOk(State())
      ensures JumpToJump(old(Linked(State())), Real(insns[..n]))
      ensures Linked(State()) == ThreadOne(old(Linked(State())), Real(insns[..n]))
      ensures old(PosOfLabel(insns, insns[n].arg)) < PosOfLabel(insns, insns[n].arg) < |Linked(State())|
    {
      hide LinkPart, Real, PosOfLabel, Forward, Tidy, LabelsPlaced, ArgsOk;
      ghost var st := State();
      DaisyLinked(st, n, target);
      ThreadedArgs(st, n, insns[target].arg, target + 1);
      if insns[target].op == insns[n].op {
        ThreadSame(st, n, target);
        insns := insns[n := Insn(insns[n].op, insns[target].arg)];
      } else {
        ThreadOpposite(st, n, target);
        var l := GenLabelId();
        insns := insns[n := Insn(insns[n].op, l)];
        insns := insns[..target + 1] + [Insn(Label, l)] + insns[target + 1..];
        assert State() == Retargeted(WithLabelAt(st, target + 1), n, l);
      }
      assert insns[..n] == st.insns[..n];
      RetargetedDecreases(st, State(), n);
    }

    /** The bytes before the `c`-th string. */
    method CountToString(c: nat) returns (offset: nat)
      requires c < |strs|
      ensures offset == OffsetToString(strs, c)
    {
      offset := 0;
      var n := 0;
      while n < c
        invariant n <= c
        invariant OffsetToString(strs, c) == offset + OffsetToString(strs[n..], c - n)
      {
        assert strs[n..][1..] == strs[n + 1..];
        offset := offset + |strs[n]| + 1;
        n := n + 1;
      }
    }

    /** Write out the code, with jumps and strings resolved, and behind it the strings. */
    method EmitBytecode() returns (bytecode: array<Byte>)
      requires Emittable(State())
      modifies this
      ensures fresh(bytecode) && bytecode[..] == Emitted(old(State()))
    {
      hide StringBytes, CodeBytes, Real, PosOfLabel, OffsetToString, InsnBytes, SameLabels;
      ghost var code := insns;
      EmptyCode(code, strs);
      var count := CountInsns();
      var slen := CountStringBytes();
      bytecode := new Byte[count * INSN_LEN + slen];
      var pc := 0;
      var n := 0;
      assert code[..0] == [];
      while n < |insns|
        invariant n <= |insns| == |code| && pc == INSN_LEN * Real(code[..n]) <= count * INSN_LEN
        invariant SameLabels(insns, code) && insns[n..] == code[n..] && strs == old(strs)
        invariant fresh(bytecode) && bytecode.Length == count * INSN_LEN + slen
        invariant bytecode[..pc] == CodeBytes(code[..n], code, strs)
      {
        NextInsnBytes(code, strs, n);
        assert insns[n] == insns[n..][0] == code[n];
        if insns[n].op != Label {
          EmitInsn(bytecode, pc, n, count, code);
          pc := pc + INSN_LEN;
        }
        n := n + 1;
      }
      assert code[..n] == code;
      EmitStrings(bytecode, pc);
    }

    /** Put the final argument of one instruction in place and write its five bytes. */
    method EmitInsn(bytecode: array<Byte>, pc: nat, n: nat, count: nat, ghost code: seq<Insn>)
      requires n < |insns| == |code| && insns[n..] == code[n..] && insns[n].op != Label
      requires SameLabels(insns, code) && count == Real(code) && ArgOk(insns[n], |strs|)
      requires pc + INSN_LEN <= bytecode.Length
      modifies this, bytecode
      ensures strs == old(strs) && |insns| == |code| && SameLabels(insns, code) && insns[n + 1..] == code[n + 1..]
      ensures bytecode[..pc + INSN_LEN] == old(bytecode[..pc]) + InsnBytes(code[n], code, strs)
    {
      hide StringBytes, CodeBytes, Real, PosOfLabel, OffsetToString, EncodeInt;
      var i := insns[n];
      assert i == insns[n..][0] == code[n];
      var arg := ResolveArg(i, count, code);
      insns := insns[n := Insn(i.op, arg)];
      assert insns[n + 1..] == code[n..][1..];
      CopyBytes(bytecode, pc, [OpCode(i.op)] + EncodeInt(arg));
    }

    /** The argument that goes into the bytes; `code` is the program before arguments were replaced. */
    method ResolveArg(i: Insn, count: nat, ghost code: seq<Insn>) returns (arg: int)
      requires SameLabels(insns, code) && count == Real(code) && ArgOk(i, |strs|)
      ensures arg == FinalArg(i, code, strs)
    {
      arg := i.arg;
      if IsJmp(i.op) {
        var pos := CountToLabel(i.arg);
        SameLabelsPos(insns, code, i.arg);
        arg := pos * INSN_LEN;
      } else if TakesString(i.op) {
        var offset := CountToString(i.arg);
        arg := count * INSN_LEN + offset;
      }
    }

    method CountInsns() returns (count: nat)
      ensures count == Real(insns)
    {
      count := 0;
      var n := 0;
      while n < |insns|
        invariant n <= |insns| && Real(insns) == count + Real(insns[n..])
      {
        assert insns[n..][0] == insns[n] && insns[n..][1..] == insns[n + 1..];
        if insns[n].op != Label { count := count + 1; }
        n := n + 1;
      }
    }

    method CountStringBytes() returns (len: nat)
      ensures len == |StringBytes(strs)|
    {
      len := 0;
      var n := 0;
      while n < |strs|
        invariant n <= |strs| && |StringBytes(strs)| == len + |StringBytes(strs[n..])|
      {
        assert strs[n..][0] == strs[n] && strs[n..][1..] == strs[n + 1..];
        len := len + |strs[n]| + 1;
        n := n + 1;
      }
    }

    /** Fill the bytes from `start` on with the string section. */
    method EmitStrings(bytecode: array<Byte>, start: nat)
      requires start + |StringBytes(strs)| == bytecode.Length
      modifies bytecode
      ensures bytecode[..] == old(bytecode[..start]) + StringBytes(strs)
    {
      var pc := start;
      var n := 0;
      while n < |strs|
        invariant n <= |strs| && start <= pc && pc + |StringBytes(strs[n..])| == bytecode.Length
        invariant bytecode[..pc] + StringBytes(strs[n..]) == old(bytecode[..start]) + StringBytes(strs)
      {
        var s: seq<Byte> := strs[n] + [0];
        assert strs[n..][0] == strs[n] && strs[n..][1..] == strs[n + 1..];
        ghost var before := bytecode[..pc];
        CopyBytes(bytecode, pc, s);
        assert bytecode[..pc + |s|] == before + s;
        assert before + s + StringBytes(strs[n + 1..]) == before + StringBytes(strs[n..]);
        pc := pc + |s|;
        n := n + 1;
      }
      assert bytecode[..pc] == bytecode[..];
    }
  }
}

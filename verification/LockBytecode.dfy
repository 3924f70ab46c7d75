/**
 The byte form of a compiled lock: five bytes an instruction, jumps by byte offset,
 and behind the code the strings, each closed by a zero.
 */
module LockBytecode {
  import opened Basics
  import opened MachineInts
  import opened LockLanguage
  import opened LockAssembler
  import opened LockGeneration

  const INSN_LEN := 5

  function RefCode(k: RefKind): Byte {
    match k case Const => 2 case Carry => 5 case Is => 6 case Owner => 7
  }

  function PairCode(k: PairKind): Byte {
    match k case Atr => 3 case Eval => 8
  }

  function FlagCode(k: FlagKind): Byte {
    match k
    case FlagLock => 9 case TypeLock => 10 case NameLock => 11 case PowerLock => 12
    case ChannelLock => 13 case IpLock => 14 case HostnameLock => 15 case DbrefListLock => 16
  }

  function OpCode(op: Op): Byte {
    match op
    case JmpT => 0 case JmpF => 1 case TRef(k) => RefCode(k) case TInd => 4
    case TPair(k) => PairCode(k) case TFlag(k) => FlagCode(k)
    case LoadS => 17 case LoadR => 18 case NegR => 19 case Paren => 20 case Label => 21 case Ret => 22
  }

  function OpOf(c: Byte): Option<Op> {
    match c
    case 0 => Some(JmpT) case 1 => Some(JmpF) case 2 => Some(TRef(Const)) case 3 => Some(TPair(Atr))
    case 4 => Some(TInd) case 5 => Some(TRef(Carry)) case 6 => Some(TRef(Is)) case 7 => Some(TRef(Owner))
    case 8 => Some(TPair(Eval)) case 9 => Some(TFlag(FlagLock)) case 10 => Some(TFlag(TypeLock))
    case 11 => Some(TFlag(NameLock)) case 12 => Some(TFlag(PowerLock)) case 13 => Some(TFlag(ChannelLock))
    case 14 => Some(TFlag(IpLock)) case 15 => Some(TFlag(HostnameLock)) case 16 => Some(TFlag(DbrefListLock))
    case 17 => Some(LoadS) case 18 => Some(LoadR) case 19 => Some(NegR) case 20 => Some(Paren)
    case 21 => Some(Label) case 22 => Some(Ret)
    case _ => None
  }

  lemma OpCodeRoundTrip(op: Op)
    ensures OpOf(OpCode(op)) == Some(op)
  {
  }

  // ----- reading bytes -----

  function ByteAt(bs: seq<Byte>, i: int): Byte {
    if 0 <= i < |bs| then bs[i] else 0
  }

  function IntAt(bs: seq<Byte>, i: int): int {
    DecodeInt(ByteAt(bs, i), ByteAt(bs, i + 1), ByteAt(bs, i + 2), ByteAt(bs, i + 3))
  }

  /** The C string at an offset. */
  function StringFrom(bs: seq<Byte>, i: int): Text
    decreases |bs| - i
  {
    if i < 0 || i >= |bs| || bs[i] == 0 then []
    else
      var t: seq<Byte> := [bs[i]] + StringFrom(bs, i + 1);
      t
  }

  /** The instruction the bytes at `pc` stand for, if they stand for one. */
  function InsAt(bs: seq<Byte>, pc: int): Option<Ins> {
    var arg := IntAt(bs, pc + 1);
    match OpOf(ByteAt(bs, pc))
    case None => None
    case Some(op) =>
      match op
      case JmpT => if arg >= 0 && arg % INSN_LEN == 0 then Some(IJmp(true, arg / INSN_LEN)) else None
      case JmpF => if arg >= 0 && arg % INSN_LEN == 0 then Some(IJmp(false, arg / INSN_LEN)) else None
      case TRef(k) => Some(IRef(k, arg))
      case TInd => Some(IInd(arg))
      case TPair(k) => Some(IPair(k, StringFrom(bs, arg)))
      case TFlag(k) => Some(IFlag(k, StringFrom(bs, arg)))
      case LoadS => Some(ILoadS(StringFrom(bs, arg)))
      case LoadR => Some(ILoadR(arg))
      case NegR => Some(INegR)
      case Paren => Some(IParen(arg))
      case Label => None
      case Ret => Some(IRet)
  }

  predicate HasText(i: Ins) { i.IPair? || i.IFlag? || i.ILoadS? }

  /** The bytes start with the code of the program `p`, and its strings lie behind that code. */
  ghost predicate Encodes(bs: seq<Byte>, p: seq<Ins>) {
    INSN_LEN * |p| <= |bs| &&
    (forall k :: 0 <= k < |p| ==> InsAt(bs, INSN_LEN * k) == Some(p[k])) &&
    (forall k :: 0 <= k < |p| && HasText(p[k]) ==> INSN_LEN * |p| <= IntAt(bs, INSN_LEN * k + 1))
  }

  // ----- laying out code and strings -----

  function OffsetToString(strs: seq<Text>, c: int): nat {
    if strs == [] || c == 0 then 0 else |strs[0]| + 1 + OffsetToString(strs[1..], c - 1)
  }

  function StringBytes(strs: seq<Text>): (bs: seq<Byte>) {
    if strs == [] then [] else strs[0] + [0] + StringBytes(strs[1..])
  }

  /** The argument an instruction carries in the bytes. */
  function FinalArg(i: Insn, code: seq<Insn>, strs: seq<Text>): int {
    if IsJmp(i.op) then PosOfLabel(code, i.arg) * INSN_LEN
    else if TakesString(i.op) then Real(code) * INSN_LEN + OffsetToString(strs, i.arg)
    else i.arg
  }

  function InsnBytes(i: Insn, code: seq<Insn>, strs: seq<Text>): (bs: seq<Byte>)
    ensures |bs| == INSN_LEN
  {
    [OpCode(i.op)] + EncodeInt(FinalArg(i, code, strs))
  }

  function CodeBytes(part: seq<Insn>, code: seq<Insn>, strs: seq<Text>): (bs: seq<Byte>)
    ensures |bs| == INSN_LEN * Real(part)
  {
    if part == [] then []
    else (if part[0].op == Label then [] else InsnBytes(part[0], code, strs)) + CodeBytes(part[1..], code, strs)
  }

  function Emitted(st: Asm): seq<Byte> {
    CodeBytes(st.insns, st.insns, st.strs) + StringBytes(st.strs)
  }

  /** Every string number names a string, and every other number fits a C int. */
  predicate ArgsOk(st: Asm) {
    forall i :: 0 <= i < |st.insns| ==> ArgOk(st.insns[i], |st.strs|)
  }

  predicate ArgOk(i: Insn, strings: nat) {
    if TakesString(i.op) then 0 <= i.arg < strings
    else IsJmp(i.op) || i.op == Label || IsInt(i.arg)
  }

  /** The lengths are kept in 16 bits. */
  predicate Emittable(st: Asm) {
    ArgsOk(st) && |Emitted(st)| < 0x1_0000
  }

  predicate Distinct(strs: seq<Text>) {
    forall i, j :: 0 <= i < j < |strs| ==> strs[i] != strs[j]
  }

  predicate ThingsOk(e: Expr) {
    match e
    case And(a, b) => ThingsOk(a) && ThingsOk(b)
    case Or(a, b) => ThingsOk(a) && ThingsOk(b)
    case Not(n) => ThingsOk(n)
    case Ref(_, thing) => IsInt(thing)
    case Ind(thing, _) => IsInt(thing)
    case _ => true
  }

  lemma {:induction false} IndexOfMisses(strs: seq<Text>, s: Text)
    ensures IndexOf(strs, s) == |strs| ==> s !in strs
  {
    if strs != [] && strs[0] != s { IndexOfMisses(strs[1..], s); }
  }

  lemma AppendStringOk(st: Asm, op: Op, s: Text)
    requires ArgsOk(st) && Distinct(st.strs) && TakesString(op)
    ensures ArgsOk(AppendString(st, op, s)) && Distinct(AppendString(st, op, s).strs)
  {
    IndexOfMisses(st.strs, s);
  }

  /** The string pool never holds a string twice, and generated arguments stay in range. */
  lemma {:induction false} GenArgsOk(e: Expr, outer: Outer, st: Asm)
    requires ThingsOk(e) && ArgsOk(st) && Distinct(st.strs)
    ensures ArgsOk(Gen(e, outer, st)) && Distinct(Gen(e, outer, st).strs)
    decreases e, 1
  {
    hide Real, IndexOf;
    match e
    case And(_, _) => GenBinaryArgsOk(e, outer == InNot, InAnd, JmpF, st);
    case Or(_, _) => GenBinaryArgsOk(e, outer == InNot || outer == InAnd, InOr, JmpT, st);
    case Not(n) => GenArgsOk(n, InNot, st);
    case Bool(_) =>
    case Ref(_, _) =>
    case Ind(_, lock) => AppendStringOk(st, LoadS, lock);
    case Pair(k, name, text) =>
      AppendStringOk(st, LoadS, name);
      AppendStringOk(AppendString(st, LoadS, name), TPair(k), text);
    case Flag(k, text) => AppendStringOk(st, TFlag(k), text);
  }

  lemma {:induction false} GenBinaryArgsOk(e: Expr, parens: bool, inner: Outer, jump: Op, st: Asm)
    requires (e.And? || e.Or?) && ThingsOk(e) && ArgsOk(st) && Distinct(st.strs) && IsJmp(jump)
    ensures ArgsOk(GenBinary(e, parens, inner, jump, st)) && Distinct(GenBinary(e, parens, inner, jump, st).strs)
    decreases e, 0
  {
    var g := StagesOf(e, parens, inner, jump, st);
    assert ArgsOk(g.s1);
    GenArgsOk(e.left, inner, g.s1);
    assert ArgsOk(g.s2);
    GenArgsOk(e.right, inner, g.s2);
    assert ArgsOk(g.s3);
  }

  lemma GeneratedArgsOk(e: Expr)
    requires ThingsOk(e)
    ensures ArgsOk(Generated(e)) && Distinct(Generated(e).strs)
  {
    GenArgsOk(e, Top, EMPTY);
  }

  lemma {:induction false} CodeBytesAppend(a: seq<Insn>, b: seq<Insn>, code: seq<Insn>, strs: seq<Text>)
    ensures CodeBytes(a + b, code, strs) == CodeBytes(a, code, strs) + CodeBytes(b, code, strs)
  {
    if a == [] {
      assert a + b == b;
    } else {
      assert (a + b)[1..] == a[1..] + b;
      CodeBytesAppend(a[1..], b, code, strs);
    }
  }

  lemma {:induction false} StringInPool(pre: seq<Byte>, strs: seq<Text>, c: nat)
    requires c < |strs|
    ensures OffsetToString(strs, c) < |StringBytes(strs)|
    ensures StringFrom(pre + StringBytes(strs), |pre| + OffsetToString(strs, c)) == strs[c]
    decreases c
  {
    var s: seq<Byte> := strs[0];
    if c == 0 {
      StringRead(pre, s, StringBytes(strs[1..]));
      assert pre + StringBytes(strs) == pre + s + [0] + StringBytes(strs[1..]);
    } else {
      StringInPool(pre + s + [0], strs[1..], c - 1);
      assert pre + s + [0] + StringBytes(strs[1..]) == pre + StringBytes(strs);
    }
  }

  lemma {:induction false} StringRead(pre: seq<Byte>, s: seq<Byte>, post: seq<Byte>)
    requires 0 !in s
    ensures StringFrom(pre + s + [0] + post, |pre|) == s
    decreases |s|
  {
    var bs := pre + s + [0] + post;
    if s != [] {
      assert bs[|pre|] == s[0];
      StringRead(pre + [s[0]], s[1..], post);
      assert bs == pre + [s[0]] + s[1..] + [0] + post;
      assert s == [s[0]] + s[1..];
    } else {
      assert bs[|pre|] == 0;
    }
  }

  /** The five bytes of one instruction read back as that instruction. */
  lemma InsnReads(pre: seq<Byte>, i: Insn, post: seq<Byte>, code: seq<Insn>, strs: seq<Text>)
    requires i.op != Label && IsInt(FinalArg(i, code, strs))
    requires TakesString(i.op) ==>
      StringFrom(pre + InsnBytes(i, code, strs) + post, FinalArg(i, code, strs)) == StringAt(strs, i.arg)
    ensures InsAt(pre + InsnBytes(i, code, strs) + post, |pre|) == Some(Resolve(i, code, strs))
    ensures IntAt(pre + InsnBytes(i, code, strs) + post, |pre| + 1) == FinalArg(i, code, strs)
  {
    hide StringFrom, Real, OffsetToString, EncodeInt, DecodeInt, PosOfLabel, OpOf, OpCode;
    var arg := FinalArg(i, code, strs);
    var mid := InsnBytes(i, code, strs);
    var bs := pre + mid + post;
    assert mid[0] == OpCode(i.op) && mid[1..] == EncodeInt(arg);
    assert forall j :: 0 <= j < 5 ==> ByteAt(bs, |pre| + j) == mid[j];
    OpCodeRoundTrip(i.op);
    IntRoundTrip(arg);
    assert IntAt(bs, |pre| + 1) == arg;
    if IsJmp(i.op) {
      assert arg / INSN_LEN == PosOfLabel(code, i.arg) && arg % INSN_LEN == 0;
    }
  }

  lemma EmittedLength(st: Asm)
    ensures |Linked(st)| == Real(st.insns) && INSN_LEN * |Linked(st)| <= |Emitted(st)|
  {
  }

  /** The emitted bytes are the linked program: jumps at instruction boundaries, strings in place. */
  lemma EmittedEncodes(st: Asm)
    requires Emittable(st)
    ensures Encodes(Emitted(st), Linked(st))
  {
    hide InsAt, IntAt, Real, LinkPart, Emitted, Resolve, PosOfLabel, HasText;
    EmittedLength(st);
    forall k | 0 <= k < |Linked(st)|
      ensures InsAt(Emitted(st), INSN_LEN * k) == Some(Linked(st)[k])
      ensures HasText(Linked(st)[k]) ==> INSN_LEN * |Linked(st)| <= IntAt(Emitted(st), INSN_LEN * k + 1)
    {
      var i := LinkSource(st.insns, st.insns, st.strs, k);
      EmittedAt(st, i);
      LinkAt(st.insns, st.strs, i);
    }
  }

  lemma PosBounded(code: seq<Insn>, l: int)
    ensures PosOfLabel(code, l) <= Real(code)
  {
  }

  lemma EmittedAt(st: Asm, i: nat)
    requires Emittable(st) && i < |st.insns| && st.insns[i].op != Label
    ensures InsAt(Emitted(st), INSN_LEN * Real(st.insns[..i])) == Some(Resolve(st.insns[i], st.insns, st.strs))
    ensures HasText(Resolve(st.insns[i], st.insns, st.strs)) ==>
      INSN_LEN * Real(st.insns) <= IntAt(Emitted(st), INSN_LEN * Real(st.insns[..i]) + 1)
  {
    hide Real, CodeBytes, StringBytes, PosOfLabel, OffsetToString, InsAt, InsnBytes, StringFrom, IntAt;
    var code, strs, x := st.insns, st.strs, st.insns[i];
    SplitSeq(code, i);
    var pre, post := CodeBytes(code[..i], code, strs), CodeBytes(code[i + 1..], code, strs) + StringBytes(strs);
    CodeBytesAppend(code[..i + 1], code[i + 1..], code, strs);
    CodeBytesAppend(code[..i], [x], code, strs);
    CodeBytesOne(x, code, strs);
    assert Emitted(st) == pre + InsnBytes(x, code, strs) + post;
    if IsJmp(x.op) {
      PosBounded(code, x.arg);
    } else if TakesString(x.op) {
      StringInPool(CodeBytes(code, code, strs), strs, x.arg);
    }
    InsnReads(pre, x, post, code, strs);
  }

  lemma CodeBytesOne(i: Insn, code: seq<Insn>, strs: seq<Text>)
    requires i.op != Label
    ensures CodeBytes([i], code, strs) == InsnBytes(i, code, strs)
  {
  }
}

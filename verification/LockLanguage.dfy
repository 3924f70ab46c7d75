/**
 The language of locks: parse trees, the opcodes of the lock machine, and what
 both of them mean.

 A test of an atom sets register R. What the tests find out about the game world
 comes from a `World`; which tests run, and in which order, is recorded in a trace.
 */
module LockLanguage {
  import opened Basics

  type Dbref = int
  datatype RefKind = Const | Carry | Is | Owner
  datatype PairKind = Atr | Eval
  datatype FlagKind =
    | FlagLock | TypeLock | NameLock | PowerLock | ChannelLock | IpLock | HostnameLock | DbrefListLock

  /** Parse trees. The two words of an attribute or evaluation lock are opaque. */
  datatype Expr =
    | And(left: Expr, right: Expr)
    | Or(left: Expr, right: Expr)
    | Not(body: Expr)
    | Bool(truth: bool)
    | Ref(ref: RefKind, thing: Dbref)
    | Ind(thing: Dbref, lock: Text)
    | Pair(pair: PairKind, name: Text, text: Text)
    | Flag(flag: FlagKind, text: Text)

  datatype Test =
    | RefTest(ref: RefKind, thing: Dbref)
    | IndTest(thing: Dbref, lock: Option<Text>)
    | PairTest(pair: PairKind, name: Option<Text>, text: Text)
    | FlagTest(flag: FlagKind, text: Text)

  /** What the tests can see. Matching, permission checks, softcode and nested locks are oracles. */
  datatype World = World(
    player: Dbref,
    good: Dbref -> bool,
    garbage: Dbref -> bool,
    carried: Dbref -> bool,
    sameOwner: Dbref -> bool,
    playerType: Byte,
    indOracle: (Dbref, Option<Text>) -> bool,
    pairOracle: (PairKind, Option<Text>, Text) -> bool,
    flagOracle: (FlagKind, Text) -> bool)

  /** The registers of the machine and the tests it has run. */
  datatype Regs = Regs(r: bool, s: Option<Text>, trace: seq<Test>)

  const START := Regs(false, None, [])

  predicate Live(w: World, thing: Dbref) {
    w.good(thing) && !w.garbage(thing)
  }

  predicate RefHolds(w: World, k: RefKind, thing: Dbref) {
    Live(w, thing) &&
    match k
    case Const => thing == w.player || w.carried(thing)
    case Carry => w.carried(thing)
    case Is => thing == w.player
    case Owner => w.sameOwner(thing)
  }

  predicate IndHolds(w: World, thing: Dbref, lock: Option<Text>) {
    Live(w, thing) && w.indOracle(thing, lock)
  }

  function UpperType(c: Byte): Byte {
    if c == 82 || c == 114 then 82        // R
    else if c == 69 || c == 101 then 69   // E
    else if c == 84 || c == 116 then 84   // T
    else if c == 80 || c == 112 then 80   // P
    else 0
  }

  /** A type lock looks at the first byte of its text only, and the text may be empty. */
  function TypeLetter(text: Text): Byte {
    if text == [] then 0 else UpperType(text[0])
  }

  /** A type lock with another letter leaves R as it was. */
  function FlagResult(w: World, k: FlagKind, text: Text, r: bool): bool {
    if k == TypeLock then
      if TypeLetter(text) == 0 then r else w.playerType == TypeLetter(text)
    else w.flagOracle(k, text)
  }

  function DoRef(w: World, k: RefKind, thing: Dbref, m: Regs): Regs {
    m.(r := RefHolds(w, k, thing), trace := m.trace + [RefTest(k, thing)])
  }

  function DoInd(w: World, thing: Dbref, m: Regs): Regs {
    m.(r := IndHolds(w, thing, m.s), trace := m.trace + [IndTest(thing, m.s)])
  }

  function DoPair(w: World, k: PairKind, text: Text, m: Regs): Regs {
    m.(r := w.pairOracle(k, m.s, text), trace := m.trace + [PairTest(k, m.s, text)])
  }

  function DoFlag(w: World, k: FlagKind, text: Text, m: Regs): Regs {
    m.(r := FlagResult(w, k, text, m.r), trace := m.trace + [FlagTest(k, text)])
  }

  /** Left-to-right short-circuit evaluation of a tree, as a change of the registers. */
  function EvalTree(w: World, e: Expr, m: Regs): Regs {
    match e
    case And(a, b) => var m1 := EvalTree(w, a, m); if m1.r then EvalTree(w, b, m1) else m1
    case Or(a, b) => var m1 := EvalTree(w, a, m); if m1.r then m1 else EvalTree(w, b, m1)
    case Not(n) => var m1 := EvalTree(w, n, m); m1.(r := !m1.r)
    case Bool(v) => m.(r := v)
    case Ref(k, thing) => DoRef(w, k, thing, m)
    case Ind(thing, lock) => DoInd(w, thing, m.(s := Some(lock)))
    case Pair(k, name, text) => DoPair(w, k, text, m.(s := Some(name)))
    case Flag(k, text) => DoFlag(w, k, text, m)
  }

  /** Every type lock in the tree names one of the four types, or is reached with R false: R is `r` where the tree is
      entered, true where the right side of an AND is, and false where the right side of an OR is. */
  predicate TypesSettled(e: Expr, r: bool) {
    match e
    case And(a, b) => TypesSettled(a, r) && TypesSettled(b, true)
    case Or(a, b) => TypesSettled(a, r) && TypesSettled(b, false)
    case Not(n) => TypesSettled(n, r)
    case Flag(k, text) => k == TypeLock && r ==> TypeLetter(text) != 0
    case _ => true
  }

  /** The truth value of a tree, with no machine in sight. */
  predicate Holds(w: World, e: Expr) {
    match e
    case And(a, b) => Holds(w, a) && Holds(w, b)
    case Or(a, b) => Holds(w, a) || Holds(w, b)
    case Not(n) => !Holds(w, n)
    case Bool(v) => v
    case Ref(k, thing) => RefHolds(w, k, thing)
    case Ind(thing, lock) => IndHolds(w, thing, Some(lock))
    case Pair(k, name, text) => w.pairOracle(k, Some(name), text)
    case Flag(k, text) => FlagResult(w, k, text, false)
  }

  /** The tests short-circuit evaluation has to run, in order. */
  function TestsOf(w: World, e: Expr): seq<Test> {
    match e
    case And(a, b) => TestsOf(w, a) + if Holds(w, a) then TestsOf(w, b) else []
    case Or(a, b) => TestsOf(w, a) + if Holds(w, a) then [] else TestsOf(w, b)
    case Not(n) => TestsOf(w, n)
    case Bool(_) => []
    case Ref(k, thing) => [RefTest(k, thing)]
    case Ind(thing, lock) => [IndTest(thing, Some(lock))]
    case Pair(k, name, text) => [PairTest(k, Some(name), text)]
    case Flag(k, text) => [FlagTest(k, text)]
  }

  /** With its type letters settled the register form and the logical form of the meaning agree. */
  lemma {:induction false} EvalTreeHolds(w: World, e: Expr, m: Regs)
    requires TypesSettled(e, m.r)
    ensures EvalTree(w, e, m).r == Holds(w, e)
    ensures EvalTree(w, e, m).trace == m.trace + TestsOf(w, e)
  {
    match e
    case And(a, b) =>
      EvalTreeHolds(w, a, m);
      if EvalTree(w, a, m).r { EvalTreeHolds(w, b, EvalTree(w, a, m)); }
    case Or(a, b) =>
      EvalTreeHolds(w, a, m);
      if !EvalTree(w, a, m).r { EvalTreeHolds(w, b, EvalTree(w, a, m)); }
    case Not(n) => EvalTreeHolds(w, n, m);
    case _ =>
  }

  /** The letter matters: TYPE^X after a test that passed passes, and after one that failed fails. */
  lemma UnknownTypeKeepsR(w: World, text: Text, m: Regs)
    requires TypeLetter(text) == 0
    ensures EvalTree(w, Flag(TypeLock, text), m).r == m.r
    ensures EvalTree(w, And(Bool(true), Flag(TypeLock, text)), m).r
    ensures !EvalTree(w, Or(Bool(false), Flag(TypeLock, text)), m).r
  {
  }

  /** Instructions with labels and string numbers already replaced by what they stand for. */
  datatype Ins =
    | IJmp(on: bool, target: nat)
    | IRef(ref: RefKind, thing: Dbref)
    | IInd(thing: Dbref)
    | IPair(pair: PairKind, text: Text)
    | IFlag(flag: FlagKind, text: Text)
    | ILoadS(text: Text)
    | ILoadR(value: int)
    | INegR
    | IParen(side: int)
    | IRet

  /** The effect of an instruction that is neither a jump nor the return. */
  function Effect(w: World, i: Ins, m: Regs): Regs {
    match i
    case IRef(k, thing) => DoRef(w, k, thing, m)
    case IInd(thing) => DoInd(w, thing, m)
    case IPair(k, text) => DoPair(w, k, text, m)
    case IFlag(k, text) => DoFlag(w, k, text, m)
    case ILoadS(text) => m.(s := Some(text))
    case ILoadR(v) => m.(r := v != 0)
    case INegR => m.(r := !m.r)
    case IJmp(_, _) => m
    case IParen(_) => m
    case IRet => m
  }

  /** Every jump goes forward and stays inside, and the last instruction is the only return. */
  predicate Forward(p: seq<Ins>) {
    |p| > 0 && p[|p| - 1] == IRet && (forall k :: 0 <= k < |p| - 1 ==> p[k] != IRet) &&
    forall k :: 0 <= k < |p| && p[k].IJmp? ==> k < p[k].target < |p|
  }

  /** The position after the instruction at `pc`. */
  function NextPc(p: seq<Ins>, pc: nat, m: Regs): nat
    requires pc < |p|
  {
    if p[pc].IJmp? && m.r == p[pc].on then p[pc].target else pc + 1
  }

  /** Run from `pc`. A jump that does not go forward stops the run; `Forward` programs have none. */
  function Run(w: World, p: seq<Ins>, pc: nat, m: Regs): Regs
    decreases |p| - pc
  {
    if pc >= |p| || p[pc] == IRet || NextPc(p, pc, m) <= pc then m
    else Run(w, p, NextPc(p, pc, m), Effect(w, p[pc], m))
  }

  /** The instructions a run executes, the return included. */
  function Steps(w: World, p: seq<Ins>, pc: nat, m: Regs): nat
    decreases |p| - pc
  {
    if pc >= |p| then 0
    else if p[pc] == IRet || NextPc(p, pc, m) <= pc then 1
    else 1 + Steps(w, p, NextPc(p, pc, m), Effect(w, p[pc], m))
  }

  /** Where the run stops. */
  function StopsAt(w: World, p: seq<Ins>, pc: nat, m: Regs): nat
    decreases |p| - pc
  {
    if pc >= |p| || p[pc] == IRet || NextPc(p, pc, m) <= pc then pc
    else StopsAt(w, p, NextPc(p, pc, m), Effect(w, p[pc], m))
  }

  /** A forward program reaches a return within as many steps as it has instructions left. */
  lemma {:induction false} RunReachesRet(w: World, p: seq<Ins>, pc: nat, m: Regs)
    requires Forward(p) && pc < |p|
    ensures StopsAt(w, p, pc, m) < |p| && p[StopsAt(w, p, pc, m)] == IRet
    ensures Steps(w, p, pc, m) <= |p| - pc
    decreases |p| - pc
  {
    if p[pc] != IRet {
      assert pc < NextPc(p, pc, m) < |p|;
      RunReachesRet(w, p, NextPc(p, pc, m), Effect(w, p[pc], m));
    }
  }
}

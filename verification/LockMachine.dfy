/**
 Running compiled locks: the evaluation loop, which enters other locks through indirect
 tests, and the patching of bytes whose objects are gone.
 */
module LockMachine {
  import opened Basics
  import opened LockLanguage
  import opened LockAssembler
  import opened LockBytecode

  /** The game as the machine sees it. All softcode, matching and permission checks are oracles. */
  datatype Game = Game(
    maxDepth: nat,
    good: Dbref -> bool,
    garbage: Dbref -> bool,
    member: (Dbref, Dbref) -> bool,
    owner: Dbref -> Dbref,
    typeOf: Dbref -> Byte,
    canReadLock: (Dbref, Dbref, Text) -> bool,
    pairTest: (Dbref, Dbref, PairKind, Option<Text>, Text) -> bool,
    flagTest: (Dbref, Dbref, FlagKind, Text) -> bool)

  /** The locks of all objects by name in upper case, for names are compared without regard to case; a missing one is
      unlocked. */
  type Locks = map<(Dbref, Text), Expr>
  type Chunks = map<(Dbref, Text), seq<Byte>>

  function Lookup<V>(m: map<(Dbref, Text), V>, thing: Dbref, name: Text): Option<V> {
    if (thing, Upper(name)) in m then Some(m[(thing, Upper(name))]) else None
  }

  /** What the tests of a lock on `target` find, `depth` locks deep. */
  ghost function WorldAt(g: Game, locks: Locks, player: Dbref, target: Dbref, depth: nat): World
    requires depth <= g.maxDepth
    decreases g.maxDepth + 1 - depth, 0
  {
    World(player, g.good, g.garbage, x => g.member(x, player), x => g.owner(x) == g.owner(player), g.typeOf(player),
          (thing, lock: Option<Text>) =>
            lock.Some? && g.canReadLock(target, thing, Upper(lock.value)) &&
            LockHolds(g, locks, player, Lookup(locks, thing, lock.value), thing, depth + 1),
          (k, name, text: Text) => g.pairTest(player, target, k, name, text),
          (k, text: Text) => g.flagTest(player, target, k, text))
  }

  /** Whether a player passes a lock when evaluation is already `depth` locks deep. */
  ghost predicate LockHolds(g: Game, locks: Locks, player: Dbref, lock: Option<Expr>, target: Dbref, depth: nat)
    requires depth <= g.maxDepth + 1
    decreases g.maxDepth + 1 - depth, 1
  {
    g.good(player) && depth <= g.maxDepth &&
    (lock.None? || EvalTree(WorldAt(g, locks, player, target, depth), lock.value, START).r)
  }

  /** `bs` is bytecode for the tree `e`: some forward program in it, fresh from the compiler or patched since, answers
      for the tree. */
  ghost predicate CompiledFrom(bs: seq<Byte>, e: Expr) {
    exists p: seq<Ins> :: Forward(p) && Encodes(bs, p) && Answers(p, e)
  }

  /** Run from the start, the program gives the value of the tree by the tests of the tree. */
  ghost predicate Answers(p: seq<Ins>, e: Expr) {
    forall w: World :: Run(w, p, 0, START).r == EvalTree(w, e, START).r &&
                       Run(w, p, 0, START).trace == EvalTree(w, e, START).trace
  }

  /** From every state of the machine the program does what evaluating the tree does. */
  ghost predicate Evaluates(p: seq<Ins>, e: Expr) {
    forall w: World, m: Regs :: Run(w, p, 0, m) == EvalTree(w, e, m)
  }

  lemma ForwardStarts(p: seq<Ins>)
    requires Forward(p)
    ensures |p| > 0
  {
  }

  /** An opcode and argument read from the bytes are the instruction `i`. */
  ghost predicate Means(bs: seq<Byte>, op: Option<Op>, arg: int, i: Ins) {
    match op
    case Some(Ret) => i == IRet
    case Some(JmpT) => i.IJmp? && i.on && arg == INSN_LEN * i.target
    case Some(JmpF) => i.IJmp? && !i.on && arg == INSN_LEN * i.target
    case Some(Paren) => i == IParen(arg)
    case Some(LoadS) => i == ILoadS(StringFrom(bs, arg))
    case Some(LoadR) => i == ILoadR(arg)
    case Some(NegR) => i == INegR
    case Some(TRef(kind)) => i == IRef(kind, arg)
    case Some(TInd) => i == IInd(arg)
    case Some(TPair(kind)) => i == IPair(kind, StringFrom(bs, arg))
    case Some(TFlag(kind)) => i == IFlag(kind, StringFrom(bs, arg))
    case _ => false
  }

  predicate IsTest(op: Option<Op>) {
    op.Some? && (op.value.TRef? || op.value.TInd? || op.value.TPair? || op.value.TFlag?)
  }

  lemma MeansKind(bs: seq<Byte>, op: Option<Op>, arg: int, i: Ins)
    requires Means(bs, op, arg, i)
    ensures op == Some(Ret) <==> i == IRet
    ensures IsTest(op) ==> !i.IJmp?
  {
  }

  lemma TestGoesOn(p: seq<Ins>, k: nat, m: Regs)
    requires k < |p| && !p[k].IJmp?
    ensures NextPc(p, k, m) == k + 1
  {
  }

  /** What the opcode and argument at an instruction boundary say. */
  lemma Decoded(bs: seq<Byte>, p: seq<Ins>, k: nat)
    requires Encodes(bs, p) && k < |p|
    ensures INSN_LEN * k < |bs|
    ensures Means(bs, OpOf(bs[INSN_LEN * k]), IntAt(bs, INSN_LEN * k + 1), p[k])
  {
    hide StringFrom, IntAt, OpOf;
    assert InsAt(bs, INSN_LEN * k) == Some(p[k]);
  }

  lemma RunStep(w: World, p: seq<Ins>, k: nat, m: Regs)
    requires Forward(p) && k < |p|
    ensures p[k] == IRet ==> Run(w, p, k, m) == m
    ensures p[k] != IRet ==>
              k < NextPc(p, k, m) < |p| && Run(w, p, k, m) == Run(w, p, NextPc(p, k, m), Effect(w, p[k], m))
  {
  }

  lemma WorldPairs(g: Game, locks: Locks, player: Dbref, target: Dbref, depth: nat, k: PairKind, s: Option<Text>,
      t: Text)
    requires depth <= g.maxDepth
    ensures WorldAt(g, locks, player, target, depth).pairOracle(k, s, t) == g.pairTest(player, target, k, s, t)
  {
  }

  lemma WorldInd(g: Game, locks: Locks, player: Dbref, target: Dbref, depth: nat, thing: Dbref, s: Option<Text>)
    requires depth <= g.maxDepth
    ensures IndHolds(WorldAt(g, locks, player, target, depth), thing, s) ==
            (g.good(thing) && !g.garbage(thing) && s.Some? && g.canReadLock(target, thing, Upper(s.value)) &&
             LockHolds(g, locks, player, Lookup(locks, thing, s.value), thing, depth + 1))
  {
  }

  /** The text starts with the letter of the type, large or small: R, E, T or P. */
  predicate TypeNamed(text: Text, t: Byte) {
    text != [] &&
    ((t == 'R' as int && (text[0] == 'R' as int || text[0] == 'r' as int)) ||
     (t == 'E' as int && (text[0] == 'E' as int || text[0] == 'e' as int)) ||
     (t == 'T' as int && (text[0] == 'T' as int || text[0] == 't' as int)) ||
     (t == 'P' as int && (text[0] == 'P' as int || text[0] == 'p' as int)))
  }

  // ----- what single tests answer -----

  lemma RefAnswer(g: Game, locks: Locks, player: Dbref, target: Dbref, depth: nat, k: RefKind, d: Dbref)
    requires depth <= g.maxDepth
    ensures EvalTree(WorldAt(g, locks, player, target, depth), Ref(k, d), START).r ==
            (g.good(d) && !g.garbage(d) &&
             match k
             case Is => d == player
             case Carry => g.member(d, player)
             case Const => d == player || g.member(d, player)
             case Owner => g.owner(d) == g.owner(player))
  {
    hide LockHolds;
  }

  lemma IndAnswer(g: Game, locks: Locks, player: Dbref, target: Dbref, depth: nat, d: Dbref, lock: Text)
    requires depth <= g.maxDepth
    ensures EvalTree(WorldAt(g, locks, player, target, depth), Ind(d, lock), START).r ==
            (g.good(d) && !g.garbage(d) && g.canReadLock(target, d, Upper(lock)) &&
             LockHolds(g, locks, player, Lookup(locks, d, lock), d, depth + 1))
  {
    hide LockHolds, WorldAt, IndHolds;
    WorldInd(g, locks, player, target, depth, d, Some(lock));
  }

  lemma WordAnswer(g: Game, locks: Locks, player: Dbref, target: Dbref, depth: nat, e: Expr)
    requires depth <= g.maxDepth && (e.Bool? || e.Pair? || e.Flag?)
    ensures EvalTree(WorldAt(g, locks, player, target, depth), e, START).r ==
            match e
            case Bool(v) => v
            case Pair(k, name, text) => g.pairTest(player, target, k, Some(name), text)
            case Flag(k, text) =>
              if k == TypeLock then TypeNamed(text, g.typeOf(player)) else g.flagTest(player, target, k, text)
  {
    hide LockHolds;
  }

  class Machine {
    const game: Game
    const chunks: Chunks
    ghost const locks: Locks
    var recursion: nat
    var errShown: bool
    var notices: nat
    ghost var active: nat
    ghost var deepest: nat

    ghost predicate ChunksValid() {
      chunks.Keys == locks.Keys && forall k :: k in chunks ==> CompiledFrom(chunks[k], locks[k])
    }

    ghost predicate Valid()
      reads this
    {
      ChunksValid() && active == recursion && recursion <= game.maxDepth + 1
    }

    /** At most one complaint since `before`, and none while one has already been shown. */
    twostate predicate Quiet()
      reads this
    {
      old(notices) <= notices <= old(notices) + 1 &&
      (notices > old(notices) ==> errShown) &&
      (old(recursion) > 0 && old(errShown) ==> notices == old(notices) && errShown) &&
      deepest <= if old(deepest) > game.maxDepth + 2 then old(deepest) else game.maxDepth + 2
    }

    /** Does the player pass the lock? `e` is the tree the bytes stand for. */
    method EvalBoolexp(player: Dbref, b: Option<seq<Byte>>, target: Dbref, ghost e: Option<Expr>) returns (r: bool)
      requires Valid() && b.Some? == e.Some? && (b.Some? ==> CompiledFrom(b.value, e.value))
      modifies this
      ensures Valid() && recursion == old(recursion)
      ensures r == LockHolds(game, locks, player, e, target, old(recursion))
      ensures !game.good(player) || old(recursion) > game.maxDepth ==> !r
      ensures game.good(player) && old(recursion) <= game.maxDepth ==>
                (b.None? ==> r) &&
                (b.Some? && e.value.Bool? ==> r == e.value.truth) &&
                (b.Some? && e.value.Ref? ==>
                   r == (game.good(e.value.thing) && !game.garbage(e.value.thing) &&
                         match e.value.ref
                         case Is => e.value.thing == player
                         case Carry => game.member(e.value.thing, player)
                         case Const => e.value.thing == player || game.member(e.value.thing, player)
                         case Owner => game.owner(e.value.thing) == game.owner(player))) &&
                (b.Some? && e.value.Ind? ==>
                   r == (game.good(e.value.thing) && !game.garbage(e.value.thing) &&
                         game.canReadLock(target, e.value.thing, Upper(e.value.lock)) &&
                         LockHolds(game, locks, player, Lookup(locks, e.value.thing, e.value.lock), e.value.thing,
                                   old(recursion) + 1))) &&
                (b.Some? && e.value.Pair? ==>
                   r == game.pairTest(player, target, e.value.pair, Some(e.value.name), e.value.text)) &&
                (b.Some? && e.value.Flag? ==>
                   r == if e.value.flag == TypeLock then TypeNamed(e.value.text, game.typeOf(player))
                        else game.flagTest(player, target, e.value.flag, e.value.text))
      ensures Quiet()
      decreases game.maxDepth + 1 - recursion, 3
    {
      hide WorldAt, EvalTree, CompiledFrom;
      active := active + 1;
      if active > deepest { deepest := active; }
      if recursion == 0 { errShown := false; }
      if !game.good(player) {
        r := false;
      } else if recursion > game.maxDepth {
        if !errShown {
          errShown := true;
          notices := notices + 1;
        }
        r := false;
      } else if b.None? {
        r := true;
      } else {
        ghost var trace;
        r, trace := RunBytecode(player, b.value, target, e.value);
        match e.value
        case Ref(k, d) => RefAnswer(game, locks, player, target, recursion, k, d);
        case Ind(d, lock) => IndAnswer(game, locks, player, target, recursion, d, lock);
        case Bool(_) => WordAnswer(game, locks, player, target, recursion, e.value);
        case Pair(_, _, _) => WordAnswer(game, locks, player, target, recursion, e.value);
        case Flag(_, _) => WordAnswer(game, locks, player, target, recursion, e.value);
        case _ =>
      }
      active := active - 1;
    }

    /** The loop over the instructions; `trace` is the tests it runs. */
    method RunBytecode(player: Dbref, bytecode: seq<Byte>, target: Dbref, ghost e: Expr)
      returns (r: bool, ghost trace: seq<Test>)
      requires ChunksValid() && active == recursion + 1 && recursion <= game.maxDepth
      requires CompiledFrom(bytecode, e)
      modifies this
      ensures active == recursion + 1 && recursion == old(recursion)
      ensures r == EvalTree(WorldAt(game, locks, player, target, recursion), e, START).r
      ensures trace == EvalTree(WorldAt(game, locks, player, target, recursion), e, START).trace
      ensures RunQuiet()
      decreases game.maxDepth + 1 - recursion, 2
    {
      hide Encodes, Forward, Run, InsAt, EvalTree, LockHolds, WorldAt, Means, Effect, NextPc, IntAt, OpOf;
      ghost var p: seq<Ins> :| Forward(p) && Encodes(bytecode, p) && Answers(p, e);
      ghost var w := WorldAt(game, locks, player, target, recursion);
      ghost var k := 0;
      trace := [];
      var pc := 0;
      var s := None;
      r := false;
      ForwardStarts(p);
      ghost var end := Run(w, p, 0, START);
      assert end.r == EvalTree(w, e, START).r && end.trace == EvalTree(w, e, START).trace;
      while true
        invariant active == recursion + 1 && recursion == old(recursion) && RunQuiet()
        invariant k < |p| && pc == INSN_LEN * k
        invariant Run(w, p, k, Regs(r, s, trace)) == end
        decreases |p| - k
      {
        Decoded(bytecode, p, k);
        RunStep(w, p, k, Regs(r, s, trace));
        var op := OpOf(bytecode[pc]);
        var arg := IntAt(bytecode, pc + 1);
        pc := pc + INSN_LEN;
        MeansKind(bytecode, op, arg, p[k]);
        ghost var i, next := p[k], NextPc(p, k, Regs(r, s, trace));
        if op == Some(Ret) {
          return;
        } else if IsTest(op) {
          TestGoesOn(p, k, Regs(r, s, trace));
          r, trace := RunTest(player, bytecode, target, op, arg, r, s, trace, i);
        } else {
          pc, r, s := RunPlain(bytecode, pc, op, arg, r, s, w, p, k, trace);
        }
        k := next;
      }
    }

    /** The instructions that test nothing. */
    method RunPlain(bytecode: seq<Byte>, pc0: nat, op: Option<Op>, arg: int, r0: bool, s0: Option<Text>, ghost w: World,
                    ghost p: seq<Ins>, ghost k: nat, ghost trace: seq<Test>)
      returns (pc: nat, r: bool, s: Option<Text>)
      requires k < |p| && pc0 == INSN_LEN * (k + 1)
      requires Means(bytecode, op, arg, p[k]) && !IsTest(op) && op != Some(Ret)
      ensures pc == INSN_LEN * NextPc(p, k, Regs(r0, s0, trace))
      ensures Regs(r, s, trace) == Effect(w, p[k], Regs(r0, s0, trace))
    {
      hide StringFrom;
      pc, r, s := pc0, r0, s0;
      if op == Some(JmpT) {
        if r { pc := arg; }
      } else if op == Some(JmpF) {
        if !r { pc := arg; }
      } else if op == Some(LoadS) {
        s := Some(StringFrom(bytecode, arg));
      } else if op == Some(LoadR) {
        r := arg != 0;
      } else if op == Some(NegR) {
        r := !r;
      }
    }

    /** The instructions that test something; `i` is the one in the bytes. */
    method RunTest(player: Dbref, bytecode: seq<Byte>, target: Dbref, op: Option<Op>, arg: int, r0: bool,
                   s: Option<Text>, ghost done: seq<Test>, ghost i: Ins) returns (r: bool, ghost trace: seq<Test>)
      requires ChunksValid() && active == recursion + 1 && recursion <= game.maxDepth
      requires Means(bytecode, op, arg, i) && IsTest(op)
      modifies this
      ensures active == recursion + 1 && recursion == old(recursion) && RunQuiet()
      ensures Regs(r, s, trace) ==
              Effect(WorldAt(game, locks, player, target, recursion), i, Regs(r0, s, done))
      decreases game.maxDepth + 1 - recursion, 1
    {
      hide WorldAt, LockHolds, CompiledFrom, StringFrom;
      match op
      case Some(TRef(kind)) =>
        r := TestRef(player, kind, arg);
        trace := done + [RefTest(kind, arg)];
      case Some(TInd) =>
        trace := done + [IndTest(arg, s)];
        r := TestInd(player, target, arg, s);
      case Some(TPair(kind)) =>
        r := game.pairTest(player, target, kind, s, StringFrom(bytecode, arg));
        WorldPairs(game, locks, player, target, recursion, kind, s, StringFrom(bytecode, arg));
        trace := done + [PairTest(kind, s, StringFrom(bytecode, arg))];
      case Some(TFlag(kind)) =>
        r := TestFlag(player, target, kind, StringFrom(bytecode, arg), r0);
        trace := done + [FlagTest(kind, StringFrom(bytecode, arg))];
    }

    twostate predicate RunQuiet()
      reads this
    {
      old(notices) <= notices <= old(notices) + 1 &&
      (notices > old(notices) ==> errShown) &&
      (old(errShown) ==> notices == old(notices) && errShown) &&
      deepest <= if old(deepest) > game.maxDepth + 2 then old(deepest) else game.maxDepth + 2
    }

    method TestRef(player: Dbref, kind: RefKind, arg: Dbref) returns (r: bool)
      ensures forall target, depth: nat :: depth <= game.maxDepth ==>
                r == RefHolds(WorldAt(game, locks, player, target, depth), kind, arg)
    {
      match kind
      case Const => r := game.good(arg) && !game.garbage(arg) && (arg == player || game.member(arg, player));
      case Is => r := game.good(arg) && !game.garbage(arg) && arg == player;
      case Carry => r := game.good(arg) && !game.garbage(arg) && game.member(arg, player);
      case Owner => r := game.good(arg) && !game.garbage(arg) && game.owner(arg) == game.owner(player);
    }

    method TestFlag(player: Dbref, target: Dbref, kind: FlagKind, text: Text, before: bool) returns (r: bool)
      ensures forall depth: nat :: depth <= game.maxDepth ==>
                r == FlagResult(WorldAt(game, locks, player, target, depth), kind, text, before)
    {
      if kind == TypeLock {
        r := before;
        var c := ByteAt(text, 0);
        if c == 82 || c == 114 { r := game.typeOf(player) == 82; }
        else if c == 69 || c == 101 { r := game.typeOf(player) == 69; }
        else if c == 84 || c == 116 { r := game.typeOf(player) == 84; }
        else if c == 80 || c == 112 { r := game.typeOf(player) == 80; }
      } else {
        r := game.flagTest(player, target, kind, text);
      }
    }

    /** An indirect test enters the lock of another object, one level deeper. */
    method TestInd(player: Dbref, target: Dbref, arg: Dbref, s: Option<Text>) returns (r: bool)
      requires ChunksValid() && active == recursion + 1 && recursion <= game.maxDepth
      modifies this
      ensures active == recursion + 1 && recursion == old(recursion)
      ensures r == IndHolds(WorldAt(game, locks, player, target, recursion), arg, s)
      ensures RunQuiet()
      decreases game.maxDepth + 1 - recursion, 0
    {
      hide WorldAt, LockHolds, CompiledFrom, EvalTree;
      WorldInd(game, locks, player, target, recursion, arg, s);
      recursion := recursion + 1;
      if !game.good(arg) || game.garbage(arg) || s.None? {
        r := false;
      } else if !game.canReadLock(target, arg, Upper(s.value)) {
        r := false;
      } else {
        r := EvalBoolexp(player, Lookup(chunks, arg, s.value), arg, Lookup(locks, arg, s.value));
      }
      recursion := recursion - 1;
    }
  }
}

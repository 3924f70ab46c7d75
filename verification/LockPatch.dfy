/**
 Working on the bytes of a compiled lock: asking whether it is costly to run, and
 replacing, in place, the tests of objects that have become garbage.
 */
module LockPatch {
  import opened Basics
  import opened MachineInts
  import opened LockLanguage
  import opened LockAssembler
  import opened LockBytecode
  import opened LockMachine

  // ----- locks that evaluate softcode or other locks -----

  predicate Costly(i: Ins) {
    i.IInd? || (i.IPair? && i.pair == Eval)
  }

  /** Is there an evaluation or an indirect test in the code? */
  method IsEvalLock(bytecode: seq<Byte>, ghost p: seq<Ins>) returns (res: bool)
    requires Forward(p) && Encodes(bytecode, p)
    ensures res <==> exists k :: 0 <= k < |p| && Costly(p[k])
  {
    var pc := 0;
    ghost var k := 0;
    while true
      invariant k < |p| && pc == INSN_LEN * k
      invariant forall j :: 0 <= j < k ==> !Costly(p[j])
      decreases |p| - k
    {
      Decoded(bytecode, p, k);
      var op := OpOf(bytecode[pc]);
      pc := pc + INSN_LEN;
      if op == Some(TPair(Eval)) || op == Some(TInd) {
        assert Costly(p[k]);
        return true;
      } else if op == Some(Ret) {
        return false;
      }
      k := k + 1;
    }
  }

  // ----- garbage -----

  predicate TestsGarbage(gone: Dbref -> bool, i: Ins) {
    (i.IRef? || i.IInd?) && gone(i.thing)
  }

  function PatchedIns(gone: Dbref -> bool, i: Ins): Ins {
    if TestsGarbage(gone, i) then ILoadR(0) else i
  }

  function Patched(gone: Dbref -> bool, p: seq<Ins>): (q: seq<Ins>)
    ensures |q| == |p| && forall k :: 0 <= k < |p| ==> q[k] == PatchedIns(gone, p[k])
  {
    if p == [] then [] else [PatchedIns(gone, p[0])] + Patched(gone, p[1..])
  }

  predicate OnGarbage(gone: Dbref -> bool, t: Test) {
    (t.RefTest? || t.IndTest?) && gone(t.thing)
  }

  /** The tests that are left when those of the garbage objects are taken out. */
  function Pruned(gone: Dbref -> bool, tests: seq<Test>): seq<Test> {
    if tests == [] then []
    else Pruned(gone, tests[..|tests| - 1]) + if OnGarbage(gone, tests[|tests| - 1]) then [] else [tests[|tests| - 1]]
  }

  lemma PrunedSnoc(gone: Dbref -> bool, tests: seq<Test>, t: Test)
    ensures Pruned(gone, tests + [t]) == Pruned(gone, tests) + if OnGarbage(gone, t) then [] else [t]
  {
  }

  ghost predicate Alike(gone: Dbref -> bool, m: Regs, m': Regs) {
    m'.r == m.r && m'.s == m.s && m'.trace == Pruned(gone, m.trace)
  }

  /** Two worlds that differ in the objects that are gone only, and these fail every test in the first. */
  ghost predicate AgreeBut(gone: Dbref -> bool, w: World, w': World) {
    (forall d: Dbref :: gone(d) ==> !Live(w, d)) &&
    (forall k: RefKind, d: Dbref :: !gone(d) ==> RefHolds(w, k, d) == RefHolds(w', k, d)) &&
    (forall d: Dbref, lock: Option<Text> :: !gone(d) ==> IndHolds(w, d, lock) == IndHolds(w', d, lock)) &&
    (forall k: PairKind, s: Option<Text>, t: Text :: w.pairOracle(k, s, t) == w'.pairOracle(k, s, t)) &&
    (forall k: FlagKind, t: Text, r: bool :: FlagResult(w, k, t, r) == FlagResult(w', k, t, r))
  }

  lemma AgreeWithItself(gone: Dbref -> bool, w: World)
    requires forall d :: gone(d) ==> w.garbage(d)
    ensures AgreeBut(gone, w, w)
  {
  }

  /** Making the objects garbage is all the difference there need be. */
  lemma AgreeMadeGarbage(gone: Dbref -> bool, w: World)
    ensures AgreeBut(gone, w.(garbage := d => gone(d) || w.garbage(d)), w)
  {
  }

  lemma PatchedEffect(w: World, w': World, gone: Dbref -> bool, i: Ins, m: Regs, m': Regs)
    requires Alike(gone, m, m') && AgreeBut(gone, w, w')
    ensures Alike(gone, Effect(w, i, m), Effect(w', PatchedIns(gone, i), m'))
  {
    hide Pruned, FlagResult;
    match i
    case IRef(k, thing) => PrunedSnoc(gone, m.trace, RefTest(k, thing));
    case IInd(thing) => PrunedSnoc(gone, m.trace, IndTest(thing, m.s));
    case IPair(k, text) => PrunedSnoc(gone, m.trace, PairTest(k, m.s, text));
    case IFlag(k, text) => PrunedSnoc(gone, m.trace, FlagTest(k, text));
    case _ =>
  }

  /** Patching changes no result and skips only the tests of the objects that are gone. */
  lemma {:induction false} PatchedRuns(w: World, w': World, gone: Dbref -> bool, p: seq<Ins>, pc: nat, m: Regs,
      m': Regs)
    requires Alike(gone, m, m') && AgreeBut(gone, w, w')
    ensures Alike(gone, Run(w, p, pc, m), Run(w', Patched(gone, p), pc, m'))
    decreases |p| - pc
  {
    hide Pruned, PatchedIns, AgreeBut;
    if pc < |p| {
      assert Patched(gone, p)[pc] == PatchedIns(gone, p[pc]);
      PatchedFlow(gone, p[pc]);
      PatchedEffect(w, w', gone, p[pc], m, m');
      if p[pc] != IRet && NextPc(p, pc, m) > pc {
        PatchedRuns(w, w', gone, p, NextPc(p, pc, m), Effect(w, p[pc], m), Effect(w', PatchedIns(gone, p[pc]), m'));
      }
    }
  }

  lemma PatchedFlow(gone: Dbref -> bool, i: Ins)
    ensures i.IJmp? || i == IRet ==> PatchedIns(gone, i) == i
    ensures !i.IJmp? && i != IRet ==> !PatchedIns(gone, i).IJmp? && PatchedIns(gone, i) != IRet
  {
  }

  lemma StringFromAgrees(a: seq<Byte>, b: seq<Byte>, i: int)
    requires |a| == |b| && (forall j :: i <= j < |a| && 0 <= j ==> a[j] == b[j])
    ensures StringFrom(a, i) == StringFrom(b, i)
    decreases |a| - i
  {
    if 0 <= i < |a| && a[i] != 0 { StringFromAgrees(a, b, i + 1); }
  }

  /** An instruction whose own bytes and whose string are unchanged reads as before. */
  lemma InsAtAgrees(a: seq<Byte>, b: seq<Byte>, p: seq<Ins>, k: nat)
    requires |a| == |b| && Encodes(a, p) && k < |p|
    requires forall j :: INSN_LEN * k <= j < INSN_LEN * k + INSN_LEN ==> a[j] == b[j]
    requires forall j :: INSN_LEN * |p| <= j < |a| ==> a[j] == b[j]
    ensures InsAt(b, INSN_LEN * k) == Some(p[k]) && IntAt(b, INSN_LEN * k + 1) == IntAt(a, INSN_LEN * k + 1)
  {
    hide StringFrom, DecodeInt, OpOf;
    assert InsAt(a, INSN_LEN * k) == Some(p[k]);
    if HasText(p[k]) { StringFromAgrees(a, b, IntAt(a, INSN_LEN * k + 1)); }
  }

  /** Writing LOADR 0 over instruction `k` changes that instruction and no other. */
  lemma OverwriteEncodes(a: seq<Byte>, b: seq<Byte>, p: seq<Ins>, k: nat)
    requires Encodes(a, p) && k < |p| && |a| == |b|
    requires b[INSN_LEN * k..INSN_LEN * k + INSN_LEN] == [18, 0, 0, 0, 0]
    requires b[..INSN_LEN * k] == a[..INSN_LEN * k] && b[INSN_LEN * k + INSN_LEN..] == a[INSN_LEN * k + INSN_LEN..]
    ensures Encodes(b, p[k := ILoadR(0)])
  {
    var q := p[k := ILoadR(0)];
    var at := INSN_LEN * k;
    var mid := b[at..at + INSN_LEN];
    assert b[at] == mid[0] && b[at + 1] == mid[1] && b[at + 2] == mid[2] && b[at + 3] == mid[3] && b[at + 4] == mid[4];
    assert forall j :: 0 <= j < at ==> b[j] == b[..at][j] == a[..at][j] == a[j];
    assert forall j :: at + INSN_LEN <= j < |b| ==>
      b[j] == b[at + INSN_LEN..][j - at - INSN_LEN] == a[at + INSN_LEN..][j - at - INSN_LEN] == a[j];
    assert InsAt(b, at) == Some(ILoadR(0));
    forall i | 0 <= i < |q| && i != k
      ensures InsAt(b, INSN_LEN * i) == Some(q[i])
      ensures IntAt(b, INSN_LEN * i + 1) == IntAt(a, INSN_LEN * i + 1)
    {
      InsAtAgrees(a, b, p, i);
    }
  }

  /** Replace the tests of garbage objects by FALSE, in the bytes themselves. */
  method CleanupBoolexp(bytecode: array<Byte>, gone: Dbref -> bool, ghost p: seq<Ins>) returns (revised: bool)
    requires Forward(p) && Encodes(bytecode[..], p)
    modifies bytecode
    ensures Encodes(bytecode[..], Patched(gone, p))
    ensures revised <==> AnyGarbage(gone, p, |p|)
    ensures BytesPatched(gone, p, |p|, old(bytecode[..]), bytecode[..])
    ensures !revised ==> bytecode[..] == old(bytecode[..])
  {
    hide Encodes, IntAt, Patched, PatchedIns, PartPatched, AnyGarbage, Forward, OpOf, BytesPatched;
    revised := false;
    var pc := 0;
    ghost var k, q := 0, p;
    PatchedStarts(gone, p);
    NoBytesPatched(gone, p, bytecode[..]);
    ForwardStarts(p);
    while true
      invariant k < |p| == |q| && pc == INSN_LEN * k && Encodes(bytecode[..], q)
      invariant PartPatched(gone, p, k, q) && revised == AnyGarbage(gone, p, k)
      invariant BytesPatched(gone, p, k, old(bytecode[..]), bytecode[..])
      invariant !revised ==> bytecode[..] == old(bytecode[..])
      decreases |p| - k
    {
      Decoded(bytecode[..], q, k);
      EncodesBound(bytecode[..], q, k);
      var op := OpOf(bytecode[pc]);
      var arg := IntAt(bytecode[..], pc + 1);
      PatchedNext(gone, p, k, q);
      if op == Some(Ret) {
        PatchedDone(gone, p, k, q);
        OneMorePatched(gone, p, k, old(bytecode[..]), bytecode[..], bytecode[..]);
        return;
      }
      ForwardGoesOn(p, k);
      ghost var now := bytecode[..];
      if (op == Some(TInd) || (op.Some? && op.value.TRef?)) && gone(arg) {
        revised := true;
        ghost var before := bytecode[..];
        Overwrite(bytecode, pc);
        OverwriteEncodes(before, bytecode[..], q, k);
        q := q[k := ILoadR(0)];
      }
      OneMorePatched(gone, p, k, old(bytecode[..]), now, bytecode[..]);
      pc := pc + INSN_LEN;
      k := k + 1;
    }
  }

  /** The bytes of the first `n` instructions are patched: LOADR 0 for every test of an object that is gone, and every
      other byte as it was. */
  ghost predicate BytesPatched(gone: Dbref -> bool, p: seq<Ins>, n: nat, was: seq<Byte>, now: seq<Byte>)
    requires n <= |p|
  {
    |now| == |was| && INSN_LEN * |p| <= |now| &&
    (forall i :: 0 <= i < n && TestsGarbage(gone, p[i]) ==>
       now[INSN_LEN * i..INSN_LEN * i + INSN_LEN] == [18, 0, 0, 0, 0]) &&
    (forall i :: 0 <= i < n && !TestsGarbage(gone, p[i]) ==>
       now[INSN_LEN * i..INSN_LEN * i + INSN_LEN] == was[INSN_LEN * i..INSN_LEN * i + INSN_LEN]) &&
    now[INSN_LEN * n..] == was[INSN_LEN * n..]
  }

  lemma NoBytesPatched(gone: Dbref -> bool, p: seq<Ins>, bs: seq<Byte>)
    requires Encodes(bs, p)
    ensures BytesPatched(gone, p, 0, bs, bs)
  {
    if |p| > 0 { EncodesBound(bs, p, |p| - 1); }
  }

  lemma OneMorePatched(gone: Dbref -> bool, p: seq<Ins>, n: nat, was: seq<Byte>, now: seq<Byte>, next: seq<Byte>)
    requires n < |p| && BytesPatched(gone, p, n, was, now) && |next| == |now|
    requires if TestsGarbage(gone, p[n]) then
               next[INSN_LEN * n..INSN_LEN * n + INSN_LEN] == [18, 0, 0, 0, 0] &&
               next[..INSN_LEN * n] == now[..INSN_LEN * n] &&
               next[INSN_LEN * n + INSN_LEN..] == now[INSN_LEN * n + INSN_LEN..]
             else next == now
    ensures BytesPatched(gone, p, n + 1, was, next)
  {
    hide TestsGarbage;
    var at := INSN_LEN * n;
    assert now[at..][INSN_LEN..] == now[at + INSN_LEN..] && was[at..][INSN_LEN..] == was[at + INSN_LEN..];
    assert now[at..][..INSN_LEN] == now[at..at + INSN_LEN] && was[at..][..INSN_LEN] == was[at..at + INSN_LEN];
    forall i | 0 <= i < n
      ensures next[INSN_LEN * i..INSN_LEN * i + INSN_LEN] == now[INSN_LEN * i..INSN_LEN * i + INSN_LEN]
    {
      assert next[..at][INSN_LEN * i..INSN_LEN * i + INSN_LEN] == next[INSN_LEN * i..INSN_LEN * i + INSN_LEN];
      assert now[..at][INSN_LEN * i..INSN_LEN * i + INSN_LEN] == now[INSN_LEN * i..INSN_LEN * i + INSN_LEN];
    }
  }

  lemma ForwardGoesOn(p: seq<Ins>, k: nat)
    requires Forward(p) && k < |p| && p[k] != IRet
    ensures k + 1 < |p|
  {
  }

  lemma EncodesBound(bs: seq<Byte>, p: seq<Ins>, k: nat)
    requires Encodes(bs, p) && k < |p|
    ensures INSN_LEN * k + INSN_LEN <= |bs|
  {
  }

  /** `q` is `p` with its first `k` instructions patched. */
  ghost predicate PartPatched(gone: Dbref -> bool, p: seq<Ins>, k: nat, q: seq<Ins>) {
    |q| == |p| && forall i :: 0 <= i < |p| ==> q[i] == if i < k then PatchedIns(gone, p[i]) else p[i]
  }

  ghost predicate AnyGarbage(gone: Dbref -> bool, p: seq<Ins>, k: nat) {
    exists j :: 0 <= j < k && j < |p| && TestsGarbage(gone, p[j])
  }

  lemma PatchedStarts(gone: Dbref -> bool, p: seq<Ins>)
    ensures PartPatched(gone, p, 0, p) && !AnyGarbage(gone, p, 0)
  {
  }

  /** One more instruction. */
  lemma PatchedNext(gone: Dbref -> bool, p: seq<Ins>, k: nat, q: seq<Ins>)
    requires k < |p| && PartPatched(gone, p, k, q)
    ensures q[k] == p[k]
    ensures TestsGarbage(gone, p[k]) ==> PartPatched(gone, p, k + 1, q[k := ILoadR(0)])
    ensures !TestsGarbage(gone, p[k]) ==> PartPatched(gone, p, k + 1, q)
    ensures AnyGarbage(gone, p, k + 1) <==> AnyGarbage(gone, p, k) || TestsGarbage(gone, p[k])
  {
  }

  lemma RetIsNoTest(gone: Dbref -> bool, i: Ins)
    ensures i == IRet ==> !TestsGarbage(gone, i)
  {
  }

  /** At the return everything is patched. */
  lemma PatchedDone(gone: Dbref -> bool, p: seq<Ins>, k: nat, q: seq<Ins>)
    requires Forward(p) && k < |p| && p[k] == IRet && PartPatched(gone, p, k, q)
    ensures q == Patched(gone, p) && k + 1 == |p| && !TestsGarbage(gone, p[k])
    ensures AnyGarbage(gone, p, k) <==> AnyGarbage(gone, p, |p|)
  {
    hide TestsGarbage, Patched, PatchedIns;
    assert k == |p| - 1;
    PatchedFlow(gone, p[k]);
    RetIsNoTest(gone, p[k]);
    var r := Patched(gone, p);
    forall i | 0 <= i < |p| ensures q[i] == r[i] {
      assert r[i] == PatchedIns(gone, p[i]);
    }
  }

  /** Copy the instruction LOADR 0 to `pc`. */
  method Overwrite(bytecode: array<Byte>, pc: nat)
    requires pc + INSN_LEN <= bytecode.Length
    modifies bytecode
    ensures bytecode[pc..pc + INSN_LEN] == [18, 0, 0, 0, 0]
    ensures bytecode[..pc] == old(bytecode[..pc]) && bytecode[pc + INSN_LEN..] == old(bytecode[pc + INSN_LEN..])
  {
    bytecode[pc] := OpCode(LoadR);
    bytecode[pc + 1], bytecode[pc + 2], bytecode[pc + 3], bytecode[pc + 4] := 0, 0, 0, 0;
  }

  /** A lock patched where its objects are gone still gives the answer of the tree it came from. */
  lemma {:induction false} PatchedAnswers(w: World, gone: Dbref -> bool, p: seq<Ins>, e: Expr)
    requires Answers(p, e) && forall d :: gone(d) ==> w.garbage(d)
    ensures Run(w, Patched(gone, p), 0, START).r == EvalTree(w, e, START).r
    ensures Run(w, Patched(gone, p), 0, START).trace == Pruned(gone, EvalTree(w, e, START).trace)
  {
    hide Run, EvalTree, AgreeBut, Pruned;
    assert Run(w, p, 0, START).r == EvalTree(w, e, START).r;
    AgreeWithItself(gone, w);
    assert Pruned(gone, []) == [] by { NothingPruned(gone); }
    PatchedRuns(w, w, gone, p, 0, START, START);
  }

  lemma NothingPruned(gone: Dbref -> bool)
    ensures Pruned(gone, []) == []
  {
  }

  // ----- what a patched lock is the code of -----

  /** The tree with FALSE in place of every test of an object that is gone. */
  function WithoutGone(gone: Dbref -> bool, e: Expr): Expr {
    match e
    case And(a, b) => And(WithoutGone(gone, a), WithoutGone(gone, b))
    case Or(a, b) => Or(WithoutGone(gone, a), WithoutGone(gone, b))
    case Not(n) => Not(WithoutGone(gone, n))
    case Ref(_, thing) => if gone(thing) then Bool(false) else e
    case Ind(thing, _) => if gone(thing) then Bool(false) else e
    case _ => e
  }

  /** The same value, and the same tests but those of the objects that are gone. */
  lemma {:induction false} WithoutGoneEval(w: World, w': World, gone: Dbref -> bool, e: Expr, m: Regs, m': Regs)
    requires AgreeBut(gone, w, w') && m'.r == m.r && m'.trace == Pruned(gone, m.trace)
    ensures var n, n' := EvalTree(w, e, m), EvalTree(w', WithoutGone(gone, e), m');
            n'.r == n.r && n'.trace == Pruned(gone, n.trace)
    decreases e
  {
    hide AgreeBut, Pruned;
    match e
    case And(a, b) =>
      WithoutGoneEval(w, w', gone, a, m, m');
      WithoutGoneEval(w, w', gone, b, EvalTree(w, a, m), EvalTree(w', WithoutGone(gone, a), m'));
    case Or(a, b) =>
      WithoutGoneEval(w, w', gone, a, m, m');
      WithoutGoneEval(w, w', gone, b, EvalTree(w, a, m), EvalTree(w', WithoutGone(gone, a), m'));
    case Not(n) => WithoutGoneEval(w, w', gone, n, m, m');
    case _ => WithoutGoneAtom(w, w', gone, e, m, m');
  }

  lemma WithoutGoneAtom(w: World, w': World, gone: Dbref -> bool, e: Expr, m: Regs, m': Regs)
    requires AgreeBut(gone, w, w') && m'.r == m.r && m'.trace == Pruned(gone, m.trace)
    requires !e.And? && !e.Or? && !e.Not?
    ensures var n, n' := EvalTree(w, e, m), EvalTree(w', WithoutGone(gone, e), m');
            n'.r == n.r && n'.trace == Pruned(gone, n.trace)
  {
    hide Pruned, FlagResult;
    match e
    case Ref(k, thing) => PrunedSnoc(gone, m.trace, RefTest(k, thing));
    case Ind(thing, lock) => PrunedSnoc(gone, m.trace, IndTest(thing, Some(lock)));
    case Pair(k, name, text) => PrunedSnoc(gone, m.trace, PairTest(k, Some(name), text));
    case Flag(k, text) => PrunedSnoc(gone, m.trace, FlagTest(k, text));
    case _ =>
  }

  /** In every world the patched program answers for the tree without the objects that are gone. */
  lemma PatchedIsCode(gone: Dbref -> bool, p: seq<Ins>, e: Expr)
    requires Answers(p, e)
    ensures Answers(Patched(gone, p), WithoutGone(gone, e))
  {
    hide Run, EvalTree, AgreeBut, Pruned, Patched, WithoutGone;
    NothingPruned(gone);
    forall w: World
      ensures Run(w, Patched(gone, p), 0, START).r == EvalTree(w, WithoutGone(gone, e), START).r
      ensures Run(w, Patched(gone, p), 0, START).trace == EvalTree(w, WithoutGone(gone, e), START).trace
    {
      var w0 := w.(garbage := d => gone(d) || w.garbage(d));
      AgreeMadeGarbage(gone, w);
      assert Run(w0, p, 0, START).r == EvalTree(w0, e, START).r;
      PatchedRuns(w0, w, gone, p, 0, START, START);
      WithoutGoneEval(w0, w, gone, e, START, START);
    }
  }

  lemma ForwardPatched(gone: Dbref -> bool, p: seq<Ins>)
    requires Forward(p)
    ensures Forward(Patched(gone, p))
  {
    var q := Patched(gone, p);
    forall k | 0 <= k < |p| ensures (q[k] == IRet <==> p[k] == IRet) && (q[k].IJmp? ==> q[k] == p[k]) {
      PatchedFlow(gone, p[k]);
    }
  }

  /** So patched bytes are bytes the machine takes. */
  lemma PatchedForMachine(bs: seq<Byte>, gone: Dbref -> bool, p: seq<Ins>, e: Expr)
    requires Forward(p) && Answers(p, e) && Encodes(bs, Patched(gone, p))
    ensures CompiledFrom(bs, WithoutGone(gone, e))
  {
    hide Encodes, Answers, WithoutGone;
    PatchedIsCode(gone, p, e);
    ForwardPatched(gone, p);
  }

  /** All locks of a game without the objects that are gone. */
  function CleanedLocks(gone: Dbref -> bool, locks: Locks): Locks {
    map k <- locks :: WithoutGone(gone, locks[k])
  }

  function CleanedLock(gone: Dbref -> bool, lock: Option<Expr>): Option<Expr> {
    match lock
    case Some(e) => Some(WithoutGone(gone, e))
    case None => None
  }

  /** Cleaning the locks of a game of garbage changes no answer, however the locks ask one another. */
  lemma {:induction false} CleanedHolds(g: Game, locks: Locks, gone: Dbref -> bool, player: Dbref,
      lock: Option<Expr>, target: Dbref, depth: nat)
    requires depth <= g.maxDepth + 1 && forall d :: gone(d) ==> g.garbage(d)
    ensures LockHolds(g, CleanedLocks(gone, locks), player, CleanedLock(gone, lock), target, depth) ==
            LockHolds(g, locks, player, lock, target, depth)
    decreases g.maxDepth + 1 - depth, 1
  {
    if depth <= g.maxDepth && lock.Some? {
      hide EvalTree, WithoutGone, AgreeBut, Pruned;
      var w := WorldAt(g, locks, player, target, depth);
      var w' := WorldAt(g, CleanedLocks(gone, locks), player, target, depth);
      CleanedWorlds(g, locks, gone, player, target, depth);
      NothingPruned(gone);
      WithoutGoneEval(w, w', gone, lock.value, START, START);
    }
  }

  lemma {:induction false} CleanedWorlds(g: Game, locks: Locks, gone: Dbref -> bool, player: Dbref, target: Dbref,
      depth: nat)
    requires depth <= g.maxDepth && forall d :: gone(d) ==> g.garbage(d)
    ensures AgreeBut(gone, WorldAt(g, locks, player, target, depth),
                     WorldAt(g, CleanedLocks(gone, locks), player, target, depth))
    decreases g.maxDepth + 1 - depth, 0
  {
    hide LockHolds, EvalTree, WithoutGone;
    var w, w' := WorldAt(g, locks, player, target, depth), WorldAt(g, CleanedLocks(gone, locks), player, target, depth);
    forall d: Dbref, s: Option<Text> ensures IndHolds(w, d, s) == IndHolds(w', d, s) {
      WorldInd(g, locks, player, target, depth, d, s);
      WorldInd(g, CleanedLocks(gone, locks), player, target, depth, d, s);
      if s.Some? {
        CleanedHolds(g, locks, gone, player, Lookup(locks, d, s.value), d, depth + 1);
      }
    }
  }
}

/**
 The case of lock names does not matter: a lock whose names come back in other letters answers as before.
 */
module LockCase {
  import opened Basics
  import opened LockLanguage
  import opened LockMachine
  import opened LockScanner
  import opened LockSpelling
  import opened LockReading
  import opened LockRoundTrip
  import opened LockReloaded

  /** The same tree but for the case of lock names. */
  predicate Recased(a: Expr, b: Expr) {
    match a
    case And(x, y) => b.And? && Recased(x, b.left) && Recased(y, b.right)
    case Or(x, y) => b.Or? && Recased(x, b.left) && Recased(y, b.right)
    case Not(n) => b.Not? && Recased(n, b.body)
    case Ind(d, lock) => b.Ind? && b.thing == d && Upper(b.lock) == Upper(lock)
    case _ => a == b
  }

  ghost predicate CaseBlind(w: World) {
    forall d: Dbref, x: Text, y: Text :: Upper(x) == Upper(y) ==> IndHolds(w, d, Some(x)) == IndHolds(w, d, Some(y))
  }

  lemma {:induction false} RecasedEval(w: World, a: Expr, b: Expr, m: Regs, m': Regs)
    requires CaseBlind(w) && Recased(a, b) && m.r == m'.r
    ensures EvalTree(w, a, m).r == EvalTree(w, b, m').r
  {
    hide CaseBlind;
    match a
    case And(x, y) =>
      RecasedEval(w, x, b.left, m, m');
      RecasedEval(w, y, b.right, EvalTree(w, x, m), EvalTree(w, b.left, m'));
    case Or(x, y) =>
      RecasedEval(w, x, b.left, m, m');
      RecasedEval(w, y, b.right, EvalTree(w, x, m), EvalTree(w, b.left, m'));
    case Not(n) => RecasedEval(w, n, b.body, m, m');
    case Ind(d, lock) => RecasedTest(w, d, lock, b.lock);
    case _ =>
  }

  lemma RecasedTest(w: World, d: Dbref, x: Text, y: Text)
    requires CaseBlind(w) && Upper(x) == Upper(y)
    ensures IndHolds(w, d, Some(x)) == IndHolds(w, d, Some(y))
  {
  }

  /** Locks are found, and asked whether they may be read, without regard to case. */
  lemma WorldCaseBlind(g: Game, locks: Locks, player: Dbref, target: Dbref, depth: nat)
    requires depth <= g.maxDepth
    ensures CaseBlind(WorldAt(g, locks, player, target, depth))
  {
    hide WorldAt, LockHolds, Upper;
    var w := WorldAt(g, locks, player, target, depth);
    forall d: Dbref, x: Text, y: Text | Upper(x) == Upper(y)
      ensures IndHolds(w, d, Some(x)) == IndHolds(w, d, Some(y))
    {
      WorldInd(g, locks, player, target, depth, d, Some(x));
      WorldInd(g, locks, player, target, depth, d, Some(y));
    }
  }

  lemma {:induction false} ReloadedRecased(r: Reader, e: Expr)
    requires ReaderOk(r) && GoodLocks(e) && NamesTrimmed(e) && TextsKept(e)
    ensures Recased(e, Reloaded(r, e))
  {
    hide GoodName, ReaderOk, LockNamed, PairBody, FlagBody, Upper;
    match e
    case And(a, b) => ReloadedRecased(r, a); ReloadedRecased(r, b);
    case Or(a, b) => ReloadedRecased(r, a); ReloadedRecased(r, b);
    case Not(n) => ReloadedRecased(r, n);
    case Ind(_, lock) => NameCase(r, lock);
    case _ =>
  }

  /** No lock name ends with space. */
  predicate NamesTrimmed(e: Expr) {
    match e
    case And(a, b) => NamesTrimmed(a) && NamesTrimmed(b)
    case Or(a, b) => NamesTrimmed(a) && NamesTrimmed(b)
    case Not(n) => NamesTrimmed(n)
    case Ind(_, lock) => Trimmed(lock) == lock
    case _ => true
  }

  /** No text is escaped. */
  predicate TextsKept(e: Expr) {
    match e
    case And(a, b) => TextsKept(a) && TextsKept(b)
    case Or(a, b) => TextsKept(a) && TextsKept(b)
    case Not(n) => TextsKept(n)
    case Pair(k, name, text) => TextKept(PairTok(k, name, text))
    case Flag(k, text) => TextKept(FlagTok(k, text))
    case _ => true
  }

  lemma NameCase(r: Reader, lock: Text)
    requires ReaderOk(r) && Trimmed(lock) == lock
    ensures Upper(LockNamed(r, NameRead(lock))) == Upper(lock)
  {
    assert Upper(Upper(lock)) == Upper(lock);
  }

  /** A lock that was read back with its names in other letters lets the same players pass, at every depth. */
  lemma ReloadedHolds(g: Game, locks: Locks, player: Dbref, r: Reader, e: Expr, target: Dbref, depth: nat)
    requires ReaderOk(r) && GoodLocks(e) && NamesTrimmed(e) && TextsKept(e) && depth <= g.maxDepth + 1
    ensures LockHolds(g, locks, player, Some(Regrouped(Reloaded(r, e))), target, depth) ==
            LockHolds(g, locks, player, Some(e), target, depth)
  {
    hide EvalTree, WorldAt, ReaderOk, Recased, CaseBlind, GoodLocks, NamesTrimmed, TextsKept, Reloaded;
    if depth <= g.maxDepth {
      var w := WorldAt(g, locks, player, target, depth);
      WorldCaseBlind(g, locks, player, target, depth);
      ReloadedRecased(r, e);
      RecasedEval(w, e, Reloaded(r, e), START, START);
      RegroupedEval(w, Reloaded(r, e), START);
    }
  }
}

/**
 What locks answer, in the terms of the game, and what becomes of a lock that a player types to have it tested.
 */
module LockAnswer {
  import opened Basics
  import opened LockLanguage
  import opened LockTree
  import opened LockMachine
  import opened LockScanner
  import opened LockText
  import opened LockRoundTrip
  import opened LockSource
  import opened LockFits
  import opened LockPipeline

  /** Does a lock on `target` let the player pass, `depth` locks deep? No machine and no registers; a lock that is asked
      in turn is one lock deeper. */
  ghost predicate Grants(g: Game, locks: Locks, player: Dbref, e: Expr, target: Dbref, depth: nat)
    requires depth <= g.maxDepth
  {
    match e
    case And(a, b) => Grants(g, locks, player, a, target, depth) && Grants(g, locks, player, b, target, depth)
    case Or(a, b) => Grants(g, locks, player, a, target, depth) || Grants(g, locks, player, b, target, depth)
    case Not(n) => !Grants(g, locks, player, n, target, depth)
    case Bool(v) => v
    case Ref(k, d) =>
      g.good(d) && !g.garbage(d) &&
      (match k
       case Is => d == player
       case Carry => g.member(d, player)
       case Const => d == player || g.member(d, player)
       case Owner => g.owner(d) == g.owner(player))
    case Ind(d, lock) =>
      g.good(d) && !g.garbage(d) && g.canReadLock(target, d, Upper(lock)) &&
      LockHolds(g, locks, player, Lookup(locks, d, lock), d, depth + 1)
    case Pair(k, name, text) => g.pairTest(player, target, k, Some(name), text)
    case Flag(k, text) =>
      if k == TypeLock then TypeNamed(text, g.typeOf(player)) else g.flagTest(player, target, k, text)
  }

  lemma {:induction false} TreeGrants(g: Game, locks: Locks, player: Dbref, e: Expr, target: Dbref, depth: nat)
    requires depth <= g.maxDepth
    ensures Holds(WorldAt(g, locks, player, target, depth), e) == Grants(g, locks, player, e, target, depth)
  {
    hide WorldAt, LockHolds;
    match e
    case And(a, b) => TreeGrants(g, locks, player, a, target, depth); TreeGrants(g, locks, player, b, target, depth);
    case Or(a, b) => TreeGrants(g, locks, player, a, target, depth); TreeGrants(g, locks, player, b, target, depth);
    case Not(n) => TreeGrants(g, locks, player, n, target, depth);
    case Ref(k, d) => RefAnswer(g, locks, player, target, depth, k, d);
    case Ind(d, lock) => IndAnswer(g, locks, player, target, depth, d, lock);
    case Bool(_) => WordAnswer(g, locks, player, target, depth, e);
    case Pair(_, _, _) => WordAnswer(g, locks, player, target, depth, e);
    case Flag(_, _) => WordAnswer(g, locks, player, target, depth, e);
  }

  /** A missing lock lets every good player pass, any other those it grants; too deep down nobody passes. */
  lemma HoldsExactly(g: Game, locks: Locks, player: Dbref, lock: Option<Expr>, target: Dbref, depth: nat)
    requires depth <= g.maxDepth + 1 && (lock.Some? ==> TypesSettled(lock.value, false))
    ensures LockHolds(g, locks, player, lock, target, depth) <==>
            g.good(player) && depth <= g.maxDepth &&
            (lock.None? || Grants(g, locks, player, lock.value, target, depth))
  {
    hide WorldAt, EvalTree, Holds, Grants;
    if lock.Some? && depth <= g.maxDepth {
      EvalTreeHolds(WorldAt(g, locks, player, target, depth), lock.value, START);
      TreeGrants(g, locks, player, lock.value, target, depth);
    }
  }

  /** The lock a player typed, optimised, answers what the text says. */
  lemma SourceHolds(r: Reader, ltype: Text, how: Style, e: Expr, g: Game, locks: Locks, player: Dbref, target: Dbref,
      depth: nat)
    requires Typable(r, how, e) && Spaces(how.gap) && TypesSettled(e, false) && depth <= g.maxDepth + 1
    ensures var read := ReadLock(r, ltype, Source(how, e, 0));
            read.Some? &&
            (LockHolds(g, locks, player, Some(Simplified(read.value)), target, depth) <==>
             g.good(player) && depth <= g.maxDepth && Grants(g, locks, player, e, target, depth))
  {
    hide Typable, Spaces, TypesSettled, ReadLock, Source, EvalTree, WorldAt, Simplified, Regrouped, Grants;
    SourceRead(r, ltype, how, e);
    HoldsExactly(g, locks, player, Some(e), target, depth);
    if depth <= g.maxDepth {
      var w := WorldAt(g, locks, player, target, depth);
      RegroupedEval(w, e, START);
      SimplifiedValue(w, Regrouped(e), START, START);
    }
  }

  // ----- testing a lock that was typed -----

  /** What `testlock()` gives back: a complaint about the lock or about the victim, or the answer. */
  datatype Outcome = BadLock | BadVictim | Stopped | Answer(passes: bool)

  const SEARCH: Text := Ascii("Search")

  /** Compile the lock and have the victim try to pass it. A lock of plain words answers what its text says. */
  method TestLock(m: Machine, r: Reader, text: Text, victim: Dbref, seen: bool, executor: Dbref)
      returns (out: Outcome)
    requires m.Valid() && ReaderOk(r) && |text| < BUFFER_LEN
    modifies m
    ensures m.Valid() && m.recursion == old(m.recursion)
    ensures out.BadLock? <==> ReadLock(r, SEARCH, text).None?
    ensures out.Stopped? <==>
            ReadLock(r, SEARCH, text).Some? && StoredLen(Simplified(ReadLock(r, SEARCH, text).value)) > MAX_CHUNK_LEN
    ensures ReadLock(r, SEARCH, text).Some? && !out.Stopped? ==>
              out == if !m.game.good(victim) || !seen then BadVictim
                     else Answer(LockHolds(m.game, m.locks, victim,
                                           Some(Simplified(ReadLock(r, SEARCH, text).value)), executor,
                                           old(m.recursion)))
    ensures forall how, e :: Typable(r, how, e) && Spaces(how.gap) && TypesSettled(e, false) &&
                             text == Source(how, e, 0) && !out.Stopped? ==>
              out == if !m.game.good(victim) || !seen then BadVictim
                     else Answer(old(m.recursion) <= m.game.maxDepth &&
                                 Grants(m.game, m.locks, victim, e, executor, old(m.recursion)))
  {
    hide Typable, Spaces, TypesSettled, ReadLock, Source, Grants, LockHolds, Simplified, ReaderOk, CompiledFrom,
         StoredLen;
    var b, p := ParseBoolexp(r, text, SEARCH);
    if b.Panic? { return Stopped; }
    if b.Unlocked? { out := BadLock; }
    else if !m.game.good(victim) || !seen { out := BadVictim; }
    else {
      ghost var e := Simplified(ReadLock(r, SEARCH, text).value);
      var passes := m.EvalBoolexp(victim, Some(b.bytes), executor, Some(e));
      out := Answer(passes);
    }
    forall how, e | Typable(r, how, e) && Spaces(how.gap) && TypesSettled(e, false) && text == Source(how, e, 0)
      ensures out == if !m.game.good(victim) || !seen then BadVictim
                     else Answer(old(m.recursion) <= m.game.maxDepth &&
                                 Grants(m.game, m.locks, victim, e, executor, old(m.recursion)))
    {
      SourceHolds(r, SEARCH, how, e, m.game, m.locks, victim, executor, old(m.recursion));
    }
  }
}

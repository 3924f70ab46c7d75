/**
 What a printed lock is read as where there is room for all of it: its tree with every lock name in its proper form and
 with the backslashes of the printer in its texts, or no lock at all if some lock name is not good.
 */
module LockReloaded {
  import opened Basics
  import opened LockLanguage
  import opened LockAssembler
  import opened LockScanner
  import opened LockText
  import opened LockSpelling
  import opened LockReading
  import opened LockDecompiler
  import opened LockRoundTrip
  import opened LockReload

  /** The tree with every word as it is read back. */
  function Reloaded(r: Reader, e: Expr): Expr {
    match e
    case And(a, b) => And(Reloaded(r, a), Reloaded(r, b))
    case Or(a, b) => Or(Reloaded(r, a), Reloaded(r, b))
    case Not(n) => Not(Reloaded(r, n))
    case Ind(d, lock) => Ind(d, LockNamed(r, NameRead(lock)))
    case Pair(k, name, text) => Pair(k, name, PairBody(k, text))
    case Flag(k, text) => Flag(k, FlagBody(k, text))
    case _ => e
  }

  /** Every lock name is a good name, whatever its case. */
  predicate GoodLocks(e: Expr) {
    match e
    case And(a, b) => GoodLocks(a) && GoodLocks(b)
    case Or(a, b) => GoodLocks(a) && GoodLocks(b)
    case Not(n) => GoodLocks(n)
    case Ind(_, lock) => GoodName(NameRead(lock))
    case _ => true
  }

  /** The tokens as they are read, with `rest` behind them; nothing after one that makes the parser give up. */
  function Rereads(r: Reader, ts: seq<Tok>, rest: seq<Tok>): seq<Tok> {
    if ts == [] then rest else TokAnd(Reread(r, ts[0]), Rereads(r, ts[1..], rest))
  }

  lemma {:induction false} RereadsAppend(r: Reader, a: seq<Tok>, b: seq<Tok>, rest: seq<Tok>)
    ensures Rereads(r, a + b, rest) == Rereads(r, a, Rereads(r, b, rest))
  {
    hide Reread;
    if a == [] {
      assert a + b == b;
    } else {
      assert (a + b)[1..] == a[1..] + b;
      RereadsAppend(r, a[1..], b, rest);
    }
  }

  lemma RereadsSign(r: Reader, t: Tok, rest: seq<Tok>)
    requires !t.SlashTok? && !t.PairTok? && !t.FlagTok? && !t.UnknownTok?
    ensures Rereads(r, [t], rest) == [t] + rest
  {
    assert Rereads(r, [t][1..], rest) == rest;
  }

  // ----- all names good -----

  lemma {:induction false} RereadsPrinted(r: Reader, e: Expr, outer: Outer, rest: seq<Tok>)
    requires GoodLocks(e)
    ensures Rereads(r, Printed(e, outer), rest) == Printed(Reloaded(r, e), outer) + rest
    decreases e, 1
  {
    hide Reread, Rereads;
    match e
    case And(_, _) => RereadsBinary(r, e, outer, rest);
    case Or(_, _) => RereadsBinary(r, e, outer, rest);
    case Not(n) =>
      RereadsPrinted(r, n, InNot, rest);
      RereadsAppend(r, [NotTok], Printed(n, InNot), rest);
      RereadsSign(r, NotTok, Rereads(r, Printed(n, InNot), rest));
      assert Printed(Reloaded(r, e), outer) + rest == [NotTok] + (Printed(Reloaded(r, n), InNot) + rest);
    case _ => RereadsAtom(r, e, outer, rest);
  }

  lemma RereadsAtom(r: Reader, e: Expr, outer: Outer, rest: seq<Tok>)
    requires GoodLocks(e) && !e.And? && !e.Or? && !e.Not?
    ensures Rereads(r, Printed(e, outer), rest) == Printed(Reloaded(r, e), outer) + rest
  {
    hide GoodName, PairBody, FlagBody, NameRead, LockNamed, Rereads;
    match e
    case Ref(Const, d) => RereadsSign(r, NameTok(d), rest);
    case Ref(_, d) => RereadsMarked(r, Printed(e, outer)[0], d, rest);
    case Ind(d, lock) => RereadsIndirect(r, d, lock, rest);
    case Pair(k, name, text) => RereadsOne(r, PairTok(k, name, text), rest);
    case Flag(k, text) => RereadsOne(r, FlagTok(k, text), rest);
    case Bool(v) => RereadsSign(r, TruthTok(v), rest);
  }

  lemma RereadsIndirect(r: Reader, d: Dbref, lock: Text, rest: seq<Tok>)
    requires GoodName(NameRead(lock))
    ensures Rereads(r, [AtTok, NameTok(d), SlashTok(lock)], rest) ==
            [AtTok, NameTok(d), SlashTok(LockNamed(r, NameRead(lock)))] + rest
  {
    hide Rereads, GoodName, NameRead, LockNamed;
    var t := SlashTok(LockNamed(r, NameRead(lock)));
    assert [AtTok, NameTok(d), SlashTok(lock)] == [AtTok, NameTok(d)] + [SlashTok(lock)];
    RereadsAppend(r, [AtTok, NameTok(d)], [SlashTok(lock)], rest);
    RereadsOne(r, SlashTok(lock), rest);
    RereadsMarked(r, AtTok, d, [t] + rest);
    assert [AtTok, NameTok(d)] + ([t] + rest) == [AtTok, NameTok(d), t] + rest;
  }

  lemma RereadsOne(r: Reader, t: Tok, rest: seq<Tok>)
    ensures Rereads(r, [t], rest) == TokAnd(Reread(r, t), rest)
  {
    hide Reread;
    assert Rereads(r, [t][1..], rest) == rest;
  }

  lemma RereadsMarked(r: Reader, mark: Tok, d: Dbref, rest: seq<Tok>)
    requires mark == AtTok || mark == EqTok || mark == PlusTok || mark == DollarTok
    ensures Rereads(r, [mark, NameTok(d)], rest) == [mark, NameTok(d)] + rest
  {
    hide Rereads;
    RereadsAppend(r, [mark], [NameTok(d)], rest);
    RereadsSign(r, NameTok(d), rest);
    RereadsSign(r, mark, [NameTok(d)] + rest);
    assert [mark] + [NameTok(d)] == [mark, NameTok(d)];
    assert [mark] + ([NameTok(d)] + rest) == [mark, NameTok(d)] + rest;
  }

  /** The tokens of AND and OR, from the right. */
  lemma RereadsOperands(r: Reader, e: Expr, outer: Outer, rest: seq<Tok>)
    requires e.And? || e.Or?
    ensures var close := if Parens(e, outer) then [CloseTok] + rest else rest;
            var ts := Rereads(r, Printed(e.left, Inner(e)),
                              [OperatorTok(e)] + Rereads(r, Printed(e.right, Inner(e)), close));
            Rereads(r, Printed(e, outer), rest) == if Parens(e, outer) then [OpenTok] + ts else ts
  {
    hide Rereads, Reread, Printed;
    var a, o, b := Printed(e.left, Inner(e)), OperatorTok(e), Printed(e.right, Inner(e));
    var close := if Parens(e, outer) then [CloseTok] + rest else rest;
    RereadsAppend(r, a + [o], b, close);
    RereadsAppend(r, a, [o], Rereads(r, b, close));
    RereadsSign(r, o, Rereads(r, b, close));
    if Parens(e, outer) {
      PrintedInParens(e, outer);
      RereadsAppend(r, [OpenTok] + (a + [o] + b), [CloseTok], rest);
      RereadsSign(r, CloseTok, rest);
      RereadsAppend(r, [OpenTok], a + [o] + b, close);
      RereadsSign(r, OpenTok, Rereads(r, a + [o] + b, close));
    } else {
      PrintedBinary(e, outer);
    }
  }

  lemma {:induction false} RereadsBinary(r: Reader, e: Expr, outer: Outer, rest: seq<Tok>)
    requires (e.And? || e.Or?) && GoodLocks(e)
    ensures Rereads(r, Printed(e, outer), rest) == Printed(Reloaded(r, e), outer) + rest
    decreases e, 0
  {
    hide Rereads, Printed;
    var e' := Reloaded(r, e);
    var close := if Parens(e, outer) then [CloseTok] + rest else rest;
    RereadsOperands(r, e, outer, rest);
    RereadsPrinted(r, e.right, Inner(e), close);
    RereadsPrinted(r, e.left, Inner(e), [OperatorTok(e)] + (Printed(e'.right, Inner(e)) + close));
    GlueOperands(Printed(e'.left, Inner(e)), OperatorTok(e), Printed(e'.right, Inner(e)), rest);
    if Parens(e, outer) { PrintedInParens(e', outer); } else { PrintedBinary(e', outer); }
  }

  lemma GlueOperands(a: seq<Tok>, o: Tok, b: seq<Tok>, rest: seq<Tok>)
    ensures a + ([o] + (b + rest)) == a + [o] + b + rest
    ensures [OpenTok] + (a + ([o] + (b + ([CloseTok] + rest)))) == [OpenTok] + (a + [o] + b) + [CloseTok] + rest
  {
  }

  // ----- a name that is not good -----

  lemma {:induction false} StuckF(r: Reader, e: Expr, outer: Outer, rest: seq<Tok>)
    requires IsFactor(e, outer) && !GoodLocks(e)
    ensures ParseF(Rereads(r, Printed(e, outer), rest)) == None
    decreases e, 2
  {
    hide Rereads, Reread;
    match e
    case And(_, _) => StuckParens(r, e, outer, rest);
    case Or(_, _) => StuckParens(r, e, outer, rest);
    case Not(n) =>
      StuckF(r, n, InNot, rest);
      RereadsAppend(r, [NotTok], Printed(n, InNot), rest);
      RereadsSign(r, NotTok, Rereads(r, Printed(n, InNot), rest));
    case Ind(d, lock) => StuckLock(r, d, lock, rest);
  }

  lemma StuckLock(r: Reader, d: Dbref, lock: Text, rest: seq<Tok>)
    requires !GoodName(NameRead(lock))
    ensures ParseF(Rereads(r, [AtTok, NameTok(d), SlashTok(lock)], rest)) == None
  {
    hide Rereads, GoodName;
    assert [AtTok, NameTok(d), SlashTok(lock)] == [AtTok, NameTok(d)] + [SlashTok(lock)];
    RereadsAppend(r, [AtTok, NameTok(d)], [SlashTok(lock)], rest);
    RereadsOne(r, SlashTok(lock), rest);
    RereadsMarked(r, AtTok, d, [UnknownTok]);
    var ts := [AtTok, NameTok(d)] + [UnknownTok];
    assert ts[1..] == [NameTok(d), UnknownTok] && ts[1..][1..] == [UnknownTok];
    assert ParseF(ts) == ParseA(ts) == ParseIndirect(ts[1..]);
  }

  lemma {:induction false} StuckParens(r: Reader, e: Expr, outer: Outer, rest: seq<Tok>)
    requires (e.And? || e.Or?) && Parens(e, outer) && !GoodLocks(e)
    ensures ParseF(Rereads(r, Printed(e, outer), rest)) == None
    decreases e, 1
  {
    hide Rereads, Printed, ParseE;
    StuckOperands(r, e, [CloseTok] + rest);
    RereadsOperands(r, e, outer, rest);
    var ts := Rereads(r, Printed(e, outer), rest);
    var body := Rereads(r, Printed(e.left, Inner(e)),
                        [OperatorTok(e)] + Rereads(r, Printed(e.right, Inner(e)), [CloseTok] + rest));
    assert ts == [OpenTok] + body && ts[1..] == body;
    assert ParseF(ts) == ParseA(ts) == ParseL(ts);
  }

  /** AND and OR as they stand without parentheses. */
  lemma {:induction false} StuckOperands(r: Reader, e: Expr, rest: seq<Tok>)
    requires (e.And? || e.Or?) && !GoodLocks(e)
    ensures var ts := Rereads(r, Printed(e.left, Inner(e)),
                              [OperatorTok(e)] + Rereads(r, Printed(e.right, Inner(e)), rest));
            ParseE(ts) == None && (e.And? ==> ParseT(ts) == None)
    decreases e, 0
  {
    hide Rereads, Printed, ParseT;
    var tail := Rereads(r, Printed(e.right, Inner(e)), rest);
    if !GoodLocks(e.left) {
      if e.And? { StuckT(r, e.left, InAnd, [AndTok] + tail); } else { StuckE(r, e.left, InOr, [OrTok] + tail); }
    } else {
      RereadsPrinted(r, e.left, Inner(e), [OperatorTok(e)] + tail);
      if e.And? {
        StuckT(r, e.right, InAnd, rest);
        AndChainNone(Reloaded(r, e.left), tail);
      } else {
        StuckE(r, e.right, InOr, rest);
        OrChainNone(Reloaded(r, e.left), tail);
      }
    }
  }

  lemma {:induction false} StuckT(r: Reader, e: Expr, outer: Outer, rest: seq<Tok>)
    requires outer != InNot && (e.Or? ==> Parens(e, outer)) && !GoodLocks(e)
    ensures ParseT(Rereads(r, Printed(e, outer), rest)) == None
    decreases e, 3
  {
    hide Rereads, Printed, ParseF;
    if e.And? {
      RereadsOperands(r, e, outer, rest);
      StuckOperands(r, e, rest);
    } else {
      StuckF(r, e, outer, rest);
    }
  }

  lemma {:induction false} StuckE(r: Reader, e: Expr, outer: Outer, rest: seq<Tok>)
    requires (outer == Top || outer == InOr) && !GoodLocks(e)
    ensures ParseE(Rereads(r, Printed(e, outer), rest)) == None
    decreases e, 4
  {
    hide Rereads, Printed, ParseT;
    if e.Or? {
      RereadsOperands(r, e, outer, rest);
      StuckOperands(r, e, rest);
    } else {
      StuckT(r, e, outer, rest);
    }
  }

  /** A chain in front of something that cannot be parsed. */
  lemma {:induction false} AndChainNone(e: Expr, tail: seq<Tok>)
    requires ParseT(tail) == None
    ensures ParseT(Printed(e, InAnd) + ([AndTok] + tail)) == None
    decreases e
  {
    hide Printed, ParseF;
    var ts := [AndTok] + tail;
    assert ts[1..] == tail;
    if e.And? {
      PrintedBinary(e, InAnd);
      AndChainNone(e.right, tail);
      AndChainNone(e.left, Printed(e.right, InAnd) + ts);
      assert Printed(e, InAnd) + ts == Printed(e.left, InAnd) + ([AndTok] + (Printed(e.right, InAnd) + ts));
    } else {
      ParsePrintedF(e, InAnd, ts);
    }
  }

  lemma {:induction false} OrChainNone(e: Expr, tail: seq<Tok>)
    requires ParseE(tail) == None
    ensures ParseE(Printed(e, InOr) + ([OrTok] + tail)) == None
    decreases e
  {
    hide Printed, ParseT;
    var ts := [OrTok] + tail;
    assert ts[1..] == tail;
    if e.Or? {
      PrintedBinary(e, InOr);
      OrChainNone(e.right, tail);
      OrChainNone(e.left, Printed(e.right, InOr) + ts);
      assert Printed(e, InOr) + ts == Printed(e.left, InOr) + ([OrTok] + (Printed(e.right, InOr) + ts));
    } else {
      ParsePrintedT(e, InOr, ts);
    }
  }

  // ----- the result -----

  /** Only the last text may end with a lone backslash. */
  predicate NothingSwallowed(ts: seq<Tok>) {
    forall k :: 0 <= k < |ts| - 1 ==> !Swallows(ts[k])
  }

  lemma {:induction false} ScanRereads(r: Reader, ltype: Text, ts: seq<Tok>, m: Mode, n: nat)
    requires ReaderOk(r) && Chain(ts, m) && AllReadable(r, ts) && n + TextLen(ts) <= LIMIT && NothingSwallowed(ts)
    ensures Scan(r, ltype, Tail(n, ts), m) == Rereads(r, ts, [])
    decreases |ts|
  {
    hide Scan, Spelled, Swallows, ReaderOk, TokReadable, Reread;
    if ts == [] {
      NothingMore(r, ltype);
    } else {
      var w, rest, next := Spelled(ByNumber, ts[0]), ts[1..], Next(ts[0], m);
      var z := Tail(n + |w|, rest);
      assert forall k :: 0 <= k < |rest| ==> rest[k] == ts[k + 1];
      ScanRereads(r, ltype, rest, next, n + |w|);
      FollowsWell(r, n + |w|, rest, next);
      ReadToken(r, ltype, ts[0], z, w + z, m);
    }
  }

  /** Where the whole text fits and no lone backslash runs on, the lock that is read back is the lock that was printed,
      regrouped, with its lock names in their proper form and its texts escaped once more; if some lock name is not good
      it is no lock. */
  lemma ReloadsAs(r: Reader, ltype: Text, e: Expr)
    requires ReaderOk(r) && TreeReadable(r, e)
    requires TextLen(Printed(e, Top)) <= LIMIT && NothingSwallowed(Printed(e, Top))
    ensures 0 !in Written(ByNumber, [], Printed(e, Top))
    ensures ReadLock(r, ltype, Written(ByNumber, [], Printed(e, Top))) ==
            if GoodLocks(e) then Some(Regrouped(Reloaded(r, e))) else None
  {
    hide Scan, ReaderOk, TokReadable, ParseE, Printed, Regrouped, Tail, Written, Rereads, GoodLocks, Reloaded,
         NothingSwallowed;
    var ts := Printed(e, Top);
    ChainPrinted(e, Top, []);
    assert ts + [] == ts;
    PrintedReadable(r, e, Top);
    WrittenTail([], ts);
    assert [] + Tail(0, ts) == Tail(0, ts);
    ScanRereads(r, ltype, ts, Operand, 0);
    if GoodLocks(e) {
      RereadsPrinted(r, e, Top, []);
      ParsePrintedE(Reloaded(r, e), Top, []);
    } else {
      StuckE(r, e, Top, []);
    }
  }
}

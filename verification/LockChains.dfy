/**
 Long locks: `#t&#t&...&#t`, which meets both limits, that of the store and that of the printed text.
 */
module LockChains {
  import opened Basics
  import opened LockLanguage
  import opened LockTree
  import opened LockAssembler
  import opened LockScanner
  import opened LockText
  import opened LockFits
  import opened LockSpelling
  import opened LockReading
  import opened LockDecompiler
  import opened LockRoundTrip
  import opened LockReload
  import opened LockGeneration

  const SHORT_TRUE: Text := [HASH, 116]

  /** `n` times `#t`, joined by `&`. */
  function ChainText(n: nat): (s: Text)
    requires n > 0
    ensures |s| == 3 * n - 1
  {
    if n == 1 then SHORT_TRUE else
      var s: Text := SHORT_TRUE + ([AND] + ChainText(n - 1));
      s
  }

  function ChainTree(n: nat): Expr
    requires n > 0
  {
    if n == 1 then Bool(true) else And(Bool(true), ChainTree(n - 1))
  }

  lemma {:induction false} ChainScanned(r: Reader, ltype: Text, n: nat)
    requires n > 0
    ensures Scan(r, ltype, ChainText(n), Operand) == Printed(ChainTree(n), InAnd)
  {
    hide Scan, Printed;
    ChainShape(n);
    if n == 1 {
      NothingMore(r, ltype);
      ShortTrue(r, ltype, [], SHORT_TRUE);
    } else {
      var z: Text := [AND] + ChainText(n - 1);
      ChainScanned(r, ltype, n - 1);
      ReadSign(r, ltype, AndTok, ChainText(n - 1), z, Operator);
      ShortTrue(r, ltype, z, ChainText(n));
      var rest := Printed(ChainTree(n - 1), InAnd);
      assert [TruthTok(true)] + ([AndTok] + rest) == [TruthTok(true)] + [AndTok] + rest;
    }
  }

  lemma ShortTrue(r: Reader, ltype: Text, z: Text, s: Text)
    requires s == SHORT_TRUE + z && (z == [] || z[0] == AND)
    ensures Scan(r, ltype, s, Operand) == [TruthTok(true)] + Scan(r, ltype, z, Operator)
  {
    hide Scan;
    ReadPlain(r, ltype, SHORT_TRUE, z, s, Operand);
  }

  lemma {:induction false} ChainRegrouped(n: nat)
    requires n > 0
    ensures Regrouped(ChainTree(n)) == ChainTree(n) && Simplified(ChainTree(n)) == ChainTree(n)
    ensures Printed(ChainTree(n), Top) == Printed(ChainTree(n), InAnd)
  {
    if n > 1 { ChainRegrouped(n - 1); }
  }

  /** The text is read as the tree. */
  lemma ChainRead(r: Reader, ltype: Text, n: nat)
    requires n > 0
    ensures ReadLock(r, ltype, ChainText(n)) == Some(ChainTree(n))
  {
    hide Scan, ParseE, Printed, Regrouped;
    ChainScanned(r, ltype, n);
    ChainRegrouped(n);
    ParsePrintedE(ChainTree(n), Top, []);
    assert Printed(ChainTree(n), Top) + [] == Printed(ChainTree(n), Top);
  }

  lemma {:induction false} ChainCode(n: nat, outer: Outer, st: Asm)
    requires n > 0 && outer != InNot
    ensures CodeLen(ChainTree(n), outer) == 2 * n - 1 && Gen(ChainTree(n), outer, st).strs == st.strs
  {
    if n > 1 {
      var g := StagesOf(ChainTree(n), outer == InNot, InAnd, JmpF, st);
      ChainCode(n - 1, InAnd, g.s2);
    }
  }

  /** A chain of `n` takes `10 * n` bytes, so that the store takes chains of up to 1638 and the server stops at longer
      ones: text of 4916 characters is enough. */
  lemma ChainStored(r: Reader, ltype: Text, n: nat)
    requires n > 0
    ensures ReadLock(r, ltype, ChainText(n)) == Some(ChainTree(n)) && Simplified(ChainTree(n)) == ChainTree(n)
    ensures StoredLen(ChainTree(n)) == 10 * n
    ensures StoredLen(ChainTree(n)) <= MAX_CHUNK_LEN <==> n <= 1638
    ensures |ChainText(1639)| == 4916
  {
    hide Scan, ParseE, Gen;
    ChainRead(r, ltype, n);
    ChainRegrouped(n);
    ChainCode(n, Top, EMPTY);
    assert Generated(ChainTree(n)).strs == [];
  }

  /** Where the tokens of a printed chain come back. */
  lemma {:induction false} ChainComesBack(r: Reader, ltype: Text, n: nat, k: nat)
    requires n > 0
    ensures ComesBack(r, ltype, Printed(ChainTree(n), InAnd), k) <==> k + 6 * n - 4 <= LIMIT
  {
    hide Printed, ComesBack;
    ChainShape(n);
    if n == 1 {
      LoneTruth(r, ltype, k);
    } else {
      ChainShape(n - 1);
      ChainComesBack(r, ltype, n - 1, k + 6);
      TruthAnd(r, ltype, Printed(ChainTree(n - 1), InAnd), k);
    }
  }

  lemma LoneTruth(r: Reader, ltype: Text, k: nat)
    ensures ComesBack(r, ltype, [TruthTok(true)], k) <==> k + 2 <= LIMIT
  {
  }

  lemma TruthAnd(r: Reader, ltype: Text, rest: seq<Tok>, k: nat)
    requires rest != []
    ensures ComesBack(r, ltype, [TruthTok(true)] + [AndTok] + rest, k) <==>
            k + 6 <= LIMIT && ComesBack(r, ltype, rest, k + 6)
  {
    var ts := [TruthTok(true)] + [AndTok] + rest;
    assert ts[1..] == [AndTok] + rest && ts[1..][1..] == rest;
    assert ComesBack(r, ltype, ts[1..], k + 5) <==> k + 6 <= LIMIT && ComesBack(r, ltype, rest, k + 6);
  }

  lemma ChainReadable(r: Reader, n: nat)
    requires n > 0
    ensures TreeReadable(r, ChainTree(n))
  {
    if n > 1 { ChainReadable(r, n - 1); }
  }

  /** A chain of `#t` is read back after it was printed exactly up to a length of 1365, though 4097 characters make
      one of 1366: `#TRUE` is longer than what was typed. */
  lemma ChainReloads(r: Reader, ltype: Text, n: nat)
    requires ReaderOk(r) && n > 0
    ensures 0 !in Written(ByNumber, [], Printed(ChainTree(n), Top))
    ensures ReadLock(r, ltype, Written(ByNumber, [], Printed(ChainTree(n), Top))) == Some(ChainTree(n)) <==> n <= 1365
    ensures |ChainText(1366)| == 4097
  {
    hide Scan, ParseE, Printed, Written, ComesBack, ReaderOk;
    ChainReadable(r, n);
    ChainRegrouped(n);
    ChainComesBack(r, ltype, n, 0);
    ReloadExactly(r, ltype, ChainTree(n));
  }

  // ----- what becomes of the first one that is too long -----

  /** The printed chain, cut behind the `#` of its last word. */
  lemma {:induction false} ChainLost(locks: Text -> Option<Text>, ltype: Text, n: nat, k: nat)
    requires n > 0 && k + 6 * n - 5 == LIMIT
    ensures ParseT(Scan(Loading(locks), ltype, Tail(k, Printed(ChainTree(n), InAnd)), Operand)) == None
  {
    hide Scan, ParseT, Printed, Tail;
    var r, ts := Loading(locks), Printed(ChainTree(n), InAnd);
    ChainTail(n, k);
    if n == 1 {
      LoneHash(r, ltype);
    } else {
      var z := Tail(k + 6, Printed(ChainTree(n - 1), InAnd));
      var y: Text := [AND] + z;
      ChainLost(locks, ltype, n - 1, k + 6);
      ReadSign(r, ltype, AndTok, z, y, Operator);
      ReadTruth(r, ltype, true, y, TRUE_TEXT + y);
      var toks := Scan(r, ltype, z, Operand);
      AndNothing(toks);
    }
  }

  lemma ChainTail(n: nat, k: nat)
    requires n > 0 && k + 6 * n - 5 == LIMIT
    ensures n == 1 ==> Tail(k, Printed(ChainTree(n), InAnd)) == [HASH]
    ensures n > 1 ==>
      Tail(k, Printed(ChainTree(n), InAnd)) == TRUE_TEXT + ([AND] + Tail(k + 6, Printed(ChainTree(n - 1), InAnd)))
  {
    hide Tail, Printed;
    ChainShape(n);
    if n > 1 { TailTwo(TruthTok(true), AndTok, Printed(ChainTree(n - 1), InAnd), k); } else { TailHash(k); }
  }

  lemma ChainShape(n: nat)
    requires n > 0
    ensures n == 1 ==> Printed(ChainTree(n), InAnd) == [TruthTok(true)]
    ensures n > 1 ==> Printed(ChainTree(n), InAnd) == [TruthTok(true)] + [AndTok] + Printed(ChainTree(n - 1), InAnd)
  {
  }

  lemma TailHash(k: nat)
    requires k + 1 == LIMIT
    ensures Tail(k, [TruthTok(true)]) == [HASH]
  {
  }

  lemma TailTwo(a: Tok, b: Tok, rest: seq<Tok>, k: nat)
    requires k + |Spelled(ByNumber, a)| + |Spelled(ByNumber, b)| <= LIMIT
    ensures var x, y := Spelled(ByNumber, a), Spelled(ByNumber, b);
            Tail(k, [a] + [b] + rest) == x + (y + Tail(k + |x| + |y|, rest))
  {
    hide Spelled;
    var ts := [a] + [b] + rest;
    assert ts[1..] == [b] + rest && ([b] + rest)[1..] == rest;
  }

  lemma AndNothing(toks: seq<Tok>)
    requires ParseT(toks) == None
    ensures ParseT([TruthTok(true)] + ([AndTok] + toks)) == None
  {
    var ts := [TruthTok(true)] + ([AndTok] + toks);
    assert ts[1..] == [AndTok] + toks && ts[1..][1..] == toks;
    assert ParseL(ts) == Some((Bool(true), ts[1..]));
    assert ParseF(ts) == Some((Bool(true), ts[1..]));
  }

  lemma LoneHash(r: Reader, ltype: Text)
    requires r.Loading?
    ensures ParseT(Scan(r, ltype, [HASH], Operand)) == None
  {
    hide Scan, WordTok;
    PlainNoTest(r, [HASH]);
    PlainWord([HASH], true, ATR);
    PlainWord([HASH], false, ATR);
    WordScanned(r, ltype, [HASH]);
    assert [HASH][..1] == [HASH];
    assert ObjectAhead(r, [HASH]) == UnknownTok;
    var ts := [UnknownTok];
    assert ParseL(ts) == None && ParseA(ts) == None && ParseF(ts) == None;
  }

  /** A lock of 1366 times `#t`, saved and loaded, is no lock at all. */
  lemma SavedAndUnlocked(locks: Text -> Option<Text>, ltype: Text)
    ensures 0 !in Written(ByNumber, [], Printed(ChainTree(1366), Top))
    ensures ReadLock(Loading(locks), ltype, Written(ByNumber, [], Printed(ChainTree(1366), Top))) == None
  {
    hide Scan, ParseT, Printed, Written, Tail;
    ChainRegrouped(1366);
    WrittenTail([], Printed(ChainTree(1366), Top));
    assert [] + Tail(0, Printed(ChainTree(1366), Top)) == Tail(0, Printed(ChainTree(1366), Top));
    ChainLost(locks, ltype, 1366, 0);
  }
}

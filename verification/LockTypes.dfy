/**
 What a lock owes to the type under which it was typed: a reference without the name of a lock takes that type, which
 need not be the name of a lock.
 */
module LockTypes {
  import opened Basics
  import opened LockLanguage
  import opened LockTree
  import opened LockAssembler
  import opened LockScanner
  import opened LockText
  import opened LockSpelling
  import opened LockReading
  import opened LockDecompiler
  import opened LockRoundTrip
  import opened LockReload
  import opened LockReloaded
  import opened LockTyped

  // ----- the type put in -----

  /** The tree with the type of the lock where the empty name stands for it. */
  function WithType(ltype: Text, e: Expr): Expr {
    match e
    case And(a, b) => And(WithType(ltype, a), WithType(ltype, b))
    case Or(a, b) => Or(WithType(ltype, a), WithType(ltype, b))
    case Not(n) => Not(WithType(ltype, n))
    case Ind(d, lock) => Ind(d, if lock == [] then ltype else lock)
    case _ => e
  }

  function TypeTok(ltype: Text, t: Tok): Tok { if t == SlashTok([]) then SlashTok(ltype) else t }

  function TypeToks(ltype: Text, ts: seq<Tok>): (r: seq<Tok>)
    ensures |r| == |ts|
  {
    if ts == [] then [] else [TypeTok(ltype, ts[0])] + TypeToks(ltype, ts[1..])
  }

  lemma TypeMore(ltype: Text, t: Tok, ts: seq<Tok>)
    ensures TypeToks(ltype, [t] + ts) == [TypeTok(ltype, t)] + TypeToks(ltype, ts)
    ensures TypeToks(ltype, [t]) == [TypeTok(ltype, t)]
  {
    assert ([t] + ts)[1..] == ts && TypeToks(ltype, [t][1..]) == [];
  }

  // ----- the words of a text and its type -----

  lemma {:induction false} ScanTyped(r: Reader, ltype: Text, s: Text, m: Mode)
    requires ReaderOk(r)
    ensures Scan(r, ltype, s, m) == TypeToks(ltype, Scan(r, [], s, m))
    decreases |s|, Rank(m), 1
  {
    hide ScanOperand, ScanObject, ScanLock, ScanOperator, ReaderOk, TypeToks, SkipSpace;
    match m
    case Operand => OperandTyped(r, ltype, SkipSpace(s));
    case Object(indirect) => ObjectTyped(r, ltype, s, indirect);
    case LockName => ScanLockTyped(r, ltype, s);
    case Operator => OperatorTyped(r, ltype, SkipSpace(s));
  }

  lemma {:induction false} ObjectTyped(r: Reader, ltype: Text, s: Text, indirect: bool)
    requires ReaderOk(r)
    ensures ScanObject(r, ltype, s, indirect) == TypeToks(ltype, ScanObject(r, [], s, indirect))
    decreases |s|, 2, 0
  {
    hide Scan, ReaderOk, ObjectAhead, WordLen, TypeToks;
    var z, m := s[WordLen(s, true, false)..], if indirect then LockName else Operator;
    ScanTyped(r, ltype, z, m);
    TypeMore(ltype, ObjectAhead(r, s), Scan(r, [], z, m));
  }

  lemma {:induction false} ScanLockTyped(r: Reader, ltype: Text, s: Text)
    requires ReaderOk(r)
    ensures ScanLock(r, ltype, s) == TypeToks(ltype, ScanLock(r, [], s))
    decreases |s|, 1, 0
  {
    hide Scan, ReaderOk, WordLen, Unescaped, Trimmed, Upper, TypeToks;
    if s == [] || s[0] != EVAL {
      ScanTyped(r, ltype, s, Operator);
      TypeMore(ltype, SlashTok([]), Scan(r, [], s, Operator));
    } else {
      var n := WordLen(s[1..], false, false);
      var u := Upper(Trimmed(Unescaped(s[1..][..n], false)));
      ScanTyped(r, ltype, s[1..][n..], Operator);
      LockLength(r, u);
      TypeMore(ltype, SlashTok(LockNamed(r, u)), Scan(r, [], s[1..][n..], Operator));
      TypeMore(ltype, UnknownTok, []);
    }
  }

  lemma {:induction false} OperatorTyped(r: Reader, ltype: Text, s: Text)
    requires ReaderOk(r)
    ensures ScanOperator(r, ltype, s) == TypeToks(ltype, ScanOperator(r, [], s))
    decreases |s|, 0, 0
  {
    hide Scan, ReaderOk, TypeToks;
    TypeMore(ltype, UnknownTok, []);
    if s == [] {
      assert TypeToks(ltype, []) == [];
    } else {
      var m := if s[0] == CLOSE then Operator else Operand;
      var t := if s[0] == CLOSE then CloseTok else if s[0] == AND then AndTok else OrTok;
      ScanTyped(r, ltype, s[1..], m);
      TypeMore(ltype, t, Scan(r, [], s[1..], m));
    }
  }

  lemma {:induction false} OperandTyped(r: Reader, ltype: Text, s: Text)
    requires ReaderOk(r)
    ensures ScanOperand(r, ltype, s) == TypeToks(ltype, ScanOperand(r, [], s))
    decreases |s|, 3, 0
  {
    hide Scan, ReaderOk, ScanWord, TypeToks;
    WordTyped(r, ltype, s);
    if s != [] {
      var m := if s[0] == AT then Object(true) else if s[0] == NOT || s[0] == OPEN then Operand else Object(false);
      var t := if s[0] == NOT then NotTok else if s[0] == OPEN then OpenTok else if s[0] == AT then AtTok
               else if s[0] == IS then EqTok else if s[0] == IN then PlusTok else DollarTok;
      ScanTyped(r, ltype, s[1..], m);
      TypeMore(ltype, t, Scan(r, [], s[1..], m));
    }
  }

  lemma {:induction false} WordTyped(r: Reader, ltype: Text, s: Text)
    requires ReaderOk(r)
    ensures ScanWord(r, ltype, s) == TypeToks(ltype, ScanWord(r, [], s))
    decreases |s|, 2, 1
  {
    hide Scan, ReaderOk, WordTok, WordLen, Trimmed, ScanObject, TypeToks;
    ObjectTyped(r, ltype, s, false);
    var n := WordLen(s, false, false);
    match WordTok(r, Trimmed(s[..n]))
    case None => assert ScanWord(r, ltype, s) == ScanObject(r, ltype, s, false);
    case Some(t) =>
      ScanTyped(r, ltype, s[n..], Operator);
      TypeMore(ltype, t, Scan(r, [], s[n..], Operator));
  }

  // ----- the tree and its type -----

  function Retyped(ltype: Text, p: Parse): Parse {
    match p
    case Some((e, rest)) => Some((WithType(ltype, e), TypeToks(ltype, rest)))
    case None => None
  }

  lemma TypeFirst(ltype: Text, ts: seq<Tok>)
    requires ts != []
    ensures TypeToks(ltype, ts)[0] == TypeTok(ltype, ts[0]) && TypeToks(ltype, ts)[1..] == TypeToks(ltype, ts[1..])
  {
  }

  lemma TypeStarts(ltype: Text, ts: seq<Tok>, t: Tok)
    requires !t.SlashTok?
    ensures Starts(TypeToks(ltype, ts), t) <==> Starts(ts, t)
  {
  }

  lemma RetypedR(ltype: Text, ts: seq<Tok>)
    ensures ParseR(TypeToks(ltype, ts)) == Retyped(ltype, ParseR(ts))
  {
    hide TypeToks;
    if ts != [] { TypeFirst(ltype, ts); } else { assert TypeToks(ltype, ts) == []; }
  }

  lemma RetypedMarked(ltype: Text, ts: seq<Tok>, k: RefKind)
    ensures ParseMarked(TypeToks(ltype, ts), k) == Retyped(ltype, ParseMarked(ts, k))
  {
    hide TypeToks;
    RetypedR(ltype, ts);
  }

  lemma RetypedIndirect(ltype: Text, ts: seq<Tok>)
    ensures ParseIndirect(TypeToks(ltype, ts)) == Retyped(ltype, ParseIndirect(ts))
  {
    hide TypeToks;
    RetypedR(ltype, ts);
    var p := ParseR(ts);
    if p.Some? && p.value.1 != [] { TypeFirst(ltype, p.value.1); }
  }

  lemma {:induction false} RetypedL(ltype: Text, ts: seq<Tok>)
    ensures ParseL(TypeToks(ltype, ts)) == Retyped(ltype, ParseL(ts))
    decreases |ts|, 0
  {
    hide TypeToks;
    RetypedR(ltype, ts);
    if ts != [] {
      TypeFirst(ltype, ts);
      if ts[0] == OpenTok {
        RetypedE(ltype, ts[1..]);
        var p := ParseE(ts[1..]);
        if p.Some? {
          TypeStarts(ltype, p.value.1, CloseTok);
          if Starts(p.value.1, CloseTok) { TypeFirst(ltype, p.value.1); }
        }
      }
    }
  }

  lemma {:induction false} RetypedA(ltype: Text, ts: seq<Tok>)
    ensures ParseA(TypeToks(ltype, ts)) == Retyped(ltype, ParseA(ts))
    decreases |ts|, 1
  {
    hide TypeToks, ParseL, ParseMarked, ParseIndirect;
    RetypedL(ltype, ts);
    if ts != [] {
      TypeFirst(ltype, ts);
      RetypedIndirect(ltype, ts[1..]);
      RetypedMarked(ltype, ts[1..], Is);
      RetypedMarked(ltype, ts[1..], Carry);
      RetypedMarked(ltype, ts[1..], Owner);
    } else {
      assert TypeToks(ltype, ts) == [];
    }
  }

  lemma {:induction false} RetypedF(ltype: Text, ts: seq<Tok>)
    ensures ParseF(TypeToks(ltype, ts)) == Retyped(ltype, ParseF(ts))
    decreases |ts|, 2
  {
    hide TypeToks, ParseA;
    RetypedA(ltype, ts);
    TypeStarts(ltype, ts, NotTok);
    if Starts(ts, NotTok) {
      TypeFirst(ltype, ts);
      RetypedF(ltype, ts[1..]);
    }
  }

  lemma {:induction false} RetypedT(ltype: Text, ts: seq<Tok>)
    ensures ParseT(TypeToks(ltype, ts)) == Retyped(ltype, ParseT(ts))
    decreases |ts|, 3
  {
    hide TypeToks, ParseF;
    RetypedF(ltype, ts);
    var p := ParseF(ts);
    if p.Some? {
      TypeStarts(ltype, p.value.1, AndTok);
      if Starts(p.value.1, AndTok) {
        TypeFirst(ltype, p.value.1);
        RetypedT(ltype, p.value.1[1..]);
      }
    }
  }

  lemma {:induction false} RetypedE(ltype: Text, ts: seq<Tok>)
    ensures ParseE(TypeToks(ltype, ts)) == Retyped(ltype, ParseE(ts))
    decreases |ts|, 4
  {
    hide TypeToks, ParseT;
    RetypedT(ltype, ts);
    var p := ParseT(ts);
    if p.Some? {
      TypeStarts(ltype, p.value.1, OrTok);
      if Starts(p.value.1, OrTok) {
        TypeFirst(ltype, p.value.1);
        RetypedE(ltype, p.value.1[1..]);
      }
    }
  }

  /** A text is read the same under every type, but for the type itself in the references without a lock name. */
  lemma ReadTyped(r: Reader, ltype: Text, s: Text)
    requires ReaderOk(r)
    ensures ReadLock(r, ltype, s) ==
            match ReadLock(r, [], s)
            case Some(e) => Some(WithType(ltype, e))
            case None => None
  {
    hide Scan, ParseE, TypeToks, ReaderOk;
    ScanTyped(r, ltype, s, Operand);
    RetypedE(ltype, Scan(r, [], s, Operand));
  }

  // ----- the names of locks in a tree -----

  function LockNames(e: Expr): set<Text> {
    match e
    case And(a, b) => LockNames(a) + LockNames(b)
    case Or(a, b) => LockNames(a) + LockNames(b)
    case Not(n) => LockNames(n)
    case Ind(_, lock) => {lock}
    case _ => {}
  }

  lemma {:induction false} NamesInAtoms(e: Expr, lock: Text)
    ensures lock in LockNames(e) <==> SlashTok(lock) in AtomToks(e)
  {
    match e
    case And(a, b) => NamesInAtoms(a, lock); NamesInAtoms(b, lock);
    case Or(a, b) => NamesInAtoms(a, lock); NamesInAtoms(b, lock);
    case Not(n) => NamesInAtoms(n, lock);
    case _ =>
  }

  lemma {:induction false} NamesInPrinted(e: Expr, outer: Outer, lock: Text)
    ensures lock in LockNames(e) <==> SlashTok(lock) in Printed(e, outer)
    decreases e
  {
    match e
    case And(a, b) => NamesInPrinted(a, InAnd, lock); NamesInPrinted(b, InAnd, lock);
    case Or(a, b) => NamesInPrinted(a, InOr, lock); NamesInPrinted(b, InOr, lock);
    case Not(n) => NamesInPrinted(n, InNot, lock);
    case _ =>
  }

  lemma {:induction false} SimplifiedNames(e: Expr)
    ensures LockNames(Simplified(e)) == LockNames(e)
  {
    match e
    case And(a, b) => SimplifiedNames(a); SimplifiedNames(b);
    case Or(a, b) => SimplifiedNames(a); SimplifiedNames(b);
    case Not(Not(n)) =>
      assert LockNames(e) == LockNames(Not(n)) == LockNames(n);
      SimplifiedNames(n);
    case Not(Bool(_)) =>
    case Not(n) => SimplifiedNames(n);
    case _ =>
  }

  lemma {:induction false} TypeInNames(ltype: Text, e: Expr, lock: Text)
    ensures lock in LockNames(WithType(ltype, e)) <==>
            (lock == ltype && [] in LockNames(e)) || (lock != [] && lock in LockNames(e))
  {
    match e
    case And(a, b) => TypeInNames(ltype, a, lock); TypeInNames(ltype, b, lock);
    case Or(a, b) => TypeInNames(ltype, a, lock); TypeInNames(ltype, b, lock);
    case Not(n) => TypeInNames(ltype, n, lock);
    case _ =>
  }

  /** The text has a reference without the name of a lock. */
  predicate HasBareReference(r: Reader, s: Text) {
    ReadLock(r, [], s).Some? && [] in LockNames(ReadLock(r, [], s).value)
  }

  lemma ProperPrinted(r: Reader, e: Expr)
    ensures ProperNames(r, Printed(e, Top)) <==> forall lock <- LockNames(e) :: ProperLock(r, lock)
  {
    hide ProperLock, Printed;
    var ts := Printed(e, Top);
    if ProperNames(r, ts) {
      forall lock | lock in LockNames(e) ensures ProperLock(r, lock) { NamesInPrinted(e, Top, lock); }
    }
    if forall lock <- LockNames(e) :: ProperLock(r, lock) {
      forall k | 0 <= k < |ts| && ts[k].SlashTok? ensures ProperLock(r, ts[k].lock) {
        NamesInPrinted(e, Top, ts[k].lock);
      }
    }
  }

  /** All lock names of a lock that was typed are proper exactly if there is no reference without a lock name or the
      type under which it was typed is itself a proper name. */
  lemma TypedNames(r: Reader, ltype: Text, s: Text)
    requires ReaderOk(r) && ReadLock(r, ltype, s).Some?
    ensures ProperNames(Loading(r.locks), Printed(Simplified(ReadLock(r, ltype, s).value), Top)) <==>
            !HasBareReference(r, s) || ProperLock(r, ltype)
  {
    hide Scan, ParseE, ReaderOk, ProperLock, Printed, ProperNames, Simplified, WithType, AtomToks;
    ReadTyped(r, ltype, s);
    var e0 := ReadLock(r, [], s).value;
    var e := WithType(ltype, e0);
    var rd := Loading(r.locks);
    ProperPrinted(rd, Simplified(e));
    SimplifiedNames(e);
    TypeInNames(ltype, e0, ltype);
    forall lock | lock in LockNames(e) && lock != ltype ensures ProperLock(rd, lock) {
      TypeInNames(ltype, e0, lock);
      NamesInAtoms(e0, lock);
      TypedReadable(r, [], s);
      SameTable(r, lock);
    }
    SameTable(r, ltype);
    if !HasBareReference(r, s) && ltype in LockNames(e) {
      NamesInAtoms(e0, ltype);
      TypedReadable(r, [], s);
    }
  }

  lemma SameTable(r: Reader, lock: Text)
    ensures ProperLock(Loading(r.locks), lock) <==> ProperLock(r, lock)
  {
  }

  // ----- a reference without a lock name -----

  lemma BareReference(r: Reader, ltype: Text, d: Dbref)
    requires TokReadable(r, NameTok(d))
    ensures 0 !in [AT] + ObjectText(ByNumber, d)
    ensures ReadLock(r, ltype, [AT] + ObjectText(ByNumber, d)) == Some(Ind(d, ltype))
  {
    hide Scan, ObjectText, TokReadable;
    var w := ObjectText(ByNumber, d);
    var s: Text := [AT] + w;
    assert w + [] == w;
    ReadSign(r, ltype, AtTok, w, s, Operand);
    ReadObject(r, ltype, d, [], w, Object(true));
    LockMode(r, ltype, []);
    NoLock(r, ltype);
    var ts := [AtTok] + ([NameTok(d)] + [SlashTok(ltype)]);
    assert ts == [AtTok, NameTok(d), SlashTok(ltype)] + [];
    ParseSlash(d, ltype, []);
    OneFactor(ts);
  }

  lemma OneFactor(ts: seq<Tok>)
    requires ParseF(ts).Some? && ParseF(ts).value.1 == []
    ensures ParseE(ts) == ParseF(ts)
  {
    hide ParseF;
  }

  /** Typed under one type and kept under another, such a reference comes back with the proper form of the type under
      which it was typed, or it makes the lock unreadable if that is not a good name. */
  lemma BareReloads(r: Reader, typed: Text, kept: Text, d: Dbref)
    requires ReaderOk(r) && TokReadable(r, NameTok(d)) && TextLen(Printed(Ind(d, typed), Top)) <= LIMIT
    ensures 0 !in Written(ByNumber, [], Printed(Ind(d, typed), Top))
    ensures ReadLock(r, kept, Written(ByNumber, [], Printed(Ind(d, typed), Top))) ==
            if GoodName(NameRead(typed)) then Some(Ind(d, LockNamed(r, NameRead(typed)))) else None
  {
    hide ReadLock, Written, GoodName, NameRead, ReaderOk;
    assert TreeReadable(r, Ind(d, typed)) by { hide *; OneReference(r, d, typed); }
    ReloadsAs(r, kept, Ind(d, typed));
  }

  lemma OneReference(r: Reader, d: Dbref, lock: Text)
    requires TokReadable(r, NameTok(d))
    ensures TreeReadable(r, Ind(d, lock))
  {
    assert AtomToks(Ind(d, lock)) == [AtTok, NameTok(d), SlashTok(lock)];
  }

  const FOO: Text := [70, 79, 79]
  const USER_FOO: Text := [85, 83, 69, 82, ATR, 70, 79, 79]

  /** `@lock/user:foo me=@#5`, typed under `USER:FOO` and kept under `FOO`, is no lock any more when it was saved and
      loaded. */
  lemma UserLockLost(locks: Text -> Option<Text>)
    requires ReaderOk(Loading(locks))
    ensures ReadLock(Loading(locks), USER_FOO, [AT, HASH, 53]) == Some(Ind(5, USER_FOO))
    ensures 0 !in Written(ByNumber, [], Printed(Ind(5, USER_FOO), Top))
    ensures ReadLock(Loading(locks), FOO, Written(ByNumber, [], Printed(Ind(5, USER_FOO), Top))) == None
  {
    hide ReadLock, Written, ReaderOk;
    NumberRead(locks, 5);
    assert ObjectText(ByNumber, 5) == [HASH, 53];
    assert [AT] + [HASH, 53] == [AT, HASH, 53];
    BareReference(Loading(locks), USER_FOO, 5);
    ShortUser();
    UserNotGood();
    BareReloads(Loading(locks), USER_FOO, FOO, 5);
  }

  lemma UserNotGood()
    ensures !GoodName(NameRead(USER_FOO))
  {
    assert Trimmed(USER_FOO) == USER_FOO;
    assert Upper(USER_FOO)[4] == ATR && !NameByte(ATR);
  }

  lemma ShortUser()
    ensures TextLen(Printed(Ind(5, USER_FOO), Top)) <= LIMIT
  {
    hide Spelled, Escaped, TextLen;
    ThreeLong(AtTok, NameTok(5), SlashTok(USER_FOO));
    ShortSigns();
    SlashLength(USER_FOO);
    EscapedLength(USER_FOO);
  }

  lemma ThreeLong(a: Tok, b: Tok, c: Tok)
    ensures TextLen([a, b, c]) == |Spelled(ByNumber, a)| + |Spelled(ByNumber, b)| + |Spelled(ByNumber, c)|
  {
    hide Spelled;
    assert [a, b, c][1..] == [b, c] && [b, c][1..] == [c] && [c][1..] == [];
    assert TextLen([c]) == |Spelled(ByNumber, c)|;
    assert TextLen([b, c]) == |Spelled(ByNumber, b)| + TextLen([c]);
  }

  lemma ShortSigns()
    ensures |Spelled(ByNumber, AtTok)| == 1 && |Spelled(ByNumber, NameTok(5))| == 2
  {
  }

  lemma SlashLength(lock: Text)
    ensures |Spelled(ByNumber, SlashTok(lock))| == 1 + |Escaped(lock)|
  {
  }

  lemma {:induction false} EscapedLength(s: Text)
    ensures |Escaped(s)| <= 2 * |s|
  {
    if s != [] { EscapedLength(s[1..]); }
  }
}

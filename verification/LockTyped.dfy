/**
 What the scanner makes of any text: words that the printer can give back, and no more characters than were typed.
 */
module LockTyped {
  import opened Basics
  import opened MachineInts
  import opened LockLanguage
  import opened LockTree
  import opened LockScanner
  import opened LockText
  import opened LockSpelling
  import opened LockReading
  import opened LockPatch
  import opened LockReload

  // ----- numbers -----

  lemma {:induction false} DigitsSnoc(a: seq<Byte>, d: Byte, n: nat)
    requires IsDigit(d) && forall i :: 0 <= i < |a| ==> IsDigit(a[i])
    ensures DigitsFrom(a + [d], n) == 10 * DigitsFrom(a, n) + (d - 48)
  {
    if a == [] {
      assert [] + [d] == [d] && [d][1..] == [];
    } else {
      assert (a + [d])[1..] == a[1..] + [d];
      DigitsSnoc(a[1..], d, 10 * n + (a[0] - 48));
    }
  }

  lemma {:induction false} DecimalRead(n: nat)
    ensures DigitsFrom(Decimal(n), 0) == n
    decreases n
  {
    if n < 10 {
      assert Decimal(n)[1..] == [];
    } else {
      DecimalRead(n / 10);
      DigitsSnoc(Decimal(n / 10), 48 + n % 10, 0);
    }
  }

  /** The number of an object is read back while a database is loaded. */
  lemma NumberRead(locks: Text -> Option<Text>, d: Dbref)
    requires IsInt(d)
    ensures TokReadable(Loading(locks), NameTok(d))
  {
    var s := Number(d);
    assert ObjectText(ByNumber, d)[1..] == s;
    if d >= 0 {
      DecimalRead(d);
    } else {
      DecimalRead(-d);
      assert s[1..] == Decimal(-d);
    }
  }

  // ----- the words of any text -----

  /** What the tokens of a text are like: an object that is a C int, a lock name in its proper form or the type of the
      lock, a readable word, or a sign. */
  predicate TokSound(r: Reader, ltype: Text, t: Tok) {
    match t
    case SlashTok(lock) => lock == ltype || ProperLock(r, lock)
    case NameTok(d) => IsInt(d)
    case ObjidTok(d) => IsInt(d)
    case UnknownTok => true
    case _ => TokReadable(r, t)
  }

  predicate AllSound(r: Reader, ltype: Text, ts: seq<Tok>) {
    forall k :: 0 <= k < |ts| ==> TokSound(r, ltype, ts[k])
  }

  /** Behind a separator a word goes on as a word. */
  lemma {:induction false} WordBehind(s: seq<Byte>, c: Byte, escaped: bool)
    requires OneWord(s, false, escaped) && SeparatorAt(s, c, escaped) < |s| && c != BACKSLASH
    ensures OneWord(s[SeparatorAt(s, c, escaped) + 1..], false, false)
  {
    if !escaped && s[0] == c {
      assert s[1..] == s[SeparatorAt(s, c, escaped) + 1..];
    } else {
      var n := SeparatorAt(s[1..], c, !escaped && s[0] == BACKSLASH);
      assert s[1..][n + 1..] == s[n + 2..];
      WordBehind(s[1..], c, !escaped && s[0] == BACKSLASH);
    }
  }

  lemma PartsText(s: Text, c: Byte)
    requires OneWord(s, false, false) && (s != [] ==> !IsSpace(s[|s| - 1])) && c != BACKSLASH
    ensures var p := TestAtr(s, c); p.Parted? ==> WordText(p.text)
  {
    hide WordLen, Unescaped, Upper, GoodName;
    if TestAtr(s, c).Parted? { WordBehind(s, c, false); }
  }

  lemma {:induction false} UpperOneWord(s: seq<Byte>, escaped: bool)
    ensures WordLen(Upper(s), false, escaped) == WordLen(s, false, escaped)
  {
    if s != [] {
      assert Upper(s)[0] == UpperByte(s[0]) && Upper(s)[1..] == Upper(s[1..]);
      UpperOneWord(s[1..], !escaped && s[0] == BACKSLASH);
    }
  }

  lemma UpperTwice(s: seq<Byte>)
    ensures Upper(Upper(s)) == Upper(s)
  {
  }

  lemma UpperWordText(s: Text)
    requires WordText(s)
    ensures WordText(Upper(s)) && Upper(Upper(s)) == Upper(s)
  {
    UpperOneWord(s, false);
    UpperTwice(s);
  }

  lemma ObjectSound(r: Reader, ltype: Text, s: Text)
    requires ReaderOk(r)
    ensures TokSound(Loading(r.locks), ltype, ObjectAhead(r, s))
  {
    hide Unescaped, Trimmed, WordLen;
  }

  lemma WordSound(r: Reader, ltype: Text, s: Text)
    requires ReaderOk(r) && OneWord(s, false, false) && (s != [] ==> !IsSpace(s[|s| - 1]))
    ensures WordTok(r, s).Some? ==> TokSound(Loading(r.locks), ltype, WordTok(r, s).value)
  {
    hide TestAtr, WordLen, Upper, GoodName, WordText, ObjectAhead;
    PartsText(s, ATR);
    PartsText(s, EVAL);
    PartsText(s, FLAG);
    var p := TestAtr(s, FLAG);
    if p.Parted? {
      UpperWordText(p.text);
      ObjectSound(r, ltype, p.text);
    }
  }

  /** The start of a text up to a character that ends a word is a word. */
  lemma {:induction false} WordStart(s: seq<Byte>, escaped: bool)
    ensures OneWord(s[..WordLen(s, false, escaped)], false, escaped)
  {
    var n := WordLen(s, false, escaped);
    if n > 0 {
      assert s[..n][1..] == s[1..][..n - 1];
      WordStart(s[1..], !escaped && s[0] == BACKSLASH);
    }
  }

  lemma WordAheadSound(r: Reader, ltype: Text, s: Text)
    requires ReaderOk(r)
    ensures var w := WordTok(r, Trimmed(s[..WordLen(s, false, false)]));
            w.Some? ==> TokSound(Loading(r.locks), ltype, w.value)
  {
    hide WordLen, WordTok, Trimmed;
    var v := s[..WordLen(s, false, false)];
    WordStart(s, false);
    var u := Trimmed(v);
    assert u == v[..|u|];
    OneWordPrefix(v, |u|, false, false);
    WordSound(r, ltype, u);
  }

  lemma LockSound(r: Reader, ltype: Text, u: Text)
    requires ReaderOk(r) && GoodName(u) && Upper(u) == u
    ensures TokSound(Loading(r.locks), ltype, SlashTok(LockNamed(r, u)))
  {
    hide GoodName;
  }

  /** Every token of a text is sound. */
  lemma {:induction false} ScanSound(r: Reader, ltype: Text, s: Text, m: Mode)
    requires ReaderOk(r)
    ensures AllSound(Loading(r.locks), ltype, Scan(r, ltype, s, m))
    decreases |s|, Rank(m), 1
  {
    hide ScanOperand, ScanObject, ScanLock, ScanOperator, ReaderOk;
    match m
    case Operand => OperandSound(r, ltype, SkipSpace(s));
    case Object(indirect) => ScanObjectSound(r, ltype, s, indirect);
    case LockName => ScanLockSound(r, ltype, s);
    case Operator => OperatorSound(r, ltype, SkipSpace(s));
  }

  lemma {:induction false} ScanObjectSound(r: Reader, ltype: Text, s: Text, indirect: bool)
    requires ReaderOk(r)
    ensures AllSound(Loading(r.locks), ltype, ScanObject(r, ltype, s, indirect))
    decreases |s|, 2, 0
  {
    hide Scan, ReaderOk, TokReadable, ObjectAhead, WordLen;
    ObjectSound(r, ltype, s);
    ScanSound(r, ltype, s[WordLen(s, true, false)..], if indirect then LockName else Operator);
  }

  lemma {:induction false} ScanLockSound(r: Reader, ltype: Text, s: Text)
    requires ReaderOk(r)
    ensures AllSound(Loading(r.locks), ltype, ScanLock(r, ltype, s))
    decreases |s|, 1, 0
  {
    hide Scan, ReaderOk, TokReadable, WordLen, Unescaped, Upper, Trimmed, GoodName;
    if s == [] || s[0] != EVAL {
      ScanSound(r, ltype, s, Operator);
    } else {
      var n := WordLen(s[1..], false, false);
      var x := Trimmed(Unescaped(s[1..][..n], false));
      ScanSound(r, ltype, s[1..][n..], Operator);
      UpperTwice(x);
      if GoodName(Upper(x)) { LockSound(r, ltype, Upper(x)); }
    }
  }

  lemma {:induction false} OperatorSound(r: Reader, ltype: Text, s: Text)
    requires ReaderOk(r)
    ensures AllSound(Loading(r.locks), ltype, ScanOperator(r, ltype, s))
    decreases |s|, 0, 0
  {
    hide Scan, ReaderOk;
    if s != [] {
      ScanSound(r, ltype, s[1..], Operand);
      ScanSound(r, ltype, s[1..], Operator);
    }
  }

  lemma {:induction false} OperandSound(r: Reader, ltype: Text, s: Text)
    requires ReaderOk(r)
    ensures AllSound(Loading(r.locks), ltype, ScanOperand(r, ltype, s))
    decreases |s|, 3, 0
  {
    hide Scan, ReaderOk, ScanWord;
    ScanWordSound(r, ltype, s);
    if s != [] {
      ScanSound(r, ltype, s[1..], Operand);
      ScanSound(r, ltype, s[1..], Object(true));
      ScanSound(r, ltype, s[1..], Object(false));
    }
  }

  lemma {:induction false} ScanWordSound(r: Reader, ltype: Text, s: Text)
    requires ReaderOk(r)
    ensures AllSound(Loading(r.locks), ltype, ScanWord(r, ltype, s))
    decreases |s|, 2, 1
  {
    hide Scan, ReaderOk, TokReadable, WordTok, WordLen, Trimmed, ScanObject;
    WordAheadSound(r, ltype, s);
    ScanObjectSound(r, ltype, s, false);
    var n := WordLen(s, false, false);
    match WordTok(r, Trimmed(s[..n]))
    case None => assert ScanWord(r, ltype, s) == ScanObject(r, ltype, s, false);
    case Some(t) => if t != UnknownTok { ScanSound(r, ltype, s[n..], Operator); }
  }

  // ----- the locks that a parser leaves -----

  lemma {:induction false} PayloadSound(r: Reader, ltype: Text, ts: seq<Tok>)
    requires AllSound(r, ltype, ts)
    ensures AllSound(r, ltype, Payload(ts))
  {
    hide TokReadable;
    if ts != [] {
      assert AllSound(r, ltype, Pay(ts[0])) by { hide *; PaySound(r, ltype, ts[0]); }
      PayloadSound(r, ltype, ts[1..]);
    }
  }

  lemma PaySound(r: Reader, ltype: Text, t: Tok)
    requires TokSound(r, ltype, t)
    ensures AllSound(r, ltype, Pay(t))
  {
  }

  lemma {:induction false} AtomsKnown(e: Expr)
    ensures Known(AtomToks(e))
  {
    match e
    case And(a, b) => AtomsKnown(a); AtomsKnown(b);
    case Or(a, b) => AtomsKnown(a); AtomsKnown(b);
    case Not(n) => AtomsKnown(n);
    case _ =>
  }

  lemma SlashReadable(r: Reader, lock: Text)
    ensures TokReadable(r, SlashTok(lock))
  {
  }

  /** Whatever was typed, by name or by number: the words of the lock are such that the printer can give them back to a
      database that is loaded; a lock name is in its proper form, or it is the type of the lock. */
  lemma TypedReadable(r: Reader, ltype: Text, s: Text)
    requires ReaderOk(r) && ReadLock(r, ltype, s).Some?
    ensures TreeReadable(Loading(r.locks), ReadLock(r, ltype, s).value)
    ensures forall k :: var a := AtomToks(ReadLock(r, ltype, s).value);
              0 <= k < |a| && a[k].SlashTok? ==> a[k].lock == ltype || ProperLock(r, a[k].lock)
  {
    hide Scan, ParseE, Payload, AtomToks, TokReadable, ReaderOk;
    var ts := Scan(r, ltype, s, Operand);
    var (e, rest) := ParseE(ts).value;
    var rd := Loading(r.locks);
    ScanSound(r, ltype, s, Operand);
    PayloadSound(rd, ltype, ts);
    TakenE(ts);
    AtomsKnown(e);
    var a := AtomToks(e);
    forall k | 0 <= k < |a|
      ensures TokReadable(rd, a[k])
      ensures a[k].SlashTok? ==> a[k].lock == ltype || ProperLock(r, a[k].lock)
    {
      assert Payload(ts)[k] == a[k];
      if a[k].NameTok? { NumberRead(r.locks, a[k].thing); }
      if a[k].SlashTok? { SlashReadable(rd, a[k].lock); }
    }
  }

  lemma {:induction false} SimplifiedReadable(r: Reader, e: Expr)
    requires TreeReadable(r, e)
    ensures TreeReadable(r, Simplified(e))
  {
    hide TokReadable;
    match e
    case And(a, b) => ReadableHalves(r, a, b); SimplifiedReadable(r, a); SimplifiedReadable(r, b);
      ReadableHalves(r, Simplified(a), Simplified(b));
    case Or(a, b) => ReadableHalves(r, a, b); SimplifiedReadable(r, a); SimplifiedReadable(r, b);
      ReadableHalves(r, Simplified(a), Simplified(b));
      if IsCarryPair(a, b) { assert AtomToks(a)[1] == NameTok(a.thing); }
    case Not(Not(n)) =>
      assert AtomToks(e) == AtomToks(Not(n)) == AtomToks(n);
      SimplifiedReadable(r, n);
    case Not(Bool(_)) => TruthReadable(r);
    case Not(n) => SimplifiedReadable(r, n);
    case _ =>
  }

  lemma TruthReadable(r: Reader)
    ensures forall v :: TokReadable(r, TruthTok(v))
  {
  }

  lemma {:induction false} WithoutGoneReadable(r: Reader, gone: Dbref -> bool, e: Expr)
    requires TreeReadable(r, e)
    ensures TreeReadable(r, WithoutGone(gone, e))
  {
    hide TokReadable;
    TruthReadable(r);
    match e
    case And(a, b) => ReadableHalves(r, a, b); WithoutGoneReadable(r, gone, a); WithoutGoneReadable(r, gone, b);
      ReadableHalves(r, WithoutGone(gone, a), WithoutGone(gone, b));
    case Or(a, b) => ReadableHalves(r, a, b); WithoutGoneReadable(r, gone, a); WithoutGoneReadable(r, gone, b);
      ReadableHalves(r, WithoutGone(gone, a), WithoutGone(gone, b));
    case Not(n) => WithoutGoneReadable(r, gone, n);
    case _ =>
  }
}

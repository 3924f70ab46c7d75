/**
 How long compiled locks get, and which of them can be stored.
 */
module LockFits {
  import opened Basics
  import opened MachineInts
  import opened LockLanguage
  import opened LockTree
  import opened LockAssembler
  import opened LockGeneration
  import opened LockBytecode
  import opened LockCompiler
  import opened LockScanner
  import opened LockText
  import opened LockDecompiler

  // ----- how long the bytes can get -----

  /** The least number of characters a token takes up in the text; the default lock name need not be there. */
  function Width(t: Tok, ltype: Text): nat {
    match t
    case TruthTok(_) => 2
    case SlashTok(lock) => if lock == ltype then 0 else 1 + |lock|
    case PairTok(_, name, text) => |name| + 1 + |text|
    case FlagTok(_, text) => 3 + |text|
    case UnknownTok => 0
    case _ => 1
  }

  function TextWidth(ts: seq<Tok>, ltype: Text): nat {
    if ts == [] then 0 else Width(ts[0], ltype) + TextWidth(ts[1..], ltype)
  }

  /** The words of an attribute or evaluation lock are not empty, and objects are C ints. */
  predicate TokOk(t: Tok) {
    (t.PairTok? ==> |t.name| > 0 && |t.text| > 0) && (t.NameTok? || t.ObjidTok? ==> IsInt(t.thing))
  }

  predicate ToksOk(ts: seq<Tok>) {
    forall i :: 0 <= i < |ts| ==> TokOk(ts[i])
  }

  /** A string costs its bytes each time it occurs, except the default lock name. */
  function StringCost(s: Text, ltype: Text): nat {
    if s == ltype then 0 else |s| + 1
  }

  /** A bound on the bytes a tree compiles to, default lock name and return aside. */
  function Cost(e: Expr, outer: Outer, ltype: Text): nat {
    match e
    case And(a, b) => 5 + Cost(a, InAnd, ltype) + Cost(b, InAnd, ltype) + 10 * Paren1(e, outer)
    case Or(a, b) => 5 + Cost(a, InOr, ltype) + Cost(b, InOr, ltype) + 10 * Paren1(e, outer)
    case Not(n) => 5 + Cost(n, InNot, ltype)
    case Ind(_, lock) => 10 + StringCost(lock, ltype)
    case Pair(_, name, text) => 10 + StringCost(name, ltype) + StringCost(text, ltype)
    case Flag(_, text) => 5 + StringCost(text, ltype)
    case _ => 5
  }

  lemma CostContext(e: Expr, o1: Outer, o2: Outer, ltype: Text)
    ensures Cost(e, o1, ltype) <= Cost(e, o2, ltype) + 10
    ensures o2 == InNot || (o2 == InAnd && o1 != InNot) || o1 == Top || o1 == InOr ==>
      Cost(e, o1, ltype) <= Cost(e, o2, ltype)
  {
  }

  lemma {:induction false} SimplifiedCost(e: Expr, outer: Outer, ltype: Text)
    ensures Cost(Simplified(e), outer, ltype) <= Cost(e, outer, ltype)
  {
    match e
    case And(a, b) => SimplifiedCost(a, InAnd, ltype); SimplifiedCost(b, InAnd, ltype);
    case Or(a, b) => SimplifiedCost(a, InOr, ltype); SimplifiedCost(b, InOr, ltype);
    case Not(Not(n)) =>
      SimplifiedCost(n, outer, ltype);
      CostContext(n, outer, InNot, ltype);
    case Not(Bool(_)) =>
    case Not(n) => SimplifiedCost(n, InNot, ltype);
    case _ =>
  }

  lemma {:induction false} SimplifiedThings(e: Expr)
    requires ThingsOk(e)
    ensures ThingsOk(Simplified(e))
  {
    match e
    case And(a, b) => SimplifiedThings(a); SimplifiedThings(b);
    case Or(a, b) => SimplifiedThings(a); SimplifiedThings(b);
    case Not(Not(n)) => SimplifiedThings(n);
    case Not(Bool(_)) =>
    case Not(n) => SimplifiedThings(n);
    case _ =>
  }

  /** What a parse has consumed pays for the tree it made, at six bytes a character. */
  predicate Paid(p: Parse, ts: seq<Tok>, outer: Outer, ltype: Text) {
    p.Some? ==>
      var (e, rest) := p.value;
      ThingsOk(e) && ToksOk(rest) && TextWidth(rest, ltype) <= TextWidth(ts, ltype) &&
      Cost(e, outer, ltype) <= 6 * (TextWidth(ts, ltype) - TextWidth(rest, ltype))
  }

  lemma Rest(ts: seq<Tok>, ltype: Text)
    requires |ts| > 0 && ToksOk(ts)
    ensures ToksOk(ts[1..]) && TextWidth(ts, ltype) == Width(ts[0], ltype) + TextWidth(ts[1..], ltype) && TokOk(ts[0])
  {
  }

  lemma PaidR(ts: seq<Tok>, outer: Outer, ltype: Text)
    requires ToksOk(ts)
    ensures Paid(ParseR(ts), ts, outer, ltype)
  {
    if ts != [] { Rest(ts, ltype); }
  }

  lemma {:induction false} PaidL(ts: seq<Tok>, ltype: Text)
    requires ToksOk(ts)
    ensures Paid(ParseL(ts), ts, InNot, ltype)
    decreases |ts|, 0
  {
    PaidR(ts, InNot, ltype);
    if ts != [] {
      Rest(ts, ltype);
      if ts[0] == OpenTok {
        PaidE(ts[1..], ltype);
        var p := ParseE(ts[1..]);
        if p.Some? && Starts(p.value.1, CloseTok) {
          Rest(p.value.1, ltype);
          CostContext(p.value.0, InNot, Top, ltype);
        }
      }
    }
  }

  lemma {:induction false} PaidA(ts: seq<Tok>, ltype: Text)
    requires ToksOk(ts)
    ensures Paid(ParseA(ts), ts, InNot, ltype)
    decreases |ts|, 1
  {
    hide ParseL, ParseE;
    PaidL(ts, ltype);
    if ts != [] {
      Rest(ts, ltype);
      PaidR(ts[1..], InNot, ltype);
      var p := ParseR(ts[1..]);
      if p.Some? && p.value.1 != [] { Rest(p.value.1, ltype); }
    }
  }

  lemma {:induction false} PaidF(ts: seq<Tok>, ltype: Text)
    requires ToksOk(ts)
    ensures Paid(ParseF(ts), ts, InNot, ltype)
    decreases |ts|, 2
  {
    hide ParseA;
    PaidA(ts, ltype);
    if ts != [] {
      Rest(ts, ltype);
      PaidF(ts[1..], ltype);
    }
  }

  lemma {:induction false} PaidT(ts: seq<Tok>, ltype: Text)
    requires ToksOk(ts)
    ensures Paid(ParseT(ts), ts, InAnd, ltype)
    decreases |ts|, 3
  {
    hide ParseF;
    PaidF(ts, ltype);
    var p := ParseF(ts);
    if p.Some? {
      CostContext(p.value.0, InAnd, InNot, ltype);
      if Starts(p.value.1, AndTok) {
        Rest(p.value.1, ltype);
        PaidT(p.value.1[1..], ltype);
      }
    }
  }

  lemma {:induction false} PaidE(ts: seq<Tok>, ltype: Text)
    requires ToksOk(ts)
    ensures Paid(ParseE(ts), ts, Top, ltype)
    decreases |ts|, 4
  {
    hide ParseT;
    PaidT(ts, ltype);
    var p := ParseT(ts);
    if p.Some? {
      CostContext(p.value.0, Top, InAnd, ltype);
      CostContext(p.value.0, InOr, InAnd, ltype);
      if Starts(p.value.1, OrTok) {
        Rest(p.value.1, ltype);
        PaidE(p.value.1[1..], ltype);
        var q := ParseE(p.value.1[1..]);
        if q.Some? { CostContext(q.value.0, InOr, Top, ltype); }
      }
    }
  }

  /** The strings of a pool, each at its cost. */
  function PoolCost(strs: seq<Text>, ltype: Text): nat {
    if strs == [] then 0 else PoolCost(strs[..|strs| - 1], ltype) + StringCost(strs[|strs| - 1], ltype)
  }

  lemma PoolCostAppend(st: Asm, op: Op, s: Text, ltype: Text)
    ensures PoolCost(AppendString(st, op, s).strs, ltype) <= PoolCost(st.strs, ltype) + StringCost(s, ltype)
  {
  }

  /** Code and strings of a generated assembly stay within its cost. */
  lemma {:induction false} GenCost(e: Expr, outer: Outer, st: Asm, ltype: Text)
    ensures PoolCost(Gen(e, outer, st).strs, ltype) + 5 * CodeLen(e, outer)
            <= PoolCost(st.strs, ltype) + Cost(e, outer, ltype)
    decreases e
  {
    hide IndexOf, PoolCost;
    match e
    case And(a, b) =>
      var g := StagesOf(e, outer == InNot, InAnd, JmpF, st);
      GenCost(a, InAnd, g.s1, ltype);
      GenCost(b, InAnd, g.s2, ltype);
    case Or(a, b) =>
      var g := StagesOf(e, outer == InNot || outer == InAnd, InOr, JmpT, st);
      GenCost(a, InOr, g.s1, ltype);
      GenCost(b, InOr, g.s2, ltype);
    case Not(n) => GenCost(n, InNot, st, ltype);
    case Ind(_, lock) => PoolCostAppend(st, LoadS, lock, ltype);
    case Pair(k, name, text) =>
      PoolCostAppend(st, LoadS, name, ltype);
      PoolCostAppend(AppendString(st, LoadS, name), Op.TPair(k), text, ltype);
    case Flag(k, text) => PoolCostAppend(st, Op.TFlag(k), text, ltype);
    case _ =>
  }

  lemma {:induction false} StringBytesAppend(a: seq<Text>, s: Text)
    ensures |StringBytes(a + [s])| == |StringBytes(a)| + |s| + 1
  {
    if a == [] {
      assert a + [s] == [s] && [s][1..] == [];
    } else {
      assert (a + [s])[1..] == a[1..] + [s];
      StringBytesAppend(a[1..], s);
    }
  }

  lemma {:induction false} PoolBytes(strs: seq<Text>, ltype: Text)
    requires Distinct(strs)
    ensures |StringBytes(strs)| <= PoolCost(strs, ltype) + if ltype in strs then |ltype| + 1 else 0
  {
    if strs != [] {
      var a, s := strs[..|strs| - 1], strs[|strs| - 1];
      assert strs == a + [s];
      StringBytesAppend(a, s);
      PoolBytes(a, ltype);
    }
  }

  // ----- the tokens of a text -----

  lemma WidthMore(t: Tok, ts: seq<Tok>, ltype: Text)
    requires TokOk(t) && ToksOk(ts)
    ensures ToksOk([t] + ts) && TextWidth([t] + ts, ltype) == Width(t, ltype) + TextWidth(ts, ltype)
    ensures ToksOk([t]) && TextWidth([t], ltype) == Width(t, ltype)
  {
    assert ([t] + ts)[1..] == ts && [t][1..] == [];
  }

  lemma ObjectWidth(r: Reader, s: Text, ltype: Text)
    requires ReaderOk(r)
    ensures var t := ObjectAhead(r, s);
            TokOk(t) && Width(t, ltype) <= WordLen(s, true, false)
  {
    hide WordLen, Unescaped, Trimmed;
    var u := Trimmed(Unescaped(s[..WordLen(s, true, false)], false));
    assert |u| <= WordLen(s, true, false);
  }

  lemma FlagNameLong(name: Text)
    requires FlagNamed(name).Some?
    ensures |name| >= 2
  {
  }

  /** A word is as long as what it is read as. */
  lemma WordWidth(r: Reader, s: Text, ltype: Text)
    requires ReaderOk(r) && WordTok(r, s).Some?
    ensures TokOk(WordTok(r, s).value) && Width(WordTok(r, s).value, ltype) <= |s|
  {
    hide TestAtr, FlagNamed, ObjectAhead;
    var p := TestAtr(s, FLAG);
    if p.Parted? {
      ObjectWidth(r, p.text, ltype);
      if p.name != OBJID { FlagNameLong(p.name); }
    }
  }

  /** No text is shorter than its tokens, and the tokens are such as the bound asks for. */
  lemma {:induction false} ScanWidth(r: Reader, ltype: Text, s: Text, m: Mode)
    requires ReaderOk(r)
    ensures ToksOk(Scan(r, ltype, s, m)) && TextWidth(Scan(r, ltype, s, m), ltype) <= |s|
    decreases |s|, Rank(m), 1
  {
    hide ScanOperand, ScanObject, ScanLock, ScanOperator, ReaderOk, TextWidth, ToksOk;
    match m
    case Operand => OperandWidth(r, ltype, SkipSpace(s));
    case Object(indirect) => ScanObjectWidth(r, ltype, s, indirect);
    case LockName => ScanLockWidth(r, ltype, s);
    case Operator => OperatorWidth(r, ltype, SkipSpace(s));
  }

  lemma {:induction false} ScanObjectWidth(r: Reader, ltype: Text, s: Text, indirect: bool)
    requires ReaderOk(r)
    ensures ToksOk(ScanObject(r, ltype, s, indirect)) && TextWidth(ScanObject(r, ltype, s, indirect), ltype) <= |s|
    decreases |s|, 2, 0
  {
    hide Scan, ReaderOk, ObjectAhead, WordLen, TextWidth, ToksOk, TokOk;
    ObjectWidth(r, s, ltype);
    var rest := Scan(r, ltype, s[WordLen(s, true, false)..], if indirect then LockName else Operator);
    ScanWidth(r, ltype, s[WordLen(s, true, false)..], if indirect then LockName else Operator);
    WidthMore(ObjectAhead(r, s), rest, ltype);
  }

  lemma {:induction false} ScanLockWidth(r: Reader, ltype: Text, s: Text)
    requires ReaderOk(r)
    ensures ToksOk(ScanLock(r, ltype, s)) && TextWidth(ScanLock(r, ltype, s), ltype) <= |s|
    decreases |s|, 1, 0
  {
    hide Scan, ReaderOk, WordLen, Unescaped, Trimmed, GoodName, TextWidth, ToksOk;
    if s == [] || s[0] != EVAL {
      ScanWidth(r, ltype, s, Operator);
      WidthMore(SlashTok(ltype), Scan(r, ltype, s, Operator), ltype);
    } else {
      var n := WordLen(s[1..], false, false);
      var u := Upper(Trimmed(Unescaped(s[1..][..n], false)));
      ScanWidth(r, ltype, s[1..][n..], Operator);
      assert |u| <= n;
      LockLength(r, u);
      if GoodName(u) {
        WidthMore(SlashTok(LockNamed(r, u)), Scan(r, ltype, s[1..][n..], Operator), ltype);
      } else {
        NoWidth(ltype);
      }
    }
  }

  lemma NoWidth(ltype: Text)
    ensures ToksOk([]) && TextWidth([], ltype) == 0 && ToksOk([UnknownTok]) && TextWidth([UnknownTok], ltype) == 0
  {
  }

  lemma {:induction false} OperatorWidth(r: Reader, ltype: Text, s: Text)
    requires ReaderOk(r)
    ensures ToksOk(ScanOperator(r, ltype, s)) && TextWidth(ScanOperator(r, ltype, s), ltype) <= |s|
    decreases |s|, 0, 0
  {
    hide Scan, ReaderOk, TextWidth, ToksOk;
    NoWidth(ltype);
    if s != [] {
      var m := if s[0] == CLOSE then Operator else Operand;
      var t := if s[0] == CLOSE then CloseTok else if s[0] == AND then AndTok else OrTok;
      ScanWidth(r, ltype, s[1..], m);
      WidthMore(t, Scan(r, ltype, s[1..], m), ltype);
    }
  }

  lemma {:induction false} OperandWidth(r: Reader, ltype: Text, s: Text)
    requires ReaderOk(r)
    ensures ToksOk(ScanOperand(r, ltype, s)) && TextWidth(ScanOperand(r, ltype, s), ltype) <= |s|
    decreases |s|, 3, 0
  {
    hide Scan, ReaderOk, ScanWord, TextWidth, ToksOk;
    ScanWordWidth(r, ltype, s);
    if s != [] {
      var m := if s[0] == AT then Object(true) else if s[0] == NOT || s[0] == OPEN then Operand else Object(false);
      var t := if s[0] == NOT then NotTok else if s[0] == OPEN then OpenTok else if s[0] == AT then AtTok
               else if s[0] == IS then EqTok else if s[0] == IN then PlusTok else DollarTok;
      ScanWidth(r, ltype, s[1..], m);
      WidthMore(t, Scan(r, ltype, s[1..], m), ltype);
    }
  }

  lemma {:induction false} ScanWordWidth(r: Reader, ltype: Text, s: Text)
    requires ReaderOk(r)
    ensures ToksOk(ScanWord(r, ltype, s)) && TextWidth(ScanWord(r, ltype, s), ltype) <= |s|
    decreases |s|, 2, 1
  {
    hide Scan, ReaderOk, WordTok, WordLen, Trimmed, ScanObject, TextWidth, ToksOk, TokOk;
    ScanObjectWidth(r, ltype, s, false);
    var n := WordLen(s, false, false);
    match WordTok(r, Trimmed(s[..n]))
    case None => assert ScanWord(r, ltype, s) == ScanObject(r, ltype, s, false);
    case Some(t) =>
      WordWidth(r, Trimmed(s[..n]), ltype);
      ScanWidth(r, ltype, s[n..], Operator);
      WidthMore(t, Scan(r, ltype, s[n..], Operator), ltype);
  }

  // ----- locks that fit -----

  /** The length of the bytes of a lock: code, return and strings. */
  function StoredLen(e: Expr): nat { 5 * (CodeLen(e, Top) + 1) + |StringBytes(Generated(e).strs)| }

  lemma EmptyPool(ltype: Text)
    ensures PoolCost([], ltype) == 0
  {
  }

  /** The length computed for a lock from text that fits a buffer stays below 2^16, so that it is the length; text of
      `n` characters takes at most six times as many bytes, and six more and the default lock name. */
  lemma {:induction false} CompiledFits(r: Reader, ltype: Text, s: Text)
    requires ReaderOk(r) && |s| < BUFFER_LEN && |ltype| < BUFFER_LEN && ReadLock(r, ltype, s).Some?
    ensures var e := Simplified(ReadLock(r, ltype, s).value);
            ThingsOk(e) && Emittable(Generated(e)) && Distinct(Generated(e).strs) &&
            |Emitted(Generated(e))| == StoredLen(e) <= 6 * |s| + |ltype| + 6
  {
    hide ParseE, Scan, Gen, PoolCost, StringBytes, CodeBytes, Cost, CodeLen, Real, CodeAt, TextWidth, ToksOk, ReaderOk;
    var toks := Scan(r, ltype, s, Operand);
    ScanWidth(r, ltype, s, Operand);
    PaidE(toks, ltype);
    var e0 := ParseE(toks).value.0;
    var e := Simplified(e0);
    SimplifiedCost(e0, Top, ltype);
    SimplifiedThings(e0);
    GeneratedArgsOk(e);
    GenCost(e, Top, EMPTY, ltype);
    EmptyPool(ltype);
    PoolBytes(Generated(e).strs, ltype);
    GeneratedShape(e);
    assert |Emitted(Generated(e))| == 5 * Real(Generated(e).insns) + |StringBytes(Generated(e).strs)|;
    LinkedLength(Generated(e));
  }
}

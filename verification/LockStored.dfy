/**
 A lock that comes back is no longer than it was: what could be stored once can be stored again.
 */
module LockStored {
  import opened Basics
  import opened LockLanguage
  import opened LockTree
  import opened LockAssembler
  import opened LockGeneration
  import opened LockBytecode
  import opened LockPatch
  import opened LockDecompiler
  import opened LockRoundTrip
  import opened LockFits

  // ----- the strings of a lock -----

  function Strings(e: Expr): set<Text> {
    match e
    case And(a, b) => Strings(a) + Strings(b)
    case Or(a, b) => Strings(a) + Strings(b)
    case Not(n) => Strings(n)
    case Ind(_, lock) => {lock}
    case Pair(_, name, text) => {name, text}
    case Flag(_, text) => {text}
    case _ => {}
  }

  lemma {:induction false} GenStrings(e: Expr, outer: Outer, st: Asm, s: Text)
    ensures s in Gen(e, outer, st).strs <==> s in st.strs || s in Strings(e)
    decreases e
  {
    hide IndexOf;
    match e
    case And(a, b) =>
      var g := StagesOf(e, outer == InNot, InAnd, JmpF, st);
      GenStrings(a, InAnd, g.s1, s);
      GenStrings(b, InAnd, g.s2, s);
    case Or(a, b) =>
      var g := StagesOf(e, outer == InNot || outer == InAnd, InOr, JmpT, st);
      GenStrings(a, InOr, g.s1, s);
      GenStrings(b, InOr, g.s2, s);
    case Not(n) => GenStrings(n, InNot, st, s);
    case _ =>
  }

  lemma {:induction false} GenDistinct(e: Expr, outer: Outer, st: Asm)
    requires Distinct(st.strs)
    ensures Distinct(Gen(e, outer, st).strs)
    decreases e
  {
    hide Distinct, IndexOf, AppendString;
    match e
    case And(a, b) =>
      var g := StagesOf(e, outer == InNot, InAnd, JmpF, st);
      GenDistinct(a, InAnd, g.s1);
      GenDistinct(b, InAnd, g.s2);
    case Or(a, b) =>
      var g := StagesOf(e, outer == InNot || outer == InAnd, InOr, JmpT, st);
      GenDistinct(a, InOr, g.s1);
      GenDistinct(b, InOr, g.s2);
    case Not(n) => GenDistinct(n, InNot, st);
    case Ind(_, lock) => OneDistinct(st, LoadS, lock);
    case Pair(k, name, text) =>
      OneDistinct(st, LoadS, name);
      OneDistinct(AppendString(st, LoadS, name), Op.TPair(k), text);
    case Flag(k, text) => OneDistinct(st, Op.TFlag(k), text);
    case _ =>
  }

  lemma OneDistinct(st: Asm, op: Op, s: Text)
    requires Distinct(st.strs)
    ensures Distinct(AppendString(st, op, s).strs)
  {
    IndexOfMisses(st.strs, s);
  }

  lemma {:induction false} StringBytesTwo(a: seq<Text>, b: seq<Text>)
    ensures |StringBytes(a + b)| == |StringBytes(a)| + |StringBytes(b)|
  {
    if b == [] {
      assert a + b == a;
    } else {
      var n := |b| - 1;
      assert b == b[..n] + [b[n]] && a + b == (a + b[..n]) + [b[n]];
      StringBytesTwo(a, b[..n]);
      StringBytesAppend(b[..n], b[n]);
      StringBytesAppend(a + b[..n], b[n]);
    }
  }

  /** Fewer strings, each once, take no more bytes. */
  lemma {:induction false} SmallerPool(a: seq<Text>, b: seq<Text>)
    requires Distinct(a) && forall s :: s in a ==> s in b
    ensures |StringBytes(a)| <= |StringBytes(b)|
    decreases |a|
  {
    if a != [] {
      hide StringBytes;
      var n := |a| - 1;
      var s := a[n];
      assert a == a[..n] + [s] && s in a && s in b;
      StringBytesAppend(a[..n], s);
      var rest := WithoutString(b, s);
      assert forall x :: x in a[..n] ==> x in a && x != s;
      SmallerPool(a[..n], rest);
    }
  }

  /** A pool without one of its strings. */
  lemma WithoutString(b: seq<Text>, s: Text) returns (rest: seq<Text>)
    requires s in b
    ensures |StringBytes(b)| == |StringBytes(rest)| + |s| + 1
    ensures forall x :: x in b && x != s ==> x in rest
  {
    hide StringBytes;
    var i :| 0 <= i < |b| && b[i] == s;
    rest := b[..i] + b[i + 1..];
    assert b == b[..i] + ([s] + b[i + 1..]);
    StringBytesTwo(b[..i], [s] + b[i + 1..]);
    StringBytesTwo([s], b[i + 1..]);
    StringBytesTwo(b[..i], b[i + 1..]);
    OneString(s);
  }

  lemma OneString(s: Text)
    ensures |StringBytes([s])| == |s| + 1
  {
    StringBytesAppend([], s);
    assert [] + [s] == [s];
  }

  // ----- the length of the code -----

  lemma {:induction false} JoinAndCode(a: Expr, b: Expr, outer: Outer)
    ensures CodeLen(JoinAnd(a, b), outer) == CodeLen(And(a, b), outer) && Strings(JoinAnd(a, b)) == Strings(And(a, b))
  {
    if a.And? { JoinAndCode(a.right, b, InAnd); }
  }

  lemma {:induction false} JoinOrCode(a: Expr, b: Expr, outer: Outer)
    ensures CodeLen(JoinOr(a, b), outer) == CodeLen(Or(a, b), outer) && Strings(JoinOr(a, b)) == Strings(Or(a, b))
  {
    if a.Or? { JoinOrCode(a.right, b, InOr); }
  }

  lemma {:induction false} RegroupedCode(e: Expr, outer: Outer)
    ensures CodeLen(Regrouped(e), outer) == CodeLen(e, outer) && Strings(Regrouped(e)) == Strings(e)
    decreases e
  {
    match e
    case And(a, b) => RegroupedCode(a, InAnd); RegroupedCode(b, InAnd); JoinAndCode(Regrouped(a), Regrouped(b), outer);
    case Or(a, b) => RegroupedCode(a, InOr); RegroupedCode(b, InOr); JoinOrCode(Regrouped(a), Regrouped(b), outer);
    case Not(n) => RegroupedCode(n, InNot);
    case _ =>
  }

  lemma {:induction false} WithoutGoneCode(gone: Dbref -> bool, e: Expr, outer: Outer)
    ensures CodeLen(WithoutGone(gone, e), outer) <= CodeLen(e, outer) && Strings(WithoutGone(gone, e)) <= Strings(e)
    decreases e
  {
    match e
    case And(a, b) => WithoutGoneCode(gone, a, InAnd); WithoutGoneCode(gone, b, InAnd);
    case Or(a, b) => WithoutGoneCode(gone, a, InOr); WithoutGoneCode(gone, b, InOr);
    case Not(n) => WithoutGoneCode(gone, n, InNot);
    case _ =>
  }

  lemma {:induction false} SimplifiedCode(e: Expr, outer: Outer)
    ensures CodeLen(Simplified(e), outer) <= CodeLen(e, outer) && Strings(Simplified(e)) <= Strings(e)
    decreases e
  {
    match e
    case And(a, b) => SimplifiedCode(a, InAnd); SimplifiedCode(b, InAnd);
    case Or(a, b) => SimplifiedCode(a, InOr); SimplifiedCode(b, InOr);
    case Not(Not(n)) =>
      SimplifiedCode(n, outer);
      assert CodeLen(n, outer) <= CodeLen(n, InNot) + 1 by { UnderNot(n, outer); }
    case Not(Bool(_)) =>
    case Not(n) => SimplifiedCode(n, InNot);
    case _ =>
  }

  /** Under a NOT every AND and OR has its parentheses. */
  lemma UnderNot(e: Expr, outer: Outer)
    ensures CodeLen(e, outer) <= CodeLen(e, InNot)
  {
  }

  // ----- the result -----

  lemma ShorterStored(a: Expr, b: Expr)
    requires CodeLen(a, Top) <= CodeLen(b, Top) && Strings(a) <= Strings(b)
    ensures StoredLen(a) <= StoredLen(b)
  {
    hide Gen, StringBytes, CodeLen;
    var x, y := Generated(a).strs, Generated(b).strs;
    forall s | s in x ensures s in y {
      GenStrings(a, Top, EMPTY, s);
      GenStrings(b, Top, EMPTY, s);
    }
    assert Distinct(EMPTY.strs);
    GenDistinct(a, Top, EMPTY);
    SmallerPool(x, y);
  }

  /** What is loaded when a lock comes back takes no more bytes than the lock that was saved. */
  lemma ReloadedStored(gone: Dbref -> bool, e: Expr)
    ensures StoredLen(Simplified(Regrouped(WithoutGone(gone, e)))) <= StoredLen(e)
  {
    hide CodeLen, Strings, Simplified, Regrouped, WithoutGone, StoredLen;
    var e' := WithoutGone(gone, e);
    WithoutGoneCode(gone, e, Top);
    RegroupedCode(e', Top);
    SimplifiedCode(Regrouped(e'), Top);
    ShorterStored(Simplified(Regrouped(e')), e);
  }
}

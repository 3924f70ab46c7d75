/**
 When a printed lock reads back as the same lock: exactly the printed texts for which that is so, through escapes and
 through the limit of the buffer.
 */
module LockReload {
  import opened Basics
  import opened LockLanguage
  import opened LockAssembler
  import opened LockScanner
  import opened LockText
  import opened LockSpelling
  import opened LockReading
  import opened LockDecompiler
  import opened LockRoundTrip

  // ----- what the tokens of a parse say -----

  /** The atoms in a list of tokens, token by token. */
  function Payload(ts: seq<Tok>): seq<Tok> {
    if ts == [] then [] else Pay(ts[0]) + Payload(ts[1..])
  }

  lemma {:induction false} PayloadAppend(a: seq<Tok>, b: seq<Tok>)
    ensures Payload(a + b) == Payload(a) + Payload(b)
  {
    if a == [] {
      assert a + b == b;
    } else {
      assert (a + b)[1..] == a[1..] + b;
      PayloadAppend(a[1..], b);
    }
  }

  /** Parentheses that are open after a list of tokens. */
  function Depth(ts: seq<Tok>): int {
    if ts == [] then 0 else Opens(ts[0]) + Depth(ts[1..])
  }

  lemma {:induction false} DepthAppend(a: seq<Tok>, b: seq<Tok>)
    ensures Depth(a + b) == Depth(a) + Depth(b)
  {
    if a == [] {
      assert a + b == b;
    } else {
      assert (a + b)[1..] == a[1..] + b;
      DepthAppend(a[1..], b);
    }
  }

  /** The tokens of the atoms of a tree. */
  function AtomToks(e: Expr): seq<Tok> {
    match e
    case And(a, b) => AtomToks(a) + AtomToks(b)
    case Or(a, b) => AtomToks(a) + AtomToks(b)
    case Not(n) => AtomToks(n)
    case Bool(v) => [TruthTok(v)]
    case Ref(Const, thing) => [NameTok(thing)]
    case Ref(Carry, thing) => [PlusTok, NameTok(thing)]
    case Ref(Is, thing) => [EqTok, NameTok(thing)]
    case Ref(Owner, thing) => [DollarTok, NameTok(thing)]
    case Ind(thing, lock) => [AtTok, NameTok(thing), SlashTok(lock)]
    case Pair(k, name, text) => [PairTok(k, name, text)]
    case Flag(k, text) => [FlagTok(k, text)]
  }

  /** Tokens taken from the front: what they say, and the parentheses they open. */
  ghost predicate Took(ts: seq<Tok>, pay: seq<Tok>, depth: int, rest: seq<Tok>) {
    |rest| <= |ts| && rest == ts[|ts| - |rest|..] && Payload(ts) == pay + Payload(rest) &&
    Depth(ts) == depth + Depth(rest)
  }

  function Opens(t: Tok): int { if t == OpenTok then 1 else if t == CloseTok then -1 else 0 }

  lemma TookOne(ts: seq<Tok>)
    requires ts != []
    ensures Took(ts, Pay(ts[0]), Opens(ts[0]), ts[1..])
  {
  }

  lemma TookThen(ts: seq<Tok>, p1: seq<Tok>, d1: int, mid: seq<Tok>, p2: seq<Tok>, d2: int, rest: seq<Tok>)
    requires Took(ts, p1, d1, mid) && Took(mid, p2, d2, rest)
    ensures Took(ts, p1 + p2, d1 + d2, rest)
  {
    hide Payload, Depth;
    assert p1 + p2 + Payload(rest) == p1 + (p2 + Payload(rest));
  }

  /** A parse takes the atoms of its tree, with as many parentheses opened as closed. */
  ghost predicate Taken(p: Parse, ts: seq<Tok>) {
    p.Some? ==> Took(ts, AtomToks(p.value.0), 0, p.value.1)
  }

  lemma TakenR(ts: seq<Tok>)
    ensures Taken(ParseR(ts), ts)
  {
    hide Took;
    if ts != [] { TookOne(ts); }
  }

  lemma TakenMarked(ts: seq<Tok>, k: RefKind)
    requires ts != [] && ts[0] == if k == Is then EqTok else if k == Carry then PlusTok else DollarTok
    requires k != Const
    ensures Taken(ParseMarked(ts[1..], k), ts)
  {
    hide Took;
    TookOne(ts);
    var p := ParseMarked(ts[1..], k);
    if p.Some? {
      TookOne(ts[1..]);
      var t := ts[1];
      TookThen(ts, [ts[0]], 0, ts[1..], [t], 0, ts[1..][1..]);
      assert [ts[0]] + [t] == AtomToks(p.value.0);
    }
  }

  lemma TakenIndirect(ts: seq<Tok>)
    requires Starts(ts, AtTok)
    ensures Taken(ParseIndirect(ts[1..]), ts)
  {
    hide Took;
    TookOne(ts);
    var p := ParseIndirect(ts[1..]);
    if p.Some? {
      var rest := ts[1..][1..];
      TookOne(ts[1..]);
      TookOne(rest);
      TookThen(ts, [AtTok], 0, ts[1..], [ts[1]], 0, rest);
      TookThen(ts, [AtTok] + [ts[1]], 0, rest, [rest[0]], 0, rest[1..]);
      assert [AtTok] + [ts[1]] + [rest[0]] == AtomToks(p.value.0);
    }
  }

  lemma {:induction false} TakenL(ts: seq<Tok>)
    ensures Taken(ParseL(ts), ts)
    decreases |ts|, 0
  {
    hide Took;
    TakenR(ts);
    if ts != [] {
      TookOne(ts);
      if ts[0] == OpenTok { TakenParens(ts); }
    }
  }

  lemma {:induction false} TakenParens(ts: seq<Tok>)
    requires Starts(ts, OpenTok)
    ensures Taken(ParseL(ts), ts)
    decreases |ts|, 0, 0
  {
    hide Took;
    TookOne(ts);
    TakenE(ts[1..]);
    var p := ParseE(ts[1..]);
    if p.Some? && Starts(p.value.1, CloseTok) {
      var (e, rest) := p.value;
      TookOne(rest);
      TookThen(ts, [], 1, ts[1..], AtomToks(e), 0, rest);
      TookThen(ts, [] + AtomToks(e), 1, rest, [], -1, rest[1..]);
      assert [] + AtomToks(e) + [] == AtomToks(e);
    }
  }

  lemma {:induction false} TakenA(ts: seq<Tok>)
    ensures Taken(ParseA(ts), ts)
    decreases |ts|, 1
  {
    hide ParseL, Took, ParseMarked, ParseIndirect;
    TakenL(ts);
    if Starts(ts, AtTok) { TakenIndirect(ts); }
    if Starts(ts, EqTok) { TakenMarked(ts, Is); }
    if Starts(ts, PlusTok) { TakenMarked(ts, Carry); }
    if Starts(ts, DollarTok) { TakenMarked(ts, Owner); }
  }

  lemma {:induction false} TakenF(ts: seq<Tok>)
    ensures Taken(ParseF(ts), ts)
    decreases |ts|, 2
  {
    hide ParseA, Took;
    TakenA(ts);
    if Starts(ts, NotTok) {
      TookOne(ts);
      TakenF(ts[1..]);
      var p := ParseF(ts[1..]);
      if p.Some? {
        TookThen(ts, [], 0, ts[1..], AtomToks(p.value.0), 0, p.value.1);
        assert [] + AtomToks(p.value.0) == AtomToks(p.value.0);
      }
    }
  }

  /** Two operands with an operator between them. */
  lemma TookTwo(ts: seq<Tok>, a: seq<Tok>, mid: seq<Tok>, b: seq<Tok>, rest: seq<Tok>)
    requires mid != [] && (mid[0] == AndTok || mid[0] == OrTok)
    requires Took(ts, a, 0, mid) && Took(mid[1..], b, 0, rest)
    ensures Took(ts, a + b, 0, rest)
  {
    hide Took;
    TookOne(mid);
    TookThen(mid, [], 0, mid[1..], b, 0, rest);
    TookThen(ts, a, 0, mid, [] + b, 0, rest);
    assert a + ([] + b) == a + b;
  }

  lemma {:induction false} TakenT(ts: seq<Tok>)
    ensures Taken(ParseT(ts), ts)
    decreases |ts|, 3
  {
    hide ParseF, Took;
    TakenF(ts);
    var p := ParseF(ts);
    if p.Some? && Starts(p.value.1, AndTok) {
      TakenT(p.value.1[1..]);
      var q := ParseT(p.value.1[1..]);
      if q.Some? { TookTwo(ts, AtomToks(p.value.0), p.value.1, AtomToks(q.value.0), q.value.1); }
    }
  }

  lemma {:induction false} TakenE(ts: seq<Tok>)
    ensures Taken(ParseE(ts), ts)
    decreases |ts|, 4
  {
    hide ParseT, Took;
    TakenT(ts);
    var p := ParseT(ts);
    if p.Some? && Starts(p.value.1, OrTok) {
      TakenE(p.value.1[1..]);
      var q := ParseE(p.value.1[1..]);
      if q.Some? { TookTwo(ts, AtomToks(p.value.0), p.value.1, AtomToks(q.value.0), q.value.1); }
    }
  }

  // ----- how printed tokens end -----

  /** An atom at the end, or closing parentheses behind one. */
  predicate EndsWell(ts: seq<Tok>) {
    |ts| > 0 && if ts[|ts| - 1] == CloseTok then EndsWell(ts[..|ts| - 1]) else Pay(ts[|ts| - 1]) != []
  }

  lemma {:induction false} EndsBehind(a: seq<Tok>, b: seq<Tok>)
    requires EndsWell(b)
    ensures EndsWell(a + b)
  {
    if b[|b| - 1] == CloseTok {
      EndsBehind(a, b[..|b| - 1]);
      assert (a + b)[..|a + b| - 1] == a + b[..|b| - 1];
    }
  }

  lemma EndsClosed(a: seq<Tok>)
    requires EndsWell(a)
    ensures EndsWell(a + [CloseTok])
  {
    assert (a + [CloseTok])[..|a|] == a;
  }

  lemma {:induction false} EndsPrinted(e: Expr, outer: Outer)
    ensures EndsWell(Printed(e, outer))
    decreases e
  {
    hide EndsWell;
    match e
    case And(_, _) => EndsBinary(e, outer);
    case Or(_, _) => EndsBinary(e, outer);
    case Not(n) =>
      EndsPrinted(n, InNot);
      EndsBehind([NotTok], Printed(n, InNot));
    case _ => EndsAtom(e, outer);
  }

  lemma EndsAtom(e: Expr, outer: Outer)
    requires !e.And? && !e.Or? && !e.Not?
    ensures EndsWell(Printed(e, outer))
  {
  }

  lemma {:induction false} EndsBinary(e: Expr, outer: Outer)
    requires e.And? || e.Or?
    ensures EndsWell(Printed(e, outer))
    decreases e, 0
  {
    hide EndsWell;
    EndsPrinted(e.right, Inner(e));
    var a := Printed(e.left, Inner(e)) + [OperatorTok(e)];
    EndsBehind(a, Printed(e.right, Inner(e)));
    if Parens(e, outer) {
      PrintedInParens(e, outer);
      EndsBehind([OpenTok], a + Printed(e.right, Inner(e)));
      EndsClosed([OpenTok] + (a + Printed(e.right, Inner(e))));
    } else {
      PrintedBinary(e, outer);
    }
  }

  /** Behind the last atom there are closing parentheses only. */
  lemma {:induction false} EndsTail(ts: seq<Tok>, q: nat, n: nat)
    requires EndsWell(ts) && q <= n <= |ts| && Payload(ts[q..]) == []
    ensures Depth(ts[q..n]) == q - n
    decreases |ts|
  {
    hide Payload, Depth;
    if q == n {
      assert ts[q..n] == [];
      NoDepth([]);
    } else {
      LastClosed(ts, q);
      var m := |ts| - 1;
      var a := ts[..m];
      assert a[q..] == ts[q..m];
      if n <= m {
        EndsTail(a, q, n);
        assert a[q..n] == ts[q..n];
      } else {
        EndsTail(a, q, m);
        OneClosed(ts, q);
      }
    }
  }

  lemma OneClosed(ts: seq<Tok>, q: nat)
    requires q < |ts| && ts[|ts| - 1] == CloseTok
    ensures var m := |ts| - 1; ts[..m][q..m] == ts[q..m] && Depth(ts[q..|ts|]) == Depth(ts[q..m]) - 1
  {
    var m := |ts| - 1;
    assert ts[..m][q..m] == ts[q..m] && ts[q..|ts|] == ts[q..m] + [CloseTok];
    DepthAppend(ts[q..m], [CloseTok]);
    assert Depth([CloseTok][1..]) == 0;
  }

  lemma LastClosed(ts: seq<Tok>, q: nat)
    requires EndsWell(ts) && q < |ts| && Payload(ts[q..]) == []
    ensures var m := |ts| - 1; ts[m] == CloseTok && EndsWell(ts[..m]) && Payload(ts[q..m]) == []
  {
    hide Payload, Pay;
    var m := |ts| - 1;
    assert ts[q..] == ts[q..m] + [ts[m]];
    PayloadAppend(ts[q..m], [ts[m]]);
    OnePayload(ts[m]);
  }

  lemma OnePayload(t: Tok)
    ensures Payload([t]) == Pay(t)
  {
    assert Payload([t][1..]) == [];
  }

  // ----- a text that reads as something else -----

  predicate Known(ts: seq<Tok>) {
    forall k :: 0 <= k < |ts| ==> !ts[k].UnknownTok? && !ts[k].ObjidTok?
  }

  /** What is read where `t` should be: nothing, or a word other than `t`; where no word should be, nothing that means
      anything. */
  predicate ReadsOther(f: seq<Tok>, t: Tok) {
    f == [] || (if Pay(t) == [] then f == [UnknownTok] else Wordish(f[0]) && f[0] != t)
  }

  lemma {:induction false} KnownPayload(ts: seq<Tok>)
    requires Known(ts)
    ensures UnknownTok !in Payload(ts)
    ensures ts != [] && Pay(ts[0]) != [] ==> Payload(ts) != [] && Payload(ts)[0] == ts[0]
  {
    if ts != [] { KnownPayload(ts[1..]); }
  }

  /** The printed form of a lock, with something else from some token on, is not that lock. */
  lemma OtherTree(e: Expr, i: nat, f: seq<Tok>)
    requires i < |Printed(e, Top)| && Known(Printed(e, Top)) && ReadsOther(f, Printed(e, Top)[i])
    ensures var p := ParseE(Printed(e, Top)[..i] + f); p.Some? ==> p.value.0 != Regrouped(e)
  {
    hide Printed, ParseE, Regrouped, EndsWell, Payload, Depth, AtomToks;
    var ts := Printed(e, Top);
    var c := ts[..i] + f;
    var p := ParseE(c);
    if p.Some? && p.value.0 == Regrouped(e) {
      var rest := p.value.1;
      TakenE(c);
      WholeTaken(e);
      PayloadAppend(ts[..i], f);
      PayloadAppend(ts[..i], ts[i..]);
      assert ts[..i] + ts[i..] == ts;
      var d := Payload(ts[i..]);
      assert Payload(f) == d + Payload(rest) by {
        assert Payload(ts[..i]) + Payload(f) == Payload(ts[..i]) + d + Payload(rest);
        CancelFront(Payload(ts[..i]), Payload(f), d + Payload(rest));
      }
      KnownPayload(ts[i..]);
      FirstPayload(f);
      if Pay(ts[i]) == [] { OnlyClosing(e, i, f, rest); }
    }
  }

  lemma CancelFront(a: seq<Tok>, b: seq<Tok>, c: seq<Tok>)
    requires a + b == a + c
    ensures b == c
  {
    assert (a + b)[|a|..] == b && (a + c)[|a|..] == c;
  }

  lemma FirstPayload(f: seq<Tok>)
    ensures f == [] ==> Payload(f) == []
    ensures f != [] && Wordish(f[0]) ==> Payload(f) != [] && Payload(f)[0] == f[0]
    ensures f == [UnknownTok] ==> Payload(f) == [UnknownTok]
  {
  }

  lemma WholeTaken(e: Expr)
    ensures Payload(Printed(e, Top)) == AtomToks(Regrouped(e)) && Depth(Printed(e, Top)) == 0
  {
    hide Printed, ParseE, Regrouped, AtomToks;
    ParsePrintedE(e, Top, []);
    assert Printed(e, Top) + [] == Printed(e, Top);
    TakenE(Printed(e, Top));
  }

  /** Where only closing parentheses are missing, the lock does not end. */
  lemma OnlyClosing(e: Expr, i: nat, f: seq<Tok>, rest: seq<Tok>)
    requires var ts := Printed(e, Top);
             i < |ts| && Known(ts) && Pay(ts[i]) == [] && (f == [] || f == [UnknownTok]) &&
             |rest| < |ts[..i] + f| && rest == (ts[..i] + f)[|ts[..i] + f| - |rest|..] &&
             Payload(f) == Payload(ts[i..]) + Payload(rest)
    ensures Depth(Printed(e, Top)[..i] + f) != Depth(rest)
  {
    hide Printed, EndsWell, Payload, Depth, Known;
    var ts := Printed(e, Top);
    var c := ts[..i] + f;
    EndsPrinted(e, Top);
    NoAtomsLeft(ts, i, f, rest);
    OpenBefore(e, i, f);
    var j := |c| - |rest|;
    if j >= i {
      assert rest == f[j - i..];
      NoDepth(rest);
    } else {
      assert rest == ts[j..i] + f;
      NoDepth(f);
      ClosedBefore(ts, j, i, f);
    }
  }

  lemma NoAtomsLeft(ts: seq<Tok>, i: nat, f: seq<Tok>, rest: seq<Tok>)
    requires i < |ts| && Known(ts) && (f == [] || f == [UnknownTok]) && Payload(f) == Payload(ts[i..]) + Payload(rest)
    ensures Payload(ts[i..]) == [] && Payload(f) == Payload(rest)
  {
    hide Payload;
    KnownPayload(ts[i..]);
    FirstPayload(f);
  }

  /** With only closing parentheses missing, some are open. */
  lemma OpenBefore(e: Expr, i: nat, f: seq<Tok>)
    requires i < |Printed(e, Top)| && Payload(Printed(e, Top)[i..]) == [] && (f == [] || f == [UnknownTok])
    ensures Depth(Printed(e, Top)[..i] + f) > 0
  {
    hide Printed, EndsWell, Payload, Depth;
    var ts := Printed(e, Top);
    EndsPrinted(e, Top);
    WholeTaken(e);
    EndsTail(ts, i, |ts|);
    assert ts[i..|ts|] == ts[i..] && ts[..i] + ts[i..] == ts;
    DepthAppend(ts[..i], ts[i..]);
    DepthAppend(ts[..i], f);
    NoDepth(f);
  }

  /** Where no atom follows, more parentheses are closed than opened. */
  lemma ClosedBefore(ts: seq<Tok>, j: nat, i: nat, f: seq<Tok>)
    requires j < i < |ts| && EndsWell(ts) && Payload(ts[i..]) == [] && Depth(f) == 0
    requires Payload(f) == Payload(ts[j..i] + f)
    ensures Depth(ts[j..i] + f) < 0
  {
    hide EndsWell, Payload, Depth;
    PayloadAppend(ts[j..i], f);
    assert Payload(ts[j..i]) == [];
    assert ts[j..] == ts[j..i] + ts[i..];
    PayloadAppend(ts[j..i], ts[i..]);
    EndsTail(ts, j, i);
    DepthAppend(ts[j..i], f);
  }

  lemma NoDepth(f: seq<Tok>)
    ensures |f| == 0 || f == [UnknownTok] ==> Depth(f) == 0
  {
  }

  // ----- what the limit of the buffer leaves -----

  /** The characters that tokens add to a buffer that holds `n`. */
  function Tail(n: nat, ts: seq<Tok>): Text
    requires n <= LIMIT
    decreases |ts|
  {
    if ts == [] then [] else
      var w := Spelled(ByNumber, ts[0]);
      if n + |w| <= LIMIT then
        var s: Text := w + Tail(n + |w|, ts[1..]);
        s
      else if ts[0].NameTok? then Tail(n, ts[1..])
      else w[..LIMIT - n]
  }

  lemma {:induction false} WrittenFull(out: seq<Byte>, ts: seq<Tok>)
    requires |out| == LIMIT
    ensures Written(ByNumber, out, ts) == out
    decreases |ts|
  {
    if ts != [] {
      CutFull(out, Spelled(ByNumber, ts[0]));
      WrittenFull(out, ts[1..]);
    }
  }

  lemma {:induction false} WrittenTail(out: seq<Byte>, ts: seq<Tok>)
    requires |out| <= LIMIT
    ensures Written(ByNumber, out, ts) == out + Tail(|out|, ts)
    decreases |ts|
  {
    hide Spelled;
    if ts != [] {
      var w := Spelled(ByNumber, ts[0]);
      if |out| + |w| <= LIMIT {
        WrittenTail(out + w, ts[1..]);
        assert out + w + Tail(|out| + |w|, ts[1..]) == out + (w + Tail(|out| + |w|, ts[1..]));
      } else if ts[0].NameTok? {
        WrittenTail(out, ts[1..]);
      } else {
        WrittenFull(out + w[..LIMIT - |out|], ts[1..]);
      }
    }
  }

  /** Tokens in an order in which the scanner can meet them. */
  predicate Chain(ts: seq<Tok>, m: Mode) {
    if ts == [] then m == Operator else Allowed(ts[0], m) && Chain(ts[1..], Next(ts[0], m))
  }

  predicate AllReadable(r: Reader, ts: seq<Tok>) {
    forall k :: 0 <= k < |ts| ==> TokReadable(r, ts[k])
  }

  /** What follows an atom starts with something that ends a word. */
  lemma TailStart(r: Reader, n: nat, ts: seq<Tok>, m: Mode)
    requires n <= LIMIT && Chain(ts, m) && AllReadable(r, ts) && (m == Operator || m == LockName)
    ensures MayFollow(Tail(n, ts), m)
  {
  }

  /** The printed text of these tokens, as far as there is room, reads back as the tokens: all but the last are printed
      whole and without anything escaped, and what there is of the last one still reads as that token. */
  predicate Survives(r: Reader, ltype: Text, ts: seq<Tok>, m: Mode, n: nat)
    requires n <= LIMIT
    decreases |ts|
  {
    if |ts| <= 1 then Scan(r, ltype, Tail(n, ts), m) == ts
    else
      var w := Spelled(ByNumber, ts[0]);
      n + |w| <= LIMIT && Reread(r, ts[0]) == ts[0] && !Swallows(ts[0]) &&
      Survives(r, ltype, ts[1..], Next(ts[0], m), n + |w|)
  }

  /** The part of a token that there was room for. */
  lemma CutRead(r: Reader, ltype: Text, t: Tok, k: nat, m: Mode)
    requires ReaderOk(r) && Allowed(t, m) && TokReadable(r, t) && !t.NameTok?
    requires k < |Spelled(ByNumber, t)|
    ensures var f := Scan(r, ltype, Spelled(ByNumber, t)[..k], m); f == [t] || ReadsOther(f, t)
  {
    hide Scan, TokReadable, ReaderOk;
    if t.SlashTok? {
      CutLock(r, ltype, t.lock, k);
    } else if k == 0 {
      assert Spelled(ByNumber, t)[..0] == [];
      if m == Operand { NoObject(r, ltype, [], m); } else { NothingMore(r, ltype); }
    } else if t.TruthTok? {
      CutTruth(r, ltype, t.truth, k);
    } else if t.PairTok? || t.FlagTok? {
      CutTest(r, ltype, t, k);
    }
  }

  lemma ReadableWord(r: Reader, t: Tok)
    requires TokReadable(r, t)
    ensures t != UnknownTok
  {
  }

  lemma RereadKind(r: Reader, t: Tok)
    ensures Reread(r, t) != t ==> Wordish(Reread(r, t)) && Pay(t) != []
  {
    hide GoodName;
  }

  /** The last token. */
  lemma LastRead(r: Reader, ltype: Text, t: Tok, m: Mode, n: nat)
    requires ReaderOk(r) && Chain([t], m) && TokReadable(r, t) && n <= LIMIT
    ensures var f := Scan(r, ltype, Tail(n, [t]), m); f == [t] || ReadsOther(f, t)
  {
    hide Scan, TokReadable, Spelled, Swallows, ReaderOk;
    var w := Spelled(ByNumber, t);
    assert [t][1..] == [];
    assert Tail(n, [t][1..]) == [];
    if n + |w| <= LIMIT {
      assert w + [] == w;
      ReadToken(r, ltype, t, [], w, m);
      NothingMore(r, ltype);
      RereadKind(r, t);
    } else if t.NameTok? {
      NoObject(r, ltype, [], m);
    } else {
      CutRead(r, ltype, t, LIMIT - n, m);
    }
  }

  /** What the scanner finds in the printed text: the tokens if they survive, and otherwise something else from some
      token on. */
  lemma {:induction false} ReadTail(r: Reader, ltype: Text, ts: seq<Tok>, m: Mode, n: nat) returns (i: nat, f: seq<Tok>)
    requires ReaderOk(r) && Chain(ts, m) && AllReadable(r, ts) && n <= LIMIT
    ensures Survives(r, ltype, ts, m, n) ==> Scan(r, ltype, Tail(n, ts), m) == ts
    ensures !Survives(r, ltype, ts, m, n) ==>
              i < |ts| && ReadsOther(f, ts[i]) && Scan(r, ltype, Tail(n, ts), m) == ts[..i] + f
    decreases |ts|
  {
    hide Scan, Spelled, Swallows, ReaderOk, TokReadable, Reread;
    i, f := 0, Scan(r, ltype, Tail(n, ts), m);
    if ts == [] {
      NothingMore(r, ltype);
    } else if |ts| == 1 {
      assert ts == [ts[0]];
      LastRead(r, ltype, ts[0], m, n);
    } else {
      i, f := ReadFirst(r, ltype, ts, m, n);
    }
  }

  lemma {:induction false} ReadFirst(r: Reader, ltype: Text, ts: seq<Tok>, m: Mode, n: nat)
      returns (i: nat, f: seq<Tok>)
    requires ReaderOk(r) && Chain(ts, m) && AllReadable(r, ts) && n <= LIMIT && |ts| > 1
    ensures Survives(r, ltype, ts, m, n) ==> Scan(r, ltype, Tail(n, ts), m) == ts
    ensures !Survives(r, ltype, ts, m, n) ==>
              i < |ts| && ReadsOther(f, ts[i]) && Scan(r, ltype, Tail(n, ts), m) == ts[..i] + f
    decreases |ts|, 0
  {
    hide Scan, Spelled, Swallows, ReaderOk, TokReadable, Reread;
    var t, rest, next := ts[0], ts[1..], Next(ts[0], m);
    var w := Spelled(ByNumber, t);
    i, f := 0, Scan(r, ltype, Tail(n, ts), m);
    if n + |w| > LIMIT {
      if t.NameTok? {
        TailStart(r, n, rest, next);
        NoObject(r, ltype, Tail(n, rest), m);
      } else {
        CutRead(r, ltype, t, LIMIT - n, m);
        if f == [t] { i, f := 1, []; }
      }
    } else {
      i, f := ReadOn(r, ltype, ts, m, n);
    }
  }

  /** The first token was printed whole. */
  lemma {:induction false} ReadOn(r: Reader, ltype: Text, ts: seq<Tok>, m: Mode, n: nat) returns (i: nat, f: seq<Tok>)
    requires ReaderOk(r) && Chain(ts, m) && AllReadable(r, ts) && |ts| > 1
    requires n + |Spelled(ByNumber, ts[0])| <= LIMIT
    ensures Survives(r, ltype, ts, m, n) ==> Scan(r, ltype, Tail(n, ts), m) == ts
    ensures !Survives(r, ltype, ts, m, n) ==>
              i < |ts| && ReadsOther(f, ts[i]) && Scan(r, ltype, Tail(n, ts), m) == ts[..i] + f
    decreases |ts|, 0, 0
  {
    hide Scan, Spelled, Swallows, ReaderOk, TokReadable, Reread, Tail, Survives, Chain, AllReadable, Allowed, Wordish,
         Pay, Next;
    OneStep(r, ltype, ts, m, n);
    var t, rest, next := ts[0], ts[1..], Next(ts[0], m);
    var w := Spelled(ByNumber, t);
    var z, s := Tail(n + |w|, rest), Tail(n, ts);
    i, f := 0, Scan(r, ltype, s, m);
    FollowsWell(r, n + |w|, rest, next);
    if Swallows(t) && z != [] {
      SwallowsKind(t, m);
      SwallowedWord(r, ltype, t, z, s);
    } else {
      ReadToken(r, ltype, t, z, s, m);
      RereadKind(r, t);
      assert t != UnknownTok by { hide *; ReadableWord(r, t); }
      if Reread(r, t) == t {
        if Swallows(t) {
          SwallowsKind(t, m);
          NothingMore(r, ltype);
          i, f := 1, [];
        } else {
          var j, g := ReadTail(r, ltype, rest, next, n + |w|);
          i, f := j + 1, g;
          if j < |rest| { OneMore(ts, j, g); }
        }
      }
    }
  }

  lemma OneMore(ts: seq<Tok>, j: nat, g: seq<Tok>)
    requires ts != [] && j < |ts[1..]|
    ensures [ts[0]] + (ts[1..][..j] + g) == ts[..j + 1] + g && ts[j + 1] == ts[1..][j]
  {
    assert ts[..j + 1] == [ts[0]] + ts[1..][..j];
  }

  lemma OneStep(r: Reader, ltype: Text, ts: seq<Tok>, m: Mode, n: nat)
    requires Chain(ts, m) && AllReadable(r, ts) && |ts| > 1 && n + |Spelled(ByNumber, ts[0])| <= LIMIT
    ensures var w, next := Spelled(ByNumber, ts[0]), Next(ts[0], m);
            Tail(n, ts) == w + Tail(n + |w|, ts[1..]) && Allowed(ts[0], m) && TokReadable(r, ts[0]) &&
            Chain(ts[1..], next) && AllReadable(r, ts[1..]) &&
            (Survives(r, ltype, ts, m, n) <==>
             Reread(r, ts[0]) == ts[0] && !Swallows(ts[0]) && Survives(r, ltype, ts[1..], next, n + |w|))
  {
    hide Scan, Spelled, Swallows, TokReadable, Reread;
  }

  lemma FollowsWell(r: Reader, n: nat, ts: seq<Tok>, m: Mode)
    requires n <= LIMIT && Chain(ts, m) && AllReadable(r, ts)
    ensures MayFollow(Tail(n, ts), m)
  {
    if m == Operator || m == LockName { TailStart(r, n, ts, m); }
  }

  lemma SwallowsKind(t: Tok, m: Mode)
    requires Swallows(t) && Allowed(t, m)
    ensures m == Operand && Next(t, m) == Operator && Pay(t) == [t]
  {
  }

  // ----- printed locks -----

  lemma {:induction false} ChainPrinted(e: Expr, outer: Outer, rest: seq<Tok>)
    requires Chain(rest, Operator)
    ensures Chain(Printed(e, outer) + rest, Operand)
    decreases e, 1
  {
    hide Chain;
    match e
    case And(_, _) => ChainBinary(e, outer, rest);
    case Or(_, _) => ChainBinary(e, outer, rest);
    case Not(n) =>
      ChainPrinted(n, InNot, rest);
      ChainMore(NotTok, Printed(n, InNot) + rest, Operand);
      assert [NotTok] + (Printed(n, InNot) + rest) == Printed(e, outer) + rest;
    case _ => ChainAtom(e, outer, rest);
  }

  lemma ChainMore(t: Tok, ts: seq<Tok>, m: Mode)
    requires Allowed(t, m) && Chain(ts, Next(t, m))
    ensures Chain([t] + ts, m)
  {
    assert ([t] + ts)[1..] == ts;
  }

  lemma ChainMarked(mark: Tok, d: Dbref, rest: seq<Tok>)
    requires (mark == EqTok || mark == PlusTok || mark == DollarTok) && Chain(rest, Operator)
    ensures Chain([mark, NameTok(d)] + rest, Operand)
  {
    hide Chain;
    ChainMore(NameTok(d), rest, Object(false));
    ChainMore(mark, [NameTok(d)] + rest, Operand);
    assert [mark, NameTok(d)] + rest == [mark] + ([NameTok(d)] + rest);
  }

  lemma ChainIndirect(d: Dbref, lock: Text, rest: seq<Tok>)
    requires Chain(rest, Operator)
    ensures Chain([AtTok, NameTok(d), SlashTok(lock)] + rest, Operand)
  {
    hide Chain;
    ChainMore(SlashTok(lock), rest, LockName);
    ChainMore(NameTok(d), [SlashTok(lock)] + rest, Object(true));
    ChainMore(AtTok, [NameTok(d)] + ([SlashTok(lock)] + rest), Operand);
    assert [AtTok, NameTok(d), SlashTok(lock)] + rest == [AtTok] + ([NameTok(d)] + ([SlashTok(lock)] + rest));
  }

  lemma ChainAtom(e: Expr, outer: Outer, rest: seq<Tok>)
    requires !e.And? && !e.Or? && !e.Not? && Chain(rest, Operator)
    ensures Chain(Printed(e, outer) + rest, Operand)
  {
    hide Chain;
    match e
    case Ref(Const, d) => ChainMore(NameTok(d), rest, Operand);
    case Ref(_, d) => ChainMarked(Printed(e, outer)[0], d, rest);
    case Ind(d, lock) => ChainIndirect(d, lock, rest);
    case Bool(v) => ChainMore(TruthTok(v), rest, Operand);
    case Pair(k, name, text) => ChainMore(PairTok(k, name, text), rest, Operand);
    case Flag(k, text) => ChainMore(FlagTok(k, text), rest, Operand);
  }

  lemma {:induction false} ChainBinary(e: Expr, outer: Outer, rest: seq<Tok>)
    requires (e.And? || e.Or?) && Chain(rest, Operator)
    ensures Chain(Printed(e, outer) + rest, Operand)
    decreases e, 0
  {
    hide Chain, Printed;
    var a, o, b := Printed(e.left, Inner(e)), OperatorTok(e), Printed(e.right, Inner(e));
    var tail := if Parens(e, outer) then [CloseTok] + rest else rest;
    if Parens(e, outer) { ChainMore(CloseTok, rest, Operator); }
    ChainPrinted(e.right, Inner(e), tail);
    ChainMore(o, b + tail, Operator);
    ChainPrinted(e.left, Inner(e), [o] + (b + tail));
    if Parens(e, outer) {
      PrintedInParens(e, outer);
      ChainMore(OpenTok, a + ([o] + (b + tail)), Operand);
      GlueClosed(a, o, b, rest);
    } else {
      PrintedBinary(e, outer);
      assert a + ([o] + (b + tail)) == a + [o] + b + rest;
    }
  }

  lemma GlueClosed(a: seq<Tok>, o: Tok, b: seq<Tok>, rest: seq<Tok>)
    ensures [OpenTok] + (a + ([o] + (b + ([CloseTok] + rest)))) == [OpenTok] + (a + [o] + b) + [CloseTok] + rest
  {
  }

  /** A lock whose words are as a parser leaves them. */
  predicate TreeReadable(r: Reader, e: Expr) { AllReadable(r, AtomToks(e)) }

  lemma {:induction false} PrintedReadable(r: Reader, e: Expr, outer: Outer)
    requires TreeReadable(r, e)
    ensures AllReadable(r, Printed(e, outer))
    decreases e
  {
    hide TokReadable;
    SignsReadable(r);
    match e
    case And(_, _) => PrintedReadableBinary(r, e, outer);
    case Or(_, _) => PrintedReadableBinary(r, e, outer);
    case Not(n) => PrintedReadable(r, n, InNot);
    case _ => AtomPrinted(e, outer);
  }

  lemma AtomPrinted(e: Expr, outer: Outer)
    requires !e.And? && !e.Or? && !e.Not?
    ensures Printed(e, outer) == AtomToks(e)
  {
  }

  lemma {:induction false} PrintedReadableBinary(r: Reader, e: Expr, outer: Outer)
    requires (e.And? || e.Or?) && TreeReadable(r, e)
    ensures AllReadable(r, Printed(e, outer))
    decreases e, 0
  {
    hide TokReadable, Printed;
    SignsReadable(r);
    ReadableHalves(r, e.left, e.right);
    PrintedReadable(r, e.left, Inner(e));
    PrintedReadable(r, e.right, Inner(e));
    if Parens(e, outer) { PrintedInParens(e, outer); } else { PrintedBinary(e, outer); }
  }

  lemma SignsReadable(r: Reader)
    ensures TokReadable(r, NotTok) && TokReadable(r, AndTok) && TokReadable(r, OrTok) && TokReadable(r, OpenTok) &&
            TokReadable(r, CloseTok)
  {
  }

  lemma ReadableHalves(r: Reader, a: Expr, b: Expr)
    ensures AllReadable(r, AtomToks(a) + AtomToks(b)) <==> TreeReadable(r, a) && TreeReadable(r, b)
  {
    hide TokReadable;
    var x, y := AtomToks(a), AtomToks(b);
    if AllReadable(r, x + y) {
      assert forall k :: 0 <= k < |x| ==> x[k] == (x + y)[k];
      assert forall k :: 0 <= k < |y| ==> y[k] == (x + y)[|x| + k];
    }
  }

  lemma ReadableKnown(r: Reader, ts: seq<Tok>)
    requires AllReadable(r, ts)
    ensures Known(ts)
  {
  }

  // ----- the condition, token by token -----

  /** Behind characters that need no backslash the text ends with `k` backslashes. */
  predicate EndsInBackslashes(text: Text, k: nat) {
    0 < k <= |text| && (forall i :: 0 <= i < |text| - k ==> !NeedsEscape(text[i])) &&
    forall i :: |text| - k <= i < |text| ==> text[i] == BACKSLASH
  }

  /** The last token comes back: printed whole, if nothing in it changes; cut, if what is missing did not matter. */
  predicate LastComes(r: Reader, ltype: Text, t: Tok, n: nat) {
    var w := Spelled(ByNumber, t);
    if n + |w| <= LIMIT then Kept(r, t)
    else match t
      case TruthTok(_) => n + 2 <= LIMIT
      case SlashTok(lock) => n == LIMIT && lock == ltype
      case PairTok(k, _, text) => k == Eval && EndsInBackslashes(text, n + |w| - LIMIT)
      case FlagTok(k, text) => !Preserved(k) && EndsInBackslashes(text, n + |w| - LIMIT)
      case _ => false
  }

  /** The tokens come back: all but the last are printed whole, with proper lock names, without anything escaped and
      without a lone backslash at the end, and the last one comes back. */
  predicate ComesBack(r: Reader, ltype: Text, ts: seq<Tok>, n: nat) {
    if ts == [] then true
    else if |ts| == 1 then LastComes(r, ltype, ts[0], n)
    else
      n + |Spelled(ByNumber, ts[0])| <= LIMIT && Kept(r, ts[0]) && !Swallows(ts[0]) &&
      ComesBack(r, ltype, ts[1..], n + |Spelled(ByNumber, ts[0])|)
  }

  lemma Backslashes(text: Text, k: nat)
    requires EndsInBackslashes(text, k)
    ensures Escaped(text) == text + seq(k, _ => BACKSLASH)
    decreases |text|
  {
    if k == |text| {
      assert EscapedByte(text[0]) == [BACKSLASH, BACKSLASH];
      assert text[1..] == seq(k - 1, _ => BACKSLASH) && text == seq(k, _ => BACKSLASH);
      if k > 1 { Backslashes(text[1..], k - 1); }
      assert Escaped(text) == seq(k + k, _ => BACKSLASH);
    } else {
      Backslashes(text[1..], k);
      assert text == [text[0]] + text[1..];
    }
  }

  /** The escaped text starts with the text itself only if backslashes at the end are all that was escaped. */
  lemma {:induction false} SelfPrefix(text: Text) returns (k: nat)
    requires text <= Escaped(text)
    ensures if k == 0 then Escaped(text) == text else EndsInBackslashes(text, k)
    decreases |text|
  {
    if text == [] {
      k := 0;
    } else if !NeedsEscape(text[0]) {
      assert Escaped(text) == [text[0]] + Escaped(text[1..]);
      assert text[1..] <= Escaped(text[1..]);
      k := SelfPrefix(text[1..]);
      if k == 0 { assert text == [text[0]] + text[1..]; }
    } else {
      assert Escaped(text)[0] == BACKSLASH;
      assert text[0] == BACKSLASH;
      AllBackslashes(text, Escaped(text[1..]), 1);
      k := |text|;
    }
  }

  lemma {:induction false} AllBackslashes(text: Text, rest: Text, i: nat)
    requires text != [] && text[0] == BACKSLASH && rest == Escaped(text[1..]) && 0 < i <= |text|
    requires text <= [BACKSLASH, BACKSLASH] + rest
    requires forall j :: 0 <= j < i ==> text[j] == BACKSLASH
    ensures forall j :: 0 <= j < |text| ==> text[j] == BACKSLASH
    decreases |text| - i
  {
    if i < |text| {
      EscapedRun(text[1..], i - 1);
      assert text[i] == ([BACKSLASH, BACKSLASH] + rest)[i];
      AllBackslashes(text, rest, i + 1);
    }
  }

  /** `i` backslashes are escaped to twice as many. */
  lemma {:induction false} EscapedRun(s: Text, i: nat)
    requires i <= |s| && forall j :: 0 <= j < i ==> s[j] == BACKSLASH
    ensures |Escaped(s)| >= 2 * i && forall j :: 0 <= j < 2 * i ==> Escaped(s)[j] == BACKSLASH
    decreases i
  {
    if i > 0 { EscapedRun(s[1..], i - 1); }
  }

  /** The text of a test as it is printed. */
  function BodyOf(t: Tok): Text
    requires t.PairTok? || t.FlagTok?
  {
    if t.PairTok? then PairBody(t.pair, t.text) else FlagBody(t.flag, t.text)
  }

  function HeadLen(t: Tok): nat
    requires t.PairTok? || t.FlagTok?
  {
    if t.PairTok? then |Escaped(t.name)| + 1 else |FlagName(t.flag)| + 1
  }

  /** A printed test up to some place is the test itself exactly if there is its text, no more and no less. */
  lemma PartIsTest(r: Reader, t: Tok, j: nat)
    requires TokReadable(r, t) && (t.PairTok? || t.FlagTok?) && j <= |Spelled(ByNumber, t)|
    ensures |Spelled(ByNumber, t)| == HeadLen(t) + |BodyOf(t)|
    ensures WordTok(r, Spelled(ByNumber, t)[..j]) == Some(t) <==>
            j > HeadLen(t) && BodyOf(t)[..j - HeadLen(t)] == t.text
  {
    hide WordTok, TokReadable;
    match t
    case PairTok(_, _, _) => PartIsPair(r, t, j);
    case FlagTok(_, _) => PartIsFlag(r, t, j);
  }

  lemma PartIsPair(r: Reader, t: Tok, j: nat)
    requires t.PairTok? && TokReadable(r, t) && j <= |Spelled(ByNumber, t)|
    ensures WordTok(r, Spelled(ByNumber, t)[..j]) == Some(t) <==>
            j > HeadLen(t) && BodyOf(t)[..j - HeadLen(t)] == t.text
  {
    hide WordTok, Escaped, GoodName, WordLen, SeparatorAt, NeedsEscape;
    var c, body, h := Separator(t.pair), BodyOf(t), HeadLen(t);
    var w := Spelled(ByNumber, t);
    if j > h {
      var y: Text := body[..j - h];
      assert w[..j] == PairWord(t.name, c, y);
      if t.pair == Eval {
        BodyNoSeparator(t.text, ATR);
        SeparatorPrefix(body, j - h, ATR, false);
      }
      PairRead(r, t.pair, t.name, y);
    } else {
      HeadNoTest(r, t.name, c, j);
      assert w[..j] == PairWord(t.name, c, [])[..j];
    }
  }

  /** A name, even with its separator, is no test without a text. */
  lemma HeadNoTest(r: Reader, name: Text, c: Byte, j: nat)
    requires GoodName(name) && (c == ATR || c == EVAL) && j <= |Escaped(name)| + 1
    ensures WordTok(r, PairWord(name, c, [])[..j]) == None
  {
    hide WordTok, GoodName, Escaped, TestAtr, SeparatorAt;
    var a, w := Escaped(name), PairWord(name, c, []);
    if j <= |a| {
      assert w[..j] == a[..j];
      EscapedWord(name, false, ATR);
      EscapedWord(name, false, EVAL);
      EscapedWord(name, false, FLAG);
      SeparatorPrefix(a, j, ATR, false);
      SeparatorPrefix(a, j, EVAL, false);
      SeparatorPrefix(a, j, FLAG, false);
      NoTest(r, w[..j]);
    } else {
      assert w[..j] == w;
      PairParted(name, c, []);
      NothingToFind(ATR);
      NothingToFind(EVAL);
      NothingToFind(FLAG);
      if c == ATR { PairWhole(name, ATR, [], EVAL); } else { PairWhole(name, EVAL, [], ATR); }
      PairWhole(name, c, [], FLAG);
      AllWhole(r, w);
    }
  }

  lemma NothingToFind(c: Byte)
    ensures SeparatorAt([], c, false) == 0
  {
  }

  lemma AllWhole(r: Reader, w: Text)
    requires TestAtr(w, ATR) == Whole && TestAtr(w, EVAL) == Whole && TestAtr(w, FLAG) == Whole
    ensures WordTok(r, w) == None
  {
  }

  lemma PartIsFlag(r: Reader, t: Tok, j: nat)
    requires t.FlagTok? && TokReadable(r, t) && j <= |Spelled(ByNumber, t)|
    ensures WordTok(r, Spelled(ByNumber, t)[..j]) == Some(t) <==>
            j > HeadLen(t) && BodyOf(t)[..j - HeadLen(t)] == t.text
  {
    hide WordTok, FlagName, WordLen, SeparatorAt, Upper;
    var body, h := BodyOf(t), HeadLen(t);
    var w := Spelled(ByNumber, t);
    FlagNamePlain(t.flag);
    if j >= h {
      var y: Text := body[..j - h];
      assert w[..j] == FlagWord(t.flag, y);
      FlagRead(r, t.flag, y);
      FlagBodyWord(t.flag, t.text);
      UpperPart(body, j - h);
    } else {
      assert w[..j] == FlagName(t.flag)[..j];
      PlainNoTest(r, w[..j]);
    }
  }

  lemma UpperPart(s: seq<Byte>, n: nat)
    requires n <= |s| && Upper(s) == s
    ensures Upper(s[..n]) == s[..n]
  {
    assert forall i :: 0 <= i < n ==> UpperByte(s[..n][i]) == Upper(s)[i];
  }

  /** What there was room for of a test is the test exactly if only backslashes are missing that were put in before
      backslashes at the end of its text. */
  lemma CutTestExactly(r: Reader, ltype: Text, t: Tok, k: nat)
    requires TokReadable(r, t) && (t.PairTok? || t.FlagTok?) && 0 < k < |Spelled(ByNumber, t)|
    ensures Scan(r, ltype, Spelled(ByNumber, t)[..k], Operand) == [t] <==>
            BodyOf(t) == Escaped(t.text) && EndsInBackslashes(t.text, |Spelled(ByNumber, t)| - k)
  {
    hide Scan, WordTok, Spelled, TokReadable, EndsInBackslashes, Escaped, Trimmed, BodyOf, HeadLen;
    var v := Spelled(ByNumber, t)[..k];
    CutScan(r, ltype, t, k);
    var j := |Trimmed(v)|;
    assert Trimmed(v) == Spelled(ByNumber, t)[..j] by { assert Trimmed(v) <= v <= Spelled(ByNumber, t); }
    PartIsTest(r, t, j);
    MissingBackslashes(t, k);
  }

  /** The part of a test ends with its text exactly if what is missing is backslashes. */
  lemma MissingBackslashes(t: Tok, k: nat)
    requires (t.PairTok? || t.FlagTok?) && 0 < k < |Spelled(ByNumber, t)|
    requires |Spelled(ByNumber, t)| == HeadLen(t) + |BodyOf(t)|
    ensures var j := |Trimmed(Spelled(ByNumber, t)[..k])|;
            j > HeadLen(t) && BodyOf(t)[..j - HeadLen(t)] == t.text <==>
            BodyOf(t) == Escaped(t.text) && EndsInBackslashes(t.text, |Spelled(ByNumber, t)| - k)
  {
    hide Spelled, Escaped, EndsInBackslashes, Trimmed, BodyOf, HeadLen;
    var j := |Trimmed(Spelled(ByNumber, t)[..k])|;
    if j > HeadLen(t) && BodyOf(t)[..j - HeadLen(t)] == t.text { TextIsThere(t, k); }
    if BodyOf(t) == Escaped(t.text) && EndsInBackslashes(t.text, |Spelled(ByNumber, t)| - k) { OnlyBackslashes(t, k); }
  }

  lemma TextIsThere(t: Tok, k: nat)
    requires (t.PairTok? || t.FlagTok?) && 0 < k < |Spelled(ByNumber, t)|
    requires var j := |Trimmed(Spelled(ByNumber, t)[..k])|;
             HeadLen(t) < j <= HeadLen(t) + |BodyOf(t)| && BodyOf(t)[..j - HeadLen(t)] == t.text
    ensures BodyOf(t) == Escaped(t.text) && EndsInBackslashes(t.text, |Spelled(ByNumber, t)| - k)
  {
    hide Spelled, Escaped, NeedsEscape, BodyOf, HeadLen;
    var h, body, text := HeadLen(t), BodyOf(t), t.text;
    var v := Spelled(ByNumber, t)[..k];
    var j := |Trimmed(v)|;
    BodyInWord(t);
    assert |text| == j - h < |body|;
    var n := SelfPrefix(text);
    Backslashes(text, n);
    assert v[k - 1] == body[k - 1 - h] == BACKSLASH;
    TrimmedKeeps(v, k - 1);
  }

  lemma OnlyBackslashes(t: Tok, k: nat)
    requires (t.PairTok? || t.FlagTok?) && 0 < k < |Spelled(ByNumber, t)|
    requires BodyOf(t) == Escaped(t.text) && EndsInBackslashes(t.text, |Spelled(ByNumber, t)| - k)
    ensures var j := |Trimmed(Spelled(ByNumber, t)[..k])|;
            HeadLen(t) < j <= HeadLen(t) + |BodyOf(t)| && BodyOf(t)[..j - HeadLen(t)] == t.text
  {
    hide Spelled, Escaped, NeedsEscape, BodyOf, HeadLen;
    var h, body, text := HeadLen(t), BodyOf(t), t.text;
    var v := Spelled(ByNumber, t)[..k];
    BodyInWord(t);
    Backslashes(text, |Spelled(ByNumber, t)| - k);
    assert v[k - 1] == body[k - 1 - h] == BACKSLASH;
    TrimmedKeeps(v, k - 1);
    assert body[..|text|] == text;
  }

  lemma BodyInWord(t: Tok)
    requires t.PairTok? || t.FlagTok?
    ensures var w := Spelled(ByNumber, t);
            |w| == HeadLen(t) + |BodyOf(t)| && forall i :: HeadLen(t) <= i < |w| ==> w[i] == BodyOf(t)[i - HeadLen(t)]
    ensures |BodyOf(t)| > |t.text| ==> BodyOf(t) == Escaped(t.text)
  {
    hide Escaped, FlagName, Preserved;
    match t
    case PairTok(k, name, _) => assert Spelled(ByNumber, t) == Escaped(name) + [Separator(k)] + BodyOf(t);
    case FlagTok(k, _) => assert Spelled(ByNumber, t) == FlagName(k) + [FLAG] + BodyOf(t);
  }

  lemma LastExactly(r: Reader, ltype: Text, t: Tok, m: Mode, n: nat)
    requires ReaderOk(r) && Chain([t], m) && TokReadable(r, t) && n <= LIMIT
    ensures Scan(r, ltype, Tail(n, [t]), m) == [t] <==> LastComes(r, ltype, t, n)
  {
    hide Scan, TokReadable, Spelled, Swallows, ReaderOk, Reread, EndsInBackslashes, Kept;
    var w := Spelled(ByNumber, t);
    assert [t][1..] == [];
    assert Tail(n, [t][1..]) == [];
    if n + |w| <= LIMIT {
      assert w + [] == w;
      ReadToken(r, ltype, t, [], w, m);
      NothingMore(r, ltype);
      RereadSame(r, t);
    } else if t.NameTok? {
      NoObject(r, ltype, [], m);
    } else {
      PartExactly(r, ltype, t, m, n);
    }
  }

  lemma PartExactly(r: Reader, ltype: Text, t: Tok, m: Mode, n: nat)
    requires ReaderOk(r) && Chain([t], m) && TokReadable(r, t) && n <= LIMIT
    requires n + |Spelled(ByNumber, t)| > LIMIT && !t.NameTok?
    ensures Scan(r, ltype, Spelled(ByNumber, t)[..LIMIT - n], m) == [t] <==> LastComes(r, ltype, t, n)
  {
    hide Scan, TokReadable, Spelled, Swallows, ReaderOk, Reread, EndsInBackslashes;
    var w := Spelled(ByNumber, t);
    if t.SlashTok? {
      CutLock(r, ltype, t.lock, LIMIT - n);
    } else if n == LIMIT {
      assert w[..0] == [];
      if m == Operand { NoObject(r, ltype, [], m); } else { NothingMore(r, ltype); }
      NoBackslashes(t, |w|);
    } else if t.TruthTok? {
      CutTruth(r, ltype, t.truth, LIMIT - n);
    } else if t.PairTok? || t.FlagTok? {
      CutTestExactly(r, ltype, t, LIMIT - n);
      BodyKind(t);
    } else {
      OneSign(t);
    }
  }

  lemma OneSign(t: Tok)
    requires !Wordish(t)
    ensures |Spelled(ByNumber, t)| <= 1
  {
  }

  /** A whole test is longer than its text. */
  lemma NoBackslashes(t: Tok, k: nat)
    requires k >= |Spelled(ByNumber, t)|
    ensures t.PairTok? || t.FlagTok? ==> !EndsInBackslashes(t.text, k)
  {
    if t.PairTok? || t.FlagTok? { BodyInWord(t); }
  }

  /** A text that ends in a backslash is escaped exactly in the tests that are not printed as they are. */
  lemma BodyKind(t: Tok)
    requires t.PairTok? || t.FlagTok?
    ensures (t.PairTok? && t.pair == Eval) || (t.FlagTok? && !Preserved(t.flag)) ==> BodyOf(t) == Escaped(t.text)
    ensures (t.PairTok? && t.pair == Atr) || (t.FlagTok? && Preserved(t.flag)) ==>
              forall k :: EndsInBackslashes(t.text, k) ==> BodyOf(t) != Escaped(t.text)
  {
    forall k | EndsInBackslashes(t.text, k) ensures |Escaped(t.text)| > |t.text| { Backslashes(t.text, k); }
  }

  lemma {:induction false} ComesExactly(r: Reader, ltype: Text, ts: seq<Tok>, m: Mode, n: nat)
    requires ReaderOk(r) && Chain(ts, m) && AllReadable(r, ts) && n <= LIMIT
    ensures Survives(r, ltype, ts, m, n) <==> ComesBack(r, ltype, ts, n)
    decreases |ts|
  {
    hide Scan, TokReadable, Spelled, Swallows, ReaderOk, Reread, LastComes, Kept;
    if ts == [] {
      NothingMore(r, ltype);
    } else if |ts| == 1 {
      assert ts == [ts[0]];
      LastExactly(r, ltype, ts[0], m, n);
    } else if n + |Spelled(ByNumber, ts[0])| <= LIMIT {
      RereadSame(r, ts[0]);
      ComesExactly(r, ltype, ts[1..], Next(ts[0], m), n + |Spelled(ByNumber, ts[0])|);
    }
  }

  // ----- the result -----

  /** Saving and loading: a lock printed by number and read again is the same lock, regrouped, exactly if its tokens
      come back. */
  lemma ReloadExactly(r: Reader, ltype: Text, e: Expr)
    requires ReaderOk(r) && TreeReadable(r, e)
    ensures 0 !in Written(ByNumber, [], Printed(e, Top))
    ensures ReadLock(r, ltype, Written(ByNumber, [], Printed(e, Top))) == Some(Regrouped(e)) <==>
            ComesBack(r, ltype, Printed(e, Top), 0)
  {
    hide Scan, ReaderOk, TokReadable, ParseE, Printed, Regrouped, Survives, Tail, Written, ReadsOther, ComesBack;
    var ts := Printed(e, Top);
    ChainPrinted(e, Top, []);
    assert ts + [] == ts;
    PrintedReadable(r, e, Top);
    WrittenTail([], ts);
    assert [] + Tail(0, ts) == Tail(0, ts);
    ComesExactly(r, ltype, ts, Operand, 0);
    var i, f := ReadTail(r, ltype, ts, Operand, 0);
    if Survives(r, ltype, ts, Operand, 0) {
      ParsePrintedE(e, Top, []);
    } else {
      ReadableKnown(r, ts);
      OtherTree(e, i, f);
    }
  }

  /** How many characters the tokens take up when there is room for them. */
  function TextLen(ts: seq<Tok>): nat {
    if ts == [] then 0 else |Spelled(ByNumber, ts[0])| + TextLen(ts[1..])
  }

  /** Nothing is escaped, and only the last text may end with a lone backslash. */
  predicate NothingEscaped(ts: seq<Tok>) {
    forall k :: 0 <= k < |ts| ==> TextKept(ts[k]) && (k < |ts| - 1 ==> !Swallows(ts[k]))
  }

  /** Every lock name is good and in its proper form. */
  predicate ProperNames(r: Reader, ts: seq<Tok>) {
    forall k :: 0 <= k < |ts| && ts[k].SlashTok? ==> ProperLock(r, ts[k].lock)
  }

  /** Text that there is room for comes back exactly if nothing in it is escaped and all lock names are proper. */
  lemma {:induction false} FittingComesBack(r: Reader, ltype: Text, ts: seq<Tok>, n: nat)
    requires n + TextLen(ts) <= LIMIT
    ensures ComesBack(r, ltype, ts, n) <==> NothingEscaped(ts) && ProperNames(r, ts)
    decreases |ts|
  {
    hide Spelled, TextKept, Swallows, ProperLock;
    if |ts| > 1 {
      var rest := ts[1..];
      FittingComesBack(r, ltype, rest, n + |Spelled(ByNumber, ts[0])|);
      assert forall k :: 0 <= k < |rest| ==> rest[k] == ts[k + 1];
      assert forall k :: 1 <= k < |ts| ==> ts[k] == rest[k - 1];
    }
  }

  /** A text that there is no room for comes back only if what is missing is the end of `#TRUE` or `#FALSE`, the default
      lock name, or backslashes. */
  lemma {:induction false} CutComesBack(r: Reader, ltype: Text, ts: seq<Tok>, n: nat)
    requires n <= LIMIT < n + TextLen(ts) && ComesBack(r, ltype, ts, n)
    ensures var last := ts[|ts| - 1];
            last.TruthTok? || (last.SlashTok? && last.lock == ltype) || last.PairTok? || last.FlagTok?
    ensures var front := ts[..|ts| - 1];
            n + TextLen(front) <= LIMIT && NothingEscaped(front) && ProperNames(r, front)
    decreases |ts|
  {
    hide Spelled, TextKept, Swallows, EndsInBackslashes, ProperLock;
    if |ts| > 1 {
      var rest := ts[1..];
      CutComesBack(r, ltype, rest, n + |Spelled(ByNumber, ts[0])|);
      assert ts[..|ts| - 1][1..] == rest[..|rest| - 1];
      assert forall k :: 0 <= k < |rest| ==> rest[k] == ts[k + 1];
      assert forall k :: 1 <= k < |ts| ==> ts[k] == rest[k - 1];
    } else {
      assert TextLen(ts[1..]) == 0 && ts[..0] == [];
    }
  }

  /** A lock that is one test of softcode, where there is room for it: saving and loading puts a backslash in front of
      every character of its text that the printer escapes, because the parser leaves them there. */
  lemma EvalReloaded(r: Reader, ltype: Text, name: Text, text: Text)
    requires TokReadable(r, PairTok(Eval, name, text)) && |Spelled(ByNumber, PairTok(Eval, name, text))| <= LIMIT
    ensures 0 !in Written(ByNumber, [], Printed(Pair(Eval, name, text), Top))
    ensures ReadLock(r, ltype, Written(ByNumber, [], Printed(Pair(Eval, name, text), Top))) ==
            Some(Pair(Eval, name, Escaped(text)))
  {
    hide Scan, ParseF, Spelled, TokReadable, Escaped, Swallows;
    var t := PairTok(Eval, name, text);
    var w := Spelled(ByNumber, t);
    assert Printed(Pair(Eval, name, text), Top) == [t] && [t][1..] == [];
    assert Written(ByNumber, [], [t]) == w by { assert [] + w == w; }
    assert w + [] == w;
    ReadToken(r, ltype, t, [], w, Operand);
    NothingMore(r, ltype);
    ParseOne(PairTok(Eval, name, Escaped(text)), []);
    var ts := [PairTok(Eval, name, Escaped(text))] + [];
    assert Scan(r, ltype, w, Operand) == ts;
    assert ParseT(ts) == Some((Pair(Eval, name, Escaped(text)), []));
    assert ParseE(ts) == Some((Pair(Eval, name, Escaped(text)), []));
  }
}

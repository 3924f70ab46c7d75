/**
 The parser as it runs: a position in the text, words copied out of it character by character, and the tree on the
 heap. A failure anywhere is a null.
 */
module LockParser {
  import opened Basics
  import opened LockLanguage
  import opened LockTree
  import opened LockScanner
  import opened LockText

  // ----- copying words -----

  /** Copy a word from `from` on, without its backslashes, and without space at its end. */
  method CopyName(s: seq<Byte>, from: nat, slash: bool) returns (w: seq<Byte>, to: nat)
    requires from <= |s|
    ensures to == from + WordLen(s[from..], slash, false)
    ensures w == Trimmed(Unescaped(s[from..to], false))
  {
    hide Unescaped, WordLen, Trimmed, Stops;
    ghost var end := from + WordLen(s[from..], slash, false);
    ghost var word := Unescaped(s[from..end], false);
    w, to := [], from;
    var escaped := false;
    while to < |s| && (escaped || !Stops(s[to], slash))
      invariant from <= to <= end
      invariant end == to + WordLen(s[to..], slash, escaped)
      invariant word == w + Unescaped(s[to..end], escaped)
    {
      WordStep(s, to, end, slash, escaped);
      if escaped || s[to] != BACKSLASH {
        ghost var rest := Unescaped(s[to + 1..end], false);
        assert w + ([s[to]] + rest) == (w + [s[to]]) + rest;
        w := w + [s[to]];
        escaped := false;
      } else {
        escaped := true;
      }
      to := to + 1;
    }
    WordEnds(s, to, slash, escaped);
    assert w + [] == w;
    w := TrimSpaces(w);
  }

  /** Copy a word as it stands, without space at its end. */
  method CopyRaw(s: seq<Byte>, from: nat) returns (w: seq<Byte>, to: nat)
    requires from <= |s|
    ensures to == from + WordLen(s[from..], false, false)
    ensures w == Trimmed(s[from..to])
  {
    hide Unescaped, WordLen;
    ghost var end := from + WordLen(s[from..], false, false);
    w, to := [], from;
    var escaped := false;
    while to < |s| && (escaped || !Stops(s[to], false))
      invariant from <= to <= end
      invariant end == to + WordLen(s[to..], false, escaped)
      invariant w == s[from..to]
    {
      WordStep(s, to, end, false, escaped);
      escaped := if escaped then false else s[to] == BACKSLASH;
      w := w + [s[to]];
      to := to + 1;
    }
    WordEnds(s, to, false, escaped);
    w := TrimSpaces(w);
  }

  lemma WordStep(s: seq<Byte>, i: nat, end: nat, slash: bool, escaped: bool)
    requires i < |s| && (escaped || !Stops(s[i], slash)) && end == i + WordLen(s[i..], slash, escaped)
    ensures i < end <= |s|
    ensures end == i + 1 + WordLen(s[i + 1..], slash, !escaped && s[i] == BACKSLASH)
    ensures Unescaped(s[i..end], escaped) ==
            if !escaped && s[i] == BACKSLASH then Unescaped(s[i + 1..end], true)
            else [s[i]] + Unescaped(s[i + 1..end], false)
  {
    assert s[i..][1..] == s[i + 1..] && s[i..end][1..] == s[i + 1..end];
  }

  lemma WordEnds(s: seq<Byte>, i: nat, slash: bool, escaped: bool)
    requires i <= |s| && (i < |s| ==> !escaped && Stops(s[i], slash))
    ensures WordLen(s[i..], slash, escaped) == 0 && Unescaped(s[i..i], escaped) == []
  {
  }

  method TrimSpaces(s: seq<Byte>) returns (t: seq<Byte>)
    ensures t == Trimmed(s)
  {
    var n: nat := |s|;
    assert s[..n] == s;
    while n != 0 && IsSpace(s[n - 1])
      invariant n <= |s| && Trimmed(s[..n]) == Trimmed(s)
    {
      assert s[..n][..n - 1] == s[..n - 1];
      n := n - 1;
    }
    t := s[..n];
  }

  method ToUpper(s: seq<Byte>) returns (u: seq<Byte>)
    ensures u == Upper(s)
  {
    u := [];
    var i := 0;
    while i < |s|
      invariant i <= |s| && |u| == i && forall k :: 0 <= k < i ==> u[k] == UpperByte(s[k])
    {
      u := u + [UpperByte(s[i])];
      i := i + 1;
    }
    assert u == Upper(s);
  }

  /** Take a word apart at its first separator that has no backslash in front. */
  method TakeApart(s: Text, c: Byte) returns (p: Parts)
    ensures p == TestAtr(s, c)
  {
    hide Unescaped, SeparatorAt, GoodName, FlagNamed;
    ghost var end := SeparatorAt(s, c, false);
    var i: nat, escaped, name := 0, false, [];
    assert s[0..end] == s[..end] && s[0..] == s;
    while i < |s| && (escaped || s[i] != c)
      invariant i <= end <= |s|
      invariant end == i + SeparatorAt(s[i..], c, escaped)
      invariant Unescaped(s[..end], false) == name + Unescaped(s[i..end], escaped)
    {
      SeparatorStep(s, i, end, c, escaped);
      if !escaped && s[i] == BACKSLASH {
        escaped := true;
      } else {
        name := name + [s[i]];
        escaped := false;
      }
      i := i + 1;
    }
    SeparatorEnds(s, i, c, escaped);
    assert name + [] == name;
    name := ToUpper(name);
    if i == |s| || !GoodName(name) { return Whole; }
    if c == FLAG && name != OBJID && FlagNamed(name).None? { return Wrong; }
    if i + 1 == |s| { return Whole; }
    p := Parted(name, s[i + 1..]);
  }

  lemma SeparatorStep(s: seq<Byte>, i: nat, end: nat, c: Byte, escaped: bool)
    requires i < |s| && (escaped || s[i] != c) && end == i + SeparatorAt(s[i..], c, escaped)
    ensures i < end <= |s|
    ensures end == i + 1 + SeparatorAt(s[i + 1..], c, !escaped && s[i] == BACKSLASH)
    ensures Unescaped(s[i..end], escaped) ==
            if !escaped && s[i] == BACKSLASH then Unescaped(s[i + 1..end], true)
            else [s[i]] + Unescaped(s[i + 1..end], false)
  {
    assert s[i..][1..] == s[i + 1..] && s[i..end][1..] == s[i + 1..end];
  }

  lemma SeparatorEnds(s: seq<Byte>, i: nat, c: Byte, escaped: bool)
    requires i <= |s| && (i < |s| ==> !escaped && s[i] == c)
    ensures SeparatorAt(s[i..], c, escaped) == 0 && Unescaped(s[i..i], escaped) == []
  {
  }

  method AfterSpace(s: seq<Byte>, from: nat) returns (to: nat)
    requires from <= |s|
    ensures from <= to <= |s| && s[to..] == SkipSpace(s[from..])
  {
    hide SkipSpace, IsSpace;
    to := from;
    while to < |s| && IsSpace(s[to])
      invariant from <= to <= |s| && SkipSpace(s[to..]) == SkipSpace(s[from..])
    {
      SkipOne(s, to);
      to := to + 1;
    }
    SkipNothing(s[to..]);
  }

  lemma SkipOne(s: seq<Byte>, i: nat)
    requires i < |s| && IsSpace(s[i])
    ensures SkipSpace(s[i..]) == SkipSpace(s[i + 1..])
  {
    assert s[i..][1..] == s[i + 1..];
  }

  lemma Onward(s: Text, i: nat)
    requires i < |s|
    ensures |s[i..]| > 0 && s[i..][0] == s[i] && s[i..][1..] == s[i + 1..]
  {
  }

  // ----- what the scanner says at a position -----

  /** Space in front of an operator or an operand is skipped. */
  lemma ScanSkips(r: Reader, ltype: Text, s: Text)
    ensures Scan(r, ltype, SkipSpace(s), Operator) == Scan(r, ltype, s, Operator)
    ensures Scan(r, ltype, SkipSpace(s), Operand) == Scan(r, ltype, s, Operand)
  {
    hide Scan, ScanOperand, ScanOperator, SkipSpace;
    SkipNothing(SkipSpace(s));
    OperandMode(r, ltype, s);
    OperandMode(r, ltype, SkipSpace(s));
    OperatorMode(r, ltype, s);
    OperatorMode(r, ltype, SkipSpace(s));
  }

  lemma MarkedAhead(r: Reader, ltype: Text, s: Text, k: RefKind)
    ensures ParseMarked(Scan(r, ltype, s, Object(false)), k) ==
            match ObjectAhead(r, s)
            case NameTok(d) => Some((Ref(k, d), Scan(r, ltype, BehindObject(s), Operator)))
            case _ => None
  {
    hide ObjectAhead, Scan, WordLen;
    ObjectMode(r, ltype, s, false);
    var t := ObjectAhead(r, s);
    var rest := Scan(r, ltype, BehindObject(s), Operator);
    assert Scan(r, ltype, s, Object(false)) == if t == UnknownTok then [t] else [t] + rest;
    assert ([t] + rest)[1..] == rest;
  }

  /** The name of a lock as it is written behind a slash. */
  function LockWritten(s: Text): Text
    requires s != []
  {
    Upper(Trimmed(Unescaped(s[1..][..WordLen(s[1..], false, false)], false)))
  }

  function BehindLock(s: Text): Text
    requires s != []
  {
    s[1..][WordLen(s[1..], false, false)..]
  }

  /** The lock of the object `d` that is named at the start of a text, or the one that is being parsed. */
  function LockOf(r: Reader, ltype: Text, d: Dbref, z: Text): Parse {
    if z == [] || z[0] != EVAL then Some((Ind(d, ltype), Scan(r, ltype, z, Operator)))
    else if GoodName(LockWritten(z)) then
      Some((Ind(d, LockNamed(r, LockWritten(z))), Scan(r, ltype, BehindLock(z), Operator)))
    else None
  }

  lemma IndirectAhead(r: Reader, ltype: Text, s: Text)
    ensures var t := ObjectAhead(r, s);
            ParseIndirect(Scan(r, ltype, s, Object(true))) ==
            if t.NameTok? then LockOf(r, ltype, t.thing, BehindObject(s)) else None
  {
    hide ObjectAhead, Scan, WordLen, ScanLock, LockOf;
    ObjectMode(r, ltype, s, true);
    var t, z := ObjectAhead(r, s), BehindObject(s);
    LockMode(r, ltype, z);
    LockRest(r, ltype, z);
    var rest := ScanLock(r, ltype, z);
    if t.NameTok? {
      assert ([t] + rest)[0] == t && ([t] + rest)[1..] == rest;
      LockTaken(r, ltype, t.thing, z);
    }
  }

  lemma LockTaken(r: Reader, ltype: Text, d: Dbref, z: Text)
    ensures var rest := ScanLock(r, ltype, z);
            LockOf(r, ltype, d, z) == if rest[0].SlashTok? then Some((Ind(d, rest[0].lock), rest[1..])) else None
  {
    hide Scan, GoodName, Trimmed, Upper, Unescaped, WordLen;
  }

  lemma LockRest(r: Reader, ltype: Text, z: Text)
    ensures |ScanLock(r, ltype, z)| > 0
  {
    hide Scan, GoodName, Trimmed, Upper, Unescaped, WordLen;
  }

  function AtomOf(t: Tok, rest: seq<Tok>): Parse {
    match t
    case NameTok(d) => Some((Ref(Const, d), rest))
    case TruthTok(v) => Some((Bool(v), rest))
    case PairTok(k, name, text) => Some((Pair(k, name, text), rest))
    case FlagTok(k, text) => Some((Flag(k, text), rest))
    case ObjidTok(d) => Some((Ref(Is, d), rest))
    case _ => None
  }

  /** The word at the start of a text, and what is left behind it. */
  function WordRead(r: Reader, ltype: Text, s: Text): Parse {
    match WordTok(r, Trimmed(s[..WordLen(s, false, false)]))
    case Some(t) => AtomOf(t, Scan(r, ltype, s[WordLen(s, false, false)..], Operator))
    case None => AtomOf(ObjectAhead(r, s), Scan(r, ltype, BehindObject(s), Operator))
  }

  lemma WordAhead(r: Reader, ltype: Text, s: Text)
    requires NoMark(s) && (s != [] ==> s[0] != OPEN && !IsSpace(s[0]))
    ensures ParseL(Scan(r, ltype, s, Operand)) == WordRead(r, ltype, s)
  {
    hide ObjectAhead, WordTok, Trimmed, WordLen, Scan, ParseL, ScanWord, SkipSpace;
    WordScanned(r, ltype, s);
    match WordTok(r, Trimmed(s[..WordLen(s, false, false)]))
    case Some(t) => AtomRead(t, Scan(r, ltype, s[WordLen(s, false, false)..], Operator));
    case None => AtomRead(ObjectAhead(r, s), Scan(r, ltype, BehindObject(s), Operator));
  }

  lemma AtomRead(t: Tok, rest: seq<Tok>)
    requires t != OpenTok
    ensures ParseL(TokAnd(t, rest)) == AtomOf(t, rest)
  {
    assert ([t] + rest)[1..] == rest;
  }

  /** The mark or parenthesis at the start of an operand. */
  lemma OperandAhead(r: Reader, ltype: Text, s: Text)
    requires s != [] && !IsSpace(s[0])
    ensures var ts := Scan(r, ltype, s, Operand);
            (s[0] == NOT ==> Starts(ts, NotTok) && ts[1..] == Scan(r, ltype, s[1..], Operand)) &&
            (s[0] == OPEN ==> Starts(ts, OpenTok) && ts[1..] == Scan(r, ltype, s[1..], Operand)) &&
            (s[0] == AT ==> Starts(ts, AtTok) && ts[1..] == Scan(r, ltype, s[1..], Object(true))) &&
            (s[0] == IS ==> Starts(ts, EqTok) && ts[1..] == Scan(r, ltype, s[1..], Object(false))) &&
            (s[0] == IN ==> Starts(ts, PlusTok) && ts[1..] == Scan(r, ltype, s[1..], Object(false))) &&
            (s[0] == OWNER ==> Starts(ts, DollarTok) && ts[1..] == Scan(r, ltype, s[1..], Object(false)))
  {
    hide ScanWord, Scan, SkipSpace;
    SkipNothing(s);
    OperandMode(r, ltype, s);
  }

  lemma NoMarkAhead(r: Reader, ltype: Text, s: Text)
    requires NoMark(s) && (s != [] ==> !IsSpace(s[0]))
    ensures var ts := Scan(r, ltype, s, Operand);
            !Starts(ts, NotTok) && !Starts(ts, AtTok) && !Starts(ts, EqTok) && !Starts(ts, PlusTok) &&
            !Starts(ts, DollarTok)
  {
    hide ObjectAhead, WordTok, Trimmed, WordLen, Scan;
    if s != [] && s[0] == OPEN {
      OperandAhead(r, ltype, s);
    } else {
      WordScanned(r, ltype, s);
    }
  }

  lemma NotAhead(r: Reader, ltype: Text, s: Text)
    requires s != [] ==> !IsSpace(s[0]) && s[0] != NOT
    ensures !Starts(Scan(r, ltype, s, Operand), NotTok)
  {
    hide Scan;
    if NoMark(s) { NoMarkAhead(r, ltype, s); } else { OperandAhead(r, ltype, s); }
  }

  /** An operand without a mark is a lock in parentheses or a word. */
  lemma LockAhead(r: Reader, ltype: Text, s: Text)
    requires NoMark(s) && (s != [] ==> !IsSpace(s[0]))
    ensures ParseL(Scan(r, ltype, s, Operand)) ==
            if s != [] && s[0] == OPEN then InParens(Scan(r, ltype, s[1..], Operand)) else WordRead(r, ltype, s)
  {
    hide Scan, ParseL, WordRead, InParens;
    if s != [] && s[0] == OPEN {
      OperandAhead(r, ltype, s);
      ParenRead(Scan(r, ltype, s, Operand));
    } else {
      WordAhead(r, ltype, s);
    }
  }

  function InParens(ts: seq<Tok>): Parse {
    match ParseE(ts)
    case Some((e, rest)) => if Starts(rest, CloseTok) then Some((e, rest[1..])) else None
    case None => None
  }

  lemma ParenRead(ts: seq<Tok>)
    requires Starts(ts, OpenTok)
    ensures ParseL(ts) == InParens(ts[1..])
  {
  }

  lemma OperatorAhead(r: Reader, ltype: Text, s: Text)
    requires s != [] ==> !IsSpace(s[0])
    ensures var ts := Scan(r, ltype, s, Operator);
            (Starts(ts, AndTok) <==> s != [] && s[0] == AND) &&
            (Starts(ts, OrTok) <==> s != [] && s[0] == OR) &&
            (Starts(ts, CloseTok) <==> s != [] && s[0] == CLOSE) &&
            (Starts(ts, AndTok) || Starts(ts, OrTok) ==> ts[1..] == Scan(r, ltype, s[1..], Operand)) &&
            (Starts(ts, CloseTok) ==> ts[1..] == Scan(r, ltype, s[1..], Operator))
  {
    hide Scan, SkipSpace;
    SkipNothing(s);
    OperatorMode(r, ltype, s);
  }

  lemma SkipTwice(s: Text)
    ensures SkipSpace(s) == s || (s != [] && IsSpace(s[0]))
  {
  }

  lemma ParenEnds(ts: seq<Tok>)
    ensures ParseE(ts).None? ==> InParens(ts).None?
    ensures ParseE(ts).Some? ==>
              var (e, rest) := ParseE(ts).value;
              if Starts(rest, CloseTok) then InParens(ts) == Some((e, rest[1..])) else InParens(ts).None?
  {
    hide ParseE;
  }

  lemma FactorRead(ts: seq<Tok>)
    ensures !Starts(ts, NotTok) ==> ParseF(ts) == ParseA(ts)
    ensures Starts(ts, NotTok) ==> ParseF(ts) == AfterNot(ts[1..])
  {
    hide ParseA;
  }

  function AfterNot(ts: seq<Tok>): Parse {
    match ParseF(ts)
    case Some((e, rest)) => Some((Not(e), rest))
    case None => None
  }

  lemma FactorAhead(r: Reader, ltype: Text, s: Text)
    requires s != [] ==> !IsSpace(s[0])
    ensures s == [] || s[0] != NOT ==> ParseF(Scan(r, ltype, s, Operand)) == ParseA(Scan(r, ltype, s, Operand))
    ensures s != [] && s[0] == NOT ==>
              ParseF(Scan(r, ltype, s, Operand)) == AfterNot(Scan(r, ltype, s[1..], Operand))
  {
    hide Scan, ParseF, ParseA;
    FactorRead(Scan(r, ltype, s, Operand));
    if s != [] && s[0] == NOT { OperandAhead(r, ltype, s); } else { NotAhead(r, ltype, s); }
  }

  /** A term goes on with another, or it does not. */
  function AfterFactor(a: Expr, rest: seq<Tok>): Parse {
    if Starts(rest, AndTok) then AndTerm(a, rest[1..]) else Some((a, rest))
  }

  function AndTerm(a: Expr, ts: seq<Tok>): Parse {
    match ParseT(ts)
    case Some((b, rest)) => Some((And(a, b), rest))
    case None => None
  }

  function AfterTerm(a: Expr, rest: seq<Tok>): Parse {
    if Starts(rest, OrTok) then OrLock(a, rest[1..]) else Some((a, rest))
  }

  function OrLock(a: Expr, ts: seq<Tok>): Parse {
    match ParseE(ts)
    case Some((b, rest)) => Some((Or(a, b), rest))
    case None => None
  }

  lemma TermRead(ts: seq<Tok>)
    ensures ParseT(ts) == if ParseF(ts).None? then None else AfterFactor(ParseF(ts).value.0, ParseF(ts).value.1)
    ensures ParseE(ts) == if ParseT(ts).None? then None else AfterTerm(ParseT(ts).value.0, ParseT(ts).value.1)
  {
    hide ParseF;
  }

  /** What follows a factor or a term. */
  lemma OperatorRead(r: Reader, ltype: Text, s: Text, a: Expr)
    requires s != [] ==> !IsSpace(s[0])
    ensures AfterFactor(a, Scan(r, ltype, s, Operator)) ==
            if s != [] && s[0] == AND then AndTerm(a, Scan(r, ltype, s[1..], Operand))
            else Some((a, Scan(r, ltype, s, Operator)))
    ensures AfterTerm(a, Scan(r, ltype, s, Operator)) ==
            if s != [] && s[0] == OR then OrLock(a, Scan(r, ltype, s[1..], Operand))
            else Some((a, Scan(r, ltype, s, Operator)))
  {
    hide Scan, ParseT, ParseE;
    OperatorAhead(r, ltype, s);
  }

  class Parser {
    const reader: Reader
    const ltype: Text
    const buf: Text
    var pos: nat

    ghost predicate Valid()
      reads this
    {
      pos <= |buf|
    }

    function Ahead(): Text
      requires pos <= |buf|
      reads this
    {
      buf[pos..]
    }

    ghost function Toks(m: Mode): seq<Tok>
      requires pos <= |buf|
      reads this
    {
      Scan(reader, ltype, buf[pos..], m)
    }

    constructor (reader: Reader, buf: Text, ltype: Text)
      ensures Valid() && this.reader == reader && this.buf == buf && this.ltype == ltype && pos == 0
    {
      this.reader, this.buf, this.ltype, pos := reader, buf, ltype, 0;
    }

    /** What a parsing function that found `b` says about the parse `p`. */
    ghost predicate Found(b: Node?, p: Parse)
      reads this, b, if b != null then b.Repr else {}
    {
      Valid() && (b == null <==> p.None?) &&
      (b != null ==> b.Valid() && p.value == (b.Tree(), Toks(Operator)))
    }

    method SkipWhitespace()
      requires Valid()
      modifies this
      ensures Valid() && Ahead() == SkipSpace(old(Ahead())) && pos >= old(pos)
      ensures Toks(Operator) == old(Toks(Operator)) && Toks(Operand) == old(Toks(Operand))
    {
      hide Scan, SkipSpace;
      ScanSkips(reader, ltype, Ahead());
      pos := AfterSpace(buf, pos);
    }

    /** An object, #true or #false. */
    method PR() returns (b: Node?)
      requires Valid()
      modifies this
      ensures Valid() && pos >= old(pos) && Ahead() == old(Ahead())[WordLen(old(Ahead()), true, false)..]
      ensures var t := ObjectAhead(reader, old(Ahead()));
              (b == null <==> t.UnknownTok?) &&
              (t.NameTok? ==> b.Valid() && fresh(b.Repr) && b.kind == KRef(Const) && b.thing == t.thing) &&
              (t.TruthTok? ==> b.Valid() && fresh(b.Repr) && b.kind == KBool && b.thing == if t.truth then 1 else 0)
    {
      hide Unescaped, WordLen, Trimmed, ObjectTok;
      ghost var ahead := Ahead();
      var w, to := CopyName(buf, pos, true);
      assert ahead[..to - pos] == buf[pos..to] && ahead[to - pos..] == buf[to..];
      pos := to;
      match ObjectTok(reader, w)
      case TruthTok(v) => b := new Node(KBool, if v then 1 else 0, [], []);
      case NameTok(thing) => b := new Node(KRef(Const), thing, [], []);
      case _ => b := null;
    }

    /** After = + or $: an object, which must not be #true or #false. */
    method PMarked(k: RefKind) returns (b: Node?)
      requires Valid()
      modifies this
      ensures Found(b, old(ParseMarked(Toks(Object(false)), k))) && (b != null ==> fresh(b.Repr))
      ensures pos >= old(pos)
    {
      hide ObjectAhead, ParseMarked, Scan;
      MarkedAhead(reader, ltype, Ahead(), k);
      var t := PR();
      if t == null || t.kind != KRef(Const) { return null; }
      b := new Node(KRef(k), t.thing, [], []);
    }

    /** After an @: an object, and perhaps a slash and the name of a lock. */
    method PIndirect() returns (b: Node?)
      requires Valid()
      modifies this
      ensures Found(b, old(ParseIndirect(Toks(Object(true))))) && (b != null ==> fresh(b.Repr))
      ensures pos >= old(pos)
    {
      hide ObjectAhead, ParseIndirect, Scan, LockOf;
      IndirectAhead(reader, ltype, Ahead());
      var t := PR();
      if t == null || t.kind != KRef(Const) { return null; }
      b := PLockName(t.thing);
    }

    /** The lock of an object, after the object. */
    method PLockName(thing: Dbref) returns (b: Node?)
      requires Valid()
      modifies this
      ensures Found(b, old(LockOf(reader, ltype, thing, Ahead()))) && (b != null ==> fresh(b.Repr))
      ensures pos >= old(pos)
    {
      hide Scan, GoodName, LockNamed, LockWritten, BehindLock;
      if pos < |buf| && buf[pos] == EVAL {
        var w := PWritten();
        if !GoodName(w) { return null; }
        b := new Node(KInd, thing, LockNamed(reader, w), []);
      } else {
        b := new Node(KInd, thing, ltype, []);
      }
    }

    /** The name of a lock behind a slash, in upper case. */
    method PWritten() returns (w: Text)
      requires Valid() && pos < |buf|
      modifies this
      ensures Valid() && pos >= old(pos)
      ensures w == LockWritten(old(Ahead())) && Ahead() == BehindLock(old(Ahead()))
    {
      hide Unescaped, WordLen, Trimmed, Upper;
      Onward(buf, pos);
      ghost var ahead := buf[pos + 1..];
      var name, to := CopyName(buf, pos + 1, false);
      assert ahead[..to - pos - 1] == buf[pos + 1..to] && ahead[to - pos - 1..] == buf[to..];
      pos := to;
      w := ToUpper(name);
    }

    /** A lock in parentheses, or a word. */
    method PL() returns (b: Node?)
      requires Valid() && NoMark(SkipSpace(Ahead()))
      modifies this
      ensures Found(b, old(ParseL(Toks(Operand)))) && (b != null ==> fresh(b.Repr))
      ensures pos >= old(pos)
      decreases |buf| - pos, 0
    {
      hide Scan, ParseL, NoMark, WordRead, InParens, Node.Valid, Node.Tree, SkipSpace, IsSpace;
      SkipWhitespace();
      LockAhead(reader, ltype, Ahead());
      if pos < |buf| && buf[pos] == OPEN {
        Onward(buf, pos);
        pos := pos + 1;
        b := PInParens();
      } else {
        b := PWord();
      }
    }

    /** After an opening parenthesis: a lock and a closing one. */
    method PInParens() returns (b: Node?)
      requires Valid()
      modifies this
      ensures Found(b, old(InParens(Toks(Operand)))) && (b != null ==> fresh(b.Repr))
      ensures pos >= old(pos)
      decreases |buf| - pos, 6
    {
      hide Node.Valid, Node.Tree, Scan, ParseE, IsSpace, SkipSpace, InParens;
      ParenEnds(Toks(Operand));
      b := PE();
      if b == null { return; }
      SkipWhitespace();
      OperatorAhead(reader, ltype, Ahead());
      if pos == |buf| || buf[pos] != CLOSE { return null; }
      Onward(buf, pos);
      pos := pos + 1;
    }

    /** A word: a test of an attribute, of softcode or of a flag, or an object. */
    method PWord() returns (b: Node?)
      requires Valid()
      modifies this
      ensures Found(b, old(WordRead(reader, ltype, Ahead()))) && (b != null ==> fresh(b.Repr))
      ensures pos >= old(pos)
    {
      hide Scan, WordTok, WordLen, Trimmed, ObjectAhead;
      var savebuf, w := pos, [];
      w, pos := CopyRaw(buf, pos);
      assert buf[savebuf..][..pos - savebuf] == buf[savebuf..pos] && buf[savebuf..][pos - savebuf..] == buf[pos..];
      var isTest;
      isTest, b := TestOf(w);
      if !isTest {
        pos := savebuf;
        b := PR();
      }
    }

    /** Is the word a test, and which? */
    method TestOf(w: Text) returns (isTest: bool, b: Node?)
      ensures isTest <==> WordTok(reader, w).Some?
      ensures isTest ==>
                var t := WordTok(reader, w).value;
                (b == null <==> t.UnknownTok?) &&
                (b != null ==> b.Valid() && fresh(b.Repr) && AtomOf(t, []) == Some((b.Tree(), [])))
    {
      hide TestAtr, Upper, ObjidNamed;
      isTest := true;
      var p := TakeApart(w, ATR);
      if p.Parted? { b := new Node(KPair(Atr), -1, p.name, p.text); return; }
      if p.Wrong? { b := null; return; }
      p := TakeApart(w, EVAL);
      if p.Parted? { b := new Node(KPair(Eval), -1, p.name, p.text); return; }
      if p.Wrong? { b := null; return; }
      p := TakeApart(w, FLAG);
      if p.Wrong? { b := null; return; }
      if p.Whole? { isTest, b := false, null; return; }
      if p.name == OBJID {
        b := PObjid(p.text);
      } else {
        var text := ToUpper(p.text);
        b := new Node(KFlag(FlagNamed(p.name).value), -1, [], text);
      }
    }

    /** An objid stands for the object alone. */
    method PObjid(s: Text) returns (b: Node?)
      ensures var t := ObjidNamed(reader, s);
              (b == null <==> t.UnknownTok?) &&
              (t.ObjidTok? ==> b.Valid() && fresh(b.Repr) && b.Tree() == Ref(Is, t.thing))
    {
      hide Unescaped, WordLen;
      if reader.Loading? {
        var w, n := CopyName(s, 0, true);
        assert s[0..] == s && s[0..n] == s[..n];
        var t := ObjectTok(reader, w);
        if !t.NameTok? { return null; }
        b := new Node(KRef(Is), t.thing, [], []);
      } else {
        match reader.objid(s)
        case Some(d) => b := new Node(KRef(Is), d, [], []);
        case None => b := null;
      }
    }

    /** The marks `@`, `=`, `+` and `$`, or none. */
    method PA() returns (b: Node?)
      requires Valid() && (SkipSpace(Ahead()) != [] ==> SkipSpace(Ahead())[0] != NOT)
      modifies this
      ensures Found(b, old(ParseA(Toks(Operand)))) && (b != null ==> fresh(b.Repr))
      ensures pos >= old(pos)
      decreases |buf| - pos, 1
    {
      hide Node.Valid, Node.Tree, Scan, ParseL, ParseMarked, ParseIndirect;
      SkipWhitespace();
      if pos < |buf| {
        OperandAhead(reader, ltype, Ahead());
        Onward(buf, pos);
        if buf[pos] == AT {
          pos := pos + 1;
          b := PIndirect();
          return;
        } else if buf[pos] == IS || buf[pos] == IN || buf[pos] == OWNER {
          var k := if buf[pos] == IS then Is else if buf[pos] == IN then Carry else Owner;
          pos := pos + 1;
          b := PMarked(k);
          return;
        }
      }
      NoMarkAhead(reader, ltype, Ahead());
      b := PL();
    }

    method PF() returns (b: Node?)
      requires Valid()
      modifies this
      ensures Found(b, old(ParseF(Toks(Operand)))) && (b != null ==> fresh(b.Repr))
      ensures pos >= old(pos)
      decreases |buf| - pos, 2
    {
      hide Node.Valid, Node.Tree, Scan, ParseA, ParseF, IsSpace, SkipSpace;
      SkipWhitespace();
      FactorAhead(reader, ltype, Ahead());
      if pos < |buf| && buf[pos] == NOT {
        Onward(buf, pos);
        pos := pos + 1;
        b := PNegated();
      } else {
        SkipTwice(Ahead());
        b := PA();
      }
    }

    /** After a `!`: another factor. */
    method PNegated() returns (b: Node?)
      requires Valid()
      modifies this
      ensures Found(b, old(AfterNot(Toks(Operand)))) && (b != null ==> fresh(b.Repr))
      ensures pos >= old(pos)
      decreases |buf| - pos, 3
    {
      hide Node.Valid, Node.Tree, Scan, ParseF;
      var n := PF();
      if n == null { return null; }
      b := new Node.Negation(n);
    }

    method PT() returns (b: Node?)
      requires Valid()
      modifies this
      ensures Found(b, old(ParseT(Toks(Operand)))) && (b != null ==> fresh(b.Repr))
      ensures pos >= old(pos)
      decreases |buf| - pos, 4
    {
      hide Node.Valid, Node.Tree, Scan, ParseF, ParseT, ParseE, AfterFactor;
      TermRead(Toks(Operand));
      b := PF();
      if b != null { b := PAnd(b); }
    }

    /** After a factor: `&` and a term, or the end of the term. */
    method PAnd(a: Node) returns (b: Node?)
      requires Valid() && a.Valid()
      modifies this
      ensures Found(b, old(AfterFactor(a.Tree(), Toks(Operator)))) && (b != null ==> fresh(b.Repr - a.Repr))
      ensures pos >= old(pos)
      decreases |buf| - pos, 3
    {
      hide Node.Valid, Node.Tree, Scan, ParseT, ParseE, IsSpace, SkipSpace, AfterFactor, AfterTerm, AndTerm;
      SkipWhitespace();
      OperatorRead(reader, ltype, Ahead(), a.Tree());
      if pos == |buf| || buf[pos] != AND { return a; }
      Onward(buf, pos);
      pos := pos + 1;
      b := PAndTerm(a);
    }

    method PAndTerm(a: Node) returns (b: Node?)
      requires Valid() && a.Valid()
      modifies this
      ensures Found(b, old(AndTerm(a.Tree(), Toks(Operand)))) && (b != null ==> fresh(b.Repr - a.Repr))
      ensures pos >= old(pos)
      decreases |buf| - pos, 5
    {
      hide Node.Valid, Node.Tree, Scan, ParseT;
      var b2 := PT();
      if b2 == null { return null; }
      b := new Node.Binary(KAnd, a, b2);
    }

    method PE() returns (b: Node?)
      requires Valid()
      modifies this
      ensures Found(b, old(ParseE(Toks(Operand)))) && (b != null ==> fresh(b.Repr))
      ensures pos >= old(pos)
      decreases |buf| - pos, 5
    {
      hide Node.Valid, Node.Tree, Scan, ParseF, ParseT, ParseE, AfterTerm;
      TermRead(Toks(Operand));
      b := PT();
      if b != null { b := POr(b); }
    }

    /** After a term: `|` and a lock, or the end of the lock. */
    method POr(a: Node) returns (b: Node?)
      requires Valid() && a.Valid()
      modifies this
      ensures Found(b, old(AfterTerm(a.Tree(), Toks(Operator)))) && (b != null ==> fresh(b.Repr - a.Repr))
      ensures pos >= old(pos)
      decreases |buf| - pos, 4
    {
      hide Node.Valid, Node.Tree, Scan, ParseT, ParseE, IsSpace, SkipSpace, AfterFactor, AfterTerm, OrLock;
      SkipWhitespace();
      OperatorRead(reader, ltype, Ahead(), a.Tree());
      if pos == |buf| || buf[pos] != OR { return a; }
      Onward(buf, pos);
      pos := pos + 1;
      b := POrLock(a);
    }

    method POrLock(a: Node) returns (b: Node?)
      requires Valid() && a.Valid()
      modifies this
      ensures Found(b, old(OrLock(a.Tree(), Toks(Operand)))) && (b != null ==> fresh(b.Repr - a.Repr))
      ensures pos >= old(pos)
      decreases |buf| - pos, 6
    {
      hide Node.Valid, Node.Tree, Scan, ParseE;
      var b2 := PE();
      if b2 == null { return null; }
      b := new Node.Binary(KOr, a, b2);
    }
  }
}

/**
 Reading back what the printer spelled, token by token.
 */
module LockReading {
  import opened Basics
  import opened LockLanguage
  import opened LockScanner
  import opened LockSpelling

  // ----- words and backslashes -----

  /** Is the end of the text escaped? */
  function Dangles(s: seq<Byte>, escaped: bool): bool {
    if s == [] then escaped else Dangles(s[1..], !escaped && s[0] == BACKSLASH)
  }

  /** Nothing in the text ends the word. */
  predicate OneWord(s: seq<Byte>, slash: bool, escaped: bool) { WordLen(s, slash, escaped) == |s| }

  lemma {:induction false} WordLenOver(a: seq<Byte>, z: seq<Byte>, slash: bool, escaped: bool)
    requires OneWord(a, slash, escaped)
    ensures WordLen(a + z, slash, escaped) == |a| + WordLen(z, slash, Dangles(a, escaped))
  {
    if a == [] {
      assert a + z == z;
    } else {
      assert (a + z)[1..] == a[1..] + z;
      WordLenOver(a[1..], z, slash, !escaped && a[0] == BACKSLASH);
    }
  }

  /** A word ends where its text ends, or something follows that ends it. */
  lemma WordLenEnds(a: seq<Byte>, z: seq<Byte>, slash: bool)
    requires OneWord(a, slash, false) && (z == [] || (Stops(z[0], slash) && !Dangles(a, false)))
    ensures WordLen(a + z, slash, false) == |a| && (a + z)[..|a|] == a && (a + z)[|a|..] == z
  {
    WordLenOver(a, z, slash, false);
  }

  lemma {:induction false} OneWordAppend(a: seq<Byte>, b: seq<Byte>, slash: bool, escaped: bool)
    requires OneWord(a, slash, escaped) && OneWord(b, slash, Dangles(a, escaped))
    ensures OneWord(a + b, slash, escaped) && Dangles(a + b, escaped) == Dangles(b, Dangles(a, escaped))
  {
    WordLenOver(a, b, slash, escaped);
    DanglesAppend(a, b, escaped);
  }

  lemma {:induction false} DanglesAppend(a: seq<Byte>, b: seq<Byte>, escaped: bool)
    ensures Dangles(a + b, escaped) == Dangles(b, Dangles(a, escaped))
  {
    if a == [] {
      assert a + b == b;
    } else {
      assert (a + b)[1..] == a[1..] + b;
      DanglesAppend(a[1..], b, !escaped && a[0] == BACKSLASH);
    }
  }

  /** Part of a word is a word. */
  lemma {:induction false} OneWordPrefix(a: seq<Byte>, n: nat, slash: bool, escaped: bool)
    requires OneWord(a, slash, escaped) && n <= |a|
    ensures OneWord(a[..n], slash, escaped)
  {
    if n > 0 {
      assert a[..n][1..] == a[1..][..n - 1];
      OneWordPrefix(a[1..], n - 1, slash, !escaped && a[0] == BACKSLASH);
    }
  }

  lemma {:induction false} UnescapedAppend(a: seq<Byte>, b: seq<Byte>, escaped: bool)
    ensures Unescaped(a + b, escaped) == Unescaped(a, escaped) + Unescaped(b, Dangles(a, escaped))
  {
    if a == [] {
      assert a + b == b;
    } else {
      assert (a + b)[1..] == a[1..] + b;
      UnescapedAppend(a[1..], b, !escaped && a[0] == BACKSLASH);
    }
  }

  /** Where a separator is, when there is none in the first part. */
  lemma {:induction false} SeparatorOver(a: seq<Byte>, b: seq<Byte>, c: Byte, escaped: bool)
    requires SeparatorAt(a, c, escaped) == |a|
    ensures SeparatorAt(a + b, c, escaped) == |a| + SeparatorAt(b, c, Dangles(a, escaped))
  {
    if a == [] {
      assert a + b == b;
    } else {
      assert (a + b)[1..] == a[1..] + b;
      SeparatorOver(a[1..], b, c, !escaped && a[0] == BACKSLASH);
    }
  }

  // ----- words without anything special -----

  predicate Plain(s: seq<Byte>) {
    forall i :: 0 <= i < |s| ==> s[i] != BACKSLASH && !NeedsEscape(s[i]) && !IsSpace(s[i]) && s[i] != OPEN
  }

  lemma {:induction false} PlainWord(s: seq<Byte>, slash: bool, c: Byte)
    requires Plain(s) && NeedsEscape(c)
    ensures OneWord(s, slash, false) && !Dangles(s, false) && Unescaped(s, false) == s && Trimmed(s) == s
    ensures SeparatorAt(s, c, false) == |s|
  {
    if s != [] { PlainWord(s[1..], slash, c); }
  }

  // ----- escaped words -----

  lemma {:induction false} EscapedWord(s: Text, slash: bool, c: Byte)
    requires NeedsEscape(c) && c != BACKSLASH
    ensures OneWord(Escaped(s), slash, false) && !Dangles(Escaped(s), false)
    ensures Unescaped(Escaped(s), false) == s && SeparatorAt(Escaped(s), c, false) == |Escaped(s)|
  {
    hide NeedsEscape;
    if s != [] {
      EscapedWord(s[1..], slash, c);
      EscapedByteWord(s[0], slash, c);
      var a, b := EscapedByte(s[0]), Escaped(s[1..]);
      OneWordAppend(a, b, slash, false);
      UnescapedAppend(a, b, false);
      SeparatorOver(a, b, c, false);
    }
  }

  lemma EscapedByteWord(x: Byte, slash: bool, c: Byte)
    requires NeedsEscape(c) && c != BACKSLASH
    ensures OneWord(EscapedByte(x), slash, false) && !Dangles(EscapedByte(x), false)
    ensures Unescaped(EscapedByte(x), false) == [x] && SeparatorAt(EscapedByte(x), c, false) == |EscapedByte(x)|
  {
    var a := EscapedByte(x);
    if NeedsEscape(x) {
      assert a[1..] == [x] && [x][1..] == [];
      assert Dangles([x], true) == false && SeparatorAt([x], c, true) == 1;
    } else {
      assert a[1..] == [];
    }
  }

  // ----- words with a separator -----

  lemma UpperName(s: Text)
    requires GoodName(s)
    ensures Upper(s) == s
  {
  }

  lemma NoSeparator(s: Text, c: Byte)
    requires SeparatorAt(s, c, false) == |s|
    ensures TestAtr(s, c) == Whole
  {
  }

  /** An attribute name, a separator and a text are taken apart again. */
  lemma PairParted(name: Text, c: Byte, body: Text)
    requires GoodName(name) && (c == ATR || c == EVAL)
    ensures TestAtr(PairWord(name, c, body), c) == if body == [] then Whole else Parted(name, body)
  {
    hide Escaped, GoodName, Unescaped, Upper, SeparatorAt;
    var a, w := Escaped(name), PairWord(name, c, body);
    EscapedWord(name, false, c);
    SeparatorOver(a, [c] + body, c, false);
    SeparatorHere(c, body);
    assert w == a + ([c] + body);
    assert w[..|a|] == a && w[|a| + 1..] == body;
    UpperName(name);
  }

  lemma SeparatorHere(c: Byte, body: seq<Byte>)
    ensures SeparatorAt([c] + body, c, false) == 0
  {
  }

  lemma SeparatorSkips(c: Byte, body: seq<Byte>, d: Byte)
    requires c != d && c != BACKSLASH
    ensures SeparatorAt([c] + body, d, false) == 1 + SeparatorAt(body, d, false)
  {
    assert ([c] + body)[1..] == body;
  }

  /** Another separator than the one that is there is not found. */
  lemma PairWhole(name: Text, c: Byte, body: Text, d: Byte)
    requires NeedsEscape(d) && d != BACKSLASH && d != c && c != BACKSLASH && c != 0
    requires SeparatorAt(body, d, false) == |body|
    ensures TestAtr(PairWord(name, c, body), d) == Whole
  {
    hide Escaped, NeedsEscape, SeparatorAt, TestAtr;
    var a, w := Escaped(name), PairWord(name, c, body);
    EscapedWord(name, false, d);
    SeparatorOver(a, [c] + body, d, false);
    SeparatorSkips(c, body, d);
    assert w == a + ([c] + body);
    NoSeparator(w, d);
  }

  lemma PairRead(r: Reader, k: PairKind, name: Text, body: Text)
    requires GoodName(name) && body != [] && (k == Eval ==> SeparatorAt(body, ATR, false) == |body|)
    ensures WordTok(r, PairWord(name, Separator(k), body)) == Some(PairTok(k, name, body))
  {
    hide TestAtr, GoodName, PairWord;
    PairParted(name, Separator(k), body);
    if k == Eval { PairWhole(name, EVAL, body, ATR); }
  }

  predicate Letters(s: seq<Byte>) {
    2 <= |s| <= 9 && forall i :: 0 <= i < |s| ==> 65 <= s[i] <= 90
  }

  lemma LettersGood(s: seq<Byte>)
    requires Letters(s)
    ensures Plain(s) && GoodName(s) && Upper(s) == s && s[0] != HASH
  {
  }

  lemma FlagNameLetters(k: FlagKind)
    ensures Letters(FlagName(k))
  {
    match k
    case FlagLock => case TypeLock => case NameLock => case PowerLock =>
    case ChannelLock => case IpLock => case HostnameLock => case DbrefListLock =>
  }

  lemma FlagNameKnown(k: FlagKind)
    ensures FlagNamed(FlagName(k)) == Some(k) && FlagName(k) != OBJID
  {
    match k
    case FlagLock => case TypeLock => case NameLock => case PowerLock =>
    case ChannelLock => case IpLock => case HostnameLock => case DbrefListLock =>
  }

  lemma FlagNamePlain(k: FlagKind)
    ensures Plain(FlagName(k)) && GoodName(FlagName(k)) && FlagNamed(FlagName(k)) == Some(k) && FlagName(k) != OBJID
    ensures Upper(FlagName(k)) == FlagName(k) && |FlagName(k)| >= 2 && FlagName(k)[0] != HASH
  {
    hide Plain, GoodName, FlagName, FlagNamed;
    FlagNameLetters(k);
    LettersGood(FlagName(k));
    FlagNameKnown(k);
  }

  /** In front of a separator behind the `^` there is no attribute name. */
  lemma FlagWhole(k: FlagKind, body: Text, d: Byte)
    requires d == ATR || d == EVAL
    ensures TestAtr(FlagWord(k, body), d) == Whole
  {
    hide FlagName, SeparatorAt, Unescaped;
    var a, w := FlagName(k), FlagWord(k, body);
    FlagNamePlain(k);
    PlainWord(a, false, d);
    SeparatorOver(a, [FLAG] + body, d, false);
    assert w == a + ([FLAG] + body);
    var n := SeparatorAt(w, d, false);
    SeparatorSkips(FLAG, body, d);
    var m := n - |a| - 1;
    assert w[..n] == a + ([FLAG] + body[..m]);
    UnescapedAppend(a, [FLAG] + body[..m], false);
    UnescapedSkips(FLAG, body[..m]);
    var u := Unescaped(w[..n], false);
    assert u == a + ([FLAG] + Unescaped(body[..m], false));
    assert Upper(u)[|a|] == FLAG && !NameByte(FLAG);
  }

  lemma UnescapedSkips(c: Byte, body: seq<Byte>)
    requires c != BACKSLASH
    ensures Unescaped([c] + body, false) == [c] + Unescaped(body, false)
  {
    assert ([c] + body)[1..] == body;
  }

  lemma FlagParted(k: FlagKind, body: Text)
    ensures TestAtr(FlagWord(k, body), FLAG) == if body == [] then Whole else Parted(FlagName(k), body)
  {
    hide FlagName, GoodName, FlagNamed, Unescaped, Upper, SeparatorAt;
    var a, w := FlagName(k), FlagWord(k, body);
    FlagNamePlain(k);
    PlainWord(a, false, FLAG);
    SeparatorOver(a, [FLAG] + body, FLAG, false);
    SeparatorHere(FLAG, body);
    assert w == a + ([FLAG] + body);
    assert w[..|a|] == a && w[|a| + 1..] == body;
  }

  lemma FlagRead(r: Reader, k: FlagKind, body: Text)
    ensures WordTok(r, FlagWord(k, body)) == if body == [] then None else Some(FlagTok(k, Upper(body)))
  {
    hide TestAtr, FlagName, FlagWord, FlagNamed, Upper;
    FlagNamePlain(k);
    FlagWhole(k, body, ATR);
    FlagWhole(k, body, EVAL);
    FlagParted(k, body);
  }

  /** A word without any separator is the name of an object. */
  lemma NoTest(r: Reader, s: Text)
    requires SeparatorAt(s, ATR, false) == |s| && SeparatorAt(s, EVAL, false) == |s|
    requires SeparatorAt(s, FLAG, false) == |s|
    ensures WordTok(r, s) == None
  {
    NoSeparator(s, ATR);
    NoSeparator(s, EVAL);
    NoSeparator(s, FLAG);
  }

  // ----- single tokens -----

  /** The text of a test as the parser leaves it: no space at its end and nothing in it that ends a word. */
  predicate WordText(s: Text) {
    s != [] && !IsSpace(s[|s| - 1]) && OneWord(s, false, false)
  }

  /** A token as a parsed lock holds it, for this reader. */
  predicate TokReadable(r: Reader, t: Tok) {
    match t
    case NameTok(d) => ObjectNamed(r, ObjectText(ByNumber, d)) == Some(d)
    case PairTok(_, name, text) => GoodName(name) && WordText(text)
    case FlagTok(_, text) => WordText(text) && Upper(text) == text
    case ObjidTok(_) => false
    case UnknownTok => false
    case _ => true
  }

  /** What a token is read as after it was printed: the name of a lock gets its proper form, or is none; backslashes
      that the printer adds to a text stay in it. */
  function Reread(r: Reader, t: Tok): Tok {
    match t
    case SlashTok(lock) => LockRead(r, lock)
    case PairTok(k, name, text) => PairTok(k, name, PairBody(k, text))
    case FlagTok(k, text) => FlagTok(k, FlagBody(k, text))
    case _ => t
  }

  /** The name of a lock as it is looked up. */
  function NameRead(lock: Text): Text { Upper(Trimmed(lock)) }

  function LockRead(r: Reader, lock: Text): Tok {
    if GoodName(NameRead(lock)) then SlashTok(LockNamed(r, NameRead(lock))) else UnknownTok
  }

  /** A lock name that is good and in the form that the table of locks gives it. */
  predicate ProperLock(r: Reader, lock: Text) {
    GoodName(Upper(lock)) && LockNamed(r, Upper(lock)) == lock
  }

  /** The printer leaves the text of a test as it is. */
  predicate TextKept(t: Tok) {
    match t
    case PairTok(k, _, text) => PairBody(k, text) == text
    case FlagTok(k, text) => FlagBody(k, text) == text
    case _ => true
  }

  /** Nothing in a token changes when it is printed and read: its text is not escaped, its lock name is proper. */
  predicate Kept(r: Reader, t: Tok) {
    TextKept(t) && (t.SlashTok? ==> ProperLock(r, t.lock))
  }

  /** Exactly the proper lock names are read as they are. */
  lemma LockReadSame(r: Reader, lock: Text)
    requires ReaderOk(r)
    ensures LockRead(r, lock) == SlashTok(lock) <==> ProperLock(r, lock)
  {
    hide GoodName;
    var t := Trimmed(lock);
    if t == lock {
    } else {
      LockLength(r, Upper(t));
      SpaceInName(lock);
    }
  }

  lemma {:induction false} SpaceInName(lock: Text)
    requires Trimmed(lock) != lock
    ensures !GoodName(Upper(lock))
  {
    assert IsSpace(lock[|lock| - 1]);
    assert Upper(lock)[|lock| - 1] == lock[|lock| - 1] && !NameByte(lock[|lock| - 1]);
  }

  lemma RereadSame(r: Reader, t: Tok)
    requires ReaderOk(r)
    ensures Reread(r, t) == t <==> Kept(r, t)
  {
    hide ReaderOk, LockRead, ProperLock;
    if t.SlashTok? { LockReadSame(r, t.lock); }
  }

  /** Does the printed token escape what follows it? */
  predicate Swallows(t: Tok) {
    (t.PairTok? || t.FlagTok?) && Dangles(Spelled(ByNumber, t), false)
  }

  predicate Allowed(t: Tok, m: Mode) {
    match m
    case Operand => t == NotTok || t == OpenTok || t == AtTok || t == EqTok || t == PlusTok || t == DollarTok ||
                    t.NameTok? || t.TruthTok? || t.PairTok? || t.FlagTok?
    case Object(_) => t.NameTok?
    case LockName => t.SlashTok?
    case Operator => t == AndTok || t == OrTok || t == CloseTok
  }

  function Next(t: Tok, m: Mode): Mode {
    match t
    case NotTok => Operand
    case OpenTok => Operand
    case AndTok => Operand
    case OrTok => Operand
    case AtTok => Object(true)
    case EqTok => Object(false)
    case PlusTok => Object(false)
    case DollarTok => Object(false)
    case NameTok(_) => if m == Object(true) then LockName else Operator
    case _ => Operator
  }

  /** What may stand behind a token. */
  predicate MayFollow(z: Text, m: Mode) {
    match m
    case Operator => z == [] || Stops(z[0], false)
    case LockName => z == [] || z[0] == EVAL
    case _ => true
  }

  /** The word at the start of an operand. */
  lemma ReadWord(r: Reader, ltype: Text, w: Text, z: Text, s: Text)
    requires s == w + z && w != [] && NoMark(w) && w[0] != OPEN && !IsSpace(w[0]) && !IsSpace(w[|w| - 1])
    requires OneWord(w, false, false) && (z == [] || (Stops(z[0], false) && !Dangles(w, false)))
    requires WordTok(r, w).Some? && WordTok(r, w) != Some(UnknownTok)
    ensures Scan(r, ltype, s, Operand) == [WordTok(r, w).value] + Scan(r, ltype, z, Operator)
  {
    hide Scan, WordTok, WordLen, OneWord, Trimmed, Dangles, NoMark;
    StartOver(w, z);
    WordScanned(r, ltype, s);
    WordLenEnds(w, z, false);
    TrimmedWord(w);
  }

  lemma StartOver(w: Text, z: Text)
    requires w != [] && NoMark(w)
    ensures NoMark(w + z) && (w + z)[0] == w[0]
  {
  }

  lemma TrimmedWord(w: seq<Byte>)
    requires w != [] ==> !IsSpace(w[|w| - 1])
    ensures Trimmed(w) == w
  {
  }

  lemma EscapedStart(s: Text)
    requires s != [] && NameByte(s[0])
    ensures Escaped(s) != [] && NoMark(Escaped(s)) && Escaped(s)[0] != OPEN && !IsSpace(Escaped(s)[0])
  {
  }

  lemma {:induction false} EscapedEnd(s: Text)
    requires s != []
    ensures Escaped(s)[|Escaped(s)| - 1] == s[|s| - 1]
  {
    if |s| > 1 {
      EscapedEnd(s[1..]);
      assert Escaped(s[1..]) != [];
    }
  }

  /** The body of a word is itself a word. */
  lemma PairBodyWord(k: PairKind, text: Text)
    requires WordText(text)
    ensures WordText(PairBody(k, text)) && (k == Eval ==> !Dangles(PairBody(k, text), false))
  {
    if k == Eval {
      EscapedWord(text, false, ATR);
      EscapedEnd(text);
    }
  }

  lemma PairWordOne(name: Text, c: Byte, body: Text)
    requires GoodName(name) && (c == ATR || c == EVAL) && OneWord(body, false, false)
    ensures var w := PairWord(name, c, body);
            OneWord(w, false, false) && Dangles(w, false) == Dangles(body, false) && NoMark(w) && w[0] != OPEN &&
            !IsSpace(w[0]) && w[|w| - 1] == if body == [] then c else body[|body| - 1]
  {
    hide Escaped, WordLen, Dangles, NeedsEscape;
    var a := Escaped(name);
    EscapedWord(name, false, c) by { assert NeedsEscape(c) by { hide *; SeparatorsEscaped(); } }
    EscapedStart(name);
    OneByteWord(c, body);
    OneWordAppend(a, [c] + body, false, false);
    assert PairWord(name, c, body) == a + ([c] + body);
  }

  lemma SeparatorsEscaped()
    ensures NeedsEscape(ATR) && NeedsEscape(EVAL) && NeedsEscape(FLAG)
  {
  }

  lemma OneByteWord(c: Byte, body: seq<Byte>)
    requires c == ATR || c == EVAL || c == FLAG
    requires OneWord(body, false, false)
    ensures OneWord([c] + body, false, false) && Dangles([c] + body, false) == Dangles(body, false)
  {
    assert ([c] + body)[1..] == body;
  }

  // ----- each kind of token -----

  lemma ReadPair(r: Reader, ltype: Text, t: Tok, z: Text, s: Text)
    requires t.PairTok? && TokReadable(r, t) && s == Spelled(ByNumber, t) + z
    requires z == [] || (Stops(z[0], false) && !Swallows(t))
    ensures Scan(r, ltype, s, Operand) == [Reread(r, t)] + Scan(r, ltype, z, Operator)
  {
    hide Scan, WordTok, WordLen, PairBody, Dangles, PairWord, SeparatorAt, GoodName;
    var body, w := PairBody(t.pair, t.text), Spelled(ByNumber, t);
    PairBodyWord(t.pair, t.text);
    PairWordOne(t.name, Separator(t.pair), body);
    if t.pair == Eval { BodyNoSeparator(t.text, ATR); }
    PairRead(r, t.pair, t.name, body);
    ReadWord(r, ltype, w, z, s);
  }

  lemma BodyNoSeparator(text: Text, c: Byte)
    requires c == ATR || c == EVAL || c == FLAG
    ensures SeparatorAt(PairBody(Eval, text), c, false) == |PairBody(Eval, text)|
  {
    EscapedWord(text, false, c);
  }

  lemma FlagBodyWord(k: FlagKind, text: Text)
    requires WordText(text) && Upper(text) == text
    ensures WordText(FlagBody(k, text)) && Upper(FlagBody(k, text)) == FlagBody(k, text)
    ensures !Preserved(k) ==> !Dangles(FlagBody(k, text), false)
  {
    if !Preserved(k) {
      EscapedWord(text, false, ATR);
      EscapedEnd(text);
      EscapedUpper(text);
    }
  }

  lemma {:induction false} EscapedUpper(s: Text)
    requires Upper(s) == s
    ensures Upper(Escaped(s)) == Escaped(s)
  {
    if s != [] {
      assert Upper(s)[0] == s[0] && Upper(s)[1..] == Upper(s[1..]);
      EscapedUpper(s[1..]);
      var a, b := EscapedByte(s[0]), Escaped(s[1..]);
      assert forall i :: 0 <= i < |b| ==> Upper(b)[i] == b[i];
      assert forall i :: 0 <= i < |Escaped(s)| ==> UpperByte(Escaped(s)[i]) == Escaped(s)[i];
      assert Upper(Escaped(s)) == Escaped(s);
    }
  }

  lemma FlagWordOne(k: FlagKind, body: Text)
    requires OneWord(body, false, false)
    ensures var w := FlagWord(k, body);
            OneWord(w, false, false) && Dangles(w, false) == Dangles(body, false) && NoMark(w) && w[0] != OPEN &&
            !IsSpace(w[0]) && w[|w| - 1] == if body == [] then FLAG else body[|body| - 1]
  {
    hide FlagName, WordLen, Dangles;
    var a := FlagName(k);
    FlagNamePlain(k);
    PlainWord(a, false, FLAG);
    OneByteWord(FLAG, body);
    OneWordAppend(a, [FLAG] + body, false, false);
    assert FlagWord(k, body) == a + ([FLAG] + body);
  }

  lemma ReadFlag(r: Reader, ltype: Text, t: Tok, z: Text, s: Text)
    requires t.FlagTok? && TokReadable(r, t) && s == Spelled(ByNumber, t) + z
    requires z == [] || (Stops(z[0], false) && !Swallows(t))
    ensures Scan(r, ltype, s, Operand) == [Reread(r, t)] + Scan(r, ltype, z, Operator)
  {
    hide Scan, WordTok, WordLen, FlagBody, Dangles, FlagWord, Upper;
    var body, w := FlagBody(t.flag, t.text), Spelled(ByNumber, t);
    FlagBodyWord(t.flag, t.text);
    FlagWordOne(t.flag, body);
    FlagRead(r, t.flag, body);
    ReadWord(r, ltype, w, z, s);
  }

  /** A word for an object. */
  lemma ReadPlain(r: Reader, ltype: Text, w: Text, z: Text, s: Text, m: Mode)
    requires Plain(w) && w != [] && s == w + z && (z == [] || Stops(z[0], true)) && (m == Operand || m.Object?)
    requires m == Operand ==> z == [] || z[0] != EVAL
    requires ObjectTok(r, w) != UnknownTok
    ensures Scan(r, ltype, s, m) ==
            [ObjectTok(r, w)] + Scan(r, ltype, z, if m == Object(true) then LockName else Operator)
  {
    hide WordTok, WordLen, ObjectTok, Dangles, Unescaped, Trimmed, SeparatorAt, Scan;
    PlainWord(w, true, ATR);
    WordLenEnds(w, z, true);
    assert ObjectAhead(r, s) == ObjectTok(r, w);
    if m == Operand {
      PlainNoTest(r, w);
      PlainWord(w, false, ATR);
      WordLenEnds(w, z, false);
      WordScanned(r, ltype, s);
    } else {
      ObjectMode(r, ltype, s, m.indirect);
    }
  }

  lemma PlainNoTest(r: Reader, w: Text)
    requires Plain(w)
    ensures WordTok(r, w) == None
  {
    PlainWord(w, false, ATR);
    PlainWord(w, false, EVAL);
    PlainWord(w, false, FLAG);
    NoTest(r, w);
  }

  lemma ReadTruth(r: Reader, ltype: Text, v: bool, z: Text, s: Text)
    requires s == Spelled(ByNumber, TruthTok(v)) + z && (z == [] || Stops(z[0], false))
    ensures Scan(r, ltype, s, Operand) == [TruthTok(v)] + Scan(r, ltype, z, Operator)
  {
    hide Scan;
    ReadPlain(r, ltype, Spelled(ByNumber, TruthTok(v)), z, s, Operand);
  }

  lemma ObjectPlain(d: Dbref)
    ensures var w := ObjectText(ByNumber, d);
            Plain(w) && |w| >= 2 && w[0] == HASH && (IsDigit(w[1]) || w[1] == MINUS)
  {
  }

  lemma ReadObject(r: Reader, ltype: Text, d: Dbref, z: Text, s: Text, m: Mode)
    requires TokReadable(r, NameTok(d)) && s == ObjectText(ByNumber, d) + z && (m == Operand || m.Object?)
    requires z == [] || Stops(z[0], m != Operand)
    ensures Scan(r, ltype, s, m) == [NameTok(d)] + Scan(r, ltype, z, if m == Object(true) then LockName else Operator)
  {
    hide Scan, ObjectText;
    ObjectPlain(d);
    ReadPlain(r, ltype, ObjectText(ByNumber, d), z, s, m);
  }

  /** The name of a lock behind a slash. */
  lemma ReadSlash(r: Reader, ltype: Text, lock: Text, z: Text, s: Text)
    requires s == Spelled(ByNumber, SlashTok(lock)) + z && (z == [] || Stops(z[0], false))
    ensures Scan(r, ltype, s, LockName) == TokAnd(LockRead(r, lock), Scan(r, ltype, z, Operator))
  {
    hide WordLen, Dangles, Unescaped, GoodName, Escaped, Scan, Upper, Trimmed, LockNamed, Spelled, ScanLock;
    LockMode(r, ltype, s);
    var a := Escaped(lock);
    EscapedWord(lock, false, ATR);
    WordLenEnds(a, z, false);
    SlashBehind(lock, z, s);
    LockScanned(r, ltype, s, a + z);
  }

  lemma SlashBehind(lock: Text, z: Text, s: Text)
    requires s == Spelled(ByNumber, SlashTok(lock)) + z
    ensures s == [EVAL] + (Escaped(lock) + z)
  {
  }

  lemma LockScanned(r: Reader, ltype: Text, s: Text, x: Text)
    requires s == [EVAL] + x
    ensures var n := WordLen(x, false, false);
            var u := Upper(Trimmed(Unescaped(x[..n], false)));
            ScanLock(r, ltype, s) ==
            TokAnd(if GoodName(u) then SlashTok(LockNamed(r, u)) else UnknownTok, Scan(r, ltype, x[n..], Operator))
  {
    hide WordLen, Unescaped, GoodName, Scan, Upper, Trimmed, LockNamed;
    assert s[1..] == x;
  }

  /** A sign of one character. */
  lemma ReadSign(r: Reader, ltype: Text, t: Tok, z: Text, s: Text, m: Mode)
    requires !Wordish(t) && !t.ObjidTok? && Allowed(t, m) && s == Spelled(ByNumber, t) + z
    ensures Scan(r, ltype, s, m) == [t] + Scan(r, ltype, z, Next(t, m))
  {
    hide ScanWord, Scan, SkipSpace;
    assert s[1..] == z;
    SkipNothing(s);
    if m == Operand { OperandMode(r, ltype, s); } else { OperatorMode(r, ltype, s); }
  }

  /** What a token says about the atoms of a lock: nothing if it is an operator or a parenthesis. */
  function Pay(t: Tok): seq<Tok> {
    match t
    case NotTok => []
    case AndTok => []
    case OrTok => []
    case OpenTok => []
    case CloseTok => []
    case ObjidTok(d) => [EqTok, NameTok(d)]
    case _ => [t]
  }

  /** A printed token is read back as what it then says; a lock name that is not good makes the parser give up. */
  lemma ReadToken(r: Reader, ltype: Text, t: Tok, z: Text, s: Text, m: Mode)
    requires Allowed(t, m) && TokReadable(r, t) && s == Spelled(ByNumber, t) + z && MayFollow(z, Next(t, m))
    requires z == [] || !Swallows(t)
    ensures Scan(r, ltype, s, m) == TokAnd(Reread(r, t), Scan(r, ltype, z, Next(t, m)))
  {
    hide Scan, Spelled, Swallows;
    match t
    case NameTok(d) =>
      assert Spelled(ByNumber, t) == ObjectText(ByNumber, d) by { hide ObjectText; SpelledName(d); }
      ReadObject(r, ltype, d, z, s, m);
    case TruthTok(v) => ReadTruth(r, ltype, v, z, s);
    case SlashTok(lock) => ReadSlash(r, ltype, lock, z, s);
    case PairTok(_, _, _) => ReadPair(r, ltype, t, z, s);
    case FlagTok(_, _) => ReadFlag(r, ltype, t, z, s);
    case _ => ReadSign(r, ltype, t, z, s, m);
  }

  lemma SpelledName(d: Dbref)
    ensures Spelled(ByNumber, NameTok(d)) == ObjectText(ByNumber, d)
  {
  }

  // ----- words that were not printed to their end -----

  /** A token that starts a word or is none at all. */
  predicate Wordish(t: Tok) {
    t.NameTok? || t.TruthTok? || t.PairTok? || t.FlagTok? || t.SlashTok? || t.UnknownTok?
  }

  /** Where an object should be there is none. */
  lemma NoObject(r: Reader, ltype: Text, z: Text, m: Mode)
    requires ReaderOk(r) && (m == Operand || m.Object?)
    requires z == [] || Stops(z[0], m != Operand)
    ensures Scan(r, ltype, z, m) == [UnknownTok]
  {
    hide ScanOperator, ScanLock;
    assert WordLen(z, true, false) == 0;
    assert z[..0] == [];
    assert ObjectAhead(r, z) == UnknownTok;
    if m == Operand {
      NoTest(r, []);
      assert Trimmed(z[..WordLen(z, false, false)]) == [];
      WordScanned(r, ltype, z);
    } else {
      assert Scan(r, ltype, z, m) == ScanObject(r, ltype, z, m.indirect);
    }
  }

  lemma {:induction false} TrimmedKeeps(s: seq<Byte>, i: nat)
    requires i < |s| && !IsSpace(s[i])
    ensures |Trimmed(s)| > i
  {
    if IsSpace(s[|s| - 1]) { TrimmedKeeps(s[..|s| - 1], i); }
  }

  /** A text that ends with a lone backslash runs on into what follows it. */
  lemma SwallowedWord(r: Reader, ltype: Text, t: Tok, z: Text, s: Text)
    requires TokReadable(r, t) && Swallows(t) && s == Spelled(ByNumber, t) + z && z != [] && Stops(z[0], false)
    ensures var f := Scan(r, ltype, s, Operand); f != [] && f[0] != t && Wordish(f[0])
  {
    hide Scan, WordTok, WordLen, Dangles, Trimmed, PairWord, FlagWord, PairBody, FlagBody, GoodName, Upper;
    var w := Spelled(ByNumber, t);
    var n := |w| + WordLen(z, false, true);
    SwallowingWord(r, t);
    WordLenOver(w, z, false, false);
    SwallowsOne(z);
    assert s[..n][|w|] == z[0];
    TrimmedKeeps(s[..n], |w|);
    var u := Trimmed(s[..n]);
    var y: Text := u[|w|..];
    assert u == w + y by { assert u <= s[..n]; }
    LongerWord(r, t, y);
    WordScanned(r, ltype, s);
  }

  lemma SwallowsOne(z: Text)
    requires z != []
    ensures 0 < WordLen(z, false, true) <= |z|
  {
  }

  lemma SwallowingWord(r: Reader, t: Tok)
    requires TokReadable(r, t) && Swallows(t)
    ensures var w := Spelled(ByNumber, t);
            OneWord(w, false, false) && w != [] && NoMark(w) && w[0] != OPEN && !IsSpace(w[0])
    ensures (t.PairTok? ==> t.pair == Atr) && (t.FlagTok? ==> Preserved(t.flag))
  {
    hide WordLen, Dangles, PairWord, FlagWord, PairBody, FlagBody, GoodName, Upper;
    match t
    case PairTok(k, name, text) =>
      PairBodyWord(k, text);
      PairWordOne(name, Separator(k), PairBody(k, text));
    case FlagTok(k, text) =>
      FlagBodyWord(k, text);
      FlagWordOne(k, FlagBody(k, text));
  }

  /** Behind the text of a test there is more text of that test. */
  lemma LongerWord(r: Reader, t: Tok, y: Text)
    requires TokReadable(r, t) && y != [] && (t.PairTok? || t.FlagTok?)
    requires (t.PairTok? ==> t.pair == Atr) && (t.FlagTok? ==> Preserved(t.flag))
    ensures var w: Text := Spelled(ByNumber, t) + y;
            WordTok(r, w).Some? && WordTok(r, w).value != t && Wordish(WordTok(r, w).value) &&
            WordTok(r, w).value != UnknownTok
  {
    hide WordTok, GoodName, Upper, Escaped, FlagName;
    var w: Text := Spelled(ByNumber, t) + y;
    var body: Text := t.text + y;
    match t
    case PairTok(k, name, text) =>
      assert w == PairWord(name, ATR, body);
      PairRead(r, k, name, body);
    case FlagTok(k, text) =>
      assert w == FlagWord(k, body);
      FlagRead(r, k, body);
      assert |Upper(body)| > |text|;
  }

  lemma NothingMore(r: Reader, ltype: Text)
    ensures Scan(r, ltype, [], Operator) == []
  {
    assert Scan(r, ltype, [], Operator) == ScanOperator(r, ltype, []);
  }

  lemma {:induction false} SeparatorPrefix(s: seq<Byte>, n: nat, c: Byte, escaped: bool)
    requires n <= |s| && SeparatorAt(s, c, escaped) >= n
    ensures SeparatorAt(s[..n], c, escaped) == n
  {
    if n > 0 {
      assert s[..n][1..] == s[1..][..n - 1];
      SeparatorPrefix(s[1..], n - 1, c, !escaped && s[0] == BACKSLASH);
    }
  }

  lemma {:induction false} SeparatorFirst(s: seq<Byte>, n: nat, c: Byte, escaped: bool)
    requires n <= |s| && SeparatorAt(s, c, escaped) < n
    ensures SeparatorAt(s[..n], c, escaped) == SeparatorAt(s, c, escaped)
  {
    if SeparatorAt(s, c, escaped) > 0 {
      assert s[..n][1..] == s[1..][..n - 1];
      SeparatorFirst(s[1..], n - 1, c, !escaped && s[0] == BACKSLASH);
    }
  }

  /** No part of a printed test is read as an objid. */
  lemma PairNoObjid(r: Reader, name: Text, c: Byte, body: Text, n: nat)
    requires GoodName(name) && (c == ATR || c == EVAL) && n <= |PairWord(name, c, body)|
    ensures var p := TestAtr(PairWord(name, c, body)[..n], FLAG); p.Parted? ==> p.name != OBJID
  {
    hide Escaped, GoodName, SeparatorAt, Upper, Unescaped, FlagNamed;
    var a, w := Escaped(name), PairWord(name, c, body);
    EscapedWord(name, false, FLAG);
    SeparatorOver(a, [c] + body, FLAG, false);
    SeparatorSkips(c, body, FLAG);
    assert w == a + ([c] + body);
    var at := SeparatorAt(w, FLAG, false);
    if at >= n {
      SeparatorPrefix(w, n, FLAG, false);
    } else {
      SeparatorFirst(w, n, FLAG, false);
      var m := at - |a| - 1;
      assert w[..n][..at] == a + ([c] + body[..m]);
      UnescapedAppend(a, [c] + body[..m], false);
      UnescapedSkips(c, body[..m]);
      var u := Unescaped(w[..n][..at], false);
      assert u[|name|] == c;
      assert Upper(u)[|name|] == c;
      NotInObjid(c);
    }
  }

  lemma NotInObjid(c: Byte)
    requires c == ATR || c == EVAL
    ensures c !in OBJID
  {
  }

  lemma FlagNoObjid(k: FlagKind, body: Text, n: nat)
    requires n <= |FlagWord(k, body)|
    ensures var p := TestAtr(FlagWord(k, body)[..n], FLAG); p.Parted? ==> p.name != OBJID
  {
    hide FlagName, SeparatorAt, Upper, Unescaped, FlagNamed, GoodName;
    var a, w := FlagName(k), FlagWord(k, body);
    FlagNamePlain(k);
    PlainWord(a, false, FLAG);
    SeparatorOver(a, [FLAG] + body, FLAG, false);
    SeparatorHere(FLAG, body);
    assert w == a + ([FLAG] + body);
    if |a| >= n {
      SeparatorPrefix(w, n, FLAG, false);
    } else {
      SeparatorFirst(w, n, FLAG, false);
      assert w[..n][..|a|] == a;
    }
  }

  lemma WordNoObjid(r: Reader, t: Tok, n: nat)
    requires TokReadable(r, t) && (t.PairTok? || t.FlagTok?) && n <= |Spelled(ByNumber, t)|
    ensures var w := WordTok(r, Spelled(ByNumber, t)[..n]); w.Some? ==> !w.value.ObjidTok?
  {
    hide TestAtr, PairWord, FlagWord, GoodName, Upper;
    match t
    case PairTok(k, name, text) => PairNoObjid(r, name, Separator(k), PairBody(k, text), n);
    case FlagTok(k, text) => FlagNoObjid(k, FlagBody(k, text), n);
  }

  lemma PrintedWord(r: Reader, t: Tok)
    requires TokReadable(r, t) && (t.PairTok? || t.FlagTok?)
    ensures var w := Spelled(ByNumber, t);
            OneWord(w, false, false) && w != [] && NoMark(w) && w[0] != OPEN && !IsSpace(w[0])
  {
    hide WordLen, Dangles, PairWord, FlagWord, PairBody, FlagBody, GoodName, Upper;
    match t
    case PairTok(k, name, text) =>
      PairBodyWord(k, text);
      PairWordOne(name, Separator(k), PairBody(k, text));
    case FlagTok(k, text) =>
      FlagBodyWord(k, text);
      FlagWordOne(k, FlagBody(k, text));
  }

  /** The part of a printed test that there was room for is one word. */
  lemma CutScan(r: Reader, ltype: Text, t: Tok, n: nat)
    requires TokReadable(r, t) && (t.PairTok? || t.FlagTok?) && 0 < n <= |Spelled(ByNumber, t)|
    ensures var v := Spelled(ByNumber, t)[..n]; var f := Scan(r, ltype, v, Operand);
            match WordTok(r, Trimmed(v))
            case Some(x) => f == [x]
            case None => |f| > 0 && (f[0].NameTok? || f[0].TruthTok? || f[0].UnknownTok?)
  {
    hide Scan, WordTok, WordLen, Trimmed, Spelled, ObjectAhead;
    var w := Spelled(ByNumber, t);
    var v: Text := w[..n];
    PrintedWord(r, t);
    OneWordPrefix(w, n, false, false);
    WordScanned(r, ltype, v);
    assert v[..|v|] == v && v[|v|..] == [];
    NothingMore(r, ltype);
  }

  /** The part of a printed test that there was room for. */
  lemma CutTest(r: Reader, ltype: Text, t: Tok, n: nat)
    requires TokReadable(r, t) && (t.PairTok? || t.FlagTok?) && 0 < n <= |Spelled(ByNumber, t)|
    ensures var f := Scan(r, ltype, Spelled(ByNumber, t)[..n], Operand);
            f != [] && Wordish(f[0]) && (f[0] == t ==> f == [t])
  {
    hide Scan, WordTok, Trimmed, Spelled, TokReadable;
    var w := Spelled(ByNumber, t);
    var u := Trimmed(w[..n]);
    assert u == w[..|u|] by { assert u <= w[..n] <= w; }
    CutScan(r, ltype, t, n);
    WordNoObjid(r, t, |u|);
  }

  lemma TruthPart(r: Reader, v: bool, n: nat)
    requires 0 < n <= |Spelled(ByNumber, TruthTok(v))|
    ensures var u := Spelled(ByNumber, TruthTok(v))[..n];
            Plain(u) && NoMark(u) && u[0] == HASH && (ObjectTok(r, u) == TruthTok(v) <==> n >= 2)
  {
    assert Plain(TRUE_TEXT) && Plain(FALSE_TEXT);
  }

  /** The part of #TRUE or #FALSE that there was room for: from `#T` or `#F` on it says as much as the whole. */
  lemma CutTruth(r: Reader, ltype: Text, v: bool, n: nat)
    requires 0 < n <= |Spelled(ByNumber, TruthTok(v))|
    ensures var f := Scan(r, ltype, Spelled(ByNumber, TruthTok(v))[..n], Operand);
            |f| == 1 && Wordish(f[0]) && (f[0] == TruthTok(v) <==> n >= 2)
  {
    hide Scan, WordTok, WordLen, ObjectTok, Plain, Trimmed, Unescaped, NoMark, Spelled, Dangles, SeparatorAt;
    var u: Text := Spelled(ByNumber, TruthTok(v))[..n];
    TruthPart(r, v, n);
    PlainNoTest(r, u);
    PlainWord(u, true, ATR);
    PlainWord(u, false, ATR);
    WordScanned(r, ltype, u);
    assert u[..|u|] == u && u[|u|..] == [];
    NothingMore(r, ltype);
  }

  /** The part of the name of a lock that there was room for: whatever is there says, shorter, another name. */
  lemma CutLock(r: Reader, ltype: Text, lock: Text, n: nat)
    requires ReaderOk(r) && n < |Spelled(ByNumber, SlashTok(lock))|
    ensures var f := Scan(r, ltype, Spelled(ByNumber, SlashTok(lock))[..n], LockName);
            |f| == 1 && Wordish(f[0]) && (f[0] == SlashTok(lock) <==> n == 0 && ltype == lock)
  {
    hide ScanLock, Escaped, Scan, Spelled, ReaderOk;
    var v: Text := Spelled(ByNumber, SlashTok(lock))[..n];
    LockMode(r, ltype, v);
    if n > 0 {
      NothingMore(r, ltype);
      EscapedWord(lock, false, ATR);
      SlashPart(lock, n);
      OneWordPrefix(Escaped(lock), n - 1, false, false);
      UnescapedShorter(lock, n - 1);
      ShortLock(r, ltype, Escaped(lock)[..n - 1], |lock|);
    } else {
      NoLock(r, ltype);
    }
  }

  lemma SlashPart(lock: Text, n: nat)
    requires 0 < n < |Spelled(ByNumber, SlashTok(lock))|
    ensures n - 1 < |Escaped(lock)| && Spelled(ByNumber, SlashTok(lock))[..n] == [EVAL] + Escaped(lock)[..n - 1]
  {
  }

  lemma NoLock(r: Reader, ltype: Text)
    ensures ScanLock(r, ltype, []) == [SlashTok(ltype)]
  {
    NothingMore(r, ltype);
  }

  lemma ShortLock(r: Reader, ltype: Text, x: Text, n: nat)
    requires ReaderOk(r) && OneWord(x, false, false) && |Unescaped(x, false)| < n && Scan(r, ltype, [], Operator) == []
    ensures var s: Text := [EVAL] + x; var f := ScanLock(r, ltype, s);
            |f| == 1 && Wordish(f[0]) && (f[0].SlashTok? ==> |f[0].lock| < n)
  {
    hide WordLen, Unescaped, Trimmed, GoodName, ScanOperator;
    var s: Text := [EVAL] + x;
    assert s[1..] == x && x[..|x|] == x && x[|x|..] == [];
    LockLength(r, Upper(Trimmed(Unescaped(x, false))));
  }

  lemma {:induction false} UnescapedShorter(s: Text, n: nat)
    requires n < |Escaped(s)|
    ensures |Unescaped(Escaped(s)[..n], false)| < |s|
  {
    var a, b := EscapedByte(s[0]), Escaped(s[1..]);
    if n >= |a| {
      UnescapedShorter(s[1..], n - |a|);
      EscapedByteWord(s[0], false, ATR);
      assert Escaped(s)[..n] == a + b[..n - |a|];
      UnescapedAppend(a, b[..n - |a|], false);
    } else if n == 1 {
      assert Escaped(s)[..n] == [BACKSLASH] && [BACKSLASH][1..] == [];
    }
  }
}

/**
 Locks as players type them, character by character: which sign means what, and what a lock that was typed means when
 it is passed.
 */
module LockSource {
  import opened Basics
  import opened MachineInts
  import opened LockLanguage
  import opened LockAssembler
  import opened LockScanner
  import opened LockText
  import opened LockSpelling
  import opened LockReading
  import opened LockDecompiler
  import opened LockRoundTrip
  import opened LockTyped

  // ----- characters -----

  /** The bytes of a literal. */
  function Ascii(s: string): (t: Text)
    requires forall i :: 0 <= i < |s| ==> 0 < s[i] as int < 128
    ensures |t| == |s| && forall i :: 0 <= i < |s| ==> t[i] == s[i] as int
  {
    if s == [] then [] else
      var t: Text := [s[0] as int] + Ascii(s[1..]);
      t
  }

  predicate Spaces(s: Text) {
    forall i :: 0 <= i < |s| ==> s[i] == ' ' as int || 9 <= s[i] <= 13
  }

  predicate PlainByte(c: Byte) {
    '0' as int <= c <= '9' as int || 'A' as int <= c <= 'Z' as int || 'a' as int <= c <= 'z' as int || c == '_' as int
  }

  predicate PlainText(s: Text) {
    s != [] && forall i :: 0 <= i < |s| ==> PlainByte(s[i])
  }

  predicate NoSmall(s: Text) {
    forall i :: 0 <= i < |s| ==> !('a' as int <= s[i] <= 'z' as int)
  }

  /** Small letters for capital ones. */
  function Small(s: Text): (t: Text)
    ensures |t| == |s|
    ensures forall i :: 0 <= i < |s| ==> t[i] == if 'A' as int <= s[i] <= 'Z' as int then s[i] + 32 else s[i]
  {
    if s == [] then [] else
      var t: Text := [if 'A' as int <= s[0] <= 'Z' as int then s[0] + 32 else s[0]] + Small(s[1..]);
      t
  }

  predicate Special(c: Byte) {
    c == '\\' as int || c == '!' as int || c == '&' as int || c == '|' as int || c == ')' as int || c == '@' as int ||
    c == '+' as int || c == '=' as int || c == '$' as int || c == ':' as int || c == '/' as int || c == '^' as int
  }

  /** A backslash in front of every character that means something. */
  function Quoted(s: Text): (t: Text)
    ensures s != [] ==> t != [] && t[0] == if Special(s[0]) then '\\' as int else s[0]
  {
    if s == [] then [] else
      var t: Text := (if Special(s[0]) then ['\\' as int, s[0]] else [s[0]]) + Quoted(s[1..]);
      t
  }

  function Digits(n: nat): (s: Text) {
    var last: Text := ['0' as int + n % 10];
    if n < 10 then last else
      var s: Text := Digits(n / 10) + last;
      s
  }

  /** The number of an object. */
  function Hashed(d: Dbref): (s: Text) {
    var s: Text := Ascii("#") + (if d < 0 then Ascii("-") + Digits(-d) else Digits(d));
    s
  }

  // ----- locks -----

  /** How somebody types: what is typed for an object, small letters or capital ones, and the space between words. */
  datatype Style = Style(name: Dbref -> Text, small: bool, gap: Text)

  function Cased(how: Style, s: Text): Text { if how.small then Small(s) else s }

  function KindSource(k: FlagKind): Text {
    match k
    case FlagLock => Ascii("FLAG")
    case TypeLock => Ascii("TYPE")
    case NameLock => Ascii("NAME")
    case PowerLock => Ascii("POWER")
    case ChannelLock => Ascii("CHANNEL")
    case IpLock => Ascii("IP")
    case HostnameLock => Ascii("HOSTNAME")
    case DbrefListLock => Ascii("DBREFLIST")
  }

  function Joined(a: Text, b: Text): (s: Text)
    ensures s == a + b
  {
    var s: Text := a + b;
    s
  }

  function Thing(how: Style, d: Dbref): Text { Joined(Quoted(how.name(d)), how.gap) }

  function Test(how: Style, name: Text, sign: Text, text: Text): Text {
    Joined(Cased(how, name), Joined(sign, Joined(text, how.gap)))
  }

  function Atom(how: Style, e: Expr): Text
    requires !e.And? && !e.Or? && !e.Not?
  {
    match e
    case Bool(v) => Joined(Cased(how, if v then Ascii("#TRUE") else Ascii("#FALSE")), how.gap)
    case Ref(Const, d) => Thing(how, d)
    case Ref(Is, d) => Joined(Ascii("="), Thing(how, d))
    case Ref(Carry, d) => Joined(Ascii("+"), Thing(how, d))
    case Ref(Owner, d) => Joined(Ascii("$"), Thing(how, d))
    case Ind(d, lock) =>
      Joined(Ascii("@"), Joined(Thing(how, d), Joined(Ascii("/"), Joined(Cased(how, lock), how.gap))))
    case Pair(Atr, name, text) => Test(how, name, Ascii(":"), text)
    case Pair(Eval, name, text) => Test(how, name, Ascii("/"), text)
    case Flag(k, text) => Test(how, KindSource(k), Ascii("^"), Cased(how, text))
  }

  /** The text of a lock where operators bind at least this tightly: `|` binds loosest, then `&`, then `!`. */
  function Source(how: Style, e: Expr, level: nat): Text {
    match e
    case Or(a, b) => Enclosed(how, level > 0, Joined(Source(how, a, 0), Joined(Ascii("|"), Source(how, b, 0))))
    case And(a, b) => Enclosed(how, level > 1, Joined(Source(how, a, 1), Joined(Ascii("&"), Source(how, b, 1))))
    case Not(n) => Joined(how.gap, Joined(Ascii("!"), Source(how, n, 2)))
    case _ => Joined(how.gap, Atom(how, e))
  }

  function Enclosed(how: Style, parens: bool, s: Text): Text {
    if parens then Joined(how.gap, Joined(Ascii("("), Joined(s, Joined(Ascii(")"), how.gap)))) else s
  }

  /** What is typed for the object is found by the game, or while a database is loaded is its number. */
  predicate Finds(r: Reader, name: Text, d: Dbref) {
    name != [] && name[0] != '(' as int && !Spaces([name[0]]) && !Spaces([name[|name| - 1]]) &&
    !(|name| >= 2 && name[0] == '#' as int && name[1] in Ascii("tTfF")) &&
    if r.Playing? then r.found(name) == Some(d) else name == Hashed(d) && IsInt(d)
  }

  /** A lock of plain words. Lock names are in the form the table gives them. */
  predicate Typable(r: Reader, how: Style, e: Expr) {
    match e
    case And(a, b) => Typable(r, how, a) && Typable(r, how, b)
    case Or(a, b) => Typable(r, how, a) && Typable(r, how, b)
    case Not(n) => Typable(r, how, n)
    case Bool(_) => true
    case Ref(_, d) => Finds(r, how.name(d), d)
    case Ind(d, lock) =>
      Finds(r, how.name(d), d) && PlainText(lock) && |lock| <= 1024 &&
      (match r.locks(Upper(lock)) case Some(proper) => proper == lock case None => NoSmall(lock))
    case Pair(_, name, text) => PlainText(name) && NoSmall(name) && |name| <= 1024 && PlainText(text)
    case Flag(_, text) => PlainText(text) && NoSmall(text)
  }

  // ----- words -----

  lemma {:induction false} QuotedIsEscaped(s: Text)
    ensures Quoted(s) == Escaped(s)
  {
    if s != [] { QuotedIsEscaped(s[1..]); }
  }

  lemma {:induction false} DigitsDecimal(n: nat)
    ensures Digits(n) == Decimal(n)
    decreases n
  {
    if n >= 10 { DigitsDecimal(n / 10); }
  }

  lemma HashedNumber(d: Dbref)
    ensures Hashed(d) == ObjectText(ByNumber, d)
  {
    DigitsDecimal(if d < 0 then -d else d);
  }

  lemma SmallUpper(how: Style, s: Text)
    ensures Upper(Cased(how, s)) == Upper(s)
  {
  }

  lemma NoSmallUpper(s: Text)
    requires NoSmall(s)
    ensures Upper(s) == s
  {
  }

  lemma CasedPlain(how: Style, s: Text)
    requires PlainText(s)
    ensures PlainText(Cased(how, s))
  {
  }

  lemma PlainIs(c: Byte)
    requires PlainByte(c)
    ensures c != BACKSLASH && !NeedsEscape(c) && !IsSpace(c) && c != OPEN && c != NOT && c != AT && c != IS &&
            c != IN && c != OWNER
    ensures NameByte(UpperByte(c)) && UpperByte(c) != 96
  {
  }

  lemma PlainFacts(s: Text)
    requires PlainText(s)
    ensures Plain(s) && s != [] && NoMark(s) && s[0] != OPEN && !IsSpace(s[0]) && !IsSpace(s[|s| - 1])
  {
    hide PlainByte, NeedsEscape, IsSpace;
    forall i | 0 <= i < |s| ensures s[i] != BACKSLASH && !NeedsEscape(s[i]) && !IsSpace(s[i]) && s[i] != OPEN {
      PlainIs(s[i]);
    }
    PlainIs(s[0]);
    PlainIs(s[|s| - 1]);
  }

  lemma PlainName(s: Text)
    requires PlainText(s) && |s| <= 1024
    ensures GoodName(Upper(s))
  {
    hide PlainByte, NameByte, UpperByte;
    var u := Upper(s);
    forall i | 0 <= i < |s| ensures NameByte(u[i]) && u[i] != 96 {
      PlainIs(s[i]);
    }
  }

  /** Space in front of a lock means nothing. */
  lemma {:induction false} SpaceInFront(r: Reader, ltype: Text, gap: Text, s: Text, m: Mode)
    requires Spaces(gap) && (m == Operand || m == Operator)
    ensures Scan(r, ltype, Joined(gap, s), m) == Scan(r, ltype, s, m)
  {
    hide ScanOperand, ScanOperator;
    if gap == [] {
      assert gap + s == s;
    } else {
      assert (gap + s)[1..] == gap[1..] + s;
      SpaceInFront(r, ltype, gap[1..], s, m);
      assert SkipSpace(gap + s) == SkipSpace(gap[1..] + s);
    }
  }

  lemma {:induction false} SpaceTrimmed(w: seq<Byte>, gap: Text)
    requires Spaces(gap) && (w != [] ==> !IsSpace(w[|w| - 1]))
    ensures Trimmed(w + gap) == w
  {
    if gap == [] {
      assert w + gap == w;
    } else {
      assert (w + gap)[..|w + gap| - 1] == w + gap[..|gap| - 1];
      SpaceTrimmed(w, gap[..|gap| - 1]);
    }
  }

  lemma {:induction false} SpaceWord(gap: Text, slash: bool)
    requires Spaces(gap)
    ensures OneWord(gap, slash, false) && !Dangles(gap, false) && Unescaped(gap, false) == gap
  {
    if gap != [] { SpaceWord(gap[1..], slash); }
  }

  /** A word with space behind it, up to what ends it. */
  lemma WordAndSpace(w: Text, gap: Text, z: Text, slash: bool, s: Text)
    requires Spaces(gap) && OneWord(w, slash, false) && !Dangles(w, false) && w != [] && !IsSpace(w[|w| - 1])
    requires s == w + gap + z && (z == [] || Stops(z[0], slash))
    ensures var n := WordLen(s, slash, false); s[..n] == w + gap && s[n..] == z && Trimmed(s[..n]) == w
    ensures Unescaped(w + gap, false) == Unescaped(w, false) + gap
  {
    hide WordLen, Dangles, Unescaped, Trimmed;
    SpaceWord(gap, slash);
    OneWordAppend(w, gap, slash, false);
    WordLenEnds(w + gap, z, slash);
    SpaceTrimmed(w, gap);
    UnescapedAppend(w, gap, false);
  }

  // ----- objects -----

  lemma NameFound(r: Reader, name: Text, d: Dbref)
    requires Finds(r, name, d)
    ensures ObjectTok(r, name) == NameTok(d)
  {
    if r.Loading? {
      HashedNumber(d);
      NumberRead(r.locks, d);
      ObjectPlain(d);
    }
  }

  /** What is typed where an object should be, or where an operand starts and it is no test. */
  lemma ScanName(r: Reader, ltype: Text, name: Text, gap: Text, z: Text, s: Text, m: Mode)
    requires name != [] && name[0] != OPEN && !IsSpace(name[0]) && !IsSpace(name[|name| - 1]) && Spaces(gap)
    requires s == Quoted(name) + gap + z && (m == Operand || m.Object?) && ObjectTok(r, name) != UnknownTok
    requires z == [] || Stops(z[0], m != Operand)
    ensures Scan(r, ltype, s, m) ==
            [ObjectTok(r, name)] + Scan(r, ltype, z, if m == Object(true) then LockName else Operator)
  {
    hide WordTok, WordLen, ObjectTok, Dangles, Unescaped, Trimmed, SeparatorAt, Scan;
    var w := Quoted(name);
    QuotedIsEscaped(name);
    EscapedWord(name, true, ATR);
    QuotedEnd(name);
    WordAndSpace(w, gap, z, true, s);
    SpaceTrimmed(name, gap);
    assert ObjectAhead(r, s) == ObjectTok(r, name);
    if m == Operand {
      QuotedNoTest(r, name);
      EscapedWord(name, false, ATR);
      WordAndSpace(w, gap, z, false, s);
      WordScanned(r, ltype, s);
    } else {
      ObjectMode(r, ltype, s, m.indirect);
    }
  }

  lemma {:induction false} QuotedEnd(name: Text)
    requires name != []
    ensures Quoted(name) != [] && Quoted(name)[|Quoted(name)| - 1] == name[|name| - 1]
  {
    if |name| > 1 { QuotedEnd(name[1..]); }
  }

  lemma QuotedNoTest(r: Reader, name: Text)
    ensures WordTok(r, Quoted(name)) == None
  {
    QuotedIsEscaped(name);
    EscapedWord(name, false, ATR);
    EscapedWord(name, false, EVAL);
    EscapedWord(name, false, FLAG);
    NoTest(r, Quoted(name));
  }

  // ----- tests -----

  predicate IsSign(c: Byte) { c == ATR || c == EVAL || c == FLAG }

  lemma SignFound(a: Text, c: Byte, b: Text, d: Byte)
    requires Plain(a) && Plain(b) && IsSign(c) && IsSign(d)
    ensures SeparatorAt(a + [c] + b, d, false) == if c == d then |a| else |a| + 1 + |b|
  {
    hide Plain, SeparatorAt;
    PlainWord(a, false, d);
    PlainWord(b, false, d);
    SeparatorOver(a, [c] + b, d, false);
    assert a + [c] + b == a + ([c] + b);
    if c == d { SeparatorHere(c, b); } else { SeparatorSkips(c, b, d); }
  }

  lemma SignParts(a: Text, c: Byte, b: Text, w: Text, d: Byte)
    requires PlainText(a) && PlainText(b) && |a| <= 1024 && IsSign(c) && IsSign(d) && w == a + [c] + b
    requires c == FLAG ==> FlagNamed(Upper(a)).Some?
    ensures TestAtr(w, d) == if c == d then Parted(Upper(a), b) else Whole
  {
    hide SeparatorAt, Plain, PlainText, TestAtr, FlagNamed, Upper, NoMark;
    PlainFacts(a);
    PlainFacts(b);
    SignFound(a, c, b, d);
    if c == d { SignHere(a, c, b, w); } else { NoSeparator(w, d); }
  }

  lemma SignHere(a: Text, c: Byte, b: Text, w: Text)
    requires PlainText(a) && b != [] && |a| <= 1024 && IsSign(c) && w == a + [c] + b
    requires SeparatorAt(w, c, false) == |a| && (c == FLAG ==> FlagNamed(Upper(a)).Some?)
    ensures TestAtr(w, c) == Parted(Upper(a), b)
  {
    hide SeparatorAt, Plain, GoodName, Unescaped, FlagNamed, Upper, PlainText, NoMark;
    PlainFacts(a);
    PlainName(a);
    PlainWord(a, false, ATR);
    assert w[..|a|] == a && w[|a| + 1..] == b;
  }

  /** A test of plain words where an operand starts. */
  lemma ScanTest(r: Reader, ltype: Text, a: Text, c: Byte, b: Text, gap: Text, z: Text, s: Text)
    requires PlainText(a) && PlainText(b) && |a| <= 1024 && IsSign(c) && Spaces(gap) && s == a + [c] + b + gap + z
    requires c == FLAG ==> FlagNamed(Upper(a)).Some? && Upper(a) != OBJID
    requires z == [] || Stops(z[0], false)
    ensures Scan(r, ltype, s, Operand) ==
            [if c == FLAG then FlagTok(FlagNamed(Upper(a)).value, Upper(b))
             else PairTok(if c == ATR then Atr else Eval, Upper(a), b)] + Scan(r, ltype, z, Operator)
  {
    hide WordLen, Dangles, Trimmed, Unescaped, Scan, TestAtr, FlagNamed, Upper, PlainText, Plain;
    var w: Text := a + [c] + b;
    PlainFacts(a);
    PlainFacts(b);
    SignWord(a, c, b);
    WordAndSpace(w, gap, z, false, s);
    SignParts(a, c, b, w, ATR);
    SignParts(a, c, b, w, EVAL);
    SignParts(a, c, b, w, FLAG);
    WordScanned(r, ltype, s);
  }

  lemma SignWord(a: Text, c: Byte, b: Text)
    requires Plain(a) && Plain(b) && IsSign(c)
    ensures OneWord(a + [c] + b, false, false) && !Dangles(a + [c] + b, false)
  {
    hide Plain;
    PlainWord(a, false, ATR);
    PlainWord(b, false, ATR);
    OneWordAppend(a, [c], false, false);
    OneWordAppend(a + [c], b, false, false);
    assert [c][1..] == [];
  }

  lemma KindKnown(k: FlagKind)
    ensures KindSource(k) == FlagName(k)
  {
    hide Ascii;
    match k
    case FlagLock => case TypeLock => case NameLock => case PowerLock =>
    case ChannelLock => case IpLock => case HostnameLock => case DbrefListLock =>
  }

  lemma KindPlain(k: FlagKind)
    ensures PlainText(KindSource(k)) && |KindSource(k)| <= 1024
  {
    hide KindSource, FlagName;
    KindKnown(k);
    FlagNameLetters(k);
  }

  lemma PairSource(how: Style, k: PairKind, name: Text, text: Text)
    ensures Atom(how, Pair(k, name, text)) == Cased(how, name) + [if k == Atr then ATR else EVAL] + text + how.gap
  {
    hide Cased;
    SignTexts();
  }

  lemma ScanPair(r: Reader, ltype: Text, how: Style, k: PairKind, name: Text, text: Text, z: Text)
    requires Typable(r, how, Pair(k, name, text)) && Spaces(how.gap) && (z == [] || Stops(z[0], false))
    ensures Scan(r, ltype, Joined(Atom(how, Pair(k, name, text)), z), Operand) ==
            [PairTok(k, name, text)] + Scan(r, ltype, z, Operator)
  {
    hide Scan, Upper, PlainText, NoSmall, Spaces, Cased, Atom;
    var a, c := Cased(how, name), if k == Atr then ATR else EVAL;
    PairSource(how, k, name, text);
    CasedPlain(how, name);
    SmallUpper(how, name);
    NoSmallUpper(name);
    ScanTest(r, ltype, a, c, text, how.gap, z, Joined(Atom(how, Pair(k, name, text)), z));
  }

  lemma SignTexts()
    ensures Ascii(":") == [ATR] && Ascii("/") == [EVAL] && Ascii("^") == [FLAG]
    ensures Ascii("!") == [NOT] && Ascii("&") == [AND] && Ascii("|") == [OR] && Ascii("(") == [OPEN]
    ensures Ascii(")") == [CLOSE] && Ascii("@") == [AT] && Ascii("=") == [IS] && Ascii("+") == [IN]
    ensures Ascii("$") == [OWNER]
  {
  }

  lemma ScanFlag(r: Reader, ltype: Text, how: Style, k: FlagKind, text: Text, z: Text)
    requires Typable(r, how, Flag(k, text)) && Spaces(how.gap) && (z == [] || Stops(z[0], false))
    ensures Scan(r, ltype, Joined(Atom(how, Flag(k, text)), z), Operand) ==
            [FlagTok(k, text)] + Scan(r, ltype, z, Operator)
  {
    hide Scan, Upper, PlainText, NoSmall, Spaces, Cased, KindSource, FlagName, FlagNamed;
    var name, b := KindSource(k), Cased(how, text);
    SignTexts();
    KindKnown(k);
    KindPlain(k);
    FlagNamePlain(k);
    CasedPlain(how, name);
    CasedPlain(how, text);
    SmallUpper(how, name);
    SmallUpper(how, text);
    NoSmallUpper(text);
    ScanTest(r, ltype, Cased(how, name), FLAG, b, how.gap, z, Joined(Atom(how, Flag(k, text)), z));
  }

  lemma ScanTruth(r: Reader, ltype: Text, how: Style, v: bool, z: Text)
    requires Spaces(how.gap) && (z == [] || Stops(z[0], false))
    ensures Scan(r, ltype, Joined(Atom(how, Bool(v)), z), Operand) == [TruthTok(v)] + Scan(r, ltype, z, Operator)
  {
    hide Scan, Spaces, Quoted, Ascii, Cased;
    var name := Cased(how, if v then Ascii("#TRUE") else Ascii("#FALSE"));
    TruthWord(r, how, v);
    NothingQuoted(name);
    ScanName(r, ltype, name, how.gap, z, Joined(Atom(how, Bool(v)), z), Operand);
  }

  lemma TruthWord(r: Reader, how: Style, v: bool)
    ensures var name := Cased(how, if v then Ascii("#TRUE") else Ascii("#FALSE"));
            |name| >= 5 && name[0] == 35 && !IsSpace(name[|name| - 1]) &&
            (forall i :: 0 <= i < |name| ==> !Special(name[i])) && ObjectTok(r, name) == TruthTok(v)
  {
    hide Ascii;
    if v {
    } else {
    }
  }

  lemma {:induction false} NothingQuoted(s: Text)
    requires forall i :: 0 <= i < |s| ==> !Special(s[i])
    ensures Quoted(s) == s
  {
    if s != [] { NothingQuoted(s[1..]); }
  }

  lemma ScanThing(r: Reader, ltype: Text, how: Style, d: Dbref, z: Text, m: Mode)
    requires Finds(r, how.name(d), d) && Spaces(how.gap) && (m == Operand || m.Object?)
    requires z == [] || Stops(z[0], m != Operand)
    ensures Scan(r, ltype, Joined(Thing(how, d), z), m) ==
            [NameTok(d)] + Scan(r, ltype, z, if m == Object(true) then LockName else Operator)
  {
    hide Scan, Quoted, ObjectTok;
    var name := how.name(d);
    NameFound(r, name, d);
    ScanName(r, ltype, name, how.gap, z, Joined(Thing(how, d), z), m);
  }

  lemma ScanMarked(r: Reader, ltype: Text, how: Style, mark: Tok, sign: Text, d: Dbref, z: Text, s: Text)
    requires sign == Spelled(ByNumber, mark) && (mark == EqTok || mark == PlusTok || mark == DollarTok)
    requires Finds(r, how.name(d), d) && Spaces(how.gap) && s == Joined(Joined(sign, Thing(how, d)), z)
    requires z == [] || Stops(z[0], false)
    ensures Scan(r, ltype, s, Operand) == [mark, NameTok(d)] + Scan(r, ltype, z, Operator)
  {
    hide Scan, Thing, Finds, Spaces;
    var rest := Joined(Thing(how, d), z);
    assert s == sign + rest;
    ReadSign(r, ltype, mark, rest, s, Operand);
    ScanThing(r, ltype, how, d, z, Object(false));
  }

  lemma ScanIndirect(r: Reader, ltype: Text, how: Style, d: Dbref, lock: Text, z: Text)
    requires Typable(r, how, Ind(d, lock)) && Spaces(how.gap) && (z == [] || Stops(z[0], false))
    ensures Scan(r, ltype, Joined(Atom(how, Ind(d, lock)), z), Operand) ==
            [AtTok, NameTok(d), SlashTok(lock)] + Scan(r, ltype, z, Operator)
  {
    hide Scan, Thing, Finds, Spaces, PlainText, NoSmall, Cased, Upper;
    var word := Joined(Ascii("/"), Joined(Cased(how, lock), how.gap));
    var rest := Joined(Thing(how, d), Joined(word, z));
    SignTexts();
    var s := Joined(Atom(how, Ind(d, lock)), z);
    assert s == [AT] + rest;
    ReadSign(r, ltype, AtTok, rest, s, Operand);
    ScanThing(r, ltype, how, d, Joined(word, z), Object(true));
    ScanLockName(r, ltype, how, d, lock, z);
  }

  lemma LockKept(r: Reader, how: Style, d: Dbref, lock: Text)
    requires Typable(r, how, Ind(d, lock))
    ensures PlainText(lock) && |lock| <= 1024 && LockNamed(r, Upper(lock)) == lock
  {
    hide Finds, PlainText, Upper;
    if r.locks(Upper(lock)).None? { NoSmallUpper(lock); }
  }

  lemma ScanLockName(r: Reader, ltype: Text, how: Style, d: Dbref, lock: Text, z: Text)
    requires Typable(r, how, Ind(d, lock)) && Spaces(how.gap) && (z == [] || Stops(z[0], false))
    ensures var word := Joined(Ascii("/"), Joined(Cased(how, lock), how.gap));
            Scan(r, ltype, Joined(word, z), LockName) == [SlashTok(lock)] + Scan(r, ltype, z, Operator)
  {
    hide Scan, Typable, Spaces, PlainText, Plain, Cased, Upper, WordLen, Unescaped, Trimmed, Dangles, GoodName,
         LockNamed, ScanLock, NoMark;
    var w := Cased(how, lock);
    var s := Joined(Joined(Ascii("/"), Joined(w, how.gap)), z);
    SignTexts();
    assert s == [EVAL] + (w + how.gap + z);
    LockKept(r, how, d, lock);
    CasedPlain(how, lock);
    PlainFacts(w);
    PlainName(lock);
    PlainWord(w, false, ATR);
    WordAndSpace(w, how.gap, z, false, w + how.gap + z);
    SpaceTrimmed(w, how.gap);
    SmallUpper(how, lock);
    LockMode(r, ltype, s);
    LockScanned(r, ltype, s, w + how.gap + z);
  }

  lemma ScanAtom(r: Reader, ltype: Text, how: Style, e: Expr, outer: Outer, z: Text)
    requires !e.And? && !e.Or? && !e.Not?
    requires Typable(r, how, e) && Spaces(how.gap) && (z == [] || Stops(z[0], false))
    ensures Scan(r, ltype, Joined(Atom(how, e), z), Operand) == Printed(e, outer) + Scan(r, ltype, z, Operator)
  {
    hide Scan, Finds, Spaces, PlainText, NoSmall, Cased, Upper, Thing, Test, Ascii, KindSource;
    SignTexts();
    match e
    case Bool(v) => ScanTruth(r, ltype, how, v, z);
    case Ref(Const, d) => ScanThing(r, ltype, how, d, z, Operand);
    case Ref(Is, d) => ScanMarked(r, ltype, how, EqTok, Ascii("="), d, z, Joined(Atom(how, e), z));
    case Ref(Carry, d) => ScanMarked(r, ltype, how, PlusTok, Ascii("+"), d, z, Joined(Atom(how, e), z));
    case Ref(Owner, d) => ScanMarked(r, ltype, how, DollarTok, Ascii("$"), d, z, Joined(Atom(how, e), z));
    case Ind(d, lock) => ScanIndirect(r, ltype, how, d, lock, z);
    case Pair(k, name, text) => ScanPair(r, ltype, how, k, name, text, z);
    case Flag(k, text) => ScanFlag(r, ltype, how, k, text, z);
  }

  // ----- whole locks -----

  function OuterOf(level: nat): Outer { if level == 0 then InOr else if level == 1 then InAnd else InNot }

  /** The scanner finds the words of the lock in the text that was typed. */
  lemma {:induction false} ScanSource(r: Reader, ltype: Text, how: Style, e: Expr, level: nat, z: Text)
    requires Typable(r, how, e) && Spaces(how.gap) && (z == [] || Stops(z[0], false))
    ensures Scan(r, ltype, Joined(Source(how, e, level), z), Operand) ==
            Printed(e, OuterOf(level)) + Scan(r, ltype, z, Operator)
    decreases e, 1
  {
    hide Scan, Spaces, Atom, Ascii, Source, Printed;
    match e
    case And(_, _) => ScanBinary(r, ltype, how, e, level, z);
    case Or(_, _) => ScanBinary(r, ltype, how, e, level, z);
    case Not(n) =>
      ScanSource(r, ltype, how, n, 2, z);
      ScanNegation(r, ltype, how, n, level, z);
    case _ => ScanSingle(r, ltype, how, e, level, z);
  }

  lemma ScanSingle(r: Reader, ltype: Text, how: Style, e: Expr, level: nat, z: Text)
    requires !e.And? && !e.Or? && !e.Not?
    requires Typable(r, how, e) && Spaces(how.gap) && (z == [] || Stops(z[0], false))
    ensures Scan(r, ltype, Joined(Source(how, e, level), z), Operand) ==
            Printed(e, OuterOf(level)) + Scan(r, ltype, z, Operator)
  {
    hide Scan, Spaces, Atom, Printed, Typable;
    ScanAtom(r, ltype, how, e, OuterOf(level), z);
    SpaceInFront(r, ltype, how.gap, Joined(Atom(how, e), z), Operand);
    assert Joined(Source(how, e, level), z) == Joined(how.gap, Joined(Atom(how, e), z));
  }

  lemma ScanNegation(r: Reader, ltype: Text, how: Style, n: Expr, level: nat, z: Text)
    requires Spaces(how.gap)
    requires Scan(r, ltype, Joined(Source(how, n, 2), z), Operand) == Printed(n, InNot) + Scan(r, ltype, z, Operator)
    ensures Scan(r, ltype, Joined(Source(how, Not(n), level), z), Operand) ==
            Printed(Not(n), OuterOf(level)) + Scan(r, ltype, z, Operator)
  {
    hide Scan, Spaces, Ascii, Source, Printed;
    ScanNot(r, ltype, how, Joined(Source(how, n, 2), z));
    NegationSource(how, n, level);
    PrintedNot(Not(n), OuterOf(level));
    assert Joined(how.gap, Joined(Ascii("!"), Joined(Source(how, n, 2), z))) ==
           Joined(Joined(how.gap, Joined(Ascii("!"), Source(how, n, 2))), z);
  }

  lemma NegationSource(how: Style, n: Expr, level: nat)
    ensures Source(how, Not(n), level) == Joined(how.gap, Joined(Ascii("!"), Source(how, n, 2)))
  {
  }

  lemma ScanNot(r: Reader, ltype: Text, how: Style, rest: Text)
    requires Spaces(how.gap)
    ensures Scan(r, ltype, Joined(how.gap, Joined(Ascii("!"), rest)), Operand) ==
            [NotTok] + Scan(r, ltype, rest, Operand)
  {
    hide Scan, Spaces, Ascii;
    SignTexts();
    var s := Joined(Ascii("!"), rest);
    SpaceInFront(r, ltype, how.gap, s, Operand);
    ReadSign(r, ltype, NotTok, rest, s, Operand);
  }

  function SignOf(e: Expr): Text { if e.And? then Ascii("&") else Ascii("|") }

  function InnerLevel(e: Expr): nat { if e.And? then 1 else 0 }

  function Body(how: Style, e: Expr): Text
    requires e.And? || e.Or?
  {
    Joined(Source(how, e.left, InnerLevel(e)), Joined(SignOf(e), Source(how, e.right, InnerLevel(e))))
  }

  lemma {:induction false} ScanBody(r: Reader, ltype: Text, how: Style, e: Expr, z: Text)
    requires (e.And? || e.Or?) && Typable(r, how, e) && Spaces(how.gap) && (z == [] || Stops(z[0], false))
    ensures Scan(r, ltype, Joined(Body(how, e), z), Operand) ==
            Printed(e.left, Inner(e)) + [OperatorTok(e)] + Printed(e.right, Inner(e)) + Scan(r, ltype, z, Operator)
    decreases e, 0, 0
  {
    hide Scan, Spaces, Source, Printed, Ascii;
    var right := Joined(Source(how, e.right, InnerLevel(e)), z);
    var rest := Joined(SignOf(e), right);
    SignTexts();
    ScanSource(r, ltype, how, e.left, InnerLevel(e), rest);
    ReadSign(r, ltype, OperatorTok(e), right, rest, Operator);
    ScanSource(r, ltype, how, e.right, InnerLevel(e), z);
    assert Joined(Body(how, e), z) == Joined(Source(how, e.left, InnerLevel(e)), rest);
  }

  lemma {:induction false} ScanBinary(r: Reader, ltype: Text, how: Style, e: Expr, level: nat, z: Text)
    requires (e.And? || e.Or?) && Typable(r, how, e) && Spaces(how.gap) && (z == [] || Stops(z[0], false))
    ensures Scan(r, ltype, Joined(Source(how, e, level), z), Operand) ==
            Printed(e, OuterOf(level)) + Scan(r, ltype, z, Operator)
    decreases e, 0, 1
  {
    hide Scan, Spaces, Printed, Body, Ascii;
    var parens := Parens(e, OuterOf(level));
    SourceBinary(how, e, level);
    if parens {
      PrintedInParens(e, OuterOf(level));
      ScanParens(r, ltype, how, e, z);
    } else {
      PrintedBinary(e, OuterOf(level));
      ScanBody(r, ltype, how, e, z);
    }
  }

  lemma SourceBinary(how: Style, e: Expr, level: nat)
    requires e.And? || e.Or?
    ensures Source(how, e, level) == Enclosed(how, Parens(e, OuterOf(level)), Body(how, e))
  {
  }

  lemma {:induction false} ScanParens(r: Reader, ltype: Text, how: Style, e: Expr, z: Text)
    requires (e.And? || e.Or?) && Typable(r, how, e) && Spaces(how.gap) && (z == [] || Stops(z[0], false))
    ensures Scan(r, ltype, Joined(Enclosed(how, true, Body(how, e)), z), Operand) ==
            [OpenTok] + (Printed(e.left, Inner(e)) + [OperatorTok(e)] + Printed(e.right, Inner(e))) + [CloseTok] +
            Scan(r, ltype, z, Operator)
    decreases e, 0, 1, 0
  {
    hide Scan, Spaces, Printed, Body, Ascii, Typable;
    var close := Joined(Ascii(")"), Joined(how.gap, z));
    var s := Joined(Ascii("("), Joined(Body(how, e), close));
    assert Joined(Enclosed(how, true, Body(how, e)), z) == Joined(how.gap, s);
    SpaceInFront(r, ltype, how.gap, s, Operand);
    ScanOpen(r, ltype, Joined(Body(how, e), close));
    ScanClose(r, ltype, how, z);
    ScanBody(r, ltype, how, e, close);
  }

  lemma ScanOpen(r: Reader, ltype: Text, rest: Text)
    ensures Scan(r, ltype, Joined(Ascii("("), rest), Operand) == [OpenTok] + Scan(r, ltype, rest, Operand)
  {
    hide Scan, Ascii;
    SignTexts();
    ReadSign(r, ltype, OpenTok, rest, Joined(Ascii("("), rest), Operand);
  }

  lemma ScanClose(r: Reader, ltype: Text, how: Style, z: Text)
    requires Spaces(how.gap)
    ensures var close := Joined(Ascii(")"), Joined(how.gap, z));
            Stops(close[0], false) && Scan(r, ltype, close, Operator) == [CloseTok] + Scan(r, ltype, z, Operator)
  {
    hide Scan, Ascii, Spaces;
    SignTexts();
    var behind := Joined(how.gap, z);
    ReadSign(r, ltype, CloseTok, behind, Joined(Ascii(")"), behind), Operator);
    SpaceInFront(r, ltype, how.gap, z, Operator);
  }

  /** What was typed is read as the lock it stands for. */
  lemma SourceRead(r: Reader, ltype: Text, how: Style, e: Expr)
    requires Typable(r, how, e) && Spaces(how.gap)
    ensures ReadLock(r, ltype, Source(how, e, 0)) == Some(Regrouped(e))
  {
    hide Scan, Spaces, Printed, ParseE, Source, Typable, Regrouped;
    ScanSource(r, ltype, how, e, 0, []);
    assert Joined(Source(how, e, 0), []) == Source(how, e, 0);
    NothingMore(r, ltype);
    ParsePrintedE(e, InOr, []);
  }

  /** `#t&#f` and `#t|#f`, in their bytes. */
  lemma TwoTruths(r: Reader, ltype: Text)
    ensures ReadLock(r, ltype, [35, 116, 38, 35, 102]) == Some(And(Bool(true), Bool(false)))
    ensures ReadLock(r, ltype, [35, 116, 124, 35, 102]) == Some(Or(Bool(true), Bool(false)))
  {
    hide ReadLock;
    TruthsRead(r, ltype, AndTok, And(Bool(true), Bool(false)), [35, 116, 38, 35, 102]);
    TruthsRead(r, ltype, OrTok, Or(Bool(true), Bool(false)), [35, 116, 124, 35, 102]);
  }

  lemma TruthsRead(r: Reader, ltype: Text, t: Tok, e: Expr, s: Text)
    requires t == AndTok || t == OrTok
    requires Printed(e, Top) == [TruthTok(true), t, TruthTok(false)]
    requires s == [35, 116] + Spelled(ByNumber, t) + [35, 102]
    ensures ReadLock(r, ltype, s) == Some(Regrouped(e))
  {
    hide Scan, ParseE, Printed;
    var y: Text := Spelled(ByNumber, t) + [35, 102];
    TruthBehind(r, ltype, true, y, s);
    ReadSign(r, ltype, t, [35, 102], y, Operator);
    TruthBehind(r, ltype, false, [], [35, 102]);
    NothingMore(r, ltype);
    ParsePrintedE(e, Top, []);
    assert Printed(e, Top) + [] == [TruthTok(true)] + ([t] + ([TruthTok(false)] + []));
  }

  lemma TruthBehind(r: Reader, ltype: Text, v: bool, z: Text, s: Text)
    requires (z == [] || Stops(z[0], false)) && s == [35, if v then 116 else 102] + z
    ensures Scan(r, ltype, s, Operand) == [TruthTok(v)] + Scan(r, ltype, z, Operator)
  {
    hide Scan;
    var name: Text := [35, if v then 116 else 102];
    NothingQuoted(name);
    ScanName(r, ltype, name, [], z, s, Operand);
  }

  // ----- printing -----

  predicate NothingSpecial(s: Text) {
    forall i :: 0 <= i < |s| ==> !Special(s[i])
  }

  /** How the printer shows an object: its number, `me` for the player, or its name. */
  predicate Shown(show: Show, name: Text, d: Dbref) {
    NothingSpecial(name) &&
    match show
    case ByNumber => name == Hashed(d)
    case ToPlayer(player) => name == if player == d then Ascii("me") else Hashed(d)
    case ByName(shown) => name == shown(d)
  }

  predicate Printable(show: Show, how: Style, e: Expr) {
    match e
    case And(a, b) => Printable(show, how, a) && Printable(show, how, b)
    case Or(a, b) => Printable(show, how, a) && Printable(show, how, b)
    case Not(n) => Printable(show, how, n)
    case Bool(_) => true
    case Ref(_, d) => Shown(show, how.name(d), d)
    case Ind(d, lock) => Shown(show, how.name(d), d) && NothingSpecial(lock)
    case Pair(_, name, text) => NothingSpecial(name) && NothingSpecial(text)
    case Flag(_, text) => NothingSpecial(text)
  }

  /** The printer writes capital letters and no space. */
  predicate Plainly(how: Style) { !how.small && how.gap == [] }

  lemma EscapesNothing(s: Text)
    requires NothingSpecial(s)
    ensures Escaped(s) == s
  {
    QuotedIsEscaped(s);
    NothingQuoted(s);
  }

  lemma WrittenTok(show: Show, out: seq<Byte>, t: Tok, rest: seq<Tok>)
    requires |out| + |Spelled(show, t)| <= LIMIT
    ensures Written(show, out, [t] + rest) == Written(show, out + Spelled(show, t), rest)
  {
    hide Spelled;
    assert ([t] + rest)[1..] == rest;
  }

  lemma WrittenTwo(show: Show, out: seq<Byte>, t: Tok, u: Tok, rest: seq<Tok>)
    requires |out| + |Spelled(show, t)| + |Spelled(show, u)| <= LIMIT
    ensures Written(show, out, [t, u] + rest) == Written(show, out + Spelled(show, t) + Spelled(show, u), rest)
  {
    hide Spelled, Written;
    assert [t, u] + rest == [t] + ([u] + rest);
    WrittenTok(show, out, t, [u] + rest);
    WrittenTok(show, out + Spelled(show, t), u, rest);
  }

  lemma ThingSpelled(show: Show, how: Style, d: Dbref)
    requires Plainly(how) && Shown(show, how.name(d), d)
    ensures Thing(how, d) == Spelled(show, NameTok(d))
  {
    hide Quoted;
    HashedNumber(d);
    NothingQuoted(how.name(d));
    assert how.name(d) + [] == how.name(d);
    assert Ascii("me") == [109, 101];
  }

  function TestTok(e: Expr): Tok
    requires e.Pair? || e.Flag? || e.Bool?
  {
    match e
    case Pair(k, name, text) => PairTok(k, name, text)
    case Flag(k, text) => FlagTok(k, text)
    case Bool(v) => TruthTok(v)
  }

  lemma TestSpelled(show: Show, how: Style, e: Expr)
    requires Plainly(how) && Printable(show, how, e) && (e.Pair? || e.Flag? || e.Bool?)
    ensures Atom(how, e) == Spelled(show, TestTok(e))
  {
    hide Ascii, Escaped, KindSource, FlagName, NothingSpecial;
    SignTexts();
    match e
    case Pair(k, name, text) =>
      EscapesNothing(name);
      EscapesNothing(text);
    case Flag(k, text) =>
      KindKnown(k);
      EscapesNothing(text);
    case Bool(v) => TruthSpelled(v);
  }

  lemma TruthSpelled(v: bool)
    ensures (if v then Ascii("#TRUE") else Ascii("#FALSE")) == if v then TRUE_TEXT else FALSE_TEXT
  {
    hide Ascii;
  }

  lemma TestPrinted(show: Show, how: Style, e: Expr, outer: Outer, out: seq<Byte>, rest: seq<Tok>)
    requires (e.Pair? || e.Flag? || e.Bool?) && Plainly(how) && Printable(show, how, e)
    requires |out| + |Atom(how, e)| <= LIMIT
    ensures Written(show, out, Printed(e, outer) + rest) == Written(show, out + Atom(how, e), rest)
  {
    hide Written, Atom, Spelled, Printable;
    TestSpelled(show, how, e);
    assert Printed(e, outer) == [TestTok(e)];
    WrittenTok(show, out, TestTok(e), rest);
  }

  function MarkOf(k: RefKind): Tok { if k == Is then EqTok else if k == Carry then PlusTok else DollarTok }

  lemma MarkPrinted(show: Show, how: Style, k: RefKind, d: Dbref, outer: Outer, out: seq<Byte>, rest: seq<Tok>)
    requires Plainly(how) && Shown(show, how.name(d), d) && |out| + |Atom(how, Ref(k, d))| <= LIMIT
    ensures Written(show, out, Printed(Ref(k, d), outer) + rest) == Written(show, out + Atom(how, Ref(k, d)), rest)
  {
    hide Ascii, Written, Shown, Thing, ObjectText, Plainly;
    SignTexts();
    ThingSpelled(show, how, d);
    if k == Const {
      WrittenTok(show, out, NameTok(d), rest);
    } else {
      WrittenTwo(show, out, MarkOf(k), NameTok(d), rest);
      assert out + Spelled(show, MarkOf(k)) + Thing(how, d) == out + Atom(how, Ref(k, d));
    }
  }

  lemma IndirectPrinted(show: Show, how: Style, d: Dbref, lock: Text, outer: Outer, out: seq<Byte>, rest: seq<Tok>)
    requires Plainly(how) && Printable(show, how, Ind(d, lock)) && |out| + |Atom(how, Ind(d, lock))| <= LIMIT
    ensures Written(show, out, Printed(Ind(d, lock), outer) + rest) ==
            Written(show, out + Atom(how, Ind(d, lock)), rest)
  {
    hide Spelled, Written, Atom, Printable;
    IndirectSpelled(show, how, d, lock);
    var a, b, c := Spelled(show, AtTok), Spelled(show, NameTok(d)), Spelled(show, SlashTok(lock));
    assert Printed(Ind(d, lock), outer) + rest == [AtTok, NameTok(d)] + ([SlashTok(lock)] + rest);
    WrittenTwo(show, out, AtTok, NameTok(d), [SlashTok(lock)] + rest);
    WrittenTok(show, out + a + b, SlashTok(lock), rest);
    assert out + a + b + c == out + Atom(how, Ind(d, lock));
  }

  lemma IndirectSpelled(show: Show, how: Style, d: Dbref, lock: Text)
    requires Plainly(how) && Printable(show, how, Ind(d, lock))
    ensures Atom(how, Ind(d, lock)) ==
            Spelled(show, AtTok) + Spelled(show, NameTok(d)) + Spelled(show, SlashTok(lock))
  {
    hide Ascii, Escaped, NothingSpecial, Shown, Thing, ObjectText;
    SignTexts();
    ThingSpelled(show, how, d);
    EscapesNothing(lock);
  }

  lemma AtomPrinted(show: Show, how: Style, e: Expr, outer: Outer, out: seq<Byte>, rest: seq<Tok>)
    requires !e.And? && !e.Or? && !e.Not? && Plainly(how) && Printable(show, how, e)
    requires |out| + |Atom(how, e)| <= LIMIT
    ensures Written(show, out, Printed(e, outer) + rest) == Written(show, out + Atom(how, e), rest)
  {
    hide Written, Shown, Atom, Printed;
    match e
    case Ref(k, d) => MarkPrinted(show, how, k, d, outer, out, rest);
    case Ind(d, lock) => IndirectPrinted(show, how, d, lock, outer, out, rest);
    case Bool(_) => TestPrinted(show, how, e, outer, out, rest);
    case Pair(_, _, _) => TestPrinted(show, how, e, outer, out, rest);
    case Flag(_, _) => TestPrinted(show, how, e, outer, out, rest);
  }

  /** What is printed of a lock is its text as a player would type it. */
  lemma {:induction false} SourcePrinted(show: Show, how: Style, e: Expr, level: nat, out: seq<Byte>, rest: seq<Tok>)
    requires Plainly(how) && Printable(show, how, e) && |out| + |Source(how, e, level)| <= LIMIT
    ensures Written(show, out, Printed(e, OuterOf(level)) + rest) == Written(show, out + Source(how, e, level), rest)
    decreases e, 1
  {
    hide Ascii, Written, Atom;
    var outer := OuterOf(level);
    match e
    case And(_, _) => BinaryPrinted(show, how, e, level, out, rest);
    case Or(_, _) => BinaryPrinted(show, how, e, level, out, rest);
    case Not(n) =>
      SignTexts();
      assert Printed(e, outer) + rest == [NotTok] + (Printed(n, InNot) + rest);
      WrittenTok(show, out, NotTok, Printed(n, InNot) + rest);
      SourcePrinted(show, how, n, 2, out + [NOT], rest);
      assert out + [NOT] + Source(how, n, 2) == out + Source(how, e, level);
    case _ =>
      AtomPrinted(show, how, e, outer, out, rest);
      assert Source(how, e, level) == Atom(how, e);
  }

  lemma {:induction false} BodyPrinted(show: Show, how: Style, e: Expr, out: seq<Byte>, rest: seq<Tok>)
    requires (e.And? || e.Or?) && Plainly(how) && Printable(show, how, e) && |out| + |Body(how, e)| <= LIMIT
    ensures var ts := Printed(e.left, Inner(e)) + [OperatorTok(e)] + Printed(e.right, Inner(e));
            Written(show, out, ts + rest) == Written(show, out + Body(how, e), rest)
    decreases e, 0, 0
  {
    hide Ascii, Written, Source, Printed;
    var a, b := Source(how, e.left, InnerLevel(e)), Source(how, e.right, InnerLevel(e));
    var right := Printed(e.right, Inner(e)) + rest;
    SignTexts();
    assert Printed(e.left, Inner(e)) + [OperatorTok(e)] + Printed(e.right, Inner(e)) + rest ==
           Printed(e.left, Inner(e)) + ([OperatorTok(e)] + right);
    SourcePrinted(show, how, e.left, InnerLevel(e), out, [OperatorTok(e)] + right);
    WrittenTok(show, out + a, OperatorTok(e), right);
    SourcePrinted(show, how, e.right, InnerLevel(e), out + a + SignOf(e), rest);
    assert out + a + SignOf(e) + b == out + Body(how, e);
  }

  lemma {:induction false} BinaryPrinted(show: Show, how: Style, e: Expr, level: nat, out: seq<Byte>, rest: seq<Tok>)
    requires (e.And? || e.Or?) && Plainly(how) && Printable(show, how, e)
    requires |out| + |Source(how, e, level)| <= LIMIT
    ensures Written(show, out, Printed(e, OuterOf(level)) + rest) == Written(show, out + Source(how, e, level), rest)
    decreases e, 0, 1
  {
    hide Ascii, Written, Source, Printed, Body, Printable;
    var outer := OuterOf(level);
    var ts := Printed(e.left, Inner(e)) + [OperatorTok(e)] + Printed(e.right, Inner(e));
    SourceBinary(how, e, level);
    if Parens(e, outer) {
      PrintedInParens(e, outer);
      SignTexts();
      var b := Body(how, e);
      assert Source(how, e, level) == [OPEN] + b + [CLOSE];
      assert Printed(e, outer) + rest == [OpenTok] + (ts + ([CloseTok] + rest));
      WrittenTok(show, out, OpenTok, ts + ([CloseTok] + rest));
      BodyPrinted(show, how, e, out + [OPEN], [CloseTok] + rest);
      WrittenTok(show, out + [OPEN] + b, CloseTok, rest);
      assert out + [OPEN] + b + [CLOSE] == out + Source(how, e, level);
    } else {
      PrintedBinary(e, outer);
      BodyPrinted(show, how, e, out, rest);
    }
  }

  /** Where it all fits, the text of a lock is what is printed of it. */
  lemma PrintedSource(show: Show, how: Style, e: Expr)
    requires Plainly(how) && Printable(show, how, e) && |Source(how, e, 0)| <= LIMIT
    ensures Written(show, [], Printed(e, Top)) == Source(how, e, 0)
  {
    hide Written, Printed, Source, Plainly, Printable;
    SourcePrinted(show, how, e, 0, [], []);
    SamePrinted(e);
    assert Printed(e, Top) + [] == Printed(e, Top) && [] + Source(how, e, 0) == Source(how, e, 0);
    assert Written(show, Source(how, e, 0), []) == Source(how, e, 0) by { NothingWritten(show, Source(how, e, 0)); }
  }

  lemma NothingWritten(show: Show, out: seq<Byte>)
    requires |out| <= LIMIT
    ensures Written(show, out, []) == out
  {
  }

  lemma SamePrinted(e: Expr)
    ensures Printed(e, Top) == Printed(e, InOr)
  {
  }
}

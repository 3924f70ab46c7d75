/**
 The words of a lock: how the parser finds its way through the characters. What a piece of text stands for depends on
 where it stands, so the scanner has a mode, and what names stand for is up to the reader.
 */
module LockScanner {
  import opened Basics
  import opened MachineInts
  import opened LockLanguage

  const TAB: Byte := 9
  const CR: Byte := 13
  const BLANK: Byte := 32
  const NOT: Byte := 33
  const HASH: Byte := 35
  const OWNER: Byte := 36
  const AND: Byte := 38
  const OPEN: Byte := 40
  const CLOSE: Byte := 41
  const IN: Byte := 43
  const MINUS: Byte := 45
  const EVAL: Byte := 47
  const ATR: Byte := 58
  const IS: Byte := 61
  const AT: Byte := 64
  const BACKSLASH: Byte := 92
  const FLAG: Byte := 94
  const OR: Byte := 124

  const ATTRIBUTE_NAME_LIMIT := 1024

  datatype Tok =
    | NotTok | AndTok | OrTok | OpenTok | CloseTok | AtTok | PlusTok | EqTok | DollarTok
    | NameTok(thing: Dbref)      // a name or number that stands for an object
    | ObjidTok(thing: Dbref)     // the same, as an objid
    | TruthTok(truth: bool)
    | SlashTok(lock: Text)       // the lock name behind an indirect reference, or the one it stands for
    | PairTok(pair: PairKind, name: Text, text: Text)
    | FlagTok(flag: FlagKind, text: Text)
    | UnknownTok                 // something that makes the parser give up

  // ----- characters -----

  predicate IsSpace(c: Byte) { c == BLANK || TAB <= c <= CR }

  predicate IsDigit(c: Byte) { 48 <= c <= 57 }

  /** The characters of attribute names. */
  predicate NameByte(c: Byte) {
    33 <= c <= 126 && !(97 <= c <= 122) && c != 37 && c != OPEN && c != CLOSE && c != ATR &&
    !(91 <= c <= 94) && c != 123 && c != 125
  }

  predicate GoodName(s: seq<Byte>) {
    s != [] && |s| <= ATTRIBUTE_NAME_LIMIT && s[0] != 96 && s[|s| - 1] != 96 &&
    (forall i :: 0 <= i < |s| ==> NameByte(s[i])) &&
    forall i :: 0 <= i < |s| - 1 ==> !(s[i] == 96 && s[i + 1] == 96)
  }

  function FlagName(k: FlagKind): Text {
    match k
    case FlagLock => [70, 76, 65, 71]
    case TypeLock => [84, 89, 80, 69]
    case NameLock => [78, 65, 77, 69]
    case PowerLock => [80, 79, 87, 69, 82]
    case ChannelLock => [67, 72, 65, 78, 78, 69, 76]
    case IpLock => [73, 80]
    case HostnameLock => [72, 79, 83, 84, 78, 65, 77, 69]
    case DbrefListLock => [68, 66, 82, 69, 70, 76, 73, 83, 84]
  }

  const OBJID: Text := [79, 66, 74, 73, 68]

  /** The kind of flag lock a name stands for. */
  function FlagNamed(name: Text): Option<FlagKind> {
    if name == FlagName(FlagLock) then Some(FlagLock)
    else if name == FlagName(TypeLock) then Some(TypeLock)
    else if name == FlagName(NameLock) then Some(NameLock)
    else if name == FlagName(PowerLock) then Some(PowerLock)
    else if name == FlagName(ChannelLock) then Some(ChannelLock)
    else if name == FlagName(IpLock) then Some(IpLock)
    else if name == FlagName(HostnameLock) then Some(HostnameLock)
    else if name == FlagName(DbrefListLock) then Some(DbrefListLock)
    else None
  }

  // ----- numbers -----

  /** The number the digits at the start of a text are, from `n` on. */
  function DigitsFrom(s: seq<Byte>, n: nat): nat {
    if s == [] || !IsDigit(s[0]) then n else DigitsFrom(s[1..], 10 * n + (s[0] - 48))
  }

  function Clamped(n: int): int {
    if n < -0x8000_0000 then -0x8000_0000 else if n > 0x7FFF_FFFF then 0x7FFF_FFFF else n
  }

  /** Leading space, a sign and digits; anything else ends the number. */
  function ParseInteger(s: seq<Byte>): (n: int)
    ensures IsInt(n)
  {
    if s == [] then 0
    else if IsSpace(s[0]) then ParseInteger(s[1..])
    else if s[0] == MINUS then Clamped(0 - DigitsFrom(s[1..], 0) as int)
    else if s[0] == IN then Clamped(DigitsFrom(s[1..], 0))
    else Clamped(DigitsFrom(s, 0))
  }

  // ----- what names stand for -----

  /** While a database is loaded objects are numbers; at other times names are matched by the game. The table of locks
      gives the proper form of a lock name. */
  datatype Reader =
    | Loading(locks: Text -> Option<Text>)
    | Playing(locks: Text -> Option<Text>, found: Text -> Option<Dbref>, objid: Text -> Option<Dbref>)

  /** The table is keyed by upper case, nobody has the empty name, and objects are C ints. */
  ghost predicate ReaderOk(r: Reader) {
    (forall k: Text :: r.locks(k).Some? ==> Upper(r.locks(k).value) == Upper(k)) && ObjectNamed(r, []) == None &&
    (r.Playing? ==> forall u: Text :: (r.found(u).Some? ==> IsInt(r.found(u).value)) &&
                                      (r.objid(u).Some? ==> IsInt(r.objid(u).value)))
  }

  function LockNamed(r: Reader, u: Text): Text { r.locks(u).GetOr(u) }

  lemma LockLength(r: Reader, u: Text)
    requires ReaderOk(r)
    ensures |LockNamed(r, u)| == |u|
  {
    if r.locks(u).Some? { assert |Upper(LockNamed(r, u))| == |Upper(u)|; }
  }

  function ObjectNamed(r: Reader, u: Text): Option<Dbref> {
    if r.Playing? then r.found(u)
    else if |u| >= 2 && u[0] == HASH then Some(ParseInteger(u[1..]))
    else None
  }

  // ----- pieces of text -----

  function SkipSpace(s: seq<Byte>): (t: seq<Byte>)
    ensures |t| <= |s| && t == s[|s| - |t|..] && (t != [] ==> !IsSpace(t[0])) && (0 !in s ==> 0 !in t)
  {
    if s != [] && IsSpace(s[0]) then SkipSpace(s[1..]) else s
  }

  function Trimmed(s: seq<Byte>): (t: seq<Byte>)
    ensures t <= s && (t != [] ==> !IsSpace(t[|t| - 1])) && (0 !in s ==> 0 !in t)
  {
    if s != [] && IsSpace(s[|s| - 1]) then Trimmed(s[..|s| - 1]) else s
  }

  /** Does this character end a word? */
  predicate Stops(c: Byte, slash: bool) { c == AND || c == OR || c == CLOSE || (slash && c == EVAL) }

  /** How far a word goes, up to a character that ends it and is not escaped. */
  function WordLen(s: seq<Byte>, slash: bool, escaped: bool): (n: nat)
    ensures n <= |s| && (n < |s| ==> Stops(s[n], slash))
  {
    if s == [] || (!escaped && Stops(s[0], slash)) then 0
    else 1 + WordLen(s[1..], slash, !escaped && s[0] == BACKSLASH)
  }

  function Unescaped(s: seq<Byte>, escaped: bool): (u: seq<Byte>)
    ensures |u| <= |s| && forall c :: c in u ==> c in s
  {
    if s == [] then []
    else if !escaped && s[0] == BACKSLASH then Unescaped(s[1..], true)
    else [s[0]] + Unescaped(s[1..], false)
  }

  /** Where the separator `c` first stands without a backslash in front. */
  function SeparatorAt(s: seq<Byte>, c: Byte, escaped: bool): (n: nat)
    ensures n <= |s| && (n < |s| ==> s[n] == c)
  {
    if s == [] || (!escaped && s[0] == c) then 0
    else 1 + SeparatorAt(s[1..], c, !escaped && s[0] == BACKSLASH)
  }

  /** What a word says when it is taken apart at a separator: nothing, something wrong, or a name and a text. */
  datatype Parts = Whole | Wrong | Parted(name: Text, text: Text)

  function TestAtr(s: Text, c: Byte): (p: Parts)
    ensures p.Parted? ==> GoodName(p.name) && p.text != [] && |p.name| + 1 + |p.text| <= |s|
    ensures p.Parted? && c == FLAG ==> p.name == OBJID || FlagNamed(p.name).Some?
  {
    var n := SeparatorAt(s, c, false);
    var name := Upper(Unescaped(s[..n], false));
    if n == |s| || !GoodName(name) then Whole
    else if c == FLAG && name != OBJID && FlagNamed(name).None? then Wrong
    else if n + 1 == |s| then Whole
    else Parted(name, s[n + 1..])
  }

  /** The token for the name of an object. */
  function ObjectTok(r: Reader, u: Text): (t: Tok)
    ensures t.NameTok? || t.TruthTok? || t.UnknownTok?
  {
    if |u| >= 2 && u[0] == HASH && (u[1] == 116 || u[1] == 84) then TruthTok(true)
    else if |u| >= 2 && u[0] == HASH && (u[1] == 102 || u[1] == 70) then TruthTok(false)
    else match ObjectNamed(r, u)
      case Some(d) => NameTok(d)
      case None => UnknownTok
  }

  /** The object at the start of a text. */
  function ObjectAhead(r: Reader, s: Text): (t: Tok)
    ensures t.NameTok? || t.TruthTok? || t.UnknownTok?
  {
    ObjectTok(r, Trimmed(Unescaped(s[..WordLen(s, true, false)], false)))
  }

  function ObjidNamed(r: Reader, s: Text): (t: Tok)
    ensures t.ObjidTok? || t.UnknownTok?
  {
    if r.Loading? then
      var t := ObjectAhead(r, s);
      if t.NameTok? then ObjidTok(t.thing) else UnknownTok
    else match r.objid(s)
      case Some(d) => ObjidTok(d)
      case None => UnknownTok
  }

  /** The token for a word that may be a test of an attribute, of softcode or of a flag; None if it is an object. */
  function WordTok(r: Reader, s: Text): (t: Option<Tok>)
    ensures t.Some? ==> t.value.PairTok? || t.value.FlagTok? || t.value.ObjidTok? || t.value.UnknownTok?
  {
    match TestAtr(s, ATR)
    case Parted(name, text) => Some(PairTok(Atr, name, text))
    case Wrong => Some(UnknownTok)
    case Whole =>
      match TestAtr(s, EVAL)
      case Parted(name, text) => Some(PairTok(Eval, name, text))
      case Wrong => Some(UnknownTok)
      case Whole =>
        match TestAtr(s, FLAG)
        case Parted(name, text) =>
          if name == OBJID then Some(ObjidNamed(r, text)) else Some(FlagTok(FlagNamed(name).value, Upper(text)))
        case Wrong => Some(UnknownTok)
        case Whole => None
  }

  // ----- the scanner -----

  datatype Mode = Operand | Object(indirect: bool) | LockName | Operator

  function Rank(m: Mode): nat {
    match m case Operand => 3 case Object(_) => 2 case LockName => 1 case Operator => 0
  }

  /** The tokens of a text. After something that makes the parser give up there are no more. */
  function Scan(r: Reader, ltype: Text, s: Text, m: Mode): seq<Tok>
    decreases |s|, Rank(m), 1
  {
    match m
    case Operand => ScanOperand(r, ltype, SkipSpace(s))
    case Object(indirect) => ScanObject(r, ltype, s, indirect)
    case LockName => ScanLock(r, ltype, s)
    case Operator => ScanOperator(r, ltype, SkipSpace(s))
  }

  function ScanObject(r: Reader, ltype: Text, s: Text, indirect: bool): seq<Tok>
    decreases |s|, 2, 0
  {
    var t := ObjectAhead(r, s);
    if t == UnknownTok then [t]
    else [t] + Scan(r, ltype, s[WordLen(s, true, false)..], if indirect then LockName else Operator)
  }

  /** The lock an indirect reference names, or else the one that is being parsed. */
  function ScanLock(r: Reader, ltype: Text, s: Text): seq<Tok>
    decreases |s|, 1, 0
  {
    if s == [] || s[0] != EVAL then [SlashTok(ltype)] + Scan(r, ltype, s, Operator)
    else
      var n := WordLen(s[1..], false, false);
      var u := Upper(Trimmed(Unescaped(s[1..][..n], false)));
      if GoodName(u) then [SlashTok(LockNamed(r, u))] + Scan(r, ltype, s[1..][n..], Operator) else [UnknownTok]
  }

  function ScanOperator(r: Reader, ltype: Text, s: Text): seq<Tok>
    decreases |s|, 0, 0
  {
    if s == [] then []
    else if s[0] == AND then [AndTok] + Scan(r, ltype, s[1..], Operand)
    else if s[0] == OR then [OrTok] + Scan(r, ltype, s[1..], Operand)
    else if s[0] == CLOSE then [CloseTok] + Scan(r, ltype, s[1..], Operator)
    else [UnknownTok]
  }

  function ScanOperand(r: Reader, ltype: Text, s: Text): seq<Tok>
    decreases |s|, 3, 0
  {
    if s == [] then ScanWord(r, ltype, s)
    else if s[0] == NOT then [NotTok] + Scan(r, ltype, s[1..], Operand)
    else if s[0] == OPEN then [OpenTok] + Scan(r, ltype, s[1..], Operand)
    else if s[0] == AT then [AtTok] + Scan(r, ltype, s[1..], Object(true))
    else if s[0] == IS then [EqTok] + Scan(r, ltype, s[1..], Object(false))
    else if s[0] == IN then [PlusTok] + Scan(r, ltype, s[1..], Object(false))
    else if s[0] == OWNER then [DollarTok] + Scan(r, ltype, s[1..], Object(false))
    else ScanWord(r, ltype, s)
  }

  function ScanWord(r: Reader, ltype: Text, s: Text): seq<Tok>
    decreases |s|, 2, 1
  {
    var n := WordLen(s, false, false);
    match WordTok(r, Trimmed(s[..n]))
    case None => ScanObject(r, ltype, s, false)
    case Some(t) => if t == UnknownTok then [t] else [t] + Scan(r, ltype, s[n..], Operator)
  }

  lemma OperandMode(r: Reader, ltype: Text, s: Text)
    ensures Scan(r, ltype, s, Operand) == ScanOperand(r, ltype, SkipSpace(s))
  {
    hide ScanOperand, ScanObject, ScanLock, ScanOperator, SkipSpace;
  }

  lemma ObjectMode(r: Reader, ltype: Text, s: Text, indirect: bool)
    ensures Scan(r, ltype, s, Object(indirect)) == ScanObject(r, ltype, s, indirect)
  {
    hide ScanOperand, ScanObject, ScanLock, ScanOperator, SkipSpace;
  }

  lemma LockMode(r: Reader, ltype: Text, s: Text)
    ensures Scan(r, ltype, s, LockName) == ScanLock(r, ltype, s)
  {
    hide ScanOperand, ScanObject, ScanLock, ScanOperator, SkipSpace;
  }

  lemma OperatorMode(r: Reader, ltype: Text, s: Text)
    ensures Scan(r, ltype, s, Operator) == ScanOperator(r, ltype, SkipSpace(s))
  {
    hide ScanOperand, ScanObject, ScanLock, ScanOperator, SkipSpace;
  }

  lemma SkipNothing(s: seq<Byte>)
    requires s != [] ==> !IsSpace(s[0])
    ensures SkipSpace(s) == s
  {
  }

  // ----- words at the start of an operand -----

  /** What is left of a text behind the object at its start. */
  function BehindObject(s: Text): Text { s[WordLen(s, true, false)..] }

  /** Neither a negation nor a mark in front of an object. */
  predicate NoMark(s: Text) {
    s != [] ==> s[0] != NOT && s[0] != AT && s[0] != IS && s[0] != IN && s[0] != OWNER
  }

  /** A token and what follows it, or only the token if the parser gives up there. */
  function TokAnd(t: Tok, rest: seq<Tok>): seq<Tok> {
    if t == UnknownTok then [t] else [t] + rest
  }

  lemma WordScanned(r: Reader, ltype: Text, s: Text)
    requires NoMark(s) && (s != [] ==> s[0] != OPEN && !IsSpace(s[0]))
    ensures Scan(r, ltype, s, Operand) ==
            match WordTok(r, Trimmed(s[..WordLen(s, false, false)]))
            case Some(t) => TokAnd(t, Scan(r, ltype, s[WordLen(s, false, false)..], Operator))
            case None => TokAnd(ObjectAhead(r, s), Scan(r, ltype, BehindObject(s), Operator))
  {
    hide ObjectAhead, WordTok, Trimmed, WordLen, Scan, SkipSpace;
    SkipNothing(s);
    OperandMode(r, ltype, s);
    assert ScanOperand(r, ltype, s) == ScanWord(r, ltype, s) by { hide ScanWord; }
    match WordTok(r, Trimmed(s[..WordLen(s, false, false)]))
    case Some(t) => assert ScanWord(r, ltype, s) == TokAnd(t, Scan(r, ltype, s[WordLen(s, false, false)..], Operator));
    case None => assert ScanWord(r, ltype, s) == ScanObject(r, ltype, s, false);
  }
}

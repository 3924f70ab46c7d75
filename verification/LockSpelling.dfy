/**
 How the printer spells a lock, and the buffer it prints into: what does not fit any more is cut, and the number of an
 object is left out altogether.
 */
module LockSpelling {
  import opened Basics
  import opened LockLanguage
  import opened LockScanner

  const LIMIT := BUFFER_LEN - 1

  // ----- spelling -----

  function Decimal(n: nat): (s: Text)
    ensures s != [] && forall i :: 0 <= i < |s| ==> IsDigit(s[i])
  {
    var last: Text := [48 + n % 10];
    if n < 10 then last else
      var s: Text := Decimal(n / 10) + last;
      s
  }

  function Number(n: int): (s: Text)
    ensures s != []
  {
    if n >= 0 then Decimal(n) else
      var s: Text := [MINUS] + Decimal(-n);
      s
  }

  predicate NeedsEscape(c: Byte) {
    c == BACKSLASH || c == NOT || c == AND || c == OR || c == AT || c == IN || c == IS || c == OWNER || c == ATR ||
    c == EVAL || c == FLAG || c == CLOSE
  }

  function EscapedByte(c: Byte): seq<Byte> { if NeedsEscape(c) then [BACKSLASH, c] else [c] }

  function Escaped(s: Text): (t: Text)
    ensures |t| >= |s|
  {
    if s == [] then [] else
      var t: Text := EscapedByte(s[0]) + Escaped(s[1..]);
      t
  }

  /** Flag locks whose text is a pattern or an address are printed as they are. */
  predicate Preserved(k: FlagKind) {
    k == NameLock || k == IpLock || k == HostnameLock || k == DbrefListLock
  }

  const TRUE_TEXT: Text := [HASH, 84, 82, 85, 69]
  const FALSE_TEXT: Text := [HASH, 70, 65, 76, 83, 69]

  /** How objects are shown: by number, as `me` where they are the player, or by name. */
  datatype Show = ByNumber | ToPlayer(player: Dbref) | ByName(name: Dbref -> Text)

  predicate Numbered(show: Show, d: Dbref) {
    show.ByNumber? || (show.ToPlayer? && show.player != d)
  }

  function ObjectText(show: Show, d: Dbref): Text {
    if Numbered(show, d) then
      var s: Text := [HASH] + Number(d);
      s
    else if show.ToPlayer? then [109, 101]
    else show.name(d)
  }

  function Separator(k: PairKind): Byte { if k == Atr then ATR else EVAL }

  function PairBody(k: PairKind, text: Text): Text { if k == Atr then text else Escaped(text) }

  function FlagBody(k: FlagKind, text: Text): Text { if Preserved(k) then text else Escaped(text) }

  function PairWord(name: Text, c: Byte, body: Text): (w: Text)
    requires c != 0
    ensures |w| == |Escaped(name)| + 1 + |body|
  {
    var w: seq<Byte> := Escaped(name) + [c] + body;
    w
  }

  function FlagWord(k: FlagKind, body: Text): (w: Text)
    ensures |w| == |FlagName(k)| + 1 + |body|
  {
    var w: seq<Byte> := FlagName(k) + [FLAG] + body;
    w
  }

  function Spelled(show: Show, t: Tok): Text {
    match t
    case NotTok => [NOT]
    case AndTok => [AND]
    case OrTok => [OR]
    case OpenTok => [OPEN]
    case CloseTok => [CLOSE]
    case AtTok => [AT]
    case PlusTok => [IN]
    case EqTok => [IS]
    case DollarTok => [OWNER]
    case NameTok(d) => ObjectText(show, d)
    case TruthTok(v) => if v then TRUE_TEXT else FALSE_TEXT
    case SlashTok(lock) => var s: Text := [EVAL] + Escaped(lock); s
    case PairTok(k, name, text) => PairWord(name, Separator(k), PairBody(k, text))
    case FlagTok(k, text) => FlagWord(k, FlagBody(k, text))
    case ObjidTok(_) => []
    case UnknownTok => []
  }

  // ----- a buffer of limited size -----

  predicate AllOrNothing(show: Show, t: Tok) { t.NameTok? && Numbered(show, t.thing) }

  /** A buffer with as much of `s` behind it as there is room for. */
  function Cut(out: seq<Byte>, s: seq<Byte>): (r: seq<Byte>)
    requires |out| <= LIMIT
    ensures |r| <= LIMIT
  {
    if |out| + |s| <= LIMIT then out + s else out + s[..LIMIT - |out|]
  }

  lemma CutTwice(out: seq<Byte>, a: seq<Byte>, b: seq<Byte>)
    requires |out| <= LIMIT
    ensures Cut(Cut(out, a), b) == Cut(out, a + b)
  {
    if |out| + |a| > LIMIT {
      assert (a + b)[..LIMIT - |out|] == a[..LIMIT - |out|];
    } else if |out| + |a| + |b| > LIMIT {
      assert (a + b)[..LIMIT - |out|] == a + b[..LIMIT - |out| - |a|];
    }
  }

  lemma CutFull(out: seq<Byte>, s: seq<Byte>)
    requires |out| == LIMIT
    ensures Cut(out, s) == out
  {
  }

  function Put(show: Show, out: seq<Byte>, t: Tok): (r: seq<Byte>)
    requires |out| <= LIMIT
    ensures |r| <= LIMIT
  {
    var s := Spelled(show, t);
    if AllOrNothing(show, t) && |out| + |s| > LIMIT then out else Cut(out, s)
  }

  function Written(show: Show, out: seq<Byte>, ts: seq<Tok>): (r: seq<Byte>)
    requires |out| <= LIMIT
    ensures |r| <= LIMIT
    decreases |ts|
  {
    if ts == [] then out else Written(show, Put(show, out, ts[0]), ts[1..])
  }

  lemma {:induction false} WrittenAppend(show: Show, out: seq<Byte>, a: seq<Tok>, b: seq<Tok>)
    requires |out| <= LIMIT
    ensures Written(show, out, a + b) == Written(show, Written(show, out, a), b)
    decreases |a|
  {
    if a == [] {
      assert a + b == b;
    } else {
      assert (a + b)[1..] == a[1..] + b;
      WrittenAppend(show, Put(show, out, a[0]), a[1..], b);
    }
  }

  /** The static buffer of the printer. */
  class Writer {
    const buf: array<Byte>
    var len: nat

    ghost predicate Valid()
      reads this
    {
      buf.Length == BUFFER_LEN && len <= LIMIT
    }

    function Out(): seq<Byte>
      requires Valid()
      reads this, buf
    {
      buf[..len]
    }

    constructor ()
      ensures Valid() && Out() == [] && fresh(buf)
    {
      buf := new Byte[BUFFER_LEN];
      len := 0;
    }

    method SafeChr(c: Byte) returns (over: bool)
      requires Valid()
      modifies this`len, buf
      ensures Valid() && over == (old(len) == LIMIT) && Out() == Cut(old(Out()), [c])
    {
      over := len >= BUFFER_LEN - 1;
      if !over {
        buf[len] := c;
        len := len + 1;
      }
    }

    method SafeStr(s: seq<Byte>)
      requires Valid()
      modifies this`len, buf
      ensures Valid() && Out() == Cut(old(Out()), s)
    {
      var clen := if len + |s| <= BUFFER_LEN - 1 then |s| else BUFFER_LEN - 1 - len;
      var i := 0;
      while i < clen
        invariant 0 <= i <= clen && Valid() && len == old(len)
        invariant buf[..len + i] == old(Out()) + s[..i]
      {
        buf[len + i] := s[i];
        i := i + 1;
      }
      len := len + clen;
    }

    /** A string with backslashes in front of what means something to the parser. */
    method SafeBstr(s: Text, preserve: bool)
      requires Valid()
      modifies this`len, buf
      ensures Valid() && Out() == Cut(old(Out()), if preserve then s else Escaped(s))
    {
      hide NeedsEscape, Escaped;
      var i := 0;
      assert s[0..] == s;
      while i < |s|
        invariant 0 <= i <= |s| && Valid()
        invariant Cut(Out(), Rest(s, i, preserve)) == Cut(old(Out()), Rest(s, 0, preserve))
      {
        RestStep(s, i, preserve);
        ghost var rest, out := Rest(s, i + 1, preserve), Out();
        var over;
        if !preserve && NeedsEscape(s[i]) {
          CutTwice(out, [BACKSLASH], [s[i]] + rest);
          over := SafeChr(BACKSLASH);
          if over { CutFull(out, Rest(s, i, preserve)); return; }
          out := Out();
        }
        CutTwice(out, [s[i]], rest);
        over := SafeChr(s[i]);
        if over { CutFull(out, [s[i]] + rest); return; }
        i := i + 1;
      }
      RestStep(s, i, preserve);
    }

    /** A number, digit by digit from the last. */
    method FormatLong(val: int) returns (over: bool)
      requires Valid()
      modifies this`len, buf
      ensures Valid() && over == (old(len) + |Number(val)| > LIMIT)
      ensures len >= old(len) && buf[..old(len)] == old(Out())
      ensures !over ==> Out() == old(Out()) + Number(val)
    {
      if len >= BUFFER_LEN - 1 { return true; }
      var digits := ToDecimal(if val < 0 then -val else val);
      if val < 0 { digits := [MINUS] + digits; }
      if len + |digits| < BUFFER_LEN - 2 {
        SafeStr(digits);
        over := false;
      } else {
        over := PutDigits(digits);
      }
    }

    method PutDigits(digits: seq<Byte>) returns (over: bool)
      requires Valid()
      modifies this`len, buf
      ensures Valid() && over == (old(len) + |digits| > LIMIT)
      ensures len >= old(len) && buf[..old(len)] == old(Out())
      ensures !over ==> Out() == old(Out()) + digits
    {
      var i := 0;
      while i < |digits|
        invariant 0 <= i <= |digits| && Valid() && len == old(len) + i && Out() == old(Out()) + digits[..i]
      {
        if len >= BUFFER_LEN - 1 { return true; }
        buf[len] := digits[i];
        len := len + 1;
        i := i + 1;
      }
      over := false;
    }

    /** The number of an object, or nothing. */
    method SafeDbref(d: Dbref)
      requires Valid()
      modifies this`len, buf
      ensures Valid()
      ensures Out() == if old(len) + 1 + |Number(d)| > LIMIT then old(Out()) else old(Out()) + ([HASH] + Number(d))
    {
      hide Number;
      var saved := len;
      assert old(Out()) + [HASH] + Number(d) == old(Out()) + ([HASH] + Number(d));
      var over := SafeChr(HASH);
      if over { len := saved; return; }
      over := FormatLong(d);
      if over { len := saved; }
    }

    method SafeBoref(show: Show, d: Dbref)
      requires Valid()
      modifies this`len, buf
      ensures Valid() && Out() == Put(show, old(Out()), NameTok(d))
    {
      match show
      case ToPlayer(player) => if player == d { SafeStr([109, 101]); } else { SafeDbref(d); }
      case ByNumber => SafeDbref(d);
      case ByName(name) => SafeStr(name(d));
    }

    /** A name and a text with a separator between them. */
    method PutParts(name: Text, c: Byte, text: Text, preserve: bool)
      requires Valid()
      modifies this`len, buf
      ensures Valid() && Out() == Cut(old(Out()), Escaped(name) + [c] + if preserve then text else Escaped(text))
    {
      hide Escaped, Cut;
      ghost var tail := if preserve then text else Escaped(text);
      CutTwice(Out(), Escaped(name), [c]);
      CutTwice(Out(), Escaped(name) + [c], tail);
      SafeBstr(name, false);
      var over := SafeChr(c);
      SafeBstr(text, preserve);
    }

    method PutFlag(k: FlagKind, text: Text)
      requires Valid()
      modifies this`len, buf
      ensures Valid()
      ensures Out() == Cut(old(Out()), FlagName(k) + [FLAG] + if Preserved(k) then text else Escaped(text))
    {
      hide Escaped, Cut, FlagName;
      CutTwice(Out(), FlagName(k) + [FLAG], if Preserved(k) then text else Escaped(text));
      SafeStr(FlagName(k) + [FLAG]);
      SafeBstr(text, Preserved(k));
    }

    method PutTok(show: Show, t: Tok)
      requires Valid()
      modifies this`len, buf
      ensures Valid() && Out() == Put(show, old(Out()), t)
    {
      hide Escaped, Cut, FlagName;
      match t
      case NameTok(d) => SafeBoref(show, d);
      case SlashTok(lock) =>
        CutTwice(Out(), [EVAL], Escaped(lock));
        var over := SafeChr(EVAL);
        SafeBstr(lock, false);
      case PairTok(k, name, text) =>
        PutParts(name, Separator(k), text, k == Atr);
      case FlagTok(k, text) =>
        PutFlag(k, text);
      case _ => SafeStr(Spelled(show, t));
    }
  }

  method ToDecimal(n: nat) returns (s: seq<Byte>)
    ensures s == Decimal(n)
  {
    s := [48 + n % 10];
    var quot: nat := n / 10;
    while quot != 0
      invariant Decimal(n) == if quot == 0 then s else Decimal(quot) + s
      decreases quot
    {
      if quot >= 10 { assert Decimal(quot) + s == Decimal(quot / 10) + ([48 + quot % 10] + s); }
      s := [48 + quot % 10] + s;
      quot := quot / 10;
    }
  }

  /** What is still to be printed of a string. */
  function Rest(s: Text, i: nat, preserve: bool): seq<Byte>
    requires i <= |s|
  {
    if preserve then s[i..] else Escaped(s[i..])
  }

  lemma RestStep(s: Text, i: nat, preserve: bool)
    requires i <= |s|
    ensures i == |s| ==> Rest(s, i, preserve) == []
    ensures i < |s| ==>
      Rest(s, i, preserve) ==
      if !preserve && NeedsEscape(s[i]) then [BACKSLASH] + ([s[i]] + Rest(s, i + 1, preserve))
      else [s[i]] + Rest(s, i + 1, preserve)
  {
    if i < |s| { assert s[i..][1..] == s[i + 1..]; }
  }
}

/**
 The recursive-descent parser of locks: the grammar over tokens, and the functions that work on the characters.
 */
module LockText {
  import opened Basics
  import opened LockLanguage
  import opened LockScanner

  // ----- the grammar -----

  type Parse = Option<(Expr, seq<Tok>)>

  predicate Starts(ts: seq<Tok>, t: Tok) { |ts| > 0 && ts[0] == t }

  /** An object, #true or #false. */
  function ParseR(ts: seq<Tok>): (r: Parse)
    ensures r.Some? ==> |r.value.1| < |ts|
  {
    if ts == [] then None
    else match ts[0]
      case NameTok(thing) => Some((Ref(Const, thing), ts[1..]))
      case TruthTok(v) => Some((Bool(v), ts[1..]))
      case _ => None
  }

  /** One of = + $ before an object. */
  function ParseMarked(ts: seq<Tok>, k: RefKind): (r: Parse)
    ensures r.Some? ==> |r.value.1| < |ts|
  {
    match ParseR(ts)
    case Some((Ref(Const, thing), rest)) => Some((Ref(k, thing), rest))
    case _ => None
  }

  /** After an @: an object and the name of one of its locks. */
  function ParseIndirect(ts: seq<Tok>): (r: Parse)
    ensures r.Some? ==> |r.value.1| < |ts|
  {
    match ParseR(ts)
    case Some((Ref(Const, thing), rest)) =>
      if |rest| > 0 && rest[0].SlashTok? then Some((Ind(thing, rest[0].lock), rest[1..])) else None
    case _ => None
  }

  function ParseL(ts: seq<Tok>): (r: Parse)
    ensures r.Some? ==> |r.value.1| < |ts|
    decreases |ts|, 0
  {
    if ts == [] then None
    else match ts[0]
      case OpenTok =>
        (match ParseE(ts[1..])
         case Some((e, rest)) => if Starts(rest, CloseTok) then Some((e, rest[1..])) else None
         case None => None)
      case PairTok(k, name, text) => Some((Pair(k, name, text), ts[1..]))
      case FlagTok(k, text) => Some((Flag(k, text), ts[1..]))
      case ObjidTok(thing) => Some((Ref(Is, thing), ts[1..]))
      case _ => ParseR(ts)
  }

  function ParseA(ts: seq<Tok>): (r: Parse)
    ensures r.Some? ==> |r.value.1| < |ts|
    decreases |ts|, 1
  {
    if Starts(ts, AtTok) then ParseIndirect(ts[1..])
    else if Starts(ts, EqTok) then ParseMarked(ts[1..], Is)
    else if Starts(ts, PlusTok) then ParseMarked(ts[1..], Carry)
    else if Starts(ts, DollarTok) then ParseMarked(ts[1..], Owner)
    else ParseL(ts)
  }

  function ParseF(ts: seq<Tok>): (r: Parse)
    ensures r.Some? ==> |r.value.1| < |ts|
    decreases |ts|, 2
  {
    if Starts(ts, NotTok) then
      match ParseF(ts[1..])
      case Some((e, rest)) => Some((Not(e), rest))
      case None => None
    else ParseA(ts)
  }

  function ParseT(ts: seq<Tok>): (r: Parse)
    ensures r.Some? ==> |r.value.1| < |ts|
    decreases |ts|, 3
  {
    match ParseF(ts)
    case Some((a, rest)) =>
      if Starts(rest, AndTok) then
        match ParseT(rest[1..])
        case Some((b, rest')) => Some((And(a, b), rest'))
        case None => None
      else Some((a, rest))
    case None => None
  }

  function ParseE(ts: seq<Tok>): (r: Parse)
    ensures r.Some? ==> |r.value.1| < |ts|
    decreases |ts|, 4
  {
    match ParseT(ts)
    case Some((a, rest)) =>
      if Starts(rest, OrTok) then
        match ParseE(rest[1..])
        case Some((b, rest')) => Some((Or(a, b), rest'))
        case None => None
      else Some((a, rest))
    case None => None
  }


  /** The tree that a text is read as; text behind it is ignored. */
  function ReadLock(r: Reader, ltype: Text, s: Text): Option<Expr> {
    match ParseE(Scan(r, ltype, s, Operand))
    case Some((e, _)) => Some(e)
    case None => None
  }
}

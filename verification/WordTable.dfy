/**
 The table of words behind the word codec, and what compressed text stands for in it.
 */
module WordTable {
  import opened Basics

  const MAXTABLE := 32768
  const MAXWORDS := 100
  const COLLISION_LIMIT := 20
  const TABLE_FLAG := 128

  /** The words at their places, without the zero that closes them. */
  type Words = seq<Option<seq<Byte>>>

  /** No word has a place whose second byte would be zero. */
  ghost predicate WellPlaced(ws: Words) {
    |ws| == MAXTABLE && forall i :: 0 <= i < MAXTABLE && ws[i].Some? ==> i % 256 != 0
  }

  /** No word of the table has a zero in it. */
  ghost predicate Clean(ws: Words) {
    forall i :: 0 <= i < |ws| && ws[i].Some? ==> 0 !in ws[i].value
  }

  /** The table grows: what is in it stays where it is. */
  ghost predicate Extends(ws: Words, ws': Words) {
    |ws| == |ws'| && forall i :: 0 <= i < |ws| && ws[i].Some? ==> ws'[i] == ws[i]
  }

  lemma ExtendsTrans(a: Words, b: Words, c: Words)
    requires Extends(a, b) && Extends(b, c)
    ensures Extends(a, c)
  {
  }

  /** Text without the high bits. */
  function Stripped(s: seq<Byte>): (r: seq<Byte>)
    ensures |r| == |s|
  {
    if s == [] then [] else [s[0] % 128] + Stripped(s[1..])
  }

  lemma {:induction false} StrippedAt(s: seq<Byte>, k: nat)
    requires k < |s|
    ensures Stripped(s)[k] == s[k] % 128
  {
    if k > 0 { StrippedAt(s[1..], k - 1); }
  }

  /** Only text of seven bits is itself when stripped. */
  lemma {:induction false} StrippedSame(s: seq<Byte>)
    ensures Stripped(s) == s <==> forall k :: 0 <= k < |s| ==> s[k] < 128
  {
    hide Stripped;
    var r := Stripped(s);
    assert |r| == |s| by { StrippedLength(s); }
    forall k | 0 <= k < |s| ensures r[k] == s[k] % 128 { StrippedAt(s, k); }
  }

  lemma StrippedLength(s: seq<Byte>)
    ensures |Stripped(s)| == |s|
  {
  }

  /** Only the byte 0x80 turns into a zero. */
  lemma {:induction false} StrippedZero(s: Text)
    ensures 0 !in Stripped(s) <==> 128 !in s
    decreases |s|
  {
    if s != [] {
      assert s[0] in s;
      StrippedZero(s[1..]);
      assert s == [s[0]] + s[1..];
    }
  }

  function PlaceOf(c: Byte, d: Byte): nat
    requires c >= TABLE_FLAG
  {
    (c - TABLE_FLAG) * 256 + d
  }

  function CodeFor(i: nat): seq<Byte>
    requires i < MAXTABLE
  {
    [i / 256 + TABLE_FLAG, i % 256]
  }

  /** What compressed text stands for; none where reading it would stop the program. */
  function Expanded(ws: Words, s: seq<Byte>): Option<seq<Byte>>
    requires |ws| == MAXTABLE
  {
    if s == [] then Some([])
    else if s[0] < TABLE_FLAG then
      match Expanded(ws, s[1..])
      case Some(r) => Some([s[0]] + r)
      case None => None
    else if |s| == 1 || ws[PlaceOf(s[0], s[1])].None? then None
    else
      match Expanded(ws, s[2..])
      case Some(r) => Some(ws[PlaceOf(s[0], s[1])].value + r)
      case None => None
  }

  /** A table that has grown reads the same text. */
  lemma {:induction false} ExpandedLater(ws: Words, ws': Words, s: seq<Byte>)
    requires |ws| == MAXTABLE && Extends(ws, ws') && Expanded(ws, s).Some?
    ensures Expanded(ws', s) == Expanded(ws, s)
    decreases |s|
  {
    if s != [] {
      ExpandedLater(ws, ws', if s[0] < TABLE_FLAG then s[1..] else s[2..]);
    }
  }

  lemma {:induction false} ExpandedAppend(ws: Words, s: seq<Byte>, t: seq<Byte>)
    requires |ws| == MAXTABLE && Expanded(ws, s).Some? && Expanded(ws, t).Some?
    ensures Expanded(ws, s + t) == Some(Expanded(ws, s).value + Expanded(ws, t).value)
    decreases |s|
  {
    if s == [] {
      assert s + t == t;
      assert Expanded(ws, s).value + Expanded(ws, t).value == Expanded(ws, t).value;
    } else if s[0] < TABLE_FLAG {
      assert (s + t)[1..] == s[1..] + t;
      ExpandedAppend(ws, s[1..], t);
      var x, y := Expanded(ws, s[1..]).value, Expanded(ws, t).value;
      assert [s[0]] + (x + y) == [s[0]] + x + y;
    } else {
      assert (s + t)[2..] == s[2..] + t;
      ExpandedAppend(ws, s[2..], t);
      assert (s + t)[1] == s[1];
      var w, x, y := ws[PlaceOf(s[0], s[1])].value, Expanded(ws, s[2..]).value, Expanded(ws, t).value;
      assert w + (x + y) == w + x + y;
    }
  }

  lemma {:induction false} ExpandedPlain(ws: Words, s: seq<Byte>)
    requires |ws| == MAXTABLE && forall k :: 0 <= k < |s| ==> s[k] < TABLE_FLAG
    ensures Expanded(ws, s) == Some(s)
    decreases |s|
  {
    if s != [] {
      ExpandedPlain(ws, s[1..]);
      assert s == [s[0]] + s[1..];
    }
  }

  lemma ExpandedCode(ws: Words, i: nat)
    requires WellPlaced(ws) && i < MAXTABLE && ws[i].Some?
    ensures Expanded(ws, CodeFor(i)) == Some(ws[i].value) && 0 !in CodeFor(i)
  {
    assert PlaceOf(CodeFor(i)[0], CodeFor(i)[1]) == i;
    assert CodeFor(i)[2..] == [];
    assert Expanded(ws, CodeFor(i)[2..]) == Some([]);
    assert ws[i].value + [] == ws[i].value;
  }

  /** Copying a C string over a number of bytes fills the rest with zeros. */
  function Padded(s: seq<Byte>, n: nat): seq<Byte>
    decreases n - |s|
  {
    if |s| >= n then s else Padded(s + [0], n)
  }

  lemma {:induction false} CutWhole(s: Text, rest: seq<Byte>)
    requires rest == [] || rest[0] == 0
    ensures CutAtNul(s + rest) == s
    decreases |s|
  {
    if s == [] {
      assert s + rest == rest;
    } else {
      assert s[0] in s && (s + rest)[1..] == s[1..] + rest;
      CutWhole(s[1..], rest);
      assert s == [s[0]] + s[1..];
    }
  }

  /** A C string is what stands in front of its first zero, whether the closing zero is looked at or not. */
  lemma {:induction false} CutEnd(bs: seq<Byte>)
    ensures CutAtNul(bs + [0]) == CutAtNul(bs) && |CutAtNul(bs)| <= |bs| && (0 !in bs ==> CutAtNul(bs) == bs)
  {
    if bs != [] && bs[0] != 0 {
      CutEnd(bs[1..]);
      assert (bs + [0])[1..] == bs[1..] + [0];
      assert bs == [bs[0]] + bs[1..];
    }
  }

  lemma {:induction false} CutAppend(x: seq<Byte>, v: seq<Byte>)
    requires 0 !in x
    ensures CutAtNul(x + v) == x + CutAtNul(v)
  {
    if x == [] {
      assert x + v == v && x + CutAtNul(v) == CutAtNul(v);
    } else {
      assert (x + v)[1..] == x[1..] + v;
      CutAppend(x[1..], v);
      assert x == [x[0]] + x[1..];
    }
  }

  /** Filling up with zeros changes no C string. */
  lemma {:induction false} CutPadded(s: seq<Byte>, n: nat)
    ensures CutAtNul(Padded(s, n)) == CutAtNul(s)
    decreases n - |s|
  {
    if |s| < n {
      CutPadded(s + [0], n);
      CutEnd(s);
    }
  }

  /** A word at a free place leaves all others as they were. */
  lemma AddedWord(ws: Words, i: nat, v: seq<Byte>)
    requires WellPlaced(ws) && i < MAXTABLE && ws[i].None? && i % 256 != 0
    ensures var ws' := ws[i := Some(v)];
            WellPlaced(ws') && Extends(ws, ws') && (Clean(ws) && 0 !in v ==> Clean(ws'))
  {
  }

  /** More text behind compressed text, in a table that may have grown. */
  lemma {:induction false} ExpandedMore(ws: Words, ws': Words, s: seq<Byte>, e: seq<Byte>)
    requires |ws| == MAXTABLE && Extends(ws, ws') && Expanded(ws, s).Some? && Expanded(ws', e).Some?
    ensures Expanded(ws', s + e) == Some(Expanded(ws, s).value + Expanded(ws', e).value)
  {
    hide Expanded;
    ExpandedLater(ws, ws', s);
    ExpandedAppend(ws', s, e);
  }
}

/**
 What compressing does to a text and to the table of words, and when text comes back.
 */
module WordRules {
  import opened Basics
  import opened WordTable

  const COMPRESS_HASH_MASK := 32767

  // ----- one word -----

  function HashFold(s: seq<Byte>): (h: nat)
    ensures h < 0x1_0000_0000
  {
    if s == [] then 0
    else
      var hashval := HashFold(s[..|s| - 1]);
      (hashval * 32 + hashval + s[|s| - 1]) % 0x1_0000_0000
  }

  /** The hash of a word, in unsigned arithmetic of 32 bits. */
  function HashOf(s: Text): (h: nat)
    ensures h <= COMPRESS_HASH_MASK
  {
    HashFold(s) % (COMPRESS_HASH_MASK + 1)
  }

  /** The bytes of a word as the digits of a number to the base 33. */
  function Base33(s: seq<Byte>): nat {
    if s == [] then 0 else 33 * Base33(s[..|s| - 1]) + s[|s| - 1]
  }

  /** Where the arithmetic wraps round does not matter to the hash. */
  lemma HashIsBase33(s: Text)
    ensures HashOf(s) == Base33(s) % 32768
  {
    hide HashFold, Base33;
    FoldIsBase33(s);
    var q := Base33(s) / 0x1_0000_0000;
    ModPlus(HashFold(s), 131072 * q);
  }

  lemma ModPlus(x: nat, k: nat)
    ensures (x + 32768 * k) % 32768 == x % 32768
  {
  }

  lemma WrapPlus(x: nat, k: nat)
    ensures (x + 0x1_0000_0000 * k) % 0x1_0000_0000 == x % 0x1_0000_0000
  {
  }

  lemma {:induction false} FoldIsBase33(s: seq<Byte>)
    ensures HashFold(s) == Base33(s) % 0x1_0000_0000
  {
    hide HashFold, Base33;
    FoldNext(s);
    if s != [] {
      var b := Base33(s[..|s| - 1]);
      FoldIsBase33(s[..|s| - 1]);
      WrapPlus(33 * (b % 0x1_0000_0000) + s[|s| - 1], 33 * (b / 0x1_0000_0000));
    }
  }

  lemma FoldNext(s: seq<Byte>)
    ensures s == [] ==> HashFold(s) == 0 && Base33(s) == 0
    ensures s != [] ==> HashFold(s) == (33 * HashFold(s[..|s| - 1]) + s[|s| - 1]) % 0x1_0000_0000 &&
                        Base33(s) == 33 * Base33(s[..|s| - 1]) + s[|s| - 1]
  {
  }

  datatype Spot = Spot(i: nat, j: nat, found: bool)

  /** Where probing ends: at the word, at a free place, or without either. */
  function ProbeFrom(ws: Words, w: Text, i: nat, j: nat): Spot
    requires |ws| == MAXTABLE
    decreases MAXTABLE - i
  {
    if i < MAXTABLE && (ws[i].Some? || i % 256 == 0) && j < COLLISION_LIMIT then
      if ws[i].Some? && w == CutAtNul(ws[i].value) then Spot(i, j, true) else ProbeFrom(ws, w, i + 1, j + 1)
    else Spot(i, j, false)
  }

  /** Steps on from a place whose second byte would be zero. */
  function NoZero(spot: Spot): Spot {
    if !spot.found && spot.i % 256 == 0 then Spot(spot.i + 1, spot.j + 1, false) else spot
  }

  function Place(ws: Words, text: Text): Spot
    requires |ws| == MAXTABLE
  {
    NoZero(ProbeFrom(ws, text, HashOf(text), 0))
  }

  predicate Full(spot: Spot) {
    !spot.found && (spot.i >= MAXTABLE || spot.j >= COLLISION_LIMIT)
  }

  /** The table and the bytes put out after a word was put out. */
  function Put(ws: Words, w: seq<Byte>): (p: (Words, seq<Byte>))
    requires WellPlaced(ws)
    ensures |p.0| == MAXTABLE
  {
    var text := CutAtNul(w);
    var spot := Place(ws, text);
    PlaceFacts(ws, text);
    if |w| + 1 <= 3 || Full(spot) then (ws, text)
    else if spot.found then (ws, CodeFor(spot.i))
    else (ws[spot.i := Some(Padded(text, |w|))], CodeFor(spot.i))
  }

  lemma {:induction false} ProbeFacts(ws: Words, w: Text, i: nat, j: nat)
    requires |ws| == MAXTABLE
    ensures var spot := ProbeFrom(ws, w, i, j);
            (spot.found ==> spot.i < MAXTABLE && ws[spot.i].Some? && CutAtNul(ws[spot.i].value) == w) &&
            (!spot.found && spot.i < MAXTABLE && spot.j < COLLISION_LIMIT ==>
              ws[spot.i].None? && spot.i % 256 != 0)
    decreases MAXTABLE - i
  {
    hide CutAtNul;
    if i < MAXTABLE && (ws[i].Some? || i % 256 == 0) && j < COLLISION_LIMIT {
      if !(ws[i].Some? && w == CutAtNul(ws[i].value)) { ProbeFacts(ws, w, i + 1, j + 1); }
    }
  }

  /** Another word is there, or the place is free and may not be used. */
  predicate PassedOver(ws: Words, w: Text, k: nat)
    requires |ws| == MAXTABLE
  {
    k < 32768 && if ws[k].Some? then CutAtNul(ws[k].value) != w else k % 256 == 0
  }

  /** Probing goes from place to place, over other words and over free places that may not be used, and gives up after
      twenty steps or at the end of the table. */
  lemma {:induction false} ProbeReach(ws: Words, w: Text, i: nat, j: nat)
    requires |ws| == MAXTABLE && j <= 20
    ensures var spot := ProbeFrom(ws, w, i, j);
            i <= spot.i && spot.i - i == spot.j - j && spot.j <= 20 &&
            (forall k: nat :: i <= k < spot.i ==> PassedOver(ws, w, k)) &&
            (!spot.found ==> spot.i >= 32768 || spot.j == 20 || (ws[spot.i].None? && spot.i % 256 != 0))
    decreases MAXTABLE - i
  {
    hide CutAtNul;
    if i < MAXTABLE && (ws[i].Some? || i % 256 == 0) && j < COLLISION_LIMIT {
      if !(ws[i].Some? && w == CutAtNul(ws[i].value)) {
        ProbeReach(ws, w, i + 1, j + 1);
        assert PassedOver(ws, w, i);
      }
    }
  }

  /** A place that is found holds the word; another one, unless there is none, is free and has no zero byte. */
  lemma PlaceFacts(ws: Words, text: Text)
    requires |ws| == MAXTABLE
    ensures var spot := Place(ws, text);
            (spot.found ==> spot.i < MAXTABLE && ws[spot.i].Some? && CutAtNul(ws[spot.i].value) == text) &&
            (!spot.found && !Full(spot) ==> spot.i < MAXTABLE && ws[spot.i].None? && spot.i % 256 != 0)
  {
    hide ProbeFrom, CutAtNul, HashOf;
    ProbeFacts(ws, text, HashOf(text), 0);
  }

  // ----- whole texts -----

  /** Half-way through a text: the table, what is put out, and the word being collected. */
  datatype Progress = Progress(ws: Words, out: seq<Byte>, word: seq<Byte>)

  ghost predicate InStep(st: Progress, p: nat) {
    WellPlaced(st.ws) && |st.out| + |st.word| <= p && |st.word| <= MAXWORDS
  }

  function Flushed(st: Progress): Progress
    requires WellPlaced(st.ws)
  {
    var (ws, e) := Put(st.ws, st.word);
    Progress(ws, st.out + e, [])
  }

  /** One byte of the text. */
  function Step(alnum: Byte -> bool, st: Progress, c: Byte): Progress
    requires WellPlaced(st.ws)
  {
    var more := st.(word := st.word + [c % 128]);
    if alnum(c) && |st.word| < MAXWORDS then more
    else if st.word != [] then Flushed(more)
    else st.(out := st.out + [c % 128])
  }

  /** The first `p` bytes of the text. */
  function After(alnum: Byte -> bool, ws: Words, s: seq<Byte>, p: nat): (st: Progress)
    requires WellPlaced(ws) && p <= |s|
    ensures WellPlaced(st.ws)
    decreases p
  {
    if p == 0 then Progress(ws, [], [])
    else
      StepPlaced(alnum, After(alnum, ws, s, p - 1), s[p - 1]);
      Step(alnum, After(alnum, ws, s, p - 1), s[p - 1])
  }

  function Finished(st: Progress): Progress
    requires WellPlaced(st.ws)
  {
    if st.word == [] then st else Flushed(st)
  }

  /** The table and the compressed text, a C string. */
  function Compressed(alnum: Byte -> bool, ws: Words, s: seq<Byte>): (r: (Words, Text))
    requires WellPlaced(ws)
    ensures WellPlaced(r.0) && Extends(ws, r.0) && |r.1| <= |s|
  {
    var st := Finished(After(alnum, ws, s, |s|));
    CompressedFacts(alnum, ws, s);
    (st.ws, CutAtNul(st.out))
  }

  /** Putting a word out keeps all words, and is never longer than the word. */
  lemma PutFacts(ws: Words, w: seq<Byte>)
    requires WellPlaced(ws)
    ensures var (ws', e) := Put(ws, w); WellPlaced(ws') && Extends(ws, ws') && |e| <= |w|
  {
    hide CutAtNul, Place, Padded, Full;
    var text := CutAtNul(w);
    CutEnd(w);
    PlaceFacts(ws, text);
    var spot := Place(ws, text);
    if !(|w| + 1 <= 3 || Full(spot)) && !spot.found { AddedWord(ws, spot.i, Padded(text, |w|)); }
  }

  lemma StepPlaced(alnum: Byte -> bool, st: Progress, c: Byte)
    requires WellPlaced(st.ws)
    ensures var st' := Step(alnum, st, c); WellPlaced(st'.ws) && Extends(st.ws, st'.ws)
  {
    hide Put, WellPlaced;
    PutFacts(st.ws, st.word + [c % 128]);
  }

  lemma {:induction false} AfterFacts(alnum: Byte -> bool, ws: Words, s: seq<Byte>, p: nat)
    requires WellPlaced(ws) && p <= |s|
    ensures var st := After(alnum, ws, s, p); InStep(st, p) && Extends(ws, st.ws)
    decreases p
  {
    hide Put, WellPlaced;
    if p > 0 {
      AfterFacts(alnum, ws, s, p - 1);
      var st := After(alnum, ws, s, p - 1);
      PutFacts(st.ws, st.word + [s[p - 1] % 128]);
      StepPlaced(alnum, st, s[p - 1]);
      ExtendsTrans(ws, st.ws, Step(alnum, st, s[p - 1]).ws);
    }
  }

  lemma CompressedFacts(alnum: Byte -> bool, ws: Words, s: seq<Byte>)
    requires WellPlaced(ws)
    ensures var st := Finished(After(alnum, ws, s, |s|));
            WellPlaced(st.ws) && Extends(ws, st.ws) && |CutAtNul(st.out)| <= |st.out| <= |s|
  {
    hide Put, WellPlaced, After, CutAtNul;
    AfterFacts(alnum, ws, s, |s|);
    var st := After(alnum, ws, s, |s|);
    PutFacts(st.ws, st.word);
    ExtendsTrans(ws, st.ws, Finished(st).ws);
    CutEnd(Finished(st).out);
  }
}

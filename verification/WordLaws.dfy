/**
 When text comes back from the table of words: from a clean table, from every table that can arise, and exactly
 for which alphabets.
 */
module WordLaws {
  import opened Basics
  import opened WordTable
  import opened WordRules

  /** Stripping the high bit makes no other byte than 0x80 lose being a letter. */
  predicate KeepsLetters(alnum: Byte -> bool) {
    forall c: Byte :: c != 128 && alnum(c) ==> alnum(c % 128)
  }

  /** No byte of seven bits is a letter, so that text of seven bits has no words. */
  predicate NoLetters(alnum: Byte -> bool) {
    forall c: Byte :: 0 < c < 128 ==> !alnum(c)
  }

  predicate SevenBitSafe(alnum: Byte -> bool) {
    KeepsLetters(alnum) || NoLetters(alnum)
  }

  predicate SevenBits(s: seq<Byte>) {
    forall k :: 0 <= k < |s| ==> s[k] < 128
  }

  /** Nothing in the text turns into a zero or becomes a letter when it is stripped. */
  predicate StaysItself(alnum: Byte -> bool, s: seq<Byte>) {
    forall k :: 0 <= k < |s| ==> s[k] != 128 && (alnum(s[k] % 128) ==> alnum(s[k]))
  }

  /** A word of the table that has zeros at its end is all letters in front of them. */
  predicate Entry(alnum: Byte -> bool, v: seq<Byte>) {
    var t := CutAtNul(v);
    t == v || (|t| <= MAXWORDS && forall k :: 0 <= k < |t| ==> alnum(t[k]))
  }

  ghost predicate Sound(alnum: Byte -> bool, ws: Words) {
    forall i :: 0 <= i < |ws| && ws[i].Some? ==> Entry(alnum, ws[i].value)
  }

  // ----- what the table can hold -----

  predicate LetterOrZero(alnum: Byte -> bool, c: Byte) { c == 0 || alnum(c) }

  /** A word as it is collected from any text: letters and zeros, and behind them perhaps one byte of any kind. */
  predicate Collected(alnum: Byte -> bool, w: seq<Byte>) {
    |w| <= MAXWORDS + 1 && forall k :: 0 <= k < |w| - 1 ==> LetterOrZero(alnum, w[k])
  }

  lemma EntryOfWord(alnum: Byte -> bool, w: seq<Byte>)
    requires Collected(alnum, w)
    ensures Entry(alnum, Padded(CutAtNul(w), |w|))
  {
    hide CutAtNul, Padded;
    var t := CutAtNul(w);
    CutFacts(w);
    CutPadded(t, |w|);
    CutEnd(t);
    assert 0 !in t;
    if |t| == |w| {
      PaddedFull(t, |w|);
    } else {
      forall k | 0 <= k < |t| ensures alnum(t[k]) { assert t[k] == w[k] && t[k] in t; }
    }
  }

  lemma PaddedFull(s: seq<Byte>, n: nat)
    requires |s| >= n
    ensures Padded(s, n) == s
  {
  }

  lemma PutSound(alnum: Byte -> bool, ws: Words, w: seq<Byte>)
    requires WellPlaced(ws) && Sound(alnum, ws) && Collected(alnum, w)
    ensures Sound(alnum, Put(ws, w).0)
  {
    hide CutAtNul, Padded, Place, Full, Entry, Collected;
    EntryOfWord(alnum, w);
    PlaceFacts(ws, CutAtNul(w));
  }

  ghost predicate SoundHere(alnum: Byte -> bool, st: Progress) {
    WellPlaced(st.ws) && Sound(alnum, st.ws) && |st.word| <= MAXWORDS &&
    forall k :: 0 <= k < |st.word| ==> LetterOrZero(alnum, st.word[k])
  }

  lemma StepSound(alnum: Byte -> bool, st: Progress, c: Byte)
    requires KeepsLetters(alnum) && SoundHere(alnum, st)
    ensures SoundHere(alnum, Step(alnum, st, c))
  {
    hide Put, Sound, WellPlaced;
    StepPlaced(alnum, st, c);
    if !(alnum(c) && |st.word| < MAXWORDS) && st.word != [] {
      PutSound(alnum, st.ws, st.word + [c % 128]);
    }
  }

  lemma {:induction false} AfterSound(alnum: Byte -> bool, ws: Words, s: seq<Byte>, p: nat)
    requires KeepsLetters(alnum) && WellPlaced(ws) && Sound(alnum, ws) && p <= |s|
    ensures SoundHere(alnum, After(alnum, ws, s, p))
    decreases p
  {
    hide Step, Sound, WellPlaced, KeepsLetters;
    if p > 0 {
      AfterSound(alnum, ws, s, p - 1);
      StepSound(alnum, After(alnum, ws, s, p - 1), s[p - 1]);
    }
  }

  /** Where stripping keeps letters, every text whatever keeps the table sound. */
  lemma CompressedSound(alnum: Byte -> bool, ws: Words, s: seq<Byte>)
    requires KeepsLetters(alnum) && WellPlaced(ws) && Sound(alnum, ws)
    ensures Sound(alnum, Compressed(alnum, ws, s).0)
  {
    hide After, Sound, Put, WellPlaced, KeepsLetters, CutAtNul;
    AfterSound(alnum, ws, s, |s|);
    var st := After(alnum, ws, s, |s|);
    if st.word != [] { PutSound(alnum, st.ws, st.word); }
  }

  // ----- what a text becomes -----

  /** A word found by comparing C strings is the word itself. */
  ghost predicate Exact(ws: Words, w: seq<Byte>) {
    forall i :: 0 <= i < |ws| && ws[i].Some? && CutAtNul(ws[i].value) == w ==> ws[i].value == w
  }

  /** What is put out for a word stands for it, at least as a C string. */
  lemma PutStandsFor(ws: Words, w: Text)
    requires WellPlaced(ws) && SevenBits(w)
    ensures var (ws', e) := Put(ws, w);
            0 !in e && Expanded(ws', e).Some? && CutAtNul(Expanded(ws', e).value) == w &&
            (Exact(ws, w) ==> Expanded(ws', e) == Some(w))
  {
    hide CutAtNul, Padded, Place, Full, CodeFor, Expanded;
    CutEnd(w);
    PlaceFacts(ws, w);
    PutFacts(ws, w);
    var spot := Place(ws, w);
    if |w| + 1 <= 3 || Full(spot) {
      ExpandedPlain(ws, w);
    } else {
      var ws' := Put(ws, w).0;
      PaddedFull(w, |w|);
      ExpandedCode(ws', spot.i);
    }
  }

  /** From this table this text is sure to come back: the table is clean, or it is sound and the text stays itself. */
  ghost predicate Trusted(alnum: Byte -> bool, ws: Words, s: seq<Byte>) {
    WellPlaced(ws) && 128 !in s &&
    (Clean(ws) || (KeepsLetters(alnum) && Sound(alnum, ws) && StaysItself(alnum, s)))
  }

  /** The output stands for what was read, but for the word being collected, which is letters only. */
  ghost predicate StandsFor(alnum: Byte -> bool, st: Progress, s: seq<Byte>, p: nat)
    requires p <= |s|
  {
    WellPlaced(st.ws) && 0 !in st.out && 0 !in st.word && SevenBits(st.word) && |st.word| <= MAXWORDS &&
    Expanded(st.ws, st.out).Some? && Expanded(st.ws, st.out).value + st.word == Stripped(s)[..p]
  }

  /** In the middle of a text no word of the table with zeros at its end can be found. */
  lemma MiddleExact(alnum: Byte -> bool, ws: Words, w: seq<Byte>)
    requires Clean(ws) || (Sound(alnum, ws) && w != [] && (|w| > MAXWORDS || !alnum(w[|w| - 1])))
    ensures Exact(ws, w)
  {
    hide CutAtNul;
    forall i | 0 <= i < |ws| && ws[i].Some? && CutAtNul(ws[i].value) == w ensures ws[i].value == w {
      CutEnd(ws[i].value);
      assert Clean(ws) || Entry(alnum, ws[i].value);
    }
  }

  lemma OneMore(ws: Words, out: seq<Byte>, w: seq<Byte>, s: Text, p: nat)
    requires |ws| == MAXTABLE && Expanded(ws, out).Some? && p < |s| && 128 !in s
    requires Expanded(ws, out).value + w == Stripped(s)[..p]
    ensures Expanded(ws, out).value + (w + [s[p] % 128]) == Stripped(s)[..p + 1] && 0 != s[p] % 128 < 128
  {
    hide Expanded, Stripped;
    StrippedAt(s, p);
    StrippedLength(s);
    assert s[p] in s;
    assert Stripped(s)[..p + 1] == Stripped(s)[..p] + [s[p] % 128];
  }

  /** Putting the word out, wherever it stands for itself. */
  lemma FlushedStandsFor(alnum: Byte -> bool, st: Progress, s: seq<Byte>, p: nat)
    requires p <= |s| && WellPlaced(st.ws) && 0 !in st.out && 0 !in st.word && SevenBits(st.word)
    requires Expanded(st.ws, st.out).Some? && Expanded(st.ws, st.out).value + st.word == Stripped(s)[..p]
    requires Exact(st.ws, st.word)
    ensures StandsFor(alnum, Flushed(st), s, p)
  {
    hide Expanded, Stripped, Put, WellPlaced, Extends, Exact;
    PutFacts(st.ws, st.word);
    PutStandsFor(st.ws, st.word);
    var (ws, e) := Put(st.ws, st.word);
    AllPlaced(st.ws);
    ExpandedMore(st.ws, ws, st.out, e);
  }

  lemma AllPlaced(ws: Words)
    requires WellPlaced(ws)
    ensures |ws| == MAXTABLE
  {
  }

  lemma StepStandsFor(alnum: Byte -> bool, st: Progress, s: Text, p: nat)
    requires p < |s| && StandsFor(alnum, st, s, p) && Trusted(alnum, st.ws, s)
    ensures StandsFor(alnum, Step(alnum, st, s[p]), s, p + 1)
  {
    hide Expanded, Stripped, Put, WellPlaced, Exact, Clean, Sound, KeepsLetters, Flushed;
    AllPlaced(st.ws);
    OneMore(st.ws, st.out, st.word, s, p);
    var c: Byte := s[p] % 128;
    var more := st.(word := st.word + [c]);
    if alnum(s[p]) && |st.word| < MAXWORDS {
    } else if st.word != [] {
      assert more.word[|more.word| - 1] == c;
      MiddleExact(alnum, st.ws, more.word);
      FlushedStandsFor(alnum, more, s, p + 1);
    } else {
      EmittedStandsFor(alnum, st, s, p, c);
    }
  }

  lemma EmittedStandsFor(alnum: Byte -> bool, st: Progress, s: Text, p: nat, c: Byte)
    requires p < |s| && StandsFor(alnum, st, s, p) && st.word == [] && 0 < c < 128
    requires Expanded(st.ws, st.out).value + (st.word + [c]) == Stripped(s)[..p + 1]
    ensures StandsFor(alnum, st.(out := st.out + [c]), s, p + 1)
  {
    hide Stripped, Expanded;
    ExpandedPlain(st.ws, [c]);
    ExpandedAppend(st.ws, st.out, [c]);
    var x := Expanded(st.ws, st.out).value;
    assert x + [c] + [] == x + ([] + [c]);
  }

  /** Text without 0x80 leaves a clean table clean. */
  lemma PutClean(ws: Words, w: seq<Byte>)
    requires WellPlaced(ws) && Clean(ws) && 0 !in w
    ensures Clean(Put(ws, w).0)
  {
    hide CutAtNul, Padded, Place, Full, WellPlaced;
    AllPlaced(ws);
    CutEnd(w);
    PlaceFacts(ws, w);
    PaddedFull(w, |w|);
    var spot := Place(ws, w);
    if !(|w| + 1 <= 3 || Full(spot)) && !spot.found { AddedWord(ws, spot.i, w); }
  }

  /** The invariant of compressing a text that is sure to come back. */
  lemma {:induction false} AfterStandsFor(alnum: Byte -> bool, ws: Words, s: Text, p: nat)
    requires Trusted(alnum, ws, s) && p <= |s|
    ensures var st := After(alnum, ws, s, p);
            StandsFor(alnum, st, s, p) && Trusted(alnum, st.ws, s) && (Clean(ws) ==> Clean(st.ws)) &&
            (KeepsLetters(alnum) && Sound(alnum, ws) ==> SoundHere(alnum, st))
    decreases p
  {
    hide Step, Sound, WellPlaced, KeepsLetters, StaysItself, Clean, Stripped;
    if p == 0 {
      if KeepsLetters(alnum) && Sound(alnum, ws) { AfterSound(alnum, ws, s, 0); }
      assert Stripped(s)[..0] == [];
    } else {
      AfterStandsFor(alnum, ws, s, p - 1);
      var st := After(alnum, ws, s, p - 1);
      if KeepsLetters(alnum) && Sound(alnum, ws) { AfterSound(alnum, ws, s, p); }
      StepStandsFor(alnum, st, s, p - 1);
      StepKeepsClean(alnum, st, s, p - 1);
      StepPlaced(alnum, st, s[p - 1]);
    }
  }

  lemma StepKeepsClean(alnum: Byte -> bool, st: Progress, s: Text, p: nat)
    requires p < |s| && WellPlaced(st.ws) && 128 !in s && 0 !in st.word
    ensures Clean(st.ws) ==> Clean(Step(alnum, st, s[p]).ws)
  {
    hide Put, WellPlaced, Clean;
    assert s[p] in s && s[p] % 128 != 0;
    if !(alnum(s[p]) && |st.word| < MAXWORDS) && st.word != [] && Clean(st.ws) {
      PutClean(st.ws, st.word + [s[p] % 128]);
    }
  }

  /** A text that can be trusted stands for itself without its high bits, as a C string and, from a clean table, byte
      by byte; the table stays clean. */
  lemma CompressedStandsFor(alnum: Byte -> bool, ws: Words, s: Text)
    requires Trusted(alnum, ws, s)
    ensures var (ws', r) := Compressed(alnum, ws, s);
            Expanded(ws', r).Some? && CutAtNul(Expanded(ws', r).value) == Stripped(s) &&
            (Clean(ws) ==> Clean(ws') && Expanded(ws', r) == Some(Stripped(s)))
  {
    hide After, Put, Sound, WellPlaced, KeepsLetters, StaysItself, Clean, Stripped, CutAtNul, Expanded, Exact, Extends;
    AfterStandsFor(alnum, ws, s, |s|);
    var st := After(alnum, ws, s, |s|);
    AllPlaced(st.ws);
    StrippedLength(s);
    assert Stripped(s)[..|s|] == Stripped(s);
    var x := Expanded(st.ws, st.out).value;
    CutEnd(st.out);
    if st.word == [] {
      assert x + st.word == x;
      StrippedZero(s);
      CutEnd(x);
    } else {
      PutFacts(st.ws, st.word);
      PutStandsFor(st.ws, st.word);
      var (ws', e) := Put(st.ws, st.word);
      ExpandedMore(st.ws, ws', st.out, e);
      var v := Expanded(ws', e).value;
      CutEnd(st.out + e);
      StrippedZero(s);
      FrontClean(x, st.word, Stripped(s));
      CutAppend(x, v);
      if Clean(ws) {
        MiddleExact(alnum, st.ws, st.word);
        PutClean(st.ws, st.word);
      }
    }
  }

  lemma FrontClean(x: seq<Byte>, w: seq<Byte>, s: seq<Byte>)
    requires x + w == s && 0 !in s
    ensures 0 !in x
  {
    forall k | 0 <= k < |x| ensures x[k] != 0 { assert s[k] in s; }
  }

  /** From a clean table the text without its high bits comes back exactly if the text has no byte 0x80. */
  lemma CleanExactly(alnum: Byte -> bool, ws: Words, s: Text)
    requires WellPlaced(ws) && Clean(ws)
    ensures var (ws', r) := Compressed(alnum, ws, s);
            (Expanded(ws', r).Some? && CutAtNul(Expanded(ws', r).value) == Stripped(s)) <==> 128 !in s
  {
    hide Compressed, Expanded, Clean, WellPlaced, Stripped;
    StrippedZero(s);
    if 128 !in s { CompressedStandsFor(alnum, ws, s); }
  }

  // ----- every table that can arise -----

  function Fresh(): (ws: Words)
    ensures |ws| == MAXTABLE && WellPlaced(ws) && Clean(ws)
  {
    seq(MAXTABLE, i => None)
  }

  /** The table after some texts were compressed. */
  function TableAfter(alnum: Byte -> bool, ws: Words, texts: seq<Text>): (ws': Words)
    requires WellPlaced(ws)
    ensures WellPlaced(ws')
    decreases |texts|
  {
    if texts == [] then ws else TableAfter(alnum, Compressed(alnum, ws, texts[0]).0, texts[1..])
  }

  lemma {:induction false} TableExtends(alnum: Byte -> bool, ws: Words, texts: seq<Text>)
    requires WellPlaced(ws)
    ensures Extends(ws, TableAfter(alnum, ws, texts))
    decreases |texts|
  {
    hide Compressed, WellPlaced;
    if texts != [] {
      var ws' := Compressed(alnum, ws, texts[0]).0;
      CompressedPlaced(alnum, ws, texts[0]);
      TableExtends(alnum, ws', texts[1..]);
      ExtendsTrans(ws, ws', TableAfter(alnum, ws', texts[1..]));
    }
  }

  lemma CompressedPlaced(alnum: Byte -> bool, ws: Words, s: Text)
    requires WellPlaced(ws)
    ensures WellPlaced(Compressed(alnum, ws, s).0) && Extends(ws, Compressed(alnum, ws, s).0)
  {
  }

  lemma {:induction false} TableSound(alnum: Byte -> bool, ws: Words, texts: seq<Text>)
    requires WellPlaced(ws) && KeepsLetters(alnum) && Sound(alnum, ws)
    ensures Sound(alnum, TableAfter(alnum, ws, texts))
    decreases |texts|
  {
    hide Compressed, WellPlaced, Sound, KeepsLetters;
    if texts != [] {
      CompressedPlaced(alnum, ws, texts[0]);
      CompressedSound(alnum, ws, texts[0]);
      TableSound(alnum, Compressed(alnum, ws, texts[0]).0, texts[1..]);
    }
  }

  /** A text, compressed after some texts and read back after some more, is the text again. */
  ghost predicate ComesBack(alnum: Byte -> bool, before: seq<Text>, s: Text, later: seq<Text>) {
    var (ws, r) := Compressed(alnum, TableAfter(alnum, Fresh(), before), s);
    var ws' := TableAfter(alnum, ws, later);
    |r| <= |s| && Expanded(ws', r).Some? && CutAtNul(Expanded(ws', r).value) == s
  }

  /** Without letters text of seven bits is put out as it is. */
  lemma {:induction false} AfterPlain(alnum: Byte -> bool, ws: Words, s: Text, p: nat)
    requires NoLetters(alnum) && WellPlaced(ws) && SevenBits(s) && p <= |s|
    ensures After(alnum, ws, s, p) == Progress(ws, s[..p], [])
    decreases p
  {
    hide Put, WellPlaced;
    if p > 0 {
      AfterPlain(alnum, ws, s, p - 1);
      assert s[p - 1] in s && s[p - 1] % 128 == s[p - 1];
      assert s[..p] == s[..p - 1] + [s[p - 1]];
    }
  }

  /** From any table at all that is sound if letters are kept, text of seven bits comes back, then and ever after. */
  lemma SevenBitsComeBack(alnum: Byte -> bool, ws: Words, s: Text, ws'': Words)
    requires SevenBitSafe(alnum) && WellPlaced(ws) && (KeepsLetters(alnum) ==> Sound(alnum, ws)) && SevenBits(s)
    requires Extends(Compressed(alnum, ws, s).0, ws'')
    ensures var r := Compressed(alnum, ws, s).1;
            |ws''| == MAXTABLE && Expanded(ws'', r).Some? && CutAtNul(Expanded(ws'', r).value) == s
  {
    hide After, Put, Sound, WellPlaced, KeepsLetters, Stripped, CutAtNul, Expanded, Extends, Trusted, Compressed;
    var (ws', r) := Compressed(alnum, ws, s);
    CompressedPlaced(alnum, ws, s);
    AllPlaced(ws');
    if KeepsLetters(alnum) {
      TrustedSevenBits(alnum, ws, s);
      CompressedStandsFor(alnum, ws, s);
      StrippedSame(s);
    } else {
      PlainComesBack(alnum, ws, s);
    }
    ExtendsLength(ws', ws'');
    ExpandedLater(ws', ws'', r);
  }

  lemma ExtendsLength(ws: Words, ws': Words)
    requires Extends(ws, ws')
    ensures |ws'| == |ws|
  {
  }

  lemma TrustedSevenBits(alnum: Byte -> bool, ws: Words, s: Text)
    requires KeepsLetters(alnum) && WellPlaced(ws) && Sound(alnum, ws) && SevenBits(s)
    ensures Trusted(alnum, ws, s)
  {
    hide WellPlaced, Sound, KeepsLetters, Clean;
  }

  lemma PlainComesBack(alnum: Byte -> bool, ws: Words, s: Text)
    requires NoLetters(alnum) && WellPlaced(ws) && SevenBits(s)
    ensures Compressed(alnum, ws, s) == (ws, s) && |ws| == MAXTABLE
    ensures Expanded(ws, s) == Some(s) && CutAtNul(s) == s
  {
    hide After, Put, WellPlaced, CutAtNul, Expanded, NoLetters;
    AllPlaced(ws);
    AfterPlain(alnum, ws, s, |s|);
    assert s[..|s|] == s;
    CutEnd(s);
    ExpandedPlain(ws, s);
  }

  // ----- the alphabets for which it does not -----

  /** In a table without words a word goes to its hash, or one further on. */
  function FirstPlace(text: Text): nat {
    if HashOf(text) % 256 == 0 then HashOf(text) + 1 else HashOf(text)
  }

  lemma PutFresh(w: seq<Byte>)
    requires |w| >= 3
    ensures var i := FirstPlace(CutAtNul(w));
            i < MAXTABLE && Put(Fresh(), w) == (Fresh()[i := Some(Padded(CutAtNul(w), |w|))], CodeFor(i))
  {
    hide CutAtNul, HashOf, Padded, CodeFor;
    var text := CutAtNul(w);
    var h := HashOf(text);
    assert h < MAXTABLE;
    if h % 256 == 0 {
      assert ProbeFrom(Fresh(), text, h, 0) == ProbeFrom(Fresh(), text, h + 1, 1) == Spot(h + 1, 1, false);
    } else {
      assert ProbeFrom(Fresh(), text, h, 0) == Spot(h, 0, false);
    }
  }

  /** The only word of a table is found again by its C string. */
  lemma PutAgain(text: Text, v: seq<Byte>)
    requires |text| >= 3 && CutAtNul(v) == text && FirstPlace(text) < MAXTABLE
    ensures var i := FirstPlace(text); var ws := Fresh()[i := Some(v)];
            WellPlaced(ws) && Put(ws, text) == (ws, CodeFor(i))
  {
    hide HashOf, CodeFor, CutAtNul;
    CutEnd(text);
    var i := FirstPlace(text);
    var ws := Fresh()[i := Some(v)];
    var h := HashOf(text);
    assert ws[i].Some? && text == CutAtNul(ws[i].value);
    if h % 256 == 0 {
      assert ws[h].None?;
      assert ProbeFrom(ws, text, h, 0) == ProbeFrom(ws, text, h + 1, 1) == Spot(h + 1, 1, true);
    } else {
      assert ProbeFrom(ws, text, h, 0) == Spot(h, 0, true);
    }
  }

  /** Three letters in a row and a byte behind them that is no letter of seven bits. */
  lemma AfterThree(alnum: Byte -> bool, x: Byte, c: Byte)
    requires alnum(x) && alnum(c) && 0 < x < 128 && c != 0 && c != 128
    ensures var s: seq<Byte> := [x, x, c, 128];
            Finished(After(alnum, Fresh(), s, 4)) == Flushed(Progress(Fresh(), [], [x, x, c % 128, 0]))
  {
    hide Put, Fresh;
    var s: seq<Byte> := [x, x, c, 128];
    assert Fresh() == Fresh() && WellPlaced(Fresh());
    assert After(alnum, Fresh(), s, 0) == Progress(Fresh(), [], []);
    assert After(alnum, Fresh(), s, 1) == Progress(Fresh(), [], [x]);
    assert After(alnum, Fresh(), s, 2) == Progress(Fresh(), [], [x, x]);
    assert After(alnum, Fresh(), s, 3) == Progress(Fresh(), [], [x, x, c % 128]);
    var more := Progress(Fresh(), [], [x, x, c % 128, 0]);
    assert [x, x, c % 128] + [0] == [x, x, c % 128, 0];
    assert After(alnum, Fresh(), s, 4) == if alnum(128) then more else Flushed(more);
  }

  function OneWord(text: Text, v: seq<Byte>): (ws: Words)
    requires FirstPlace(text) < MAXTABLE
    ensures WellPlaced(ws)
  {
    Fresh()[FirstPlace(text) := Some(v)]
  }

  /** The word that the table holds with a zero behind it is found in the middle of a text of seven bits. */
  lemma AfterFound(alnum: Byte -> bool, x: Byte, d: Byte, v: seq<Byte>)
    requires alnum(x) && !alnum(d) && 0 < x < 128 && 0 < d < 128
    requires FirstPlace([x, x, d]) < MAXTABLE && CutAtNul(v) == [x, x, d]
    ensures var s: seq<Byte> := [x, x, d, x]; var i := FirstPlace([x, x, d]); var ws := OneWord([x, x, d], v);
            Finished(After(alnum, ws, s, 4)) == Progress(ws, CodeFor(i) + [x], [])
  {
    hide FirstPlace, CodeFor, Put, OneWord;
    var s: seq<Byte> := [x, x, d, x];
    var w: Text := [x, x, d];
    var i := FirstPlace(w);
    var ws := OneWord(w, v);
    OneWordPut(w, v, x);
    assert After(alnum, ws, s, 0) == Progress(ws, [], []);
    assert After(alnum, ws, s, 1) == Progress(ws, [], [x]);
    assert After(alnum, ws, s, 2) == Progress(ws, [], [x, x]);
    assert [x, x] + [d] == w;
    assert After(alnum, ws, s, 3) == Flushed(Progress(ws, [], w)) == Progress(ws, [] + CodeFor(i), []);
    assert [] + CodeFor(i) == CodeFor(i);
    assert After(alnum, ws, s, 4) == Progress(ws, CodeFor(i), [x]);
  }

  lemma OneWordPut(text: Text, v: seq<Byte>, x: Byte)
    requires |text| >= 3 && CutAtNul(v) == text && FirstPlace(text) < MAXTABLE && x != 0
    ensures Put(OneWord(text, v), text) == (OneWord(text, v), CodeFor(FirstPlace(text)))
    ensures Put(OneWord(text, v), [x]) == (OneWord(text, v), [x])
  {
    hide FirstPlace, CodeFor, Place;
    PutAgain(text, v);
    CutEnd([x]);
  }

  /** What it stands for is longer by that zero, and the rest of the text is lost behind it. */
  lemma FoundReadsShort(text: Text, x: Byte)
    requires FirstPlace(text) < MAXTABLE && 0 < x < 128
    ensures var ws := OneWord(text, text + [0]); var r := CodeFor(FirstPlace(text)) + [x];
            CutAtNul(r) == r && Expanded(ws, r).Some? && CutAtNul(Expanded(ws, r).value) == text
  {
    hide FirstPlace, CodeFor, CutAtNul, Expanded;
    var i := FirstPlace(text);
    var ws := OneWord(text, text + [0]);
    ExpandedCode(ws, i);
    ExpandedPlain(ws, [x]);
    ExpandedAppend(ws, CodeFor(i), [x]);
    CutEnd(CodeFor(i) + [x]);
    assert text + [0] + [x] == text + [0, x];
    CutWhole(text, [0, x]);
  }

  /** Where a byte loses being a letter, text of seven bits can be lost: a text with a byte 0x80 behind such a letter
      leaves a word in the table with a zero at its end. */
  lemma LostBehindZero(alnum: Byte -> bool, x: Byte, c: Byte)
    requires alnum(x) && 0 < x < 128 && c != 128 && alnum(c) && !alnum(c % 128)
    ensures c != 0 && !ComesBack(alnum, [[x, x, c, 128]], [x, x, c % 128, x], [])
  {
    hide Put, CutAtNul, Expanded, FirstPlace, CodeFor, After, Finished, Padded;
    var d: Byte := c % 128;
    var w: Text := [x, x, d];
    var first: Text, s: Text := [x, x, c, 128], [x, x, d, x];
    AfterThree(alnum, x, c);
    assert w + [0] == [x, x, d, 0];
    CutWhole(w, [0]);
    PutFresh([x, x, d, 0]);
    PaddedOne(w);
    var i := FirstPlace(w);
    var ws := OneWord(w, w + [0]);
    assert Compressed(alnum, Fresh(), first).0 == ws;
    assert [first][1..] == [];
    assert TableAfter(alnum, Fresh(), [first]) == TableAfter(alnum, ws, []) == ws;
    AfterFound(alnum, x, d, w + [0]);
    FoundReadsShort(w, x);
    var r := CodeFor(i) + [x];
    assert Compressed(alnum, ws, s) == (ws, CutAtNul(r));
    assert TableAfter(alnum, ws, []) == ws && |w| < |s|;
  }

  lemma PaddedOne(w: Text)
    requires |w| == 3
    ensures Padded(w, 4) == w + [0]
  {
  }

  /** A sound table stays sound through any texts, and text of seven bits comes back. */
  lemma SafeComesBack(alnum: Byte -> bool, before: seq<Text>, s: Text, later: seq<Text>)
    requires SevenBitSafe(alnum) && SevenBits(s)
    ensures ComesBack(alnum, before, s, later)
  {
    hide Compressed, CutAtNul, Expanded, KeepsLetters, NoLetters, WellPlaced, Clean;
    var ws := TableAfter(alnum, Fresh(), before);
    FreshSound(alnum);
    if KeepsLetters(alnum) { TableSound(alnum, Fresh(), before); }
    var ws' := Compressed(alnum, ws, s).0;
    TableExtends(alnum, ws', later);
    CompressedPlaced(alnum, ws, s);
    CompressedShorter(alnum, ws, s);
    SevenBitsComeBack(alnum, ws, s, TableAfter(alnum, ws', later));
  }

  lemma CompressedShorter(alnum: Byte -> bool, ws: Words, s: Text)
    requires WellPlaced(ws)
    ensures |Compressed(alnum, ws, s).1| <= |s|
  {
  }

  lemma FreshSound(alnum: Byte -> bool)
    ensures Sound(alnum, Fresh()) && WellPlaced(Fresh())
  {
  }

  ghost predicate AllFit(texts: seq<Text>) {
    forall k :: 0 <= k < |texts| ==> |texts[k]| < BUFFER_LEN
  }

  /** Exactly for these alphabets does every text of seven bits come back from every table that texts can leave, then
      and ever after. */
  lemma SevenBitsExactly(alnum: Byte -> bool)
    ensures SevenBitSafe(alnum) <==>
      forall before: seq<Text>, s: Text, later: seq<Text> ::
        AllFit(before) && |s| < BUFFER_LEN && SevenBits(s) && AllFit(later) ==> ComesBack(alnum, before, s, later)
  {
    hide ComesBack;
    if SevenBitSafe(alnum) {
      forall before: seq<Text>, s: Text, later: seq<Text> | SevenBits(s) ensures ComesBack(alnum, before, s, later) {
        SafeComesBack(alnum, before, s, later);
      }
    } else {
      var c: Byte :| c != 128 && alnum(c) && !alnum(c % 128);
      var x: Byte :| 0 < x < 128 && alnum(x);
      LostBehindZero(alnum, x, c);
      var before: seq<Text> := [[x, x, c, 128]];
      var s: Text := [x, x, c % 128, x];
      assert AllFit(before) && SevenBits(s) && AllFit([]) && !ComesBack(alnum, before, s, []);
    }
  }
}

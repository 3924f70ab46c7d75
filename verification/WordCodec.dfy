/**
 The word codec as it runs: a table that grows, a buffer for the word being collected, and one for the output.
 */
module WordCodec {
  import opened Basics
  import opened WordTable
  import opened WordRules
  import opened WordLaws

  /** The hash of a word, byte by byte. */
  method HashFn(s: Text) returns (h: nat)
    ensures h == HashOf(s)
  {
    var hashval: nat, p := 0, 0;
    while p < |s|
      invariant p <= |s| && hashval == HashFold(s[..p])
    {
      assert s[..p + 1][..p] == s[..p];
      hashval := (hashval * 32 + hashval + s[p]) % 0x1_0000_0000;
      p := p + 1;
    }
    assert s[..p] == s;
    h := hashval % (COMPRESS_HASH_MASK + 1);
  }

  class Codec {
    const alnum: Byte -> bool
    const words: array<Option<seq<Byte>>>
    const word: array<Byte>
    const buf: array<Byte>
    var wordpos: nat
    var b: nat

    ghost predicate Valid()
      reads this, words
    {
      words.Length == MAXTABLE && word.Length == MAXWORDS + 2 && buf.Length == BUFFER_LEN && word != buf &&
      WellPlaced(words[..])
    }

    constructor InitCompress(alnum: Byte -> bool)
      ensures Valid() && words[..] == Fresh() && fresh(words) && fresh(word) && fresh(buf)
      ensures this.alnum == alnum
    {
      this.alnum := alnum;
      words := new Option<seq<Byte>>[MAXTABLE](i => None);
      word := new Byte[MAXWORDS + 2];
      buf := new Byte[BUFFER_LEN];
      wordpos := 0;
      b := 0;
    }

    /** Puts a byte behind the compressed text. */
    method Emit(c: Byte)
      requires Valid() && b < BUFFER_LEN
      modifies this`b, buf
      ensures Valid() && b == old(b) + 1 && buf[..b] == old(buf[..b]) + [c]
    {
      buf[b] := c;
      b := b + 1;
    }

    /** Puts a word behind the compressed text as it is. */
    method EmitWord(w: seq<Byte>)
      requires Valid() && b + |w| <= BUFFER_LEN
      modifies this`b, buf
      ensures Valid() && b == old(b) + |w| && buf[..b] == old(buf[..b]) + w
    {
      hide WellPlaced;
      var p := 0;
      while p < |w|
        invariant Valid() && p <= |w| && b == old(b) + p && buf[..b] == old(buf[..b]) + w[..p]
      {
        Emit(w[p]);
        p := p + 1;
      }
    }

    /** Puts the place of a word behind the compressed text. */
    method EmitCode(i: nat)
      requires Valid() && i < MAXTABLE && b + 2 <= BUFFER_LEN
      modifies this`b, buf
      ensures Valid() && b == old(b) + 2 && buf[..b] == old(buf[..b]) + CodeFor(i)
    {
      hide WellPlaced;
      Emit(i / 256 + TABLE_FLAG);
      Emit(i % 256);
    }

    /** Where in the table the word is, or where there is room for it near its hash. */
    method Probe(w: Text) returns (i: nat, j: nat, found: bool)
      requires Valid()
      ensures Spot(i, j, found) == ProbeFrom(words[..], w, HashOf(w), 0)
    {
      hide WellPlaced, CutAtNul, HashOf;
      i := HashFn(w);
      j := 0;
      while i < MAXTABLE && (words[i].Some? || i % 256 == 0) && j < COLLISION_LIMIT
        invariant ProbeFrom(words[..], w, HashOf(w), 0) == ProbeFrom(words[..], w, i, j)
        decreases MAXTABLE - i
      {
        if words[i].Some? {
          if w == CutAtNul(words[i].value) { return i, j, true; }
        }
        i := i + 1;
        j := j + 1;
      }
      found := false;
    }

    /** Puts the word collected so far behind the compressed text, as a place in the table if it can. */
    method OutputPreviousWord()
      requires Valid() && 0 < wordpos <= MAXWORDS + 1 && b + wordpos <= BUFFER_LEN
      modifies this`b, this`wordpos, buf, words, word
      ensures Valid()
      ensures words[..] == Put(old(words[..]), old(word[..wordpos])).0
      ensures b <= buf.Length && buf[..b] == old(buf[..b]) + Put(old(words[..]), old(word[..wordpos])).1
    {
      hide WellPlaced, CutAtNul, ProbeFrom, HashOf, CodeFor, Padded;
      ghost var w, ws := word[..wordpos], words[..];
      word[wordpos] := 0;
      wordpos := wordpos + 1;
      var text := CutAtNul(word[..wordpos]);
      assert word[..wordpos] == w + [0];
      CutEnd(w);
      PutFacts(ws, w);
      PlaceFacts(ws, text);
      if wordpos <= 3 {
        EmitWord(text);
        return;
      }
      var i, j, found := Probe(text);
      if found {
        EmitCode(i);
        return;
      }
      if i % 256 == 0 {
        i := i + 1;
        j := j + 1;
      }
      if i >= MAXTABLE || j >= COLLISION_LIMIT {
        EmitWord(text);
        return;
      }
      words[i] := Some(Padded(text, wordpos - 1));
      assert words[..] == ws[i := words[i]];
      EmitCode(i);
    }

    /** Half-way through a text, as the buffers hold it. */
    ghost function Here(): Progress
      reads this, buf, words, word
      requires b <= buf.Length && wordpos <= word.Length
    {
      Progress(words[..], buf[..b], word[..wordpos])
    }

    /** Adds a byte to the word. */
    method Collect(c: Byte)
      requires Valid() && wordpos <= MAXWORDS && b <= BUFFER_LEN
      modifies this`wordpos, word
      ensures wordpos == old(wordpos) + 1 && Here() == old(Here()).(word := old(word[..wordpos]) + [c])
    {
      word[wordpos] := c;
      wordpos := wordpos + 1;
    }

    /** Puts the word out and starts a new one. */
    method Flush()
      requires Valid() && 0 < wordpos <= MAXWORDS + 1 && b + wordpos <= BUFFER_LEN
      modifies this`b, this`wordpos, buf, words, word
      ensures Valid() && b <= BUFFER_LEN && wordpos == 0 && Here() == Flushed(old(Here()))
    {
      hide Put, WellPlaced;
      OutputPreviousWord();
      wordpos := 0;
    }

    /** Compresses a text. */
    method TextCompress(s: Text) returns (r: Text)
      requires Valid() && |s| < BUFFER_LEN
      modifies this`b, this`wordpos, buf, words, word
      ensures Valid() && (words[..], r) == Compressed(alnum, old(words[..]), s)
    {
      hide Put, WellPlaced, CutAtNul, Extends, Flushed;
      ghost var ws := words[..];
      b := 0;
      wordpos := 0;
      var p: nat := 0;
      while p < |s|
        invariant Valid() && p <= |s| && b <= BUFFER_LEN && wordpos <= word.Length && Here() == After(alnum, ws, s, p)
      {
        AfterFacts(alnum, ws, s, p);
        if !alnum(s[p]) || wordpos >= MAXWORDS {
          if wordpos > 0 {
            Collect(s[p] % 128);
            Flush();
          } else {
            Emit(s[p] % 128);
          }
        } else {
          Collect(s[p] % 128);
        }
        p := p + 1;
      }
      AfterFacts(alnum, ws, s, p);
      if wordpos > 0 {
        Flush();
      }
      r := CutAtNul(buf[..b] + [0]);
      CutEnd(buf[..b]);
    }

    /** Reads compressed text; none where the program would stop because there is no such word. */
    method TextUncompress(s: Text) returns (out: Option<Text>)
      requires Valid()
      ensures out == match Expanded(words[..], s) case Some(x) => Some(CutAtNul(x)) case None => None
    {
      hide CutAtNul;
      var p: nat := 0;
      var to: seq<Byte> := [];
      assert s[0..] == s;
      assert Expanded(words[..], s).Some? ==> to + Expanded(words[..], s).value == Expanded(words[..], s).value;
      while p < |s|
        invariant p <= |s|
        invariant Expanded(words[..], s) ==
          match Expanded(words[..], s[p..]) case Some(x) => Some(to + x) case None => None
      {
        var c := s[p];
        if c >= TABLE_FLAG {
          var next := if p + 1 < |s| then s[p + 1] else 0;
          var i := PlaceOf(c, next);
          if words[i].None? { return None; }
          assert s[p..][2..] == s[p + 2..];
          Joined(to, words[i].value, Expanded(words[..], s[p + 2..]));
          to := to + words[i].value;
          p := p + 1;
        } else {
          assert s[p..][1..] == s[p + 1..];
          Joined(to, [c], Expanded(words[..], s[p + 1..]));
          to := to + [c];
        }
        p := p + 1;
      }
      assert to + [] == to;
      out := Some(CutAtNul(to));
    }

    lemma Joined(a: seq<Byte>, c: seq<Byte>, x: Option<seq<Byte>>)
      ensures x.Some? ==> a + (c + x.value) == a + c + x.value
    {
    }

    /** Texts of any kind, compressed one after the other and read back at the end: for the alphabets that are safe
        every text of seven bits comes back, whatever the others were. */
    method Session(texts: seq<Text>) returns (packed: seq<Text>, back: seq<Option<Text>>)
      requires Valid() && AllFit(texts)
      modifies this`b, this`wordpos, buf, words, word
      ensures Valid() && words[..] == TableAfter(alnum, old(words[..]), texts)
      ensures |packed| == |texts| && forall i :: 0 <= i < |texts| ==> |packed[i]| <= |texts[i]|
      ensures |back| == |texts|
      ensures SevenBitSafe(alnum) && (KeepsLetters(alnum) ==> Sound(alnum, old(words[..]))) ==>
        forall i :: 0 <= i < |texts| && SevenBits(texts[i]) ==> back[i] == Some(texts[i])
    {
      hide Expanded, WellPlaced, Compressed, CutAtNul, Extends, SevenBits, SevenBitSafe, KeepsLetters, Sound, Clean;
      ghost var ws0 := words[..];
      ghost var good := SevenBitSafe(alnum) && (KeepsLetters(alnum) ==> Sound(alnum, ws0));
      packed := [];
      for n := 0 to |texts|
        invariant Valid() && TableAfter(alnum, words[..], texts[n..]) == TableAfter(alnum, ws0, texts)
        invariant |packed| == n && forall i :: 0 <= i < n ==> |packed[i]| <= |texts[i]|
        invariant good ==> (KeepsLetters(alnum) ==> Sound(alnum, words[..]))
        invariant good ==> forall i :: 0 <= i < n && SevenBits(texts[i]) ==> Reads(words[..], packed[i], texts[i])
      {
        ghost var ws := words[..];
        assert texts[n..][0] == texts[n] && texts[n..][1..] == texts[n + 1..];
        var r := TextCompress(texts[n]);
        CompressedPlaced(alnum, ws, texts[n]);
        CompressedShorter(alnum, ws, texts[n]);
        if good { NextReads(ws, texts, n, packed); }
        packed := packed + [r];
      }
      back := UncompressAll(packed);
    }

    /** The compressed text is read as that text. */
    ghost predicate Reads(ws: Words, r: Text, s: Text) {
      |ws| == MAXTABLE && Expanded(ws, r).Some? && CutAtNul(Expanded(ws, r).value) == s
    }

    lemma NextReads(ws: Words, texts: seq<Text>, n: nat, packed: seq<Text>)
      requires WellPlaced(ws) && SevenBitSafe(alnum) && (KeepsLetters(alnum) ==> Sound(alnum, ws))
      requires n < |texts| && |packed| == n
      requires forall i :: 0 <= i < n && SevenBits(texts[i]) ==> Reads(ws, packed[i], texts[i])
      ensures var (ws', r) := Compressed(alnum, ws, texts[n]);
              (KeepsLetters(alnum) ==> Sound(alnum, ws')) &&
              forall i :: 0 <= i <= n && SevenBits(texts[i]) ==> Reads(ws', (packed + [r])[i], texts[i])
    {
      hide Expanded, WellPlaced, Compressed, CutAtNul, Extends, SevenBits, SevenBitSafe, KeepsLetters, Sound, Clean;
      var (ws', r) := Compressed(alnum, ws, texts[n]);
      CompressedPlaced(alnum, ws, texts[n]);
      if KeepsLetters(alnum) { CompressedSound(alnum, ws, texts[n]); }
      AllPlaced(ws');
      forall i | 0 <= i <= n && SevenBits(texts[i]) ensures Reads(ws', (packed + [r])[i], texts[i]) {
        if i == n {
          ExtendsSelf(ws');
          SevenBitsComeBack(alnum, ws, texts[n], ws');
        } else {
          ExpandedLater(ws, ws', packed[i]);
        }
      }
    }

    lemma ExtendsSelf(ws: Words)
      ensures Extends(ws, ws)
    {
    }

    method UncompressAll(packed: seq<Text>) returns (back: seq<Option<Text>>)
      requires Valid()
      ensures |back| == |packed|
      ensures forall i :: 0 <= i < |packed| ==>
        back[i] == match Expanded(words[..], packed[i]) case Some(x) => Some(CutAtNul(x)) case None => None
    {
      hide Expanded, WellPlaced, CutAtNul;
      back := [];
      for n := 0 to |packed|
        invariant |back| == n
        invariant forall i :: 0 <= i < n ==>
          back[i] == match Expanded(words[..], packed[i]) case Some(x) => Some(CutAtNul(x)) case None => None
      {
        var text := TextUncompress(packed[n]);
        back := back + [text];
      }
    }
  }
}

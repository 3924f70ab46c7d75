/**
 Packing texts into bits, storing them as C strings, and reading them back.
 */
module HuffmanCodec {
  import opened Basics
  import opened HuffmanTree
  import opened HuffmanBuild
  import opened HuffmanSquash
  import opened HuffmanCodes
  import opened HuffmanInit

  const CHAR_BITS := 8

  // ----- bits of numbers -----

  function ToBits(v: nat, n: nat): (p: Path)
    ensures |p| == n
  {
    if n == 0 then [] else [v % 2 == 1] + ToBits(v / 2, n - 1)
  }

  lemma {:induction false} ToBitsValue(p: Path)
    ensures ToBits(Value(p), |p|) == p
  {
    if p != [] {
      ToBitsValue(p[1..]);
      assert Value(p) / 2 == Value(p[1..]);
    }
  }

  /** Bits put on top of a number that fits below them. */
  lemma {:induction false} ToBitsAdd(v: nat, n: nat, w: nat, m: nat)
    requires v < Pow2(n)
    ensures ToBits(v + w * Pow2(n), n + m) == ToBits(v, n) + ToBits(w, m)
    decreases n
  {
    if n == 0 {
      assert v == 0 && w * Pow2(0) == w;
      assert ToBits(v, 0) + ToBits(w, m) == ToBits(w, m);
    } else {
      var x := w * Pow2(n - 1);
      assert w * Pow2(n) == 2 * x by { DoubleTimes(w, Pow2(n - 1)); }
      assert (v + 2 * x) / 2 == v / 2 + x && (v + 2 * x) % 2 == v % 2;
      ToBitsAdd(v / 2, n - 1, w, m);
    }
  }

  lemma DoubleTimes(w: nat, k: nat)
    ensures w * (2 * k) == 2 * (w * k)
  {
  }

  /** Taking the lowest byte off. */
  lemma {:induction false} ToBitsSplit(v: nat, n: nat)
    requires n >= 8
    ensures ToBits(v, n) == ToBits(v % 256, 8) + ToBits(v / 256, n - 8)
  {
    ToBitsAdd(v % 256, 8, v / 256, n - 8);
    assert Pow2(8) == 256;
  }

  lemma {:induction false} ToBitsZero(n: nat)
    ensures ToBits(0, n) == Zeros(n)
  {
    if n > 0 { ToBitsZero(n - 1); }
  }

  function BitsOf(bs: seq<Byte>): (p: Path)
    ensures |p| == 8 * |bs|
  {
    if bs == [] then [] else ToBits(bs[0], 8) + BitsOf(bs[1..])
  }

  lemma {:induction false} BitsOfSnoc(bs: seq<Byte>, b: Byte)
    ensures BitsOf(bs + [b]) == BitsOf(bs) + ToBits(b, 8)
  {
    if bs == [] {
      assert bs + [b] == [b] && [b][1..] == [];
    } else {
      assert (bs + [b])[1..] == bs[1..] + [b];
      BitsOfSnoc(bs[1..], b);
    }
  }

  lemma {:induction false} Pow2Add(m: nat, n: nat)
    ensures Pow2(m + n) == Pow2(m) * Pow2(n)
  {
    if m > 0 {
      Pow2Add(m - 1, n);
      assert 2 * (Pow2(m - 1) * Pow2(n)) == 2 * Pow2(m - 1) * Pow2(n);
    }
  }

  lemma {:induction false} Pow2Grows(m: nat, n: nat)
    requires m <= n
    ensures Pow2(m) <= Pow2(n)
    decreases n
  {
    if m < n { Pow2Grows(m, n - 1); }
  }

  lemma {:induction false} ValueBound(p: Path)
    ensures Value(p) < Pow2(|p|)
  {
    if p != [] { ValueBound(p[1..]); }
  }

  // ----- what a text is encoded to -----

  /** A tree as the set-up leaves it: one leaf for every byte, good codes, eight zeros for the terminator. */
  ghost predicate IsCodeTree(t: Tree) {
    t.Node? && !t.IsLeaf() && (forall c: Byte :: ByteCount(t, c) == 1) && LeafAt(t, Zeros(8), EOS) &&
    forall p: Path, c: Byte :: LeafAt(t, p, c) && c != EOS ==> GoodCode(p)
  }

  ghost function CodeOf(t: Tree, c: Byte): (p: Path)
    requires ByteCount(t, c) == 1
    ensures LeafAt(t, p, c)
  {
    CodeIsThere(t, c);
    var p: Path :| LeafAt(t, p, c);
    p
  }

  lemma CodeIsThere(t: Tree, c: Byte)
    requires ByteCount(t, c) == 1
    ensures exists p: Path :: LeafAt(t, p, c)
  {
    var p := CodeExists(t, c);
  }

  ghost function Encoded(t: Tree, s: Text): Path
    requires forall c: Byte :: ByteCount(t, c) == 1
  {
    if s == [] then [] else CodeOf(t, s[0]) + Encoded(t, s[1..])
  }

  lemma {:induction false} EncodedSnoc(t: Tree, s: Text, c: Byte)
    requires (forall d: Byte :: ByteCount(t, d) == 1) && c != 0
    ensures Encoded(t, s + [c]) == Encoded(t, s) + CodeOf(t, c)
  {
    if s == [] {
      assert s + [c] == [c] && [c][1..] == [];
    } else {
      assert (s + [c])[1..] == s[1..] + [c];
      EncodedSnoc(t, s[1..], c);
    }
  }

  /** The bytes a text is packed into: its code, the terminator and zeros up to a full byte. */
  ghost predicate Packed(bs: seq<Byte>, e: Path) {
    |bs| == (|e| + 15) / 8 && BitsOf(bs) == (e + Zeros(15))[..8 * |bs|]
  }

  // ----- the compressor -----

  method NeededLength(s: Text, ltable: array<nat>, ghost t: Tree, ghost ctable: seq<nat>) returns (n: nat)
    requires IsCodeTree(t) && TablesFor(t, ctable, ltable[..])
    ensures n == (|Encoded(t, s)| + 15) / 8
  {
    OneCodeEach(t, ctable, ltable[..]);
    hide IsCodeTree, TablesFor, Encoded, CodeOf;
    EncodedNone(t);
    var bits := 0;
    var p: nat := 0;
    while p < |s|
      invariant p <= |s| && bits == |Encoded(t, s[..p])|
    {
      NextCode(t, s, p, ctable, ltable[..]);
      bits := bits + ltable[s[p]];
      p := p + 1;
    }
    assert s[..p] == s;
    bits := bits + CHAR_BITS * 2 - 1;
    n := bits / CHAR_BITS;
  }

  lemma ByteOff(v: nat, n: nat)
    requires v < Pow2(n) && n >= 8
    ensures v / 256 < Pow2(n - 8)
  {
    Pow2Add(8, n - 8);
    assert Pow2(8) == 256;
  }

  /** Move full bytes from the stage to the buffer. */
  method Flush(buf: array<Byte>, b0: nat, stage0: nat, bits0: nat, ghost e: Path)
      returns (b: nat, stage: nat, bits: nat)
    requires b0 + bits0 / 8 <= buf.Length && BitsOf(buf[..b0]) + ToBits(stage0, bits0) == e && stage0 < Pow2(bits0)
    modifies buf
    ensures b == b0 + bits0 / 8 && bits == bits0 % 8 && stage < Pow2(bits)
    ensures BitsOf(buf[..b]) + ToBits(stage, bits) == e
  {
    hide ToBits, BitsOf, Pow2;
    b, stage, bits := b0, stage0, bits0;
    while bits >= CHAR_BITS
      invariant b0 <= b && b + bits / 8 == b0 + bits0 / 8 && bits % 8 == bits0 % 8
      invariant b <= buf.Length && stage < Pow2(bits)
      invariant BitsOf(buf[..b]) + ToBits(stage, bits) == e
    {
      ghost var before := buf[..b];
      OneByteMore(before, stage, bits);
      buf[b] := stage % 256;
      assert buf[..b + 1] == before + [stage % 256];
      stage := stage / 256;
      bits := bits - CHAR_BITS;
      b := b + 1;
    }
  }

  lemma OneByteMore(b: seq<Byte>, stage: nat, bits: nat)
    requires bits >= 8 && stage < Pow2(bits)
    ensures BitsOf(b + [stage % 256]) + ToBits(stage / 256, bits - 8) == BitsOf(b) + ToBits(stage, bits)
    ensures stage / 256 < Pow2(bits - 8)
  {
    hide ToBits, BitsOf, Pow2;
    ToBitsSplit(stage, bits);
    BitsOfSnoc(b, stage % 256);
    ByteOff(stage, bits);
  }

  /** Put the code of one byte on the stage, above the bits already there. */
  method PutCode(stage: nat, bits: nat, code: nat, len: nat, ghost b: seq<Byte>, ghost e: Path, ghost p: Path)
      returns (stage': nat, bits': nat)
    requires bits < 8 && stage < Pow2(bits) && BitsOf(b) + ToBits(stage, bits) == e
    requires code == Value(p) && len == |p| <= CODE_BITS
    ensures bits' == bits + len && stage' < Pow2(bits')
    ensures BitsOf(b) + ToBits(stage', bits') == e + p
    ensures stage' < 0x1_0000_0000
  {
    hide ToBits, BitsOf, Value, Pow2;
    ValueBound(p);
    ToBitsAdd(stage, bits, code, len);
    ToBitsValue(p);
    stage' := stage + code * Pow2(bits);
    bits' := bits + len;
    StageFits(stage, bits, code, len);
  }

  /** Seven bits waiting and a code of 25 make at most 32. */
  lemma StageFits(stage: nat, bits: nat, code: nat, len: nat)
    requires bits < 8 && len <= CODE_BITS && stage < Pow2(bits) && code < Pow2(len)
    ensures stage + code * Pow2(bits) < Pow2(bits + len)
    ensures Pow2(bits + len) <= 0x1_0000_0000
  {
    hide Pow2;
    Pow2Add(bits, len);
    OneMoreTimes(code, Pow2(len), Pow2(bits));
    Pow2Grows(bits + len, 32);
    Pow2Of32();
  }

  lemma {:induction false} OneMoreTimes(a: nat, b: nat, k: nat)
    requires a < b
    ensures a * k + k <= k * b
  {
    assert (a + 1) * k <= b * k;
  }

  lemma Pow2Of32()
    ensures Pow2(32) == 0x1_0000_0000
  {
    Pow2Add(16, 16);
    Pow2Add(8, 8);
    assert Pow2(8) == 256;
  }

  /** The codes of a text, one after the other; full bytes go to the buffer, the rest stays on the stage. */
  method WriteCodes(s: Text, ctable: array<nat>, ltable: array<nat>, buf: array<Byte>, ghost t: Tree)
    returns (b: nat, stage: nat, bits: nat)
    requires IsCodeTree(t) && TablesFor(t, ctable[..], ltable[..])
    requires (forall c: Byte :: ByteCount(t, c) == 1) && |Encoded(t, s)| <= 8 * buf.Length
    modifies buf
    ensures bits < 8 && stage < Pow2(bits) && b <= buf.Length && 8 * b + bits == |Encoded(t, s)|
    ensures BitsOf(buf[..b]) + ToBits(stage, bits) == Encoded(t, s)
  {
    hide ToBits, BitsOf, Pow2, Value, Encoded, IsCodeTree, TablesFor, CodeOf;
    b, stage, bits := 0, 0, 0;
    var p: nat := 0;
    StartWriting(t);
    assert buf[..0] == [] && s[..0] == [];
    while p < |s|
      invariant p <= |s| && bits < 8 && stage < Pow2(bits) && b <= buf.Length
      invariant TablesFor(t, ctable[..], ltable[..]) && 8 * b + bits == |Encoded(t, s[..p])|
      invariant BitsOf(buf[..b]) + ToBits(stage, bits) == Encoded(t, s[..p])
    {
      NextCode(t, s, p, ctable[..], ltable[..]);
      TableLengths(t, ctable[..], ltable[..]);
      stage, bits := PutCode(stage, bits, ctable[s[p]], ltable[s[p]], buf[..b], Encoded(t, s[..p]), CodeOf(t, s[p]));
      b, stage, bits := Flush(buf, b, stage, bits, Encoded(t, s[..p + 1]));
      p := p + 1;
    }
    assert s[..p] == s;
  }

  lemma TableLengths(t: Tree, ctable: seq<nat>, ltable: seq<nat>)
    requires TablesFor(t, ctable, ltable)
    ensures |ctable| == |ltable| == TABLE_SIZE
  {
  }

  /** Compress a text. */
  method TextCompress(s: Text, ctable: array<nat>, ltable: array<nat>, ghost t: Tree) returns (buf: array<Byte>)
    requires IsCodeTree(t) && TablesFor(t, ctable[..], ltable[..])
    ensures fresh(buf) && Packed(buf[..], Encoded(t, s))
  {
    OneCodeEach(t, ctable[..], ltable[..]);
    hide ToBits, BitsOf, Pow2, Value, Encoded, IsCodeTree, TablesFor, CodeOf, Packed;
    var needed := NeededLength(s, ltable, t, ctable[..]);
    buf := new Byte[needed];
    var b, stage, bits := WriteCodes(s, ctable, ltable, buf, t);
    TerminatorLength(t, ctable[..], ltable[..]);
    WriteEnding(buf, b, stage, bits, ltable[EOS], Encoded(t, s));
  }

  /** The terminating byte is eight zeros, and zeros fill the last byte. */
  method WriteEnding(buf: array<Byte>, b0: nat, stage0: nat, bits0: nat, endLength: nat, ghost e: Path)
    requires bits0 < 8 && stage0 < Pow2(bits0) && b0 <= buf.Length && 8 * b0 + bits0 == |e| && endLength == 8
    requires BitsOf(buf[..b0]) + ToBits(stage0, bits0) == e && buf.Length == (|e| + 15) / 8
    modifies buf
    ensures Packed(buf[..], e)
  {
    hide ToBits, BitsOf, Pow2, Packed;
    PadZeros(buf[..b0], stage0, bits0, e);
    var b, stage, bits := Flush(buf, b0, stage0, bits0 + endLength + CHAR_BITS - 1, e + Zeros(15));
    assert buf[..b] == buf[..];
    PackedWhole(buf[..], ToBits(stage, bits), e);
  }

  lemma PackedWhole(bs: seq<Byte>, rest: Path, e: Path)
    requires |bs| == (|e| + 15) / 8 && BitsOf(bs) + rest == e + Zeros(15)
    ensures Packed(bs, e)
  {
    hide BitsOf;
    assert (BitsOf(bs) + rest)[..8 * |bs|] == BitsOf(bs);
  }

  lemma OneCodeEach(t: Tree, ctable: seq<nat>, ltable: seq<nat>)
    requires IsCodeTree(t) && TablesFor(t, ctable, ltable)
    ensures (forall c: Byte :: ByteCount(t, c) == 1) && |ctable| == |ltable| == TABLE_SIZE
  {
  }

  lemma EncodedNone(t: Tree)
    requires IsCodeTree(t)
    ensures Encoded(t, []) == []
  {
  }

  lemma TerminatorLength(t: Tree, ctable: seq<nat>, ltable: seq<nat>)
    requires IsCodeTree(t) && TablesFor(t, ctable, ltable)
    ensures ltable[EOS] == 8
  {
  }

  lemma StartWriting(t: Tree)
    requires IsCodeTree(t)
    ensures BitsOf([]) + ToBits(0, 0) == Encoded(t, []) && 0 < Pow2(0)
  {
  }

  /** The code of the next byte, and room for it. */
  lemma {:induction false} NextCode(t: Tree, s: Text, p: nat, ctable: seq<nat>, ltable: seq<nat>)
    requires IsCodeTree(t) && TablesFor(t, ctable, ltable) && p < |s|
    ensures ctable[s[p]] == Value(CodeOf(t, s[p])) && ltable[s[p]] == |CodeOf(t, s[p])| <= CODE_BITS
    ensures Encoded(t, s[..p + 1]) == Encoded(t, s[..p]) + CodeOf(t, s[p])
    ensures |Encoded(t, s[..p + 1])| <= |Encoded(t, s)|
  {
    OneCodeEach(t, ctable, ltable);
    hide Value, CodeOf, IsCodeTree, TablesFor, Encoded, LeafAt, ByteCount;
    CodeEntry(t, s[p], ctable, ltable);
    EncodedNext(t, s, p);
    EncodedPrefix(t, s, p + 1);
  }

  lemma EncodedNext(t: Tree, s: Text, p: nat)
    requires (forall d: Byte :: ByteCount(t, d) == 1) && p < |s|
    ensures Encoded(t, s[..p + 1]) == Encoded(t, s[..p]) + CodeOf(t, s[p])
  {
    hide CodeOf, Encoded, ByteCount;
    assert s[..p + 1] == s[..p] + [s[p]] && s[p] in s;
    EncodedSnoc(t, s[..p], s[p]);
  }

  lemma EncodedPrefix(t: Tree, s: Text, p: nat)
    requires (forall d: Byte :: ByteCount(t, d) == 1) && p <= |s|
    ensures |Encoded(t, s[..p])| <= |Encoded(t, s)|
  {
    hide CodeOf, Encoded, ByteCount;
    EncodedAppend(t, s[..p], s[p..]);
    assert s == s[..p] + s[p..];
  }

  lemma CodeEntry(t: Tree, c: Byte, ctable: seq<nat>, ltable: seq<nat>)
    requires IsCodeTree(t) && TablesFor(t, ctable, ltable) && c != 0
    ensures |ctable| == |ltable| == TABLE_SIZE && ByteCount(t, c) == 1
    ensures ctable[c] == Value(CodeOf(t, c)) && ltable[c] == |CodeOf(t, c)| <= CODE_BITS
  {
    hide Value, CodeOf;
    assert LeafAt(t, CodeOf(t, c), c);
  }

  lemma {:induction false} EncodedAppend(t: Tree, a: Text, b: Text)
    requires forall d: Byte :: ByteCount(t, d) == 1
    ensures Encoded(t, a + b) == Encoded(t, a) + Encoded(t, b)
  {
    if a == [] {
      assert a + b == b;
    } else {
      assert (a + b)[1..] == a[1..] + b;
      EncodedAppend(t, a[1..], b);
    }
  }

  lemma PadZeros(b: seq<Byte>, stage: nat, bits: nat, e: Path)
    requires stage < Pow2(bits) && BitsOf(b) + ToBits(stage, bits) == e
    ensures stage < Pow2(bits + 15) && BitsOf(b) + ToBits(stage, bits + 15) == e + Zeros(15)
  {
    hide ToBits, BitsOf, Pow2;
    Pow2Grows(bits, bits + 15);
    ToBitsAdd(stage, bits, 0, 15);
    ToBitsZero(15);
  }
}

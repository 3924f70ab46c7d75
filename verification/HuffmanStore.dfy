/**
 Which compressed texts the store of chunks takes.
 */
module HuffmanStore {
  import opened Basics
  import opened HuffmanTree
  import opened HuffmanCodes
  import opened HuffmanCodec
  import opened HuffmanDecode

  /** The code of a text has no one behind the bytes that a chunk holds. */
  predicate FitsChunk(e: Path) { forall i :: 8 * MAX_CHUNK_LEN <= i < |e| ==> !e[i] }

  /** A text, compressed and cut at its first zero, is taken by the store exactly if its code has no one too far
      behind. */
  lemma StoredExactly(t: Tree, s: Text, bs: seq<Byte>)
    requires IsCodeTree(t) && Packed(bs, Encoded(t, s)) && s != []
    ensures 1 <= |CutAtNul(bs)| <= MAX_CHUNK_LEN <==> FitsChunk(Encoded(t, s))
  {
    hide IsCodeTree, Packed, BitAt, CutAtNul, Encoded;
    OneCode(t);
    var e, m := Encoded(t, s), |CutAtNul(bs)|;
    StoredText(t, s, bs);
    CutNotEmpty(t, s, bs);
    PackedLonger(bs, e);
    CutFacts(bs);
    if m <= MAX_CHUNK_LEN {
      if m < |bs| { PackedByteZero(bs, e, m); }
    } else {
      PackedByteZero(bs, e, MAX_CHUNK_LEN);
    }
  }

  lemma PackedLonger(bs: seq<Byte>, e: Path)
    requires Packed(bs, e)
    ensures |e| < 8 * |bs|
  {
  }

  lemma CutNotEmpty(t: Tree, s: Text, bs: seq<Byte>)
    requires IsCodeTree(t) && Packed(bs, Encoded(t, s)) && s != []
    ensures |CutAtNul(bs)| >= 1
  {
    hide IsCodeTree, Packed, BitAt, Encoded;
    StoredText(t, s, bs);
    FirstByte(t, s, CutAtNul(bs) + [0]);
  }

  lemma {:induction false} EncodedBound(t: Tree, s: Text, n: nat)
    requires (forall c: Byte :: ByteCount(t, c) == 1) && forall c: Byte :: c != 0 ==> |CodeOf(t, c)| <= n
    ensures |Encoded(t, s)| <= n * |s|
  {
    if s != [] {
      assert s[0] in s;
      EncodedBound(t, s[1..], n);
      assert n * |s| == n + n * (|s| - 1);
    }
  }

  /** `n` times the same byte. */
  function Repeated(c: Byte, n: nat): (s: Text)
    requires c != 0
    ensures |s| == n
  {
    if n == 0 then [] else
      var s: Text := [c] + Repeated(c, n - 1);
      s
  }

  lemma {:induction false} RepeatedLength(t: Tree, c: Byte, n: nat)
    requires (forall d: Byte :: ByteCount(t, d) == 1) && c != 0
    ensures |Encoded(t, Repeated(c, n))| == n * |CodeOf(t, c)|
  {
    if n > 0 {
      assert Repeated(c, n)[1..] == Repeated(c, n - 1);
      RepeatedLength(t, c, n - 1);
      assert n * |CodeOf(t, c)| == |CodeOf(t, c)| + (n - 1) * |CodeOf(t, c)|;
    }
  }

  /** At most two zeros at the end: there is a one among the last three bits. */
  lemma {:induction false} LateOne(p: Path, k: nat) returns (j: nat)
    requires RunAfter(p, k) <= 2 && |p| + k >= 3 && |p| > 0
    ensures j < |p| && p[j] && j + 3 >= |p|
    decreases |p|
  {
    if p[0] && |p| <= 3 {
      j := 0;
    } else {
      assert |p| > 1;
      j := LateOne(p[1..], if p[0] then 0 else k + 1);
      j := j + 1;
    }
  }

  /** Every text that fits a buffer can be stored exactly if no code has more than sixteen bits. */
  lemma AllStoredExactly(t: Tree)
    requires IsCodeTree(t)
    ensures (forall s: Text :: |s| < BUFFER_LEN ==> FitsChunk(Encoded(t, s))) <==>
            (forall c: Byte :: c != 0 ==> |CodeOf(t, c)| <= 16)
  {
    hide CodeOf, Encoded, RunAfter, FitsChunk;
    if forall c: Byte :: c != 0 ==> |CodeOf(t, c)| <= 16 {
      forall s: Text | |s| < BUFFER_LEN ensures FitsChunk(Encoded(t, s)) {
        EncodedBound(t, s, 16);
        ShortFits(Encoded(t, s));
      }
    } else {
      var c: Byte :| c != 0 && |CodeOf(t, c)| > 16;
      LongCode(t, c);
    }
  }

  lemma ShortFits(e: Path)
    requires |e| <= 16 * (BUFFER_LEN - 1)
    ensures FitsChunk(e)
  {
  }

  /** A text of nothing but a byte whose code is longer. */
  lemma LongCode(t: Tree, c: Byte)
    requires IsCodeTree(t) && c != 0 && |CodeOf(t, c)| > 16
    ensures !FitsChunk(Encoded(t, Repeated(c, BUFFER_LEN - 1)))
  {
    hide CodeOf, Encoded, RunAfter, IsCodeTree;
    var s := Repeated(c, BUFFER_LEN - 1);
    OneCode(t);
    RepeatedLength(t, c, BUFFER_LEN - 1);
    EncodedRuns(t, s, 0);
    assert |Encoded(t, s)| >= 17 * (BUFFER_LEN - 1);
    var j := LateOne(Encoded(t, s), 0);
  }

  lemma OneCode(t: Tree)
    requires IsCodeTree(t)
    ensures forall c: Byte :: ByteCount(t, c) == 1
  {
  }
}

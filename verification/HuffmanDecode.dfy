/**
 Reading compressed texts back, bit by bit along the tree.
 */
module HuffmanDecode {
  import opened Basics
  import opened HuffmanTree
  import opened HuffmanBuild
  import opened HuffmanSquash
  import opened HuffmanCodes
  import opened HuffmanInit
  import opened HuffmanCodec

  function BitAt(s: seq<Byte>, i: nat): bool
    requires i < 8 * |s|
  {
    ToBits(s[i / 8], 8)[i % 8]
  }

  /** What the decoder writes from bit `i` on, standing at `node` with `n` bytes written; none when it
      would follow a missing child or read past the end. */
  function Decoded(t: Tree, s: seq<Byte>, i: nat, node: Tree, n: nat): Option<seq<Byte>>
    decreases 8 * |s| - i
  {
    if i >= 8 * |s| || node.Nil? then None
    else
      var next := if BitAt(s, i) then node.right else node.left;
      if next.Nil? then None
      else if !next.IsLeaf() then Decoded(t, s, i + 1, next, n)
      else if s[i / 8] == 0 || n + 1 >= BUFFER_LEN - 1 || next.c == EOS then Some([next.c])
      else
        match Decoded(t, s, i + 1, t, n + 1)
        case Some(rest) => Some([next.c] + rest)
        case None => None
  }

  /** The decoder's answer as a C string; an empty input is an empty text. */
  function Uncompressed(t: Tree, s: seq<Byte>): Option<Text> {
    if s == [] || s[0] == 0 then Some([])
    else match Decoded(t, s, 0, t, 0)
      case Some(out) => Some(CutAtNul(out))
      case None => None
  }

  /** The decoder as it runs, on a string that ends in a zero. */
  method TextUncompress(ctop: CNode, s: seq<Byte>) returns (out: Text)
    requires ctop.Valid() && |s| > 0 && s[|s| - 1] == 0 && Uncompressed(ctop.Tree(), s).Some?
    ensures Some(out) == Uncompressed(ctop.Tree(), s)
  {
    hide CNode.Valid, CNode.Tree, ToBits, BitAt, CutAtNul;
    if s[0] == 0 { return []; }
    ghost var t := ctop.Tree();
    var buf: seq<Byte> := [];
    var node: CNode := ctop;
    var i := 0;
    assert buf + Decoded(t, s, 0, t, 0).value == Decoded(t, s, 0, t, 0).value;
    while true
      invariant i <= 8 * |s| && node.Valid() && Decoded(t, s, i, node.Tree(), |buf|).Some?
      invariant Decoded(t, s, 0, t, 0) == Some(buf + Decoded(t, s, i, node.Tree(), |buf|).value)
      decreases 8 * |s| - i
    {
      node.Children();
      var next := if BitAt(s, i) then node.right else node.left;
      assert next != null;
      node := next;
      node.Children();
      if node.left == null && node.right == null {
        ghost var more := Decoded(t, s, i + 1, t, |buf| + 1);
        assert more.Some? ==> buf + ([node.c] + more.value) == buf + [node.c] + more.value;
        buf := buf + [node.c];
        if s[i / 8] == 0 || |buf| >= BUFFER_LEN - 1 || node.c == EOS {
          out := CutAtNul(buf);
          return;
        }
        node := ctop;
      }
      i := i + 1;
    }
  }

  // ----- no zero byte comes too early -----

  /** Short runs shift: what matters is that the zeros in front and at the start stay below eight. */
  lemma {:induction false} RunShift(p: Path, k0: nat, k: nat)
    requires true in p && RunsShort(p, k0) && k + LeadingZeros(p) <= 7
    ensures RunsShort(p, k) && RunAfter(p, k) == RunAfter(p, k0)
    decreases |p|
  {
    if !p[0] {
      assert true in p[1..];
      RunShift(p[1..], k0 + 1, k + 1);
    }
  }

  lemma {:induction false} RunsAppend(p: Path, q: Path, k: nat)
    ensures RunAfter(p + q, k) == RunAfter(q, RunAfter(p, k))
    ensures RunsShort(p + q, k) <==> RunsShort(p, k) && RunsShort(q, RunAfter(p, k))
    decreases |p|
  {
    if p == [] {
      assert p + q == q;
      if k > 7 && q != [] { }
    } else {
      assert (p + q)[1..] == p[1..] + q;
      RunsAppend(p[1..], q, if p[0] then 0 else k + 1);
    }
  }

  /** In the code of a text there are never more than seven zeros in a row, and at most two at the end. */
  lemma {:induction false} EncodedRuns(t: Tree, s: Text, k: nat)
    requires IsCodeTree(t) && k <= 2
    ensures RunsShort(Encoded(t, s), k) && RunAfter(Encoded(t, s), k) <= 2
    decreases |s|
  {
    if s != [] {
      var p := CodeOf(t, s[0]);
      assert s[0] in s && LeafAt(t, p, s[0]) && GoodCode(p);
      RunShift(p, 0, k);
      EncodedRuns(t, s[1..], RunAfter(p, k));
      RunsAppend(p, Encoded(t, s[1..]), k);
    }
  }

  lemma {:induction false} ZerosRun(p: Path, n: nat, k: nat)
    requires n <= |p| && (forall j :: 0 <= j < n ==> !p[j]) && RunsShort(p, k)
    ensures k + n <= 7
    decreases n
  {
    if n > 0 { ZerosRun(p[1..], n - 1, k + 1); }
  }

  lemma {:induction false} RunsDrop(p: Path, i: nat, k: nat) returns (k': nat)
    requires i <= |p| && RunsShort(p, k)
    ensures RunsShort(p[i..], k')
    decreases i
  {
    if i == 0 {
      k' := k;
      assert p[0..] == p;
    } else {
      k' := RunsDrop(p[1..], i - 1, if p[0] then 0 else k + 1);
      assert p[1..][i - 1..] == p[i..];
    }
  }

  /** Eight bits of a text's code are never all zero. */
  lemma EightNotZero(t: Tree, s: Text, i: nat)
    requires IsCodeTree(t) && i + 8 <= |Encoded(t, s)|
    ensures exists j :: i <= j < i + 8 && Encoded(t, s)[j]
  {
    var e := Encoded(t, s);
    EncodedRuns(t, s, 0);
    var k := RunsDrop(e, i, 0);
    if forall j :: i <= j < i + 8 ==> !e[j] {
      ZerosRun(e[i..], 8, k);
      assert false;
    }
  }

  // ----- what is stored -----

  /** The stored string `s`, its closing zero included, stands for the bits of `e` followed by zeros;
      it ends inside the last byte of `e` or at least eight bits behind it. */
  ghost predicate Stored(s: seq<Byte>, e: Path) {
    |s| > 0 && s[|s| - 1] == 0 && (forall k :: 0 <= k < |s| - 1 ==> s[k] != 0) && |e| <= 8 * |s| &&
    (forall i :: 0 <= i < 8 * |s| ==> (BitAt(s, i) <==> i < |e| && e[i])) &&
    (8 * |s| >= |e| + 8 || (|e| > 0 && (|e| - 1) / 8 == |s| - 1))
  }

  lemma ByteZero(b: Byte)
    ensures b == 0 <==> forall j :: 0 <= j < 8 ==> !ToBits(b, 8)[j]
  {
    ToBitsZero(8);
    if b != 0 && forall j :: 0 <= j < 8 ==> !ToBits(b, 8)[j] {
      assert ToBits(b, 8) == Zeros(8);
      BitsValue(b, 8);
      BitsValue(0, 8);
    }
  }

  lemma OneBit(b: Byte, j: nat)
    requires j < 8 && ToBits(b, 8)[j]
    ensures b != 0
  {
  }

  lemma {:induction false} BitsValue(v: nat, n: nat)
    requires v < Pow2(n)
    ensures Value(ToBits(v, n)) == v
    decreases n
  {
    if n > 0 {
      var p := ToBits(v, n);
      assert p[1..] == ToBits(v / 2, n - 1) && p[0] == (v % 2 == 1);
      BitsValue(v / 2, n - 1);
    }
  }

  lemma {:induction false} BitsOfAt(bs: seq<Byte>, i: nat)
    requires i < 8 * |bs|
    ensures BitsOf(bs)[i] == BitAt(bs, i)
    decreases |bs|
  {
    if i >= 8 {
      BitsOfAt(bs[1..], i - 8);
      assert (i - 8) / 8 == i / 8 - 1 && (i - 8) % 8 == i % 8;
      assert bs[1..][i / 8 - 1] == bs[i / 8];
    }
  }

  lemma PackedBit(bs: seq<Byte>, e: Path, i: nat)
    requires Packed(bs, e) && i < 8 * |bs|
    ensures BitAt(bs, i) <==> i < |e| && e[i]
  {
    BitsOfAt(bs, i);
    assert (e + Zeros(15))[..8 * |bs|][i] == (e + Zeros(15))[i];
  }

  lemma ByteBits(bs: seq<Byte>, e: Path, k: nat, j: nat)
    requires Packed(bs, e) && k < |bs| && j < 8
    ensures ToBits(bs[k], 8)[j] <==> 8 * k + j < |e| && e[8 * k + j]
  {
    hide ToBits, BitsOf, Packed;
    PackedBit(bs, e, 8 * k + j);
    assert (8 * k + j) / 8 == k && (8 * k + j) % 8 == j;
  }

  lemma PackedByteZero(bs: seq<Byte>, e: Path, k: nat)
    requires Packed(bs, e) && k < |bs|
    ensures bs[k] == 0 <==> forall i :: 8 * k <= i < 8 * k + 8 && i < |e| ==> !e[i]
  {
    hide ToBits, BitsOf, Packed;
    ByteZero(bs[k]);
    BitsLength(bs[k]);
    if bs[k] == 0 {
      forall i | 8 * k <= i < 8 * k + 8 && i < |e| ensures !e[i] {
        ByteBits(bs, e, k, i - 8 * k);
        assert 8 * k + (i - 8 * k) == i;
      }
    } else {
      var j :| 0 <= j < 8 && ToBits(bs[k], 8)[j];
      ByteBits(bs, e, k, j);
    }
  }

  lemma BitsLength(b: Byte)
    ensures |ToBits(b, 8)| == 8
  {
  }

  /** Cutting the packed bytes at their first zero loses nothing but zeros. */
  lemma StoredText(t: Tree, s: Text, bs: seq<Byte>)
    requires IsCodeTree(t) && Packed(bs, Encoded(t, s))
    ensures Stored(CutAtNul(bs) + [0], Encoded(t, s))
  {
    hide ToBits, BitsOf;
    var e := Encoded(t, s);
    var cut := CutAtNul(bs);
    var st: seq<Byte> := cut + [0];
    CutFacts(bs);
    var m := |cut|;
    PackedByteZero(bs, e, |bs| - 1);
    assert m < |bs|;
    PackedByteZero(bs, e, m);
    if 8 * m + 8 <= |e| {
      EightNotZero(t, s, 8 * m);
      assert false;
    }
    assert bs[..m + 1] == st;
    forall i | 0 <= i < 8 * |st| ensures BitAt(st, i) <==> i < |e| && e[i] {
      PackedBit(bs, e, i);
      assert st[i / 8] == bs[i / 8];
    }
    forall k | 0 <= k < |st| - 1 ensures st[k] != 0 {
      assert st[k] == cut[k] && cut[k] in cut;
    }
  }

  // ----- reading back -----

  /** Walking down to a leaf along the stored bits. */
  lemma {:induction false} WalkDown(t: Tree, s: seq<Byte>, i: nat, node: Tree, p: Path, c: Byte, n: nat)
    requires LeafAt(node, p, c) && p != [] && i + |p| <= 8 * |s|
    requires forall j :: 0 <= j < |p| ==> BitAt(s, i + j) == p[j]
    ensures var last := i + |p| - 1;
            Decoded(t, s, i, node, n) ==
            if s[last / 8] == 0 || n + 1 >= BUFFER_LEN - 1 || c == EOS then Some([c])
            else match Decoded(t, s, last + 1, t, n + 1)
              case Some(rest) => Some([c] + rest)
              case None => None
    decreases |p|
  {
    hide ToBits;
    assert BitAt(s, i + 0) == p[0];
    var next := if p[0] then node.right else node.left;
    if |p| > 1 {
      assert LeafAt(next, p[1..], c) && !next.IsLeaf() by { InnerNode(next, p[1..], c); }
      forall j | 0 <= j < |p[1..]| ensures BitAt(s, i + 1 + j) == p[1..][j] {
        assert BitAt(s, i + (j + 1)) == p[j + 1];
      }
      WalkDown(t, s, i + 1, next, p[1..], c, n);
    } else {
      assert LeafAt(next, p[1..], c) && p[1..] == [];
    }
  }

  /** The byte in which a code ends that is not the last is not zero. */
  lemma MoreToCome(t: Tree, s: Text, st: seq<Byte>, e: Path, pre: Path)
    requires IsCodeTree(t) && s != [] && e == pre + Encoded(t, s) && pre != [] && Stored(st, e)
    ensures st[(|pre| - 1) / 8] != 0
  {
    hide ToBits;
    var k := (|pre| - 1) / 8;
    if k == |st| - 1 {
      var p := CodeOf(t, s[0]);
      assert s[0] in s && LeafAt(t, p, s[0]) && GoodCode(p);
      var j :| 0 <= j < |p| && p[j];
      var i := |pre| + j;
      assert e[i] && i < |e|;
      assert BitAt(st, i);
      assert i / 8 == k;
      OneBit(st[k], i % 8);
    }
  }

  lemma StoredPart(st: seq<Byte>, e: Path, pre: Path, p: Path, rest: Path)
    requires Stored(st, e) && e == pre + p + rest
    ensures |pre| + |p| <= 8 * |st| && forall j :: 0 <= j < |p| ==> BitAt(st, |pre| + j) == p[j]
  {
  }

  /** The decoder reads one character of a text's code and goes on behind it. */
  lemma {:induction false} OneCharacter(t: Tree, s: Text, st: seq<Byte>, e: Path, pre: Path, n: nat) returns (p: Path)
    requires IsCodeTree(t) && s != [] && e == pre + Encoded(t, s) && Stored(st, e)
    ensures p != [] && |pre| + |p| <= 8 * |st| && e == (pre + p) + Encoded(t, s[1..])
    ensures Decoded(t, st, |pre|, t, n) ==
            if st[(|pre| + |p| - 1) / 8] == 0 || n + 1 >= BUFFER_LEN - 1 then Some([s[0]])
            else match Decoded(t, st, |pre| + |p|, t, n + 1)
              case Some(rest) => Some([s[0]] + rest)
              case None => None
  {
    hide GoodCode, Decoded, BitAt, Stored;
    p := CodeOf(t, s[0]);
    assert s[0] in s && LeafAt(t, p, s[0]);
    RootInner(t, p, s[0]);
    var rest := Encoded(t, s[1..]);
    assert pre + Encoded(t, s) == pre + p + rest;
    hide IsCodeTree, Encoded, LeafAt;
    StoredPart(st, e, pre, p, rest);
    WalkDown(t, st, |pre|, t, p, s[0], n);
  }

  /** From the start of any remaining text the decoder writes that text, with at most a zero behind it. */
  lemma {:induction false} DecodesRest(t: Tree, s: Text, st: seq<Byte>, e: Path, pre: Path, n: nat)
    requires IsCodeTree(t) && e == pre + Encoded(t, s) && Stored(st, e) && n + |s| <= BUFFER_LEN - 1
    requires s == [] ==> 8 * |st| >= |e| + 8
    ensures Decoded(t, st, |pre|, t, n) == Some(s) || Decoded(t, st, |pre|, t, n) == Some(s + [0])
    decreases |s|
  {
    hide ToBits, GoodCode, Decoded, IsCodeTree, BitAt;
    if s == [] {
      assert e == pre && s + [0] == [0];
      TailDecodes(t, st, e, n);
    } else {
      var p := OneCharacter(t, s, st, e, pre, n);
      var pre' := pre + p;
      var rest := s[1..];
      assert s == [s[0]] + rest && s + [0] == [s[0]] + (rest + [0]);
      if rest != [] {
        MoreToCome(t, rest, st, e, pre');
        DecodesRest(t, rest, st, e, pre', n + 1);
      } else {
        assert s == [s[0]];
        if st[(|pre'| - 1) / 8] == 0 || n + 1 >= BUFFER_LEN - 1 { return; }
        assert |e| == |pre'| && st[|st| - 1] == 0;
        TailDecodes(t, st, e, n + 1);
        assert [s[0]] + [0] == s + [0];
      }
    }
  }

  lemma RootInner(t: Tree, p: Path, c: Byte)
    requires IsCodeTree(t) && LeafAt(t, p, c)
    ensures p != []
  {
  }

  /** Behind the text the zeros lead to the terminator. */
  lemma TailDecodes(t: Tree, st: seq<Byte>, e: Path, n: nat)
    requires IsCodeTree(t) && Stored(st, e) && 8 * |st| >= |e| + 8
    ensures Decoded(t, st, |e|, t, n) == Some([0])
  {
    hide ToBits;
    forall j | 0 <= j < 8 ensures BitAt(st, |e| + j) == Zeros(8)[j] {
    }
    WalkDown(t, st, |e|, t, Zeros(8), EOS, n);
  }

  lemma {:induction false} CutText(s: Text)
    ensures CutAtNul(s) == s && CutAtNul(s + [0]) == s
  {
    if s != [] {
      assert s[0] in s && (s + [0])[1..] == s[1..] + [0];
      CutText(s[1..]);
      assert s == [s[0]] + s[1..];
    }
  }

  /** Whatever is compressed and stored as a C string comes back; the decoder never leaves the tree. */
  lemma {:induction false} CompressedComesBack(t: Tree, s: Text, bs: seq<Byte>)
    requires IsCodeTree(t) && Packed(bs, Encoded(t, s)) && |s| <= BUFFER_LEN - 1
    ensures Uncompressed(t, CutAtNul(bs) + [0]) == Some(s)
  {
    hide ToBits, BitsOf, Decoded;
    var st: seq<Byte> := CutAtNul(bs) + [0];
    var e := Encoded(t, s);
    StoredText(t, s, bs);
    CutText(s);
    if s != [] {
      FirstByte(t, s, st);
      assert e == [] + e;
      DecodesRest(t, s, st, e, [], 0);
    } else {
      PackedByteZero(bs, e, 0);
      assert CutAtNul(bs) == [];
    }
  }

  lemma FirstByte(t: Tree, s: Text, st: seq<Byte>)
    requires IsCodeTree(t) && s != [] && Stored(st, Encoded(t, s))
    ensures st[0] != 0
  {
    hide ToBits;
    var p := CodeOf(t, s[0]);
    assert s[0] in s && LeafAt(t, p, s[0]) && GoodCode(p);
    var j := FirstOne(p);
    var e := Encoded(t, s);
    assert e[j] == p[j] && BitAt(st, j) && j / 8 == 0 && j % 8 == j;
    OneBit(st[0], j);
  }

  lemma {:induction false} FirstOne(p: Path) returns (j: nat)
    requires true in p
    ensures j == LeadingZeros(p) < |p| && p[j]
  {
    if p[0] {
      j := 0;
    } else {
      assert true in p[1..];
      j := FirstOne(p[1..]);
      j := j + 1;
    }
  }

  /** The set-up always makes a tree the codec can rely on. */
  lemma SetUpTree(t: Tree)
    requires OverAllBytes(t)
    ensures IsCodeTree(CodeTree(Squashed(t, 0, 2)))
  {
    hide CodeTree, Squashed, GoodCode;
    OneLeafEach(t);
    var u := Squashed(t, 0, 2);
    var v := CodeTree(u);
    TerminatorCode(u);
    InnerNode(v, Zeros(8), EOS);
    forall p: Path, c: Byte | LeafAt(v, p, c) && c != EOS ensures GoodCode(p) {
      CodesGood(u, p, c);
    }
  }

  lemma AllShort(t: Tree, ctable: seq<nat>, ltable: seq<nat>)
    requires TablesFor(t, ctable, ltable)
    ensures forall p: Path, c: Byte :: LeafAt(t, p, c) ==> |p| <= CODE_BITS
  {
  }

  /** Set up, compress, store as a C string, and uncompress: the same text again, unless set-up gives up, which it
      does exactly when squashing left a code too long. `t` is the tree before squashing. */
  method RoundTrip(freq: seq<int>, s: Text) returns (out: Option<Text>, ghost t: Tree)
    requires |freq| == TABLE_SIZE && |s| <= BUFFER_LEN - 1
    ensures OverAllBytes(t) && Optimal(t, freq)
    ensures out.Some? ==> out.value == s
    ensures out.None? <==> exists p: Path, c: Byte :: LeafAt(CodeTree(Squashed(t, 0, 2)), p, c) && |p| > CODE_BITS
  {
    hide IsCodeTree, OverAllBytes, TablesFor, Packed, Uncompressed, CodeTree, Squashed, Optimal, CNode.Valid,
         CNode.Tree;
    var ctop, ctable, ltable, ok;
    ctop, ctable, ltable, ok, t := InitCompress(freq);
    if !ok { return None, t; }
    AllShort(ctop.Tree(), ctable[..], ltable[..]);
    SetUpTree(t);
    ghost var v := ctop.Tree();
    var bs := TextCompress(s, ctable, ltable, v);
    CompressedComesBack(v, s, bs[..]);
    var text := TextUncompress(ctop, CutAtNul(bs[..]) + [0]);
    out := Some(text);
  }
}

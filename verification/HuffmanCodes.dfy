/**
 From the squashed tree to codes without long runs of zeros: ones put in along the tree,
 the terminating byte at eight zeros, and the table of codes.
 */
module HuffmanCodes {
  import opened Basics
  import opened HuffmanOptimal
  import opened HuffmanTree

  const EOS: Byte := 0

  /** The way from the root to a place in the tree; true goes right. */
  type Path = seq<bool>

  /** The walk from `t` along `p` ends at a leaf with the byte `c`. */
  predicate LeafAt(t: Tree, p: Path, c: Byte) {
    t.Node? &&
    if p == [] then t.IsLeaf() && t.c == c
    else LeafAt(if p[0] then t.right else t.left, p[1..], c)
  }

  function Zeros(n: nat): (p: Path)
    ensures |p| == n && forall i :: 0 <= i < n ==> !p[i]
  {
    if n == 0 then [] else [false] + Zeros(n - 1)
  }

  lemma InnerNode(t: Tree, p: Path, c: Byte)
    requires LeafAt(t, p, c) && p != []
    ensures !t.IsLeaf()
  {
  }

  // ----- the three changes -----

  /** A node with nothing on the left and `t` on the right: a one in the code. */
  function Unary(t: Tree): Tree
    requires t.Node?
  {
    Node(Nil, t, t.c)
  }

  /** A one after `k` zeros on the left edge, or earlier where the edge ends. */
  function EdgeFixed(t: Tree, k: nat): Tree
    requires t.Node?
  {
    if t.left.Nil? || k == 0 then Unary(t) else Node(EdgeFixed(t.left, k - 1), t.right, t.c)
  }

  /** Ones wherever `count` zeros in a row have become too many. */
  function WithOnes(t: Tree, count: nat): (r: Tree)
    requires t.Node?
    ensures r.Node?
  {
    var right := if t.right.Node? then WithOnes(t.right, 0) else Nil;
    if count >= 7 || (count >= 3 && t.IsLeaf()) then
      Node(Nil, Node(if t.left.Node? then WithOnes(t.left, 1) else Nil, right, t.c), t.c)
    else
      Node(if t.left.Node? then WithOnes(t.left, count + 1) else Nil, right, t.c)
  }

  /** The terminating byte at `k` zeros, with the nodes that are missing on the way. */
  function Grafted(t: Tree, k: nat): Tree
    requires t.Node?
    decreases k
  {
    if k == 0 then t
    else Node(Grafted(if t.left.Nil? then Leaf(EOS) else t.left, k - 1), t.right, t.c)
  }

  /** The tree the codes are read from. */
  function CodeTree(t: Tree): Tree
    requires t.Node?
  {
    Grafted(WithOnes(EdgeFixed(t, 4), 0), 8)
  }

  // ----- runs of zeros -----

  /** The zeros in a row after reading `p`, when there were `count` before it. */
  function RunAfter(p: Path, count: nat): nat {
    if p == [] then count else RunAfter(p[1..], if p[0] then 0 else count + 1)
  }

  /** There are never more than seven in a row. */
  predicate RunsShort(p: Path, count: nat) {
    count <= 7 && (p != [] ==> RunsShort(p[1..], if p[0] then 0 else count + 1))
  }

  function LeadingZeros(p: Path): nat {
    if p == [] || p[0] then 0 else 1 + LeadingZeros(p[1..])
  }

  /** Every code in a tree with ones put in has short runs and ends in at most two zeros. */
  lemma {:induction false} WithOnesRuns(t: Tree, count: nat, p: Path, c: Byte)
    requires t.Node? && count <= 7 && LeafAt(WithOnes(t, count), p, c)
    ensures RunsShort(p, count) && RunAfter(p, count) <= 2
    decreases t
  {
    if count >= 7 || (count >= 3 && t.IsLeaf()) {
      assert p[0];
      if p[1..] != [] { WithOnesStep(t, 0, p[1..], c); }
    } else if p != [] {
      WithOnesStep(t, count, p, c);
    }
  }

  /** One step below a node into which no one was put. */
  lemma {:induction false} WithOnesStep(t: Tree, count: nat, p: Path, c: Byte)
    requires t.Node? && count <= 6 && p != []
    requires LeafAt(Node(if t.left.Node? then WithOnes(t.left, count + 1) else Nil,
                         if t.right.Node? then WithOnes(t.right, 0) else Nil, t.c), p, c)
    ensures RunsShort(p, count) && RunAfter(p, count) <= 2
    decreases t, 0
  {
    if p[0] {
      WithOnesRuns(t.right, 0, p[1..], c);
    } else {
      WithOnesRuns(t.left, count + 1, p[1..], c);
    }
  }

  /** After the left-edge fix no code starts with more than `k` zeros, and each has a one. */
  lemma {:induction false} EdgeFixedLeading(t: Tree, k: nat, count: nat, p: Path, c: Byte)
    requires t.Node? && count + k <= 4 && LeafAt(WithOnes(EdgeFixed(t, k), count), p, c)
    ensures LeadingZeros(p) <= k && true in p
    decreases k
  {
    assert !WithOnes(EdgeFixed(t, k), count).IsLeaf();
    if t.left.Nil? || k == 0 {
      assert p[0];
    } else if !p[0] {
      EdgeFixedLeading(t.left, k - 1, count + 1, p[1..], c);
    }
  }

  /** The left edge ends after at most `k` steps, at a node that is not a leaf. */
  predicate EdgeEnds(t: Tree, k: nat) {
    t.Node? && if t.left.Nil? then t.right.Node? else k > 0 && EdgeEnds(t.left, k - 1)
  }

  lemma {:induction false} EdgeFixedEnds(t: Tree, k: nat, count: nat)
    requires t.Node? && count + k <= 4
    ensures EdgeEnds(WithOnes(EdgeFixed(t, k), count), k)
    decreases k
  {
    if !t.left.Nil? && k > 0 { EdgeFixedEnds(t.left, k - 1, count + 1); }
  }

  lemma {:induction false} GraftedBelow(k: nat, p: Path, c: Byte)
    ensures LeafAt(Grafted(Leaf(EOS), k), p, c) <==> p == Zeros(k) && c == EOS
    decreases k
  {
    if k > 0 && p != [] { GraftedBelow(k - 1, p[1..], c); }
    if k > 0 { assert Zeros(k)[1..] == Zeros(k - 1); }
  }

  /** Grafting adds the terminating byte at `k` zeros and changes no other code. */
  lemma {:induction false} GraftedLeaves(t: Tree, e: nat, k: nat, p: Path, c: Byte)
    requires EdgeEnds(t, e) && e < k
    ensures LeafAt(Grafted(t, k), p, c) <==> LeafAt(t, p, c) || (p == Zeros(k) && c == EOS)
    ensures !LeafAt(t, Zeros(k), c)
    decreases k
  {
    assert Zeros(k)[1..] == Zeros(k - 1) && !Zeros(k)[0];
    if t.left.Nil? {
      if p != [] && !p[0] { GraftedBelow(k - 1, p[1..], c); }
    } else {
      GraftedLeaves(t.left, e - 1, k - 1, if p == [] then [] else p[1..], c);
    }
  }

  /** A code whose runs of zeros are short at the start, inside and at the end. */
  predicate GoodCode(p: Path) {
    true in p && LeadingZeros(p) <= 4 && RunsShort(p, 0) && RunAfter(p, 0) <= 2
  }

  /** Every code but that of the terminating byte is good, and that one is eight zeros. */
  lemma CodesGood(t: Tree, p: Path, c: Byte)
    requires t.Node? && LeafAt(CodeTree(t), p, c)
    ensures GoodCode(p) || (p == Zeros(8) && c == EOS)
  {
    var u := WithOnes(EdgeFixed(t, 4), 0);
    EdgeFixedEnds(t, 4, 0);
    GraftedLeaves(u, 4, 8, p, c);
    if LeafAt(u, p, c) {
      EdgeFixedLeading(t, 4, 0, p, c);
      WithOnesRuns(EdgeFixed(t, 4), 0, p, c);
    }
  }

  lemma TerminatorCode(t: Tree)
    requires t.Node?
    ensures LeafAt(CodeTree(t), Zeros(8), EOS)
  {
    EdgeFixedEnds(t, 4, 0);
    GraftedLeaves(WithOnes(EdgeFixed(t, 4), 0), 4, 8, Zeros(8), EOS);
  }

  // ----- the bytes keep their places -----

  lemma {:induction false} EdgeFixedBytes(t: Tree, k: nat, c: Byte)
    requires t.Node?
    ensures ByteCount(EdgeFixed(t, k), c) == ByteCount(t, c)
    decreases k
  {
    if !t.left.Nil? && k > 0 { EdgeFixedBytes(t.left, k - 1, c); }
  }

  lemma {:induction false} WithOnesBytes(t: Tree, count: nat, c: Byte)
    requires t.Node?
    ensures ByteCount(WithOnes(t, count), c) == ByteCount(t, c)
    decreases t
  {
    if t.left.Node? {
      WithOnesBytes(t.left, 1, c);
      WithOnesBytes(t.left, count + 1, c);
    }
    if t.right.Node? { WithOnesBytes(t.right, 0, c); }
  }

  lemma {:induction false} GraftedLeafBytes(k: nat, c: Byte)
    ensures ByteCount(Grafted(Leaf(EOS), k), c) == One(c == EOS)
    decreases k
  {
    if k > 0 { GraftedLeafBytes(k - 1, c); }
  }

  lemma {:induction false} GraftedBytes(t: Tree, e: nat, k: nat, c: Byte)
    requires EdgeEnds(t, e) && e < k
    ensures ByteCount(Grafted(t, k), c) == ByteCount(t, c) + One(c == EOS)
    decreases k
  {
    if t.left.Nil? {
      GraftedLeafBytes(k - 1, c);
    } else {
      GraftedBytes(t.left, e - 1, k - 1, c);
    }
  }

  /** The code tree has the leaves of the tree it was made from, and the terminating byte. */
  lemma CodeTreeBytes(t: Tree, c: Byte)
    requires t.Node?
    ensures ByteCount(CodeTree(t), c) == ByteCount(t, c) + One(c == EOS)
  {
    EdgeFixedBytes(t, 4, c);
    WithOnesBytes(EdgeFixed(t, 4), 0, c);
    EdgeFixedEnds(t, 4, 0);
    GraftedBytes(WithOnes(EdgeFixed(t, 4), 0), 4, 8, c);
  }

  /** A byte at one leaf has one code. */
  lemma {:induction false} LeafCounted(t: Tree, p: Path, c: Byte)
    requires LeafAt(t, p, c)
    ensures ByteCount(t, c) >= 1
    decreases t
  {
    if p != [] { LeafCounted(if p[0] then t.right else t.left, p[1..], c); }
  }

  lemma {:induction false} CodeUnique(t: Tree, p: Path, q: Path, c: Byte)
    requires LeafAt(t, p, c) && LeafAt(t, q, c) && ByteCount(t, c) == 1
    ensures p == q
    decreases t
  {
    if p != [] && q != [] {
      LeafCounted(if p[0] then t.right else t.left, p[1..], c);
      LeafCounted(if q[0] then t.right else t.left, q[1..], c);
      if p[0] == q[0] {
        CodeUnique(if p[0] then t.right else t.left, p[1..], q[1..], c);
        assert p == [p[0]] + p[1..] && q == [q[0]] + q[1..];
      }
    }
  }

  lemma {:induction false} CodeExists(t: Tree, c: Byte) returns (p: Path)
    requires ByteCount(t, c) >= 1
    ensures LeafAt(t, p, c)
    decreases t
  {
    if t.IsLeaf() {
      p := [];
    } else if ByteCount(t.left, c) >= 1 {
      p := CodeExists(t.left, c);
      p := [false] + p;
    } else {
      p := CodeExists(t.right, c);
      p := [true] + p;
    }
  }
}

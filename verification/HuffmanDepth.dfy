/**
 What the depth that squashing returns says about the codes, and what it does not say.
 */
module HuffmanDepth {
  import opened Basics
  import opened HuffmanTree
  import opened HuffmanCodes
  import opened HuffmanSquash

  // ----- codes with ones put in -----

  /** The code of a leaf at `q` when the ones are in. */
  function OnesPut(q: Path, count: nat): Path {
    if count >= 7 || (count >= 3 && q == []) then
      [true] + if q == [] then [] else [q[0]] + OnesPut(q[1..], if q[0] then 0 else 1)
    else if q == [] then []
    else [q[0]] + OnesPut(q[1..], if q[0] then 0 else count + 1)
  }

  /** Every code in the tree with ones comes from a leaf of the tree. */
  lemma {:induction false} OnesFrom(t: Tree, count: nat, p: Path, c: Byte) returns (q: Path)
    requires t.Node? && LeafAt(WithOnes(t, count), p, c)
    ensures LeafAt(t, q, c) && p == OnesPut(q, count)
    decreases t
  {
    if count >= 7 || (count >= 3 && t.IsLeaf()) {
      assert p[0];
      q := OnesBelow(t, 0, p[1..], c);
    } else {
      q := OnesBelow(t, count, p, c);
    }
  }

  /** Below a node into which no one was put. */
  lemma {:induction false} OnesBelow(t: Tree, count: nat, p: Path, c: Byte) returns (q: Path)
    requires t.Node? && LeafAt(Node(if t.left.Node? then WithOnes(t.left, count + 1) else Nil,
                                    if t.right.Node? then WithOnes(t.right, 0) else Nil, t.c), p, c)
    ensures LeafAt(t, q, c) && (q == [] <==> t.IsLeaf())
    ensures p == if q == [] then [] else [q[0]] + OnesPut(q[1..], if q[0] then 0 else count + 1)
    decreases t, 0
  {
    if p == [] {
      q := [];
    } else {
      q := OnesFrom(if p[0] then t.right else t.left, if p[0] then 0 else count + 1, p[1..], c);
      q := [p[0]] + q;
    }
  }

  lemma {:induction false} EdgeFrom(t: Tree, k: nat, p: Path, c: Byte) returns (q: Path)
    requires t.Node? && LeafAt(EdgeFixed(t, k), p, c)
    ensures LeafAt(t, q, c) && |q| <= |p| <= |q| + 1
    decreases k
  {
    if t.left.Nil? || k == 0 {
      q := p[1..];
    } else if p != [] && p[0] {
      q := p;
    } else {
      assert EdgeFixed(t, k).left.Node?;
      q := EdgeFrom(t.left, k - 1, p[1..], c);
      q := [false] + q;
    }
  }

  /** A one for every six bits, and one at the end. */
  lemma {:induction false} OnesLength(q: Path, count: nat)
    requires count <= 7
    ensures 6 * |OnesPut(q, count)| <= 7 * |q| + 6 + if count == 0 then 0 else count - 1
    decreases |q|
  {
    if q != [] { OnesLength(q[1..], if q[0] then 0 else if count >= 7 then 1 else count + 1); }
  }

  lemma {:induction false} DepthOfLeaf(t: Tree, q: Path, c: Byte, height: int, zeros: nat)
    requires LeafAt(t, q, c) && zeros < 8
    ensures CodeDepth(t, height, zeros) >= height + |q| + 1
    decreases |q|
  {
    if q != [] {
      if q[0] {
        DepthOfLeaf(t.right, q[1..], c, height + 1, 0);
      } else {
        DepthOfLeaf(t.left, q[1..], c, DownLeft(height, zeros), Later(zeros));
      }
    }
  }

  /** The depth bounds the codes of the finished tree up to a sixth; if it is at most 21, no code is too long. */
  lemma DepthBoundsCodes(t: Tree, p: Path, c: Byte)
    requires t.Node? && LeafAt(CodeTree(t), p, c) && c != EOS
    ensures 6 * |p| <= 7 * CodeDepth(t, 0, 2) + 6
    ensures CodeDepth(t, 0, 2) <= 21 ==> |p| <= CODE_BITS
  {
    var u := WithOnes(EdgeFixed(t, 4), 0);
    EdgeFixedEnds(t, 4, 0);
    GraftedLeaves(u, 4, 8, p, c);
    var x := OnesFrom(EdgeFixed(t, 4), 0, p, c);
    var q := EdgeFrom(t, 4, x, c);
    OnesLength(x, 0);
    DepthOfLeaf(t, q, c, 0, 2);
  }

  // ----- a depth that is small enough and a code that is too long -----

  /** A tree that is not too deep is left as it is. */
  lemma {:induction false} ShallowStays(t: Tree, height: int, zeros: nat)
    requires zeros < 8 && CodeDepth(t, height, zeros) <= CODE_BITS
    ensures Squashed(t, height, zeros) == t
    decreases t
  {
    if t.Node? {
      ShallowStays(t.left, DownLeft(height, zeros), Later(zeros));
      ShallowStays(t.right, height + 1, 0);
    }
  }

  /** One leaf at the end of a path, and a leaf beside every step of it. */
  function Comb(p: Path, c: Byte): (t: Tree)
    ensures t.Node?
  {
    if p == [] then Leaf(c)
    else if p[0] then Node(Leaf(1), Comb(p[1..], c), 0)
    else Node(Comb(p[1..], c), Leaf(1), 0)
  }

  lemma {:induction false} CombLeaf(p: Path, c: Byte)
    ensures LeafAt(Comb(p, c), p, c) && Full(Comb(p, c))
  {
    if p != [] { CombLeaf(p[1..], c); }
  }

  /** No step to the left after seven zeros, as they are counted for the depth. */
  predicate NoEighth(p: Path, zeros: nat) {
    p == [] || if p[0] then NoEighth(p[1..], 0) else zeros < 7 && NoEighth(p[1..], zeros + 1)
  }

  lemma {:induction false} CombDepth(p: Path, c: Byte, height: int, zeros: nat)
    requires zeros < 8 && NoEighth(p, zeros)
    ensures CodeDepth(Comb(p, c), height, zeros) <= height + |p| + 2
    decreases |p|
  {
    if p == [] {
      LeafDepth(Leaf(c), height, zeros);
    } else if p[0] {
      CombDepth(p[1..], c, height + 1, 0);
      LeafDepth(Leaf(1), DownLeft(height, zeros), Later(zeros));
    } else {
      CombDepth(p[1..], c, height + 1, zeros + 1);
      LeafDepth(Leaf(1), height + 1, 0);
    }
  }

  lemma {:induction false} OnesLeaf(t: Tree, count: nat, q: Path, c: Byte)
    requires LeafAt(t, q, c)
    ensures LeafAt(WithOnes(t, count), OnesPut(q, count), c)
    decreases |q|
  {
    if q != [] {
      OnesLeaf(if q[0] then t.right else t.left, if q[0] then 0 else if count >= 7 then 1 else count + 1, q[1..], c);
      InnerNode(t, q, c);
      var rest := OnesPut(q[1..], if q[0] then 0 else if count >= 7 then 1 else count + 1);
      assert ([q[0]] + rest)[1..] == rest;
      assert ([true] + ([q[0]] + rest))[1..] == [q[0]] + rest;
    }
  }

  /** Zeros, up to the seventh, are taken as they are. */
  lemma {:induction false} ZerosTaken(k: nat, rest: Path, count: nat)
    requires count + k <= 7
    ensures |OnesPut(Zeros(k) + rest, count)| == k + |OnesPut(rest, count + k)|
    decreases k
  {
    var q := Zeros(k) + rest;
    if k == 0 {
      assert q == rest;
    } else {
      assert q[1..] == Zeros(k - 1) + rest;
      ZerosTaken(k - 1, rest, count + 1);
    }
  }

  /** Seven zeros and a one take a second one. */
  lemma SevenZeros(rest: Path)
    ensures |OnesPut(Zeros(7) + ([true] + rest), 0)| == 9 + |OnesPut(rest, 0)|
  {
    ZerosTaken(7, [true] + rest, 0);
    assert ([true] + rest)[1..] == rest;
  }

  const SIX: Path := Zeros(6)
  const FOURTEEN: Path := Zeros(7) + ([true] + SIX)
  const FAR: Path := [true] + (Zeros(7) + ([true] + FOURTEEN))

  lemma FarCode()
    ensures |FAR| == 23 && |OnesPut(FAR, 0)| == 26
  {
    assert FAR[1..] == Zeros(7) + ([true] + FOURTEEN);
    SevenZeros(FOURTEEN);
    SevenZeros(SIX);
    assert SIX + [] == SIX;
    ZerosTaken(6, [], 0);
    assert |OnesPut([], 6)| == 1;
  }

  lemma {:induction false} ZerosNoEighth(k: nat, rest: Path, zeros: nat)
    requires zeros + k <= 7 && NoEighth(rest, zeros + k)
    ensures NoEighth(Zeros(k) + rest, zeros)
    decreases k
  {
    var q := Zeros(k) + rest;
    if k == 0 {
      assert q == rest;
    } else {
      assert q[1..] == Zeros(k - 1) + rest;
      ZerosNoEighth(k - 1, rest, zeros + 1);
    }
  }

  lemma FarNoEighth()
    ensures NoEighth(FAR, 2)
  {
    assert SIX + [] == SIX;
    ZerosNoEighth(6, [], 0);
    assert ([true] + SIX)[1..] == SIX;
    ZerosNoEighth(7, [true] + SIX, 0);
    assert ([true] + FOURTEEN)[1..] == FOURTEEN;
    ZerosNoEighth(7, [true] + FOURTEEN, 0);
    assert FAR[1..] == Zeros(7) + ([true] + FOURTEEN);
  }

  /** The guard does not suffice: here is a tree whose depth is not above CODE_BITS, so that nothing is rotated, and
      that has a code of 26 bits when it is finished. The depth counts a one for the eighth zero in a row and none
      where seven zeros are followed by a one, but one is put in there too. */
  lemma DepthTooSmall(c: Byte)
    ensures var t := Comb(FAR, c);
            Full(t) && CodeDepth(t, 0, 2) <= CODE_BITS && Squashed(t, 0, 2) == t &&
            LeafAt(CodeTree(t), OnesPut(FAR, 0), c) && |OnesPut(FAR, 0)| > CODE_BITS
  {
    hide CodeDepth, Squashed, OnesPut, WithOnes, Grafted;
    var t := Comb(FAR, c);
    FarCode();
    FarNoEighth();
    CombLeaf(FAR, c);
    CombDepth(FAR, c, 0, 2);
    ShallowStays(t, 0, 2);
    FarEdge(c);
    OnesLeaf(EdgeFixed(t, 4), 0, FAR, c);
    EdgeFixedEnds(t, 4, 0);
    GraftedLeaves(WithOnes(EdgeFixed(t, 4), 0), 4, 8, OnesPut(FAR, 0), c);
  }

  /** The left edge is on another path. */
  lemma FarEdge(c: Byte)
    ensures LeafAt(EdgeFixed(Comb(FAR, c), 4), FAR, c)
  {
    CombLeaf(FAR, c);
    assert FAR[0] && Comb(FAR, c).left == Leaf(1);
  }
}

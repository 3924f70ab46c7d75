/**
 The changes to the tree on the heap, and the filling of the code tables.
 */
module HuffmanInit {
  import opened Basics
  import opened HuffmanTree
  import opened HuffmanBuild
  import opened HuffmanSquash
  import opened HuffmanCodes

  // ----- numbers as bits, lowest bit first -----

  function Pow2(n: nat): nat
    ensures Pow2(n) >= 1
  {
    if n == 0 then 1 else 2 * Pow2(n - 1)
  }

  function Bit(b: bool): nat { if b then 1 else 0 }

  function Value(p: Path): nat {
    if p == [] then 0 else Bit(p[0]) + 2 * Value(p[1..])
  }

  lemma {:induction false} ValueSnoc(p: Path, b: bool)
    ensures Value(p + [b]) == Value(p) + Bit(b) * Pow2(|p|)
    ensures Value(p) < Pow2(|p|)
  {
    if p == [] {
      assert p + [b] == [b] && [b][1..] == [];
    } else {
      assert (p + [b])[1..] == p[1..] + [b];
      ValueSnoc(p[1..], b);
    }
  }

  // ----- the tree on the heap -----

  /** Put a one above what hangs at this node. */
  method InsertOne(node: CNode) returns (copy: CNode)
    requires node.Valid()
    modifies node
    ensures node.Valid() && fresh(copy) && node.Repr == old(node.Repr) + {copy}
    ensures node.left == null && node.right == copy && copy.Valid() && copy.left == old(node.left) &&
        copy.right == old(node.right)
    ensures copy.c == node.c == old(node.c) && copy.Repr == old(node.Repr) - {node} + {copy}
    ensures node.Tree() == Unary(old(node.Tree()))
  {
    hide CNode.Valid, CNode.Tree;
    node.Children();
    copy := new CNode(node.left, node.right, node.c);
    copy.Repr := node.Repr - {node} + {copy};
    node.left := null;
    node.right := copy;
    copy.Assemble();
    node.Repr := node.Repr + {copy};
    node.Assemble();
  }

  /** Force a one into the codes on the left edge. */
  method FixEdge(node: CNode, k: nat)
    requires node.Valid()
    modifies node.Repr
    ensures node.Valid() && fresh(node.Repr - old(node.Repr))
    ensures node.Tree() == EdgeFixed(old(node.Tree()), k)
    decreases k
  {
    hide CNode.Valid, CNode.Tree;
    node.Children();
    if node.left == null || k == 0 {
      var copy := InsertOne(node);
    } else {
      FixEdge(node.left, k - 1);
      node.Repr := node.Repr + node.left.Repr;
      node.Assemble();
    }
  }

  function OnesIn(t: Tree, count: nat): Tree {
    if t.Node? then WithOnes(t, count) else Nil
  }

  /** Put ones where zeros run too long; `count` zeros lead to this node. */
  method AddOnes(node: CNode, count: nat)
    requires node.Valid()
    modifies node.Repr
    ensures node.Valid() && fresh(node.Repr - old(node.Repr))
    ensures node.Tree() == WithOnes(old(node.Tree()), count)
    decreases Size(node.Tree()), 1
  {
    hide CNode.Valid, CNode.Tree;
    ghost var t := node.Tree();
    node.Children();
    AddOnesRight(node);
    if count >= 7 || (count >= 3 && node.left == null && node.right == null) {
      node.Children();
      var copy := InsertOne(node);
      copy.Children();
      AddOnesLeft(copy, 1);
      node.Repr := node.Repr + copy.Repr;
      node.Assemble();
    } else {
      AddOnesLeft(node, count + 1);
    }
  }

  method AddOnesRight(node: CNode)
    requires node.Valid()
    modifies node.Repr
    ensures node.Valid() && fresh(node.Repr - old(node.Repr))
    ensures node.left == old(node.left) && node.right == old(node.right)
    ensures node.Tree() == old(var t := node.Tree(); Node(t.left, OnesIn(t.right, 0), t.c))
    decreases Size(node.Tree()), 0
  {
    hide CNode.Valid, CNode.Tree, WithOnes;
    node.Children();
    if node.right != null {
      AddOnes(node.right, 0);
      node.Repr := node.Repr + node.right.Repr;
    }
    node.Assemble();
  }

  method AddOnesLeft(node: CNode, count: nat)
    requires node.Valid()
    modifies node.Repr
    ensures node.Valid() && fresh(node.Repr - old(node.Repr))
    ensures node.Tree() == old(var t := node.Tree(); Node(OnesIn(t.left, count), t.right, t.c))
    decreases Size(node.Tree().left)
  {
    hide CNode.Valid, CNode.Tree, WithOnes;
    node.Children();
    if node.left != null {
      AddOnes(node.left, count);
      node.Repr := node.Repr + node.left.Repr;
    }
    node.Assemble();
  }

  /** Put the terminating byte at `k` zeros. */
  method GraftTerminator(node: CNode, k: nat)
    requires node.Valid()
    modifies node.Repr
    ensures node.Valid() && fresh(node.Repr - old(node.Repr))
    ensures node.Tree() == Grafted(old(node.Tree()), k)
    decreases k
  {
    hide CNode.Valid, CNode.Tree;
    if k > 0 {
      node.Children();
      if node.left == null {
        var leaf := new CNode(null, null, EOS);
        node.left := leaf;
        node.Repr := node.Repr + {leaf};
      }
      GraftTerminator(node.left, k - 1);
      node.Repr := node.Repr + node.left.Repr;
      node.Assemble();
    }
  }

  // ----- the tables -----

  /** The tables hold the code of every leaf, and no code is too long. */
  ghost predicate TablesFor(t: Tree, ctable: seq<nat>, ltable: seq<nat>) {
    |ctable| == |ltable| == TABLE_SIZE &&
    forall p: Path, c: Byte :: LeafAt(t, p, c) ==> ctable[c] == Value(p) && ltable[c] == |p| <= CODE_BITS
  }

  /** What filling the tables below the prefix `pre` sets. */
  ghost predicate Filled(t: Tree, pre: Path, ctable: seq<nat>, ltable: seq<nat>) {
    |ctable| == |ltable| == TABLE_SIZE &&
    forall p: Path, c: Byte :: LeafAt(t, p, c) ==> ctable[c] == Value(pre + p) && ltable[c] == |pre| + |p|
  }

  ghost predicate SameElsewhere(t: Tree, a: seq<nat>, b: seq<nat>) {
    |a| == |b| == TABLE_SIZE && forall c: Byte :: ByteCount(t, c) == 0 ==> a[c] == b[c]
  }

  ghost predicate ShortBelow(t: Tree, n: nat) {
    forall p: Path, c: Byte :: LeafAt(t, p, c) ==> n + |p| <= CODE_BITS
  }

  /** Walk the tree and note the code of every leaf; false stands for the abort on a code that is too long. */
  method BuildCtable(root: CNode, code: nat, numbits: nat, ctable: array<nat>, ltable: array<nat>, ghost pre: Path)
    returns (ok: bool)
    requires root.Valid() && ctable != ltable && ctable.Length == ltable.Length == TABLE_SIZE
    requires |pre| == numbits && code == Value(pre) && forall c: Byte :: ByteCount(root.Tree(), c) <= 1
    modifies ctable, ltable
    ensures ok ==> Filled(root.Tree(), pre, ctable[..], ltable[..]) && ShortBelow(root.Tree(), numbits)
    ensures SameElsewhere(root.Tree(), ctable[..], old(ctable[..])) &&
        SameElsewhere(root.Tree(), ltable[..], old(ltable[..]))
    ensures !ok ==> !ShortBelow(root.Tree(), numbits)
    decreases Size(root.Tree())
  {
    hide CNode.Valid, CNode.Tree;
    ghost var t := root.Tree();
    root.Children();
    ok := true;
    if root.left == null && root.right == null {
      ctable[root.c] := code;
      ltable[root.c] := numbits;
      LeafFilled(t, pre, ctable[..], ltable[..]);
      ok := numbits <= CODE_BITS;
    } else {
      ghost var c0, l0 := ctable[..], ltable[..];
      ghost var l, r := TreeOf(root.left), TreeOf(root.right);
      assert t == Node(l, r, root.c);
      HalvesCounted(t);
      if root.left != null {
        ValueSnoc(pre, false);
        ok := BuildCtable(root.left, code, numbits + 1, ctable, ltable, pre + [false]);
      }
      ghost var c1, l1 := ctable[..], ltable[..];
      assert TreeOf(root.right) == r;
      if ok && root.right != null {
        ValueSnoc(pre, true);
        ok := BuildCtable(root.right, code + Pow2(numbits), numbits + 1, ctable, ltable, pre + [true]);
      }
      BothSides(t, pre, ok, c0, l0, c1, l1, ctable[..], ltable[..]);
    }
  }

  lemma LeafPath(t: Tree, p: Path, c: Byte)
    requires t.IsLeaf() && LeafAt(t, p, c)
    ensures p == [] && c == t.c
  {
  }

  lemma LeafFilled(t: Tree, pre: Path, ctable: seq<nat>, ltable: seq<nat>)
    requires t.IsLeaf() && |ctable| == |ltable| == TABLE_SIZE && ctable[t.c] == Value(pre) && ltable[t.c] == |pre|
    ensures Filled(t, pre, ctable, ltable) && (ShortBelow(t, |pre|) <==> |pre| <= CODE_BITS)
  {
    assert LeafAt(t, [], t.c);
    forall p: Path, c: Byte | LeafAt(t, p, c) ensures p == [] && c == t.c && pre + p == pre {
      LeafPath(t, p, c);
    }
  }

  lemma HalvesCounted(t: Tree)
    requires t.Node? && !t.IsLeaf() && forall c: Byte :: ByteCount(t, c) <= 1
    ensures forall c: Byte :: ByteCount(t.left, c) <= 1 && ByteCount(t.right, c) <= 1
  {
    forall c: Byte ensures ByteCount(t.left, c) <= 1 && ByteCount(t.right, c) <= 1 {
      assert ByteCount(t, c) <= 1;
    }
  }

  /** The two halves of the tables, put together. */
  lemma BothSides(t: Tree, pre: Path, ok: bool, c0: seq<nat>, l0: seq<nat>, c1: seq<nat>, l1: seq<nat>, c2: seq<nat>,
      l2: seq<nat>)
    requires t.Node? && !t.IsLeaf() && forall c: Byte :: ByteCount(t, c) <= 1
    requires SameElsewhere(t.left, c1, c0) && SameElsewhere(t.left, l1, l0)
    requires SameElsewhere(t.right, c2, c1) && SameElsewhere(t.right, l2, l1)
    requires ok ==> t.left.Nil? || (Filled(t.left, pre + [false], c1, l1) && ShortBelow(t.left, |pre| + 1))
    requires ok ==> t.right.Nil? || (Filled(t.right, pre + [true], c2, l2) && ShortBelow(t.right, |pre| + 1))
    requires !ok ==> (t.left.Node? && !ShortBelow(t.left, |pre| + 1)) ||
                     (t.right.Node? && !ShortBelow(t.right, |pre| + 1))
    ensures ok ==> Filled(t, pre, c2, l2) && ShortBelow(t, |pre|)
    ensures !ok ==> !ShortBelow(t, |pre|)
    ensures SameElsewhere(t, c2, c0) && SameElsewhere(t, l2, l0)
  {
    if ok {
      forall p: Path, c: Byte | LeafAt(t, p, c)
        ensures c2[c] == Value(pre + p) && l2[c] == |pre| + |p| && |pre| + |p| <= CODE_BITS
      {
        if p[0] {
          assert pre + p == pre + [true] + p[1..];
          assert LeafAt(t.right, p[1..], c);
        } else {
          assert pre + p == pre + [false] + p[1..];
          assert LeafAt(t.left, p[1..], c);
          LeafCounted(t.left, p[1..], c);
          assert ByteCount(t, c) <= 1;
        }
      }
    } else {
      LongBelow(t, |pre|);
    }
  }

  lemma LongBelow(t: Tree, n: nat)
    requires t.Node? && !t.IsLeaf()
    requires (t.left.Node? && !ShortBelow(t.left, n + 1)) || (t.right.Node? && !ShortBelow(t.right, n + 1))
    ensures !ShortBelow(t, n)
  {
    var right := !(t.left.Node? && !ShortBelow(t.left, n + 1));
    var s := if right then t.right else t.left;
    var p: Path, c: Byte :| LeafAt(s, p, c) && n + 1 + |p| > CODE_BITS;
    assert ([right] + p)[1..] == p;
    assert LeafAt(t, [right] + p, c);
  }

  /** Set up compression for the given frequencies; false when a code comes out too long. */
  method InitCompress(freq: seq<int>)
    returns (ctop: CNode, ctable: array<nat>, ltable: array<nat>, ok: bool, ghost t: Tree)
    requires |freq| == TABLE_SIZE
    ensures OverAllBytes(t) && ctop.Valid() && ctop.Tree() == CodeTree(Squashed(t, 0, 2)) && Optimal(t, freq)
    ensures t == Huffman(Arranged(StartEntries(freq, 255)))
    ensures ok ==> TablesFor(ctop.Tree(), ctable[..], ltable[..])
    ensures !ok ==> exists p: Path, c: Byte :: LeafAt(ctop.Tree(), p, c) && |p| > CODE_BITS
  {
    hide OverAllBytes, Optimal, CNode.Valid, CNode.Tree, Squashed, EdgeFixed, WithOnes, Grafted, Full, Huffman,
         Arranged;
    ctop := BuildTree(freq);
    t := ctop.Tree();
    FullOfAll(t);
    var depth := FixTreeDepth(ctop, 0, 2);
    ghost var u := Squashed(t, 0, 2);
    FixEdge(ctop, 4);
    AddOnes(ctop, 0);
    GraftTerminator(ctop, 8);
    ctable := new nat[TABLE_SIZE](_ => 0);
    ltable := new nat[TABLE_SIZE](_ => 0);
    assert ctop.Tree() == CodeTree(u);
    OneLeafEach(t);
    ok := BuildCtable(ctop, 0, 0, ctable, ltable, []);
    if ok { FilledTables(ctop.Tree(), ctable[..], ltable[..]); }
  }

  lemma FullOfAll(t: Tree)
    requires OverAllBytes(t)
    ensures Full(t) && t.Node?
  {
  }

  lemma FilledTables(t: Tree, ctable: seq<nat>, ltable: seq<nat>)
    requires Filled(t, [], ctable, ltable) && ShortBelow(t, 0)
    ensures TablesFor(t, ctable, ltable)
  {
    forall p: Path, c: Byte | LeafAt(t, p, c)
      ensures ctable[c] == Value(p) && ltable[c] == |p| <= CODE_BITS
    {
      assert [] + p == p;
    }
  }

  /** Every byte has exactly one leaf in the code tree. */
  lemma OneLeafEach(t: Tree)
    requires OverAllBytes(t)
    ensures Squashed(t, 0, 2).Node? && forall c: Byte :: ByteCount(CodeTree(Squashed(t, 0, 2)), c) == 1
  {
    hide CodeTree;
    SquashedKeeps(t, 0, 2);
    var u := Squashed(t, 0, 2);
    forall c: Byte ensures ByteCount(CodeTree(u), c) == 1 {
      ByteCountLeaves(t, c);
      ByteCountLeaves(u, c);
      CodeTreeBytes(u, c);
    }
  }
}

/**
 Compression trees, as values and on the heap.
 */
module HuffmanTree {
  import opened Basics
  import opened HuffmanOptimal

  datatype Tree = Nil | Node(left: Tree, right: Tree, c: Byte) {
    predicate IsLeaf() { Node? && left.Nil? && right.Nil? }
  }

  function Leaf(c: Byte): Tree { Node(Nil, Nil, c) }

  function Size(t: Tree): nat {
    if t.Nil? then 0 else 1 + Size(t.left) + Size(t.right)
  }

  /** Every node has two children or none. */
  predicate Full(t: Tree) {
    t.Node? && (t.IsLeaf() || (Full(t.left) && Full(t.right)))
  }

  /** The bytes at the leaves, from left to right. */
  function Leaves(t: Tree): seq<Byte> {
    if t.Nil? then [] else if t.IsLeaf() then [t.c] else Leaves(t.left) + Leaves(t.right)
  }

  /** How many leaves carry the byte `c`. */
  function ByteCount(t: Tree, c: Byte): nat {
    if t.Nil? then 0 else if t.IsLeaf() then One(t.c == c) else ByteCount(t.left, c) + ByteCount(t.right, c)
  }

  lemma {:induction false} ByteCountLeaves(t: Tree, c: Byte)
    ensures ByteCount(t, c) == multiset(Leaves(t))[c]
  {
    if t.Node? && !t.IsLeaf() {
      ByteCountLeaves(t.left, c);
      ByteCountLeaves(t.right, c);
    }
  }

  /** The tree of the frequencies of its bytes. */
  function WeightsOf(t: Tree, freq: seq<int>): Weighted
    requires |freq| == 256 && Full(t)
  {
    if t.IsLeaf() then Tip(freq[t.c]) else Fork(WeightsOf(t.left, freq), WeightsOf(t.right, freq))
  }

  /** A node on the heap. */
  class CNode {
    var left: CNode?
    var right: CNode?
    var c: Byte
    ghost var Repr: set<CNode>

    constructor (left: CNode?, right: CNode?, c: Byte)
      requires left != null ==> left.Valid()
      requires right != null ==> right.Valid()
      requires left != null && right != null ==> left.Repr !! right.Repr
      ensures Valid() && this.left == left && this.right == right && this.c == c
      ensures Repr == {this} + ReprOf(left) + ReprOf(right) && fresh(this)
      ensures Tree() == Node(TreeOf(left), TreeOf(right), c)
    {
      this.left, this.right, this.c := left, right, c;
      Repr := {this} + (if left == null then {} else left.Repr) + (if right == null then {} else right.Repr);
    }

    ghost predicate Valid()
      reads this, Repr
      decreases Repr
    {
      this in Repr &&
      (left != null ==> left in Repr && left.Repr <= Repr && this !in left.Repr && left.Valid()) &&
      (right != null ==> right in Repr && right.Repr <= Repr && this !in right.Repr && right.Valid()) &&
      (left != null && right != null ==> left.Repr !! right.Repr)
    }

    ghost function Tree(): Tree
      requires Valid()
      reads this, Repr
      decreases Repr, 0
    {
      Node(if left == null then Nil else left.Tree(), if right == null then Nil else right.Tree(), c)
    }

    /** The pieces of a valid node, put together. */
    lemma Assemble()
      requires this in Repr && ValidOf(left) && ValidOf(right)
      requires ReprOf(left) <= Repr && ReprOf(right) <= Repr && ReprOf(left) !! ReprOf(right)
      requires this !in ReprOf(left) && this !in ReprOf(right)
      ensures Valid() && Tree() == Node(TreeOf(left), TreeOf(right), c)
    {
    }

    lemma Children()
      requires Valid()
      ensures this in Repr && ValidOf(left) && ValidOf(right)
      ensures ReprOf(left) <= Repr && ReprOf(right) <= Repr && ReprOf(left) !! ReprOf(right)
      ensures this !in ReprOf(left) && this !in ReprOf(right)
      ensures left != null ==> left in ReprOf(left) && TreeOf(left).Node?
      ensures right != null ==> right in ReprOf(right) && TreeOf(right).Node?
      ensures Tree() == Node(TreeOf(left), TreeOf(right), c)
    {
    }
  }

  ghost predicate ValidOf(n: CNode?)
    reads n, if n == null then {} else n.Repr
  {
    n == null || n.Valid()
  }

  ghost function ReprOf(n: CNode?): set<CNode>
    reads n
  {
    if n == null then {} else n.Repr
  }

  ghost function TreeOf(n: CNode?): Tree
    requires ValidOf(n)
    reads n, if n == null then {} else n.Repr
  {
    if n == null then Nil else n.Tree()
  }
}

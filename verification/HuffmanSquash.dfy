/**
 Squashing a tree that is too deep, by rotations.
 */
module HuffmanSquash {
  import opened Basics
  import opened HuffmanTree

  const CODE_BITS := 25

  function DownLeft(height: int, zeros: nat): int { height + 1 + if zeros == 7 then 1 else 0 }

  function Later(zeros: nat): (z: nat) ensures z < 8 { (zeros + 1) % 8 }

  /** The depth the squashing computes for the places below a node, ones to be inserted included. */
  function CodeDepth(t: Tree, height: int, zeros: nat): int {
    if t.Nil? then height + if zeros > 2 then 1 else 0
    else Larger(CodeDepth(t.left, DownLeft(height, zeros), Later(zeros)), CodeDepth(t.right, height + 1, 0))
  }

  function Larger(a: int, b: int): int { if a > b then a else b }

  /** The rotation that lifts the left child; without a left child nothing happens. */
  function RotatedRight(l: Tree, r: Tree, c: Byte): (n: Tree)
    ensures Size(n) == 1 + Size(l) + Size(r)
  {
    if l.Nil? then Node(l, r, c) else Node(l.left, Node(l.right, r, l.c), c)
  }

  function RotatedLeft(l: Tree, r: Tree, c: Byte): (n: Tree)
    ensures Size(n) == 1 + Size(l) + Size(r)
  {
    if r.Nil? then Node(l, r, c) else Node(Node(l, r.left, r.c), r.right, c)
  }

  predicate TurnsRight(a: int, b: int) { a > CODE_BITS && b < a - 1 }

  predicate TurnsLeft(a: int, b: int) { !TurnsRight(a, b) && b > CODE_BITS && a < b - 1 }

  /** The squashed tree. */
  function Squashed(t: Tree, height: int, zeros: nat): (r: Tree)
    ensures Size(r) == Size(t) && (r.Nil? <==> t.Nil?)
    decreases Size(t), 1
  {
    if t.Nil? then t
    else
      var l := Squashed(t.left, DownLeft(height, zeros), Later(zeros));
      var r := Squashed(t.right, height + 1, 0);
      var a := CodeDepth(l, DownLeft(height, zeros), Later(zeros));
      var b := CodeDepth(r, height + 1, 0);
      if TurnsRight(a, b) && l.Node? then
        var n := RotatedRight(l, r, t.c);
        Node(Squashed(n.left, DownLeft(height, zeros), Later(zeros)), Squashed(n.right, height + 1, 0), t.c)
      else if TurnsLeft(a, b) && r.Node? then
        var n := RotatedLeft(l, r, t.c);
        Node(Squashed(n.left, DownLeft(height, zeros), Later(zeros)), Squashed(n.right, height + 1, 0), t.c)
      else Node(l, r, t.c)
  }

  /** A leaf is at most two levels deep, and nothing is less than one. */
  lemma LeafDepth(t: Tree, height: int, zeros: nat)
    requires t.IsLeaf()
    ensures CodeDepth(t, height, zeros) <= height + 2
    ensures zeros == 0 ==> CodeDepth(t, height, zeros) == height + 1
  {
  }

  lemma {:induction false} SomeDepth(t: Tree, height: int, zeros: nat)
    requires t.Node?
    ensures CodeDepth(t, height, zeros) >= height + 1
  {
    if t.right.Node? { SomeDepth(t.right, height + 1, 0); }
  }

  /** The guards never ask to rotate around a leaf when both children are there. */
  lemma NoTurnAroundLeaf(l: Tree, r: Tree, height: int, zeros: nat)
    requires zeros < 8 && l.Node? && r.Node?
    ensures var a := CodeDepth(l, DownLeft(height, zeros), Later(zeros)); var b := CodeDepth(r, height + 1, 0);
            (TurnsRight(a, b) ==> !l.IsLeaf()) && (TurnsLeft(a, b) ==> !r.IsLeaf())
  {
    SomeDepth(l, DownLeft(height, zeros), Later(zeros));
    SomeDepth(r, height + 1, 0);
    if l.IsLeaf() {
      LeafDepth(l, DownLeft(height, zeros), Later(zeros));
      if zeros == 7 { assert Later(zeros) == 0; }
    }
    if r.IsLeaf() { LeafDepth(r, height + 1, 0); }
  }

  /** At a leaf the guards ask for nothing. */
  lemma NoTurnAtLeaf(height: int, zeros: nat)
    requires zeros < 8
    ensures var a := CodeDepth(Nil, DownLeft(height, zeros), Later(zeros)); var b := CodeDepth(Nil, height + 1, 0);
            !TurnsRight(a, b) && !TurnsLeft(a, b)
  {
  }

  lemma RotationsKeep(l: Tree, r: Tree, c: Byte)
    requires Full(l) && Full(r)
    ensures !l.IsLeaf() ==> Full(RotatedRight(l, r, c)) && Leaves(RotatedRight(l, r, c)) == Leaves(l) + Leaves(r)
    ensures !r.IsLeaf() ==> Full(RotatedLeft(l, r, c)) && Leaves(RotatedLeft(l, r, c)) == Leaves(l) + Leaves(r)
  {
  }

  /** Squashing keeps the leaves in their order and every node with two children or none. */
  lemma {:induction false} SquashedKeeps(t: Tree, height: int, zeros: nat)
    requires Full(t) && zeros < 8
    ensures Full(Squashed(t, height, zeros)) && Leaves(Squashed(t, height, zeros)) == Leaves(t)
    decreases Size(t), 1
  {
    if t.IsLeaf() {
      NoTurnAtLeaf(height, zeros);
    } else {
      var l := Squashed(t.left, DownLeft(height, zeros), Later(zeros));
      var r := Squashed(t.right, height + 1, 0);
      SquashedKeeps(t.left, DownLeft(height, zeros), Later(zeros));
      SquashedKeeps(t.right, height + 1, 0);
      NoTurnAroundLeaf(l, r, height, zeros);
      RotationsKeep(l, r, t.c);
      var a := CodeDepth(l, DownLeft(height, zeros), Later(zeros));
      var b := CodeDepth(r, height + 1, 0);
      if TurnsRight(a, b) {
        SquashedHalves(RotatedRight(l, r, t.c), height, zeros);
      } else if TurnsLeft(a, b) {
        SquashedHalves(RotatedLeft(l, r, t.c), height, zeros);
      }
    }
  }

  lemma {:induction false} SquashedHalves(n: Tree, height: int, zeros: nat)
    requires Full(n) && !n.IsLeaf() && zeros < 8
    ensures var l := Squashed(n.left, DownLeft(height, zeros), Later(zeros)); var r := Squashed(n.right, height + 1, 0);
            Full(Node(l, r, n.c)) && Leaves(Node(l, r, n.c)) == Leaves(n)
    decreases Size(n), 0
  {
    SquashedKeeps(n.left, DownLeft(height, zeros), Later(zeros));
    SquashedKeeps(n.right, height + 1, 0);
  }

  /** What squashing leaves of a node, by the depths of its children when they are squashed: a child that is deeper than
      25, and more than one level deeper than the other, is lifted, and the one between goes to the other side. */
  lemma SquashedShape(t: Tree, height: int, zeros: nat)
    requires Full(t) && zeros < 8
    ensures var l := Squashed(t.left, DownLeft(height, zeros), Later(zeros));
            var r := Squashed(t.right, height + 1, 0);
            var a := CodeDepth(l, DownLeft(height, zeros), Later(zeros));
            var b := CodeDepth(r, height + 1, 0);
            (a > 25 && b < a - 1 ==>
               l.Node? && Squashed(t, height, zeros) ==
                 Node(Squashed(l.left, DownLeft(height, zeros), Later(zeros)),
                      Squashed(Node(l.right, r, l.c), height + 1, 0), t.c)) &&
            (b > 25 && a < b - 1 ==>
               r.Node? && Squashed(t, height, zeros) ==
                 Node(Squashed(Node(l, r.left, r.c), DownLeft(height, zeros), Later(zeros)),
                      Squashed(r.right, height + 1, 0), t.c)) &&
            (!(a > 25 && b < a - 1) && !(b > 25 && a < b - 1) ==> Squashed(t, height, zeros) == Node(l, r, t.c))
  {
    hide CodeDepth;
    SquashedChildren(t, height, zeros);
  }

  // ----- in place -----

  method RotateRight(node: CNode)
    requires node.Valid() && node.left != null
    modifies node, node.left
    ensures node.Valid() && node.Repr == old(node.Repr)
    ensures node.Tree() == old(RotatedRight(TreeOf(node.left), TreeOf(node.right), node.c))
  {
    hide CNode.Valid, CNode.Tree;
    ghost var l, r := node.left, node.right;
    node.Children();
    l.Children();
    var temp := node.right;
    node.right := node.left;
    node.left := node.right.left;
    node.right.left := node.right.right;
    node.right.right := temp;
    l.Repr := {l} + ReprOf(l.left) + ReprOf(l.right);
    l.Assemble();
    node.Assemble();
  }

  method RotateLeft(node: CNode)
    requires node.Valid() && node.right != null
    modifies node, node.right
    ensures node.Valid() && node.Repr == old(node.Repr)
    ensures node.Tree() == old(RotatedLeft(TreeOf(node.left), TreeOf(node.right), node.c))
  {
    hide CNode.Valid, CNode.Tree;
    ghost var l, r := node.left, node.right;
    node.Children();
    r.Children();
    var temp := node.left;
    node.left := node.right;
    node.right := node.left.right;
    node.left.right := node.left.left;
    node.left.left := temp;
    r.Repr := {r} + ReprOf(r.left) + ReprOf(r.right);
    r.Assemble();
    node.Assemble();
  }

  /** Squash the tree under a node in place; the result is the depth the squashed tree comes to. */
  method FixTreeDepth(node: CNode?, height: int, zeros: nat) returns (depth: int)
    requires ValidOf(node) && zeros < 8 && (node != null ==> Full(node.Tree()))
    modifies if node == null then {} else node.Repr
    ensures ValidOf(node) && ReprOf(node) == old(ReprOf(node))
    ensures TreeOf(node) == Squashed(old(TreeOf(node)), height, zeros)
    ensures depth == CodeDepth(TreeOf(node), height, zeros)
    ensures node != null ==>
      var t := old(TreeOf(node));
      var l := Squashed(t.left, DownLeft(height, zeros), Later(zeros));
      var r := Squashed(t.right, height + 1, 0);
      var a := CodeDepth(l, DownLeft(height, zeros), Later(zeros));
      var b := CodeDepth(r, height + 1, 0);
      (a > 25 && b < a - 1 ==>
         l.Node? && TreeOf(node) ==
           Node(Squashed(l.left, DownLeft(height, zeros), Later(zeros)),
                Squashed(Node(l.right, r, l.c), height + 1, 0), t.c)) &&
      (b > 25 && a < b - 1 ==>
         r.Node? && TreeOf(node) ==
           Node(Squashed(Node(l, r.left, r.c), DownLeft(height, zeros), Later(zeros)),
                Squashed(r.right, height + 1, 0), t.c)) &&
      (!(a > 25 && b < a - 1) && !(b > 25 && a < b - 1) ==> TreeOf(node) == Node(l, r, t.c))
    decreases Size(TreeOf(node)), 1
  {
    if node == null {
      return height + if zeros > 2 then 1 else 0;
    }
    ghost var t := node.Tree();
    var a, b := FixChildren(node, height, zeros);
    SquashedChildren(t, height, zeros);
    if TurnsRight(a, b) {
      RotateRight(node);
      a, b := FixChildren(node, height, zeros);
    } else if TurnsLeft(a, b) {
      RotateLeft(node);
      a, b := FixChildren(node, height, zeros);
    }
    depth := Larger(a, b);
  }

  /** Both children, one after the other. */
  method FixChildren(node: CNode, height: int, zeros: nat) returns (a: int, b: int)
    requires node.Valid() && Full(node.Tree()) && zeros < 8
    modifies node.Repr
    ensures node.Valid() && node.Repr == old(node.Repr)
    ensures node.Tree() == old(var t := node.Tree();
      Node(Squashed(t.left, DownLeft(height, zeros), Later(zeros)), Squashed(t.right, height + 1, 0), t.c))
    ensures a == CodeDepth(node.Tree().left, DownLeft(height, zeros), Later(zeros))
    ensures b == CodeDepth(node.Tree().right, height + 1, 0)
    decreases Size(node.Tree()), 0
  {
    hide CNode.Valid, CNode.Tree, Squashed, CodeDepth;
    node.Children();
    a := FixTreeDepth(node.left, DownLeft(height, zeros), Later(zeros));
    b := FixTreeDepth(node.right, height + 1, 0);
    node.Assemble();
  }

  /** What the first visit to the children leaves behind is fit for a second one. */
  lemma SquashedChildren(t: Tree, height: int, zeros: nat)
    requires Full(t) && zeros < 8
    ensures var l := Squashed(t.left, DownLeft(height, zeros), Later(zeros)); var r := Squashed(t.right, height + 1, 0);
            var a := CodeDepth(l, DownLeft(height, zeros), Later(zeros)); var b := CodeDepth(r, height + 1, 0);
            (TurnsRight(a, b) ==> l.Node? && Full(RotatedRight(l, r, t.c))) &&
            (TurnsLeft(a, b) ==> r.Node? && Full(RotatedLeft(l, r, t.c)))
  {
    if t.IsLeaf() {
      NoTurnAtLeaf(height, zeros);
    } else {
      SquashedKeeps(t.left, DownLeft(height, zeros), Later(zeros));
      SquashedKeeps(t.right, height + 1, 0);
      var l, r := Squashed(t.left, DownLeft(height, zeros), Later(zeros)), Squashed(t.right, height + 1, 0);
      NoTurnAroundLeaf(l, r, height, zeros);
      RotationsKeep(l, r, t.c);
    }
  }
}

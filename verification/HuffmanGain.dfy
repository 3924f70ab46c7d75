/**
 What squashing gains: a turn lifts what is too deep, and a comb that is too long comes out shorter.
 */
module HuffmanGain {
  import opened Basics
  import opened HuffmanTree
  import opened HuffmanSquash

  // ----- one turn -----

  /** A level more is a level more everywhere. */
  lemma {:induction false} DepthShifts(t: Tree, height: int, zeros: nat)
    ensures CodeDepth(t, height + 1, zeros) == CodeDepth(t, height, zeros) + 1
  {
    if t.Node? {
      DepthShifts(t.left, DownLeft(height, zeros), Later(zeros));
      DepthShifts(t.right, height + 1, 0);
    }
  }

  /** One step to the left costs at least a level. */
  lemma {:induction false} StepDown(t: Tree, height: int, zeros: nat)
    requires zeros < 8
    ensures CodeDepth(t, height, zeros) < CodeDepth(t, DownLeft(height, zeros), Later(zeros))
  {
    if t.Node? {
      StepDown(t.left, DownLeft(height, zeros), Later(zeros));
      if zeros == 7 { DepthShifts(t.right, height + 2, 0); }
      DepthShifts(t.right, height + 1, 0);
    }
  }

  lemma NodeDepth(l: Tree, r: Tree, c: Byte, height: int, zeros: nat)
    ensures CodeDepth(Node(l, r, c), height, zeros) ==
            Larger(CodeDepth(l, DownLeft(height, zeros), Later(zeros)), CodeDepth(r, height + 1, 0))
  {
  }

  /** Zeros in front cost at most a level, and more of them never cost less. */
  lemma {:induction false} ZerosCost(t: Tree, height: int, y: nat, z: nat)
    requires y <= z < 8
    ensures CodeDepth(t, height, y) <= CodeDepth(t, height, z) <= CodeDepth(t, height, y) + 1
  {
    hide CodeDepth;
    if t.Nil? {
      NilDepth(height, y);
      NilDepth(height, z);
    } else if y < z {
      NodeDepth(t.left, t.right, t.c, height, y);
      NodeDepth(t.left, t.right, t.c, height, z);
      assert DownLeft(height, y) == height + 1 && Later(y) == y + 1;
      DepthShifts(t.left, height + 1, 0);
      ZerosCost(t.left, height + 1, 0, y + 1);
      if z < 7 {
        assert DownLeft(height, z) == height + 1 && Later(z) == z + 1;
        ZerosCost(t.left, height + 1, y + 1, z + 1);
      }
    }
  }

  lemma NilDepth(height: int, zeros: nat)
    ensures CodeDepth(Nil, height, zeros) == height + if zeros > 2 then 1 else 0
  {
  }

  /** Lifting a left child that is deeper by more than a level brings the node up exactly if the part that changes sides
      is not as deep there, and otherwise takes it down by a level at most. */
  lemma TurnRightGains(l: Tree, r: Tree, c: Byte, height: int, zeros: nat)
    requires l.Node? && zeros < 8
    requires CodeDepth(r, height + 1, 0) < CodeDepth(l, DownLeft(height, zeros), Later(zeros)) - 1
    ensures var a := CodeDepth(l, DownLeft(height, zeros), Later(zeros));
            var turned := CodeDepth(Node(l.left, Node(l.right, r, l.c), c), height, zeros);
            CodeDepth(Node(l, r, c), height, zeros) == a && turned <= a + 1 &&
            (turned < a <==> CodeDepth(l.right, height + 2, 1) < a)
  {
    hide CodeDepth;
    var h, z := DownLeft(height, zeros), Later(zeros);
    NodeDepth(l, r, c, height, zeros);
    NodeDepth(l.left, l.right, l.c, h, z);
    NodeDepth(l.left, Node(l.right, r, l.c), c, height, zeros);
    NodeDepth(l.right, r, l.c, height + 1, 0);
    StepDown(l.left, h, z);
    DepthShifts(r, height + 1, 0);
    ZerosCost(l.right, height + 2, 0, 1);
    if zeros == 7 { DepthShifts(l.right, height + 2, 0); }
  }

  /** And a right child likewise. */
  lemma TurnLeftGains(l: Tree, r: Tree, c: Byte, height: int, zeros: nat)
    requires r.Node? && zeros < 8
    requires CodeDepth(l, DownLeft(height, zeros), Later(zeros)) < CodeDepth(r, height + 1, 0) - 1
    ensures var b := CodeDepth(r, height + 1, 0);
            var left := Node(l, r.left, r.c);
            var turned := CodeDepth(Node(left, r.right, c), height, zeros);
            CodeDepth(Node(l, r, c), height, zeros) == b && turned <= b + 1 &&
            (turned < b <==> CodeDepth(left, DownLeft(height, zeros), Later(zeros)) < b)
  {
    hide CodeDepth;
    var h, z := DownLeft(height, zeros), Later(zeros);
    NodeDepth(l, r, c, height, zeros);
    NodeDepth(r.left, r.right, r.c, height + 1, 0);
    NodeDepth(Node(l, r.left, r.c), r.right, c, height, zeros);
    NodeDepth(l, r.left, r.c, h, z);
    DepthShifts(r.right, height + 1, 0);
    ZerosCost(r.left, height + 2, 0, 1);
    DepthShifts(r.left, height + 2, 0);
    LeftStep(l, h, z);
  }

  /** A step to the left costs at most two levels. */
  lemma LeftStep(t: Tree, height: int, zeros: nat)
    requires zeros < 8
    ensures CodeDepth(t, DownLeft(height, zeros), Later(zeros)) <= CodeDepth(t, height, zeros) + 2
  {
    hide CodeDepth;
    DepthShifts(t, height, 0);
    if zeros == 7 {
      DepthShifts(t, height + 1, 0);
      ZerosCost(t, height, 0, 7);
    } else {
      DepthShifts(t, height, zeros + 1);
      ZerosCost(t, height, zeros, zeros + 1);
    }
  }

  // ----- combs -----

  /** The longest way from the root to a leaf. */
  function Tall(t: Tree): nat {
    if t.Nil? || t.IsLeaf() then 0
    else 1 + if Tall(t.left) >= Tall(t.right) then Tall(t.left) else Tall(t.right)
  }

  /** A way of `n` steps to the right, with a leaf beside every step. */
  function RightComb(n: nat): (t: Tree)
    ensures Full(t)
  {
    if n == 0 then Leaf(1) else Node(Leaf(1), RightComb(n - 1), 0)
  }

  /** Some node has a child on both sides that is no leaf. */
  predicate Forks(t: Tree) {
    t.Node? && ((|Leaves(t.left)| > 1 && |Leaves(t.right)| > 1) || Forks(t.left) || Forks(t.right))
  }

  lemma {:induction false} SomeLeaves(t: Tree)
    requires Full(t)
    ensures |Leaves(t)| >= 1 && (|Leaves(t)| == 1 <==> t.IsLeaf()) && Tall(t) < |Leaves(t)|
    ensures Forks(t) ==> Tall(t) < |Leaves(t)| - 1
  {
    if t.IsLeaf() {
      assert !Forks(t.left) && !Forks(t.right);
    } else {
      SomeLeaves(t.left);
      SomeLeaves(t.right);
      assert |Leaves(t)| == |Leaves(t.left)| + |Leaves(t.right)|;
    }
  }

  lemma {:induction false} CombLeaves(n: nat)
    ensures |Leaves(RightComb(n))| == n + 1 && Tall(RightComb(n)) == n
  {
    if n > 0 { CombLeaves(n - 1); }
  }

  lemma LeafDepthHere(height: int)
    ensures CodeDepth(Leaf(1), height, 0) == height + 1 && CodeDepth(Leaf(1), height + 1, 1) == height + 2
  {
  }

  lemma {:induction false} CombDepth(n: nat, height: int)
    ensures CodeDepth(RightComb(n), height, 0) == height + n + 1
  {
    LeafDepthHere(height);
    if n > 0 {
      CombDepth(n - 1, height + 1);
      NodeDepth(Leaf(1), RightComb(n - 1), 0, height, 0);
    }
  }

  /** Squashed, a comb is a comb or has a node that forks, and from four steps on it does if it ends below CODE_BITS. */
  lemma {:induction false} CombSquashed(n: nat, height: int, zeros: nat)
    requires zeros < 8
    ensures var s := Squashed(RightComb(n), height, zeros);
            Full(s) && |Leaves(s)| == n + 1 && (s == RightComb(n) || Forks(s)) &&
            (n >= 2 ==> |Leaves(s.right)| >= 2) && (n >= 4 && height + n >= CODE_BITS ==> Forks(s))
  {
    hide Squashed, CodeDepth, Forks, Leaves, Full, RightComb;
    SquashedKeeps(RightComb(n), height, zeros);
    CombLeaves(n);
    if n == 0 {
      CombOfNone(height, zeros);
    } else {
      CombSquashed(n - 1, height + 1, 0);
      CombStep(n, height, zeros, Squashed(RightComb(n - 1), height + 1, 0));
    }
  }

  lemma CombOfNone(height: int, zeros: nat)
    requires zeros < 8
    ensures Squashed(RightComb(0), height, zeros) == RightComb(0)
  {
    NoTurnAtLeaf(height, zeros);
  }

  /** A leaf stays a leaf, and is two or three levels below the node above it. */
  lemma LeafSquashed(height: int, zeros: nat)
    requires zeros < 8
    ensures var h, z := DownLeft(height, zeros), Later(zeros);
            Squashed(Leaf(1), h, z) == Leaf(1) && height + 2 <= CodeDepth(Leaf(1), h, z) <= height + 3
  {
    NoTurnAtLeaf(DownLeft(height, zeros), Later(zeros));
  }

  /** A short comb is not turned. */
  lemma ShortComb(r: Tree, n: nat, height: int)
    requires 1 <= n <= 2 && Full(r) && |Leaves(r)| == n && (r == RightComb(n - 1) || Forks(r))
    ensures CodeDepth(r, height + 1, 0) <= height + 3
  {
    SomeLeaves(r);
    CombDepth(n - 1, height + 1);
  }

  lemma CombStep(n: nat, height: int, zeros: nat, r: Tree)
    requires n >= 1 && zeros < 8 && r == Squashed(RightComb(n - 1), height + 1, 0)
    requires Full(r) && |Leaves(r)| == n && (r == RightComb(n - 1) || Forks(r))
    requires (n >= 3 ==> |Leaves(r.right)| >= 2) && (n >= 5 && height + n >= CODE_BITS ==> Forks(r))
    ensures var s := Squashed(RightComb(n), height, zeros);
            (s == RightComb(n) || Forks(s)) && (n >= 2 ==> |Leaves(s.right)| >= 2) &&
            (n >= 4 && height + n >= CODE_BITS ==> Forks(s))
  {
    hide Squashed, CodeDepth;
    var h, z := DownLeft(height, zeros), Later(zeros);
    var a, b := CodeDepth(Leaf(1), h, z), CodeDepth(r, height + 1, 0);
    LeafSquashed(height, zeros);
    SquashedShape(RightComb(n), height, zeros);
    SomeDepth(r, height + 1, 0);
    if b > 25 && a < b - 1 {
      if n <= 2 { ShortComb(r, n, height); }
      TurnedForks(r, height, zeros);
    } else if n == 4 && r == RightComb(3) {
      CombDepth(3, height + 1);
    }
  }

  /** Turned to the left, with leaves enough on the right, a node forks. */
  lemma TurnedForks(r: Tree, height: int, zeros: nat)
    requires zeros < 8 && Full(r) && |Leaves(r.right)| >= 2
    ensures var s := Node(Squashed(Node(Leaf(1), r.left, r.c), DownLeft(height, zeros), Later(zeros)),
                          Squashed(r.right, height + 1, 0), 0);
            Forks(s) && |Leaves(s.right)| >= 2
  {
    hide Squashed;
    SquashedKeeps(Node(Leaf(1), r.left, r.c), DownLeft(height, zeros), Later(zeros));
    SquashedKeeps(r.right, height + 1, 0);
    SomeLeaves(r.left);
  }

  lemma CombAtTop(n: nat)
    requires n >= 1
    ensures CodeDepth(RightComb(n), 0, 2) >= n + 1
  {
    CombDepth(n - 1, 1);
    NodeDepth(Leaf(1), RightComb(n - 1), 0, 0, 2);
  }

  /** A comb of any length above CODE_BITS comes out shorter: its longest way, which is as long as a tree over so many
      bytes can have it, is not that long any more. */
  lemma CombShorter(n: nat)
    requires n >= 25
    ensures CodeDepth(RightComb(n), 0, 2) > 25 && Tall(RightComb(n)) == n
    ensures Tall(Squashed(RightComb(n), 0, 2)) < n
  {
    hide Squashed, CodeDepth, Forks, RightComb, Leaves, Full, Tall;
    CombSquashed(n, 0, 2);
    CombLeaves(n);
    CombAtTop(n);
    SomeLeaves(Squashed(RightComb(n), 0, 2));
  }
}

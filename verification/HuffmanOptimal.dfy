/**
 Why merging the two rarest trees is best: weighted trees, and the exchange argument.
 */
module HuffmanOptimal {
  /** A binary tree with weights at its leaves. */
  datatype Weighted = Tip(weight: int) | Fork(left: Weighted, right: Weighted)

  function One(c: bool): nat { if c then 1 else 0 }

  /** How many leaves have the weight `w`. */
  function Count(t: Weighted, w: int): nat {
    match t
    case Tip(x) => One(x == w)
    case Fork(l, r) => Count(l, w) + Count(r, w)
  }

  /** The leaves of the tree are the weights of the collection. */
  ghost predicate Over(t: Weighted, s: multiset<int>) {
    forall w :: Count(t, w) == s[w]
  }

  function Total(t: Weighted): int {
    match t
    case Tip(w) => w
    case Fork(l, r) => Total(l) + Total(r)
  }

  /** The sum over all leaves of weight times depth, counted from depth `d`. */
  function WeightedDepth(t: Weighted, d: nat): int {
    match t
    case Tip(w) => w * d
    case Fork(l, r) => WeightedDepth(l, d + 1) + WeightedDepth(r, d + 1)
  }

  function Height(t: Weighted): nat {
    match t
    case Tip(_) => 0
    case Fork(l, r) => 1 + if Height(l) >= Height(r) then Height(l) else Height(r)
  }

  /** Pushing a tree one level down costs its total. */
  lemma {:induction false} Deeper(t: Weighted, d: nat)
    ensures WeightedDepth(t, d + 1) == WeightedDepth(t, d) + Total(t)
  {
    match t
    case Tip(w) =>
    case Fork(l, r) => Deeper(l, d + 1); Deeper(r, d + 1);
  }

  /** The same sum, as the totals of all inner nodes. */
  function Cost(t: Weighted): int {
    match t
    case Tip(_) => 0
    case Fork(l, r) => Total(t) + Cost(l) + Cost(r)
  }

  lemma {:induction false} CostIsDepth(t: Weighted)
    ensures Cost(t) == WeightedDepth(t, 0)
  {
    match t
    case Tip(_) =>
    case Fork(l, r) =>
      CostIsDepth(l);
      CostIsDepth(r);
      Deeper(l, 0);
      Deeper(r, 0);
  }

  /** `n` times `x`, by addition. */
  function Times(x: int, n: nat): int {
    if n == 0 then 0 else x + Times(x, n - 1)
  }

  lemma {:induction false} TimesGrows(x: int, m: nat, n: nat)
    requires 0 <= x && m <= n
    ensures Times(x, m) <= Times(x, n)
    decreases n
  {
    if m < n { TimesGrows(x, m, n - 1); }
  }

  lemma {:induction false} TimesPlus(x: int, y: int, n: nat)
    ensures Times(x + y, n) == Times(x, n) + Times(y, n)
  {
    if n > 0 { TimesPlus(x, y, n - 1); }
  }

  // ----- replacing one leaf -----

  function Replace(t: Weighted, a: int, b: int): Weighted
    requires Count(t, a) > 0
  {
    match t
    case Tip(_) => Tip(b)
    case Fork(l, r) => if Count(l, a) > 0 then Fork(Replace(l, a, b), r) else Fork(l, Replace(r, a, b))
  }

  lemma {:induction false} ReplaceCount(t: Weighted, a: int, b: int, w: int)
    requires Count(t, a) > 0
    ensures Count(Replace(t, a, b), w) == Count(t, w) - One(w == a) + One(w == b)
  {
    match t
    case Tip(_) =>
    case Fork(l, r) => if Count(l, a) > 0 { ReplaceCount(l, a, b, w); } else { ReplaceCount(r, a, b, w); }
  }

  /** A heavier leaf costs at most its extra weight times the height. */
  lemma {:induction false} ReplaceCost(t: Weighted, a: int, b: int)
    requires Count(t, a) > 0 && a <= b
    ensures Height(Replace(t, a, b)) == Height(t) && Total(Replace(t, a, b)) == Total(t) + b - a
    ensures Cost(Replace(t, a, b)) <= Cost(t) + Times(b - a, Height(t))
  {
    match t
    case Tip(_) =>
    case Fork(l, r) =>
      if Count(l, a) > 0 {
        ReplaceCost(l, a, b);
        TimesGrows(b - a, Height(l), Height(t) - 1);
      } else {
        ReplaceCost(r, a, b);
        TimesGrows(b - a, Height(r), Height(t) - 1);
      }
  }

  // ----- the deepest pair of leaves -----

  /** The two leaves that share the deepest parent. */
  function DeepestPair(t: Weighted): (int, int)
    requires t.Fork?
  {
    if Height(t) == 1 then (t.left.weight, t.right.weight)
    else if Height(t.left) >= Height(t.right) then DeepestPair(t.left) else DeepestPair(t.right)
  }

  /** The tree with that parent replaced by a leaf of weight `v`. */
  function Collapse(t: Weighted, v: int): Weighted
    requires t.Fork?
  {
    if Height(t) == 1 then Tip(v)
    else if Height(t.left) >= Height(t.right) then Fork(Collapse(t.left, v), t.right)
    else Fork(t.left, Collapse(t.right, v))
  }

  lemma {:induction false} CollapseCount(t: Weighted, v: int, w: int)
    requires t.Fork?
    ensures var (x, y) := DeepestPair(t);
            Count(t, w) >= One(w == x) + One(w == y) &&
            Count(Collapse(t, v), w) == Count(t, w) - One(w == x) - One(w == y) + One(w == v)
  {
    if Height(t) == 1 {
      assert t.left.Tip? && t.right.Tip?;
    } else if Height(t.left) >= Height(t.right) {
      CollapseCount(t.left, v, w);
    } else {
      CollapseCount(t.right, v, w);
    }
  }

  lemma {:induction false} CollapseCost(t: Weighted, v: int)
    requires t.Fork?
    ensures var (x, y) := DeepestPair(t);
            Height(Collapse(t, v)) <= Height(t) && Total(Collapse(t, v)) == Total(t) - x - y + v &&
            Cost(Collapse(t, v)) == Cost(t) - (x + y) + Times(v - x - y, Height(t) - 1)
  {
    if Height(t) == 1 {
      assert t.left.Tip? && t.right.Tip?;
    } else if Height(t.left) >= Height(t.right) {
      CollapseCost(t.left, v);
    } else {
      CollapseCost(t.right, v);
    }
  }

  // ----- the exchange -----

  /** `a` and `b` are the two smallest of the weights in the tree. */
  ghost predicate TwoLeast(t: Weighted, a: int, b: int) {
    a <= b && (forall w :: Count(t, w) >= One(w == a) + One(w == b)) &&
    (forall w :: Count(t, w) > One(w == a) ==> b <= w)
  }

  lemma LeastOther(t: Weighted, a: int, b: int, w: int)
    requires TwoLeast(t, a, b) && Count(t, w) > 0
    ensures a <= w && (w != a || Count(t, w) > 1 ==> b <= w)
  {
  }

  /** Does `u` have the leaves of `t` with one `a` replaced by `b`? */
  ghost predicate Moved(t: Weighted, u: Weighted, a: int, b: int) {
    forall w :: Count(u, w) == Count(t, w) - One(w == a) + One(w == b)
  }

  lemma ReplaceIn(t: Weighted, a: int, b: int, h: nat) returns (u: Weighted)
    requires Count(t, a) > 0 && a <= b && Height(t) <= h
    ensures Moved(t, u, a, b) && Height(u) <= h
    ensures Cost(u) <= Cost(t) + Times(b - a, h)
  {
    hide Count, Replace, Height, Cost, Times, Total;
    u := Replace(t, a, b);
    forall w ensures Count(u, w) == Count(t, w) - One(w == a) + One(w == b) {
      ReplaceCount(t, a, b, w);
    }
    ReplaceCost(t, a, b);
    TimesGrows(b - a, Height(t), h);
  }

  /** `u` is `t` with its two smallest weights merged into one leaf. */
  ghost predicate IsMerged(t: Weighted, u: Weighted, a: int, b: int) {
    forall w :: Count(u, w) == Count(t, w) - One(w == a) - One(w == b) + One(w == a + b)
  }

  /** The collapsed tree: `x` and `y` are gone and `a + b` is there. */
  ghost predicate Collapsed(t: Weighted, c: Weighted, x: int, y: int, v: int) {
    forall w :: Count(t, w) >= One(w == x) + One(w == y) &&
                Count(c, w) == Count(t, w) - One(w == x) - One(w == y) + One(w == v)
  }

  /** Any tree can be turned into one where the two smallest are merged, at a gain of at least their sum. */
  lemma Exchange(t: Weighted, a: int, b: int) returns (u: Weighted)
    requires t.Fork? && TwoLeast(t, a, b)
    ensures IsMerged(t, u, a, b)
    ensures Cost(u) + a + b <= Cost(t)
  {
    hide Count, Cost, Total, DeepestPair, Collapse, Replace, Times, Height, TwoLeast;
    var (x0, y0) := DeepestPair(t);
    var x, y := if x0 <= y0 then x0 else y0, if x0 <= y0 then y0 else x0;
    var h := TallEnough(t);
    var c := Collapse(t, a + b);
    forall w
      ensures Count(t, w) >= One(w == x) + One(w == y) &&
              Count(c, w) == Count(t, w) - One(w == x) - One(w == y) + One(w == a + b)
    {
      CollapseCount(t, a + b, w);
    }
    CollapseCost(t, a + b);
    Balance(x + y - a - b, h);
    u := SwapIn(t, c, a, b, x, y, h);
  }

  /** Put the deepest pair where the two smallest are. */
  lemma SwapIn(t: Weighted, c: Weighted, a: int, b: int, x: int, y: int, h: nat) returns (u: Weighted)
    requires TwoLeast(t, a, b) && x <= y && Collapsed(t, c, x, y, a + b) && Height(c) <= h
    ensures IsMerged(t, u, a, b) && Cost(u) <= Cost(c) + Times(x + y - a - b, h)
  {
    hide Cost, Times, Height, Count;
    assert Count(t, x) > 0 && Count(t, y) > 0 && Count(t, a) > 0 && Count(t, b) > 0;
    LeastOther(t, a, b, x);
    LeastOther(t, a, b, y);
    TimesZero(h);
    if x == a && y == b {
      u := c;
    } else if x == a {
      u := SwapOne(t, c, a, b, y, h);
    } else if x == b {
      u := SwapOne(t, c, b, a, y, h);
    } else {
      u := SwapBoth(t, c, a, b, x, y, h);
    }
  }

  /** One of the two is in the deepest pair already; the other one, `q`, makes room for `y`. */
  lemma SwapOne(t: Weighted, c: Weighted, p: int, q: int, y: int, h: nat) returns (u: Weighted)
    requires q <= y && q != y && Count(t, q) > One(p == q)
    requires Collapsed(t, c, p, y, p + q) && Height(c) <= h
    ensures IsMerged(t, u, p, q) && Cost(u) <= Cost(c) + Times(y - q, h)
  {
    hide Cost, Times, Height, Count;
    assert Count(c, q) > 0;
    u := ReplaceIn(c, q, y, h);
  }

  lemma SwapBoth(t: Weighted, c: Weighted, a: int, b: int, x: int, y: int, h: nat) returns (u: Weighted)
    requires a <= b < x <= y && Count(t, a) > 0 && Count(t, b) > One(a == b)
    requires Collapsed(t, c, x, y, a + b) && Height(c) <= h
    ensures IsMerged(t, u, a, b) && Cost(u) <= Cost(c) + Times(x + y - a - b, h)
  {
    hide Cost, Times, Height, Count;
    assert Count(c, a) > 0;
    var v := ReplaceIn(c, a, x, h);
    assert Count(v, b) > 0;
    u := ReplaceIn(v, b, y, h);
    TimesPlus(x - a, y - b, h);
  }

  lemma TallEnough(t: Weighted) returns (h: nat)
    requires t.Fork?
    ensures h == Height(t) >= 1
  {
    h := Height(t);
  }

  lemma Balance(gain: int, h: nat)
    requires h >= 1
    ensures Times(-gain, h - 1) + Times(gain, h) == gain
    ensures gain == 0 ==> Times(-gain, h - 1) == 0
  {
    TimesPlus(gain, -gain, h - 1);
    TimesZero(h - 1);
  }

  lemma {:induction false} TimesZero(n: nat)
    ensures Times(0, n) == 0
  {
    if n > 0 { TimesZero(n - 1); }
  }

  function Merged(s: multiset<int>, a: int, b: int): multiset<int> {
    s - multiset{a} - multiset{b} + multiset{a + b}
  }

  /** `a` and `b` are the two smallest of the collection. */
  ghost predicate TwoSmallest(s: multiset<int>, a: int, b: int) {
    a <= b && (forall w :: s[w] >= One(w == a) + One(w == b)) && (forall w :: s[w] > One(w == a) ==> b <= w)
  }

  lemma MergedCount(s: multiset<int>, a: int, b: int, w: int)
    requires TwoSmallest(s, a, b)
    ensures Merged(s, a, b)[w] == s[w] - One(w == a) - One(w == b) + One(w == a + b)
  {
  }

  /** Every tree over the weights `s` costs at least `k` more than some tree over the weights `s'`. */
  ghost predicate BoundedBy(s: multiset<int>, s': multiset<int>, k: int) {
    forall t: Weighted :: Over(t, s) ==> exists u: Weighted :: Over(u, s') && Cost(u) + k <= Cost(t)
  }

  lemma BoundedStart(s: multiset<int>)
    ensures BoundedBy(s, s, 0)
  {
  }

  lemma TwoIsFork(t: Weighted, a: int, b: int)
    requires TwoLeast(t, a, b)
    ensures t.Fork?
  {
    assert Count(t, a) >= One(a == a) + One(a == b);
    assert Count(t, b) >= One(b == a) + One(b == b);
  }

  /** Merging the two smallest keeps the bound, raised by their sum. */
  lemma BoundedMerge(s: multiset<int>, s': multiset<int>, k: int, a: int, b: int)
    requires BoundedBy(s, s', k) && TwoSmallest(s', a, b)
    ensures BoundedBy(s, Merged(s', a, b), k + a + b)
  {
    forall t: Weighted | Over(t, s)
      ensures exists u: Weighted :: Over(u, Merged(s', a, b)) && Cost(u) + (k + a + b) <= Cost(t)
    {
      var v: Weighted :| Over(v, s') && Cost(v) + k <= Cost(t);
      var u := MergeOver(v, s', a, b);
      assert Cost(u) + (k + a + b) <= Cost(t);
    }
  }

  lemma MergeOver(t: Weighted, s: multiset<int>, a: int, b: int) returns (u: Weighted)
    requires Over(t, s) && TwoSmallest(s, a, b)
    ensures Over(u, Merged(s, a, b)) && Cost(u) + a + b <= Cost(t)
  {
    hide Count, Cost, Merged;
    assert TwoLeast(t, a, b);
    TwoIsFork(t, a, b);
    u := Exchange(t, a, b);
    forall w ensures Count(u, w) == Merged(s, a, b)[w] { MergedCount(s, a, b, w); }
  }

  lemma {:induction false} HasLeaf(t: Weighted) returns (w: int)
    ensures Count(t, w) > 0
  {
    match t
    case Tip(x) => w := x;
    case Fork(l, r) => w := HasLeaf(l);
  }

  lemma ForkHasTwo(t: Weighted) returns (x: int, y: int)
    requires t.Fork?
    ensures Count(t, x) >= 1 + One(x == y) && Count(t, y) >= 1
  {
    x := HasLeaf(t.left);
    y := HasLeaf(t.right);
  }

  /** With one weight left the bound is the cost of the best tree. */
  lemma BoundedEnd(s: multiset<int>, w: int, k: int, t: Weighted)
    requires BoundedBy(s, multiset{w}, k) && Over(t, s)
    ensures k <= Cost(t)
  {
    var u: Weighted :| Over(u, multiset{w}) && Cost(u) + k <= Cost(t);
    if u.Fork? {
      var x, y := ForkHasTwo(u);
      assert false;
    }
  }
}

/**
 A table of frequencies that needs squashing: its tree has a code that is too long, and set-up goes through.
 */
module HuffmanDeep {
  import opened Basics
  import opened HuffmanTree
  import opened HuffmanBuild
  import opened HuffmanCodes
  import opened HuffmanSquash
  import opened HuffmanDepth
  import opened HuffmanGain
  import opened HuffmanInit

  // ----- trees without their bytes -----

  function Bare(t: Tree): Tree {
    if t.Nil? then Nil else Node(Bare(t.left), Bare(t.right), 0)
  }

  function BareEntry(e: Entry): Entry { Entry(e.freq, Bare(e.tree)) }

  function BareAll(s: seq<Entry>): (r: seq<Entry>)
    ensures |r| == |s| && forall i :: 0 <= i < |s| ==> r[i] == BareEntry(s[i])
  {
    if s == [] then [] else [BareEntry(s[0])] + BareAll(s[1..])
  }

  lemma PlacedStep(s: seq<Entry>, e: Entry, strict: bool)
    ensures Placed(s, e, strict) ==
            if s == [] || s[|s| - 1].freq > e.freq || (strict && s[|s| - 1].freq == e.freq) then s + [e]
            else Placed(s[..|s| - 1], e, strict) + [s[|s| - 1]]
  {
  }

  lemma {:induction false} BarePlaced(s: seq<Entry>, e: Entry, strict: bool)
    ensures BareAll(Placed(s, e, strict)) == Placed(BareAll(s), BareEntry(e), strict)
  {
    hide Placed, Bare, BareAll;
    var b := BareAll(s);
    PlacedStep(s, e, strict);
    PlacedStep(b, BareEntry(e), strict);
    if s == [] || s[|s| - 1].freq > e.freq || (strict && s[|s| - 1].freq == e.freq) {
      assert BareAll(s + [e]) == b + [BareEntry(e)];
    } else {
      BarePlaced(s[..|s| - 1], e, strict);
      assert BareAll(s[..|s| - 1]) == b[..|s| - 1];
      var front := Placed(s[..|s| - 1], e, strict);
      assert BareAll(front + [s[|s| - 1]]) == BareAll(front) + [BareEntry(s[|s| - 1])];
    }
  }

  /** The tree is made without a look at the bytes. */
  lemma {:induction false} BareHuffman(s: seq<Entry>)
    requires s != []
    ensures Bare(Huffman(s)) == Huffman(BareAll(s))
    decreases |s|
  {
    hide Placed;
    var n := |s|;
    if n > 1 {
      var e := MergedEntry(s[n - 1], s[n - 2]);
      BarePlaced(s[..n - 2], e, false);
      BareHuffman(Placed(s[..n - 2], e, false));
      assert BareAll(s[..n - 2]) == BareAll(s)[..n - 2];
      assert BareEntry(e) == MergedEntry(BareAll(s)[n - 1], BareAll(s)[n - 2]);
    }
  }

  lemma {:induction false} BareDepth(t: Tree, height: int, zeros: nat)
    ensures CodeDepth(Bare(t), height, zeros) == CodeDepth(t, height, zeros)
  {
    if t.Node? {
      BareDepth(t.left, DownLeft(height, zeros), Later(zeros));
      BareDepth(t.right, height + 1, 0);
    }
  }

  lemma {:induction false} BareFull(t: Tree)
    requires Full(t)
    ensures Full(Bare(t))
  {
    if !t.IsLeaf() {
      BareFull(t.left);
      BareFull(t.right);
    }
  }

  lemma {:induction false} BareSquashed(t: Tree, height: int, zeros: nat)
    requires Full(t) && zeros < 8
    ensures Bare(Squashed(t, height, zeros)) == Squashed(Bare(t), height, zeros)
    decreases Size(t), 1
  {
    BareFull(t);
    if t.IsLeaf() {
      NoTurnAtLeaf(height, zeros);
    } else {
      hide Squashed, CodeDepth, Full, Bare;
      BareNode(t);
      BareTurned(t, height, zeros);
    }
  }

  lemma BareNode(t: Tree)
    ensures t.Node? ==> Bare(t) == Node(Bare(t.left), Bare(t.right), 0)
  {
  }

  lemma {:induction false} BareTurned(t: Tree, height: int, zeros: nat)
    requires Full(t) && !t.IsLeaf() && Full(Bare(t)) && zeros < 8
    ensures Bare(Squashed(t, height, zeros)) == Squashed(Bare(t), height, zeros)
    decreases Size(t), 0
  {
    hide CodeDepth;
    var h, z := DownLeft(height, zeros), Later(zeros);
    var l, r := Squashed(t.left, h, z), Squashed(t.right, height + 1, 0);
    var a, b := CodeDepth(l, h, z), CodeDepth(r, height + 1, 0);
    BareSquashed(t.left, h, z);
    BareSquashed(t.right, height + 1, 0);
    BareDepth(l, h, z);
    BareDepth(r, height + 1, 0);
    SquashedChildren(t, height, zeros);
    if TurnsRight(a, b) {
      BareSquashed(l.left, h, z);
      BareSquashed(Node(l.right, r, l.c), height + 1, 0);
    } else if TurnsLeft(a, b) {
      BareSquashed(Node(l, r.left, r.c), h, z);
      BareSquashed(r.right, height + 1, 0);
    }
  }

  lemma {:induction false} BareOnes(t: Tree, count: nat)
    requires t.Node?
    ensures Bare(WithOnes(t, count)) == WithOnes(Bare(t), count)
    decreases t
  {
    if t.right.Node? { BareOnes(t.right, 0); }
    if t.left.Node? { BareOnes(t.left, if count >= 7 then 1 else count + 1); }
  }

  lemma {:induction false} BareEdge(t: Tree, k: nat)
    requires t.Node?
    ensures Bare(EdgeFixed(t, k)) == EdgeFixed(Bare(t), k)
    decreases k
  {
    if !t.left.Nil? && k > 0 { BareEdge(t.left, k - 1); }
  }

  lemma {:induction false} BareLeaf(t: Tree, p: Path, c: Byte)
    requires LeafAt(t, p, c)
    ensures LeafAt(Bare(t), p, 0)
    decreases |p|
  {
    if p != [] { BareLeaf(if p[0] then t.right else t.left, p[1..], c); }
  }

  lemma {:induction false} LeafOfBare(t: Tree, p: Path) returns (c: Byte)
    requires LeafAt(Bare(t), p, 0)
    ensures LeafAt(t, p, c)
    decreases |p|
  {
    if p == [] {
      BareNode(t.left);
      BareNode(t.right);
      c := t.c;
    } else {
      c := LeafOfBare(if p[0] then t.right else t.left, p[1..]);
    }
  }

  lemma {:induction false} LeafTall(t: Tree, p: Path, c: Byte)
    requires LeafAt(t, p, c)
    ensures |p| <= Tall(t)
    decreases |p|
  {
    if p != [] { LeafTall(if p[0] then t.right else t.left, p[1..], c); }
  }

  lemma {:induction false} TallLeaf(t: Tree) returns (p: Path, c: Byte)
    requires t.Node?
    ensures LeafAt(t, p, c) && |p| == Tall(t)
  {
    if t.IsLeaf() {
      p, c := [], t.c;
    } else {
      var right := t.left.Nil? || (t.right.Node? && Tall(t.left) < Tall(t.right));
      p, c := TallLeaf(if right then t.right else t.left);
      p := [right] + p;
    }
  }

  /** The tree with the ones put in, before the terminating byte comes to it. */
  function Coded(t: Tree): Tree
    requires t.Node?
  {
    WithOnes(EdgeFixed(t, 4), 0)
  }

  /** The longest code, as it can be read off the tree without its bytes. */
  lemma CodesTall(t: Tree, p: Path, c: Byte)
    requires t.Node? && LeafAt(CodeTree(t), p, c)
    ensures |p| <= 8 || |p| <= Tall(Coded(Bare(t)))
  {
    hide WithOnes, Grafted;
    var u := Coded(t);
    EdgeFixedEnds(t, 4, 0);
    GraftedLeaves(u, 4, 8, p, c);
    if LeafAt(u, p, c) {
      BareLeaf(u, p, c);
      BareOnes(EdgeFixed(t, 4), 0);
      BareEdge(t, 4);
      LeafTall(Bare(u), p, 0);
    }
  }

  lemma LongestCode(t: Tree) returns (p: Path, c: Byte)
    requires t.Node?
    ensures LeafAt(CodeTree(t), p, c) && |p| == Tall(Coded(Bare(t)))
  {
    hide WithOnes, Grafted;
    var u := Coded(t);
    BareOnes(EdgeFixed(t, 4), 0);
    BareEdge(t, 4);
    p, c := TallLeaf(Bare(u));
    BareBytes(u, p, c);
    c := LeafOfBare(u, p);
    EdgeFixedEnds(t, 4, 0);
    GraftedLeaves(u, 4, 8, p, c);
  }

  lemma {:induction false} BareBytes(t: Tree, p: Path, c: Byte)
    requires LeafAt(Bare(t), p, c)
    ensures c == 0
    decreases |p|
  {
    if p != [] { BareBytes(if p[0] then t.right else t.left, p[1..], c); }
  }

  // ----- the table -----

  /** On these steps, counted from the bottom, the rest of the tree is on the right. */
  predicate ToRight(i: nat) { 6 <= i < 10 }

  /** The frequencies of all that is below the step `i`, together: 240 bytes of frequency 1 and the bytes beside the
      steps below. */
  function Below(i: nat): nat
    ensures Below(i) >= 240
  {
    if i == 0 then 240 else 2 * Below(i - 1) + if ToRight(i - 1) then -1 else 1
  }

  /** The frequency of the byte beside the step `i`: one more than that, or one less. */
  function Tooth(i: nat): nat { if ToRight(i) then Below(i) - 1 else Below(i) + 1 }

  lemma BelowNext(i: nat)
    ensures Below(i + 1) == Below(i) + Tooth(i) && Tooth(i + 1) > Below(i) && Tooth(i + 1) > Tooth(i)
  {
  }

  const TEETH := 15

  const DEEP: seq<int> := seq(TABLE_SIZE, k => if k == 0 then 0 else if 1 <= k <= TEETH then Tooth(TEETH - k) else 1)

  // ----- sorting it -----

  lemma {:induction false} ArrangedSorted(s: seq<Entry>)
    requires Sorted(s)
    ensures Arranged(s) == s
  {
    hide Placed, Arranged, Sorted;
    ArrangedStep(s);
    if s != [] {
      var n := |s| - 1;
      SortedPrefix(s, n);
      ArrangedSorted(s[..n]);
      if n > 0 { LastIsSmallest(s); }
      PlacedStep(s[..n], s[n], true);
      assert s[..n] + [s[n]] == s;
    }
  }

  lemma ArrangedStep(s: seq<Entry>)
    ensures Arranged(s) == if s == [] then [] else Placed(Arranged(s[..|s| - 1]), s[|s| - 1], true)
  {
  }

  lemma LastIsSmallest(s: seq<Entry>)
    requires Sorted(s) && |s| > 1
    ensures s[..|s| - 1][|s| - 2].freq >= s[|s| - 1].freq
  {
  }

  lemma {:induction false} StartEntry(freq: seq<int>, n: nat, k: nat)
    requires |freq| == TABLE_SIZE && n < TABLE_SIZE && k < n
    ensures |StartEntries(freq, n)| == n && StartEntries(freq, n)[k] == Entry(freq[k + 1], Leaf(k + 1))
  {
    StartOk(freq, n);
    StartOk(freq, n - 1);
    if k < n - 1 { StartEntry(freq, n - 1, k); }
  }

  lemma {:induction false} TeethGrow(i: nat, j: nat)
    requires i <= j
    ensures 1 < Tooth(i) <= Tooth(j)
    decreases j
  {
    if i < j {
      TeethGrow(i, j - 1);
      BelowNext(j - 1);
    }
  }

  lemma DeepSorted()
    ensures Sorted(StartEntries(DEEP, 255))
  {
    hide Tooth, StartEntries;
    var s := StartEntries(DEEP, 255);
    StartOk(DEEP, 255);
    forall i, j | 0 <= i < j < |s| ensures s[i].freq >= s[j].freq {
      StartEntry(DEEP, 255, i);
      StartEntry(DEEP, 255, j);
      if i < TEETH { TeethGrow(if j < TEETH then TEETH - j - 1 else 0, TEETH - i - 1); }
    }
  }

  /** The bytes beside the steps from `i` on, the topmost first. */
  function Teeth(i: nat): seq<Entry>
    decreases TEETH - i
  {
    if i >= TEETH then [] else Teeth(i + 1) + [Entry(Tooth(i), Leaf(0))]
  }

  function Copies(n: nat, e: Entry): (s: seq<Entry>)
    ensures |s| == n && forall i :: 0 <= i < n ==> s[i] == e
  {
    if n == 0 then [] else Copies(n - 1, e) + [e]
  }

  lemma {:induction false} DeepStart(n: nat)
    requires n <= 255
    ensures BareAll(StartEntries(DEEP, n)) ==
            if n <= TEETH then Teeth(TEETH - n) else Teeth(0) + Copies(n - TEETH, Entry(1, Leaf(0)))
  {
    hide Tooth, BareAll, StartEntries, Teeth, Copies;
    StartNext(n);
    if n > 0 {
      DeepStart(n - 1);
      if n <= TEETH { TeethNext(TEETH - n); } else { CopiesNext(n - TEETH, Entry(1, Leaf(0))); }
      if n == TEETH + 1 { assert Teeth(0) + Copies(1, Entry(1, Leaf(0))) == Teeth(0) + [Entry(1, Leaf(0))]; }
    } else {
      TeethNext(TEETH);
    }
  }

  lemma StartNext(n: nat)
    requires n <= 255
    ensures BareAll(StartEntries(DEEP, n)) ==
            if n == 0 then [] else BareAll(StartEntries(DEEP, n - 1)) + [Entry(DEEP[n], Leaf(0))]
  {
    hide Tooth, BareAll;
    if n > 0 {
      assert Bare(Leaf(n)) == Node(Bare(Nil), Bare(Nil), 0);
      assert BareAll(StartEntries(DEEP, n)) == BareAll(StartEntries(DEEP, n - 1)) + [Entry(DEEP[n], Leaf(0))];
    }
  }

  lemma TeethNext(i: nat)
    ensures Teeth(i) == if i >= TEETH then [] else Teeth(i + 1) + [Entry(Tooth(i), Leaf(0))]
  {
  }

  lemma CopiesNext(n: nat, e: Entry)
    requires n > 0
    ensures Copies(n, e) == Copies(n - 1, e) + [e]
    ensures n == 1 ==> Copies(n, e) == [e]
  {
  }

  // ----- merging it -----

  /** A tree with 2^d leaves, all of them `d` steps deep. */
  function Perfect(d: nat): (t: Tree)
    ensures Full(t)
  {
    if d == 0 then Leaf(0) else Node(Perfect(d - 1), Perfect(d - 1), 0)
  }

  lemma {:induction false} PlacedPast(a: seq<Entry>, b: seq<Entry>, e: Entry)
    requires (forall i :: 0 <= i < |b| ==> b[i].freq <= e.freq) && (a != [] ==> a[|a| - 1].freq > e.freq)
    ensures Placed(a + b, e, false) == a + [e] + b
  {
    hide Placed;
    PlacedStep(a + b, e, false);
    if b == [] {
      assert a + b == a;
    } else {
      var m := |b| - 1;
      assert (a + b)[..|a + b| - 1] == a + b[..m];
      PlacedPast(a, b[..m], e);
      assert a + [e] + b[..m] + [b[m]] == a + [e] + b;
    }
  }

  lemma HuffmanTwo(s: seq<Entry>, b: Entry, a: Entry)
    ensures Huffman(s + [b, a]) == Huffman(Placed(s, MergedEntry(a, b), false))
  {
    assert (s + [b, a])[..|s|] == s;
  }

  /** An even number of equal trees at the end are merged two by two. */
  lemma {:induction false} PairUp(h: seq<Entry>, d: nat, m: seq<Entry>, n: nat, w: nat, x: Tree)
    requires (forall i :: 0 <= i < |m| ==> m[i].freq <= 2 * w) && (h != [] ==> h[|h| - 1].freq > 2 * w)
    requires |h| + d + |m| + n > 0
    ensures Huffman(h + Copies(d, Entry(2 * w, Node(x, x, 0))) + m + Copies(2 * n, Entry(w, x))) ==
            Huffman(h + Copies(d + n, Entry(2 * w, Node(x, x, 0))) + m)
    decreases n
  {
    hide Huffman, Placed, Copies;
    var e, two := Entry(w, x), Entry(2 * w, Node(x, x, 0));
    if n == 0 {
      assert h + Copies(d, two) + m + Copies(0, e) == h + Copies(d, two) + m;
    } else {
      var rest := Copies(d, two) + m + Copies(2 * n - 2, e);
      assert h + Copies(d, two) + m + Copies(2 * n, e) == h + rest + [e, e];
      HuffmanTwo(h + rest, e, e);
      PlacedPast(h, rest, two);
      assert h + [two] + rest == h + Copies(d + 1, two) + m + Copies(2 * n - 2, e);
      PairUp(h, d + 1, m, n - 1, w, x);
    }
  }

  const P45 := Node(Perfect(4), Perfect(5), 0)
  const P456 := Node(P45, Perfect(6), 0)
  const P4567 := Node(P456, Perfect(7), 0)

  /** The tree over the 240 bytes of frequency 1. */
  lemma OnesMerged(h: seq<Entry>)
    requires h != [] ==> h[|h| - 1].freq > 240
    ensures Huffman(h + Copies(240, Entry(1, Leaf(0)))) == Huffman(h + [Entry(240, P4567)])
  {
    hide Huffman, Placed, Copies;
    Doubled(h, 120, 1, 0);
    Doubled(h, 60, 2, 1);
    Doubled(h, 30, 4, 2);
    Doubled(h, 15, 8, 3);
    var e4 := Entry(16, Perfect(4));
    assert h + Copies(15, e4) == h + [e4] + Copies(14, e4);
    OddRound(h, e4, 7, 16, 4);
    OddRound(h, Entry(48, P45), 3, 32, 5);
    OddRound(h, Entry(112, P456), 1, 64, 6);
    assert h + [Entry(240, P4567)] + Copies(0, Entry(128, Perfect(7))) == h + [Entry(240, P4567)];
  }

  /** With one left over: the others are merged two by two, and the one with the first of them. */
  lemma OddRound(h: seq<Entry>, a: Entry, n: nat, w: nat, d: nat)
    requires n > 0 && 0 <= a.freq <= 2 * w && (h != [] ==> h[|h| - 1].freq > a.freq + 2 * w)
    ensures var two := Entry(2 * w, Perfect(d + 1));
            Huffman(h + [a] + Copies(2 * n, Entry(w, Perfect(d)))) ==
            Huffman(h + [MergedEntry(a, two)] + Copies(n - 1, two))
  {
    hide Huffman, Placed, Copies;
    var e, two := Entry(w, Perfect(d)), Entry(2 * w, Perfect(d + 1));
    assert h + Copies(0, two) + [a] + Copies(2 * n, e) == h + [a] + Copies(2 * n, e);
    PairUp(h, 0, [a], n, w, Perfect(d));
    OddOne(h, n - 1, a, two);
  }

  lemma Doubled(h: seq<Entry>, n: nat, w: nat, d: nat)
    requires (h != [] ==> h[|h| - 1].freq > 2 * w) && n > 0
    ensures Huffman(h + Copies(2 * n, Entry(w, Perfect(d)))) == Huffman(h + Copies(n, Entry(2 * w, Perfect(d + 1))))
  {
    hide Huffman, Copies;
    var e, two := Entry(w, Perfect(d)), Entry(2 * w, Perfect(d + 1));
    PairUp(h, 0, [], n, w, Perfect(d));
    assert h + Copies(0, two) + [] + Copies(2 * n, e) == h + Copies(2 * n, e);
    assert h + Copies(0 + n, two) + [] == h + Copies(n, two);
  }

  /** The one that was left over is merged with the next. */
  lemma OddOne(h: seq<Entry>, n: nat, a: Entry, b: Entry)
    requires (h != [] ==> h[|h| - 1].freq > a.freq + b.freq) && a.freq >= 0
    ensures Huffman(h + Copies(n + 1, b) + [a]) == Huffman(h + [MergedEntry(a, b)] + Copies(n, b))
  {
    hide Huffman, Placed;
    assert h + Copies(n + 1, b) + [a] == h + Copies(n, b) + [b, a];
    HuffmanTwo(h + Copies(n, b), b, a);
    PlacedPast(h, Copies(n, b), MergedEntry(a, b));
  }

  /** The tree that is made, up to the step `i`: above `low` there is a leaf beside every step. */
  function Up(low: Tree, i: nat): (t: Tree)
    ensures t.Node? || i == 0
    ensures Full(low) ==> Full(t)
  {
    if i == 0 then low
    else if ToRight(i - 1) then Node(Leaf(0), Up(low, i - 1), 0)
    else Node(Up(low, i - 1), Leaf(0), 0)
  }

  lemma {:induction false} TeethMerged(i: nat)
    requires i <= TEETH
    ensures Huffman(Placed(Teeth(i), Entry(Below(i), Up(P4567, i)), false)) == Up(P4567, TEETH)
    decreases TEETH - i
  {
    hide Huffman, Placed, Up, Tooth, Below, Teeth;
    if i == TEETH {
      TeethNext(i);
      var e := Entry(Below(i), Up(P4567, i));
      PlacedPast(Teeth(i), [], e);
      assert Teeth(i) + [] == Teeth(i) && Teeth(i) + [e] + [] == [e];
      HuffmanLast(e);
    } else {
      TeethMerged(i + 1);
      TeethNext(i);
      TeethAbove(i);
      BelowNext(i);
      UpNext(P4567, i);
      ToothSide(i);
      var e, tooth := Entry(Below(i), Up(P4567, i)), Entry(Tooth(i), Leaf(0));
      if ToRight(i) {
        LighterLast(Teeth(i + 1), e, tooth);
        assert MergedEntry(tooth, e) == Entry(Below(i + 1), Up(P4567, i + 1));
      } else {
        HeavierLast(Teeth(i + 1), e, tooth);
        assert MergedEntry(e, tooth) == Entry(Below(i + 1), Up(P4567, i + 1));
      }
    }
  }

  /** The lighter one goes to the left. */
  lemma LighterLast(rest: seq<Entry>, e: Entry, tooth: Entry)
    requires tooth.freq <= e.freq && (rest != [] ==> rest[|rest| - 1].freq > e.freq)
    ensures Huffman(Placed(rest + [tooth], e, false)) == Huffman(Placed(rest, MergedEntry(tooth, e), false))
  {
    hide Huffman, Placed;
    PlacedPast(rest, [tooth], e);
    assert rest + [e] + [tooth] == rest + [e, tooth];
    HuffmanTwo(rest, e, tooth);
  }

  lemma HeavierLast(rest: seq<Entry>, e: Entry, tooth: Entry)
    requires tooth.freq > e.freq
    ensures Huffman(Placed(rest + [tooth], e, false)) == Huffman(Placed(rest, MergedEntry(e, tooth), false))
  {
    hide Huffman, Placed;
    PlacedPast(rest + [tooth], [], e);
    assert rest + [tooth] + [] == rest + [tooth] && rest + [tooth] + [e] + [] == rest + [tooth, e];
    HuffmanTwo(rest, tooth, e);
  }

  lemma ToothSide(i: nat)
    ensures Tooth(i) == if ToRight(i) then Below(i) - 1 else Below(i) + 1
  {
  }

  lemma TeethAbove(i: nat)
    ensures var rest := Teeth(i + 1); rest != [] ==> rest[|rest| - 1].freq == Tooth(i + 1)
  {
  }

  lemma UpNext(low: Tree, i: nat)
    ensures Up(low, i + 1) == if ToRight(i) then Node(Leaf(0), Up(low, i), 0) else Node(Up(low, i), Leaf(0), 0)
  {
  }

  /** The tree of the table. */
  lemma DeepTree()
    ensures Bare(Huffman(Arranged(StartEntries(DEEP, 255)))) == Up(P4567, TEETH)
  {
    hide Huffman, Placed, Arranged, Teeth, StartEntries, Up, BareAll, Copies;
    var s := StartEntries(DEEP, 255);
    DeepSorted();
    ArrangedSorted(s);
    StartLength(DEEP);
    BareHuffman(s);
    DeepStart(255);
    TeethAt0();
    OnesMerged(Teeth(0));
    PlacedPast(Teeth(0), [], Entry(240, P4567));
    assert Teeth(0) + [] == Teeth(0);
    assert Teeth(0) + [Entry(240, P4567)] + [] == Teeth(0) + [Entry(240, P4567)];
    UpNone();
    TeethMerged(0);
  }

  lemma TeethAt0()
    ensures Teeth(0) != [] && Teeth(0)[|Teeth(0)| - 1].freq == 241
  {
  }

  lemma UpNone()
    ensures Up(P4567, 0) == P4567 && Below(0) == 240
  {
  }

  // ----- squashing it -----

  /** The levels of a perfect tree, ones included: its left edge is the deepest. */
  function Levels(d: nat, zeros: nat): int
    requires zeros < 8
  {
    if d == 0 then if zeros == 0 || zeros == 1 then 1 else 2
    else DownLeft(0, zeros) + Levels(d - 1, Later(zeros))
  }

  lemma {:induction false} PerfectLevels(d: nat, height: int, zeros: nat)
    requires zeros < 8
    ensures CodeDepth(Perfect(d), height, zeros) == height + Levels(d, zeros)
    ensures Squashed(Perfect(d), height, zeros) == Perfect(d)
  {
    hide Squashed, CodeDepth, Perfect;
    if d == 0 {
      LeafLevels(height, zeros);
    } else {
      var h, z, t := DownLeft(height, zeros), Later(zeros), Perfect(d - 1);
      PerfectNode(d);
      PerfectLevels(d - 1, h, z);
      PerfectLevels(d - 1, height + 1, 0);
      NodeDepth(t, t, 0, height, zeros);
      LeftDeepest(t, height, zeros);
      NodeStays(t, t, height, zeros);
    }
  }

  lemma LeafLevels(height: int, zeros: nat)
    requires zeros < 8
    ensures CodeDepth(Perfect(0), height, zeros) == height + if zeros == 0 || zeros == 1 then 1 else 2
    ensures Squashed(Perfect(0), height, zeros) == Perfect(0)
  {
    NoTurnAtLeaf(height, zeros);
  }

  lemma PerfectNode(d: nat)
    requires d > 0
    ensures Perfect(d) == Node(Perfect(d - 1), Perfect(d - 1), 0)
  {
  }

  /** A tree on the left comes out at most a level deeper than the same tree on the right. */
  lemma LeftDeepest(t: Tree, height: int, zeros: nat)
    requires zeros < 8
    ensures var a := CodeDepth(t, DownLeft(height, zeros), Later(zeros)); var b := CodeDepth(t, height + 1, 0);
            b <= a <= b + 1
  {
    hide CodeDepth;
    if zeros == 7 {
      DepthShifts(t, height + 1, 0);
    } else {
      ZerosCost(t, height + 1, 0, zeros + 1);
    }
  }

  /** A node whose children do not turn and are about as deep does not turn either. */
  lemma NodeStays(l: Tree, r: Tree, height: int, zeros: nat)
    requires Full(l) && Full(r) && zeros < 8
    requires var h, z := DownLeft(height, zeros), Later(zeros);
             Squashed(l, h, z) == l && Squashed(r, height + 1, 0) == r &&
             var a := CodeDepth(l, h, z); var b := CodeDepth(r, height + 1, 0);
             (a <= 25 && b <= 25) || b - 1 <= a <= b + 1
    ensures Squashed(Node(l, r, 0), height, zeros) == Node(l, r, 0)
  {
    hide Squashed, CodeDepth;
    SquashedShape(Node(l, r, 0), height, zeros);
  }

  lemma {:induction false} LevelsShort(d: nat, zeros: nat)
    requires zeros < 8 && 2 <= d + zeros <= 8
    ensures Levels(d, zeros) == d + 2
  {
    if d > 0 && zeros < 7 { LevelsShort(d - 1, zeros + 1); }
  }

  /** The lowest step, before and after: the deep tree on the left of a leaf is turned. */
  const TURNED := Node(P456, Node(Perfect(7), Leaf(0), 0), 0)

  /** Where the tree of the 240 bytes stands it is a level too deep, and it is not turned itself. */
  lemma DeepStays()
    ensures Squashed(P4567, 15, 6) == P4567 && CodeDepth(P4567, 15, 6) == 26
  {
    hide Squashed, CodeDepth, Perfect, Levels;
    LevelsShort(4, 1);
    LevelsShort(5, 0);
    LevelsShort(6, 0);
    LevelsShort(7, 0);
    PerfectLevels(4, 19, 1);
    PerfectLevels(5, 19, 0);
    PerfectLevels(6, 17, 0);
    PerfectLevels(7, 16, 0);
    NodeDepth(Perfect(4), Perfect(5), 0, 18, 0);
    NodeStays(Perfect(4), Perfect(5), 18, 0);
    NodeDepth(P45, Perfect(6), 0, 16, 7);
    NodeStays(P45, Perfect(6), 16, 7);
    NodeDepth(P456, Perfect(7), 0, 15, 6);
    NodeStays(P456, Perfect(7), 15, 6);
  }

  /** One turn brings it up. */
  lemma BottomTurns()
    ensures Squashed(Node(P4567, Leaf(0), 0), 14, 5) == TURNED && CodeDepth(TURNED, 14, 5) == 25
  {
    hide Squashed, CodeDepth, Perfect, Levels;
    LevelsShort(4, 0);
    LevelsShort(5, 0);
    LevelsShort(6, 0);
    LevelsShort(7, 1);
    DeepStays();
    PerfectLevels(0, 15, 0);
    PerfectLevels(0, 16, 0);
    PerfectIsLeaf();
    PerfectLevels(4, 18, 0);
    PerfectLevels(5, 17, 0);
    PerfectLevels(6, 16, 0);
    PerfectLevels(7, 16, 1);
    NodeDepth(Perfect(4), Perfect(5), 0, 16, 7);
    NodeDepth(P45, Perfect(6), 0, 15, 6);
    ShallowStays(P456, 15, 6);
    NodeDepth(Perfect(7), Leaf(0), 0, 15, 0);
    ShallowStays(Node(Perfect(7), Leaf(0), 0), 15, 0);
    NodeDepth(P456, Node(Perfect(7), Leaf(0), 0), 0, 14, 5);
    SquashedShape(Node(P4567, Leaf(0), 0), 14, 5);
  }

  lemma PerfectIsLeaf()
    ensures Perfect(0) == Leaf(0) && Levels(0, 0) == 1
  {
  }

  /** The zeros on the way down to step `i`, two of them in front. */
  function ZerosAt(i: nat): nat
    requires i <= TEETH
  {
    if i >= 10 then 17 - i else if i >= 6 then 0 else 6 - i
  }

  /** Above the turn nothing is too deep any more. */
  lemma {:induction false} UpSquashed(i: nat)
    requires 1 <= i <= TEETH
    ensures Squashed(Up(P4567, i), 15 - i, ZerosAt(i)) == Spine(TURNED, i)
    ensures CodeDepth(Spine(TURNED, i), 15 - i, ZerosAt(i)) == 25
  {
    hide Squashed, CodeDepth, Up, Spine;
    UpNext(P4567, i - 1);
    SpineNext(TURNED, i);
    if i == 1 {
      UpNone();
      BottomTurns();
    } else {
      UpSquashed(i - 1);
      var h, z := 15 - i, ZerosAt(i);
      PerfectIsLeaf();
      PerfectLevels(0, DownLeft(h, z), Later(z));
      PerfectLevels(0, h + 1, 0);
      BareFullUp(i - 1);
      SquashedShape(Up(P4567, i), h, z);
      if ToRight(i - 1) {
        NodeDepth(Leaf(0), Spine(TURNED, i - 1), 0, h, z);
      } else {
        NodeDepth(Spine(TURNED, i - 1), Leaf(0), 0, h, z);
      }
    }
  }

  /** What is above the lowest step, up to the step `i`, over the tree `x`. */
  function Spine(x: Tree, i: nat): (t: Tree)
    requires i >= 1 && x.Node?
    ensures t.Node?
  {
    if i == 1 then x
    else if ToRight(i - 1) then Node(Leaf(0), Spine(x, i - 1), 0)
    else Node(Spine(x, i - 1), Leaf(0), 0)
  }

  lemma SpineNext(x: Tree, i: nat)
    requires i >= 1 && x.Node?
    ensures Spine(x, i) ==
            if i == 1 then x
            else if ToRight(i - 1) then Node(Leaf(0), Spine(x, i - 1), 0)
            else Node(Spine(x, i - 1), Leaf(0), 0)
  {
  }

  lemma {:induction false} UpIsSpine(i: nat)
    requires i >= 1
    ensures Up(P4567, i) == Spine(Up(P4567, 1), i)
  {
    if i > 1 { UpIsSpine(i - 1); }
  }

  lemma BareFullUp(i: nat)
    ensures Full(Up(P4567, i)) && Full(Up(P4567, i + 1))
  {
  }

  // ----- how long its codes are -----

  /** How far a perfect tree goes down with the ones put in. */
  function OnesTall(d: nat, count: nat): nat {
    if d == 0 then if count >= 3 then 1 else 0
    else if count >= 7 then 2 + Most(OnesTall(d - 1, 1), OnesTall(d - 1, 0))
    else 1 + Most(OnesTall(d - 1, count + 1), OnesTall(d - 1, 0))
  }

  function Most(a: nat, b: nat): nat { if a >= b then a else b }

  lemma OnesNode(l: Tree, r: Tree, count: nat)
    requires l.Node? && r.Node?
    ensures Tall(WithOnes(Node(l, r, 0), count)) ==
            if count >= 7 then 2 + Most(Tall(WithOnes(l, 1)), Tall(WithOnes(r, 0)))
            else 1 + Most(Tall(WithOnes(l, count + 1)), Tall(WithOnes(r, 0)))
  {
  }

  lemma {:induction false} OnesPerfect(d: nat, count: nat)
    ensures Tall(WithOnes(Perfect(d), count)) == OnesTall(d, count)
  {
    hide WithOnes, Tall, Perfect;
    if d == 0 {
      OnesLeafTall(count);
    } else {
      PerfectNode(d);
      OnesNode(Perfect(d - 1), Perfect(d - 1), count);
      OnesPerfect(d - 1, 0);
      OnesPerfect(d - 1, 1);
      OnesPerfect(d - 1, count + 1);
    }
  }

  lemma OnesLeafTall(count: nat)
    ensures Tall(WithOnes(Perfect(0), count)) == if count >= 3 then 1 else 0
  {
  }

  lemma {:induction false} OnesShort(d: nat, count: nat)
    requires d + count <= 8 && count <= 7
    ensures OnesTall(d, count) == if d + count >= 3 then d + 1 else d
  {
    hide OnesTall;
    OnesTallNext(d, count);
    if d > 0 {
      OnesShort(d - 1, 0);
      OnesShort(d - 1, if count < 7 then count + 1 else 1);
    }
  }

  lemma OnesTallNext(d: nat, count: nat)
    ensures OnesTall(d, count) ==
            if d == 0 then if count >= 3 then 1 else 0
            else if count >= 7 then 2 + Most(OnesTall(d - 1, 1), OnesTall(d - 1, 0))
            else 1 + Most(OnesTall(d - 1, count + 1), OnesTall(d - 1, 0))
  {
  }

  lemma PerfectTall(d: nat, count: nat)
    requires d + count <= 8 && count <= 7
    ensures Tall(WithOnes(Perfect(d), count)) == if d + count >= 3 then d + 1 else d
  {
    hide WithOnes, Tall, Perfect;
    OnesPerfect(d, count);
    OnesShort(d, count);
  }

  /** The lowest step with the ones put in, as it was and as it is when it is turned. */
  lemma BottomTall()
    ensures Tall(WithOnes(Node(P4567, Leaf(0), 0), 5)) == 11 && Tall(WithOnes(TURNED, 5)) == 10
  {
    hide WithOnes, Tall, Perfect;
    PerfectIsLeaf();
    PerfectTall(0, 0);
    PerfectTall(0, 1);
    PerfectTall(4, 1);
    PerfectTall(4, 2);
    PerfectTall(5, 0);
    PerfectTall(6, 0);
    PerfectTall(7, 0);
    PerfectTall(7, 1);
    OnesNode(Perfect(4), Perfect(5), 1);
    OnesNode(P45, Perfect(6), 7);
    OnesNode(P456, Perfect(7), 6);
    OnesNode(P4567, Leaf(0), 5);
    OnesNode(Perfect(4), Perfect(5), 7);
    OnesNode(P45, Perfect(6), 6);
    OnesNode(Perfect(7), Leaf(0), 0);
    OnesNode(P456, Node(Perfect(7), Leaf(0), 0), 5);
  }

  /** The zeros in the code on the way to step `i`, when the one is in that is put behind four zeros on the edge. */
  function CountAt(i: nat): nat
    requires i <= 11
  {
    if i >= 10 then 11 - i else if i >= 6 then 0 else 6 - i
  }

  lemma {:induction false} SpineTall(x: Tree, i: nat)
    requires x.Node? && 1 <= i <= 11 && Tall(WithOnes(x, 5)) >= 1
    ensures Tall(WithOnes(Spine(x, i), CountAt(i))) == Tall(WithOnes(x, 5)) + i - 1
  {
    hide WithOnes, Tall, Spine;
    SpineNext(x, i);
    if i > 1 {
      SpineTall(x, i - 1);
      PerfectIsLeaf();
      OnesLeafTall(0);
      OnesLeafTall(CountAt(i) + 1);
      if ToRight(i - 1) {
        OnesNode(Leaf(0), Spine(x, i - 1), CountAt(i));
      } else {
        OnesNode(Spine(x, i - 1), Leaf(0), CountAt(i));
      }
    }
  }

  /** The four steps above, and the one behind them. */
  lemma {:induction false} EdgeTall(x: Tree, k: nat)
    requires x.Node? && k <= 4 && Tall(WithOnes(Spine(x, 11), 0)) >= 1
    ensures Tall(WithOnes(EdgeFixed(Spine(x, 11 + k), k), 4 - k)) == Tall(WithOnes(Spine(x, 11), 0)) + 1 + k
  {
    hide WithOnes, Tall, Spine;
    if k == 0 {
      UnaryTall(Spine(x, 11));
    } else {
      SpineNext(x, 11 + k);
      EdgeTall(x, k - 1);
      PerfectIsLeaf();
      OnesLeafTall(0);
      OnesNode(EdgeFixed(Spine(x, 10 + k), k - 1), Leaf(0), 4 - k);
    }
  }

  lemma UnaryTall(t: Tree)
    requires t.Node?
    ensures Tall(WithOnes(EdgeFixed(t, 0), 4)) == 1 + Tall(WithOnes(t, 0))
  {
  }

  lemma WholeTall(x: Tree)
    requires x.Node? && Tall(WithOnes(x, 5)) >= 1
    ensures Tall(Coded(Spine(x, TEETH))) == Tall(WithOnes(x, 5)) + 15
  {
    hide WithOnes, Tall, Spine;
    SpineTall(x, 11);
    EdgeTall(x, 4);
  }

  lemma UpOne()
    ensures Up(P4567, 1) == Node(P4567, Leaf(0), 0)
  {
    hide Perfect;
    UpNone();
    UpNext(P4567, 0);
  }

  lemma DeepBefore(t: Tree)
    requires t.Node? && Bare(t) == Up(P4567, TEETH)
    ensures exists p: Path, c: Byte :: LeafAt(CodeTree(t), p, c) && |p| == 26
  {
    hide WithOnes, Tall, Spine, Up, CodeTree, Perfect, LeafAt, Bare, Coded;
    UpIsSpine(TEETH);
    UpOne();
    BottomTall();
    WholeTall(Node(P4567, Leaf(0), 0));
    var p, c := LongestCode(t);
    assert LeafAt(CodeTree(t), p, c) && |p| == 26;
  }

  lemma DeepAfter(t: Tree, p: Path, c: Byte)
    requires Full(t) && Bare(t) == Up(P4567, TEETH)
    requires Squashed(t, 0, 2).Node? && LeafAt(CodeTree(Squashed(t, 0, 2)), p, c)
    ensures |p| <= 25
  {
    hide WithOnes, Tall, Spine, Up, CodeTree, Squashed;
    BareSquashed(t, 0, 2);
    UpSquashed(TEETH);
    BottomTall();
    WholeTall(TURNED);
    CodesTall(Squashed(t, 0, 2), p, c);
  }

  // ----- setting it up -----

  /** The best tree for this table has a code of 26 bits. It is turned once, and set-up goes through. */
  method SetUpDeep() returns (ctop: CNode, ctable: array<nat>, ltable: array<nat>, ok: bool, ghost t: Tree)
    ensures OverAllBytes(t) && ctop.Valid() && ctop.Tree() == CodeTree(Squashed(t, 0, 2))
    ensures Optimal(t, DEEP) && ok && TablesFor(ctop.Tree(), ctable[..], ltable[..])
    ensures exists p: Path, c: Byte :: LeafAt(CodeTree(t), p, c) && |p| == 26
  {
    hide Huffman, Arranged, StartEntries, Squashed, CodeTree, Optimal, OverAllBytes, CNode.Valid, CNode.Tree;
    ctop, ctable, ltable, ok, t := InitCompress(DEEP);
    DeepTree();
    FullOfAll(t);
    DeepBefore(t);
    forall p: Path, c: Byte | LeafAt(ctop.Tree(), p, c) ensures |p| <= 25 { DeepAfter(t, p, c); }
  }
}

/**
 Building the compression tree: sort the bytes by frequency, then merge the two rarest
 trees again and again. The tree in the end is one of least weighted depth.
 */
module HuffmanBuild {
  import opened Basics
  import opened HuffmanOptimal
  import opened HuffmanTree

  const TABLE_SIZE := 256

  datatype Item = Item(freq: int, node: CNode)

  /** What an entry of the table stands for. */
  datatype Entry = Entry(freq: int, tree: Tree)

  // ----- sums over entries -----

  function Sum(s: seq<Entry>, f: Entry -> int): int {
    if s == [] then 0 else f(s[0]) + Sum(s[1..], f)
  }

  lemma {:induction false} SumAppend(s: seq<Entry>, t: seq<Entry>, f: Entry -> int)
    ensures Sum(s + t, f) == Sum(s, f) + Sum(t, f)
  {
    if s == [] {
      assert s + t == t;
    } else {
      assert (s + t)[1..] == s[1..] + t;
      SumAppend(s[1..], t, f);
    }
  }

  lemma SumOne(e: Entry, f: Entry -> int)
    ensures Sum([e], f) == f(e)
  {
  }

  function Swapped(s: seq<Entry>, k: nat): seq<Entry>
    requires 0 < k < |s|
  {
    s[k - 1 := s[k]][k := s[k - 1]]
  }

  lemma {:induction false} SumSwapped(s: seq<Entry>, k: nat, f: Entry -> int)
    requires 0 < k < |s|
    ensures Sum(Swapped(s, k), f) == Sum(s, f)
  {
    var a, x, y, b := s[..k - 1], s[k - 1], s[k], s[k + 1..];
    assert s == a + ([x] + ([y] + b));
    assert Swapped(s, k) == a + ([y] + ([x] + b));
    SumAppend(a, [x] + ([y] + b), f);
    SumAppend(a, [y] + ([x] + b), f);
    SumAppend([x], [y] + b, f);
    SumAppend([y], b, f);
    SumAppend([y], [x] + b, f);
    SumAppend([x], b, f);
  }

  function FreqIs(w: int): Entry -> int { (e: Entry) => One(e.freq == w) }

  function BytesIn(c: Byte): Entry -> int { (e: Entry) => ByteCount(e.tree, c) }

  ghost function InnerCost(freq: seq<int>): Entry -> int
    requires |freq| == TABLE_SIZE
  {
    (e: Entry) => if Full(e.tree) then Cost(WeightsOf(e.tree, freq)) else 0
  }

  /** Each entry is a full tree with its total frequency. */
  ghost predicate EntryOk(e: Entry, freq: seq<int>) {
    |freq| == TABLE_SIZE && Full(e.tree) && e.freq == Total(WeightsOf(e.tree, freq))
  }

  ghost predicate EntriesOk(s: seq<Entry>, freq: seq<int>) {
    forall i :: 0 <= i < |s| ==> EntryOk(s[i], freq)
  }

  /** The entries make up the bytes from 1 to 255, once each. */
  ghost predicate AllBytes(s: seq<Entry>) {
    forall c: Byte :: Sum(s, BytesIn(c)) == One(c != 0)
  }

  ghost predicate PoolOf(s: seq<Entry>, pool: multiset<int>) {
    forall w :: Sum(s, FreqIs(w)) == pool[w]
  }

  /** What the loops keep true of the entries: nothing is lost, and no tree beats what is still possible. */
  ghost predicate Progress(s: seq<Entry>, freq: seq<int>, all: multiset<int>, pool: multiset<int>) {
    EntriesOk(s, freq) && AllBytes(s) && PoolOf(s, pool) && |freq| == TABLE_SIZE &&
    BoundedBy(all, pool, Sum(s, InnerCost(freq)))
  }

  predicate Sorted(s: seq<Entry>) {
    forall i, j :: 0 <= i < j < |s| ==> s[i].freq >= s[j].freq
  }

  /** Sorted up to the entry at `k`, which is not below anything behind it. */
  predicate SortedBut(s: seq<Entry>, k: nat) {
    k < |s| &&
    (forall i, j :: 0 <= i < j < |s| && i != k && j != k ==> s[i].freq >= s[j].freq) &&
    (forall j :: k < j < |s| ==> s[k].freq >= s[j].freq)
  }

  lemma {:induction false} ProgressSwapped(s: seq<Entry>, k: nat, freq: seq<int>, all: multiset<int>,
      pool: multiset<int>)
    requires 0 < k < |s| && Progress(s, freq, all, pool)
    ensures Progress(Swapped(s, k), freq, all, pool)
  {
    hide Sum, BoundedBy, EntryOk;
    forall c: Byte ensures Sum(Swapped(s, k), BytesIn(c)) == One(c != 0) { SumSwapped(s, k, BytesIn(c)); }
    forall w ensures Sum(Swapped(s, k), FreqIs(w)) == pool[w] { SumSwapped(s, k, FreqIs(w)); }
    SumSwapped(s, k, InnerCost(freq));
  }

  lemma SortedButSwapped(s: seq<Entry>, k: nat)
    requires 0 < k && SortedBut(s, k) && s[k - 1].freq <= s[k].freq
    ensures SortedBut(Swapped(s, k), k - 1)
  {
  }

  lemma SortedButDone(s: seq<Entry>, k: nat)
    requires SortedBut(s, k) && (k == 0 || s[k - 1].freq >= s[k].freq)
    ensures Sorted(s)
  {
  }

  function MergedEntry(a: Entry, b: Entry): Entry { Entry(b.freq + a.freq, Node(a.tree, b.tree, 0)) }

  lemma SumMerged(s: seq<Entry>, a: Entry, b: Entry, f: Entry -> int)
    ensures Sum(s + [b, a], f) == Sum(s, f) + f(a) + f(b)
    ensures Sum(s + [MergedEntry(a, b)], f) == Sum(s, f) + f(MergedEntry(a, b))
  {
    assert s + [b, a] == s + ([b] + [a]);
    SumAppend(s, [b] + [a], f);
    SumAppend([b], [a], f);
    SumAppend(s, [MergedEntry(a, b)], f);
    SumOne(a, f);
    SumOne(b, f);
    SumOne(MergedEntry(a, b), f);
  }

  lemma {:induction false} SumOfOthers(s: seq<Entry>, w: int, least: int)
    requires forall i :: 0 <= i < |s| ==> s[i].freq >= least
    ensures Sum(s, FreqIs(w)) >= 0 && (Sum(s, FreqIs(w)) > 0 ==> w >= least)
  {
    if s != [] { SumOfOthers(s[1..], w, least); }
  }

  lemma LastAreSmallest(s: seq<Entry>, a: Entry, b: Entry, pool: multiset<int>)
    requires Sorted(s + [b, a]) && PoolOf(s + [b, a], pool)
    ensures TwoSmallest(pool, a.freq, b.freq)
  {
    var t := s + [b, a];
    assert t[|s|] == b && t[|s| + 1] == a;
    forall i | 0 <= i < |s| ensures s[i].freq >= b.freq { assert t[i] == s[i]; }
    forall w
      ensures pool[w] >= One(w == a.freq) + One(w == b.freq)
      ensures pool[w] > One(w == a.freq) ==> b.freq <= w
    {
      SumMerged(s, a, b, FreqIs(w));
      SumOfOthers(s, w, b.freq);
    }
  }

  /** Merging the two last entries of a sorted table. */
  lemma {:induction false} ProgressMerged(s: seq<Entry>, a: Entry, b: Entry, freq: seq<int>, all: multiset<int>,
      pool: multiset<int>)
    requires Sorted(s + [b, a]) && Progress(s + [b, a], freq, all, pool)
    ensures Progress(s + [MergedEntry(a, b)], freq, all, Merged(pool, a.freq, b.freq))
  {
    hide Sum, BoundedBy, Merged, TwoSmallest, Cost;
    var t, u, m := s + [b, a], s + [MergedEntry(a, b)], MergedEntry(a, b);
    assert t[|s|] == b && t[|s| + 1] == a;
    assert EntryOk(a, freq) && EntryOk(b, freq);
    MergedOk(a, b, freq);
    forall i | 0 <= i < |u| ensures EntryOk(u[i], freq) {
      if i < |s| { assert u[i] == t[i]; }
    }
    LastAreSmallest(s, a, b, pool);
    forall c: Byte ensures Sum(u, BytesIn(c)) == One(c != 0) { SumMerged(s, a, b, BytesIn(c)); }
    forall w ensures Sum(u, FreqIs(w)) == Merged(pool, a.freq, b.freq)[w] {
      SumMerged(s, a, b, FreqIs(w));
      MergedCount(pool, a.freq, b.freq, w);
    }
    SumMerged(s, a, b, InnerCost(freq));
    BoundedMerge(all, pool, Sum(t, InnerCost(freq)), a.freq, b.freq);
  }

  lemma MergedOk(a: Entry, b: Entry, freq: seq<int>)
    requires EntryOk(a, freq) && EntryOk(b, freq)
    ensures EntryOk(MergedEntry(a, b), freq)
    ensures InnerCost(freq)(MergedEntry(a, b)) == InnerCost(freq)(a) + InnerCost(freq)(b) + a.freq + b.freq
    ensures forall c: Byte :: BytesIn(c)(MergedEntry(a, b)) == BytesIn(c)(a) + BytesIn(c)(b)
  {
  }

  // ----- from least bound to least tree -----

  /** The bytes below `n` with frequency `w`, each as often as the tree has it. */
  function FreqCount(t: Tree, freq: seq<int>, w: int, n: nat): nat
    requires |freq| == TABLE_SIZE && n <= TABLE_SIZE
  {
    if n == 0 then 0
    else FreqCount(t, freq, w, n - 1) + if freq[n - 1] == w then ByteCount(t, n - 1) else 0
  }

  lemma {:induction false} FreqCountFork(t: Tree, freq: seq<int>, w: int, n: nat)
    requires |freq| == TABLE_SIZE && n <= TABLE_SIZE && t.Node? && !t.IsLeaf()
    ensures FreqCount(t, freq, w, n) == FreqCount(t.left, freq, w, n) + FreqCount(t.right, freq, w, n)
  {
    if n > 0 { FreqCountFork(t, freq, w, n - 1); }
  }

  lemma {:induction false} FreqCountLeaf(t: Tree, freq: seq<int>, w: int, n: nat)
    requires |freq| == TABLE_SIZE && n <= TABLE_SIZE && t.IsLeaf()
    ensures FreqCount(t, freq, w, n) == One(t.c < n && freq[t.c] == w)
  {
    if n > 0 { FreqCountLeaf(t, freq, w, n - 1); }
  }

  lemma {:induction false} WeightsCount(t: Tree, freq: seq<int>, w: int)
    requires |freq| == TABLE_SIZE && Full(t)
    ensures Count(WeightsOf(t, freq), w) == FreqCount(t, freq, w, TABLE_SIZE)
  {
    if t.IsLeaf() {
      FreqCountLeaf(t, freq, w, TABLE_SIZE);
    } else {
      WeightsCount(t.left, freq, w);
      WeightsCount(t.right, freq, w);
      FreqCountFork(t, freq, w, TABLE_SIZE);
    }
  }

  /** A full tree with the bytes from 1 to 255 at its leaves, once each. */
  ghost predicate OverAllBytes(t: Tree) {
    Full(t) && forall c: Byte :: ByteCount(t, c) == One(c != 0)
  }

  /** The depth of every byte times its frequency, over the whole tree. */
  ghost function WeightedLength(t: Tree, freq: seq<int>): int
    requires |freq| == TABLE_SIZE && Full(t)
  {
    WeightedDepth(WeightsOf(t, freq), 0)
  }

  ghost predicate Optimal(t: Tree, freq: seq<int>)
    requires |freq| == TABLE_SIZE && Full(t)
  {
    forall u: Tree :: OverAllBytes(u) ==> WeightedLength(t, freq) <= WeightedLength(u, freq)
  }

  // ----- trees with nodes that have one child -----

  /** The depth of every byte times its frequency, over any tree, counted from depth `d`. */
  function PathLength(t: Tree, freq: seq<int>, d: nat): int
    requires |freq| == TABLE_SIZE
  {
    if t.Nil? then 0
    else if t.IsLeaf() then freq[t.c] * d
    else PathLength(t.left, freq, d + 1) + PathLength(t.right, freq, d + 1)
  }

  lemma {:induction false} FullLength(t: Tree, freq: seq<int>, d: nat)
    requires |freq| == TABLE_SIZE && Full(t)
    ensures PathLength(t, freq, d) == WeightedDepth(WeightsOf(t, freq), d)
  {
    if !t.IsLeaf() {
      FullLength(t.left, freq, d + 1);
      FullLength(t.right, freq, d + 1);
    }
  }

  /** No byte of a text has a negative frequency. */
  predicate NoneNegative(freq: seq<int>) {
    forall k :: 0 < k < |freq| ==> freq[k] >= 0
  }

  lemma {:induction false} DeeperLonger(t: Tree, freq: seq<int>, d: nat)
    requires |freq| == TABLE_SIZE && NoneNegative(freq) && ByteCount(t, 0) == 0
    ensures PathLength(t, freq, d) <= PathLength(t, freq, d + 1)
  {
    if t.Nil? {
    } else if t.IsLeaf() {
      assert freq[t.c] * (d + 1) == freq[t.c] * d + freq[t.c];
    } else {
      DeeperLonger(t.left, freq, d + 1);
      DeeperLonger(t.right, freq, d + 1);
    }
  }

  /** The tree without its nodes of one child. */
  function Pinched(t: Tree): Tree {
    if t.Nil? || t.IsLeaf() then t
    else if t.left.Nil? then Pinched(t.right)
    else if t.right.Nil? then Pinched(t.left)
    else Node(Pinched(t.left), Pinched(t.right), t.c)
  }

  lemma {:induction false} PinchedFull(t: Tree, c: Byte)
    requires t.Node?
    ensures Full(Pinched(t)) && ByteCount(Pinched(t), c) == ByteCount(t, c)
  {
    if !t.IsLeaf() {
      if t.left.Node? { PinchedFull(t.left, c); }
      if t.right.Node? { PinchedFull(t.right, c); }
    }
  }

  lemma {:induction false} PinchedShorter(t: Tree, freq: seq<int>, d: nat)
    requires |freq| == TABLE_SIZE && t.Node? && NoneNegative(freq) && ByteCount(t, 0) == 0
    ensures PathLength(Pinched(t), freq, d) <= PathLength(t, freq, d)
  {
    if !t.IsLeaf() {
      PinchedFull(t, 0);
      if t.left.Nil? {
        PinchedShorter(t.right, freq, d + 1);
        PinchedFull(t.right, 0);
        DeeperLonger(Pinched(t.right), freq, d);
      } else if t.right.Nil? {
        PinchedShorter(t.left, freq, d + 1);
        PinchedFull(t.left, 0);
        DeeperLonger(Pinched(t.left), freq, d);
      } else {
        PinchedShorter(t.left, freq, d + 1);
        PinchedShorter(t.right, freq, d + 1);
        PinchedFull(t.left, 0);
      }
    }
  }

  /** As good as every binary tree over the same bytes, whatever its shape. */
  ghost predicate BestOfAll(t: Tree, freq: seq<int>)
    requires |freq| == TABLE_SIZE
  {
    forall u: Tree :: (forall c: Byte :: ByteCount(u, c) == One(c != 0)) ==>
      PathLength(t, freq, 0) <= PathLength(u, freq, 0)
  }

  lemma OptimalIsBest(t: Tree, freq: seq<int>)
    requires |freq| == TABLE_SIZE && NoneNegative(freq) && OverAllBytes(t) && Optimal(t, freq)
    ensures BestOfAll(t, freq)
  {
    hide WeightsOf, PathLength;
    forall u: Tree | forall c: Byte :: ByteCount(u, c) == One(c != 0)
      ensures PathLength(t, freq, 0) <= PathLength(u, freq, 0)
    {
      assert ByteCount(u, 1) == 1 && u.Node?;
      var v := Pinched(u);
      forall c: Byte ensures Full(v) && ByteCount(v, c) == One(c != 0) { PinchedFull(u, c); }
      PinchedFull(u, 0);
      assert OverAllBytes(v);
      PinchedShorter(u, freq, 0);
      FullLength(t, freq, 0);
      FullLength(v, freq, 0);
    }
  }

  /** The tree with a node of one child above the leaf of a byte. */
  function Lengthened(t: Tree, c: Byte): Tree {
    if t.Nil? then t
    else if t.IsLeaf() then if t.c == c then Node(t, Nil, 0) else t
    else Node(Lengthened(t.left, c), Lengthened(t.right, c), t.c)
  }

  lemma {:induction false} LengthenedCount(t: Tree, c: Byte, b: Byte)
    ensures ByteCount(Lengthened(t, c), b) == ByteCount(t, b)
    ensures Lengthened(t, c).Nil? <==> t.Nil?
  {
    if t.Node? && !t.IsLeaf() {
      LengthenedCount(t.left, c, b);
      LengthenedCount(t.right, c, b);
    }
  }

  lemma {:induction false} LengthenedLength(t: Tree, c: Byte, freq: seq<int>, d: nat)
    requires |freq| == TABLE_SIZE && ByteCount(t, c) <= 1
    ensures PathLength(Lengthened(t, c), freq, d) ==
            PathLength(t, freq, d) + if ByteCount(t, c) == 1 then freq[c] else 0
  {
    if t.Node? {
      if t.IsLeaf() {
        assert freq[t.c] * (d + 1) == freq[t.c] * d + freq[t.c];
      } else {
        LengthenedCount(t.left, c, c);
        LengthenedCount(t.right, c, c);
        LengthenedLength(t.left, c, freq, d + 1);
        LengthenedLength(t.right, c, freq, d + 1);
      }
    }
  }

  /** The best among full trees is the best of all exactly if no byte has a negative frequency. */
  lemma BestExactly(t: Tree, freq: seq<int>)
    requires |freq| == TABLE_SIZE && OverAllBytes(t) && Optimal(t, freq)
    ensures BestOfAll(t, freq) <==> NoneNegative(freq)
  {
    if NoneNegative(freq) {
      OptimalIsBest(t, freq);
    } else {
      var k :| 0 < k < |freq| && freq[k] < 0;
      var u := Lengthened(t, k);
      forall b: Byte ensures ByteCount(u, b) == One(b != 0) { LengthenedCount(t, k, b); }
      LengthenedLength(t, k, freq, 0);
      assert PathLength(u, freq, 0) < PathLength(t, freq, 0);
    }
  }

  /** The tree of the last entry is as good as any. */
  lemma LastIsOptimal(e: Entry, freq: seq<int>, all: multiset<int>, pool: multiset<int>)
    requires Progress([e], freq, all, pool) && (forall u: Tree :: OverAllBytes(u) ==> Over(WeightsOf(u, freq), all))
    ensures OverAllBytes(e.tree) && Optimal(e.tree, freq)
  {
    hide Sum, BoundedBy, Cost, Over;
    assert EntryOk([e][0], freq);
    forall c: Byte ensures ByteCount(e.tree, c) == One(c != 0) { SumOne(e, BytesIn(c)); }
    forall w ensures pool[w] == multiset{e.freq}[w] { SumOne(e, FreqIs(w)); }
    assert pool == multiset{e.freq};
    SumOne(e, InnerCost(freq));
    forall u: Tree | OverAllBytes(u) ensures WeightedLength(e.tree, freq) <= WeightedLength(u, freq) {
      BoundedEnd(all, e.freq, Cost(WeightsOf(e.tree, freq)), WeightsOf(u, freq));
      CostIsDepth(WeightsOf(u, freq));
      CostIsDepth(WeightsOf(e.tree, freq));
    }
  }

  // ----- the loops -----

  /** The nodes of the items are valid, apart from each other, in the region, and stand for the entries. */
  ghost predicate Represents(items: seq<Item>, s: seq<Entry>, region: set<CNode>)
    reads region
  {
    |items| == |s| &&
    (forall i :: 0 <= i < |s| ==> items[i].node in region && items[i].node.Repr <= region) &&
    (forall i :: 0 <= i < |s| ==>
       items[i].freq == s[i].freq && items[i].node.Valid() && items[i].node.Tree() == s[i].tree) &&
    (forall i, j :: 0 <= i < j < |s| ==> items[i].node.Repr !! items[j].node.Repr)
  }

  function SwappedItems(s: seq<Item>, k: nat): seq<Item>
    requires 0 < k < |s|
  {
    s[k - 1 := s[k]][k := s[k - 1]]
  }

  // ----- which tree it is -----

  /** The entries with one more at its place: it goes before smaller ones, and before equal ones unless `strict`. */
  function Placed(s: seq<Entry>, e: Entry, strict: bool): (r: seq<Entry>)
    ensures |r| == |s| + 1
  {
    if s == [] || s[|s| - 1].freq > e.freq || (strict && s[|s| - 1].freq == e.freq) then s + [e]
    else Placed(s[..|s| - 1], e, strict) + [s[|s| - 1]]
  }

  /** The entries in the order of their frequencies, those of the same frequency as they were. */
  function Arranged(s: seq<Entry>): (r: seq<Entry>)
    ensures |r| == |s|
  {
    if s == [] then [] else Placed(Arranged(s[..|s| - 1]), s[|s| - 1], true)
  }

  /** The tree that is left when the two last entries are merged again and again. */
  function Huffman(s: seq<Entry>): Tree
    requires s != []
    decreases |s|
  {
    var n := |s|;
    if n == 1 then s[0].tree else Huffman(Placed(s[..n - 2], MergedEntry(s[n - 1], s[n - 2]), false))
  }

  /** The entry at `count - 1` of `s` is on its way to its place. */
  ghost predicate Rising(s0: seq<Entry>, s: seq<Entry>, k: nat, count: nat, strict: bool) {
    1 <= count <= k <= |s| == |s0| &&
    Placed(s0[..k - 1], s0[k - 1], strict) == Placed(s[..count - 1], s[count - 1], strict) + s[count..k]
  }

  lemma RisingOn(s0: seq<Entry>, s: seq<Entry>, k: nat, count: nat, strict: bool)
    requires Rising(s0, s, k, count, strict) && count > 1
    requires if strict then s[count - 2].freq < s[count - 1].freq else s[count - 2].freq <= s[count - 1].freq
    ensures Rising(s0, Swapped(s, count - 1), k, count - 1, strict)
  {
    var u := Swapped(s, count - 1);
    assert s[..count - 1][..count - 2] == s[..count - 2] == u[..count - 2];
    assert u[count - 1..k] == [s[count - 2]] + s[count..k];
    assert Placed(u[..count - 2], u[count - 2], strict) + ([s[count - 2]] + s[count..k]) ==
           Placed(u[..count - 2], u[count - 2], strict) + [s[count - 2]] + s[count..k];
  }

  lemma RisingDone(s0: seq<Entry>, s: seq<Entry>, k: nat, count: nat, strict: bool)
    requires Rising(s0, s, k, count, strict)
    requires count > 1 ==>
      if strict then s[count - 2].freq >= s[count - 1].freq else s[count - 2].freq > s[count - 1].freq
    ensures s[..k] == Placed(s0[..k - 1], s0[k - 1], strict)
  {
    if count > 1 { assert s[..count - 1][count - 2] == s[count - 2]; }
    assert s[..count - 1] + [s[count - 1]] + s[count..k] == s[..k];
  }

  lemma RisingStarts(s: seq<Entry>, k: nat, strict: bool)
    requires 1 <= k <= |s|
    ensures Rising(s, s, k, k, strict)
  {
  }

  lemma RepresentsSwapped(items: seq<Item>, s: seq<Entry>, region: set<CNode>, k: nat)
    requires 0 < k < |items| && Represents(items, s, region)
    ensures Represents(SwappedItems(items, k), Swapped(s, k), region)
  {
  }

  /** Let the entry at `k` rise to its place among the sorted entries before it. */
  method Rise(table: array<Item>, k: nat, strict: bool, ghost s0: seq<Entry>, ghost region: set<CNode>,
              ghost freq: seq<int>, ghost all: multiset<int>, ghost pool: multiset<int>) returns (ghost s: seq<Entry>)
    requires table.Length == TABLE_SIZE && 1 <= k <= |s0| < TABLE_SIZE
    requires Represents(table[1..|s0| + 1], s0, region) && Progress(s0, freq, all, pool) && Sorted(s0[..k - 1])
    modifies table
    ensures |s| == |s0| && s[k..] == s0[k..] && Sorted(s[..k])
    ensures s[..k] == Placed(s0[..k - 1], s0[k - 1], strict)
    ensures Represents(table[1..|s| + 1], s, region) && Progress(s, freq, all, pool)
  {
    hide Progress, Represents, SortedBut, Sorted, Placed, Rising;
    s := s0;
    var count := k;
    RiseStarts(s, k);
    RisingStarts(s, k, strict);
    while count > 1 &&
          (if strict then table[count - 1].freq < table[count].freq else table[count - 1].freq <= table[count].freq)
      invariant 1 <= count <= k <= |s| == |s0| && s[k..] == s0[k..] && SortedBut(s[..k], count - 1)
      invariant Rising(s0, s, k, count, strict)
      invariant Represents(table[1..|s| + 1], s, region) && Progress(s, freq, all, pool)
    {
      RepresentsFreq(table, s, region, count);
      RisingOn(s0, s, k, count, strict);
      SortedButSwapped(s[..k], count - 1);
      assert Swapped(s, count - 1)[..k] == Swapped(s[..k], count - 1);
      s := SwapUp(table, count, s, region, freq, all, pool);
      count := count - 1;
    }
    if count > 1 { RepresentsFreq(table, s, region, count); }
    SortedButDone(s[..k], count - 1);
    RisingDone(s0, s, k, count, strict);
  }

  method SwapItems(table: array<Item>, count: nat, ghost n: nat)
    requires 2 <= count <= n < table.Length
    modifies table
    ensures table[1..n + 1] == SwappedItems(old(table[1..n + 1]), count - 1)
  {
    table[count], table[count - 1] := table[count - 1], table[count];
  }

  /** Exchange the entries at `count` and before it. */
  method SwapUp(table: array<Item>, count: nat, ghost s0: seq<Entry>, ghost region: set<CNode>,
                ghost freq: seq<int>, ghost all: multiset<int>, ghost pool: multiset<int>) returns (ghost s: seq<Entry>)
    requires table.Length == TABLE_SIZE && 2 <= count <= |s0| < TABLE_SIZE
    requires Represents(table[1..|s0| + 1], s0, region) && Progress(s0, freq, all, pool)
    modifies table
    ensures s == Swapped(s0, count - 1)
    ensures Represents(table[1..|s| + 1], s, region) && Progress(s, freq, all, pool)
  {
    hide Progress, CNode.Valid, CNode.Tree;
    ghost var items := table[1..|s0| + 1];
    ProgressSwapped(s0, count - 1, freq, all, pool);
    SwapItems(table, count, |s0|);
    RepresentsSwapped(items, s0, region, count - 1);
    s := Swapped(s0, count - 1);
  }

  lemma RepresentsFreq(table: array<Item>, s: seq<Entry>, region: set<CNode>, count: nat)
    requires table.Length == TABLE_SIZE && |s| < TABLE_SIZE && Represents(table[1..|s| + 1], s, region)
    requires 2 <= count <= |s|
    ensures table[count].freq == s[count - 1].freq && table[count - 1].freq == s[count - 2].freq
  {
    var items := table[1..|s| + 1];
    assert items[count - 1] == table[count] && items[count - 2] == table[count - 1];
  }

  lemma RiseStarts(s: seq<Entry>, k: nat)
    requires 1 <= k <= |s| && Sorted(s[..k - 1])
    ensures SortedBut(s[..k], k - 1)
  {
    assert forall i :: 0 <= i < k - 1 ==> s[..k][i] == s[..k - 1][i];
  }

  /** The entries before any merging. */
  function StartEntries(freq: seq<int>, n: nat): seq<Entry>
    requires |freq| == TABLE_SIZE && n < TABLE_SIZE
  {
    if n == 0 then [] else StartEntries(freq, n - 1) + [Entry(freq[n], Leaf(n))]
  }

  lemma {:induction false} StartSums(freq: seq<int>, n: nat, f: Entry -> int, g: Byte -> int)
    requires |freq| == TABLE_SIZE && n < TABLE_SIZE
    requires forall c: Byte :: 1 <= c <= n ==> f(Entry(freq[c], Leaf(c))) == g(c)
    ensures |StartEntries(freq, n)| == n && Sum(StartEntries(freq, n), f) == SumBytes(g, n)
  {
    if n > 0 {
      StartSums(freq, n - 1, f, g);
      SumAppend(StartEntries(freq, n - 1), [Entry(freq[n], Leaf(n))], f);
      SumOne(Entry(freq[n], Leaf(n)), f);
    }
  }

  function ByteIs(c: Byte): Byte -> int { (d: Byte) => One(d == c) }

  function NoByte(): Byte -> int { (d: Byte) => 0 }

  function SumBytes(g: Byte -> int, n: nat): int
    requires n < TABLE_SIZE
  {
    if n == 0 then 0 else SumBytes(g, n - 1) + g(n)
  }

  lemma {:induction false} SumSingle(c: Byte, n: nat)
    requires n < TABLE_SIZE
    ensures SumBytes(ByteIs(c), n) == One(1 <= c <= n)
  {
    if n > 0 {
      assert ByteIs(c)(n) == One(n == c);
      SumSingle(c, n - 1);
    }
  }

  lemma {:induction false} SumZero(g: Byte -> int, n: nat)
    requires n < TABLE_SIZE && forall c: Byte :: g(c) == 0
    ensures SumBytes(g, n) == 0
  {
    if n > 0 { SumZero(g, n - 1); }
  }

  lemma {:induction false} StartOk(freq: seq<int>, n: nat)
    requires |freq| == TABLE_SIZE && n < TABLE_SIZE
    ensures |StartEntries(freq, n)| == n && EntriesOk(StartEntries(freq, n), freq)
  {
    if n > 0 { StartOk(freq, n - 1); }
  }

  /** The frequencies of the bytes from 1 to `n`. */
  function FreqPool(freq: seq<int>, n: nat): multiset<int>
    requires |freq| == TABLE_SIZE && n < TABLE_SIZE
  {
    if n == 0 then multiset{} else FreqPool(freq, n - 1) + multiset{freq[n]}
  }

  lemma {:induction false} FreqPoolCount(freq: seq<int>, n: nat, w: int)
    requires |freq| == TABLE_SIZE && n < TABLE_SIZE
    ensures Sum(StartEntries(freq, n), FreqIs(w)) == FreqPool(freq, n)[w]
  {
    if n > 0 {
      FreqPoolCount(freq, n - 1, w);
      SumAppend(StartEntries(freq, n - 1), [Entry(freq[n], Leaf(n))], FreqIs(w));
      SumOne(Entry(freq[n], Leaf(n)), FreqIs(w));
    }
  }

  lemma {:induction false} FreqPoolTree(u: Tree, freq: seq<int>, n: nat, w: int)
    requires |freq| == TABLE_SIZE && n < TABLE_SIZE && OverAllBytes(u)
    ensures FreqCount(u, freq, w, n + 1) == FreqPool(freq, n)[w]
  {
    if n > 0 { FreqPoolTree(u, freq, n - 1, w); }
  }

  lemma {:induction false} ProgressStarts(freq: seq<int>)
    requires |freq| == TABLE_SIZE
    ensures var all := FreqPool(freq, 255);
            Progress(StartEntries(freq, 255), freq, all, all) &&
            forall u: Tree :: OverAllBytes(u) ==> Over(WeightsOf(u, freq), all)
  {
    hide Sum, FreqPool, BoundedBy, SumBytes;
    var all, s := FreqPool(freq, 255), StartEntries(freq, 255);
    StartOk(freq, 255);
    forall c: Byte ensures Sum(s, BytesIn(c)) == One(c != 0) {
      StartSums(freq, 255, BytesIn(c), ByteIs(c));
      SumSingle(c, 255);
    }
    forall w ensures Sum(s, FreqIs(w)) == all[w] { FreqPoolCount(freq, 255, w); }
    StartSums(freq, 255, InnerCost(freq), NoByte());
    SumZero(NoByte(), 255);
    BoundedStart(all);
    forall u: Tree | OverAllBytes(u) ensures Over(WeightsOf(u, freq), all) {
      forall w ensures Count(WeightsOf(u, freq), w) == all[w] {
        WeightsCount(u, freq, w);
        FreqPoolTree(u, freq, 255, w);
      }
    }
  }

  /** Sort, merge until one tree over the bytes 1 to 255 is left, and return it. */
  method BuildTree(freq: seq<int>) returns (root: CNode)
    requires |freq| == TABLE_SIZE
    ensures root.Valid() && fresh(root.Repr)
    ensures OverAllBytes(root.Tree()) && Optimal(root.Tree(), freq)
    ensures BestOfAll(root.Tree(), freq) <==> NoneNegative(freq)
    ensures root.Tree() == Huffman(Arranged(StartEntries(freq, 255)))
  {
    hide Progress, Represents, OverAllBytes, Optimal, FreqPool, StartEntries, Sorted, Merged, Full, Placed, Arranged,
         Huffman;
    ghost var start := StartEntries(freq, 255);
    ghost var all := FreqPool(freq, 255);
    var table, region := StartTable(freq);
    ghost var s := StartEntries(freq, 255);
    ghost var pool := all;
    ProgressStarts(freq);
    StartLength(freq);
    OneSorted(s);
    ArrangedOne(s);

    // sort the table; the entry of the terminating byte stays at 0
    var indx := 2;
    while indx < TABLE_SIZE
      invariant 2 <= indx <= TABLE_SIZE && |s| == |start| == 255 && Sorted(s[..indx - 1])
      invariant s[..indx - 1] == Arranged(start[..indx - 1]) && s[indx - 1..] == start[indx - 1..]
      invariant fresh(table) && fresh(region) && table.Length == TABLE_SIZE
      invariant Represents(table[1..|s| + 1], s, region) && Progress(s, freq, all, pool)
    {
      ArrangedMore(start, s, indx);
      s := Rise(table, indx, true, s, region, freq, all, pool);
      indx := indx + 1;
    }
    assert s[..255] == s && start[..255] == start;

    // merge the two rarest until one is left
    indx := TABLE_SIZE - 1;
    while indx > 1
      invariant 1 <= indx < TABLE_SIZE && |s| == indx && Sorted(s) && Huffman(s) == Huffman(Arranged(start))
      invariant fresh(table) && fresh(region) && table.Length == TABLE_SIZE
      invariant Represents(table[1..|s| + 1], s, region) && Progress(s, freq, all, pool)
    {
      HuffmanStep(s);
      s, region, pool := MergeLast(table, indx, s, region, freq, all, pool);
      s := Rise(table, indx - 1, false, s, region, freq, all, pool);
      assert s[..indx - 1] == s;
      indx := indx - 1;
    }
    root := table[1].node;
    RepresentsLast(table, s, region);
    assert s == [s[0]];
    HuffmanLast(s[0]);
    LastIsOptimal(s[0], freq, all, pool);
    BestExactly(root.Tree(), freq);
  }

  lemma HuffmanStep(s: seq<Entry>)
    requires |s| > 1
    ensures var n := |s|; Huffman(s) == Huffman(Placed(s[..n - 2], MergedEntry(s[n - 1], s[n - 2]), false))
  {
  }

  lemma HuffmanLast(e: Entry)
    ensures Huffman([e]) == e.tree
  {
  }

  lemma ArrangedOne(s: seq<Entry>)
    requires s != []
    ensures s[..1] == Arranged(s[..1])
  {
    assert s[..1][..0] == [];
  }

  lemma ArrangedMore(start: seq<Entry>, s: seq<Entry>, indx: nat)
    requires 2 <= indx <= |s| == |start| && s[indx - 1..] == start[indx - 1..]
    requires s[..indx - 1] == Arranged(start[..indx - 1])
    ensures Arranged(start[..indx]) == Placed(s[..indx - 1], s[indx - 1], true)
    ensures s[indx..] == start[indx..]
  {
    var a := start[..indx];
    assert a[..indx - 1] == start[..indx - 1] && a[indx - 1] == start[indx - 1] == s[indx - 1..][0];
    assert s[indx..] == s[indx - 1..][1..];
  }

  lemma StartLength(freq: seq<int>)
    requires |freq| == TABLE_SIZE
    ensures |StartEntries(freq, 255)| == 255
  {
    StartOk(freq, 255);
  }

  lemma OneSorted(s: seq<Entry>)
    requires |s| >= 1
    ensures Sorted(s[..1])
  {
  }

  lemma RepresentsLast(table: array<Item>, s: seq<Entry>, region: set<CNode>)
    requires table.Length == TABLE_SIZE && |s| == 1 && Represents(table[1..2], s, region)
    ensures table[1].node.Valid() && table[1].node.Repr <= region && table[1].node.Tree() == s[0].tree
  {
    assert table[1..2][0] == table[1];
  }

  /** One node for every byte. */
  method StartTable(freq: seq<int>) returns (table: array<Item>, ghost region: set<CNode>)
    requires |freq| == TABLE_SIZE
    ensures fresh(table) && fresh(region) && table.Length == TABLE_SIZE
    ensures Represents(table[1..256], StartEntries(freq, 255), region)
  {
    hide StartEntries, Represents;
    var first := new CNode(null, null, 0);
    table := new Item[TABLE_SIZE](_ => Item(freq[0], first));
    region := {};
    var total := 1;
    RepresentsNone(freq);
    assert table[1..1] == [];
    while total < TABLE_SIZE
      invariant 1 <= total <= TABLE_SIZE && table.Length == TABLE_SIZE && fresh(table) && fresh(region)
      invariant Represents(table[1..total], StartEntries(freq, total - 1), region)
    {
      region := StartNode(table, freq, total, region);
      total := total + 1;
    }
  }

  method StartNode(table: array<Item>, freq: seq<int>, total: nat, ghost region: set<CNode>)
    returns (ghost region': set<CNode>)
    requires |freq| == TABLE_SIZE && 1 <= total < TABLE_SIZE == table.Length
    requires Represents(table[1..total], StartEntries(freq, total - 1), region)
    modifies table
    ensures fresh(region' - region)
    ensures Represents(table[1..total + 1], StartEntries(freq, total), region')
  {
    hide StartEntries, CNode.Valid, CNode.Tree;
    var node := new CNode(null, null, total);
    ghost var items := table[1..total];
    assert node !in region;
    RepresentsMore(items, freq, region, total, node);
    table[total] := Item(freq[total], node);
    region' := region + {node};
    assert table[1..total + 1] == items + [Item(freq[total], node)];
  }

  lemma RepresentsNone(freq: seq<int>)
    requires |freq| == TABLE_SIZE
    ensures Represents([], StartEntries(freq, 0), {})
  {
  }

  lemma RepresentsMore(items: seq<Item>, freq: seq<int>, region: set<CNode>, n: nat, node: CNode)
    requires |freq| == TABLE_SIZE && 1 <= n < TABLE_SIZE && Represents(items, StartEntries(freq, n - 1), region)
    requires node.Valid() && node.Tree() == Leaf(n) && node.Repr == {node} && node !in region
    ensures Represents(items + [Item(freq[n], node)], StartEntries(freq, n), region + {node})
  {
    hide CNode.Valid, CNode.Tree;
  }

  /** Put the two last trees under a new node. */
  method MergeLast(table: array<Item>, indx: nat, ghost s0: seq<Entry>, ghost region: set<CNode>,
                   ghost freq: seq<int>, ghost all: multiset<int>, ghost pool: multiset<int>)
      returns (ghost s: seq<Entry>, ghost region': set<CNode>, ghost pool': multiset<int>)
    requires table.Length == TABLE_SIZE && 1 < indx == |s0| < TABLE_SIZE && Sorted(s0)
    requires Represents(table[1..indx + 1], s0, region) && Progress(s0, freq, all, pool)
    modifies table
    ensures |s| == indx - 1 && Sorted(s[..indx - 2]) && fresh(region' - region)
    ensures s == s0[..indx - 2] + [MergedEntry(s0[indx - 1], s0[indx - 2])]
    ensures Represents(table[1..indx], s, region') && Progress(s, freq, all, pool')
  {
    hide Progress, Merged, Represents, Sorted;
    ghost var a, b, rest := s0[indx - 1], s0[indx - 2], s0[..indx - 2];
    assert s0 == rest + [b, a];
    SortedPrefix(s0, indx - 2);
    ProgressMerged(rest, a, b, freq, all, pool);
    pool' := Merged(pool, a.freq, b.freq);
    region' := JoinLast(table, indx, s0, region);
    s := rest + [MergedEntry(a, b)];
    assert s[..indx - 2] == rest;
  }

  lemma SortedPrefix(s: seq<Entry>, n: nat)
    requires Sorted(s) && n <= |s|
    ensures Sorted(s[..n])
  {
  }

  method SetLast(table: array<Item>, indx: nat, item: Item)
    requires 1 < indx < table.Length
    modifies table
    ensures table[1..indx] == old(table[1..indx + 1])[..indx - 2] + [item]
  {
    table[indx - 1] := item;
  }

  /** The new node and its place in the table. */
  method JoinLast(table: array<Item>, indx: nat, ghost s: seq<Entry>, ghost region: set<CNode>)
    returns (ghost region': set<CNode>)
    requires table.Length == TABLE_SIZE && 1 < indx == |s| < TABLE_SIZE && Represents(table[1..indx + 1], s, region)
    modifies table
    ensures fresh(region' - region)
    ensures Represents(table[1..indx], s[..indx - 2] + [MergedEntry(s[indx - 1], s[indx - 2])], region')
  {
    hide CNode.Valid, CNode.Tree, Represents;
    ghost var items := table[1..indx + 1];
    assert items[indx - 1] == table[indx] && items[indx - 2] == table[indx - 1];
    RepresentsTwo(items, s, region, indx - 1);
    var node := new CNode(table[indx].node, table[indx - 1].node, 0);
    SetLast(table, indx, Item(table[indx - 1].freq + table[indx].freq, node));
    RepresentsMerged(items, s, region, node);
    region' := region + {node};
  }

  lemma RepresentsTwo(items: seq<Item>, s: seq<Entry>, region: set<CNode>, k: nat)
    requires 0 < k < |items| && Represents(items, s, region)
    ensures items[k].node.Valid() && items[k - 1].node.Valid() && items[k].node.Repr !! items[k - 1].node.Repr
    ensures items[k].freq == s[k].freq && items[k - 1].freq == s[k - 1].freq
    ensures items[k].node.Tree() == s[k].tree && items[k - 1].node.Tree() == s[k - 1].tree
    ensures items[k].node.Repr <= region && items[k - 1].node.Repr <= region
  {
  }

  lemma RepresentsMerged(items: seq<Item>, s: seq<Entry>, region: set<CNode>, node: CNode)
    requires |items| >= 2 && Represents(items, s, region) && node !in region && node.Valid()
    requires node.Repr == {node} + items[|s| - 1].node.Repr + items[|s| - 2].node.Repr
    requires node.Tree() == Node(s[|s| - 1].tree, s[|s| - 2].tree, 0)
    ensures var n := |s| - 2;
            Represents(items[..n] + [Item(items[n].freq + items[n + 1].freq, node)],
                       s[..n] + [MergedEntry(s[n + 1], s[n])], region + {node})
  {
  }
}

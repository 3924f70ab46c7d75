/**
 Attribute names. A backtick separates the branches of a name, so that names form a tree; the order
 of an attribute list compares branch by branch with the collation of the locale.
 */
module AttrNames {

  const TICK := '`'

  /** `name` lies somewhere under the branch `root`. */
  predicate IsUnder(name: string, root: string) {
    |root| < |name| && name[..|root|] == root && name[|root|] == TICK
  }

  lemma UnderTransitive(c: string, b: string, a: string)
    requires IsUnder(c, b) && IsUnder(b, a)
    ensures IsUnder(c, a)
  {
    assert c[..|a|] == c[..|b|][..|a|];
    assert c[|a|] == c[..|b|][|a|];
  }

  /** Two branches over one name: one of them is over the other. */
  lemma UnderComparable(c: string, a: string, b: string)
    requires IsUnder(c, a) && IsUnder(c, b) && |a| < |b|
    ensures IsUnder(b, a)
  {
    assert b == c[..|b|];
    assert b[..|a|] == c[..|a|] && b[|a|] == c[|a|];
  }

  function FirstTick(n: string): (t: nat)
    ensures t <= |n| && (t < |n| ==> n[t] == TICK) && forall i :: 0 <= i < t ==> n[i] != TICK
  {
    if n == "" || n[0] == TICK then 0 else 1 + FirstTick(n[1..])
  }

  /** The branches of a name, from the root. */
  function Split(n: string): (p: seq<string>)
    ensures p != []
  {
    var t := FirstTick(n);
    if t == |n| then [n[..t]] else [n[..t]] + Split(n[t + 1..])
  }

  function Join(p: seq<string>): string
    requires p != []
  {
    if |p| == 1 then p[0] else p[0] + [TICK] + Join(p[1..])
  }

  lemma {:induction false} TickAt(n: string, t: nat)
    requires t < |n| && n[t] == TICK && forall i :: 0 <= i < t ==> n[i] != TICK
    ensures FirstTick(n) == t
  {
  }

  /** What the source reads off the characters is a relation between the branches. */
  lemma {:induction false} UnderIsPrefix(n: string, r: string)
    ensures IsUnder(n, r) <==> Split(r) < Split(n)
    decreases |r|
  {
    hide IsUnder, Split;
    if FirstTick(r) < |r| {
      SplitHead(n, r);
      if SameHead(n, r) {
        UnderIsPrefix(Rest(n), Rest(r));
        UnderTail(n, r);
        SplitParts(n);
        SplitParts(r);
        PrefixTail(Split(r), Split(n));
      }
    } else {
      UnderPlain(n, r);
    }
  }

  function Rest(n: string): string
    requires FirstTick(n) < |n|
  {
    n[FirstTick(n) + 1..]
  }

  predicate SameHead(n: string, r: string) {
    FirstTick(n) == FirstTick(r) < |n| && n[..FirstTick(n)] == r[..FirstTick(r)]
  }

  lemma SplitParts(n: string)
    ensures Split(n)[0] == n[..FirstTick(n)]
    ensures FirstTick(n) < |n| ==> Split(n)[1..] == Split(Rest(n))
    ensures FirstTick(n) == |n| <==> |Split(n)| == 1
  {
  }

  lemma {:induction false} JoinSplit(n: string)
    ensures Join(Split(n)) == n
    decreases |n|
  {
    hide Split, FirstTick;
    SplitParts(n);
    var t := FirstTick(n);
    TickThere(n);
    if t < |n| {
      JoinSplit(Rest(n));
      assert n[..t] + [TICK] + Rest(n) == n;
    } else {
      assert n[..t] == n;
    }
  }

  lemma TickThere(n: string)
    ensures FirstTick(n) <= |n| && (FirstTick(n) < |n| ==> n[FirstTick(n)] == TICK)
  {
  }

  lemma {:induction false} UnderPlain(n: string, r: string)
    requires FirstTick(r) == |r|
    ensures IsUnder(n, r) <==> Split(r) < Split(n)
  {
    hide Split;
    SplitParts(n);
    SplitParts(r);
    assert r[..|r|] == r && Split(r) == [r];
    if IsUnder(n, r) {
      forall i | 0 <= i < |r| ensures n[i] != TICK {
        assert n[..|r|][i] == r[i];
      }
      TickAt(n, |r|);
    }
  }

  lemma {:induction false} SplitHead(n: string, r: string)
    requires FirstTick(r) < |r|
    ensures IsUnder(n, r) || Split(r) < Split(n) ==> SameHead(n, r)
  {
    hide Split;
    SplitParts(n);
    SplitParts(r);
    var t := FirstTick(r);
    if IsUnder(n, r) {
      forall i | 0 <= i <= t ensures n[i] == r[i] {
        assert n[..|r|][i] == r[i];
      }
      TickAt(n, t);
      assert n[..t] == r[..t];
    } else if Split(r) < Split(n) {
      assert |Split(r)| > 1 && |Split(n)| > 1;
    }
  }

  lemma TailPrefix(n: string, r: string, k: nat)
    requires k <= |r| <= |n| && forall i :: 0 <= i < k ==> n[i] == r[i]
    ensures n[..|r|] == r <==> n[k..][..|r| - k] == r[k..]
  {
    if n[..|r|] == r {
      forall i | 0 <= i < |r| - k ensures n[k..][i] == r[k..][i] {
        assert n[..|r|][k + i] == r[k + i];
      }
    }
    if n[k..][..|r| - k] == r[k..] {
      forall i | 0 <= i < |r| ensures n[i] == r[i] {
        if i >= k { assert n[k..][..|r| - k][i - k] == r[k..][i - k]; }
      }
    }
  }

  lemma {:induction false} UnderTail(n: string, r: string)
    requires FirstTick(r) < |r| && SameHead(n, r)
    ensures IsUnder(n, r) <==> IsUnder(Rest(n), Rest(r))
  {
    hide FirstTick;
    var k := FirstTick(r) + 1;
    forall i | 0 <= i < k ensures n[i] == r[i] {
      if i < k - 1 { assert n[..k - 1][i] == r[..k - 1][i]; }
    }
    if |r| < |n| {
      TailPrefix(n, r, k);
    }
  }

  lemma PrefixTail<T>(p: seq<T>, q: seq<T>)
    requires p != [] && q != [] && p[0] == q[0]
    ensures p < q <==> p[1..] < q[1..]
  {
    assert p == [p[0]] + p[1..] && q == [q[0]] + q[1..];
  }

  /** No branch of a name is empty. */
  predicate TicksApart(n: string) {
    n != "" && n[0] != TICK && n[|n| - 1] != TICK &&
    forall i :: 0 <= i < |n| - 1 ==> !(n[i] == TICK && n[i + 1] == TICK)
  }

  lemma {:induction false} NoEmptyBranch(n: string)
    ensures TicksApart(n) <==> "" !in Split(n)
    decreases |n|
  {
    hide Split;
    SplitParts(n);
    var t := FirstTick(n);
    if t == |n| {
      assert Split(n) == [n[..t]];
    } else {
      assert Split(n) == [n[..t]] + Split(Rest(n));
      var m := Rest(n);
      NoEmptyBranch(m);
      assert forall i :: 0 <= i < |m| ==> m[i] == n[t + 1 + i];
      if t > 0 && TicksApart(m) {
        forall i | 0 <= i < |n| - 1 ensures !(n[i] == TICK && n[i + 1] == TICK) {
          if i == t { assert m[0] == n[t + 1]; }
          if i > t { assert m[i - t - 1] == n[i] && m[i - t] == n[i + 1]; }
        }
        assert m[|m| - 1] == n[|n| - 1];
      }
      if TicksApart(n) {
        assert n[t] == TICK && t < |n| - 1;
        assert m[|m| - 1] == n[|n| - 1];
        forall i | 0 <= i < |m| - 1 ensures !(m[i] == TICK && m[i + 1] == TICK) {
          assert m[i] == n[t + 1 + i] && m[i + 1] == n[t + 2 + i];
        }
      }
    }
  }

  // ----- the order -----

  /** Collation of single branches, negative, zero or positive: a total order that tells all strings apart. */
  type Collation = (string, string) -> int

  ghost predicate IsCollation(coll: Collation) {
    (forall a, b :: coll(a, b) == 0 <==> a == b) &&
    (forall a, b :: coll(a, b) < 0 ==> coll(b, a) > 0) &&
    (forall a, b :: coll(a, b) > 0 ==> coll(b, a) < 0) &&
    (forall a, b, c :: coll(a, b) < 0 && coll(b, c) < 0 ==> coll(a, c) < 0)
  }

  /** Byte order is such a collation. */
  function ByteOrder(a: string, b: string): int {
    if a == [] && b == [] then 0
    else if a == [] then -1
    else if b == [] then 1
    else if a[0] != b[0] then a[0] as int - b[0] as int
    else ByteOrder(a[1..], b[1..])
  }

  lemma {:induction false} ByteOrderFacts(a: string, b: string)
    ensures ByteOrder(a, b) == 0 <==> a == b
    ensures ByteOrder(b, a) == -ByteOrder(a, b)
  {
    if a != [] && b != [] && a[0] == b[0] {
      ByteOrderFacts(a[1..], b[1..]);
      assert a == [a[0]] + a[1..] && b == [b[0]] + b[1..];
    }
  }

  lemma {:induction false} ByteOrderTransitive(a: string, b: string, c: string)
    requires ByteOrder(a, b) < 0 && ByteOrder(b, c) < 0
    ensures ByteOrder(a, c) < 0
  {
    if a != [] && a[0] == b[0] && b[0] == c[0] { ByteOrderTransitive(a[1..], b[1..], c[1..]); }
  }

  lemma ByteOrderIsCollation()
    ensures IsCollation(ByteOrder)
  {
    hide ByteOrder;
    forall a, b ensures (ByteOrder(a, b) == 0 <==> a == b) && ByteOrder(b, a) == -ByteOrder(a, b) {
      ByteOrderFacts(a, b);
    }
    forall a, b, c | ByteOrder(a, b) < 0 && ByteOrder(b, c) < 0 ensures ByteOrder(a, c) < 0 {
      ByteOrderTransitive(a, b, c);
    }
  }

  function Sign(i: int): int { if i < 0 then -1 else if i > 0 then 1 else 0 }

  /** Branch by branch; among names that agree so far the one that ends goes first. */
  function Compared(coll: Collation, p: seq<string>, q: seq<string>): int
    requires p != [] && q != []
  {
    if coll(p[0], q[0]) != 0 then Sign(coll(p[0], q[0]))
    else if |p| == 1 && |q| == 1 then 0
    else if |p| == 1 then -1
    else if |q| == 1 then 1
    else Compared(coll, p[1..], q[1..])
  }

  /** `a` stands before `b` in every attribute list. */
  predicate Before(coll: Collation, a: string, b: string) {
    Compared(coll, Split(a), Split(b)) < 0
  }

  method CompareAttrNames(coll: Collation, attr1: string, attr2: string) returns (r: int)
    ensures r == Compared(coll, Split(attr1), Split(attr2))
  {
    hide FirstTick, Split;
    var a1, a2 := attr1, attr2;
    var branches1, branches2 := 1, 1;
    while true
      invariant branches1 == branches2
      invariant Compared(coll, Split(attr1), Split(attr2)) == Compared(coll, Split(a1), Split(a2))
      decreases |a1|
    {
      SplitParts(a1);
      SplitParts(a2);
      var n1, n2 := FirstTick(a1), FirstTick(a2);
      var more1, more2 := n1 < |a1|, n2 < |a2|;
      if more1 { branches1 := branches1 + 1; }
      if more2 { branches2 := branches2 + 1; }
      var cmp := coll(a1[..n1], a2[..n2]);
      if cmp != 0 { return if cmp < 0 then -1 else 1; }
      if branches1 != branches2 { return if branches1 < branches2 then -1 else 1; }
      if !more1 { return 0; }
      a1, a2 := a1[n1 + 1..], a2[n2 + 1..];
    }
  }

  lemma {:induction false} ComparedFacts(coll: Collation, p: seq<string>, q: seq<string>)
    requires IsCollation(coll) && p != [] && q != []
    ensures Compared(coll, p, q) == 0 <==> p == q
    ensures Compared(coll, q, p) == -Compared(coll, p, q)
    ensures p < q ==> Compared(coll, p, q) < 0
    decreases |p|
  {
    if coll(p[0], q[0]) == 0 && |p| > 1 && |q| > 1 {
      ComparedFacts(coll, p[1..], q[1..]);
      assert p == [p[0]] + p[1..] && q == [q[0]] + q[1..];
      PrefixTail(p, q);
    }
  }

  lemma {:induction false} ComparedTransitive(coll: Collation, p: seq<string>, q: seq<string>, r: seq<string>)
    requires IsCollation(coll) && p != [] && q != [] && r != []
    requires Compared(coll, p, q) < 0 && Compared(coll, q, r) < 0
    ensures Compared(coll, p, r) < 0
    ensures p < r ==> p < q
    decreases |p|
  {
    if coll(p[0], q[0]) == 0 && coll(q[0], r[0]) == 0 {
      if |p| > 1 && |q| > 1 && |r| > 1 {
        ComparedTransitive(coll, p[1..], q[1..], r[1..]);
        PrefixTail(p, r);
        PrefixTail(p, q);
      }
    }
  }

  /** Two different names are ordered, in one way. */
  lemma {:induction false} BeforeTotal(coll: Collation, a: string, b: string)
    requires IsCollation(coll)
    ensures a == b || Before(coll, a, b) || Before(coll, b, a)
    ensures !(Before(coll, a, b) && Before(coll, b, a)) && !Before(coll, a, a)
  {
    ComparedFacts(coll, Split(a), Split(b));
    ComparedFacts(coll, Split(a), Split(a));
    JoinSplit(a);
    JoinSplit(b);
  }

  lemma BeforeTransitive(coll: Collation, a: string, b: string, c: string)
    requires IsCollation(coll) && Before(coll, a, b) && Before(coll, b, c)
    ensures Before(coll, a, c)
  {
    ComparedTransitive(coll, Split(a), Split(b), Split(c));
  }

  /** A branch stands before what is under it. */
  lemma {:induction false} BranchFirst(coll: Collation, n: string, r: string)
    requires IsCollation(coll) && IsUnder(n, r)
    ensures Before(coll, r, n)
  {
    UnderIsPrefix(n, r);
    ComparedFacts(coll, Split(r), Split(n));
  }

  /** What is under a branch stands together: nothing else comes between. */
  lemma {:induction false} BranchTogether(coll: Collation, r: string, m: string, n: string)
    requires IsCollation(coll) && Before(coll, r, m) && Before(coll, m, n) && IsUnder(n, r)
    ensures IsUnder(m, r)
  {
    UnderIsPrefix(n, r);
    UnderIsPrefix(m, r);
    ComparedTransitive(coll, Split(r), Split(m), Split(n));
  }

  lemma {:induction false} ComparedSame(coll: Collation, a: string, b: string)
    requires IsCollation(coll)
    ensures Compared(coll, Split(a), Split(b)) == 0 <==> a == b
    ensures Compared(coll, Split(a), Split(b)) > 0 <==> Before(coll, b, a)
  {
    ComparedFacts(coll, Split(a), Split(b));
    JoinSplit(a);
    JoinSplit(b);
  }

  /** One name goes before another exactly if it is a branch over it, or if the first branches in which they differ are
      in the order of the collation. */
  lemma {:induction false} ComparedExactly(coll: Collation, p: seq<string>, q: seq<string>)
    requires IsCollation(coll) && p != [] && q != []
    ensures Compared(coll, p, q) < 0 <==> p < q || BranchBefore(coll, p, q)
    decreases |p|
  {
    hide BranchBefore;
    FirstBranch(coll, p, q);
    if p[0] == q[0] {
      PrefixTail(p, q);
      if |p| > 1 && |q| > 1 { ComparedExactly(coll, p[1..], q[1..]); } else { NoBranch(coll, p[1..], q[1..]); }
    }
  }

  lemma NoBranch(coll: Collation, p: seq<string>, q: seq<string>)
    ensures p == [] || q == [] ==> !BranchBefore(coll, p, q)
  {
  }

  /** The first branches in which the two differ are in the order of the collation. */
  ghost predicate BranchBefore(coll: Collation, p: seq<string>, q: seq<string>) {
    exists k :: 0 <= k < |p| && k < |q| && p[..k] == q[..k] && coll(p[k], q[k]) < 0
  }

  lemma FirstBranch(coll: Collation, p: seq<string>, q: seq<string>)
    requires IsCollation(coll) && p != [] && q != []
    ensures BranchBefore(coll, p, q) <==>
            coll(p[0], q[0]) < 0 || (p[0] == q[0] && BranchBefore(coll, p[1..], q[1..]))
  {
    if k :| 0 <= k < |p| && k < |q| && p[..k] == q[..k] && coll(p[k], q[k]) < 0 {
      SameFront(p, q, k);
      if k > 0 { assert coll(p[1..][k - 1], q[1..][k - 1]) < 0; }
    }
    if coll(p[0], q[0]) < 0 { assert p[..0] == q[..0]; }
    if p[0] == q[0] && BranchBefore(coll, p[1..], q[1..]) {
      var k :| 0 <= k < |p[1..]| && k < |q[1..]| && p[1..][..k] == q[1..][..k] && coll(p[1..][k], q[1..][k]) < 0;
      SameFront(p, q, k + 1);
      assert coll(p[k + 1], q[k + 1]) < 0;
    }
  }

  lemma SameFront(p: seq<string>, q: seq<string>, k: nat)
    requires p != [] && q != [] && k <= |p| && k <= |q|
    ensures k > 0 ==> (p[..k] == q[..k] <==> p[0] == q[0] && p[1..][..k - 1] == q[1..][..k - 1])
  {
    if k > 0 {
      assert p[..k] == [p[0]] + p[1..][..k - 1] && q[..k] == [q[0]] + q[1..][..k - 1];
      assert p[..k][1..] == p[1..][..k - 1] && q[..k][1..] == q[1..][..k - 1];
    }
  }

  /** A branch behind a name is its last branch. */
  lemma {:induction false} SplitBranch(r: string, b: string)
    requires TICK !in b
    ensures Split(r + [TICK] + b) == Split(r) + [b]
    decreases |r|
  {
    hide Split;
    var n := r + [TICK] + b;
    var t := FirstTick(r);
    SplitParts(n);
    SplitParts(r);
    TickAt(n, t);
    assert n[..t] == r[..t];
    if t < |r| {
      SplitBranch(Rest(r), b);
      assert Rest(n) == Rest(r) + [TICK] + b;
      assert Split(n) == [n[..t]] + Split(Rest(n)) && Split(r) == [r[..t]] + Split(Rest(r));
    } else {
      assert Rest(n) == b;
      SplitPlain(b);
      SplitPlain(r);
      assert Split(n) == [r] + [b];
    }
  }

  lemma SplitPlain(b: string)
    requires FirstTick(b) == |b| || TICK !in b
    ensures Split(b) == [b]
  {
    assert b[..|b|] == b;
  }

  /** Names without branches, and branches of one name, stand in the order of the collation. */
  lemma SiblingsCollated(coll: Collation, r: string, a: string, b: string)
    requires IsCollation(coll) && TICK !in a && TICK !in b
    ensures Before(coll, a, b) <==> coll(a, b) < 0
    ensures Before(coll, r + [TICK] + a, r + [TICK] + b) <==> coll(a, b) < 0
  {
    hide Compared;
    SplitPlain(a);
    SplitPlain(b);
    SplitBranch(r, a);
    SplitBranch(r, b);
    LastDecides(coll, [], a, b);
    LastDecides(coll, Split(r), a, b);
    assert [] + [a] == [a] && [] + [b] == [b];
  }

  lemma SameBranch(coll: Collation, p: seq<string>, a: string, b: string)
    requires IsCollation(coll)
    ensures var x, y := p + [a], p + [b]; BranchBefore(coll, x, y) <==> coll(a, b) < 0
  {
    var x, y := p + [a], p + [b];
    assert x[..|p|] == y[..|p|] && x[|p|] == a && y[|p|] == b;
    assert forall k :: 0 <= k < |p| ==> coll(x[k], y[k]) == 0;
  }

  lemma LastDecides(coll: Collation, p: seq<string>, a: string, b: string)
    requires IsCollation(coll)
    ensures Compared(coll, p + [a], p + [b]) < 0 <==> coll(a, b) < 0
  {
    hide Compared, IsCollation, BranchBefore;
    ComparedExactly(coll, p + [a], p + [b]);
    SameBranch(coll, p, a, b);
  }
}

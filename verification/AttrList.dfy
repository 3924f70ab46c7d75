/**
 Attribute lists as values: sorted by name, closed under branches, and what a player may write in them.
 */
module AttrList {
  import opened Basics
  import opened AttrNames

  datatype Flag = Internal | Safe | Wizard | Locked | NoDump | Root | Command | Listen | Other(bit: nat)

  datatype Attr = Attr(name: string, flags: set<Flag>, creator: int, value: string)

  /** What the permission checks ask about a player. */
  datatype Player = Player(id: int, owner: int, god: bool, wizard: bool)

  predicate Cannot(p: Player, a: Attr, safe: bool) {
    !p.god &&
    (Internal in a.flags || (safe && Safe in a.flags) ||
     !(p.wizard || (Wizard !in a.flags && (Locked !in a.flags || a.creator == p.owner))))
  }

  /** The attribute with that name. */
  function Lookup(l: seq<Attr>, n: string): (r: Option<Attr>)
    ensures r.Some? ==> r.value.name == n && r.value in l
  {
    if l == [] then None else if l[0].name == n then Some(l[0]) else Lookup(l[1..], n)
  }

  lemma {:induction false} LookupNone(l: seq<Attr>, n: string)
    ensures Lookup(l, n).None? <==> forall i :: 0 <= i < |l| ==> l[i].name != n
  {
    if l != [] {
      LookupNone(l[1..], n);
      assert forall i :: 0 <= i < |l[1..]| ==> l[1..][i] == l[i + 1];
      if l[0].name != n && Lookup(l, n).None? {
        forall i | 0 <= i < |l| ensures l[i].name != n {
          if i > 0 { assert l[1..][i - 1].name != n; }
        }
      }
    }
  }

  ghost predicate Sorted(coll: Collation, l: seq<Attr>) {
    forall i, j :: 0 <= i < j < |l| ==> Before(coll, l[i].name, l[j].name)
  }

  lemma SortedDistinct(coll: Collation, l: seq<Attr>, i: nat, j: nat)
    requires IsCollation(coll) && Sorted(coll, l) && i < |l| && j < |l|
    ensures l[i].name == l[j].name ==> i == j
  {
    hide Before;
    BeforeTotal(coll, l[i].name, l[j].name);
  }

  lemma {:induction false} LookupAt(coll: Collation, l: seq<Attr>, i: nat)
    requires IsCollation(coll) && Sorted(coll, l) && i < |l|
    ensures Lookup(l, l[i].name) == Some(l[i])
  {
    hide Sorted, Lookup, IsCollation;
    LookupNone(l, l[i].name);
    var a := Lookup(l, l[i].name).value;
    var j :| 0 <= j < |l| && l[j] == a;
    SortedDistinct(coll, l, i, j);
  }

  // ----- inserting, changing and taking out -----

  function Insert(l: seq<Attr>, i: nat, a: Attr): seq<Attr>
    requires i <= |l|
  {
    l[..i] + [a] + l[i..]
  }

  function Without(l: seq<Attr>, r: set<string>): seq<Attr> {
    if l == [] then [] else (if l[0].name in r then [] else [l[0]]) + Without(l[1..], r)
  }

  lemma {:induction false} InsertLookup(l: seq<Attr>, i: nat, a: Attr, n: string)
    requires i <= |l| && Lookup(l, a.name).None?
    ensures Lookup(Insert(l, i, a), n) == if n == a.name then Some(a) else Lookup(l, n)
  {
    if i == 0 {
      assert Insert(l, i, a) == [a] + l;
    } else {
      assert Insert(l, i, a) == [l[0]] + Insert(l[1..], i - 1, a);
      InsertLookup(l[1..], i - 1, a, n);
    }
  }

  lemma {:induction false} UpdateLookup(l: seq<Attr>, i: nat, a: Attr, n: string)
    requires i < |l| && l[i].name == a.name && Lookup(l, a.name) == Some(l[i])
    requires forall j :: 0 <= j < i ==> l[j].name != a.name
    ensures Lookup(l[i := a], n) == if n == a.name then Some(a) else Lookup(l, n)
  {
    if i == 0 {
      assert l[i := a][1..] == l[1..];
    } else {
      assert l[i := a][1..] == l[1..][i - 1 := a];
      assert forall j :: 0 <= j < i - 1 ==> l[1..][j] == l[j + 1];
      UpdateLookup(l[1..], i - 1, a, n);
    }
  }

  lemma {:induction false} WithoutLookup(l: seq<Attr>, r: set<string>, n: string)
    ensures Lookup(Without(l, r), n) == if n in r then None else Lookup(l, n)
  {
    if l != [] {
      WithoutLookup(l[1..], r, n);
      if l[0].name !in r {
        assert Without(l, r)[1..] == Without(l[1..], r);
      } else {
        assert Without(l, r) == Without(l[1..], r);
      }
    }
  }

  lemma {:induction false} WithoutTwice(l: seq<Attr>, r: set<string>, s: set<string>)
    ensures Without(Without(l, r), s) == Without(l, r + s)
  {
    if l != [] {
      WithoutTwice(l[1..], r, s);
      if l[0].name in r {
        assert Without(l, r) == Without(l[1..], r);
      } else {
        assert Without(l, r)[1..] == Without(l[1..], r);
      }
    }
  }

  lemma {:induction false} WithoutNone(l: seq<Attr>, r: set<string>)
    requires forall i :: 0 <= i < |l| ==> l[i].name !in r
    ensures Without(l, r) == l
  {
    if l != [] {
      assert forall i :: 0 <= i < |l[1..]| ==> l[1..][i] == l[i + 1];
      WithoutNone(l[1..], r);
      assert l == [l[0]] + l[1..];
    }
  }

  /** What stands before the first that goes stays where it is. */
  lemma {:induction false} WithoutFrom(l: seq<Attr>, r: set<string>, k: nat)
    requires k <= |l| && forall i :: 0 <= i < k ==> l[i].name !in r
    ensures Without(l, r) == l[..k] + Without(l[k..], r)
    decreases k
  {
    if k > 0 {
      WithoutFrom(l, r, k - 1);
      var m := l[k - 1..];
      assert m[0] == l[k - 1] && m[1..] == l[k..];
      assert l[..k] == l[..k - 1] + [l[k - 1]];
    } else {
      assert l[k..] == l && l[..k] == [];
    }
  }

  lemma {:induction false} RemoveIsWithout(coll: Collation, l: seq<Attr>, i: nat)
    requires IsCollation(coll) && Sorted(coll, l) && i < |l|
    ensures l[..i] + l[i + 1..] == Without(l, {l[i].name})
  {
    hide Sorted, IsCollation;
    var r := {l[i].name};
    forall j | 0 <= j < |l| && j != i ensures l[j].name !in r {
      SortedDistinct(coll, l, i, j);
    }
    WithoutFrom(l, r, i);
    assert l[i..][1..] == l[i + 1..];
    WithoutNone(l[i + 1..], r);
  }

  lemma {:induction false} WithoutSorted(coll: Collation, l: seq<Attr>, r: set<string>)
    requires Sorted(coll, l)
    ensures Sorted(coll, Without(l, r))
    ensures forall a :: a in Without(l, r) ==> a in l
  {
    hide Before;
    if l != [] {
      assert forall i :: 0 <= i < |l[1..]| ==> l[1..][i] == l[i + 1];
      WithoutSorted(coll, l[1..], r);
      var w := Without(l[1..], r);
      forall i | 0 <= i < |w| ensures Before(coll, l[0].name, w[i].name) {
        assert w[i] in l[1..];
      }
    }
  }

  lemma InsertSorted(coll: Collation, l: seq<Attr>, i: nat, a: Attr)
    requires Sorted(coll, l) && i <= |l|
    requires forall k :: 0 <= k < i ==> Before(coll, l[k].name, a.name)
    requires forall k :: i <= k < |l| ==> Before(coll, a.name, l[k].name)
    ensures Sorted(coll, Insert(l, i, a))
  {
    hide Before;
  }

  lemma UpdateSorted(coll: Collation, l: seq<Attr>, i: nat, a: Attr)
    requires Sorted(coll, l) && i < |l| && a.name == l[i].name
    ensures Sorted(coll, l[i := a])
  {
  }

  // ----- the tree in the list -----

  /** Every branch of a name that is there is there itself. */
  ghost predicate Closed(l: seq<Attr>) {
    forall n, r :: Lookup(l, n).Some? && IsUnder(n, r) ==> Lookup(l, r).Some?
  }

  ghost predicate HasUnder(l: seq<Attr>, r: string) {
    exists n :: Lookup(l, n).Some? && IsUnder(n, r)
  }

  /** Whatever has something under it is marked as a root. */
  ghost predicate RootsMarked(l: seq<Attr>) {
    forall n :: Lookup(l, n).Some? && HasUnder(l, n) ==> Root in Lookup(l, n).value.flags
  }

  /** Exactly what has something under it is marked as a root. */
  ghost predicate RootsExact(l: seq<Attr>) {
    forall n :: Lookup(l, n).Some? ==> (HasUnder(l, n) <==> Root in Lookup(l, n).value.flags)
  }

  /** From the first that is not under the branch on, nothing is. */
  lemma UnderTogether(coll: Collation, l: seq<Attr>, k: nat, j: nat, i: nat)
    requires IsCollation(coll) && Sorted(coll, l) && k < j <= i < |l|
    requires !IsUnder(l[j].name, l[k].name)
    ensures !IsUnder(l[i].name, l[k].name)
  {
    hide Before, IsUnder, IsCollation;
    if IsUnder(l[i].name, l[k].name) && j < i {
      BranchTogether(coll, l[k].name, l[j].name, l[i].name);
    }
  }

  lemma UnderComesAfter(coll: Collation, l: seq<Attr>, k: nat, i: nat)
    requires IsCollation(coll) && Sorted(coll, l) && k < |l| && i < |l|
    requires IsUnder(l[i].name, l[k].name)
    ensures k < i
  {
    hide Before, IsUnder, IsCollation;
    BranchFirst(coll, l[i].name, l[k].name);
    BeforeTotal(coll, l[k].name, l[i].name);
  }

  /** Under a branch there is something exactly when the next attribute is. */
  lemma HasUnderNext(coll: Collation, l: seq<Attr>, k: nat)
    requires IsCollation(coll) && Sorted(coll, l) && k < |l|
    ensures HasUnder(l, l[k].name) <==> k + 1 < |l| && IsUnder(l[k + 1].name, l[k].name)
  {
    hide Before, IsUnder, IsCollation, Sorted, Lookup;
    if HasUnder(l, l[k].name) {
      var n :| Lookup(l, n).Some? && IsUnder(n, l[k].name);
      var i :| 0 <= i < |l| && l[i] == Lookup(l, n).value;
      UnderComesAfter(coll, l, k, i);
      if !IsUnder(l[k + 1].name, l[k].name) {
        UnderTogether(coll, l, k, k + 1, i);
      }
    }
    if k + 1 < |l| {
      LookupAt(coll, l, k + 1);
    }
  }

  // ----- permissions -----

  /** The name is there and does not itself keep the player from writing it. */
  ghost predicate Open(l: seq<Attr>, p: Player, n: string, safe: bool) {
    Lookup(l, n).Some? && !Cannot(p, Lookup(l, n).value, safe)
  }

  /** Nothing on the way from the root to the name keeps the player from writing it. */
  ghost predicate Writable(l: seq<Attr>, p: Player, n: string, safe: bool) {
    Open(l, p, n, safe) && forall r :: IsUnder(n, r) ==> Open(l, p, r, safe)
  }

  /** What is there may be written if neither it nor a branch above it keeps the player from writing. */
  lemma WritableMeans(l: seq<Attr>, p: Player, n: string)
    requires Closed(l) && Lookup(l, n).Some?
    ensures Writable(l, p, n, true) <==>
            !exists r :: (r == n || IsUnder(n, r)) && Lookup(l, r).Some? && Cannot(p, Lookup(l, r).value, true)
  {
    hide Lookup, Cannot, IsUnder;
  }

  /** The name or something under it cannot be written by the player. */
  ghost predicate Survives(l: seq<Attr>, p: Player, n: string) {
    exists m :: (m == n || IsUnder(m, n)) && Lookup(l, m).Some? && !Writable(l, p, m, true)
  }

  /** What a wipe of `root` takes from under it. */
  ghost function Doomed(l: seq<Attr>, p: Player, root: string): set<string> {
    set a <- l | IsUnder(a.name, root) && !Survives(l, p, a.name) :: a.name
  }

  lemma SurvivesUp(l: seq<Attr>, p: Player, m: string, n: string)
    requires Survives(l, p, m) && IsUnder(m, n)
    ensures Survives(l, p, n)
  {
  }

  /** What is under something that cannot be written cannot be written. */
  lemma UnwritableDown(l: seq<Attr>, p: Player, m: string, n: string)
    requires Lookup(l, m).Some? && IsUnder(m, n) && !Writable(l, p, n, true)
    ensures !Writable(l, p, m, true)
  {
  }

  /** Taking out what does not survive changes nobody's permission on what stays. */
  lemma {:induction false} WritableSame(l: seq<Attr>, r: set<string>, p: Player, n: string)
    requires Closed(Without(l, r)) && Lookup(Without(l, r), n).Some?
    ensures Writable(Without(l, r), p, n, true) <==> Writable(l, p, n, true)
  {
    hide IsUnder, Cannot, Lookup, Without;
    var c := Without(l, r);
    WithoutLookup(l, r, n);
    forall x | IsUnder(n, x) ensures Open(c, p, x, true) <==> Open(l, p, x, true) {
      assert Lookup(c, x).Some?;
      WithoutLookup(l, r, x);
    }
  }

  lemma {:induction false} SurvivesSame(l: seq<Attr>, r: set<string>, p: Player, n: string)
    requires Closed(Without(l, r))
    requires forall x :: x in r ==> !Survives(l, p, x)
    ensures Survives(Without(l, r), p, n) <==> Survives(l, p, n)
  {
    hide IsUnder, Writable, Lookup, Without, Closed;
    var c := Without(l, r);
    if Survives(c, p, n) {
      var m :| (m == n || IsUnder(m, n)) && Lookup(c, m).Some? && !Writable(c, p, m, true);
      WritableSame(l, r, p, m);
      WithoutLookup(l, r, m);
    }
    if Survives(l, p, n) {
      var m :| (m == n || IsUnder(m, n)) && Lookup(l, m).Some? && !Writable(l, p, m, true);
      assert m !in r by {
        assert Survives(l, p, m);
      }
      WithoutLookup(l, r, m);
      WritableSame(l, r, p, m);
    }
  }
}

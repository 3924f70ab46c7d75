/**
 An object and its attribute list, changed in place.
 */
module AttrThing {
  import opened Basics
  import opened AttrNames
  import opened AttrList
  import opened AttrRules
  import opened AttrWipe

  /** One call that changes an attribute list. */
  datatype Op =
    | Add(player: Player, name: string, value: Option<string>, flags: set<Flag>, limit: nat)
    | Clear(player: Player, name: string)
    | Wipe(player: Player, name: string)

  /** The first tick at or behind a position. */
  function NextTick(n: string, p: nat): (t: nat)
    requires p <= |n|
    ensures p <= t <= |n| && (t < |n| ==> n[t] == TICK) && forall i :: p <= i < t ==> n[i] != TICK
    decreases |n| - p
  {
    if p == |n| || n[p] == TICK then p else NextTick(n, p + 1)
  }

  /** Names under which `n` lies end at its ticks. */
  lemma UnderAtTick(n: string, t: nat)
    requires t < |n| && n[t] == TICK
    ensures IsUnder(n, n[..t])
  {
  }

  /** Between two ticks no branch ends. */
  lemma BelowNextTick(n: string, p: nat)
    requires p <= |n|
    ensures forall r :: IsUnder(n, r) && |r| < NextTick(n, p) ==> |r| < p && r == n[..|r|]
  {
  }

  class Thing {
    const coll: Collation
    const std: Standard
    const chars: set<char>
    const emptyAttrs: bool
    var attrs: seq<Attr>
    var count: nat

    ghost predicate InOrder()
      reads this
    {
      IsCollation(coll) && Sorted(coll, attrs) && count == |attrs|
    }

    ghost predicate Valid()
      reads this
    {
      InOrder() && Closed(attrs) && RootsMarked(attrs)
    }

    function Blank(): string { if emptyAttrs then "" else " " }

    constructor (coll: Collation, std: Standard, chars: set<char>, emptyAttrs: bool)
      requires IsCollation(coll)
      ensures Valid() && attrs == [] && RootsExact(attrs)
      ensures this.coll == coll && this.std == std && this.chars == chars && this.emptyAttrs == emptyAttrs
    {
      this.coll := coll;
      this.std := std;
      this.chars := chars;
      this.emptyAttrs := emptyAttrs;
      attrs := [];
      count := 0;
    }

    // ----- searching -----

    /** From a place in the list on, the first attribute of that name. */
    method FindAtrInList(from: nat, name: string) returns (r: Option<nat>)
      requires from <= |attrs|
      ensures r.Some? ==> from <= r.value < |attrs| && attrs[r.value].name == name
      ensures r.None? ==> forall k :: from <= k < |attrs| ==> attrs[k].name != name
    {
      var atr := from;
      while atr < |attrs|
        invariant from <= atr <= |attrs| && forall k :: from <= k < atr ==> attrs[k].name != name
      {
        if attrs[atr].name == name { return Some(atr); }
        atr := atr + 1;
      }
      return None;
    }

    /** Where an attribute of that name is, or where one would have to go. */
    method FindAtrPos(name: string) returns (pos: nat, found: bool)
      requires InOrder()
      ensures pos <= |attrs|
      ensures found ==> pos < |attrs| && attrs[pos].name == name && Lookup(attrs, name) == Some(attrs[pos])
      ensures !found ==> Lookup(attrs, name).None? &&
                         (forall k :: 0 <= k < pos ==> Before(coll, attrs[k].name, name)) &&
                         (forall k :: pos <= k < |attrs| ==> Before(coll, name, attrs[k].name))
    {
      hide Lookup, Before, Compared, Split, IsCollation;
      pos := 0;
      while pos < |attrs|
        invariant pos <= |attrs| && forall k :: 0 <= k < pos ==> Before(coll, attrs[k].name, name)
      {
        var comp := CompareAttrNames(coll, name, attrs[pos].name);
        ComparedSame(coll, name, attrs[pos].name);
        if comp < 0 {
          PlaceFound(attrs, pos, name);
          return pos, false;
        }
        if comp == 0 {
          LookupAt(coll, attrs, pos);
          return pos, true;
        }
        pos := pos + 1;
      }
      PlaceFound(attrs, pos, name);
      found := false;
    }

    lemma {:induction false} PlaceFound(l: seq<Attr>, pos: nat, name: string)
      requires IsCollation(coll) && Sorted(coll, l) && pos <= |l|
      requires forall k :: 0 <= k < pos ==> Before(coll, l[k].name, name)
      requires pos < |l| ==> Compared(coll, Split(name), Split(l[pos].name)) < 0
      ensures Lookup(l, name).None? && forall k :: pos <= k < |l| ==> Before(coll, name, l[k].name)
    {
      hide Lookup, Compared, Split, IsCollation;
      if pos < |l| { assert Before(coll, name, l[pos].name); }
      hide Before;
      forall k | pos <= k < |l| ensures Before(coll, name, l[k].name) {
        if k > pos { BeforeTransitive(coll, name, l[pos].name, l[k].name); }
      }
      forall k | 0 <= k < |l| ensures l[k].name != name {
        BeforeTotal(coll, l[k].name, name);
      }
      LookupNone(l, name);
    }

    /** The first attribute under the one at `k`; if there is one it comes right behind it. */
    method AtrSubBranch(k: nat) returns (r: Option<nat>)
      requires InOrder() && k < |attrs|
      ensures r.Some? <==> HasUnder(attrs, attrs[k].name)
      ensures r.Some? ==> r.value == k + 1 < |attrs| && IsUnder(attrs[k + 1].name, attrs[k].name)
    {
      hide IsCollation, Sorted, HasUnder;
      var name := attrs[k].name;
      var len := |name|;
      HasUnderNext(coll, attrs, k);
      var branch := k + 1;
      while branch < |attrs|
        invariant k < branch <= |attrs| && (branch > k + 1 ==> !IsUnder(attrs[k + 1].name, name))
      {
        if branch > k + 1 { UnderTogether(coll, attrs, k, k + 1, branch); }
        var n2 := attrs[branch].name;
        if |n2| <= len { return None; }
        if n2[len] == TICK {
          if n2[..len] == name { return Some(branch); } else { return None; }
        }
        branch := branch + 1;
      }
      return None;
    }

    /** The attribute in front of the first one under the one at `k`, which is that one itself. */
    method AtrSubBranchPrev(k: nat) returns (r: Option<nat>)
      requires InOrder() && k < |attrs|
      ensures r.Some? <==> HasUnder(attrs, attrs[k].name)
      ensures r.Some? ==> r.value == k < |attrs| - 1 && IsUnder(attrs[k + 1].name, attrs[k].name)
    {
      hide IsCollation, Sorted, HasUnder;
      var name := attrs[k].name;
      var len := |name|;
      HasUnderNext(coll, attrs, k);
      var prev, branch := k, k + 1;
      while branch < |attrs|
        invariant k < branch <= |attrs| && (branch > k + 1 ==> !IsUnder(attrs[k + 1].name, name))
        invariant prev == branch - 1
      {
        if branch > k + 1 { UnderTogether(coll, attrs, k, k + 1, branch); }
        var n2 := attrs[branch].name;
        if |n2| <= len { return None; }
        if n2[len] == TICK {
          if n2[..len] == name { return Some(prev); } else { return None; }
        }
        prev := branch;
        branch := branch + 1;
      }
      return None;
    }

    // ----- permissions -----

    /** A search that goes on from the branch found before misses nothing. */
    lemma SearchFrom(from: nat, r: string, found: Option<nat>)
      requires InOrder() && from <= |attrs|
      requires from == 0 || (from < |attrs| && IsUnder(r, attrs[from].name))
      requires found.Some? ==> from <= found.value < |attrs| && attrs[found.value].name == r
      requires found.None? ==> forall k :: from <= k < |attrs| ==> attrs[k].name != r
      ensures Lookup(attrs, r) == if found.Some? then Some(attrs[found.value]) else None
    {
      hide Lookup, Before, IsCollation, IsUnder;
      if found.Some? {
        LookupAt(coll, attrs, found.value);
      } else {
        LookupNone(attrs, r);
        if Lookup(attrs, r).Some? {
          var i :| 0 <= i < |attrs| && attrs[i].name == r;
          UnderComesAfter(coll, attrs, from, i);
          assert false;
        }
      }
    }

    /** Whether the player may write the attribute at `k`: nor it nor any branch above it forbids it. */
    method CanWriteAttr(player: Player, k: nat, safe: bool) returns (ok: bool)
      requires InOrder() && k < |attrs|
      ensures ok <==> Writable(attrs, player, attrs[k].name, safe)
    {
      hide Lookup, IsCollation, Sorted, IsUnder, Cannot, NextTick, OpenTo;
      var name := attrs[k].name;
      LookupAt(coll, attrs, k);
      if Cannot(player, attrs[k], safe) { return false; }
      var atr: nat := 0;
      OpenStart(attrs, player, name, safe);
      var p := NextTick(name, 0);
      while p < |name|
        invariant p <= |name| && (p < |name| ==> name[p] == TICK)
        invariant atr == 0 || (atr < |attrs| && |attrs[atr].name| < p && IsUnder(name, attrs[atr].name))
        invariant OpenTo(attrs, player, name, p, safe)
        decreases |name| - p
      {
        var missingName := name[..p];
        UnderAtTick(name, p);
        if atr != 0 { UnderComparable(name, attrs[atr].name, missingName); }
        var found := FindAtrInList(atr, missingName);
        SearchFrom(atr, missingName, found);
        if found.None? { return false; }
        atr := found.value;
        if Cannot(player, attrs[atr], safe) { return false; }
        OpenStep(attrs, player, name, p, safe);
        p := NextTick(name, p + 1);
      }
      OpenEnd(attrs, player, name, safe);
      return true;
    }

    /** No branch of the name that ends before `k` keeps the player from writing it. */
    ghost predicate OpenTo(l: seq<Attr>, player: Player, n: string, k: nat, safe: bool) {
      forall r :: IsUnder(n, r) && |r| < k ==> Open(l, player, r, safe)
    }

    lemma OpenStart(l: seq<Attr>, player: Player, n: string, safe: bool)
      ensures OpenTo(l, player, n, NextTick(n, 0), safe)
    {
    }

    lemma OpenStep(l: seq<Attr>, player: Player, n: string, p: nat, safe: bool)
      requires p < |n| && n[p] == TICK && OpenTo(l, player, n, p, safe) && Open(l, player, n[..p], safe)
      ensures OpenTo(l, player, n, NextTick(n, p + 1), safe)
    {
    }

    lemma OpenEnd(l: seq<Attr>, player: Player, n: string, safe: bool)
      requires OpenTo(l, player, n, |n|, safe)
      ensures forall r :: IsUnder(n, r) ==> Open(l, player, r, safe)
    {
    }

    // ----- wiping -----

    /** While children are cleared: `c` is `l` without some of what goes, and what is under the one at `k` and was
        already passed stays. */
    ghost predicate Clearing(l: seq<Attr>, c: seq<Attr>, gone: set<string>, player: Player, k: nat, j: nat) {
      IsCollation(coll) && Sorted(coll, l) && Sorted(coll, c) &&
      k < j <= |c| && k < |l| && c[k] == l[k] && c == Without(l, gone) && Closed(c) && RootsMarked(c) &&
      gone <= Doomed(l, player, l[k].name) &&
      forall i :: k < i < j ==> IsUnder(c[i].name, l[k].name) && Survives(l, player, c[i].name)
    }

    lemma SurvivesNow(l: seq<Attr>, c: seq<Attr>, gone: set<string>, player: Player, k: nat, j: nat, n: string)
      requires Clearing(l, c, gone, player, k, j)
      ensures Survives(c, player, n) <==> Survives(l, player, n)
    {
      hide Survives, IsCollation, Sorted, Closed, Without, Doomed, Before, RootsMarked;
      forall x | x in gone ensures !Survives(l, player, x) {
        InDoomed(l, player, l[k].name, x);
      }
      SurvivesSame(l, gone, player, n);
    }

    /** Clearing what is under the one at `j` takes nothing that has to stay. */
    lemma ClearingSub(l: seq<Attr>, c: seq<Attr>, gone: set<string>, player: Player, k: nat, j: nat)
      requires Clearing(l, c, gone, player, k, j) && j < |c| && IsUnder(c[j].name, l[k].name)
      ensures var r := Doomed(c, player, c[j].name);
              Clearing(l, Without(c, r), gone + r, player, k, j) &&
              j < |Without(c, r)| && Without(c, r)[j] == c[j]
    {
      hide IsCollation, Sorted, Closed, Without, Doomed, Before, IsUnder, RootsMarked, Survives, Lookup;
      var name, sub := l[k].name, c[j].name;
      var r := Doomed(c, player, sub);
      forall x | x in r ensures x in Doomed(l, player, name) {
        InDoomed(c, player, sub, x);
        InDoomed(l, player, name, x);
        SurvivesNow(l, c, gone, player, k, j, x);
        UnderTransitive(x, sub, name);
        WithoutLookup(l, gone, x);
      }
      forall i | 0 <= i < j + 1 ensures c[i].name !in r {
        InDoomed(c, player, sub, c[i].name);
        if IsUnder(c[i].name, sub) { UnderComesAfter(coll, c, j, i); }
      }
      WithoutFrom(c, r, j + 1);
      WithoutTwice(l, gone, r);
      WithoutSorted(coll, c, r);
      PrunedTree(c, r, player, sub);
      var c' := Without(c, r);
      assert forall i :: 0 <= i < j + 1 ==> c'[i] == c[i];
    }

    /** The one at `j` stays: it cannot be written or something under it stays. */
    lemma {:induction false} ClearingSkip(l: seq<Attr>, c: seq<Attr>, gone: set<string>, player: Player, k: nat, j: nat)
      requires Clearing(l, c, gone, player, k, j) && j < |c| && IsUnder(c[j].name, l[k].name)
      requires Survives(c, player, c[j].name)
      ensures Clearing(l, c, gone, player, k, j + 1)
    {
      hide IsCollation, Sorted, Closed, Without, Doomed, Before, IsUnder, RootsMarked, Survives;
      SurvivesNow(l, c, gone, player, k, j, c[j].name);
    }

    /** The one at `j` goes: it can be written and nothing is left under it. */
    lemma {:induction false} ClearingTake(l: seq<Attr>, c: seq<Attr>, gone: set<string>, player: Player, k: nat, j: nat)
      requires Clearing(l, c, gone, player, k, j) && j < |c| && IsUnder(c[j].name, l[k].name)
      requires Writable(c, player, c[j].name, true) && !HasUnder(c, c[j].name)
      ensures Clearing(l, c[..j] + c[j + 1..], gone + {c[j].name}, player, k, j)
    {
      hide IsCollation, Sorted, Without, Doomed, Before, IsUnder, Writable, Lookup;
      var name, sub := l[k].name, c[j].name;
      RemoveIsWithout(coll, c, j);
      WithoutTwice(l, gone, {sub});
      WithoutSorted(coll, c, {sub});
      var c' := Without(c, {sub});
      LookupAt(coll, c, j);
      assert !Survives(c, player, sub);
      SurvivesNow(l, c, gone, player, k, j, sub);
      WithoutLookup(l, gone, sub);
      InDoomed(l, player, name, sub);
      forall x ensures Lookup(c', x) == if x == sub then None else Lookup(c, x) { WithoutLookup(c, {sub}, x); }
      TakenTree(c, c', sub);
      assert forall i :: 0 <= i < j ==> c'[i] == c[i];
    }

    lemma TakenTree(c: seq<Attr>, c': seq<Attr>, sub: string)
      requires Closed(c) && RootsMarked(c) && !HasUnder(c, sub)
      requires forall x :: Lookup(c', x) == if x == sub then None else Lookup(c, x)
      ensures Closed(c') && RootsMarked(c')
    {
    }

    /** When nothing more follows under the one at `k`, all that goes is gone. */
    lemma ClearingDone(l: seq<Attr>, c: seq<Attr>, gone: set<string>, player: Player, k: nat, j: nat)
      requires Clearing(l, c, gone, player, k, j)
      requires j < |c| ==> !IsUnder(c[j].name, l[k].name)
      ensures gone == Doomed(l, player, l[k].name)
      ensures HasUnder(c, l[k].name) <==> j > k + 1
    {
      hide IsCollation, Sorted, Without, Doomed, Before, IsUnder, Survives, RootsMarked, Closed, Lookup, HasUnder;
      var name := l[k].name;
      forall x | x in Doomed(l, player, name) ensures x in gone {
        InDoomed(l, player, name, x);
        WithoutLookup(l, gone, x);
        if x !in gone {
          var i :| 0 <= i < |c| && c[i] == Lookup(c, x).value;
          UnderComesAfter(coll, c, k, i);
          if i >= j { UnderTogether(coll, c, k, j, i); }
        }
      }
      HasUnderNext(coll, c, k);
    }

    lemma ClearingStart(player: Player, k: nat)
      requires Valid() && k < |attrs|
      ensures Clearing(attrs, attrs, {}, player, k, k + 1)
    {
      hide Closed, RootsMarked, Before, IsCollation;
      WithoutNone(attrs, {});
    }

    lemma FrontStays(l: seq<Attr>, player: Player, k: nat)
      requires IsCollation(coll) && Sorted(coll, l) && k < |l|
      ensures var c := Without(l, Doomed(l, player, l[k].name)); |c| > k && c[..k + 1] == l[..k + 1]
    {
      hide IsCollation, Sorted, Without, Doomed, Before, IsUnder, Survives;
      var r := Doomed(l, player, l[k].name);
      forall i | 0 <= i < k + 1 ensures l[i].name !in r {
        InDoomed(l, player, l[k].name, l[i].name);
        if IsUnder(l[i].name, l[k].name) { UnderComesAfter(coll, l, k, i); }
      }
      WithoutFrom(l, r, k + 1);
    }

    lemma ClearingNone(player: Player, k: nat)
      requires k < |attrs| && !HasUnder(attrs, attrs[k].name)
      ensures Without(attrs, Doomed(attrs, player, attrs[k].name)) == attrs
    {
      hide Without, Lookup, Survives, Doomed;
      var r := Doomed(attrs, player, attrs[k].name);
      forall x ensures x !in r { InDoomed(attrs, player, attrs[k].name, x); }
      WithoutNone(attrs, r);
    }

    lemma LeftSurvives(c: seq<Attr>, player: Player, n: string)
      requires HasUnder(Without(c, Doomed(c, player, n)), n)
      ensures Survives(c, player, n)
    {
      hide Without, Lookup, Survives, Doomed, IsUnder;
      var r := Doomed(c, player, n);
      var m :| Lookup(Without(c, r), m).Some? && IsUnder(m, n);
      WithoutLookup(c, r, m);
      InDoomed(c, player, n, m);
      SurvivesUp(c, player, m, n);
    }

    lemma UnmarkedEmpty(c: seq<Attr>, j: nat)
      requires IsCollation(coll) && Sorted(coll, c) && RootsMarked(c) && j < |c| && Root !in c[j].flags
      ensures !HasUnder(c, c[j].name)
    {
      hide Lookup, HasUnder, IsCollation, Sorted;
      LookupAt(coll, c, j);
    }

    lemma UnwritableSurvives(player: Player, j: nat)
      requires InOrder() && j < |attrs| && !Writable(attrs, player, attrs[j].name, true)
      ensures Survives(attrs, player, attrs[j].name)
    {
      hide Lookup, IsCollation, Sorted, Writable;
      LookupAt(coll, attrs, j);
    }

    /** Clears what is under the attribute at `k` and goes; says whether all of it went. */
    method AtrClearChildren(player: Player, k: nat) returns (all: bool)
      requires Valid() && k < |attrs|
      modifies this
      ensures Valid() && attrs == Without(old(attrs), Doomed(old(attrs), player, old(attrs[k].name)))
      ensures k < |attrs| <= old(|attrs|) && attrs[..k + 1] == old(attrs[..k + 1])
      ensures all <==> !HasUnder(attrs, attrs[k].name)
      decreases |attrs| - k
    {
      hide IsCollation, Sorted, Without, Doomed, Before, IsUnder, Survives, RootsMarked, Closed, Lookup, HasUnder,
           Writable;
      ghost var l := attrs;
      ghost var gone: set<string> := {};
      ClearingStart(player, k);
      var prev := AtrSubBranchPrev(k);
      if prev.None? {
        ClearingNone(player, k);
        return true;
      }
      var name := attrs[k].name;
      var skipped: nat := 0;
      var sub: nat := prev.value + 1;
      while sub < |attrs| && IsUnder(attrs[sub].name, name)
        invariant Clearing(l, attrs, gone, player, k, sub) && sub == k + 1 + skipped && count == |attrs| <= |l|
        invariant Valid()
        decreases |attrs| - sub
      {
        ghost var c := attrs;
        if Root in attrs[sub].flags {
          ClearingSub(l, c, gone, player, k, sub);
          var cleared := AtrClearChildren(player, sub);
          ghost var was := gone;
          gone := gone + Doomed(c, player, c[sub].name);
          if !cleared {
            LeftSurvives(c, player, c[sub].name);
            SurvivesNow(l, c, was, player, k, sub, c[sub].name);
            SurvivesNow(l, attrs, gone, player, k, sub, c[sub].name);
            ClearingSkip(l, attrs, gone, player, k, sub);
            skipped, sub := skipped + 1, sub + 1;
            continue;
          }
        } else {
          UnmarkedEmpty(attrs, sub);
        }
        var can := CanWriteAttr(player, sub, true);
        if can {
          ClearingTake(l, attrs, gone, player, k, sub);
          gone := gone + {attrs[sub].name};
          attrs := attrs[..sub] + attrs[sub + 1..];
          count := count - 1;
        } else {
          UnwritableSurvives(player, sub);
          ClearingSkip(l, attrs, gone, player, k, sub);
          skipped, sub := skipped + 1, sub + 1;
        }
      }
      ClearingDone(l, attrs, gone, player, k, sub);
      FrontStays(l, player, k);
      all := skipped == 0;
    }

    lemma RemainsLeft(l: seq<Attr>, player: Player, n: string)
      ensures HasUnder(Without(l, Doomed(l, player, n)), n) <==> Remains(l, player, n)
    {
      hide Without, Lookup, Survives, Doomed, IsUnder;
      var r := Doomed(l, player, n);
      forall x ensures Lookup(Without(l, r), x) == if x in r then None else Lookup(l, x) { WithoutLookup(l, r, x); }
      forall x ensures x in r <==> Lookup(l, x).Some? && IsUnder(x, n) && !Survives(l, player, x) {
        InDoomed(l, player, n, x);
      }
      if Remains(l, player, n) {
        var m :| IsUnder(m, n) && Lookup(l, m).Some? && Survives(l, player, m);
        assert Lookup(Without(l, r), m).Some?;
      }
    }

    lemma RemainsHasUnder(l: seq<Attr>, player: Player, n: string)
      ensures Remains(l, player, n) ==> HasUnder(l, n)
    {
    }

    /** If the one that was taken out was the only leaf of a branch, that branch is no root any more. */
    method SettleParent(name: string)
      requires InOrder()
      modifies this
      ensures InOrder() && ParentSettled(old(attrs), attrs, name) && |attrs| == old(|attrs|)
    {
      hide IsCollation, Sorted, Lookup, HasUnder, LastTick;
      var p := LastTick(name);
      if p < |name| {
        var rootName := name[..p];
        var root := FindAtrInList(0, rootName);
        SearchFrom(0, rootName, root);
        if root.Some? {
          var k := root.value;
          var sub := AtrSubBranch(k);
          if sub.None? {
            UpdateAt(attrs, k, Unmarked(attrs[k]));
            attrs := attrs[k := Unmarked(attrs[k])];
          }
        }
      }
    }

    lemma UpdateAt(l: seq<Attr>, k: nat, a: Attr)
      requires IsCollation(coll) && Sorted(coll, l) && k < |l| && a.name == l[k].name
      ensures Sorted(coll, l[k := a])
      ensures forall x :: Lookup(l[k := a], x) == if x == a.name then Some(a) else Lookup(l, x)
    {
      hide IsCollation, Sorted, Lookup;
      UpdateSorted(coll, l, k, a);
      LookupAt(coll, l, k);
      forall j | 0 <= j < k ensures l[j].name != a.name { SortedDistinct(coll, l, j, k); }
      forall x ensures Lookup(l[k := a], x) == if x == a.name then Some(a) else Lookup(l, x) {
        UpdateLookup(l, k, a, x);
      }
    }

    method RealAtrClr(atr: string, player: Player, weAreWiping: bool) returns (code: Code)
      requires Valid()
      modifies this
      ensures Valid() && |attrs| <= old(|attrs|)
      ensures code == ClearCode(old(attrs), player, atr, weAreWiping)
      ensures Cleared(old(attrs), attrs, player, atr, weAreWiping)
      ensures code == NotFound <==> Lookup(old(attrs), atr).None?
      ensures code == IsSafe <==> Lookup(old(attrs), atr).Some? && Safe in Lookup(old(attrs), atr).value.flags
      ensures code == Error <==>
              Lookup(old(attrs), atr).Some? && Safe !in Lookup(old(attrs), atr).value.flags &&
              exists r :: (r == atr || IsUnder(atr, r)) && Lookup(old(attrs), r).Some? &&
                          Cannot(player, Lookup(old(attrs), r).value, true)
      ensures code !in {NotFound, IsSafe, Error} && !weAreWiping ==>
                code == if Root in Lookup(old(attrs), atr).value.flags then Tree else Okay
      ensures code !in {NotFound, IsSafe, Error} && !weAreWiping && RootsExact(old(attrs)) ==>
                code == if exists m :: IsUnder(m, atr) && Lookup(old(attrs), m).Some? then Tree else Okay
      ensures code !in {NotFound, IsSafe, Error} && weAreWiping ==>
                code == if exists b :: IsUnder(b, atr) && Lookup(old(attrs), b).Some? &&
                                       Cannot(player, Lookup(old(attrs), b).value, true) then Tree else Okay
      ensures code !in {Okay, Tree} || (code == Tree && !weAreWiping) ==> attrs == old(attrs)
      ensures code == Okay ==> forall x :: x == atr || IsUnder(x, atr) ==> Lookup(attrs, x).None?
      ensures RootsExact(old(attrs)) ==> RootsExact(attrs)
    {
      hide IsCollation, Sorted, Lookup, HasUnder, Closed, RootsMarked, Writable, Remains, ParentSettled, Without,
           Doomed,
           RootsExact;
      ghost var l := attrs;
      var pos, found := FindAtrPos(atr);
      if !found {
        code := NotFound;
      } else if Safe in attrs[pos].flags {
        code := IsSafe;
      } else {
        var can := CanWriteAttr(player, pos, true);
        if !can {
          code := Error;
        } else if Root in attrs[pos].flags && !weAreWiping {
          code := Tree;
        } else {
          if Root !in attrs[pos].flags { UnmarkedEmpty(attrs, pos); }
          RemainsHasUnder(attrs, player, atr);
          code := ClearFound(player, pos);
        }
      }
      ClearCodeMeans(l, player, atr, weAreWiping);
      if code == Okay { ClearedAway(l, attrs, player, atr, weAreWiping); }
      ClearedTree(l, attrs, player, atr, weAreWiping);
      if RootsExact(l) {
        ClearedExact(l, attrs, player, atr, weAreWiping);
        if found { MarkMeans(l, atr); }
      }
    }

    lemma MarkMeans(l: seq<Attr>, n: string)
      requires RootsExact(l) && Lookup(l, n).Some?
      ensures Root in Lookup(l, n).value.flags <==> exists m :: IsUnder(m, n) && Lookup(l, m).Some?
    {
      hide Lookup, IsUnder;
    }

    /** Clears what is under the attribute found, and then the attribute itself. */
    method ClearFound(player: Player, pos: nat) returns (code: Code)
      requires Valid() && pos < |attrs|
      modifies this
      ensures InOrder() && |attrs| <= old(|attrs|)
      ensures code == if Remains(old(attrs), player, old(attrs[pos].name)) then Tree else Okay
      ensures code == Tree ==> attrs == Without(old(attrs), Doomed(old(attrs), player, old(attrs[pos].name)))
      ensures code == Okay ==>
        var n := old(attrs[pos].name);
        ParentSettled(Without(old(attrs), Doomed(old(attrs), player, n) + {n}), attrs, n)
    {
      hide IsCollation, Sorted, Lookup, HasUnder, Closed, RootsMarked, Writable, Remains, ParentSettled, Without,
           Doomed;
      ghost var l := attrs;
      var name := attrs[pos].name;
      var canClear := true;
      RemainsLeft(l, player, name);
      if Root in attrs[pos].flags {
        canClear := AtrClearChildren(player, pos);
      } else {
        UnmarkedEmpty(attrs, pos);
        ClearingNone(player, pos);
      }
      if canClear {
        RemoveIsWithout(coll, attrs, pos);
        WithoutTwice(l, Doomed(l, player, name), {name});
        WithoutSorted(coll, attrs, {name});
        attrs := attrs[..pos] + attrs[pos + 1..];
        count := count - 1;
        SettleParent(name);
        return Okay;
      }
      return Tree;
    }

    /** Clears a leaf. */
    method AtrClr(atr: string, player: Player) returns (code: Code)
      requires Valid()
      modifies this
      ensures Valid() && |attrs| <= old(|attrs|)
      ensures code == ClearCode(old(attrs), player, atr, false) && Cleared(old(attrs), attrs, player, atr, false)
      ensures code == NotFound <==> Lookup(old(attrs), atr).None?
      ensures code == IsSafe <==> Lookup(old(attrs), atr).Some? && Safe in Lookup(old(attrs), atr).value.flags
      ensures code == Error <==>
              Lookup(old(attrs), atr).Some? && Safe !in Lookup(old(attrs), atr).value.flags &&
              exists r :: (r == atr || IsUnder(atr, r)) && Lookup(old(attrs), r).Some? &&
                          Cannot(player, Lookup(old(attrs), r).value, true)
      ensures code == Tree ==> Root in Lookup(old(attrs), atr).value.flags
      ensures code == Okay ==> Root !in Lookup(old(attrs), atr).value.flags && Lookup(attrs, atr).None?
      ensures code != Okay ==> attrs == old(attrs)
      ensures RootsExact(old(attrs)) ==> RootsExact(attrs)
    {
      hide IsCollation, Lookup, Sorted, RootsExact, Closed, RootsMarked, Cleared, ClearCode, IsUnder, Cannot;
      code := RealAtrClr(atr, player, false);
    }

    /** Clears a branch and what is under it. */
    method WipeAtr(atr: string, player: Player) returns (code: Code)
      requires Valid()
      modifies this
      ensures Valid() && |attrs| <= old(|attrs|)
      ensures code == ClearCode(old(attrs), player, atr, true) && Cleared(old(attrs), attrs, player, atr, true)
      ensures code == NotFound <==> Lookup(old(attrs), atr).None?
      ensures code == IsSafe <==> Lookup(old(attrs), atr).Some? && Safe in Lookup(old(attrs), atr).value.flags
      ensures code == Error <==>
              Lookup(old(attrs), atr).Some? && Safe !in Lookup(old(attrs), atr).value.flags &&
              exists r :: (r == atr || IsUnder(atr, r)) && Lookup(old(attrs), r).Some? &&
                          Cannot(player, Lookup(old(attrs), r).value, true)
      ensures code !in {NotFound, IsSafe, Error} ==>
                code == if exists b :: IsUnder(b, atr) && Lookup(old(attrs), b).Some? &&
                                       Cannot(player, Lookup(old(attrs), b).value, true) then Tree else Okay
      ensures code == Okay ==> forall x :: x == atr || IsUnder(x, atr) ==> Lookup(attrs, x).None?
      ensures code !in {Okay, Tree} ==> attrs == old(attrs)
      ensures RootsExact(old(attrs)) ==> RootsExact(attrs)
    {
      hide IsCollation, Lookup, Sorted, RootsExact, Closed, RootsMarked, Cleared, ClearCode, IsUnder, Cannot;
      code := RealAtrClr(atr, player, true);
    }

    // ----- adding -----

    /** Whether the player may make an attribute of that name, and whether there is room for it. */
    method CanCreateAttr(player: Player, name: string, flags: set<Flag>, limit: nat) returns (code: Code)
      requires InOrder() && Closed(attrs)
      ensures code == CreateCode(attrs, std, player, name, flags, limit)
    {
      hide IsCollation, Sorted, Lookup, Closed, Cannot, IsUnder, DefaultFlags, NextTick, PassableTo, OnTheWay, Missing;
      var tmpatr := Attr(name, DefaultFlags(std, name, flags), player.id, "");
      if Cannot(player, tmpatr, true) { return Error; }
      var numNew: nat := 1;
      var atr: nat, isTmp := 0, false;
      ghost var missing := "";
      var p := NextTick(name, 0);
      PassableStart(attrs, player, name, flags);
      while p < |name|
        invariant p <= |name| && (p < |name| ==> name[p] == TICK)
        invariant !isTmp ==> atr == 0 || (atr < |attrs| && |attrs[atr].name| < p && IsUnder(name, attrs[atr].name))
        invariant isTmp ==> IsUnder(name, missing) && |missing| < p && Lookup(attrs, missing).None?
        invariant numNew == 1 + Missing(attrs, name, p)
        invariant PassableTo(attrs, player, name, p, flags)
        decreases |name| - p
      {
        var missingName := name[..p];
        UnderAtTick(name, p);
        if !isTmp {
          if atr != 0 { UnderComparable(name, attrs[atr].name, missingName); }
          var found := FindAtrInList(atr, missingName);
          SearchFrom(atr, missingName, found);
          if found.None? { isTmp, missing := true, missingName; } else { atr := found.value; }
        } else {
          MissingBelow(attrs, name, missing, missingName);
        }
        var a := if isTmp then Attr(missingName, DefaultFlags(std, missingName, flags), player.owner, "")
                 else attrs[atr];
        IsOnTheWay(attrs, player, missingName, flags, if isTmp then None else Some(a));
        if isTmp { numNew := numNew + 1; }
        if NoDump in a.flags && !player.god {
          assert Blocks(player, OnTheWay(attrs, std, player, missingName, flags));
          return Error;
        }
        if Cannot(player, a, true) {
          assert Blocks(player, OnTheWay(attrs, std, player, missingName, flags));
          return Error;
        }
        PassableStep(attrs, player, name, p, flags);
        p := NextTick(name, p + 1);
      }
      PassableEnd(attrs, player, name, flags);
      if count + numNew > limit { return TooMany; }
      return Okay;
    }

    lemma IsOnTheWay(l: seq<Attr>, player: Player, r: string, flags: set<Flag>, found: Option<Attr>)
      requires Lookup(l, r) == found
      ensures OnTheWay(l, std, player, r, flags) ==
              if found.Some? then found.value else Attr(r, DefaultFlags(std, r, flags), player.owner, "")
    {
    }

    /** No branch of the name that ends before `k` stands in the way of making it. */
    ghost predicate PassableTo(l: seq<Attr>, player: Player, n: string, k: nat, flags: set<Flag>) {
      forall r :: IsUnder(n, r) && |r| < k ==> !Blocks(player, OnTheWay(l, std, player, r, flags))
    }

    lemma PassableStart(l: seq<Attr>, player: Player, n: string, flags: set<Flag>)
      ensures PassableTo(l, player, n, NextTick(n, 0), flags) && Missing(l, n, NextTick(n, 0)) == 0
    {
      hide Blocks, OnTheWay;
      BelowNextTick(n, 0);
      MissingStays(l, n, 0, NextTick(n, 0));
    }

    lemma PassableStep(l: seq<Attr>, player: Player, n: string, p: nat, flags: set<Flag>)
      requires p < |n| && n[p] == TICK && PassableTo(l, player, n, p, flags)
      requires !Blocks(player, OnTheWay(l, std, player, n[..p], flags))
      ensures PassableTo(l, player, n, NextTick(n, p + 1), flags)
      ensures Missing(l, n, NextTick(n, p + 1)) == Missing(l, n, p) + if Lookup(l, n[..p]).None? then 1 else 0
    {
      hide Blocks, OnTheWay, NextTick, Lookup;
      BelowNextTick(n, p + 1);
      MissingStays(l, n, p + 1, NextTick(n, p + 1));
    }

    lemma PassableEnd(l: seq<Attr>, player: Player, n: string, flags: set<Flag>)
      requires PassableTo(l, player, n, |n|, flags)
      ensures forall r :: IsUnder(n, r) ==> !Blocks(player, OnTheWay(l, std, player, r, flags))
    {
    }

    /** Below a missing branch everything is missing. */
    lemma MissingBelow(l: seq<Attr>, n: string, q: string, r: string)
      requires Closed(l) && IsUnder(n, r) && IsUnder(n, q) && |q| < |r| && Lookup(l, q).None?
      ensures Lookup(l, r).None?
    {
      hide Lookup;
      UnderComparable(n, q, r);
    }

    lemma {:induction false} MissingStays(l: seq<Attr>, n: string, p: nat, q: nat)
      requires p <= q <= |n| && forall i :: p <= i < q ==> n[i] != TICK
      ensures Missing(l, n, q) == Missing(l, n, p)
      decreases q
    {
      if p < q { MissingStays(l, n, p, q - 1); }
    }

    /** Links a new attribute into the list, at its place. */
    method CreateAtr(name: string) returns (pos: nat)
      requires InOrder() && Lookup(attrs, name).None?
      modifies this
      ensures InOrder() && pos <= old(|attrs|) && attrs == Insert(old(attrs), pos, Attr(name, {}, 0, ""))
    {
      hide IsCollation, Lookup, Sorted, Before;
      var found;
      pos, found := FindAtrPos(name);
      var ptr := Attr(name, {}, 0, "");
      InsertSorted(coll, attrs, pos, ptr);
      attrs := Insert(attrs, pos, ptr);
      count := count + 1;
    }

    /** The new attribute with its fields filled in. */
    lemma {:induction false} InsertFilled(l: seq<Attr>, pos: nat, blank: Attr, a: Attr)
      requires IsCollation(coll) && pos <= |l| && Sorted(coll, Insert(l, pos, blank))
      requires Lookup(l, a.name).None? && blank.name == a.name
      ensures var c := Insert(l, pos, blank)[pos := a];
              Sorted(coll, c) && forall x :: Lookup(c, x) == if x == a.name then Some(a) else Lookup(l, x)
    {
      hide IsCollation, Lookup, Sorted;
      UpdateSorted(coll, Insert(l, pos, blank), pos, a);
      var c := Insert(l, pos, blank)[pos := a];
      assert c == Insert(l, pos, a);
      forall x ensures Lookup(c, x) == if x == a.name then Some(a) else Lookup(l, x) { InsertLookup(l, pos, a, x); }
    }

    /** `c` is `l` with the branches of `n` that end before `k` made. */
    ghost predicate Branching(l: seq<Attr>, c: seq<Attr>, player: Player, n: string, flags: set<Flag>, k: nat) {
      forall x ::
        (Lookup(c, x) ==
         if IsUnder(n, x) && |x| < k then Some(BranchMade(l, std, player, x, flags, Blank())) else Lookup(l, x))
    }

    lemma BranchingStart(l: seq<Attr>, player: Player, n: string, flags: set<Flag>)
      ensures Branching(l, l, player, n, flags, NextTick(n, 0)) && Missing(l, n, NextTick(n, 0)) == 0
    {
      hide BranchMade, Lookup, Missing;
      BelowNextTick(n, 0);
      MissingStays(l, n, 0, NextTick(n, 0));
      assert Missing(l, n, 0) == 0;
    }

    lemma {:induction false} BranchingStep(l: seq<Attr>, c: seq<Attr>, c': seq<Attr>, player: Player, n: string,
        flags: set<Flag>, p: nat)
      requires p < |n| && n[p] == TICK && Branching(l, c, player, n, flags, p)
      requires forall x ::
        (Lookup(c', x) ==
         if x == n[..p] then Some(BranchMade(l, std, player, n[..p], flags, Blank())) else Lookup(c, x))
      ensures Branching(l, c', player, n, flags, NextTick(n, p + 1))
      ensures Missing(l, n, NextTick(n, p + 1)) == Missing(l, n, p) + if Lookup(l, n[..p]).None? then 1 else 0
    {
      hide BranchMade, Lookup, NextTick;
      BelowNextTick(n, p + 1);
      MissingStays(l, n, p + 1, NextTick(n, p + 1));
    }

    lemma BranchingAt(l: seq<Attr>, c: seq<Attr>, player: Player, n: string, flags: set<Flag>, p: nat)
      requires p < |n| && Branching(l, c, player, n, flags, p)
      ensures Lookup(c, n[..p]) == Lookup(l, n[..p])
    {
    }

    lemma BranchingEnd(l: seq<Attr>, c: seq<Attr>, player: Player, n: string, flags: set<Flag>)
      requires Branching(l, c, player, n, flags, |n|)
      ensures forall x ::
        (Lookup(c, x) == if IsUnder(n, x) then Some(BranchMade(l, std, player, x, flags, Blank())) else Lookup(l, x))
    {
    }

    /** A search that starts behind shorter names finds the name wherever it is. */
    lemma SearchBehind(start: nat, n: string, found: Option<nat>)
      requires InOrder() && start <= |attrs| && forall k :: 0 <= k < start ==> |attrs[k].name| < |n|
      requires found.Some? ==> start <= found.value < |attrs| && attrs[found.value].name == n
      requires found.None? ==> forall k :: start <= k < |attrs| ==> attrs[k].name != n
      ensures Lookup(attrs, n) == if found.Some? then Some(attrs[found.value]) else None
    {
      hide Lookup, Sorted, IsCollation;
      if found.Some? { LookupAt(coll, attrs, found.value); } else { LookupNone(attrs, n); }
    }

    /** Makes the branches of a name that are missing and marks all of them as roots. */
    method MakeBranches(player: Player, atr: string, flags: set<Flag>)
      requires InOrder()
      modifies this
      ensures InOrder() && |attrs| == old(|attrs|) + Missing(old(attrs), atr, |atr|)
      ensures forall x ::
        (Lookup(attrs, x) ==
         if IsUnder(atr, x) then Some(BranchMade(old(attrs), std, player, x, flags, Blank()))
         else Lookup(old(attrs), x))
    {
      hide IsCollation, Lookup, Sorted, Branching, NextTick, Missing, DefaultFlags, IsUnder;
      ghost var l := attrs;
      var ptr: nat := 0;
      var p := NextTick(atr, 0);
      BranchingStart(l, player, atr, flags);
      while p < |atr|
        invariant InOrder() && p <= |atr| && (p < |atr| ==> atr[p] == TICK)
        invariant ptr <= |attrs| && forall k :: 0 <= k < ptr ==> |attrs[k].name| < p
        invariant Branching(l, attrs, player, atr, flags, p) && |attrs| == |l| + Missing(l, atr, p)
        decreases |atr| - p
      {
        ghost var c := attrs;
        ptr := MakeBranch(player, atr, flags, p, ptr, l);
        BranchingStep(l, c, attrs, player, atr, flags, p);
        p := NextTick(atr, p + 1);
      }
      BranchingEnd(l, attrs, player, atr, flags);
    }

    /** One branch of the name: searched from the old head of the list on, and made or marked. */
    method MakeBranch(player: Player, atr: string, flags: set<Flag>, p: nat, head: nat, ghost l: seq<Attr>)
      returns (ptr: nat)
      requires InOrder() && p < |atr| && head <= |attrs| && forall k :: 0 <= k < head ==> |attrs[k].name| < p
      requires Branching(l, attrs, player, atr, flags, p)
      modifies this
      ensures InOrder() && ptr <= |attrs| && forall k :: 0 <= k < ptr ==> |attrs[k].name| <= p
      ensures |attrs| == old(|attrs|) + if Lookup(l, atr[..p]).None? then 1 else 0
      ensures forall x ::
        (Lookup(attrs, x) ==
         if x == atr[..p] then Some(BranchMade(l, std, player, atr[..p], flags, Blank())) else old(Lookup(attrs, x)))
    {
      hide IsCollation, Lookup, Sorted, DefaultFlags, IsUnder, Branching;
      var missingName := atr[..p];
      BranchingAt(l, attrs, player, atr, flags, p);
      var root := FindAtrInList(head, missingName);
      SearchBehind(head, missingName, root);
      ptr := head;
      if root.None? {
        ghost var c := attrs;
        var pos := CreateAtr(missingName);
        var a := Attr(missingName, DefaultFlags(std, missingName, flags) - {Command, Listen} + {Root}, player.owner,
                      Blank());
        InsertFilled(c, pos, attrs[pos], a);
        attrs := attrs[pos := a];
        if pos <= ptr { ptr := ptr + 1; }
      } else {
        var a := attrs[root.value];
        UpdateAt(attrs, root.value, a.(flags := a.flags + {Root}));
        attrs := attrs[root.value := a.(flags := a.flags + {Root})];
      }
    }

    /** Sets an attribute, which is made if it is not there; an empty value may stand for clearing it. */
    method AtrAdd(atr: string, s: Option<string>, player: Player, flags: set<Flag>, limit: nat) returns (code: Code)
      requires Valid()
      modifies this
      ensures Valid()
      ensures s.None? || (!emptyAttrs && s.value == "") ==>
        code == ClearCode(old(attrs), player, atr, false) && Cleared(old(attrs), attrs, player, atr, false) &&
        |attrs| <= old(|attrs|) && (RootsExact(old(attrs)) ==> RootsExact(attrs)) &&
        (code == NotFound <==> Lookup(old(attrs), atr).None?) &&
        (if code == Okay then Lookup(attrs, atr).None? else attrs == old(attrs))
      ensures !(s.None? || (!emptyAttrs && s.value == "")) ==>
        code == AddCode(old(attrs), std, chars, player, atr, flags, limit) &&
        (code != Okay ==> attrs == old(attrs)) &&
        (code == Okay ==> Added(old(attrs), attrs, std, player, atr, flags, s.value, Blank())) &&
        |attrs| <= (if old(|attrs|) <= limit then limit else old(|attrs|)) &&
        (RootsExact(old(attrs)) ==>
          (RootsExact(attrs) <==>
            !(code == Okay && Lookup(old(attrs), atr).None? && Root in DefaultFlags(std, atr, flags))))
      ensures !(s.None? || (!emptyAttrs && s.value == "")) ==>
        (code == BadName <==> !GoodName(chars, atr)) &&
        (code == IsSafe <==>
           GoodName(chars, atr) && Lookup(old(attrs), atr).Some? && Safe in Lookup(old(attrs), atr).value.flags) &&
        (GoodName(chars, atr) && Lookup(old(attrs), atr).Some? && Safe !in Lookup(old(attrs), atr).value.flags ==>
           code == if exists r :: (r == atr || IsUnder(atr, r)) && Lookup(old(attrs), r).Some? &&
                                  Cannot(player, Lookup(old(attrs), r).value, true) then Error else Okay) &&
        (GoodName(chars, atr) && Lookup(old(attrs), atr).None? ==>
           code == if Cannot(player, Attr(atr, DefaultFlags(std, atr, flags), player.id, ""), true) ||
                      exists r :: IsUnder(atr, r) &&
                        match Lookup(old(attrs), r)
                        case Some(a) => (NoDump in a.flags && !player.god) || Cannot(player, a, true)
                        case None =>
                          (NoDump in DefaultFlags(std, r, flags) && !player.god) ||
                          Cannot(player, Attr(r, DefaultFlags(std, r, flags), player.owner, ""), true) then Error
                   else if |old(attrs)| + 1 + |MissingAt(old(attrs), atr, |atr|)| > limit then TooMany
                   else Okay)
      ensures !(s.None? || (!emptyAttrs && s.value == "")) && code == Okay ==>
        Lookup(attrs, atr).Some? &&
        Lookup(attrs, atr).value.value == s.value && Lookup(attrs, atr).value.creator == player.owner &&
        (Command in Lookup(attrs, atr).value.flags <==> s.value != "" && s.value[0] == '$') &&
        (Listen in Lookup(attrs, atr).value.flags <==> s.value != "" && s.value[0] == '^') &&
        (forall f :: f != Command && f != Listen ==>
           (f in Lookup(attrs, atr).value.flags <==>
            if Lookup(old(attrs), atr).Some? then f in Lookup(old(attrs), atr).value.flags
            else f in flags || (atr in std && f in std[atr]))) &&
        (forall r :: IsUnder(atr, r) && Lookup(old(attrs), atr).None? ==>
           Lookup(attrs, r).Some? && Root in Lookup(attrs, r).value.flags &&
           (Lookup(old(attrs), r).Some? ==>
              Lookup(attrs, r).value ==
              Lookup(old(attrs), r).value.(flags := Lookup(old(attrs), r).value.flags + {Root})) &&
           (Lookup(old(attrs), r).None? ==>
              Lookup(attrs, r).value.creator == player.owner &&
              Lookup(attrs, r).value.value == (if emptyAttrs then "" else " ") &&
              forall f :: f in Lookup(attrs, r).value.flags <==>
                          f == Root || (f != Command && f != Listen && (f in flags || (r in std && f in std[r]))))) &&
        (forall x :: x != atr && !(IsUnder(atr, x) && Lookup(old(attrs), atr).None?) ==>
           Lookup(attrs, x) == Lookup(old(attrs), x))
    {
      hide IsCollation, Lookup, Sorted, RootsExact, Closed, RootsMarked, Writable, Cleared, ClearCode, Added, GoodName,
           ValueSet, BranchMade, IsUnder, CreateCode, DefaultFlags, Cannot;
      if s.None? || (!emptyAttrs && s.value == "") {
        code := AtrClr(atr, player);
        return;
      }
      ghost var l := attrs;
      AddCodeMeans(l, std, chars, player, atr, flags, limit);
      if !GoodName(chars, atr) { return BadName; }
      var ptr := FindAtrInList(0, atr);
      SearchBehind(0, atr, ptr);
      if ptr.Some? {
        if Safe in attrs[ptr.value].flags { return IsSafe; }
        var can := CanWriteAttr(player, ptr.value, true);
        if !can { return Error; }
        ChangeValue(player, ptr.value, s.value, flags);
      } else {
        code := CanCreateAttr(player, atr, flags, limit);
        if code != Okay { return; }
        MakeNew(player, atr, s.value, flags);
        CreateFits(l, player, atr, flags, limit);
      }
      code := Okay;
      AddedMeans(l, attrs, std, player, atr, flags, s.value, Blank());
      AddedTree(l, attrs, std, player, atr, flags, s.value, Blank());
      if RootsExact(l) { AddedExact(l, attrs, std, player, atr, flags, s.value, Blank()); }
    }

    lemma CreateFits(l: seq<Attr>, player: Player, atr: string, flags: set<Flag>, limit: nat)
      requires CreateCode(l, std, player, atr, flags, limit) == Okay
      ensures |l| + 1 + Missing(l, atr, |atr|) <= limit
    {
    }

    /** Gives the attribute at `k` its value, its owner and the marks of its kind. */
    method ChangeValue(player: Player, k: nat, s: string, flags: set<Flag>)
      requires InOrder() && k < |attrs|
      modifies this
      ensures InOrder() && |attrs| == old(|attrs|)
      ensures Added(old(attrs), attrs, std, player, old(attrs[k].name), flags, s, Blank())
    {
      hide IsCollation, Lookup, Sorted;
      var a := attrs[k];
      LookupAt(coll, attrs, k);
      var b := Attr(a.name, a.flags - {Command, Listen} + Kind(s), player.owner, s);
      UpdateAt(attrs, k, b);
      attrs := attrs[k := b];
    }

    /** Makes the missing branches, the attribute, and gives it its value. */
    method MakeNew(player: Player, atr: string, s: string, flags: set<Flag>)
      requires InOrder() && Lookup(attrs, atr).None?
      modifies this
      ensures InOrder() && |attrs| == old(|attrs|) + 1 + Missing(old(attrs), atr, |atr|)
      ensures Added(old(attrs), attrs, std, player, atr, flags, s, Blank())
    {
      hide IsCollation, Lookup, Sorted, DefaultFlags, BranchMade, Missing;
      MakeBranches(player, atr, flags);
      ghost var c := attrs;
      assert Lookup(c, atr).None?;
      var pos := CreateAtr(atr);
      var a := Attr(atr, DefaultFlags(std, atr, flags), 0, "");
      var b := Attr(atr, a.flags - {Command, Listen} + Kind(s), player.owner, s);
      ghost var ins := attrs;
      InsertFilled(c, pos, ins[pos], b);
      attrs := attrs[pos := a];
      attrs := attrs[pos := b];
      assert attrs == ins[pos := b];
    }

    // ----- runs -----

    /** Carries out a list of calls. */
    method Perform(ops: seq<Op>, limit: nat)
      requires Valid() && RootsExact(attrs) && |attrs| <= limit
      requires forall o <- ops :: o.Add? ==> o.limit <= limit && Root !in DefaultFlags(std, o.name, o.flags)
      modifies this
      ensures Valid() && RootsExact(attrs) && count == |attrs| <= limit
    {
      hide IsCollation, Lookup, Sorted, RootsExact, Closed, RootsMarked, Cleared, ClearCode, Added, AddCode;
      for i := 0 to |ops|
        invariant Valid() && RootsExact(attrs) && |attrs| <= limit
      {
        var code;
        match ops[i] {
          case Add(player, name, value, flags, max) =>
            assert ops[i] in ops;
            code := AtrAdd(name, value, player, flags, max);
          case Clear(player, name) =>
            code := AtrClr(name, player);
          case Wipe(player, name) =>
            code := WipeAtr(name, player);
        }
      }
    }
  }
}

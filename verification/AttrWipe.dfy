/**
 Wiping is exact, and keeps the tree in shape.
 */
module AttrWipe {
  import opened Basics
  import opened AttrNames
  import opened AttrList
  import opened AttrRules

  lemma InDoomed(l: seq<Attr>, p: Player, root: string, x: string)
    ensures x in Doomed(l, p, root) <==> Lookup(l, x).Some? && IsUnder(x, root) && !Survives(l, p, x)
  {
  }

  /** What goes, goes with everything under it. */
  lemma DoomedDown(l: seq<Attr>, p: Player, root: string, m: string, x: string)
    requires m in Doomed(l, p, root) && Lookup(l, x).Some? && IsUnder(x, m)
    ensures x in Doomed(l, p, root)
  {
    hide Lookup, IsUnder, Survives, Doomed;
    InDoomed(l, p, root, m);
    InDoomed(l, p, root, x);
    UnderTransitive(x, m, root);
    if Survives(l, p, x) { SurvivesUp(l, p, x, m); }
  }

  /** A list from which all that is under a branch and does not survive was taken. */
  ghost predicate Pruned(l: seq<Attr>, r: set<string>, p: Player, n: string) {
    r == Doomed(l, p, n) || (r == Doomed(l, p, n) + {n} && !Remains(l, p, n))
  }

  lemma {:induction false} PrunedTree(l: seq<Attr>, r: set<string>, p: Player, n: string)
    requires Closed(l) && RootsMarked(l) && Pruned(l, r, p, n)
    ensures Closed(Without(l, r)) && RootsMarked(Without(l, r))
  {
    hide Lookup, IsUnder, Survives, Doomed, Without;
    var l' := Without(l, r);
    forall x ensures Lookup(l', x) == if x in r then None else Lookup(l, x) {
      WithoutLookup(l, r, x);
    }
    forall x, q | Lookup(l', x).Some? && IsUnder(x, q) ensures Lookup(l', q).Some? {
      if q in Doomed(l, p, n) {
        DoomedDown(l, p, n, q, x);
      } else if q in r {
        InDoomed(l, p, n, x);
      }
    }
    forall q | Lookup(l', q).Some? && HasUnder(l', q) ensures Root in Lookup(l', q).value.flags {
      var m :| Lookup(l', m).Some? && IsUnder(m, q);
      assert HasUnder(l, q);
    }
  }

  lemma SettledTree(l: seq<Attr>, l': seq<Attr>, n: string)
    requires Closed(l) && RootsMarked(l) && ParentSettled(l, l', n)
    ensures Closed(l') && RootsMarked(l') && forall q :: HasUnder(l', q) <==> HasUnder(l, q)
  {
  }

  /** Clearing and wiping keep every branch present and every root marked. */
  lemma {:induction false} ClearedTree(l: seq<Attr>, l': seq<Attr>, p: Player, n: string, wiping: bool)
    requires Cleared(l, l', p, n, wiping) && Closed(l) && RootsMarked(l)
    ensures Closed(l') && RootsMarked(l')
  {
    hide Closed, RootsMarked, Without, Doomed, ParentSettled, Lookup, Remains, Writable;
    match ClearCode(l, p, n, wiping) {
      case Okay =>
        PrunedTree(l, Doomed(l, p, n) + {n}, p, n);
        SettledTree(Without(l, Doomed(l, p, n) + {n}), l', n);
      case Tree =>
        PrunedTree(l, Doomed(l, p, n), p, n);
      case _ =>
    }
  }

  /** Something under a surviving branch survives with it. */
  lemma SurvivorUnder(l: seq<Attr>, p: Player, q: string, m: string) returns (x: string)
    requires Survives(l, p, q) && Lookup(l, m).Some? && IsUnder(m, q)
    ensures Lookup(l, x).Some? && IsUnder(x, q) && Survives(l, p, x)
  {
    hide Lookup, IsUnder, Writable;
    x :| (x == q || IsUnder(x, q)) && Lookup(l, x).Some? && !Writable(l, p, x, true);
    if x == q {
      UnwritableDown(l, p, m, q);
      x := m;
    }
  }

  /** Where a wipe leaves a survivor, a branch that had something under it still has. */
  lemma StillUnder(l: seq<Attr>, p: Player, n: string, q: string)
    requires Closed(l) && Remains(l, p, n)
    requires var l' := Without(l, Doomed(l, p, n)); Lookup(l', q).Some?
    requires HasUnder(l, q)
    ensures HasUnder(Without(l, Doomed(l, p, n)), q)
  {
    hide Lookup, Survives, Doomed, Without;
    var r := Doomed(l, p, n);
    var l' := Without(l, r);
    forall x ensures Lookup(l', x) == if x in r then None else Lookup(l, x) {
      WithoutLookup(l, r, x);
      InDoomed(l, p, n, x);
    }
    forall x ensures x in r <==> Lookup(l, x).Some? && IsUnder(x, n) && !Survives(l, p, x) { InDoomed(l, p, n, x); }
    var m :| Lookup(l, m).Some? && IsUnder(m, q);
    if m in r && q != n {
      if |q| < |n| {
        UnderComparable(m, q, n);
        assert Lookup(l', n).Some?;
      } else {
        if |n| < |q| { UnderComparable(m, n, q); }
        var x := SurvivorUnder(l, p, q, m);
        UnderTransitive(x, q, n);
        assert Lookup(l', x).Some?;
      }
    }
  }

  /** Where a wipe takes the branch too, only the branch right above it can have lost its last leaf. */
  lemma StillUnderOthers(l: seq<Attr>, p: Player, n: string, q: string)
    requires Closed(l) && Lookup(l, n).Some? && !Remains(l, p, n)
    requires Lookup(Without(l, Doomed(l, p, n) + {n}), q).Some? && HasUnder(l, q)
    requires !IsParent(q, n)
    ensures HasUnder(Without(l, Doomed(l, p, n) + {n}), q)
  {
    hide Lookup, Survives, Doomed, Without, LastTick;
    var r := Doomed(l, p, n) + {n};
    var l' := Without(l, r);
    forall x ensures Lookup(l', x) == if x in r then None else Lookup(l, x) { WithoutLookup(l, r, x); }
    forall x ensures x in Doomed(l, p, n) <==> Lookup(l, x).Some? && IsUnder(x, n) && !Survives(l, p, x) {
      InDoomed(l, p, n, x);
    }
    var m :| Lookup(l, m).Some? && IsUnder(m, q);
    if m in r {
      if m != n {
        if |q| < |n| { UnderComparable(m, q, n); }
        else if |n| < |q| { UnderComparable(m, n, q); }
      }
      assert IsUnder(n, q);
      ParentNearest(n, q);
      assert Lookup(l', n[..LastTick(n)]).Some?;
    }
  }

  lemma ExactIsMarked(l: seq<Attr>)
    requires RootsExact(l)
    ensures RootsMarked(l)
  {
  }

  lemma {:induction false} ExactWithRest(l: seq<Attr>, p: Player, n: string)
    requires Closed(l) && RootsExact(l) && Remains(l, p, n)
    ensures RootsExact(Without(l, Doomed(l, p, n)))
  {
    hide Lookup, IsUnder, Survives, Doomed, Without, Closed, HasUnder, RootsMarked, Remains;
    var l' := Without(l, Doomed(l, p, n));
    ExactIsMarked(l);
    PrunedTree(l, Doomed(l, p, n), p, n);
    ExactByMarks(l', l');
    forall q | Lookup(l', q).Some? && Root in Lookup(l', q).value.flags ensures HasUnder(l', q) {
      WithoutLookup(l, Doomed(l, p, n), q);
      StillUnder(l, p, n, q);
    }
  }

  lemma ExactByMarks(l: seq<Attr>, l': seq<Attr>)
    requires RootsMarked(l)
    ensures RootsExact(l) <==> forall q :: Lookup(l, q).Some? && Root in Lookup(l, q).value.flags ==> HasUnder(l, q)
  {
  }

  lemma {:induction false} ExactWithoutBranch(l: seq<Attr>, l': seq<Attr>, p: Player, n: string)
    requires Closed(l) && RootsExact(l) && Lookup(l, n).Some? && !Remains(l, p, n)
    requires ParentSettled(Without(l, Doomed(l, p, n) + {n}), l', n)
    ensures RootsExact(l')
  {
    hide Lookup, IsUnder, Survives, Doomed, Without, Closed, HasUnder, RootsMarked, Remains, LastTick;
    var r := Doomed(l, p, n) + {n};
    var l1 := Without(l, r);
    ExactIsMarked(l);
    PrunedTree(l, r, p, n);
    SettledTree(l1, l', n);
    ExactByMarks(l', l');
    forall q | Lookup(l', q).Some? && Root in Lookup(l', q).value.flags ensures HasUnder(l', q) {
      WithoutLookup(l, r, q);
      if !IsParent(q, n) { StillUnderOthers(l, p, n, q); }
    }
  }

  /** Clearing and wiping keep the marks exact. */
  lemma ClearedExact(l: seq<Attr>, l': seq<Attr>, p: Player, n: string, wiping: bool)
    requires Cleared(l, l', p, n, wiping) && Closed(l) && RootsExact(l)
    ensures RootsExact(l')
  {
    hide Closed, RootsExact, Without, Doomed, ParentSettled, Lookup, Remains, Writable;
    match ClearCode(l, p, n, wiping) {
      case Okay =>
        ExactWithoutBranch(l, l', p, n);
      case Tree =>
        if wiping { ExactWithRest(l, p, n); }
      case _ =>
    }
  }

  // ----- clearing and wiping in terms of the list -----

  /** Under a branch that may be written, something survives with what keeps the player from writing: at it, under it
      or between it and the branch. */
  lemma SurvivesMeans(l: seq<Attr>, p: Player, n: string, x: string)
    requires Closed(l) && Lookup(l, x).Some? && IsUnder(x, n)
    requires !exists r :: (r == n || IsUnder(n, r)) && Lookup(l, r).Some? && Cannot(p, Lookup(l, r).value, true)
    ensures Survives(l, p, x) <==>
            exists b :: IsUnder(b, n) && (b == x || IsUnder(b, x) || IsUnder(x, b)) && Lookup(l, b).Some? &&
                        Cannot(p, Lookup(l, b).value, true)
  {
    hide Lookup, Cannot, IsUnder, Writable, Closed;
    if Survives(l, p, x) {
      var m :| (m == x || IsUnder(m, x)) && Lookup(l, m).Some? && !Writable(l, p, m, true);
      WritableMeans(l, p, m);
      var b :| (b == m || IsUnder(m, b)) && Lookup(l, b).Some? && Cannot(p, Lookup(l, b).value, true);
      OnOneLine(x, m, b, n);
    }
    if b :| IsUnder(b, n) && (b == x || IsUnder(b, x) || IsUnder(x, b)) && Lookup(l, b).Some? &&
            Cannot(p, Lookup(l, b).value, true) {
      var m := if IsUnder(b, x) then b else x;
      WritableMeans(l, p, m);
    }
  }

  /** Names on the way to one name. */
  lemma OnOneLine(x: string, m: string, b: string, n: string)
    requires IsUnder(x, n) && (m == x || IsUnder(m, x)) && (b == m || IsUnder(m, b))
    ensures b == x || IsUnder(b, x) || IsUnder(x, b)
    ensures b == n || IsUnder(b, n) || IsUnder(n, b)
  {
  }

  lemma RemainsMeans(l: seq<Attr>, p: Player, n: string)
    requires Closed(l)
    requires !exists r :: (r == n || IsUnder(n, r)) && Lookup(l, r).Some? && Cannot(p, Lookup(l, r).value, true)
    ensures Remains(l, p, n) <==>
            exists b :: IsUnder(b, n) && Lookup(l, b).Some? && Cannot(p, Lookup(l, b).value, true)
  {
    hide Lookup, Cannot, IsUnder, Survives, Closed;
    if Remains(l, p, n) {
      var m :| IsUnder(m, n) && Lookup(l, m).Some? && Survives(l, p, m);
      SurvivesMeans(l, p, n, m);
    }
    if b :| IsUnder(b, n) && Lookup(l, b).Some? && Cannot(p, Lookup(l, b).value, true) {
      SurvivesMeans(l, p, n, b);
    }
  }

  /** When a call to clear or to wipe is refused, and when it finds a tree. */
  lemma ClearCodeMeans(l: seq<Attr>, p: Player, n: string, wiping: bool)
    requires Closed(l)
    ensures var code := ClearCode(l, p, n, wiping);
            (code == NotFound <==> Lookup(l, n).None?) &&
            (code == IsSafe <==> Lookup(l, n).Some? && Safe in Lookup(l, n).value.flags) &&
            (code == Error <==>
               Lookup(l, n).Some? && Safe !in Lookup(l, n).value.flags &&
               exists r :: (r == n || IsUnder(n, r)) && Lookup(l, r).Some? && Cannot(p, Lookup(l, r).value, true)) &&
            (code !in {NotFound, IsSafe, Error} && !wiping ==>
               code == if Root in Lookup(l, n).value.flags || Remains(l, p, n) then Tree else Okay) &&
            (code !in {NotFound, IsSafe, Error} && wiping ==>
               code == if exists b :: IsUnder(b, n) && Lookup(l, b).Some? && Cannot(p, Lookup(l, b).value, true)
                       then Tree else Okay)
  {
    hide Lookup, Cannot, IsUnder, Remains, Writable, Closed;
    if Lookup(l, n).Some? && Safe !in Lookup(l, n).value.flags {
      WritableMeans(l, p, n);
      if Writable(l, p, n, true) { RemainsMeans(l, p, n); }
    }
  }

  /** Who is stopped: God by nothing; anybody else by an internal or a safe attribute, at the name or above it; and who
      is no wizard by one for wizards and by one that somebody else has locked. */
  lemma ClearRefused(l: seq<Attr>, p: Player, n: string, wiping: bool)
    requires Closed(l) && Lookup(l, n).Some? && Safe !in Lookup(l, n).value.flags
    ensures ClearCode(l, p, n, wiping) == Error <==>
            !p.god &&
            exists r :: (r == n || IsUnder(n, r)) && Lookup(l, r).Some? &&
                        (var a := Lookup(l, r).value;
                         Internal in a.flags || Safe in a.flags ||
                         (!p.wizard && (Wizard in a.flags || (Locked in a.flags && a.creator != p.owner))))
  {
    hide Lookup, IsUnder, Writable;
    ClearCodeMeans(l, p, n, wiping);
  }

  /** What a wipe leaves that nothing at the branch or above it forbids: under the branch what keeps the player from
      writing, with what is above and under that; the branch itself as long as there is such a thing; and everything
      else as it was, but for the mark of a branch above that has nothing under it any more. */
  lemma {:induction false} WipeExact(l: seq<Attr>, l': seq<Attr>, p: Player, n: string, x: string)
    requires Cleared(l, l', p, n, true) && Closed(l) && Lookup(l, n).Some? && Safe !in Lookup(l, n).value.flags
    requires !exists r :: (r == n || IsUnder(n, r)) && Lookup(l, r).Some? && Cannot(p, Lookup(l, r).value, true)
    ensures IsUnder(x, n) ==>
      Lookup(l', x) == if exists b :: IsUnder(b, n) && (b == x || IsUnder(b, x) || IsUnder(x, b)) &&
                                      Lookup(l, b).Some? && Cannot(p, Lookup(l, b).value, true)
                       then Lookup(l, x) else None
    ensures x == n ==>
      Lookup(l', x) == if exists b :: IsUnder(b, n) && Lookup(l, b).Some? && Cannot(p, Lookup(l, b).value, true)
                       then Lookup(l, x) else None
    ensures x != n && !IsUnder(x, n) ==>
      Lookup(l', x) == if IsUnder(n, x) && Lookup(l, x).Some? && !exists m :: IsUnder(m, x) && Lookup(l', m).Some?
                       then Some(Lookup(l, x).value.(flags := Lookup(l, x).value.flags - {Root})) else Lookup(l, x)
  {
    hide Survives, Doomed, Without, Closed, ParentSettled, Lookup, IsUnder, Cannot, Remains;
    ClearCodeMeans(l, p, n, true);
    RemainsMeans(l, p, n);
    if Lookup(l, x).Some? && IsUnder(x, n) { SurvivesMeans(l, p, n, x); }
    if Remains(l, p, n) {
      WithoutLookup(l, Doomed(l, p, n), x);
      InDoomed(l, p, n, x);
      if IsUnder(n, x) { StillAbove(l, p, n, x); }
    } else {
      ClearedBranch(l, l', p, n, x);
    }
  }

  /** What clearing an attribute that is no branch leaves: everything else as it was, but for the mark of a branch above
      that has nothing under it any more. */
  lemma {:induction false} ClearExact(l: seq<Attr>, l': seq<Attr>, p: Player, n: string, x: string)
    requires Cleared(l, l', p, n, false) && Closed(l) && RootsMarked(l)
    requires Lookup(l, n).Some? && Safe !in Lookup(l, n).value.flags && Root !in Lookup(l, n).value.flags
    requires !exists r :: (r == n || IsUnder(n, r)) && Lookup(l, r).Some? && Cannot(p, Lookup(l, r).value, true)
    ensures Lookup(l', x) ==
            if x == n then None
            else if IsUnder(n, x) && Lookup(l, x).Some? && !exists m :: IsUnder(m, x) && Lookup(l', m).Some?
            then Some(Lookup(l, x).value.(flags := Lookup(l, x).value.flags - {Root})) else Lookup(l, x)
  {
    hide Survives, Doomed, Without, Closed, ParentSettled, Lookup, IsUnder, Cannot;
    ClearCodeMeans(l, p, n, false);
    assert !HasUnder(l, n);
    ClearedBranch(l, l', p, n, x);
  }

  /** Where a call to clear or to wipe succeeds, nothing at the name or under it is left. */
  lemma ClearedAway(l: seq<Attr>, l': seq<Attr>, p: Player, n: string, wiping: bool)
    requires Cleared(l, l', p, n, wiping) && Closed(l) && ClearCode(l, p, n, wiping) == Okay
    ensures forall x :: x == n || IsUnder(x, n) ==> Lookup(l', x).None?
  {
    hide Survives, Doomed, Without, Closed, ParentSettled, Lookup, Writable, IsUnder;
    forall x | x == n || IsUnder(x, n) ensures Lookup(l', x).None? {
      ClearedBranch(l, l', p, n, x);
    }
  }

  /** Where a wipe leaves something, the branches above still have the branch under them. */
  lemma StillAbove(l: seq<Attr>, p: Player, n: string, x: string)
    requires IsUnder(n, x) && Lookup(l, n).Some?
    ensures HasUnder(Without(l, Doomed(l, p, n)), x)
  {
    hide Survives, Doomed, Without, Lookup;
    WithoutLookup(l, Doomed(l, p, n), n);
    InDoomed(l, p, n, n);
  }

  /** What is there when the branch went with what was under it. */
  lemma ClearedBranch(l: seq<Attr>, l': seq<Attr>, p: Player, n: string, x: string)
    requires Closed(l) && Lookup(l, n).Some? && !Remains(l, p, n)
    requires ParentSettled(Without(l, Doomed(l, p, n) + {n}), l', n)
    ensures Lookup(l', x) ==
            if x == n || (IsUnder(x, n) && (Lookup(l, x).Some? ==> !Survives(l, p, x))) then None
            else if IsUnder(n, x) && Lookup(l, x).Some? && !HasUnder(l', x) then Some(Unmarked(Lookup(l, x).value))
            else Lookup(l, x)
  {
    hide Survives, Doomed, Without, Lookup, LastTick, Closed, ParentSettled, Remains, HasUnder;
    var r := Doomed(l, p, n) + {n};
    var c := Without(l, r);
    assert Lookup(c, x) == if x in r then None else Lookup(l, x) by { WithoutLookup(l, r, x); }
    InDoomed(l, p, n, x);
    SettledAt(c, l', n, x);
    ParentIsBranch(n, x);
    if IsUnder(n, x) && !IsParent(x, n) { ParentStays(l, p, n, x); }
  }

  lemma ParentIsBranch(n: string, x: string)
    ensures IsParent(x, n) ==> IsUnder(n, x)
    ensures IsUnder(n, x) ==> n != x && !IsUnder(x, n)
  {
  }

  /** The branch right above what went is still there, under every other branch. */
  lemma ParentStays(l: seq<Attr>, p: Player, n: string, x: string)
    requires Closed(l) && Lookup(l, n).Some? && IsUnder(n, x) && !IsParent(x, n)
    ensures HasUnder(Without(l, Doomed(l, p, n) + {n}), x)
  {
    hide Survives, Doomed, Without, Lookup, LastTick;
    ParentNearest(n, x);
    var q := n[..LastTick(n)];
    WithoutLookup(l, Doomed(l, p, n) + {n}, q);
    InDoomed(l, p, n, q);
  }

  lemma SettledAt(c: seq<Attr>, l': seq<Attr>, n: string, x: string)
    requires ParentSettled(c, l', n)
    ensures Lookup(l', x) == if IsParent(x, n) && Lookup(c, x).Some? && !HasUnder(c, x)
                             then Some(Unmarked(Lookup(c, x).value)) else Lookup(c, x)
    ensures HasUnder(l', x) <==> HasUnder(c, x)
  {
  }
}

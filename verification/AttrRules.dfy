/**
 What adding, clearing and wiping do to an attribute list, stated by what each name then holds, and the
 shape of the tree that every one of them keeps.
 */
module AttrRules {
  import opened Basics
  import opened AttrNames
  import opened AttrList

  datatype Code = Okay | Error | IsSafe | BadName | TooMany | Tree | NotFound

  const ATTRIBUTE_NAME_LIMIT := 1024

  /** The attributes everybody knows: the flags that a new attribute of that name gets. */
  type Standard = map<string, set<Flag>>

  function DefaultFlags(std: Standard, n: string, flags: set<Flag>): set<Flag> {
    (if n in std then std[n] else {}) + flags
  }

  predicate GoodName(chars: set<char>, n: string) {
    n != "" && n[0] != TICK && n[|n| - 1] != TICK && |n| <= ATTRIBUTE_NAME_LIMIT &&
    (forall i :: 0 <= i < |n| ==> n[i] in chars) &&
    (forall i :: 0 <= i < |n| - 1 ==> !(n[i] == TICK && n[i + 1] == TICK))
  }

  /** A good name is made of good characters and has no empty branch. */
  lemma GoodNameMeans(chars: set<char>, n: string)
    ensures GoodName(chars, n) <==> |n| <= 1024 && "" !in Split(n) && forall c :: c in n ==> c in chars
  {
    NoEmptyBranch(n);
  }

  // ----- adding -----

  /** A branch as it is or would be made on the way to a new attribute. */
  function OnTheWay(l: seq<Attr>, std: Standard, p: Player, r: string, flags: set<Flag>): Attr {
    Lookup(l, r).GetOr(Attr(r, DefaultFlags(std, r, flags), p.owner, ""))
  }

  predicate Blocks(p: Player, a: Attr) {
    (NoDump in a.flags && !p.god) || Cannot(p, a, true)
  }

  /** How many branches of the name, below position `k`, are missing. */
  function Missing(l: seq<Attr>, n: string, k: nat): (m: nat)
    requires k <= |n|
    ensures m <= k
  {
    if k == 0 then 0
    else Missing(l, n, k - 1) + if n[k - 1] == TICK && Lookup(l, n[..k - 1]).None? then 1 else 0
  }

  ghost function CreateCode(l: seq<Attr>, std: Standard, p: Player, n: string, flags: set<Flag>, limit: nat): Code {
    if Cannot(p, Attr(n, DefaultFlags(std, n, flags), p.id, ""), true) then Error
    else if exists r :: IsUnder(n, r) && Blocks(p, OnTheWay(l, std, p, r, flags)) then Error
    else if |l| + 1 + Missing(l, n, |n|) > limit then TooMany
    else Okay
  }

  ghost function AddCode(l: seq<Attr>, std: Standard, chars: set<char>, p: Player, n: string, flags: set<Flag>,
                         limit: nat): Code {
    if !GoodName(chars, n) then BadName
    else
      match Lookup(l, n)
      case Some(a) =>
        if Safe in a.flags then IsSafe else if !Writable(l, p, n, true) then Error else Okay
      case None => CreateCode(l, std, p, n, flags, limit)
  }

  /** The flags that tell what kind of command a value is. */
  function Kind(s: string): set<Flag> {
    (if s != "" && s[0] == '$' then {Command} else {}) + if s != "" && s[0] == '^' then {Listen} else {}
  }

  /** A branch after something was made under it. */
  function BranchMade(l: seq<Attr>, std: Standard, p: Player, r: string, flags: set<Flag>, blank: string): Attr {
    match Lookup(l, r)
    case Some(a) => a.(flags := a.flags + {Root})
    case None => Attr(r, DefaultFlags(std, r, flags) - {Command, Listen} + {Root}, p.owner, blank)
  }

  function ValueSet(l: seq<Attr>, std: Standard, p: Player, n: string, flags: set<Flag>, s: string): Attr {
    var before := match Lookup(l, n) case Some(a) => a.flags case None => DefaultFlags(std, n, flags);
    Attr(n, before - {Command, Listen} + Kind(s), p.owner, s)
  }

  /** `l'` is `l` after the attribute `n` was given the value `s`. */
  ghost predicate Added(l: seq<Attr>, l': seq<Attr>, std: Standard, p: Player, n: string, flags: set<Flag>,
                        s: string, blank: string) {
    forall x ::
      (Lookup(l', x) ==
       if x == n then Some(ValueSet(l, std, p, n, flags, s))
       else if IsUnder(n, x) && Lookup(l, n).None? then Some(BranchMade(l, std, p, x, flags, blank))
       else Lookup(l, x))
  }

  // ----- adding in terms of the list -----

  /** Where the missing branches of a name end, below position `k`. */
  function MissingAt(l: seq<Attr>, n: string, k: nat): set<nat>
    requires k <= |n|
  {
    set i: nat | i < k && n[i] == TICK && Lookup(l, n[..i]).None?
  }

  lemma {:induction false} MissingCounts(l: seq<Attr>, n: string, k: nat)
    requires k <= |n|
    ensures Missing(l, n, k) == |MissingAt(l, n, k)|
  {
    hide Lookup, Missing;
    MissingNext(l, n, k);
    if k == 0 {
      assert MissingAt(l, n, k) == {};
    } else {
      MissingCounts(l, n, k - 1);
      var before := MissingAt(l, n, k - 1);
      if n[k - 1] == TICK && Lookup(l, n[..k - 1]).None? {
        assert MissingAt(l, n, k) == before + {k - 1} && k - 1 !in before;
      } else {
        assert MissingAt(l, n, k) == before;
      }
    }
  }

  lemma MissingNext(l: seq<Attr>, n: string, k: nat)
    requires k <= |n|
    ensures Missing(l, n, k) ==
            if k == 0 then 0
            else Missing(l, n, k - 1) + if n[k - 1] == TICK && Lookup(l, n[..k - 1]).None? then 1 else 0
  {
  }

  /** When a call to add something is refused. */
  lemma AddCodeMeans(l: seq<Attr>, std: Standard, chars: set<char>, p: Player, n: string, flags: set<Flag>, limit: nat)
    requires Closed(l)
    ensures var code := AddCode(l, std, chars, p, n, flags, limit);
            (code == BadName <==> !GoodName(chars, n)) &&
            (code == IsSafe <==>
               GoodName(chars, n) && Lookup(l, n).Some? && Safe in Lookup(l, n).value.flags) &&
            (GoodName(chars, n) && Lookup(l, n).Some? && Safe !in Lookup(l, n).value.flags ==>
               code == if exists r :: (r == n || IsUnder(n, r)) && Lookup(l, r).Some? &&
                                      Cannot(p, Lookup(l, r).value, true) then Error else Okay) &&
            (GoodName(chars, n) && Lookup(l, n).None? ==>
               code == if Cannot(p, Attr(n, DefaultFlags(std, n, flags), p.id, ""), true) ||
                          exists r :: IsUnder(n, r) &&
                            match Lookup(l, r)
                            case Some(a) => (NoDump in a.flags && !p.god) || Cannot(p, a, true)
                            case None =>
                              (NoDump in DefaultFlags(std, r, flags) && !p.god) ||
                              Cannot(p, Attr(r, DefaultFlags(std, r, flags), p.owner, ""), true) then Error
                       else if |l| + 1 + |MissingAt(l, n, |n|)| > limit then TooMany
                       else Okay)
  {
    hide Lookup, IsUnder, Cannot, GoodName, DefaultFlags, Missing, MissingAt;
    MissingCounts(l, n, |n|);
    if Lookup(l, n).Some? { WritableMeans(l, p, n); }
  }

  /** What is there after something was added. */
  lemma AddedMeans(l: seq<Attr>, l': seq<Attr>, std: Standard, p: Player, n: string, flags: set<Flag>, s: string,
                   blank: string)
    requires Added(l, l', std, p, n, flags, s, blank)
    ensures Lookup(l', n).Some?
    ensures var a := Lookup(l', n).value;
            a.value == s && a.creator == p.owner &&
            (Command in a.flags <==> s != "" && s[0] == '$') && (Listen in a.flags <==> s != "" && s[0] == '^') &&
            forall f :: f != Command && f != Listen ==>
              (f in a.flags <==>
               if Lookup(l, n).Some? then f in Lookup(l, n).value.flags else f in flags || (n in std && f in std[n]))
    ensures forall r :: IsUnder(n, r) && Lookup(l, n).None? ==>
              Lookup(l', r).Some? && Root in Lookup(l', r).value.flags &&
              (Lookup(l, r).Some? ==>
                 Lookup(l', r).value == Lookup(l, r).value.(flags := Lookup(l, r).value.flags + {Root})) &&
              (Lookup(l, r).None? ==>
                 Lookup(l', r).value.creator == p.owner && Lookup(l', r).value.value == blank &&
                 forall f :: f in Lookup(l', r).value.flags <==>
                             f == Root || (f != Command && f != Listen && (f in flags || (r in std && f in std[r]))))
    ensures forall x :: x != n && !(IsUnder(n, x) && Lookup(l, n).None?) ==> Lookup(l', x) == Lookup(l, x)
  {
    hide Lookup;
  }

  /** Adding keeps every branch present and every root marked. */
  lemma {:induction false} AddedTree(l: seq<Attr>, l': seq<Attr>, std: Standard, p: Player, n: string,
      flags: set<Flag>, s: string,
                  blank: string)
    requires Added(l, l', std, p, n, flags, s, blank) && Closed(l) && RootsMarked(l)
    ensures Closed(l') && RootsMarked(l')
  {
    hide IsUnder, ValueSet, BranchMade, Lookup;
    AddedPresent(l, l', std, p, n, flags, s, blank);
    forall x, r | Lookup(l', x).Some? && IsUnder(x, r) ensures Lookup(l', r).Some? {
      if Lookup(l, x).None? && x != n { UnderTransitive(n, x, r); }
    }
    forall r | Lookup(l', r).Some? && HasUnder(l', r) ensures Root in Lookup(l', r).value.flags {
      AddedMarked(l, l', std, p, n, flags, s, blank, r);
    }
  }

  lemma AddedPresent(l: seq<Attr>, l': seq<Attr>, std: Standard, p: Player, n: string, flags: set<Flag>, s: string,
                     blank: string)
    requires Added(l, l', std, p, n, flags, s, blank) && Closed(l)
    ensures forall x :: Lookup(l', x).Some? <==> Lookup(l, x).Some? || x == n || IsUnder(n, x)
  {
  }

  lemma AddedMarked(l: seq<Attr>, l': seq<Attr>, std: Standard, p: Player, n: string, flags: set<Flag>, s: string,
                    blank: string, r: string)
    requires Added(l, l', std, p, n, flags, s, blank) && Closed(l) && RootsMarked(l)
    requires Lookup(l', r).Some? && HasUnder(l', r)
    ensures Root in Lookup(l', r).value.flags
  {
    hide Lookup;
    AddedPresent(l, l', std, p, n, flags, s, blank);
    var m :| Lookup(l', m).Some? && IsUnder(m, r);
    if Lookup(l, m).Some? {
      assert Lookup(l, r).Some? && HasUnder(l, r);
    } else if m != n {
      UnderTransitive(n, m, r);
    }
  }

  /** Marks stay exact unless a new attribute starts with the mark in its own flags. */
  lemma AddedExact(l: seq<Attr>, l': seq<Attr>, std: Standard, p: Player, n: string, flags: set<Flag>, s: string,
                   blank: string)
    requires Added(l, l', std, p, n, flags, s, blank) && Closed(l) && RootsExact(l)
    ensures RootsExact(l') <==> !(Lookup(l, n).None? && Root in DefaultFlags(std, n, flags))
  {
    hide IsUnder, Lookup, DefaultFlags;
    AddedPresent(l, l', std, p, n, flags, s, blank);
    AddedTree(l, l', std, p, n, flags, s, blank);
    forall r | Lookup(l, r).Some? && HasUnder(l, r) ensures HasUnder(l', r) {
      var m :| Lookup(l, m).Some? && IsUnder(m, r);
      assert Lookup(l', m).Some?;
    }
    forall r | IsUnder(n, r) ensures HasUnder(l', r) {
      assert Lookup(l', n).Some?;
    }
    if Lookup(l, n).None? && HasUnder(l', n) {
      NothingUnderNew(l, l', std, p, n, flags, s, blank);
      assert false;
    }
  }

  /** A new attribute that is given the mark of a root has it with nothing under it. */
  lemma MarkGivenToLeaf(p: Player)
    ensures var l' := [ValueSet([], map[], p, "A", {Root}, "x")];
            Added([], l', map[], p, "A", {Root}, "x", "") && RootsExact([]) && !RootsExact(l')
  {
  }

  lemma NothingUnderNew(l: seq<Attr>, l': seq<Attr>, std: Standard, p: Player, n: string, flags: set<Flag>,
                        s: string, blank: string)
    requires Added(l, l', std, p, n, flags, s, blank) && Closed(l) && Lookup(l, n).None?
    ensures !HasUnder(l', n)
  {
  }

  // ----- clearing and wiping -----

  function LastTick(n: string): (t: nat)
    ensures t <= |n| && (t < |n| ==> n[t] == TICK)
    ensures forall i :: t < i < |n| ==> n[i] != TICK
    ensures t == |n| ==> TICK !in n
  {
    if TICK !in n then |n|
    else if n[|n| - 1] == TICK then |n| - 1
    else
      assert n == n[..|n| - 1] + [n[|n| - 1]];
      LastTick(n[..|n| - 1])
  }

  /** `x` is the branch right above `n`. */
  predicate IsParent(x: string, n: string) {
    LastTick(n) < |n| && x == n[..LastTick(n)]
  }

  lemma ParentNearest(n: string, r: string)
    requires IsUnder(n, r)
    ensures var t := LastTick(n); t < |n| && IsUnder(n, n[..t]) && (r == n[..t] || IsUnder(n[..t], r))
  {
  }

  function Unmarked(a: Attr): Attr { a.(flags := a.flags - {Root}) }

  /** Takes the mark from the branch above `n` if nothing is under it any more. */
  ghost predicate ParentSettled(l: seq<Attr>, l': seq<Attr>, n: string) {
    forall x ::
      (Lookup(l', x) ==
       if IsParent(x, n) && Lookup(l, x).Some? && !HasUnder(l, x) then Some(Unmarked(Lookup(l, x).value))
       else Lookup(l, x))
  }

  /** Whether a wipe leaves something under the branch. */
  ghost predicate Remains(l: seq<Attr>, p: Player, n: string) {
    exists m :: IsUnder(m, n) && Lookup(l, m).Some? && Survives(l, p, m)
  }

  ghost function ClearCode(l: seq<Attr>, p: Player, n: string, wiping: bool): Code {
    match Lookup(l, n)
    case None => NotFound
    case Some(a) =>
      if Safe in a.flags then IsSafe
      else if !Writable(l, p, n, true) then Error
      else if Root in a.flags && !wiping then Tree
      else if Remains(l, p, n) then Tree
      else Okay
  }

  /** `l'` is `l` after `n` was cleared or wiped. */
  ghost predicate Cleared(l: seq<Attr>, l': seq<Attr>, p: Player, n: string, wiping: bool) {
    match ClearCode(l, p, n, wiping)
    case Okay => ParentSettled(Without(l, Doomed(l, p, n) + {n}), l', n)
    case Tree => l' == if wiping then Without(l, Doomed(l, p, n)) else l
    case _ => l' == l
  }
}

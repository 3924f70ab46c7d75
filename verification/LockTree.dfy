/**
 Parse trees on the heap and the rewriting that simplifies them in place.
 */
module LockTree {
  import opened Basics
  import opened LockLanguage

  datatype Kind = KAnd | KOr | KNot | KBool | KRef(ref: RefKind) | KInd | KPair(pair: PairKind) | KFlag(flag: FlagKind)

  predicate IsCarryPair(a: Expr, b: Expr) {
    a.Ref? && b.Ref? && a.thing == b.thing &&
    ((a.ref == Is && b.ref == Carry) || (a.ref == Carry && b.ref == Is))
  }

  /** What the rewriting turns a tree into. */
  function Simplified(e: Expr): Expr {
    match e
    case Or(a, b) => if IsCarryPair(a, b) then Ref(Const, a.thing) else Or(Simplified(a), Simplified(b))
    case And(a, b) => And(Simplified(a), Simplified(b))
    case Not(Not(n)) => Simplified(n)
    case Not(Bool(v)) => Bool(!v)
    case Not(n) => Not(Simplified(n))
    case _ => e
  }

  /** No NOT stands above a NOT or a constant. */
  predicate Normal(e: Expr) {
    match e
    case And(a, b) => Normal(a) && Normal(b)
    case Or(a, b) => Normal(a) && Normal(b)
    case Not(n) => !n.Not? && !n.Bool? && Normal(n)
    case _ => true
  }

  lemma {:induction false} SimplifiedNormal(e: Expr)
    ensures Normal(Simplified(e))
    ensures !e.Not? && !e.Bool? ==> !Simplified(e).Not? && !Simplified(e).Bool?
  {
    match e
    case And(a, b) => SimplifiedNormal(a); SimplifiedNormal(b);
    case Or(a, b) => SimplifiedNormal(a); SimplifiedNormal(b);
    case Not(Not(n)) => SimplifiedNormal(n);
    case Not(n) => SimplifiedNormal(n);
    case _ =>
  }

  /** The value is kept from every state of the registers, whatever the type letters are. */
  lemma {:induction false} SimplifiedValue(w: World, e: Expr, m: Regs, m': Regs)
    requires m.r == m'.r
    ensures EvalTree(w, Simplified(e), m').r == EvalTree(w, e, m).r
  {
    match e
    case And(a, b) =>
      SimplifiedValue(w, a, m, m');
      SimplifiedValue(w, b, EvalTree(w, a, m), EvalTree(w, Simplified(a), m'));
    case Or(a, b) =>
      if !IsCarryPair(a, b) {
        SimplifiedValue(w, a, m, m');
        SimplifiedValue(w, b, EvalTree(w, a, m), EvalTree(w, Simplified(a), m'));
      }
    case Not(Not(n)) => SimplifiedValue(w, n, m, m');
    case Not(Bool(_)) =>
    case Not(n) => SimplifiedValue(w, n, m, m');
    case _ =>
  }

  /** Among trees without an is-and-carry pair the rewriting changes no test either. */
  predicate NoCarryPair(e: Expr) {
    match e
    case And(a, b) => NoCarryPair(a) && NoCarryPair(b)
    case Or(a, b) => !IsCarryPair(a, b) && NoCarryPair(a) && NoCarryPair(b)
    case Not(n) => NoCarryPair(n)
    case _ => true
  }

  lemma {:induction false} SimplifiedTests(w: World, e: Expr, m: Regs)
    requires NoCarryPair(e)
    ensures EvalTree(w, Simplified(e), m) == EvalTree(w, e, m)
  {
    match e
    case And(a, b) =>
      SimplifiedTests(w, a, m);
      SimplifiedTests(w, b, EvalTree(w, a, m));
    case Or(a, b) =>
      SimplifiedTests(w, a, m);
      SimplifiedTests(w, b, EvalTree(w, a, m));
    case Not(Not(n)) => SimplifiedTests(w, n, m);
    case Not(n) => SimplifiedTests(w, n, m);
    case _ =>
  }

  /** A tree without the double NOTs on top of it. */
  function Stripped(e: Expr): Expr {
    match e
    case Not(Not(n)) => Stripped(n)
    case _ => e
  }

  /** No is-and-carry pair is hidden under double NOTs: every OR is a pair already or does not become one. */
  predicate NoHiddenPair(e: Expr) {
    match e
    case And(a, b) => NoHiddenPair(a) && NoHiddenPair(b)
    case Or(a, b) =>
      IsCarryPair(a, b) || (!IsCarryPair(Stripped(a), Stripped(b)) && NoHiddenPair(a) && NoHiddenPair(b))
    case Not(n) => NoHiddenPair(n)
    case _ => true
  }

  /** A merged pair is neither of the two kinds it was made from, so only double NOTs bring new pairs to light. */
  lemma {:induction false} SimplifiedRef(e: Expr, k: RefKind, thing: Dbref)
    requires k == Is || k == Carry
    ensures Simplified(e) == Ref(k, thing) <==> Stripped(e) == Ref(k, thing)
  {
    match e
    case Not(Not(n)) => SimplifiedRef(n, k, thing);
    case _ =>
  }

  lemma SimplifiedPair(a: Expr, b: Expr)
    ensures IsCarryPair(Simplified(a), Simplified(b)) <==> IsCarryPair(Stripped(a), Stripped(b))
  {
    forall k: RefKind, e: Expr, thing: Dbref | k == Is || k == Carry
      ensures Simplified(e) == Ref(k, thing) <==> Stripped(e) == Ref(k, thing)
    {
      SimplifiedRef(e, k, thing);
    }
  }

  /** One pass is enough, with no pair left to merge, exactly for trees without a hidden pair. */
  lemma {:induction false} OnePassExactly(e: Expr)
    ensures NoCarryPair(Simplified(e)) <==> NoHiddenPair(e)
  {
    match e
    case And(a, b) => OnePassExactly(a); OnePassExactly(b);
    case Or(a, b) =>
      SimplifiedPair(a, b);
      OnePassExactly(a);
      OnePassExactly(b);
    case Not(Not(n)) => OnePassExactly(n);
    case Not(n) => OnePassExactly(n);
    case _ =>
  }

  /** A normal tree without a pair is what one more pass leaves alone. */
  lemma {:induction false} SimplifiedStays(e: Expr)
    ensures Simplified(e) == e <==> Normal(e) && NoCarryPair(e)
  {
    match e
    case And(a, b) => SimplifiedStays(a); SimplifiedStays(b);
    case Or(a, b) => SimplifiedStays(a); SimplifiedStays(b);
    case Not(Not(n)) => SimplifiedSmaller(n);
    case Not(n) => SimplifiedStays(n);
    case _ =>
  }

  function Nodes(e: Expr): nat {
    match e
    case And(a, b) => Nodes(a) + Nodes(b) + 1
    case Or(a, b) => Nodes(a) + Nodes(b) + 1
    case Not(n) => Nodes(n) + 1
    case _ => 1
  }

  lemma {:induction false} SimplifiedSmaller(e: Expr)
    ensures Nodes(Simplified(e)) <= Nodes(e)
  {
    match e
    case And(a, b) => SimplifiedSmaller(a); SimplifiedSmaller(b);
    case Or(a, b) => SimplifiedSmaller(a); SimplifiedSmaller(b);
    case Not(Not(n)) => SimplifiedSmaller(n);
    case Not(n) => SimplifiedSmaller(n);
    case _ =>
  }

  /** So the rewriting is idempotent exactly on trees without a hidden pair. */
  lemma IdempotentExactly(e: Expr)
    ensures Simplified(Simplified(e)) == Simplified(e) <==> NoHiddenPair(e)
  {
    hide Simplified, Normal, NoCarryPair, NoHiddenPair;
    SimplifiedNormal(e);
    SimplifiedStays(Simplified(e));
    OnePassExactly(e);
  }

  /** A pair hidden under `!!` in one of its halves: the first pass brings it to light and leaves it. */
  lemma PairUnderNots(thing: Dbref)
    ensures
      var e := Or(Not(Not(Ref(Is, thing))), Ref(Carry, thing));
      !NoHiddenPair(e) && Simplified(Simplified(e)) != Simplified(e)
  {
    var e := Or(Not(Not(Ref(Is, thing))), Ref(Carry, thing));
    assert Stripped(e.left) == Ref(Is, thing);
    IdempotentExactly(e);
  }

  /** A parse tree node. `a` holds the operand of a NOT; `name` holds the lock name of an indirect lock. */
  class Node {
    var kind: Kind
    var thing: Dbref
    var a: Node?
    var b: Node?
    var name: Text
    var text: Text
    ghost var Repr: set<Node>

    ghost predicate Valid()
      reads this, Repr
      decreases Repr
    {
      this in Repr &&
      (a != null ==> a in Repr && a.Repr <= Repr && this !in a.Repr && a.Valid()) &&
      (b != null ==> b in Repr && b.Repr <= Repr && this !in b.Repr && b.Valid()) &&
      (a != null && b != null ==> a.Repr !! b.Repr) &&
      (kind.KAnd? || kind.KOr? ==> a != null && b != null) &&
      (kind.KNot? ==> a != null && b == null) &&
      (kind.KBool? ==> thing == 0 || thing == 1)
    }

    ghost function Tree(): Expr
      requires Valid()
      reads this, Repr
      decreases Repr
    {
      match kind
      case KAnd => And(a.Tree(), b.Tree())
      case KOr => Or(a.Tree(), b.Tree())
      case KNot => Not(a.Tree())
      case KBool => Bool(thing != 0)
      case KRef(k) => Ref(k, thing)
      case KInd => Ind(thing, name)
      case KPair(k) => Pair(k, name, text)
      case KFlag(k) => Flag(k, text)
    }

    lemma Operands()
      requires Valid() && (kind == KAnd || kind == KOr)
      ensures a != null && b != null && a.Valid() && b.Valid()
      ensures Tree() == if kind == KAnd then And(a.Tree(), b.Tree()) else Or(a.Tree(), b.Tree())
    {
    }

    constructor (kind: Kind, thing: Dbref, name: Text, text: Text)
      requires !kind.KAnd? && !kind.KOr? && !kind.KNot?
      requires kind.KBool? ==> thing == 0 || thing == 1
      ensures Valid() && fresh(Repr)
      ensures this.kind == kind && this.thing == thing && this.name == name && this.text == text
    {
      this.kind, this.thing, this.name, this.text := kind, thing, name, text;
      a, b := null, null;
      Repr := {this};
    }

    constructor Binary(kind: Kind, a: Node, b: Node)
      requires kind.KAnd? || kind.KOr?
      requires a.Valid() && b.Valid() && a.Repr !! b.Repr
      ensures Valid() && fresh(Repr - a.Repr - b.Repr)
      ensures Tree() == if kind.KAnd? then And(a.Tree(), b.Tree()) else Or(a.Tree(), b.Tree())
    {
      this.kind, thing, name, text := kind, -1, [], [];
      this.a, this.b := a, b;
      Repr := {this} + a.Repr + b.Repr;
    }

    constructor Negation(n: Node)
      requires n.Valid()
      ensures Valid() && fresh(Repr - n.Repr)
      ensures Tree() == Not(n.Tree())
    {
      kind, thing, name, text := KNot, -1, [], [];
      a, b := n, null;
      Repr := {this} + n.Repr;
    }

    /** Simplify the tree under this node in place; nodes are only ever dropped. */
    method Optimize()
      requires Valid()
      modifies Repr
      ensures Valid() && Repr <= old(Repr)
      ensures Tree() == Simplified(old(Tree()))
      decreases Tree()
    {
      if kind == KOr {
        if ((a.kind == KRef(Is) && b.kind == KRef(Carry)) || (a.kind == KRef(Carry) && b.kind == KRef(Is)))
           && a.thing == b.thing {
          var t := a.thing;
          kind := KRef(Const);
          thing := t;
          a, b := null, null;
          Repr := {this};
        } else {
          OptimizeBoth();
        }
      } else if kind == KAnd {
        OptimizeBoth();
      } else if kind == KNot {
        var temp := a;
        if temp.kind == KNot {
          assert temp.Valid() && temp.a.Valid() && Tree() == Not(temp.Tree());
          BecomeGrandchild(temp.a.Tree());
          Optimize();
        } else if temp.kind == KBool {
          kind := KBool;
          thing := if temp.thing == 0 then 1 else 0;
          a, b := null, null;
          Repr := {this};
        } else {
          a.Optimize();
          Repr := {this} + a.Repr;
        }
      }
    }

    /** Turn !!foo into foo by moving foo up into this node. */
    method BecomeGrandchild(ghost e: Expr)
      requires Valid() && kind == KNot && a.kind == KNot && Tree() == Not(Not(e))
      modifies this
      ensures Valid() && Repr <= old(Repr)
      ensures Tree() == e
    {
      var n := a.a;
      assert a.Valid() && n.Valid() && Tree() == Not(a.Tree()) && a.Tree() == Not(n.Tree());
      assert this !in a.Repr && n.Repr <= a.Repr <= Repr;
      hide Valid, Tree;
      kind, thing, a, b, name, text := n.kind, n.thing, n.a, n.b, n.name, n.text;
      Repr := n.Repr - {n} + {this};
      Moved(n);
    }

    lemma Moved(n: Node)
      requires n.Valid() && this !in n.Repr && Repr == n.Repr - {n} + {this}
      requires kind == n.kind && thing == n.thing && a == n.a && b == n.b && name == n.name && text == n.text
      ensures Valid() && Tree() == n.Tree()
    {
    }

    /** Simplify the two operands of an AND or OR. */
    method OptimizeBoth()
      requires Valid() && (kind == KAnd || kind == KOr)
      modifies Repr
      ensures Valid() && Repr <= old(Repr) && kind == old(kind)
      ensures a == old(a) && b == old(b)
      ensures a.Tree() == Simplified(old(a.Tree())) && b.Tree() == Simplified(old(b.Tree()))
      decreases Tree(), 0
    {
      a.Optimize();
      b.Optimize();
      Repr := {this} + a.Repr + b.Repr;
    }
  }
}

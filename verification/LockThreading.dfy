/**
 Thread jumping: a jump that would land on another jump is sent past it.
 */
module LockThreading {
  import opened Basics
  import opened LockLanguage
  import opened LockAssembler

  /** The same instructions up to the places jumps lead to. */
  ghost predicate SameShape(p: seq<Ins>, q: seq<Ins>) {
    |p| == |q| &&
    forall k :: 0 <= k < |p| ==> p[k] == q[k] || (p[k].IJmp? && q[k].IJmp? && p[k].on == q[k].on)
  }

  /** No difference can be seen from any place and any state of the registers. */
  ghost predicate SameRuns(p: seq<Ins>, q: seq<Ins>) {
    forall w: World, pc: nat, m: Regs :: Run(w, p, pc, m) == Run(w, q, pc, m)
  }

  /** No jump among the first `n` instructions lands on a jump. */
  predicate Threaded(p: seq<Ins>, n: nat) {
    forall k :: 0 <= k < n && k < |p| && p[k].IJmp? ==> p[k].target >= |p| || !p[p[k].target].IJmp?
  }

  /** Where a jump landing on the jump `j` at position `t` is sent instead. */
  function Beyond(on: bool, j: Ins, t: nat): nat
    requires j.IJmp?
  {
    if j.on == on then j.target else t + 1
  }

  predicate JumpToJump(p: seq<Ins>, k: nat) {
    k < |p| && p[k].IJmp? && p[k].target < |p| && p[p[k].target].IJmp?
  }

  function ThreadOne(p: seq<Ins>, k: nat): seq<Ins>
    requires JumpToJump(p, k)
  {
    p[k := IJmp(p[k].on, Beyond(p[k].on, p[p[k].target], p[k].target))]
  }

  lemma {:induction false} ThreadOneRuns(w: World, p: seq<Ins>, k: nat, pc: nat, m: Regs)
    requires JumpToJump(p, k) && Forward(p)
    ensures Run(w, ThreadOne(p, k), pc, m) == Run(w, p, pc, m)
    decreases |p| - pc
  {
    var q := ThreadOne(p, k);
    if pc < |p| && p[pc] != IRet {
      if pc == k && m.r == p[k].on {
        var t := p[k].target;
        var u := q[k].target;
        ThreadOneRuns(w, p, k, u, m);
        assert Run(w, p, pc, m) == Run(w, p, t, m) == Run(w, p, u, m);
      } else {
        ThreadOneRuns(w, p, k, NextPc(p, pc, m), Effect(w, p[pc], m));
      }
    }
  }

  /** One step of thread jumping moves a target forward, keeps the program forward and all its runs. */
  lemma ThreadOneFacts(p: seq<Ins>, k: nat)
    requires JumpToJump(p, k) && Forward(p)
    ensures Forward(ThreadOne(p, k)) && SameShape(ThreadOne(p, k), p) && SameRuns(ThreadOne(p, k), p)
    ensures p[k].target < ThreadOne(p, k)[k].target
    ensures forall n: nat :: n <= k && Threaded(p, n) ==> Threaded(ThreadOne(p, k), n)
  {
    forall w: World, pc: nat, m: Regs
      ensures Run(w, ThreadOne(p, k), pc, m) == Run(w, p, pc, m)
    {
      ThreadOneRuns(w, p, k, pc, m);
    }
    var t := p[k].target;
    assert t < p[t].target && t + 1 < |p|;
  }

  // ----- the same step on assembly -----

  /** Replacing one jump leaves all counting and all labels alone. */
  lemma {:induction false} ReplaceCounts(a: seq<Insn>, n: nat, i: Insn, l: int)
    requires n < |a| && a[n].op != Label && i.op != Label
    ensures Real(a[n := i]) == Real(a)
    ensures PosOfLabel(a[n := i], l) == PosOfLabel(a, l)
    ensures HasLabel(a[n := i], l) == HasLabel(a, l)
    decreases n
  {
    if n > 0 {
      assert a[n := i][1..] == a[1..][n - 1 := i];
      ReplaceCounts(a[1..], n - 1, i, l);
    } else {
      assert a[n := i][1..] == a[1..];
    }
    forall j | 0 <= j < |a| && a[j] == Insn(Label, l) ensures a[n := i][j] == Insn(Label, l) {}
    forall j | 0 <= j < |a| && a[n := i][j] == Insn(Label, l) ensures a[j] == Insn(Label, l) {}
  }

  /** Linking sees a program only through the positions of the labels its jumps use. */
  lemma {:induction false} LinkAgree(part: seq<Insn>, c: seq<Insn>, d: seq<Insn>, strs: seq<Text>)
    requires forall j :: 0 <= j < |part| && IsJmp(part[j].op) ==>
        PosOfLabel(c, part[j].arg) == PosOfLabel(d, part[j].arg)
    ensures LinkPart(part, c, strs) == LinkPart(part, d, strs)
  {
    if part != [] {
      assert part[0] in part;
      LinkAgree(part[1..], c, d, strs);
    }
  }

  /** Sending one jump to another label changes that jump of the linked program and nothing else. */
  lemma RetargetLinks(code: seq<Insn>, strs: seq<Text>, n: nat, l: int)
    requires n < |code| && IsJmp(code[n].op)
    ensures var code' := code[n := Insn(code[n].op, l)];
            Real(code[..n]) < Real(code) &&
            LinkPart(code', code', strs) ==
            LinkPart(code, code, strs)[Real(code[..n]) := IJmp(code[n].op == JmpT, PosOfLabel(code, l))]
  {
    hide Real, LinkPart, PosOfLabel;
    var i := Insn(code[n].op, l);
    var code' := code[n := i];
    forall x: int ensures PosOfLabel(code', x) == PosOfLabel(code, x) {
      ReplaceCounts(code, n, i, x);
    }
    LinkAgree(code', code', code, strs);
    SplitAt(code, n);
    var k := Real(code[..n]);
    SplitLink(code, code, strs, n);
    assert code'[..n] == code[..n] && code'[n + 1..] == code[n + 1..] && code'[n] == i;
    SplitLink(code', code, strs, n);
    LinkOne(code[n], code, strs);
    LinkOne(i, code, strs);
    var pre, post := LinkPart(code[..n], code, strs), LinkPart(code[n + 1..], code, strs);
    assert (pre + [Resolve(code[n], code, strs)] + post)[k := Resolve(i, code, strs)]
        == pre + [Resolve(i, code, strs)] + post;
  }

  lemma LinkOne(i: Insn, code: seq<Insn>, strs: seq<Text>)
    requires i.op != Label
    ensures LinkPart([i], code, strs) == [Resolve(i, code, strs)]
  {
  }

  lemma SplitLink(part: seq<Insn>, code: seq<Insn>, strs: seq<Text>, n: nat)
    requires n < |part|
    ensures LinkPart(part, code, strs) ==
            LinkPart(part[..n], code, strs) + LinkPart([part[n]], code, strs) + LinkPart(part[n + 1..], code, strs)
  {
    hide LinkPart;
    SplitSeq(part, n);
    LinkAppend(part[..n + 1], part[n + 1..], code, strs);
    LinkAppend(part[..n], [part[n]], code, strs);
  }

  /** A new label inserted anywhere is invisible after linking and marks its place. */
  lemma InsertLabelLinks(code: seq<Insn>, strs: seq<Text>, q: nat, l: int)
    requires q <= |code| && !HasLabel(code, l)
    requires forall j :: 0 <= j < |code| && IsJmp(code[j].op) ==> code[j].arg != l
    ensures var code' := code[..q] + [Insn(Label, l)] + code[q..];
            LinkPart(code', code', strs) == LinkPart(code, code, strs) &&
            PosOfLabel(code', l) == Real(code[..q])
  {
    hide Real, LinkPart, PosOfLabel;
    var a, x, b := code[..q], [Insn(Label, l)], code[q..];
    var code' := a + x + b;
    assert code == a + b && code' == a + (x + b);
    forall j | 0 <= j < |code| && IsJmp(code[j].op)
      ensures PosOfLabel(code', code[j].arg) == PosOfLabel(code, code[j].arg)
    {
      InsertedElsewhere(a, b, l, code[j].arg);
    }
    PosAppend(a, x + b, l);
    InsertedHere(b, l);
    LinkAgree(code, code', code, strs);
    LinkAppend(a, b, code', strs);
    LinkAppend(a, x + b, code', strs);
    LinkLabel(b, l, code', strs);
  }

  lemma InsertedHere(b: seq<Insn>, l: int)
    ensures PosOfLabel([Insn(Label, l)] + b, l) == 0
  {
  }

  lemma LinkLabel(b: seq<Insn>, l: int, code: seq<Insn>, strs: seq<Text>)
    ensures LinkPart([Insn(Label, l)] + b, code, strs) == LinkPart(b, code, strs)
  {
  }

  lemma InsertedElsewhere(a: seq<Insn>, b: seq<Insn>, l: int, l': int)
    requires l != l'
    ensures PosOfLabel(a + ([Insn(Label, l)] + b), l') == PosOfLabel(a + b, l')
  {
    var x := [Insn(Label, l)];
    PosAppend(a, x + b, l');
    PosAppend(a, b, l');
    assert (x + b)[1..] == b;
  }
}

/**
 The generator: its state array and index, one number at a time or a whole array at once.
 */
module Sfmt {
  import opened SfmtRecursion

  /** The stream of words that the recursion defines from a state. */
  function Term(s: seq<W128>, k: nat): W128
    requires |s| == N
    decreases k
  {
    if k < N then s[k]
    else DoRecursion(Term(s, k - N), Term(s, k - N + POS1), Term(s, k - 2), Term(s, k - 1))
  }

  lemma TermStep(s: seq<W128>, k: nat)
    requires |s| == N && k >= N
    ensures Term(s, k) == DoRecursion(Term(s, k - N), Term(s, k - N + POS1), Term(s, k - 2), Term(s, k - 1))
  {
  }

  /** From 156 words on, every word of the stream comes from those 156, 34, two and one before it. */
  lemma StreamRecursion(s: seq<W128>, k: nat)
    requires |s| == 156 && k >= 156
    ensures Term(s, k) == DoRecursion(Term(s, k - 156), Term(s, k - 34), Term(s, k - 2), Term(s, k - 1))
  {
    hide DoRecursion;
  }

  lemma TermStart(s: seq<W128>, k: nat)
    requires |s| == N && k < N
    ensures Term(s, k) == s[k]
  {
  }

  /** The stream goes on the same from any stretch of it. */
  lemma {:induction false} TermFrom(s: seq<W128>, t: seq<W128>, m: nat, k: nat)
    requires |s| == N && |t| == N && forall i :: 0 <= i < N ==> t[i] == Term(s, m + i)
    ensures Term(t, k) == Term(s, m + k)
    decreases k
  {
    hide Term, DoRecursion;
    if k < N {
      TermStart(t, k);
    } else {
      TermFrom(s, t, m, k - N);
      TermFrom(s, t, m, k - N + POS1);
      TermFrom(s, t, m, k - 2);
      TermFrom(s, t, m, k - 1);
      TermStep(t, k);
      TermStep(s, m + k);
      assert m + k - N == m + (k - N) && m + k - N + POS1 == m + (k - N + POS1);
    }
  }

  /** The stream of 32-bit numbers. */
  function Number(s: seq<W128>, k: nat): bv32
    requires |s| == N
  {
    Term(s, k / 4).Word(k % 4)
  }

  /** The `t`th number still to come when `at` numbers of the state are used. */
  function Draw(s: seq<W128>, at: nat, t: nat): bv32
    requires |s| == N
  {
    Number(s, at + t)
  }

  /** From `t`, with `next` of its numbers used, come the numbers that come from `s`, with `at` used, after the
      first `n`. */
  ghost predicate Continues(t: seq<W128>, next: nat, s: seq<W128>, at: nat, n: nat) {
    |s| == N && |t| == N && forall k: nat :: Draw(t, next, k) == Draw(s, at, n + k)
  }

  lemma ContinuesTrans(u: seq<W128>, after: nat, t: seq<W128>, next: nat, s: seq<W128>, at: nat, m: nat, n: nat)
    requires Continues(u, after, t, next, m) && Continues(t, next, s, at, n)
    ensures Continues(u, after, s, at, n + m)
  {
  }

  lemma NumberFrom(s: seq<W128>, t: seq<W128>, m: nat, k: nat)
    requires |s| == N && |t| == N && forall i :: 0 <= i < N ==> t[i] == Term(s, m + i)
    ensures Number(t, k) == Number(s, 4 * m + k)
  {
    hide Term;
    TermFrom(s, t, m, k / 4);
    assert (4 * m + k) / 4 == m + k / 4 && (4 * m + k) % 4 == k % 4;
  }

  /** `a` holds the stream from `N` on, as far as `i`. */
  ghost predicate Filled(a: seq<W128>, s: seq<W128>, i: nat) {
    |s| == N && i <= |a| && forall k :: 0 <= k < i ==> a[k] == Term(s, N + k)
  }

  /** A place in the state or in the array that is filled, as the pointers of the loops hold it. */
  datatype Place = State(i: nat) | Out(i: nat)

  /** The two places that the loop reads last: the two terms before term `N + i`. */
  predicate LastTwo(r1: Place, r2: Place, i: nat, out: bool) {
    r1 == (if i < 2 then State(N - 2 + i) else if out then Out(i - 2) else State(i - 2)) &&
    r2 == (if i < 1 then State(N - 1) else if out then Out(i - 1) else State(i - 1))
  }

  /** `t` is `s` with the first `i` words overwritten by the terms behind it. */
  ghost predicate Renewing(t: seq<W128>, s: seq<W128>, i: nat) {
    |t| == N && |s| == N && i <= N &&
    (forall k :: 0 <= k < i ==> t[k] == Term(s, N + k)) && forall k :: i <= k < N ==> t[k] == s[k]
  }

  lemma RenewingStart(s: seq<W128>)
    requires |s| == N
    ensures Renewing(s, s, 0)
  {
  }

  lemma RenewingEnd(s: seq<W128>, t: seq<W128>)
    requires Renewing(t, s, N)
    ensures Filled(t, s, N)
  {
  }

  /** What is read for word `i` gives the next term, though part of it is overwritten already. */
  lemma RenewOne(s: seq<W128>, t: seq<W128>, i: nat)
    requires Renewing(t, s, i) && i < N
    ensures var b := t[if i < N - POS1 then i + POS1 else i + POS1 - N];
            var c, d := t[if i < 2 then N - 2 + i else i - 2], t[if i < 1 then N - 1 else i - 1];
            Renewing(t[i := DoRecursion(t[i], b, c, d)], s, i + 1)
  {
    hide Term, DoRecursion;
    TermStart(s, i);
    if i < N - POS1 { TermStart(s, i + POS1); }
    if i < 2 { TermStart(s, N - 2 + i); }
    if i < 1 { TermStart(s, N - 1); }
    TermStep(s, N + i);
    assert N + i - N == i;
  }

  class Generator {
    const sfmt: array<W128>
    var idx: nat
    var initialized: bool

    ghost predicate Valid()
      reads this
    {
      sfmt.Length == N && initialized && idx <= N32
    }

    constructor (seed: seq<W128>)
      requires |seed| == N
      ensures Valid() && idx == N32 && sfmt[..] == seed && fresh(sfmt)
    {
      sfmt := new W128[N](i requires 0 <= i < |seed| => seed[i]);
      idx := N32;
      initialized := true;
    }

    /** Overwrites the state with the next `N` terms. */
    method GenRandAll()
      requires Valid()
      modifies sfmt
      ensures Filled(sfmt[..], old(sfmt[..]), N)
    {
      hide Term, DoRecursion, Renewing;
      ghost var s := sfmt[..];
      RenewingStart(s);
      var r1: nat, r2: nat := N - 2, N - 1;
      var i: nat := 0;
      while i < N - POS1
        invariant i <= N - POS1 && LastTwo(State(r1), State(r2), i, false) && Renewing(sfmt[..], s, i)
      {
        ghost var t := sfmt[..];
        RenewOne(s, t, i);
        sfmt[i] := DoRecursion(sfmt[i], sfmt[i + POS1], sfmt[r1], sfmt[r2]);
        assert sfmt[..] == t[i := sfmt[i]];
        r1, r2 := r2, i;
        i := i + 1;
      }
      while i < N
        invariant N - POS1 <= i <= N && LastTwo(State(r1), State(r2), i, false) && Renewing(sfmt[..], s, i)
      {
        ghost var t := sfmt[..];
        RenewOne(s, t, i);
        sfmt[i] := DoRecursion(sfmt[i], sfmt[i + POS1 - N], sfmt[r1], sfmt[r2]);
        assert sfmt[..] == t[i := sfmt[i]];
        r1, r2 := r2, i;
        i := i + 1;
      }
      RenewingEnd(s, sfmt[..]);
    }

    /** The next number of the stream. */
    method GenRand32() returns (r: bv32)
      requires Valid()
      modifies this`idx, sfmt
      ensures Valid() && r == Draw(old(sfmt[..]), old(idx), 0)
      ensures Continues(sfmt[..], idx, old(sfmt[..]), old(idx), 1)
    {
      hide Term, Number, Draw, Filled, Continues;
      ghost var s, at := sfmt[..], idx;
      ContinuesSelf(s, at);
      if idx >= N32 {
        GenRandAll();
        idx := 0;
        Renewed(s, sfmt[..]);
      }
      ghost var now := idx;
      ContinuesOne(sfmt[..], now);
      r := sfmt[idx / 4].Word(idx % 4);
      idx := idx + 1;
      ContinuesTrans(sfmt[..], idx, sfmt[..], now, s, at, 1, 0);
      DrawNow(sfmt[..], now, s, at);
    }

    /** The word at a place. */
    function Read(place: Place, filled: array<W128>): W128
      reads sfmt, filled
      requires match place case State(i) => i < sfmt.Length case Out(i) => i < filled.Length
    {
      match place
      case State(i) => sfmt[i]
      case Out(i) => filled[i]
    }

    /** Fills an array with the next terms, and the state with the last of them. */
    method GenRandArray(filled: array<W128>, size: nat)
      requires Valid() && N <= size == filled.Length && filled != sfmt
      modifies sfmt, filled
      ensures Filled(filled[..], old(sfmt[..]), size)
      ensures forall k :: 0 <= k < N ==> sfmt[k] == filled[size - N + k]
    {
      hide Term, DoRecursion, Filled, Draw;
      ghost var s := sfmt[..];
      FilledStart(filled[..], s);
      var r1, r2 := State(N - 2), State(N - 1);
      var i: nat := 0;
      while i < N - POS1
        invariant i <= N - POS1 && LastTwo(r1, r2, i, true) && sfmt[..] == s && Filled(filled[..], s, i)
      {
        ghost var a := filled[..];
        FillOne(s, a, i);
        filled[i] := DoRecursion(sfmt[i], sfmt[i + POS1], Read(r1, filled), Read(r2, filled));
        assert filled[..] == a[i := filled[i]];
        r1, r2 := r2, Out(i);
        i := i + 1;
      }
      while i < N
        invariant N - POS1 <= i <= N && LastTwo(r1, r2, i, true) && sfmt[..] == s && Filled(filled[..], s, i)
      {
        ghost var a := filled[..];
        FillOne(s, a, i);
        filled[i] := DoRecursion(sfmt[i], filled[i + POS1 - N], Read(r1, filled), Read(r2, filled));
        assert filled[..] == a[i := filled[i]];
        r1, r2 := r2, Out(i);
        i := i + 1;
      }
      while i < size - N
        invariant N <= i <= size && (i > N ==> i <= size - N)
        invariant LastTwo(r1, r2, i, true) && sfmt[..] == s && Filled(filled[..], s, i)
      {
        ghost var a := filled[..];
        FillOne(s, a, i);
        filled[i] := DoRecursion(filled[i - N], filled[i + POS1 - N], Read(r1, filled), Read(r2, filled));
        assert filled[..] == a[i := filled[i]];
        r1, r2 := r2, Out(i);
        i := i + 1;
      }
      GenRandLast(filled, size, i, r1, r2, s);
    }

    /** The last terms go into the state as well. */
    method GenRandLast(filled: array<W128>, size: nat, first: nat, p1: Place, p2: Place, ghost s: seq<W128>)
      requires Valid() && N <= size == filled.Length && filled != sfmt
      requires N <= first <= size && first == (if size < 2 * N then N else size - N)
      requires LastTwo(p1, p2, first, true) && Filled(filled[..], s, first)
      modifies sfmt, filled
      ensures Filled(filled[..], s, size)
      ensures forall k :: 0 <= k < N ==> sfmt[k] == filled[size - N + k]
    {
      hide Term, DoRecursion, Filled, Draw;
      var i, r1, r2 := first, p1, p2;
      var j: nat := 0;
      while j < 2 * N - size
        invariant j <= N && (j > 0 ==> j <= 2 * N - size) && Filled(filled[..], s, i)
        invariant forall k :: 0 <= k < j ==> sfmt[k] == filled[size - N + k]
      {
        sfmt[j] := filled[j + size - N];
        j := j + 1;
      }
      while i < size
        invariant N <= i <= size && j == i - (size - N) && LastTwo(r1, r2, i, true) && Filled(filled[..], s, i)
        invariant forall k :: 0 <= k < j ==> sfmt[k] == filled[size - N + k]
      {
        ghost var a := filled[..];
        FillOne(s, a, i);
        filled[i] := DoRecursion(filled[i - N], filled[i + POS1 - N], Read(r1, filled), Read(r2, filled));
        assert filled[..] == a[i := filled[i]];
        r1, r2 := r2, Out(i);
        sfmt[j] := filled[i];
        i, j := i + 1, j + 1;
      }
    }

    /** Fills an array with as many numbers at once; the numbers drawn later go on behind them. */
    method FillArray32(filled: array<W128>, size: nat)
      requires Valid() && idx == N32 && size % 4 == 0 && size >= N32
      requires filled.Length == size / 4 && filled != sfmt
      modifies this`idx, sfmt, filled
      ensures Valid() && forall m :: 0 <= m < size ==> filled[m / 4].Word(m % 4) == Draw(old(sfmt[..]), N32, m)
      ensures Continues(sfmt[..], idx, old(sfmt[..]), N32, size)
    {
      hide Term, Number, Draw, Filled, Continues;
      ghost var s := sfmt[..];
      GenRandArray(filled, size / 4);
      idx := N32;
      FilledNumbers(filled[..], s, size);
      FilledState(filled[..], s, sfmt[..], size / 4);
    }

    /** Draws as many numbers one by one. */
    method DrawArray(size: nat) returns (numbers: seq<bv32>)
      requires Valid()
      modifies this`idx, sfmt
      ensures Valid() && |numbers| == size && forall m :: 0 <= m < size ==>
          numbers[m] == Draw(old(sfmt[..]), old(idx), m)
      ensures Continues(sfmt[..], idx, old(sfmt[..]), old(idx), size)
    {
      hide Draw, Continues, Number;
      ghost var s, at := sfmt[..], idx;
      numbers := [];
      ContinuesSelf(s, at);
      var m: nat := 0;
      while m < size
        invariant Valid() && m <= size && |numbers| == m && Continues(sfmt[..], idx, s, at, m)
        invariant forall k :: 0 <= k < m ==> numbers[k] == Draw(s, at, k)
      {
        ghost var t, next := sfmt[..], idx;
        var r := GenRand32();
        ContinuesAt(t, next, s, at, m);
        ContinuesTrans(sfmt[..], idx, t, next, s, at, 1, m);
        numbers := numbers + [r];
        m := m + 1;
      }
    }
  }

  /** Filling an array at once and drawing its numbers one by one give the same numbers, now and later. */
  method BulkIsStepwise(g: Generator, h: Generator, filled: array<W128>, size: nat) returns (numbers: seq<bv32>)
    requires g.Valid() && h.Valid() && g != h && g.sfmt != h.sfmt && g.sfmt[..] == h.sfmt[..]
    requires g.idx == h.idx == N32 && size % 4 == 0 && size >= N32
    requires filled.Length == size / 4 && filled != g.sfmt && filled != h.sfmt
    modifies g`idx, g.sfmt, h`idx, h.sfmt, filled
    ensures g.Valid() && h.Valid() && |numbers| == size
    ensures forall m :: 0 <= m < size ==> filled[m / 4].Word(m % 4) == numbers[m]
    ensures forall k: nat :: Draw(g.sfmt[..], g.idx, k) == Draw(h.sfmt[..], h.idx, k)
  {
    hide Draw;
    g.FillArray32(filled, size);
    numbers := h.DrawArray(size);
  }

  lemma ContinuesAt(t: seq<W128>, next: nat, s: seq<W128>, at: nat, n: nat)
    requires Continues(t, next, s, at, n)
    ensures Draw(t, next, 0) == Draw(s, at, n)
  {
  }

  lemma FilledStart(a: seq<W128>, s: seq<W128>)
    requires |s| == N
    ensures Filled(a, s, 0)
  {
  }

  /** What is read for word `i` of the array gives the next term. */
  lemma FillOne(s: seq<W128>, a: seq<W128>, i: nat)
    requires Filled(a, s, i) && i < |a|
    ensures var w := if i < N then s[i] else a[i - N];
            var b := if i < N - POS1 then s[i + POS1] else a[i + POS1 - N];
            var c := if i < 2 then s[N - 2 + i] else a[i - 2];
            var d := if i < 1 then s[N - 1] else a[i - 1];
            Filled(a[i := DoRecursion(w, b, c, d)], s, i + 1)
  {
    hide Term, DoRecursion;
    if i < N { TermStart(s, i); }
    if i < N - POS1 { TermStart(s, i + POS1); }
    if i < 2 { TermStart(s, N - 2 + i); }
    if i < 1 { TermStart(s, N - 1); }
    TermStep(s, N + i);
    assert N + i - N == i;
    assert i >= N ==> a[i - N] == Term(s, N + (i - N));
    assert i >= N - POS1 ==> a[i + POS1 - N] == Term(s, N + (i + POS1 - N));
  }

  lemma FilledNumbers(a: seq<W128>, s: seq<W128>, size: nat)
    requires size % 4 == 0 && |a| == size / 4 && Filled(a, s, size / 4)
    ensures forall m :: 0 <= m < size ==> a[m / 4].Word(m % 4) == Draw(s, N32, m)
  {
    hide Term;
    forall m | 0 <= m < size ensures a[m / 4].Word(m % 4) == Draw(s, N32, m) {
      assert (N32 + m) / 4 == N + m / 4 && (N32 + m) % 4 == m % 4;
    }
  }

  lemma FilledState(a: seq<W128>, s: seq<W128>, t: seq<W128>, size: nat)
    requires N <= size == |a| && Filled(a, s, size) && |t| == N && forall k :: 0 <= k < N ==> t[k] == a[size - N + k]
    ensures Continues(t, N32, s, N32, 4 * size)
  {
    hide Term, Number;
    forall k | 0 <= k < N ensures t[k] == Term(s, size + k) {
      assert a[size - N + k] == Term(s, N + (size - N + k));
    }
    forall k: nat ensures Draw(t, N32, k) == Draw(s, N32, 4 * size + k) {
      NumberFrom(s, t, size, N32 + k);
      assert 4 * size + (N32 + k) == N32 + (4 * size + k);
    }
  }

  lemma ContinuesSelf(s: seq<W128>, at: nat)
    requires |s| == N
    ensures Continues(s, at, s, at, 0)
  {
  }

  lemma ContinuesOne(s: seq<W128>, at: nat)
    requires |s| == N
    ensures Continues(s, at + 1, s, at, 1)
  {
  }

  /** The number read next. */
  lemma DrawNow(t: seq<W128>, next: nat, s: seq<W128>, at: nat)
    requires Continues(t, next, s, at, 0) && next < N32
    ensures Draw(s, at, 0) == t[next / 4].Word(next % 4)
  {
    assert Draw(t, next, 0) == Draw(s, at, 0 + 0);
  }

  /** A state overwritten by the next terms, with none of its numbers used. */
  lemma Renewed(s: seq<W128>, t: seq<W128>)
    requires |t| == N && Filled(t, s, N)
    ensures Continues(t, 0, s, N32, 0)
  {
    hide Term, Number;
    forall k: nat ensures Draw(t, 0, k) == Draw(s, N32, 0 + k) { NumberFrom(s, t, N, k); }
  }
}

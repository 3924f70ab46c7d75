/**
 The whole way from text to bytes, and what it promises.
 */
module LockPipeline {
  import opened Basics
  import opened LockLanguage
  import opened LockTree
  import opened LockAssembler
  import opened LockGeneration
  import opened LockThreading
  import opened LockBytecode
  import opened LockCompiler
  import opened LockMachine
  import opened LockPatch
  import opened LockScanner
  import opened LockText
  import opened LockParser
  import opened LockFits
  import opened LockSpelling
  import opened LockReading
  import opened LockDecompiler
  import opened LockRoundTrip
  import opened LockReload
  import opened LockTyped
  import opened LockTypes
  import opened LockStored
  import opened LockSource

  // ----- the compiler as a whole -----

  /** Everything the passes promise about the code `p` of the tree `e`. */
  ghost predicate CodeOf(p: seq<Ins>, e: Expr) {
    Forward(p) && Evaluates(p, e) && CompiledShape(p, e) && Threaded(p, |p|)
  }

  lemma GeneratedComplete(e: Expr)
    ensures Complete(Generated(e))
  {
    hide Gen, LinkPart, Real, PosOfLabel, Forward;
    var st := Gen(e, Top, EMPTY);
    GenTidy(e, Top, EMPTY);
    TidyAppend(st, Ret, 0);
    GeneratedForward(e);
    JumpsHaveLabels(e);
  }

  /** A forward jump is a jump to a label that is there. */
  lemma JumpsHaveLabels(e: Expr)
    ensures LabelsPlaced(Generated(e).insns)
  {
    hide Gen, LinkPart, Real, PosOfLabel, Forward;
    var code, strs := Generated(e).insns, Generated(e).strs;
    GeneratedForward(e);
    forall i | 0 <= i < |code| && IsJmp(code[i].op)
      ensures HasLabel(code, code[i].arg)
    {
      LinkAt(code, strs, i);
      ForwardJump(Linked(Generated(e)), Real(code[..i]));
      LabelFound(code, code[i].arg);
    }
  }

  lemma {:induction false} LabelFound(code: seq<Insn>, l: int)
    requires PosOfLabel(code, l) < Real(code)
    ensures HasLabel(code, l)
  {
    if code[0] != Insn(Label, l) {
      LabelFound(code[1..], l);
    }
  }

  lemma KeptCode(p: seq<Ins>, e: Expr)
    requires SameRuns(p, Linked(Generated(e))) && SameShape(p, Linked(Generated(e)))
    requires Forward(p) && Threaded(p, |p|)
    ensures CodeOf(p, e)
  {
    hide Run, EvalTree, Generated, Linked, CodeAt, CodeLen, Threaded, Forward, CompiledShape, SameShape;
    GeneratedShape(e);
    CompiledShapeKept(Linked(Generated(e)), p, e);
    forall w: World, m: Regs ensures Run(w, p, 0, m) == EvalTree(w, e, m) {
      GeneratedCorrect(w, e, m);
    }
  }

  /** What becomes of the text of a lock: no tree and so no lock, bytes in the store of chunks, or bytes too many for
      it, at which the server stops. */
  datatype Compiled = Unlocked | Stored(bytes: seq<Byte>) | Panic

  function ChunkCreate(bytes: seq<Byte>): Compiled {
    if 1 <= |bytes| <= MAX_CHUNK_LEN then Stored(bytes) else Panic
  }

  /** Compile a lock. `p` is the code in the bytes. */
  method ParseBoolexp(r: Reader, s: Text, ltype: Text) returns (b: Compiled, ghost p: seq<Ins>)
    requires ReaderOk(r) && |s| < BUFFER_LEN && |ltype| < BUFFER_LEN
    ensures b.Unlocked? <==> ReadLock(r, ltype, s).None?
    ensures ReadLock(r, ltype, s).Some? ==>
              var e := Simplified(ReadLock(r, ltype, s).value);
              (b.Stored? <==> StoredLen(e) <= MAX_CHUNK_LEN) &&
              (b.Stored? ==>
                 |b.bytes| == StoredLen(e) && Encodes(b.bytes, p) && CodeOf(p, e) && CompiledFrom(b.bytes, e))
    ensures forall how, e :: Typable(r, how, e) && Spaces(how.gap) && s == Source(how, e, 0) ==>
              !b.Unlocked? && (b.Stored? ==> CompiledFrom(b.bytes, Simplified(Regrouped(e))))
  {
    hide Typable, Spaces, Source, Regrouped, CompiledFrom, ParseE, Scan, Simplified, Encodes, CodeOf,
         Emittable, Generated, ThingsOk, Distinct, ReaderOk,
         Node.Valid, Node.Tree;
    p := [];
    var parser := new Parser(r, s, ltype);
    assert s[0..] == s;
    var ast := parser.PE();
    forall how, e | Typable(r, how, e) && Spaces(how.gap) && s == Source(how, e, 0)
      ensures ReadLock(r, ltype, s) == Some(Regrouped(e))
    {
      SourceRead(r, ltype, how, e);
    }
    if ast == null { return Unlocked, []; }
    CompiledFits(r, ltype, s);
    ghost var e := Simplified(ReadLock(r, ltype, s).value);
    ast.Optimize();
    assert ast.Tree() == e;
    var bytecode;
    bytecode, p := CompileTree(ast, e);
    b := ChunkCreate(bytecode);
  }

  lemma SameEmittedLength(s: Asm, t: Asm)
    requires SameShape(Linked(t), Linked(s)) && s.strs == t.strs
    ensures |Emitted(t)| == |Emitted(s)|
  {
  }

  /** From a simplified tree to bytes. */
  method CompileTree(ast: Node, ghost e: Expr) returns (b: seq<Byte>, ghost p: seq<Ins>)
    requires ast.Valid() && ast.Tree() == e && Emittable(Generated(e))
    ensures Encodes(b, p) && CodeOf(p, e) && CompiledFrom(b, e) && |b| == |Emitted(Generated(e))|
  {
    hide Encodes, CodeOf, CompiledFrom, Gen, LinkPart, Linked, Emitted, ArgsOk, Tidy, LabelsPlaced, Forward,
         SameRuns, SameShape,
         Threaded, Node.Valid, Node.Tree;
    var a := new Assembler();
    a.Generate(ast, Top);
    a.AppendInsn(Ret, 0);
    assert a.State() == Generated(e);
    GeneratedComplete(e);
    a.OptimizeAsm();
    p := Linked(a.State());
    KeptCode(p, e);
    SameEmittedLength(Generated(e), a.State());
    EmittedEncodes(a.State());
    var bytecode := a.EmitBytecode();
    b := bytecode[..];
    CompiledForMachine(b, p, e);
  }

  // ----- what compiled locks do -----

  /** Compiled code gives the answer of the tree as it was parsed, within as many steps as it has instructions. */
  lemma CompiledAnswer(w: World, p: seq<Ins>, parsed: Expr)
    requires CodeOf(p, Simplified(parsed))
    ensures Run(w, p, 0, START).r == EvalTree(w, parsed, START).r
    ensures Run(w, p, 0, START).trace == EvalTree(w, Simplified(parsed), START).trace
    ensures NoCarryPair(parsed) ==> Run(w, p, 0, START) == EvalTree(w, parsed, START)
    ensures Steps(w, p, 0, START) <= |p| && StopsAt(w, p, 0, START) < |p| && p[StopsAt(w, p, 0, START)] == IRet
  {
    hide Run, EvalTree, CompiledShape, Threaded;
    assert Run(w, p, 0, START) == EvalTree(w, Simplified(parsed), START);
    SimplifiedValue(w, parsed, START, START);
    RunReachesRet(w, p, 0, START);
    if NoCarryPair(parsed) { SimplifiedTests(w, parsed, START); }
  }

  /** With its type letters settled that answer is the truth of the lock, found by the tests it takes. */
  lemma CompiledTruth(w: World, p: seq<Ins>, parsed: Expr)
    requires CodeOf(p, Simplified(parsed)) && TypesSettled(parsed, START.r)
    ensures Run(w, p, 0, START).r == Holds(w, parsed)
    ensures Run(w, p, 0, START).trace == TestsOf(w, Simplified(parsed))
  {
    hide Run, EvalTree, CompiledShape, Threaded, Holds, TestsOf, Simplified, Forward;
    CompiledAnswer(w, p, parsed);
    EvalTreeHolds(w, parsed, START);
    SimplifiedTypes(parsed, START.r);
    EvalTreeHolds(w, Simplified(parsed), START);
    assert START.trace + TestsOf(w, Simplified(parsed)) == TestsOf(w, Simplified(parsed));
  }

  lemma {:induction false} SimplifiedTypes(e: Expr, r: bool)
    requires TypesSettled(e, r)
    ensures TypesSettled(Simplified(e), r)
  {
    match e
    case And(a, b) => SimplifiedTypes(a, r); SimplifiedTypes(b, true);
    case Or(a, b) => SimplifiedTypes(a, r); SimplifiedTypes(b, false);
    case Not(Not(n)) => SimplifiedTypes(n, r);
    case Not(Bool(_)) =>
    case Not(n) => SimplifiedTypes(n, r);
    case _ =>
  }

  /** The bytes of a compiled lock are what the machine takes. */
  lemma CompiledForMachine(bs: seq<Byte>, p: seq<Ins>, e: Expr)
    requires Encodes(bs, p) && CodeOf(p, e)
    ensures CompiledFrom(bs, e)
  {
    hide Encodes, Forward, Run, EvalTree, CompiledShape, Threaded;
  }

  // ----- from bytes to text and back -----

  /** Print a compiled lock, patched since or not: its tree without the objects that are gone, as far as there is
      room. */
  method Decompile(show: Show, b: seq<Byte>, gone: Dbref -> bool, ghost p: seq<Ins>, ghost e: Expr)
      returns (text: seq<Byte>)
    requires Encodes(b, Patched(gone, p)) && CodeOf(p, e) && Normal(e)
    ensures text == Written(show, [], Printed(WithoutGone(gone, e), Top))
    ensures forall how :: Plainly(how) && Printable(show, how, WithoutGone(gone, e)) &&
                          |Source(how, WithoutGone(gone, e), 0)| <= LIMIT ==>
              text == Source(how, WithoutGone(gone, e), 0)
  {
    hide Plainly, Printable, Source, Encodes, Balanced, Evaluates, Threaded, Normal, CodeAt, Forward, CodeLen, Written,
         Printed, WithoutGone, Unparsed, Patched;
    ghost var q := Patched(gone, p);
    ForwardPatched(gone, p);
    forall k | 0 <= k < |q| && q[k] == IParen(0) ensures Balanced(q, k + 1, 1) {
      assert q[k] == PatchedIns(gone, p[k]);
      ParenInCode(p, e, k);
      AllBalanced(p, 0, e, Top, k);
      NegAfterPatched(gone, p, k + 1, 1);
    }
    text := UnparseBoolexp(show, b, q);
    UnparsedTree(gone, p, e);
    forall how | Plainly(how) && Printable(show, how, WithoutGone(gone, e)) &&
                 |Source(how, WithoutGone(gone, e), 0)| <= LIMIT
      ensures text == Source(how, WithoutGone(gone, e), 0)
    {
      PrintedSource(show, how, WithoutGone(gone, e));
    }
  }

  lemma ParenInCode(p: seq<Ins>, e: Expr, k: nat)
    requires CompiledShape(p, e) && k < |p| && p[k] == IParen(0)
    ensures k < CodeLen(e, Top)
  {
    hide CodeAt, CodeLen;
  }

  /** Save a lock to a database and load it again: what is loaded is the lock that was saved, without the objects that
      are gone and regrouped, exactly if its words come back; it then has the same value everywhere, and it is stored if
      the lock that was saved could be. Whatever else is read is stored exactly if it is short enough. */
  method SaveAndLoad(b: seq<Byte>, gone: Dbref -> bool, locks: Text -> Option<Text>, ltype: Text, ghost p: seq<Ins>,
                     ghost e: Expr) returns (text: Text, loaded: Compiled)
    requires Encodes(b, Patched(gone, p)) && CodeOf(p, e) && Normal(e) && TreeReadable(Loading(locks), e)
    requires ReaderOk(Loading(locks)) && |ltype| < BUFFER_LEN
    ensures text == Written(ByNumber, [], Printed(WithoutGone(gone, e), Top))
    ensures ReadLock(Loading(locks), ltype, text) == Some(Regrouped(WithoutGone(gone, e))) <==>
            ComesBack(Loading(locks), ltype, Printed(WithoutGone(gone, e), Top), 0)
    ensures loaded.Unlocked? <==> ReadLock(Loading(locks), ltype, text).None?
    ensures ReadLock(Loading(locks), ltype, text).Some? ==>
              var read := Simplified(ReadLock(Loading(locks), ltype, text).value);
              (loaded.Stored? <==> StoredLen(read) <= MAX_CHUNK_LEN) &&
              (loaded.Stored? ==> CompiledFrom(loaded.bytes, read))
    ensures ComesBack(Loading(locks), ltype, Printed(WithoutGone(gone, e), Top), 0) && StoredLen(e) <= MAX_CHUNK_LEN ==>
              loaded.Stored?
    ensures ComesBack(Loading(locks), ltype, Printed(WithoutGone(gone, e), Top), 0) ==>
              forall w: World ::
                EvalTree(w, Simplified(Regrouped(WithoutGone(gone, e))), START).r ==
                EvalTree(w, WithoutGone(gone, e), START).r
  {
    hide Encodes, CodeOf, CompiledFrom, Normal, Written, Printed, WithoutGone, ComesBack, Regrouped, Simplified,
         EvalTree, ReaderOk, TokReadable, ReadLock, StoredLen;
    ghost var e' := WithoutGone(gone, e);
    var out := Decompile(ByNumber, b, gone, p, e);
    WithoutGoneReadable(Loading(locks), gone, e);
    ReloadExactly(Loading(locks), ltype, e');
    ReloadedStored(gone, e);
    assert |out| <= LIMIT;
    text := out;
    ghost var q;
    loaded, q := ParseBoolexp(Loading(locks), text, ltype);
    forall w: World ensures EvalTree(w, Simplified(Regrouped(e')), START).r == EvalTree(w, e', START).r {
      RegroupedEval(w, e', START);
      SimplifiedValue(w, Regrouped(e'), START, START);
    }
  }

  /** Whatever was typed, by whatever names, under one type and kept under another: saved and loaded it is the
      simplified lock, regrouped, exactly if its words come back; and its lock names are proper exactly if there is no
      reference without a lock name or the type under which it was typed is a proper name. */
  lemma TypedReloads(r: Reader, typed: Text, kept: Text, s: Text)
    requires ReaderOk(r) && ReadLock(r, typed, s).Some?
    ensures var e := Simplified(ReadLock(r, typed, s).value);
            var text := Written(ByNumber, [], Printed(e, Top));
            0 !in text && TreeReadable(Loading(r.locks), e) &&
            (ReadLock(Loading(r.locks), kept, text) == Some(Regrouped(e)) <==>
             ComesBack(Loading(r.locks), kept, Printed(e, Top), 0)) &&
            (ProperNames(Loading(r.locks), Printed(e, Top)) <==> !HasBareReference(r, s) || ProperLock(r, typed))
  {
    hide ReadLock, ReaderOk, TokReadable, Simplified, Printed, Written, ComesBack, Regrouped, TreeReadable, ProperNames,
         HasBareReference, ProperLock;
    TypedReadable(r, typed, s);
    SimplifiedReadable(Loading(r.locks), ReadLock(r, typed, s).value);
    LoadingOk(r);
    ReloadExactly(Loading(r.locks), kept, Simplified(ReadLock(r, typed, s).value));
    TypedNames(r, typed, s);
  }

  lemma LoadingOk(r: Reader)
    requires ReaderOk(r)
    ensures ReaderOk(Loading(r.locks))
  {
  }

  /** A tree with an evaluation lock or an indirect lock in it. */
  predicate HasCostly(e: Expr) {
    match e
    case And(a, b) => HasCostly(a) || HasCostly(b)
    case Or(a, b) => HasCostly(a) || HasCostly(b)
    case Not(n) => HasCostly(n)
    case Ind(_, _) => true
    case Pair(k, _, _) => k == Eval
    case _ => false
  }

  lemma {:induction false} CostlyCode(p: seq<Ins>, k: nat, e: Expr, outer: Outer)
    requires CodeAt(p, k, e, outer) && k + CodeLen(e, outer) <= |p|
    ensures HasCostly(e) <==> exists i :: k <= i < k + CodeLen(e, outer) && Costly(p[i])
    decreases e, 1
  {
    match e
    case And(_, _) => CostlyBinary(p, k, e, outer);
    case Or(_, _) => CostlyBinary(p, k, e, outer);
    case Not(n) => CostlyCode(p, k, n, InNot);
    case Ind(_, _) => assert Costly(p[k + 1]);
    case Pair(kind, _, _) => if kind == Eval { assert Costly(p[k + 1]); }
    case _ =>
  }

  lemma {:induction false} CostlyBinary(p: seq<Ins>, k: nat, e: Expr, outer: Outer)
    requires (e.And? || e.Or?) && BinaryAt(p, k, e, outer) && k + CodeLen(e, outer) <= |p|
    ensures HasCostly(e) <==> exists i :: k <= i < k + CodeLen(e, outer) && Costly(p[i])
    decreases e, 0
  {
    hide CodeAt, Costly, HasCostly;
    var l, j, c := LeftAt(k, e, outer), JmpAt(k, e, outer), CloseAt(k, e, outer);
    PositionsAfter(k, e, outer);
    CostlyParts(e);
    CostlyCode(p, l, e.left, Inner(e));
    CostlyCode(p, j + 1, e.right, Inner(e));
    NotCostly(p[j]);
    NotCostly(p[k]);
    if Parens(e, outer) { NotCostly(p[c]); }
    if i :| k <= i < k + CodeLen(e, outer) && Costly(p[i]) {
      assert l <= i < j || j + 1 <= i < c || i == j || (Parens(e, outer) && (i == k || i == c));
    }
  }

  lemma CostlyParts(e: Expr)
    requires e.And? || e.Or?
    ensures HasCostly(e) == (HasCostly(e.left) || HasCostly(e.right))
  {
  }

  lemma NotCostly(i: Ins)
    ensures i.IJmp? || i.IParen? ==> !Costly(i)
  {
  }

  /** Scanning the bytes finds out whether the tree has anything costly in it. */
  method IsCostlyLock(b: seq<Byte>, ghost p: seq<Ins>, ghost e: Expr) returns (res: bool)
    requires Encodes(b, p) && CodeOf(p, e)
    ensures res == HasCostly(e)
  {
    hide CodeAt, Encodes, Evaluates, Threaded, HasCostly, Costly, CodeLen;
    res := IsEvalLock(b, p);
    CostlyCode(p, 0, e, Top);
    var n := CodeLen(e, Top);
    assert p[n] == IRet;
    RetNotCostly(p[n]);
  }

  lemma RetNotCostly(i: Ins)
    ensures i == IRet ==> !Costly(i)
  {
  }
}

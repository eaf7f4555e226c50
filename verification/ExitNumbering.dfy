/** The reason codes the compiler hands out are the numbers the source text gives to the exits of a try block. */
module ExitNumbering {
  import opened Basics
  import opened Completions
  import opened ReasonCell
  import opened BlockMachine
  import opened Emitter
  import opened Lowering

  /** In the order of their codes: destinations are kept newest first. */
  function KindsOf(ds: seq<Destination>): (r: seq<Kind>)
    ensures |r| == |ds| && forall k :: 0 <= k < |ds| ==> r[|ds| - 1 - k] == ds[k].kind
  {
    seq(|ds|, k requires 0 <= k < |ds| => ds[|ds| - 1 - k].kind)
  }

  function Kinds(x: Scope): seq<Kind> {
    if x.Try? then KindsOf(x.destinations) else []
  }

  /** A break out of scope `j` stores a reason for scope `i`. */
  predicate BreakHits(scopes: seq<Scope>, j: int, i: nat)
    requires j < |scopes|
  {
    j >= 0 && scopes[j].Try? && if scopes[j].hasFinally then j == i else BreakHits(scopes, j - 1, i)
  }

  predicate ContinueHits(scopes: seq<Scope>, j: int, i: nat)
    requires j < |scopes|
  {
    j >= 0 && !scopes[j].Loop? && if IsFinally(scopes[j]) then j == i else ContinueHits(scopes, j - 1, i)
  }

  /** From the innermost scope. */
  predicate Breaks(scopes: seq<Scope>, i: nat) {
    BreakHits(scopes, |scopes| - 1, i)
  }

  predicate Continues(scopes: seq<Scope>, i: nat) {
    ContinueHits(scopes, |scopes| - 1, i)
  }

  lemma {:induction false} AlikeHits(a: seq<Scope>, b: seq<Scope>, j: int, i: nat)
    requires Alike(a, b, j)
    ensures BreakHits(a, j, i) == BreakHits(b, j, i) && ContinueHits(a, j, i) == ContinueHits(b, j, i)
    decreases j
  {
    if j >= 0 {
      AlikeHits(a, b, j - 1, i);
    }
  }

  lemma HitsCarry(a: seq<Scope>, b: seq<Scope>, i: nat)
    requires ScopesGrow(a, b)
    ensures |a| == |b| && Breaks(a, i) == Breaks(b, i) && Continues(a, i) == Continues(b, i)
  {
    AlikeHits(a, b, |a| - 1, i);
  }

  /** Once `x` has been entered. */
  lemma HitsInside(scopes: seq<Scope>, x: Scope, i: nat)
    requires i <= |scopes|
    ensures var inner := scopes + [x];
            && Breaks(inner, i) == (x.Try? && if x.hasFinally then i == |scopes| else Breaks(scopes, i))
            && Continues(inner, i) == (!x.Loop? && if IsFinally(x) then i == |scopes| else Continues(scopes, i))
  {
    AlikeHits(scopes, scopes + [x], |scopes| - 1, i);
  }

  // ----- one exit -----

  lemma AddsKind(st: State, i: nat, scope: nat, kind: Kind)
    requires Valid(st) && i < |st.scopes| && st.scopes[i].Try?
    requires forall id :: DestinationOk(st.scopes, i, Destination(scope, kind, id))
    ensures var r := WithDestination(st, i, scope, kind);
            && |r.scopes| == |st.scopes| && (forall j :: 0 <= j < |st.scopes| && j != i ==> r.scopes[j] == st.scopes[j])
            && Kinds(r.scopes[i]) == Add(Kinds(st.scopes[i]), kind)
  {
    var ds := st.scopes[i].destinations;
    var found := FindDestination(ds, scope, kind);
    if found.Some? {
      hide ScopeOk, Valid;
      var k :| 0 <= k < |ds| && ds[k] == found.value;
      assert KindsOf(ds)[|ds| - 1 - k] == kind;
    } else {
      KindIsNew(st, i, scope, kind);
      hide ScopeOk, DestinationOk, Valid;
      assert KindsOf([Destination(scope, kind, |ds|)] + ds) == KindsOf(ds) + [kind];
    }
  }

  /** Two destinations of one scope and kind are the same, so one that is not found has a new kind. */
  lemma KindIsNew(st: State, i: nat, scope: nat, kind: Kind)
    requires Valid(st) && i < |st.scopes| && st.scopes[i].Try?
    requires forall id :: DestinationOk(st.scopes, i, Destination(scope, kind, id))
    requires FindDestination(st.scopes[i].destinations, scope, kind).None?
    ensures kind !in KindsOf(st.scopes[i].destinations)
  {
    var ds := st.scopes[i].destinations;
    assert ScopeOk(st.scopes, i);
    forall k | 0 <= k < |ds|
      ensures KindsOf(ds)[k] != kind
    {
      var d := ds[|ds| - 1 - k];
      assert DestinationOk(st.scopes, i, d) && DestinationOk(st.scopes, i, Destination(scope, kind, 0));
    }
  }

  lemma CleanupAdds(st: State, j: nat, scope: nat, kind: Kind, i: nat)
    requires Valid(st) && j < |st.scopes| && st.scopes[j].Try? && i < |st.scopes|
    requires forall id :: DestinationOk(st.scopes, j, Destination(scope, kind, id))
    ensures var r := EmitCleanup(st, j, scope, kind);
            && |r.scopes| == |st.scopes|
            && Kinds(r.scopes[i]) == if i == j then Add(Kinds(st.scopes[i]), kind) else Kinds(st.scopes[i])
  {
    hide Kinds, ScopeOk;
    AddsKind(st, j, scope, kind);
  }

  lemma {:induction false} ExitAftAdds(st: State, j: nat, i: nat)
    requires Valid(st) && j < |st.scopes| && CanBreak(st.scopes, j) && i < |st.scopes|
    ensures var r := ExitAft(st, j);
            && |r.scopes| == |st.scopes|
            && Kinds(r.scopes[i]) == if BreakHits(st.scopes, j, i) then Add(Kinds(st.scopes[i]), ByBreak)
               else Kinds(st.scopes[i])
    decreases j
  {
    hide Kinds, ScopeOk, EmitCleanup;
    if st.scopes[j].Try? {
      assert CanBreak(st.scopes, j - 1);
      if st.scopes[j].hasFinally {
        CleanupAdds(st, j, j - 1, ByBreak, i);
      } else {
        ExitAftAdds(st, j - 1, i);
      }
    }
  }

  lemma {:induction false} FoundHits(scopes: seq<Scope>, j: int, i: nat)
    requires j < |scopes| && CanContinue(scopes, j)
    ensures ContinueHits(scopes, FindLoopOrFinally(scopes, j), i) == ContinueHits(scopes, j, i)
    decreases j
  {
    if !(scopes[j].Loop? || IsFinally(scopes[j])) {
      FoundHits(scopes, j - 1, i);
    }
  }

  lemma ExitForeAdds(st: State, j: nat, i: nat)
    requires Valid(st) && j < |st.scopes| && CanContinue(st.scopes, j) && i < |st.scopes|
    requires st.scopes[j].Loop? || IsFinally(st.scopes[j])
    ensures var r := ExitFore(st, j);
            && |r.scopes| == |st.scopes|
            && Kinds(r.scopes[i])
               == if ContinueHits(st.scopes, j, i) then Add(Kinds(st.scopes[i]), ByContinue) else Kinds(st.scopes[i])
  {
    hide Kinds, ScopeOk, EmitCleanup;
    if st.scopes[j].Try? {
      CleanupAdds(st, j, FindLoopOrFinally(st.scopes, j - 1), ByContinue, i);
    }
  }

  // ----- statements -----

  /** Nothing leaves for a scope that neither break nor continue reaches. */
  lemma {:induction false} NothingLeaves(s: Stmt, exits: seq<Kind>)
    ensures Exits(s, exits, false, false) == exits
  {
    match s
    case Seq(a, b) => NothingLeaves(a, exits); NothingLeaves(b, exits);
    case If(_, a) => NothingLeaves(a, exits);
    case IfElse(_, a, b) => NothingLeaves(a, exits); NothingLeaves(b, exits);
    case Switch(_, cs) => NoCaseLeaves(cs, exits);
    case TryFinally(b, f) => NothingLeaves(f, exits); NothingToAdd(exits, BlockExits(b));
    case TryCatch(b) => NothingLeaves(b, exits);
    case _ =>
  }

  lemma {:induction false} NoCaseLeaves(cs: Cases, exits: seq<Kind>)
    ensures ExitsOfCases(cs, exits, false) == exits
  {
    if !cs.NoCases? {
      NothingLeaves(cs.body, exits);
      NoCaseLeaves(cs.rest, exits);
    }
  }

  lemma {:induction false} NothingToAdd(exits: seq<Kind>, inner: seq<Kind>)
    ensures AddAll(exits, inner, false, false) == exits
    decreases |inner|
  {
    if inner != [] {
      NothingToAdd(exits, inner[..|inner| - 1]);
    }
  }

  /** From `a` to `b`, scope `i` has been given the exits of `s`. */
  ghost predicate Numbers(s: Stmt, a: seq<Scope>, b: seq<Scope>, i: nat) {
    i < |a| && i < |b| && Kinds(b[i]) == Exits(s, Kinds(a[i]), Breaks(a, i), Continues(a, i))
  }

  /** Lowering a statement numbers its exits, for every enclosing scope at once. */
  lemma {:induction false} LowerNumbers(s: Stmt, st: State, i: nat)
    requires Valid(st) && Fits(s, st) && i < |st.scopes|
    ensures Numbers(s, st.scopes, Lower(s, st).scopes, i)
    decreases s, 1
  {
    hide Kinds, ScopeOk, SameShape, Grows, ScopesGrow, BreakHits, ContinueHits, ExitAft, ExitFore, LowerSeq, LowerIf,
      LowerIfElse, LowerWhile, LowerDo, LowerFor, LowerSwitch, LowerReturn, LowerTryFinally, LowerTryCatch;
    match s
    case Seq(a, b) => SeqNumbers(a, b, st, i);
    case If(e, a) => IfNumbers(e, a, st, i);
    case IfElse(e, a, b) => IfElseNumbers(e, a, b, st, i);
    case While(e, b) => WhileNumbers(e, b, st, i);
    case DoWhile(b, e) => DoNumbers(b, e, st, i);
    case For(init, check, update, b) => ForNumbers(init, check, update, b, st, i);
    case Switch(e, cs) => SwitchNumbers(e, cs, st, i);
    case Break => ExitAftAdds(st, |st.scopes| - 1, i);
    case Continue =>
      FoundHits(st.scopes, |st.scopes| - 1, i);
      ExitForeAdds(st, FindLoopOrFinally(st.scopes, |st.scopes| - 1), i);
    case Return(arg) => ReturnNumbers(arg, st);
    case TryFinally(b, f) => TryFinallyNumbers(b, f, st, i);
    case TryCatch(b) => TryCatchNumbers(b, st, i);
    case _ =>
  }

  lemma ReturnNumbers(arg: Option<Expr>, st: State)
    requires Valid(st)
    ensures LowerReturn(arg, st).scopes == st.scopes
  {
  }

  lemma {:induction false} SeqNumbers(a: Stmt, b: Stmt, st: State, i: nat)
    requires Valid(st) && Fits(a, st) && Fits(b, st) && i < |st.scopes|
    ensures Numbers(Seq(a, b), st.scopes, LowerSeq(a, b, st).scopes, i)
    decreases Seq(a, b), 0
  {
    hide Kinds, ScopeOk, SameShape, Grows, ScopesGrow, Lower, Breaks, Continues, Legal;
    var s1 := Lower(a, st);
    FitCarries(st, s1, b);
    HitsCarry(st.scopes, s1.scopes, i);
    LowerNumbers(a, st, i);
    LowerNumbers(b, s1, i);
  }

  lemma {:induction false} ArmNumbers(a: Stmt, st: State, block: nat, next: nat, i: nat)
    requires Valid(st) && Fits(a, st) && block < |st.code| && i < |st.scopes|
    ensures Numbers(a, st.scopes, LowerArm(a, st, block, next).scopes, i)
    decreases a, 2
  {
    hide Kinds, ScopeOk, SameShape, Lower, Breaks, Continues, Legal;
    LowerNumbers(a, At(st, block), i);
  }

  lemma {:induction false} IfNumbers(e: Expr, a: Stmt, st: State, i: nat)
    requires Valid(st) && Fits(a, st) && i < |st.scopes|
    ensures Numbers(If(e, a), st.scopes, LowerIf(e, a, st).scopes, i)
    decreases a, 3
  {
    hide Kinds, ScopeOk, SameShape, Lower, LowerArm, EmitCondBr, Breaks, Continues, Legal, Grows;
    CondBrOpens(st, 2, e, |st.code|, |st.code| + 1);
    var s1 := EmitCondBr(NewBlocks(st, 2), e, |st.code|, |st.code| + 1);
    FitsSame(st, s1, a);
    ArmNumbers(a, s1, |st.code|, |st.code| + 1, i);
  }

  lemma {:induction false} IfElseNumbers(e: Expr, a: Stmt, b: Stmt, st: State, i: nat)
    requires Valid(st) && Fits(a, st) && Fits(b, st) && i < |st.scopes|
    ensures Numbers(IfElse(e, a, b), st.scopes, LowerIfElse(e, a, b, st).scopes, i)
    decreases IfElse(e, a, b), 0
  {
    hide Kinds, ScopeOk, SameShape, Lower, LowerArm, LowerIfElse, EmitCondBr, Breaks, Continues, Legal, Grows,
      ScopesGrow;
    var k := |st.code|;
    CondBrOpens(st, 3, e, k, k + 1);
    var s1 := EmitCondBr(NewBlocks(st, 3), e, k, k + 1);
    FitsSame(st, s1, a);
    FitsSame(st, s1, b);
    var s2 := LowerArm(a, s1, k, k + 2);
    FitsAfterArm(s1, k, s2, b);
    IfElseUnfolds(e, a, b, st, s1, s2);
    ArmNumbers(a, s1, k, k + 2, i);
    HitsCarry(s1.scopes, s2.scopes, i);
    ArmNumbers(b, s2, k + 1, k + 2, i);
  }

  // ----- loops -----

  lemma {:induction false} BodyNumbers(b: Stmt, st: State, fore: nat, aft: nat, block: nat, i: nat)
    requires Valid(st) && block < |st.code| && Legal(b, true, true) && i < |st.scopes|
    ensures var r := LowerBody(b, st, fore, aft, block);
            |r.scopes| == |st.scopes| && Kinds(r.scopes[i]) == Kinds(st.scopes[i])
    decreases b, 3
  {
    hide Kinds, ScopeOk, SameShape, Lower, LowerArm, Breaks, Continues, Legal, Grows;
    var x := Loop(fore, aft);
    LoopFits(At(st, block), x, b);
    EnterValid(At(st, block), x);
    HitsInside(st.scopes, x, i);
    ArmNumbers(b, Enter(st, x), block, fore, i);
    NothingLeaves(b, Kinds(st.scopes[i]));
  }

  lemma {:induction false} WhileNumbers(e: Expr, b: Stmt, st: State, i: nat)
    requires Valid(st) && Legal(b, true, true) && i < |st.scopes|
    ensures Numbers(While(e, b), st.scopes, LowerWhile(e, b, st).scopes, i)
    decreases b, 4
  {
    hide Kinds, ScopeOk, SameShape, Lower, LowerBody, Breaks, Continues, Legal, Grows;
    var start, body, merge := |st.code|, |st.code| + 1, |st.code| + 2;
    var s1 := Emit(NewBlocks(st, 3), Br(start));
    EvolvesRefl(st);
    EvolvesNew(st, st, 3);
    EvolvesEmit(st, NewBlocks(st, 3), Br(start));
    EvolvesCondBr(st, At(s1, start), e, body, merge);
    BodyNumbers(b, EmitCondBr(At(s1, start), e, body, merge), start, merge, body, i);
  }

  lemma {:induction false} DoNumbers(b: Stmt, e: Expr, st: State, i: nat)
    requires Valid(st) && Legal(b, true, true) && i < |st.scopes|
    ensures Numbers(DoWhile(b, e), st.scopes, LowerDo(b, e, st).scopes, i)
    decreases b, 4
  {
    hide Kinds, ScopeOk, SameShape, Lower, LowerBody, Breaks, Continues, Legal, Grows;
    var body, test, merge := |st.code|, |st.code| + 1, |st.code| + 2;
    EvolvesRefl(st);
    EvolvesNew(st, st, 3);
    EvolvesEmit(st, NewBlocks(st, 3), Br(body));
    BodyNumbers(b, Emit(NewBlocks(st, 3), Br(body)), test, merge, body, i);
  }

  lemma ThenBrKeepsScopes(st: State, block: nat, e: Option<Expr>, next: nat)
    requires Valid(st) && block < |st.code|
    ensures EmitThenBr(st, block, e, next).scopes == st.scopes
  {
  }

  lemma LoopTestKeepsScopes(st: State, block: nat, check: Option<Expr>, body: nat, merge: nat)
    requires Valid(st) && block < |st.code|
    ensures EmitLoopTest(st, block, check, body, merge).scopes == st.scopes
  {
  }

  lemma {:induction false} ForNumbers(init: Option<Expr>, check: Option<Expr>, update: Option<Expr>, b: Stmt,
                                      st: State, i: nat)
    requires Valid(st) && Legal(b, true, true) && i < |st.scopes|
    ensures Numbers(For(init, check, update, b), st.scopes, LowerFor(init, check, update, b, st).scopes, i)
    decreases b, 4
  {
    hide Kinds, ScopeOk, SameShape, Lower, LowerBody, EmitThenBr, EmitLoopTest, Breaks, Continues, Legal, ScopesGrow;
    var n := |st.code|;
    EvolvesRefl(st);
    EvolvesNew(st, st, 5);
    var s1 := Emit(NewBlocks(st, 5), Br(n));
    EvolvesEmit(st, NewBlocks(st, 5), Br(n));
    var s2 := EmitThenBr(s1, n, init, n + 1);
    ThenBrKeepsScopes(s1, n, init, n + 1);
    var s3 := EmitLoopTest(s2, n + 1, check, n + 2, n + 4);
    LoopTestKeepsScopes(s2, n + 1, check, n + 2, n + 4);
    var s4 := LowerBody(b, s3, n + 3, n + 4, n + 2);
    BodyNumbers(b, s3, n + 3, n + 4, n + 2, i);
    ThenBrKeepsScopes(s4, n + 3, update, n + 1);
  }

  // ----- switch -----

  lemma {:induction false} TestsKeepScopes(cs: Cases, st: State, d: Operand, body: nat, check: nat, otherwise: nat)
    requires Valid(st) && check + TestCount(cs) <= |st.code|
    ensures LowerTests(cs, st, d, body, check, otherwise).scopes == st.scopes
  {
    match cs
    case NoCases =>
    case DefaultCase(_, rest) => TestsKeepScopes(rest, st, d, body + 1, check, otherwise);
    case TestCase(e, _, rest) =>
      var v := EmitEval(At(st, check), e);
      var s1 := Emit(v.st, CaseBr(d, v.op, if TestCount(rest) > 0 then check + 1 else otherwise, body));
      TestsKeepScopes(rest, s1, d, body + 1, check + 1, otherwise);
  }

  lemma {:induction false} BodiesNumber(cs: Cases, st: State, body: nat, merge: nat, i: nat)
    requires Valid(st) && body + CaseCount(cs) <= |st.code| && CasesFit(cs, st) && i < |st.scopes|
             && !Breaks(st.scopes, i)
    ensures var r := LowerBodies(cs, st, body, merge);
            |r.scopes| == |st.scopes|
            && Kinds(r.scopes[i]) == ExitsOfCases(cs, Kinds(st.scopes[i]), Continues(st.scopes, i))
    decreases cs, 0
  {
    hide Kinds, ScopeOk, SameShape, Lower, LowerArm, Breaks, Continues, Legal, Grows, ScopesGrow, CanBreak, CanContinue;
    if !cs.NoCases? {
      var next := if cs.rest.NoCases? then merge else body + 1;
      var s1 := LowerArm(cs.body, st, body, next);
      BodyEvolves(st, s1, body);
      CasesFitCarry(st, s1, cs.rest);
      HitsCarry(st.scopes, s1.scopes, i);
      ArmNumbers(cs.body, st, body, next, i);
      BodiesNumber(cs.rest, s1, body + 1, merge, i);
    }
  }

  lemma {:induction false} ClausesNumber(cs: Cases, st: State, d: Operand, bodies: nat, checks: nat, merge: nat,
                                         otherwise: nat, i: nat)
    requires Valid(st) && LegalCases(cs, CanContinue(st.scopes, |st.scopes| - 1)) && i < |st.scopes|
    requires bodies + CaseCount(cs) == checks && checks + TestCount(cs) == merge < |st.code|
    ensures var r := LowerClauses(cs, st, d, bodies, checks, merge, otherwise);
            |r.scopes| == |st.scopes|
            && Kinds(r.scopes[i]) == ExitsOfCases(cs, Kinds(st.scopes[i]), Continues(st.scopes, i))
    decreases cs, 1
  {
    hide Kinds, ScopeOk, SameShape, Lower, LowerTests, LowerBodies, Breaks, Continues, Legal, LegalCases, Grows,
      ScopesGrow, CanBreak, CanContinue;
    var x := SwitchScope(merge);
    EnterValid(st, x);
    CasesFitEnter(st, x, cs);
    HitsInside(st.scopes, x, i);
    var s1 := LowerTests(cs, Enter(st, x), d, bodies, checks, otherwise);
    TestsKeepScopes(cs, Enter(st, x), d, bodies, checks, otherwise);
    CasesFitCarry(Enter(st, x), s1, cs);
    EvolvesSizes(Enter(st, x), s1, checks, merge);
    BodiesNumber(cs, s1, bodies, merge, i);
  }

  lemma {:induction false} SwitchNumbers(e: Expr, cs: Cases, st: State, i: nat)
    requires Valid(st) && LegalCases(cs, CanContinue(st.scopes, |st.scopes| - 1)) && i < |st.scopes|
    ensures Numbers(Switch(e, cs), st.scopes, LowerSwitch(e, cs, st).scopes, i)
    decreases cs, 2
  {
    hide Kinds, ScopeOk, SameShape, Lower, LowerClauses, Breaks, Continues, Legal, LegalCases, Grows, CanBreak,
      CanContinue, Exits, ExitsOfCases, LowerSwitch;
    ExitsOfSwitch(e, cs, Kinds(st.scopes[i]), Breaks(st.scopes, i), Continues(st.scopes, i));
    var total := CaseCount(cs);
    var bodies, checks, merge := |st.code|, |st.code| + total, |st.code| + total + TestCount(cs);
    var otherwise := if DefaultIndex(cs) < total then bodies + DefaultIndex(cs) else merge;
    var first := if TestCount(cs) > 0 then checks else otherwise;
    var d := EmitEval(NewBlocks(st, total + TestCount(cs) + 1), e);
    OpenSwitchEvolves(st, total + TestCount(cs) + 1, e, first);
    hide Evolves, Valid, EmitEval, NewBlocks, Emit;
    var s1 := Emit(d.st, Br(first));
    SwitchIsClauses(e, cs, st, s1, merge, otherwise);
    ClausesNumber(cs, s1, d.op, bodies, checks, merge, otherwise, i);
  }

  // ----- try -----

  lemma {:induction false} TryCatchNumbers(b: Stmt, st: State, i: nat)
    requires Valid(st) && Fits(b, st) && i < |st.scopes|
    ensures Numbers(TryCatch(b), st.scopes, LowerTryCatch(b, st).scopes, i)
    decreases b, 2
  {
    hide Kinds, ScopeOk, SameShape, Lower, Breaks, Continues, Legal, Grows, CanBreak, CanContinue;
    var x := Try(|st.code|, false, []);
    var s1 := NewBlocks(st, 1);
    EnterValid(s1, x);
    TryFits(s1, x, b);
    HitsInside(st.scopes, x, i);
    LowerNumbers(b, Enter(s1, x), i);
  }

  /** A fresh try scope ends up with the exits of its block; the scopes around it are not touched. */
  lemma {:induction false} TryBlockNumbers(b: Stmt, st: State)
    requires Valid(st) && Fits(b, st)
    ensures var r := LowerTryBlock(b, st);
            && |r.scopes| == |st.scopes| + 1 && Kinds(r.scopes[|st.scopes|]) == BlockExits(b)
            && forall i :: 0 <= i < |st.scopes| ==> Kinds(r.scopes[i]) == Kinds(st.scopes[i])
    decreases b, 2
  {
    hide Kinds, ScopeOk, SameShape, Lower, Breaks, Continues, Legal, Grows, CanBreak, CanContinue;
    var n := |st.scopes|;
    var x := Try(|st.code|, true, []);
    var s0 := EnterTry(st);
    EnterValid(NewBlocks(st, 2), x);
    TryFits(NewBlocks(st, 2), x, b);
    assert s0.scopes == Enter(NewBlocks(st, 2), x).scopes;
    FitsSame(Enter(NewBlocks(st, 2), x), s0, b);
    HitsInside(st.scopes, x, n);
    NoKinds(x);
    LowerNumbers(b, s0, n);
    forall i | 0 <= i < n
      ensures Kinds(Lower(b, s0).scopes[i]) == Kinds(st.scopes[i])
    {
      HitsInside(st.scopes, x, i);
      LowerNumbers(b, s0, i);
      NothingLeaves(b, Kinds(st.scopes[i]));
    }
  }

  lemma NoKinds(x: Scope)
    requires x.Try? && x.destinations == []
    ensures Kinds(x) == []
  {
  }

  lemma {:induction false} TrampolinesNumber(st: State, ds: seq<Destination>, base: nat, i: nat)
    requires Valid(st) && base + |ds| <= |st.code| && i < |st.scopes|
    requires forall k :: 0 <= k < |ds| ==> DestinationOk(st.scopes, |st.scopes|, ds[k])
    ensures var r := Trampolines(st, ds, base);
            |r.scopes| == |st.scopes|
            && Kinds(r.scopes[i]) ==
               AddAll(Kinds(st.scopes[i]), KindsOf(ds), Breaks(st.scopes, i), Continues(st.scopes, i))
    decreases |ds|
  {
    hide Kinds, ScopeOk, SameShape, Trampoline, DestinationOk, Grows, ScopesGrow, Breaks, Continues;
    if ds != [] {
      var s1 := Trampoline(At(st, base), ds[0]);
      BodyEvolves(st, s1, base);
      DestinationsCarry(st, s1, ds);
      HitsCarry(st.scopes, s1.scopes, i);
      TrampolineNumbers(At(st, base), ds[0], i);
      TrampolinesNumber(s1, ds[1..], base + 1, i);
      var all := KindsOf(ds);
      assert KindsOf(ds[1..]) == all[..|all| - 1];
      assert all[|all| - 1] == ds[0].kind;
    }
  }

  lemma TrampolineNumbers(st: State, d: Destination, i: nat)
    requires Valid(st) && DestinationOk(st.scopes, |st.scopes|, d) && i < |st.scopes|
    ensures var r := Trampoline(st, d);
            var leaves := if d.kind.ByBreak? then Breaks(st.scopes, i) else Continues(st.scopes, i);
            |r.scopes| == |st.scopes|
            && Kinds(r.scopes[i]) == if leaves then Add(Kinds(st.scopes[i]), d.kind) else Kinds(st.scopes[i])
  {
    hide Kinds, ScopeOk, ExitAft, ExitFore;
    if d.kind.ByBreak? {
      ExitAftAdds(st, d.scope, i);
    } else {
      FoundHits(st.scopes, |st.scopes| - 1, i);
      ExitForeAdds(st, d.scope, i);
    }
  }

  lemma {:induction false} TryFinallyNumbers(b: Stmt, f: Stmt, st: State, i: nat)
    requires Valid(st) && Fits(b, st) && Fits(f, st) && i < |st.scopes|
    ensures Numbers(TryFinally(b, f), st.scopes, LowerTryFinally(b, f, st).scopes, i)
    decreases TryFinally(b, f), 0
  {
    hide Kinds, ScopeOk, SameShape, Lower, LowerTryBlock, LeaveTry, LowerFinally, DestinationOk, Breaks, Continues,
      Legal, Grows, ScopesGrow, CanBreak, CanContinue, Exits;
    ExitsOfTryFinally(b, f, Kinds(st.scopes[i]), Breaks(st.scopes, i), Continues(st.scopes, i));
    var inside := LowerTryBlock(b, st);
    var outside := LeaveTry(st, inside);
    LeftTry(st, inside, outside, f);
    TryBlockNumbers(b, st);
    HitsCarry(st.scopes, outside.scopes, i);
    var ds := inside.scopes[|st.scopes|].destinations;
    TryKinds(inside.scopes[|st.scopes|]);
    FinallyNumbers(f, outside, |st.code|, ds, |st.code| + 1, i);
  }

  lemma TryKinds(x: Scope)
    requires x.Try?
    ensures Kinds(x) == KindsOf(x.destinations)
  {
  }

  lemma {:induction false} FinallyNumbers(f: Stmt, st: State, fin: nat, ds: seq<Destination>, merge: nat, i: nat)
    requires Valid(st) && Fits(f, st) && fin < |st.code| && i < |st.scopes|
    requires forall k :: 0 <= k < |ds| ==> DestinationOk(st.scopes, |st.scopes|, ds[k])
    ensures var r := LowerFinally(f, st, fin, ds, merge);
            var b, c := Breaks(st.scopes, i), Continues(st.scopes, i);
            |r.scopes| == |st.scopes|
              && Kinds(r.scopes[i]) == AddAll(Exits(f, Kinds(st.scopes[i]), b, c), KindsOf(ds), b, c)
    decreases f, 2
  {
    hide Kinds, ScopeOk, SameShape, Lower, DispatchHead, Trampolines, DestinationOk, Breaks, Continues, Legal, Grows,
      ScopesGrow;
    var s1 := Lower(f, At(st, fin));
    DestinationsCarry(st, s1, ds);
    HitsCarry(st.scopes, s1.scopes, i);
    LowerNumbers(f, At(st, fin), i);
    TrampolinesNumber(DispatchHead(s1, ds, merge), ds, FirstTrampoline(s1), i);
  }
}

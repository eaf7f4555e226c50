/** Lowering of each statement form: the visitor methods of `lib/compiler.js`, as functions. */
module Lowering {
  import opened Basics
  import opened Completions
  import opened ReasonCell
  import opened BlockMachine
  import opened Emitter

  /** The statement has no early error where the emitter stands. */
  predicate Fits(s: Stmt, st: State) {
    Legal(s, CanBreak(st.scopes, |st.scopes| - 1), CanContinue(st.scopes, |st.scopes| - 1))
  }

  predicate CasesFit(cs: Cases, st: State) {
    && CanBreak(st.scopes, |st.scopes| - 1)
    && LegalCases(cs, CanContinue(st.scopes, |st.scopes| - 1))
  }

  lemma FitCarries(a: State, b: State, s: Stmt)
    requires ScopesGrow(a.scopes, b.scopes) && Fits(s, a)
    ensures Fits(s, b)
  {
    AlikeExits(a.scopes, b.scopes, |a.scopes| - 1);
  }

  lemma CasesFitCarry(a: State, b: State, cs: Cases)
    requires ScopesGrow(a.scopes, b.scopes) && CasesFit(cs, a)
    ensures CasesFit(cs, b)
  {
    AlikeExits(a.scopes, b.scopes, |a.scopes| - 1);
  }

  /** What may leave the innermost scope once `x` is entered. */
  lemma ExitsInside(a: State, x: Scope)
    ensures var n := |a.scopes|;
            && CanBreak(Enter(a, x).scopes, n) == (!x.Try? || CanBreak(a.scopes, n - 1))
            && CanContinue(Enter(a, x).scopes, n) == (x.Loop? || CanContinue(a.scopes, n - 1))
  {
    var n := |a.scopes|;
    AlikeExits(a.scopes, a.scopes + [x], n - 1);
    assert CanBreak(a.scopes + [x], n) == (!x.Try? || CanBreak(a.scopes + [x], n - 1));
    assert CanContinue(a.scopes + [x], n) == (x.Loop? || CanContinue(a.scopes + [x], n - 1));
  }

  lemma LoopFits(a: State, x: Scope, s: Stmt)
    requires x.Loop? && Legal(s, true, true)
    ensures Fits(s, Enter(a, x))
  {
    ExitsInside(a, x);
  }

  lemma TryFits(a: State, x: Scope, s: Stmt)
    requires x.Try? && Fits(s, a)
    ensures Fits(s, Enter(a, x))
  {
    ExitsInside(a, x);
  }

  lemma CasesFitEnter(a: State, x: Scope, cs: Cases)
    requires x.SwitchScope? && LegalCases(cs, CanContinue(a.scopes, |a.scopes| - 1))
    ensures CasesFit(cs, Enter(a, x))
  {
    ExitsInside(a, x);
  }

  lemma ExitAftEvolves(st: State, i: nat)
    requires Valid(st) && i < |st.scopes| && CanBreak(st.scopes, i)
    ensures Evolves(st, ExitAft(st, i)) && ExitAft(st, i).cur == st.cur
  {
    match st.scopes[i]
    case Loop(_, aft) => EvolvesEmit(st, st, Br(aft));
    case SwitchScope(merge) => EvolvesEmit(st, st, Br(merge));
    case Try(_, hasFinally, _) =>
      assert CanBreak(st.scopes, i - 1);
      if hasFinally {
        CleanupEvolves(st, i, i - 1, ByBreak);
      } else {
        ExitAftEvolves(st, i - 1);
      }
  }

  lemma ExitForeEvolves(st: State, i: nat)
    requires Valid(st) && i < |st.scopes| && CanContinue(st.scopes, i)
    requires st.scopes[i].Loop? || IsFinally(st.scopes[i])
    ensures Evolves(st, ExitFore(st, i)) && ExitFore(st, i).cur == st.cur
  {
    match st.scopes[i]
    case Loop(fore, _) => EvolvesEmit(st, st, Br(fore));
    case Try(_, _, _) => CleanupEvolves(st, i, FindLoopOrFinally(st.scopes, i - 1), ByContinue);
  }

  lemma CleanupEvolves(st: State, i: nat, scope: nat, kind: Kind)
    requires Valid(st) && i < |st.scopes| && st.scopes[i].Try?
    requires forall id :: DestinationOk(st.scopes, i, Destination(scope, kind, id))
    ensures Evolves(st, EmitCleanup(st, i, scope, kind)) && EmitCleanup(st, i, scope, kind).cur == st.cur
  {
    WithDestinationEvolves(st, i, scope, kind);
    var s1 := WithDestination(st, i, scope, kind);
    EvolvesEmit(st, s1, StoreReason(DestinationId(st, i, scope, kind)));
    EvolvesEmit(st, Emit(s1, StoreReason(DestinationId(st, i, scope, kind))), Br(st.scopes[i].cleanup));
  }

  lemma WithDestinationEvolves(st: State, i: nat, scope: nat, kind: Kind)
    requires Valid(st) && i < |st.scopes| && st.scopes[i].Try?
    requires forall id :: DestinationOk(st.scopes, i, Destination(scope, kind, id))
    ensures Evolves(st, WithDestination(st, i, scope, kind))
    ensures var ds := WithDestination(st, i, scope, kind).scopes[i].destinations;
            Destination(scope, kind, DestinationId(st, i, scope, kind)) in ds
  {
    var r := WithDestination(st, i, scope, kind);
    var old_ds := st.scopes[i].destinations;
    if FindDestination(old_ds, scope, kind).None? {
      var d := Destination(scope, kind, |old_ds|);
      var ds := [d] + old_ds;
      assert r.scopes[i].destinations == ds;
      forall j | 0 <= j < |st.scopes| ensures ScopeOk(r.scopes, j) {
        assert ScopeOk(st.scopes, j);
        if j != i {
          ScopeOkCarries(st.scopes, r.scopes, j);
        } else {
          forall k | 0 <= k < |ds| ensures ds[k].id == |ds| - 1 - k && DestinationOk(r.scopes, i, ds[k]) {
            AlikeDestination(st.scopes, r.scopes, i, ds[k]);
            if k > 0 {
              assert ds[k] == old_ds[k - 1];
            }
          }
        }
      }
      assert d in ds;
    }
  }

  // ----- statements -----

  function Lower(s: Stmt, st: State): (r: State)
    requires Valid(st) && Fits(s, st)
    ensures Evolves(st, r)
    decreases s, 1
  {
    match s
    case Empty => st
    case Expression(e) => EmitEval(st, e).st
    case Seq(a, b) => LowerSeq(a, b, st)
    case If(e, a) => LowerIf(e, a, st)
    case IfElse(e, a, b) => LowerIfElse(e, a, b, st)
    case While(e, b) => LowerWhile(e, b, st)
    case DoWhile(b, e) => LowerDo(b, e, st)
    case For(init, check, update, b) => LowerFor(init, check, update, b, st)
    case Switch(e, cs) => LowerSwitch(e, cs, st)
    case Break => ExitAftEvolves(st, |st.scopes| - 1); ExitAft(st, |st.scopes| - 1)
    case Continue =>
      var i := FindLoopOrFinally(st.scopes, |st.scopes| - 1);
      ExitForeEvolves(st, i);
      ExitFore(st, i)
    case Return(arg) => LowerReturn(arg, st)
    case TryFinally(b, f) => LowerTryFinally(b, f, st)
    case TryCatch(b) => LowerTryCatch(b, st)
  }

  function LowerSeq(a: Stmt, b: Stmt, st: State): (r: State)
    requires Valid(st) && Fits(a, st) && Fits(b, st)
    ensures Evolves(st, r)
    decreases Seq(a, b), 0
  {
    var s1 := Lower(a, st);
    FitCarries(st, s1, b);
    var s2 := Lower(b, s1);
    EvolvesTrans(st, s1, s2);
    s2
  }

  function LowerIf(e: Expr, a: Stmt, st: State): (r: State)
    requires Valid(st) && Fits(a, st)
    ensures Evolves(st, r)
    decreases a, 3
  {
    var thenBlock, merge := |st.code|, |st.code| + 1;
    var s1 := EmitCondBr(NewBlocks(st, 2), e, thenBlock, merge);
    EvolvesCondBr(st, NewBlocks(st, 2), e, thenBlock, merge);
    FitCarries(st, s1, a);
    var s2 := LowerArm(a, s1, thenBlock, merge);
    Detour(st, s1, thenBlock, s2);
    At(s2, merge)
  }

  /** A statement lowered into its own block, ending with a branch to `next`. */
  function LowerArm(a: Stmt, st: State, block: nat, next: nat): (r: State)
    requires Valid(st) && Fits(a, st) && block < |st.code|
    ensures Evolves(At(st, block), r)
    decreases a, 2
  {
    var s1 := Lower(a, At(st, block));
    EvolvesEmit(At(st, block), s1, Br(next));
    Emit(s1, Br(next))
  }

  /** New blocks, then a test in the current one. */
  lemma CondBrOpens(st: State, n: nat, e: Expr, t: nat, f: nat)
    requires Valid(st)
    ensures var s := EmitCondBr(NewBlocks(st, n), e, t, f);
            st.cur < |st.code| && Valid(s) && Evolves(st, s) && |s.code| == |st.code| + n && s.scopes == st.scopes
  {
    hide ScopeOk, SameShape, Grows, ScopesGrow;
    EvolvesRefl(st);
    EvolvesNew(st, st, n);
    EvolvesCondBr(st, NewBlocks(st, n), e, t, f);
  }

  /** What still fits after another statement has been lowered in a block of its own. */
  lemma FitsAfterArm(a: State, block: nat, b: State, s: Stmt)
    requires Evolves(At(a, block), b) && Fits(s, a)
    ensures Valid(b) && |a.code| <= |b.code| && Fits(s, b)
  {
    hide ScopeOk, SameShape;
    FitCarries(a, b, s);
  }

  lemma FitsSame(a: State, b: State, s: Stmt)
    requires a.scopes == b.scopes && Fits(s, a)
    ensures Fits(s, b)
  {
  }

  function LowerIfElse(e: Expr, a: Stmt, b: Stmt, st: State): (r: State)
    requires Valid(st) && Fits(a, st) && Fits(b, st)
    ensures Evolves(st, r)
    decreases IfElse(e, a, b), 0
  {
    hide ScopeOk, SameShape, Legal, Lower, LowerArm, Grows, EmitCondBr, CanBreak, CanContinue;
    var thenBlock, elseBlock, merge := |st.code|, |st.code| + 1, |st.code| + 2;
    var s1 := EmitCondBr(NewBlocks(st, 3), e, thenBlock, elseBlock);
    CondBrOpens(st, 3, e, thenBlock, elseBlock);
    var s2 := LowerArm(a, s1, thenBlock, merge);
    EvolvesSizes(At(s1, thenBlock), s2, thenBlock, thenBlock + 1);
    Detour(st, s1, thenBlock, s2);
    FitCarries(st, s2, b);
    var s3 := LowerArm(b, s2, elseBlock, merge);
    EvolvesSizes(At(s2, elseBlock), s3, elseBlock, elseBlock + 1);
    Detour(st, s2, elseBlock, s3);
    At(s3, merge)
  }

  lemma IfElseUnfolds(e: Expr, a: Stmt, b: Stmt, st: State, s1: State, s2: State)
    requires Valid(st) && Fits(a, st) && Fits(b, st)
    requires s1 == EmitCondBr(NewBlocks(st, 3), e, |st.code|, |st.code| + 1)
    requires Valid(s1) && Fits(a, s1) && |st.code| < |s1.code| && s2 == LowerArm(a, s1, |st.code|, |st.code| + 2)
    requires Valid(s2) && Fits(b, s2) && |st.code| + 1 < |s2.code|
    ensures LowerIfElse(e, a, b, st) == At(LowerArm(b, s2, |st.code| + 1, |st.code| + 2), |st.code| + 2)
  {
    hide Valid, Fits, Evolves, Lower, LowerArm, EmitCondBr;
  }

  /** The body of a loop, inside the loop's scope, ending with a branch to where `continue` goes. */
  function LowerBody(b: Stmt, st: State, fore: nat, aft: nat, block: nat): (r: State)
    requires Valid(st) && block < |st.code| && Legal(b, true, true)
    ensures Evolves(At(st, block), r)
    decreases b, 3
  {
    var x := Loop(fore, aft);
    LoopFits(At(st, block), x, b);
    EnterValid(At(st, block), x);
    var s1 := LowerArm(b, Enter(st, x), block, fore);
    LeaveEvolves(At(st, block), x, s1);
    Leave(s1)
  }

  function LowerWhile(e: Expr, b: Stmt, st: State): (r: State)
    requires Valid(st) && Legal(b, true, true)
    ensures Evolves(st, r)
    decreases b, 4
  {
    var start, body, merge := |st.code|, |st.code| + 1, |st.code| + 2;
    var s1 := Emit(NewBlocks(st, 3), Br(start));
    EvolvesEmit(st, NewBlocks(st, 3), Br(start));
    var s2 := EmitCondBr(At(s1, start), e, body, merge);
    EvolvesCondBr(st, At(s1, start), e, body, merge);
    var s3 := LowerBody(b, s2, start, merge, body);
    Detour(st, s2, body, s3);
    At(s3, merge)
  }

  function LowerDo(b: Stmt, e: Expr, st: State): (r: State)
    requires Valid(st) && Legal(b, true, true)
    ensures Evolves(st, r)
    decreases b, 4
  {
    var body, test, merge := |st.code|, |st.code| + 1, |st.code| + 2;
    var s1 := Emit(NewBlocks(st, 3), Br(body));
    EvolvesEmit(st, NewBlocks(st, 3), Br(body));
    var s2 := LowerBody(b, s1, test, merge, body);
    Detour(st, s1, body, s2);
    var s3 := EmitCondBr(At(s2, test), e, body, merge);
    EvolvesCondBr(st, At(s2, test), e, body, merge);
    At(s3, merge)
  }

  function LowerFor(init: Option<Expr>, check: Option<Expr>, update: Option<Expr>, b: Stmt, st: State): (r: State)
    requires Valid(st) && Legal(b, true, true)
    ensures Evolves(st, r)
    decreases b, 4
  {
    hide ScopeOk, SameShape, Legal, Lower, LowerBody, EmitThenBr, EmitLoopTest, ScopesGrow;
    EvolvesRefl(st);
    EvolvesNew(st, st, 5);
    var n := |st.code|;
    var initBlock, test, body, upd, merge := n, n + 1, n + 2, n + 3, n + 4;
    var s1 := Emit(NewBlocks(st, 5), Br(initBlock));
    EvolvesEmit(st, NewBlocks(st, 5), Br(initBlock));
    var s2 := EmitThenBr(s1, initBlock, init, test);
    Detour(st, s1, initBlock, s2);
    var s3 := EmitLoopTest(s2, test, check, body, merge);
    Detour(st, s2, test, s3);
    var s4 := LowerBody(b, s3, upd, merge, body);
    Detour(st, s3, body, s4);
    var s5 := EmitThenBr(s4, upd, update, test);
    Detour(st, s4, upd, s5);
    At(s5, merge)
  }

  lemma ForUnfolds(init: Option<Expr>, check: Option<Expr>, update: Option<Expr>, b: Stmt, st: State, s1: State)
    requires Valid(st) && Legal(b, true, true) && Valid(s1) && |s1.code| == |st.code| + 5
    requires NewBlocks(st, 5).cur < |NewBlocks(st, 5).code| && s1 == Emit(NewBlocks(st, 5), Br(|st.code|))
    ensures var n := |st.code|;
            var s2 := EmitThenBr(s1, n, init, n + 1);
            var s3 := EmitLoopTest(s2, n + 1, check, n + 2, n + 4);
            var s4 := LowerBody(b, s3, n + 3, n + 4, n + 2);
            LowerFor(init, check, update, b, st) == At(EmitThenBr(s4, n + 3, update, n + 1), n + 4)
  {
    hide ScopeOk, SameShape, Legal, Lower, LowerBody, EmitThenBr, EmitLoopTest, ScopesGrow, Grows, Emit, NewBlocks,
      CanBreak, CanContinue;
  }

  function EmitThenBr(st: State, block: nat, e: Option<Expr>, next: nat): (r: State)
    requires Valid(st) && block < |st.code|
    ensures Evolves(At(st, block), r)
  {
    var v := EmitOptional(At(st, block), e);
    EvolvesEval(At(st, block), At(st, block), e);
    EvolvesEmit(At(st, block), v.st, Br(next));
    Emit(v.st, Br(next))
  }

  function EmitLoopTest(st: State, block: nat, check: Option<Expr>, body: nat, merge: nat): (r: State)
    requires Valid(st) && block < |st.code|
    ensures Evolves(At(st, block), r)
  {
    if check.Some? then
      EvolvesCondBr(At(st, block), At(st, block), check.value, body, merge);
      EmitCondBr(At(st, block), check.value, body, merge)
    else
      EvolvesEmit(At(st, block), At(st, block), Br(body));
      Emit(At(st, block), Br(body))
  }

  function LowerReturn(arg: Option<Expr>, st: State): (r: State)
    requires Valid(st)
    ensures Evolves(st, r)
  {
    var v := EmitOptional(st, arg);
    if st.finallies != [] then
      Emit(Emit(Emit(v.st.(hasReturnCell := true), StoreReturn(v.op)), StoreReason(REASON_RETURN)), Br(st.finallies[0]))
    else
      Emit(v.st, Ret(v.op))
  }

  // ----- switch -----

  function LowerSwitch(e: Expr, cs: Cases, st: State): (r: State)
    requires Valid(st) && LegalCases(cs, CanContinue(st.scopes, |st.scopes| - 1))
    ensures Evolves(st, r)
    decreases cs, 2
  {
    hide ScopeOk, SameShape, Lower, CanBreak, CanContinue, Legal, Grows;
    var bodies, checks, merge := |st.code|, |st.code| + CaseCount(cs), |st.code| + CaseCount(cs) + TestCount(cs);
    var otherwise := if DefaultIndex(cs) < CaseCount(cs) then bodies + DefaultIndex(cs) else merge;
    var s0 := NewBlocks(st, CaseCount(cs) + TestCount(cs) + 1);
    var d := EmitEval(s0, e);
    var s1 := Emit(d.st, Br(if TestCount(cs) > 0 then checks else otherwise));
    EvolvesEval(st, s0, Some(e));
    EvolvesEmit(st, d.st, Br(if TestCount(cs) > 0 then checks else otherwise));
    GrowExits(st.scopes, s1.scopes);
    var s2 := LowerClauses(cs, s1, d.op, bodies, checks, merge, otherwise);
    DetourIn(st, s1, s2, bodies, merge, merge);
    At(s2, merge)
  }

  /** New blocks, then the discriminant and a branch in the current one. */
  lemma OpenSwitchEvolves(st: State, k: nat, e: Expr, first: nat)
    requires Valid(st)
    ensures var d := EmitEval(NewBlocks(st, k), e);
            d.st.cur < |d.st.code| && var s1 := Emit(d.st, Br(first));
            && Valid(s1) && Evolves(st, s1) && s1.scopes == st.scopes && s1.finallies == st.finallies
            && |s1.code| == |st.code| + k
            && (forall i :: |st.code| <= i < |s1.code| ==> s1.code[i] == [])
            && Below(d.op, s1.nextReg)
  {
    hide ScopeOk, SameShape;
    var s0 := NewBlocks(st, k);
    EvolvesRefl(st);
    EvolvesNew(st, st, k);
    EvolvesEval(st, s0, Some(e));
    EvolvesEmit(st, EmitEval(s0, e).st, Br(first));
  }

  /** A switch is its clauses, after `s1`, the discriminant and the branch to the first block. */
  lemma SwitchIsClauses(e: Expr, cs: Cases, st: State, s1: State, merge: nat, otherwise: nat)
    requires Valid(st) && LegalCases(cs, CanContinue(st.scopes, |st.scopes| - 1))
    requires merge == |st.code| + CaseCount(cs) + TestCount(cs)
    requires otherwise == if DefaultIndex(cs) < CaseCount(cs) then |st.code| + DefaultIndex(cs) else merge
    requires var d := EmitEval(NewBlocks(st, CaseCount(cs) + TestCount(cs) + 1), e);
             d.st.cur < |d.st.code|
             && s1 == Emit(d.st, Br(if TestCount(cs) > 0 then |st.code| + CaseCount(cs) else otherwise))
    requires Valid(s1) && LegalCases(cs, CanContinue(s1.scopes, |s1.scopes| - 1)) && merge < |s1.code|
    ensures var d := EmitEval(NewBlocks(st, CaseCount(cs) + TestCount(cs) + 1), e);
            var s2 := LowerClauses(cs, s1, d.op, |st.code|, |st.code| + CaseCount(cs), merge, otherwise);
            merge < |s2.code| && LowerSwitch(e, cs, st) == At(s2, merge)
  {
    hide ScopeOk, SameShape, Lower, CanBreak, CanContinue, Legal, LegalCases, LowerClauses, EmitEval, NewBlocks, Emit;
  }

  /** Tests, then clause bodies, inside the switch's scope. */
  function LowerClauses(cs: Cases, st: State, d: Operand, bodies: nat, checks: nat, merge: nat,
                        otherwise: nat): (r: State)
    requires Valid(st) && LegalCases(cs, CanContinue(st.scopes, |st.scopes| - 1))
    requires bodies + CaseCount(cs) == checks && checks + TestCount(cs) == merge < |st.code|
    ensures EvolvesIn(st, r, bodies, merge)
    decreases cs, 1
  {
    var x := SwitchScope(merge);
    EnterValid(st, x);
    CasesFitEnter(st, x, cs);
    var s1 := LowerTests(cs, Enter(st, x), d, bodies, checks, otherwise);
    CasesFitCarry(Enter(st, x), s1, cs);
    var s2 := LowerBodies(cs, s1, bodies, merge);
    EvolvesInSwap(Enter(st, x), s1, s2, bodies, checks, merge);
    LeaveEvolvesIn(st, x, s2, bodies, merge);
    Leave(s2)
  }

  lemma EvolvesInSwap(a: State, b: State, c: State, lo: nat, mid: nat, hi: nat)
    requires EvolvesIn(a, b, mid, hi) && EvolvesIn(b, c, lo, mid) && lo <= mid <= hi
    ensures EvolvesIn(a, c, lo, hi)
  {
  }

  lemma DetourIn(a: State, b: State, c: State, lo: nat, hi: nat, i: nat)
    requires Evolves(a, b) && EvolvesIn(b, c, lo, hi) && |a.code| <= lo && |a.code| <= i < |c.code|
    ensures Evolves(a, At(c, i))
  {
  }

  lemma EvolvesInTrans(a: State, b: State, c: State, lo: nat, mid: nat, hi: nat)
    requires EvolvesIn(a, b, lo, mid) && EvolvesIn(b, c, mid, hi) && lo <= mid <= hi
    ensures EvolvesIn(a, c, lo, hi)
  {
  }

  /** One check block per test, each going to its clause or to the next check. */
  function LowerTests(cs: Cases, st: State, d: Operand, body: nat, check: nat, otherwise: nat): (r: State)
    requires Valid(st) && check + TestCount(cs) <= |st.code|
    ensures EvolvesIn(st, r, check, check + TestCount(cs))
  {
    match cs
    case NoCases => st
    case DefaultCase(_, rest) => LowerTests(rest, st, d, body + 1, check, otherwise)
    case TestCase(e, _, rest) =>
      var v := EmitEval(At(st, check), e);
      var s1 := Emit(v.st, CaseBr(d, v.op, if TestCount(rest) > 0 then check + 1 else otherwise, body));
      LowerTests(rest, s1, d, body + 1, check + 1, otherwise)
  }

  lemma EvolvesInNothing(a: State, lo: nat)
    requires Valid(a)
    ensures EvolvesIn(a, a, lo, lo)
  {
  }

  lemma BodyEvolves(a: State, b: State, block: nat)
    requires Evolves(At(a, block), b)
    ensures EvolvesIn(a, b, block, block + 1) && |a.code| <= |b.code|
  {
  }

  /** One block per clause, each falling through to the next and the last to `merge`. */
  function LowerBodies(cs: Cases, st: State, body: nat, merge: nat): (r: State)
    requires Valid(st) && body + CaseCount(cs) <= |st.code| && CasesFit(cs, st)
    ensures EvolvesIn(st, r, body, body + CaseCount(cs))
    decreases cs, 0
  {
    hide ScopeOk, SameShape, Legal, Lower, LowerArm, CanBreak, CanContinue, Grows, ScopesGrow;
    EvolvesRefl(st);
    if cs.NoCases? then
      EvolvesInNothing(st, body);
      st
    else
      var s1 := LowerArm(cs.body, st, body, if cs.rest.NoCases? then merge else body + 1);
      BodyEvolves(st, s1, body);
      CasesFitCarry(st, s1, cs.rest);
      var r := LowerBodies(cs.rest, s1, body + 1, merge);
      EvolvesInTrans(st, s1, r, body, body + 1, body + CaseCount(cs));
      r
  }

  lemma LeaveEvolvesIn(a: State, x: Scope, b: State, lo: nat, hi: nat)
    requires EvolvesIn(Enter(a, x), b, lo, hi)
    ensures EvolvesIn(a, Leave(b), lo, hi)
  {
    var s := Leave(b).scopes;
    forall i | 0 <= i < |s| ensures ScopeOk(s, i) && SameShape(a.scopes[i], s[i]) {
      ScopeOkCarries(b.scopes, s, i);
      assert Enter(a, x).scopes[i] == a.scopes[i];
    }
  }

  // ----- try -----

  function LowerTryCatch(b: Stmt, st: State): (r: State)
    requires Valid(st) && Fits(b, st)
    ensures Evolves(st, r)
    decreases b, 2
  {
    hide ScopeOk, SameShape, Legal, Lower, CanBreak, CanContinue, Grows;
    var merge := |st.code|;
    var s1 := NewBlocks(st, 1);
    var x := Try(merge, false, []);
    EnterValid(s1, x);
    TryFits(s1, x, b);
    var s2 := Emit(Lower(b, Enter(s1, x)), Br(merge));
    EvolvesEmit(Enter(s1, x), Lower(b, Enter(s1, x)), Br(merge));
    EvolvesSizes(Enter(s1, x), s2, s1.cur, s1.cur + 1);
    LeaveEvolves(s1, x, s2);
    EvolvesRefl(st);
    EvolvesNew(st, st, 1);
    EvolvesTrans(st, s1, Leave(s2));
    At(Leave(s2), merge)
  }

  function LowerTryFinally(b: Stmt, f: Stmt, st: State): (r: State)
    requires Valid(st) && Fits(b, st) && Fits(f, st)
    ensures Evolves(st, r)
    decreases TryFinally(b, f), 0
  {
    hide ScopeOk, SameShape, Legal, CanBreak, CanContinue, DestinationOk, Lower;
    var inside := LowerTryBlock(b, st);
    var outside := LeaveTry(st, inside);
    FitCarries(st, outside, f);
    DestinationsOutlive(inside, outside);
    var s1 := LowerFinally(f, outside, |st.code|, inside.scopes[|st.scopes|].destinations, |st.code| + 1);
    Detour(st, outside, |st.code|, At(s1, |st.code|));
    At(s1, |st.code| + 1)
  }

  /** The finalizer in its block, then the dispatch on why it was entered. */
  function LowerFinally(f: Stmt, st: State, fin: nat, ds: seq<Destination>, merge: nat): (r: State)
    requires Valid(st) && Fits(f, st) && fin < |st.code|
    requires forall k :: 0 <= k < |ds| ==> DestinationOk(st.scopes, |st.scopes|, ds[k])
    ensures Evolves(At(st, fin), At(r, fin))
    decreases f, 2
  {
    var s1 := Lower(f, At(st, fin));
    DestinationsCarry(st, s1, ds);
    var s2 := Dispatch(s1, ds, merge);
    EvolvesTrans(At(st, fin), s1, At(s2, s1.cur));
    s2
  }

  /** The emitter as it enters a try block with a finally clause. */
  function EnterTry(st: State): State {
    Enter(NewBlocks(st, 2).(finallies := [|st.code|] + st.finallies), Try(|st.code|, true, []))
  }

  /** The try block, up to and including the branch at its end. */
  function LowerTryBlock(b: Stmt, st: State): (r: State)
    requires Valid(st) && Fits(b, st)
    ensures Evolves(EnterTry(st), r) && |r.code| >= |st.code| + 2
    ensures |r.scopes| == |st.scopes| + 1 && r.scopes[|st.scopes|].Try? && r.finallies == [|st.code|] + st.finallies
    decreases b, 2
  {
    hide ScopeOk, Legal, Lower;
    EnterValid(NewBlocks(st, 2), Try(|st.code|, true, []));
    TryFits(NewBlocks(st, 2), Try(|st.code|, true, []), b);
    assert Fits(b, NewBlocks(st, 2));
    assert EnterTry(st).scopes == Enter(NewBlocks(st, 2), Try(|st.code|, true, [])).scopes;
    FallOff(EnterTry(st), Lower(b, EnterTry(st)), |st.code|)
  }

  /** The emitter back outside the try scope. */
  function LeaveTry(ghost st: State, inside: State): (r: State)
    requires Valid(st) && Evolves(EnterTry(st), inside)
    ensures Evolves(st, r)
    ensures r.finallies == st.finallies && r.scopes == inside.scopes[..|st.scopes|] && r.code == inside.code
    ensures ScopesGrow(inside.scopes[..|st.scopes|], r.scopes)
    ensures r.cur == inside.cur && r.hasReturnCell == inside.hasReturnCell
  {
    var mid := NewBlocks(st, 2).(finallies := [|st.code|] + st.finallies);
    LeaveEvolves(mid, Try(|st.code|, true, []), inside);
    Leave(inside).(finallies := inside.finallies[1..])
  }

  /** What holds where the finalizer is lowered. */
  lemma LeftTry(st: State, inside: State, outside: State, f: Stmt)
    requires Valid(st) && Fits(f, st) && Evolves(EnterTry(st), inside) && outside == LeaveTry(st, inside)
    requires |inside.scopes| == |st.scopes| + 1 && inside.scopes[|st.scopes|].Try?
    ensures Valid(outside) && Fits(f, outside) && |st.code| + 1 < |outside.code| && |outside.scopes| == |st.scopes|
    ensures var ds := inside.scopes[|st.scopes|].destinations;
            forall k :: 0 <= k < |ds| ==>
              ds[k].id == |ds| - 1 - k && DestinationOk(outside.scopes, |outside.scopes|, ds[k])
  {
    hide ScopeOk, SameShape, Legal, CanBreak, CanContinue, DestinationOk, LeaveTry;
    FitCarries(st, outside, f);
    DestinationsOutlive(inside, outside);
  }

  /** The end of a try block that falls off its end. */
  function FallOff(ghost base: State, st: State, fin: nat): (r: State)
    requires Evolves(base, st)
    ensures Evolves(base, r) && r.scopes == st.scopes
  {
    EvolvesEmit(base, st, StoreReason(REASON_FALLOFF_TRY));
    var s1 := Emit(st, StoreReason(REASON_FALLOFF_TRY));
    EvolvesEmit(base, s1, Br(fin));
    Emit(s1, Br(fin))
  }

  /** Once a try scope has been left, its destinations are still valid ones to leave for. */
  lemma DestinationsOutlive(inside: State, outside: State)
    requires Valid(inside) && |inside.scopes| == |outside.scopes| + 1
    requires ScopesGrow(inside.scopes[..|outside.scopes|], outside.scopes)
    requires inside.scopes[|outside.scopes|].Try?
    ensures var ds := inside.scopes[|outside.scopes|].destinations;
            forall k :: 0 <= k < |ds| ==>
              ds[k].id == |ds| - 1 - k && DestinationOk(outside.scopes, |outside.scopes|, ds[k])
  {
    var n := |outside.scopes|;
    assert ScopeOk(inside.scopes, n);
    forall k | 0 <= k < n
      ensures SameShape(inside.scopes[k], outside.scopes[k])
    {
      assert inside.scopes[..n][k] == inside.scopes[k];
    }
    AlikeExits(inside.scopes, outside.scopes, n - 1);
  }

  function Arms(ds: seq<Destination>, base: nat): seq<(int, nat)> {
    seq(|ds|, k requires 0 <= k < |ds| => (ds[k].id, base + k))
  }

  function DispatchArms(hasReturnCell: bool, ds: seq<Destination>, falloff: nat): seq<(int, nat)> {
    if hasReturnCell then
      [(REASON_RETURN, falloff + 1), (REASON_FALLOFF_TRY, falloff)] + Arms(ds, falloff + 2)
    else
      [(REASON_FALLOFF_TRY, falloff)] + Arms(ds, falloff + 1)
  }

  /** After the finalizer: reload the reason and go on to where it says. */
  function Dispatch(st: State, ds: seq<Destination>, merge: nat): (r: State)
    requires Valid(st)
    requires forall k :: 0 <= k < |ds| ==> DestinationOk(st.scopes, |st.scopes|, ds[k])
    ensures Evolves(st, At(r, st.cur))
  {
    Trampolines(DispatchHead(st, ds, merge), ds, FirstTrampoline(st))
  }

  function FirstTrampoline(st: State): nat {
    |st.code| + if st.hasReturnCell then 2 else 1
  }

  /** The switch on the reason, and the trampolines for falling off and for returning. */
  function DispatchHead(st: State, ds: seq<Destination>, merge: nat): (r: State)
    requires Valid(st)
    ensures Evolves(st, At(r, st.cur)) && r.cur < |r.code| == FirstTrampoline(st) + |ds|
    ensures r.scopes == st.scopes && r.finallies == st.finallies && r.hasReturnCell == st.hasReturnCell
    ensures forall i :: FirstTrampoline(st) <= i < |r.code| ==> r.code[i] == []
  {
    var falloff := |st.code|;
    var arms := DispatchArms(st.hasReturnCell, ds, falloff);
    var s1 := Emit(NewBlocks(st, FirstTrampoline(st) - falloff + |ds|), SwitchReason(merge, arms));
    var s2 := Emit(At(s1, falloff), Br(merge));
    if st.hasReturnCell then ReturnTrampoline(At(s2, falloff + 1)) else s2
  }

  function ReturnTrampoline(st: State): (r: State)
    requires Valid(st)
    ensures Evolves(st, r) && |r.code| == |st.code|
    ensures r.scopes == st.scopes && r.hasReturnCell == st.hasReturnCell
  {
    if st.finallies != [] then Emit(Emit(st, StoreReason(REASON_RETURN)), Br(st.finallies[0]))
    else Emit(st, RetStored)
  }

  function Trampoline(st: State, d: Destination): (r: State)
    requires Valid(st) && DestinationOk(st.scopes, |st.scopes|, d)
    ensures Evolves(st, r)
  {
    match d.kind
    case ByBreak => ExitAftEvolves(st, d.scope); ExitAft(st, d.scope)
    case ByContinue => ExitForeEvolves(st, d.scope); ExitFore(st, d.scope)
  }

  function Trampolines(st: State, ds: seq<Destination>, base: nat): (r: State)
    requires Valid(st) && base + |ds| <= |st.code|
    requires forall k :: 0 <= k < |ds| ==> DestinationOk(st.scopes, |st.scopes|, ds[k])
    ensures EvolvesIn(st, r, base, base + |ds|)
    decreases |ds|
  {
    hide ScopeOk, SameShape, Trampoline, DestinationOk, Grows, ScopesGrow;
    if ds == [] then
      EvolvesInNothing(st, base);
      st
    else
      var s1 := Trampoline(At(st, base), ds[0]);
      BodyEvolves(st, s1, base);
      DestinationsCarry(st, s1, ds);
      var r := Trampolines(s1, ds[1..], base + 1);
      EvolvesInTrans(st, s1, r, base, base + 1, base + |ds|);
      r
  }

  lemma DestinationsCarry(a: State, b: State, ds: seq<Destination>)
    requires ScopesGrow(a.scopes, b.scopes)
    requires forall k :: 0 <= k < |ds| ==> DestinationOk(a.scopes, |a.scopes|, ds[k])
    ensures forall k :: 0 <= k < |ds| ==> DestinationOk(b.scopes, |b.scopes|, ds[k])
  {
    AlikeExits(a.scopes, b.scopes, |a.scopes| - 1);
  }

  // ----- a whole function -----

  const FRESH := State([[]], 0, [], [], false, 0)

  function LowerFunction(body: Stmt): Code
    requires Legal(body, false, false)
  {
    Emit(Lower(body, FRESH), Ret(Const(Undefined))).code
  }
}

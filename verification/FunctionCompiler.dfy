/** The compiler itself: visitor methods that move an insert point, append instructions to blocks and
    push and pop the scope and finally stacks. Each is proved to do what the lowering function of its
    statement form says, so the theorems about lowering are theorems about the code it emits.
 */
module FunctionCompilerModule {
  import opened Basics
  import opened Completions
  import opened ReasonCell
  import opened BlockMachine
  import opened Emitter
  import opened Lowering
  import opened LoweringProof

  class FunctionCompiler {
    var blocks: Code
    var insertBlock: nat
    var scopeStack: seq<Scope>      // innermost last
    var finallyStack: seq<nat>      // innermost first
    var returnValueAlloca: bool
    var nextReg: nat

    ghost function View(): State
      reads this
    {
      State(blocks, insertBlock, scopeStack, finallyStack, returnValueAlloca, nextReg)
    }

    constructor ()
      ensures View() == FRESH
    {
      blocks, insertBlock, scopeStack, finallyStack := [[]], 0, [], [];
      returnValueAlloca, nextReg := false, 0;
    }

    // ----- instruction builder -----

    method Create(i: Instr)
      requires insertBlock < |blocks|
      modifies `blocks
      ensures View() == Emit(old(View()), i)
    {
      blocks := blocks[insertBlock := blocks[insertBlock] + [i]];
    }

    method AddBlocks(n: nat)
      modifies `blocks
      ensures View() == NewBlocks(old(View()), n)
    {
      blocks := blocks + seq(n, _ => []);
    }

    method VisitExpr(e: Expr) returns (op: Operand)
      requires insertBlock < |blocks|
      modifies `blocks, `nextReg
      ensures View() == EmitEval(old(View()), e).st && op == EmitEval(old(View()), e).op
    {
      match e
      case Bool(b) => op := Const(Boolean(b));
      case Op(id) =>
        op := Reg(nextReg);
        Create(EvalTo(nextReg, id));
        nextReg := nextReg + 1;
    }

    method VisitOptional(e: Option<Expr>) returns (op: Operand)
      requires insertBlock < |blocks|
      modifies `blocks, `nextReg
      ensures View() == EmitOptional(old(View()), e).st && op == EmitOptional(old(View()), e).op
    {
      if e.Some? {
        op := VisitExpr(e.value);
      } else {
        op := Const(Undefined);
      }
    }

    method GenerateCondBr(e: Expr, thenBlock: nat, elseBlock: nat)
      requires insertBlock < |blocks|
      modifies `blocks, `nextReg
      ensures View() == EmitCondBr(old(View()), e, thenBlock, elseBlock)
    {
      if e.Bool? {
        Create(CondBr(Bit(!e.b), elseBlock, thenBlock));
      } else {
        var op := VisitExpr(e);
        Create(CondBr(IsFalsy(op), elseBlock, thenBlock));
      }
    }

    // ----- scopes -----

    /** The destination's reason code, adding the destination at the front if it is new. */
    method LookupDestinationId(i: nat, scope: nat, kind: Kind) returns (id: int)
      requires i < |scopeStack| && scopeStack[i].Try?
      modifies `scopeStack
      ensures View() == WithDestination(old(View()), i, scope, kind) && id == DestinationId(old(View()), i, scope, kind)
    {
      var ds := scopeStack[i].destinations;
      var k := 0;
      while k < |ds|
        invariant 0 <= k <= |ds| && View() == old(View())
        invariant FindDestination(ds[k..], scope, kind) == FindDestination(ds, scope, kind)
      {
        if ds[k].scope == scope && ds[k].kind == kind {
          return ds[k].id;
        }
        assert ds[k..][1..] == ds[k + 1..];
        k := k + 1;
      }
      id := |ds|;
      scopeStack := scopeStack[i := scopeStack[i].(destinations := [Destination(scope, kind, id)] + ds)];
    }

    method ExitScopeAft(i: nat)
      requires insertBlock < |blocks| && i < |scopeStack| && CanBreak(scopeStack, i)
      modifies this
      ensures View() == ExitAft(old(View()), i)
    {
      match scopeStack[i]
      case Loop(_, aft) => Create(Br(aft));
      case SwitchScope(merge) => Create(Br(merge));
      case Try(cleanup, hasFinally, _) =>
        assert CanBreak(scopeStack, i - 1);
        if hasFinally {
          var reason := LookupDestinationId(i, i - 1, ByBreak);
          Create(StoreReason(reason));
          Create(Br(cleanup));
        } else {
          ExitScopeAft(i - 1);
        }
    }

    method ExitScopeFore(i: nat)
      requires insertBlock < |blocks| && i < |scopeStack| && CanContinue(scopeStack, i)
      requires scopeStack[i].Loop? || IsFinally(scopeStack[i])
      modifies this
      ensures View() == ExitFore(old(View()), i)
    {
      match scopeStack[i]
      case Loop(fore, _) => Create(Br(fore));
      case Try(cleanup, _, _) =>
        var reason := LookupDestinationId(i, FindLoopOrFinally(scopeStack, i - 1), ByContinue);
        Create(StoreReason(reason));
        Create(Br(cleanup));
    }

    // ----- statements -----

    method Visit(s: Stmt)
      requires Valid(View()) && Fits(s, View())
      modifies this
      ensures View() == Lower(s, old(View()))
      decreases s, 1
    {
      match s
      case Empty =>
      case Expression(e) => var _ := VisitExpr(e);
      case Seq(a, b) =>
        Visit(a);
        FitCarries(old(View()), View(), b);
        Visit(b);
      case If(e, a) => VisitIf(e, a);
      case IfElse(e, a, b) => VisitIfElse(e, a, b);
      case While(e, b) => VisitWhile(e, b);
      case DoWhile(b, e) => VisitDo(b, e);
      case For(init, check, update, b) => VisitFor(init, check, update, b);
      case Switch(e, cs) => VisitSwitch(e, cs);
      case Break => ExitScopeAft(|scopeStack| - 1);
      case Continue => ExitScopeFore(FindLoopOrFinally(scopeStack, |scopeStack| - 1));
      case Return(arg) => VisitReturn(arg);
      case TryFinally(b, f) => VisitTryFinally(b, f);
      case TryCatch(b) => VisitTryCatch(b);
    }

    /** Visit `a` with the insert point in `block`, then branch to `next`. */
    method VisitInside(a: Stmt, block: nat, next: nat)
      requires Valid(View()) && Fits(a, View()) && block < |blocks|
      modifies this
      ensures View() == LowerArm(a, old(View()), block, next)
      decreases a, 2
    {
      insertBlock := block;
      Visit(a);
      Create(Br(next));
    }

    method VisitIf(e: Expr, a: Stmt)
      requires Valid(View()) && Fits(a, View())
      modifies this
      ensures View() == LowerIf(e, a, old(View()))
      decreases a, 3
    {
      hide ScopeOk, SameShape, Lower, Legal, LowerArm, CanBreak, CanContinue, Grows, ScopesGrow, Evolves, EvolvesIn;
      var thenBlock, merge := |blocks|, |blocks| + 1;
      OpenBranches(2, e, thenBlock, merge);
      VisitInside(a, thenBlock, merge);
      insertBlock := merge;
    }

    /** Adds `n` blocks and tests `e` in the current one. */
    method OpenBranches(n: nat, e: Expr, thenBlock: nat, elseBlock: nat)
      requires Valid(View())
      modifies `blocks, `nextReg
      ensures Valid(View()) && View() == EmitCondBr(NewBlocks(old(View()), n), e, thenBlock, elseBlock)
      ensures |blocks| == old(|blocks|) + n
    {
      hide EmitCondBr;
      CondBrOpens(View(), n, e, thenBlock, elseBlock);
      AddBlocks(n);
      GenerateCondBr(e, thenBlock, elseBlock);
    }

    method VisitIfElse(e: Expr, a: Stmt, b: Stmt)
      requires Valid(View()) && Fits(a, View()) && Fits(b, View())
      modifies this
      ensures View() == LowerIfElse(e, a, b, old(View()))
      decreases IfElse(e, a, b), 0, 1
    {
      hide Valid, Fits, Evolves, Lower, LowerArm, LowerIfElse, EmitCondBr, NewBlocks;
      ghost var st := View();
      var thenBlock, elseBlock, merge := |blocks|, |blocks| + 1, |blocks| + 2;
      OpenBranches(3, e, thenBlock, elseBlock);
      ghost var s1 := View();
      FitsSame(st, s1, a);
      FitsSame(st, s1, b);
      FitsAfterArm(s1, thenBlock, LowerArm(a, s1, thenBlock, merge), b);
      IfElseUnfolds(e, a, b, st, s1, LowerArm(a, s1, thenBlock, merge));
      VisitArms(e, a, b, thenBlock, elseBlock, merge);
    }

    method VisitArms(ghost e: Expr, a: Stmt, b: Stmt, thenBlock: nat, elseBlock: nat, merge: nat)
      requires Valid(View()) && Fits(a, View()) && thenBlock < |blocks|
      requires var s := LowerArm(a, View(), thenBlock, merge); Valid(s) && Fits(b, s) && elseBlock < |s.code|
      modifies this
      ensures View() == At(LowerArm(b, LowerArm(a, old(View()), thenBlock, merge), elseBlock, merge), merge)
      decreases IfElse(e, a, b), 0, 0
    {
      hide Valid, Fits, Evolves, Lower, LowerArm;
      VisitInside(a, thenBlock, merge);
      VisitInside(b, elseBlock, merge);
      insertBlock := merge;
    }

    /** The body of a loop, inside the loop's scope. */
    method VisitLoopBody(b: Stmt, fore: nat, aft: nat, block: nat)
      requires Valid(View()) && block < |blocks| && Legal(b, true, true)
      modifies this
      ensures View() == LowerBody(b, old(View()), fore, aft, block)
      decreases b, 3
    {
      hide ScopeOk, SameShape, Lower, Legal, LowerArm;
      ghost var x := Loop(fore, aft);
      LoopFits(At(View(), block), x, b);
      EnterValid(At(View(), block), x);
      scopeStack := scopeStack + [Loop(fore, aft)];
      VisitInside(b, block, fore);
      scopeStack := scopeStack[..|scopeStack| - 1];
    }

    method VisitWhile(e: Expr, b: Stmt)
      requires Valid(View()) && Legal(b, true, true)
      modifies this
      ensures View() == LowerWhile(e, b, old(View()))
      decreases b, 4
    {
      hide ScopeOk, SameShape, Lower, Legal, LowerBody, ScopesGrow, CanBreak, CanContinue;
      var start, body, merge := |blocks|, |blocks| + 1, |blocks| + 2;
      AddBlocks(3);
      Create(Br(start));
      insertBlock := start;
      GenerateCondBr(e, body, merge);
      VisitLoopBody(b, start, merge, body);
      insertBlock := merge;
    }

    method VisitDo(b: Stmt, e: Expr)
      requires Valid(View()) && Legal(b, true, true)
      modifies this
      ensures View() == LowerDo(b, e, old(View()))
      decreases b, 4
    {
      hide ScopeOk, SameShape, Lower, Legal, LowerBody;
      var body, test, merge := |blocks|, |blocks| + 1, |blocks| + 2;
      AddBlocks(3);
      Create(Br(body));
      VisitLoopBody(b, test, merge, body);
      insertBlock := test;
      GenerateCondBr(e, body, merge);
      insertBlock := merge;
    }

    method VisitFor(init: Option<Expr>, check: Option<Expr>, update: Option<Expr>, b: Stmt)
      requires Valid(View()) && Legal(b, true, true)
      modifies this
      ensures View() == LowerFor(init, check, update, b, old(View()))
      decreases b, 4
    {
      hide ScopeOk, SameShape, Lower, Legal, LowerBody, EmitThenBr, EmitLoopTest, ScopesGrow, CanBreak, CanContinue,
        LowerFor;
      ghost var st := View();
      var n := |blocks|;
      var initBlock, test, body, upd, merge := n, n + 1, n + 2, n + 3, n + 4;
      AddBlocks(5);
      Create(Br(initBlock));
      ghost var s1 := View();
      VisitThenBr(initBlock, init, test);
      VisitLoopTest(test, check, body, merge);
      VisitLoopBody(b, upd, merge, body);
      VisitThenBr(upd, update, test);
      ForUnfolds(init, check, update, b, st, s1);
      insertBlock := merge;
    }

    method VisitLoopTest(block: nat, check: Option<Expr>, body: nat, merge: nat)
      requires Valid(View()) && block < |blocks|
      modifies this
      ensures View() == EmitLoopTest(old(View()), block, check, body, merge)
    {
      insertBlock := block;
      if check.Some? {
        GenerateCondBr(check.value, body, merge);
      } else {
        Create(Br(body));
      }
    }

    method VisitThenBr(block: nat, e: Option<Expr>, next: nat)
      requires Valid(View()) && block < |blocks|
      modifies this
      ensures View() == EmitThenBr(old(View()), block, e, next)
    {
      insertBlock := block;
      var _ := VisitOptional(e);
      Create(Br(next));
    }

    method VisitReturn(arg: Option<Expr>)
      requires Valid(View())
      modifies this
      ensures View() == LowerReturn(arg, old(View()))
    {
      var op := VisitOptional(arg);
      if |finallyStack| > 0 {
        returnValueAlloca := true;
        Create(StoreReturn(op));
        Create(StoreReason(REASON_RETURN));
        Create(Br(finallyStack[0]));
      } else {
        Create(Ret(op));
      }
    }

    // ----- switch -----

    method VisitSwitch(e: Expr, cs: Cases)
      requires Valid(View()) && LegalCases(cs, CanContinue(scopeStack, |scopeStack| - 1))
      modifies this
      ensures View() == LowerSwitch(e, cs, old(View()))
      decreases cs, 2
    {
      hide Lower, Legal, LegalCases, LowerClauses, CanContinue, CanBreak, EvolvesIn, LowerSwitch, Valid, Evolves, Emit,
        EmitEval, NewBlocks;
      ghost var st := View();
      var bodies, checks, merge := |blocks|, |blocks| + CaseCount(cs), |blocks| + CaseCount(cs) + TestCount(cs);
      var otherwise := if DefaultIndex(cs) < CaseCount(cs) then bodies + DefaultIndex(cs) else merge;
      var first := if TestCount(cs) > 0 then checks else otherwise;
      OpenSwitchEvolves(st, CaseCount(cs) + TestCount(cs) + 1, e, first);
      var d := OpenSwitch(CaseCount(cs) + TestCount(cs) + 1, e, first);
      SwitchIsClauses(e, cs, st, View(), merge, otherwise);
      VisitClauses(cs, d, bodies, checks, merge, otherwise);
      insertBlock := merge;
    }

    /** The blocks of a switch, its discriminant, and the branch to the first check or clause. */
    method OpenSwitch(k: nat, e: Expr, first: nat) returns (d: Operand)
      requires Valid(View())
      requires EmitEval(NewBlocks(View(), k), e).st.cur < |EmitEval(NewBlocks(View(), k), e).st.code|
      modifies this
      ensures var x := EmitEval(NewBlocks(old(View()), k), e);
              d == x.op && View() == Emit(x.st, Br(first))
    {
      hide ScopeOk, SameShape;
      AddBlocks(k);
      d := VisitExpr(e);
      Create(Br(first));
    }

    method VisitClauses(cs: Cases, d: Operand, bodies: nat, checks: nat, merge: nat, otherwise: nat)
      requires Valid(View()) && LegalCases(cs, CanContinue(scopeStack, |scopeStack| - 1))
      requires bodies + CaseCount(cs) == checks && checks + TestCount(cs) == merge < |blocks|
      modifies this
      ensures View() == LowerClauses(cs, old(View()), d, bodies, checks, merge, otherwise)
      decreases cs, 1
    {
      hide ScopeOk, SameShape, Lower, Legal, LowerTests, LowerBodies, LegalCases, Grows, ScopesGrow, CanBreak,
        CanContinue;
      EnterValid(View(), SwitchScope(merge));
      CasesFitEnter(View(), SwitchScope(merge), cs);
      scopeStack := scopeStack + [SwitchScope(merge)];
      ghost var before := View();
      VisitTests(cs, d, bodies, checks, otherwise);
      CasesFitCarry(before, View(), cs);
      EvolvesSizes(before, View(), checks, merge);
      ghost var tested := View();
      VisitBodies(cs, bodies, merge);
      EvolvesSizes(tested, View(), bodies, checks);
      scopeStack := scopeStack[..|scopeStack| - 1];
    }

    method VisitTests(cs: Cases, d: Operand, bodies: nat, checks: nat, otherwise: nat)
      requires Valid(View()) && checks + TestCount(cs) <= |blocks|
      modifies this
      ensures View() == LowerTests(cs, old(View()), d, bodies, checks, otherwise)
    {
      hide ScopeOk, SameShape, Grows, ScopesGrow;
      var rest, body: nat, check: nat := cs, bodies, checks;
      while !rest.NoCases?
        invariant Valid(View()) && check + TestCount(rest) <= |blocks|
        invariant LowerTests(rest, View(), d, body, check, otherwise)
               == LowerTests(cs, old(View()), d, bodies, checks, otherwise)
        decreases rest
      {
        if rest.TestCase? {
          insertBlock := check;
          var op := VisitExpr(rest.test);
          Create(CaseBr(d, op, if TestCount(rest.rest) > 0 then check + 1 else otherwise, body));
          check := check + 1;
        }
        rest, body := rest.rest, body + 1;
      }
    }

    method VisitBodies(cs: Cases, bodies: nat, merge: nat)
      requires Valid(View()) && bodies + CaseCount(cs) <= |blocks| && CasesFit(cs, View())
      modifies this
      ensures View() == LowerBodies(cs, old(View()), bodies, merge)
      decreases cs, 0
    {
      if !cs.NoCases? {
        ghost var before := View();
        VisitInside(cs.body, bodies, if cs.rest.NoCases? then merge else bodies + 1);
        CasesFitCarry(before, View(), cs.rest);
        VisitBodies(cs.rest, bodies + 1, merge);
      }
    }

    // ----- try -----

    method VisitTryCatch(b: Stmt)
      requires Valid(View()) && Fits(b, View())
      modifies this
      ensures View() == LowerTryCatch(b, old(View()))
      decreases b, 2
    {
      hide ScopeOk, SameShape, Lower, Legal, Grows, CanBreak, CanContinue;
      var merge := |blocks|;
      AddBlocks(1);
      EnterValid(View(), Try(merge, false, []));
      TryFits(View(), Try(merge, false, []), b);
      scopeStack := scopeStack + [Try(merge, false, [])];
      Visit(b);
      Create(Br(merge));
      scopeStack := scopeStack[..|scopeStack| - 1];
      insertBlock := merge;
    }

    method VisitTryBlock(b: Stmt)
      requires Valid(View()) && Fits(b, View())
      modifies this
      ensures View() == LowerTryBlock(b, old(View()))
      decreases b, 2
    {
      hide ScopeOk, SameShape, Lower, Legal;
      var fin := |blocks|;
      AddBlocks(2);
      finallyStack := [fin] + finallyStack;
      EnterValid(View(), Try(fin, true, []));
      TryFits(View(), Try(fin, true, []), b);
      scopeStack := scopeStack + [Try(fin, true, [])];
      Visit(b);
      Create(StoreReason(REASON_FALLOFF_TRY));
      Create(Br(fin));
    }

    method VisitTryFinally(b: Stmt, f: Stmt)
      requires Valid(View()) && Fits(b, View()) && Fits(f, View())
      modifies this
      ensures View() == LowerTryFinally(b, f, old(View()))
      decreases TryFinally(b, f), 0
    {
      hide Valid, Fits, Evolves, Lower, LowerTryBlock, LowerFinally, DestinationOk, LeaveTry;
      var fin, merge := |blocks|, |blocks| + 1;
      ghost var st := View();
      var ds := VisitProtected(b);
      LeftTry(st, LowerTryBlock(b, st), View(), f);
      assert LowerTryFinally(b, f, st) == At(LowerFinally(f, View(), fin, ds, merge), merge);
      hide LowerTryFinally;
      VisitFinalizer(f, fin, ds, merge);
      insertBlock := merge;
    }

    /** The try block, after which both stacks are popped. */
    method VisitProtected(b: Stmt) returns (ds: seq<Destination>)
      requires Valid(View()) && Fits(b, View())
      modifies this
      ensures View() == LeaveTry(old(View()), LowerTryBlock(b, old(View())))
      ensures ds == LowerTryBlock(b, old(View())).scopes[old(|scopeStack|)].destinations
      decreases b, 3
    {
      hide Valid, Fits, Evolves, Lower, LowerTryBlock;
      VisitTryBlock(b);
      ds := scopeStack[|scopeStack| - 1].destinations;
      finallyStack := finallyStack[1..];
      scopeStack := scopeStack[..|scopeStack| - 1];
    }

    method VisitFinalizer(f: Stmt, fin: nat, ds: seq<Destination>, merge: nat)
      requires Valid(View()) && Fits(f, View()) && fin < |blocks|
      requires forall k :: 0 <= k < |ds| ==> DestinationOk(scopeStack, |scopeStack|, ds[k])
      modifies this
      ensures View() == LowerFinally(f, old(View()), fin, ds, merge)
      decreases f, 2
    {
      insertBlock := fin;
      Visit(f);
      DestinationsCarry(old(View()), View(), ds);
      CreateDispatch(ds, merge);
    }

    method CreateDispatch(ds: seq<Destination>, merge: nat)
      requires Valid(View())
      requires forall k :: 0 <= k < |ds| ==> DestinationOk(scopeStack, |scopeStack|, ds[k])
      modifies this
      ensures View() == Dispatch(old(View()), ds, merge)
    {
      var falloff := |blocks|;
      var first := falloff + if returnValueAlloca then 2 else 1;
      AddBlocks(first - falloff + |ds|);
      Create(SwitchReason(merge, DispatchArms(returnValueAlloca, ds, falloff)));
      insertBlock := falloff;
      Create(Br(merge));
      if returnValueAlloca {
        insertBlock := falloff + 1;
        if |finallyStack| > 0 {
          Create(StoreReason(REASON_RETURN));
          Create(Br(finallyStack[0]));
        } else {
          Create(RetStored);
        }
      }
      assert View() == DispatchHead(old(View()), ds, merge);
      CreateTrampolines(ds, first);
    }

    method CreateTrampolines(ds: seq<Destination>, base: nat)
      requires Valid(View()) && base + |ds| <= |blocks|
      requires forall k :: 0 <= k < |ds| ==> DestinationOk(scopeStack, |scopeStack|, ds[k])
      modifies this
      ensures View() == Trampolines(old(View()), ds, base)
    {
      hide ScopeOk, SameShape, Trampoline, Grows, ScopesGrow, DestinationOk;
      var s := 0;
      assert ds[0..] == ds;
      while s < |ds|
        invariant 0 <= s <= |ds| && Valid(View()) && base + |ds| <= |blocks|
        invariant forall k :: 0 <= k < |ds| ==> DestinationOk(scopeStack, |scopeStack|, ds[k])
        invariant Trampolines(View(), ds[s..], base + s) == Trampolines(old(View()), ds, base)
      {
        ghost var before := View();
        CreateTrampoline(ds[s], base + s);
        EvolvesSizes(At(before, base + s), View(), base + s, base + s + 1);
        DestinationsCarry(before, View(), ds);
        assert ds[s..][1..] == ds[s + 1..];
        s := s + 1;
      }
    }

    method CreateTrampoline(d: Destination, block: nat)
      requires Valid(View()) && block < |blocks| && DestinationOk(scopeStack, |scopeStack|, d)
      modifies this
      ensures View() == Trampoline(At(old(View()), block), d)
    {
      insertBlock := block;
      if d.kind.ByBreak? {
        ExitScopeAft(d.scope);
      } else {
        ExitScopeFore(d.scope);
      }
    }
  }

  /** Compiles one function body. The code it returns halts with a value and a trace exactly when the source
      completes with them under shared cells, which is the meaning of the language unless a finalizer holds a
      try/finally of its own. */
  method CompileFunction(body: Stmt) returns (code: Code)
    requires Legal(body, false, false)
    ensures code == LowerFunction(body)
    ensures forall o, v, t :: Halts(code, o, v, t) <==> CellCompletes(o, body, v, t)
    ensures SafeFinalizers(body) ==> forall o, v, t :: Halts(code, o, v, t) <==> Completes(o, body, v, t)
  {
    hide Lower, Halts, Completes, CellCompletes, SafeFinalizers;
    var compiler := new FunctionCompiler();
    compiler.Visit(body);
    compiler.Create(Ret(Const(Undefined)));
    code := compiler.blocks;
    forall o: Oracle, v: Value, t: Trace
      ensures Halts(code, o, v, t) <==> CellCompletes(o, body, v, t)
      ensures SafeFinalizers(body) ==> (Halts(code, o, v, t) <==> Completes(o, body, v, t))
    {
      LoweringIsCellExec(o, body, v, t);
      if SafeFinalizers(body) {
        CellsMakeNoDifference(o, body, v, t);
      }
    }
  }
}

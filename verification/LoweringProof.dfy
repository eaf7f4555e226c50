/** The lowering preserves meaning. */
module LoweringProof {
  import opened Basics
  import opened Completions
  import opened ReasonCell
  import opened CellAgreement
  import opened BlockMachine
  import opened Emitter
  import opened Lowering
  import opened ExitNumbering
  import opened Simulation

  lemma {:induction false} Simulate(g: Code, o: Oracle, s: Stmt, fuel: nat, st: State, c: Config)
    returns (n: nat, c': Config)
    requires Valid(st) && Fits(s, st)
    requires AtEnd(c, st) && Hosts(g, Lower(s, st).code)
    ensures c' == Run(g, o, c, n)
    ensures Follows(CellExec(o, s, fuel, StoreOf(c)), fuel, n, c.reason, Lower(s, st), c')
    decreases fuel, s, 1
  {
    hide Run, Step, ScopeOk, SameShape, Grows, Hosts, ScopesGrow, BreakLands, ContinueLands, ReturnLands, CanBreak,
      CanContinue;
    match s
    case Empty => n, c' := 0, c; RunAdd(g, o, c, 0, 0);
    case Expression(e) => n, c' := RunEval(g, o, st, Some(e), c);
    case Seq(a, b) => n, c' := SimulateSeq(g, o, a, b, fuel, st, c);
    case If(e, a) => n, c' := SimulateIf(g, o, e, a, fuel, st, c);
    case IfElse(e, a, b) => n, c' := SimulateIfElse(g, o, e, a, b, fuel, st, c);
    case While(e, b) => n, c' := SimulateWhile(g, o, e, b, fuel, st, c);
    case DoWhile(b, e) => n, c' := SimulateDo(g, o, b, e, fuel, st, c);
    case For(init, check, update, b) => n, c' := SimulateFor(g, o, init, check, update, b, fuel, st, c);
    case Switch(e, cs) => n, c' := SimulateSwitch(g, o, e, cs, fuel, st, c);
    case Break =>
      n, c' := SimulateBreak(g, o, fuel, st, c);
    case Continue =>
      n, c' := SimulateContinue(g, o, fuel, st, c);
    case Return(arg) => n, c' := SimulateReturn(g, o, arg, fuel, st, c);
    case TryFinally(b, f) => n, c' := SimulateTryFinally(g, o, b, f, fuel, st, c);
    case TryCatch(b) => n, c' := SimulateTryCatch(g, o, b, fuel, st, c);
  }

  lemma {:induction false} SimulateSeq(g: Code, o: Oracle, a: Stmt, b: Stmt, fuel: nat, st: State, c: Config)
    returns (n: nat, c': Config)
    requires Valid(st) && Fits(a, st) && Fits(b, st)
    requires AtEnd(c, st) && Hosts(g, LowerSeq(a, b, st).code)
    ensures c' == Run(g, o, c, n)
    ensures Follows(CellExec(o, Seq(a, b), fuel, StoreOf(c)), fuel, n, c.reason, LowerSeq(a, b, st), c')
    decreases fuel, Seq(a, b), 0
  {
    hide Run, Step, Lower, Legal, ScopeOk, SameShape, ScopesGrow, Grows, Hosts, BreakLands, ContinueLands, ReturnLands;
    var s1 := Lower(a, st);
    FitCarries(st, s1, b);
    var s2 := Lower(b, s1);
    HostsBack(g, s1, s2, s1.cur, s1.cur + 1);
    n, c' := Simulate(g, o, a, fuel, st, c);
    var r := CellExec(o, a, fuel, StoreOf(c));
    if r.Ended? && r.completion.Normal? {
      var n1, c1 := Simulate(g, o, b, fuel, s1, c');
      RunAdd(g, o, c, n, n1);
      n, c' := n + n1, c1;
    } else if r.Ended? {
      ArrivesLater(s1, s2, r.completion, r.store, c');
    }
  }

  /** A statement lowered into its own empty block. */
  lemma {:induction false} SimulateArm(g: Code, o: Oracle, a: Stmt, fuel: nat, st: State, block: nat, next: nat,
                                       c: Config)
    returns (n: nat, c': Config)
    requires Valid(st) && Fits(a, st) && block < |st.code| && st.code[block] == []
    requires AtStart(c, block) && Hosts(g, LowerArm(a, st, block, next).code)
    ensures c' == Run(g, o, c, n)
    ensures var out := CellExec(o, a, fuel, StoreOf(c));
            if out.Ended? && out.completion.Normal? then
              AtStart(c', next) && StoreOf(c') == out.store && Marked(c.reason, out.store, LowerArm(a, st, block, next))
            else Follows(out, fuel, n, c.reason, LowerArm(a, st, block, next), c')
    decreases fuel, a, 2
  {
    hide Run, Step, Lower, Legal, CellExec, ScopeOk, SameShape, Grows, Hosts, BreakLands, ContinueLands, ReturnLands;
    var s1 := Lower(a, At(st, block));
    HostsEmit(g, s1, Br(next));
    n, c' := Simulate(g, o, a, fuel, At(st, block), c);
    var out := CellExec(o, a, fuel, StoreOf(c));
    if out.Ended? && out.completion.Normal? {
      var c2 := RunBr(g, o, s1, next, c');
      RunAdd(g, o, c, n, 1);
      n, c' := n + 1, c2;
    } else if out.Ended? {
      EvolvesRefl(s1);
      ArrivesLater(s1, Emit(s1, Br(next)), out.completion, out.store, c');
    }
  }

  lemma {:induction false} SimulateIf(g: Code, o: Oracle, e: Expr, a: Stmt, fuel: nat, st: State, c: Config)
    returns (n: nat, c': Config)
    requires Valid(st) && Fits(a, st)
    requires AtEnd(c, st) && Hosts(g, LowerIf(e, a, st).code)
    ensures c' == Run(g, o, c, n)
    ensures Follows(CellExec(o, If(e, a), fuel, StoreOf(c)), fuel, n, c.reason, LowerIf(e, a, st), c')
    decreases fuel, If(e, a), 0
  {
    hide Run, Step, Lower, ScopeOk, Legal, LowerArm, Hosts, Grows, ScopesGrow, EmitCondBr, Eval, Truthy, CanBreak,
      CanContinue, BreakLands, ContinueLands, ReturnLands;
    var thenBlock, merge := |st.code|, |st.code| + 1;
    var s0 := NewBlocks(st, 2);
    var s1 := EmitCondBr(s0, e, thenBlock, merge);
    EvolvesRefl(s0);
    EvolvesCondBr(s0, s0, e, thenBlock, merge);
    FitCarries(st, s1, a);
    StaysEmpty(s0, s1, s0.cur, s0.cur + 1, thenBlock);
    StaysEmpty(s0, s1, s0.cur, s0.cur + 1, merge);
    var s2 := LowerArm(a, s1, thenBlock, merge);
    StaysEmpty(s1, s2, thenBlock, thenBlock + 1, merge);
    HostsBack(g, s1, s2, thenBlock, thenBlock + 1);
    var n1, c1 := RunCondBr(g, o, s0, e, thenBlock, merge, c);
    n, c' := n1, c1;
    if Truthy(Eval(o, e, c.trace).value) {
      var n2, c2 := SimulateArm(g, o, a, fuel, s1, thenBlock, merge, c1);
      RunAdd(g, o, c, n1, n2);
      n, c' := n1 + n2, c2;
    }
  }

  lemma {:induction false} SimulateIfElse(g: Code, o: Oracle, e: Expr, a: Stmt, b: Stmt, fuel: nat, st: State,
                                          c: Config)
    returns (n: nat, c': Config)
    requires Valid(st) && Fits(a, st) && Fits(b, st)
    requires AtEnd(c, st) && Hosts(g, LowerIfElse(e, a, b, st).code)
    ensures c' == Run(g, o, c, n)
    ensures Follows(CellExec(o, IfElse(e, a, b), fuel, StoreOf(c)), fuel, n, c.reason, LowerIfElse(e, a, b, st), c')
    decreases fuel, IfElse(e, a, b), 0
  {
    hide Run, Step, Lower, ScopeOk, Legal, LowerArm, Hosts, Grows, ScopesGrow, EmitCondBr, Eval, Truthy, CanBreak,
      CanContinue, BreakLands, ContinueLands, ReturnLands;
    var thenBlock, elseBlock, merge := |st.code|, |st.code| + 1, |st.code| + 2;
    var s0 := NewBlocks(st, 3);
    var s1 := EmitCondBr(s0, e, thenBlock, elseBlock);
    EvolvesRefl(s0);
    EvolvesCondBr(s0, s0, e, thenBlock, elseBlock);
    FitCarries(st, s1, a);
    StaysEmpty(s0, s1, s0.cur, s0.cur + 1, thenBlock);
    StaysEmpty(s0, s1, s0.cur, s0.cur + 1, elseBlock);
    StaysEmpty(s0, s1, s0.cur, s0.cur + 1, merge);
    var s2 := LowerArm(a, s1, thenBlock, merge);
    StaysEmpty(s1, s2, thenBlock, thenBlock + 1, elseBlock);
    StaysEmpty(s1, s2, thenBlock, thenBlock + 1, merge);
    ScopesGrowTrans(st, s1, s2);
    FitCarries(st, s2, b);
    var s3 := LowerArm(b, s2, elseBlock, merge);
    StaysEmpty(s2, s3, elseBlock, elseBlock + 1, merge);
    HostsBack(g, s2, s3, elseBlock, elseBlock + 1);
    HostsBack(g, s1, s2, thenBlock, thenBlock + 1);
    var n1, c1 := RunCondBr(g, o, s0, e, thenBlock, elseBlock, c);
    var n2, c2;
    var out := CellExec(o, IfElse(e, a, b), fuel, StoreOf(c));
    if Truthy(Eval(o, e, c.trace).value) {
      n2, c2 := SimulateArm(g, o, a, fuel, s1, thenBlock, merge, c1);
      if out.Ended? && !out.completion.Normal? {
        ArrivesLater(s2, LowerIfElse(e, a, b, st), out.completion, out.store, c2);
      }
    } else {
      n2, c2 := SimulateArm(g, o, b, fuel, s2, elseBlock, merge, c1);
    }
    RunAdd(g, o, c, n1, n2);
    n, c' := n1 + n2, c2;
  }

  // ----- loops -----

  /** Where one turn of a loop body, lowered up to `st`, leaves the machine. */
  ghost predicate TurnEnds(out: Ending, fuel: nat, n: nat, from: int, st: State, fore: nat, aft: nat, c: Config) {
    match out
    case Unfinished => n >= fuel && c.Running?
    case Ended(k, w) =>
      && Marked(from, w, st)
      && match k
         case Normal => AtStart(c, fore) && StoreOf(c) == w
         case Continuing => AtStart(c, fore) && StoreOf(c) == w
         case Breaking => AtStart(c, aft) && StoreOf(c) == w
         case Returning(v) => ReturnLands(st.finallies, st.hasReturnCell, v, w, c)
  }

  lemma {:induction false} SimulateBody(g: Code, o: Oracle, b: Stmt, fuel: nat, st: State, fore: nat, aft: nat,
                                        block: nat, c: Config)
    returns (n: nat, c': Config)
    requires Valid(st) && Legal(b, true, true) && block < |st.code| && st.code[block] == []
    requires AtStart(c, block) && Hosts(g, LowerBody(b, st, fore, aft, block).code)
    ensures c' == Run(g, o, c, n)
    ensures TurnEnds(CellExec(o, b, fuel, StoreOf(c)), fuel, n, c.reason, LowerBody(b, st, fore, aft, block), fore,
              aft, c')
    decreases fuel, b, 3
  {
    var x := Loop(fore, aft);
    LoopFits(At(st, block), x, b);
    EnterValid(At(st, block), x);
    var s0 := Enter(st, x);
    var s1 := LowerArm(b, s0, block, fore);
    n, c' := SimulateArm(g, o, b, fuel, s0, block, fore, c);
    var i := |st.scopes|;
    assert SameShape(s0.scopes[i], s1.scopes[i]);
    assert s0.scopes[i] == x && s1.scopes[i] == x;
  }

  /** How a whole loop ends: past it, or by a return. */
  ghost predicate LoopEnds(out: Ending, fuel: nat, n: nat, from: int, st: State, aft: nat, c: Config) {
    match out
    case Unfinished => n >= fuel && c.Running?
    case Ended(k, w) =>
      && Marked(from, w, st)
      && if k.Returning? then ReturnLands(st.finallies, st.hasReturnCell, k.value, w, c)
         else k.Normal? && AtStart(c, aft) && StoreOf(c) == w
  }

  /** A loop that tests first, given where its test, body and update blocks were emitted.
      Without an update block, `fore` is the test block itself. */
  lemma {:induction false} SimulateIterate(g: Code, o: Oracle, check: Option<Expr>, update: Option<Expr>, b: Stmt,
                                           fuel: nat, sT: State, test: nat, sB: State, body: nat, sU: State,
                                           fore: nat, aft: nat, c: Config)
    returns (n: nat, c': Config)
    requires Valid(sT) && test < |sT.code| && sT.code[test] == []
             && Hosts(g, EmitLoopTest(sT, test, check, body, aft).code)
    requires Valid(sB) && body < |sB.code| && sB.code[body] == [] && Legal(b, true, true)
    requires Hosts(g, LowerBody(b, sB, fore, aft, body).code)
    requires if fore == test then update.None?
             else Valid(sU) && fore < |sU.code| && sU.code[fore] == [] &&
                  Hosts(g, EmitThenBr(sU, fore, update, test).code)
    requires AtStart(c, test)
    ensures c' == Run(g, o, c, n)
    ensures LoopEnds(CellIterate(o, check, update, b, fuel, StoreOf(c)), fuel, n, c.reason,
              LowerBody(b, sB, fore, aft, body), aft, c')
    decreases fuel, b, 4
  {
    hide Run, Step, Lower, ScopeOk, SameShape, Legal, LowerArm, LowerBody, EmitLoopTest, EmitThenBr, Hosts, Valid,
      ReturnLands, Truthy;
    n, c' := 0, c;
    RunAdd(g, o, c, 0, 0);
    if fuel > 0 {
      var v := EvalOr(o, check, Boolean(true), c.trace);
      var w := Evaluate(o, check, StoreOf(c));
      n, c' := RunLoopTest(g, o, sT, test, check, body, aft, c);
      if Truthy(v.value) {
        var n1, c1 := SimulateBody(g, o, b, fuel, sB, fore, aft, body, c');
        RunAdd(g, o, c, n, n1);
        n, c' := n + n1, c1;
        var r := CellExec(o, b, fuel, w);
        if r.Ended? && (r.completion.Normal? || r.completion.Continuing?) {
          if fore != test {
            var n2, c2 := RunUpdate(g, o, sU, fore, update, test, c');
            RunAdd(g, o, c, n, n2);
            n, c' := n + n2, c2;
          }
          var n3, c3 := SimulateIterate(g, o, check, update, b, fuel - 1, sT, test, sB, body, sU, fore, aft, c');
          RunAdd(g, o, c, n, n3);
          n, c' := n + n3, c3;
        }
      }
    }
  }

  lemma RunLoopTest(g: Code, o: Oracle, st: State, block: nat, check: Option<Expr>, body: nat, merge: nat, c: Config)
    returns (n: nat, c': Config)
    requires Valid(st) && block < |st.code| && st.code[block] == []
             && Hosts(g, EmitLoopTest(st, block, check, body, merge).code)
    requires AtStart(c, block)
    ensures n >= 1 && c' == Run(g, o, c, n) && c'.Running? && StoreOf(c') == Evaluate(o, check, StoreOf(c))
    ensures AtStart(c', if Truthy(EvalOr(o, check, Boolean(true), c.trace).value) then body else merge)
  {
    if check.Some? {
      n, c' := RunCondBr(g, o, At(st, block), check.value, body, merge, c);
    } else {
      n := 1;
      c' := RunBr(g, o, At(st, block), body, c);
    }
  }

  lemma RunUpdate(g: Code, o: Oracle, st: State, block: nat, e: Option<Expr>, next: nat, c: Config)
    returns (n: nat, c': Config)
    requires Valid(st) && block < |st.code| && st.code[block] == [] && Hosts(g, EmitThenBr(st, block, e, next).code)
    requires AtStart(c, block)
    ensures c' == Run(g, o, c, n) && AtStart(c', next) && StoreOf(c') == Evaluate(o, e, StoreOf(c))
  {
    var v := EmitOptional(At(st, block), e);
    EvolvesEval(At(st, block), At(st, block), e);
    HostsEmit(g, v.st, Br(next));
    var n1, c1 := RunEval(g, o, At(st, block), e, c);
    var c2 := RunBr(g, o, v.st, next, c1);
    RunAdd(g, o, c, n1, 1);
    n, c' := n1 + 1, c2;
  }

  /** New blocks, and a branch to one of them. */
  lemma OpenLoop(st: State, k: nat, first: nat)
    requires Valid(st)
    ensures var s1 := Emit(NewBlocks(st, k), Br(first));
            && Valid(s1) && |s1.code| == |st.code| + k && s1.finallies == st.finallies
            && forall i :: |st.code| <= i < |s1.code| ==> s1.code[i] == []
  {
  }

  lemma {:induction false} SimulateWhile(g: Code, o: Oracle, e: Expr, b: Stmt, fuel: nat, st: State, c: Config)
    returns (n: nat, c': Config)
    requires Valid(st) && Legal(b, true, true)
    requires AtEnd(c, st) && Hosts(g, LowerWhile(e, b, st).code)
    ensures c' == Run(g, o, c, n)
    ensures Follows(CellExec(o, While(e, b), fuel, StoreOf(c)), fuel, n, c.reason, LowerWhile(e, b, st), c')
    decreases fuel, While(e, b), 0
  {
    hide Run, Step, Lower, ScopeOk, SameShape, Legal, LowerArm, LowerBody, CellIterate, Grows, Hosts, ScopesGrow,
      Valid, BreakLands, ContinueLands, Emit;
    var start, body, merge := |st.code|, |st.code| + 1, |st.code| + 2;
    var s1 := Emit(NewBlocks(st, 3), Br(start));
    OpenLoop(st, 3, start);
    var s2 := EmitLoopTest(s1, start, Some(e), body, merge);
    AllStayEmpty(s1, s2, start, start + 1, body, merge + 1);
    var s3 := LowerBody(b, s2, start, merge, body);
    StaysEmpty(s2, s3, body, body + 1, merge);
    HostsBack(g, s2, s3, body, body + 1);
    HostsBack(g, s1, s2, start, start + 1);
    var c1 := RunBr(g, o, NewBlocks(st, 3), start, c);
    var n1, c2 := SimulateIterate(g, o, Some(e), None, b, fuel, s1, start, s2, body, s2, start, merge, c1);
    RunAdd(g, o, c, 1, n1);
    n, c' := 1 + n1, c2;
  }

  lemma {:induction false} SimulateFor(g: Code, o: Oracle, init: Option<Expr>, check: Option<Expr>,
                                       update: Option<Expr>, b: Stmt, fuel: nat, st: State, c: Config)
    returns (n: nat, c': Config)
    requires Valid(st) && Legal(b, true, true)
    requires AtEnd(c, st) && Hosts(g, LowerFor(init, check, update, b, st).code)
    ensures c' == Run(g, o, c, n)
    ensures var s := For(init, check, update, b);
            Follows(CellExec(o, s, fuel, StoreOf(c)), fuel, n, c.reason, LowerFor(init, check, update, b, st), c')
    decreases fuel, For(init, check, update, b), 0
  {
    hide Run, Step, Lower, ScopeOk, SameShape, Legal, LowerArm, LowerBody, CellIterate, EmitThenBr, EmitLoopTest,
      Grows, Hosts, ScopesGrow, EvalOr, Valid, Emit, BreakLands, ContinueLands;
    var k := |st.code|;
    var initBlock, test, body, upd, merge := k, k + 1, k + 2, k + 3, k + 4;
    var s1 := Emit(NewBlocks(st, 5), Br(initBlock));
    OpenLoop(st, 5, initBlock);
    var s2 := EmitThenBr(s1, initBlock, init, test);
    AllStayEmpty(s1, s2, initBlock, initBlock + 1, test, merge + 1);
    var s3 := EmitLoopTest(s2, test, check, body, merge);
    AllStayEmpty(s2, s3, test, test + 1, body, merge + 1);
    var s4 := LowerBody(b, s3, upd, merge, body);
    AllStayEmpty(s3, s4, body, body + 1, upd, merge + 1);
    var s5 := EmitThenBr(s4, upd, update, test);
    AllStayEmpty(s4, s5, upd, upd + 1, merge, merge + 1);
    HostsBack(g, s4, s5, upd, upd + 1);
    HostsBack(g, s3, s4, body, body + 1);
    HostsBack(g, s2, s3, test, test + 1);
    HostsBack(g, s1, s2, initBlock, initBlock + 1);
    var c1 := RunBr(g, o, NewBlocks(st, 5), initBlock, c);
    var n2, c2 := RunUpdate(g, o, s1, initBlock, init, test, c1);
    RunAdd(g, o, c, 1, n2);
    var n3, c3 := SimulateIterate(g, o, check, update, b, fuel, s2, test, s3, body, s4, upd, merge, c2);
    RunAdd(g, o, c, 1 + n2, n3);
    n, c' := 1 + n2 + n3, c3;
  }

  lemma {:induction false} SimulateDo(g: Code, o: Oracle, b: Stmt, e: Expr, fuel: nat, st: State, c: Config)
    returns (n: nat, c': Config)
    requires Valid(st) && Legal(b, true, true)
    requires AtEnd(c, st) && Hosts(g, LowerDo(b, e, st).code)
    ensures c' == Run(g, o, c, n)
    ensures Follows(CellExec(o, DoWhile(b, e), fuel, StoreOf(c)), fuel, n, c.reason, LowerDo(b, e, st), c')
    decreases fuel, DoWhile(b, e), 0
  {
    hide Run, Step, Lower, ScopeOk, SameShape, Legal, LowerArm, LowerBody, Grows, Hosts, ScopesGrow, BreakLands,
      ContinueLands, EmitCondBr;
    var body, test, merge := |st.code|, |st.code| + 1, |st.code| + 2;
    var s1 := Emit(NewBlocks(st, 3), Br(body));
    OpenLoop(st, 3, body);
    var s2 := LowerBody(b, s1, test, merge, body);
    AllStayEmpty(s1, s2, body, body + 1, test, merge + 1);
    var s3 := EmitCondBr(At(s2, test), e, body, merge);
    EvolvesRefl(At(s2, test));
    EvolvesCondBr(At(s2, test), At(s2, test), e, body, merge);
    StaysEmpty(At(s2, test), s3, test, test + 1, merge);
    HostsBack(g, s2, s3, test, test + 1);
    HostsBack(g, s1, s2, body, body + 1);
    var c1 := RunBr(g, o, NewBlocks(st, 3), body, c);
    var n1, c2 := SimulateTurns(g, o, b, e, fuel, s1, body, s2, test, merge, c1);
    RunAdd(g, o, c, 1, n1);
    n, c' := 1 + n1, c2;
    assert s3.code[merge] == [];
  }

  /** Turns of a do loop, from the start of its body. */
  lemma {:induction false} SimulateTurns(g: Code, o: Oracle, b: Stmt, e: Expr, fuel: nat, sB: State, body: nat,
                                         sT: State, test: nat, aft: nat, c: Config)
    returns (n: nat, c': Config)
    requires Valid(sB) && body < |sB.code| && sB.code[body] == [] && Legal(b, true, true)
    requires Hosts(g, LowerBody(b, sB, test, aft, body).code)
    requires Valid(sT) && test < |sT.code| && sT.code[test] == []
             && Hosts(g, EmitCondBr(At(sT, test), e, body, aft).code)
    requires AtStart(c, body)
    ensures c' == Run(g, o, c, n)
    ensures LoopEnds(CellExec(o, DoWhile(b, e), fuel, StoreOf(c)), fuel, n, c.reason,
              LowerBody(b, sB, test, aft, body), aft, c')
    decreases fuel, b, 4
  {
    hide Run, Step, Lower, ScopeOk, SameShape, Legal, LowerArm, LowerBody, EmitCondBr, Hosts, Valid;
    n, c' := 0, c;
    RunAdd(g, o, c, 0, 0);
    if fuel > 0 {
      n, c' := SimulateBody(g, o, b, fuel, sB, test, aft, body, c);
      var r := CellExec(o, b, fuel, StoreOf(c));
      if r.Ended? && (r.completion.Normal? || r.completion.Continuing?) {
        var n1, c1 := RunCondBr(g, o, At(sT, test), e, body, aft, c');
        RunAdd(g, o, c, n, n1);
        n, c' := n + n1, c1;
        if Truthy(Eval(o, e, r.store.trace).value) {
          var n2, c2 := SimulateTurns(g, o, b, e, fuel - 1, sB, body, sT, test, aft, c');
          RunAdd(g, o, c, n, n2);
          n, c' := n + n2, c2;
        }
      }
    }
  }

  // ----- jumps -----

  lemma SimulateBreak(g: Code, o: Oracle, fuel: nat, st: State, c: Config) returns (n: nat, c': Config)
    requires Valid(st) && Fits(Break, st)
    requires AtEnd(c, st) && Hosts(g, Lower(Break, st).code)
    ensures c' == Run(g, o, c, n)
    ensures Arrives(Lower(Break, st), Breaking, StoreOf(c), c')
  {
    n, c' := RunExitAft(g, o, st, |st.scopes| - 1, c);
    AlikeExits(st.scopes, Lower(Break, st).scopes, |st.scopes| - 1);
  }

  lemma SimulateContinue(g: Code, o: Oracle, fuel: nat, st: State, c: Config) returns (n: nat, c': Config)
    requires Valid(st) && Fits(Continue, st)
    requires AtEnd(c, st) && Hosts(g, Lower(Continue, st).code)
    ensures c' == Run(g, o, c, n)
    ensures Arrives(Lower(Continue, st), Continuing, StoreOf(c), c')
  {
    hide Run, Step, Hosts, ScopeOk, SameShape, ContinueLands, Grows, ExitFore;
    var top := |st.scopes| - 1;
    var i := FindLoopOrFinally(st.scopes, top);
    var r := Lower(Continue, st);
    n, c' := RunExitFore(g, o, st, i, c);
    GrowExits(st.scopes, r.scopes);
    ContinueFrom(r.scopes, top, StoreOf(c), c');
  }

  lemma ContinueFrom(scopes: seq<Scope>, i: nat, w: Store, c: Config)
    requires i < |scopes| && CanContinue(scopes, i)
    ensures ContinueLands(scopes, FindLoopOrFinally(scopes, i), w, c) == ContinueLands(scopes, i, w, c)
  {
  }

  lemma SimulateReturn(g: Code, o: Oracle, arg: Option<Expr>, fuel: nat, st: State, c: Config)
    returns (n: nat, c': Config)
    requires Valid(st) && AtEnd(c, st) && Hosts(g, LowerReturn(arg, st).code)
    ensures c' == Run(g, o, c, n)
    ensures Follows(CellExec(o, Return(arg), fuel, StoreOf(c)), fuel, n, c.reason, LowerReturn(arg, st), c')
  {
    hide Run, Step, ScopeOk, SameShape, ScopesGrow, Grows;
    if st.finallies != [] {
      n, c' := RunReturnToFinally(g, o, arg, st, c);
    } else {
      var v := EmitOptional(st, arg);
      EvolvesEval(st, st, arg);
      HostsEmit(g, v.st, Ret(v.op));
      var n1, c1 := RunEval(g, o, st, arg, c);
      RunRet(g, o, v.st, v.op, c1);
      RunAdd(g, o, c, n1, 1);
      n, c' := n1 + 1, Step(g, o, c1);
    }
  }

  lemma RunRet(g: Code, o: Oracle, st: State, op: Operand, c: Config)
    requires AtEnd(c, st) && Hosts(g, Emit(st, Ret(op)).code)
    ensures Step(g, o, c) == Run(g, o, c, 1) == Halted(OperandValue(op, c.regs), c.trace)
  {
    StepEmitted(g, o, st, Ret(op), c);
    assert Run(g, o, Step(g, o, c), 0) == Step(g, o, c);
  }

  /** A return inside a try block with a finalizer: the value, the reason, and on to the finally block. */
  lemma RunReturnToFinally(g: Code, o: Oracle, arg: Option<Expr>, st: State, c: Config)
    returns (n: nat, c': Config)
    requires Valid(st) && AtEnd(c, st) && Hosts(g, LowerReturn(arg, st).code) && st.finallies != []
    ensures c' == Run(g, o, c, n) && AtStart(c', st.finallies[0]) && LowerReturn(arg, st).hasReturnCell
    ensures StoreOf(c') == Store(EvalOr(o, arg, Undefined, c.trace).trace, REASON_RETURN,
                                 EvalOr(o, arg, Undefined, c.trace).value)
    ensures LowerReturn(arg, st).finallies == st.finallies
  {
    hide Run, ScopeOk, SameShape;
    var v := EmitOptional(st, arg);
    EvolvesEval(st, st, arg);
    var s1 := v.st.(hasReturnCell := true);
    var s2 := Emit(s1, StoreReturn(v.op));
    var s3 := Emit(s2, StoreReason(REASON_RETURN));
    HostsEmit(g, s3, Br(st.finallies[0]));
    HostsEmit(g, s2, StoreReason(REASON_RETURN));
    HostsEmit(g, s1, StoreReturn(v.op));
    var n1, c1 := RunEval(g, o, st, arg, c);
    StepEmitted(g, o, s1, StoreReturn(v.op), c1);
    var c2 := Step(g, o, c1);
    RunAdd(g, o, c, n1, 1);
    c' := RunStoreBr(g, o, s2, REASON_RETURN, st.finallies[0], c2);
    RunAdd(g, o, c, n1 + 1, 2);
    n := n1 + 3;
  }

  // ----- try -----

  lemma {:induction false} SimulateTryCatch(g: Code, o: Oracle, b: Stmt, fuel: nat, st: State, c: Config)
    returns (n: nat, c': Config)
    requires Valid(st) && Fits(b, st)
    requires AtEnd(c, st) && Hosts(g, LowerTryCatch(b, st).code)
    ensures c' == Run(g, o, c, n)
    ensures Follows(CellExec(o, b, fuel, StoreOf(c)), fuel, n, c.reason, LowerTryCatch(b, st), c')
    decreases fuel, b, 3
  {
    hide Run, Step, Lower, CellExec, ScopeOk, SameShape, Legal;
    var merge := |st.code|;
    var s1 := NewBlocks(st, 1);
    var x := Try(merge, false, []);
    EnterValid(s1, x);
    TryFits(s1, x, b);
    var s2 := Lower(b, Enter(s1, x));
    var s3 := Emit(s2, Br(merge));
    HostsEmit(g, s2, Br(merge));
    n, c' := Simulate(g, o, b, fuel, Enter(s1, x), c);
    var out := CellExec(o, b, fuel, StoreOf(c));
    if out.Ended? {
      ThroughTryCatch(s1, x, s2, out.completion, out.store, c');
      if out.completion.Normal? {
        var c2 := RunBr(g, o, s2, merge, c');
        RunAdd(g, o, c, n, 1);
        n, c' := n + 1, c2;
        assert s3.code[merge] == [];
      } else {
        EvolvesRefl(Leave(s2));
        ArrivesLater(Leave(s2), LowerTryCatch(b, st), out.completion, out.store, c');
      }
    }
  }

  /** A scope without a finally clause does not change where a completion lands. */
  lemma ThroughTryCatch(a: State, x: Scope, b: State, k: Completion, w: Store, c: Config)
    requires x.Try? && !x.hasFinally && Evolves(Enter(a, x), b)
    ensures Evolves(a, Leave(b))
    ensures !k.Normal? && Arrives(b, k, w, c) ==> Arrives(Leave(b), k, w, c)
  {
    hide ScopeOk, ScopesGrow, Grows;
    var n := |a.scopes|;
    var inner := Enter(a, x).scopes;
    LeaveEvolves(a, x, b);
    ShapeAt(inner, b.scopes, n);
    assert inner[n] == x;
    SkipTop(b.scopes, Leave(b).scopes, w, c);
  }

  lemma ShapeAt(a: seq<Scope>, b: seq<Scope>, i: nat)
    requires ScopesGrow(a, b) && i < |a|
    ensures |a| == |b| && SameShape(a[i], b[i])
  {
  }

  /** Scopes `a` are `b` with one more on top that stops neither break nor continue. */
  lemma SkipTop(a: seq<Scope>, b: seq<Scope>, w: Store, c: Config)
    requires |a| == |b| + 1 && a[..|b|] == b && a[|b|].Try? && !a[|b|].hasFinally
    ensures var n := |b|;
            && CanBreak(a, n) == CanBreak(b, n - 1) && CanContinue(a, n) == CanContinue(b, n - 1)
            && (CanContinue(a, n) ==> FindLoopOrFinally(a, n) == FindLoopOrFinally(b, n - 1))
            && (n > 0 && BreakLands(a, n, w, c) ==> BreakLands(b, n - 1, w, c))
            && (CanContinue(a, n) && ContinueLands(a, n, w, c) ==> ContinueLands(b, n - 1, w, c))
  {
    var n := |b|;
    assert forall k :: 0 <= k < n ==> a[k] == a[..n][k] == b[k];
    assert CanBreak(a, n) == CanBreak(a, n - 1) && (BreakLands(a, n, w, c) ==> BreakLands(a, n - 1, w, c));
    assert CanContinue(a, n) == CanContinue(a, n - 1);
    assert CanContinue(a, n) && ContinueLands(a, n, w, c) ==> ContinueLands(a, n - 1, w, c);
    assert CanContinue(a, n) ==> FindLoopOrFinally(a, n) == FindLoopOrFinally(a, n - 1);
    hide BreakLands, ContinueLands, CanBreak, CanContinue, FindLoopOrFinally;
    AlikeExits(a, b, n - 1);
    if n > 0 {
      LandsCarry(a, b, n - 1, w, c);
    }
  }

  /** The number in the reason cell is the one the source gives to this way of leaving. */
  lemma NumberFound(ds: seq<Destination>, exits: seq<Kind>, d: Destination)
    requires d in ds && (forall k :: 0 <= k < |ds| ==> ds[k].id == |ds| - 1 - k) && KindsOf(ds) == exits
    requires NoRepeats(exits)
    ensures NumberOf(exits, d.kind) == d.id
  {
    var k :| 0 <= k < |ds| && ds[k] == d;
    assert exits[|ds| - 1 - k] == d.kind;
    NumberIs(exits, |ds| - 1 - k);
  }

  /** What is known where a try block has been left for its finally block. */
  lemma BlockNumbers(b: Stmt, st: State)
    requires Valid(st) && Fits(b, st)
    ensures var inside := LowerTryBlock(b, st);
            var ds := inside.scopes[|st.scopes|].destinations;
            && KindsOf(ds) == BlockExits(b) && NoRepeats(BlockExits(b))
            && forall k :: 0 <= k < |ds| ==> ds[k].id == |ds| - 1 - k
  {
    hide LowerTryBlock, Exits, Grows;
    var inside := LowerTryBlock(b, st);
    TryBlockNumbers(b, st);
    assert ScopeOk(inside.scopes, |st.scopes|);
    ExitsExtend(b, [], true, true);
  }

  /** The try block runs into its finally block, with the reason for it on record. */
  lemma {:induction false} SimulateTryBlock(g: Code, o: Oracle, b: Stmt, fuel: nat, st: State, c: Config)
    returns (n: nat, c': Config)
    requires Valid(st) && Fits(b, st)
    requires AtEnd(c, st) && Hosts(g, LowerTryBlock(b, st).code)
    ensures c' == Run(g, o, c, n)
    ensures var out := CellExec(o, b, fuel, StoreOf(c));
            if out.Unfinished? then n >= fuel && c'.Running?
            else && AtStart(c', |st.code|) && StoreOf(c') == Record(out.completion, BlockExits(b), out.store)
                 && (out.completion.Returning? ==> LowerTryBlock(b, st).hasReturnCell)
    decreases fuel, b, 3
  {
    hide Run, Step, Lower, CellExec, ScopeOk, Legal, Grows, Hosts, CanBreak, Exits;
    var fin, k := |st.code|, |st.scopes|;
    EnterValid(NewBlocks(st, 2), Try(fin, true, []));
    TryFits(NewBlocks(st, 2), Try(fin, true, []), b);
    var s0 := EnterTry(st);
    assert s0.scopes == Enter(NewBlocks(st, 2), Try(fin, true, [])).scopes;
    assert Fits(b, NewBlocks(st, 2));
    var s1 := Lower(b, s0);
    var s2 := Emit(s1, StoreReason(REASON_FALLOFF_TRY));
    HostsEmit(g, s2, Br(fin));
    HostsEmit(g, s1, StoreReason(REASON_FALLOFF_TRY));
    n, c' := Simulate(g, o, b, fuel, s0, c);
    var out := CellExec(o, b, fuel, StoreOf(c));
    assert SameShape(s0.scopes[k], s1.scopes[k]);
    BlockNumbers(b, st);
    var ds := s1.scopes[k].destinations;
    if out.Ended? {
      match out.completion
      case Normal =>
        var c2 := RunStoreBr(g, o, s1, REASON_FALLOFF_TRY, fin, c');
        RunAdd(g, o, c, n, 2);
        n, c' := n + 2, c2;
      case Breaking => NumberFound(ds, BlockExits(b), Destination(k - 1, ByBreak, c'.reason));
      case Continuing =>
        assert FindLoopOrFinally(s1.scopes, k) == k;
        NumberFound(ds, BlockExits(b), Destination(FindLoopOrFinally(s1.scopes, k - 1), ByContinue, c'.reason));
      case Returning(_) =>
    }
  }

  /** A try/finally, with whatever the finalizer does to the cells. */
  lemma {:induction false} SimulateTryFinally(g: Code, o: Oracle, b: Stmt, f: Stmt, fuel: nat, st: State, c: Config)
    returns (n: nat, c': Config)
    requires Valid(st) && Fits(b, st) && Fits(f, st)
    requires AtEnd(c, st) && Hosts(g, LowerTryFinally(b, f, st).code)
    ensures c' == Run(g, o, c, n)
    ensures Follows(CellExec(o, TryFinally(b, f), fuel, StoreOf(c)), fuel, n, c.reason, LowerTryFinally(b, f, st), c')
    decreases fuel, TryFinally(b, f), 0
  {
    hide Run, Step, Lower, ScopeOk, SameShape, ScopesGrow, Legal, LowerTryBlock, Dispatch, LeaveTry, LowerFinally,
      Grows, Hosts, BreakLands, ContinueLands, ReturnLands, CanBreak, CanContinue, DestinationOk, Exits, Record,
      CellExec, CellFinally;
    CellTryFinallyMeans(o, b, f, fuel, StoreOf(c));
    var fin, merge, k := |st.code|, |st.code| + 1, |st.scopes|;
    var inside := LowerTryBlock(b, st);
    var outside := LeaveTry(st, inside);
    LeftTry(st, inside, outside, f);
    var ds := inside.scopes[k].destinations;
    var s1 := LowerFinally(f, outside, fin, ds, merge);
    HostsBack(g, outside, At(s1, fin), fin, fin + 1);
    AllStayEmpty(EnterTry(st), inside, st.cur, st.cur + 1, fin, fin + 2);
    BlockNumbers(b, st);
    n, c' := SimulateTryBlock(g, o, b, fuel, st, c);
    var r := CellExec(o, b, fuel, StoreOf(c));
    if r.Ended? {
      RecordMarks(r.completion, BlockExits(b), r.store);
      var n1, c1 := SimulateFinally(g, o, f, fuel, outside, fin, ds, merge, c');
      RunAdd(g, o, c, n, n1);
      n, c' := n + n1, c1;
    }
  }

  lemma RecordMarks(k: Completion, exits: seq<Kind>, w: Store)
    ensures Record(k, exits, w).reason == REASON_RETURN ==> k.Returning?
  {
  }

  /** From the start of a finally block, whatever is on record: the finalizer, then the dispatch. */
  lemma {:induction false} SimulateFinally(g: Code, o: Oracle, f: Stmt, fuel: nat, st: State, fin: nat,
                                           ds: seq<Destination>, merge: nat, c: Config)
    returns (n: nat, c': Config)
    requires Valid(st) && Fits(f, st)
    requires fin < |st.code| && merge < |st.code| && fin != merge && st.code[fin] == [] && st.code[merge] == []
    requires forall i :: 0 <= i < |ds| ==> ds[i].id == |ds| - 1 - i && DestinationOk(st.scopes, |st.scopes|, ds[i])
    requires AtStart(c, fin) && Hosts(g, LowerFinally(f, st, fin, ds, merge).code)
    requires c.reason == REASON_RETURN ==> st.hasReturnCell
    ensures c' == Run(g, o, c, n)
    ensures Follows(CellFinally(o, KindsOf(ds), f, fuel, StoreOf(c)), fuel, n, REASON_FALLOFF_TRY,
                    At(LowerFinally(f, st, fin, ds, merge), merge), c')
    decreases fuel, f, 3
  {
    hide Run, Step, Lower, CellExec, ScopeOk, ScopesGrow, Legal, Dispatch, Grows, Hosts, CanBreak, DestinationOk,
      BreakLands, ContinueLands, CanContinue, SameShape, Resume;
    var s1 := Lower(f, At(st, fin));
    DestinationsCarry(st, s1, ds);
    var s2 := Dispatch(s1, ds, merge);
    HostsBack(g, s1, At(s2, s1.cur), s1.cur, s1.cur + 1);
    n, c' := Simulate(g, o, f, fuel, At(st, fin), c);
    var q := CellExec(o, f, fuel, StoreOf(c));
    StaysEmpty(At(st, fin), s1, fin, fin + 1, merge);
    StaysEmpty(s1, At(s2, s1.cur), s1.cur, s1.cur + 1, merge);
    if q.Ended? && q.completion.Normal? {
      var k := Resume(KindsOf(ds), q.store);
      var n1, c1 := SimulateDispatch(g, o, s1, ds, merge, c');
      RunAdd(g, o, c, n, n1);
      n, c' := n + n1, c1;
      if !k.Normal? {
        EvolvesRefl(At(s2, merge));
        ArrivesLater(s2, At(s2, merge), k, q.store, c');
      }
    } else if q.Ended? {
      ArrivesLater(s1, At(s2, merge), q.completion, q.store, c');
    }
  }

  lemma {:induction false} ArmHit(arms: seq<(int, nat)>, reason: int, otherwise: nat, j: nat)
    requires j < |arms| && arms[j].0 == reason && forall i :: 0 <= i < j ==> arms[i].0 != reason
    ensures ArmTarget(arms, reason, otherwise) == arms[j].1
  {
    if j > 0 {
      assert arms[1..][j - 1] == arms[j];
      forall i | 0 <= i < j - 1 ensures arms[1..][i].0 != reason {
        assert arms[1..][i] == arms[i + 1];
      }
      ArmHit(arms[1..], reason, otherwise, j - 1);
    }
  }

  lemma {:induction false} ArmMissed(arms: seq<(int, nat)>, reason: int, otherwise: nat)
    requires forall i :: 0 <= i < |arms| ==> arms[i].0 != reason
    ensures ArmTarget(arms, reason, otherwise) == otherwise
  {
    if arms != [] {
      ArmMissed(arms[1..], reason, otherwise);
    }
  }

  /** After the finalizer, the reason in the cell decides: return, a numbered exit, or past the statement. */
  lemma SimulateDispatch(g: Code, o: Oracle, st: State, ds: seq<Destination>, merge: nat, c: Config)
    returns (n: nat, c': Config)
    requires Valid(st)
    requires forall i :: 0 <= i < |ds| ==> ds[i].id == |ds| - 1 - i && DestinationOk(st.scopes, |st.scopes|, ds[i])
    requires AtEnd(c, st) && Hosts(g, Dispatch(st, ds, merge).code)
    requires c.reason == REASON_RETURN ==> st.hasReturnCell
    ensures c' == Run(g, o, c, n)
    ensures var k := Resume(KindsOf(ds), StoreOf(c));
            if k.Normal? then AtStart(c', merge) && StoreOf(c') == StoreOf(c)
            else Arrives(Dispatch(st, ds, merge), k, StoreOf(c), c')
  {
    hide Run, Step, ScopeOk, SameShape, Trampolines, DispatchHead, Hosts, BreakLands, ContinueLands, ReturnLands;
    var s1 := DispatchHead(st, ds, merge);
    var first := FirstTrampoline(st);
    var s2 := Trampolines(s1, ds, first);
    HostsBack(g, s1, s2, first, first + |ds|);
    if 0 <= c.reason < |ds| {
      var j := |ds| - 1 - c.reason;
      var c1 := RunDispatchSwitch(g, o, st, ds, merge, c);
      JumpArm(st, ds, merge, j);
      var m;
      m, c' := RunTrampolines(g, o, s1, ds, first, j, c1);
      RunAdd(g, o, c, 1, m);
      n := 1 + m;
    } else {
      n, c' := RunDispatchHead(g, o, st, ds, merge, c);
      if c.reason == REASON_RETURN {
        ArrivesLater(s1, s2, Returning(c.returnValue), StoreOf(c), c');
      }
    }
  }

  lemma JumpArm(st: State, ds: seq<Destination>, merge: nat, j: nat)
    requires j < |ds| && forall i :: 0 <= i < |ds| ==> ds[i].id == |ds| - 1 - i
    ensures ArmTarget(DispatchArms(st.hasReturnCell, ds, |st.code|), ds[j].id, merge) == FirstTrampoline(st) + j
  {
    ArmHit(DispatchArms(st.hasReturnCell, ds, |st.code|), ds[j].id, merge, FirstTrampoline(st) - |st.code| + j);
  }

  lemma RunDispatchSwitch(g: Code, o: Oracle, st: State, ds: seq<Destination>, merge: nat, c: Config)
    returns (c': Config)
    requires Valid(st) && AtEnd(c, st) && Hosts(g, DispatchHead(st, ds, merge).code)
    ensures c' == Run(g, o, c, 1)
    ensures AtStart(c', ArmTarget(DispatchArms(st.hasReturnCell, ds, |st.code|), c.reason, merge))
    ensures StoreOf(c') == StoreOf(c)
    ensures var s0 := NewBlocks(st, FirstTrampoline(st) - |st.code| + |ds|);
            var s1 := Emit(s0, SwitchReason(merge, DispatchArms(st.hasReturnCell, ds, |st.code|)));
            Valid(s1) && s1.code[|st.code|] == [] && Hosts(g, Emit(At(s1, |st.code|), Br(merge)).code)
  {
    hide Run, Step, ScopeOk, Hosts;
    var falloff := |st.code|;
    var arms := DispatchArms(st.hasReturnCell, ds, falloff);
    var s0 := NewBlocks(st, FirstTrampoline(st) - falloff + |ds|);
    var s1 := Emit(s0, SwitchReason(merge, arms));
    var s2 := Emit(At(s1, falloff), Br(merge));
    if st.hasReturnCell {
      HostsBack(g, s2, ReturnTrampoline(At(s2, falloff + 1)), falloff + 1, falloff + 2);
    }
    HostsEmit(g, At(s1, falloff), Br(merge));
    c' := RunSwitchReason(g, o, s0, merge, arms, c);
  }

  /** The arms for returning and for falling off, and the way past them. */
  lemma RunDispatchHead(g: Code, o: Oracle, st: State, ds: seq<Destination>, merge: nat, c: Config)
    returns (n: nat, c': Config)
    requires Valid(st) && AtEnd(c, st) && Hosts(g, DispatchHead(st, ds, merge).code)
    requires forall i :: 0 <= i < |ds| ==> ds[i].id == |ds| - 1 - i
    requires !(0 <= c.reason < |ds|) && (c.reason == REASON_RETURN ==> st.hasReturnCell)
    ensures c' == Run(g, o, c, n)
    ensures if c.reason == REASON_RETURN
              then Arrives(DispatchHead(st, ds, merge), Returning(c.returnValue), StoreOf(c), c')
            else AtStart(c', merge) && StoreOf(c') == StoreOf(c)
  {
    hide Run, Step, ScopeOk, SameShape, Hosts, ReturnTrampoline;
    var falloff := |st.code|;
    var arms := DispatchArms(st.hasReturnCell, ds, falloff);
    var s1 := Emit(NewBlocks(st, FirstTrampoline(st) - falloff + |ds|), SwitchReason(merge, arms));
    var c1 := RunDispatchSwitch(g, o, st, ds, merge, c);
    if c.reason == REASON_RETURN {
      ArmHit(arms, REASON_RETURN, merge, 0);
      var m;
      m, c' := RunReturnTrampoline(g, o, At(Emit(At(s1, falloff), Br(merge)), falloff + 1), c1);
      RunAdd(g, o, c, 1, m);
      n := 1 + m;
    } else if c.reason == REASON_FALLOFF_TRY {
      ArmHit(arms, REASON_FALLOFF_TRY, merge, if st.hasReturnCell then 1 else 0);
      c' := RunBr(g, o, At(s1, falloff), merge, c1);
      RunAdd(g, o, c, 1, 1);
      n := 2;
    } else {
      ArmMissed(arms, c.reason, merge);
      n, c' := 1, c1;
    }
  }

  lemma RunReturnTrampoline(g: Code, o: Oracle, st: State, c: Config) returns (n: nat, c': Config)
    requires Valid(st) && AtEnd(c, st) && Hosts(g, ReturnTrampoline(st).code) && st.hasReturnCell
    ensures c' == Run(g, o, c, n) && Arrives(ReturnTrampoline(st), Returning(c.returnValue), StoreOf(c), c')
  {
    if st.finallies != [] {
      n := 2;
      c' := RunStoreBr(g, o, st, REASON_RETURN, st.finallies[0], c);
    } else {
      n := 1;
      StepEmitted(g, o, st, RetStored, c);
      c' := Step(g, o, c);
    }
  }

  lemma RunTrampoline(g: Code, o: Oracle, st: State, d: Destination, c: Config) returns (n: nat, c': Config)
    requires Valid(st) && DestinationOk(st.scopes, |st.scopes|, d)
    requires AtEnd(c, st) && Hosts(g, Trampoline(st, d).code)
    ensures c' == Run(g, o, c, n) && Arrives(Trampoline(st, d), CompletionOf(d.kind), StoreOf(c), c')
  {
    hide Run, Step, ScopeOk, ExitAft, ExitFore;
    var top := |st.scopes| - 1;
    var r := Trampoline(st, d);
    AlikeExits(st.scopes, r.scopes, top);
    match d.kind
    case ByBreak => n, c' := RunExitAft(g, o, st, d.scope, c);
    case ByContinue =>
      n, c' := RunExitFore(g, o, st, d.scope, c);
      AlikeExits(st.scopes, r.scopes, d.scope);
  }

  lemma {:induction false} RunTrampolines(g: Code, o: Oracle, st: State, ds: seq<Destination>, base: nat, j: nat,
                                          c: Config)
    returns (n: nat, c': Config)
    requires Valid(st) && base + |ds| <= |st.code| && j < |ds|
    requires forall k :: 0 <= k < |ds| ==> DestinationOk(st.scopes, |st.scopes|, ds[k])
    requires forall k :: base <= k < base + |ds| ==> st.code[k] == []
    requires AtStart(c, base + j) && Hosts(g, Trampolines(st, ds, base).code)
    ensures c' == Run(g, o, c, n) && Arrives(Trampolines(st, ds, base), CompletionOf(ds[j].kind), StoreOf(c), c')
    decreases j
  {
    hide Run, Step, ScopeOk, SameShape, Trampoline;
    var s1 := Trampoline(At(st, base), ds[0]);
    DestinationsCarry(st, s1, ds);
    var s2 := Trampolines(s1, ds[1..], base + 1);
    if j == 0 {
      HostsBack(g, s1, s2, base + 1, base + |ds|);
      n, c' := RunTrampoline(g, o, At(st, base), ds[0], c);
      ArrivesLater(s1, s2, CompletionOf(ds[0].kind), StoreOf(c), c');
    } else {
      n, c' := RunTrampolines(g, o, s1, ds[1..], base + 1, j - 1, c);
    }
  }

  // ----- switch -----

  ghost function ClauseBlock(i: nat, total: nat, bodies: nat, merge: nat): nat {
    if i < total then bodies + i else merge
  }

  /** The first check block leaves the others as they were. */
  lemma OpenTest(g: Code, e: Expr, b: Stmt, rest: Cases, st: State, d: Operand, body: nat, check: nat, otherwise: nat)
    requires Valid(st) && check + 1 + TestCount(rest) <= |st.code|
    requires forall i :: check <= i < check + 1 + TestCount(rest) ==> st.code[i] == []
    requires Hosts(g, LowerTests(TestCase(e, b, rest), st, d, body, check, otherwise).code)
    ensures var w := EmitEval(At(st, check), e);
            w.st.cur < |w.st.code|
            && var s1 := Emit(w.st, CaseBr(d, w.op, if TestCount(rest) > 0 then check + 1 else otherwise, body));
               && Valid(s1) && check + 1 + TestCount(rest) <= |s1.code| && st.nextReg <= s1.nextReg && Hosts(g, s1.code)
               && (forall i :: check + 1 <= i < check + 1 + TestCount(rest) ==> s1.code[i] == [])
               && Hosts(g, LowerTests(rest, s1, d, body + 1, check + 1, otherwise).code)
  {
    hide ScopeOk, SameShape, ScopesGrow, Hosts, Grows, EmitEval, Emit;
    var w := EmitEval(At(st, check), e);
    var i := CaseBr(d, w.op, if TestCount(rest) > 0 then check + 1 else otherwise, body);
    EvolvesRefl(At(st, check));
    EvolvesEval(At(st, check), At(st, check), Some(e));
    var s1 := Emit(w.st, i);
    EvolvesEmit(At(st, check), w.st, i);
    AllStayEmpty(At(st, check), s1, check, check + 1, check + 1, check + 1 + TestCount(rest));
    var s2 := LowerTests(rest, s1, d, body + 1, check + 1, otherwise);
    HostsBack(g, s1, s2, check + 1, check + 1 + TestCount(rest));
  }

  /** The checks take the machine to the clause the source selects. */
  lemma {:induction false} SimulateTests(g: Code, o: Oracle, cs: Cases, st: State, d: Operand, v: Value, at: nat,
                                         check: nat, dflt: nat, total: nat, bodies: nat, merge: nat, c: Config)
    returns (n: nat, c': Config)
    requires Valid(st) && check + TestCount(cs) <= |st.code| && at + CaseCount(cs) <= total
    requires forall i :: check <= i < check + TestCount(cs) ==> st.code[i] == []
    requires Hosts(g, LowerTests(cs, st, d, bodies + at, check, ClauseBlock(dflt, total, bodies, merge)).code)
    requires AtStart(c, if TestCount(cs) > 0 then check else ClauseBlock(dflt, total, bodies, merge))
    requires Below(d, st.nextReg) && OperandValue(d, c.regs) == v
    ensures c' == Run(g, o, c, n)
    ensures var sel := SelectFrom(o, v, cs, c.trace, at, dflt);
            AtStart(c', ClauseBlock(sel.index, total, bodies, merge)) && StoreOf(c') == StoreOf(c).(trace := sel.trace)
    decreases cs
  {
    hide Run, Step, ScopeOk, SameShape, ScopesGrow, Hosts, Grows, EmitEval, Eval, Valid, Emit;
    var otherwise := ClauseBlock(dflt, total, bodies, merge);
    match cs
    case NoCases => n, c' := 0, c; RunAdd(g, o, c, 0, 0);
    case DefaultCase(_, rest) =>
      n, c' := SimulateTests(g, o, rest, st, d, v, at + 1, check, dflt, total, bodies, merge, c);
    case TestCase(e, b, rest) =>
      OpenTest(g, e, b, rest, st, d, bodies + at, check, otherwise);
      var w := EmitEval(At(st, check), e);
      var i := CaseBr(d, w.op, if TestCount(rest) > 0 then check + 1 else otherwise, bodies + at);
      var s1 := Emit(w.st, i);
      hide LowerTests;
      n, c' := RunCaseBr(g, o, At(st, check), d, e, i.ifDifferent, i.ifEqual, c);
      if !o.strictlyEqual(v, Eval(o, e, c.trace).value) {
        var n2, c2 := SimulateTests(g, o, rest, s1, d, v, at + 1, check + 1, dflt, total, bodies, merge, c');
        RunAdd(g, o, c, n, n2);
        n, c' := n + n2, c2;
      }
  }

  /** Clause bodies from the `j`-th on, falling through. */
  lemma {:induction false} SimulateBodies(g: Code, o: Oracle, cs: Cases, fuel: nat, st: State, body: nat, merge: nat,
                                          j: nat, c: Config)
    returns (n: nat, c': Config)
    requires Valid(st) && body + CaseCount(cs) <= |st.code| && CasesFit(cs, st)
    requires forall i :: body <= i < body + CaseCount(cs) ==> st.code[i] == []
    requires j <= CaseCount(cs) && AtStart(c, if j < CaseCount(cs) then body + j else merge)
    requires Hosts(g, LowerBodies(cs, st, body, merge).code)
    ensures c' == Run(g, o, c, n)
    ensures var out := CellExecCases(o, DropCases(cs, j), fuel, StoreOf(c));
            if out.Ended? && out.completion.Normal? then
              AtStart(c', merge) && StoreOf(c') == out.store
                && Marked(c.reason, out.store, LowerBodies(cs, st, body, merge))
            else Follows(out, fuel, n, c.reason, LowerBodies(cs, st, body, merge), c')
    decreases fuel, cs, 1
  {
    hide Run, Step, ScopeOk, SameShape, LowerArm, Lower, Legal, CellExec, Grows, Hosts, ScopesGrow, CanBreak,
      CanContinue, BreakLands, ContinueLands, ReturnLands;
    if cs.NoCases? {
      n, c' := 0, c;
      RunAdd(g, o, c, 0, 0);
    } else {
      var next := if cs.rest.NoCases? then merge else body + 1;
      var s1 := LowerArm(cs.body, st, body, next);
      CasesFitCarry(st, s1, cs.rest);
      AllStayEmpty(At(st, body), s1, body, body + 1, body + 1, body + CaseCount(cs));
      var s2 := LowerBodies(cs.rest, s1, body + 1, merge);
      HostsBack(g, s1, s2, body + 1, body + CaseCount(cs));
      if j == 0 {
        n, c' := SimulateArm(g, o, cs.body, fuel, st, body, next, c);
        var r := CellExec(o, cs.body, fuel, StoreOf(c));
        if r.Ended? && r.completion.Normal? {
          var n1, c1 := SimulateBodies(g, o, cs.rest, fuel, s1, body + 1, merge, 0, c');
          RunAdd(g, o, c, n, n1);
          n, c' := n + n1, c1;
        } else if r.Ended? {
          ArrivesLater(s1, s2, r.completion, r.store, c');
        }
      } else {
        n, c' := SimulateBodies(g, o, cs.rest, fuel, s1, body + 1, merge, j - 1, c);
      }
    }
  }

  lemma {:induction false} SimulateSwitch(g: Code, o: Oracle, e: Expr, cs: Cases, fuel: nat, st: State, c: Config)
    returns (n: nat, c': Config)
    requires Valid(st) && LegalCases(cs, CanContinue(st.scopes, |st.scopes| - 1))
    requires AtEnd(c, st) && Hosts(g, LowerSwitch(e, cs, st).code)
    ensures c' == Run(g, o, c, n)
    ensures Follows(CellExec(o, Switch(e, cs), fuel, StoreOf(c)), fuel, n, c.reason, LowerSwitch(e, cs, st), c')
    decreases fuel, Switch(e, cs), 0
  {
    hide Run, Step, ScopeOk, SameShape, LowerClauses, LowerBodies, LowerTests, CellExecCases, Legal, LegalCases,
      Hosts, CanBreak, CanContinue, BreakLands, ContinueLands, ReturnLands, SelectFrom, Grows, ScopesGrow, EmitEval,
      Eval, CellExec, LowerSwitch;
    CellSwitchMeans(o, e, cs, fuel, StoreOf(c));
    var total := CaseCount(cs);
    var bodies, checks, merge := |st.code|, |st.code| + total, |st.code| + total + TestCount(cs);
    var otherwise := ClauseBlock(DefaultIndex(cs), total, bodies, merge);
    var first := if TestCount(cs) > 0 then checks else otherwise;
    var d := EmitEval(NewBlocks(st, total + TestCount(cs) + 1), e);
    OpenSwitchEvolves(st, total + TestCount(cs) + 1, e, first);
    var s1 := Emit(d.st, Br(first));
    GrowExits(st.scopes, s1.scopes);
    SwitchIsClauses(e, cs, st, s1, merge, otherwise);
    var s2 := LowerClauses(cs, s1, d.op, bodies, checks, merge, otherwise);
    HostsBack(g, s1, s2, bodies, merge);
    AllStayEmpty(s1, s2, bodies, merge, merge, merge + 1);
    var n1, c1 := RunOpenSwitch(g, o, st, total + TestCount(cs) + 1, e, first, c);
    var n2, c2 := SimulateClauses(g, o, cs, fuel, s1, d.op, Eval(o, e, c.trace).value, bodies, checks, merge, c1);
    RunAdd(g, o, c, n1, n2);
    n, c' := n1 + n2, c2;
    var sel := Select(o, Eval(o, e, c.trace).value, cs, Eval(o, e, c.trace).trace);
    SwitchCloses(CellExecCases(o, DropCases(cs, sel.index), fuel, StoreOf(c).(trace := sel.trace)), fuel, n2, n,
                 c.reason, s2, merge, c');
  }

  /** Leaving the last clause or breaking out of one ends the switch; any other way out stays as it is. */
  lemma SwitchCloses(out: Ending, fuel: nat, n: nat, more: nat, from: int, st: State, merge: nat, c: Config)
    requires Valid(st) && merge < |st.code| && st.code[merge] == [] && n <= more
    requires if out.Ended? && (out.completion.Normal? || out.completion.Breaking?) then
               AtStart(c, merge) && StoreOf(c) == out.store && Marked(from, out.store, st)
             else Follows(out, fuel, n, from, st, c)
    ensures Follows(if out.Ended? && out.completion.Breaking? then Ended(Normal, out.store) else out, fuel, more, from,
                    At(st, merge), c)
  {
    hide ScopeOk, SameShape, BreakLands, ContinueLands, ReturnLands, CanBreak, CanContinue, ScopesGrow;
    if out.Ended? && !out.completion.Normal? && !out.completion.Breaking? {
      EvolvesRefl(st);
      ArrivesLater(st, At(st, merge), out.completion, out.store, c);
    }
  }

  lemma RunOpenSwitch(g: Code, o: Oracle, st: State, k: nat, e: Expr, first: nat, c: Config)
    returns (n: nat, c': Config)
    requires Valid(st) && AtEnd(c, st) && EmitEval(NewBlocks(st, k), e).st.cur < |EmitEval(NewBlocks(st, k), e).st.code|
    requires Hosts(g, Emit(EmitEval(NewBlocks(st, k), e).st, Br(first)).code)
    ensures c' == Run(g, o, c, n) && AtStart(c', first) && StoreOf(c') == Evaluate(o, Some(e), StoreOf(c))
    ensures OperandValue(EmitEval(NewBlocks(st, k), e).op, c'.regs) == Eval(o, e, c.trace).value
  {
    hide Run, Step, Hosts;
    var d := EmitEval(NewBlocks(st, k), e);
    HostsEmit(g, d.st, Br(first));
    var n1, c1 := RunEval(g, o, NewBlocks(st, k), Some(e), c);
    c' := RunBr(g, o, d.st, first, c1);
    RunAdd(g, o, c, n1, 1);
    n := n1 + 1;
  }

  lemma {:induction false} SimulateClauses(g: Code, o: Oracle, cs: Cases, fuel: nat, st: State, d: Operand, v: Value,
                                           bodies: nat, checks: nat, merge: nat, c: Config)
    returns (n: nat, c': Config)
    requires Valid(st) && LegalCases(cs, CanContinue(st.scopes, |st.scopes| - 1))
    requires bodies + CaseCount(cs) == checks && checks + TestCount(cs) == merge < |st.code|
    requires forall i :: bodies <= i < merge ==> st.code[i] == []
    requires Hosts(g,
               LowerClauses(cs, st, d, bodies, checks, merge,
                 ClauseBlock(DefaultIndex(cs), CaseCount(cs), bodies, merge)).code)
    requires AtStart(c, if TestCount(cs) > 0 then checks
               else ClauseBlock(DefaultIndex(cs), CaseCount(cs), bodies, merge))
    requires Below(d, st.nextReg) && OperandValue(d, c.regs) == v
    ensures c' == Run(g, o, c, n)
    ensures var sel := Select(o, v, cs, c.trace);
            var out := CellExecCases(o, DropCases(cs, sel.index), fuel, StoreOf(c).(trace := sel.trace));
            var r := LowerClauses(cs, st, d, bodies, checks, merge,
              ClauseBlock(DefaultIndex(cs), CaseCount(cs), bodies, merge));
            && (if out.Ended? && (out.completion.Normal? || out.completion.Breaking?) then
                  AtStart(c', merge) && StoreOf(c') == out.store && Marked(c.reason, out.store, r)
                else Follows(out, fuel, n, c.reason, r, c'))
    decreases fuel, cs, 2
  {
    hide Run, Step, ScopeOk, SameShape, LowerBodies, LowerTests, CellExecCases, SelectFrom, Legal;
    var dflt, total := DefaultIndex(cs), CaseCount(cs);
    var otherwise := ClauseBlock(dflt, total, bodies, merge);
    var x := SwitchScope(merge);
    EnterValid(st, x);
    CasesFitEnter(st, x, cs);
    var se := Enter(st, x);
    var s1 := LowerTests(cs, se, d, bodies, checks, otherwise);
    CasesFitCarry(se, s1, cs);
    var s2 := LowerBodies(cs, s1, bodies, merge);
    HostsBack(g, s1, s2, bodies, checks);
    var n1, c1 := SimulateTests(g, o, cs, se, d, v, 0, checks, dflt, total, bodies, merge, c);
    var sel := Select(o, v, cs, c.trace);
    var n2, c2 := SimulateBodies(g, o, cs, fuel, s1, bodies, merge, sel.index, c1);
    RunAdd(g, o, c, n1, n2);
    n, c' := n1 + n2, c2;
    EvolvesInSwap(se, s1, s2, bodies, checks, merge);
    var out := CellExecCases(o, DropCases(cs, sel.index), fuel, StoreOf(c).(trace := sel.trace));
    if out.Ended? {
      ThroughSwitch(st, x, s2, out.completion, out.store, c');
    }
  }

  /** A switch scope stops a break and lets everything else through. */
  lemma ThroughSwitch(a: State, x: Scope, b: State, k: Completion, w: Store, c: Config)
    requires x.SwitchScope? && |b.scopes| == |a.scopes| + 1 && ScopesGrow(Enter(a, x).scopes, b.scopes)
    ensures k.Breaking? && Arrives(b, k, w, c) ==> AtStart(c, x.merge) && StoreOf(c) == w
    ensures (k.Continuing? || k.Returning?) && Arrives(b, k, w, c) ==> Arrives(Leave(b), k, w, c)
  {
    hide ScopesGrow, FindLoopOrFinally, ContinueLands;
    var n := |a.scopes|;
    var inner := Enter(a, x).scopes;
    ShapeAt(inner, b.scopes, n);
    assert inner[n] == x;
    SkipSwitch(b.scopes, Leave(b).scopes, w, c);
  }

  lemma SkipSwitch(a: seq<Scope>, b: seq<Scope>, w: Store, c: Config)
    requires |a| == |b| + 1 && a[..|b|] == b && a[|b|].SwitchScope?
    ensures var n := |b|;
            && CanBreak(a, n) && CanContinue(a, n) == CanContinue(b, n - 1)
            && (CanContinue(a, n) ==> FindLoopOrFinally(a, n) == FindLoopOrFinally(b, n - 1)
                                      && a[FindLoopOrFinally(a, n)] == b[FindLoopOrFinally(a, n)])
            && (CanContinue(a, n) && ContinueLands(a, n, w, c) ==> ContinueLands(b, n - 1, w, c))
  {
    var n := |b|;
    assert forall k :: 0 <= k < n ==> a[k] == a[..n][k] == b[k];
    assert CanContinue(a, n) == CanContinue(a, n - 1);
    AlikeExits(a, b, n - 1);
    if n > 0 {
      LandsCarry(a, b, n - 1, w, c);
    }
  }

  // ----- whole functions -----

  const START := Running(0, 0, [], 0, Undefined, map[])

  /** The cells of a function that has not run yet. */
  const INITIAL := Store([], 0, Undefined)

  function ResultOf(k: Completion): Value {
    if k.Returning? then k.value else Undefined
  }

  /** With enough fuel for the source, the emitted function halts with the same value and effects;
      with too little, it is still running after at least that many steps. */
  lemma FunctionSimulates(o: Oracle, body: Stmt, fuel: nat) returns (n: nat)
    requires Legal(body, false, false)
    ensures var c := Run(LowerFunction(body), o, START, n);
            match CellExec(o, body, fuel, INITIAL)
            case Unfinished => n >= fuel && c.Running?
            case Ended(k, w) => c == Halted(ResultOf(k), w.trace)
  {
    hide Run, CellExec, Hosts, Lower, Grows, ScopeOk, SameShape;
    var g := LowerFunction(body);
    var st := Lower(body, FRESH);
    HostsSelf(g);
    HostsEmit(g, st, Ret(Const(Undefined)));
    var c;
    n, c := Simulate(g, o, body, fuel, FRESH, START);
    var out := CellExec(o, body, fuel, INITIAL);
    if out.Ended? && out.completion.Normal? {
      StepEmitted(g, o, st, Ret(Const(Undefined)), c);
      RunAdd(g, o, START, n, 1);
      n := n + 1;
    }
  }

  ghost predicate Halts(g: Code, o: Oracle, v: Value, t: Trace) {
    exists n: nat :: Run(g, o, START, n) == Halted(v, t)
  }

  ghost predicate Completes(o: Oracle, body: Stmt, v: Value, t: Trace) {
    exists fuel: nat :: Exec(o, body, fuel, []).Done? && Exec(o, body, fuel, []).trace == t
                        && ResultOf(Exec(o, body, fuel, []).completion) == v
  }

  /** The same with shared cells. */
  ghost predicate CellCompletes(o: Oracle, body: Stmt, v: Value, t: Trace) {
    exists fuel: nat :: CellExec(o, body, fuel, INITIAL).Ended? && CellExec(o, body, fuel, INITIAL).store.trace == t
                        && ResultOf(CellExec(o, body, fuel, INITIAL).completion) == v
  }

  /** Two runs of the same function that have both stopped have stopped alike. */
  lemma SameStop(g: Code, o: Oracle, m: nat, n: nat)
    requires !Run(g, o, START, m).Running?
    ensures Run(g, o, START, n).Running? ==> n < m
    ensures !Run(g, o, START, n).Running? ==> Run(g, o, START, n) == Run(g, o, START, m)
  {
    if m <= n {
      RunAdd(g, o, START, m, n - m);
      RunStopped(g, o, Run(g, o, START, m), n - m);
    } else if !Run(g, o, START, n).Running? {
      RunAdd(g, o, START, n, m - n);
      RunStopped(g, o, Run(g, o, START, n), m - n);
    }
  }

  /** What the emitted code does, for every legal function body: it halts with a value and an effect trace
      exactly when the source completes with them under shared cells, and it never runs off the end of a
      block. */
  lemma LoweringIsCellExec(o: Oracle, body: Stmt, v: Value, t: Trace)
    requires Legal(body, false, false)
    ensures Halts(LowerFunction(body), o, v, t) <==> CellCompletes(o, body, v, t)
    ensures forall n: nat :: !Run(LowerFunction(body), o, START, n).Stuck?
  {
    hide Run, Lower, CellExec, LowerFunction;
    var g := LowerFunction(body);
    forall n: nat | !Run(g, o, START, n).Running?
      ensures Run(g, o, START, n).Halted?
      ensures Run(g, o, START, n) == Halted(v, t) ==> CellCompletes(o, body, v, t)
    {
      var m := FunctionSimulates(o, body, n + 1);
      SameStop(g, o, n, m);
    }
    if CellCompletes(o, body, v, t) {
      var fuel: nat :| CellExec(o, body, fuel, INITIAL).Ended? && CellExec(o, body, fuel, INITIAL).store.trace == t
                       && ResultOf(CellExec(o, body, fuel, INITIAL).completion) == v;
      var n := FunctionSimulates(o, body, fuel);
    }
  }

  lemma CellsMakeNoDifference(o: Oracle, body: Stmt, v: Value, t: Trace)
    requires SafeFinalizers(body)
    ensures CellCompletes(o, body, v, t) <==> Completes(o, body, v, t)
  {
    hide Exec, CellExec;
    forall fuel: nat
      ensures Agrees(CellExec(o, body, fuel, INITIAL), Exec(o, body, fuel, []))
    {
      Agreement(o, body, fuel, INITIAL);
    }
  }

  /** The lowering preserves meaning: for every behaviour of the operations, the emitted blocks halt with a value
      and an effect trace exactly when the source function completes with them, and they never run off the
      end of a block. */
  lemma LoweringPreservesMeaning(o: Oracle, body: Stmt, v: Value, t: Trace)
    requires Legal(body, false, false) && SafeFinalizers(body)
    ensures Halts(LowerFunction(body), o, v, t) <==> Completes(o, body, v, t)
    ensures forall n: nat :: !Run(LowerFunction(body), o, START, n).Stuck?
  {
    hide Run, LowerFunction, Halts, Completes, CellCompletes, SafeFinalizers;
    LoweringIsCellExec(o, body, v, t);
    CellsMakeNoDifference(o, body, v, t);
  }
}

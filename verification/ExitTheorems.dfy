/** Leaving nested statements: which finally blocks run, in which order, and where control goes then. */
module ExitTheorems {
  import opened Basics
  import opened Completions
  import opened Endings
  import opened ReasonCell
  import opened CellAgreement
  import opened BlockMachine
  import opened Emitter
  import opened Lowering
  import opened Simulation
  import opened LoweringProof

  /** A statement with a hole for a jump. */
  datatype Context =
    | Hole
    | BeforeIt(inside: Context, after: Stmt)
    | AfterIt(before: Stmt, inside: Context)
    | OnlyArm(test: Expr, inside: Context)
    | ThenArm(test: Expr, inside: Context, other: Stmt)
    | ElseArm(test: Expr, other: Stmt, inside: Context)
    | WhileBody(test: Expr, inside: Context)
    | DoBody(inside: Context, test: Expr)
    | ForBody(init: Option<Expr>, check: Option<Expr>, update: Option<Expr>, inside: Context)
    | Clause(discriminant: Expr, earlier: Cases, choice: Option<Expr>, inside: Context, later: Cases)
    | InTryCatch(inside: Context)
    | InTryBlock(inside: Context, finalizer: Stmt)
    | InFinalizer(block: Stmt, inside: Context)

  /** The clauses of a switch around one of them. */
  function Clauses(earlier: Cases, choice: Option<Expr>, body: Stmt, later: Cases): Cases {
    match earlier
    case NoCases => if choice.Some? then TestCase(choice.value, body, later) else DefaultCase(body, later)
    case TestCase(e, b, rest) => TestCase(e, b, Clauses(rest, choice, body, later))
    case DefaultCase(b, rest) => DefaultCase(b, Clauses(rest, choice, body, later))
  }

  function Plug(x: Context, s: Stmt): Stmt {
    match x
    case Hole => s
    case BeforeIt(c, after) => Seq(Plug(c, s), after)
    case AfterIt(before, c) => Seq(before, Plug(c, s))
    case OnlyArm(e, c) => If(e, Plug(c, s))
    case ThenArm(e, c, b) => IfElse(e, Plug(c, s), b)
    case ElseArm(e, a, c) => IfElse(e, a, Plug(c, s))
    case WhileBody(e, c) => While(e, Plug(c, s))
    case DoBody(c, e) => DoWhile(Plug(c, s), e)
    case ForBody(init, check, update, c) => For(init, check, update, Plug(c, s))
    case Clause(e, earlier, choice, c, later) => Switch(e, Clauses(earlier, choice, Plug(c, s), later))
    case InTryCatch(c) => TryCatch(Plug(c, s))
    case InTryBlock(c, f) => TryFinally(Plug(c, s), f)
    case InFinalizer(b, c) => TryFinally(b, Plug(c, s))
  }

  /** The finally blocks that a jump out of the hole has to pass, innermost first. */
  function Finalizers(x: Context): seq<Stmt> {
    match x
    case Hole => []
    case InTryBlock(c, f) => Finalizers(c) + [f]
    case _ => Finalizers(x.inside)
  }

  /** No loop or switch of the context is the target of the jump. */
  predicate Passes(x: Context, k: Completion) {
    match x
    case Hole => true
    case WhileBody(_, c) => k.Returning? && Passes(c, k)
    case DoBody(c, _) => k.Returning? && Passes(c, k)
    case ForBody(_, _, _, c) => k.Returning? && Passes(c, k)
    case Clause(_, _, _, c, _) => !k.Breaking? && Passes(c, k)
    case _ => Passes(x.inside, k)
  }

  // ----- when the hole is reached -----

  /** Running `Plug(x, s)` after `t` comes to the hole after `u`: what stands before it ends normally, tests and
      switches lead towards it, and loops are in some turn. */
  ghost predicate Reaches(o: Oracle, x: Context, s: Stmt, t: Trace, u: Trace)
    decreases x, 1
  {
    match x
    case Hole => t == u
    case BeforeIt(c, _) => Reaches(o, c, s, t, u)
    case AfterIt(before, c) => exists v :: Ends(o, before, t, Normal, v) && Reaches(o, c, s, v, u)
    case OnlyArm(e, c) => Truthy(Eval(o, e, t).value) && Reaches(o, c, s, Eval(o, e, t).trace, u)
    case ThenArm(e, c, _) => Truthy(Eval(o, e, t).value) && Reaches(o, c, s, Eval(o, e, t).trace, u)
    case ElseArm(e, _, c) => !Truthy(Eval(o, e, t).value) && Reaches(o, c, s, Eval(o, e, t).trace, u)
    case WhileBody(e, c) => exists n: nat :: InTurn(o, Some(e), None, c, s, n, t, u)
    case DoBody(c, e) => exists n: nat :: InDoTurn(o, c, e, s, n, t, u)
    case ForBody(init, check, update, c) =>
      exists n: nat :: InTurn(o, check, update, c, s, n, EvalOr(o, init, Undefined, t).trace, u)
    case Clause(e, earlier, choice, c, later) =>
      var v := Eval(o, e, t);
      var sel := Select(o, v.value, Clauses(earlier, choice, Plug(c, s), later), v.trace);
      && sel.index <= CaseCount(earlier)
      && exists w :: CasesEnd(o, DropCases(earlier, sel.index), sel.trace, Normal, w) && Reaches(o, c, s, w, u)
    case InTryCatch(c) => Reaches(o, c, s, t, u)
    case InTryBlock(c, _) => Reaches(o, c, s, t, u)
    case InFinalizer(b, c) => exists k, v :: Ends(o, b, t, k, v) && Reaches(o, c, s, v, u)
  }

  /** In the turn after `n` others. */
  ghost predicate InTurn(o: Oracle, check: Option<Expr>, update: Option<Expr>, x: Context, s: Stmt, n: nat, t: Trace,
                         u: Trace)
    decreases x, 2, n
  {
    var v := EvalOr(o, check, Boolean(true), t);
    && Truthy(v.value)
    && if n == 0 then Reaches(o, x, s, v.trace, u)
       else exists k, w :: && Ends(o, Plug(x, s), v.trace, k, w) && (k.Normal? || k.Continuing?)
                           && InTurn(o, check, update, x, s, n - 1, EvalOr(o, update, Undefined, w).trace, u)
  }

  ghost predicate InDoTurn(o: Oracle, x: Context, e: Expr, s: Stmt, n: nat, t: Trace, u: Trace)
    decreases x, 2, n
  {
    if n == 0 then Reaches(o, x, s, t, u)
    else exists k, w :: && Ends(o, Plug(x, s), t, k, w) && (k.Normal? || k.Continuing?)
                        && Truthy(Eval(o, e, w).value) && InDoTurn(o, x, e, s, n - 1, Eval(o, e, w).trace, u)
  }

  /** The statements run one after the other, each to its end. */
  ghost predicate AllRun(o: Oracle, fs: seq<Stmt>, t: Trace, u: Trace) {
    if fs == [] then t == u else exists v :: Ends(o, fs[0], t, Normal, v) && AllRun(o, fs[1..], v, u)
  }

  lemma {:induction false} LastRuns(o: Oracle, fs: seq<Stmt>, f: Stmt, t: Trace, u: Trace) returns (v: Trace)
    requires AllRun(o, fs + [f], t, u)
    ensures AllRun(o, fs, t, v) && Ends(o, f, v, Normal, u)
    decreases |fs|
  {
    if fs == [] {
      v := t;
      assert (fs + [f])[1..] == [];
    } else {
      var w :| Ends(o, fs[0], t, Normal, w) && AllRun(o, (fs + [f])[1..], w, u);
      assert (fs + [f])[1..] == fs[1..] + [f];
      v := LastRuns(o, fs[1..], f, w, u);
    }
  }

  // ----- leaving -----

  /** A jump that no loop or switch of its context stops runs the finally blocks on its way once each, innermost
      first, and is still pending then. */
  lemma {:induction false} JumpLeaves(o: Oracle, x: Context, s: Stmt, t: Trace, u: Trace, k: Completion, v: Trace,
                                      w: Trace)
    requires Reaches(o, x, s, t, u) && Ends(o, s, u, k, v) && !k.Normal? && Passes(x, k)
    requires AllRun(o, Finalizers(x), v, w)
    ensures Ends(o, Plug(x, s), t, k, w)
    decreases x, 1
  {
    hide Ends, AllRun, CasesEnd;
    match x
    case Hole => NothingRuns(o, v, w);
    case BeforeIt(c, after) =>
      JumpLeaves(o, c, s, t, u, k, v, w);
      SeqStops(o, Plug(c, s), after, t, k, w);
    case AfterIt(before, c) =>
      var y :| Ends(o, before, t, Normal, y) && Reaches(o, c, s, y, u);
      JumpLeaves(o, c, s, y, u, k, v, w);
      SeqEnds(o, before, Plug(c, s), t, y, k, w);
    case OnlyArm(e, c) =>
      JumpLeaves(o, c, s, Eval(o, e, t).trace, u, k, v, w);
      IfEnds(o, e, Plug(c, s), Empty, t, k, w);
    case ThenArm(e, c, b) =>
      JumpLeaves(o, c, s, Eval(o, e, t).trace, u, k, v, w);
      IfEnds(o, e, Plug(c, s), b, t, k, w);
    case ElseArm(e, a, c) =>
      JumpLeaves(o, c, s, Eval(o, e, t).trace, u, k, v, w);
      IfEnds(o, e, a, Plug(c, s), t, k, w);
    case WhileBody(_, _) => JumpLeavesLoop(o, x, s, t, u, k, v, w);
    case ForBody(_, _, _, _) => JumpLeavesLoop(o, x, s, t, u, k, v, w);
    case DoBody(_, _) => JumpLeavesLoop(o, x, s, t, u, k, v, w);
    case Clause(_, _, _, _, _) => JumpLeavesClause(o, x, s, t, u, k, v, w);
    case InTryCatch(c) =>
      JumpLeaves(o, c, s, t, u, k, v, w);
      TryCatchEnds(o, Plug(c, s), t, k, w);
    case InTryBlock(c, f) =>
      var y := LastRuns(o, Finalizers(c), f, v, w);
      JumpLeaves(o, c, s, t, u, k, v, y);
      TryFinallyEnds(o, Plug(c, s), f, t, k, y, Normal, w);
    case InFinalizer(b, c) =>
      var j, y :| Ends(o, b, t, j, y) && Reaches(o, c, s, y, u);
      JumpLeaves(o, c, s, y, u, k, v, w);
      TryFinallyEnds(o, b, Plug(c, s), t, j, y, k, w);
  }

  lemma {:induction false} JumpLeavesLoop(o: Oracle, x: Context, s: Stmt, t: Trace, u: Trace, k: Completion,
                                          v: Trace, w: Trace)
    requires x.WhileBody? || x.ForBody? || x.DoBody?
    requires Reaches(o, x, s, t, u) && Ends(o, s, u, k, v) && !k.Normal? && Passes(x, k)
    requires AllRun(o, Finalizers(x), v, w)
    ensures Ends(o, Plug(x, s), t, k, w)
    decreases x, 0
  {
    hide Ends, AllRun, CasesEnd;
    match x
    case WhileBody(e, c) =>
      var n: nat :| InTurn(o, Some(e), None, c, s, n, t, u);
      TurnLeaves(o, Some(e), None, c, s, n, t, u, k, v, w);
      LoopsEnd(o, e, None, None, None, Plug(c, s), t, k, w);
    case ForBody(init, check, update, c) =>
      var t1 := EvalOr(o, init, Undefined, t).trace;
      var n: nat :| InTurn(o, check, update, c, s, n, t1, u);
      TurnLeaves(o, check, update, c, s, n, t1, u, k, v, w);
      LoopsEnd(o, Bool(true), init, check, update, Plug(c, s), t, k, w);
    case DoBody(c, e) =>
      var n: nat :| InDoTurn(o, c, e, s, n, t, u);
      DoTurnLeaves(o, c, e, s, n, t, u, k, v, w);
  }

  lemma {:induction false} JumpLeavesClause(o: Oracle, x: Context, s: Stmt, t: Trace, u: Trace, k: Completion,
                                            v: Trace, w: Trace)
    requires x.Clause? && Reaches(o, x, s, t, u) && Ends(o, s, u, k, v) && !k.Normal? && Passes(x, k)
    requires AllRun(o, Finalizers(x), v, w)
    ensures Ends(o, Plug(x, s), t, k, w)
    decreases x, 0
  {
    hide Ends, AllRun, CasesEnd;
    var Clause(e, earlier, choice, c, later) := x;
    var a := Eval(o, e, t);
    var cs := Clauses(earlier, choice, Plug(c, s), later);
    var sel := Select(o, a.value, cs, a.trace);
    var y :| CasesEnd(o, DropCases(earlier, sel.index), sel.trace, Normal, y) && Reaches(o, c, s, y, u);
    JumpLeaves(o, c, s, y, u, k, v, w);
    ClauseEnds(o, earlier, choice, Plug(c, s), later, sel.index, sel.trace, y, k, w);
    SwitchEnds(o, e, cs, t, k, w);
  }

  lemma NothingRuns(o: Oracle, t: Trace, u: Trace)
    requires AllRun(o, [], t, u)
    ensures t == u
  {
  }

  /** In any turn of a loop that tests first: a return leaves it, a break ends it. */
  lemma {:induction false} TurnLeaves(o: Oracle, check: Option<Expr>, update: Option<Expr>, x: Context, s: Stmt,
                                      n: nat, t: Trace, u: Trace, k: Completion, v: Trace, w: Trace)
    requires InTurn(o, check, update, x, s, n, t, u) && Ends(o, s, u, k, v) && Passes(x, k)
    requires (k.Breaking? || k.Returning?) && AllRun(o, Finalizers(x), v, w)
    ensures TurnsEnd(o, check, update, Plug(x, s), t, if k.Breaking? then Normal else k, w)
    decreases x, 2, n
  {
    hide Ends, AllRun, TurnsEnd, InTurn, Reaches, Plug, Finalizers, Passes;
    var a := EvalOr(o, check, Boolean(true), t);
    if n == 0 {
      ThisTurn(o, check, update, x, s, t, u);
      JumpLeaves(o, x, s, a.trace, u, k, v, w);
      LastTurn(o, check, update, Plug(x, s), t, k, w);
    } else {
      var j, y := EarlierTurn(o, check, update, x, s, n, t, u);
      TurnLeaves(o, check, update, x, s, n - 1, EvalOr(o, update, Undefined, y).trace, u, k, v, w);
      OneMoreTurn(o, check, update, Plug(x, s), t, j, y, if k.Breaking? then Normal else k, w);
    }
  }

  lemma ThisTurn(o: Oracle, check: Option<Expr>, update: Option<Expr>, x: Context, s: Stmt, t: Trace, u: Trace)
    requires InTurn(o, check, update, x, s, 0, t, u)
    ensures var a := EvalOr(o, check, Boolean(true), t); Truthy(a.value) && Reaches(o, x, s, a.trace, u)
  {
  }

  lemma EarlierTurn(o: Oracle, check: Option<Expr>, update: Option<Expr>, x: Context, s: Stmt, n: nat, t: Trace,
                    u: Trace)
    returns (j: Completion, y: Trace)
    requires n > 0 && InTurn(o, check, update, x, s, n, t, u)
    ensures var a := EvalOr(o, check, Boolean(true), t);
            Truthy(a.value) && Ends(o, Plug(x, s), a.trace, j, y) && (j.Normal? || j.Continuing?)
    ensures InTurn(o, check, update, x, s, n - 1, EvalOr(o, update, Undefined, y).trace, u)
  {
    hide Ends, Reaches, Plug;
    var a := EvalOr(o, check, Boolean(true), t);
    j, y :| && Ends(o, Plug(x, s), a.trace, j, y) && (j.Normal? || j.Continuing?)
            && InTurn(o, check, update, x, s, n - 1, EvalOr(o, update, Undefined, y).trace, u);
  }

  lemma {:induction false} DoTurnLeaves(o: Oracle, x: Context, e: Expr, s: Stmt, n: nat, t: Trace, u: Trace,
                                        k: Completion, v: Trace, w: Trace)
    requires InDoTurn(o, x, e, s, n, t, u) && Ends(o, s, u, k, v) && Passes(x, k)
    requires (k.Breaking? || k.Returning?) && AllRun(o, Finalizers(x), v, w)
    ensures Ends(o, DoWhile(Plug(x, s), e), t, if k.Breaking? then Normal else k, w)
    decreases x, 2, n
  {
    hide Ends, AllRun, InDoTurn, Reaches, Plug, Finalizers, Passes;
    if n == 0 {
      ThisDoTurn(o, x, e, s, t, u);
      JumpLeaves(o, x, s, t, u, k, v, w);
      DoLastTurn(o, Plug(x, s), e, t, k, w);
    } else {
      var j, y := EarlierDoTurn(o, x, e, s, n, t, u);
      DoTurnLeaves(o, x, e, s, n - 1, Eval(o, e, y).trace, u, k, v, w);
      DoMoreTurns(o, Plug(x, s), e, t, j, y, if k.Breaking? then Normal else k, w);
    }
  }

  lemma ThisDoTurn(o: Oracle, x: Context, e: Expr, s: Stmt, t: Trace, u: Trace)
    requires InDoTurn(o, x, e, s, 0, t, u)
    ensures Reaches(o, x, s, t, u)
  {
  }

  lemma EarlierDoTurn(o: Oracle, x: Context, e: Expr, s: Stmt, n: nat, t: Trace, u: Trace)
    returns (j: Completion, y: Trace)
    requires n > 0 && InDoTurn(o, x, e, s, n, t, u)
    ensures Ends(o, Plug(x, s), t, j, y) && (j.Normal? || j.Continuing?) && Truthy(Eval(o, e, y).value)
    ensures InDoTurn(o, x, e, s, n - 1, Eval(o, e, y).trace, u)
  {
    hide Ends, Reaches, Plug;
    j, y :| && Ends(o, Plug(x, s), t, j, y) && (j.Normal? || j.Continuing?)
            && Truthy(Eval(o, e, y).value) && InDoTurn(o, x, e, s, n - 1, Eval(o, e, y).trace, u);
  }

  /** A continue runs the finally blocks on its way and then goes on with the next turn: the loop ends as it
      ends from there. */
  lemma ContinueGoesOn(o: Oracle, check: Option<Expr>, update: Option<Expr>, x: Context, t: Trace, u: Trace, w: Trace,
                       k: Completion, z: Trace)
    requires InTurn(o, check, update, x, Continue, 0, t, u) && Passes(x, Continuing) && AllRun(o, Finalizers(x), u, w)
    requires TurnsEnd(o, check, update, Plug(x, Continue), EvalOr(o, update, Undefined, w).trace, k, z)
    ensures TurnsEnd(o, check, update, Plug(x, Continue), t, k, z)
  {
    assert Exec(o, Continue, 0, u) == Done(Continuing, u);
    assert Ends(o, Continue, u, Continuing, u);
    hide Ends, AllRun, TurnsEnd, Reaches;
    var a := EvalOr(o, check, Boolean(true), t);
    JumpLeaves(o, x, Continue, a.trace, u, Continuing, u, w);
    OneMoreTurn(o, check, update, Plug(x, Continue), t, Continuing, w, k, z);
  }

  lemma {:induction false} ClauseEnds(o: Oracle, earlier: Cases, choice: Option<Expr>, body: Stmt, later: Cases,
                                      i: nat, t: Trace, u: Trace, k: Completion, v: Trace)
    requires i <= CaseCount(earlier) && CasesEnd(o, DropCases(earlier, i), t, Normal, u)
    requires Ends(o, body, u, k, v) && !k.Normal?
    ensures i <= CaseCount(Clauses(earlier, choice, body, later))
    ensures CasesEnd(o, DropCases(Clauses(earlier, choice, body, later), i), t, k, v)
    decreases earlier
  {
    hide Ends, CasesEnd;
    var cs := Clauses(earlier, choice, body, later);
    if earlier.NoCases? {
      NoCasesEnd(o, t, u);
      CasesStop(o, cs, t, k, v);
    } else if i > 0 {
      ClauseEnds(o, earlier.rest, choice, body, later, i - 1, t, u, k, v);
    } else {
      var y := FirstCaseEnds(o, earlier, t, u);
      ClauseEnds(o, earlier.rest, choice, body, later, 0, y, u, k, v);
      CasesEnter(o, cs, t, y, k, v);
    }
  }

  lemma NoCasesEnd(o: Oracle, t: Trace, u: Trace)
    requires CasesEnd(o, NoCases, t, Normal, u)
    ensures t == u
  {
  }

  lemma FirstCaseEnds(o: Oracle, cs: Cases, t: Trace, u: Trace) returns (y: Trace)
    requires !cs.NoCases? && CasesEnd(o, cs, t, Normal, u)
    ensures Ends(o, cs.body, t, Normal, y) && CasesEnd(o, cs.rest, y, Normal, u)
  {
    var m: nat :| ExecCases(o, cs, m, t) == Done(Normal, u);
    var r := Exec(o, cs.body, m, t);
    y := r.trace;
    assert r == Done(Normal, y);
    assert ExecCases(o, cs.rest, m, y) == Done(Normal, u);
  }

  // ----- in the emitted code -----

  /** At any point of any function: the code of a context with a jump in it runs the finally blocks on the way
      out once each, innermost first, and then is where the jump has to go: behind the nearest loop or switch for
      break, at the loop's next turn for continue, out of the function for return, or, with finally blocks
      further out, at the nearest one of those with the jump on record. */
  lemma EmittedJumpLands(g: Code, o: Oracle, x: Context, jump: Stmt, st: State, c: Config, u: Trace, k: Completion,
                         v: Trace, w: Trace)
    returns (n: nat, c': Config, cells: Store)
    requires Valid(st) && Fits(Plug(x, jump), st) && SafeFinalizers(Plug(x, jump))
    requires AtEnd(c, st) && Hosts(g, Lower(Plug(x, jump), st).code)
    requires Reaches(o, x, jump, c.trace, u) && Ends(o, jump, u, k, v) && !k.Normal? && Passes(x, k)
    requires AllRun(o, Finalizers(x), v, w)
    ensures c' == Run(g, o, c, n) && cells.trace == w && Arrives(Lower(Plug(x, jump), st), k, cells, c')
    ensures var top := |st.scopes| - 1;
            && (k.Breaking? ==>
                  && top >= 0
                  && (st.scopes[top].Loop? ==> AtStart(c', st.scopes[top].aft) && c'.trace == w)
                  && (st.scopes[top].SwitchScope? ==> AtStart(c', st.scopes[top].merge) && c'.trace == w))
            && (k.Continuing? ==>
                  && CanContinue(st.scopes, top)
                  && var i := FindLoopOrFinally(st.scopes, top);
                     st.scopes[i].Loop? ==> AtStart(c', st.scopes[i].fore) && c'.trace == w)
            && (k.Returning? && st.finallies == [] ==> c' == Halted(k.value, w))
  {
    hide Run, Lower, CellExec, Hosts, SafeFinalizers, Reaches, AllRun, Plug, Arrives, Valid, Evolves, Fits;
    var s := Plug(x, jump);
    JumpLeaves(o, x, jump, c.trace, u, k, v, w);
    n, c', cells := EndingLands(g, o, s, st, c, k, w);
    LandsAt(st, Lower(s, st), k, cells, c');
  }

  lemma EndingLands(g: Code, o: Oracle, s: Stmt, st: State, c: Config, k: Completion, w: Trace)
    returns (n: nat, c': Config, cells: Store)
    requires Valid(st) && Fits(s, st) && SafeFinalizers(s) && AtEnd(c, st) && Hosts(g, Lower(s, st).code)
    requires Ends(o, s, c.trace, k, w)
    ensures c' == Run(g, o, c, n) && cells.trace == w && Arrives(Lower(s, st), k, cells, c')
  {
    var fuel: nat :| Exec(o, s, fuel, c.trace) == Done(k, w);
    hide Run, Lower, Exec, CellExec, Hosts, SafeFinalizers, Valid, Fits, Arrives;
    Agreement(o, s, fuel, StoreOf(c));
    n, c' := Simulate(g, o, s, fuel, st, c);
    cells := CellExec(o, s, fuel, StoreOf(c)).store;
  }

  /** What landing means when no finally block is in the way. */
  lemma LandsAt(st: State, r: State, k: Completion, cells: Store, c: Config)
    requires Evolves(st, r) && Arrives(r, k, cells, c)
    ensures var top := |st.scopes| - 1;
            && (k.Breaking? ==>
                  && top >= 0
                  && (st.scopes[top].Loop? ==> AtStart(c, st.scopes[top].aft) && c.trace == cells.trace)
                  && (st.scopes[top].SwitchScope? ==> AtStart(c, st.scopes[top].merge) && c.trace == cells.trace))
            && (k.Continuing? ==>
                  && CanContinue(st.scopes, top)
                  && var i := FindLoopOrFinally(st.scopes, top);
                     st.scopes[i].Loop? ==> AtStart(c, st.scopes[i].fore) && c.trace == cells.trace)
            && (k.Returning? && st.finallies == [] ==> c == Halted(k.value, cells.trace))
  {
    hide Grows, ScopeOk;
    GrowExits(st.scopes, r.scopes);
    if k.Breaking? {
      assert SameShape(st.scopes[|st.scopes| - 1], r.scopes[|st.scopes| - 1]);
    } else if k.Continuing? {
      var i := FindLoopOrFinally(st.scopes, |st.scopes| - 1);
      assert SameShape(st.scopes[i], r.scopes[i]);
    }
  }

  /** One turn of a do loop, directly or with a switch in between, whose test and whose successor perform
      an operation of their own: the trace tells where a jump out of `body` has landed. */
  function OneTurn(body: Stmt, viaSwitch: bool, test: int, after: int): Stmt {
    var turn := if viaSwitch then Switch(Bool(true), DefaultCase(body, NoCases)) else body;
    Seq(DoWhile(turn, Op(test)), Expression(Op(after)))
  }

  /** Break leaves the nearest loop or switch, continue goes to the test of the nearest loop, and return
      leaves the function. */
  function TraceAfter(k: Completion, viaSwitch: bool, t: Trace, test: int, after: int): Trace {
    if k.Returning? then t
    else if k.Breaking? && !viaSwitch then t + [after]
    else t + [test] + [after]
  }

  lemma OpEnds(o: Oracle, id: int, t: Trace)
    ensures Ends(o, Expression(Op(id)), t, Normal, t + [id])
  {
    assert Exec(o, Expression(Op(id)), 0, t) == Done(Normal, t + [id]);
  }

  lemma OneTurnEnds(o: Oracle, body: Stmt, viaSwitch: bool, k: Completion, t: Trace, test: int, after: int)
    requires Ends(o, body, [], k, t) && !k.Normal? && (!k.Returning? ==> !Truthy(o.call(test, t)))
    ensures Ends(o, OneTurn(body, viaSwitch, test, after), [], if k.Returning? then k else Normal,
                 TraceAfter(k, viaSwitch, t, test, after))
  {
    hide Ends, CasesEnd;
    var cs := DefaultCase(body, NoCases);
    var turn := if viaSwitch then Switch(Bool(true), cs) else body;
    var j := if viaSwitch && k.Breaking? then Normal else k;
    if viaSwitch {
      CasesStop(o, cs, [], k, t);
      assert DefaultIndex(cs) == 0;
      assert Select(o, Boolean(true), cs, []) == Selection(0, []) by {
        assert SelectFrom(o, Boolean(true), NoCases, [], 1, 0) == Selection(0, []);
      }
      assert DropCases(cs, 0) == cs;
      SwitchEnds(o, Bool(true), cs, [], k, t);
    }
    DoLastTurn(o, turn, Op(test), [], j, t);
    var loop := DoWhile(turn, Op(test));
    if k.Returning? {
      SeqStops(o, loop, Expression(Op(after)), [], k, t);
    } else {
      var u := if j.Breaking? then t else t + [test];
      OpEnds(o, after, u);
      SeqEnds(o, loop, Expression(Op(after)), [], u, Normal, u + [after]);
    }
  }

  /** As whole functions: in the emitted code a break, continue or return out of any context runs each finally
      block on its way exactly once, innermost first, and then reaches its target with the value it carries. */
  lemma EmittedExitRunsEachFinallyOnce(o: Oracle, x: Context, jump: Stmt, viaSwitch: bool, test: int, after: int,
                                       u: Trace, k: Completion, v: Trace, w: Trace)
    requires var body := OneTurn(Plug(x, jump), viaSwitch, test, after);
             Legal(body, false, false) && SafeFinalizers(body)
    requires Reaches(o, x, jump, [], u) && Ends(o, jump, u, k, v) && !k.Normal? && Passes(x, k)
    requires AllRun(o, Finalizers(x), v, w) && (!k.Returning? ==> !Truthy(o.call(test, w)))
    ensures Halts(LowerFunction(OneTurn(Plug(x, jump), viaSwitch, test, after)), o, ResultOf(k),
                  TraceAfter(k, viaSwitch, w, test, after))
  {
    hide Plug, OneTurn, TraceAfter, LowerFunction, Halts, Legal, SafeFinalizers, Reaches, AllRun;
    var body := OneTurn(Plug(x, jump), viaSwitch, test, after);
    JumpLeaves(o, x, jump, [], u, k, v, w);
    OneTurnEnds(o, Plug(x, jump), viaSwitch, k, w, test, after);
    var t := TraceAfter(k, viaSwitch, w, test, after);
    EndsCompletes(o, body, if k.Returning? then k else Normal, t);
    LoweringPreservesMeaning(o, body, ResultOf(k), t);
  }

  /** A return, from any depth and any turn of any loop, ends the function with its value. */
  lemma EmittedReturnRunsEachFinallyOnce(o: Oracle, x: Context, arg: Option<Expr>, u: Trace, w: Trace)
    requires Legal(Plug(x, Return(arg)), false, false) && SafeFinalizers(Plug(x, Return(arg)))
    requires Reaches(o, x, Return(arg), [], u) && AllRun(o, Finalizers(x), EvalOr(o, arg, Undefined, u).trace, w)
    ensures Halts(LowerFunction(Plug(x, Return(arg))), o, EvalOr(o, arg, Undefined, u).value, w)
  {
    var r := EvalOr(o, arg, Undefined, u);
    assert Exec(o, Return(arg), 0, u) == Done(Returning(r.value), r.trace);
    assert Ends(o, Return(arg), u, Returning(r.value), r.trace);
    hide Plug, LowerFunction, Halts, Legal, SafeFinalizers, Reaches, AllRun, Exec, Ends;
    ReturnPasses(x, r.value);
    JumpLeaves(o, x, Return(arg), [], u, Returning(r.value), r.trace, w);
    EndsCompletes(o, Plug(x, Return(arg)), Returning(r.value), w);
    LoweringPreservesMeaning(o, Plug(x, Return(arg)), r.value, w);
  }

  lemma {:induction false} ReturnPasses(x: Context, v: Value)
    ensures Passes(x, Returning(v))
  {
    if !x.Hole? {
      ReturnPasses(x.inside, v);
    }
  }

  lemma EndsCompletes(o: Oracle, body: Stmt, k: Completion, t: Trace)
    requires Ends(o, body, [], k, t)
    ensures Completes(o, body, ResultOf(k), t)
  {
  }
}

/** How running emitted blocks follows the source statement: landing points and primitive steps. */
module Simulation {
  import opened Basics
  import opened Completions
  import opened ReasonCell
  import opened BlockMachine
  import opened Emitter
  import opened Lowering

  /** The finished code `g` contains everything in `code`, which was emitted on the way to it. */
  ghost predicate Hosts(g: Code, code: Code) {
    |code| <= |g| && forall i :: 0 <= i < |code| ==> code[i] <= g[i]
  }

  lemma HostsSelf(g: Code)
    ensures Hosts(g, g)
  {
  }

  lemma StaysEmpty(a: State, b: State, lo: nat, hi: nat, i: nat)
    requires Grows(a.code, b.code, lo, hi) && i < |a.code| && !(lo <= i < hi) && a.code[i] == []
    ensures i < |b.code| && b.code[i] == []
  {
  }

  lemma AllStayEmpty(a: State, b: State, lo: nat, hi: nat, from: nat, to: nat)
    requires Grows(a.code, b.code, lo, hi) && to <= |a.code| && (to <= lo || hi <= from)
    requires forall i :: from <= i < to ==> a.code[i] == []
    ensures to <= |b.code| && forall i :: from <= i < to ==> b.code[i] == []
  {
  }

  lemma HostsBack(g: Code, a: State, b: State, lo: nat, hi: nat)
    requires Hosts(g, b.code) && Grows(a.code, b.code, lo, hi)
    ensures Hosts(g, a.code)
  {
    forall i | 0 <= i < |a.code| ensures a.code[i] <= g[i] {
      assert a.code[i] <= b.code[i] <= g[i];
    }
  }

  /** The machine is about to run what will be emitted next. */
  ghost predicate AtEnd(c: Config, st: State) {
    c.Running? && st.cur < |st.code| && c.block == st.cur && c.pc == |st.code[st.cur]|
  }

  ghost predicate AtStart(c: Config, b: nat) {
    c.Running? && c.block == b && c.pc == 0
  }

  /** The effects so far and the cells, as the machine has them. */
  ghost function StoreOf(c: Config): Store
    requires c.Running?
  {
    Store(c.trace, c.reason, c.returnValue)
  }

  // ----- where an abrupt completion lands -----

  /** At the block a break leads to, with the store unchanged, or at the finally block on the way to it, with a
      reason that stands for this break. */
  ghost predicate BreakLands(scopes: seq<Scope>, i: nat, w: Store, c: Config)
    requires i < |scopes|
  {
    match scopes[i]
    case Loop(_, aft) => AtStart(c, aft) && StoreOf(c) == w
    case SwitchScope(merge) => AtStart(c, merge) && StoreOf(c) == w
    case Try(cleanup, hasFinally, ds) =>
      i > 0 &&
      if hasFinally then
        AtStart(c, cleanup) && StoreOf(c) == w.(reason := c.reason) && Destination(i - 1, ByBreak, c.reason) in ds
      else BreakLands(scopes, i - 1, w, c)
  }

  ghost predicate ContinueLands(scopes: seq<Scope>, i: nat, w: Store, c: Config)
    requires i < |scopes| && CanContinue(scopes, i)
  {
    var j := FindLoopOrFinally(scopes, i);
    match scopes[j]
    case Loop(fore, _) => AtStart(c, fore) && StoreOf(c) == w
    case Try(cleanup, _, ds) =>
      && AtStart(c, cleanup) && StoreOf(c) == w.(reason := c.reason)
      && Destination(FindLoopOrFinally(scopes, j - 1), ByContinue, c.reason) in ds
  }

  ghost predicate ReturnLands(finallies: seq<nat>, cell: bool, v: Value, w: Store, c: Config) {
    if finallies == [] then c == Halted(v, w.trace)
    else AtStart(c, finallies[0]) && StoreOf(c) == w.(reason := REASON_RETURN, value := v) && cell
  }

  /** Where the machine is once the statement lowered up to `st` has completed. */
  ghost predicate Arrives(st: State, k: Completion, w: Store, c: Config) {
    match k
    case Normal => AtEnd(c, st) && StoreOf(c) == w
    case Breaking => CanBreak(st.scopes, |st.scopes| - 1) && BreakLands(st.scopes, |st.scopes| - 1, w, c)
    case Continuing => CanContinue(st.scopes, |st.scopes| - 1) && ContinueLands(st.scopes, |st.scopes| - 1, w, c)
    case Returning(v) => ReturnLands(st.finallies, st.hasReturnCell, v, w, c)
  }

  /** The reason for a return is on record only if it was before or the return-value cell exists by now. */
  ghost predicate Marked(from: int, w: Store, st: State) {
    w.reason == REASON_RETURN ==> from == REASON_RETURN || st.hasReturnCell
  }

  /** What a run of `n` steps that started with reason `from` and ended in `c` owes to the source. */
  ghost predicate Follows(out: Ending, fuel: nat, n: nat, from: int, st: State, c: Config) {
    match out
    case Unfinished => n >= fuel && c.Running?
    case Ended(k, w) => Arrives(st, k, w, c) && Marked(from, w, st)
  }

  // ----- landing points survive later emission -----

  ghost predicate ShapesUpTo(a: seq<Scope>, b: seq<Scope>, i: int) {
    i < |a| && i < |b| && forall k :: 0 <= k <= i ==> SameShape(a[k], b[k])
  }

  lemma LandsCarry(a: seq<Scope>, b: seq<Scope>, i: nat, w: Store, c: Config)
    requires ShapesUpTo(a, b, i)
    ensures CanBreak(a, i) == CanBreak(b, i) && CanContinue(a, i) == CanContinue(b, i)
    ensures BreakLands(a, i, w, c) ==> BreakLands(b, i, w, c)
    ensures CanContinue(a, i) && ContinueLands(a, i, w, c) ==> ContinueLands(b, i, w, c)
    ensures CanContinue(a, i) ==> FindLoopOrFinally(a, i) == FindLoopOrFinally(b, i)
  {
    AlikeExits(a, b, i);
    BreakCarries(a, b, i, w, c);
    if CanContinue(a, i) {
      ContinueCarries(a, b, i, w, c);
    }
    hide BreakLands, ContinueLands, CanBreak, CanContinue, FindLoopOrFinally;
  }

  lemma {:induction false} BreakCarries(a: seq<Scope>, b: seq<Scope>, i: nat, w: Store, c: Config)
    requires ShapesUpTo(a, b, i)
    ensures BreakLands(a, i, w, c) ==> BreakLands(b, i, w, c)
  {
    assert SameShape(a[i], b[i]);
    if i > 0 {
      BreakCarries(a, b, i - 1, w, c);
    }
  }

  lemma ContinueCarries(a: seq<Scope>, b: seq<Scope>, i: nat, w: Store, c: Config)
    requires ShapesUpTo(a, b, i) && CanContinue(a, i)
    ensures CanContinue(b, i) && (ContinueLands(a, i, w, c) ==> ContinueLands(b, i, w, c))
  {
    AlikeExits(a, b, i);
    var j: int := FindLoopOrFinally(a, i);
    assert SameShape(a[j], b[j]);
    AlikeExits(a, b, j - 1);
    hide BreakLands, CanBreak;
  }

  lemma ArrivesLater(a: State, b: State, k: Completion, w: Store, c: Config)
    requires Arrives(a, k, w, c) && !k.Normal?
    requires ScopesGrow(a.scopes, b.scopes) && a.finallies == b.finallies && (a.hasReturnCell ==> b.hasReturnCell)
    ensures Arrives(b, k, w, c)
  {
    if k.Breaking? || k.Continuing? {
      LandsCarry(a.scopes, b.scopes, |a.scopes| - 1, w, c);
    }
  }

  // ----- single steps -----

  lemma StepEmitted(g: Code, o: Oracle, st: State, i: Instr, c: Config)
    requires AtEnd(c, st) && Hosts(g, Emit(st, i).code)
    ensures c.block < |g| && c.pc < |g[c.block]| && g[c.block][c.pc] == i
    ensures Run(g, o, c, 1) == Step(g, o, c)
  {
    var s1 := Emit(st, i);
    assert s1.code[st.cur] == st.code[st.cur] + [i] <= g[st.cur];
    assert g[st.cur][|st.code[st.cur]|] == i;
    assert Run(g, o, c, 1) == Run(g, o, Step(g, o, c), 0);
  }

  lemma HostsEmit(g: Code, st: State, i: Instr)
    requires st.cur < |st.code| && Hosts(g, Emit(st, i).code)
    ensures Hosts(g, st.code)
  {
    var s1 := Emit(st, i);
    forall j | 0 <= j < |st.code| ensures st.code[j] <= g[j] {
      assert st.code[j] <= s1.code[j] <= g[j];
    }
  }

  lemma RunEval(g: Code, o: Oracle, st: State, e: Option<Expr>, c: Config) returns (n: nat, c': Config)
    requires AtEnd(c, st) && Hosts(g, EmitOptional(st, e).st.code)
    ensures c' == Run(g, o, c, n) && AtEnd(c', EmitOptional(st, e).st) && StoreOf(c') == Evaluate(o, e, StoreOf(c))
    ensures OperandValue(EmitOptional(st, e).op, c'.regs) == EvalOr(o, e, Undefined, c.trace).value
    ensures Below(EmitOptional(st, e).op, EmitOptional(st, e).st.nextReg)
    ensures forall op :: Below(op, st.nextReg) ==> OperandValue(op, c'.regs) == OperandValue(op, c.regs)
  {
    if e.Some? && e.value.Op? {
      n := 1;
      StepEmitted(g, o, st, EvalTo(st.nextReg, e.value.id), c);
      c' := Step(g, o, c);
    } else {
      n, c' := 0, c;
    }
  }

  lemma RunBr(g: Code, o: Oracle, st: State, b: nat, c: Config) returns (c': Config)
    requires AtEnd(c, st) && Hosts(g, Emit(st, Br(b)).code)
    ensures c' == Run(g, o, c, 1) && AtStart(c', b) && StoreOf(c') == StoreOf(c) && c'.regs == c.regs
  {
    StepEmitted(g, o, st, Br(b), c);
    c' := Step(g, o, c);
  }

  lemma RunCondBr(g: Code, o: Oracle, st: State, e: Expr, t: nat, f: nat, c: Config) returns (n: nat, c': Config)
    requires AtEnd(c, st) && Hosts(g, EmitCondBr(st, e, t, f).code)
    ensures n >= 1 && c' == Run(g, o, c, n)
    ensures AtStart(c', if Truthy(Eval(o, e, c.trace).value) then t else f)
    ensures StoreOf(c') == Evaluate(o, Some(e), StoreOf(c))
  {
    var v := EmitEval(st, e);
    var i := CondBr(if e.Bool? then Bit(!e.b) else IsFalsy(v.op), f, t);
    assert EmitCondBr(st, e, t, f) == Emit(v.st, i);
    HostsEmit(g, v.st, i);
    var m, c1 := RunEval(g, o, st, Some(e), c);
    StepEmitted(g, o, v.st, i, c1);
    RunAdd(g, o, c, m, 1);
    n, c' := m + 1, Step(g, o, c1);
  }

  lemma RunCaseBr(g: Code, o: Oracle, st: State, d: Operand, e: Expr, different: nat, equal: nat, c: Config)
    returns (n: nat, c': Config)
    requires AtEnd(c, st) && Hosts(g, Emit(EmitEval(st, e).st, CaseBr(d, EmitEval(st, e).op, different, equal)).code)
    requires Below(d, st.nextReg)
    ensures c' == Run(g, o, c, n)
    ensures var v := Eval(o, e, c.trace);
            AtStart(c', if o.strictlyEqual(OperandValue(d, c.regs), v.value) then equal else different)
    ensures StoreOf(c') == Evaluate(o, Some(e), StoreOf(c))
    ensures OperandValue(d, c'.regs) == OperandValue(d, c.regs)
  {
    var v := EmitEval(st, e);
    var i := CaseBr(d, v.op, different, equal);
    HostsEmit(g, v.st, i);
    var m, c1 := RunEval(g, o, st, Some(e), c);
    StepEmitted(g, o, v.st, i, c1);
    RunAdd(g, o, c, m, 1);
    n, c' := m + 1, Step(g, o, c1);
  }

  lemma RunSwitchReason(g: Code, o: Oracle, st: State, otherwise: nat, arms: seq<(int, nat)>, c: Config)
    returns (c': Config)
    requires AtEnd(c, st) && Hosts(g, Emit(st, SwitchReason(otherwise, arms)).code)
    ensures c' == Run(g, o, c, 1) && AtStart(c', ArmTarget(arms, c.reason, otherwise))
    ensures StoreOf(c') == StoreOf(c)
  {
    StepEmitted(g, o, st, SwitchReason(otherwise, arms), c);
    c' := Step(g, o, c);
  }

  /** Store a reason, then branch. */
  lemma RunStoreBr(g: Code, o: Oracle, st: State, k: int, b: nat, c: Config) returns (c': Config)
    requires AtEnd(c, st) && Hosts(g, Emit(Emit(st, StoreReason(k)), Br(b)).code)
    ensures c' == Run(g, o, c, 2) && AtStart(c', b) && StoreOf(c') == StoreOf(c).(reason := k)
  {
    var s1 := Emit(st, StoreReason(k));
    HostsEmit(g, s1, Br(b));
    StepEmitted(g, o, st, StoreReason(k), c);
    var c1 := Step(g, o, c);
    c' := RunBr(g, o, s1, b, c1);
    RunAdd(g, o, c, 1, 1);
  }

  lemma RunCleanup(g: Code, o: Oracle, st: State, i: nat, scope: nat, kind: Kind, c: Config) returns (c': Config)
    requires AtEnd(c, st) && Valid(st) && i < |st.scopes| && st.scopes[i].Try?
    requires forall id :: DestinationOk(st.scopes, i, Destination(scope, kind, id))
    requires Hosts(g, EmitCleanup(st, i, scope, kind).code)
    ensures c' == Run(g, o, c, 2) && AtStart(c', st.scopes[i].cleanup)
    ensures StoreOf(c') == StoreOf(c).(reason := c'.reason)
    ensures Destination(scope, kind, c'.reason) in EmitCleanup(st, i, scope, kind).scopes[i].destinations
  {
    WithDestinationEvolves(st, i, scope, kind);
    c' := RunStoreBr(g, o, WithDestination(st, i, scope, kind), DestinationId(st, i, scope, kind),
      st.scopes[i].cleanup, c);
  }

  lemma RunExitAft(g: Code, o: Oracle, st: State, i: nat, c: Config) returns (n: nat, c': Config)
    requires AtEnd(c, st) && Valid(st) && i < |st.scopes| && CanBreak(st.scopes, i)
    requires Hosts(g, ExitAft(st, i).code)
    ensures c' == Run(g, o, c, n)
    ensures |ExitAft(st, i).scopes| == |st.scopes| && BreakLands(ExitAft(st, i).scopes, i, StoreOf(c), c')
  {
    ExitAftEvolves(st, i);
    match st.scopes[i]
    case Loop(_, aft) => n := 1; c' := RunBr(g, o, st, aft, c);
    case SwitchScope(merge) => n := 1; c' := RunBr(g, o, st, merge, c);
    case Try(_, hasFinally, _) =>
      assert CanBreak(st.scopes, i - 1);
      if hasFinally {
        n := 2;
        c' := RunCleanup(g, o, st, i, i - 1, ByBreak, c);
      } else {
        n, c' := RunExitAft(g, o, st, i - 1, c);
        assert SameShape(st.scopes[i], ExitAft(st, i).scopes[i]);
      }
  }

  lemma RunExitFore(g: Code, o: Oracle, st: State, i: nat, c: Config) returns (n: nat, c': Config)
    requires AtEnd(c, st) && Valid(st) && i < |st.scopes| && CanContinue(st.scopes, i)
    requires st.scopes[i].Loop? || IsFinally(st.scopes[i])
    requires Hosts(g, ExitFore(st, i).code)
    ensures c' == Run(g, o, c, n)
    ensures |ExitFore(st, i).scopes| == |st.scopes| && CanContinue(ExitFore(st, i).scopes, i)
    ensures ContinueLands(ExitFore(st, i).scopes, i, StoreOf(c), c')
  {
    ExitForeEvolves(st, i);
    AlikeExits(st.scopes, ExitFore(st, i).scopes, i);
    match st.scopes[i]
    case Loop(fore, _) =>
      n := 1;
      c' := RunBr(g, o, st, fore, c);
    case Try(_, _, _) =>
      n := 2;
      c' := RunCleanup(g, o, st, i, FindLoopOrFinally(st.scopes, i - 1), ByContinue, c);
      AlikeExits(st.scopes, ExitFore(st, i).scopes, i - 1);
  }
}

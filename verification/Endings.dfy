/** How statements end, without counting turns: `Exec` with enough fuel, and the rules that follow from it. */
module Endings {
  import opened Basics
  import opened Completions

  /** More fuel changes nothing once a statement has ended. */
  lemma {:induction false} MoreFuel(o: Oracle, s: Stmt, fuel: nat, more: nat, t: Trace)
    requires fuel <= more && Exec(o, s, fuel, t).Done?
    ensures Exec(o, s, more, t) == Exec(o, s, fuel, t)
    decreases fuel, s, 1
  {
    match s
    case Seq(a, b) =>
      MoreFuel(o, a, fuel, more, t);
      var r := Exec(o, a, fuel, t);
      if r.completion.Normal? {
        MoreFuel(o, b, fuel, more, r.trace);
      }
    case If(e, a) =>
      if Truthy(Eval(o, e, t).value) {
        MoreFuel(o, a, fuel, more, Eval(o, e, t).trace);
      }
    case IfElse(e, a, b) => MoreFuel(o, if Truthy(Eval(o, e, t).value) then a else b, fuel, more, Eval(o, e, t).trace);
    case While(e, b) => MoreTurns(o, Some(e), None, b, fuel, more, t);
    case For(init, check, update, b) =>
      MoreTurns(o, check, update, b, fuel, more, EvalOr(o, init, Undefined, t).trace);
    case DoWhile(b, e) =>
      MoreFuel(o, b, fuel, more, t);
      var r := Exec(o, b, fuel, t);
      if !r.completion.Returning? && !r.completion.Breaking? && Truthy(Eval(o, e, r.trace).value) {
        MoreFuel(o, s, fuel - 1, more - 1, Eval(o, e, r.trace).trace);
      }
    case Switch(e, cs) =>
      var v := Eval(o, e, t);
      var sel := Select(o, v.value, cs, v.trace);
      MoreCases(o, DropCases(cs, sel.index), fuel, more, sel.trace);
    case TryFinally(b, f) =>
      MoreFuel(o, b, fuel, more, t);
      MoreFuel(o, f, fuel, more, Exec(o, b, fuel, t).trace);
    case TryCatch(b) => MoreFuel(o, b, fuel, more, t);
    case _ =>
  }

  lemma {:induction false} MoreTurns(o: Oracle, check: Option<Expr>, update: Option<Expr>, b: Stmt, fuel: nat,
                                     more: nat, t: Trace)
    requires fuel <= more && Iterate(o, check, update, b, fuel, t).Done?
    ensures Iterate(o, check, update, b, more, t) == Iterate(o, check, update, b, fuel, t)
    decreases fuel, b, 2
  {
    var v := EvalOr(o, check, Boolean(true), t);
    if Truthy(v.value) {
      MoreFuel(o, b, fuel, more, v.trace);
      var r := Exec(o, b, fuel, v.trace);
      if !r.completion.Returning? && !r.completion.Breaking? {
        MoreTurns(o, check, update, b, fuel - 1, more - 1, EvalOr(o, update, Undefined, r.trace).trace);
      }
    }
  }

  lemma {:induction false} MoreCases(o: Oracle, cs: Cases, fuel: nat, more: nat, t: Trace)
    requires fuel <= more && ExecCases(o, cs, fuel, t).Done?
    ensures ExecCases(o, cs, more, t) == ExecCases(o, cs, fuel, t)
    decreases fuel, cs, 0
  {
    if !cs.NoCases? {
      MoreFuel(o, cs.body, fuel, more, t);
      var r := Exec(o, cs.body, fuel, t);
      if r.completion.Normal? {
        MoreCases(o, cs.rest, fuel, more, r.trace);
      }
    }
  }

  /** `s`, started after `t`, ends with completion `k` after `u`. */
  ghost predicate Ends(o: Oracle, s: Stmt, t: Trace, k: Completion, u: Trace) {
    exists fuel: nat :: Exec(o, s, fuel, t) == Done(k, u)
  }

  ghost predicate CasesEnd(o: Oracle, cs: Cases, t: Trace, k: Completion, u: Trace) {
    exists fuel: nat :: ExecCases(o, cs, fuel, t) == Done(k, u)
  }

  ghost predicate TurnsEnd(o: Oracle, check: Option<Expr>, update: Option<Expr>, b: Stmt, t: Trace, k: Completion,
                           u: Trace) {
    exists fuel: nat :: Iterate(o, check, update, b, fuel, t) == Done(k, u)
  }

  function Max(a: nat, b: nat): nat {
    if a < b then b else a
  }

  // ----- rules -----

  lemma SeqEnds(o: Oracle, a: Stmt, b: Stmt, t: Trace, u: Trace, k: Completion, v: Trace)
    requires Ends(o, a, t, Normal, u) && Ends(o, b, u, k, v)
    ensures Ends(o, Seq(a, b), t, k, v)
  {
    var m: nat :| Exec(o, a, m, t) == Done(Normal, u);
    var n: nat :| Exec(o, b, n, u) == Done(k, v);
    MoreFuel(o, a, m, Max(m, n), t);
    MoreFuel(o, b, n, Max(m, n), u);
    assert Exec(o, Seq(a, b), Max(m, n), t) == Done(k, v);
  }

  lemma SeqStops(o: Oracle, a: Stmt, b: Stmt, t: Trace, k: Completion, u: Trace)
    requires Ends(o, a, t, k, u) && !k.Normal?
    ensures Ends(o, Seq(a, b), t, k, u)
  {
    var m: nat :| Exec(o, a, m, t) == Done(k, u);
    assert Exec(o, Seq(a, b), m, t) == Done(k, u);
  }

  lemma IfEnds(o: Oracle, e: Expr, a: Stmt, b: Stmt, t: Trace, k: Completion, u: Trace)
    requires var v := Eval(o, e, t); Ends(o, if Truthy(v.value) then a else b, v.trace, k, u)
    ensures Ends(o, IfElse(e, a, b), t, k, u)
    ensures Truthy(Eval(o, e, t).value) ==> Ends(o, If(e, a), t, k, u)
  {
    var v := Eval(o, e, t);
    var m: nat :| Exec(o, if Truthy(v.value) then a else b, m, v.trace) == Done(k, u);
    assert Exec(o, IfElse(e, a, b), m, t) == Done(k, u);
    if Truthy(v.value) {
      assert Exec(o, If(e, a), m, t) == Done(k, u);
    }
  }

  lemma TryCatchEnds(o: Oracle, b: Stmt, t: Trace, k: Completion, u: Trace)
    requires Ends(o, b, t, k, u)
    ensures Ends(o, TryCatch(b), t, k, u)
  {
    var m: nat :| Exec(o, b, m, t) == Done(k, u);
    assert Exec(o, TryCatch(b), m, t) == Done(k, u);
  }

  /** The finalizer runs on every way out; its own jump takes the place of a pending one. */
  lemma TryFinallyEnds(o: Oracle, b: Stmt, f: Stmt, t: Trace, k: Completion, u: Trace, j: Completion, v: Trace)
    requires Ends(o, b, t, k, u) && Ends(o, f, u, j, v)
    ensures Ends(o, TryFinally(b, f), t, if j.Normal? then k else j, v)
  {
    var m: nat :| Exec(o, b, m, t) == Done(k, u);
    var n: nat :| Exec(o, f, n, u) == Done(j, v);
    hide Exec;
    MoreFuel(o, b, m, Max(m, n), t);
    MoreFuel(o, f, n, Max(m, n), u);
    TryFinallyMeans(o, b, f, Max(m, n), t);
  }

  lemma CasesEnter(o: Oracle, cs: Cases, t: Trace, u: Trace, k: Completion, v: Trace)
    requires !cs.NoCases? && Ends(o, cs.body, t, Normal, u) && CasesEnd(o, cs.rest, u, k, v)
    ensures CasesEnd(o, cs, t, k, v)
  {
    var m: nat :| Exec(o, cs.body, m, t) == Done(Normal, u);
    var n: nat :| ExecCases(o, cs.rest, n, u) == Done(k, v);
    MoreFuel(o, cs.body, m, Max(m, n), t);
    MoreCases(o, cs.rest, n, Max(m, n), u);
    assert ExecCases(o, cs, Max(m, n), t) == Done(k, v);
  }

  lemma CasesStop(o: Oracle, cs: Cases, t: Trace, k: Completion, u: Trace)
    requires !cs.NoCases? && Ends(o, cs.body, t, k, u) && !k.Normal?
    ensures CasesEnd(o, cs, t, k, u)
  {
    var m: nat :| Exec(o, cs.body, m, t) == Done(k, u);
    assert ExecCases(o, cs, m, t) == Done(k, u);
  }

  lemma SwitchEnds(o: Oracle, e: Expr, cs: Cases, t: Trace, k: Completion, u: Trace)
    requires var v := Eval(o, e, t);
             var sel := Select(o, v.value, cs, v.trace);
             CasesEnd(o, DropCases(cs, sel.index), sel.trace, k, u)
    ensures Ends(o, Switch(e, cs), t, if k.Breaking? then Normal else k, u)
  {
    var v := Eval(o, e, t);
    var sel := Select(o, v.value, cs, v.trace);
    var m: nat :| ExecCases(o, DropCases(cs, sel.index), m, sel.trace) == Done(k, u);
    assert Exec(o, Switch(e, cs), m, t) == Done(if k.Breaking? then Normal else k, u);
  }

  /** A turn that ends the loop. */
  lemma LastTurn(o: Oracle, check: Option<Expr>, update: Option<Expr>, b: Stmt, t: Trace, k: Completion, u: Trace)
    requires var v := EvalOr(o, check, Boolean(true), t); Truthy(v.value) && Ends(o, b, v.trace, k, u)
    requires k.Breaking? || k.Returning?
    ensures TurnsEnd(o, check, update, b, t, if k.Breaking? then Normal else k, u)
  {
    var v := EvalOr(o, check, Boolean(true), t);
    var m: nat :| Exec(o, b, m, v.trace) == Done(k, u);
    MoreFuel(o, b, m, m + 1, v.trace);
    assert Iterate(o, check, update, b, m + 1, t) == Done(if k.Breaking? then Normal else k, u);
  }

  /** A turn after which the loop goes on. */
  lemma OneMoreTurn(o: Oracle, check: Option<Expr>, update: Option<Expr>, b: Stmt, t: Trace, j: Completion, u: Trace,
                    k: Completion, v: Trace)
    requires var w := EvalOr(o, check, Boolean(true), t); Truthy(w.value) && Ends(o, b, w.trace, j, u)
    requires j.Normal? || j.Continuing?
    requires TurnsEnd(o, check, update, b, EvalOr(o, update, Undefined, u).trace, k, v)
    ensures TurnsEnd(o, check, update, b, t, k, v)
  {
    var w := EvalOr(o, check, Boolean(true), t);
    var next := EvalOr(o, update, Undefined, u).trace;
    var m: nat :| Exec(o, b, m, w.trace) == Done(j, u);
    var n: nat :| Iterate(o, check, update, b, n, next) == Done(k, v);
    MoreFuel(o, b, m, Max(m, n) + 1, w.trace);
    MoreTurns(o, check, update, b, n, Max(m, n), next);
    assert Iterate(o, check, update, b, Max(m, n) + 1, t) == Done(k, v);
  }

  lemma LoopsEnd(o: Oracle, e: Expr, init: Option<Expr>, check: Option<Expr>, update: Option<Expr>, b: Stmt, t: Trace,
                 k: Completion, u: Trace)
    ensures TurnsEnd(o, Some(e), None, b, t, k, u) ==> Ends(o, While(e, b), t, k, u)
    ensures TurnsEnd(o, check, update, b, EvalOr(o, init, Undefined, t).trace, k, u) ==>
              Ends(o, For(init, check, update, b), t, k, u)
  {
    if TurnsEnd(o, Some(e), None, b, t, k, u) {
      var m: nat :| Iterate(o, Some(e), None, b, m, t) == Done(k, u);
      assert Exec(o, While(e, b), m, t) == Done(k, u);
    }
    if TurnsEnd(o, check, update, b, EvalOr(o, init, Undefined, t).trace, k, u) {
      var m: nat :| Iterate(o, check, update, b, m, EvalOr(o, init, Undefined, t).trace) == Done(k, u);
      assert Exec(o, For(init, check, update, b), m, t) == Done(k, u);
    }
  }

  lemma DoLastTurn(o: Oracle, b: Stmt, e: Expr, t: Trace, k: Completion, u: Trace)
    requires Ends(o, b, t, k, u)
    ensures k.Breaking? || k.Returning? ==> Ends(o, DoWhile(b, e), t, if k.Breaking? then Normal else k, u)
    ensures (k.Normal? || k.Continuing?) && !Truthy(Eval(o, e, u).value) ==>
              Ends(o, DoWhile(b, e), t, Normal, Eval(o, e, u).trace)
  {
    var m: nat :| Exec(o, b, m, t) == Done(k, u);
    MoreFuel(o, b, m, m + 1, t);
    var d := Exec(o, DoWhile(b, e), m + 1, t);
    if k.Breaking? || k.Returning? {
      assert d == Done(if k.Breaking? then Normal else k, u);
    } else if !Truthy(Eval(o, e, u).value) {
      assert d == Done(Normal, Eval(o, e, u).trace);
    }
  }

  lemma DoMoreTurns(o: Oracle, b: Stmt, e: Expr, t: Trace, j: Completion, u: Trace, k: Completion, v: Trace)
    requires Ends(o, b, t, j, u) && (j.Normal? || j.Continuing?) && Truthy(Eval(o, e, u).value)
    requires Ends(o, DoWhile(b, e), Eval(o, e, u).trace, k, v)
    ensures Ends(o, DoWhile(b, e), t, k, v)
  {
    var m: nat :| Exec(o, b, m, t) == Done(j, u);
    var n: nat :| Exec(o, DoWhile(b, e), n, Eval(o, e, u).trace) == Done(k, v);
    MoreFuel(o, b, m, Max(m, n) + 1, t);
    MoreFuel(o, DoWhile(b, e), n, Max(m, n), Eval(o, e, u).trace);
    assert Exec(o, DoWhile(b, e), Max(m, n) + 1, t) == Done(k, v);
  }
}

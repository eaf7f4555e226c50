/** The statement language the compiler lowers, and its meaning.
    The meaning follows the completion records of ECMAScript 2015 (sections 13.7, 13.12.9,
    13.12.11 and 13.15.8): a statement ends normally or with a pending break, continue or return.
 */
module Completions {
  import opened Basics

  datatype Value = Undefined | Boolean(b: bool) | Other(n: int)

  predicate Truthy(v: Value) {
    match v
    case Undefined => false
    case Boolean(b) => b
    case Other(n) => n != 0
  }

  /** Undefined, false and zero are the values that are not. */
  lemma TruthyExactly(v: Value)
    ensures Truthy(v) <==> v != Undefined && v != Boolean(false) && v != Other(0)
  {
  }

  /** A boolean literal, or an operation known only by its identity. */
  datatype Expr = Bool(b: bool) | Op(id: int)

  /** The operations performed so far, oldest first. */
  type Trace = seq<int>

  /** The world a program runs in: what an operation yields after a given history, and which values are
      strictly equal. Any deterministic behaviour of the operations, including state they keep between
      them, is such a function; a value such as NaN need not be equal to itself. */
  datatype Oracle = Oracle(call: (int, Trace) -> Value, strictlyEqual: (Value, Value) -> bool)

  datatype Evaluated = Evaluated(value: Value, trace: Trace)

  function Eval(o: Oracle, e: Expr, t: Trace): Evaluated {
    match e
    case Bool(b) => Evaluated(Boolean(b), t)
    case Op(id) => Evaluated(o.call(id, t), t + [id])
  }

  /** An omitted expression is skipped and counts as `absent`. */
  function EvalOr(o: Oracle, e: Option<Expr>, absent: Value, t: Trace): Evaluated {
    if e.None? then Evaluated(absent, t) else Eval(o, e.value, t)
  }

  datatype Stmt =
    | Empty
    | Expression(e: Expr)
    | Seq(first: Stmt, second: Stmt)
    | If(test: Expr, consequent: Stmt)
    | IfElse(test: Expr, consequent: Stmt, alternate: Stmt)
    | While(test: Expr, body: Stmt)
    | DoWhile(body: Stmt, test: Expr)
    | For(init: Option<Expr>, check: Option<Expr>, update: Option<Expr>, body: Stmt)
    | Switch(discriminant: Expr, cases: Cases)
    | Break
    | Continue
    | Return(argument: Option<Expr>)
    | TryFinally(block: Stmt, finalizer: Stmt)
    | TryCatch(block: Stmt)  // nothing throws, so the handler never runs

  datatype Cases =
    | NoCases
    | TestCase(test: Expr, body: Stmt, rest: Cases)
    | DefaultCase(body: Stmt, rest: Cases)

  function CaseCount(cs: Cases): nat {
    if cs.NoCases? then 0 else 1 + CaseCount(cs.rest)
  }

  function TestCount(cs: Cases): nat {
    match cs
    case NoCases => 0
    case TestCase(_, _, rest) => 1 + TestCount(rest)
    case DefaultCase(_, rest) => TestCount(rest)
  }

  /** Position of the first default clause, or the number of clauses when there is none. */
  function DefaultIndex(cs: Cases): (i: nat)
    ensures i <= CaseCount(cs)
  {
    match cs
    case NoCases => 0
    case TestCase(_, _, rest) => 1 + DefaultIndex(rest)
    case DefaultCase(_, _) => 0
  }

  /** The clauses from position `i` on. */
  function DropCases(cs: Cases, i: nat): (r: Cases)
    requires i <= CaseCount(cs)
    ensures r == cs || r < cs
  {
    if i == 0 then cs else DropCases(cs.rest, i - 1)
  }

  // ----- which programs -----

  /** No early error: break and continue have something to leave, and a switch has at most one
      default clause. */
  predicate Legal(s: Stmt, canBreak: bool, canContinue: bool) {
    match s
    case Empty => true
    case Expression(_) => true
    case Seq(a, b) => Legal(a, canBreak, canContinue) && Legal(b, canBreak, canContinue)
    case If(_, a) => Legal(a, canBreak, canContinue)
    case IfElse(_, a, b) => Legal(a, canBreak, canContinue) && Legal(b, canBreak, canContinue)
    case While(_, b) => Legal(b, true, true)
    case DoWhile(b, _) => Legal(b, true, true)
    case For(_, _, _, b) => Legal(b, true, true)
    case Switch(_, cs) => LegalCases(cs, canContinue) && TestCount(cs) + 1 >= CaseCount(cs)
    case Break => canBreak
    case Continue => canContinue
    case Return(_) => true
    case TryFinally(b, f) => Legal(b, canBreak, canContinue) && Legal(f, canBreak, canContinue)
    case TryCatch(b) => Legal(b, canBreak, canContinue)
  }

  predicate LegalCases(cs: Cases, canContinue: bool) {
    cs.NoCases? || (Legal(cs.body, true, canContinue) && LegalCases(cs.rest, canContinue))
  }

  /** The statement contains no try statement with a finally clause. */
  predicate NoFinally(s: Stmt) {
    match s
    case Seq(a, b) => NoFinally(a) && NoFinally(b)
    case If(_, a) => NoFinally(a)
    case IfElse(_, a, b) => NoFinally(a) && NoFinally(b)
    case While(_, b) => NoFinally(b)
    case DoWhile(b, _) => NoFinally(b)
    case For(_, _, _, b) => NoFinally(b)
    case Switch(_, cs) => NoFinallyCases(cs)
    case TryFinally(_, _) => false
    case TryCatch(b) => NoFinally(b)
    case _ => true
  }

  predicate NoFinallyCases(cs: Cases) {
    cs.NoCases? || (NoFinally(cs.body) && NoFinallyCases(cs.rest))
  }

  /** No jump leaves the statement, except the kinds that are allowed to. */
  predicate Stays(s: Stmt, breaks: bool, continues: bool) {
    match s
    case Seq(a, b) => Stays(a, breaks, continues) && Stays(b, breaks, continues)
    case If(_, a) => Stays(a, breaks, continues)
    case IfElse(_, a, b) => Stays(a, breaks, continues) && Stays(b, breaks, continues)
    case While(_, b) => Stays(b, true, true)
    case DoWhile(b, _) => Stays(b, true, true)
    case For(_, _, _, b) => Stays(b, true, true)
    case Switch(_, cs) => StaysCases(cs, continues)
    case Break => breaks
    case Continue => continues
    case Return(_) => false
    case TryFinally(b, f) => Stays(b, breaks, continues) && Stays(f, breaks, continues)
    case TryCatch(b) => Stays(b, breaks, continues)
    case _ => true
  }

  predicate StaysCases(cs: Cases, continues: bool) {
    cs.NoCases? || (Stays(cs.body, true, continues) && StaysCases(cs.rest, continues))
  }

  /** Whenever the statement ends normally, the last thing it did to the cells was to end a try statement. */
  predicate Overwrites(s: Stmt) {
    match s
    case Seq(a, b) => Overwrites(b) || (Overwrites(a) && NoFinally(b))
    case IfElse(_, a, b) => Overwrites(a) && Overwrites(b)
    case TryFinally(_, f) => NoFinally(f) || Overwrites(f)
    case TryCatch(b) => Overwrites(b)
    case _ => false
  }

  /** At any depth a finalizer has no finally clause inside, or it is one that overwrites the cells and no jump
      can be pending when it is entered. */
  predicate SafeFinalizers(s: Stmt) {
    match s
    case Seq(a, b) => SafeFinalizers(a) && SafeFinalizers(b)
    case If(_, a) => SafeFinalizers(a)
    case IfElse(_, a, b) => SafeFinalizers(a) && SafeFinalizers(b)
    case While(_, b) => SafeFinalizers(b)
    case DoWhile(b, _) => SafeFinalizers(b)
    case For(_, _, _, b) => SafeFinalizers(b)
    case Switch(_, cs) => SafeFinalizersCases(cs)
    case TryFinally(b, f) =>
      SafeFinalizers(b) && (NoFinally(f) || (SafeFinalizers(f) && Overwrites(f) && Stays(b, false, false)))
    case TryCatch(b) => SafeFinalizers(b)
    case _ => true
  }

  predicate SafeFinalizersCases(cs: Cases) {
    cs.NoCases? || (SafeFinalizers(cs.body) && SafeFinalizersCases(cs.rest))
  }

  lemma NoFinallyIsSafe(s: Stmt)
    requires NoFinally(s)
    ensures SafeFinalizers(s)
  {
    if s.Switch? {
      NoFinallyCasesAreSafe(s.cases);
    }
  }

  lemma NoFinallyCasesAreSafe(cs: Cases)
    requires NoFinallyCases(cs)
    ensures SafeFinalizersCases(cs)
  {
    if !cs.NoCases? {
      NoFinallyIsSafe(cs.body);
      NoFinallyCasesAreSafe(cs.rest);
    }
  }

  // ----- meaning -----

  datatype Completion = Normal | Breaking | Continuing | Returning(value: Value)

  datatype Outcome = Done(completion: Completion, trace: Trace) | OutOfFuel

  /** After a finalizer that ended with `q`, a completion `k` that waited for it. */
  function Resumed(k: Completion, q: Outcome): Outcome {
    if q.Done? && q.completion.Normal? then Done(k, q.trace) else q
  }

  /** Runs `s` with at most `fuel` turns of any loop left. */
  function Exec(o: Oracle, s: Stmt, fuel: nat, t: Trace): Outcome
    decreases fuel, s, 0
  {
    match s
    case Empty => Done(Normal, t)
    case Expression(e) => Done(Normal, Eval(o, e, t).trace)
    case Seq(a, b) =>
      var r := Exec(o, a, fuel, t);
      if r.Done? && r.completion.Normal? then Exec(o, b, fuel, r.trace) else r
    case If(e, a) =>
      var v := Eval(o, e, t);
      if Truthy(v.value) then Exec(o, a, fuel, v.trace) else Done(Normal, v.trace)
    case IfElse(e, a, b) =>
      var v := Eval(o, e, t);
      if Truthy(v.value) then Exec(o, a, fuel, v.trace) else Exec(o, b, fuel, v.trace)
    case While(e, b) => Iterate(o, Some(e), None, b, fuel, t)
    case DoWhile(b, e) =>
      if fuel == 0 then OutOfFuel else
        var r := Exec(o, b, fuel, t);
        if r.OutOfFuel? || r.completion.Returning? then r
        else if r.completion.Breaking? then Done(Normal, r.trace)
        else
          var v := Eval(o, e, r.trace);
          if Truthy(v.value) then Exec(o, s, fuel - 1, v.trace) else Done(Normal, v.trace)
    case For(init, check, update, b) =>
      Iterate(o, check, update, b, fuel, EvalOr(o, init, Undefined, t).trace)
    case Switch(e, cs) =>
      var v := Eval(o, e, t);
      var sel := Select(o, v.value, cs, v.trace);
      var r := ExecCases(o, DropCases(cs, sel.index), fuel, sel.trace);
      if r.Done? && r.completion.Breaking? then Done(Normal, r.trace) else r
    case Break => Done(Breaking, t)
    case Continue => Done(Continuing, t)
    case Return(arg) =>
      var v := EvalOr(o, arg, Undefined, t);
      Done(Returning(v.value), v.trace)
    case TryFinally(b, f) => ExecFinally(o, f, fuel, Exec(o, b, fuel, t))
    case TryCatch(b) => Exec(o, b, fuel, t)
  }

  /** A finalizer after a block that ended with `r`. */
  function ExecFinally(o: Oracle, f: Stmt, fuel: nat, r: Outcome): Outcome
    decreases fuel, f, 1
  {
    if r.OutOfFuel? then r else Resumed(r.completion, Exec(o, f, fuel, r.trace))
  }

  /** Turns of a loop that tests first. */
  function Iterate(o: Oracle, check: Option<Expr>, update: Option<Expr>, body: Stmt, fuel: nat, t: Trace): Outcome
    decreases fuel, body, 1
  {
    if fuel == 0 then OutOfFuel else
      var v := EvalOr(o, check, Boolean(true), t);
      if !Truthy(v.value) then Done(Normal, v.trace) else
        var r := Exec(o, body, fuel, v.trace);
        if r.OutOfFuel? || r.completion.Returning? then r
        else if r.completion.Breaking? then Done(Normal, r.trace)
        else Iterate(o, check, update, body, fuel - 1, EvalOr(o, update, Undefined, r.trace).trace)
  }

  datatype Selection = Selection(index: nat, trace: Trace)

  /** The clause a switch enters: the first test, in source order, that `v` strictly equals; failing that
      the default clause; failing that the end. Tests after the chosen one are not evaluated. */
  function Select(o: Oracle, v: Value, cs: Cases, t: Trace): (sel: Selection)
    ensures sel.index <= CaseCount(cs)
  {
    SelectFrom(o, v, cs, t, 0, DefaultIndex(cs))
  }

  function SelectFrom(o: Oracle, v: Value, cs: Cases, t: Trace, at: nat, otherwise: nat): (sel: Selection)
    ensures sel.index == otherwise || at <= sel.index < at + CaseCount(cs)
  {
    match cs
    case NoCases => Selection(otherwise, t)
    case DefaultCase(_, rest) => SelectFrom(o, v, rest, t, at + 1, otherwise)
    case TestCase(e, _, rest) =>
      var w := Eval(o, e, t);
      if o.strictlyEqual(v, w.value) then Selection(at, w.trace)
      else SelectFrom(o, v, rest, w.trace, at + 1, otherwise)
  }

  // ----- which clause that is -----

  /** The history once the tests of the first `i` clauses have been evaluated. */
  function TestsRun(o: Oracle, cs: Cases, t: Trace, i: nat): Trace
    requires i <= CaseCount(cs)
  {
    if i == 0 then t
    else TestsRun(o, cs.rest, if cs.TestCase? then Eval(o, cs.test, t).trace else t, i - 1)
  }

  /** Clause `i` is a test that `v` strictly equals. */
  predicate Matches(o: Oracle, v: Value, cs: Cases, t: Trace, i: nat) {
    i < CaseCount(cs) &&
    var c := DropCases(cs, i);
    c.TestCase? && o.strictlyEqual(v, Eval(o, c.test, TestsRun(o, cs, t, i)).value)
  }

  predicate IsDefault(cs: Cases, i: nat) {
    i < CaseCount(cs) && DropCases(cs, i).DefaultCase?
  }

  lemma FirstClause(o: Oracle, v: Value, cs: Cases, t: Trace)
    requires !cs.NoCases?
    ensures IsDefault(cs, 0) <==> cs.DefaultCase?
    ensures Matches(o, v, cs, t, 0) <==> cs.TestCase? && o.strictlyEqual(v, Eval(o, cs.test, t).value)
  {
  }

  lemma LaterClause(o: Oracle, v: Value, cs: Cases, t: Trace, i: nat)
    requires !cs.NoCases? && i > 0
    ensures IsDefault(cs, i) <==> IsDefault(cs.rest, i - 1)
    ensures var u := if cs.TestCase? then Eval(o, cs.test, t).trace else t;
            Matches(o, v, cs, t, i) <==> Matches(o, v, cs.rest, u, i - 1)
  {
  }

  lemma {:induction false} DefaultExactly(cs: Cases)
    ensures var i := DefaultIndex(cs);
            && (i < CaseCount(cs) ==> IsDefault(cs, i))
            && (forall j: nat :: j < i ==> !IsDefault(cs, j))
    decreases cs
  {
    if cs.TestCase? {
      DefaultExactly(cs.rest);
      forall j: nat | j < DefaultIndex(cs) ensures !IsDefault(cs, j) {
        if j > 0 {
          assert !IsDefault(cs.rest, j - 1);
        }
      }
    }
  }

  lemma {:induction false} SelectFromExactly(o: Oracle, v: Value, cs: Cases, t: Trace, at: nat, otherwise: nat)
    ensures var sel := SelectFrom(o, v, cs, t, at, otherwise);
            || (&& at <= sel.index < at + CaseCount(cs) && Matches(o, v, cs, t, sel.index - at)
                && (forall j: nat :: j < sel.index - at ==> !Matches(o, v, cs, t, j))
                && sel.trace == TestsRun(o, cs, t, sel.index - at + 1))
            || (&& sel == Selection(otherwise, TestsRun(o, cs, t, CaseCount(cs)))
                && (forall j: nat :: !Matches(o, v, cs, t, j)))
    decreases cs
  {
    hide Eval;
    if !cs.NoCases? {
      FirstClause(o, v, cs, t);
      var u := if cs.TestCase? then Eval(o, cs.test, t).trace else t;
      forall j: nat | j > 0 ensures Matches(o, v, cs, t, j) <==> Matches(o, v, cs.rest, u, j - 1) {
        LaterClause(o, v, cs, t, j);
      }
      if !Matches(o, v, cs, t, 0) {
        SelectFromExactly(o, v, cs.rest, u, at + 1, otherwise);
        hide Matches, DropCases;
      }
    }
  }

  /** The clause entered is the first whose test `v` strictly equals, all tests before it and no test after it
      having been evaluated; if no test does, it is the first default clause wherever that stands, and the end
      only if there is none, all tests having been evaluated. */
  lemma SelectExactly(o: Oracle, v: Value, cs: Cases, t: Trace)
    ensures var sel := Select(o, v, cs, t);
            if exists i: nat :: Matches(o, v, cs, t, i) then
              && Matches(o, v, cs, t, sel.index) && (forall j: nat :: j < sel.index ==> !Matches(o, v, cs, t, j))
              && sel.trace == TestsRun(o, cs, t, sel.index + 1)
            else
              && sel.trace == TestsRun(o, cs, t, CaseCount(cs))
              && if exists i: nat :: IsDefault(cs, i) then
                   IsDefault(cs, sel.index) && forall j: nat :: j < sel.index ==> !IsDefault(cs, j)
                 else sel.index == CaseCount(cs)
  {
    hide Matches, SelectFrom, TestsRun;
    SelectFromExactly(o, v, cs, t, 0, DefaultIndex(cs));
    DefaultExactly(cs);
  }

  /** Clause bodies in source order, until one ends abruptly. */
  function ExecCases(o: Oracle, cs: Cases, fuel: nat, t: Trace): Outcome
    decreases fuel, cs, 0
  {
    if cs.NoCases? then Done(Normal, t) else
      var r := Exec(o, cs.body, fuel, t);
      if r.Done? && r.completion.Normal? then ExecCases(o, cs.rest, fuel, r.trace) else r
  }

  // ----- statements that no jump leaves -----

  ghost predicate Within(r: Outcome, breaks: bool, continues: bool) {
    r.Done? ==>
      !r.completion.Returning? && (r.completion.Breaking? ==> breaks) && (r.completion.Continuing? ==> continues)
  }

  lemma {:induction false} StaysWithin(o: Oracle, s: Stmt, fuel: nat, t: Trace, breaks: bool, continues: bool)
    requires Stays(s, breaks, continues)
    ensures Within(Exec(o, s, fuel, t), breaks, continues)
    decreases fuel, s, 1
  {
    match s
    case Seq(a, b) =>
      var r := Exec(o, a, fuel, t);
      StaysWithin(o, a, fuel, t, breaks, continues);
      if r.Done? {
        StaysWithin(o, b, fuel, r.trace, breaks, continues);
      }
    case If(e, a) => StaysWithin(o, a, fuel, Eval(o, e, t).trace, breaks, continues);
    case IfElse(e, a, b) =>
      StaysWithin(o, a, fuel, Eval(o, e, t).trace, breaks, continues);
      StaysWithin(o, b, fuel, Eval(o, e, t).trace, breaks, continues);
    case While(e, b) => TurnsStay(o, Some(e), None, b, fuel, t);
    case For(init, check, update, b) => TurnsStay(o, check, update, b, fuel, EvalOr(o, init, Undefined, t).trace);
    case DoWhile(b, e) =>
      if fuel > 0 {
        StaysWithin(o, b, fuel, t, true, true);
        var r := Exec(o, b, fuel, t);
        if r.Done? {
          StaysWithin(o, s, fuel - 1, Eval(o, e, r.trace).trace, breaks, continues);
        }
      }
    case Switch(e, cs) =>
      var v := Eval(o, e, t);
      var sel := Select(o, v.value, cs, v.trace);
      ClausesStay(o, cs, sel.index, fuel, sel.trace, continues);
    case TryFinally(b, f) =>
      StaysWithin(o, b, fuel, t, breaks, continues);
      var r := Exec(o, b, fuel, t);
      if r.Done? {
        StaysWithin(o, f, fuel, r.trace, breaks, continues);
      }
    case TryCatch(b) => StaysWithin(o, b, fuel, t, breaks, continues);
    case _ =>
  }

  lemma {:induction false} TurnsStay(o: Oracle, check: Option<Expr>, update: Option<Expr>, b: Stmt, fuel: nat,
                                     t: Trace)
    requires Stays(b, true, true)
    ensures Within(Iterate(o, check, update, b, fuel, t), false, false)
    decreases fuel, b, 2
  {
    if fuel > 0 {
      hide Exec;
      var v := EvalOr(o, check, Boolean(true), t);
      StaysWithin(o, b, fuel, v.trace, true, true);
      var r := Exec(o, b, fuel, v.trace);
      if r.Done? {
        TurnsStay(o, check, update, b, fuel - 1, EvalOr(o, update, Undefined, r.trace).trace);
      }
    }
  }

  lemma {:induction false} ClausesStay(o: Oracle, cs: Cases, i: nat, fuel: nat, t: Trace, continues: bool)
    requires StaysCases(cs, continues) && i <= CaseCount(cs)
    ensures Within(ExecCases(o, DropCases(cs, i), fuel, t), true, continues)
    decreases fuel, cs, 0
  {
    if i > 0 {
      ClausesStay(o, cs.rest, i - 1, fuel, t, continues);
    } else if !cs.NoCases? {
      StaysWithin(o, cs.body, fuel, t, true, continues);
      var r := Exec(o, cs.body, fuel, t);
      if r.Done? {
        ClausesStay(o, cs.rest, 0, fuel, r.trace, continues);
      }
    }
  }

  /** A try/finally from the ways its two parts end. */
  lemma TryFinallyMeans(o: Oracle, b: Stmt, f: Stmt, fuel: nat, t: Trace)
    ensures var r := Exec(o, b, fuel, t);
            && (r.OutOfFuel? ==> Exec(o, TryFinally(b, f), fuel, t) == r)
            && (r.Done? ==> Exec(o, TryFinally(b, f), fuel, t) == Resumed(r.completion, Exec(o, f, fuel, r.trace)))
  {
    BlockThenFinally(o, b, f, fuel, t);
    hide Exec;
  }

  lemma BlockThenFinally(o: Oracle, b: Stmt, f: Stmt, fuel: nat, t: Trace)
    ensures Exec(o, TryFinally(b, f), fuel, t) == ExecFinally(o, f, fuel, Exec(o, b, fuel, t))
  {
    hide Iterate, ExecCases, ExecFinally, Eval, EvalOr, Select, SelectFrom, Truthy, Resumed;
  }
}

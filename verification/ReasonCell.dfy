/** What a finally clause remembers. A compiled function has one cell for the reason why a finally block was
    entered and one for a pending return value. `CellExec` is the meaning of a statement when every finally
    clause of the function shares those two cells; it speaks of source statements only.
 */
module ReasonCell {
  import opened Basics
  import opened Completions

  const REASON_RETURN: int := -10
  const REASON_FALLOFF_TRY: int := -2

  datatype Kind = ByBreak | ByContinue

  /** The effects so far and the contents of the two cells. */
  datatype Store = Store(trace: Trace, reason: int, value: Value)

  datatype Ending = Ended(completion: Completion, store: Store) | Unfinished

  // ----- the numbers of the exits of a try block -----

  /** The next free number goes to a way of leaving that has none yet. */
  function Add(exits: seq<Kind>, kind: Kind): seq<Kind> {
    if kind in exits then exits else exits + [kind]
  }

  /** Every pending way of leaving an inner try block, the last numbered first, leaves the outer one too. */
  function AddAll(exits: seq<Kind>, inner: seq<Kind>, breaks: bool, continues: bool): seq<Kind>
    decreases |inner|
  {
    if inner == [] then exits else
      var kind := inner[|inner| - 1];
      var leaves := if kind.ByBreak? then breaks else continues;
      AddAll(if leaves then Add(exits, kind) else exits, inner[..|inner| - 1], breaks, continues)
  }

  /** The ways of leaving a try block by the jumps in `s`, numbered in the order in which the text first uses
      them: `exits` are those numbered before, and a break or continue counts if nothing within the try
      block stops it. */
  function Exits(s: Stmt, exits: seq<Kind>, breaks: bool, continues: bool): seq<Kind> {
    match s
    case Seq(a, b) => Exits(b, Exits(a, exits, breaks, continues), breaks, continues)
    case If(_, a) => Exits(a, exits, breaks, continues)
    case IfElse(_, a, b) => Exits(b, Exits(a, exits, breaks, continues), breaks, continues)
    case Switch(_, cs) => ExitsOfCases(cs, exits, continues)
    case Break => if breaks then Add(exits, ByBreak) else exits
    case Continue => if continues then Add(exits, ByContinue) else exits
    case TryFinally(b, f) => AddAll(Exits(f, exits, breaks, continues), BlockExits(b), breaks, continues)
    case TryCatch(b) => Exits(b, exits, breaks, continues)
    case _ => exits
  }

  function ExitsOfCases(cs: Cases, exits: seq<Kind>, continues: bool): seq<Kind> {
    if cs.NoCases? then exits
    else ExitsOfCases(cs.rest, Exits(cs.body, exits, false, continues), continues)
  }

  /** The exits of a whole try block. */
  function BlockExits(b: Stmt): seq<Kind> {
    Exits(b, [], true, true)
  }

  function NumberOf(exits: seq<Kind>, kind: Kind): (i: nat)
    ensures i <= |exits| && (kind in exits ==> i < |exits| && exits[i] == kind)
  {
    if exits == [] || exits[0] == kind then 0 else 1 + NumberOf(exits[1..], kind)
  }

  // ----- what goes into the cells and what comes out of them -----

  function CompletionOf(kind: Kind): Completion {
    if kind.ByBreak? then Breaking else Continuing
  }

  /** On the way into a finally block. */
  function Record(k: Completion, exits: seq<Kind>, w: Store): Store {
    match k
    case Normal => w.(reason := REASON_FALLOFF_TRY)
    case Breaking => w.(reason := NumberOf(exits, ByBreak))
    case Continuing => w.(reason := NumberOf(exits, ByContinue))
    case Returning(v) => w.(reason := REASON_RETURN, value := v)
  }

  /** At the end of a finally block, whatever the cells hold by then. */
  function Resume(exits: seq<Kind>, w: Store): Completion {
    if w.reason == REASON_RETURN then Returning(w.value)
    else if 0 <= w.reason < |exits| then CompletionOf(exits[w.reason])
    else Normal
  }

  // ----- meaning -----

  function Evaluate(o: Oracle, e: Option<Expr>, w: Store): Store {
    w.(trace := EvalOr(o, e, Undefined, w.trace).trace)
  }

  /** `Exec` with the cells: the two differ only in how a finally clause remembers why it was entered. */
  function CellExec(o: Oracle, s: Stmt, fuel: nat, w: Store): Ending
    decreases fuel, s, 0
  {
    match s
    case Empty => Ended(Normal, w)
    case Expression(e) => Ended(Normal, Evaluate(o, Some(e), w))
    case Seq(a, b) =>
      var r := CellExec(o, a, fuel, w);
      if r.Ended? && r.completion.Normal? then CellExec(o, b, fuel, r.store) else r
    case If(e, a) =>
      if Truthy(Eval(o, e, w.trace).value) then CellExec(o, a, fuel, Evaluate(o, Some(e), w))
      else Ended(Normal, Evaluate(o, Some(e), w))
    case IfElse(e, a, b) =>
      if Truthy(Eval(o, e, w.trace).value) then CellExec(o, a, fuel, Evaluate(o, Some(e), w))
      else CellExec(o, b, fuel, Evaluate(o, Some(e), w))
    case While(e, b) => CellIterate(o, Some(e), None, b, fuel, w)
    case DoWhile(b, e) =>
      if fuel == 0 then Unfinished else
        var r := CellExec(o, b, fuel, w);
        if r.Unfinished? || r.completion.Returning? then r
        else if r.completion.Breaking? then Ended(Normal, r.store)
        else if Truthy(Eval(o, e, r.store.trace).value) then CellExec(o, s, fuel - 1, Evaluate(o, Some(e), r.store))
        else Ended(Normal, Evaluate(o, Some(e), r.store))
    case For(init, check, update, b) => CellIterate(o, check, update, b, fuel, Evaluate(o, init, w))
    case Switch(e, cs) =>
      var v := Eval(o, e, w.trace);
      var sel := Select(o, v.value, cs, v.trace);
      var r := CellExecCases(o, DropCases(cs, sel.index), fuel, w.(trace := sel.trace));
      if r.Ended? && r.completion.Breaking? then Ended(Normal, r.store) else r
    case Break => Ended(Breaking, w)
    case Continue => Ended(Continuing, w)
    case Return(arg) => Ended(Returning(EvalOr(o, arg, Undefined, w.trace).value), Evaluate(o, arg, w))
    case TryFinally(b, f) =>
      var r := CellExec(o, b, fuel, w);
      if r.Unfinished? then r else CellFinally(o, BlockExits(b), f, fuel, Record(r.completion, BlockExits(b), r.store))
    case TryCatch(b) => CellExec(o, b, fuel, w)
  }

  /** A finalizer from its start, then on to where the cells say. */
  function CellFinally(o: Oracle, exits: seq<Kind>, f: Stmt, fuel: nat, w: Store): Ending
    decreases fuel, f, 1
  {
    var q := CellExec(o, f, fuel, w);
    if q.Ended? && q.completion.Normal? then Ended(Resume(exits, q.store), q.store) else q
  }

  function CellIterate(o: Oracle, check: Option<Expr>, update: Option<Expr>, body: Stmt, fuel: nat, w: Store): Ending
    decreases fuel, body, 1
  {
    if fuel == 0 then Unfinished
    else if !Truthy(EvalOr(o, check, Boolean(true), w.trace).value) then Ended(Normal, Evaluate(o, check, w))
    else
      var r := CellExec(o, body, fuel, Evaluate(o, check, w));
      if r.Unfinished? || r.completion.Returning? then r
      else if r.completion.Breaking? then Ended(Normal, r.store)
      else CellIterate(o, check, update, body, fuel - 1, Evaluate(o, update, r.store))
  }

  function CellExecCases(o: Oracle, cs: Cases, fuel: nat, w: Store): Ending
    decreases fuel, cs, 0
  {
    if cs.NoCases? then Ended(Normal, w) else
      var r := CellExec(o, cs.body, fuel, w);
      if r.Ended? && r.completion.Normal? then CellExecCases(o, cs.rest, fuel, r.store) else r
  }

  /** A try/finally from the way its block ends. */
  lemma CellTryFinallyMeans(o: Oracle, b: Stmt, f: Stmt, fuel: nat, w: Store)
    ensures var r := CellExec(o, b, fuel, w);
            CellExec(o, TryFinally(b, f), fuel, w)
            == if r.Unfinished? then r
               else CellFinally(o, BlockExits(b), f, fuel, Record(r.completion, BlockExits(b), r.store))
  {
    hide CellIterate, CellExecCases, CellFinally, Eval, Select, Truthy;
  }

  lemma CellSwitchMeans(o: Oracle, e: Expr, cs: Cases, fuel: nat, w: Store)
    ensures var v := Eval(o, e, w.trace);
            var sel := Select(o, v.value, cs, v.trace);
            var r := CellExecCases(o, DropCases(cs, sel.index), fuel, w.(trace := sel.trace));
            CellExec(o, Switch(e, cs), fuel, w)
            == if r.Ended? && r.completion.Breaking? then Ended(Normal, r.store) else r
  {
    hide CellIterate, CellExecCases, CellFinally, Eval, Select, Truthy;
  }

  lemma ExitsOfSwitch(e: Expr, cs: Cases, kinds: seq<Kind>, breaks: bool, continues: bool)
    ensures Exits(Switch(e, cs), kinds, breaks, continues) == ExitsOfCases(cs, kinds, continues)
  {
    hide ExitsOfCases;
  }

  lemma ExitsOfTryFinally(b: Stmt, f: Stmt, kinds: seq<Kind>, breaks: bool, continues: bool)
    ensures Exits(TryFinally(b, f), kinds, breaks, continues)
         == AddAll(Exits(f, kinds, breaks, continues), BlockExits(b), breaks, continues)
  {
    hide ExitsOfCases, AddAll;
  }
}

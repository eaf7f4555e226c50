/** Where the shared cells make no difference: the meaning with cells is the meaning of the language for every
    statement in which no finalizer holds a try/finally of its own.
 */
module CellAgreement {
  import opened Basics
  import opened Completions
  import opened ReasonCell

  // ----- numbers are given once and stay -----

  ghost predicate NoRepeats(exits: seq<Kind>) {
    forall i, j :: 0 <= i < j < |exits| ==> exits[i] != exits[j]
  }

  ghost predicate Extends(a: seq<Kind>, b: seq<Kind>) {
    a <= b && (NoRepeats(a) ==> NoRepeats(b))
  }

  lemma {:induction false} AddAllExtends(exits: seq<Kind>, inner: seq<Kind>, breaks: bool, continues: bool)
    ensures Extends(exits, AddAll(exits, inner, breaks, continues))
    ensures forall kind :: kind in inner && (if kind.ByBreak? then breaks else continues) ==>
              kind in AddAll(exits, inner, breaks, continues)
    decreases |inner|
  {
    if inner != [] {
      var n := |inner| - 1;
      var kind := inner[n];
      var next := if (if kind.ByBreak? then breaks else continues) then Add(exits, kind) else exits;
      AddAllExtends(next, inner[..n], breaks, continues);
      assert forall k :: k in inner ==> k == kind || k in inner[..n];
      assert forall k :: k in next ==> k in AddAll(exits, inner, breaks, continues);
    }
  }

  lemma {:induction false} ExitsExtend(s: Stmt, exits: seq<Kind>, breaks: bool, continues: bool)
    ensures Extends(exits, Exits(s, exits, breaks, continues))
  {
    match s
    case Seq(a, b) =>
      ExitsExtend(a, exits, breaks, continues);
      ExitsExtend(b, Exits(a, exits, breaks, continues), breaks, continues);
    case If(_, a) => ExitsExtend(a, exits, breaks, continues);
    case IfElse(_, a, b) =>
      ExitsExtend(a, exits, breaks, continues);
      ExitsExtend(b, Exits(a, exits, breaks, continues), breaks, continues);
    case Switch(_, cs) => CasesExtend(cs, exits, continues);
    case TryFinally(b, f) =>
      ExitsExtend(f, exits, breaks, continues);
      AddAllExtends(Exits(f, exits, breaks, continues), BlockExits(b), breaks, continues);
    case TryCatch(b) => ExitsExtend(b, exits, breaks, continues);
    case _ =>
  }

  lemma {:induction false} CasesExtend(cs: Cases, exits: seq<Kind>, continues: bool)
    ensures Extends(exits, ExitsOfCases(cs, exits, continues))
  {
    if !cs.NoCases? {
      ExitsExtend(cs.body, exits, false, continues);
      CasesExtend(cs.rest, Exits(cs.body, exits, false, continues), continues);
    }
  }

  lemma NumberIs(exits: seq<Kind>, i: nat)
    requires NoRepeats(exits) && i < |exits|
    ensures NumberOf(exits, exits[i]) == i
  {
    assert exits[i] in exits;
  }

  // ----- every jump that leaves a try block has a number -----

  ghost predicate Numbered(r: Ending, exits: seq<Kind>, breaks: bool, continues: bool) {
    r.Ended? ==>
      && (r.completion.Breaking? && breaks ==> ByBreak in exits)
      && (r.completion.Continuing? && continues ==> ByContinue in exits)
  }

  lemma {:induction false} JumpsAreNumbered(o: Oracle, s: Stmt, fuel: nat, w: Store, exits: seq<Kind>, breaks: bool,
                                            continues: bool)
    ensures Numbered(CellExec(o, s, fuel, w), Exits(s, exits, breaks, continues), breaks, continues)
    decreases fuel, s, 1
  {
    match s
    case Seq(a, b) =>
      var r := CellExec(o, a, fuel, w);
      var mid := Exits(a, exits, breaks, continues);
      JumpsAreNumbered(o, a, fuel, w, exits, breaks, continues);
      ExitsExtend(b, mid, breaks, continues);
      if r.Ended? {
        JumpsAreNumbered(o, b, fuel, r.store, mid, breaks, continues);
      }
    case If(e, a) => JumpsAreNumbered(o, a, fuel, Evaluate(o, Some(e), w), exits, breaks, continues);
    case IfElse(e, a, b) =>
      var mid := Exits(a, exits, breaks, continues);
      JumpsAreNumbered(o, a, fuel, Evaluate(o, Some(e), w), exits, breaks, continues);
      ExitsExtend(b, mid, breaks, continues);
      JumpsAreNumbered(o, b, fuel, Evaluate(o, Some(e), w), mid, breaks, continues);
    case While(e, b) => LoopsEndNormally(o, Some(e), None, b, fuel, w);
    case For(init, check, update, b) => LoopsEndNormally(o, check, update, b, fuel, Evaluate(o, init, w));
    case DoWhile(b, e) => DoEndsNormally(o, b, e, fuel, w);
    case Switch(e, cs) =>
      var v := Eval(o, e, w.trace);
      var sel := Select(o, v.value, cs, v.trace);
      CasesAreNumbered(o, cs, sel.index, fuel, w.(trace := sel.trace), exits, continues);
    case TryFinally(b, f) =>
      var r := CellExec(o, b, fuel, w);
      if r.Ended? {
        var inner := BlockExits(b);
        var w1 := Record(r.completion, inner, r.store);
        JumpsAreNumbered(o, f, fuel, w1, exits, breaks, continues);
        AddAllExtends(Exits(f, exits, breaks, continues), inner, breaks, continues);
        assert CellExec(o, s, fuel, w) == CellFinally(o, inner, f, fuel, w1);
      }
    case TryCatch(b) => JumpsAreNumbered(o, b, fuel, w, exits, breaks, continues);
    case _ =>
  }

  lemma {:induction false} CasesAreNumbered(o: Oracle, cs: Cases, i: nat, fuel: nat, w: Store, exits: seq<Kind>,
                                            continues: bool)
    requires i <= CaseCount(cs)
    ensures Numbered(CellExecCases(o, DropCases(cs, i), fuel, w), ExitsOfCases(cs, exits, continues), false, continues)
    decreases fuel, cs, 0
  {
    if !cs.NoCases? {
      var mid := Exits(cs.body, exits, false, continues);
      CasesExtend(cs.rest, mid, continues);
      if i == 0 {
        JumpsAreNumbered(o, cs.body, fuel, w, exits, false, continues);
        var r := CellExec(o, cs.body, fuel, w);
        if r.Ended? {
          CasesAreNumbered(o, cs.rest, 0, fuel, r.store, mid, continues);
        }
      } else {
        CasesAreNumbered(o, cs.rest, i - 1, fuel, w, mid, continues);
      }
    }
  }

  lemma {:induction false} LoopsEndNormally(o: Oracle, check: Option<Expr>, update: Option<Expr>, b: Stmt, fuel: nat,
                                            w: Store)
    ensures var r := CellIterate(o, check, update, b, fuel, w);
            r.Ended? ==> r.completion.Normal? || r.completion.Returning?
    decreases fuel
  {
    if fuel > 0 {
      var r := CellExec(o, b, fuel, Evaluate(o, check, w));
      if r.Ended? {
        LoopsEndNormally(o, check, update, b, fuel - 1, Evaluate(o, update, r.store));
      }
    }
  }

  lemma {:induction false} DoEndsNormally(o: Oracle, b: Stmt, e: Expr, fuel: nat, w: Store)
    ensures var r := CellExec(o, DoWhile(b, e), fuel, w);
            r.Ended? ==> r.completion.Normal? || r.completion.Returning?
    decreases fuel
  {
    if fuel > 0 {
      var r := CellExec(o, b, fuel, w);
      if r.Ended? {
        DoEndsNormally(o, b, e, fuel - 1, Evaluate(o, Some(e), r.store));
      }
    }
  }

  /** What was recorded is what is resumed, if the finalizer leaves the cells alone. */
  lemma ResumeUndoesRecord(o: Oracle, b: Stmt, fuel: nat, w: Store, w': Store)
    requires CellExec(o, b, fuel, w).Ended?
    requires var r := CellExec(o, b, fuel, w);
             var w1 := Record(r.completion, BlockExits(b), r.store);
             w'.reason == w1.reason && w'.value == w1.value
    ensures Resume(BlockExits(b), w') == CellExec(o, b, fuel, w).completion
  {
    hide CellExec, Exits;
    JumpsAreNumbered(o, b, fuel, w, [], true, true);
  }

  // ----- agreement -----

  ghost predicate Agrees(r: Ending, x: Outcome) {
    match r
    case Unfinished => x.OutOfFuel?
    case Ended(k, w) => x == Done(k, w.trace)
  }

  ghost predicate KeepsCells(w: Store, r: Ending) {
    r.Ended? ==> r.store.reason == w.reason && r.store.value == w.value
  }

  lemma {:induction false} Agreement(o: Oracle, s: Stmt, fuel: nat, w: Store)
    requires SafeFinalizers(s)
    ensures Agrees(CellExec(o, s, fuel, w), Exec(o, s, fuel, w.trace))
    ensures NoFinally(s) ==> KeepsCells(w, CellExec(o, s, fuel, w))
    decreases fuel, s, 1
  {
    match s
    case Seq(a, b) =>
      Agreement(o, a, fuel, w);
      var r := CellExec(o, a, fuel, w);
      if r.Ended? {
        Agreement(o, b, fuel, r.store);
      }
    case If(e, a) => Agreement(o, a, fuel, Evaluate(o, Some(e), w));
    case IfElse(e, a, b) =>
      Agreement(o, a, fuel, Evaluate(o, Some(e), w));
      Agreement(o, b, fuel, Evaluate(o, Some(e), w));
    case While(e, b) =>
      IterateAgreement(o, Some(e), None, b, fuel, w);
      if NoFinally(b) {
        IterateKeepsCells(o, Some(e), None, b, fuel, w);
      }
    case For(init, check, update, b) =>
      IterateAgreement(o, check, update, b, fuel, Evaluate(o, init, w));
      if NoFinally(b) {
        IterateKeepsCells(o, check, update, b, fuel, Evaluate(o, init, w));
      }
    case DoWhile(b, e) =>
      if fuel > 0 {
        Agreement(o, b, fuel, w);
        var r := CellExec(o, b, fuel, w);
        if r.Ended? {
          Agreement(o, s, fuel - 1, Evaluate(o, Some(e), r.store));
        }
      }
    case Switch(e, cs) =>
      var v := Eval(o, e, w.trace);
      var sel := Select(o, v.value, cs, v.trace);
      DropSafe(cs, sel.index);
      CasesAgreement(o, DropCases(cs, sel.index), fuel, w.(trace := sel.trace));
    case TryFinally(b, f) => FinallyAgreement(o, b, f, fuel, w);
    case TryCatch(b) => Agreement(o, b, fuel, w);
    case _ =>
  }

  lemma {:induction false} FinallyAgreement(o: Oracle, b: Stmt, f: Stmt, fuel: nat, w: Store)
    requires SafeFinalizers(TryFinally(b, f))
    ensures Agrees(CellExec(o, TryFinally(b, f), fuel, w), Exec(o, TryFinally(b, f), fuel, w.trace))
    decreases fuel, TryFinally(b, f), 0
  {
    hide CellExec, Exec;
    CellTryFinallyMeans(o, b, f, fuel, w);
    TryFinallyMeans(o, b, f, fuel, w.trace);
    Agreement(o, b, fuel, w);
    var r := CellExec(o, b, fuel, w);
    if r.Ended? {
      var w1 := Record(r.completion, BlockExits(b), r.store);
      if NoFinally(f) {
        NoFinallyIsSafe(f);
      }
      Agreement(o, f, fuel, w1);
      var q := CellExec(o, f, fuel, w1);
      if q.Ended? && NoFinally(f) {
        ResumeUndoesRecord(o, b, fuel, w, q.store);
      } else if q.Ended? {
        StaysWithin(o, b, fuel, w.trace, false, false);
        OverwritesCells(o, f, fuel, w1);
      }
    }
  }

  /** What ends by ending a try statement normally leaves the reason for falling off. */
  lemma {:induction false} OverwritesCells(o: Oracle, s: Stmt, fuel: nat, w: Store)
    requires Overwrites(s)
    ensures var r := CellExec(o, s, fuel, w);
            r.Ended? && r.completion.Normal? ==> r.store.reason == REASON_FALLOFF_TRY
    decreases fuel, s, 2
  {
    match s
    case Seq(a, b) =>
      var r := CellExec(o, a, fuel, w);
      if r.Ended? {
        if Overwrites(b) {
          OverwritesCells(o, b, fuel, r.store);
        } else {
          OverwritesCells(o, a, fuel, w);
          NoFinallyIsSafe(b);
          Agreement(o, b, fuel, r.store);
        }
      }
    case IfElse(e, a, b) =>
      OverwritesCells(o, a, fuel, Evaluate(o, Some(e), w));
      OverwritesCells(o, b, fuel, Evaluate(o, Some(e), w));
    case TryFinally(x, y) => FallsOff(o, x, y, fuel, w);
    case TryCatch(b) => OverwritesCells(o, b, fuel, w);
  }

  lemma {:induction false} FallsOff(o: Oracle, x: Stmt, y: Stmt, fuel: nat, w: Store)
    requires NoFinally(y) || Overwrites(y)
    ensures var r := CellExec(o, TryFinally(x, y), fuel, w);
            r.Ended? && r.completion.Normal? ==> r.store.reason == REASON_FALLOFF_TRY
    decreases fuel, TryFinally(x, y), 1
  {
    hide CellExec, Exec, Exits;
    CellTryFinallyMeans(o, x, y, fuel, w);
    var r := CellExec(o, x, fuel, w);
    if r.Ended? {
      var w1 := Record(r.completion, BlockExits(x), r.store);
      if Overwrites(y) {
        OverwritesCells(o, y, fuel, w1);
      } else {
        NoFinallyIsSafe(y);
        Agreement(o, y, fuel, w1);
        JumpsAreNumbered(o, x, fuel, w, [], true, true);
      }
    }
  }

  lemma DropSafe(cs: Cases, i: nat)
    requires SafeFinalizersCases(cs) && i <= CaseCount(cs)
    ensures SafeFinalizersCases(DropCases(cs, i)) && (NoFinallyCases(cs) ==> NoFinallyCases(DropCases(cs, i)))
  {
    if i > 0 {
      DropSafe(cs.rest, i - 1);
    }
  }

  lemma {:induction false} CasesAgreement(o: Oracle, cs: Cases, fuel: nat, w: Store)
    requires SafeFinalizersCases(cs)
    ensures Agrees(CellExecCases(o, cs, fuel, w), ExecCases(o, cs, fuel, w.trace))
    ensures NoFinallyCases(cs) ==> KeepsCells(w, CellExecCases(o, cs, fuel, w))
    decreases fuel, cs, 0
  {
    if !cs.NoCases? {
      Agreement(o, cs.body, fuel, w);
      var r := CellExec(o, cs.body, fuel, w);
      if r.Ended? {
        CasesAgreement(o, cs.rest, fuel, r.store);
      }
    }
  }

  lemma {:induction false} IterateAgreement(o: Oracle, check: Option<Expr>, update: Option<Expr>, b: Stmt, fuel: nat,
                                            w: Store)
    requires SafeFinalizers(b)
    ensures Agrees(CellIterate(o, check, update, b, fuel, w), Iterate(o, check, update, b, fuel, w.trace))
    decreases fuel, b, 2
  {
    if fuel > 0 {
      hide CellExec, Exec, NoFinally, SafeFinalizers;
      var w1 := Evaluate(o, check, w);
      assert w1.trace == EvalOr(o, check, Boolean(true), w.trace).trace;
      Agreement(o, b, fuel, w1);
      var r := CellExec(o, b, fuel, w1);
      if r.Ended? {
        IterateAgreement(o, check, update, b, fuel - 1, Evaluate(o, update, r.store));
      }
    }
  }

  lemma {:induction false} IterateKeepsCells(o: Oracle, check: Option<Expr>, update: Option<Expr>, b: Stmt, fuel: nat,
                                             w: Store)
    requires SafeFinalizers(b) && NoFinally(b)
    ensures KeepsCells(w, CellIterate(o, check, update, b, fuel, w))
    decreases fuel, b, 2
  {
    if fuel > 0 {
      hide CellExec, Exec, NoFinally, SafeFinalizers, Iterate, Truthy, EvalOr;
      var w1 := Evaluate(o, check, w);
      Agreement(o, b, fuel, w1);
      var r := CellExec(o, b, fuel, w1);
      if r.Ended? {
        IterateKeepsCells(o, check, update, b, fuel - 1, Evaluate(o, update, r.store));
      }
    }
  }
}

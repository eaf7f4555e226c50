/** What becomes of a pending jump when the finalizer it waits for has a try/finally of its own, which uses the
    same two cells.
 */
module SharedCells {
  import opened Basics
  import opened Completions
  import opened ReasonCell
  import opened CellAgreement
  import opened BlockMachine
  import opened Emitter
  import opened Lowering
  import opened Simulation
  import opened LoweringProof

  /** The cells still hold what was recorded for `k`, or for falling off something that goes nowhere. */
  predicate StillHolds(k: Completion, exits: seq<Kind>, w: Store) {
    match k
    case Normal => w.reason != REASON_RETURN && !(0 <= w.reason < |exits|)
    case Breaking => w.reason == NumberOf(exits, ByBreak)
    case Continuing => w.reason == NumberOf(exits, ByContinue)
    case Returning(v) => w.reason == REASON_RETURN && w.value == v
  }

  lemma ResumesExactly(exits: seq<Kind>, k: Completion, w: Store)
    requires NoRepeats(exits) && (k.Breaking? ==> ByBreak in exits) && (k.Continuing? ==> ByContinue in exits)
    ensures Resume(exits, w) == k <==> StillHolds(k, exits, w)
  {
    if 0 <= w.reason < |exits| {
      NumberIs(exits, w.reason);
    }
  }

  /** A try/finally whose finalizer ends normally goes on as the language says exactly when the finalizer leaves
      the cells holding what was recorded on the way in. */
  lemma FinallyAgreesExactly(o: Oracle, b: Stmt, f: Stmt, fuel: nat, w: Store, w1: Store, w2: Store, k: Completion)
    requires CellExec(o, b, fuel, w) == Ended(k, w1) && Exec(o, b, fuel, w.trace) == Done(k, w1.trace)
    requires CellExec(o, f, fuel, Record(k, BlockExits(b), w1)) == Ended(Normal, w2)
    requires Exec(o, f, fuel, w1.trace) == Done(Normal, w2.trace)
    ensures var s := TryFinally(b, f);
            Agrees(CellExec(o, s, fuel, w), Exec(o, s, fuel, w.trace)) <==> StillHolds(k, BlockExits(b), w2)
  {
    var s := TryFinally(b, f);
    var exits := BlockExits(b);
    hide CellExec, Exec, Exits;
    CellTryFinallyMeans(o, b, f, fuel, w);
    TryFinallyMeans(o, b, f, fuel, w.trace);
    JumpsAreNumbered(o, b, fuel, w, [], true, true);
    ExitsExtend(b, [], true, true);
    ResumesExactly(exits, k, w2);
  }

  /** Among them is every sequence whose last try statement is followed by none. */
  lemma OverwritingShapes(p: Stmt, x: Stmt, y: Stmt, q: Stmt)
    requires NoFinally(y) && NoFinally(q)
    ensures Overwrites(TryFinally(x, y)) && Overwrites(Seq(p, Seq(TryFinally(x, y), q)))
  {
  }

  /** With a finalizer that overwrites the cells every pending jump is lost, in whatever surroundings: the
      statement ends normally, so it does what the language says exactly when nothing was pending. */
  lemma NestedFinalizerForgets(o: Oracle, b: Stmt, f: Stmt, fuel: nat, w: Store, k: Completion, t: Trace, u: Trace)
    requires SafeFinalizers(b) && SafeFinalizers(f) && Overwrites(f)
    requires Exec(o, b, fuel, w.trace) == Done(k, t) && Exec(o, f, fuel, t) == Done(Normal, u)
    ensures var s := TryFinally(b, f);
            var r := CellExec(o, s, fuel, w);
            && r.Ended? && r.completion == Normal && r.store.trace == u && r.store.reason == REASON_FALLOFF_TRY
            && (Agrees(r, Exec(o, s, fuel, w.trace)) <==> k.Normal?)
  {
    hide CellExec, Exec, Exits;
    CellTryFinallyMeans(o, b, f, fuel, w);
    TryFinallyMeans(o, b, f, fuel, w.trace);
    Agreement(o, b, fuel, w);
    var w1 := Record(k, BlockExits(b), CellExec(o, b, fuel, w).store);
    Agreement(o, f, fuel, w1);
    OverwritesCells(o, f, fuel, w1);
  }

  /** In the emitted code, at any point of any function: control is behind the statement afterwards, whatever
      break, continue or return was pending. */
  lemma EmittedNestedFinalizerForgets(g: Code, o: Oracle, b: Stmt, f: Stmt, fuel: nat, st: State, c: Config,
                                      k: Completion, t: Trace, u: Trace)
    returns (n: nat, c': Config)
    requires Valid(st) && Fits(TryFinally(b, f), st) && AtEnd(c, st) && Hosts(g, Lower(TryFinally(b, f), st).code)
    requires SafeFinalizers(b) && SafeFinalizers(f) && Overwrites(f)
    requires Exec(o, b, fuel, c.trace) == Done(k, t) && Exec(o, f, fuel, t) == Done(Normal, u)
    ensures c' == Run(g, o, c, n) && AtEnd(c', Lower(TryFinally(b, f), st)) && c'.trace == u
  {
    hide Run, Lower, Exec, CellExec, Hosts, Valid, Fits, SafeFinalizers, Overwrites;
    NestedFinalizerForgets(o, b, f, fuel, StoreOf(c), k, t, u);
    n, c' := Simulate(g, o, TryFinally(b, f), fuel, st, c);
  }

  /** For every legal function body: the emitted code means what the source means exactly when the shared cells
      make no difference to it. */
  lemma MeaningPreservedExactly(o: Oracle, body: Stmt)
    requires Legal(body, false, false)
    ensures (forall v, t :: Halts(LowerFunction(body), o, v, t) <==> Completes(o, body, v, t)) <==>
            (forall v, t :: CellCompletes(o, body, v, t) <==> Completes(o, body, v, t))
  {
    hide Halts, Completes, CellCompletes, LowerFunction, Legal;
    forall v, t
      ensures Halts(LowerFunction(body), o, v, t) <==> CellCompletes(o, body, v, t)
    {
      LoweringIsCellExec(o, body, v, t);
    }
  }

  // ----- reason codes of different try statements collide -----

  /** while (op1) { try { if (op2) break; } finally { while (op3) { try { break; } finally { } } } op4; } */
  const COLLISION: Stmt :=
    While(Op(1), Seq(TryFinally(If(Op(2), Break), While(Op(3), TryFinally(Break, Empty))), Expression(Op(4))))

  /** Operation 1 holds once, operation 3 always, operation 2 never. */
  const COLLIDING_WORLD := Oracle((id, t) => Boolean(id == 3 || (id == 1 && t == [])), (a, b) => a == b)

  /** Nothing is pending when the outer finally block is entered, but the break inside its finalizer leaves a
      number behind that is also the number of the outer break: the emitted code leaves the outer loop. */
  lemma ReasonsCollide()
    ensures Legal(COLLISION, false, false)
    ensures Completes(COLLIDING_WORLD, COLLISION, Undefined, [1, 2, 3, 4, 1])
    ensures Halts(LowerFunction(COLLISION), COLLIDING_WORLD, Undefined, [1, 2, 3])
  {
    hide Exec, CellExec, Completes, CellCompletes, Halts, LowerFunction;
    CollisionSource();
    CollisionEmitted();
    LoweringIsCellExec(COLLIDING_WORLD, COLLISION, Undefined, [1, 2, 3]);
  }

  /** What the colliding statement means: nothing is pending when its finally block has run. */
  lemma CollisionMeans()
    ensures Exec(COLLIDING_WORLD, TryFinally(If(Op(2), Break), While(Op(3), TryFinally(Break, Empty))), 2, [1])
         == Done(Normal, [1, 2, 3])
  {
    var o := COLLIDING_WORLD;
    var inner := TryFinally(Break, Empty);
    var f := While(Op(3), inner);
    var b := If(Op(2), Break);
    assert [1] + [2] == [1, 2] && [1, 2] + [3] == [1, 2, 3];
    assert Exec(o, b, 2, [1]) == Done(Normal, [1, 2]);
    assert Exec(o, inner, 2, [1, 2, 3]) == Done(Breaking, [1, 2, 3]);
    assert Exec(o, f, 2, [1, 2]) == Done(Normal, [1, 2, 3]);
  }

  lemma CollisionSource()
    ensures Completes(COLLIDING_WORLD, COLLISION, Undefined, [1, 2, 3, 4, 1])
  {
    var o := COLLIDING_WORLD;
    CollisionMeans();
    assert [1, 2, 3] + [4] == [1, 2, 3, 4] && [1, 2, 3, 4] + [1] == [1, 2, 3, 4, 1] && [] + [1] == [1];
    var turn := Seq(TryFinally(If(Op(2), Break), While(Op(3), TryFinally(Break, Empty))), Expression(Op(4)));
    assert Exec(o, turn, 2, [1]) == Done(Normal, [1, 2, 3, 4]);
    assert Iterate(o, Some(Op(1)), None, turn, 1, [1, 2, 3, 4]) == Done(Normal, [1, 2, 3, 4, 1]);
    assert Iterate(o, Some(Op(1)), None, turn, 2, []) == Done(Normal, [1, 2, 3, 4, 1]);
    assert Exec(o, COLLISION, 2, []) == Done(Normal, [1, 2, 3, 4, 1]);
  }

  /** Nothing is pending, the inner break leaves its number behind, and the outer dispatch takes it for its own. */
  lemma CollisionStatement()
    ensures CellExec(COLLIDING_WORLD, TryFinally(If(Op(2), Break), While(Op(3), TryFinally(Break, Empty))), 2,
                     Store([1], 0, Undefined))
         == Ended(Breaking, Store([1, 2, 3], 0, Undefined))
  {
    var o := COLLIDING_WORLD;
    var inner := TryFinally(Break, Empty);
    var f := While(Op(3), inner);
    var b := If(Op(2), Break);
    assert [1] + [2] == [1, 2] && [1, 2] + [3] == [1, 2, 3];
    assert BlockExits(b) == [ByBreak] && BlockExits(Break) == [ByBreak];
    var w0 := Store([1], 0, Undefined);
    assert CellExec(o, b, 2, w0) == Ended(Normal, Store([1, 2], 0, Undefined));
    var w1 := Store([1, 2], REASON_FALLOFF_TRY, Undefined);
    var w2 := Store([1, 2, 3], REASON_FALLOFF_TRY, Undefined);
    var w3 := Store([1, 2, 3], 0, Undefined);
    assert CellExec(o, inner, 2, w2) == CellFinally(o, [ByBreak], Empty, 2, w3) == Ended(Breaking, w3);
    assert CellExec(o, f, 2, w1) == CellIterate(o, Some(Op(3)), None, inner, 2, w1) == Ended(Normal, w3);
    assert CellExec(o, TryFinally(b, f), 2, w0) == CellFinally(o, [ByBreak], f, 2, w1);
  }

  lemma CollisionEmitted()
    ensures CellCompletes(COLLIDING_WORLD, COLLISION, Undefined, [1, 2, 3])
  {
    var o := COLLIDING_WORLD;
    var s := TryFinally(If(Op(2), Break), While(Op(3), TryFinally(Break, Empty)));
    var turn := Seq(s, Expression(Op(4)));
    var w0, w3 := Store([1], 0, Undefined), Store([1, 2, 3], 0, Undefined);
    CollisionStatement();
    assert CellExec(o, turn, 2, w0) == Ended(Breaking, w3);
    assert [] + [1] == [1];
    assert CellIterate(o, Some(Op(1)), None, turn, 2, INITIAL) == Ended(Normal, w3);
    assert CellExec(o, COLLISION, 2, INITIAL) == Ended(Normal, w3);
  }
}

/** The compiler's lowering of statements to basic blocks, as functions from one emitter state to
    the next: `lib/compiler.js` (loops, if, switch, try, break, continue, return) together with
    `lib/exitable-scope.js`.
 */
module Emitter {
  import opened Basics
  import opened Completions
  import opened ReasonCell
  import opened BlockMachine

  /** Where a finally block goes on to: which enclosing scope to leave (by its position in the
      scope stack), in which way, and the reason code that stands for this. */
  datatype Destination = Destination(scope: nat, kind: Kind, id: int)

  datatype Scope =
    | Loop(fore: nat, aft: nat)
    | SwitchScope(merge: nat)
    | Try(cleanup: nat, hasFinally: bool, destinations: seq<Destination>)  // newest first

  /** The emitter: blocks so far, insert point, scope stack (innermost last), the stack of finally
      blocks (innermost first), whether the return-value cell exists, and the next register. */
  datatype State = State(code: Code, cur: nat, scopes: seq<Scope>, finallies: seq<nat>,
                         hasReturnCell: bool, nextReg: nat)

  // ----- primitive emitter actions -----

  function Emit(st: State, i: Instr): State
    requires st.cur < |st.code|
  {
    st.(code := st.code[st.cur := st.code[st.cur] + [i]])
  }

  function NewBlocks(st: State, n: nat): State {
    st.(code := st.code + seq(n, _ => []))
  }

  function At(st: State, b: nat): State {
    st.(cur := b)
  }

  function Enter(st: State, s: Scope): State {
    st.(scopes := st.scopes + [s])
  }

  function Leave(st: State): State
    requires st.scopes != []
  {
    st.(scopes := st.scopes[..|st.scopes| - 1])
  }

  datatype Emitted = Emitted(st: State, op: Operand)

  /** The operand is a register below `r`, or none. */
  ghost predicate Below(op: Operand, r: nat) {
    op.Reg? ==> op.r < r
  }

  function EmitEval(st: State, e: Expr): Emitted
    requires st.cur < |st.code|
  {
    match e
    case Bool(b) => Emitted(st, Const(Boolean(b)))
    case Op(id) => Emitted(Emit(st, EvalTo(st.nextReg, id)).(nextReg := st.nextReg + 1), Reg(st.nextReg))
  }

  function EmitOptional(st: State, e: Option<Expr>): Emitted
    requires st.cur < |st.code|
  {
    if e.None? then Emitted(st, Const(Undefined)) else EmitEval(st, e.value)
  }

  /** A literal is folded to an inverted bit; anything else is evaluated and compared with false.
      Either way the branch tests for falsity, so the else block comes first. */
  function EmitCondBr(st: State, e: Expr, thenBlock: nat, elseBlock: nat): State
    requires st.cur < |st.code|
  {
    match e
    case Bool(b) => Emit(st, CondBr(Bit(!b), elseBlock, thenBlock))
    case Op(_) =>
      var v := EmitEval(st, e);
      Emit(v.st, CondBr(IsFalsy(v.op), elseBlock, thenBlock))
  }

  // ----- leaving scopes -----

  /** Some scope at or below position `i` can be broken out of. */
  predicate CanBreak(scopes: seq<Scope>, i: int)
    requires i < |scopes|
  {
    i >= 0 && (!scopes[i].Try? || CanBreak(scopes, i - 1))
  }

  predicate CanContinue(scopes: seq<Scope>, i: int)
    requires i < |scopes|
  {
    i >= 0 && (scopes[i].Loop? || CanContinue(scopes, i - 1))
  }

  predicate IsFinally(s: Scope) {
    s.Try? && s.hasFinally
  }

  function FindLoopOrFinally(scopes: seq<Scope>, i: int): (j: nat)
    requires i < |scopes| && CanContinue(scopes, i)
    ensures j <= i && (scopes[j].Loop? || IsFinally(scopes[j]))
    ensures CanContinue(scopes, j)
    ensures forall k :: j < k <= i ==> !scopes[k].Loop? && !IsFinally(scopes[k])
  {
    if scopes[i].Loop? || IsFinally(scopes[i]) then i else FindLoopOrFinally(scopes, i - 1)
  }

  function FindDestination(ds: seq<Destination>, scope: nat, kind: Kind): (r: Option<Destination>)
    ensures r.Some? ==> r.value in ds && r.value.scope == scope && r.value.kind == kind
    ensures r.None? ==> forall d :: d in ds ==> d.scope != scope || d.kind != kind
  {
    if ds == [] then None
    else if ds[0].scope == scope && ds[0].kind == kind then Some(ds[0])
    else FindDestination(ds[1..], scope, kind)
  }

  /** Makes sure try scope `i` has a destination for (scope, kind). */
  function WithDestination(st: State, i: nat, scope: nat, kind: Kind): State
    requires i < |st.scopes| && st.scopes[i].Try?
  {
    var ds := st.scopes[i].destinations;
    if FindDestination(ds, scope, kind).Some? then st
    else st.(scopes := st.scopes[i := st.scopes[i].(destinations := [Destination(scope, kind, |ds|)] + ds)])
  }

  function DestinationId(st: State, i: nat, scope: nat, kind: Kind): int
    requires i < |st.scopes| && st.scopes[i].Try?
  {
    var ds := st.scopes[i].destinations;
    var r := FindDestination(ds, scope, kind);
    if r.Some? then r.value.id else |ds|
  }

  /** Store a reason code and go to the finally block of try scope `i`. */
  function EmitCleanup(st: State, i: nat, scope: nat, kind: Kind): State
    requires st.cur < |st.code|
    requires i < |st.scopes| && st.scopes[i].Try?
  {
    Emit(Emit(WithDestination(st, i, scope, kind), StoreReason(DestinationId(st, i, scope, kind))),
         Br(st.scopes[i].cleanup))
  }

  /** `break` out of scope `i`. */
  function ExitAft(st: State, i: nat): State
    requires st.cur < |st.code|
    requires i < |st.scopes| && CanBreak(st.scopes, i)
  {
    match st.scopes[i]
    case Loop(_, aft) => Emit(st, Br(aft))
    case SwitchScope(merge) => Emit(st, Br(merge))
    case Try(_, hasFinally, _) =>
      assert CanBreak(st.scopes, i - 1);
      if hasFinally then EmitCleanup(st, i, i - 1, ByBreak) else ExitAft(st, i - 1)
  }

  /** `continue` the loop at or outside scope `i`, which is a loop or has a finally clause. */
  function ExitFore(st: State, i: nat): State
    requires st.cur < |st.code|
    requires i < |st.scopes| && CanContinue(st.scopes, i)
    requires st.scopes[i].Loop? || IsFinally(st.scopes[i])
  {
    match st.scopes[i]
    case Loop(fore, _) => Emit(st, Br(fore))
    case Try(_, _, _) => EmitCleanup(st, i, FindLoopOrFinally(st.scopes, i - 1), ByContinue)
  }

  // ----- invariants of emitter states -----

  /** A destination of the try scope at position `i` is one that scope could have asked for. */
  predicate DestinationOk(scopes: seq<Scope>, i: nat, d: Destination)
    requires i <= |scopes|
  {
    match d.kind
    case ByBreak => CanBreak(scopes, i - 1) && d.scope == i - 1
    case ByContinue => CanContinue(scopes, i - 1) && d.scope == FindLoopOrFinally(scopes, i - 1)
  }

  predicate ScopeOk(scopes: seq<Scope>, i: nat)
    requires i < |scopes|
  {
    scopes[i].Try? ==>
      var ds := scopes[i].destinations;
      forall k :: 0 <= k < |ds| ==> ds[k].id == |ds| - 1 - k && DestinationOk(scopes, i, ds[k])
  }

  predicate Valid(st: State) {
    st.cur < |st.code| && forall i :: 0 <= i < |st.scopes| ==> ScopeOk(st.scopes, i)
  }

  /** Code `b` extends `a`, and of the blocks of `a` only those from `lo` to `hi` may be longer. */
  predicate Grows(a: Code, b: Code, lo: nat, hi: nat) {
    && |a| <= |b|
    && (forall i :: 0 <= i < |a| ==> a[i] <= b[i])
    && (forall i :: 0 <= i < |a| && !(lo <= i < hi) ==> b[i] == a[i])
  }

  predicate SameShape(a: Scope, b: Scope) {
    if a.Try? then
      b.Try? && a.cleanup == b.cleanup && a.hasFinally == b.hasFinally
      && forall d :: d in a.destinations ==> d in b.destinations
    else a == b
  }

  predicate ScopesGrow(a: seq<Scope>, b: seq<Scope>) {
    |a| == |b| && forall i :: 0 <= i < |a| ==> SameShape(a[i], b[i])
  }

  /** What emitting into blocks `lo` to `hi`, and into new ones, does to the emitter state. */
  predicate EvolvesIn(a: State, b: State, lo: nat, hi: nat) {
    && Valid(b)
    && Grows(a.code, b.code, lo, hi)
    && ScopesGrow(a.scopes, b.scopes)
    && a.finallies == b.finallies
    && (a.hasReturnCell ==> b.hasReturnCell)
    && a.nextReg <= b.nextReg
  }

  /** What lowering any statement does to the emitter state. */
  predicate Evolves(a: State, b: State) {
    EvolvesIn(a, b, a.cur, a.cur + 1) && (b.cur == a.cur || b.cur >= |a.code|)
  }

  // ----- those invariants under the primitive actions -----

  /** Scopes `a` and `b` agree up to position `i` on everything that guides an exit. */
  predicate Alike(a: seq<Scope>, b: seq<Scope>, i: int) {
    && i < |a| && i < |b|
    && forall k :: 0 <= k <= i ==>
         a[k].Try? == b[k].Try? && a[k].Loop? == b[k].Loop? && IsFinally(a[k]) == IsFinally(b[k])
  }

  lemma {:induction false} AlikeExits(a: seq<Scope>, b: seq<Scope>, i: int)
    requires Alike(a, b, i)
    ensures CanBreak(a, i) == CanBreak(b, i) && CanContinue(a, i) == CanContinue(b, i)
    ensures CanContinue(a, i) ==> FindLoopOrFinally(a, i) == FindLoopOrFinally(b, i)
    decreases i
  {
    if i >= 0 {
      AlikeExits(a, b, i - 1);
    }
  }

  lemma GrowExits(a: seq<Scope>, b: seq<Scope>)
    requires ScopesGrow(a, b)
    ensures var i := |a| - 1;
            && |b| == |a| && CanBreak(a, i) == CanBreak(b, i) && CanContinue(a, i) == CanContinue(b, i)
            && (CanContinue(a, i) ==> FindLoopOrFinally(a, i) == FindLoopOrFinally(b, i))
  {
    AlikeExits(a, b, |a| - 1);
  }

  lemma AlikeDestination(a: seq<Scope>, b: seq<Scope>, i: nat, d: Destination)
    requires Alike(a, b, i)
    ensures DestinationOk(a, i, d) == DestinationOk(b, i, d)
  {
    AlikeExits(a, b, i - 1);
  }

  lemma ScopeOkCarries(a: seq<Scope>, b: seq<Scope>, i: nat)
    requires Alike(a, b, i) && ScopeOk(a, i)
    requires a[i].Try? ==> a[i].destinations == b[i].destinations
    ensures ScopeOk(b, i)
  {
    if a[i].Try? {
      var ds := a[i].destinations;
      forall k | 0 <= k < |ds| ensures DestinationOk(b, i, ds[k]) {
        AlikeDestination(a, b, i, ds[k]);
      }
    }
  }

  lemma EvolvesRefl(a: State)
    requires Valid(a)
    ensures Evolves(a, a) && ScopesGrow(a.scopes, a.scopes)
  {
  }

  lemma EvolvesSizes(a: State, b: State, lo: nat, hi: nat)
    requires EvolvesIn(a, b, lo, hi)
    ensures |a.code| <= |b.code| && |a.scopes| == |b.scopes|
  {
  }

  lemma ScopesGrowTrans(a: State, b: State, c: State)
    requires ScopesGrow(a.scopes, b.scopes) && ScopesGrow(b.scopes, c.scopes)
    ensures ScopesGrow(a.scopes, c.scopes)
  {
  }

  lemma EvolvesTrans(a: State, b: State, c: State)
    requires Evolves(a, b) && Evolves(b, c)
    ensures Evolves(a, c)
  {
  }

  /** Emitting `c` into a block of `b` that `a` does not have yet. */
  lemma Detour(a: State, b: State, block: nat, c: State)
    requires Evolves(a, b) && |a.code| <= block < |b.code|
    requires Evolves(At(b, block), c)
    ensures Evolves(a, c)
  {
    assert Valid(At(b, block));
    assert Evolves(a, At(b, block));
    EvolvesTrans(a, At(b, block), c);
  }

  lemma EvolvesEval(a: State, b: State, e: Option<Expr>)
    requires Evolves(a, b)
    ensures Evolves(a, EmitOptional(b, e).st) && EmitOptional(b, e).st.cur == b.cur
  {
    if e.Some? && e.value.Op? {
      EvolvesEmit(a, b, EvalTo(b.nextReg, e.value.id));
    }
  }

  lemma EvolvesCondBr(a: State, b: State, e: Expr, t: nat, f: nat)
    requires Evolves(a, b)
    ensures Evolves(a, EmitCondBr(b, e, t, f)) && EmitCondBr(b, e, t, f).cur == b.cur
  {
    EvolvesEval(a, b, Some(e));
    var v := EmitEval(b, e);
    EvolvesEmit(a, v.st, CondBr(if e.Bool? then Bit(!e.b) else IsFalsy(v.op), f, t));
  }

  lemma EvolvesEmit(a: State, b: State, i: Instr)
    requires Evolves(a, b)
    ensures Evolves(a, Emit(b, i))
  {
  }

  lemma EvolvesNew(a: State, b: State, n: nat)
    requires Evolves(a, b)
    ensures Evolves(a, NewBlocks(b, n))
  {
  }

  lemma EnterValid(a: State, x: Scope)
    requires Valid(a) && (x.Try? ==> x.destinations == [])
    ensures Valid(Enter(a, x))
  {
    forall i | 0 <= i < |a.scopes| ensures ScopeOk(a.scopes + [x], i) {
      ScopeOkCarries(a.scopes, a.scopes + [x], i);
    }
  }

  lemma LeaveEvolves(a: State, x: Scope, b: State)
    requires Evolves(Enter(a, x), b)
    ensures Evolves(a, Leave(b))
  {
    var s := Leave(b).scopes;
    forall i | 0 <= i < |s| ensures ScopeOk(s, i) && SameShape(a.scopes[i], s[i]) {
      ScopeOkCarries(b.scopes, s, i);
      assert Enter(a, x).scopes[i] == a.scopes[i];
    }
  }
}

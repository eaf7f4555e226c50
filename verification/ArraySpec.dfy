/** What an array of the language is: a partial map from indices to values with a length. Every operation
    is given here on that map alone, in the order and with the results of ECMAScript 2015.
 */
module ArraySpec {
  import opened Basics

  datatype Value = Undefined | Thing(id: int)

  datatype PartialArray = PartialArray(length: nat, props: map<int, Value>)

  /** `inherited` and `found` are what the prototype chain has under the name. */
  datatype Op =
    | Get(at: int, inherited: Option<Value>)
    | Has(index: nat, found: bool)
    | Set(index: nat, value: Value)
    | Delete(index: nat)
    | Define(index: nat, value: Value)
    | SetLength(newLength: nat)
    | Push(values: seq<Value>)
    | Pop
    | Shift
    | Unshift(values: seq<Value>)

  /** `HoleMagic` is no value of the language: it is the marker that stands for a missing element. */
  datatype Outcome = Done | Got(value: Value) | Present(present: bool) | Count(count: nat) | HoleMagic

  function Lookup(m: PartialArray, i: int): Value {
    if i in m.props then m.props[i] else Undefined
  }

  function Store(m: PartialArray, i: nat, v: Value): PartialArray {
    PartialArray(if i < m.length then m.length else i + 1, m.props[i := v])
  }

  function Truncate(m: PartialArray, n: nat): PartialArray {
    PartialArray(n, map i | i in m.props && i < n :: m.props[i])
  }

  function Source(j: int, offset: int): int {
    j - offset
  }

  /** Every element `offset` places up (down, when it is negative); what would fall below zero is lost. */
  function Move(m: PartialArray, offset: int): (r: PartialArray)
    requires 0 <= m.length + offset
    ensures r.length == m.length + offset
  {
    PartialArray(m.length + offset,
                 map j | 0 <= j < m.length + offset && Source(j, offset) in m.props :: m.props[Source(j, offset)])
  }

  function StoreAll(m: PartialArray, start: nat, values: seq<Value>): PartialArray
    decreases values
  {
    if values == [] then m else StoreAll(Store(m, start, values[0]), start + 1, values[1..])
  }

  function Step(m: PartialArray, op: Op): (PartialArray, Outcome) {
    match op
    case Get(i, inherited) => (m, Got(if i !in m.props && inherited.Some? then inherited.value else Lookup(m, i)))
    case Has(i, found) => (m, Present(i in m.props || found))
    case Set(i, v) => (Store(m, i, v), Done)
    case Delete(i) => (m.(props := m.props - {i}), Done)
    case Define(i, v) => (Store(m, i, v), Done)
    case SetLength(n) => (Truncate(m, n), Done)
    case Push(vs) => (StoreAll(m, m.length, vs), Count(m.length + |vs|))
    case Pop =>
      if m.length == 0 then (m, Got(Undefined))
      else (Truncate(m, m.length - 1), Got(Lookup(m, m.length - 1)))
    case Shift =>
      if m.length == 0 then (m, Got(Undefined)) else (Move(m, -1), Got(Lookup(m, 0)))
    case Unshift(vs) => (StoreAll(Move(m, |vs|), 0, vs), Count(m.length + |vs|))
  }

  function Run(m: PartialArray, ops: seq<Op>): (r: (PartialArray, seq<Outcome>))
    ensures |r.1| == |ops|
    decreases |ops|
  {
    if ops == [] then (m, []) else
      var init := Run(m, ops[..|ops| - 1]);
      var last := Step(init.0, ops[|ops| - 1]);
      (last.0, init.1 + [last.1])
  }

  /** The operation takes an element off an end where there is none. */
  predicate RemovesHole(m: PartialArray, op: Op) {
    m.length > 0 && ((op.Pop? && m.length - 1 !in m.props) || (op.Shift? && 0 !in m.props))
  }

  /** What a dense array answers: the marker for a removed hole, and nothing inherited for an element that is
      missing, except when asked whether there is one beyond its end. */
  function Answer(m: PartialArray, op: Op): Outcome {
    if RemovesHole(m, op) then HoleMagic
    else
      match op
      case Get(i, _) => Got(Lookup(m, i))
      case Has(i, found) => Present(i in m.props || (i >= m.length && found))
      case _ => Step(m, op).1
  }

  /** The operation takes a missing element off an end, or asks for a missing element that is inherited. */
  predicate Deviates(m: PartialArray, op: Op) {
    match op
    case Get(i, inherited) => i !in m.props && inherited.Some? && inherited.value != Undefined
    case Has(i, found) => i < m.length && i !in m.props && found
    case _ => RemovesHole(m, op)
  }

  lemma AnswersExactly(m: PartialArray, op: Op)
    ensures Answer(m, op) == Step(m, op).1 <==> !Deviates(m, op)
  {
  }

  predicate RunDeviates(m: PartialArray, ops: seq<Op>)
    decreases |ops|
  {
    ops != [] && (RunDeviates(m, ops[..|ops| - 1])
                  || Deviates(Run(m, ops[..|ops| - 1]).0, ops[|ops| - 1]))
  }

  ghost predicate WellFormed(m: PartialArray) {
    forall i :: i in m.props ==> 0 <= i < m.length
  }

  function At(m: PartialArray, i: int): Option<Value> {
    if i in m.props then Some(m.props[i]) else None
  }

  lemma SameElements(m: PartialArray, n: PartialArray)
    requires m.length == n.length && forall i :: At(m, i) == At(n, i)
    ensures m == n
  {
    forall i
      ensures i in m.props <==> i in n.props
      ensures i in m.props ==> m.props[i] == n.props[i]
    {
      assert At(m, i) == At(n, i);
    }
    assert m.props == n.props;
  }

  lemma {:induction false} StoreAllAt(m: PartialArray, start: nat, values: seq<Value>)
    requires start <= m.length
    ensures var r := StoreAll(m, start, values);
            && r.length == (if start + |values| < m.length then m.length else start + |values|)
            && forall i :: At(r, i) == if start <= i < start + |values| then Some(values[i - start]) else At(m, i)
    decreases values
  {
    if values != [] {
      var next := Store(m, start, values[0]);
      StoreAllAt(next, start + 1, values[1..]);
      assert forall i :: At(next, i) == if i == start then Some(values[0]) else At(m, i);
    }
  }

  lemma StoreAllWellFormed(m: PartialArray, start: nat, values: seq<Value>)
    requires WellFormed(m) && start <= m.length
    ensures WellFormed(StoreAll(m, start, values))
  {
    StoreAllAt(m, start, values);
    var r := StoreAll(m, start, values);
    forall i | i in r.props
      ensures 0 <= i < r.length
    {
      assert At(r, i).Some?;
    }
  }

  // ----- the same, index by index -----

  /** What `op` has to make of `m`: the length, every index, and the answer. */
  ghost predicate IsStep(m: PartialArray, op: Op, r: PartialArray, o: Outcome) {
    match op
    case Get(i, inherited) =>
      && r == m
      && o == Got(if At(m, i).Some? then At(m, i).value else if inherited.Some? then inherited.value else Undefined)
    case Has(i, found) => r == m && o == Present(At(m, i).Some? || found)
    case Set(i, v) => IsStored(m, i, v, r) && o == Done
    case Define(i, v) => IsStored(m, i, v, r) && o == Done
    case Delete(i) => r.length == m.length && (forall j :: At(r, j) == if j == i then None else At(m, j)) && o == Done
    case SetLength(n) => r.length == n && (forall j :: At(r, j) == if j < n then At(m, j) else None) && o == Done
    case Push(vs) =>
      && r.length == m.length + |vs|
      && (forall j :: At(r, j) == if m.length <= j < r.length then Some(vs[j - m.length]) else At(m, j))
      && o == Count(r.length)
    case Unshift(vs) =>
      && r.length == m.length + |vs|
      && (forall j :: At(r, j) == if 0 <= j < |vs| then Some(vs[j]) else At(m, j - |vs|))
      && o == Count(r.length)
    case Pop =>
      if m.length == 0 then r == m && o == Got(Undefined)
      else
        && r.length == m.length - 1
        && (forall j :: At(r, j) == if j < r.length then At(m, j) else None)
        && o == Got(if At(m, r.length).Some? then At(m, r.length).value else Undefined)
    case Shift =>
      if m.length == 0 then r == m && o == Got(Undefined)
      else
        && r.length == m.length - 1
        && (forall j :: At(r, j) == if j < 0 then None else At(m, j + 1))
        && o == Got(if At(m, 0).Some? then At(m, 0).value else Undefined)
  }

  ghost predicate IsStored(m: PartialArray, i: nat, v: Value, r: PartialArray) {
    && r.length == (if i < m.length then m.length else i + 1)
    && forall j :: At(r, j) == if j == i then Some(v) else At(m, j)
  }

  lemma MovedAt(m: PartialArray, offset: int)
    requires WellFormed(m) && 0 <= m.length + offset
    ensures forall j :: At(Move(m, offset), j) == if j < 0 then None else At(m, j - offset)
  {
    var r := Move(m, offset);
    forall j ensures At(r, j) == if j < 0 then None else At(m, j - offset) {
      assert Source(j, offset) == j - offset;
    }
  }

  /** Each operation does this. */
  lemma StepIsStep(m: PartialArray, op: Op)
    requires WellFormed(m)
    ensures IsStep(m, op, Step(m, op).0, Step(m, op).1)
  {
    match op
    case Push(vs) =>
      hide StoreAll, Move, Truncate, Store;
      StoreAllAt(m, m.length, vs);
    case Unshift(vs) =>
      hide StoreAll, Move, Truncate, Store;
      MovedAt(m, |vs|);
      StoreAllAt(Move(m, |vs|), 0, vs);
    case Shift =>
      hide StoreAll, Move, Truncate, Store;
      if m.length > 0 {
        MovedAt(m, -1);
      }
    case Pop =>
      hide StoreAll, Move, Store, Truncate;
      if m.length > 0 {
        TruncatedAt(m, m.length - 1);
      }
    case SetLength(n) =>
      hide StoreAll, Move, Store, Truncate;
      TruncatedAt(m, n);
    case _ =>
      hide StoreAll, Move, Truncate;
  }

  lemma TruncatedAt(m: PartialArray, n: nat)
    ensures Truncate(m, n).length == n && forall j :: At(Truncate(m, n), j) == if j < n then At(m, j) else None
  {
  }

  /** And nothing else does: the array and the answer are determined by it. */
  lemma StepExactly(m: PartialArray, op: Op, r: PartialArray, o: Outcome)
    requires WellFormed(m)
    ensures (r, o) == Step(m, op) <==> IsStep(m, op, r, o)
  {
    StepIsStep(m, op);
    if IsStep(m, op, r, o) {
      hide Step;
      var q := Step(m, op).0;
      if q != r {
        assert q.length == r.length && forall j :: At(q, j) == At(r, j);
        SameElements(q, r);
      }
    }
  }

  lemma StepKeepsWellFormed(m: PartialArray, op: Op)
    requires WellFormed(m)
    ensures WellFormed(Step(m, op).0)
  {
    match op
    case Push(vs) => StoreAllWellFormed(m, m.length, vs);
    case Unshift(vs) => StoreAllWellFormed(Move(m, |vs|), 0, vs);
    case _ =>
  }

  /** After any run, no index at or above the length is present. */
  lemma {:induction false} RunKeepsWellFormed(m: PartialArray, ops: seq<Op>)
    requires WellFormed(m)
    ensures WellFormed(Run(m, ops).0)
    decreases |ops|
  {
    if ops != [] {
      RunKeepsWellFormed(m, ops[..|ops| - 1]);
      StepKeepsWellFormed(Run(m, ops[..|ops| - 1]).0, ops[|ops| - 1]);
    }
  }

  /** Popping undoes pushing. */
  lemma PopUndoesPush(m: PartialArray, v: Value)
    requires WellFormed(m)
    ensures Step(Step(m, Push([v])).0, Pop) == (m, Got(v))
  {
    StoreAllAt(m, m.length, [v]);
    var pushed := Step(m, Push([v])).0;
    assert At(pushed, m.length) == Some(v);
    SameElements(Truncate(pushed, m.length), m);
  }

  /** Shifting undoes unshifting. */
  lemma ShiftUndoesUnshift(m: PartialArray, v: Value)
    requires WellFormed(m)
    ensures Step(Step(m, Unshift([v])).0, Shift) == (m, Got(v))
  {
    var r := Step(m, Unshift([v])).0;
    var q := Step(r, Shift);
    StepKeepsWellFormed(m, Unshift([v]));
    StepIsStep(m, Unshift([v]));
    StepIsStep(r, Shift);
    hide Step;
    assert At(r, 0) == Some(v);
    forall j
      ensures At(q.0, j) == At(m, j)
    {
      if j >= 0 {
        assert At(r, j + 1) == At(m, j + 1 - |[v]|);
      }
    }
    SameElements(q.0, m);
  }
}

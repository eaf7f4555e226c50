/** Dense arrays: a buffer that grows, in which a marker stands for a missing element. */
module DenseArrays {
  import opened Basics
  import opened ArraySpec

  const SPARSE_ARRAY_CUTOFF: nat := 50000

  /** `Junk` is memory that was allocated and never written. */
  datatype Slot = Junk | Hole | Elem(value: Value)

  function Elems(vs: seq<Value>): (r: seq<Slot>)
    ensures |r| == |vs| && forall i :: 0 <= i < |r| ==> r[i] == Elem(vs[i])
  {
    seq(|vs|, i requires 0 <= i < |vs| => Elem(vs[i]))
  }

  function Holes(n: nat): (r: seq<Slot>)
    ensures |r| == n && forall i :: 0 <= i < n ==> r[i] == Hole
  {
    seq(n, _ => Hole)
  }

  /** The slot at an index; beyond the end there is no element. */
  function SlotAt(s: seq<Slot>, i: int): Slot {
    if 0 <= i < |s| then s[i] else Hole
  }

  ghost predicate Written(s: seq<Slot>) {
    forall i :: 0 <= i < |s| ==> s[i] != Junk
  }

  /** The partial map that the slots below the length stand for. */
  function Abstract(s: seq<Slot>): (m: PartialArray)
    ensures WellFormed(m) && m.length == |s|
  {
    PartialArray(|s|, map i | 0 <= i < |s| && s[i].Elem? :: s[i].value)
  }

  /** What a read hands out: reading a slot that was never written has no meaning. */
  function Raw(s: Slot): Outcome
    requires s != Junk
  {
    match s
    case Hole => HoleMagic
    case Elem(v) => Got(v)
  }

  // ----- each change of the slots is the operation on the map -----

  lemma AbstractAt(s: seq<Slot>, i: int)
    ensures At(Abstract(s), i) == if SlotAt(s, i).Elem? then Some(SlotAt(s, i).value) else None
  {
  }

  /** Two descriptions of the same elements are the same array. */
  lemma AbstractIs(s: seq<Slot>, m: PartialArray)
    requires |s| == m.length
    requires forall i :: At(m, i) == if SlotAt(s, i).Elem? then Some(SlotAt(s, i).value) else None
    ensures Abstract(s) == m
  {
    forall i
      ensures At(Abstract(s), i) == At(m, i)
    {
      AbstractAt(s, i);
    }
    SameElements(Abstract(s), m);
  }

  lemma AbstractStore(s: seq<Slot>, t: seq<Slot>, i: nat, v: Value)
    requires |t| == if i < |s| then |s| else i + 1
    requires forall j :: SlotAt(t, j) == if j == i then Elem(v) else SlotAt(s, j)
    ensures Abstract(t) == Store(Abstract(s), i, v)
  {
    forall j
      ensures At(Store(Abstract(s), i, v), j) == if j == i then Some(v) else At(Abstract(s), j)
    {
    }
    forall j
      ensures At(Store(Abstract(s), i, v), j) == if SlotAt(t, j).Elem? then Some(SlotAt(t, j).value) else None
    {
      AbstractAt(s, j);
    }
    AbstractIs(t, Store(Abstract(s), i, v));
  }

  /** A store beyond the end leaves holes in between. */
  lemma Stored(was: seq<Slot>, now: seq<Slot>, i: nat, v: Value)
    requires Written(was) && |now| == (if i < |was| then |was| else i + 1) && now[i] == Elem(v)
    requires forall j :: 0 <= j < |was| && j != i ==> now[j] == was[j]
    requires forall j :: |was| <= j < i ==> now[j] == Hole
    ensures Written(now) && Abstract(now) == Store(Abstract(was), i, v) && StoredAt(was, now, i, v)
  {
    AbstractStore(was, now, i, v);
  }

  ghost predicate StoredAt(was: seq<Slot>, now: seq<Slot>, i: int, v: Value) {
    forall j :: SlotAt(now, j) == if j == i then Elem(v) else SlotAt(was, j)
  }

  lemma AbstractDelete(s: seq<Slot>, i: nat)
    ensures var m := Abstract(s);
            Abstract(if i < |s| then s[i := Hole] else s) == m.(props := m.props - {i})
  {
    var m := Abstract(s);
    var t := if i < |s| then s[i := Hole] else s;
    forall j
      ensures At(m.(props := m.props - {i}), j) == if SlotAt(t, j).Elem? then Some(SlotAt(t, j).value) else None
    {
      AbstractAt(s, j);
    }
    AbstractIs(t, m.(props := m.props - {i}));
  }

  lemma AbstractTruncate(s: seq<Slot>, n: nat)
    ensures Abstract(if n <= |s| then s[..n] else s + Holes(n - |s|)) == Truncate(Abstract(s), n)
  {
    var t := if n <= |s| then s[..n] else s + Holes(n - |s|);
    forall j
      ensures At(Truncate(Abstract(s), n), j) == if SlotAt(t, j).Elem? then Some(SlotAt(t, j).value) else None
    {
      AbstractAt(s, j);
    }
    AbstractIs(t, Truncate(Abstract(s), n));
  }

  lemma AbstractPush(s: seq<Slot>, vs: seq<Value>)
    ensures Abstract(s + Elems(vs)) == StoreAll(Abstract(s), |s|, vs)
  {
    StoreAllAt(Abstract(s), |s|, vs);
    forall j
      ensures At(StoreAll(Abstract(s), |s|, vs), j)
           == if SlotAt(s + Elems(vs), j).Elem? then Some(SlotAt(s + Elems(vs), j).value) else None
    {
      AbstractAt(s, j);
    }
    AbstractIs(s + Elems(vs), StoreAll(Abstract(s), |s|, vs));
  }

  lemma MoveAt(m: PartialArray, offset: int, j: int)
    requires 0 <= m.length + offset
    ensures At(Move(m, offset), j) == if 0 <= j < m.length + offset then At(m, j - offset) else None
  {
    assert Source(j, offset) == j - offset;
  }

  lemma AbstractShift(s: seq<Slot>)
    requires s != []
    ensures Abstract(s[1..]) == Move(Abstract(s), -1)
  {
    var m := Abstract(s);
    forall j
      ensures At(Move(m, -1), j) == if SlotAt(s[1..], j).Elem? then Some(SlotAt(s[1..], j).value) else None
    {
      AbstractAt(s, j + 1);
      MoveAt(m, -1, j);
    }
    AbstractIs(s[1..], Move(m, -1));
  }

  /** Taking the first slot off is the operation on the map, except that a hole comes out as the marker. */
  lemma ShiftStep(s: seq<Slot>)
    requires s != [] && Written(s)
    ensures s[0] != Junk && Written(s[1..]) && Step(Abstract(s), Shift).0 == Abstract(s[1..])
    ensures Raw(s[0]) == if RemovesHole(Abstract(s), Shift) then HoleMagic else Step(Abstract(s), Shift).1
  {
    AbstractShift(s);
    AbstractAt(s, 0);
  }

  lemma NothingToRemove()
    ensures Step(Abstract([]), Shift) == (Abstract([]), Got(Undefined)) && !RemovesHole(Abstract([]), Shift)
  {
  }

  lemma WrittenFront(vs: seq<Value>, s: seq<Slot>)
    requires Written(s)
    ensures Written(Elems(vs) + s)
  {
  }

  lemma AbstractUnshift(s: seq<Slot>, vs: seq<Value>)
    ensures Abstract(Elems(vs) + s) == StoreAll(Move(Abstract(s), |vs|), 0, vs)
  {
    hide Move, Abstract, StoreAll, At;
    var m := Abstract(s);
    var t := Elems(vs) + s;
    StoreAllAt(Move(m, |vs|), 0, vs);
    forall j
      ensures At(StoreAll(Move(m, |vs|), 0, vs), j)
           == if SlotAt(t, j).Elem? then Some(SlotAt(t, j).value) else None
    {
      AbstractAt(s, j - |vs|);
      MoveAt(m, |vs|, j);
    }
    AbstractIs(t, StoreAll(Move(m, |vs|), 0, vs));
  }

  /** How the results of a run stand to the map's results after one more operation. */
  lemma RunOneMore(m: PartialArray, ops: seq<Op>, i: nat, os: seq<Outcome>, o: Outcome)
    requires i < |ops| && |os| == i
    requires os == Run(m, ops[..i]).1 <==> !RunDeviates(m, ops[..i])
    requires o == Answer(Run(m, ops[..i]).0, ops[i])
    ensures Run(m, ops[..i + 1]).0 == Step(Run(m, ops[..i]).0, ops[i]).0
    ensures os + [o] == Run(m, ops[..i + 1]).1 <==> !RunDeviates(m, ops[..i + 1])
  {
    hide Step, Answer, Deviates;
    assert ops[..i + 1][..i] == ops[..i];
    var now := Run(m, ops[..i]);
    assert Run(m, ops[..i + 1]).1 == now.1 + [Step(now.0, ops[i]).1];
    assert (os + [o])[..i] == os && (now.1 + [Step(now.0, ops[i]).1])[..i] == now.1;
    assert (os + [o])[i] == o && (now.1 + [Step(now.0, ops[i]).1])[i] == Step(now.0, ops[i]).1;
    AnswersExactly(now.0, ops[i]);
  }

  /** The bytes are copied as they were before the call, overlapping or not. */
  method Memmove(dst: array<Slot>, at: nat, src: seq<Slot>)
    requires at + |src| <= dst.Length
    modifies dst
    ensures forall i :: 0 <= i < dst.Length ==>
              dst[i] == if at <= i < at + |src| then src[i - at] else old(dst[i])
  {
    forall i | 0 <= i < |src| {
      dst[at + i] := src[i];
    }
  }

  class DenseArray {
    var elements: array<Slot>
    var length: nat

    ghost predicate Valid()
      reads this, elements
    {
      length <= elements.Length && Written(elements[..length])
    }

    ghost function Contents(): seq<Slot>
      requires Valid()
      reads this, elements
    {
      elements[..length]
    }

    ghost function Model(): PartialArray
      requires Valid()
      reads this, elements
    {
      Abstract(Contents())
    }

    constructor (numElements: nat)
      ensures Valid() && fresh(elements) && Contents() == Holes(numElements)
    {
      elements := new Slot[numElements + 5](i => if i < numElements then Hole else Junk);
      length := numElements;
    }

    /** Copies the slots below the length into a larger buffer when `high` is outside the present one. */
    method MaybeRealloc(high: nat)
      requires Valid()
      modifies `elements
      ensures Valid() && Contents() == old(Contents()) && high < elements.Length
      ensures elements == old(elements) || fresh(elements)
    {
      if high >= elements.Length {
        var larger := new Slot[high + 32](_ => Junk);
        Memmove(larger, 0, elements[..length]);
        elements := larger;
      }
    }

    method GetAt(i: int) returns (v: Value)
      requires Valid()
      ensures v == Lookup(Model(), i)
    {
      AbstractAt(Contents(), i);
      if i < 0 || i >= length {
        return Undefined;
      }
      var raw := Raw(elements[i]);
      v := if raw == HoleMagic then Undefined else raw.value;
    }

    /** `found` is what the general implementation finds beyond the end. */
    method HasAt(i: nat, found: bool) returns (present: bool)
      requires Valid()
      ensures Present(present) == Answer(Model(), Has(i, found))
      ensures i < length ==> (present <==> SlotAt(Contents(), i).Elem?)
    {
      if i < length {
        return Raw(elements[i]) != HoleMagic;
      }
      return found;
    }

    method SetAt(i: nat, v: Value)
      requires Valid()
      modifies this, elements
      ensures Valid() && (elements == old(elements) || fresh(elements))
      ensures Model() == Store(old(Model()), i, v)
      ensures length == if i < old(length) then old(length) else i + 1
      ensures StoredAt(old(Contents()), Contents(), i, v)
    {
      hide Abstract, Store, Written, StoredAt;
      ghost var was := Contents();
      MaybeRealloc(i);
      FillHoles(i);
      elements[i] := Elem(v);
      length := if length > i + 1 then length else i + 1;
      Stored(was, elements[..length], i, v);
    }

    /** The slots from the end up to, but not including, `i` become holes, the last one first. */
    method FillHoles(i: nat)
      requires Valid() && i <= elements.Length
      modifies elements
      ensures elements[..length] == old(elements[..length])
      ensures forall j :: length <= j < i ==> elements[j] == Hole
    {
      var k := i - 1;
      while k >= length
        invariant length - 1 <= k || k == i - 1
        invariant k < i
        invariant forall j :: 0 <= j < length ==> elements[j] == old(elements[j])
        invariant forall j :: k < j < i && length <= j ==> elements[j] == Hole
      {
        elements[k] := Hole;
        k := k - 1;
      }
    }

    method DeleteAt(i: nat)
      requires Valid()
      modifies elements
      ensures Valid()
      ensures Model() == old(Model()).(props := old(Model()).props - {i})
      ensures forall j :: SlotAt(Contents(), j) == if j == i then Hole else SlotAt(old(Contents()), j)
    {
      AbstractDelete(Contents(), i);
      if i < length {
        elements[i] := Hole;
        assert Contents() == old(Contents())[i := Hole];
      }
    }

    method DefineAt(i: nat, v: Value)
      requires Valid()
      modifies this, elements
      ensures Valid() && (elements == old(elements) || fresh(elements))
      ensures Model() == Store(old(Model()), i, v)
    {
      hide Abstract, Store, Written, StoredAt;
      ghost var was := Contents();
      if i >= elements.Length {
        MaybeRealloc(i);
      }
      if i > length {
        FillHoles(i + 1);
      }
      elements[i] := Elem(v);
      length := if length > i + 1 then length else i + 1;
      Stored(was, elements[..length], i, v);
    }

    method ChangeLength(n: nat)
      requires Valid()
      modifies this, elements
      ensures Valid() && (elements == old(elements) || fresh(elements))
      ensures Model() == Truncate(old(Model()), n)
      ensures length == n && forall j :: 0 <= j < n ==> Contents()[j] == SlotAt(old(Contents()), j)
    {
      AbstractTruncate(Contents(), n);
      if n > elements.Length {
        MaybeRealloc(n);
      }
      if n > length {
        var k := length;
        while k < n
          invariant length <= k <= n
          invariant length == old(length) && n <= elements.Length
          invariant Valid() && Contents() == old(Contents())
          invariant elements == old(elements) || fresh(elements)
          invariant forall j :: length <= j < k ==> elements[j] == Hole
        {
          elements[k] := Hole;
          k := k + 1;
        }
      }
      length := n;
      assert Contents() == if n <= old(length) then old(Contents())[..n] else old(Contents()) + Holes(n - old(length));
    }

    method PushAll(vs: seq<Value>) returns (count: nat)
      requires Valid()
      modifies this, elements
      ensures Valid() && (elements == old(elements) || fresh(elements))
      ensures Contents() == old(Contents()) + Elems(vs)
      ensures (Model(), Count(count)) == Step(old(Model()), Push(vs)) && count == length
    {
      hide Abstract, StoreAll;
      AbstractPush(Contents(), vs);
      MaybeRealloc(length + |vs|);
      Memmove(elements, length, Elems(vs));
      length := length + |vs|;
      assert Contents() == old(Contents()) + Elems(vs);
      count := length;
    }

    /** The slot itself is handed out, so a missing last element comes back as the marker. */
    method PopLast() returns (o: Outcome)
      requires Valid()
      modifies `length
      ensures Valid()
      ensures Model() == Step(old(Model()), Pop).0
      ensures o == if RemovesHole(old(Model()), Pop) then HoleMagic else Step(old(Model()), Pop).1
    {
      if length == 0 {
        return Got(Undefined);
      }
      AbstractTruncate(Contents(), length - 1);
      AbstractAt(Contents(), length - 1);
      length := length - 1;
      assert Contents() == old(Contents())[..length];
      o := Raw(elements[length]);
    }

    method ShiftFirst() returns (o: Outcome)
      requires Valid()
      modifies this, elements
      ensures Valid() && elements == old(elements)
      ensures Model() == Step(old(Model()), Shift).0
      ensures o == if RemovesHole(old(Model()), Shift) then HoleMagic else Step(old(Model()), Shift).1
    {
      hide Abstract, Move, Written, Step, RemovesHole;
      if length == 0 {
        NothingToRemove();
        return Got(Undefined);
      }
      ghost var before := Contents();
      ShiftStep(before);
      o := Raw(elements[0]);
      var rest := elements[1..length];
      assert rest == before[1..];
      Memmove(elements, 0, rest);
      length := length - 1;
      assert elements[..length] == rest;
    }

    /** The memmove up, and the values in front. */
    method InsertFront(vs: seq<Value>)
      requires Valid()
      modifies this, elements
      ensures Valid() && (elements == old(elements) || fresh(elements))
      ensures Contents() == Elems(vs) + old(Contents()) && length == old(length) + |vs|
    {
      hide Written;
      WrittenFront(vs, Contents());
      MaybeRealloc(length + |vs|);
      Memmove(elements, |vs|, elements[..length]);
      Memmove(elements, 0, Elems(vs));
      length := length + |vs|;
      assert elements[..length] == Elems(vs) + old(Contents());
    }

    method UnshiftAll(vs: seq<Value>) returns (count: nat)
      requires Valid()
      modifies this, elements
      ensures Valid() && (elements == old(elements) || fresh(elements))
      ensures (Model(), Count(count)) == Step(old(Model()), Unshift(vs)) && count == length
    {
      hide Abstract, Move, StoreAll, Written;
      AbstractUnshift(Contents(), vs);
      InsertFront(vs);
      count := length;
    }

    /** One operation agrees with the map; its result does too, unless the operation is one that deviates. */
    method Perform(op: Op) returns (o: Outcome)
      requires Valid()
      modifies this, elements
      ensures Valid() && (elements == old(elements) || fresh(elements))
      ensures Model() == Step(old(Model()), op).0
      ensures o == Answer(old(Model()), op)
    {
      o := Done;
      match op
      case Get(i, _) => var v := GetAt(i); o := Got(v);
      case Has(i, found) => var b := HasAt(i, found); o := Present(b);
      case Set(i, v) => SetAt(i, v);
      case Delete(i) => DeleteAt(i);
      case Define(i, v) => DefineAt(i, v);
      case SetLength(n) => ChangeLength(n);
      case Push(vs) => var n := PushAll(vs); o := Count(n);
      case Pop => o := PopLast();
      case Shift => o := ShiftFirst();
      case Unshift(vs) => var n := UnshiftAll(vs); o := Count(n);
    }

    /** Any run leaves the array that the same run leaves of the map, and its results are the map's exactly
        when no operation of the run takes a missing element off an end or asks for one that is inherited. */
    method PerformAll(ops: seq<Op>) returns (os: seq<Outcome>)
      requires Valid()
      modifies this, elements
      ensures Valid() && (elements == old(elements) || fresh(elements))
      ensures Model() == Run(old(Model()), ops).0
      ensures os == Run(old(Model()), ops).1 <==> !RunDeviates(old(Model()), ops)
    {
      hide Abstract, Step, Valid;
      ghost var m := Model();
      os := [];
      var i := 0;
      while i < |ops|
        invariant 0 <= i <= |ops| && |os| == i
        invariant Valid() && (elements == old(elements) || fresh(elements))
        invariant Model() == Run(m, ops[..i]).0
        invariant os == Run(m, ops[..i]).1 <==> !RunDeviates(m, ops[..i])
      {
        var o := Perform(ops[i]);
        RunOneMore(m, ops, i, os, o);
        os := os + [o];
        i := i + 1;
      }
      assert ops[..i] == ops;
    }
  }
}

/** `Array.prototype.sort` on a dense array without holes: quicksort with the language's comparison. */
module Sorting {
  import opened ArraySpec
  import opened Quicksort

  /** What a comparator may return once it is a number. */
  datatype Number = NaN | NegInfinity | Real(r: real) | PosInfinity

  /** A comparator may remember its earlier calls: `f` is told how many comparisons went before. */
  datatype Comparefn = Default | User(f: (nat, Value, Value) -> Number)

  /** How values convert to strings, as sequences of code units. */
  type Strings = Value -> seq<nat>

  predicate StringLess(x: seq<nat>, y: seq<nat>) {
    y != [] && (x == [] || x[0] < y[0] || (x[0] == y[0] && StringLess(x[1..], y[1..])))
  }

  function SortCompare(c: Comparefn, str: Strings, t: nat, x: Value, y: Value): Number {
    if x == Undefined && y == Undefined then Real(0.0)
    else if x == Undefined then Real(1.0)
    else if y == Undefined then Real(-1.0)
    else match c
      case User(f) => (var v := f(t, x, y); if v == NaN then Real(0.0) else v)
      case Default =>
        if StringLess(str(x), str(y)) then Real(-1.0)
        else if StringLess(str(y), str(x)) then Real(1.0)
        else Real(0.0)
  }

  /** The test of the partition loop. */
  predicate BelowOne(n: Number) {
    n == NegInfinity || (n.Real? && n.r < 1.0)
  }

  /** What the standard asks of a comparator: the first argument does not sort after the second. */
  predicate AtMostZero(n: Number) {
    n == NegInfinity || (n.Real? && n.r <= 0.0)
  }

  function GoesLeft(c: Comparefn, str: Strings): Left {
    (t: nat, x, y) => BelowOne(SortCompare(c, str, t, x, y))
  }

  function Sort(c: Comparefn, str: Strings, s: seq<Value>): seq<Value> {
    QuickSort(GoesLeft(c, str), s, 0, |s| - 1, 0).s
  }

  // ----- what the result has to be, without the comparison of the code -----

  /** Dictionary order: up to the first index where they differ, or up to its end, `x` is not larger. */
  ghost predicate DictionaryOrder(x: seq<nat>, y: seq<nat>) {
    exists k :: 0 <= k <= |x| && AgreeUpTo(x, y, k) && (k == |x| || (k < |y| && x[k] < y[k]))
  }

  predicate AgreeUpTo(x: seq<nat>, y: seq<nat>, k: nat) {
    k <= |x| && k <= |y| && x[..k] == y[..k]
  }

  /** The order of section 22.1.3.24 of ECMAScript 2015: undefined last, then what the caller's comparator says
      of the two, in this order, or the dictionary order of their strings. */
  ghost predicate Precedes(c: Comparefn, str: Strings, x: Value, y: Value) {
    if x == Undefined || y == Undefined then y == Undefined
    else match c
      case User(f) => f(0, x, y) == NaN || AtMostZero(f(0, x, y))
      case Default => DictionaryOrder(str(x), str(y))
  }

  ghost predicate Ordered(c: Comparefn, str: Strings, s: seq<Value>) {
    forall i, j :: 0 <= i < j < |s| ==> Precedes(c, str, s[i], s[j])
  }

  ghost predicate Stateless(c: Comparefn) {
    c.Default? || forall t: nat, x, y :: c.f(t, x, y) == c.f(0, x, y)
  }

  /** A consistent comparison function, on defined values. */
  ghost predicate Consistent(c: Comparefn) {
    c.User? ==>
      && (forall x, y :: x != Undefined && y != Undefined ==> UserNotAfter(c, x, y) || UserNotAfter(c, y, x))
      && (forall x, y, z :: x != Undefined && y != Undefined && z != Undefined ==>
            UserNotAfter(c, x, y) && UserNotAfter(c, y, z) ==> UserNotAfter(c, x, z))
  }

  predicate UserNotAfter(c: Comparefn, x: Value, y: Value)
    requires c.User?
  {
    c.f(0, x, y) == NaN || AtMostZero(c.f(0, x, y))
  }

  /** Never strictly between zero and one, which holds of every integer-valued comparator. */
  ghost predicate NoFractions(c: Comparefn) {
    c.User? ==> forall x, y :: x != Undefined && y != Undefined && BelowOne(c.f(0, x, y)) ==> AtMostZero(c.f(0, x, y))
  }

  // ----- permutation -----

  /** For every comparator, stateful or inconsistent, the result has the same elements. */
  lemma SortPermutes(c: Comparefn, str: Strings, s: seq<Value>)
    ensures multiset(Sort(c, str, s)) == multiset(s)
  {
    QuickSortPermutes(GoesLeft(c, str), s, 0, |s| - 1, 0);
  }

  // ----- order -----

  lemma {:induction false} StringLessTransitive(x: seq<nat>, y: seq<nat>, z: seq<nat>)
    ensures StringLess(x, y) && StringLess(y, z) ==> StringLess(x, z)
    ensures !StringLess(y, x) && !StringLess(z, y) ==> !StringLess(z, x)
    ensures !(StringLess(x, y) && StringLess(y, x))
    decreases |x| + |y| + |z|
  {
    if x != [] && y != [] && z != [] {
      StringLessTransitive(x[1..], y[1..], z[1..]);
    } else if x != [] && y != [] {
      StringLessTransitive(x[1..], y[1..], z);
    }
  }

  /** The comparison of strings is dictionary order. */
  lemma {:induction false} StringLessMeans(x: seq<nat>, y: seq<nat>)
    ensures DictionaryOrder(x, y) <==> !StringLess(y, x)
    decreases |x|
  {
    if x == [] {
      assert AgreeUpTo(x, y, 0);
    } else if y == [] || x[0] != y[0] {
      if y != [] && x[0] < y[0] {
        assert AgreeUpTo(x, y, 0);
      }
      assert forall k :: k > 0 && AgreeUpTo(x, y, k) ==> x[..k][0] == y[..k][0];
    } else {
      StringLessMeans(x[1..], y[1..]);
      SameHead(x, y);
    }
  }

  lemma SameHead(x: seq<nat>, y: seq<nat>)
    requires x != [] && y != [] && x[0] == y[0]
    ensures DictionaryOrder(x, y) <==> DictionaryOrder(x[1..], y[1..])
  {
    if DictionaryOrder(x, y) {
      var k :| 0 <= k <= |x| && AgreeUpTo(x, y, k) && (k == |x| || (k < |y| && x[k] < y[k]));
      assert x[1..][..k - 1] == x[..k][1..] && y[1..][..k - 1] == y[..k][1..];
      assert AgreeUpTo(x[1..], y[1..], k - 1);
    }
    if DictionaryOrder(x[1..], y[1..]) {
      var k :| 0 <= k <= |x[1..]| && AgreeUpTo(x[1..], y[1..], k)
               && (k == |x[1..]| || (k < |y[1..]| && x[1..][k] < y[1..][k]));
      assert x[..k + 1] == [x[0]] + x[1..][..k] && y[..k + 1] == [y[0]] + y[1..][..k];
      assert AgreeUpTo(x, y, k + 1);
    }
  }

  lemma OrderIsTotal(c: Comparefn, str: Strings)
    requires Consistent(c)
    ensures forall x, y :: Precedes(c, str, x, y) || Precedes(c, str, y, x)
    ensures forall x, y, z :: Precedes(c, str, x, y) && Precedes(c, str, y, z) ==> Precedes(c, str, x, z)
  {
    hide DictionaryOrder, StringLess;
    forall x, y
      ensures Precedes(c, str, x, y) || Precedes(c, str, y, x)
    {
      StringLessTransitive(str(x), str(y), str(x));
      StringLessMeans(str(x), str(y));
      StringLessMeans(str(y), str(x));
      if c.User? && x != Undefined && y != Undefined {
        assert UserNotAfter(c, x, y) || UserNotAfter(c, y, x);
      }
    }
    forall x, y, z | Precedes(c, str, x, y) && Precedes(c, str, y, z)
      ensures Precedes(c, str, x, z)
    {
      StringLessTransitive(str(x), str(y), str(z));
      StringLessMeans(str(x), str(y));
      StringLessMeans(str(y), str(z));
      StringLessMeans(str(x), str(z));
      if c.User? && x != Undefined && z != Undefined {
        assert UserNotAfter(c, x, y) && UserNotAfter(c, y, z);
      }
    }
  }

  /** The test of the loop fits the order. */
  lemma TestFits(c: Comparefn, str: Strings, t: nat, x: Value, y: Value)
    requires Stateless(c) && Consistent(c) && NoFractions(c)
    ensures if GoesLeft(c, str)(t, x, y) then Precedes(c, str, x, y) else Precedes(c, str, y, x)
  {
    hide DictionaryOrder, StringLess;
    if x != Undefined && y != Undefined {
      match c
      case User(f) =>
        assert f(t, x, y) == f(0, x, y);
        assert UserNotAfter(c, x, y) || UserNotAfter(c, y, x);
      case Default =>
        StringLessTransitive(str(x), str(y), str(x));
        StringLessMeans(str(x), str(y));
        StringLessMeans(str(y), str(x));
    }
  }

  /** With a consistent comparator that never answers between zero and one, and with none at all, the
      result is in order. */
  lemma SortSorts(c: Comparefn, str: Strings, s: seq<Value>)
    requires Stateless(c) && Consistent(c) && NoFractions(c)
    ensures Ordered(c, str, Sort(c, str, s))
  {
    ghost var leq := (x, y) => Precedes(c, str, x, y);
    forall t: nat, x, y
      ensures if GoesLeft(c, str)(t, x, y) then leq(x, y) else leq(y, x)
    {
      TestFits(c, str, t, x, y);
    }
    OrderIsTotal(c, str);
    QuickSortSorts(GoesLeft(c, str), leq, s, 0, |s| - 1, 0);
  }

  /** A fraction between zero and one makes the partition loop take the larger of two elements for the
      smaller one. */
  lemma FractionMisplaces(c: Comparefn, str: Strings, x: Value, y: Value)
    requires Stateless(c) && c.User? && x != Undefined && y != Undefined
    requires BelowOne(c.f(0, x, y)) && !AtMostZero(c.f(0, x, y))
    ensures Sort(c, str, [y, x]) == [x, y] && !Ordered(c, str, [x, y])
  {
    var s := [y, x];
    var l := GoesLeft(c, str);
    assert Swap(s, 0, 1) == [x, y];
    assert Swap([x, y], 0, 0) == [x, y] && Swap([x, y], 1, 1) == [x, y];
    assert l(0, x, y);
    assert Sweep(l, [x, y], y, 1, 1, 1, 1) == Partitioned([x, y], 1, 1);
    assert Sweep(l, [x, y], y, 0, 1, 0, 0) == Partitioned([x, y], 1, 1);
    assert Partition(l, s, 0, 1, 0) == Partitioned([x, y], 1, 1);
    QuickSortUnfolds(l, s, 0, 1, 0);
    assert QuickSort(l, [x, y], 0, 0, 1) == Sorted([x, y], 1);
    assert QuickSort(l, [x, y], 2, 1, 1) == Sorted([x, y], 1);
    assert !Precedes(c, str, [x, y][0], [x, y][1]);
  }

  /** A consistent comparator has every array sorted exactly when it never answers between zero and one. */
  lemma SortsExactly(c: Comparefn, str: Strings)
    requires Stateless(c) && Consistent(c)
    ensures (forall s :: Ordered(c, str, Sort(c, str, s))) <==> NoFractions(c)
  {
    if NoFractions(c) {
      forall s
        ensures Ordered(c, str, Sort(c, str, s))
      {
        SortSorts(c, str, s);
      }
    } else {
      var x, y :| x != Undefined && y != Undefined && BelowOne(c.f(0, x, y)) && !AtMostZero(c.f(0, x, y));
      FractionMisplaces(c, str, x, y);
      assert !Ordered(c, str, Sort(c, str, [y, x]));
    }
  }

  /** For every comparator, stateful or inconsistent, undefined values come last. */
  lemma UndefinedLast(c: Comparefn, str: Strings, s: seq<Value>, i: nat, j: nat)
    requires i < j < |s|
    ensures var r := Sort(c, str, s); |r| == |s| && (r[i] == Undefined ==> r[j] == Undefined)
  {
    var leq := (x: Value, y: Value) => x == Undefined ==> y == Undefined;
    assert TotalPreorder(leq);
    assert FitsOrder(GoesLeft(c, str), leq);
    QuickSortSorts(GoesLeft(c, str), leq, s, 0, |s| - 1, 0);
    assert leq(Sort(c, str, s)[i], Sort(c, str, s)[j]);
  }

  method SortDense(c: Comparefn, str: Strings, a: array<Value>)
    modifies a
    ensures a[..] == Sort(c, str, old(a[..]))
    ensures multiset(a[..]) == multiset(old(a[..]))
    ensures Stateless(c) && Consistent(c) && NoFractions(c) ==> Ordered(c, str, a[..])
    ensures forall i, j :: 0 <= i < j < a.Length && a[i] == Undefined ==> a[j] == Undefined
  {
    hide QuickSort, Ordered, Stateless, Consistent, NoFractions, GoesLeft;
    SortPermutes(c, str, a[..]);
    if Stateless(c) && Consistent(c) && NoFractions(c) {
      SortSorts(c, str, a[..]);
    }
    UndefinedEnds(c, str, a[..]);
    var _ := QuickSortDense(GoesLeft(c, str), a, 0, a.Length - 1, 0);
  }

  lemma UndefinedEnds(c: Comparefn, str: Strings, s: seq<Value>)
    ensures var r := Sort(c, str, s);
            |r| == |s| && forall i, j :: 0 <= i < j < |s| && r[i] == Undefined ==> r[j] == Undefined
  {
    hide Sort;
    forall i, j | 0 <= i < j < |s|
      ensures var r := Sort(c, str, s); |r| == |s| && (r[i] == Undefined ==> r[j] == Undefined)
    {
      UndefinedLast(c, str, s, i, j);
    }
    SameLength(c, str, s);
  }

  lemma SameLength(c: Comparefn, str: Strings, s: seq<Value>)
    ensures |Sort(c, str, s)| == |s|
  {
  }
}

/** The in-place quicksort of dense arrays, first for any way of answering its comparisons: `left` may give
    a different answer each time it is asked, so its first argument numbers the questions.
 */
module Quicksort {
  import opened ArraySpec

  type Left = (nat, Value, Value) -> bool

  datatype Partitioned = Partitioned(s: seq<Value>, at: nat, asked: nat)

  datatype Sorted = Sorted(s: seq<Value>, asked: nat)

  function Swap(s: seq<Value>, i: nat, j: nat): (r: seq<Value>)
    requires i < |s| && j < |s|
    ensures |r| == |s| && r[i] == s[j] && r[j] == s[i]
    ensures forall k :: 0 <= k < |s| && k != i && k != j ==> r[k] == s[k]
  {
    s[i := s[j]][j := s[i]]
  }

  /** Elements of `[i, high)` that go left of the pivot are swapped down to the store index. */
  function Sweep(left: Left, s: seq<Value>, pivot: Value, i: nat, high: nat, store: nat, asked: nat): (r: Partitioned)
    requires store <= i <= high < |s|
    ensures |r.s| == |s| && store <= r.at <= high && r.asked == asked + (high - i)
    decreases high - i
  {
    if i == high then Partitioned(s, store, asked)
    else if left(asked, s[i], pivot) then Sweep(left, Swap(s, i, store), pivot, i + 1, high, store + 1, asked + 1)
    else Sweep(left, s, pivot, i + 1, high, store, asked + 1)
  }

  function Partition(left: Left, s: seq<Value>, low: nat, high: nat, asked: nat): (r: Partitioned)
    requires low <= high < |s|
    ensures |r.s| == |s| && low <= r.at <= high && r.asked == asked + (high - low)
  {
    var pivotIndex := low + (high - low) / 2;
    var p := Sweep(left, Swap(s, pivotIndex, high), s[pivotIndex], low, high, low, asked);
    p.(s := Swap(p.s, p.at, high))
  }

  function QuickSort(left: Left, s: seq<Value>, low: int, high: int, asked: nat): (r: Sorted)
    requires 0 <= low && high < |s|
    ensures |r.s| == |s|
    decreases high - low
  {
    if low >= high then Sorted(s, asked) else
      var p := Partition(left, s, low, high, asked);
      var below := QuickSort(left, p.s, low, p.at - 1, p.asked);
      QuickSort(left, below.s, p.at + 1, high, below.asked)
  }

  lemma QuickSortUnfolds(left: Left, s: seq<Value>, low: int, high: int, asked: nat)
    requires 0 <= low && high < |s|
    ensures low >= high ==> QuickSort(left, s, low, high, asked) == Sorted(s, asked)
    ensures low < high ==>
              var p := Partition(left, s, low, high, asked);
              var below := QuickSort(left, p.s, low, p.at - 1, p.asked);
              QuickSort(left, s, low, high, asked) == QuickSort(left, below.s, p.at + 1, high, below.asked)
  {
  }

  // ----- nothing is lost, whatever the answers -----

  /** A permutation that touches no index outside `[low, high]`. */
  ghost predicate Permuted(s: seq<Value>, r: seq<Value>, low: int, high: int) {
    && |s| == |r| && multiset(s) == multiset(r)
    && forall k :: 0 <= k < |s| && (k < low || high < k) ==> s[k] == r[k]
  }

  lemma PermutedSelf(s: seq<Value>, low: int, high: int)
    ensures Permuted(s, s, low, high)
  {
  }

  lemma PermutedTrans(s: seq<Value>, t: seq<Value>, r: seq<Value>, low: int, high: int)
    requires Permuted(s, t, low, high) && Permuted(t, r, low, high)
    ensures Permuted(s, r, low, high)
  {
  }

  lemma PermutedInTurn(s: seq<Value>, p: seq<Value>, b: seq<Value>, r: seq<Value>, low: int, at: int, high: int)
    requires Permuted(s, p, low, high) && Permuted(p, b, low, at - 1) && Permuted(b, r, at + 1, high)
    requires low <= at <= high
    ensures Permuted(s, r, low, high)
  {
  }

  lemma SwapPermutes(s: seq<Value>, i: nat, j: nat, low: int, high: int)
    requires i < |s| && j < |s| && low <= i <= high && low <= j <= high
    ensures Permuted(s, Swap(s, i, j), low, high)
  {
  }

  lemma {:induction false} SweepPermutes(left: Left, s: seq<Value>, pivot: Value, i: nat, high: nat, store: nat,
                                         asked: nat, low: nat)
    requires low <= store <= i <= high < |s|
    ensures var r := Sweep(left, s, pivot, i, high, store, asked);
            Permuted(s, r.s, low, high) && r.s[high] == s[high]
    decreases high - i
  {
    PermutedSelf(s, low, high);
    hide Permuted, Swap;
    if i == high {
    } else if left(asked, s[i], pivot) {
      var t := Swap(s, i, store);
      SwapPermutes(s, i, store, low, high);
      SweepPermutes(left, t, pivot, i + 1, high, store + 1, asked + 1, low);
      PermutedTrans(s, t, Sweep(left, t, pivot, i + 1, high, store + 1, asked + 1).s, low, high);
    } else {
      SweepPermutes(left, s, pivot, i + 1, high, store, asked + 1, low);
    }
  }

  lemma PartitionPermutes(left: Left, s: seq<Value>, low: nat, high: nat, asked: nat)
    requires low <= high < |s|
    ensures var r := Partition(left, s, low, high, asked);
            Permuted(s, r.s, low, high) && r.s[r.at] == s[low + (high - low) / 2]
  {
    var m := low + (high - low) / 2;
    var s1 := Swap(s, m, high);
    SwapPermutes(s, m, high, low, high);
    SweepPermutes(left, s1, s[m], low, high, low, asked, low);
    var p := Sweep(left, s1, s[m], low, high, low, asked);
    SwapPermutes(p.s, p.at, high, low, high);
    hide Permuted, Sweep;
    PermutedTrans(s, s1, p.s, low, high);
    PermutedTrans(s, p.s, Swap(p.s, p.at, high), low, high);
  }

  /** Whatever the comparator answers, sorting ends with the same elements in some order. */
  lemma {:induction false} QuickSortPermutes(left: Left, s: seq<Value>, low: int, high: int, asked: nat)
    requires 0 <= low && high < |s|
    ensures Permuted(s, QuickSort(left, s, low, high, asked).s, low, high)
    decreases high - low
  {
    hide QuickSort, Partition;
    QuickSortUnfolds(left, s, low, high, asked);
    if low < high {
      hide Permuted;
      var p := Partition(left, s, low, high, asked);
      PartitionPermutes(left, s, low, high, asked);
      QuickSortPermutes(left, p.s, low, p.at - 1, p.asked);
      var below := QuickSort(left, p.s, low, p.at - 1, p.asked);
      QuickSortPermutes(left, below.s, p.at + 1, high, below.asked);
      var above := QuickSort(left, below.s, p.at + 1, high, below.asked);
      PermutedInTurn(s, p.s, below.s, above.s, low, p.at, high);
    }
  }

  lemma MiddleMember(a: seq<Value>, b: seq<Value>, c: seq<Value>, d: seq<Value>, x: Value)
    requires multiset(a + b + d) == multiset(a + c + d) && x in c
    ensures x in b
  {
    assert multiset(a + b + d)[x] == multiset(a)[x] + multiset(b)[x] + multiset(d)[x];
    assert multiset(a + c + d)[x] == multiset(a)[x] + multiset(c)[x] + multiset(d)[x];
    assert x in multiset(c);
    assert x in multiset(b);
  }

  lemma RangeMember(s: seq<Value>, r: seq<Value>, low: nat, high: int, k: nat) returns (j: nat)
    requires Permuted(s, r, low, high) && low <= k <= high < |s|
    ensures low <= j <= high && r[k] == s[j]
  {
    var a, b, c, d := s[..low], s[low..high + 1], r[low..high + 1], s[high + 1..];
    assert s == a + b + d;
    assert r == a + c + d by {
      assert a == r[..low] && d == r[high + 1..];
    }
    assert c[k - low] == r[k];
    MiddleMember(a, b, c, d, r[k]);
    var i :| 0 <= i < |b| && b[i] == r[k];
    j := low + i;
  }

  // ----- in order, when the answers fit an order -----

  ghost predicate TotalPreorder(leq: (Value, Value) -> bool) {
    && (forall x, y :: leq(x, y) || leq(y, x))
    && (forall x, y, z :: leq(x, y) && leq(y, z) ==> leq(x, z))
  }

  /** What goes left does not come after the pivot, and the pivot does not come after what does not. The
      answers on elements that are level may differ each time. */
  ghost predicate FitsOrder(left: Left, leq: (Value, Value) -> bool) {
    forall t: nat, x, y :: if left(t, x, y) then leq(x, y) else leq(y, x)
  }

  ghost predicate InOrder(leq: (Value, Value) -> bool, s: seq<Value>, low: int, high: int)
    requires 0 <= low && high < |s|
  {
    forall i, j :: low <= i < j <= high ==> leq(s[i], s[j])
  }

  ghost predicate Split(leq: (Value, Value) -> bool, s: seq<Value>, pivot: Value, low: int, at: int, end: int)
    requires 0 <= low <= at <= end <= |s|
  {
    && (forall k :: low <= k < at ==> leq(s[k], pivot))
    && (forall k :: at <= k < end ==> leq(pivot, s[k]))
  }

  lemma {:induction false} SweepSplits(left: Left, leq: (Value, Value) -> bool, s: seq<Value>, pivot: Value, low: nat,
                                       i: nat, high: nat, store: nat, asked: nat)
    requires FitsOrder(left, leq) && low <= store <= i <= high < |s|
    requires Split(leq, s, pivot, low, store, i)
    ensures var r := Sweep(left, s, pivot, i, high, store, asked); Split(leq, r.s, pivot, low, r.at, high)
    decreases high - i
  {
    if i == high {
    } else if left(asked, s[i], pivot) {
      SweepSplits(left, leq, Swap(s, i, store), pivot, low, i + 1, high, store + 1, asked + 1);
    } else {
      SweepSplits(left, leq, s, pivot, low, i + 1, high, store, asked + 1);
    }
  }

  /** Before the pivot's final place nothing comes after it, behind it nothing comes before it. */
  lemma PartitionSplits(left: Left, leq: (Value, Value) -> bool, s: seq<Value>, low: nat, high: nat, asked: nat)
    requires FitsOrder(left, leq) && low <= high < |s|
    ensures var r := Partition(left, s, low, high, asked);
            && (forall k :: low <= k < r.at ==> leq(r.s[k], r.s[r.at]))
            && (forall k :: r.at < k <= high ==> leq(r.s[r.at], r.s[k]))
  {
    var m := low + (high - low) / 2;
    var s1 := Swap(s, m, high);
    SweepSplits(left, leq, s1, s[m], low, low, high, low, asked);
    SweepPermutes(left, s1, s[m], low, high, low, asked, low);
  }

  /** The range is in order for every total preorder that the answers fit. */
  lemma {:induction false} QuickSortSorts(left: Left, leq: (Value, Value) -> bool, s: seq<Value>, low: int, high: int,
                                          asked: nat)
    requires TotalPreorder(leq) && FitsOrder(left, leq) && 0 <= low && high < |s|
    ensures InOrder(leq, QuickSort(left, s, low, high, asked).s, low, high)
    decreases high - low
  {
    hide QuickSort, Partition, Permuted, FitsOrder;
    QuickSortUnfolds(left, s, low, high, asked);
    if low < high {
      var p := Partition(left, s, low, high, asked);
      PartitionSplits(left, leq, s, low, high, asked);
      var below := QuickSort(left, p.s, low, p.at - 1, p.asked);
      QuickSortSorts(left, leq, p.s, low, p.at - 1, p.asked);
      var above := QuickSort(left, below.s, p.at + 1, high, below.asked);
      QuickSortSorts(left, leq, below.s, p.at + 1, high, below.asked);
      QuickSortPermutes(left, p.s, low, p.at - 1, p.asked);
      QuickSortPermutes(left, below.s, p.at + 1, high, below.asked);
      Joined(leq, p.s, below.s, above.s, low, p.at, high);
    }
  }

  lemma Joined(leq: (Value, Value) -> bool, s: seq<Value>, b: seq<Value>, r: seq<Value>, low: nat, at: nat, high: nat)
    requires TotalPreorder(leq) && low <= at <= high < |s|
    requires forall k :: low <= k < at ==> leq(s[k], s[at])
    requires forall k :: at < k <= high ==> leq(s[at], s[k])
    requires Permuted(s, b, low, at - 1) && Permuted(b, r, at + 1, high)
    requires InOrder(leq, b, low, at - 1) && InOrder(leq, r, at + 1, high)
    ensures InOrder(leq, r, low, high)
  {
    forall k | low <= k < at
      ensures leq(r[k], r[at])
    {
      var j := RangeMember(s, b, low, at - 1, k);
    }
    forall k | at < k <= high
      ensures leq(r[at], r[k])
    {
      var j := RangeMember(b, r, at + 1, high, k);
      assert leq(s[at], s[j]);
    }
    forall i, j | low <= i < j <= high
      ensures leq(r[i], r[j])
    {
      if i < at < j {
        assert leq(r[i], r[at]) && leq(r[at], r[j]);
      } else if j < at {
        assert leq(b[i], b[j]);
      }
    }
  }

  // ----- the loops themselves -----

  method SwapDense(a: array<Value>, i: nat, j: nat)
    requires i < a.Length && j < a.Length
    modifies a
    ensures a[..] == Swap(old(a[..]), i, j)
  {
    var tmp := a[i];
    a[i] := a[j];
    a[j] := tmp;
  }

  method PartitionDense(left: Left, a: array<Value>, low: nat, high: nat, asked: nat) returns (store: nat, now: nat)
    requires low <= high < a.Length
    modifies a
    ensures Partitioned(a[..], store, now) == Partition(left, old(a[..]), low, high, asked)
  {
    var pivotIndex := low + (high - low) / 2;
    var pivot := a[pivotIndex];
    SwapDense(a, pivotIndex, high);
    ghost var all := Sweep(left, a[..], pivot, low, high, low, asked);
    store, now := low, asked;
    for i := low to high
      invariant low <= store <= i
      invariant all == Sweep(left, a[..], pivot, i, high, store, now)
    {
      var goesLeft := left(now, a[i], pivot);
      now := now + 1;
      if goesLeft {
        SwapDense(a, i, store);
        store := store + 1;
      }
    }
    SwapDense(a, store, high);
  }

  /** The array ends up holding what the function says, so every theorem about it holds of the array. */
  method QuickSortDense(left: Left, a: array<Value>, low: int, high: int, asked: nat) returns (now: nat)
    requires 0 <= low && high < a.Length
    modifies a
    ensures Sorted(a[..], now) == QuickSort(left, old(a[..]), low, high, asked)
    decreases high - low
  {
    hide QuickSort, Partition;
    QuickSortUnfolds(left, a[..], low, high, asked);
    if low >= high {
      return asked;
    }
    var p: int;
    p, now := PartitionDense(left, a, low, high, asked);
    now := QuickSortDense(left, a, low, p - 1, now);
    now := QuickSortDense(left, a, p + 1, high, now);
  }
}

/** `Array.prototype.splice` and `Array.prototype.reverse` on a dense array, one element at a time through
    the array's own operations.
 */
module Splicing {
  import opened ArraySpec
  import opened DenseArrays

  /** The arguments as integers; how many there are matters. */
  datatype Arguments = NoArguments | StartOnly(start: int) | Full(start: int, deleteCount: int, items: seq<Value>)

  const TWO31 := 0x8000_0000
  const TWO32 := 0x1_0000_0000

  /** What is left of a 64-bit integer in an `int` parameter. */
  function Int32(x: int): (r: int)
    ensures -TWO31 <= r < TWO31 && (r - x) % TWO32 == 0
    ensures -TWO31 <= x < TWO31 ==> r == x
  {
    (x + TWO31) % TWO32 - TWO31
  }

  function Max(a: int, b: int): int {
    if Int32(a) > Int32(b) then Int32(a) else Int32(b)
  }

  function Min(a: int, b: int): int {
    if Int32(a) > Int32(b) then Int32(b) else Int32(a)
  }

  function ActualStart(len: int, relativeStart: int): int {
    if relativeStart < 0 then Max(len + relativeStart, 0) else Min(relativeStart, len)
  }

  function ActualDeleteCount(len: int, start: int, args: Arguments): int {
    match args
    case NoArguments => 0
    case StartOnly(_) => len - start
    case Full(_, dc, _) => Min(Max(dc, 0), len - start)
  }

  /** The same three numbers over unbounded integers, as section 22.1.3.25 of ECMAScript 2015 has them. */
  function Clamp(x: int, lo: int, hi: int): int
    requires lo <= hi
  {
    if x < lo then lo else if x > hi then hi else x
  }

  function StandardStart(len: nat, relativeStart: int): int {
    Clamp(if relativeStart < 0 then len + relativeStart else relativeStart, 0, len)
  }

  function StandardDeleteCount(len: nat, start: nat, args: Arguments): int
    requires start <= len
  {
    match args
    case NoArguments => 0
    case StartOnly(_) => len - start
    case Full(_, dc, _) => Clamp(dc, 0, len - start)
  }

  /** The start index is the standard's exactly when the narrowing keeps it on the same side of its bound. */
  lemma StartExactly(len: nat, r: int)
    requires len < TWO31
    ensures ActualStart(len, r) == StandardStart(len, r) <==>
            if r < 0 then len + r >= 0 || Int32(len + r) <= 0 else r <= len || Int32(r) >= len
    ensures -TWO31 <= r < TWO31 ==> ActualStart(len, r) == StandardStart(len, r)
  {
  }

  /** And the start index is inside the array exactly when the narrowing does not carry it across. */
  lemma StartInsideExactly(len: nat, r: int)
    requires len < TWO31
    ensures 0 <= ActualStart(len, r) <= len <==>
            if r < 0 then len + r >= 0 || Int32(len + r) <= len else r <= len || Int32(r) >= 0
    ensures -TWO31 <= r < TWO31 ==> 0 <= ActualStart(len, r) <= len
  {
  }

  /** So is the number of elements to delete. */
  lemma DeleteCountExactly(len: nat, start: nat, args: Arguments)
    requires start <= len < TWO31
    ensures ActualDeleteCount(len, start, args) == StandardDeleteCount(len, start, args) <==>
            !args.Full? || start == len ||
            (if args.deleteCount < 0 then Int32(args.deleteCount) <= 0
             else args.deleteCount <= len - start || Int32(args.deleteCount) >= len - start)
    ensures 0 <= ActualDeleteCount(len, start, args) <= len - start
  {
  }

  /** Deleted elements as they come out of a new array that nobody filled: a missing element leaves memory
      that was never written. */
  function Unfilled(s: seq<Slot>): (r: seq<Slot>)
    ensures |r| == |s| && forall i :: 0 <= i < |r| ==> r[i] == if s[i].Elem? then s[i] else Junk
  {
    seq(|s|, i requires 0 <= i < |s| => if s[i].Elem? then s[i] else Junk)
  }

  lemma UnfilledExactly(s: seq<Slot>)
    requires Written(s)
    ensures Unfilled(s) == s <==> Hole !in s
  {
    forall i | 0 <= i < |s|
      ensures Unfilled(s)[i] == s[i] <==> s[i] != Hole
    {
    }
  }

  /** The part before the gap is where it was, the part behind it has moved from `d` to `n` places on. */
  ghost predicate Moved(was: seq<Slot>, now: seq<Slot>, start: nat, d: nat, n: nat) {
    && (forall j :: 0 <= j < start ==> SlotAt(now, j) == SlotAt(was, j))
    && (forall j :: start + n <= j < |was| - d + n ==> SlotAt(now, j) == SlotAt(was, j - n + d))
  }

  ghost predicate Placed(was: seq<Slot>, now: seq<Slot>, start: nat, items: seq<Value>) {
    forall j :: SlotAt(now, j) == if start <= j < start + |items| then Elem(items[j - start]) else SlotAt(was, j)
  }

  /** The three phases together: slots moved, items placed, length set. */
  lemma Assembled(was: seq<Slot>, moved: seq<Slot>, placed: seq<Slot>, now: seq<Slot>, start: nat, d: nat,
                  items: seq<Value>)
    requires start + d <= |was| && |now| == |was| - d + |items|
    requires Moved(was, moved, start, d, |items|)
    requires Placed(moved, placed, start, items)
    requires forall j :: 0 <= j < |now| ==> now[j] == SlotAt(placed, j)
    ensures now == was[..start] + Elems(items) + was[start + d..]
  {
    var want := was[..start] + Elems(items) + was[start + d..];
    forall j | 0 <= j < |now|
      ensures now[j] == want[j]
    {
      assert now[j] == SlotAt(placed, j);
      if j >= start + |items| {
        assert SlotAt(moved, j) == SlotAt(was, j - |items| + d);
        assert want[j] == was[start + d..][j - (start + |items|)];
      }
    }
  }

  ghost predicate Carried(was: seq<Slot>, now: seq<Slot>, from: nat, to: nat) {
    forall j :: SlotAt(now, j) == SlotAt(was, if j == to then from else j)
  }

  ghost predicate Exchanged(was: seq<Slot>, now: seq<Slot>, x: nat, y: nat) {
    forall j :: SlotAt(now, j) == SlotAt(was, if j == x then y else if j == y then x else j)
  }

  /** One step of both shifting loops: the slot at `from`, present or not, is carried to `to`. */
  method MoveSlot(o: DenseArray, from: nat, to: nat)
    requires o.Valid() && from < o.length
    modifies o, o.elements
    ensures o.Valid() && (o.elements == old(o.elements) || fresh(o.elements))
    ensures o.length == (if to < old(o.length) || !SlotAt(old(o.Contents()), from).Elem? then old(o.length) else to + 1)
    ensures Carried(old(o.Contents()), o.Contents(), from, to)
  {
    assert SlotAt(o.Contents(), from) != Junk;
    var present := o.HasAt(from, false);
    if present {
      AbstractAt(o.Contents(), from);
      var v := o.GetAt(from);
      o.SetAt(to, v);
    } else {
      o.DeleteAt(to);
    }
  }

  /** Part of the way through closing the gap: everything up to `k` has moved, everything behind is in place. */
  ghost predicate Closing(was: seq<Slot>, now: seq<Slot>, start: nat, d: nat, n: nat, k: nat) {
    && (forall j :: 0 <= j < start ==> SlotAt(now, j) == SlotAt(was, j))
    && (forall j :: start + n <= j < k + n ==> SlotAt(now, j) == SlotAt(was, j - n + d))
    && (forall j :: k + d <= j ==> SlotAt(now, j) == SlotAt(was, j))
  }

  lemma ClosingStep(was: seq<Slot>, s: seq<Slot>, t: seq<Slot>, start: nat, d: nat, n: nat, k: nat)
    requires Closing(was, s, start, d, n, k) && n < d && start <= k
    requires Carried(s, t, k + d, k + n)
    ensures Closing(was, t, start, d, n, k + 1)
  {
    hide SlotAt;
  }

  /** Towards the front, then the slots left over at the end become holes. */
  method CloseGap(o: DenseArray, start: nat, d: nat, n: nat)
    requires o.Valid() && n < d && start + d <= o.length
    modifies o, o.elements
    ensures o.Valid() && o.length == old(o.length) && (o.elements == old(o.elements) || fresh(o.elements))
    ensures Moved(old(o.Contents()), o.Contents(), start, d, n)
  {
    ghost var was := o.Contents();
    var len := o.length;
    var k := start;
    while k < len - d
      invariant start <= k <= len - d
      invariant o.Valid() && o.length == len && (o.elements == old(o.elements) || fresh(o.elements))
      invariant Closing(was, o.Contents(), start, d, n, k)
    {
      hide Closing, Carried, SlotAt, Written;
      ghost var before := o.Contents();
      MoveSlot(o, k + d, k + n);
      ClosingStep(was, before, o.Contents(), start, d, n, k);
      k := k + 1;
    }
    k := len;
    while k > len - d + n
      invariant len - d + n <= k <= len
      invariant o.Valid() && o.length == len && (o.elements == old(o.elements) || fresh(o.elements))
      invariant Moved(was, o.Contents(), start, d, n)
    {
      o.DeleteAt(k - 1);
      k := k - 1;
    }
  }

  /** Part of the way through opening the gap, from the back. */
  ghost predicate Opening(was: seq<Slot>, now: seq<Slot>, d: nat, n: nat, k: nat) {
    && (forall j :: 0 <= j < k + d ==> SlotAt(now, j) == SlotAt(was, j))
    && (forall j :: k + n <= j < |was| - d + n ==> SlotAt(now, j) == SlotAt(was, j - n + d))
  }

  lemma OpeningStep(was: seq<Slot>, s: seq<Slot>, t: seq<Slot>, d: nat, n: nat, k: nat)
    requires Opening(was, s, d, n, k) && d <= n && 0 < k
    requires Carried(s, t, k + d - 1, k + n - 1)
    ensures Opening(was, t, d, n, k - 1)
  {
    hide SlotAt;
  }

  lemma OpeningEnds(was: seq<Slot>, now: seq<Slot>, start: nat, d: nat, n: nat)
    requires Opening(was, now, d, n, start)
    ensures Moved(was, now, start, d, n)
  {
    hide SlotAt;
  }

  lemma OpeningBegins(was: seq<Slot>, d: nat, n: nat)
    requires d <= |was|
    ensures Opening(was, was, d, n, |was| - d)
  {
    hide SlotAt;
  }

  /** Towards the back, last element first, growing the array where an element lands beyond its end. */
  method OpenGap(o: DenseArray, start: nat, d: nat, n: nat)
    requires o.Valid() && d <= n && start + d <= o.length
    modifies o, o.elements
    ensures o.Valid() && old(o.length) <= o.length <= old(o.length) - d + n
    ensures o.elements == old(o.elements) || fresh(o.elements)
    ensures Moved(old(o.Contents()), o.Contents(), start, d, n)
  {
    hide Opening, Moved, Carried, SlotAt, Written;
    ghost var was := o.Contents();
    OpeningBegins(was, d, n);
    var len := o.length;
    var k := len - d;
    while k > start
      invariant start <= k <= len - d
      invariant o.Valid() && len <= o.length <= len - d + n
      invariant o.elements == old(o.elements) || fresh(o.elements)
      invariant Opening(was, o.Contents(), d, n, k)
    {
      ghost var before := o.Contents();
      MoveSlot(o, k + d - 1, k + n - 1);
      OpeningStep(was, before, o.Contents(), d, n, k);
      k := k - 1;
    }
    OpeningEnds(was, o.Contents(), start, d, n);
  }

  method PlaceItems(o: DenseArray, start: nat, items: seq<Value>)
    requires o.Valid() && start <= o.length
    modifies o, o.elements
    ensures o.Valid() && (o.elements == old(o.elements) || fresh(o.elements))
    ensures Placed(old(o.Contents()), o.Contents(), start, items)
  {
    ghost var was := o.Contents();
    var i := 0;
    while i < |items|
      invariant 0 <= i <= |items|
      invariant o.Valid() && (o.elements == old(o.elements) || fresh(o.elements))
      invariant Placed(was, o.Contents(), start, items[..i])
    {
      o.SetAt(start + i, items[i]);
      i := i + 1;
    }
  }

  /** The elements to delete, copied before anything moves. */
  method CopyOut(o: DenseArray, start: nat, d: nat) returns (deleted: array<Slot>)
    requires o.Valid() && start + d <= o.length
    ensures fresh(deleted) && deleted[..] == Unfilled(o.Contents()[start..start + d])
  {
    deleted := new Slot[d](_ => Junk);
    var k := 0;
    while k < d
      invariant 0 <= k <= d && o.Valid()
      invariant forall j :: 0 <= j < d ==>
                  deleted[j] == if j < k && o.Contents()[start + j].Elem? then o.Contents()[start + j] else Junk
    {
      var present := o.HasAt(start + k, false);
      if present {
        AbstractAt(o.Contents(), start + k);
        var v := o.GetAt(start + k);
        deleted[k] := Elem(v);
      }
      k := k + 1;
    }
  }

  lemma WrittenPart(s: seq<Slot>, i: nat, j: nat)
    requires Written(s) && i <= j <= |s|
    ensures Written(s[i..j])
  {
  }

  /** Steps 20 to 25 of splice: close or open the gap, put the items into it and set the length. */
  method ReplaceRange(o: DenseArray, start: nat, d: nat, items: seq<Value>)
    requires o.Valid() && start + d <= o.length
    modifies o, o.elements
    ensures o.Valid() && (o.elements == old(o.elements) || fresh(o.elements))
    ensures o.Contents() == old(o.Contents())[..start] + Elems(items) + old(o.Contents())[start + d..]
  {
    hide Moved, Placed, SlotAt, Written, Abstract, Elems;
    ghost var was := o.Contents();
    var len := o.length;
    if |items| < d {
      CloseGap(o, start, d, |items|);
    } else {
      OpenGap(o, start, d, |items|);
    }
    ghost var moved := o.Contents();
    PlaceItems(o, start, items);
    ghost var placed := o.Contents();
    o.ChangeLength(len - d + |items|);
    Assembled(was, moved, placed, o.Contents(), start, d, items);
  }

  /** The deleted part is copied out, then replaced. */
  method ReplacePart(o: DenseArray, start: nat, d: nat, items: seq<Value>) returns (deleted: array<Slot>)
    requires o.Valid() && start + d <= o.length
    modifies o, o.elements
    ensures o.Valid() && fresh(deleted)
    ensures var was := old(o.Contents());
            && o.Contents() == was[..start] + Elems(items) + was[start + d..]
            && deleted[..] == Unfilled(was[start..start + d])
            && (deleted[..] == was[start..start + d] <==> Hole !in was[start..start + d])
  {
    hide Moved, Placed, SlotAt, Written, Abstract, Unfilled, Elems;
    ghost var was := o.Contents();
    deleted := CopyOut(o, start, d);
    WrittenPart(was, start, start + d);
    UnfilledExactly(was[start..start + d]);
    ReplaceRange(o, start, d, items);
  }

  /** The start index is outside the array; too many elements to delete; the deleted elements. */
  datatype Spliced = StartOutside | TooMany | Deleted(elements: array<Slot>)

  /** Prefix, items, suffix, holes carried along with the rest; the deleted part is handed out whole
      exactly when it has no hole. More deleted elements than a dense array may be created with stop the
      program before anything is changed. With a start index outside the array nothing is promised. */
  method Splice(o: DenseArray, args: Arguments) returns (r: Spliced)
    requires o.Valid() && o.length < TWO31
    modifies o, o.elements
    ensures !r.StartOutside? ==> o.Valid()
    ensures var was := old(o.Contents());
            var s := ActualStart(|was|, if args.NoArguments? then 0 else args.start);
            var d := ActualDeleteCount(|was|, s, args);
            && (r.StartOutside? <==> !(0 <= s <= |was|))
            && (!r.StartOutside? ==>
                && 0 <= d <= |was| - s
                && (r.TooMany? <==> d > SPARSE_ARRAY_CUTOFF)
                && (r.TooMany? ==> o.Contents() == was)
                && (r.Deleted? ==>
                    && o.Contents() == was[..s] + Elems(if args.Full? then args.items else []) + was[s + d..]
                    && fresh(r.elements) && r.elements[..] == Unfilled(was[s..s + d])
                    && (r.elements[..] == was[s..s + d] <==> Hole !in was[s..s + d])))
  {
    var len := o.length;
    var start := ActualStart(len, if args.NoArguments? then 0 else args.start);
    if start < 0 || start > len {
      return StartOutside;
    }
    var d := ActualDeleteCount(len, start, args);
    var items := if args.Full? then args.items else [];
    DeleteCountExactly(len, start, args);
    if d > SPARSE_ARRAY_CUTOFF {
      return TooMany;
    }
    hide Written, Abstract, Unfilled, Elems, ActualStart, ActualDeleteCount;
    var deleted := ReplacePart(o, start, d, items);
    r := Deleted(deleted);
  }

  ghost function Reversed(s: seq<Slot>): (r: seq<Slot>)
    ensures |r| == |s| && forall i :: 0 <= i < |s| ==> r[i] == s[|s| - 1 - i]
  {
    seq(|s|, i requires 0 <= i < |s| => s[|s| - 1 - i])
  }

  ghost predicate HalfReversed(s: seq<Slot>, was: seq<Slot>, lower: nat) {
    && |s| == |was|
    && forall j :: 0 <= j < |s| ==> s[j] == was[if lower <= j < |was| - lower then j else |was| - 1 - j]
  }

  lemma ReverseStep(was: seq<Slot>, s: seq<Slot>, t: seq<Slot>, lower: nat)
    requires HalfReversed(s, was, lower) && lower < |was| / 2 && |t| == |s|
    requires Exchanged(s, t, lower, |was| - lower - 1)
    ensures HalfReversed(t, was, lower + 1)
  {
    forall j | 0 <= j < |t|
      ensures t[j] == was[if lower + 1 <= j < |was| - lower - 1 then j else |was| - 1 - j]
    {
      assert t[j] == SlotAt(t, j);
    }
  }

  lemma ReverseEnds(was: seq<Slot>, s: seq<Slot>)
    requires HalfReversed(s, was, |was| / 2)
    ensures s == Reversed(was)
  {
  }

  lemma ReverseBegins(was: seq<Slot>)
    ensures HalfReversed(was, was, 0)
  {
  }

  /** Values and holes alike change places with their mirror images. */
  method Reverse(o: DenseArray)
    requires o.Valid()
    modifies o, o.elements
    ensures o.Valid() && o.Contents() == Reversed(old(o.Contents()))
  {
    hide HalfReversed, Reversed, Exchanged, SlotAt, Written;
    ghost var was := o.Contents();
    ReverseBegins(was);
    var len := o.length;
    var middle := len / 2;
    var lower := 0;
    while lower != middle
      invariant 0 <= lower <= middle
      invariant o.Valid() && o.length == len && (o.elements == old(o.elements) || fresh(o.elements))
      invariant HalfReversed(o.Contents(), was, lower)
      decreases middle - lower
    {
      ghost var before := o.Contents();
      var upper := len - lower - 1;
      SwapSlots(o, lower, upper);
      ReverseStep(was, before, o.Contents(), lower);
      lower := lower + 1;
    }
    ReverseEnds(was, o.Contents());
  }

  method SwapSlots(o: DenseArray, lower: nat, upper: nat)
    requires o.Valid() && lower < upper < o.length
    modifies o, o.elements
    ensures o.Valid() && o.length == old(o.length) && (o.elements == old(o.elements) || fresh(o.elements))
    ensures Exchanged(old(o.Contents()), o.Contents(), lower, upper)
  {
    AbstractAt(o.Contents(), lower);
    AbstractAt(o.Contents(), upper);
    var lowerValue, upperValue := Undefined, Undefined;
    var lowerExists := o.HasAt(lower, false);
    if lowerExists {
      lowerValue := o.GetAt(lower);
    }
    var upperExists := o.HasAt(upper, false);
    if upperExists {
      upperValue := o.GetAt(upper);
    }
    assert SlotAt(o.Contents(), lower) != Junk && SlotAt(o.Contents(), upper) != Junk;
    if lowerExists && upperExists {
      o.SetAt(lower, upperValue);
      o.SetAt(upper, lowerValue);
    } else if !lowerExists && upperExists {
      o.SetAt(lower, upperValue);
      o.DeleteAt(upper);
    } else if lowerExists && !upperExists {
      o.DeleteAt(lower);
      o.SetAt(upper, lowerValue);
    }
  }
}

/** The segmented work list: `_ejs_gc_worklist_push` and `_ejs_gc_worklist_pop`. */
module WorkListModule {
  import opened Basics
  import opened Cells

  const SEGMENT_SIZE: nat := 512

  /** A buffer of which the first `size` entries count. */
  datatype Segment = Segment(size: nat, items: seq<Ref>)

  ghost predicate SegmentOk(s: Segment) {
    s.size <= |s.items| == SEGMENT_SIZE
  }

  ghost function ContentsOf(list: seq<Segment>): seq<Ref>
    requires forall i :: 0 <= i < |list| ==> SegmentOk(list[i])
  {
    if list == [] then [] else
      assert SegmentOk(list[0]);
      ContentsOf(list[1..]) + list[0].items[..list[0].size]
  }

  lemma LastOf(p: seq<Ref>, items: seq<Ref>, n: nat)
    requires 0 < n <= |items|
    ensures var c := p + items[..n]; c != [] && c[|c| - 1] == items[n - 1] && c[..|c| - 1] == p + items[..n - 1]
  {
  }

  lemma HeadReplaced(list: seq<Segment>, s: Segment)
    requires list != [] && SegmentOk(s) && forall i :: 0 <= i < |list| ==> SegmentOk(list[i])
    ensures ContentsOf(list[0 := s]) == ContentsOf(list[1..]) + s.items[..s.size]
  {
    assert list[0 := s][1..] == list[1..];
  }

  /** One last-in first-out sequence, kept in segments: every segment below the head is full, the head is
      never empty, and recycled segments have size zero. */
  class WorkList {
    var list: seq<Segment>      // the head first
    var freeList: seq<Segment>

    ghost predicate Valid()
      reads this
    {
      && (forall i :: 0 <= i < |list| ==> SegmentOk(list[i]))
      && (list != [] ==> list[0].size > 0)
      && (forall i :: 0 < i < |list| ==> list[i].size == SEGMENT_SIZE)
      && (forall i :: 0 <= i < |freeList| ==> SegmentOk(freeList[i]) && freeList[i].size == 0)
    }

    /** Oldest first. */
    ghost function Contents(): seq<Ref>
      requires Valid()
      reads this
    {
      ContentsOf(list)
    }

    constructor ()
      ensures Valid() && Contents() == []
    {
      list, freeList := [], [];
    }

    /** Null pointers are not pushed. */
    method Push(obj: Option<Ref>)
      requires Valid()
      modifies this
      ensures Valid()
      ensures Contents() == if obj.None? then old(Contents()) else old(Contents()) + [obj.value]
    {
      if obj.None? {
        return;
      }
      if list == [] || list[0].size == SEGMENT_SIZE {
        var segment;
        if freeList != [] {
          segment := freeList[0];
          freeList := freeList[1..];
        } else {
          segment := Segment(0, seq(SEGMENT_SIZE, _ => Ref(0, 0)));
        }
        list := [segment] + list;
        assert list[1..] == old(list);
      }
      var s := list[0];
      ghost var rest := list[1..];
      list := list[0 := Segment(s.size + 1, s.items[s.size := obj.value])];
      assert list[1..] == rest;
      assert list[0].items[..s.size + 1] == s.items[..s.size] + [obj.value];
    }

    /** Null when there is nothing left. A segment that becomes empty is recycled. */
    method Pop() returns (obj: Option<Ref>)
      requires Valid()
      modifies this
      ensures Valid()
      ensures var c := old(Contents());
              if c == [] then obj == None && Contents() == []
              else obj == Some(c[|c| - 1]) && Contents() == c[..|c| - 1]
    {
      if list == [] || list[0].size == 0 {
        return None;
      }
      hide ContentsOf;
      var s := list[0];
      assert SegmentOk(s);
      HeadReplaced(list, s);
      assert list[0 := s] == list;
      LastOf(ContentsOf(list[1..]), s.items, s.size);
      obj := Some(s.items[s.size - 1]);
      if s.size - 1 == 0 {
        list := list[1..];
        freeList := [Segment(0, s.items)] + freeList;
      } else {
        HeadReplaced(list, Segment(s.size - 1, s.items));
        list := list[0 := Segment(s.size - 1, s.items)];
      }
    }
  }
}

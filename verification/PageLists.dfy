/** The order of the pages in a list: what moving a full page to the end of its list is for. */
module PageLists {
  import opened Basics
  import opened Layout
  import opened SizeClasses
  import opened HeapModel
  import opened Allocation
  import opened Allocator

  /** Free cells of the pages of a list. */
  function Room(pages: seq<Page>, list: seq<nat>): nat {
    if list == [] then 0
    else (if list[0] < |pages| then pages[list[0]].numFree else 0) + Room(pages, list[1..])
  }

  /** Behind a full page all pages of the list are full. */
  ghost predicate FullLast(pages: seq<Page>, list: seq<nat>) {
    forall i, j :: 0 <= i < j < |list| && IsFull(pages, list[i]) ==> IsFull(pages, list[j])
  }

  predicate IsFull(pages: seq<Page>, p: nat) {
    p < |pages| ==> pages[p].numFree == 0
  }

  // ----- sums over lists -----

  lemma {:induction false} RoomConcat(pages: seq<Page>, a: seq<nat>, b: seq<nat>)
    ensures Room(pages, a + b) == Room(pages, a) + Room(pages, b)
    decreases |a|
  {
    if a == [] {
      assert a + b == b;
    } else {
      assert (a + b)[1..] == a[1..] + b;
      RoomConcat(pages, a[1..], b);
    }
  }

  lemma {:induction false} RoomElsewhere(pages: seq<Page>, list: seq<nat>, p: nat, pg: Page)
    requires p < |pages| && p !in list
    ensures Room(pages[p := pg], list) == Room(pages, list)
    decreases |list|
  {
    if list != [] {
      RoomElsewhere(pages, list[1..], p, pg);
    }
  }

  lemma {:induction false} NoRoom(pages: seq<Page>, list: seq<nat>)
    ensures Room(pages, list) == 0 <==> forall i :: 0 <= i < |list| ==> IsFull(pages, list[i])
    decreases |list|
  {
    if list != [] {
      NoRoom(pages, list[1..]);
      assert forall i :: 0 < i < |list| ==> list[i] == list[1..][i - 1];
      assert forall i :: 0 <= i < |list| - 1 ==> list[1..][i] == list[i + 1];
    }
  }

  // ----- one cell from the head of a list -----

  /** What taking a cell of the first page does to the list and its pages. */
  lemma HeadGives(h: Heap, b: nat)
    requires Structure(h) && b < NUM_BUCKETS && HeadHasRoom(h, b)
    ensures var p := h.buckets[b][0];
            && PagesOk(h) && b < |h.buckets| && !h.pages[p].large
            && var r := FromPage(h, p, b);
               && r.heap.arenas == h.arenas && |r.heap.pages| == |h.pages|
               && (forall q :: 0 <= q < |h.pages| && q != p ==> r.heap.pages[q] == h.pages[q])
               && r.heap.pages[p].numFree == h.pages[p].numFree - 1
               && |r.heap.buckets| == NUM_BUCKETS
               && (forall c :: 0 <= c < NUM_BUCKETS && c != b ==> r.heap.buckets[c] == h.buckets[c])
               && r.heap.buckets[b] ==
                  if h.pages[p].numFree == 1 then h.buckets[b][1..] + [p] else h.buckets[b]
  {
    hide PageOk, ArenasOk, LosOk, LosApart, NextCell;
    HeadIsSmall(h, b);
    var list := h.buckets[b];
    if |list| == 1 {
      assert list == [list[0]] && list[1..] + [list[0]] == list;
    }
  }

  /** While the list has room its first page has, and taking a cell keeps full pages last. */
  lemma HeadServes(h: Heap, b: nat)
    requires Structure(h) && b < NUM_BUCKETS && FullLast(h.pages, h.buckets[b]) && Room(h.pages, h.buckets[b]) > 0
    ensures HeadHasRoom(h, b)
    ensures var p := h.buckets[b][0];
            && PagesOk(h) && b < |h.buckets| && !h.pages[p].large
            && var r := FromPage(h, p, b);
               && |r.heap.buckets| == NUM_BUCKETS && FullLast(r.heap.pages, r.heap.buckets[b])
               && Room(r.heap.pages, r.heap.buckets[b]) == Room(h.pages, h.buckets[b]) - 1
  {
    var list := h.buckets[b];
    HeadIsSmall(h, b);
    NoRoom(h.pages, list);
    var p := list[0];
    assert HeadHasRoom(h, b);
    HeadGives(h, b);
    var r := FromPage(h, p, b);
    assert NoDup(list);
    hide Structure, FromPage, HeadHasRoom, PagesOk;
    assert p !in list[1..];
    assert r.heap.pages == h.pages[p := r.heap.pages[p]];
    RoomElsewhere(h.pages, list[1..], p, r.heap.pages[p]);
    RoomConcat(r.heap.pages, list[1..], [p]);
    StaysFullLast(h.pages, r.heap.pages, list, r.heap.buckets[b]);
  }

  lemma StaysFullLast(pages: seq<Page>, pages': seq<Page>, list: seq<nat>, list': seq<nat>)
    requires list != [] && FullLast(pages, list) && list[0] < |pages| && |pages'| == |pages|
    requires forall q :: 0 <= q < |pages| && q != list[0] ==> pages'[q] == pages[q]
    requires pages[list[0]].numFree > 0 && pages'[list[0]].numFree == pages[list[0]].numFree - 1
    requires list' == if pages[list[0]].numFree == 1 then list[1..] + [list[0]] else list
    requires list[0] !in list[1..]
    ensures FullLast(pages', list')
  {
    assert forall i :: 0 < i < |list| ==> list[i] == list[1..][i - 1] && list[i] != list[0];
  }

  // ----- many requests -----

  /** `n` requests of one size while the system has no memory: the heap after them, unless one fails. */
  ghost function Serve(h: Heap, cellSize: int, n: nat): Option<Heap>
    requires HeapOk(h) && IsCellSize(cellSize)
    decreases n
  {
    if n == 0 then Some(h) else
      AllocSmallGrants(h, cellSize, SmallBucket(cellSize), None);
      var r := AllocSmall(h, cellSize, SmallBucket(cellSize), None);
      if r.Got? then Serve(r.heap, cellSize, n - 1) else None
  }

  /** One request: from the first page while the list has room, without a new page or arena. */
  lemma RequestUsesRoom(h: Heap, cellSize: int)
    requires HeapOk(h) && IsCellSize(cellSize) && FullLast(h.pages, h.buckets[SmallBucket(cellSize)])
    ensures var b := SmallBucket(cellSize);
            var r := AllocSmall(h, cellSize, b, None);
            && (r.Got? ==> HeapOk(r.heap))
            && (Room(h.pages, h.buckets[b]) > 0 ==>
                  && r.Got? && r.heap.arenas == h.arenas && |r.heap.pages| == |h.pages|
                  && |r.heap.buckets| == NUM_BUCKETS && FullLast(r.heap.pages, r.heap.buckets[b])
                  && Room(r.heap.pages, r.heap.buckets[b]) == Room(h.pages, h.buckets[b]) - 1)
            && (Room(h.pages, h.buckets[b]) == 0 && NoPage(h, None) ==> !r.Got?)
  {
    hide PageOk, ArenasOk, LosOk, LosApart, NoPage, AllocSmall, FromPage, FullLast, Room, Grants;
    var b := SmallBucket(cellSize);
    AllocSmallGrants(h, cellSize, b, None);
    AllocSmallOutcomes(h, cellSize, b, None);
    if Room(h.pages, h.buckets[b]) > 0 {
      HeadServes(h, b);
      HeadGives(h, b);
      FromHead(h, cellSize, b);
    } else {
      NoRoom(h.pages, h.buckets[b]);
      FullHead(h, b);
    }
  }

  /** As many requests as the list has free cells are served, without a new page or arena; and no more, if no
      page is to be had. */
  lemma {:induction false} RoomIsServed(h: Heap, cellSize: int, n: nat)
    requires HeapOk(h) && IsCellSize(cellSize) && FullLast(h.pages, h.buckets[SmallBucket(cellSize)])
    ensures var b := SmallBucket(cellSize);
            var room := Room(h.pages, h.buckets[b]);
            var r := Serve(h, cellSize, n);
            && (n <= room ==> r.Some? && r.value.arenas == h.arenas && |r.value.pages| == |h.pages|)
            && (NoPage(h, None) ==> (r.Some? <==> n <= room))
    decreases n
  {
    hide Structure, AllSettled, AllocSmall, FullLast, Room;
    if n > 0 {
      RequestUsesRoom(h, cellSize);
      var b := SmallBucket(cellSize);
      HeadIsSmall(h, b);
      var r := AllocSmall(h, cellSize, b, None);
      if Room(h.pages, h.buckets[b]) > 0 {
        assert NoPage(h, None) <==> NoPage(r.heap, None);
        RoomIsServed(r.heap, cellSize, n - 1);
      }
    }
  }

  lemma FromHead(h: Heap, cellSize: int, b: nat)
    requires Structure(h) && IsCellSize(cellSize) && b == SmallBucket(cellSize) && HeadHasRoom(h, b)
    ensures PagesOk(h) && !h.pages[h.buckets[b][0]].large
    ensures AllocSmall(h, cellSize, b, None) == FromPage(h, h.buckets[b][0], b)
  {
    HeadIsSmall(h, b);
  }

  lemma FullHead(h: Heap, b: nat)
    requires b < |h.buckets| && forall i :: 0 <= i < |h.buckets[b]| ==> IsFull(h.pages, h.buckets[b][i])
    ensures !HeadHasRoom(h, b)
  {
  }

  // ----- between collections full pages stay last -----

  ghost predicate AllFullLast(h: Heap) {
    |h.buckets| == NUM_BUCKETS && forall b :: 0 <= b < NUM_BUCKETS ==> FullLast(h.pages, h.buckets[b])
  }

  lemma OtherListFullLast(h: Heap, h': Heap, list: seq<nat>)
    requires FullLast(h.pages, list) && forall p :: p in list ==> p < |h.pages| && p < |h'.pages|
    requires forall p :: p in list && p < |h.pages| && p < |h'.pages| ==> h'.pages[p] == h.pages[p]
    ensures FullLast(h'.pages, list)
  {
    assert forall i :: 0 <= i < |list| ==> list[i] in list;
  }

  lemma HeadKeepsFullLast(h: Heap, b: nat)
    requires Structure(h) && b < NUM_BUCKETS && AllFullLast(h) && HeadHasRoom(h, b)
    ensures var p := h.buckets[b][0];
            PagesOk(h) && !h.pages[p].large && AllFullLast(FromPage(h, p, b).heap)
  {
    hide PageOk, ArenasOk, LosOk, LosApart, FromPage, FullLast;
    HeadGives(h, b);
    var list := h.buckets[b];
    var p := list[0];
    assert p in h.buckets[b];
    var h' := FromPage(h, p, b).heap;
    assert p !in list[1..];
    StaysFullLast(h.pages, h'.pages, list, h'.buckets[b]);
    forall c | 0 <= c < NUM_BUCKETS && c != b ensures FullLast(h'.pages, h'.buckets[c]) {
      forall q | q in h.buckets[c] ensures q < |h.pages| && q != p {
        assert InUse(h, q, None) && InUse(h, p, None);
      }
      OtherListFullLast(h, h', h.buckets[c]);
    }
  }

  /** A page just taken is new to every list, at the head of its own, and the only one that has changed. */
  ghost predicate TakenFor(h: Heap, t: Taken, b: nat) {
    && b < |h.buckets| && t.page < |t.heap.pages| && |h.pages| <= |t.heap.pages|
    && (forall q :: 0 <= q < |h.pages| && q != t.page ==> t.heap.pages[q] == h.pages[q])
    && t.heap.pages[t.page].numFree > 1 && t.heap.buckets == h.buckets[b := [t.page] + h.buckets[b]]
    && (forall c :: 0 <= c < |h.buckets| ==> t.page !in h.buckets[c])
  }

  lemma TakePageTables(h: Heap, a: nat, cellSize: int)
    requires Structure(h) && a < |h.arenas| && HasRoom(h.arenas[a]) && IsCellSize(cellSize)
    ensures forall i :: 0 <= i < |h.arenas[a].free| ==> h.arenas[a].free[i] < |h.pages|
    ensures TakenFor(h, TakePage(h, a, cellSize), SmallBucket(cellSize))
  {
    TakePageKeeps(h, a, cellSize);
    if h.arenas[a].free != [] {
      FreePageFacts(h, a);
    }
    EmptyPageInNoBucket(h, TakePage(h, a, cellSize).page);
    hide PageOk, ArenasOk, LosOk, LosApart, StructureBut, AllocatedKept;
  }

  lemma NewPageTables(h: Heap, cellSize: int, os: Option<nat>)
    requires Structure(h) && IsCellSize(cellSize) && (os.Some? ==> ArenaFits(h, os.value))
    ensures var t := NewPage(h, cellSize, os);
            t.Some? ==> TakenFor(h, t.value, SmallBucket(cellSize))
  {
    hide PageOk, ArenasOk, InUse, LosOk, LosApart, TakePage, TakenFor, StructureBut, AllocatedKept, ArenaFits;
    var a := FirstRoom(h.arenas, 0);
    if a < |h.arenas| {
      TakePageTables(h, a, cellSize);
    } else if |h.arenas| != MAX_ARENAS - 1 && os.Some? {
      var h1 := AddArena(h, os.value);
      var k := InsertionPoint(h.arenas, os.value, 0);
      AddArenaKeeps(h, os.value);
      TakePageTables(h1, k, cellSize);
      SameTables(h, h1, TakePage(h1, k, cellSize), SmallBucket(cellSize));
    }
  }

  lemma SameTables(h: Heap, h1: Heap, t: Taken, b: nat)
    requires h1.pages == h.pages && h1.buckets == h.buckets && TakenFor(h1, t, b)
    ensures TakenFor(h, t, b)
  {
  }

  lemma TakenKeepsFullLast(h: Heap, t: Taken, b: nat)
    requires Structure(h) && AllFullLast(h) && b < NUM_BUCKETS && !HeadHasRoom(h, b) && TakenFor(h, t, b)
    requires PagesOk(t.heap) && !t.heap.pages[t.page].large
    ensures AllFullLast(FromPage(t.heap, t.page, b).heap)
  {
    hide PageOk, ArenasOk, LosOk, LosApart, NextCell, FullLast;
    var h' := FromPage(t.heap, t.page, b).heap;
    assert h'.buckets == t.heap.buckets;
    forall c | 0 <= c < NUM_BUCKETS ensures FullLast(h'.pages, h'.buckets[c]) {
      forall q | q in h.buckets[c] ensures q < |h.pages| && q != t.page {
        assert InUse(h, q, None);
      }
      OtherListFullLast(h, h', h.buckets[c]);
      if c == b {
        AllFull(h, b);
        NewHead(h, h', h.buckets[b], t.page);
      }
    }
  }

  lemma AllFull(h: Heap, b: nat)
    requires b < |h.buckets| && FullLast(h.pages, h.buckets[b]) && !HeadHasRoom(h, b)
    ensures forall i :: 0 <= i < |h.buckets[b]| ==> IsFull(h.pages, h.buckets[b][i])
  {
  }

  lemma NewHead(h: Heap, h': Heap, list: seq<nat>, p: nat)
    requires forall i :: 0 <= i < |list| ==> IsFull(h.pages, list[i])
    requires forall q :: q in list ==> q < |h.pages| && q < |h'.pages|
    requires forall q :: q in list && q < |h.pages| && q < |h'.pages| ==> h'.pages[q] == h.pages[q]
    requires p < |h'.pages| && h'.pages[p].numFree > 0
    ensures FullLast(h'.pages, [p] + list)
  {
    assert forall i :: 0 <= i < |list| ==> list[i] in list && ([p] + list)[i + 1] == list[i];
  }

  /** An allocation from pages keeps full pages last in every list, new pages included. */
  lemma AllocKeepsFullLast(h: Heap, cellSize: int, os: Option<nat>)
    requires HeapOk(h) && IsCellSize(cellSize) && (os.Some? ==> ArenaFits(h, os.value)) && AllFullLast(h)
    ensures var r := AllocSmall(h, cellSize, SmallBucket(cellSize), os);
            r.Got? ==> AllFullLast(r.heap)
  {
    hide PagesOk, ArenasOk, ListsOk, LosOk, LosApart, AllFullLast, FromPage, NewPage, TakenFor, ArenaFits, StructureBut,
      AllocatedKept;
    var b := SmallBucket(cellSize);
    HeadIsSmall(h, b);
    if HeadHasRoom(h, b) {
      HeadKeepsFullLast(h, b);
    } else {
      NewPageKeeps(h, cellSize, os);
      NewPageTables(h, cellSize, os);
      var t := NewPage(h, cellSize, os);
      if t.Some? {
        TakenIsEmpty(t.value.heap, t.value.page);
        TakenKeepsFullLast(h, t.value, b);
      }
    }
  }
}

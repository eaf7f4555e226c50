/** Allocation: `alloc_from_page`, `alloc_page_from_arena`, `alloc_new_page`, `arena_new`, `alloc_from_los`
    and the first pass of `_ejs_gc_alloc`.
 */
module Allocation {
  import opened Basics
  import opened Cells
  import opened Layout
  import opened SizeClasses
  import opened HeapModel

  // ----- one cell of a page -----

  function FirstFree(row: seq<bv8>, c: nat): (r: nat)
    requires exists k :: c <= k < |row| && row[k] == FREE
    ensures c <= r < |row| && IsFree(row[r]) && forall k :: c <= k < r ==> !IsFree(row[k])
    decreases |row| - c
  {
    if IsFree(row[c]) then c else FirstFree(row, c + 1)
  }

  /** The cell the page hands out next: the one at the bump pointer, or else the first free one. */
  function NextCell(pg: Page, row: seq<bv8>): nat
    requires PageOk(pg, row) && !pg.large && pg.numFree > 0
  {
    if pg.bump.Some? then (pg.bump.value - pg.start) / pg.cellSize
    else
      CountFreeBounds(row);
      FirstFree(row, 0)
  }

  /** The bump pointer moves one cell, and is given up when the last cell would be next. */
  function NextBump(pg: Page): Option<nat> {
    if pg.bump.None? then None
    else if pg.bump.value + pg.cellSize + pg.cellSize >= pg.start + PAGE_SIZE then None
    else Some(pg.bump.value + pg.cellSize)
  }

  lemma NextCellIsFree(pg: Page, row: seq<bv8>)
    requires PageOk(pg, row) && !pg.large && pg.numFree > 0
    ensures NextCell(pg, row) < |row| && row[NextCell(pg, row)] == FREE
  {
    if pg.bump.None? {
      CountFreeBounds(row);
    }
  }

  function AllocFromPage(h: Heap, p: nat): (h': Heap)
    requires PagesOk(h) && p < |h.pages| && !h.pages[p].large && h.pages[p].numFree > 0
  {
    assert PageOk(h.pages[p], h.bits[p]);
    var pg := h.pages[p];
    var c := NextCell(pg, h.bits[p]);
    NextCellIsFree(pg, h.bits[p]);
    var v := SetColor(SetAllocated(h.bits[p][c]), h.white);
    h.(pages := h.pages[p := pg.(bump := NextBump(pg), numFree := pg.numFree - 1)],
       bits := SetBit(h.bits, Ref(p, c), v))
  }

  lemma BumpAdvances(pg: Page, row: seq<bv8>, v: bv8)
    requires PageOk(pg, row) && !pg.large && pg.numFree > 0
    ensures var pg' := pg.(bump := NextBump(pg), numFree := pg.numFree - 1);
            NextCell(pg, row) < |row| && BumpOk(pg', row[NextCell(pg, row) := v])
  {
    NextCellIsFree(pg, row);
    if NextBump(pg).Some? {
      var i := (pg.bump.value - pg.start) / pg.cellSize;
      assert (NextBump(pg).value - pg.start) / pg.cellSize == i + 1;
    }
  }

  /** The bump pointer counts cells, and is given up before the last one. */
  lemma BumpByCell(pg: Page, row: seq<bv8>)
    requires PageOk(pg, row) && !pg.large && pg.numFree > 0 && pg.bump.Some?
    ensures var c := NextCell(pg, row);
            && pg.bump.value == pg.start + c * pg.cellSize
            && NextBump(pg) == if c + 2 < pg.numCells then Some(pg.start + (c + 1) * pg.cellSize) else None
  {
    var c := NextCell(pg, row);
    var d := pg.bump.value - pg.start;
    assert d == pg.cellSize * (d / pg.cellSize) + d % pg.cellSize;
    MulMonotone(pg.cellSize, c + 2, pg.numCells - 1);
    MulMonotone(pg.cellSize, pg.numCells, c + 2);
    assert pg.cellSize * (c + 2) == c * pg.cellSize + 2 * pg.cellSize;
    assert pg.cellSize * pg.numCells == PAGE_SIZE;
  }

  lemma AllocFromPageKeeps(h: Heap, p: nat)
    requires PagesOk(h) && Masks(h.white, h.black) && p < |h.pages| && !h.pages[p].large && h.pages[p].numFree > 0
    ensures var c := NextCell(h.pages[p], h.bits[p]);
            var h' := AllocFromPage(h, p);
            && Has(h.bits, Ref(p, c)) && Bit(h.bits, Ref(p, c)) == FREE
            && PagesOk(h') && h'.bits == SetBit(h.bits, Ref(p, c), h.white)
            && !IsEmptyPage(h'.pages[p])
            && (h.pages[p].bump.None? ==> forall k :: 0 <= k < c ==> h.bits[p][k] != FREE)
            && (h.pages[p].bump.Some? ==>
                  && h.pages[p].bump.value == h.pages[p].start + c * h.pages[p].cellSize
                  && h'.pages[p].bump ==
                     if c + 2 < h.pages[p].numCells then Some(h.pages[p].start + (c + 1) * h.pages[p].cellSize)
                     else None)
  {
    var pg, row := h.pages[p], h.bits[p];
    assert PageOk(pg, row);
    NextCellIsFree(pg, row);
    MacroFacts(h.white, h.black);
    var c := NextCell(pg, row);
    BumpAdvances(pg, row, h.white);
    CountFreeUpdate(row, c, h.white);
    CountFreeBounds(row);
    var h' := AllocFromPage(h, p);
    var row' := row[c := h.white];
    assert h'.bits[p] == row';
    assert PageOk(h'.pages[p], row');
    if pg.bump.Some? {
      BumpByCell(pg, row);
    } else {
      CountFreeBounds(row);
    }
    forall q | 0 <= q < |h.pages| && q != p ensures PageOk(h'.pages[q], h'.bits[q]) {
      assert PageOk(h.pages[q], h.bits[q]);
    }
  }

  // ----- a fresh page -----

  function CellsOfSize(cellSize: nat): (n: nat)
    requires IsCellSize(cellSize)
    ensures n * cellSize == PAGE_SIZE && n >= 32
  {
    PAGE_SIZE / cellSize
  }

  function FreshPage(start: nat, cellSize: nat): Page
    requires IsCellSize(cellSize)
  {
    Page(start, cellSize, CellsOfSize(cellSize), CellsOfSize(cellSize), Some(start), false)
  }

  lemma FreshPageOk(start: nat, cellSize: nat)
    requires IsCellSize(cellSize) && start % PAGE_SIZE == 0
    ensures PageOk(FreshPage(start, cellSize), AllFree(CellsOfSize(cellSize)))
  {
  }

  predicate HasRoom(a: Arena) {
    a.free != [] || PageAddress(a.base, |a.pages|) < a.base + ARENA_SIZE
  }

  datatype Taken = Taken(heap: Heap, page: nat)

  /** Reuse an empty page of the arena, else carve the next one, and put it in its bucket. */
  function TakePage(h: Heap, a: nat, cellSize: nat): Taken
    requires a < |h.arenas| && HasRoom(h.arenas[a]) && IsCellSize(cellSize) && |h.buckets| == NUM_BUCKETS
    requires |h.pages| == |h.bits| && forall i :: 0 <= i < |h.arenas[a].free| ==> h.arenas[a].free[i] < |h.pages|
  {
    var A := h.arenas[a];
    var row := AllFree(CellsOfSize(cellSize));
    var b := SmallBucket(cellSize);
    if A.free != [] then
      var p := A.free[0];
      Taken(h.(pages := h.pages[p := FreshPage(h.pages[p].start, cellSize)], bits := h.bits[p := row],
               arenas := h.arenas[a := A.(free := A.free[1..])],
               buckets := h.buckets[b := [p] + h.buckets[b]]), p)
    else
      var p := |h.pages|;
      Taken(h.(pages := h.pages + [FreshPage(PageAddress(A.base, |A.pages|), cellSize)], bits := h.bits + [row],
               arenas := h.arenas[a := A.(pages := A.pages + [p])],
               buckets := h.buckets[b := [p] + h.buckets[b]]), p)
  }

  /** Everything but the page being taken is in order. */
  ghost predicate StructureBut(h: Heap, taken: nat) {
    && PagesOk(h) && ArenasOk(h) && ListsOk(h, Some(taken)) && LosOk(h) && LosApart(h)
    && taken < |h.pages| && !h.pages[taken].large && IsEmptyPage(h.pages[taken])
  }

  /** Nothing that is allocated moves or changes. */
  ghost predicate AllocatedKept(h: Heap, h': Heap) {
    && |h.pages| == |h.bits| && |h'.pages| == |h'.bits| && h'.white == h.white && h'.black == h.black
    && (forall r :: (Has(h.bits, r) && Bit(h.bits, r) != FREE) <==> (Has(h'.bits, r) && Bit(h'.bits, r) != FREE))
    && (forall r :: Has(h.bits, r) && Bit(h.bits, r) != FREE ==>
          Has(h'.bits, r) && Bit(h'.bits, r) == Bit(h.bits, r) && h'.pages[r.page].start == h.pages[r.page].start
          && h'.pages[r.page].cellSize == h.pages[r.page].cellSize && h'.pages[r.page].large == h.pages[r.page].large)
  }

  /** An arena whose free list is not empty has an empty page to reuse. */
  lemma FreePageFacts(h: Heap, a: nat)
    requires Structure(h) && a < |h.arenas| && h.arenas[a].free != []
    ensures var p := h.arenas[a].free[0];
            && p < |h.pages| && p in h.arenas[a].pages && !h.pages[p].large && IsEmptyPage(h.pages[p])
            && h.pages[p].start % PAGE_SIZE == 0
            && (forall c :: 0 <= c < |h.bits[p]| ==> h.bits[p][c] == FREE)
  {
    var p := h.arenas[a].free[0];
    assert ArenaOk(h, h.arenas[a]);
    assert p in h.arenas[a].pages;
    var i :| 0 <= i < |h.arenas[a].pages| && h.arenas[a].pages[i] == p;
    assert PageOk(h.pages[p], h.bits[p]);
    CountFreeBounds(h.bits[p]);
  }

  lemma ReusePages(h: Heap, a: nat, cellSize: nat)
    requires Structure(h) && a < |h.arenas| && h.arenas[a].free != [] && IsCellSize(cellSize)
    requires forall i :: 0 <= i < |h.arenas[a].free| ==> h.arenas[a].free[i] < |h.pages|
    ensures var t := TakePage(h, a, cellSize);
            && t.page < |t.heap.pages| && PagesOk(t.heap) && IsEmptyPage(t.heap.pages[t.page])
            && AllocatedKept(h, t.heap)
  {
    hide ArenasOk, InUse, LosOk, LosApart, BumpOk;
    FreePageFacts(h, a);
    var t := TakePage(h, a, cellSize);
    FreshPageOk(h.pages[t.page].start, cellSize);
    forall q | 0 <= q < |h.pages| ensures PageOk(t.heap.pages[q], t.heap.bits[q]) {
      assert PageOk(h.pages[q], h.bits[q]);
    }
    forall r | Has(h.bits, r) || Has(t.heap.bits, r)
      ensures (Has(h.bits, r) && Bit(h.bits, r) != FREE) <==> (Has(t.heap.bits, r) && Bit(t.heap.bits, r) != FREE)
    {
      if r.page == t.page {
        assert t.heap.bits[r.page] == AllFree(CellsOfSize(cellSize));
      }
    }
  }

  lemma ReuseLists(h: Heap, a: nat, cellSize: nat)
    requires Structure(h) && a < |h.arenas| && h.arenas[a].free != [] && IsCellSize(cellSize)
    requires forall i :: 0 <= i < |h.arenas[a].free| ==> h.arenas[a].free[i] < |h.pages|
    ensures var t := TakePage(h, a, cellSize);
            ArenasOk(t.heap) && ListsOk(t.heap, Some(t.page)) && LosOk(t.heap) && LosApart(t.heap)
  {
    ReuseArenas(h, a, cellSize);
    ReuseBuckets(h, a, cellSize);
    ReuseLos(h, a, cellSize);
    hide PagesOk, ArenasOk, ListsOk, LosOk, LosApart, TakePage;
  }

  lemma ReuseArenas(h: Heap, a: nat, cellSize: nat)
    requires Structure(h) && a < |h.arenas| && h.arenas[a].free != [] && IsCellSize(cellSize)
    requires forall i :: 0 <= i < |h.arenas[a].free| ==> h.arenas[a].free[i] < |h.pages|
    ensures ArenasOk(TakePage(h, a, cellSize).heap)
  {
    hide PageOk, BumpOk, AllFree, InUse, LosOk, LosApart;
    FreePageFacts(h, a);
    var h' := TakePage(h, a, cellSize).heap;
    forall b | 0 <= b < |h'.arenas| ensures ArenaOk(h', h'.arenas[b]) {
      assert ArenaOk(h, h.arenas[b]);
    }
    forall q | 0 <= q < |h'.pages| ensures AtHome(h', q) {
      assert AtHome(h, q);
      if !h.pages[q].large {
        var b :| 0 <= b < |h.arenas| && q in h.arenas[b].pages;
        assert q in h'.arenas[b].pages;
      }
    }
  }

  lemma ReuseLos(h: Heap, a: nat, cellSize: nat)
    requires Structure(h) && a < |h.arenas| && h.arenas[a].free != [] && IsCellSize(cellSize)
    requires forall i :: 0 <= i < |h.arenas[a].free| ==> h.arenas[a].free[i] < |h.pages|
    ensures LosOk(TakePage(h, a, cellSize).heap) && LosApart(TakePage(h, a, cellSize).heap)
  {
    FreePageFacts(h, a);
    hide PageOk, AllFree, InUse, ArenaOk, AtHome, Sorted;
  }

  lemma EmptyPageInNoBucket(h: Heap, p: nat)
    requires ListsOk(h, None) && (p < |h.pages| ==> IsEmptyPage(h.pages[p]))
    ensures forall b :: 0 <= b < NUM_BUCKETS ==> p !in h.buckets[b]
  {
  }

  lemma ReuseBuckets(h: Heap, a: nat, cellSize: nat)
    requires Structure(h) && a < |h.arenas| && h.arenas[a].free != [] && IsCellSize(cellSize)
    requires forall i :: 0 <= i < |h.arenas[a].free| ==> h.arenas[a].free[i] < |h.pages|
    ensures var t := TakePage(h, a, cellSize); ListsOk(t.heap, Some(t.page))
  {
    hide PageOk, BumpOk, AllFree;
    FreePageFacts(h, a);
    var t := TakePage(h, a, cellSize);
    var h' := t.heap;
    var p := t.page;
    EmptyPageInNoBucket(h, p);
    forall b, q | 0 <= b < NUM_BUCKETS && q in h'.buckets[b]
      ensures InUse(h', q, Some(p)) && b == SmallBucket(h'.pages[q].cellSize)
    {
      if q != p {
        assert q in h.buckets[b] && InUse(h, q, None);
      }
    }
    forall q: nat | InUse(h', q, Some(p)) ensures q in h'.buckets[SmallBucket(h'.pages[q].cellSize)] {
      if q != p {
        assert InUse(h, q, None);
      }
    }
    forall b | 0 <= b < NUM_BUCKETS ensures NoDup(h'.buckets[b]) {
    }
    forall b, q | 0 <= b < |h'.arenas| && q in h'.arenas[b].pages && q < |h'.pages|
      ensures q in h'.arenas[b].free <==> IsEmptyPage(h'.pages[q]) && q != p
    {
      assert ArenaOk(h, h.arenas[a]);
      if q == p {
        var i :| 0 <= i < |h.arenas[a].pages| && h.arenas[a].pages[i] == p;
        var j :| 0 <= j < |h.arenas[b].pages| && h.arenas[b].pages[j] == p;
        HomeUnique(h, a, i, b, j);
      }
    }
  }

  lemma CarvePages(h: Heap, a: nat, cellSize: nat)
    requires Structure(h) && a < |h.arenas| && h.arenas[a].free == [] && HasRoom(h.arenas[a]) && IsCellSize(cellSize)
    ensures var t := TakePage(h, a, cellSize);
            && t.page < |t.heap.pages| && PagesOk(t.heap) && IsEmptyPage(t.heap.pages[t.page])
            && AllocatedKept(h, t.heap)
  {
    hide InUse, LosOk, LosApart, BumpOk;
    var t := TakePage(h, a, cellSize);
    var A := h.arenas[a];
    assert ArenaOk(h, A);
    FreshPageOk(PageAddress(A.base, |A.pages|), cellSize);
    forall q | 0 <= q < |h.pages| ensures PageOk(t.heap.pages[q], t.heap.bits[q]) {
      assert PageOk(h.pages[q], h.bits[q]);
    }
  }

  lemma CarveLists(h: Heap, a: nat, cellSize: nat)
    requires Structure(h) && a < |h.arenas| && h.arenas[a].free == [] && HasRoom(h.arenas[a]) && IsCellSize(cellSize)
    ensures var t := TakePage(h, a, cellSize);
            ArenasOk(t.heap) && ListsOk(t.heap, Some(t.page)) && LosOk(t.heap) && LosApart(t.heap)
  {
    hide PageOk, BumpOk, AllFree, InUse;
    var t := TakePage(h, a, cellSize);
    var h' := t.heap;
    var p := t.page;
    assert ArenasOk(h') by {
      forall b | 0 <= b < |h'.arenas| ensures ArenaOk(h', h'.arenas[b]) {
        assert ArenaOk(h, h.arenas[b]);
      }
      forall q | 0 <= q < |h'.pages| ensures AtHome(h', q) {
        if q < |h.pages| {
          assert AtHome(h, q);
          if !h.pages[q].large {
            var b :| 0 <= b < |h.arenas| && q in h.arenas[b].pages;
            assert q in h'.arenas[b].pages;
          }
        } else {
          assert h'.arenas[a].pages[|h.arenas[a].pages|] == p;
          assert p in h'.arenas[a].pages;
        }
      }
    }
    CarveBuckets(h, a, cellSize);
  }

  lemma CarveBuckets(h: Heap, a: nat, cellSize: nat)
    requires Structure(h) && a < |h.arenas| && h.arenas[a].free == [] && HasRoom(h.arenas[a]) && IsCellSize(cellSize)
    ensures var t := TakePage(h, a, cellSize); ListsOk(t.heap, Some(t.page))
  {
    hide PageOk, BumpOk, AllFree;
    var t := TakePage(h, a, cellSize);
    var h' := t.heap;
    var p := t.page;
    EmptyPageInNoBucket(h, p);
    forall b, q | 0 <= b < NUM_BUCKETS && q in h'.buckets[b]
      ensures InUse(h', q, Some(p)) && b == SmallBucket(h'.pages[q].cellSize)
    {
      if q != p {
        assert q in h.buckets[b] && InUse(h, q, None);
      }
    }
    forall q: nat | InUse(h', q, Some(p)) ensures q in h'.buckets[SmallBucket(h'.pages[q].cellSize)] {
      if q != p {
        assert InUse(h, q, None);
      }
    }
    forall b, q | 0 <= b < |h'.arenas| && q in h'.arenas[b].pages && q < |h'.pages|
      ensures q in h'.arenas[b].free <==> IsEmptyPage(h'.pages[q]) && q != p
    {
      assert ArenaOk(h, h.arenas[b]);
      if q != p {
        assert q in h.arenas[b].pages;
      }
    }
  }

  lemma TakePageKeeps(h: Heap, a: nat, cellSize: nat)
    requires Structure(h) && a < |h.arenas| && HasRoom(h.arenas[a]) && IsCellSize(cellSize)
    ensures forall i :: 0 <= i < |h.arenas[a].free| ==> h.arenas[a].free[i] < |h.pages|
    ensures var t := TakePage(h, a, cellSize);
            && StructureBut(t.heap, t.page) && AllocatedKept(h, t.heap)
            && t.heap.pages[t.page].cellSize == cellSize && t.heap.buckets[SmallBucket(cellSize)] != []
            && t.heap.buckets[SmallBucket(cellSize)][0] == t.page
            && |t.heap.arenas| == |h.arenas| && t.page in t.heap.arenas[a].pages
            && t.heap.pages[t.page].bump == Some(t.heap.pages[t.page].start)
            && (if h.arenas[a].free != [] then t.page in h.arenas[a].free && |t.heap.pages| == |h.pages|
                else t.page == |h.pages|)
  {
    hide LosOk, LosApart, PageOk, AllocatedKept, InUse;
    var A := h.arenas[a];
    assert ArenaOk(h, A);
    forall i | 0 <= i < |A.free| ensures A.free[i] < |h.pages| {
      assert A.free[i] in A.pages;
      var j :| 0 <= j < |A.pages| && A.pages[j] == A.free[i];
    }
    if A.free != [] {
      ReusePages(h, a, cellSize);
      ReuseLists(h, a, cellSize);
    } else {
      CarvePages(h, a, cellSize);
      CarveLists(h, a, cellSize);
    }
  }

  /** The page that was emptied last is the first to be used again, for whatever cell size. */
  lemma FreedLastReusedFirst(h: Heap, a: nat, r: Ref, cellSize: nat)
    requires Structure(h) && Has(h.bits, r) && !IsFree(Bit(h.bits, r)) && !h.pages[r.page].large
    requires a < |h.arenas| && r.page in h.arenas[a].pages && h.pages[r.page].numFree + 1 == h.pages[r.page].numCells
    requires IsCellSize(cellSize) && IsCellSize(h.pages[r.page].cellSize)
    ensures var h' := Finalize(h, a, r);
            && Structure(h') && a < |h'.arenas| && HasRoom(h'.arenas[a])
            && (forall i :: 0 <= i < |h'.arenas[a].free| ==> h'.arenas[a].free[i] < |h'.pages|)
            && TakePage(h', a, cellSize).page == r.page
  {
    hide PageOk, ArenasOk, InUse, LosOk, LosApart, SameLayout;
    FinalizeKeeps(h, a, r);
    TakePageKeeps(Finalize(h, a, r), a, cellSize);
  }

  // ----- a fresh arena -----

  function InsertionPoint(arenas: seq<Arena>, base: nat, i: nat): (k: nat)
    requires i <= |arenas|
    ensures i <= k <= |arenas| && (k < |arenas| ==> base < arenas[k].base)
    ensures forall j :: i <= j < k ==> arenas[j].base <= base
    decreases |arenas| - i
  {
    if i == |arenas| || base < arenas[i].base then i else InsertionPoint(arenas, base, i + 1)
  }

  /** A new arena goes before the first one with a higher address. */
  function AddArena(h: Heap, base: nat): Heap {
    var k := InsertionPoint(h.arenas, base, 0);
    h.(arenas := h.arenas[..k] + [Arena(base, [], [])] + h.arenas[k..])
  }

  /** What the system promises about a new mapping: the aligned block overlaps nothing mapped before. */
  ghost predicate ArenaFits(h: Heap, base: nat) {
    && base % ARENA_SIZE == 0
    && (forall a :: 0 <= a < |h.arenas| ==> h.arenas[a].base != base)
    && (forall p :: p in h.los && p < |h.pages| ==>
          h.pages[p].start + h.pages[p].cellSize <= base || base + ARENA_SIZE <= h.pages[p].start)
  }

  lemma AddArenaKeeps(h: Heap, base: nat)
    requires Structure(h) && ArenaFits(h, base)
    ensures Structure(AddArena(h, base)) && AllocatedKept(h, AddArena(h, base))
  {
    hide PageOk, ListsOk, LosApart, ArenasOk;
    ArenasInsert(h, base);
    LosApartInsert(h, base);
    ListsInsert(h, base);
  }

  lemma ArenasInsert(h: Heap, base: nat)
    requires ArenasOk(h) && ArenaFits(h, base)
    ensures ArenasOk(AddArena(h, base))
  {
    SortedInsert(h.arenas, base);
    EachArenaInsert(h, base);
    HomesInsert(h, base);
    hide ArenaOk, AtHome, Sorted, InsertionPoint;
  }

  lemma EachArenaInsert(h: Heap, base: nat)
    requires ArenasOk(h) && ArenaFits(h, base)
    ensures var h' := AddArena(h, base);
            forall a :: 0 <= a < |h'.arenas| ==> ArenaOk(h', h'.arenas[a])
  {
    hide AtHome, Sorted;
    var k := InsertionPoint(h.arenas, base, 0);
    var h' := AddArena(h, base);
    assert h'.arenas[k] == Arena(base, [], []);
    forall a | 0 <= a < |h'.arenas| ensures ArenaOk(h', h'.arenas[a]) {
      if a != k {
        assert h'.arenas[a] == h.arenas[if a < k then a else a - 1];
        assert ArenaOk(h, h.arenas[if a < k then a else a - 1]);
      }
    }
  }

  lemma HomesInsert(h: Heap, base: nat)
    requires ArenasOk(h)
    ensures var h' := AddArena(h, base);
            forall p :: 0 <= p < |h'.pages| ==> AtHome(h', p)
  {
    hide ArenaOk, Sorted;
    var k := InsertionPoint(h.arenas, base, 0);
    var h' := AddArena(h, base);
    forall p | 0 <= p < |h'.pages| ensures AtHome(h', p) {
      assert AtHome(h, p);
      if !h.pages[p].large {
        var a :| 0 <= a < |h.arenas| && p in h.arenas[a].pages;
        assert h'.arenas[if a < k then a else a + 1] == h.arenas[a];
      }
    }
  }

  lemma SortedInsert(arenas: seq<Arena>, base: nat)
    requires Sorted(arenas) && forall a :: 0 <= a < |arenas| ==> arenas[a].base != base
    ensures var k := InsertionPoint(arenas, base, 0); Sorted(arenas[..k] + [Arena(base, [], [])] + arenas[k..])
  {
  }

  lemma LosApartInsert(h: Heap, base: nat)
    requires LosApart(h) && ArenaFits(h, base)
    ensures LosApart(AddArena(h, base))
  {
    var k := InsertionPoint(h.arenas, base, 0);
    var h' := AddArena(h, base);
    forall p, a | p in h'.los && p < |h'.pages| && 0 <= a < |h'.arenas|
      ensures h'.pages[p].start + h'.pages[p].cellSize <= h'.arenas[a].base
              || h'.arenas[a].base + ARENA_SIZE <= h'.pages[p].start
    {
      if a != k {
        assert h'.arenas[a] == h.arenas[if a < k then a else a - 1];
      }
    }
  }

  lemma ListsInsert(h: Heap, base: nat)
    requires ListsOk(h, None)
    ensures ListsOk(AddArena(h, base), None)
  {
    var k := InsertionPoint(h.arenas, base, 0);
    var h' := AddArena(h, base);
    forall p: nat | InUse(h', p, None) ensures p in h'.buckets[SmallBucket(h'.pages[p].cellSize)] {
      assert InUse(h, p, None);
    }
    forall b, p | 0 <= b < NUM_BUCKETS && p in h'.buckets[b]
      ensures InUse(h', p, None) && b == SmallBucket(h'.pages[p].cellSize) {
      assert InUse(h, p, None);
    }
    forall a, p | 0 <= a < |h'.arenas| && p in h'.arenas[a].pages && p < |h'.pages|
      ensures p in h'.arenas[a].free <==> IsEmptyPage(h'.pages[p])
    {
      assert a != k;
      assert h'.arenas[a] == h.arenas[if a < k then a else a - 1];
    }
  }

  // ----- choosing a page -----

  function FirstRoom(arenas: seq<Arena>, i: nat): (a: nat)
    requires i <= |arenas|
    ensures i <= a <= |arenas| && (a < |arenas| ==> HasRoom(arenas[a]))
    ensures forall j :: i <= j < a ==> !HasRoom(arenas[j])
    decreases |arenas| - i
  {
    if i == |arenas| || HasRoom(arenas[i]) then i else FirstRoom(arenas, i + 1)
  }

  /** A page from the first arena with room, else from a new arena. `os` is where the system would map
      the new arena, if it has room for one. */
  function NewPage(h: Heap, cellSize: nat, os: Option<nat>): Option<Taken>
    requires Structure(h) && IsCellSize(cellSize) && (os.Some? ==> ArenaFits(h, os.value))
  {
    var a := FirstRoom(h.arenas, 0);
    if a < |h.arenas| then
      TakePageKeeps(h, a, cellSize);
      Some(TakePage(h, a, cellSize))
    else if |h.arenas| == MAX_ARENAS - 1 || os.None? then None
    else
      var k := InsertionPoint(h.arenas, os.value, 0);
      AddArenaKeeps(h, os.value);
      TakePageKeeps(AddArena(h, os.value), k, cellSize);
      Some(TakePage(AddArena(h, os.value), k, cellSize))
  }

  lemma AllocatedKeptTrans(a: Heap, b: Heap, c: Heap)
    requires AllocatedKept(a, b) && AllocatedKept(b, c)
    ensures AllocatedKept(a, c)
  {
  }

  /** The page comes from the first arena that has room, and there is one arena more only if none has. */
  ghost predicate FromFirstArena(h: Heap, t: Taken) {
    && (forall a :: 0 <= a < |h.arenas| && HasRoom(h.arenas[a]) && (forall j :: 0 <= j < a ==> !HasRoom(h.arenas[j]))
          ==> |t.heap.arenas| == |h.arenas| && t.page in t.heap.arenas[a].pages)
    && ((forall a :: 0 <= a < |h.arenas| ==> !HasRoom(h.arenas[a])) ==> |t.heap.arenas| == |h.arenas| + 1)
  }

  lemma NewPageKeeps(h: Heap, cellSize: nat, os: Option<nat>)
    requires Structure(h) && IsCellSize(cellSize) && (os.Some? ==> ArenaFits(h, os.value))
    ensures var t := NewPage(h, cellSize, os);
            t.Some? ==>
              && StructureBut(t.value.heap, t.value.page) && AllocatedKept(h, t.value.heap)
              && t.value.heap.pages[t.value.page].cellSize == cellSize
              && t.value.heap.buckets[SmallBucket(cellSize)] != []
              && t.value.heap.buckets[SmallBucket(cellSize)][0] == t.value.page
              && FromFirstArena(h, t.value)
  {
    hide PageOk, ArenasOk, LosOk, LosApart, TakePage, AllocatedKept, ArenaFits, InUse;
    var a := FirstRoom(h.arenas, 0);
    if a < |h.arenas| {
      TakePageKeeps(h, a, cellSize);
    } else if |h.arenas| != MAX_ARENAS - 1 && os.Some? {
      var k := InsertionPoint(h.arenas, os.value, 0);
      AddArenaKeeps(h, os.value);
      TakePageKeeps(AddArena(h, os.value), k, cellSize);
      AllocatedKeptTrans(h, AddArena(h, os.value), TakePage(AddArena(h, os.value), k, cellSize).heap);
    }
  }

  // ----- allocation -----

  /** The page can be allocated from: it is in use, or it has just been taken. */
  ghost predicate CanAlloc(h: Heap, p: nat) {
    && PagesOk(h) && ArenasOk(h) && LosOk(h) && LosApart(h) && Masks(h.white, h.black)
    && p < |h.pages| && !h.pages[p].large && h.pages[p].numFree > 0
    && ListsOk(h, if IsEmptyPage(h.pages[p]) then Some(p) else None)
  }

  lemma AllocRestoresStructure(h: Heap, p: nat)
    requires CanAlloc(h, p)
    ensures Structure(AllocFromPage(h, p))
  {
    hide PageOk, BumpOk, NextCell, LosOk, LosApart;
    AllocFromPageKeeps(h, p);
    var h' := AllocFromPage(h, p);
    assert forall q :: 0 <= q < |h.pages| && q != p ==> h'.pages[q] == h.pages[q];
    assert ArenasOk(h') by {
      forall a | 0 <= a < |h'.arenas| ensures ArenaOk(h', h'.arenas[a]) {
        assert ArenaOk(h, h.arenas[a]);
      }
      forall q | 0 <= q < |h'.pages| ensures AtHome(h', q) {
        assert AtHome(h, q);
      }
    }
    assert ListsOk(h', None) by { AllocLists(h, p); }
    assert LosOk(h') && LosApart(h') by { AllocLos(h, p); }
  }

  lemma AllocLos(h: Heap, p: nat)
    requires CanAlloc(h, p)
    ensures LosOk(AllocFromPage(h, p)) && LosApart(AllocFromPage(h, p))
  {
    hide PageOk, BumpOk, NextCell, ArenaOk, InUse;
  }

  lemma AllocLists(h: Heap, p: nat)
    requires CanAlloc(h, p)
    ensures ListsOk(AllocFromPage(h, p), None)
  {
    hide PageOk, BumpOk, NextCell, LosOk, LosApart, ArenasOk;
    AllocFromPageKeeps(h, p);
    var h' := AllocFromPage(h, p);
    var taken := if IsEmptyPage(h.pages[p]) then Some(p) else None;
    forall q: nat | InUse(h', q, None) ensures q in h'.buckets[SmallBucket(h'.pages[q].cellSize)] {
      assert InUse(h, q, taken);
    }
    forall b, q | 0 <= b < NUM_BUCKETS && q in h'.buckets[b]
      ensures InUse(h', q, None) && b == SmallBucket(h'.pages[q].cellSize) {
      assert InUse(h, q, taken);
    }
  }

  /** A page that has become full goes to the end of its list, unless it is alone there. */
  function Rotate(h: Heap, p: nat, b: nat): Heap
    requires p < |h.pages| && b < |h.buckets|
  {
    var list := h.buckets[b];
    if h.pages[p].numFree == 0 && |list| > 1 then h.(buckets := h.buckets[b := list[1..] + [list[0]]]) else h
  }

  lemma RotateKeeps(h: Heap, p: nat, b: nat)
    requires Structure(h) && p < |h.pages| && b < |h.buckets|
    ensures Structure(Rotate(h, p, b))
  {
    hide PageOk, LosOk, LosApart;
    var h' := Rotate(h, p, b);
    var list := h.buckets[b];
    if h' != h {
      assert list == [list[0]] + list[1..];
      assert forall q :: q in h'.buckets[b] <==> q in list;
      assert ListsOk(h', None) by {
        forall q: nat | InUse(h', q, None) ensures q in h'.buckets[SmallBucket(h'.pages[q].cellSize)] {
          assert InUse(h, q, None);
        }
        forall c, q | 0 <= c < NUM_BUCKETS && q in h'.buckets[c]
          ensures InUse(h', q, None) && c == SmallBucket(h'.pages[q].cellSize) {
          assert q in h.buckets[c] && InUse(h, q, None);
        }
      }
      assert ArenasOk(h') by {
        forall a | 0 <= a < |h'.arenas| ensures ArenaOk(h', h'.arenas[a]) {
          assert ArenaOk(h, h.arenas[a]);
        }
        forall q | 0 <= q < |h'.pages| ensures AtHome(h', q) {
          assert AtHome(h, q);
        }
      }
      assert LosOk(h') && LosApart(h') by { RotateLos(h, p, b); }
    }
  }

  lemma RotateLos(h: Heap, p: nat, b: nat)
    requires LosOk(h) && LosApart(h) && p < |h.pages| && b < |h.buckets|
    ensures LosOk(Rotate(h, p, b)) && LosApart(Rotate(h, p, b))
  {
  }
}

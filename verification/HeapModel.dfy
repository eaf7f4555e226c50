/** The heap: arenas carved into pages, pages of equal cells, page lists by cell size, and the large
    object store. Pages and large objects are entries of one page table, as both have a `PageInfo`.
 */
module HeapModel {
  import opened Basics
  import opened Cells
  import opened Layout
  import opened SizeClasses

  /** A page of cells, or a large object, which is a page of one cell. */
  datatype Page = Page(start: nat, cellSize: nat, numCells: nat, numFree: nat, bump: Option<nat>, large: bool)

  /** An arena: its pages in address order, and those of them that are empty. */
  datatype Arena = Arena(base: nat, pages: seq<nat>, free: seq<nat>)

  datatype Heap = Heap(pages: seq<Page>, bits: Bits, arenas: seq<Arena>, buckets: seq<seq<nat>>, los: seq<nat>,
                       white: bv8, black: bv8)

  const NUM_BUCKETS: nat := 5

  function EmptyHeap(): Heap {
    Heap([], [], [], [[], [], [], [], []], [], 0, 1)
  }

  // ----- small helpers -----

  function CountFree(row: seq<bv8>): nat {
    if row == [] then 0 else (if row[0] == FREE then 1 else 0) + CountFree(row[1..])
  }

  lemma {:induction false} CountFreeUpdate(row: seq<bv8>, c: nat, v: bv8)
    requires c < |row|
    ensures CountFree(row[c := v]) == CountFree(row) - (if row[c] == FREE then 1 else 0) + (if v == FREE then 1 else 0)
  {
    var row' := row[c := v];
    if c == 0 {
      assert row'[1..] == row[1..];
    } else {
      assert row'[1..] == row[1..][c - 1 := v];
      CountFreeUpdate(row[1..], c - 1, v);
    }
  }

  lemma {:induction false} CountFreeBounds(row: seq<bv8>)
    ensures CountFree(row) <= |row|
    ensures CountFree(row) == |row| <==> forall c :: 0 <= c < |row| ==> row[c] == FREE
    ensures CountFree(row) == 0 <==> forall c :: 0 <= c < |row| ==> row[c] != FREE
  {
    if row != [] {
      CountFreeBounds(row[1..]);
      assert forall c :: 0 < c < |row| ==> row[c] == row[1..][c - 1];
      assert forall c :: 0 <= c < |row| - 1 ==> row[1..][c] == row[c + 1];
    }
  }

  function Without(s: seq<nat>, x: nat): (r: seq<nat>)
    ensures forall y :: y in r <==> y in s && y != x
    ensures NoDup(s) ==> NoDup(r)
  {
    if s == [] then [] else
      var t := Without(s[1..], x);
      assert NoDup(s) ==> NoDup(s[1..]);
      if s[0] == x then t else
        assert forall y :: y in s <==> y == s[0] || y in s[1..];
        assert NoDup(s) ==> s[0] !in s[1..];
        [s[0]] + t
  }

  predicate NoDup(s: seq<nat>) {
    forall i, j :: 0 <= i < j < |s| ==> s[i] != s[j]
  }

  function AllFree(n: nat): (row: seq<bv8>)
    ensures |row| == n && (forall c :: 0 <= c < n ==> row[c] == FREE) && CountFree(row) == n
  {
    var row := seq(n, _ => FREE);
    CountFreeBounds(row);
    row
  }

  // ----- the invariant -----

  ghost predicate PageOk(pg: Page, row: seq<bv8>) {
    && pg.numCells == |row|
    && pg.numFree == CountFree(row)
    && (forall c :: 0 <= c < |row| && IsFree(row[c]) ==> row[c] == FREE)
    && if pg.large then pg.numCells == 1
       else && IsCellSize(pg.cellSize) && pg.numCells * pg.cellSize == PAGE_SIZE && pg.start % PAGE_SIZE == 0
            && BumpOk(pg, row)
  }

  /** A bump pointer stands before the last cell, and from it on all cells are free. */
  ghost predicate BumpOk(pg: Page, row: seq<bv8>)
    requires IsCellSize(pg.cellSize) && pg.numCells == |row|
  {
    pg.bump.Some? ==>
      && pg.start <= pg.bump.value
      && (pg.bump.value - pg.start) % pg.cellSize == 0
      && (pg.bump.value - pg.start) / pg.cellSize + 1 < pg.numCells
      && forall c :: (pg.bump.value - pg.start) / pg.cellSize <= c < |row| ==> row[c] == FREE
  }

  ghost predicate PagesOk(h: Heap) {
    |h.pages| == |h.bits| && forall p :: 0 <= p < |h.pages| ==> PageOk(h.pages[p], h.bits[p])
  }

  function PageAddress(base: nat, slot: nat): nat {
    base + FIRST_PAGE + slot * PAGE_SIZE
  }

  /** An arena's pages are small pages at consecutive addresses inside the arena. */
  ghost predicate ArenaOk(h: Heap, a: Arena) {
    && a.base % ARENA_SIZE == 0
    && PageAddress(a.base, |a.pages|) <= a.base + ARENA_SIZE
    && (forall i :: 0 <= i < |a.pages| ==>
          a.pages[i] < |h.pages| && !h.pages[a.pages[i]].large && h.pages[a.pages[i]].start == PageAddress(a.base, i))
    && NoDup(a.free)
    && (forall p :: p in a.free ==> p in a.pages)
  }

  ghost predicate Sorted(arenas: seq<Arena>) {
    forall i, j :: 0 <= i < j < |arenas| ==> arenas[i].base < arenas[j].base
  }

  /** Every small page has a place in exactly one arena: the slot its address says. */
  ghost predicate AtHome(h: Heap, p: nat)
    requires p < |h.pages|
  {
    !h.pages[p].large ==> exists a :: 0 <= a < |h.arenas| && p in h.arenas[a].pages
  }

  ghost predicate ArenasOk(h: Heap) {
    && Sorted(h.arenas)
    && (forall a :: 0 <= a < |h.arenas| ==> ArenaOk(h, h.arenas[a]))
    && (forall p :: 0 <= p < |h.pages| ==> AtHome(h, p))
  }

  predicate IsEmptyPage(pg: Page) {
    pg.numFree == pg.numCells
  }

  ghost predicate InUse(h: Heap, p: nat, taken: Option<nat>) {
    && p < |h.pages| && !h.pages[p].large && IsCellSize(h.pages[p].cellSize)
    && (!IsEmptyPage(h.pages[p]) || taken == Some(p))
  }

  /** A page that is empty is on its arena's free list and nowhere else; any other page is in the
      bucket of its cell size and nowhere else. `taken` is the page being allocated from, which is in
      its bucket already although it is still empty. */
  ghost predicate ListsOk(h: Heap, taken: Option<nat>) {
    && |h.buckets| == NUM_BUCKETS
    && (forall b :: 0 <= b < NUM_BUCKETS ==> NoDup(h.buckets[b]))
    && (forall b, p :: 0 <= b < NUM_BUCKETS && p in h.buckets[b] ==>
          InUse(h, p, taken) && b == SmallBucket(h.pages[p].cellSize))
    && (forall p: nat :: InUse(h, p, taken) ==> p in h.buckets[SmallBucket(h.pages[p].cellSize)])
    && (forall a, p :: 0 <= a < |h.arenas| && p in h.arenas[a].pages && p < |h.pages| ==>
          (p in h.arenas[a].free <==> IsEmptyPage(h.pages[p]) && taken != Some(p)))
  }

  ghost predicate LosOk(h: Heap) {
    && NoDup(h.los)
    && (forall p :: p in h.los ==> p < |h.pages| && h.pages[p].large && !IsEmptyPage(h.pages[p]))
    && (forall p :: 0 <= p < |h.pages| && h.pages[p].large && !IsEmptyPage(h.pages[p]) ==> p in h.los)
  }

  /** Large objects in use lie outside the arenas and apart from each other. */
  ghost predicate LosApart(h: Heap) {
    && (forall p, a :: p in h.los && p < |h.pages| && 0 <= a < |h.arenas| ==>
          h.pages[p].start + h.pages[p].cellSize <= h.arenas[a].base
            || h.arenas[a].base + ARENA_SIZE <= h.pages[p].start)
    && (forall p, q :: p in h.los && q in h.los && p != q && p < |h.pages| && q < |h.pages| ==>
          h.pages[p].start + h.pages[p].cellSize <= h.pages[q].start
            || h.pages[q].start + h.pages[q].cellSize <= h.pages[p].start)
    && (forall p :: p in h.los && p < |h.pages| ==>
          h.pages[p].start > 0 && h.pages[p].start % 8 == 0 && h.pages[p].cellSize > 0)
  }

  /** What holds of the heap at all times outside the allocator. */
  ghost predicate Structure(h: Heap) {
    PagesOk(h) && ArenasOk(h) && ListsOk(h, None) && LosOk(h) && LosApart(h)
  }

  /** Between collections every cell is free or carries the current white. */
  ghost predicate AllSettled(h: Heap) {
    Masks(h.white, h.black) && forall r :: Has(h.bits, r) ==> Settled(Bit(h.bits, r), h.white)
  }

  ghost predicate HeapOk(h: Heap) {
    Structure(h) && AllSettled(h)
  }

  lemma EmptyHeapOk()
    ensures HeapOk(EmptyHeap())
  {
  }

  // ----- finalization -----

  /** Free an allocated cell. A page that becomes empty moves to its arena's free list, and a large
      object leaves the heap. */
  function Finalize(h: Heap, a: nat, r: Ref): Heap
    requires Has(h.bits, r) && r.page < |h.pages|
    requires !h.pages[r.page].large ==>
               a < |h.arenas| && IsCellSize(h.pages[r.page].cellSize) && |h.buckets| == NUM_BUCKETS
  {
    var p := r.page;
    if IsFree(Bit(h.bits, r)) then h else
      var pg := h.pages[p].(numFree := h.pages[p].numFree + 1);
      var h1 := h.(bits := SetBit(h.bits, r, FREE), pages := h.pages[p := pg]);
      if !IsEmptyPage(pg) then h1
      else if pg.large then h1.(los := Without(h.los, p))
      else
        var b := SmallBucket(pg.cellSize);
        h1.(buckets := h.buckets[b := Without(h.buckets[b], p)],
            arenas := h.arenas[a := h.arenas[a].(free := [p] + h.arenas[a].free)])
  }

  lemma HomeUnique(h: Heap, a: nat, i: nat, b: nat, j: nat)
    requires ArenasOk(h) && a < |h.arenas| && b < |h.arenas| && i < |h.arenas[a].pages| && j < |h.arenas[b].pages|
    requires h.arenas[a].pages[i] == h.arenas[b].pages[j]
    ensures a == b && i == j
  {
    var A, B := h.arenas[a], h.arenas[b];
    assert ArenaOk(h, A) && ArenaOk(h, B);
    assert PageAddress(A.base, i) == PageAddress(B.base, j);
    InsideArena(A.base, i, |A.pages|);
    InsideArena(B.base, j, |B.pages|);
    SameArena(A.base, B.base, PageAddress(A.base, i));
  }

  lemma InsideArena(base: nat, slot: nat, count: nat)
    requires slot < count && PageAddress(base, count) <= base + ARENA_SIZE
    ensures base <= PageAddress(base, slot) && PageAddress(base, slot) + PAGE_SIZE <= base + ARENA_SIZE
  {
  }

  /** Two arenas that share an address are the same. */
  lemma SameArena(a: nat, b: nat, x: nat)
    requires a % ARENA_SIZE == 0 && b % ARENA_SIZE == 0 && a <= x < a + ARENA_SIZE && b <= x < b + ARENA_SIZE
    ensures a == b
  {
  }

  lemma FinalizePages(h: Heap, a: nat, r: Ref)
    requires PagesOk(h) && Has(h.bits, r) && !IsFree(Bit(h.bits, r))
    requires !h.pages[r.page].large ==> a < |h.arenas| && |h.buckets| == NUM_BUCKETS
    ensures var h' := Finalize(h, a, r);
            && PagesOk(h') && !IsEmptyPage(h.pages[r.page]) && h'.bits == SetBit(h.bits, r, FREE)
            && SameLayout(h, h') && (!h.pages[r.page].large ==> IsCellSize(h.pages[r.page].cellSize))
            && (forall q :: 0 <= q < |h.pages| && q != r.page ==> h'.pages[q] == h.pages[q])
  {
    var p := r.page;
    assert PageOk(h.pages[p], h.bits[p]);
    hide PageOk;
    FinalizePage(h.pages[p], h.bits[p], r.cell);
    var h' := Finalize(h, a, r);
    assert h'.bits[p] == h.bits[p][r.cell := FREE];
    assert h'.pages[p] == h.pages[p].(numFree := h.pages[p].numFree + 1);
    forall q | 0 <= q < |h.pages| && q != p ensures PageOk(h'.pages[q], h'.bits[q]) {
      assert PageOk(h.pages[q], h.bits[q]);
    }
  }

  lemma FinalizePage(pg: Page, row: seq<bv8>, c: nat)
    requires PageOk(pg, row) && c < |row| && !IsFree(row[c])
    ensures PageOk(pg.(numFree := pg.numFree + 1), row[c := FREE]) && !IsEmptyPage(pg)
    ensures !pg.large ==> IsCellSize(pg.cellSize)
  {
    assert row[c] != FREE;
    CountFreeUpdate(row, c, FREE);
    CountFreeBounds(row);
  }

  lemma FinalizeArenas(h: Heap, a: nat, r: Ref)
    requires PagesOk(h) && ArenasOk(h) && ListsOk(h, None) && Has(h.bits, r) && !IsFree(Bit(h.bits, r))
    requires !h.pages[r.page].large ==> a < |h.arenas| && r.page in h.arenas[a].pages
    ensures ArenasOk(Finalize(h, a, r))
  {
    hide PageOk, BumpOk, CountFree;
    FinalizePages(h, a, r);
    var h' := Finalize(h, a, r);
    forall b | 0 <= b < |h'.arenas| ensures ArenaOk(h', h'.arenas[b]) {
      assert ArenaOk(h, h.arenas[b]);
    }
    forall q | 0 <= q < |h'.pages| ensures AtHome(h', q) {
      assert AtHome(h, q);
      if !h.pages[q].large {
        var b :| 0 <= b < |h.arenas| && q in h.arenas[b].pages;
        assert q in h'.arenas[b].pages;
      }
    }
  }

  lemma FinalizeLists(h: Heap, a: nat, r: Ref)
    requires PagesOk(h) && ArenasOk(h) && ListsOk(h, None) && Has(h.bits, r) && !IsFree(Bit(h.bits, r))
    requires !h.pages[r.page].large ==> a < |h.arenas| && r.page in h.arenas[a].pages
    ensures ListsOk(Finalize(h, a, r), None)
  {
    hide PageOk, BumpOk, CountFree, ArenasOk;
    FinalizePages(h, a, r);
    FinalizeFree(h, a, r);
    var h' := Finalize(h, a, r);
    forall b, q | 0 <= b < NUM_BUCKETS && q in h'.buckets[b]
      ensures InUse(h', q, None) && b == SmallBucket(h'.pages[q].cellSize)
    {
      assert q in h.buckets[b];
      assert InUse(h, q, None) && b == SmallBucket(h.pages[q].cellSize);
    }
    forall q: nat | InUse(h', q, None) ensures q in h'.buckets[SmallBucket(h'.pages[q].cellSize)] {
      assert InUse(h, q, None);
    }
  }

  /** The arenas' free lists hold exactly the empty pages. */
  lemma FinalizeFree(h: Heap, a: nat, r: Ref)
    requires PagesOk(h) && ArenasOk(h) && ListsOk(h, None) && Has(h.bits, r) && !IsFree(Bit(h.bits, r))
    requires !h.pages[r.page].large ==> a < |h.arenas| && r.page in h.arenas[a].pages
    ensures var h' := Finalize(h, a, r);
            forall b, q :: 0 <= b < |h'.arenas| && q in h'.arenas[b].pages && q < |h'.pages| ==>
              (q in h'.arenas[b].free <==> IsEmptyPage(h'.pages[q]))
  {
    hide PageOk, BumpOk, CountFree, InUse;
    FinalizePages(h, a, r);
    var h' := Finalize(h, a, r);
    var p := r.page;
    forall b, q | 0 <= b < |h'.arenas| && q in h'.arenas[b].pages && q < |h'.pages|
      ensures q in h'.arenas[b].free <==> IsEmptyPage(h'.pages[q])
    {
      if q == p && !h.pages[p].large {
        var i :| 0 <= i < |h.arenas[a].pages| && h.arenas[a].pages[i] == p;
        var j :| 0 <= j < |h.arenas[b].pages| && h.arenas[b].pages[j] == p;
        HomeUnique(h, a, i, b, j);
      }
    }
  }

  lemma FinalizeLos(h: Heap, a: nat, r: Ref)
    requires PagesOk(h) && LosOk(h) && LosApart(h) && Has(h.bits, r) && !IsFree(Bit(h.bits, r))
    requires !h.pages[r.page].large ==> a < |h.arenas| && |h.buckets| == NUM_BUCKETS
    ensures LosOk(Finalize(h, a, r)) && LosApart(Finalize(h, a, r))
  {
    hide PageOk, BumpOk, CountFree;
    FinalizePages(h, a, r);
  }

  lemma FinalizeKeeps(h: Heap, a: nat, r: Ref)
    requires Structure(h) && Has(h.bits, r) && !IsFree(Bit(h.bits, r))
    requires !h.pages[r.page].large ==> a < |h.arenas| && r.page in h.arenas[a].pages
    ensures var h' := Finalize(h, a, r);
            && Structure(h') && h'.bits == SetBit(h.bits, r, FREE)
            && h'.white == h.white && h'.black == h.black && SameLayout(h, h')
  {
    hide ArenasOk, LosOk, LosApart, PagesOk, SameLayout, InUse;
    FinalizePages(h, a, r);
    FinalizeArenas(h, a, r);
    FinalizeLists(h, a, r);
    FinalizeLos(h, a, r);
  }

  /** Pages and arenas are where they were; only counters, lists and mark bits may differ. */
  ghost predicate SameLayout(a: Heap, b: Heap) {
    && |a.pages| == |b.pages| && |a.arenas| == |b.arenas|
    && (forall p :: 0 <= p < |a.pages| ==>
          a.pages[p].start == b.pages[p].start && a.pages[p].cellSize == b.pages[p].cellSize
          && a.pages[p].numCells == b.pages[p].numCells && a.pages[p].large == b.pages[p].large
          && a.pages[p].bump == b.pages[p].bump)
    && (forall i :: 0 <= i < |a.arenas| ==>
          a.arenas[i].base == b.arenas[i].base && a.arenas[i].pages == b.arenas[i].pages)
  }
}

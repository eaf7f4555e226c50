/** The first pass of `_ejs_gc_alloc`, and what it grants. */
module Allocator {
  import opened Basics
  import opened Cells
  import opened Layout
  import opened SizeClasses
  import opened HeapModel
  import opened Allocation

  const LARGE_HEADER: nat := 88  // sizeof(LargeObjectInfo)

  /** Where the system would put a mapping of twice the arena size and one for a large object, if it has
      room for them. */
  datatype Os = Os(arena: Option<nat>, large: Option<nat>)

  /** The aligned block that is kept of the mapping for an arena. */
  function ArenaAt(mapping: Option<nat>): Option<nat> {
    if mapping.None? then None else Some(AlignedMapping(mapping.value, ARENA_SIZE, ARENA_SIZE).kept.lo)
  }

  /** No memory; a list outside the table; a cell size in a page record that is not the one meant; a cell. */
  datatype AllocResult = Failed | OutsideTable | BadCellSize(recorded: int) | Got(heap: Heap, ref: Ref)

  function CellAddress(h: Heap, r: Ref): nat
    requires r.page < |h.pages|
  {
    h.pages[r.page].start + r.cell * h.pages[r.page].cellSize
  }

  function FromPage(h: Heap, p: nat, b: nat): (r: AllocResult)
    requires PagesOk(h) && p < |h.pages| && !h.pages[p].large && h.pages[p].numFree > 0 && b < |h.buckets|
    ensures r.Got?
  {
    assert PageOk(h.pages[p], h.bits[p]);
    Got(Rotate(AllocFromPage(h, p), p, b), Ref(p, NextCell(h.pages[p], h.bits[p])))
  }

  /** The first page of the bucket has a free cell. */
  ghost predicate HeadHasRoom(h: Heap, b: nat) {
    b < |h.buckets| && h.buckets[b] != [] && h.buckets[b][0] < |h.pages| && h.pages[h.buckets[b][0]].numFree > 0
  }

  /** From the first page of the bucket if it has a free cell, else from a new page, which must be given
      one of the cell sizes. */
  function AllocSmall(h: Heap, cellSize: int, b: nat, os: Option<nat>): AllocResult
    requires Structure(h) && b < NUM_BUCKETS && (IsCellSize(cellSize) ==> b == SmallBucket(cellSize))
    requires os.Some? ==> ArenaFits(h, os.value)
  {
    hide PagesOk, ArenasOk, LosOk, LosApart, ListsOk, ArenaFits, NewPage, FromPage, AllocatedKept, StructureBut;
    HeadIsSmall(h, b);
    var list := h.buckets[b];
    if list != [] && h.pages[list[0]].numFree > 0 then FromPage(h, list[0], b)
    else if !IsCellSize(cellSize) then BadCellSize(cellSize)
    else
      NewPageKeeps(h, cellSize, os);
      var t := NewPage(h, cellSize, os);
      if t.None? then Failed else
        TakenIsEmpty(t.value.heap, t.value.page);
        FromPage(t.value.heap, t.value.page, b)
  }

  lemma HeadIsSmall(h: Heap, b: nat)
    requires Structure(h) && b < NUM_BUCKETS
    ensures PagesOk(h) && b < |h.buckets|
    ensures h.buckets[b] != [] ==> h.buckets[b][0] < |h.pages| && !h.pages[h.buckets[b][0]].large
  {
    if h.buckets[b] != [] {
      assert h.buckets[b][0] in h.buckets[b] && InUse(h, h.buckets[b][0], None);
    }
  }

  lemma TakenIsEmpty(h: Heap, p: nat)
    requires StructureBut(h, p)
    ensures PagesOk(h) && p < |h.pages| && !h.pages[p].large && h.pages[p].numFree > 0 && |h.buckets| == NUM_BUCKETS
  {
    assert PageOk(h.pages[p], h.bits[p]);
  }

  /** What a page record can hold as a cell size: a C int. */
  const CELL_SIZE_LIMIT: int := 0x8000_0000

  /** What is left of a size in that field. */
  function Recorded(size: nat): (r: int)
    ensures (size - r) % (2 * CELL_SIZE_LIMIT) == 0
    ensures -CELL_SIZE_LIMIT <= r < CELL_SIZE_LIMIT && (size < CELL_SIZE_LIMIT <==> r == size) && r <= size
  {
    (size + CELL_SIZE_LIMIT) % (2 * CELL_SIZE_LIMIT) - CELL_SIZE_LIMIT
  }

  /** A mapping of its own, behind a header and one mark bit. */
  function AllocLarge(h: Heap, size: nat, os: Option<nat>): AllocResult {
    if os.None? then Failed
    else if size >= CELL_SIZE_LIMIT then BadCellSize(Recorded(size))
    else
      var start := AlignUp(os.value + LARGE_HEADER + 8, 8);
      var p := |h.pages|;
      Got(h.(pages := h.pages + [Page(start, size, 1, 0, None, true)],
             bits := h.bits + [[SetAllocated(SetColor(0, h.white))]],
             los := [p] + h.los),
          Ref(p, 0))
  }

  /** The mapping for a large object overlaps nothing mapped before. */
  ghost predicate LargeFits(h: Heap, at: nat, size: nat) {
    && (forall a :: 0 <= a < |h.arenas| ==>
          at + size + LARGE_HEADER + 16 <= h.arenas[a].base || h.arenas[a].base + ARENA_SIZE <= at)
    && (forall p :: p in h.los && p < |h.pages| ==>
          at + size + LARGE_HEADER + 16 <= h.pages[p].start || h.pages[p].start + h.pages[p].cellSize <= at)
  }

  /** The mapping for an arena overlaps nothing mapped before. */
  ghost predicate MappingFits(h: Heap, at: nat) {
    && (forall a :: 0 <= a < |h.arenas| ==>
          at + 2 * ARENA_SIZE <= h.arenas[a].base || h.arenas[a].base + ARENA_SIZE <= at)
    && (forall p :: p in h.los && p < |h.pages| ==>
          at + 2 * ARENA_SIZE <= h.pages[p].start || h.pages[p].start + h.pages[p].cellSize <= at)
  }

  /** The block kept of it is aligned and overlaps nothing either. */
  lemma MappingGivesArena(h: Heap, mapping: Option<nat>)
    requires mapping.Some? ==> MappingFits(h, mapping.value)
    ensures mapping.Some? ==> ArenaFits(h, ArenaAt(mapping).value)
  {
    if mapping.Some? {
      KeptInside(mapping.value);
    }
  }

  lemma KeptInside(at: nat)
    ensures var base := AlignedMapping(at, ARENA_SIZE, ARENA_SIZE).kept.lo;
            base % ARENA_SIZE == 0 && at <= base && base + ARENA_SIZE <= at + 2 * ARENA_SIZE
  {
    hide AlignedMapping;
    AlignedMappingPartitions(at, ARENA_SIZE);
    var m := AlignedMapping(at, ARENA_SIZE, ARENA_SIZE);
    assert InRange(m.kept.lo, m.kept) && InRange(m.kept.hi - 1, m.kept);
    assert InRange(m.kept.lo, Range(at, at + 2 * ARENA_SIZE));
    assert InRange(m.kept.hi - 1, Range(at, at + 2 * ARENA_SIZE));
  }

  ghost predicate OsOk(h: Heap, os: Os, size: nat) {
    && (os.arena.Some? ==> MappingFits(h, os.arena.value))
    && (os.large.Some? ==> LargeFits(h, os.large.value, size))
  }

  function Alloc(h: Heap, size: bv64, os: Os): AllocResult
    requires HeapOk(h) && OsOk(h, os, Bytes(size))
  {
    ClassifyExactly(size);
    MappingGivesArena(h, os.arena);
    match Classify(size)
    case Large => AllocLarge(h, Bytes(size), os.large)
    case Small(cellSize, b) => AllocSmall(h, cellSize, b, ArenaAt(os.arena))
    case OutOfTable => OutsideTable
  }

  // ----- what is granted -----

  ghost predicate Live(h: Heap, r: Ref) {
    Has(h.bits, r) && Bit(h.bits, r) != FREE
  }

  /** From `h` to `h'`, cell `r` has become allocated and white, and nothing else that is allocated has
      changed or moved. */
  ghost predicate Grants(h: Heap, h': Heap, r: Ref) {
    && |h.pages| == |h.bits| && |h'.pages| == |h'.bits| && h'.white == h.white && h'.black == h.black
    && !Live(h, r) && Live(h', r) && Bit(h'.bits, r) == h.white
    && (forall q :: Live(h', q) <==> Live(h, q) || q == r)
    && (forall q :: Live(h, q) ==>
          Bit(h'.bits, q) == Bit(h.bits, q) && h'.pages[q.page].start == h.pages[q.page].start
          && h'.pages[q.page].cellSize == h.pages[q.page].cellSize && h'.pages[q.page].large == h.pages[q.page].large)
  }

  lemma GrantsSettled(h: Heap, h': Heap, r: Ref)
    requires AllSettled(h) && Grants(h, h', r)
    ensures AllSettled(h')
  {
    forall q | Has(h'.bits, q) ensures Settled(Bit(h'.bits, q), h'.white) {
      if Live(h', q) && q != r {
        assert Live(h, q);
      }
    }
  }

  lemma FromPageGrants(h0: Heap, h: Heap, p: nat, b: nat)
    requires CanAlloc(h, p) && AllocatedKept(h0, h) && b < |h.buckets|
    ensures var r := FromPage(h, p, b);
            && Structure(r.heap) && Grants(h0, r.heap, r.ref) && r.ref.page == p && r.ref.page < |r.heap.pages|
            && !r.heap.pages[p].large && r.heap.pages[p].cellSize == h.pages[p].cellSize
  {
    hide PageOk, BumpOk, NextCell, ArenasOk, LosOk, LosApart, InUse;
    AllocFromPageKeeps(h, p);
    AllocRestoresStructure(h, p);
    RotateKeeps(AllocFromPage(h, p), p, b);
    MacroFacts(h.white, h.black);
    var r := FromPage(h, p, b);
    var h' := r.heap;
    assert h'.bits == SetBit(h.bits, r.ref, h.white);
    forall q ensures Live(h', q) <==> Live(h0, q) || q == r.ref {
      assert Live(h', q) <==> Live(h, q) || q == r.ref;
    }
  }

  lemma AllocSmallGrants(h: Heap, cellSize: int, b: nat, os: Option<nat>)
    requires HeapOk(h) && b < NUM_BUCKETS && (IsCellSize(cellSize) ==> b == SmallBucket(cellSize))
    requires os.Some? ==> ArenaFits(h, os.value)
    ensures var r := AllocSmall(h, cellSize, b, os);
            r.Got? ==>
              && HeapOk(r.heap) && Grants(h, r.heap, r.ref) && r.ref.page < |r.heap.pages|
              && !r.heap.pages[r.ref.page].large && IsCellSize(r.heap.pages[r.ref.page].cellSize)
              && b == SmallBucket(r.heap.pages[r.ref.page].cellSize)
  {
    hide PageOk, ArenasOk, LosOk, LosApart, FromPage, NewPage, ArenaFits;
    var list := h.buckets[b];
    if list != [] {
      assert list[0] in h.buckets[b] && InUse(h, list[0], None);
    }
    if list != [] && h.pages[list[0]].numFree > 0 {
      assert CanAlloc(h, list[0]);
      FromPageGrants(h, h, list[0], b);
      GrantsSettled(h, FromPage(h, list[0], b).heap, FromPage(h, list[0], b).ref);
    } else if IsCellSize(cellSize) {
      NewPageKeeps(h, cellSize, os);
      var t := NewPage(h, cellSize, os);
      if t.Some? {
        TakenCanAlloc(t.value.heap, t.value.page);
        FromPageGrants(h, t.value.heap, t.value.page, b);
        var r := FromPage(t.value.heap, t.value.page, b);
        GrantsSettled(h, r.heap, r.ref);
      }
    }
  }

  lemma TakenCanAlloc(h: Heap, p: nat)
    requires StructureBut(h, p) && Masks(h.white, h.black)
    ensures CanAlloc(h, p)
  {
    assert PageOk(h.pages[p], h.bits[p]);
  }

  lemma AllocLargeGrants(h: Heap, size: nat, os: Option<nat>)
    requires HeapOk(h) && size > 0 && (os.Some? ==> LargeFits(h, os.value, size))
    ensures var r := AllocLarge(h, size, os);
            r.Got? ==>
              && HeapOk(r.heap) && Grants(h, r.heap, r.ref) && r.ref.page < |r.heap.pages|
              && r.heap.pages[r.ref.page].large && r.heap.pages[r.ref.page].cellSize == size
              && r.heap.los[..1] == [r.ref.page]
  {
    var r := AllocLarge(h, size, os);
    if r.Got? {
      AllocLargeStructure(h, size, os);
      MacroFacts(h.white, h.black);
      assert Bit(r.heap.bits, r.ref) == h.white;
      assert Grants(h, r.heap, r.ref) by {
        hide Structure;
        assert forall q :: Has(h.bits, q) ==> Bit(r.heap.bits, q) == Bit(h.bits, q);
      }
      GrantsSettled(h, r.heap, r.ref);
    }
  }

  lemma AllocLargeStructure(h: Heap, size: nat, os: Option<nat>)
    requires HeapOk(h) && size > 0 && os.Some? && size < CELL_SIZE_LIMIT && LargeFits(h, os.value, size)
    ensures Structure(AllocLarge(h, size, os).heap)
  {
    hide ArenasOk, ListsOk, LosOk, LosApart;
    LargePages(h, size, os);
    LargeArenas(h, size, os);
    LargeLists(h, size, os);
    LargeLos(h, size, os);
    LargeApart(h, size, os);
  }

  lemma LargePages(h: Heap, size: nat, os: Option<nat>)
    requires PagesOk(h) && Masks(h.white, h.black) && os.Some? && size < CELL_SIZE_LIMIT
    ensures PagesOk(AllocLarge(h, size, os).heap)
  {
    var h' := AllocLarge(h, size, os).heap;
    MacroFacts(h.white, h.black);
    assert CountFree([h.white]) == 0 by { assert CountFree([h.white][1..]) == 0; }
    forall q | 0 <= q < |h'.pages| ensures PageOk(h'.pages[q], h'.bits[q]) {
      if q < |h.pages| {
        assert PageOk(h.pages[q], h.bits[q]);
      }
    }
  }

  lemma LargeLos(h: Heap, size: nat, os: Option<nat>)
    requires LosOk(h) && os.Some? && size < CELL_SIZE_LIMIT
    ensures LosOk(AllocLarge(h, size, os).heap)
  {
    var h' := AllocLarge(h, size, os).heap;
    var p := |h.pages|;
    assert forall q :: q in h'.los <==> q == p || q in h.los;
    assert forall i :: 0 <= i < |h.los| ==> h.los[i] in h.los;
  }

  lemma LargeApart(h: Heap, size: nat, os: Option<nat>)
    requires LosOk(h) && LosApart(h) && size > 0 && os.Some? && size < CELL_SIZE_LIMIT && LargeFits(h, os.value, size)
    ensures LosApart(AllocLarge(h, size, os).heap)
  {
    AlignUpFacts(os.value + LARGE_HEADER + 8, 8);
    hide AlignUp;
    var h' := AllocLarge(h, size, os).heap;
    var p := |h.pages|;
    assert forall q :: q in h'.los <==> q == p || q in h.los;
    assert forall q :: q in h.los ==> q < p && h'.pages[q] == h.pages[q];
  }

  lemma LargeArenas(h: Heap, size: nat, os: Option<nat>)
    requires ArenasOk(h) && os.Some? && size < CELL_SIZE_LIMIT
    ensures ArenasOk(AllocLarge(h, size, os).heap)
  {
    var h' := AllocLarge(h, size, os).heap;
    forall a | 0 <= a < |h'.arenas| ensures ArenaOk(h', h'.arenas[a]) {
      assert ArenaOk(h, h.arenas[a]);
    }
    forall q | 0 <= q < |h'.pages| ensures AtHome(h', q) {
      if q < |h.pages| {
        assert AtHome(h, q);
      }
    }
  }

  lemma LargeLists(h: Heap, size: nat, os: Option<nat>)
    requires ListsOk(h, None) && ArenasOk(h) && os.Some? && size < CELL_SIZE_LIMIT
    ensures ListsOk(AllocLarge(h, size, os).heap, None)
  {
    var h' := AllocLarge(h, size, os).heap;
    forall q: nat | InUse(h', q, None) ensures q in h'.buckets[SmallBucket(h'.pages[q].cellSize)] {
      assert InUse(h, q, None);
    }
    forall b, q | 0 <= b < NUM_BUCKETS && q in h'.buckets[b]
      ensures InUse(h', q, None) && b == SmallBucket(h'.pages[q].cellSize) {
      assert InUse(h, q, None);
    }
    forall a, q | 0 <= a < |h'.arenas| && q in h'.arenas[a].pages && q < |h'.pages|
      ensures q in h'.arenas[a].free <==> IsEmptyPage(h'.pages[q])
    {
      assert ArenaOk(h, h.arenas[a]);
    }
  }

  // ----- addresses -----

  /** Two different allocated cells never overlap. */
  lemma LiveCellsDisjoint(h: Heap, r: Ref, q: Ref)
    requires Structure(h) && Live(h, r) && Live(h, q) && r != q
    ensures r.page < |h.pages| && q.page < |h.pages|
    ensures CellAddress(h, r) + h.pages[r.page].cellSize <= CellAddress(h, q)
         || CellAddress(h, q) + h.pages[q.page].cellSize <= CellAddress(h, r)
  {
    assert PageOk(h.pages[r.page], h.bits[r.page]) && PageOk(h.pages[q.page], h.bits[q.page]);
    if r.page == q.page {
      if r.cell < q.cell {
        CellOrder(r.cell, q.cell, h.pages[r.page].cellSize);
      } else {
        CellOrder(q.cell, r.cell, h.pages[r.page].cellSize);
      }
    } else {
      CellWithin(h, r);
      CellWithin(h, q);
      PagesDisjoint(h, r, q);
    }
  }

  lemma CellOrder(i: nat, j: nat, size: nat)
    requires i < j
    ensures i * size + size <= j * size
  {
    MulMonotone(size, i + 1, j);
    assert size * (i + 1) == i * size + size;
  }

  function Extent(pg: Page): nat {
    if pg.large then pg.cellSize else PAGE_SIZE
  }

  lemma CellWithin(h: Heap, r: Ref)
    requires PagesOk(h) && Has(h.bits, r)
    ensures var pg := h.pages[r.page];
            pg.start <= CellAddress(h, r) && CellAddress(h, r) + pg.cellSize <= pg.start + Extent(pg)
  {
    var pg := h.pages[r.page];
    assert PageOk(pg, h.bits[r.page]);
    CellOrder(r.cell, pg.numCells, pg.cellSize);
  }

  lemma LiveLargeIsListed(h: Heap, r: Ref)
    requires Structure(h) && Live(h, r) && h.pages[r.page].large
    ensures r.page in h.los
  {
    assert PageOk(h.pages[r.page], h.bits[r.page]);
    CountFreeBounds(h.bits[r.page]);
  }

  lemma PagesDisjoint(h: Heap, r: Ref, q: Ref)
    requires Structure(h) && Live(h, r) && Live(h, q) && r.page != q.page
    ensures var a, b := h.pages[r.page], h.pages[q.page];
            a.start + Extent(a) <= b.start || b.start + Extent(b) <= a.start
  {
    hide PageOk, ListsOk;
    if h.pages[r.page].large {
      LiveLargeIsListed(h, r);
    }
    if h.pages[q.page].large {
      LiveLargeIsListed(h, q);
    }
    if !h.pages[r.page].large && !h.pages[q.page].large {
      SmallPagesDisjoint(h, r.page, q.page);
    } else if !h.pages[r.page].large {
      var _, _ := SmallInArena(h, r.page);
    } else if !h.pages[q.page].large {
      var _, _ := SmallInArena(h, q.page);
    }
  }

  lemma SmallInArena(h: Heap, p: nat) returns (a: nat, i: nat)
    requires ArenasOk(h) && p < |h.pages| && !h.pages[p].large
    ensures a < |h.arenas| && i < |h.arenas[a].pages| && h.arenas[a].pages[i] == p
    ensures h.pages[p].start == PageAddress(h.arenas[a].base, i)
    ensures h.arenas[a].base <= h.pages[p].start && h.pages[p].start + PAGE_SIZE <= h.arenas[a].base + ARENA_SIZE
  {
    assert AtHome(h, p);
    a :| 0 <= a < |h.arenas| && p in h.arenas[a].pages;
    i :| 0 <= i < |h.arenas[a].pages| && h.arenas[a].pages[i] == p;
    assert ArenaOk(h, h.arenas[a]);
    InsideArena(h.arenas[a].base, i, |h.arenas[a].pages|);
  }

  lemma SmallPagesDisjoint(h: Heap, p: nat, q: nat)
    requires ArenasOk(h) && p < |h.pages| && q < |h.pages| && p != q && !h.pages[p].large && !h.pages[q].large
    ensures h.pages[p].start + PAGE_SIZE <= h.pages[q].start || h.pages[q].start + PAGE_SIZE <= h.pages[p].start
  {
    var a, i := SmallInArena(h, p);
    var b, j := SmallInArena(h, q);
    assert ArenaOk(h, h.arenas[a]) && ArenaOk(h, h.arenas[b]);
    if a == b {
      assert i != j;
    } else {
      ArenasApart(h.arenas[a].base, h.arenas[b].base);
    }
  }

  lemma ArenasApart(a: nat, b: nat)
    requires a % ARENA_SIZE == 0 && b % ARENA_SIZE == 0 && a != b
    ensures a + ARENA_SIZE <= b || b + ARENA_SIZE <= a
  {
  }

  lemma CellAligned(h: Heap, r: Ref)
    requires Structure(h) && Live(h, r)
    ensures CellAddress(h, r) % 8 == 0
  {
    hide ListsOk, ArenasOk, BumpOk, CountFree;
    var pg := h.pages[r.page];
    assert PageOk(pg, h.bits[r.page]);
    if pg.large {
      LiveLargeIsListed(h, r);
      assert r.cell == 0;
    } else {
      EightDivides(pg.start, r.cell, pg.cellSize);
    }
  }

  lemma EightDivides(start: nat, c: nat, size: nat)
    requires IsCellSize(size) && start % PAGE_SIZE == 0
    ensures (start + c * size) % 8 == 0
  {
    var m, k := start / PAGE_SIZE, size / 8;
    assert c * size == 8 * (c * k) by {
      assert size == 8 * k;
      MulRegroup(c, 8, k);
    }
    var n := (PAGE_SIZE / 8) * m + c * k;
    assert start + c * size == 8 * n;
    MultipleMod(8, n);
  }

  lemma MulRegroup(a: nat, b: nat, c: nat)
    ensures a * (b * c) == b * (a * c) && (a * b) * c == a * (b * c)
  {
  }

  // ----- the outcomes -----

  /** No page can be had: no arena has room, and there may be no further one or the system has none. */
  ghost predicate NoPage(h: Heap, os: Option<nat>) {
    (forall a :: 0 <= a < |h.arenas| ==> !HasRoom(h.arenas[a])) && (|h.arenas| == MAX_ARENAS - 1 || os.None?)
  }

  lemma AllocSmallOutcomes(h: Heap, cellSize: int, b: nat, os: Option<nat>)
    requires HeapOk(h) && b < NUM_BUCKETS && (IsCellSize(cellSize) ==> b == SmallBucket(cellSize))
    requires os.Some? ==> ArenaFits(h, os.value)
    ensures var r := AllocSmall(h, cellSize, b, os);
            && (r.Failed? <==> !HeadHasRoom(h, b) && IsCellSize(cellSize) && NoPage(h, os))
            && (r.BadCellSize? <==> !HeadHasRoom(h, b) && !IsCellSize(cellSize))
            && (r.BadCellSize? ==> r.recorded == cellSize)
            && !r.OutsideTable?
  {
    hide PageOk, ArenasOk, LosOk, LosApart, FromPage, ArenaFits, AllSettled, HasRoom;
    var list := h.buckets[b];
    if list != [] {
      assert list[0] in h.buckets[b] && InUse(h, list[0], None);
    }
    if !HeadHasRoom(h, b) && IsCellSize(cellSize) {
      NewPageKeeps(h, cellSize, os);
    }
  }

  /** When a request finds no memory: the system refuses the mapping for a large object; or the first
      page of the list is full, every arena is full, and there is no new arena. */
  ghost predicate NoMemory(h: Heap, c: Class, os: Os) {
    match c
    case Large => os.large.None?
    case Small(cellSize, b) => !HeadHasRoom(h, b) && IsCellSize(cellSize) && NoPage(h, os.arena)
    case OutOfTable => false
  }

  /** When a record gets a wrong cell size: a large object of 2^31 bytes or more; or a new page for a
      size that is not one of the cell sizes. */
  ghost predicate WrongSize(h: Heap, c: Class, size: nat, os: Os) {
    match c
    case Large => os.large.Some? && size >= CELL_SIZE_LIMIT
    case Small(cellSize, b) => !HeadHasRoom(h, b) && !IsCellSize(cellSize)
    case OutOfTable => false
  }

  /** A small cell lies in an arena, behind the arena's record; a large object lies in its own mapping, behind
      its record and its mark bit. */
  ghost predicate InOwnMemory(h: Heap, r: Ref, mapping: Option<nat>) {
    r.page < |h.pages| &&
    var pg, at := h.pages[r.page], CellAddress(h, r);
    if pg.large then
      && mapping.Some? && mapping.value + LARGE_HEADER + 1 <= at
      && at + pg.cellSize <= mapping.value + LARGE_HEADER + pg.cellSize + 16
    else
      exists a :: 0 <= a < |h.arenas|
                  && h.arenas[a].base + ARENA_HEADER <= at && at + pg.cellSize <= h.arenas[a].base + ARENA_SIZE
  }

  lemma SmallInOwnMemory(h: Heap, r: Ref, mapping: Option<nat>)
    requires Structure(h) && Live(h, r) && !h.pages[r.page].large
    ensures InOwnMemory(h, r, mapping)
  {
    hide ListsOk, LosOk, LosApart;
    var a, i := SmallInArena(h, r.page);
    CellWithin(h, r);
  }

  /** `r` overlaps no other allocated cell. */
  ghost predicate Apart(h: Heap, r: Ref) {
    r.page < |h.pages| &&
    forall q :: Live(h, q) && q != r ==>
      && q.page < |h.pages|
      && (CellAddress(h, r) + h.pages[r.page].cellSize <= CellAddress(h, q)
          || CellAddress(h, q) + h.pages[q.page].cellSize <= CellAddress(h, r))
  }

  /** Allocation is safe: what it returns was free, is white, is aligned to eight, overlaps no other
      allocated cell, and leaves the heap in order and everything allocated before as it was; and it is
      at least as large as asked for exactly if less than 2^31 bytes were asked for. It says when each
      of the other outcomes comes about. */
  lemma AllocIsSafe(h: Heap, size: bv64, os: Os)
    requires HeapOk(h) && OsOk(h, os, Bytes(size))
    ensures var r := Alloc(h, size, os);
            && (r.OutsideTable? <==> GoesNowhere(size))
            && (r.Failed? <==> NoMemory(h, Classify(size), os))
            && (r.BadCellSize? <==> WrongSize(h, Classify(size), Bytes(size), os))
            && (r.BadCellSize? ==>
                  && r.recorded < Bytes(size)
                  && (Classify(size).Large? ==> r.recorded == Recorded(Bytes(size))))
            && (r.Got? ==>
                  && HeapOk(r.heap) && Grants(h, r.heap, r.ref) && r.ref.page < |r.heap.pages|
                  && CellAddress(r.heap, r.ref) % 8 == 0 && Apart(r.heap, r.ref)
                  && InOwnMemory(r.heap, r.ref, os.large)
                  && (Bytes(size) <= r.heap.pages[r.ref.page].cellSize <==> size < 0x8000_0000))
  {
    hide Structure, AllSettled, Grants, AllocSmall, AllocLarge, OsOk, CellAddress, NoMemory, WrongSize, GoesLarge,
      GoesNowhere, Apart, Classify, Bytes, InOwnMemory;
    ClassifyExactly(size);
    ClassOfNat(size);
    LimitAsNat(size);
    var r := Alloc(h, size, os);
    match Classify(size) {
      case OutOfTable => NothingElse(h, size, os);
      case Small(cellSize, b) => AllocGrantsSmall(h, Bytes(size), os, cellSize, b);
      case Large => AllocGrantsLarge(h, Bytes(size), os);
    }
    if r.Got? {
      assert Live(r.heap, r.ref) by { GrantedIsLive(h, r.heap, r.ref); }
      CellAligned(r.heap, r.ref);
      LiveIsApart(r.heap, r.ref);
      if !r.heap.pages[r.ref.page].large {
        SmallInOwnMemory(r.heap, r.ref, os.large);
      }
    }
  }

  lemma NothingElse(h: Heap, size: bv64, os: Os)
    ensures !NoMemory(h, OutOfTable, os) && !WrongSize(h, OutOfTable, Bytes(size), os)
  {
  }

  /** For requests of up to 32 gigabytes: those above 2^31 bytes index outside the table, one of exactly
      2^31 bytes leaves a negative cell size in its record, and all others are served if there is memory. */
  lemma ModestRequests(h: Heap, size: bv64, os: Os)
    requires HeapOk(h) && OsOk(h, os, Bytes(size)) && size <= 0x8_0000_0000
    ensures var r := Alloc(h, size, os);
            && (r.OutsideTable? <==> size > 0x8000_0000)
            && (r.BadCellSize? <==> size == 0x8000_0000 && os.large.Some?)
            && (r.BadCellSize? ==> r.recorded == -0x8000_0000)
  {
    hide HeapOk, OsOk, Alloc, HeadHasRoom, NoPage, GoesLarge, GoesNowhere, Bytes;
    AllocIsSafe(h, size, os);
    ClassifyExactly(size);
    ModestSizes(size);
    LimitAsNat(size);
  }

  /** A cell large enough was handed out. */
  ghost predicate Served(r: AllocResult, size: nat) {
    r.Got? && r.ref.page < |r.heap.pages| && size <= r.heap.pages[r.ref.page].cellSize
  }

  /** A request is served exactly if it is for less than 2^31 bytes and there is memory. */
  lemma ServedExactly(h: Heap, size: bv64, os: Os)
    requires HeapOk(h) && OsOk(h, os, Bytes(size))
    ensures Served(Alloc(h, size, os), Bytes(size)) <==> size < 0x8000_0000 && !NoMemory(h, Classify(size), os)
    ensures Alloc(h, size, os).Failed? <==> NoMemory(h, Classify(size), os)
  {
    hide HeapOk, OsOk, Alloc, NoMemory, WrongSize, GoesNowhere, Classify, Grants, Apart, CellAddress, Bytes;
    AllocIsSafe(h, size, os);
    if size < 0x8000_0000 {
      ModestRequests(h, size, os);
    }
  }

  lemma LimitAsNat(size: bv64)
    ensures size < 0x8000_0000 <==> Bytes(size) < CELL_SIZE_LIMIT
    ensures size <= 0x8000_0000 <==> Bytes(size) <= CELL_SIZE_LIMIT
    ensures size > 128 <==> Bytes(size) > 128
  {
  }

  lemma GrantedIsLive(h: Heap, h': Heap, r: Ref)
    requires Grants(h, h', r)
    ensures Live(h', r)
  {
  }

  lemma LivePage(h: Heap, r: Ref)
    requires Structure(h) && Live(h, r)
    ensures r.page < |h.pages|
  {
  }

  lemma LiveIsApart(h: Heap, r: Ref)
    requires Structure(h) && Live(h, r)
    ensures Apart(h, r)
  {
    hide Structure, CellAddress;
    assert r.page < |h.pages| by { LivePage(h, r); }
    forall q | Live(h, q) && q != r
      ensures q.page < |h.pages|
              && (CellAddress(h, r) + h.pages[r.page].cellSize <= CellAddress(h, q)
                  || CellAddress(h, q) + h.pages[q.page].cellSize <= CellAddress(h, r))
    {
      LiveCellsDisjoint(h, r, q);
    }
  }

  lemma SameNoPage(h: Heap, mapping: Option<nat>)
    ensures NoPage(h, ArenaAt(mapping)) <==> NoPage(h, mapping)
  {
  }

  lemma AllocGrantsSmall(h: Heap, size: nat, os: Os, cellSize: int, b: nat)
    requires HeapOk(h) && OsOk(h, os, size) && b < NUM_BUCKETS && (IsCellSize(cellSize) ==> b == SmallBucket(cellSize))
    requires if size <= 128 then IsCellSize(cellSize) && size <= cellSize
             else size >= CELL_SIZE_LIMIT && cellSize < size
    ensures var r := AllocSmall(h, cellSize, b, ArenaAt(os.arena));
            && (r.Got? ==> HeapOk(r.heap) && Grants(h, r.heap, r.ref) && r.ref.page < |r.heap.pages|
                           && !r.heap.pages[r.ref.page].large
                           && (size <= r.heap.pages[r.ref.page].cellSize <==> size < CELL_SIZE_LIMIT))
            && (r.Failed? <==> NoMemory(h, Small(cellSize, b), os))
            && (r.BadCellSize? <==> WrongSize(h, Small(cellSize, b), size, os))
            && (r.BadCellSize? ==> r.recorded < size)
            && !r.OutsideTable?
  {
    MappingGivesArena(h, os.arena);
    hide Structure, AllSettled, Grants, NoPage, HeadHasRoom, AllocSmall, MappingFits, ArenaFits, AlignedMapping;
    AllocSmallGrants(h, cellSize, b, ArenaAt(os.arena));
    AllocSmallOutcomes(h, cellSize, b, ArenaAt(os.arena));
    assert NoPage(h, ArenaAt(os.arena)) <==> NoPage(h, os.arena) by { SameNoPage(h, os.arena); }
  }

  lemma AllocGrantsLarge(h: Heap, size: nat, os: Os)
    requires HeapOk(h) && size > 0 && OsOk(h, os, size)
    ensures var r := AllocLarge(h, size, os.large);
            && (r.Got? ==> HeapOk(r.heap) && Grants(h, r.heap, r.ref) && r.ref.page < |r.heap.pages|
                           && r.heap.pages[r.ref.page].large && InOwnMemory(r.heap, r.ref, os.large)
                           && (size <= r.heap.pages[r.ref.page].cellSize <==> size < CELL_SIZE_LIMIT))
            && (r.Failed? <==> NoMemory(h, Large, os))
            && (r.BadCellSize? <==> WrongSize(h, Large, size, os))
            && (r.BadCellSize? ==> r.recorded < size && r.recorded == Recorded(size))
            && !r.OutsideTable?
  {
    hide Structure, AllSettled, Grants;
    AllocLargeGrants(h, size, os.large);
    if os.large.Some? {
      AlignUpFacts(os.large.value + LARGE_HEADER + 8, 8);
    }
    hide AlignUp;
  }

  /** What a size class says about the number of bytes. */
  lemma ClassOfNat(size: bv64)
    ensures var c := Classify(size);
            && (c.Large? ==> Bytes(size) > 0)
            && (c.Small? ==> if Bytes(size) <= 128 then IsCellSize(c.cellSize) && Bytes(size) <= c.cellSize
                             else Bytes(size) >= CELL_SIZE_LIMIT && c.cellSize < Bytes(size))
  {
    hide Classify, GoesLarge, GoesNowhere, BucketSize;
    ClassifyExactly(size);
    LimitAsNat(size);
    if size > 128 && Classify(size).Small? {
      TooSmall(size);
    }
  }
}

/** From addresses back to cells: `find_arena_in_array` and `find_page_and_cell_from_arena`. */
module Lookup {
  import opened Basics
  import opened Cells
  import opened Layout
  import opened SizeClasses
  import opened HeapModel
  import opened Allocator

  /** No cell, a cell, or the use of a page entry that is still null. */
  datatype Found = Miss | Hit(ref: Ref) | Fault

  function ArenaBase(x: nat): nat {
    x / ARENA_SIZE * ARENA_SIZE
  }

  function FindArena(arenas: seq<Arena>, base: nat): (r: Option<nat>)
    ensures r.Some? ==> r.value < |arenas| && arenas[r.value].base == base
    ensures r.None? ==> forall i :: 0 <= i < |arenas| ==> arenas[i].base != base
  {
    if arenas == [] then None
    else if arenas[|arenas| - 1].base == base then Some(|arenas| - 1)
    else FindArena(arenas[..|arenas| - 1], base)
  }

  /** The index of the page that would hold address `x`; negative in the arena's header. */
  function PageIndex(base: nat, x: nat): int {
    (x - base - FIRST_PAGE) / PAGE_SIZE
  }

  function FindLarge(pages: seq<Page>, los: seq<nat>, x: nat): Found
    requires forall i :: 0 <= i < |los| ==> los[i] < |pages|
  {
    if los == [] then Miss
    else if pages[los[0]].start == x then Hit(Ref(los[0], 0))
    else FindLarge(pages, los[1..], x)
  }

  function FindInArena(h: Heap, a: nat, x: nat): Found
    requires PagesOk(h) && ArenasOk(h) && a < |h.arenas|
  {
    var A := h.arenas[a];
    assert ArenaOk(h, A);
    var i := PageIndex(A.base, x);
    if i < 0 || i > |A.pages| then Miss
    else if i == |A.pages| then Fault   // the entry after the last page is null, and is used
    else
      var pg := h.pages[A.pages[i]];
      assert PageOk(pg, h.bits[A.pages[i]]);
      if x % pg.cellSize != 0 then Miss
      else
        InSlot(A.base, i, x);
        Hit(Ref(A.pages[i], (x - pg.start) / pg.cellSize))
  }

  lemma InSlot(base: nat, i: int, x: nat)
    requires i == PageIndex(base, x)
    ensures base + FIRST_PAGE + i * PAGE_SIZE <= x < base + FIRST_PAGE + (i + 1) * PAGE_SIZE
  {
  }

  function Find(h: Heap, x: nat): Found
    requires PagesOk(h) && ArenasOk(h) && LosOk(h)
  {
    var a := FindArena(h.arenas, ArenaBase(x));
    if a.Some? then FindInArena(h, a.value, x)
    else
      assert forall i :: 0 <= i < |h.los| ==> h.los[i] in h.los;
      FindLarge(h.pages, h.los, x)
  }

  // ----- round trips -----

  lemma ArenaBaseOf(base: nat, x: nat)
    requires base % ARENA_SIZE == 0 && base <= x < base + ARENA_SIZE
    ensures ArenaBase(x) == base
  {
  }

  lemma {:induction false} FindArenaHits(arenas: seq<Arena>, a: nat)
    requires Sorted(arenas) && a < |arenas|
    ensures FindArena(arenas, arenas[a].base) == Some(a)
  {
    if a < |arenas| - 1 {
      FindArenaHits(arenas[..|arenas| - 1], a);
    }
  }

  lemma CellInPage(start: nat, cellSize: nat, c: nat, numCells: nat)
    requires IsCellSize(cellSize) && numCells * cellSize == PAGE_SIZE && c < numCells && start % PAGE_SIZE == 0
    ensures var x := start + c * cellSize;
            start <= x < start + PAGE_SIZE && x % cellSize == 0 && (x - start) / cellSize == c
  {
    CellOrder(c, numCells, cellSize);
    PageMultiple(start, cellSize, numCells);
    var n := numCells * (start / PAGE_SIZE);
    assert start + c * cellSize == cellSize * (n + c);
    MultipleMod(cellSize, n + c);
    assert c * cellSize == cellSize * c;
    MultipleMod(cellSize, c);
  }

  /** Every cell of a page, allocated or not, is found again from its address. */
  lemma FindSmall(h: Heap, r: Ref)
    requires Structure(h) && Has(h.bits, r) && !h.pages[r.page].large
    ensures Find(h, CellAddress(h, r)) == Hit(r)
  {
    hide ListsOk, LosApart, BumpOk;
    var pg := h.pages[r.page];
    var a, i := SmallInArena(h, r.page);
    assert PageOk(pg, h.bits[r.page]);
    var x := CellAddress(h, r);
    CellInPage(pg.start, pg.cellSize, r.cell, pg.numCells);
    assert ArenaOk(h, h.arenas[a]);
    ArenaBaseOf(h.arenas[a].base, x);
    FindArenaHits(h.arenas, a);
    assert PageIndex(h.arenas[a].base, x) == i;
  }

  lemma {:induction false} FindLargeHits(pages: seq<Page>, los: seq<nat>, p: nat)
    requires forall i :: 0 <= i < |los| ==> los[i] < |pages|
    requires p in los && forall q :: q in los && q != p ==> pages[q].start != pages[p].start
    ensures FindLarge(pages, los, pages[p].start) == Hit(Ref(p, 0))
  {
    if los[0] != p {
      assert los[0] in los;
      assert p in los[1..];
      assert forall i :: 0 <= i < |los[1..]| ==> los[1..][i] == los[i + 1];
      FindLargeHits(pages, los[1..], p);
    }
  }

  /** Every allocated cell, small or large, is found again from its address. */
  lemma FindLive(h: Heap, r: Ref)
    requires Structure(h) && Live(h, r)
    ensures Find(h, CellAddress(h, r)) == Hit(r)
  {
    if !h.pages[r.page].large {
      FindSmall(h, r);
    } else {
      FindLiveLarge(h, r);
    }
  }

  lemma FindLiveLarge(h: Heap, r: Ref)
    requires Structure(h) && Live(h, r) && h.pages[r.page].large
    ensures Find(h, CellAddress(h, r)) == Hit(r)
  {
    OnlyCell(h, r);
    LiveLargeIsListed(h, r);
    hide ListsOk, PagesOk, ArenasOk, ArenaBase, FindLarge, FindInArena, CellAddress;
    LargeOutsideArenas(h, r.page);
    assert forall i :: 0 <= i < |h.los| ==> h.los[i] in h.los;
    FindLargeHits(h.pages, h.los, r.page);
  }

  lemma OnlyCell(h: Heap, r: Ref)
    requires PagesOk(h) && Has(h.bits, r) && h.pages[r.page].large
    ensures r.cell == 0 && CellAddress(h, r) == h.pages[r.page].start
  {
    assert PageOk(h.pages[r.page], h.bits[r.page]);
  }

  lemma LargeOutsideArenas(h: Heap, p: nat)
    requires LosOk(h) && LosApart(h) && p in h.los
    ensures forall a :: 0 <= a < |h.arenas| ==> h.arenas[a].base != ArenaBase(h.pages[p].start)
  {
    forall a | 0 <= a < |h.arenas| ensures h.arenas[a].base != ArenaBase(h.pages[p].start) {
      NotInArena(h.arenas[a].base, h.pages[p].start);
    }
  }

  lemma NotInArena(base: nat, x: nat)
    requires x < base || base + ARENA_SIZE <= x
    ensures ArenaBase(x) != base
  {
  }

  lemma {:induction false} FindLargeExact(pages: seq<Page>, los: seq<nat>, x: nat)
    requires forall i :: 0 <= i < |los| ==> los[i] < |pages|
    ensures var f := FindLarge(pages, los, x);
            !f.Fault? && (f.Hit? ==> f.ref.page in los && f.ref.cell == 0 && pages[f.ref.page].start == x)
  {
    if los != [] && pages[los[0]].start != x {
      FindLargeExact(pages, los[1..], x);
    }
  }

  /** What is found is a cell whose address is exactly the one looked up: pointers into the middle of a
      cell are never taken for it. */
  lemma FindExact(h: Heap, x: nat)
    requires Structure(h)
    ensures var f := Find(h, x);
            f.Hit? ==> Has(h.bits, f.ref) && f.ref.page < |h.pages| && CellAddress(h, f.ref) == x
  {
    hide ListsOk, LosApart, BumpOk;
    var a := FindArena(h.arenas, ArenaBase(x));
    if a.Some? {
      FindInArenaExact(h, a.value, x);
    } else {
      assert forall i :: 0 <= i < |h.los| ==> h.los[i] in h.los;
      FindLargeExact(h.pages, h.los, x);
      var f := Find(h, x);
      if f.Hit? {
        assert PageOk(h.pages[f.ref.page], h.bits[f.ref.page]);
      }
    }
  }

  lemma FindInArenaExact(h: Heap, a: nat, x: nat)
    requires PagesOk(h) && ArenasOk(h) && a < |h.arenas|
    ensures var f := FindInArena(h, a, x);
            f.Hit? ==> Has(h.bits, f.ref) && f.ref.page < |h.pages| && CellAddress(h, f.ref) == x
  {
    var A := h.arenas[a];
    assert ArenaOk(h, A);
    var i := PageIndex(A.base, x);
    if 0 <= i < |A.pages| {
      var pg := h.pages[A.pages[i]];
      assert PageOk(pg, h.bits[A.pages[i]]);
      InSlot(A.base, i, x);
      if x % pg.cellSize == 0 {
        CellAt(pg.start, pg.cellSize, pg.numCells, x);
      }
    }
  }

  lemma CellAt(start: nat, cellSize: nat, numCells: nat, x: nat)
    requires IsCellSize(cellSize) && numCells * cellSize == PAGE_SIZE && start % PAGE_SIZE == 0
    requires start <= x < start + PAGE_SIZE && x % cellSize == 0
    ensures (x - start) / cellSize < numCells && start + (x - start) / cellSize * cellSize == x
  {
    DivExact(x, cellSize);
    PageMultiple(start, cellSize, numCells);
    SlotOf(cellSize, numCells * (start / PAGE_SIZE), numCells, x / cellSize);
  }

  lemma DivExact(x: nat, s: nat)
    requires s > 0 && x % s == 0
    ensures x == s * (x / s)
  {
  }

  lemma PageMultiple(start: nat, cellSize: nat, numCells: nat)
    requires numCells * cellSize == PAGE_SIZE && start % PAGE_SIZE == 0
    ensures start == cellSize * (numCells * (start / PAGE_SIZE))
  {
    var m := start / PAGE_SIZE;
    assert start == PAGE_SIZE * m;
    MulRegroup(numCells, cellSize, m);
  }

  /** The `q`-th multiple of `s`, seen from the `n`-th one. */
  lemma SlotOf(s: nat, n: nat, k: nat, q: nat)
    requires s > 0 && s * n <= s * q < s * n + k * s
    ensures n <= q < n + k && (s * q - s * n) / s == q - n && s * n + (q - n) * s == s * q
  {
    assert n <= q by {
      MulMonotone(s, q + 1, n);
      assert s * (q + 1) == s * q + s;
    }
    var d := q - n;
    assert s * q == s * n + s * d;
    assert d < k by {
      MulMonotone(s, k, d);
      assert s * k == k * s;
    }
    MultipleMod(s, d);
    assert d * s == s * d;
  }

  /** The page of an arena that would be carved next holds `x`. */
  ghost predicate InNextPage(h: Heap, x: nat) {
    exists a :: 0 <= a < |h.arenas| && IsNextPage(h.arenas[a], x)
  }

  ghost predicate IsNextPage(a: Arena, x: nat) {
    && a.base + ARENA_SIZE > x
    && PageAddress(a.base, |a.pages|) <= x < PageAddress(a.base, |a.pages|) + PAGE_SIZE
  }

  /** A lookup is unsafe for exactly one page of addresses per arena that is not full: the page that
      would be carved next. */
  lemma FaultExactly(h: Heap, x: nat)
    requires Structure(h)
    ensures Find(h, x).Fault? <==> InNextPage(h, x)
  {
    hide ListsOk, LosApart, BumpOk;
    forall a | 0 <= a < |h.arenas| && IsNextPage(h.arenas[a], x)
      ensures Find(h, x).Fault?
    {
      assert ArenaOk(h, h.arenas[a]);
      ArenaBaseOf(h.arenas[a].base, x);
      FindArenaHits(h.arenas, a);
    }
    var a := FindArena(h.arenas, ArenaBase(x));
    if a.Some? {
      InSlot(h.arenas[a.value].base, PageIndex(h.arenas[a.value].base, x), x);
      assert ArenaOk(h, h.arenas[a.value]);
    } else {
      assert forall i :: 0 <= i < |h.los| ==> h.los[i] in h.los;
      FindLargeExact(h.pages, h.los, x);
    }
  }

  /** Binary search in the sorted table of arenas finds what the table holds. */
  method SearchArenas(arenas: seq<Arena>, base: nat) returns (r: Option<nat>)
    requires Sorted(arenas)
    ensures r == FindArena(arenas, base)
  {
    var first, lim := 0, |arenas|;
    while lim != 0
      invariant 0 <= lim && 0 <= first && first + lim <= |arenas|
      invariant forall i :: 0 <= i < first ==> arenas[i].base < base
      invariant forall i :: first + lim <= i < |arenas| ==> base < arenas[i].base
      decreases lim
    {
      var p := first + lim / 2;
      if base == arenas[p].base {
        FindArenaHits(arenas, p);
        return Some(p);
      }
      if base > arenas[p].base {
        first := p + 1;
        lim := lim - 1;
      }
      lim := lim / 2;
    }
    return None;
  }

  /** Where a lookup leads does not depend on mark bits or masks. */
  lemma FindIgnoresBits(h: Heap, h': Heap, x: nat)
    requires PagesOk(h) && ArenasOk(h) && LosOk(h) && PagesOk(h') && ArenasOk(h') && LosOk(h')
    requires h'.pages == h.pages && h'.arenas == h.arenas && h'.los == h.los
    ensures Find(h', x) == Find(h, x)
  {
    hide PagesOk, ArenasOk, LosOk;
  }
}

/** The collector itself: global heap state changed in place by loops. Each method is proved to do what
    the function of its step says, so the theorems about those functions hold of it.
 */
module CollectorModule {
  import opened Basics
  import opened Cells
  import opened Layout
  import opened SizeClasses
  import opened HeapModel
  import opened Marking
  import opened Sweeping
  import opened Allocation
  import opened Allocator
  import opened Lookup
  import opened Scanning
  import opened WorkListModule

  class Collector {
    var pages: seq<Page>
    var bits: Bits
    var arenas: seq<Arena>
    var buckets: seq<seq<nat>>
    var los: seq<nat>
    var white: bv8
    var black: bv8
    const work: WorkList

    ghost function View(): Heap
      reads this
    {
      Heap(pages, bits, arenas, buckets, los, white, black)
    }

    ghost predicate Valid()
      reads this, work
    {
      work.Valid()
    }

    ghost function Marks(): Mark
      requires Valid()
      reads this, work
    {
      Mark(bits, work.Contents())
    }

    constructor ()
      ensures Valid() && fresh(work) && View() == EmptyHeap() && work.Contents() == []
    {
      pages, bits, arenas, buckets, los := [], [], [], [[], [], [], [], []], [];
      white, black := 0, 1;
      work := new WorkList();
    }

    // ----- marking -----

    method PushAndGray(r: Ref)
      requires Valid() && Has(bits, r)
      modifies `bits, work
      ensures Valid() && Marks() == Shade(old(Marks()), white, r)
    {
      if HasColor(Bit(bits, r), white) {
        work.Push(Some(r));
        bits := SetBit(bits, r, SetGray(Bit(bits, r)));
      }
    }

    /** From an address to its cell: binary search for the arena, then the page, else the large objects. */
    method FindCell(x: nat) returns (f: Found)
      requires PagesOk(View()) && ArenasOk(View()) && LosOk(View())
      ensures f == Find(View(), x)
    {
      var a := SearchArenas(arenas, ArenaBase(x));
      if a.Some? {
        assert ArenaOk(View(), arenas[a.value]);
        var A := arenas[a.value];
        var i := PageIndex(A.base, x);
        if i < 0 || i > |A.pages| {
          return Miss;
        }
        if i == |A.pages| {
          return Fault;
        }
        var pg := pages[A.pages[i]];
        assert PageOk(pg, bits[A.pages[i]]);
        if x % pg.cellSize != 0 {
          return Miss;
        }
        InSlot(A.base, i, x);
        return Hit(Ref(A.pages[i], (x - pg.start) / pg.cellSize));
      }
      assert forall i :: 0 <= i < |los| ==> los[i] in los;
      f := FindLargeObject(x);
    }

    method FindLargeObject(x: nat) returns (f: Found)
      requires forall i :: 0 <= i < |los| ==> los[i] < |pages|
      ensures f == FindLarge(pages, los, x)
    {
      var i := 0;
      while i < |los|
        invariant 0 <= i <= |los| && FindLarge(pages, los[i..], x) == FindLarge(pages, los, x)
      {
        assert los[i..][0] == los[i] && los[i..][1..] == los[i + 1..];
        if pages[los[i]].start == x {
          return Hit(Ref(los[i], 0));
        }
        i := i + 1;
      }
      return Miss;
    }

    /** One word: null, outside the heap, a free cell, or a cell to shade. */
    method MarkFromWord(x: nat) returns (ok: bool)
      requires Valid() && Structure(View())
      modifies `bits, work
      ensures Valid() && SameCells(old(bits), bits) && Recoloured(old(bits), bits)
      ensures ok == !(x != 0 && Find(old(View()), x).Fault?)
      ensures ok ==> Marks() == ShadeFound(old(View()), old(Marks()), x)
    {
      hide ArenasOk, ListsOk, LosOk, LosApart, BumpOk, Find, SegmentOk, ContentsOf;
      StaysRecoloured(View());
      if x == 0 {
        return true;
      }
      FindExact(View(), x);
      var f := FindCell(x);
      if f.Fault? {
        return false;
      }
      if f.Hit? && !IsFree(Bit(bits, f.ref)) {
        ShadeRecolours(Marks(), white, f.ref);
        PushAndGray(f.ref);
      }
      return true;
    }

    /** The registered roots, the registers and the stack, as the words they hold. */
    method MarkFromWords(words: seq<nat>) returns (ok: bool)
      requires Valid() && Structure(View())
      modifies `bits, work
      ensures Valid() && ok == !AnyInNextPage(old(View()), words)
      ensures ok ==> Marks() == ShadeRoots(old(Marks()), white, Hits(old(View()), words))
    {
      hide PagesOk, ArenasOk, ListsOk, LosOk, LosApart, Find, AnyInNextPage, Recoloured, SegmentOk, ContentsOf,
        ShadeFound;
      ghost var h0, m0 := View(), Marks();
      ScanIsMarking(h0, m0, words);
      StaysRecoloured(h0);
      var i := 0;
      while i < |words|
        invariant 0 <= i <= |words| && Valid() && View() == h0.(bits := bits)
        invariant SameCells(h0.bits, bits) && Recoloured(h0.bits, bits)
        invariant ScanWords(h0, Marks(), words[i..]) == ScanWords(h0, m0, words)
      {
        ghost var bits1, m1 := bits, Marks();
        RecolouredKeeps(h0, bits);
        ScanWordsStep(h0, View(), m1, words, i);
        ok := MarkFromWord(words[i]);
        RecolouredTrans(h0.bits, bits1, bits);
        if !ok {
          return;
        }
        i := i + 1;
      }
      ok := true;
    }

    method ScanPointers(ps: seq<Ref>)
      requires Valid() && AllHave(bits, ps)
      modifies `bits, work
      ensures Valid() && Marks() == ShadeAll(old(Marks()), white, ps)
    {
      var i := 0;
      while i < |ps|
        invariant 0 <= i <= |ps| && Valid() && AllHave(bits, ps[i..])
        invariant ShadeAll(Marks(), white, ps[i..]) == ShadeAll(old(Marks()), white, ps)
      {
        assert ps[i..][0] == ps[i] && ps[i..][1..] == ps[i + 1..];
        PushAndGray(ps[i]);
        i := i + 1;
      }
    }

    /** Blacken the cell just popped and scan what it points to. */
    method ScanObject(p: Ref, contents: Contents)
      requires Valid() && Has(bits, p) && AllHave(bits, Pointers(contents, p))
      modifies `bits, work
      ensures Valid() && Marks() == Scan(Mark(old(bits), old(work.Contents()) + [p]), contents, white, black)
    {
      ghost var m := Mark(bits, work.Contents() + [p]);
      bits := SetBit(bits, p, SetColor(Bit(bits, p), black));
      assert Marks() == Blacken(m, black);
      ScanPointers(if p in contents then contents[p] else []);
    }

    /** The cell just popped is scanned, and the next one popped. */
    method ScanAndPop(p: Ref, contents: Contents) returns (next: Option<Ref>)
      requires Valid() && Has(bits, p) && AllHave(bits, Pointers(contents, p))
      modifies `bits, work
      ensures Valid()
      ensures var m := Scan(Mark(old(bits), old(work.Contents()) + [p]), contents, white, black);
              && bits == m.bits
              && if next.Some? then m.stack == work.Contents() + [next.value] else m.stack == [] == work.Contents()
    {
      hide Scan, AllHave, ContentsOf, SegmentOk;
      ScanObject(p, contents);
      SplitLast(work.Contents());
      next := work.Pop();
    }

    method ProcessWorklist(contents: Contents)
      requires Valid() && TriColour(Marks(), contents, white, black) && Closed(contents)
      modifies `bits, work
      ensures Valid() && Marks() == Drain(old(Marks()), contents, white, black) && work.Contents() == []
    {
      hide TriColour, Closed, Scan, White, Drain, AllHave, ContentsOf, SegmentOk;
      ghost var m := Marks();
      SplitLast(m.stack);
      var p := work.Pop();
      while p.Some?
        invariant Valid() && TriColour(m, contents, white, black)
        invariant Drain(m, contents, white, black) == Drain(old(Marks()), contents, white, black)
        invariant m.bits == bits
        invariant if p.Some? then m.stack == work.Contents() + [p.value] else m.stack == [] == work.Contents()
        decreases |m.stack| + |White(m.bits, white)|
      {
        DrainStep(m, contents, white, black);
        assert m == Mark(bits, work.Contents() + [p.value]) && m.stack[|m.stack| - 1] == p.value;
        m := Scan(m, contents, white, black);
        p := ScanAndPop(p.value, contents);
      }
      DrainDone(m, contents, white, black);
    }

    // ----- sweeping -----

    method FinalizeObject(a: nat, r: Ref)
      requires Has(bits, r) && r.page < |pages|
      requires !pages[r.page].large ==> a < |arenas| && IsCellSize(pages[r.page].cellSize) && |buckets| == NUM_BUCKETS
      modifies this
      ensures View() == Finalize(old(View()), a, r)
    {
      var p := r.page;
      if IsFree(Bit(bits, r)) {
        return;
      }
      bits := SetBit(bits, r, FREE);
      pages := pages[p := pages[p].(numFree := pages[p].numFree + 1)];
      if pages[p].numFree == pages[p].numCells {
        if pages[p].large {
          los := Without(los, p);
        } else {
          var b := SmallBucket(pages[p].cellSize);
          buckets := buckets[b := Without(buckets[b], p)];
          arenas := arenas[a := arenas[a].(free := [p] + arenas[a].free)];
        }
      }
    }

    method SweepOnePage(a: nat, p: nat)
      requires Structure(View()) && a < |arenas| && p in arenas[a].pages
      modifies this
      ensures View() == SweepPage(old(View()), a, p)
    {
      hide Structure, SweepCells, Finalize, HasColor, IsFree, SameLayout, CellsSwept, SetBit, RowsSwept;
      ghost var h0 := View();
      ListedPage(h0, a, p);
      if pages[p].numFree == pages[p].numCells {
        return;
      }
      var c, ce := 0, pages[p].numCells;
      while c < ce
        invariant 0 <= c <= ce && Structure(View()) && a < |arenas| && p in arenas[a].pages
        invariant p < |pages| && pages[p].numCells == ce && !pages[p].large && p < |bits| && |bits[p]| == ce
        invariant SweepCells(View(), a, p, c) == SweepCells(h0, a, p, 0)
      {
        ghost var h := View();
        ListedPage(h, a, p);
        SweepCellsUnfolds(h, a, p, c);
        var v := bits[p][c];
        if !IsFree(v) && HasColor(v, white) {
          FinalizeKeeps(h, a, Ref(p, c));
          FinalizeObject(a, Ref(p, c));
          SameListed(h, View(), a);
          ListedPage(View(), a, p);
        }
        c := c + 1;
      }
      SweepCellsUnfolds(View(), a, p, c);
    }

    method SweepHeap()
      requires Structure(View())
      modifies this
      ensures View() == Sweep(old(View()))
    {
      hide PagesOk, ArenasOk, ListsOk, LosOk, LosApart, RowsSwept, Elements, PagesFrom, SweepPage;
      ghost var h0 := View();
      var a := 0;
      while a < |arenas|
        invariant 0 <= a <= |arenas| && Structure(View())
        invariant SweepArenas(View(), a) == SweepArenas(h0, 0)
      {
        ghost var h1 := View();
        var p := 0;
        while p < |arenas[a].pages|
          invariant Structure(View()) && |arenas| == |h1.arenas| && a < |arenas| && 0 <= p <= |arenas[a].pages|
          invariant SweepPages(View(), a, p) == SweepPages(h1, a, 0)
        {
          ghost var h2 := View();
          var q := arenas[a].pages[p];
          SweepOnePage(a, q);
          SweptKeepsArena(h2, View(), {q}, a);
          p := p + 1;
        }
        assert View() == SweepPages(h1, a, 0);
        a := a + 1;
      }
      SweepLargeObjects();
    }

    method SweepOneObject(p: nat)
      requires Structure(View()) && p in los
      modifies this
      ensures View() == SweepObject(old(View()), p)
    {
      hide ListsOk, LosApart, ArenasOk, BumpOk;
      assert PageOk(pages[p], bits[p]);
      CountFreeBounds(bits[p]);
      assert bits[p][0] != FREE;
      if HasColor(bits[p][0], white) {
        FinalizeObject(0, Ref(p, 0));
      }
    }

    method SweepLargeObjects()
      requires Structure(View())
      modifies this
      ensures View() == SweepLarge(old(View()), old(los))
    {
      hide ListsOk, LosApart, ArenasOk, PagesOk, SweepObject, RowsSwept, Elements;
      var todo := los;
      var i := 0;
      while i < |todo|
        invariant 0 <= i <= |todo| && Structure(View()) && NoDup(todo[i..]) && forall p :: p in todo[i..] ==> p in los
        invariant SweepLarge(View(), todo[i..]) == SweepLarge(old(View()), old(los))
      {
        assert todo[i..][0] == todo[i] && todo[i..][1..] == todo[i + 1..];
        assert todo[i] in todo[i..];
        ghost var h := View();
        SweepOneObject(todo[i]);
        assert forall q :: q in todo[i + 1..] ==> q != todo[i] && q in todo[i..];
        i := i + 1;
      }
    }

    /** One collection: mark from the words, drain the work list, sweep, and swap the masks. */
    method CollectGarbage(contents: Contents, words: seq<nat>) returns (ok: bool)
      requires Valid() && work.Contents() == [] && HeapOk(View()) && Consistent(View(), contents)
      modifies this, work
      ensures Valid() && ok == !AnyInNextPage(old(View()), words)
      ensures ok ==> work.Contents() == [] && View() == Collect(old(View()), contents, Hits(old(View()), words))
    {
      hide Structure, TriColour, Sweep, Drain, ShadeRoots, Recoloured, Closed, Hits, AnyInNextPage;
      ghost var h0 := View();
      ghost var roots := Hits(h0, words);
      MacroFacts(white, black);
      ReadyToMark(h0, contents);
      MarkedIsRecoloured(h0, contents, roots);
      ShadeRootsKeeps(Marks(), contents, StartCells(contents, roots), white, black, roots);
      ok := MarkFromWords(words);
      if !ok {
        return;
      }
      ProcessWorklist(contents);
      assert bits == MarkFrom(h0.bits, contents, white, black, roots).bits;
      RecolouredKeeps(h0, bits);
      SweepFreesWhite(View());
      assert View() == h0.(bits := bits);
      SweepHeap();
      var tmp := black;
      black := white;
      white := tmp;
    }

    // ----- allocation -----

    /** Bump allocation, or a scan of the page's bitmap for a free cell. */
    method AllocCell(p: nat) returns (r: Ref)
      requires PagesOk(View()) && p < |pages| && !pages[p].large && pages[p].numFree > 0
      modifies this
      ensures r == Ref(p, NextCell(old(pages[p]), old(bits[p])))
      ensures View() == AllocFromPage(old(View()), p)
    {
      hide CountFree, BumpOk;
      ghost var h := View();
      assert PageOk(pages[p], bits[p]);
      NextCellIsFree(pages[p], bits[p]);
      var pg := pages[p];
      var cell;
      if pg.bump.Some? {
        cell := (pg.bump.value - pg.start) / pg.cellSize;
        var bump := pg.bump.value + pg.cellSize;
        pg := pg.(bump := if bump + pg.cellSize >= pg.start + PAGE_SIZE then None else Some(bump));
      } else {
        cell := 0;
        while !IsFree(bits[p][cell])
          invariant 0 <= cell <= NextCell(pages[p], bits[p])
          decreases NextCell(pages[p], bits[p]) - cell
        {
          cell := cell + 1;
        }
      }
      r := Ref(p, cell);
      bits := SetBit(bits, r, SetColor(SetAllocated(bits[p][cell]), white));
      pages := pages[p := pg.(numFree := pg.numFree - 1)];
    }

    /** Reuse an empty page of the arena or carve a new one, and put it at the head of its bucket. */
    method AllocPage(a: nat, cellSize: nat) returns (p: nat)
      requires a < |arenas| && HasRoom(arenas[a]) && IsCellSize(cellSize) && |buckets| == NUM_BUCKETS
      requires |pages| == |bits| && forall i :: 0 <= i < |arenas[a].free| ==> arenas[a].free[i] < |pages|
      modifies this
      ensures Taken(View(), p) == TakePage(old(View()), a, cellSize)
    {
      var n := CellsOfSize(cellSize);
      if arenas[a].free != [] {
        p := arenas[a].free[0];
        arenas := arenas[a := arenas[a].(free := arenas[a].free[1..])];
        pages := pages[p := Page(pages[p].start, cellSize, n, n, Some(pages[p].start), false)];
        bits := bits[p := AllFree(n)];
      } else {
        p := |pages|;
        var at := PageAddress(arenas[a].base, |arenas[a].pages|);
        pages := pages + [Page(at, cellSize, n, n, Some(at), false)];
        bits := bits + [AllFree(n)];
        arenas := arenas[a := arenas[a].(pages := arenas[a].pages + [p])];
      }
      var b := SmallBucket(cellSize);
      buckets := buckets[b := [p] + buckets[b]];
    }

    /** Insert a new arena in address order. */
    method NewArena(base: nat) returns (k: nat)
      modifies `arenas
      ensures View() == AddArena(old(View()), base) && k == InsertionPoint(old(arenas), base, 0)
    {
      k := 0;
      while k < |arenas| && base >= arenas[k].base
        invariant 0 <= k <= |arenas| && arenas == old(arenas)
        invariant InsertionPoint(arenas, base, k) == InsertionPoint(arenas, base, 0)
      {
        k := k + 1;
      }
      arenas := arenas[..k] + [Arena(base, [], [])] + arenas[k..];
    }

    /** A page from the first arena with room, else from a new arena if there may be one. */
    method AllocNewPage(cellSize: nat, os: Option<nat>) returns (p: Option<nat>)
      requires Structure(View()) && IsCellSize(cellSize) && (os.Some? ==> ArenaFits(View(), os.value))
      modifies this
      ensures var t := NewPage(old(View()), cellSize, os);
              if t.None? then p == None && View() == old(View()) else p == Some(t.value.page) && View() == t.value.heap
    {
      hide PageOk, ArenasOk, LosOk, LosApart, TakePage, InUse, StructureBut, AllocatedKept;
      ghost var h := View();
      var a := 0;
      while a < |arenas| && !HasRoom(arenas[a])
        invariant 0 <= a <= |arenas| && View() == h && FirstRoom(arenas, a) == FirstRoom(arenas, 0)
      {
        a := a + 1;
      }
      if a < |arenas| {
        TakePageKeeps(h, a, cellSize);
        var q := AllocPage(a, cellSize);
        p := Some(q);
      } else if |arenas| == MAX_ARENAS - 1 || os.None? {
        p := None;
      } else {
        AddArenaKeeps(h, os.value);
        var k := NewArena(os.value);
        TakePageKeeps(View(), k, cellSize);
        var q := AllocPage(k, cellSize);
        p := Some(q);
      }
    }

    method AllocSmallCell(cellSize: int, b: nat, os: Option<nat>) returns (r: Reply)
      requires HeapOk(View()) && b < NUM_BUCKETS && (IsCellSize(cellSize) ==> b == SmallBucket(cellSize))
      requires os.Some? ==> ArenaFits(View(), os.value)
      modifies this
      ensures Answers(AllocSmall(old(View()), cellSize, b, os), r, old(View()), View())
    {
      hide ArenasOk, LosOk, LosApart, AllSettled, NewPage, StructureBut, AllocatedKept, ArenaFits, BumpOk, FromPage;
      ghost var h := View();
      if buckets[b] != [] {
        assert buckets[b][0] in buckets[b] && InUse(h, buckets[b][0], None);
      }
      var p;
      if buckets[b] != [] && pages[buckets[b][0]].numFree > 0 {
        p := buckets[b][0];
      } else if !IsCellSize(cellSize) {
        return WrongCellSize(cellSize);
      } else {
        NewPageKeeps(h, cellSize, os);
        var q := AllocNewPage(cellSize, os);
        if q.None? {
          return NoRoom;
        }
        p := q.value;
        TakenIsEmpty(View(), p);
      }
      var cell := AllocFrom(p, b);
      r := Cell(cell);
    }

    /** A cell of the page, which goes to the end of its list when it has become full. */
    method AllocFrom(p: nat, b: nat) returns (r: Ref)
      requires PagesOk(View()) && p < |pages| && !pages[p].large && pages[p].numFree > 0 && b < |buckets|
      modifies this
      ensures var t := FromPage(old(View()), p, b); r == t.ref && View() == t.heap
    {
      hide PagesOk;
      r := AllocCell(p);
      if pages[p].numFree == 0 && |buckets[b]| > 1 {
        buckets := buckets[b := buckets[b][1..] + [buckets[b][0]]];
      }
    }

    method AllocLargeObject(size: nat, os: Option<nat>) returns (r: Reply)
      modifies this
      ensures Answers(AllocLarge(old(View()), size, os), r, old(View()), View())
    {
      if os.None? {
        return NoRoom;
      }
      if size >= CELL_SIZE_LIMIT {
        return WrongCellSize(Recorded(size));
      }
      var start := AlignUp(os.value + LARGE_HEADER + 8, 8);
      var p := |pages|;
      pages := pages + [Page(start, size, 1, 0, None, true)];
      bits := bits + [[SetAllocated(SetColor(0, white))]];
      los := [p] + los;
      r := Cell(Ref(p, 0));
    }

    /** The first pass of an allocation: the size class decides between the two stores. */
    method Allocate(size: bv64, os: Os) returns (r: Reply)
      requires HeapOk(View()) && OsOk(View(), os, Bytes(size))
      modifies this
      ensures Answers(Alloc(old(View()), size, os), r, old(View()), View())
    {
      hide HeapOk, AllocSmall, AllocLarge, Answers, ArenaFits, MappingFits, LargeFits, Classify, GoesLarge, GoesNowhere,
        AlignedMapping, Bytes;
      ghost var h := View();
      ClassifyExactly(size);
      MappingGivesArena(h, os.arena);
      match Classify(size) {
        case Large =>
          r := AllocLargeObject(Bytes(size), os.large);
        case Small(cellSize, b) =>
          r := AllocSmallCell(cellSize, b, ArenaAt(os.arena));
        case OutOfTable =>
          OutsideAnswer(h);
          return BeyondTable;
      }
    }
  }

  /** What a caller of the allocator sees. */
  datatype Reply = NoRoom | BeyondTable | WrongCellSize(recorded: int) | Cell(ref: Ref)

  /** The reply and the new heap `h'` are those of outcome `t`, and the heap is `h` still if there was no
      memory. Once a list outside the table or a wrong cell size is in use, nothing is said about the heap. */
  ghost predicate Answers(t: AllocResult, r: Reply, h: Heap, h': Heap) {
    match t
    case Got(heap, ref) => r == Cell(ref) && h' == heap
    case Failed => r == NoRoom && h' == h
    case OutsideTable => r == BeyondTable
    case BadCellSize(recorded) => r == WrongCellSize(recorded)
  }

  lemma OutsideAnswer(h: Heap)
    ensures Answers(OutsideTable, BeyondTable, h, h)
  {
  }

  // ----- scanning words -----

  /** What one word does to the marks. */
  ghost function ShadeFound(h: Heap, m: Mark, x: nat): Mark
    requires Structure(h) && SameCells(h.bits, m.bits)
  {
    if x == 0 || !Find(h, x).Hit? then m else
      FindExact(h, x);
      var r := Find(h, x).ref;
      if IsFree(Bit(m.bits, r)) then m else Shade(m, h.white, r)
  }

  lemma StaysRecoloured(h: Heap)
    requires PagesOk(h)
    ensures Recoloured(h.bits, h.bits)
  {
    forall r | Has(h.bits, r) ensures IsFree(Bit(h.bits, r)) ==> Bit(h.bits, r) == FREE {
      assert PageOk(h.pages[r.page], h.bits[r.page]);
    }
  }

  lemma GrayIsAllocated(c: bv8)
    requires !IsFree(c)
    ensures c != FREE && !IsFree(SetGray(c)) && SetGray(c) != FREE
  {
  }

  lemma ShadeRecolours(m: Mark, white: bv8, r: Ref)
    requires Recoloured(m.bits, m.bits) && Has(m.bits, r) && !IsFree(Bit(m.bits, r))
    ensures Recoloured(m.bits, Shade(m, white, r).bits)
  {
    GrayIsAllocated(Bit(m.bits, r));
    hide IsFree, SetGray;
  }

  lemma RecolouredTrans(a: Bits, b: Bits, c: Bits)
    requires Recoloured(a, b) && Recoloured(b, c)
    ensures Recoloured(a, c)
  {
  }

  /** The word at `i`, looked up in a heap whose marks may have changed since the scan began. */
  lemma ScanWordsStep(h: Heap, h': Heap, m: Mark, words: seq<nat>, i: nat)
    requires Structure(h) && Structure(h') && h' == h.(bits := m.bits) && SameCells(h.bits, m.bits) && i < |words|
    ensures Find(h', words[i]) == Find(h, words[i])
    ensures var m' := ShadeFound(h', m, words[i]);
            SameCells(h.bits, m'.bits)
            && ScanWords(h, m, words[i..])
               == if words[i] != 0 && Find(h, words[i]).Fault? then Faulted else ScanWords(h, m', words[i + 1..])
  {
    hide PagesOk, ArenasOk, ListsOk, LosOk, LosApart, Find;
    FindIgnoresBits(h, h', words[i]);
    FindExact(h, words[i]);
    assert words[i..][0] == words[i] && words[i..][1..] == words[i + 1..];
  }

  lemma SplitLast(s: seq<Ref>)
    ensures s != [] ==> s == s[..|s| - 1] + [s[|s| - 1]]
  {
  }
}

/** The sweep phase, and a whole collection: `sweep_heap` and `_ejs_gc_collect_inner`. */
module Sweeping {
  import opened Basics
  import opened Cells
  import opened SizeClasses
  import opened HeapModel
  import opened Marking

  function SweptBit(v: bv8, white: bv8): bv8 {
    if !IsFree(v) && HasColor(v, white) then FREE else v
  }

  function SweptRow(row: seq<bv8>, white: bv8): (r: seq<bv8>)
    ensures |r| == |row| && forall c :: 0 <= c < |row| ==> r[c] == SweptBit(row[c], white)
  {
    seq(|row|, c requires 0 <= c < |row| => SweptBit(row[c], white))
  }

  /** Rows of the pages in `done` have been swept, the others are as they were. */
  ghost predicate RowsSwept(h: Heap, h': Heap, done: set<nat>) {
    && |h.bits| == |h'.bits| && h'.white == h.white && h'.black == h.black && SameLayout(h, h')
    && forall p :: 0 <= p < |h.bits| ==> h'.bits[p] == if p in done then SweptRow(h.bits[p], h.white) else h.bits[p]
  }

  lemma RowsSweptTrans(a: Heap, b: Heap, c: Heap, s: set<nat>, t: set<nat>)
    requires RowsSwept(a, b, s) && RowsSwept(b, c, t)
    ensures RowsSwept(a, c, s + t)
  {
    forall p | 0 <= p < |a.bits| ensures c.bits[p] == if p in s + t then SweptRow(a.bits[p], a.white) else a.bits[p] {
      if p in s && p in t {
        assert SweptRow(SweptRow(a.bits[p], a.white), a.white) == SweptRow(a.bits[p], a.white);
      }
    }
  }

  /** Only cells of page `p` from `c` on have been swept. */
  ghost predicate CellsSwept(h: Heap, h': Heap, p: nat, c: nat) {
    && SameLayout(h, h') && |h'.bits| == |h.bits| && p < |h.bits| && h'.white == h.white && h'.black == h.black
    && (forall q :: 0 <= q < |h.bits| && q != p ==> h'.bits[q] == h.bits[q])
    && |h'.bits[p]| == |h.bits[p]|
    && forall k :: 0 <= k < |h.bits[p]| ==>
         h'.bits[p][k] == if k < c then h.bits[p][k] else SweptBit(h.bits[p][k], h.white)
  }

  /** A page that an arena lists has its mark bits. */
  lemma ListedPage(h: Heap, a: nat, p: nat)
    requires Structure(h) && a < |h.arenas| && p in h.arenas[a].pages
    ensures p < |h.pages| && p < |h.bits| && |h.bits[p]| == h.pages[p].numCells && !h.pages[p].large
    ensures IsCellSize(h.pages[p].cellSize) && |h.buckets| == NUM_BUCKETS
  {
    hide LosOk, LosApart, BumpOk, CountFree;
    assert ArenaOk(h, h.arenas[a]);
    assert PageOk(h.pages[p], h.bits[p]);
  }

  lemma SameListed(h: Heap, h': Heap, a: nat)
    requires SameLayout(h, h') && a < |h.arenas|
    ensures a < |h'.arenas| && h'.arenas[a].pages == h.arenas[a].pages
  {
  }

  lemma CellSwept(h: Heap, h1: Heap, h': Heap, p: nat, c: nat)
    requires p < |h.bits| && c < |h.bits[p]| && CellsSwept(h1, h', p, c + 1)
    requires if !IsFree(h.bits[p][c]) && HasColor(h.bits[p][c], h.white)
             then h1.bits == SetBit(h.bits, Ref(p, c), FREE) && SameLayout(h, h1) && h1.white == h.white
               && h1.black == h.black
             else h1 == h
    ensures CellsSwept(h, h', p, c)
  {
    hide HasColor, IsFree;
  }

  /** The cells of a page from `c` on. */
  function SweepCells(h: Heap, a: nat, p: nat, c: nat): (h': Heap)
    requires Structure(h) && a < |h.arenas| && p in h.arenas[a].pages
    ensures Structure(h') && (c <= h.pages[p].numCells ==> CellsSwept(h, h', p, c))
    decreases h.pages[p].numCells - c
  {
    hide Structure, CellsSwept, Finalize, HasColor, IsFree, SameLayout;
    ListedPage(h, a, p);
    if c >= h.pages[p].numCells then
      NoCellSwept(h, p);
      h
    else
      var v := h.bits[p][c];
      if !IsFree(v) && HasColor(v, h.white) then
        FinalizeKeeps(h, a, Ref(p, c));
        var h1 := Finalize(h, a, Ref(p, c));
        SameListed(h, h1, a);
        ListedPage(h1, a, p);
        var h' := SweepCells(h1, a, p, c + 1);
        CellSwept(h, h1, h', p, c);
        h'
      else
        var h' := SweepCells(h, a, p, c + 1);
        CellSwept(h, h, h', p, c);
        h'
  }

  lemma SweepCellsUnfolds(h: Heap, a: nat, p: nat, c: nat)
    requires Structure(h) && a < |h.arenas| && p in h.arenas[a].pages && c <= |h.bits[p]|
    ensures c == |h.bits[p]| ==> SweepCells(h, a, p, c) == h
    ensures c < |h.bits[p]| && (IsFree(h.bits[p][c]) || !HasColor(h.bits[p][c], h.white)) ==>
              SweepCells(h, a, p, c) == SweepCells(h, a, p, c + 1)
    ensures c < |h.bits[p]| && !IsFree(h.bits[p][c]) && HasColor(h.bits[p][c], h.white) ==>
              Structure(Finalize(h, a, Ref(p, c))) && SameLayout(h, Finalize(h, a, Ref(p, c)))
              && SweepCells(h, a, p, c) == SweepCells(Finalize(h, a, Ref(p, c)), a, p, c + 1)
  {
    ListedPage(h, a, p);
    if c < |h.bits[p]| && !IsFree(h.bits[p][c]) && HasColor(h.bits[p][c], h.white) {
      FinalizeKeeps(h, a, Ref(p, c));
    }
  }

  lemma NoCellSwept(h: Heap, p: nat)
    requires p < |h.bits|
    ensures CellsSwept(h, h, p, |h.bits[p]|)
  {
  }

  /** A page with nothing allocated is skipped. */
  function SweepPage(h: Heap, a: nat, p: nat): (h': Heap)
    requires Structure(h) && a < |h.arenas| && p in h.arenas[a].pages
    ensures Structure(h') && RowsSwept(h, h', {p})
  {
    assert ArenaOk(h, h.arenas[a]);
    assert PageOk(h.pages[p], h.bits[p]);
    CountFreeBounds(h.bits[p]);
    if IsEmptyPage(h.pages[p]) then
      assert h.bits[p] == SweptRow(h.bits[p], h.white);
      h
    else
      var h' := SweepCells(h, a, p, 0);
      assert h'.bits[p] == SweptRow(h.bits[p], h.white);
      h'
  }

  function Elements(s: seq<nat>): set<nat> {
    set x | x in s
  }

  function SweepPages(h: Heap, a: nat, i: nat): (h': Heap)
    requires Structure(h) && a < |h.arenas| && i <= |h.arenas[a].pages|
    ensures Structure(h') && RowsSwept(h, h', Elements(h.arenas[a].pages[i..]))
    decreases |h.arenas[a].pages| - i
  {
    hide Structure, RowsSwept, Elements;
    if i == |h.arenas[a].pages| then
      NothingSwept(h, h.arenas[a].pages[i..]);
      h
    else
      var h1 := SweepPage(h, a, h.arenas[a].pages[i]);
      SweptKeepsArena(h, h1, {h.arenas[a].pages[i]}, a);
      var h2 := SweepPages(h1, a, i + 1);
      OneThenRest(h, h1, h2, h.arenas[a].pages, i);
      h2
  }

  lemma NothingSwept(h: Heap, s: seq<nat>)
    requires s == []
    ensures RowsSwept(h, h, Elements(s))
  {
  }

  lemma SweptKeepsArena(h: Heap, h': Heap, done: set<nat>, a: nat)
    requires RowsSwept(h, h', done) && a < |h.arenas|
    ensures |h'.arenas| == |h.arenas| && h'.arenas[a].pages == h.arenas[a].pages
  {
  }

  lemma OneThenRest(h: Heap, h1: Heap, h2: Heap, ps: seq<nat>, i: nat)
    requires i < |ps| && RowsSwept(h, h1, {ps[i]}) && RowsSwept(h1, h2, Elements(ps[i + 1..]))
    ensures RowsSwept(h, h2, Elements(ps[i..]))
  {
    RowsSweptTrans(h, h1, h2, {ps[i]}, Elements(ps[i + 1..]));
    assert ps[i..] == [ps[i]] + ps[i + 1..];
    assert {ps[i]} + Elements(ps[i + 1..]) == Elements(ps[i..]);
  }

  function PagesFrom(h: Heap, a: nat): set<nat>
    requires a <= |h.arenas|
  {
    set i, p | a <= i < |h.arenas| && p in h.arenas[i].pages :: p
  }

  function SweepArenas(h: Heap, a: nat): (h': Heap)
    requires Structure(h) && a <= |h.arenas|
    ensures Structure(h') && RowsSwept(h, h', PagesFrom(h, a))
    decreases |h.arenas| - a
  {
    hide Structure, RowsSwept, PagesFrom, Elements;
    if a == |h.arenas| then
      NoArenaSwept(h);
      h
    else
      var h1 := SweepPages(h, a, 0);
      SweptKeepsArena(h, h1, Elements(h.arenas[a].pages[0..]), a);
      var h2 := SweepArenas(h1, a + 1);
      ArenaThenRest(h, h1, h2, a);
      h2
  }

  lemma NoArenaSwept(h: Heap)
    ensures RowsSwept(h, h, PagesFrom(h, |h.arenas|))
  {
    assert PagesFrom(h, |h.arenas|) == {};
  }

  lemma ArenaThenRest(h: Heap, h1: Heap, h2: Heap, a: nat)
    requires a < |h.arenas| && RowsSwept(h, h1, Elements(h.arenas[a].pages[0..]))
    requires |h1.arenas| == |h.arenas| && RowsSwept(h1, h2, PagesFrom(h1, a + 1))
    ensures RowsSwept(h, h2, PagesFrom(h, a))
  {
    hide SweptRow;
    var ps := h.arenas[a].pages;
    assert ps[0..] == ps;
    RowsSweptTrans(h, h1, h2, Elements(ps), PagesFrom(h1, a + 1));
    assert PagesFrom(h1, a + 1) == PagesFrom(h, a + 1);
    assert Elements(ps) + PagesFrom(h, a + 1) == PagesFrom(h, a);
  }

  /** The large object store, walked along a copy of its list: white objects are detached and released. */
  function SweepLarge(h: Heap, todo: seq<nat>): (h': Heap)
    requires Structure(h) && NoDup(todo) && forall p :: p in todo ==> p in h.los
    ensures Structure(h') && RowsSwept(h, h', Elements(todo))
    decreases |todo|
  {
    hide ArenasOk, ListsOk, LosOk, LosApart, PagesOk, SweptRow;
    if todo == [] then h else
      var p := todo[0];
      var h1 := SweepObject(h, p);
      assert forall q :: q in todo[1..] ==> q != p && q in todo;
      var h2 := SweepLarge(h1, todo[1..]);
      RowsSweptTrans(h, h1, h2, {p}, Elements(todo[1..]));
      assert {p} + Elements(todo[1..]) == Elements(todo);
      h2
  }

  function SweepObject(h: Heap, p: nat): (h': Heap)
    requires Structure(h) && p in h.los
    ensures Structure(h') && RowsSwept(h, h', {p})
    ensures forall q :: q in h.los && q != p ==> q in h'.los
  {
    assert PageOk(h.pages[p], h.bits[p]);
    CountFreeBounds(h.bits[p]);
    assert h.bits[p][0] != FREE;
    if HasColor(h.bits[p][0], h.white) then
      FinalizeKeeps(h, 0, Ref(p, 0));
      var h' := Finalize(h, 0, Ref(p, 0));
      assert h'.bits[p] == SweptRow(h.bits[p], h.white);
      h'
    else
      assert h.bits[p] == SweptRow(h.bits[p], h.white);
      h
  }

  /** The whole heap: all arenas, then the large objects. */
  function Sweep(h: Heap): (h': Heap)
    requires Structure(h)
    ensures Structure(h')
  {
    hide ArenasOk, ListsOk, LosApart, PagesOk, RowsSwept;
    var h1 := SweepArenas(h, 0);
    SweepLarge(h1, h1.los)
  }

  /** Sweeping frees exactly the white cells, wherever they are. */
  lemma SweepFreesWhite(h: Heap)
    requires Structure(h)
    ensures var h' := Sweep(h);
            && SameLayout(h, h') && h'.white == h.white && h'.black == h.black && |h'.bits| == |h.bits|
            && forall p :: 0 <= p < |h.bits| ==> h'.bits[p] == SweptRow(h.bits[p], h.white)
  {
    hide ArenasOk, ListsOk, LosApart, PagesOk, RowsSwept, SweepArenas, SweepLarge, PagesFrom, Elements, SameLayout,
      SweptRow;
    var h1 := SweepArenas(h, 0);
    var h2 := SweepLarge(h1, h1.los);
    RowsSweptTrans(h, h1, h2, PagesFrom(h, 0), Elements(h1.los));
    EverythingSwept(h, h1, h2);
  }

  lemma EverythingSwept(h: Heap, h1: Heap, h2: Heap)
    requires Structure(h) && Structure(h1) && RowsSwept(h, h1, PagesFrom(h, 0))
    requires RowsSwept(h, h2, PagesFrom(h, 0) + Elements(h1.los))
    ensures SameLayout(h, h2) && h2.white == h.white && h2.black == h.black && |h2.bits| == |h.bits|
    ensures forall p :: 0 <= p < |h.bits| ==> h2.bits[p] == SweptRow(h.bits[p], h.white)
  {
    hide Structure, PagesFrom;
    forall p | 0 <= p < |h.bits|
      ensures h2.bits[p] == SweptRow(h.bits[p], h.white)
    {
      if p !in PagesFrom(h, 0) + Elements(h1.los) {
        UnsweptIsFree(h, h1, p);
        assert h.bits[p] == SweptRow(h.bits[p], h.white);
      }
    }
  }

  /** A page on neither list has nothing allocated. */
  lemma UnsweptIsFree(h: Heap, h1: Heap, p: nat)
    requires Structure(h) && Structure(h1) && RowsSwept(h, h1, PagesFrom(h, 0)) && p < |h.bits|
    requires p !in PagesFrom(h, 0) && p !in h1.los
    ensures forall c :: 0 <= c < |h.bits[p]| ==> h.bits[p][c] == FREE
  {
    hide ListsOk, LosApart, BumpOk;
    assert AtHome(h, p);
    assert PageOk(h1.pages[p], h1.bits[p]);
    CountFreeBounds(h1.bits[p]);
  }

  // ----- a collection -----

  function Allocated(h: Heap): (s: set<Ref>)
    ensures forall r :: r in s <==> Has(h.bits, r) && !IsFree(Bit(h.bits, r))
  {
    set r | r in AllCells(h.bits) && !IsFree(Bit(h.bits, r))
  }

  /** The mutator's view fits the heap: exactly the allocated cells hold objects, and objects point only
      to objects. */
  ghost predicate Consistent(h: Heap, contents: Contents) {
    contents.Keys == Allocated(h) && Closed(contents)
  }

  lemma ReadyToMark(h: Heap, contents: Contents)
    requires HeapOk(h) && Consistent(h, contents)
    ensures TriColour(Mark(h.bits, []), contents, h.white, h.black)
    ensures forall r :: r in contents ==> Has(h.bits, r) && Bit(h.bits, r) == h.white
  {
    hide Structure;
    MacroFacts(h.white, h.black);
  }

  /** New mark bits that free and allocate nothing. */
  ghost predicate Recoloured(a: Bits, b: Bits) {
    SameCells(a, b) && forall r :: Has(a, r) && Has(b, r) ==>
      (Bit(a, r) == FREE <==> Bit(b, r) == FREE) && (IsFree(Bit(b, r)) ==> Bit(b, r) == FREE)
  }

  lemma {:induction false} SameFreeCount(a: seq<bv8>, b: seq<bv8>)
    requires |a| == |b| && forall c :: 0 <= c < |a| ==> (a[c] == FREE <==> b[c] == FREE)
    ensures CountFree(a) == CountFree(b)
  {
    if a != [] {
      SameFreeCount(a[1..], b[1..]);
    }
  }

  lemma RecolouredPages(h: Heap, bits: Bits)
    requires PagesOk(h) && Recoloured(h.bits, bits)
    ensures PagesOk(h.(bits := bits))
  {
    forall p | 0 <= p < |h.pages| ensures PageOk(h.pages[p], bits[p]) {
      assert PageOk(h.pages[p], h.bits[p]);
      forall c | 0 <= c < |bits[p]|
        ensures h.bits[p][c] == FREE <==> bits[p][c] == FREE
        ensures IsFree(bits[p][c]) ==> bits[p][c] == FREE
      {
        assert Bit(bits, Ref(p, c)) == bits[p][c] && Bit(h.bits, Ref(p, c)) == h.bits[p][c];
      }
      SameFreeCount(h.bits[p], bits[p]);
    }
  }

  /** What the lists and arenas say does not depend on mark bits or masks. */
  lemma SameTablesKeep(h: Heap, h': Heap)
    requires Structure(h) && PagesOk(h')
    requires h'.pages == h.pages && h'.arenas == h.arenas && h'.buckets == h.buckets && h'.los == h.los
    ensures Structure(h')
  {
    SameArenas(h, h');
    SameLists(h, h');
    hide PagesOk, ArenasOk, ListsOk;
    assert LosOk(h') && LosApart(h');
  }

  lemma SameArenas(h: Heap, h': Heap)
    requires ArenasOk(h) && h'.pages == h.pages && h'.arenas == h.arenas
    ensures ArenasOk(h')
  {
    forall a | 0 <= a < |h.arenas| ensures ArenaOk(h', h'.arenas[a]) {
      assert ArenaOk(h, h.arenas[a]);
    }
    forall p | 0 <= p < |h.pages| ensures AtHome(h', p) {
      assert AtHome(h, p);
    }
  }

  lemma SameLists(h: Heap, h': Heap)
    requires ListsOk(h, None) && h'.pages == h.pages && h'.arenas == h.arenas && h'.buckets == h.buckets
    ensures ListsOk(h', None)
  {
    forall p: nat ensures InUse(h', p, None) <==> InUse(h, p, None) {
    }
    hide InUse;
  }

  lemma RecolouredKeeps(h: Heap, bits: Bits)
    requires Structure(h) && Recoloured(h.bits, bits)
    ensures Structure(h.(bits := bits))
  {
    RecolouredPages(h, bits);
    hide Structure, PagesOk;
    SameTablesKeep(h, h.(bits := bits));
  }

  /** Mark, sweep, and swap the meaning of the two colour masks. */
  function Collect(h: Heap, contents: Contents, roots: seq<Ref>): Heap
    requires HeapOk(h) && Consistent(h, contents) && AllHave(h.bits, roots)
  {
    ReadyToMark(h, contents);
    var m := MarkFrom(h.bits, contents, h.white, h.black, roots);
    MarkedIsRecoloured(h, contents, roots);
    RecolouredKeeps(h, m.bits);
    var h1 := Sweep(h.(bits := m.bits));
    h1.(white := h.black, black := h.white)
  }

  lemma MarkedIsRecoloured(h: Heap, contents: Contents, roots: seq<Ref>)
    requires HeapOk(h) && Consistent(h, contents) && AllHave(h.bits, roots)
    requires TriColour(Mark(h.bits, []), contents, h.white, h.black)
    requires forall r :: r in contents ==> Has(h.bits, r) && Bit(h.bits, r) == h.white
    ensures Recoloured(h.bits, MarkFrom(h.bits, contents, h.white, h.black, roots).bits)
  {
    hide Structure, MarkFrom;
    MacroFacts(h.white, h.black);
    MarkingIsExact(h.bits, contents, h.white, h.black, roots);
  }

  /** Changing which mask is white changes no list, counter or address. */
  lemma SwapKeeps(h: Heap, white: bv8, black: bv8)
    requires Structure(h)
    ensures Structure(h.(white := white, black := black))
  {
    var h' := h.(white := white, black := black);
    assert PagesOk(h') by {
      forall p | 0 <= p < |h.pages| ensures PageOk(h'.pages[p], h'.bits[p]) {
        assert PageOk(h.pages[p], h.bits[p]);
      }
    }
    hide Structure, PagesOk;
    SameTablesKeep(h, h');
  }

  /** A collection is safe and exact: what is allocated afterwards is exactly what was reachable from the
      allocated roots, every survivor is white for the next round, and the heap is in order. */
  lemma CollectIsExact(h: Heap, contents: Contents, roots: seq<Ref>)
    requires HeapOk(h) && Consistent(h, contents) && AllHave(h.bits, roots)
    ensures var h' := Collect(h, contents, roots);
            && HeapOk(h') && SameLayout(h, h') && SameCells(h.bits, h'.bits)
            && h'.white == h.black && h'.black == h.white
            && (forall r :: r in Allocated(h') <==> Reachable(contents, StartCells(contents, roots), r))
  {
    hide PagesOk, ArenasOk, ListsOk, LosOk, LosApart, Sweep, MarkFrom, SameLayout, Reachable;
    ReadyToMark(h, contents);
    MarkedIsRecoloured(h, contents, roots);
    var m := MarkFrom(h.bits, contents, h.white, h.black, roots);
    RecolouredKeeps(h, m.bits);
    var marked := h.(bits := m.bits);
    var swept := Sweep(marked);
    SweepFreesWhite(marked);
    SwapKeeps(swept, h.black, h.white);
    SameLayoutRecoloured(h, m.bits, swept, h.black, h.white);
    MarkingIsExact(h.bits, contents, h.white, h.black, roots);
    MacroFacts(h.white, h.black);
    var h' := Collect(h, contents, roots);
    var start := StartCells(contents, roots);
    forall r | Has(h.bits, r)
      ensures Has(h'.bits, r)
      ensures Bit(h'.bits, r) == if r in contents && Reachable(contents, start, r) then h.black else FREE
    {
      assert Bit(h'.bits, r) == SweptBit(Bit(m.bits, r), h.white);
    }
    forall r | Reachable(contents, start, r) ensures r in contents {
      ReachableIsAllocated(contents, start, r);
    }
  }

  lemma SameLayoutRecoloured(h: Heap, bits: Bits, h1: Heap, white: bv8, black: bv8)
    requires SameLayout(h.(bits := bits), h1)
    ensures SameLayout(h, h1.(white := white, black := black))
  {
  }

  lemma {:induction false} PathStaysAllocated(contents: Contents, start: set<Ref>, p: Path)
    requires Closed(contents) && IsPath(contents, start, p)
    ensures p.at in contents
  {
    if p.Follow? {
      var i :| 0 <= i < |contents[p.before.at]| && contents[p.before.at][i] == p.at;
    }
  }

  lemma ReachableIsAllocated(contents: Contents, start: set<Ref>, r: Ref)
    requires Closed(contents) && Reachable(contents, start, r)
    ensures r in contents
  {
    var p: Path :| IsPath(contents, start, p) && p.at == r;
    PathStaysAllocated(contents, start, p);
  }
}

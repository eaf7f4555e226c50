/** The mark phase: `WORKLIST_PUSH_AND_GRAY`, `mark_from_roots` and `process_worklist`. */
module Marking {
  import opened Cells

  /** Mark bits and the work list, its top last. */
  datatype Mark = Mark(bits: Bits, stack: seq<Ref>)

  /** For every allocated cell, the cells its object points to. */
  type Contents = map<Ref, seq<Ref>>

  predicate AllHave(bits: Bits, rs: seq<Ref>) {
    forall i :: 0 <= i < |rs| ==> Has(bits, rs[i])
  }

  /** Push a white cell and make it gray. */
  function Shade(m: Mark, white: bv8, r: Ref): Mark
    requires Has(m.bits, r)
  {
    if HasColor(Bit(m.bits, r), white) then Mark(SetBit(m.bits, r, SetGray(Bit(m.bits, r))), m.stack + [r]) else m
  }

  function ShadeAll(m: Mark, white: bv8, rs: seq<Ref>): (m': Mark)
    requires AllHave(m.bits, rs)
    ensures SameCells(m.bits, m'.bits)
    decreases |rs|
  {
    if rs == [] then m else ShadeAll(Shade(m, white, rs[0]), white, rs[1..])
  }

  /** Roots are found conservatively, so free cells among them are skipped. */
  function ShadeRoots(m: Mark, white: bv8, roots: seq<Ref>): (m': Mark)
    requires AllHave(m.bits, roots)
    ensures SameCells(m.bits, m'.bits)
    decreases |roots|
  {
    if roots == [] then m
    else ShadeRoots(if IsFree(Bit(m.bits, roots[0])) then m else Shade(m, white, roots[0]), white, roots[1..])
  }

  function Pointers(contents: Contents, r: Ref): seq<Ref> {
    if r in contents then contents[r] else []
  }

  // ----- the invariant of marking -----

  ghost predicate Closed(contents: Contents) {
    forall r, i :: r in contents && 0 <= i < |contents[r]| ==> contents[r][i] in contents
  }

  datatype Path = Begin(at: Ref) | Follow(before: Path, at: Ref)

  ghost predicate IsPath(contents: Contents, start: set<Ref>, p: Path) {
    match p
    case Begin(r) => r in start && r in contents
    case Follow(q, r) => IsPath(contents, start, q) && q.at in contents && r in contents[q.at]
  }

  /** A pointer path leads from a start cell to `r`. */
  ghost predicate Reachable(contents: Contents, start: set<Ref>, r: Ref) {
    exists p: Path :: IsPath(contents, start, p) && p.at == r
  }

  /** Free cells are free, allocated cells have one of the three colours, and the gray ones are
      exactly those on the work list, each of them once. */
  ghost predicate TriColour(m: Mark, contents: Contents, white: bv8, black: bv8) {
    && Masks(white, black)
    && (forall r :: r in contents ==> Has(m.bits, r))
    && (forall r :: Has(m.bits, r) ==>
          if r in contents then Bit(m.bits, r) == white || Bit(m.bits, r) == GRAY || Bit(m.bits, r) == black
          else Bit(m.bits, r) == FREE)
    && (forall i :: 0 <= i < |m.stack| ==> m.stack[i] in contents && Bit(m.bits, m.stack[i]) == GRAY)
    && (forall r :: r in contents && Bit(m.bits, r) == GRAY ==> r in m.stack)
    && (forall i, j :: 0 <= i < j < |m.stack| ==> m.stack[i] != m.stack[j])
  }

  /** Everything marked is reachable. */
  ghost predicate OnlyReachable(m: Mark, contents: Contents, start: set<Ref>, white: bv8) {
    forall r :: r in contents && Has(m.bits, r) && Bit(m.bits, r) != white ==> Reachable(contents, start, r)
  }

  /** No black cell points to a white one. */
  ghost predicate NoBlackToWhite(m: Mark, contents: Contents, white: bv8, black: bv8) {
    forall r, i :: (r in contents && Has(m.bits, r) && Bit(m.bits, r) == black
                    && 0 <= i < |contents[r]| && Has(m.bits, contents[r][i]))
                   ==> Bit(m.bits, contents[r][i]) != white
  }

  ghost predicate StartShaded(m: Mark, start: set<Ref>, white: bv8) {
    forall r :: r in start && Has(m.bits, r) ==> Bit(m.bits, r) != white
  }

  // ----- every step keeps it -----

  /** Only white cells change, and only to gray, with one push for each. */
  ghost predicate Shades(a: Mark, b: Mark, contents: Contents, white: bv8, rs: seq<Ref>) {
    && (forall r :: r in contents ==> Has(a.bits, r) && Has(b.bits, r))
    && (forall r :: r in contents ==>
          Bit(b.bits, r) == Bit(a.bits, r) || (r in rs && Bit(a.bits, r) == white && Bit(b.bits, r) == GRAY))
    && White(b.bits, white) <= White(a.bits, white)
    && |b.stack| + |White(b.bits, white)| == |a.stack| + |White(a.bits, white)|
    && (a == b || White(b.bits, white) < White(a.bits, white))
  }

  lemma ShadedWhite(m: Mark, white: bv8, r: Ref)
    requires Has(m.bits, r) && Shade(m, white, r) != m && Bit(Shade(m, white, r).bits, r) != white
    requires Bit(m.bits, r) == white
    ensures White(Shade(m, white, r).bits, white) == White(m.bits, white) - {r} && r in White(m.bits, white)
  {
  }

  lemma ShadeIsTriColour(m: Mark, contents: Contents, white: bv8, black: bv8, r: Ref)
    requires TriColour(m, contents, white, black) && r in contents
    ensures TriColour(Shade(m, white, r), contents, white, black) && Bit(Shade(m, white, r).bits, r) != white
  {
    hide White;
    MacroFacts(white, black);
    var m' := Shade(m, white, r);
    if m' != m {
      assert m'.stack[|m.stack|] == r;
    }
  }

  lemma ShadeKeeps(m: Mark, contents: Contents, white: bv8, black: bv8, r: Ref)
    requires TriColour(m, contents, white, black) && r in contents
    ensures var m' := Shade(m, white, r);
            TriColour(m', contents, white, black) && Shades(m, m', contents, white, [r]) && Bit(m'.bits, r) != white
  {
    ShadeIsTriColour(m, contents, white, black, r);
    ShadeShades(m, contents, white, black, r);
  }

  lemma ShadeShades(m: Mark, contents: Contents, white: bv8, black: bv8, r: Ref)
    requires TriColour(m, contents, white, black) && r in contents
    ensures Shades(m, Shade(m, white, r), contents, white, [r])
  {
    MacroFacts(white, black);
    hide White, HasColor, SetGray;
    var m' := Shade(m, white, r);
    if m' != m {
      assert Bit(m.bits, r) == white;
      ShadedWhite(m, white, r);
    }
  }

  /** One cell after another. */
  lemma ShadesThen(a: Mark, b: Mark, c: Mark, contents: Contents, white: bv8, rs: seq<Ref>)
    requires rs != [] && Shades(a, b, contents, white, rs[..1]) && Shades(b, c, contents, white, rs[1..])
    ensures Shades(a, c, contents, white, rs)
  {
    hide White, Has;
    assert rs[..1] == [rs[0]] && forall r :: r in rs <==> r == rs[0] || r in rs[1..];
  }

  /** A cell that is not white stays so. */
  lemma ShadesKeepOthers(a: Mark, b: Mark, contents: Contents, white: bv8, black: bv8, rs: seq<Ref>, r: Ref)
    requires TriColour(a, contents, white, black) && Shades(a, b, contents, white, rs) && r in contents
    requires Has(a.bits, r) && Bit(a.bits, r) != white
    ensures Has(b.bits, r) && Bit(b.bits, r) != white
  {
  }

  lemma {:induction false} ShadeAllKeeps(m: Mark, contents: Contents, white: bv8, black: bv8, rs: seq<Ref>)
    requires TriColour(m, contents, white, black) && forall i :: 0 <= i < |rs| ==> rs[i] in contents
    ensures var m' := ShadeAll(m, white, rs);
            && TriColour(m', contents, white, black) && Shades(m, m', contents, white, rs)
            && forall i :: 0 <= i < |rs| ==> Has(m'.bits, rs[i]) && Bit(m'.bits, rs[i]) != white
    decreases |rs|
  {
    AllocatedHave(m, contents, white, black);
    if rs != [] {
      var m1 := Shade(m, white, rs[0]);
      ShadeKeeps(m, contents, white, black, rs[0]);
      var m' := ShadeAll(m, white, rs);
      assert AllHave(m1.bits, rs[1..]) && m' == ShadeAll(m1, white, rs[1..]) && rs[..1] == [rs[0]];
      hide TriColour, Shade, White, Has, Bit, Shades, ShadeAll, AllHave;
      ShadeAllKeeps(m1, contents, white, black, rs[1..]);
      ShadesThen(m, m1, m', contents, white, rs);
      ShadesKeepOthers(m1, m', contents, white, black, rs[1..], rs[0]);
      forall i | 0 <= i < |rs| ensures Has(m'.bits, rs[i]) && Bit(m'.bits, rs[i]) != white {
        if i > 0 {
          assert rs[i] == rs[1..][i - 1];
        }
      }
    }
  }

  /** Pop the top of the work list and blacken it. */
  function Blacken(m: Mark, black: bv8): Mark
    requires m.stack != [] && Has(m.bits, m.stack[|m.stack| - 1])
  {
    var r := m.stack[|m.stack| - 1];
    Mark(SetBit(m.bits, r, SetColor(Bit(m.bits, r), black)), m.stack[..|m.stack| - 1])
  }

  lemma BlackenBits(m: Mark, contents: Contents, white: bv8, black: bv8)
    requires TriColour(m, contents, white, black) && m.stack != []
    ensures var r := m.stack[|m.stack| - 1];
            && r in contents && Has(m.bits, r)
            && var m' := Blacken(m, black);
               && (forall q :: Has(m.bits, q) <==> Has(m'.bits, q))
               && (forall q :: Has(m.bits, q) ==> Bit(m'.bits, q) == if q == r then black else Bit(m.bits, q))
               && m'.stack == m.stack[..|m.stack| - 1] && Bit(m.bits, r) == GRAY
  {
    MacroFacts(white, black);
    hide SetColor;
  }

  lemma BlackenIsTriColour(m: Mark, contents: Contents, white: bv8, black: bv8)
    requires TriColour(m, contents, white, black) && m.stack != []
    ensures Has(m.bits, m.stack[|m.stack| - 1]) && TriColour(Blacken(m, black), contents, white, black)
  {
    BlackenBits(m, contents, white, black);
    MacroFacts(white, black);
    hide Has, Bit, Blacken, IsFree, HasColor, SetColor, SetGray;
    var m' := Blacken(m, black);
    forall q | q in contents && Bit(m'.bits, q) == GRAY ensures q in m'.stack {
      var i :| 0 <= i < |m.stack| && m.stack[i] == q;
      assert m'.stack[i] == q;
    }
  }

  lemma BlackenKeeps(m: Mark, contents: Contents, white: bv8, black: bv8)
    requires TriColour(m, contents, white, black) && m.stack != []
    ensures var r := m.stack[|m.stack| - 1];
            && r in contents && Has(m.bits, r)
            && var m' := Blacken(m, black);
               && TriColour(m', contents, white, black) && White(m'.bits, white) == White(m.bits, white)
               && (forall q :: q in contents ==> Bit(m'.bits, q) == if q == r then black else Bit(m.bits, q))
  {
    BlackenIsTriColour(m, contents, white, black);
    BlackenBits(m, contents, white, black);
    MacroFacts(white, black);
    hide TriColour, Has, Bit, Blacken, HasColor;
    var r := m.stack[|m.stack| - 1];
    var m' := Blacken(m, black);
    forall q ensures q in White(m'.bits, white) <==> q in White(m.bits, white) {
    }
    assert forall q :: q in contents ==> Has(m.bits, q) by { AllocatedHave(m, contents, white, black); }
  }

  lemma AllocatedHave(m: Mark, contents: Contents, white: bv8, black: bv8)
    requires TriColour(m, contents, white, black)
    ensures forall q :: q in contents ==> Has(m.bits, q)
  {
  }

  /** One turn of the mark loop: blacken a gray cell and shade what it points to. */
  function Scan(m: Mark, contents: Contents, white: bv8, black: bv8): Mark
    requires m.stack != [] && Has(m.bits, m.stack[|m.stack| - 1])
    requires AllHave(m.bits, Pointers(contents, m.stack[|m.stack| - 1]))
  {
    ShadeAll(Blacken(m, black), white, Pointers(contents, m.stack[|m.stack| - 1]))
  }

  lemma ScanKeeps(m: Mark, contents: Contents, white: bv8, black: bv8)
    requires TriColour(m, contents, white, black) && Closed(contents) && m.stack != []
    ensures var r := m.stack[|m.stack| - 1];
            && r in contents && Has(m.bits, r) && AllHave(m.bits, Pointers(contents, r))
            && var m' := Scan(m, contents, white, black);
               && TriColour(m', contents, white, black)
               && White(m'.bits, white) <= White(m.bits, white)
               && (White(m'.bits, white) < White(m.bits, white) || |m'.stack| < |m.stack|)
               && |m'.stack| + |White(m'.bits, white)| + 1 == |m.stack| + |White(m.bits, white)|
               && Bit(m'.bits, r) == black
               && (forall i :: 0 <= i < |contents[r]| ==>
                     Has(m'.bits, contents[r][i]) && Bit(m'.bits, contents[r][i]) != white)
               && (forall q :: q in contents && q != r ==>
                     Bit(m'.bits, q) == Bit(m.bits, q)
                       || (q in contents[r] && Bit(m.bits, q) == white && Bit(m'.bits, q) == GRAY))
  {
    hide HasColor, SetColor, SetGray, ShadeAll;
    var r := m.stack[|m.stack| - 1];
    BlackenKeeps(m, contents, white, black);
    ShadeAllKeeps(Blacken(m, black), contents, white, black, contents[r]);
    MacroFacts(white, black);
  }

  /** The whole mark loop. It ends because each turn either shrinks the set of white cells or, with
      that set unchanged, the work list. */
  function Drain(m: Mark, contents: Contents, white: bv8, black: bv8): (m': Mark)
    requires TriColour(m, contents, white, black) && Closed(contents)
    ensures TriColour(m', contents, white, black) && m'.stack == [] && SameCells(m.bits, m'.bits)
    decreases White(m.bits, white), |m.stack|
  {
    if m.stack == [] then m else
      ScanKeeps(m, contents, white, black);
      Drain(Scan(m, contents, white, black), contents, white, black)
  }

  lemma DrainDone(m: Mark, contents: Contents, white: bv8, black: bv8)
    requires TriColour(m, contents, white, black) && Closed(contents) && m.stack == []
    ensures Drain(m, contents, white, black) == m
  {
  }

  /** One turn of the loop, for whoever runs it. */
  lemma DrainStep(m: Mark, contents: Contents, white: bv8, black: bv8)
    requires TriColour(m, contents, white, black) && Closed(contents) && m.stack != []
    ensures var r := m.stack[|m.stack| - 1];
            && Has(m.bits, r) && AllHave(m.bits, Pointers(contents, r))
            && var m' := Scan(m, contents, white, black);
               && TriColour(m', contents, white, black)
               && Drain(m', contents, white, black) == Drain(m, contents, white, black)
               && |m'.stack| + |White(m'.bits, white)| + 1 == |m.stack| + |White(m.bits, white)|
  {
    ScanKeeps(m, contents, white, black);
  }

  /** What holds at every turn of the mark loop. */
  ghost predicate MarkInvariant(m: Mark, contents: Contents, start: set<Ref>, white: bv8, black: bv8) {
    && TriColour(m, contents, white, black)
    && OnlyReachable(m, contents, start, white)
    && NoBlackToWhite(m, contents, white, black)
    && StartShaded(m, start, white)
  }

  lemma ReachableStep(contents: Contents, start: set<Ref>, r: Ref, q: Ref)
    requires Reachable(contents, start, r) && r in contents && q in contents[r]
    ensures Reachable(contents, start, q)
  {
    var p: Path :| IsPath(contents, start, p) && p.at == r;
    assert IsPath(contents, start, Follow(p, q)) && Follow(p, q).at == q;
  }

  lemma ScanKeepsInvariant(m: Mark, contents: Contents, start: set<Ref>, white: bv8, black: bv8)
    requires MarkInvariant(m, contents, start, white, black) && Closed(contents) && m.stack != []
    ensures var r := m.stack[|m.stack| - 1];
            Has(m.bits, r) && AllHave(m.bits, Pointers(contents, r))
            && MarkInvariant(Scan(m, contents, white, black), contents, start, white, black)
  {
    MacroFacts(white, black);
    ScanKeeps(m, contents, white, black);
    var r := m.stack[|m.stack| - 1];
    var m' := Scan(m, contents, white, black);
    forall q | q in contents && Bit(m'.bits, q) != white ensures Reachable(contents, start, q) {
      if q in contents[r] {
        ReachableStep(contents, start, r, q);
      }
    }
  }

  lemma {:induction false} DrainKeepsInvariant(m: Mark, contents: Contents, start: set<Ref>, white: bv8, black: bv8)
    requires MarkInvariant(m, contents, start, white, black) && Closed(contents)
    ensures MarkInvariant(Drain(m, contents, white, black), contents, start, white, black)
    decreases White(m.bits, white), |m.stack|
  {
    if m.stack != [] {
      ScanKeeps(m, contents, white, black);
      ScanKeepsInvariant(m, contents, start, white, black);
      DrainKeepsInvariant(Scan(m, contents, white, black), contents, start, white, black);
    }
  }

  // ----- the result of marking -----

  /** The cells marking starts from: the roots that are allocated. */
  function StartCells(contents: Contents, roots: seq<Ref>): set<Ref> {
    set r | r in roots && r in contents
  }

  lemma {:induction false} ShadeRootsKeeps(m: Mark, contents: Contents, start: set<Ref>, white: bv8, black: bv8,
                                           roots: seq<Ref>)
    requires TriColour(m, contents, white, black) && OnlyReachable(m, contents, start, white)
    requires AllHave(m.bits, roots) && forall r :: r in roots && r in contents ==> r in start
    requires forall r :: r in contents ==> Bit(m.bits, r) != black
    ensures var m' := ShadeRoots(m, white, roots);
            && TriColour(m', contents, white, black) && OnlyReachable(m', contents, start, white)
            && (forall r :: r in contents ==> Bit(m'.bits, r) != black)
            && (forall r :: r in contents && (r in roots || Bit(m.bits, r) != white) ==> Bit(m'.bits, r) != white)
    decreases |roots|
  {
    if roots != [] {
      MacroFacts(white, black);
      var r := roots[0];
      var m1 := if IsFree(Bit(m.bits, r)) then m else Shade(m, white, r);
      if r in contents {
        ShadeKeeps(m, contents, white, black, r);
        assert IsPath(contents, start, Begin(r)) && Begin(r).at == r;
      }
      assert forall q :: q in roots ==> q == r || q in roots[1..];
      ShadeRootsKeeps(m1, contents, start, white, black, roots[1..]);
    }
  }

  /** Marking from `roots`. */
  function MarkFrom(bits: Bits, contents: Contents, white: bv8, black: bv8, roots: seq<Ref>): (m: Mark)
    requires AllHave(bits, roots) && Closed(contents) && TriColour(Mark(bits, []), contents, white, black)
    requires forall r :: r in contents ==> Bit(bits, r) == white
    ensures SameCells(bits, m.bits) && m.stack == [] && TriColour(m, contents, white, black)
  {
    ShadeRootsKeeps(Mark(bits, []), contents, StartCells(contents, roots), white, black, roots);
    Drain(ShadeRoots(Mark(bits, []), white, roots), contents, white, black)
  }

  lemma {:induction false} PathIsMarked(m: Mark, contents: Contents, start: set<Ref>, white: bv8, black: bv8, p: Path)
    requires MarkInvariant(m, contents, start, white, black) && Closed(contents) && m.stack == []
    requires IsPath(contents, start, p)
    ensures p.at in contents && Bit(m.bits, p.at) == black
  {
    if p.Follow? {
      PathIsMarked(m, contents, start, white, black, p.before);
      var i :| 0 <= i < |contents[p.before.at]| && contents[p.before.at][i] == p.at;
    }
  }

  /** Marking is exact: with every allocated cell white and no allocated cell pointing to a free one,
      the black cells afterwards are the reachable ones, the other allocated cells are still white,
      free cells are untouched and nothing is gray. */
  lemma MarkingIsExact(bits: Bits, contents: Contents, white: bv8, black: bv8, roots: seq<Ref>)
    requires AllHave(bits, roots) && Closed(contents) && TriColour(Mark(bits, []), contents, white, black)
    requires forall r :: r in contents ==> Bit(bits, r) == white
    ensures var m := MarkFrom(bits, contents, white, black, roots);
            forall r :: Has(bits, r) ==>
              Has(m.bits, r) && Bit(m.bits, r) ==
                (if r !in contents then FREE
                 else if Reachable(contents, StartCells(contents, roots), r) then black
                 else white)
  {
    MacroFacts(white, black);
    var start := StartCells(contents, roots);
    var m0 := Mark(bits, []);
    ShadeRootsKeeps(m0, contents, start, white, black, roots);
    var m1 := ShadeRoots(m0, white, roots);
    DrainKeepsInvariant(m1, contents, start, white, black);
    var m := MarkFrom(bits, contents, white, black, roots);
    forall r | Has(bits, r) && r in contents
      ensures Reachable(contents, start, r) ==> Bit(m.bits, r) == black
    {
      if Reachable(contents, start, r) {
        var p: Path :| IsPath(contents, start, p) && p.at == r;
        PathIsMarked(m, contents, start, white, black, p);
      }
    }
  }
}

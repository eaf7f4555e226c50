/** Marking from words: registers, stack and registered roots hold words, and any word that is the address
    of a cell keeps that cell.
 */
module Scanning {
  import opened Cells
  import opened HeapModel
  import opened Marking
  import opened Sweeping
  import opened Allocator
  import opened Lookup

  /** The scan ends, or reads a page record that is not there. */
  datatype Scanned = Done(mark: Mark) | Faulted

  /** Skip nulls, words outside the heap and free cells; shade the other cells. */
  function ScanWords(h: Heap, m: Mark, words: seq<nat>): Scanned
    requires Structure(h) && SameCells(h.bits, m.bits)
    decreases |words|
  {
    if words == [] then Done(m)
    else if words[0] == 0 then ScanWords(h, m, words[1..])
    else
      FindExact(h, words[0]);
      match Find(h, words[0])
      case Fault => Faulted
      case Miss => ScanWords(h, m, words[1..])
      case Hit(r) =>
        ScanWords(h, if IsFree(Bit(m.bits, r)) then m else Shade(m, h.white, r), words[1..])
  }

  /** The cells the words lead to. */
  function Hits(h: Heap, words: seq<nat>): (rs: seq<Ref>)
    requires Structure(h)
    ensures AllHave(h.bits, rs)
    decreases |words|
  {
    if words == [] then [] else
      FindExact(h, words[0]);
      var f := Find(h, words[0]);
      if words[0] != 0 && f.Hit? then [f.ref] + Hits(h, words[1..]) else Hits(h, words[1..])
  }

  ghost predicate AnyInNextPage(h: Heap, words: seq<nat>) {
    exists i :: 0 <= i < |words| && InNextPage(h, words[i])
  }

  lemma NullIsInNoPage(h: Heap)
    ensures !InNextPage(h, 0)
  {
  }

  lemma AnyInNextPageStep(h: Heap, words: seq<nat>)
    requires words != []
    ensures AnyInNextPage(h, words) <==> InNextPage(h, words[0]) || AnyInNextPage(h, words[1..])
  {
    hide InNextPage;
    if AnyInNextPage(h, words) && !InNextPage(h, words[0]) {
      var i :| 0 <= i < |words| && InNextPage(h, words[i]);
      assert words[1..][i - 1] == words[i];
    }
    if AnyInNextPage(h, words[1..]) {
      var i :| 0 <= i < |words[1..]| && InNextPage(h, words[1..][i]);
      assert words[i + 1] == words[1..][i];
    }
  }

  /** A scan over any words fails exactly if one of them lies in the page that would be carved next, and
      otherwise marks what marking from the cells found does. */
  lemma {:induction false} ScanIsMarking(h: Heap, m: Mark, words: seq<nat>)
    requires Structure(h) && SameCells(h.bits, m.bits)
    ensures AllHave(m.bits, Hits(h, words))
    ensures ScanWords(h, m, words).Faulted? <==> AnyInNextPage(h, words)
    ensures !AnyInNextPage(h, words) ==> ScanWords(h, m, words) == Done(ShadeRoots(m, h.white, Hits(h, words)))
    decreases |words|
  {
    hide PagesOk, ArenasOk, ListsOk, LosOk, LosApart, Find, InNextPage, AnyInNextPage;
    if words == [] {
      NothingInNextPage(h);
    } else {
      AnyInNextPageStep(h, words);
      FindExact(h, words[0]);
      FaultExactly(h, words[0]);
      NullIsInNoPage(h);
      var f := Find(h, words[0]);
      if words[0] != 0 && f.Hit? {
        var m1 := if IsFree(Bit(m.bits, f.ref)) then m else Shade(m, h.white, f.ref);
        ScanIsMarking(h, m1, words[1..]);
        var rest := Hits(h, words[1..]);
        assert ([f.ref] + rest)[1..] == rest;
        assert AllHave(m.bits, [f.ref] + rest);
      } else if words[0] == 0 || f.Miss? {
        ScanIsMarking(h, m, words[1..]);
      } else {
        assert AllHave(m.bits, Hits(h, words));
      }
    }
  }

  lemma NothingInNextPage(h: Heap)
    ensures !AnyInNextPage(h, [])
  {
  }

  // ----- what the words keep -----

  lemma LiveAddress(h: Heap, r: Ref)
    requires Structure(h) && Live(h, r)
    ensures r.page < |h.pages| && CellAddress(h, r) > 0
  {
    hide ListsOk, BumpOk, CountFree;
    if h.pages[r.page].large {
      LiveLargeIsListed(h, r);
    } else {
      var _, _ := SmallInArena(h, r.page);
    }
  }

  /** The live cells found are exactly those whose address is one of the words. */
  lemma {:induction false} HitsExactly(h: Heap, words: seq<nat>, r: Ref)
    requires Structure(h) && Live(h, r)
    ensures r.page < |h.pages| && (r in Hits(h, words) <==> CellAddress(h, r) in words)
    decreases |words|
  {
    hide Structure, Find, Live, CellAddress;
    LiveAddress(h, r);
    if words != [] {
      HitsExactly(h, words[1..], r);
      FindLive(h, r);
      FindExact(h, words[0]);
      assert words == [words[0]] + words[1..];
    }
  }

  /** The objects whose address is one of the words. */
  ghost function Named(h: Heap, contents: Contents, words: seq<nat>): set<Ref> {
    set r | r in contents && r.page < |h.pages| && CellAddress(h, r) in words
  }

  lemma StartsAreNamed(h: Heap, contents: Contents, words: seq<nat>)
    requires HeapOk(h) && Consistent(h, contents)
    ensures StartCells(contents, Hits(h, words)) == Named(h, contents, words)
  {
    hide Structure, Hits, CellAddress;
    MacroFacts(h.white, h.black);
    forall r | r in contents ensures r.page < |h.pages| && (r in Hits(h, words) <==> CellAddress(h, r) in words) {
      assert Live(h, r);
      HitsExactly(h, words, r);
    }
  }

  /** A collection that starts from words keeps exactly the objects reachable from those whose address is
      one of the words. */
  lemma ConservativeCollectIsExact(h: Heap, contents: Contents, words: seq<nat>)
    requires HeapOk(h) && Consistent(h, contents)
    ensures var h' := Collect(h, contents, Hits(h, words));
            && HeapOk(h') && SameLayout(h, h') && SameCells(h.bits, h'.bits)
            && h'.white == h.black && h'.black == h.white
            && (forall r :: r in Allocated(h') <==> Reachable(contents, Named(h, contents, words), r))
  {
    hide Structure, AllSettled, Collect, Reachable, SameLayout, Hits;
    CollectIsExact(h, contents, Hits(h, words));
    StartsAreNamed(h, contents, words);
  }
}

/** Sizes, alignment and address arithmetic of `runtime/ejs-gc.c` on a 64-bit machine. */
module Layout {

  const PAGE_SIZE: nat := 4096
  const ARENA_PAGES: nat := 8192
  const ARENA_SIZE: nat := 33554432        // PAGE_SIZE * ARENA_PAGES
  const MAX_ARENAS: nat := 64              // MAX_HEAP_SIZE / ARENA_SIZE
  const ARENA_HEADER: nat := 131104        // sizeof(Arena): three pointers, two tables of 8192, a counter
  const FIRST_PAGE: nat := 135168          // the header rounded up to a page

  /** EJS_ALIGN, for an alignment that is a power of two. */
  function AlignUp(v: nat, a: nat): nat
    requires a > 0
  {
    (v + a - 1) / a * a
  }

  lemma FirstPageIsAlignedHeader()
    ensures FIRST_PAGE == AlignUp(ARENA_HEADER, PAGE_SIZE) && ARENA_SIZE == PAGE_SIZE * ARENA_PAGES
  {
  }

  lemma AlignUpFacts(v: nat, a: nat)
    requires a > 0
    ensures v <= AlignUp(v, a) < v + a && AlignUp(v, a) % a == 0
    ensures v % a == 0 ==> AlignUp(v, a) == v
  {
    var q := (v + a - 1) / a;
    assert v + a - 1 == a * q + (v + a - 1) % a;
    assert (a * q) % a == 0 by { MultipleMod(a, q); }
    if v % a == 0 {
      var k := v / a;
      assert v == a * k;
      assert q == k by {
        assert a * k <= v + a - 1 < a * k + a;
        QuotientUnique(v + a - 1, a, k);
      }
    }
  }

  lemma MultipleMod(a: nat, q: nat)
    requires a > 0
    ensures (a * q) % a == 0 && (a * q) / a == q
  {
    QuotientUnique(a * q, a, q);
  }

  lemma QuotientUnique(v: nat, a: nat, k: nat)
    requires a > 0 && a * k <= v < a * k + a
    ensures v / a == k && v % a == v - a * k
  {
    var q := v / a;
    assert v == a * q + v % a;
    MulMonotone(a, q + 1, k);
    MulMonotone(a, k + 1, q);
  }

  lemma MulMonotone(a: nat, x: int, y: int)
    ensures x <= y ==> a * x <= a * y
  {
  }

  // ----- alloc_from_os with an alignment -----

  /** Half-open address range. */
  datatype Range = Range(lo: nat, hi: nat)

  predicate InRange(x: int, r: Range) {
    r.lo <= x < r.hi
  }

  datatype Mapping = Mapping(kept: Range, unmapped: seq<Range>)

  /** Maps twice the size and unmaps what is not needed: the second half if the mapping happens to be
      aligned, else the parts before and after the aligned block. `res` is where the system put it. */
  function AlignedMapping(res: nat, size: nat, align: nat): Mapping
    requires align > 0
  {
    if res % align == 0 then
      Mapping(Range(res, res + size), [Range(res + size, res + 2 * size)])
    else
      var aligned := AlignUp(res, align);
      Mapping(Range(aligned, aligned + size), [Range(res, aligned), Range(aligned + size, res + 2 * size)])
  }

  predicate InSome(x: int, rs: seq<Range>) {
    exists i :: 0 <= i < |rs| && InRange(x, rs[i])
  }

  /** The kept block is aligned, and it and the unmapped parts partition the double-size mapping. */
  lemma AlignedMappingPartitions(res: nat, size: nat)
    requires size > 0
    ensures var m := AlignedMapping(res, size, size);
            && m.kept.lo % size == 0 && m.kept.hi == m.kept.lo + size
            && (forall x :: InRange(x, Range(res, res + 2 * size)) == (InRange(x, m.kept) || InSome(x, m.unmapped)))
            && (forall i :: 0 <= i < |m.unmapped| ==> m.unmapped[i].lo <= m.unmapped[i].hi)
            && (forall x :: !(InRange(x, m.kept) && InSome(x, m.unmapped)))
            && (forall x, i, j :: 0 <= i < j < |m.unmapped| ==>
               !(InRange(x, m.unmapped[i]) && InRange(x, m.unmapped[j])))
  {
    AlignUpFacts(res, size);
    var m := AlignedMapping(res, size, size);
    forall x | InRange(x, Range(res, res + 2 * size)) && !InRange(x, m.kept)
      ensures InSome(x, m.unmapped)
    {
      assert x < m.kept.lo ==> InRange(x, m.unmapped[0]);
      assert x >= m.kept.hi ==> InRange(x, m.unmapped[|m.unmapped| - 1]);
    }
  }
}

/** Mark bits of heap cells: the colour macros of `runtime/ejs-gc.c`. */
module Cells {

  const COLOR_MASK: bv8 := 3
  const GRAY: bv8 := 2
  const FREE: bv8 := 4

  function SetGray(c: bv8): bv8 { (c & !COLOR_MASK) | GRAY }
  function SetColor(c: bv8, mask: bv8): bv8 { (c & !COLOR_MASK) | mask }
  function SetAllocated(c: bv8): bv8 { c & !FREE }
  predicate IsFree(c: bv8) { c & FREE == FREE }
  predicate HasColor(c: bv8, mask: bv8) { c & COLOR_MASK == mask }

  /** The two masks that swap after every collection. */
  predicate Masks(white: bv8, black: bv8) {
    (white == 0 && black == 1) || (white == 1 && black == 0)
  }

  /** Between two collections a cell is free or white. */
  predicate Settled(c: bv8, white: bv8) {
    c == FREE || c == white
  }

  /** What the macros do to the values cells really take. */
  lemma MacroFacts(white: bv8, black: bv8)
    requires Masks(white, black)
    ensures SetGray(white) == GRAY && SetColor(GRAY, black) == black
    ensures SetColor(SetAllocated(FREE), white) == white && SetAllocated(SetColor(0, white)) == white
    ensures IsFree(FREE) && !IsFree(white) && !IsFree(black) && !IsFree(GRAY)
    ensures HasColor(white, white) && !HasColor(black, white) && !HasColor(GRAY, white)
    ensures white != black && white != GRAY && black != GRAY && white != FREE && black != FREE
  {
  }

  /** A cell by page number and index in the page. */
  datatype Ref = Ref(page: nat, cell: nat)

  type Bits = seq<seq<bv8>>

  predicate Has(bits: Bits, r: Ref) {
    r.page < |bits| && r.cell < |bits[r.page]|
  }

  function Bit(bits: Bits, r: Ref): bv8
    requires Has(bits, r)
  {
    bits[r.page][r.cell]
  }

  predicate SameCells(a: Bits, b: Bits) {
    |a| == |b| && forall p :: 0 <= p < |a| ==> |a[p]| == |b[p]|
  }

  function SetBit(bits: Bits, r: Ref, v: bv8): (b: Bits)
    requires Has(bits, r)
    ensures SameCells(bits, b)
    ensures forall q :: Has(bits, q) ==> Has(b, q) && Bit(b, q) == if q == r then v else Bit(bits, q)
  {
    bits[r.page := bits[r.page][r.cell := v]]
  }

  function AllCells(bits: Bits): (s: set<Ref>)
    ensures forall r :: r in s <==> Has(bits, r)
  {
    set p, c | 0 <= p < |bits| && 0 <= c < |bits[p]| :: Ref(p, c)
  }

  function White(bits: Bits, white: bv8): (s: set<Ref>)
    ensures forall r :: r in s <==> Has(bits, r) && HasColor(Bit(bits, r), white)
  {
    set r | r in AllCells(bits) && HasColor(Bit(bits, r), white)
  }
}

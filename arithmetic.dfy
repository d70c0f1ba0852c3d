/** Element-wise comparison of two readable matrices. */
module Arithmetic {
  import opened Matrix

  /** Same dimensions and the same value in every cell. */
  predicate SameEntries(a: Grid, b: Grid)
    requires a.Valid() && b.Valid()
  {
    && a.rows == b.rows && a.cols == b.cols
    && forall i, j | 0 <= i < a.rows && 0 <= j < a.cols :: a.cells[i][j] == b.cells[i][j]
  }

  /** `Equals`: false at once on differing dimensions, otherwise a scan of
      the cells row by row that stops at the first difference. */
  method Equals(a: Grid, b: Grid) returns (r: bool)
    requires a.Valid() && b.Valid()
    ensures (a.rows != b.rows || a.cols != b.cols) ==> !r
    ensures r <==> SameEntries(a, b)
  {
    if a.rows != b.rows || a.cols != b.cols {
      return false;
    }
    for i := 0 to a.rows
      invariant forall p, q | 0 <= p < i && 0 <= q < a.cols :: a.cells[p][q] == b.cells[p][q]
    {
      for j := 0 to a.cols
        invariant forall q | 0 <= q < j :: a.cells[i][q] == b.cells[i][q]
      {
        if a.Get(i, j) != b.Get(i, j) {
          return false;
        }
      }
    }
    return true;
  }

  /** On valid grids, element-wise equality is equality of the matrices, so
      it is reflexive, symmetric and transitive. */
  lemma {:induction false} SameEntriesIsEquality(a: Grid, b: Grid)
    requires a.Valid() && b.Valid()
    ensures SameEntries(a, b) <==> a == b
  {
    if SameEntries(a, b) {
      GridExt(a, b);
    }
  }

  /** Every matrix equals itself. */
  method EqualsReflexive(a: Grid) returns (r: bool)
    requires a.Valid()
    ensures r
  {
    r := Equals(a, a);
  }

  /** The answer does not depend on the order of the operands. */
  method EqualsSymmetric(a: Grid, b: Grid) returns (r1: bool, r2: bool)
    requires a.Valid() && b.Valid()
    ensures r1 == r2
  {
    r1 := Equals(a, b);
    r2 := Equals(b, a);
  }

  /** Transposing twice gives a matrix equal to the original. */
  method TransposeTwiceEquals(a: Grid) returns (r: bool)
    requires a.Valid()
    ensures r
  {
    TransposeTwice(a);
    r := Equals(Transposed(Transposed(a)), a);
  }
}

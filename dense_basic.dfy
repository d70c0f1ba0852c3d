/** Row operations, symmetry, transposition and the control flow of inversion
    on dense matrices. The row operations walk the storage with advancing
    indices, exactly as the source does, and are specified by what they do to
    the grid of cells. */
module DenseBasic {
  import opened Wrappers
  import opened Errors
  import opened Matrix
  import opened Dense

  /** g with rows r1 and r2 exchanged. */
  function RowsSwapped(g: Grid, r1: nat, r2: nat): (h: Grid)
    requires g.Valid() && r1 < g.rows && r2 < g.rows
    ensures h.Valid() && h.rows == g.rows && h.cols == g.cols
    ensures h.cells[r1] == g.cells[r2] && h.cells[r2] == g.cells[r1]
    ensures forall i | 0 <= i < g.rows && i != r1 && i != r2 :: h.cells[i] == g.cells[i]
  {
    Grid(g.rows, g.cols, g.cells[r1 := g.cells[r2]][r2 := g.cells[r1]])
  }

  /** g with every cell of row r multiplied by f. */
  function RowScaled(g: Grid, r: nat, f: real): (h: Grid)
    requires g.Valid() && r < g.rows
    ensures h.Valid() && h.rows == g.rows && h.cols == g.cols
    ensures forall j | 0 <= j < g.cols :: h.cells[r][j] == g.cells[r][j] * f
    ensures forall i | 0 <= i < g.rows && i != r :: h.cells[i] == g.cells[i]
  {
    Grid(g.rows, g.cols, g.cells[r := seq(g.cols, (j: int) requires 0 <= j < g.cols => g.cells[r][j] * f)])
  }

  /** g with f times row rs added to row rd (each cell of rd reads rs before it
      is updated, so rd == rs scales the row by 1 + f). */
  function RowAdded(g: Grid, rd: nat, rs: nat, f: real): (h: Grid)
    requires g.Valid() && rd < g.rows && rs < g.rows
    ensures h.Valid() && h.rows == g.rows && h.cols == g.cols
    ensures forall j | 0 <= j < g.cols :: h.cells[rd][j] == g.cells[rd][j] + f * g.cells[rs][j]
    ensures forall i | 0 <= i < g.rows && i != rd :: h.cells[i] == g.cells[i]
  {
    Grid(g.rows, g.cols, g.cells[rd := seq(g.cols, (j: int) requires 0 <= j < g.cols => g.cells[rd][j] + f * g.cells[rs][j])])
  }

  /** Swapping the same two rows again restores the matrix. */
  lemma {:induction false} RowsSwappedTwice(g: Grid, r1: nat, r2: nat)
    requires g.Valid() && r1 < g.rows && r2 < g.rows
    ensures RowsSwapped(RowsSwapped(g, r1, r2), r1, r2) == g
  {
    GridExt(RowsSwapped(RowsSwapped(g, r1, r2), r1, r2), g);
  }

  /** Scaling a row by f and then by 1/f restores it, in exact arithmetic. */
  lemma {:induction false} RowScaledInverse(g: Grid, r: nat, f: real)
    requires g.Valid() && r < g.rows && f != 0.0
    ensures RowScaled(RowScaled(g, r, f), r, 1.0 / f) == g
  {
    var h := RowScaled(RowScaled(g, r, f), r, 1.0 / f);
    forall i, j | 0 <= i < g.rows && 0 <= j < g.cols
      ensures h.cells[i][j] == g.cells[i][j]
    {
      if i == r {
        assert h.cells[r][j] == g.cells[r][j] * f * (1.0 / f);
        assert f * (1.0 / f) == 1.0;
      }
    }
    GridExt(h, g);
  }

  /** Adding f times another row and then -f times it restores the row, in
      exact arithmetic. */
  lemma {:induction false} RowAddedInverse(g: Grid, rd: nat, rs: nat, f: real)
    requires g.Valid() && rd < g.rows && rs < g.rows && rd != rs
    ensures RowAdded(RowAdded(g, rd, rs, f), rd, rs, -f) == g
  {
    GridExt(RowAdded(RowAdded(g, rd, rs, f), rd, rs, -f), g);
  }

  /** Scaling a row by 1 leaves the matrix as it was; unlike
      `RowScaledInverse`, this also holds under floating-point rounding,
      since x * 1 is x. */
  lemma {:induction false} RowScaledByOne(g: Grid, r: nat)
    requires g.Valid() && r < g.rows
    ensures RowScaled(g, r, 1.0) == g
  {
    GridExt(RowScaled(g, r, 1.0), g);
  }

  /** Adding 0 times any row leaves the matrix as it was (in floating point
      too, as long as the cells are finite). */
  lemma {:induction false} RowAddedZero(g: Grid, rd: nat, rs: nat)
    requires g.Valid() && rd < g.rows && rs < g.rows
    ensures RowAdded(g, rd, rs, 0.0) == g
  {
    GridExt(RowAdded(g, rd, rs, 0.0), g);
  }

  /** A square grid equal to its mirror image below the diagonal. */
  predicate IsSymmetric(g: Grid)
    requires g.Valid()
  {
    g.rows == g.cols && forall i, j | 0 <= j < i < g.rows :: g.cells[i][j] == g.cells[j][i]
  }

  /** Checking the cells below the diagonal is enough: a grid is symmetric
      exactly when it equals its transpose. */
  lemma {:induction false} SymmetricIffTransposeFixed(g: Grid)
    requires g.Valid()
    ensures IsSymmetric(g) <==> Transposed(g) == g
  {
    if IsSymmetric(g) {
      forall i, j | 0 <= i < g.rows && 0 <= j < g.cols
        ensures Transposed(g).cells[i][j] == g.cells[i][j]
      {
        if j < i {
          assert g.cells[i][j] == g.cells[j][i];
        } else if i < j {
          assert g.cells[j][i] == g.cells[i][j];
        }
      }
      GridExt(Transposed(g), g);
    }
    if Transposed(g) == g {
      forall i, j | 0 <= j < i < g.rows
        ensures g.cells[i][j] == g.cells[j][i]
      {
        assert Transposed(g).cells[i][j] == g.cells[j][i];
      }
    }
  }

  /** Whether M is square and equal to its transpose, checking each cell below
      the diagonal against its mirror and stopping at the first mismatch. */
  method Symmetric(M: DenseMatrix) returns (r: bool)
    requires M.Valid()
    ensures r <==> IsSymmetric(M.View())
  {
    if M.rows != M.cols {
      return false;
    }
    for i := 0 to M.rows
      invariant forall p, q | 0 <= q < p < i :: M.Get(p, q) == M.Get(q, p)
    {
      for j := 0 to i
        invariant forall p, q | 0 <= q < p < i :: M.Get(p, q) == M.Get(q, p)
        invariant forall q | 0 <= q < j :: M.Get(i, q) == M.Get(q, i)
      {
        if M.Get(i, j) != M.Get(j, i) {
          assert M.View().cells[i][j] != M.View().cells[j][i];
          return false;
        }
      }
    }
    return true;
  }

  /** Exchanges the runs a[p..p+n] and a[q..q+n] by walking both with
      advancing indices; the runs are the same or do not overlap. */
  method SwapRuns(a: array<real>, p: nat, q: nat, n: nat)
    requires p + n <= a.Length && q + n <= a.Length && (p == q || p + n <= q || q + n <= p)
    modifies a
    ensures forall k | 0 <= k < a.Length ::
              a[k] == if p <= k < p + n then old(a[k - p + q]) else if q <= k < q + n then old(a[k - q + p]) else old(a[k])
  {
    var index1, index2 := p, q;
    for j := 0 to n
      invariant index1 == p + j && index2 == q + j
      invariant forall k | 0 <= k < a.Length ::
                  a[k] == if p <= k < index1 then old(a[k - p + q]) else if q <= k < index2 then old(a[k - q + p]) else old(a[k])
    {
      var temp := a[index1];
      a[index1] := a[index2];
      a[index2] := temp;
      index1, index2 := index1 + 1, index2 + 1;
    }
  }

  /** Multiplies each of a[s..s+n] by f, walking it with an advancing index. */
  method ScaleRun(a: array<real>, s: nat, n: nat, f: real)
    requires s + n <= a.Length
    modifies a
    ensures forall k | 0 <= k < a.Length :: a[k] == if s <= k < s + n then old(a[k]) * f else old(a[k])
  {
    var index := s;
    for j := 0 to n
      invariant index == s + j
      invariant forall k | 0 <= k < a.Length :: a[k] == if s <= k < index then old(a[k]) * f else old(a[k])
    {
      a[index] := a[index] * f;
      index := index + 1;
    }
  }

  /** Adds f times a[s..s+n] to a[d..d+n], walking both with advancing
      indices; the runs are the same or do not overlap. */
  method AddScaledRun(a: array<real>, d: nat, s: nat, n: nat, f: real)
    requires d + n <= a.Length && s + n <= a.Length && (d == s || d + n <= s || s + n <= d)
    modifies a
    ensures forall k | 0 <= k < a.Length ::
              a[k] == if d <= k < d + n then old(a[k]) + f * old(a[k - d + s]) else old(a[k])
  {
    var indexd, indexs := d, s;
    for j := 0 to n
      invariant indexd == d + j && indexs == s + j
      invariant forall k | 0 <= k < a.Length ::
                  a[k] == if d <= k < indexd then old(a[k]) + f * old(a[k - d + s]) else old(a[k])
    {
      a[indexd] := a[indexd] + f * a[indexs];
      indexd, indexs := indexd + 1, indexs + 1;
    }
  }

  /** Exchanges rows r1 and r2 by walking both with advancing storage indices;
      storage outside the two rows is untouched. */
  method SwapRows(M: DenseMatrix, r1: nat, r2: nat)
    requires M.Valid() && r1 < M.rows && r2 < M.rows
    modifies M.elements
    ensures M.View() == RowsSwapped(old(M.View()), r1, r2)
    ensures forall k | 0 <= k < M.elements.Length && !M.InRowRange(k, r1) && !M.InRowRange(k, r2) ::
              M.elements[k] == old(M.elements[k])
  {
    M.RowInStorage(r1);
    M.RowInStorage(r2);
    if r1 != r2 {
      M.RowsDisjoint(r1, r2);
    }
    var start1, start2 := M.Offset(r1, 0), M.Offset(r2, 0);
    SwapRuns(M.elements, start1, start2, M.cols);
    forall i, j | 0 <= i < M.rows && 0 <= j < M.cols
      ensures M.Get(i, j) == RowsSwapped(old(M.View()), r1, r2).cells[i][j]
    {
      if i == r1 {
        assert M.Offset(r2, j) == start2 + j;
      } else if i == r2 {
        assert M.Offset(r1, j) == start1 + j;
      } else {
        if M.InRowRange(M.Offset(i, j), r1) { M.InRow(i, j, r1); }
        if M.InRowRange(M.Offset(i, j), r2) { M.InRow(i, j, r2); }
      }
    }
    GridExt(M.View(), RowsSwapped(old(M.View()), r1, r2));
  }

  /** Multiplies every cell of row r by f in place; storage outside row r is untouched. */
  method ScaleRow(M: DenseMatrix, r: nat, f: real)
    requires M.Valid() && r < M.rows
    modifies M.elements
    ensures M.View() == RowScaled(old(M.View()), r, f)
    ensures forall k | 0 <= k < M.elements.Length && !M.InRowRange(k, r) :: M.elements[k] == old(M.elements[k])
  {
    M.RowInStorage(r);
    var start := M.Offset(r, 0);
    ScaleRun(M.elements, start, M.cols, f);
    forall i, j | 0 <= i < M.rows && 0 <= j < M.cols
      ensures M.Get(i, j) == RowScaled(old(M.View()), r, f).cells[i][j]
    {
      if i != r && M.InRowRange(M.Offset(i, j), r) {
        M.InRow(i, j, r);
      }
    }
    GridExt(M.View(), RowScaled(old(M.View()), r, f));
  }

  /** Adds f times row rs to row rd in place; storage outside row rd is untouched. */
  method ScaleAddRow(M: DenseMatrix, rd: nat, rs: nat, f: real)
    requires M.Valid() && rd < M.rows && rs < M.rows
    modifies M.elements
    ensures M.View() == RowAdded(old(M.View()), rd, rs, f)
    ensures forall k | 0 <= k < M.elements.Length && !M.InRowRange(k, rd) :: M.elements[k] == old(M.elements[k])
  {
    M.RowInStorage(rd);
    M.RowInStorage(rs);
    if rd != rs {
      M.RowsDisjoint(rd, rs);
    }
    var startd, starts := M.Offset(rd, 0), M.Offset(rs, 0);
    AddScaledRun(M.elements, startd, starts, M.cols, f);
    forall i, j | 0 <= i < M.rows && 0 <= j < M.cols
      ensures M.Get(i, j) == RowAdded(old(M.View()), rd, rs, f).cells[i][j]
    {
      if i == rd {
        assert M.Offset(rs, j) == starts + j;
      } else if M.InRowRange(M.Offset(i, j), rd) {
        M.InRow(i, j, rd);
      }
    }
    GridExt(M.View(), RowAdded(old(M.View()), rd, rs, f));
  }

  /** A new cols x rows matrix holding the transpose of M. */
  method Transpose(M: DenseMatrix) returns (B: DenseMatrix)
    requires M.Valid()
    ensures fresh(B) && fresh(B.elements) && B.Valid() && B.step == B.cols
    ensures B.View() == Transposed(M.View())
  {
    B := Zeros(M.cols, M.rows);
    for i := 0 to M.rows
      invariant forall p, q | 0 <= p < i && 0 <= q < M.cols :: B.Get(q, p) == M.Get(p, q)
    {
      for j := 0 to M.cols
        invariant forall p, q | 0 <= p < i && 0 <= q < M.cols :: B.Get(q, p) == M.Get(p, q)
        invariant forall q | 0 <= q < j :: B.Get(q, i) == M.Get(i, q)
      {
        B.Set(j, i, M.Get(i, j));
      }
    }
    GridExt(B.View(), Transposed(M.View()));
  }

  /** The message `TransposeInPlace` returns for a matrix that is not square. */
  const NotSquareMessage: string := "Can only transpose a square matrix in place"

  /** Whether the cells (p, q) and (q, p) have been exchanged once the sweep
      has finished rows 0..i-1 and columns 0..j-1 of row i. */
  predicate SweptPair(p: nat, q: nat, i: nat, j: nat) {
    (p < i && q < i) || (p == i && q < j) || (q == i && p < j)
  }

  /** Transposes a square matrix in place by exchanging each cell below the
      diagonal with its mirror; a matrix that is not square is left as it is. */
  method TransposeInPlace(M: DenseMatrix) returns (err: Option<string>)
    requires M.Valid()
    modifies M.elements
    ensures err.Some? <==> M.rows != M.cols
    ensures err.Some? ==> err.value == NotSquareMessage && M.elements[..] == old(M.elements[..])
    ensures err.None? ==> M.View() == Transposed(old(M.View())) && M.OutsideKept(old(M.elements[..]))
  {
    if M.rows != M.cols {
      return Some(NotSquareMessage);
    }
    for i := 0 to M.rows
      invariant forall p, q | 0 <= p < M.rows && 0 <= q < M.cols ::
                  M.Get(p, q) == if SweptPair(p, q, i, 0) then old(M.Get(q, p)) else old(M.Get(p, q))
      invariant M.OutsideKept(old(M.elements[..]))
    {
      for j := 0 to i
        invariant forall p, q | 0 <= p < M.rows && 0 <= q < M.cols ::
                    M.Get(p, q) == if SweptPair(p, q, i, j) then old(M.Get(q, p)) else old(M.Get(p, q))
        invariant M.OutsideKept(old(M.elements[..]))
      {
        var tmp := M.Get(i, j);
        M.Set(i, j, M.Get(j, i));
        M.CellHeld(i, j);
        M.Set(j, i, tmp);
        M.CellHeld(j, i);
      }
    }
    GridExt(M.View(), Transposed(old(M.View())));
    return None;
  }

  /** Transposing in place twice gives the matrix back. */
  method TransposeInPlaceTwice(M: DenseMatrix)
    requires M.Valid() && M.rows == M.cols
    modifies M.elements
    ensures M.View() == old(M.View())
  {
    var _ := TransposeInPlace(M);
    var _ := TransposeInPlace(M);
    TransposeTwice(old(M.View()));
  }

  function Abs(x: real): (r: real)
    ensures r >= 0.0 && (r == x || r == -x)
  {
    if x < 0.0 then -x else x
  }

  /** Gauss-Jordan elimination on [M, I]. A matrix that is not square is
      rejected with ErrorDimensionMismatch, a zero pivot with ExceptionSingular;
      otherwise the result is the right n x n half of the reduced augmented
      matrix, a window into its storage with stride 2n. The values computed
      are floating-point results and are not specified here. */
  method Inverse(M: DenseMatrix) returns (inv: DenseMatrix?, err: Option<ErrorCode>)
    requires M.Valid()
    ensures M.rows != M.cols ==> inv == null && err == Some(ErrorDimensionMismatch)
    ensures M.rows == M.cols ==>
              || (err == Some(ExceptionSingular) && inv == null)
              || (err == None && inv != null && inv.Valid() && fresh(inv.elements)
                  && inv.rows == M.rows && inv.cols == M.rows && inv.step == 2 * M.rows && inv.base == M.rows)
  {
    if M.rows != M.cols {
      return null, Some(ErrorDimensionMismatch);
    }
    var n := M.rows;
    var eye := Eye(n);
    var aug, _ := M.Augment(eye);
    for i := 0 to aug.rows
      invariant aug.Valid() && aug.rows == n && aug.cols == 2 * n && aug.step == 2 * n && aug.base == 0
    {
      var j := i;
      for k := i to aug.rows
        invariant i <= j < aug.rows
      {
        if Abs(aug.Get(k, i)) > Abs(aug.Get(j, i)) {
          j := k;
        }
      }
      if j != i {
        SwapRows(aug, i, j);
      }
      if aug.Get(i, i) == 0.0 {
        return null, Some(ExceptionSingular);
      }
      ScaleRow(aug, i, 1.0 / aug.Get(i, i));
      for k := 0 to aug.rows
        invariant aug.Valid()
      {
        if k == i {
          continue;
        }
        ScaleAddRow(aug, k, i, -aug.Get(k, i));
      }
    }
    inv := aug.GetMatrix(0, n, n, n);
    assert aug.Offset(0, n) == n;
    return inv, None;
  }
}

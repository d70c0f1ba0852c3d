/** Copying rows, columns and the diagonal of a dense matrix out to fresh
    sequences or caller buffers, and filling them back in. */
module DenseData {
  import opened Matrix
  import opened Dense
  import Util

  /** The grid with the single row v. */
  function RowGrid(v: seq<real>): (g: Grid)
    ensures g.Valid() && g.rows == 1 && g.cols == |v| && g.cells[0] == v
  {
    Grid(1, |v|, [v])
  }

  /** The grid with the single column v. */
  function ColGrid(v: seq<real>): (g: Grid)
    ensures g.Valid() && g.rows == |v| && g.cols == 1
    ensures forall i | 0 <= i < |v| :: g.cells[i][0] == v[i]
  {
    Grid(|v|, 1, seq(|v|, (i: int) requires 0 <= i < |v| => [v[i]]))
  }

  /** A copy of row i (not a slice of the storage). */
  method RowCopy(A: DenseMatrix, i: nat) returns (row: seq<real>)
    requires A.Valid() && i < A.rows
    ensures row == A.View().cells[i]
  {
    var r := new real[A.cols](_ => 0.0);
    for j := 0 to A.cols
      invariant forall q | 0 <= q < j :: r[q] == A.Get(i, q)
    {
      r[j] := A.Get(i, j);
    }
    row := r[..];
  }

  /** A copy of column j. */
  method ColCopy(A: DenseMatrix, j: nat) returns (col: seq<real>)
    requires A.Valid() && j < A.cols
    ensures col == Transposed(A.View()).cells[j]
  {
    var c := new real[A.rows](_ => 0.0);
    for i := 0 to A.rows
      invariant forall p | 0 <= p < i :: c[p] == A.Get(p, j)
    {
      c[i] := A.Get(i, j);
    }
    col := c[..];
  }

  /** A copy of the diagonal, as long as the shorter side. */
  method DiagonalCopy(A: DenseMatrix) returns (diag: seq<real>)
    requires A.Valid()
    ensures |diag| == Util.MinUInt(A.rows, A.cols)
    ensures forall i | 0 <= i < |diag| :: diag[i] == A.Get(i, i)
  {
    var span := A.rows;
    if A.cols < span {
      span := A.cols;
    }
    var d := new real[span](_ => 0.0);
    for i := 0 to span
      invariant forall p | 0 <= p < i :: d[p] == A.Get(p, p)
    {
      d[i] := A.Get(i, i);
    }
    diag := d[..];
  }

  /** Writes row i into the first cols entries of buf; the rest of buf and A
      are untouched. A buffer that is too short is fatal in the source. */
  method BufferRow(A: DenseMatrix, i: nat, buf: array<real>)
    requires A.Valid() && i < A.rows && A.cols <= buf.Length && buf != A.elements
    modifies buf
    ensures buf[..A.cols] == A.View().cells[i]
    ensures buf[A.cols..] == old(buf[A.cols..])
  {
    for j := 0 to A.cols
      invariant forall q | 0 <= q < j :: buf[q] == A.Get(i, q)
      invariant buf[A.cols..] == old(buf[A.cols..])
    {
      buf[j] := A.Get(i, j);
    }
  }

  /** Writes column j into the first rows entries of buf. */
  method BufferCol(A: DenseMatrix, j: nat, buf: array<real>)
    requires A.Valid() && j < A.cols && A.rows <= buf.Length && buf != A.elements
    modifies buf
    ensures buf[..A.rows] == Transposed(A.View()).cells[j]
    ensures buf[A.rows..] == old(buf[A.rows..])
  {
    for i := 0 to A.rows
      invariant forall p | 0 <= p < i :: buf[p] == A.Get(p, j)
      invariant buf[A.rows..] == old(buf[A.rows..])
    {
      buf[i] := A.Get(i, j);
    }
  }

  /** Writes the diagonal into the first min(rows, cols) entries of buf. */
  method BufferDiagonal(A: DenseMatrix, buf: array<real>)
    requires A.Valid() && Util.MinUInt(A.rows, A.cols) <= buf.Length && buf != A.elements
    modifies buf
    ensures forall i | 0 <= i < Util.MinUInt(A.rows, A.cols) :: buf[i] == A.Get(i, i)
    ensures buf[Util.MinUInt(A.rows, A.cols)..] == old(buf[Util.MinUInt(A.rows, A.cols)..])
  {
    var span := Util.MinUInt(A.rows, A.cols);
    var i := 0;
    while i < A.rows && i < A.cols
      invariant i <= span
      invariant forall p | 0 <= p < i :: buf[p] == A.Get(p, p)
      invariant buf[span..] == old(buf[span..])
    {
      buf[i] := A.Get(i, i);
      i := i + 1;
    }
  }

  /** Overwrites row i with the first cols entries of buf; every other row keeps its values. */
  method FillRow(A: DenseMatrix, i: nat, buf: seq<real>)
    requires A.Valid() && i < A.rows && A.cols <= |buf|
    modifies A.elements
    ensures A.View() == Overlay(old(A.View()), RowGrid(buf[..A.cols]), i, 0)
    ensures A.OutsideKept(old(A.elements[..]))
  {
    for j := 0 to A.cols
      invariant forall p, q | 0 <= p < A.rows && 0 <= q < A.cols ::
                  A.Get(p, q) == if p == i && q < j then buf[q] else old(A.Get(p, q))
      invariant A.OutsideKept(old(A.elements[..]))
    {
      A.Set(i, j, buf[j]);
      A.CellHeld(i, j);
    }
    GridExt(A.View(), Overlay(old(A.View()), RowGrid(buf[..A.cols]), i, 0));
  }

  /** Overwrites column j with the first rows entries of buf; every other column keeps its values. */
  method FillCol(A: DenseMatrix, j: nat, buf: seq<real>)
    requires A.Valid() && j < A.cols && A.rows <= |buf|
    modifies A.elements
    ensures A.View() == Overlay(old(A.View()), ColGrid(buf[..A.rows]), 0, j)
    ensures A.OutsideKept(old(A.elements[..]))
  {
    for i := 0 to A.rows
      invariant forall p, q | 0 <= p < A.rows && 0 <= q < A.cols ::
                  A.Get(p, q) == if q == j && p < i then buf[p] else old(A.Get(p, q))
      invariant A.OutsideKept(old(A.elements[..]))
    {
      A.Set(i, j, buf[i]);
      A.CellHeld(i, j);
    }
    GridExt(A.View(), Overlay(old(A.View()), ColGrid(buf[..A.rows]), 0, j));
  }

  /** Sets cell (i, i) to buf[i] for i below min(rows, cols); cells off the diagonal keep their values. */
  method FillDiagonal(A: DenseMatrix, buf: seq<real>)
    requires A.Valid() && Util.MinUInt(A.rows, A.cols) <= |buf|
    modifies A.elements
    ensures forall p, q | 0 <= p < A.rows && 0 <= q < A.cols ::
              A.Get(p, q) == if p == q then buf[p] else old(A.Get(p, q))
    ensures A.OutsideKept(old(A.elements[..]))
  {
    var i := 0;
    while i < A.rows && i < A.cols
      invariant i <= Util.MinUInt(A.rows, A.cols)
      invariant forall p, q | 0 <= p < A.rows && 0 <= q < A.cols ::
                  A.Get(p, q) == if p == q && p < i then buf[p] else old(A.Get(p, q))
      invariant A.OutsideKept(old(A.elements[..]))
    {
      A.Set(i, i, buf[i]);
      A.CellHeld(i, i);
      i := i + 1;
    }
  }

  /** Filling a row from buf and reading it back yields buf's first cols entries. */
  method FillThenBufferRow(A: DenseMatrix, i: nat, buf: seq<real>, out: array<real>)
    requires A.Valid() && i < A.rows && A.cols <= |buf| && A.cols <= out.Length && out != A.elements
    modifies A.elements, out
    ensures out[..A.cols] == buf[..A.cols]
  {
    FillRow(A, i, buf);
    BufferRow(A, i, out);
    assert forall q | 0 <= q < A.cols :: A.View().cells[i][q] == buf[q];
  }

  /** Reading a row out and filling it back leaves the matrix as it was. */
  method BufferThenFillRow(A: DenseMatrix, i: nat, buf: array<real>)
    requires A.Valid() && i < A.rows && A.cols <= buf.Length && buf != A.elements
    modifies A.elements, buf
    ensures A.View() == old(A.View())
  {
    BufferRow(A, i, buf);
    FillRow(A, i, buf[..]);
    GridExt(A.View(), old(A.View()));
  }
}

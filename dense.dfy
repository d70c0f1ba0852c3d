/** A matrix backed by one flat array of reals in row-major order with a row
    stride `step`: cell (i, j) lives at `elements[base + i*step + j]`. A matrix
    made by a factory or by `SubMatrix` owns fresh storage (`base == 0`,
    `step == cols`); a window made by `GetMatrix` shares its parent's array and
    starts at the offset of its corner cell, which is how a Go sub-slice behaves. */
module Dense {
  import opened Wrappers
  import opened Errors
  import opened Matrix
  import RowMajor

  class DenseMatrix {
    const rows: nat
    const cols: nat
    /** Offset between the starts of consecutive rows. */
    const step: nat
    /** Position of cell (0, 0) in `elements`: where the Go slice starts. */
    const base: nat
    const elements: array<real>

    function Offset(i: nat, j: nat): nat {
      base + RowMajor.Index(i, j, step)
    }

    /** The storage holds every cell: the Go slice of a window has length
        `(rows-1)*step + cols` from `base`. */
    ghost predicate Valid() {
      && cols <= step
      && (rows > 0 ==> base + (rows - 1) * step + cols <= elements.Length)
      && forall i: nat, j: nat {:trigger Offset(i, j)} :: i < rows && j < cols ==> Offset(i, j) < elements.Length
    }

    /** Distinct cells live at distinct offsets. */
    lemma OffsetInjective(i: nat, j: nat, p: nat, q: nat)
      requires Valid() && j < cols && q < cols && Offset(i, j) == Offset(p, q)
      ensures i == p && j == q
    {
      RowMajor.IndexInjective(i, j, p, q, step);
    }

    /** Position k of the storage lies in row r's stretch of `cols` cells. */
    predicate InRowRange(k: int, r: nat) {
      Offset(r, 0) <= k < Offset(r, 0) + cols
    }

    /** Position k of the storage holds one of this matrix's cells. */
    ghost predicate HoldsCell(k: int) {
      exists r | 0 <= r < rows :: InRowRange(k, r)
    }

    /** The storage outside this matrix's cells is as in `before`: what a
        write through this matrix leaves alone, a parent's or a sibling
        window's cells among it. */
    ghost predicate OutsideKept(before: seq<real>)
      reads elements
    {
      && |before| == elements.Length
      && forall k | 0 <= k < elements.Length && !HoldsCell(k) :: elements[k] == before[k]
    }

    /** Row r occupies `cols` consecutive positions inside the storage. */
    lemma RowInStorage(r: nat)
      requires Valid() && r < rows
      ensures Offset(r, 0) + cols <= elements.Length
      ensures forall j | 0 <= j < cols :: Offset(r, j) == Offset(r, 0) + j
    {
      RowMajor.MulMonotone(r, rows - 1, step);
    }

    /** The position of a cell holds a cell. */
    lemma CellHeld(i: nat, j: nat)
      requires Valid() && i < rows && j < cols
      ensures HoldsCell(Offset(i, j))
    {
      RowInStorage(i);
      assert InRowRange(Offset(i, j), i);
    }

    /** A cell whose offset falls in row r's stretch belongs to row r. */
    lemma InRow(i: nat, j: nat, r: nat)
      requires Valid() && j < cols && InRowRange(Offset(i, j), r)
      ensures i == r
    {
      OffsetInjective(i, j, r, Offset(i, j) - Offset(r, 0));
    }

    /** The stretches of two different rows do not overlap. */
    lemma RowsDisjoint(r1: nat, r2: nat)
      requires Valid() && r1 != r2
      ensures Offset(r1, 0) + cols <= Offset(r2, 0) || Offset(r2, 0) + cols <= Offset(r1, 0)
    {
      if r1 < r2 {
        RowMajor.MulMonotone(r1 + 1, r2, step);
      } else {
        RowMajor.MulMonotone(r2 + 1, r1, step);
      }
    }

    constructor Make(elements: array<real>, rows: nat, cols: nat, step: nat, base: nat)
      requires cols <= step
      requires rows > 0 ==> base + (rows - 1) * step + cols <= elements.Length
      ensures this.elements == elements && this.rows == rows && this.cols == cols
      ensures this.step == step && this.base == base
      ensures Valid()
    {
      this.elements := elements;
      this.rows := rows;
      this.cols := cols;
      this.step := step;
      this.base := base;
      new;
      forall i: nat, j: nat | i < rows && j < cols
        ensures Offset(i, j) < elements.Length
      {
        RowMajor.MulMonotone(i, rows - 1, step);
      }
    }

    /** The cell (i, j); an index outside the matrix is fatal in the source. */
    function Get(i: nat, j: nat): real
      reads elements
      requires Valid() && i < rows && j < cols
    {
      elements[Offset(i, j)]
    }

    /** Cell (i, j) is read from storage at `base + i*step + j`, a position
        inside the storage. */
    lemma GetReadsStorage(i: nat, j: nat)
      requires Valid() && i < rows && j < cols
      ensures base + i * step + j < elements.Length && Get(i, j) == elements[base + i * step + j]
    {
      assert Offset(i, j) == base + i * step + j;
    }

    /** The cells as a grid: what a reader of this matrix sees. */
    ghost function View(): (g: Grid)
      reads elements
      requires Valid()
      ensures g.Valid() && g.rows == rows && g.cols == cols
      ensures forall i, j | 0 <= i < rows && 0 <= j < cols :: g.cells[i][j] == Get(i, j)
    {
      Grid(rows, cols, seq(rows, (i: int) requires 0 <= i < rows reads elements =>
                             seq(cols, (j: int) requires 0 <= j < cols reads elements => Get(i, j))))
    }

    /** Writes one cell in place; nothing else in the storage changes. An index
        outside the matrix is fatal in the source, hence the precondition. */
    method Set(i: nat, j: nat, v: real)
      requires Valid() && i < rows && j < cols
      modifies elements
      ensures Get(i, j) == v
      ensures forall p, q | 0 <= p < rows && 0 <= q < cols && (p != i || q != j) :: Get(p, q) == old(Get(p, q))
      ensures View() == WithRow(old(View()), i, j, [v])
      ensures forall k | 0 <= k < elements.Length && k != Offset(i, j) :: elements[k] == old(elements[k])
    {
      elements[Offset(i, j)] := v;
      forall p, q | 0 <= p < rows && 0 <= q < cols && (p != i || q != j)
        ensures Get(p, q) == old(Get(p, q))
      {
        if Offset(p, q) == Offset(i, j) {
          OffsetInjective(p, q, i, j);
        }
      }
      GridExt(View(), WithRow(old(View()), i, j, [v]));
    }

    /** Writes s into row d from column dj on, cell by cell (Go's `copy`
        into a row slice); every other cell keeps its value. */
    method WriteRow(d: nat, dj: nat, s: seq<real>)
      requires Valid() && d < rows && dj + |s| <= cols
      modifies elements
      ensures View() == WithRow(old(View()), d, dj, s)
      ensures OutsideKept(old(elements[..]))
    {
      ghost var g := View();
      WithNothing(g, d, dj);
      assert s[..0] == [];
      for k := 0 to |s|
        invariant View() == WithRow(g, d, dj, s[..k])
        invariant OutsideKept(old(elements[..]))
      {
        Set(d, dj + k, s[k]);
        CellHeld(d, dj + k);
        WithRowStep(g, d, dj, s, k);
      }
      assert s[..|s|] == s;
    }

    /** The cells of one row, in order (Go returns a slice that aliases the row;
        the model returns its value). */
    function RowSlice(row: nat): (s: seq<real>)
      reads elements
      requires Valid() && row < rows
      ensures |s| == cols && forall j | 0 <= j < cols :: s[j] == Get(row, j)
      ensures s == View().cells[row]
    {
      RowMajor.MulMonotone(row, rows - 1, step);
      var s := elements[Offset(row, 0) .. Offset(row, 0) + cols];
      assert s == View().cells[row];
      s
    }

    /** Every row, in order. */
    function Arrays(): (a: seq<seq<real>>)
      reads elements
      requires Valid()
      ensures |a| == rows && forall i | 0 <= i < rows :: |a[i]| == cols
      ensures forall i, j | 0 <= i < rows && 0 <= j < cols :: a[i][j] == Get(i, j)
    {
      seq(rows, (i: int) requires 0 <= i < rows reads elements => RowSlice(i))
    }

    /** The cells flattened row by row: cell (i, j) at position i*cols + j. When
        the rows are contiguous (`step == cols`) the storage is returned as is. */
    method Array() returns (a: seq<real>)
      requires Valid()
      ensures a == Flattened(View())
    {
      RowMajor.IndexBoundAll(rows, cols);
      if step == cols {
        if rows == 0 {
          return [];
        }
        RowMajor.LastRowEnd(0, rows, cols);
        a := elements[base .. base + rows * cols];
        FlattenedExt(a, View());
        return;
      }
      var flat := new real[rows * cols](_ => 0.0);
      for i := 0 to rows
        invariant forall p: nat, q: nat | p < i && q < cols :: flat[RowMajor.Index(p, q, cols)] == Get(p, q)
      {
        for j := 0 to cols
          invariant forall p: nat, q: nat | p < i && q < cols :: flat[RowMajor.Index(p, q, cols)] == Get(p, q)
          invariant forall q: nat | q < j :: flat[RowMajor.Index(i, q, cols)] == Get(i, q)
        {
          ghost var before := flat[..];
          flat[RowMajor.Index(i, j, cols)] := Get(i, j);
          forall p: nat, q: nat | (p < i || (p == i && q < j)) && q < cols
            ensures flat[RowMajor.Index(p, q, cols)] == before[RowMajor.Index(p, q, cols)]
          {
            if RowMajor.Index(p, q, cols) == RowMajor.Index(i, j, cols) {
              RowMajor.IndexInjective(p, q, i, j, cols);
            }
          }
        }
      }
      a := flat[..];
      FlattenedExt(a, View());
    }

    /** A copy of the r x c block whose corner is (i, j), in fresh storage with
        `step == c`. A block that does not fit is fatal in the source. */
    method SubMatrix(i: nat, j: nat, r: nat, c: nat) returns (S: DenseMatrix)
      requires Valid() && i + r <= rows && j + c <= cols
      ensures fresh(S) && fresh(S.elements) && S.Valid()
      ensures S.rows == r && S.cols == c && S.step == c && S.base == 0
      ensures S.View() == Block(View(), i, j, r, c)
    {
      var storage := new real[r * c](_ => 0.0);
      if r > 0 { RowMajor.LastRowEnd(0, r, c); }
      S := new DenseMatrix.Make(storage, r, c, c, 0);
      ghost var block := Block(View(), i, j, r, c);
      for p := 0 to r
        invariant S.View().cells[..p] == block.cells[..p]
      {
        ghost var before := S.View();
        S.WriteRow(p, 0, RowSlice(i + p)[j .. j + c]);
        WholeRow(before, p, View().cells[i + p][j .. j + c]);
        assert block.cells[..p + 1] == block.cells[..p] + [block.cells[p]];
      }
      assert S.View().cells == S.View().cells[..r] && block.cells == block.cells[..r];
    }

    /** The one-column copy of column j. */
    method ColVector(j: nat) returns (S: DenseMatrix)
      requires Valid() && j < cols
      ensures fresh(S) && fresh(S.elements) && S.Valid()
      ensures S.rows == rows && S.cols == 1
      ensures forall i | 0 <= i < rows :: S.Get(i, 0) == Get(i, j)
    {
      S := SubMatrix(0, j, rows, 1);
    }

    /** The one-row copy of row i. */
    method RowVector(i: nat) returns (S: DenseMatrix)
      requires Valid() && i < rows
      ensures fresh(S) && fresh(S.elements) && S.Valid()
      ensures S.rows == 1 && S.cols == cols
      ensures forall j | 0 <= j < cols :: S.Get(0, j) == Get(i, j)
    {
      S := SubMatrix(i, 0, 1, cols);
    }

    /** The r x c block at (i, j) as a window: it shares this matrix's storage and
        stride, so writes through either show up in the other. The source takes
        the sub-slice `[i*step+j : i*step+j+(r-1)*step+c]`; for r == 0 that bound
        wraps around and the slice panics unless c == step. */
    method GetMatrix(i: nat, j: nat, r: nat, c: nat) returns (W: DenseMatrix)
      requires Valid() && i + r <= rows && j + c <= cols
      requires r > 0 || c == step
      ensures fresh(W) && W.Valid() && WindowOf(W, this, i, j)
      ensures W.rows == r && W.cols == c
      ensures W.elements == elements && W.step == step && W.base == Offset(i, j)
      ensures forall p, q | 0 <= p < r && 0 <= q < c :: W.Get(p, q) == Get(i + p, j + q)
    {
      if r > 0 {
        assert Offset(i, j) + (r - 1) * step + c <= base + (rows - 1) * step + cols by {
          RowMajor.ShiftIndex(i, j, r - 1, c, step);
          RowMajor.MulMonotone(i + r - 1, rows - 1, step);
        }
      }
      W := new DenseMatrix.Make(elements, r, c, step, Offset(i, j));
      WindowAgrees(W, this, i, j);
    }

    /** Copies A into this matrix with A's (0, 0) at (i, j); cells outside that
        rectangle keep their values. A must fit, as `Set` is fatal otherwise;
        the model also asks that A does not share this matrix's storage. */
    method SetMatrix(i: nat, j: nat, A: DenseMatrix)
      requires Valid() && A.Valid() && A.elements != elements
      requires i + A.rows <= rows && j + A.cols <= cols
      modifies elements
      ensures View() == Overlay(old(View()), A.View(), i, j)
      ensures OutsideKept(old(elements[..]))
    {
      ghost var g := View();
      for r := 0 to A.rows
        invariant View() == OverlaidRows(g, A.View(), i, j, r)
        invariant OutsideKept(old(elements[..]))
      {
        WriteRow(i + r, j, A.RowSlice(r));
      }
      OverlaidAllRows(g, A.View(), i, j);
    }

    /** An independent copy in fresh, tightly packed storage (`step == cols`). */
    method Copy() returns (A: DenseMatrix)
      requires Valid()
      ensures fresh(A) && fresh(A.elements) && A.Valid()
      ensures A.rows == rows && A.cols == cols && A.step == cols && A.base == 0
      ensures A.View() == View()
    {
      var storage := new real[rows * cols](_ => 0.0);
      if rows > 0 { RowMajor.LastRowEnd(0, rows, cols); }
      A := new DenseMatrix.Make(storage, rows, cols, cols, 0);
      for r := 0 to rows
        invariant A.View().cells[..r] == View().cells[..r]
      {
        // copy(A.RowSlice(r), M.RowSlice(r))
        ghost var before := A.View();
        A.WriteRow(r, 0, RowSlice(r));
        WholeRow(before, r, View().cells[r]);
        assert View().cells[..r + 1] == View().cells[..r] + [View().cells[r]];
      }
      assert A.View().cells == A.View().cells[..rows] && View().cells == View().cells[..rows];
    }

    /** `DenseMatrix()` on a dense matrix is a copy. */
    method DenseMatrix() returns (A: DenseMatrix)
      requires Valid()
      ensures fresh(A) && fresh(A.elements) && A.Valid() && A.View() == View()
    {
      A := Copy();
    }

    /** Copies this matrix and A side by side into B, which must be rows x (cols + A.cols). */
    method AugmentFill(A: DenseMatrix, B: DenseMatrix) returns (err: Option<ErrorCode>)
      requires Valid() && A.Valid() && B.Valid()
      requires B.elements != elements && B.elements != A.elements
      modifies B.elements
      ensures err == None <==> rows == A.rows && rows == B.rows && B.cols == cols + A.cols
      ensures err != None ==> err == Some(ErrorDimensionMismatch) && B.View() == old(B.View())
      ensures err == None ==> B.View() == Augmented(View(), A.View())
    {
      if rows != A.rows || rows != B.rows || B.cols != cols + A.cols {
        return Some(ErrorDimensionMismatch);
      }
      ghost var z := B.View();
      B.SetMatrix(0, 0, this);
      B.SetMatrix(0, cols, A);
      AugmentByOverlay(z, View(), A.View());
      return None;
    }

    /** Copies this matrix above A into B, which must be (rows + A.rows) x cols. */
    method StackFill(A: DenseMatrix, B: DenseMatrix) returns (err: Option<ErrorCode>)
      requires Valid() && A.Valid() && B.Valid()
      requires B.elements != elements && B.elements != A.elements
      modifies B.elements
      ensures err == None <==> cols == A.cols && cols == B.cols && B.rows == rows + A.rows
      ensures err != None ==> err == Some(ErrorDimensionMismatch) && B.View() == old(B.View())
      ensures err == None ==> B.View() == Stacked(View(), A.View())
    {
      if cols != A.cols || cols != B.cols || B.rows != rows + A.rows {
        return Some(ErrorDimensionMismatch);
      }
      ghost var z := B.View();
      B.SetMatrix(0, 0, this);
      B.SetMatrix(rows, 0, A);
      StackByOverlay(z, View(), A.View());
      return None;
    }

    /** The new matrix [this, A]; row counts must agree. */
    method Augment(A: DenseMatrix) returns (B: DenseMatrix?, err: Option<ErrorCode>)
      requires Valid() && A.Valid()
      ensures rows != A.rows ==> B == null && err == Some(ErrorDimensionMismatch)
      ensures rows == A.rows ==> err == None && B != null && fresh(B) && fresh(B.elements) && B.Valid()
                                 && B.step == B.cols && B.base == 0 && B.View() == Augmented(View(), A.View())
    {
      if rows != A.rows {
        return null, Some(ErrorDimensionMismatch);
      }
      var Z := Zeros(rows, cols + A.cols);
      err := AugmentFill(A, Z);
      B := Z;
    }

    /** The new matrix [this; A]; column counts must agree. */
    method Stack(A: DenseMatrix) returns (B: DenseMatrix?, err: Option<ErrorCode>)
      requires Valid() && A.Valid()
      ensures cols != A.cols ==> B == null && err == Some(ErrorDimensionMismatch)
      ensures cols == A.cols ==> err == None && B != null && fresh(B) && fresh(B.elements) && B.Valid()
                                 && B.step == B.cols && B.base == 0 && B.View() == Stacked(View(), A.View())
    {
      if cols != A.cols {
        return null, Some(ErrorDimensionMismatch);
      }
      var Z := Zeros(rows + A.rows, cols);
      err := StackFill(A, Z);
      B := Z;
    }
  }

  /** W is the window of M whose corner is M's cell (i, j). */
  ghost predicate WindowOf(W: DenseMatrix, M: DenseMatrix, i: nat, j: nat) {
    && W.elements == M.elements && W.step == M.step && W.base == M.Offset(i, j)
    && i + W.rows <= M.rows && j + W.cols <= M.cols
  }

  /** In every state, a window's cells are its parent's cells: a write through
      either one is seen by the other. */
  lemma WindowAgrees(W: DenseMatrix, M: DenseMatrix, i: nat, j: nat)
    requires W.Valid() && M.Valid() && WindowOf(W, M, i, j)
    ensures forall p, q | 0 <= p < W.rows && 0 <= q < W.cols ::
              W.Offset(p, q) == M.Offset(i + p, j + q) && W.Get(p, q) == M.Get(i + p, j + q)
  {
    forall p: nat, q: nat | p < W.rows && q < W.cols
      ensures W.Offset(p, q) == M.Offset(i + p, j + q)
    {
      RowMajor.ShiftIndex(i, j, p, q, M.step);
    }
  }

  /** Writing a cell through a window changes the parent's matching cell. */
  method WriteThroughWindow(M: DenseMatrix, i: nat, j: nat, r: nat, c: nat, p: nat, q: nat, v: real)
      returns (W: DenseMatrix)
    requires M.Valid() && i + r <= M.rows && j + c <= M.cols && p < r && q < c
    modifies M.elements
    ensures W.Valid() && WindowOf(W, M, i, j) && W.rows == r && W.cols == c
    ensures W.Get(p, q) == v && M.Get(i + p, j + q) == v
    ensures forall a, b | 0 <= a < M.rows && 0 <= b < M.cols && (a != i + p || b != j + q) ::
              M.Get(a, b) == old(M.Get(a, b))
    ensures M.View() == WithRow(old(M.View()), i + p, j + q, [v])
    ensures forall k | 0 <= k < M.elements.Length && k != M.Offset(i + p, j + q) ::
              M.elements[k] == old(M.elements[k])
  {
    W := M.GetMatrix(i, j, r, c);
    W.Set(p, q, v);
    WindowAgrees(W, M, i, j);
    forall a, b | 0 <= a < M.rows && 0 <= b < M.cols && (a != i + p || b != j + q)
      ensures M.Get(a, b) == old(M.Get(a, b))
    {
      if M.Offset(a, b) == M.Offset(i + p, j + q) {
        M.OffsetInjective(a, b, i + p, j + q);
      }
    }
    GridExt(M.View(), WithRow(old(M.View()), i + p, j + q, [v]));
  }

  /** Writing a cell of an extracted block never changes the matrix it came from. */
  method WriteToSubMatrix(M: DenseMatrix, i: nat, j: nat, r: nat, c: nat, p: nat, q: nat, v: real)
      returns (S: DenseMatrix)
    requires M.Valid() && i + r <= M.rows && j + c <= M.cols && p < r && q < c
    ensures S.Valid() && S.rows == r && S.cols == c && S.Get(p, q) == v
    ensures M.View() == old(M.View())
  {
    S := M.SubMatrix(i, j, r, c);
    S.Set(p, q, v);
  }

  /** A rows x cols matrix of zeros in fresh storage. */
  method Zeros(rows: nat, cols: nat) returns (Z: DenseMatrix)
    ensures fresh(Z) && fresh(Z.elements) && Z.Valid()
    ensures Z.rows == rows && Z.cols == cols && Z.step == cols && Z.base == 0
    ensures Z.View() == Filled(rows, cols, 0.0)
  {
    var storage := new real[rows * cols](_ => 0.0);
    if rows > 0 { RowMajor.LastRowEnd(0, rows, cols); }
    Z := new DenseMatrix.Make(storage, rows, cols, cols, 0);
    GridExt(Z.View(), Filled(rows, cols, 0.0));
  }

  /** `NewDenseMatrix`: like `Zeros`, but writes the zeros with an explicit loop. */
  method NewDenseMatrix(rows: nat, cols: nat) returns (M: DenseMatrix)
    ensures fresh(M) && fresh(M.elements) && M.Valid()
    ensures M.rows == rows && M.cols == cols && M.step == cols && M.base == 0
    ensures M.View() == Filled(rows, cols, 0.0)
  {
    var storage := new real[rows * cols];
    for k := 0 to rows * cols
      invariant forall k' | 0 <= k' < k :: storage[k'] == 0.0
    {
      storage[k] := 0.0;
    }
    if rows > 0 { RowMajor.LastRowEnd(0, rows, cols); }
    M := new DenseMatrix.Make(storage, rows, cols, cols, 0);
    GridExt(M.View(), Filled(rows, cols, 0.0));
  }

  /** A rows x cols matrix of ones. */
  method Ones(rows: nat, cols: nat) returns (O: DenseMatrix)
    ensures fresh(O) && fresh(O.elements) && O.Valid()
    ensures O.rows == rows && O.cols == cols && O.step == cols && O.base == 0
    ensures O.View() == Filled(rows, cols, 1.0)
  {
    var storage := new real[rows * cols](_ => 0.0);
    for k := 0 to storage.Length
      invariant forall k' | 0 <= k' < k :: storage[k'] == 1.0
    {
      storage[k] := 1.0;
    }
    if rows > 0 { RowMajor.LastRowEnd(0, rows, cols); }
    O := new DenseMatrix.Make(storage, rows, cols, cols, 0);
    GridExt(O.View(), Filled(rows, cols, 1.0));
  }

  /** The size x size identity. */
  method Eye(size: nat) returns (E: DenseMatrix)
    ensures fresh(E) && fresh(E.elements) && E.Valid()
    ensures E.rows == size && E.cols == size && E.step == size && E.base == 0
    ensures E.View() == Identity(size)
  {
    E := Zeros(size, size);
    for i := 0 to size
      invariant forall p, q | 0 <= p < size && 0 <= q < size :: E.Get(p, q) == if p == q && p < i then 1.0 else 0.0
    {
      E.Set(i, i, 1.0);
    }
    GridExt(E.View(), Identity(size));
  }

  /** The |d| x |d| matrix with d on its diagonal. */
  method Diagonal(d: seq<real>) returns (D: DenseMatrix)
    ensures fresh(D) && fresh(D.elements) && D.Valid()
    ensures D.rows == |d| && D.cols == |d| && D.step == |d| && D.base == 0
    ensures D.View() == DiagonalGrid(d)
  {
    var n := |d|;
    D := Zeros(n, n);
    for i := 0 to n
      invariant forall p, q | 0 <= p < n && 0 <= q < n :: D.Get(p, q) == if p == q && p < i then d[p] else 0.0
    {
      D.Set(i, i, d[i]);
    }
    GridExt(D.View(), DiagonalGrid(d));
  }

  /** Wraps existing storage without copying: the matrix shares `elements`. */
  method MakeDenseMatrix(elements: array<real>, rows: nat, cols: nat) returns (A: DenseMatrix)
    requires rows * cols <= elements.Length
    ensures fresh(A) && A.Valid() && A.elements == elements
    ensures A.rows == rows && A.cols == cols && A.step == cols && A.base == 0
    ensures forall i: nat, j: nat | i < rows && j < cols :: A.Get(i, j) == elements[RowMajor.Index(i, j, cols)]
  {
    if rows > 0 { RowMajor.LastRowEnd(0, rows, cols); }
    A := new DenseMatrix.Make(elements, rows, cols, cols, 0);
  }

  /** The matrix whose row i is data[i]; the column count is that of data[0]
      (indexing data[0] panics when data is empty, and a shorter later row
      panics when it is read). */
  method MakeDenseMatrixStacked(data: seq<seq<real>>) returns (A: DenseMatrix)
    requires |data| > 0 && forall i | 0 <= i < |data| :: |data[i]| >= |data[0]|
    ensures fresh(A) && fresh(A.elements) && A.Valid() && A.step == A.cols && A.base == 0
    ensures A.View() == FromRows(data)
  {
    var rows, cols := |data|, |data[0]|;
    var storage := new real[rows * cols](_ => 0.0);
    A := MakeDenseMatrix(storage, rows, cols);
    for i := 0 to rows
      invariant forall p, q | 0 <= p < i && 0 <= q < cols :: A.Get(p, q) == data[p][q]
    {
      for j := 0 to cols
        invariant forall p, q | 0 <= p < i && 0 <= q < cols :: A.Get(p, q) == data[p][q]
        invariant forall q | 0 <= q < j :: A.Get(i, q) == data[i][q]
      {
        A.Set(i, j, data[i][j]);  // elements[i*cols+j] = data[i][j]
      }
    }
    GridExt(A.View(), FromRows(data));
  }

  /** A dense copy of any readable matrix. */
  method MakeDenseCopy(A: Grid) returns (B: DenseMatrix)
    requires A.Valid()
    ensures fresh(B) && fresh(B.elements) && B.Valid() && B.step == B.cols && B.View() == A
  {
    B := Zeros(A.rows, A.cols);
    for i := 0 to B.rows
      invariant forall p, q | 0 <= p < i && 0 <= q < B.cols :: B.Get(p, q) == A.Get(p, q)
    {
      for j := 0 to B.cols
        invariant forall p, q | 0 <= p < i && 0 <= q < B.cols :: B.Get(p, q) == A.Get(p, q)
        invariant forall q | 0 <= q < j :: B.Get(i, q) == A.Get(i, q)
      {
        B.Set(i, j, A.Get(i, j));
      }
    }
    GridExt(B.View(), A);
  }

  /** `AugmentFill` as the source writes it: the guard compares B's column count
      with M.rows + A.rows, and A is written from column A.cols on. Writing a
      cell outside B is fatal, hence the precondition. */
  function AugmentFillAsWritten(m: Grid, a: Grid, b: Grid): (r: Result<Grid, ErrorCode>)
    requires m.Valid() && a.Valid() && b.Valid()
    requires m.rows == a.rows && m.rows == b.rows && b.cols == m.rows + a.rows ==>
               m.cols <= b.cols && a.cols + a.cols <= b.cols
    ensures r.Err? <==> !(m.rows == a.rows && m.rows == b.rows && b.cols == m.rows + a.rows)
    ensures r.Err? ==> r.error == ErrorDimensionMismatch
    ensures r.Ok? ==> r.value.rows == b.rows && r.value.cols == b.cols
  {
    if m.rows != a.rows || m.rows != b.rows || b.cols != m.rows + a.rows then Err(ErrorDimensionMismatch)
    else Ok(Overlay(Overlay(b, m, 0, 0), a, 0, a.cols))
  }

  /** A 2x3 M and a 2x1 A pass the guard, but A lands on M's column 1 and the
      last column of B stays as it was: B is not [M, A]. */
  lemma AugmentFillAsWrittenMisplaces()
    ensures var m, a := Filled(2, 3, 1.0), Filled(2, 1, 2.0);
            var r := AugmentFillAsWritten(m, a, Filled(2, 4, 0.0));
            r.Ok? && r.value != Augmented(m, a)
  {
    var m, a := Filled(2, 3, 1.0), Filled(2, 1, 2.0);
    var r := AugmentFillAsWritten(m, a, Filled(2, 4, 0.0));
    assert r.value.cells[0][1] == 2.0;
    assert Augmented(m, a).cells[0][1] == 1.0;
  }

  /** A 1x1 M, a 1x2 A and a 1x3 B fit together, yet the guard rejects them. */
  lemma AugmentFillAsWrittenRejects()
    ensures var m, a, b := Filled(1, 1, 1.0), Filled(1, 2, 2.0), Filled(1, 3, 0.0);
            b.rows == m.rows && b.cols == m.cols + a.cols && AugmentFillAsWritten(m, a, b).Err?
  {
  }

  /** The cells of storage laid out with row stride step, from position 0. */
  function Strided(storage: seq<real>, rows: nat, cols: nat, step: nat): (g: Grid)
    requires cols <= step && (rows > 0 ==> (rows - 1) * step + cols <= |storage|)
    ensures g.Valid() && g.rows == rows && g.cols == cols
    ensures forall i: nat, j: nat | i < rows && j < cols ::
              RowMajor.Index(i, j, step) < |storage| && g.cells[i][j] == storage[RowMajor.Index(i, j, step)]
  {
    RowMajor.StridedBoundAll(rows, cols, step);
    Grid(rows, cols, seq(rows, (i: int) requires 0 <= i < rows =>
                           seq(cols, (j: int) requires 0 <= j < cols => storage[RowMajor.Index(i, j, step)])))
  }

  /** `Array` as the source writes it: the storage is handed out unchanged when
      the stride equals the row count (rather than the column count). */
  function ArrayAsWritten(storage: seq<real>, rows: nat, cols: nat, step: nat): (a: seq<real>)
    requires cols <= step && (rows > 0 ==> (rows - 1) * step + cols <= |storage|)
    requires step == rows ==> rows * cols <= |storage|
    ensures |a| == rows * cols
    ensures step != rows ==> a == Flattened(Strided(storage, rows, cols, step))
  {
    if step == rows then storage[..rows * cols] else Flattened(Strided(storage, rows, cols, step))
  }

  /** The 3x2 window at the corner of a 3x3 matrix holding 1..9 has cells
      [[1, 2], [4, 5], [7, 8]], but the fast path returns 1..6. */
  lemma ArrayAsWrittenWrongWindow()
    ensures var storage := [1.0, 2.0, 3.0, 4.0, 5.0, 6.0, 7.0, 8.0, 9.0];
            ArrayAsWritten(storage, 3, 2, 3) != Flattened(Strided(storage, 3, 2, 3))
  {
    var storage := [1.0, 2.0, 3.0, 4.0, 5.0, 6.0, 7.0, 8.0, 9.0];
    var f := Flattened(Strided(storage, 3, 2, 3));
    assert RowMajor.Index(1, 0, 2) == 2 && RowMajor.Index(1, 0, 3) == 3;
    assert f[2] == 4.0;
    assert ArrayAsWritten(storage, 3, 2, 3)[2] == 3.0;
  }

  /** `Copy` as the source writes it keeps the original's stride over storage
      of rows*cols cells; the copy of row r goes to `[r*step, r*step+cols)`,
      which stays inside the storage exactly when this holds. */
  predicate CopyAsWrittenFits(rows: nat, cols: nat, step: nat) {
    rows == 0 || (rows - 1) * step + cols <= rows * cols
  }

  /** The kept stride overruns the new storage (a panic) exactly when there are
      two rows or more and the stride exceeds the column count. */
  lemma {:induction false} CopyAsWrittenFitsIff(rows: nat, cols: nat, step: nat)
    requires cols <= step
    ensures CopyAsWrittenFits(rows, cols, step) <==> rows <= 1 || step == cols
  {
    if rows >= 2 {
      RowMajor.LastRowEnd(rows - 1, rows, cols);
      if step > cols {
        assert (rows - 1) * step == (rows - 1) * cols + (rows - 1) * (step - cols);
        assert (rows - 1) * (step - cols) >= 1 * (step - cols) by {
          RowMajor.MulMonotone(1, rows - 1, step - cols);
        }
      }
    }
  }

  /** A 2x1 window with stride 2, such as a column of a 2x2 matrix, cannot be copied. */
  lemma CopyAsWrittenPanics()
    ensures !CopyAsWrittenFits(2, 1, 2)
  {
  }
}

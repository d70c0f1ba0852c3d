/** A matrix that stores only its nonzero cells, in a map keyed by
    `i*step + j + offset`. Every constructor of the source sets `offset` to 0
    and `step` to `cols`, so the key of cell (i, j) is its row-major position
    and every key lies below rows*cols. Reading an absent key yields 0 and
    writing 0 deletes the key, so a matrix built through `Set` never stores an
    explicit zero. */
module Sparse {
  import opened Wrappers
  import opened Errors
  import opened Matrix
  import RowMajor
  import Dense

  class SparseMatrix {
    const rows: nat
    const cols: nat
    /** Key of cell (0, 0). */
    const offset: nat
    /** Key distance between consecutive rows. */
    const step: nat
    var elements: map<nat, real>

    function Key(i: nat, j: nat): nat {
      RowMajor.Index(i, j, step) + offset
    }

    ghost predicate Valid()
      reads this
    {
      offset == 0 && step == cols && forall k | k in elements :: k < rows * cols
    }

    /** No key maps to 0: the representation `Set` maintains. */
    ghost predicate NoZeros()
      reads this
    {
      forall k | k in elements :: elements[k] != 0.0
    }

    /** Distinct cells have distinct keys. */
    lemma KeyInjective(i: nat, j: nat, p: nat, q: nat)
      requires step == cols && j < cols && q < cols && Key(i, j) == Key(p, q)
      ensures i == p && j == q
    {
      RowMajor.IndexInjective(i, j, p, q, step);
    }

    /** The key of a cell of the matrix lies below rows*cols. */
    lemma KeyInRange(i: nat, j: nat)
      requires Valid() && i < rows && j < cols
      ensures Key(i, j) < rows * cols
    {
      RowMajor.IndexBound(i, j, rows, cols);
    }

    constructor Make(elements: map<nat, real>, rows: nat, cols: nat)
      requires forall k | k in elements :: k < rows * cols
      ensures this.rows == rows && this.cols == cols && this.elements == elements
      ensures Valid()
    {
      this.rows := rows;
      this.cols := cols;
      this.offset := 0;
      this.step := cols;
      this.elements := elements;
    }

    /** The cell (i, j): the stored value, or 0 when its key is absent. An
        index outside the matrix is fatal in the source. */
    function Get(i: nat, j: nat): (v: real)
      reads this
      requires i < rows && j < cols
      ensures i * step + j + offset in elements ==> v == elements[i * step + j + offset]
      ensures i * step + j + offset !in elements ==> v == 0.0
    {
      if Key(i, j) in elements then elements[Key(i, j)] else 0.0
    }

    ghost function View(): (g: Grid)
      reads this
      ensures g.Valid() && g.rows == rows && g.cols == cols
      ensures forall i, j | 0 <= i < rows && 0 <= j < cols :: g.cells[i][j] == Get(i, j)
    {
      Grid(rows, cols, seq(rows, (i: int) requires 0 <= i < rows reads this =>
                             seq(cols, (j: int) requires 0 <= j < cols reads this => Get(i, j))))
    }

    /** Recovers (row, column) from a key: `(index-offset)/step` and
        `(index-offset)%step`, with ErrorIllegalIndex for a key at or beyond
        rows*cols. A zero step divides by zero in the source. */
    function GetRowColIndex(index: nat): (r: (nat, nat, Option<ErrorCode>))
      requires step > 0 && offset <= index
      ensures r.1 < step && Key(r.0, r.1) == index
      ensures r.2 == if index >= rows * cols then Some(ErrorIllegalIndex) else None
    {
      var k := index - offset;
      RowMajor.IndexRecover(k, step);
      (k / step, k % step, if index >= rows * cols then Some(ErrorIllegalIndex) else None)
    }

    /** The row half of `GetRowColIndex`. */
    function GetRowIndex(index: nat): (r: (nat, Option<ErrorCode>))
      requires step > 0 && offset <= index
      ensures r == (GetRowColIndex(index).0, GetRowColIndex(index).2)
    {
      ((index - offset) / step, if index >= rows * cols then Some(ErrorIllegalIndex) else None)
    }

    /** The column half of `GetRowColIndex`. */
    function GetColIndex(index: nat): (r: (nat, Option<ErrorCode>))
      requires step > 0 && offset <= index
      ensures r == (GetRowColIndex(index).1, GetRowColIndex(index).2)
    {
      ((index - offset) % step, if index >= rows * cols then Some(ErrorIllegalIndex) else None)
    }

    /** Decoding the key of a cell gives the cell back, without an error when
        the cell is inside the matrix. */
    lemma {:induction false} DecodeKey(i: nat, j: nat)
      requires step > 0 && j < step
      ensures GetRowColIndex(Key(i, j)).0 == i && GetRowColIndex(Key(i, j)).1 == j
      ensures Valid() && i < rows && j < cols ==> GetRowColIndex(Key(i, j)).2 == None
    {
      var r := GetRowColIndex(Key(i, j));
      RowMajor.IndexInjective(r.0, r.1, i, j, step);
      if Valid() && i < rows && j < cols {
        KeyInRange(i, j);
      }
    }

    /** Every stored key decodes to a cell inside the matrix. */
    lemma KeyDecodesInside(index: nat)
      requires Valid() && index in elements
      ensures cols > 0 && index < rows * cols
      ensures GetRowColIndex(index).0 < rows && GetRowColIndex(index).1 < cols
      ensures GetRowColIndex(index).2 == None
    {
      RowMajor.DecodeBound(index, rows, cols);
    }

    /** The stored value at (i, j), or ErrorNilElement when the key is absent.
        An index outside the matrix is fatal in the source. */
    function Exist(i: nat, j: nat): (r: Result<real, ErrorCode>)
      reads this
      requires i < rows && j < cols
      ensures r.Ok? <==> Key(i, j) in elements
      ensures r.Ok? ==> r.value == Get(i, j)
      ensures r.Err? ==> r.error == ErrorNilElement && Get(i, j) == 0.0
    {
      if Key(i, j) in elements then Ok(elements[Key(i, j)]) else Err(ErrorNilElement)
    }

    /** The value stored under a key, or ErrorNilElement when it is absent. */
    function GetValue(index: nat): (r: Result<real, ErrorCode>)
      reads this
      ensures r.Ok? <==> index in elements
      ensures r.Ok? ==> r.value == elements[index]
      ensures r.Err? ==> r.error == ErrorNilElement
    {
      if index in elements then Ok(elements[index]) else Err(ErrorNilElement)
    }

    /** Writes cell (i, j): 0 deletes its key, anything else stores it. */
    method Set(i: nat, j: nat, v: real)
      requires Valid() && i < rows && j < cols
      modifies this
      ensures Valid()
      ensures elements == if v == 0.0 then old(elements) - {Key(i, j)} else old(elements)[Key(i, j) := v]
      ensures Get(i, j) == v
      ensures forall p, q | 0 <= p < rows && 0 <= q < cols && (p != i || q != j) :: Get(p, q) == old(Get(p, q))
      ensures old(NoZeros()) ==> NoZeros()
    {
      KeyInRange(i, j);
      var index := Key(i, j);
      if v == 0.0 {
        elements := elements - {index};
      } else {
        elements := elements[index := v];
      }
      forall p, q | 0 <= p < rows && 0 <= q < cols && (p != i || q != j)
        ensures Get(p, q) == old(Get(p, q))
      {
        if Key(p, q) == index {
          KeyInjective(p, q, i, j);
        }
      }
    }

    /** Writes the value under a raw key: 0 deletes it whatever the key, a
        nonzero value is stored only under a key below rows*cols, and any
        other key is refused with ErrorIllegalIndex and no change. */
    method SetValue(index: nat, v: real) returns (err: Option<ErrorCode>)
      requires Valid()
      modifies this
      ensures Valid()
      ensures err == (if v != 0.0 && index >= rows * cols then Some(ErrorIllegalIndex) else None)
      ensures elements == if v == 0.0 then old(elements) - {index}
                          else if index < rows * cols then old(elements)[index := v]
                          else old(elements)
      ensures old(NoZeros()) ==> NoZeros()
    {
      if v == 0.0 {
        elements := elements - {index};
      } else if index < rows * cols {
        elements := elements[index := v];
      } else {
        return Some(ErrorIllegalIndex);
      }
      return None;
    }

    /** The r x c block at (i, j), copied into a new matrix. A block that is
        empty or does not fit yields ErrorIllegalIndex, but the copy is still
        made: cell (p, q) of the result reads whatever M stores under the key
        `(i+p)*step + (j+q) + offset`. */
    method SubMatrix(i: nat, j: nat, r: nat, c: nat) returns (S: SparseMatrix, err: Option<ErrorCode>)
      requires Valid()
      ensures fresh(S) && S.Valid() && S.NoZeros() && S.rows == r && S.cols == c
      ensures err == if r == 0 || c == 0 || i + r > rows || j + c > cols then Some(ErrorIllegalIndex) else None
      ensures forall p, q | 0 <= p < r && 0 <= q < c ::
                S.Get(p, q) == if Key(i + p, j + q) in elements then elements[Key(i + p, j + q)] else 0.0
      ensures err == None ==> S.View() == Block(View(), i, j, r, c)
    {
      err := None;
      if r == 0 || c == 0 || i + r > rows || j + c > cols {
        err := Some(ErrorIllegalIndex);
      }
      S := ZerosSparse(r, c);
      for p := 0 to r
        invariant S.Valid() && S.NoZeros() && S.rows == r && S.cols == c
        invariant forall p', q' | 0 <= p' < r && 0 <= q' < c ::
                    S.Get(p', q') == if p' < p && Key(i + p', j + q') in elements then elements[Key(i + p', j + q')] else 0.0
      {
        for q := 0 to c
          invariant S.Valid() && S.NoZeros() && S.rows == r && S.cols == c
          invariant forall p', q' | 0 <= p' < r && 0 <= q' < c ::
                      S.Get(p', q') == if (p' < p || (p' == p && q' < q)) && Key(i + p', j + q') in elements
                                       then elements[Key(i + p', j + q')] else 0.0
        {
          var index := Key(i + p, j + q);
          if index in elements {
            S.Set(p, q, elements[index]);
          }
        }
      }
      if err == None {
        GridExt(S.View(), Block(View(), i, j, r, c));
      }
    }

    /** Column j as a rows x 1 matrix. A column outside the matrix (or a
        matrix without rows) yields ErrorIllegalIndex, and the copy still reads
        whatever is stored under the keys `p*step + j + offset`. */
    method ColVector(j: nat) returns (S: SparseMatrix, err: Option<ErrorCode>)
      requires Valid()
      ensures fresh(S) && S.Valid() && S.NoZeros() && S.rows == rows && S.cols == 1
      ensures err == (if rows == 0 || j >= cols then Some(ErrorIllegalIndex) else None)
      ensures forall p | 0 <= p < rows ::
                S.Get(p, 0) == if Key(p, j) in elements then elements[Key(p, j)] else 0.0
      ensures err == None ==> S.View() == Block(View(), 0, j, rows, 1)
    {
      S, err := SubMatrix(0, j, rows, 1);
    }

    /** Row i as a 1 x cols matrix. A row outside the matrix (or a matrix
        without columns) yields ErrorIllegalIndex, and the copy still reads
        whatever is stored under the keys `i*step + q + offset`. */
    method RowVector(i: nat) returns (S: SparseMatrix, err: Option<ErrorCode>)
      requires Valid()
      ensures fresh(S) && S.Valid() && S.NoZeros() && S.rows == 1 && S.cols == cols
      ensures err == (if cols == 0 || i >= rows then Some(ErrorIllegalIndex) else None)
      ensures forall q | 0 <= q < cols ::
                S.Get(0, q) == if Key(i, q) in elements then elements[Key(i, q)] else 0.0
      ensures err == None ==> S.View() == Block(View(), i, 0, 1, cols)
    {
      S, err := SubMatrix(i, 0, 1, cols);
    }

    /** Writes every stored entry of this matrix into S at the same cell
        shifted by (di, dj); the cells of S that receive no entry keep their values. */
    method CopyInto(S: SparseMatrix, di: nat, dj: nat)
      requires Valid() && S.Valid() && S != this && di + rows <= S.rows && dj + cols <= S.cols
      modifies S
      ensures S.Valid() && (old(S.NoZeros()) ==> S.NoZeros())
      ensures forall p, q | 0 <= p < S.rows && 0 <= q < S.cols ::
                S.Get(p, q) == if di <= p < di + rows && dj <= q < dj + cols && Key(p - di, q - dj) in elements
                               then elements[Key(p - di, q - dj)] else old(S.Get(p, q))
    {
      var remaining := elements.Keys;
      while remaining != {}
        invariant remaining <= elements.Keys
        invariant S.Valid() && (old(S.NoZeros()) ==> S.NoZeros())
        invariant forall p, q | 0 <= p < S.rows && 0 <= q < S.cols ::
                    S.Get(p, q) == if di <= p < di + rows && dj <= q < dj + cols
                                      && Key(p - di, q - dj) in elements && Key(p - di, q - dj) !in remaining
                                   then elements[Key(p - di, q - dj)] else old(S.Get(p, q))
        decreases remaining
      {
        var index :| index in remaining;
        KeyDecodesInside(index);
        var (i, j, _) := GetRowColIndex(index);
        S.Set(i + di, j + dj, elements[index]);
        remaining := remaining - {index};
        forall a, b | 0 <= a < rows && 0 <= b < cols
          ensures Key(a, b) == index <==> a == i && b == j
        {
          if Key(a, b) == index {
            KeyInjective(a, b, i, j);
          }
        }
      }
    }

    /** The new matrix [this, B]; row counts must agree. */
    method Augment(B: SparseMatrix) returns (S: SparseMatrix?, err: Option<ErrorCode>)
      requires Valid() && B.Valid()
      ensures rows != B.rows ==> S == null && err == Some(ErrorDimensionMismatch)
      ensures rows == B.rows ==> err == None && S != null && fresh(S) && S.Valid() && S.NoZeros()
                                 && S.View() == Augmented(View(), B.View())
    {
      if rows != B.rows {
        return null, Some(ErrorDimensionMismatch);
      }
      var T := ZerosSparse(rows, cols + B.cols);
      CopyInto(T, 0, 0);
      B.CopyInto(T, 0, cols);
      GridExt(T.View(), Augmented(View(), B.View()));
      return T, None;
    }

    /** The new matrix [this; B]; column counts must agree. */
    method Stack(B: SparseMatrix) returns (S: SparseMatrix?, err: Option<ErrorCode>)
      requires Valid() && B.Valid()
      ensures cols != B.cols ==> S == null && err == Some(ErrorDimensionMismatch)
      ensures cols == B.cols ==> err == None && S != null && fresh(S) && S.Valid() && S.NoZeros()
                                 && S.View() == Stacked(View(), B.View())
    {
      if cols != B.cols {
        return null, Some(ErrorDimensionMismatch);
      }
      var T := ZerosSparse(rows + B.rows, cols);
      CopyInto(T, 0, 0);
      B.CopyInto(T, rows, 0);
      GridExt(T.View(), Stacked(View(), B.View()));
      return T, None;
    }

    /** The entries on and below the diagonal (lower = true) or on and above
        it (lower = false), in a new matrix. */
    method Triangle(lower: bool) returns (T: SparseMatrix)
      requires Valid()
      ensures fresh(T) && T.Valid() && T.NoZeros() && T.rows == rows && T.cols == cols
      ensures T.View() == if lower then LowerPart(View()) else UpperPart(View())
    {
      T := ZerosSparse(rows, cols);
      var remaining := elements.Keys;
      while remaining != {}
        invariant remaining <= elements.Keys
        invariant T.Valid() && T.NoZeros() && T.rows == rows && T.cols == cols
        invariant forall p, q | 0 <= p < rows && 0 <= q < cols ::
                    T.Get(p, q) == if (if lower then p >= q else p <= q) && Key(p, q) !in remaining then Get(p, q) else 0.0
        decreases remaining
      {
        var index :| index in remaining;
        KeyDecodesInside(index);
        var (i, j, _) := GetRowColIndex(index);
        if if lower then i >= j else i <= j {
          T.Set(i, j, elements[index]);
        }
        remaining := remaining - {index};
        forall p, q | 0 <= p < rows && 0 <= q < cols
          ensures Key(p, q) == index <==> p == i && q == j
        {
          if Key(p, q) == index {
            KeyInjective(p, q, i, j);
          }
        }
      }
      if lower {
        GridExt(T.View(), LowerPart(View()));
      } else {
        GridExt(T.View(), UpperPart(View()));
      }
    }

    /** The lower triangle, diagonal included. */
    method L() returns (T: SparseMatrix)
      requires Valid()
      ensures fresh(T) && T.Valid() && T.NoZeros() && T.View() == LowerPart(View())
    {
      T := Triangle(true);
    }

    /** The upper triangle, diagonal included. */
    method U() returns (T: SparseMatrix)
      requires Valid()
      ensures fresh(T) && T.Valid() && T.NoZeros() && T.View() == UpperPart(View())
    {
      T := Triangle(false);
    }

    /** A new matrix holding the same entries, written straight into its map. */
    method Copy() returns (C: SparseMatrix)
      requires Valid()
      ensures fresh(C) && C.Valid() && C.rows == rows && C.cols == cols && C.elements == elements
    {
      C := ZerosSparse(rows, cols);
      var remaining := elements.Keys;
      while remaining != {}
        invariant remaining <= elements.Keys
        invariant C.Valid() && C.rows == rows && C.cols == cols
        invariant C.elements == map k | k in elements && k !in remaining :: elements[k]
        decreases remaining
      {
        var index :| index in remaining;
        C.elements := C.elements[index := elements[index]];
        remaining := remaining - {index};
      }
    }

    /** `SparseMatrix()` on a sparse matrix is a copy. */
    method SparseMatrix() returns (C: SparseMatrix)
      requires Valid()
      ensures fresh(C) && C.Valid() && C.elements == elements && C.View() == View()
    {
      C := Copy();
      GridExt(C.View(), View());
    }

    /** A dense matrix with the same cells. */
    method DenseMatrix() returns (B: Dense.DenseMatrix)
      requires Valid()
      ensures fresh(B) && fresh(B.elements) && B.Valid() && B.step == B.cols && B.View() == View()
    {
      B := Dense.Zeros(rows, cols);
      var remaining := elements.Keys;
      while remaining != {}
        invariant remaining <= elements.Keys
        invariant B.Valid() && B.rows == rows && B.cols == cols
        invariant forall p, q | 0 <= p < rows && 0 <= q < cols ::
                    B.Get(p, q) == if Key(p, q) !in remaining then Get(p, q) else 0.0
        decreases remaining
      {
        var index :| index in remaining;
        KeyDecodesInside(index);
        var (i, j, _) := GetRowColIndex(index);
        B.Set(i, j, elements[index]);
        remaining := remaining - {index};
        forall p, q | 0 <= p < rows && 0 <= q < cols
          ensures Key(p, q) == index <==> p == i && q == j
        {
          if Key(p, q) == index {
            KeyInjective(p, q, i, j);
          }
        }
      }
      GridExt(B.View(), View());
    }

    /** `Array`: the matrix flattened in row-major order, each stored value
        written at its own key and every other cell 0. */
    method Array() returns (a: seq<real>)
      requires Valid()
      ensures a == Flattened(View())
    {
      var flat := new real[rows * cols](_ => 0.0);
      var remaining := elements.Keys;
      while remaining != {}
        invariant remaining <= elements.Keys
        invariant forall k | 0 <= k < flat.Length :: flat[k] == if k in elements && k !in remaining then elements[k] else 0.0
        decreases remaining
      {
        var index :| index in remaining;
        flat[index] := elements[index];
        remaining := remaining - {index};
      }
      a := flat[..];
      forall i: nat, j: nat | i < rows && j < cols
        ensures RowMajor.Index(i, j, cols) < |a| && a[RowMajor.Index(i, j, cols)] == View().cells[i][j]
      {
        RowMajor.IndexBound(i, j, rows, cols);
        assert Key(i, j) == RowMajor.Index(i, j, cols);
      }
      FlattenedExt(a, View());
    }

    /** `Arrays` as evidently intended: the rows of the matrix, each stored
        value placed at the cell its key decodes to when the key is inside
        the matrix. */
    method Arrays() returns (a: seq<seq<real>>)
      requires Valid()
      ensures a == View().cells
    {
      a := seq(rows, _ => seq(cols, _ => 0.0));
      var remaining := elements.Keys;
      while remaining != {}
        invariant remaining <= elements.Keys
        invariant |a| == rows && forall p | 0 <= p < rows :: |a[p]| == cols
        invariant forall p, q | 0 <= p < rows && 0 <= q < cols ::
                    a[p][q] == if Key(p, q) !in remaining then Get(p, q) else 0.0
        decreases remaining
      {
        var index :| index in remaining;
        KeyDecodesInside(index);
        var (i, j, err) := GetRowColIndex(index);
        if err == None {
          a := a[i := a[i][j := elements[index]]];
        }
        remaining := remaining - {index};
        forall p, q | 0 <= p < rows && 0 <= q < cols
          ensures Key(p, q) == index <==> p == i && q == j
        {
          if Key(p, q) == index {
            KeyInjective(p, q, i, j);
          }
        }
      }
      forall p | 0 <= p < rows
        ensures a[p] == View().cells[p]
      {
        assert forall q | 0 <= q < cols :: a[p][q] == View().cells[p][q];
      }
    }

    /** `Arrays` as written: a value is placed only when decoding its key
        reports an error, which no key of a valid matrix does, so every cell
        of the result is 0. */
    method ArraysAsWritten() returns (a: seq<seq<real>>)
      requires Valid()
      ensures a == Filled(rows, cols, 0.0).cells
    {
      a := seq(rows, _ => seq(cols, _ => 0.0));
      var remaining := elements.Keys;
      while remaining != {}
        invariant remaining <= elements.Keys
        invariant a == Filled(rows, cols, 0.0).cells
        decreases remaining
      {
        var index :| index in remaining;
        KeyDecodesInside(index);
        var (i, j, err) := GetRowColIndex(index);
        if err != None {
          // the store the source makes here is never reached
          assert false;
        }
        remaining := remaining - {index};
      }
    }
  }

  /** The 1 by 1 matrix holding 5 comes out of `Arrays` as written as [[0]]
      rather than [[5]]. */
  method ArraysAsWrittenLosesValues() returns (a: seq<seq<real>>, intended: seq<seq<real>>)
    ensures |a| == 1 && |a[0]| == 1 && a[0][0] == 0.0
    ensures |intended| == 1 && |intended[0]| == 1 && intended[0][0] == 5.0
  {
    var M := MakeSparseMatrix(map[0 := 5.0], 1, 1);
    a := M.ArraysAsWritten();
    intended := M.Arrays();
  }


  /** g with the cells above the diagonal set to 0. */
  function LowerPart(g: Grid): (h: Grid)
    requires g.Valid()
    ensures h.Valid() && h.rows == g.rows && h.cols == g.cols
    ensures forall i, j | 0 <= i < g.rows && 0 <= j < g.cols :: h.cells[i][j] == if i >= j then g.cells[i][j] else 0.0
  {
    Grid(g.rows, g.cols, seq(g.rows, (i: int) requires 0 <= i < g.rows =>
                             seq(g.cols, (j: int) requires 0 <= j < g.cols => if i >= j then g.cells[i][j] else 0.0)))
  }

  /** g with the cells below the diagonal set to 0. */
  function UpperPart(g: Grid): (h: Grid)
    requires g.Valid()
    ensures h.Valid() && h.rows == g.rows && h.cols == g.cols
    ensures forall i, j | 0 <= i < g.rows && 0 <= j < g.cols :: h.cells[i][j] == if i <= j then g.cells[i][j] else 0.0
  {
    Grid(g.rows, g.cols, seq(g.rows, (i: int) requires 0 <= i < g.rows =>
                             seq(g.cols, (j: int) requires 0 <= j < g.cols => if i <= j then g.cells[i][j] else 0.0)))
  }

  /** The upper triangle is the mirror image of the lower triangle of the transpose. */
  lemma {:induction false} UpperIsMirroredLower(g: Grid)
    requires g.Valid()
    ensures UpperPart(g) == Transposed(LowerPart(Transposed(g)))
  {
    GridExt(UpperPart(g), Transposed(LowerPart(Transposed(g))));
  }

  /** The two triangles overlap exactly on the diagonal: together they hold every cell once,
      and the diagonal twice. */
  lemma {:induction false} TrianglesCover(g: Grid)
    requires g.Valid()
    ensures forall i, j | 0 <= i < g.rows && 0 <= j < g.cols ::
              LowerPart(g).cells[i][j] + UpperPart(g).cells[i][j] == g.cells[i][j] + (if i == j then g.cells[i][j] else 0.0)
  {
  }

  /** Two matrices without stored zeros that read the same hold the same map:
      the representation `Set` maintains is canonical. */
  lemma Canonical(A: SparseMatrix, B: SparseMatrix)
    requires A.Valid() && B.Valid() && A.NoZeros() && B.NoZeros()
    requires A.rows == B.rows && A.cols == B.cols && A.View() == B.View()
    ensures A.elements == B.elements
  {
    forall k | k in A.elements
      ensures k in B.elements && B.elements[k] == A.elements[k]
    {
      A.KeyDecodesInside(k);
      var (i, j, _) := A.GetRowColIndex(k);
      assert A.Get(i, j) == A.View().cells[i][j] == B.View().cells[i][j] == B.Get(i, j);
    }
    forall k | k in B.elements
      ensures k in A.elements
    {
      B.KeyDecodesInside(k);
      var (i, j, _) := B.GetRowColIndex(k);
      assert A.Get(i, j) == A.View().cells[i][j] == B.View().cells[i][j] == B.Get(i, j);
    }
  }

  /** An empty rows x cols matrix. */
  method NewSparseMatrix(rows: nat, cols: nat) returns (M: SparseMatrix)
    ensures fresh(M) && M.Valid() && M.rows == rows && M.cols == cols && M.elements == map[]
    ensures M.View() == Filled(rows, cols, 0.0)
  {
    M := new SparseMatrix.Make(map[], rows, cols);
    GridExt(M.View(), Filled(rows, cols, 0.0));
  }

  /** Wraps an existing map whose keys all lie below rows*cols. */
  method MakeSparseMatrix(elements: map<nat, real>, rows: nat, cols: nat) returns (M: SparseMatrix)
    requires forall k | k in elements :: k < rows * cols
    ensures fresh(M) && M.Valid() && M.rows == rows && M.cols == cols && M.elements == elements
  {
    M := new SparseMatrix.Make(elements, rows, cols);
  }

  /** The rows x cols zero matrix: no key is stored. */
  method ZerosSparse(rows: nat, cols: nat) returns (M: SparseMatrix)
    ensures fresh(M) && M.Valid() && M.NoZeros() && M.rows == rows && M.cols == cols && M.elements == map[]
    ensures M.View() == Filled(rows, cols, 0.0)
  {
    M := NewSparseMatrix(rows, cols);
  }

  /** The keys 0 .. n-1. */
  function Below(n: nat): (s: set<nat>)
    ensures forall k: nat :: k in s <==> k < n
  {
    if n == 0 then {} else Below(n - 1) + {n - 1}
  }

  /** The map `ZerosSparse` builds as the source writes it: every key below
      rows*cols, each mapped to 0. */
  function ZerosSparseElementsAsWritten(rows: nat, cols: nat): (m: map<nat, real>)
    ensures forall k: nat :: k in m <==> k < rows * cols
    ensures forall k | k in m :: m[k] == 0.0
  {
    map k | k in Below(rows * cols) :: 0.0
  }

  /** The stored zeros read exactly like the empty map, but break the no-zero
      representation whenever the matrix has a cell. */
  lemma ZerosSparseAsWrittenStoresZeros(rows: nat, cols: nat)
    requires rows > 0 && cols > 0
    ensures 0 in ZerosSparseElementsAsWritten(rows, cols) && ZerosSparseElementsAsWritten(rows, cols)[0] == 0.0
  {
    RowMajor.IndexBound(0, 0, rows, cols);
  }

  /** The map `OnesSparse` builds as the source writes it: keys 0 .. cols*cols-1 mapped to 1. */
  function OnesSparseElementsAsWritten(rows: nat, cols: nat): (m: map<nat, real>)
    ensures forall k: nat :: k in m <==> k < cols * cols
  {
    map k | k in Below(cols * cols) :: 1.0
  }

  /** With two rows and one column, key 1 (cell (1, 0)) is missing, so that cell reads 0. */
  lemma OnesSparseAsWrittenMissesCell()
    ensures 1 < 2 * 1 && 1 !in OnesSparseElementsAsWritten(2, 1)
  {
  }

  /** The rows x cols matrix of ones: every key below rows*cols maps to 1. */
  method OnesSparse(rows: nat, cols: nat) returns (M: SparseMatrix)
    ensures fresh(M) && M.Valid() && M.NoZeros() && M.rows == rows && M.cols == cols
    ensures M.View() == Filled(rows, cols, 1.0)
  {
    var m: map<nat, real> := map[];
    for k := 0 to rows * cols
      invariant m == map k' | k' in Below(k) :: 1.0
    {
      m := m[k := 1.0];
    }
    M := new SparseMatrix.Make(m, rows, cols);
    forall i, j | 0 <= i < rows && 0 <= j < cols
      ensures M.Get(i, j) == 1.0
    {
      M.KeyInRange(i, j);
    }
    GridExt(M.View(), Filled(rows, cols, 1.0));
  }

  /** The size x size identity: exactly the diagonal keys are stored, each as 1. */
  method EyeSparse(size: nat) returns (E: SparseMatrix)
    ensures fresh(E) && E.Valid() && E.NoZeros() && E.rows == size && E.cols == size
    ensures E.View() == Identity(size)
  {
    E := ZerosSparse(size, size);
    for i := 0 to size
      invariant E.Valid() && E.NoZeros() && E.rows == size && E.cols == size
      invariant forall p, q | 0 <= p < size && 0 <= q < size :: E.Get(p, q) == if p == q && p < i then 1.0 else 0.0
    {
      E.Set(i, i, 1.0);
    }
    GridExt(E.View(), Identity(size));
  }

  /** The |d| x |d| matrix with d on its diagonal; zeros of d are not stored. */
  method Diagonal(d: seq<real>) returns (D: SparseMatrix)
    ensures fresh(D) && D.Valid() && D.NoZeros() && D.rows == |d| && D.cols == |d|
    ensures D.View() == DiagonalGrid(d)
  {
    var n := |d|;
    D := ZerosSparse(n, n);
    for i := 0 to n
      invariant D.Valid() && D.NoZeros() && D.rows == n && D.cols == n
      invariant forall p, q | 0 <= p < n && 0 <= q < n :: D.Get(p, q) == if p == q && p < i then d[p] else 0.0
    {
      D.Set(i, i, d[i]);
    }
    GridExt(D.View(), DiagonalGrid(d));
  }

  /** A sparse copy of any readable matrix; its zero cells are not stored. */
  method MakeSparseCopy(M: Grid) returns (A: SparseMatrix)
    requires M.Valid()
    ensures fresh(A) && A.Valid() && A.NoZeros() && A.View() == M
  {
    A := ZerosSparse(M.rows, M.cols);
    for i := 0 to M.rows
      invariant A.Valid() && A.NoZeros() && A.rows == M.rows && A.cols == M.cols
      invariant forall p, q | 0 <= p < M.rows && 0 <= q < M.cols :: A.Get(p, q) == if p < i then M.Get(p, q) else 0.0
    {
      for j := 0 to M.cols
        invariant A.Valid() && A.NoZeros() && A.rows == M.rows && A.cols == M.cols
        invariant forall p, q | 0 <= p < M.rows && 0 <= q < M.cols ::
                    A.Get(p, q) == if p < i || (p == i && q < j) then M.Get(p, q) else 0.0
      {
        A.Set(i, j, M.Get(i, j));
      }
    }
    GridExt(A.View(), M);
  }

  /** The sparse copy of a dense matrix: only its nonzero cells are written. */
  method SparseOfDense(A: Dense.DenseMatrix) returns (B: SparseMatrix)
    requires A.Valid()
    ensures fresh(B) && B.Valid() && B.NoZeros() && B.View() == A.View()
  {
    B := ZerosSparse(A.rows, A.cols);
    for i := 0 to A.rows
      invariant B.Valid() && B.NoZeros() && B.rows == A.rows && B.cols == A.cols
      invariant forall p, q | 0 <= p < A.rows && 0 <= q < A.cols :: B.Get(p, q) == if p < i then A.Get(p, q) else 0.0
    {
      for j := 0 to A.cols
        invariant B.Valid() && B.NoZeros() && B.rows == A.rows && B.cols == A.cols
        invariant forall p, q | 0 <= p < A.rows && 0 <= q < A.cols ::
                    B.Get(p, q) == if p < i || (p == i && q < j) then A.Get(p, q) else 0.0
      {
        var v := A.Get(i, j);
        if v != 0.0 {
          B.Set(i, j, v);
        }
      }
    }
    GridExt(B.View(), A.View());
  }

  /** Converting dense to sparse and back reproduces the cells. */
  method DenseSparseRoundTrip(A: Dense.DenseMatrix) returns (C: Dense.DenseMatrix)
    requires A.Valid()
    ensures C.Valid() && C.View() == A.View()
  {
    var S := SparseOfDense(A);
    C := S.DenseMatrix();
  }

  /** Storing a non-zero value and then 0 in the same cell leaves no key
      behind: the cell reads as absent and as 0, and the rest of the map is
      as it was without that key. */
  method SetThenClear(M: SparseMatrix, i: nat, j: nat, v: real)
    requires M.Valid() && i < M.rows && j < M.cols && v != 0.0
    modifies M
    ensures M.Valid() && M.elements == old(M.elements) - {M.Key(i, j)}
    ensures M.Exist(i, j) == Err(ErrorNilElement) && M.Get(i, j) == 0.0
  {
    M.Set(i, j, v);
    M.Set(i, j, 0.0);
  }
}

/** Arithmetic facts about the row-major addressing `i * step + j` that the dense
    storage (`elements[i*step+j]`) and the sparse keys (`i*step+j+offset`) share. */
module RowMajor {

  /** Position of cell (i, j) when consecutive rows start `step` apart. */
  function Index(i: nat, j: nat, step: nat): nat {
    i * step + j
  }

  lemma MulMonotone(a: nat, b: nat, c: nat)
    requires a <= b
    ensures a * c <= b * c
  {
    var d := b - a;
    assert b * c == a * c + d * c;
  }

  /** Cells of one row never reach the start of the next row. */
  lemma {:induction false} IndexInjective(i1: nat, j1: nat, i2: nat, j2: nat, step: nat)
    requires j1 < step && j2 < step
    requires Index(i1, j1, step) == Index(i2, j2, step)
    ensures i1 == i2 && j1 == j2
  {
    if i1 < i2 {
      assert (i1 + 1) * step == i1 * step + step;
      MulMonotone(i1 + 1, i2, step);
      assert false;
    } else if i2 < i1 {
      assert (i2 + 1) * step == i2 * step + step;
      MulMonotone(i2 + 1, i1, step);
      assert false;
    }
  }

  /** A cell of a rows x cols block lies inside the first rows*cols positions. */
  lemma {:induction false} IndexBound(i: nat, j: nat, rows: nat, cols: nat)
    requires i < rows && j < cols
    ensures Index(i, j, cols) < rows * cols
  {
    MulMonotone(i + 1, rows, cols);
    assert (i + 1) * cols == i * cols + cols;
  }

  lemma IndexBoundAll(rows: nat, cols: nat)
    ensures forall i: nat, j: nat {:trigger Index(i, j, cols)} :: i < rows && j < cols ==> Index(i, j, cols) < rows * cols
  {
    forall i: nat, j: nat | i < rows && j < cols
      ensures Index(i, j, cols) < rows * cols
    {
      IndexBound(i, j, rows, cols);
    }
  }

  /** Every cell of a rows x cols block with stride step lies before the end
      of its last row. */
  lemma StridedBoundAll(rows: nat, cols: nat, step: nat)
    ensures forall i: nat, j: nat {:trigger Index(i, j, step)} :: i < rows && j < cols ==> Index(i, j, step) < (rows - 1) * step + cols
  {
    forall i: nat, j: nat | i < rows && j < cols
      ensures Index(i, j, step) < (rows - 1) * step + cols
    {
      MulMonotone(i, rows - 1, step);
    }
  }

  /** Division and remainder recover the cell from its position. */
  lemma {:induction false} IndexRecover(k: nat, step: nat)
    requires step > 0
    ensures k / step >= 0 && k % step < step
    ensures Index(k / step, k % step, step) == k
  {
  }

  lemma {:induction false} IndexDecode(i: nat, j: nat, step: nat)
    requires j < step
    ensures Index(i, j, step) / step == i && Index(i, j, step) % step == j
  {
    var k := Index(i, j, step);
    IndexRecover(k, step);
    IndexInjective(k / step, k % step, i, j, step);
  }

  /** A position below rows*cols decodes to a row below rows. */
  lemma {:induction false} DecodeBound(k: nat, rows: nat, cols: nat)
    requires cols > 0 && k < rows * cols
    ensures k / cols < rows && k % cols < cols
  {
    IndexRecover(k, cols);
    if k / cols >= rows {
      MulMonotone(rows, k / cols, cols);
      assert false;
    }
  }

  /** Offsets inside a window add up to offsets in its parent. */
  lemma ShiftIndex(i: nat, j: nat, p: nat, q: nat, step: nat)
    ensures Index(i, j, step) + Index(p, q, step) == Index(i + p, j + q, step)
  {
    assert (i + p) * step == i * step + p * step;
  }

  /** The last cell of a rows x cols block with stride step ends the block's storage. */
  lemma {:induction false} LastRowEnd(i: nat, rows: nat, step: nat)
    requires i < rows
    ensures Index(i, 0, step) + step <= rows * step
    ensures (rows - 1) * step + step == rows * step
  {
    MulMonotone(i + 1, rows, step);
    assert (i + 1) * step == i * step + step;
    assert (rows - 1) * step + step == rows * step;
  }
}

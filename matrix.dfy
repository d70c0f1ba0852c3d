/** What every matrix representation shares: its dimensions (the embedded
    `matrix` struct and its accessors) and the read-only view of its cells that
    the `MatrixRO` interface offers through `Rows`, `Cols` and `Get`. */
module Matrix {
  import opened Wrappers
  import RowMajor

  /** The `matrix` struct embedded in every representation. */
  datatype Dims = Dims(rows: nat, cols: nat) {
    function Rows(): nat { rows }
    function Cols(): nat { cols }
    function NumElements(): nat { rows * cols }
    function Dimension(): (nat, nat) { (rows, cols) }
  }

  /** `Nil` on a possibly-nil receiver. */
  predicate Nil(m: Option<Dims>) {
    m.None?
  }

  /** The accessors agree with each other and with the dimensions they report. */
  lemma Accessors(m: Dims)
    ensures m.NumElements() == m.Dimension().0 * m.Dimension().1
    ensures m.Dimension() == (m.Rows(), m.Cols())
    ensures !Nil(Some(m)) && Nil(None)
  {
  }

  /** The value a MatrixRO shows its readers: dimensions and the cells row by row. */
  datatype Grid = Grid(rows: nat, cols: nat, cells: seq<seq<real>>) {
    predicate Valid() {
      |cells| == rows && forall i | 0 <= i < rows :: |cells[i]| == cols
    }

    function Get(i: nat, j: nat): real
      requires Valid() && i < rows && j < cols
    {
      cells[i][j]
    }
  }

  /** Two valid grids with the same dimensions and the same cells are equal. */
  lemma GridExt(a: Grid, b: Grid)
    requires a.Valid() && b.Valid() && a.rows == b.rows && a.cols == b.cols
    requires forall i, j | 0 <= i < a.rows && 0 <= j < a.cols :: a.cells[i][j] == b.cells[i][j]
    ensures a == b
  {
    assert forall i | 0 <= i < a.rows :: a.cells[i] == b.cells[i];
  }

  /** Every cell equal to v. */
  function Filled(rows: nat, cols: nat, v: real): (g: Grid)
    ensures g.Valid() && g.rows == rows && g.cols == cols
    ensures forall i, j | 0 <= i < rows && 0 <= j < cols :: g.cells[i][j] == v
  {
    Grid(rows, cols, seq(rows, _ => seq(cols, _ => v)))
  }

  /** Ones on the main diagonal of an n x n grid, zeros elsewhere. */
  function Identity(n: nat): (g: Grid)
    ensures g.Valid() && g.rows == n && g.cols == n
    ensures forall i, j | 0 <= i < n && 0 <= j < n :: g.cells[i][j] == if i == j then 1.0 else 0.0
  {
    Grid(n, n, seq(n, i => seq(n, j => if i == j then 1.0 else 0.0)))
  }

  /** d on the main diagonal of a |d| x |d| grid, zeros elsewhere. */
  function DiagonalGrid(d: seq<real>): (g: Grid)
    ensures g.Valid() && g.rows == |d| && g.cols == |d|
    ensures forall i, j | 0 <= i < |d| && 0 <= j < |d| :: g.cells[i][j] == if i == j then d[i] else 0.0
  {
    Grid(|d|, |d|, seq(|d|, (i: int) requires 0 <= i < |d| => seq(|d|, j => if i == j then d[i] else 0.0)))
  }

  /** The cols x rows grid with cell (j, i) equal to cell (i, j) of g. */
  function Transposed(g: Grid): (t: Grid)
    requires g.Valid()
    ensures t.Valid() && t.rows == g.cols && t.cols == g.rows
    ensures forall j, i | 0 <= j < g.cols && 0 <= i < g.rows :: t.cells[j][i] == g.cells[i][j]
  {
    Grid(g.cols, g.rows, seq(g.cols, (j: int) requires 0 <= j < g.cols =>
                           seq(g.rows, (i: int) requires 0 <= i < g.rows => g.cells[i][j])))
  }

  /** Transposing twice gives the grid back. */
  lemma TransposeTwice(g: Grid)
    requires g.Valid()
    ensures Transposed(Transposed(g)) == g
  {
    GridExt(Transposed(Transposed(g)), g);
  }

  /** The r x c block of g whose corner is cell (i, j). */
  function Block(g: Grid, i: nat, j: nat, r: nat, c: nat): (b: Grid)
    requires g.Valid() && i + r <= g.rows && j + c <= g.cols
    ensures b.Valid() && b.rows == r && b.cols == c
    ensures forall p, q | 0 <= p < r && 0 <= q < c :: b.cells[p][q] == g.cells[i + p][j + q]
  {
    Grid(r, c, seq(r, (p: int) requires 0 <= p < r => g.cells[i + p][j .. j + c]))
  }

  /** [a, b]: b to the right of a. */
  function Augmented(a: Grid, b: Grid): (g: Grid)
    requires a.Valid() && b.Valid() && a.rows == b.rows
    ensures g.Valid() && g.rows == a.rows && g.cols == a.cols + b.cols
    ensures forall i, j | 0 <= i < a.rows && 0 <= j < a.cols + b.cols ::
              g.cells[i][j] == if j < a.cols then a.cells[i][j] else b.cells[i][j - a.cols]
  {
    Grid(a.rows, a.cols + b.cols, seq(a.rows, (i: int) requires 0 <= i < a.rows => a.cells[i] + b.cells[i]))
  }

  /** [a; b]: b below a. */
  function Stacked(a: Grid, b: Grid): (g: Grid)
    requires a.Valid() && b.Valid() && a.cols == b.cols
    ensures g.Valid() && g.rows == a.rows + b.rows && g.cols == a.cols
    ensures forall i, j | 0 <= i < a.rows + b.rows && 0 <= j < a.cols ::
              g.cells[i][j] == if i < a.rows then a.cells[i][j] else b.cells[i - a.rows][j]
  {
    Grid(a.rows + b.rows, a.cols, a.cells + b.cells)
  }

  /** Extracting the two blocks of [a, b] gives a and b back. */
  lemma {:induction false} AugmentedBlocks(a: Grid, b: Grid)
    requires a.Valid() && b.Valid() && a.rows == b.rows
    ensures Block(Augmented(a, b), 0, 0, a.rows, a.cols) == a
    ensures Block(Augmented(a, b), 0, a.cols, b.rows, b.cols) == b
  {
    GridExt(Block(Augmented(a, b), 0, 0, a.rows, a.cols), a);
    GridExt(Block(Augmented(a, b), 0, a.cols, b.rows, b.cols), b);
  }

  /** Extracting the two blocks of [a; b] gives a and b back. */
  lemma {:induction false} StackedBlocks(a: Grid, b: Grid)
    requires a.Valid() && b.Valid() && a.cols == b.cols
    ensures Block(Stacked(a, b), 0, 0, a.rows, a.cols) == a
    ensures Block(Stacked(a, b), a.rows, 0, b.rows, b.cols) == b
  {
    GridExt(Block(Stacked(a, b), 0, 0, a.rows, a.cols), a);
    GridExt(Block(Stacked(a, b), a.rows, 0, b.rows, b.cols), b);
  }

  /** The grid built from rows of data, each cut to the length of the first row. */
  function FromRows(data: seq<seq<real>>): (g: Grid)
    requires |data| > 0 && forall i | 0 <= i < |data| :: |data[i]| >= |data[0]|
    ensures g.Valid() && g.rows == |data| && g.cols == |data[0]|
    ensures forall i, j | 0 <= i < |data| && 0 <= j < |data[0]| :: g.cells[i][j] == data[i][j]
  {
    Grid(|data|, |data[0]|, seq(|data|, (i: int) requires 0 <= i < |data| => data[i][..|data[0]|]))
  }

  /** row with s written over it from position j on. */
  function Spliced(row: seq<real>, j: nat, s: seq<real>): (r: seq<real>)
    requires j + |s| <= |row|
    ensures |r| == |row|
    ensures forall q | 0 <= q < |row| :: r[q] == if j <= q < j + |s| then s[q - j] else row[q]
  {
    row[..j] + s + row[j + |s|..]
  }

  /** g with s written over row i from column j on. */
  function WithRow(g: Grid, i: nat, j: nat, s: seq<real>): (h: Grid)
    requires g.Valid() && i < g.rows && j + |s| <= g.cols
    ensures h.Valid() && h.rows == g.rows && h.cols == g.cols
    ensures h.cells[i] == Spliced(g.cells[i], j, s)
    ensures forall p | 0 <= p < g.rows && p != i :: h.cells[p] == g.cells[p]
  {
    Grid(g.rows, g.cols, g.cells[i := Spliced(g.cells[i], j, s)])
  }

  /** Writing nothing changes nothing. */
  lemma WithNothing(g: Grid, i: nat, j: nat)
    requires g.Valid() && i < g.rows && j <= g.cols
    ensures WithRow(g, i, j, []) == g
  {
    assert Spliced(g.cells[i], j, []) == g.cells[i];
    assert g.cells[i := g.cells[i]] == g.cells;
  }

  /** Writing k + 1 cells is writing k of them and then the next one. */
  lemma WithRowStep(g: Grid, i: nat, j: nat, s: seq<real>, k: nat)
    requires g.Valid() && i < g.rows && j + |s| <= g.cols && k < |s|
    ensures WithRow(WithRow(g, i, j, s[..k]), i, j + k, [s[k]]) == WithRow(g, i, j, s[..k + 1])
  {
    var row := g.cells[i];
    assert Spliced(Spliced(row, j, s[..k]), j + k, [s[k]]) == Spliced(row, j, s[..k + 1]);
    var lhs := WithRow(WithRow(g, i, j, s[..k]), i, j + k, [s[k]]);
    assert lhs.cells == WithRow(g, i, j, s[..k + 1]).cells;
  }

  /** A whole row written over row p: the rows before p are kept and row p
      becomes s. */
  lemma WholeRow(g: Grid, p: nat, s: seq<real>)
    requires g.Valid() && p < g.rows && |s| == g.cols
    ensures WithRow(g, p, 0, s).cells[..p + 1] == g.cells[..p] + [s]
  {
    assert Spliced(g.cells[p], 0, s) == s;
  }

  /** b with the cells of a written over it, a's cell (0, 0) landing on b's (i, j). */
  function Overlay(b: Grid, a: Grid, i: nat, j: nat): (g: Grid)
    requires a.Valid() && b.Valid() && i + a.rows <= b.rows && j + a.cols <= b.cols
    ensures g.Valid() && g.rows == b.rows && g.cols == b.cols
    ensures forall p, q | 0 <= p < b.rows && 0 <= q < b.cols ::
              g.cells[p][q] == if i <= p < i + a.rows && j <= q < j + a.cols then a.cells[p - i][q - j] else b.cells[p][q]
  {
    Grid(b.rows, b.cols, seq(b.rows, (p: int) requires 0 <= p < b.rows =>
                               seq(b.cols, (q: int) requires 0 <= q < b.cols =>
                                     if i <= p < i + a.rows && j <= q < j + a.cols then a.cells[p - i][q - j] else b.cells[p][q])))
  }

  /** b with the first r rows of a written over it, one row after another,
      a's cell (0, 0) landing on b's (i, j). */
  function OverlaidRows(b: Grid, a: Grid, i: nat, j: nat, r: nat): (g: Grid)
    requires a.Valid() && b.Valid() && i + a.rows <= b.rows && j + a.cols <= b.cols && r <= a.rows
    ensures g.Valid() && g.rows == b.rows && g.cols == b.cols
    ensures forall p, q | 0 <= p < b.rows && 0 <= q < b.cols ::
              g.cells[p][q] == if i <= p < i + r && j <= q < j + a.cols then a.cells[p - i][q - j] else b.cells[p][q]
  {
    if r == 0 then b else WithRow(OverlaidRows(b, a, i, j, r - 1), i + r - 1, j, a.cells[r - 1])
  }

  /** Writing all of a's rows over b is laying a over b. */
  lemma OverlaidAllRows(b: Grid, a: Grid, i: nat, j: nat)
    requires a.Valid() && b.Valid() && i + a.rows <= b.rows && j + a.cols <= b.cols
    ensures OverlaidRows(b, a, i, j, a.rows) == Overlay(b, a, i, j)
  {
    GridExt(OverlaidRows(b, a, i, j, a.rows), Overlay(b, a, i, j));
  }

  /** Writing a at the left and b right after it, over any grid of the right
      shape, gives [a, b]. */
  lemma {:induction false} AugmentByOverlay(z: Grid, a: Grid, b: Grid)
    requires z.Valid() && a.Valid() && b.Valid() && a.rows == b.rows
    requires z.rows == a.rows && z.cols == a.cols + b.cols
    ensures Overlay(Overlay(z, a, 0, 0), b, 0, a.cols) == Augmented(a, b)
  {
    GridExt(Overlay(Overlay(z, a, 0, 0), b, 0, a.cols), Augmented(a, b));
  }

  /** Writing a at the top and b right below it, over any grid of the right
      shape, gives [a; b]. */
  lemma {:induction false} StackByOverlay(z: Grid, a: Grid, b: Grid)
    requires z.Valid() && a.Valid() && b.Valid() && a.cols == b.cols
    requires z.rows == a.rows + b.rows && z.cols == a.cols
    ensures Overlay(Overlay(z, a, 0, 0), b, a.rows, 0) == Stacked(a, b)
  {
    GridExt(Overlay(Overlay(z, a, 0, 0), b, a.rows, 0), Stacked(a, b));
  }

  /** The cells of g row after row: cell (i, j) lands at position i*cols + j. */
  function Flattened(g: Grid): (s: seq<real>)
    requires g.Valid()
    ensures |s| == g.rows * g.cols
    ensures forall i: nat, j: nat | i < g.rows && j < g.cols ::
              RowMajor.Index(i, j, g.cols) < |s| && s[RowMajor.Index(i, j, g.cols)] == g.cells[i][j]
    decreases g.rows
  {
    if g.rows == 0 then []
    else
      var init := Grid(g.rows - 1, g.cols, g.cells[..g.rows - 1]);
      var s := Flattened(init) + g.cells[g.rows - 1];
      RowMajor.LastRowEnd(g.rows - 1, g.rows, g.cols);
      RowMajor.IndexBoundAll(g.rows - 1, g.cols);
      s
  }

  /** A sequence that holds every cell at its row-major position is the flattening. */
  lemma {:induction false} FlattenedExt(s: seq<real>, g: Grid)
    requires g.Valid() && |s| == g.rows * g.cols
    requires forall i: nat, j: nat | i < g.rows && j < g.cols ::
               RowMajor.Index(i, j, g.cols) < |s| && s[RowMajor.Index(i, j, g.cols)] == g.cells[i][j]
    ensures s == Flattened(g)
  {
    var f := Flattened(g);
    forall k | 0 <= k < |s|
      ensures s[k] == f[k]
    {
      RowMajor.DecodeBound(k, g.rows, g.cols);
      RowMajor.IndexRecover(k, g.cols);
    }
  }
}

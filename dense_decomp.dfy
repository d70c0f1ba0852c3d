/** LU decomposition with partial pivoting, in place (the left-looking
    Doolittle scheme): A is overwritten with L below the diagonal (its unit
    diagonal implied) and U on and above it, and the row exchanges are
    returned as a pivot matrix. */
module DenseDecomp {
  import opened Matrix
  import opened Dense
  import DenseBasic
  import DenseData
  import Pivot

  /** +1 after an even number of row exchanges, -1 after an odd number. */
  function Parity(swaps: nat): (sign: real)
    ensures sign == 1.0 || sign == -1.0
  {
    if swaps % 2 == 0 then 1.0 else -1.0
  }

  /** One more exchange flips the sign. */
  lemma ParityFlip(swaps: nat)
    ensures Parity(swaps + 1) == -Parity(swaps)
  {
  }

  /** u[0] * v[0] + ... + u[k-1] * v[k-1], summed left to right. */
  ghost function DotPrefix(u: seq<real>, v: seq<real>, k: nat): real
    requires k <= |u| && k <= |v|
  {
    if k == 0 then 0.0 else DotPrefix(u, v, k - 1) + u[k - 1] * v[k - 1]
  }

  /** The dot product of the first k entries reads only those entries. */
  lemma {:induction false} DotPrefixAgree(u: seq<real>, v: seq<real>, u': seq<real>, v': seq<real>, k: nat)
    requires k <= |u| && k <= |v| && k <= |u'| && k <= |v'|
    requires forall q | 0 <= q < k :: u[q] == u'[q] && v[q] == v'[q]
    ensures DotPrefix(u, v, k) == DotPrefix(u', v', k)
  {
    if k > 0 {
      DotPrefixAgree(u, v, u', v', k - 1);
    }
  }

  /** The pivot row chosen once rows j, ..., i-1 of c have been scanned:
      row j to start with, replaced by a later row only when that row's entry
      is strictly larger in magnitude. */
  function PivotUpTo(c: seq<real>, j: nat, i: nat): (p: nat)
    requires i <= |c|
    ensures j < i ==> j <= p < i
    ensures i <= j ==> p == j
  {
    if i <= j + 1 then j
    else
      var p := PivotUpTo(c, j, i - 1);
      if DenseBasic.Abs(c[i - 1]) > DenseBasic.Abs(c[p]) then i - 1 else p
  }

  /** The row of the first entry of largest magnitude among c[j], ..., c[m-1]
      (scanning down from j and moving only on a strictly larger one); j
      itself when there is no row below the diagonal to scan. */
  method PivotSearch(c: seq<real>, j: nat, m: nat) returns (p: nat)
    requires m <= |c|
    ensures j < m ==> j <= p < m
    ensures j >= m ==> p == j
    ensures forall i | j <= i < m :: DenseBasic.Abs(c[i]) <= DenseBasic.Abs(c[p])
    ensures forall i | j <= i < p :: DenseBasic.Abs(c[i]) < DenseBasic.Abs(c[p])
    ensures p == PivotUpTo(c, j, m)
  {
    p := j;
    var i := j + 1;
    while i < m
      invariant j < m ==> j <= p < i <= m && p == PivotUpTo(c, j, i)
      invariant j >= m ==> p == j
      invariant forall r | j <= r < i && r < m :: DenseBasic.Abs(c[r]) <= DenseBasic.Abs(c[p])
      invariant forall r | j <= r < p :: DenseBasic.Abs(c[r]) < DenseBasic.Abs(c[p])
    {
      if DenseBasic.Abs(c[i]) > DenseBasic.Abs(c[p]) {
        p := i;
      }
      i := i + 1;
    }
  }

  /** A factor of a product whose other factor is positive has the product's sign. */
  lemma PositiveFactor(a: real, b: real)
    requires b > 0.0
    ensures a * b >= 0.0 ==> a >= 0.0
  {
  }

  /** A quotient of a number by one at least as large in magnitude is at most 1 in magnitude. */
  lemma QuotientBound(x: real, y: real)
    requires y != 0.0 && DenseBasic.Abs(x) <= DenseBasic.Abs(y)
    ensures DenseBasic.Abs(x / y) <= 1.0
  {
    var q := x / y;
    assert q * y == x;
    var b := DenseBasic.Abs(y);
    // (1 - q) and (1 + q) times |y| are |y| - x and |y| + x up to sign, both non-negative
    if y > 0.0 {
      assert (1.0 - q) * b == b - x && (1.0 + q) * b == b + x;
    } else {
      assert (1.0 - q) * b == b + x && (1.0 + q) * b == b - x;
    }
    PositiveFactor(1.0 - q, b);
    PositiveFactor(1.0 + q, b);
  }

  /** The dot product of the first kmax entries of u and v, accumulated left to right. */
  method Dot(u: array<real>, v: array<real>, kmax: nat) returns (s: real)
    requires kmax <= u.Length && kmax <= v.Length
    ensures s == DotPrefix(u[..], v[..], kmax)
  {
    s := 0.0;
    for k := 0 to kmax
      invariant s == DotPrefix(u[..], v[..], k)
    {
      s := s + u[k] * v[k];
    }
  }

  /** The length of the dot product that updates cell (r, j): the row's
      multipliers stop at the diagonal and at column j. */
  function Reach(r: nat, j: nat): (k: nat)
    ensures k <= r && k <= j && (k == r || k == j)
  {
    if j < r then j else r
  }

  /** The first n entries of col are column j of g updated as the Crout
      recurrence prescribes: each is its old value minus the dot product of
      the row's stored multipliers with the entries of col above it. */
  ghost predicate ColumnDone(g: Grid, j: nat, col: seq<real>, n: nat)
    requires g.Valid() && j < g.cols && n <= |col| && |col| <= g.rows
  {
    forall r | 0 <= r < n :: EntryDone(g, j, col, r)
  }

  /** Entry r of col is the recurrence applied to cell (r, j) of g. */
  ghost predicate EntryDone(g: Grid, j: nat, col: seq<real>, r: nat)
    requires g.Valid() && j < g.cols && r < |col| <= g.rows
  {
    col[r] == g.cells[r][j] - DotPrefix(g.cells[r], col, Reach(r, j))
  }

  /** The first n entries of column j as the recurrence computes them, each
      from the entries above it. */
  ghost function NewColumn(g: Grid, j: nat, n: nat): (c: seq<real>)
    requires g.Valid() && j < g.cols && n <= g.rows
    ensures |c| == n
  {
    if n == 0 then []
    else
      var c := NewColumn(g, j, n - 1);
      c + [g.cells[n - 1][j] - DotPrefix(g.cells[n - 1], c, Reach(n - 1, j))]
  }

  /** The dot product of the first k entries reads only the first k
      entries of its second argument. */
  lemma {:induction false} DotPrefixSamePrefix(u: seq<real>, v: seq<real>, v': seq<real>, k: nat)
    requires k <= |u| && k <= |v| && k <= |v'| && v[..k] == v'[..k]
    ensures DotPrefix(u, v, k) == DotPrefix(u, v', k)
  {
    if k > 0 {
      assert v[..k - 1] == v[..k][..k - 1] && v'[..k - 1] == v'[..k][..k - 1];
      assert v[k - 1] == v[..k][k - 1] && v'[k - 1] == v'[..k][k - 1];
      DotPrefixSamePrefix(u, v, v', k - 1);
    }
  }

  /** The dot product for row r < n + 1 reads only entries above n, on
      which col and col' agree. */
  lemma DotAboveAgrees(g: Grid, j: nat, col: seq<real>, col': seq<real>, n: nat, r: nat)
    requires g.Valid() && j < g.cols && n < |col| == |col'| <= g.rows && r <= n
    requires col'[..n] == col[..n]
    ensures DotPrefix(g.cells[r], col, Reach(r, j)) == DotPrefix(g.cells[r], col', Reach(r, j))
  {
    var k := Reach(r, j);
    assert col[..k] == col[..n][..k] && col'[..k] == col'[..n][..k];
    DotPrefixSamePrefix(g.cells[r], col, col', k);
  }

  /** Rows above n stay done when only entries from n on change. */
  lemma ColumnDoneKept(g: Grid, j: nat, col: seq<real>, col': seq<real>, n: nat)
    requires g.Valid() && j < g.cols && n < |col| == |col'| <= g.rows
    requires ColumnDone(g, j, col, n) && col'[..n] == col[..n]
    ensures ColumnDone(g, j, col', n)
  {
    forall r | 0 <= r < n
      ensures EntryDone(g, j, col', r)
    {
      assert EntryDone(g, j, col, r);
      DotAboveAgrees(g, j, col, col', n, r);
      assert col'[r] == col'[..n][r] && col[r] == col[..n][r];
    }
  }

  /** Updating entry n of the column from the entries above it keeps those
      entries done and makes entry n done. */
  lemma ColumnDoneExtend(g: Grid, j: nat, col: seq<real>, col': seq<real>, n: nat)
    requires g.Valid() && j < g.cols && n < |col| == |col'| <= g.rows
    requires ColumnDone(g, j, col, n) && col'[..n] == col[..n]
    requires col'[n] == g.cells[n][j] - DotPrefix(g.cells[n], col, Reach(n, j))
    ensures ColumnDone(g, j, col', n + 1)
  {
    ColumnDoneKept(g, j, col, col', n);
    DotAboveAgrees(g, j, col, col', n, n);
    assert EntryDone(g, j, col', n);
  }

  /** A column whose first n entries satisfy the recurrence starts with
      `NewColumn(g, j, n)`: the recurrence determines the column. */
  lemma {:induction false} ColumnDoneDetermines(g: Grid, j: nat, col: seq<real>, n: nat)
    requires g.Valid() && j < g.cols && n <= |col| <= g.rows
    requires ColumnDone(g, j, col, n)
    ensures col[..n] == NewColumn(g, j, n)
  {
    if n > 0 {
      ColumnDoneDetermines(g, j, col, n - 1);
      var c := col[..n - 1];
      var k := Reach(n - 1, j);
      var x := g.cells[n - 1][j] - DotPrefix(g.cells[n - 1], col, k);
      assert EntryDone(g, j, col, n - 1);
      assert col[..k] == c[..k];
      DotPrefixSamePrefix(g.cells[n - 1], col, c, k);
      var prev := NewColumn(g, j, n - 1);
      assert prev == c;
      assert x == g.cells[n - 1][j] - DotPrefix(g.cells[n - 1], prev, k);
      assert col[..n] == c + [col[n - 1]];
    }
  }

  /** `NewColumn` satisfies the recurrence. */
  lemma {:induction false} NewColumnDone(g: Grid, j: nat, n: nat)
    requires g.Valid() && j < g.cols && n <= g.rows
    ensures ColumnDone(g, j, NewColumn(g, j, n), n)
  {
    if n > 0 {
      var c := NewColumn(g, j, n - 1);
      var c' := NewColumn(g, j, n);
      NewColumnDone(g, j, n - 1);
      assert c'[..n - 1] == c;
      forall r | 0 <= r < n
        ensures EntryDone(g, j, c', r)
      {
        var k := Reach(r, j);
        assert c'[..k] == c[..k];
        DotPrefixSamePrefix(g.cells[r], c', c, k);
        if r < n - 1 {
          assert EntryDone(g, j, c, r);
          assert c'[r] == c[r];
        }
      }
    }
  }

  /** One step down column j: cell (i, j) and entry i of LUcolj both become
      the old entry minus the dot product of the first Reach(i, j) entries of
      row i of g (which A still holds left of column j) with those of
      LUcolj. */
  method UpdateEntry(A: DenseMatrix, ghost g: Grid, i: nat, j: nat, LUcolj: array<real>, LUrowi: array<real>)
    requires A.Valid() && i < A.rows && j < A.cols && LUcolj.Length == A.rows && LUrowi.Length == A.cols
    requires LUcolj != A.elements && LUrowi != A.elements && LUcolj != LUrowi
    requires g.Valid() && g.rows == A.rows && g.cols == A.cols
    requires forall q | 0 <= q < Reach(i, j) :: A.Get(i, q) == g.cells[i][q]
    modifies A.elements, LUcolj, LUrowi
    ensures LUcolj[..] == old(LUcolj[..])[i := LUcolj[i]]
    ensures LUcolj[i] == old(LUcolj[i]) - DotPrefix(g.cells[i], old(LUcolj[..]), Reach(i, j))
    ensures A.Get(i, j) == LUcolj[i]
    ensures forall r, q | 0 <= r < A.rows && 0 <= q < A.cols && (r != i || q != j) :: A.Get(r, q) == old(A.Get(r, q))
  {
    DenseData.BufferRow(A, i, LUrowi);
    var kmax := Reach(i, j);
    var s := Dot(LUrowi, LUcolj, kmax);
    forall q | 0 <= q < kmax
      ensures LUrowi[..][q] == g.cells[i][q]
    {
      assert LUrowi[..][q] == LUrowi[..A.cols][q] == A.View().cells[i][q];
    }
    DotPrefixAgree(LUrowi[..], LUcolj[..], g.cells[i], LUcolj[..], kmax);
    LUcolj[i] := LUcolj[i] - s;
    LUrowi[j] := LUcolj[i];
    A.Set(i, j, LUrowi[j]);
  }

  /** Column j of the factorisation (the first loop of a step of
      `LUInPlace`): walking down the column, cell (i, j) becomes its old value
      minus the dot product of the first min(i, j) entries of row i (the
      multipliers already stored left of column j) and of the column as
      already updated above row i. The new column is left in LUcolj, and no
      other column changes. */
  method ComputeColumn(A: DenseMatrix, j: nat, LUcolj: array<real>, LUrowi: array<real>)
    requires A.Valid() && j < A.cols && LUcolj.Length == A.rows && LUrowi.Length == A.cols
    requires LUcolj != A.elements && LUrowi != A.elements && LUcolj != LUrowi
    modifies A.elements, LUcolj, LUrowi
    ensures forall r | 0 <= r < A.rows :: A.Get(r, j) == LUcolj[r]
    ensures ColumnDone(old(A.View()), j, LUcolj[..], A.rows)
    ensures forall r, q | 0 <= r < A.rows && 0 <= q < A.cols && q != j :: A.Get(r, q) == old(A.Get(r, q))
    ensures A.View() == WithColumn(old(A.View()), j, LUcolj[..])
  {
    ghost var g := A.View();
    DenseData.BufferCol(A, j, LUcolj);
    for i := 0 to A.rows
      invariant ColumnInProgress(A, g, j, LUcolj[..], i)
      invariant ColumnDone(g, j, LUcolj[..], i)
    {
      ColumnStep(A, g, j, i, LUcolj, LUrowi);
    }
    WithColumnCells(g, j, LUcolj[..]);
    GridExt(A.View(), WithColumn(g, j, LUcolj[..]));
  }

  /** Partway down column j: A holds g outside column j, cells above row i
      of column j hold the new column, and from row i on both A and the
      column still hold g's entries. */
  ghost predicate ColumnInProgress(A: DenseMatrix, g: Grid, j: nat, col: seq<real>, i: nat)
    reads A.elements
    requires A.Valid() && g.Valid() && g.rows == A.rows && g.cols == A.cols && j < A.cols && |col| == A.rows
  {
    && (forall r, q | 0 <= r < A.rows && 0 <= q < A.cols && q != j :: A.Get(r, q) == g.cells[r][q])
    && (forall r | 0 <= r < i && r < A.rows :: A.Get(r, j) == col[r])
    && (forall r | i <= r < A.rows :: A.Get(r, j) == g.cells[r][j] && col[r] == g.cells[r][j])
  }

  /** One step of `ComputeColumn`: entry i of the column is computed. */
  method ColumnStep(A: DenseMatrix, ghost g: Grid, j: nat, i: nat, LUcolj: array<real>, LUrowi: array<real>)
    requires A.Valid() && j < A.cols && i < A.rows && LUcolj.Length == A.rows && LUrowi.Length == A.cols
    requires LUcolj != A.elements && LUrowi != A.elements && LUcolj != LUrowi
    requires g.Valid() && g.rows == A.rows && g.cols == A.cols
    requires ColumnInProgress(A, g, j, LUcolj[..], i) && ColumnDone(g, j, LUcolj[..], i)
    modifies A.elements, LUcolj, LUrowi
    ensures ColumnInProgress(A, g, j, LUcolj[..], i + 1) && ColumnDone(g, j, LUcolj[..], i + 1)
  {
    ghost var colBefore := LUcolj[..];
    UpdateEntry(A, g, i, j, LUcolj, LUrowi);
    ColumnDoneExtend(g, j, colBefore, LUcolj[..], i);
  }

  /** Divides the entries below the pivot (j, j) by it (the last loop of a
      step of `LUInPlace`). When no entry below is larger in magnitude than
      the pivot, every quotient is at most 1 in magnitude. No other cell changes. */
  method ScaleBelowPivot(A: DenseMatrix, j: nat)
    requires A.Valid() && j < A.rows && j < A.cols && A.Get(j, j) != 0.0
    requires forall r | j < r < A.rows :: DenseBasic.Abs(A.Get(r, j)) <= DenseBasic.Abs(A.Get(j, j))
    modifies A.elements
    ensures forall r | j < r < A.rows :: A.Get(r, j) == old(A.Get(r, j)) / old(A.Get(j, j))
    ensures forall r | j < r < A.rows :: DenseBasic.Abs(A.Get(r, j)) <= 1.0
    ensures forall r, q | 0 <= r < A.rows && 0 <= q < A.cols && (q != j || r <= j) :: A.Get(r, q) == old(A.Get(r, q))
    ensures A.View() == ScaledBelow(old(A.View()), j)
  {
    for i := j + 1 to A.rows
      invariant A.Get(j, j) == old(A.Get(j, j))
      invariant forall r, q | 0 <= r < A.rows && 0 <= q < A.cols && (q != j || r <= j || r >= i) :: A.Get(r, q) == old(A.Get(r, q))
      invariant forall r | j < r < i :: A.Get(r, j) == old(A.Get(r, j)) / old(A.Get(j, j))
      invariant forall r | j < r < i :: DenseBasic.Abs(A.Get(r, j)) <= 1.0
    {
      QuotientBound(A.Get(i, j), A.Get(j, j));
      A.Set(i, j, A.Get(i, j) / A.Get(j, j));
    }
    ScaledBelowCells(old(A.View()), j);
    GridExt(A.View(), ScaledBelow(old(A.View()), j));
  }

  /** Where row r of a matrix comes from once rows p and j are exchanged. */
  function Exchanged(r: nat, p: nat, j: nat): (from: nat)
    ensures (r == p ==> from == j) && (r == j ==> from == p) && (r != p && r != j ==> from == r)
  {
    if r == p then j else if r == j then p else r
  }

  /** Exchanges rows p and j of A and entries p and j of the pivot array
      (the exchange step of `LUInPlace`). */
  method ExchangeRows(A: DenseMatrix, piv: array<nat>, p: nat, j: nat)
    requires A.Valid() && p < A.rows && j < A.rows && piv.Length == A.rows && Pivot.IsPermutation(piv[..])
    modifies A.elements, piv
    ensures Pivot.IsPermutation(piv[..]) && piv[..] == Pivot.Swapped(old(piv[..]), p, j)
    ensures A.View() == DenseBasic.RowsSwapped(old(A.View()), p, j)
    ensures forall r, q | 0 <= r < A.rows && 0 <= q < A.cols :: A.Get(r, q) == old(A.Get(Exchanged(r, p, j), q))
  {
    ghost var before := A.View();
    DenseBasic.SwapRows(A, p, j);
    forall r, q | 0 <= r < A.rows && 0 <= q < A.cols
      ensures A.Get(r, q) == old(A.Get(Exchanged(r, p, j), q))
    {
      assert A.Get(r, q) == A.View().cells[r][q] == before.cells[Exchanged(r, p, j)][q];
    }
    ghost var pivBefore := piv[..];
    piv[p], piv[j] := piv[j], piv[p];
    Pivot.SwappedPermutation(pivBefore, p, j);
    assert piv[..] == Pivot.Swapped(pivBefore, p, j);
  }

  /** Finds the pivot of column j (the entry of largest magnitude at or
      below the diagonal, its values being those in LUcolj) and exchanges its
      row with row j when they differ (the middle of a step of `LUInPlace`).
      The multipliers already stored left of column j stay at most 1 in
      magnitude, and no entry below the new diagonal entry is larger than it. */
  method PivotRow(A: DenseMatrix, piv: array<nat>, LUcolj: array<real>, j: nat) returns (p: nat)
    requires A.Valid() && j < A.cols && piv.Length == A.rows && LUcolj.Length == A.rows
    requires Pivot.IsPermutation(piv[..]) && LUcolj != A.elements
    requires forall r | 0 <= r < A.rows :: A.Get(r, j) == LUcolj[r]
    requires forall c, r | 0 <= c < j && c < r < A.rows :: DenseBasic.Abs(A.Get(r, c)) <= 1.0
    modifies A.elements, piv
    ensures p == PivotUpTo(LUcolj[..], j, A.rows)
    ensures Pivot.IsPermutation(piv[..])
    ensures p == j ==> piv[..] == old(piv[..]) && A.View() == old(A.View())
    ensures p != j ==> p < A.rows && j < A.rows && piv[..] == Pivot.Swapped(old(piv[..]), p, j)
                       && A.View() == DenseBasic.RowsSwapped(old(A.View()), p, j)
    ensures forall c, r | 0 <= c < j && c < r < A.rows :: DenseBasic.Abs(A.Get(r, c)) <= 1.0
    ensures forall r | j < r < A.rows :: DenseBasic.Abs(A.Get(r, j)) <= DenseBasic.Abs(A.Get(j, j))
  {
    p := PivotSearch(LUcolj[..], j, A.rows);
    if p != j {
      ExchangeRows(A, piv, p, j);
      forall c, r | 0 <= c < j && c < r < A.rows
        ensures DenseBasic.Abs(A.Get(r, c)) <= 1.0
      {
        assert A.Get(r, c) == old(A.Get(Exchanged(r, p, j), c));
      }
    }
    // the pivot now heads column j, and no entry below it is larger
    assert j < A.rows ==> A.Get(j, j) == LUcolj[p];
  }

  /** Every multiplier stored below the diagonal in the first j columns is
      at most 1 in magnitude. */
  ghost predicate MultipliersBounded(A: DenseMatrix, j: nat)
    reads A.elements
    requires A.Valid()
  {
    forall c, r | 0 <= c < j && c < A.cols && c < r < A.rows :: DenseBasic.Abs(A.Get(r, c)) <= 1.0
  }

  /** Each recorded exchange names two distinct rows below m. */
  ghost predicate SwapsInRange(swaps: seq<(nat, nat)>, m: nat) {
    forall k | 0 <= k < |swaps| :: swaps[k].0 < m && swaps[k].1 < m && swaps[k].0 != swaps[k].1
  }

  /** g with column j replaced by c. */
  function WithColumn(g: Grid, j: nat, c: seq<real>): (h: Grid)
    requires g.Valid() && j < g.cols && |c| == g.rows
    ensures h.Valid() && h.rows == g.rows && h.cols == g.cols
  {
    Grid(g.rows, g.cols, seq(g.rows, (r: int) requires 0 <= r < g.rows => g.cells[r][j := c[r]]))
  }

  /** Column j of `WithColumn(g, j, c)` is c; the other columns are g's. */
  lemma WithColumnCells(g: Grid, j: nat, c: seq<real>)
    requires g.Valid() && j < g.cols && |c| == g.rows
    ensures forall r, q | 0 <= r < g.rows && 0 <= q < g.cols ::
              WithColumn(g, j, c).cells[r][q] == if q == j then c[r] else g.cells[r][q]
  {
  }

  /** g with each entry of column j below row j divided by the entry (j, j). */
  function ScaledBelow(g: Grid, j: nat): (h: Grid)
    requires g.Valid() && j < g.rows && j < g.cols && g.cells[j][j] != 0.0
    ensures h.Valid() && h.rows == g.rows && h.cols == g.cols
  {
    Grid(g.rows, g.cols, seq(g.rows, (r: int) requires 0 <= r < g.rows =>
                            if j < r then g.cells[r][j := g.cells[r][j] / g.cells[j][j]] else g.cells[r]))
  }

  /** `ScaledBelow` divides the entries of column j below row j by the pivot
      and keeps every other cell. */
  lemma ScaledBelowCells(g: Grid, j: nat)
    requires g.Valid() && j < g.rows && j < g.cols && g.cells[j][j] != 0.0
    ensures forall r, q | 0 <= r < g.rows && 0 <= q < g.cols ::
              ScaledBelow(g, j).cells[r][q] == if q == j && j < r then g.cells[r][j] / g.cells[j][j] else g.cells[r][q]
  {
  }

  /** Cell (r, q) after step j, given the column c computed by the
      recurrence and the pivot row p: rows p and j exchanged, and the entries
      of column j below a nonzero pivot divided by it. */
  ghost function StepCell(g: Grid, j: nat, c: seq<real>, p: nat, r: nat, q: nat): real
    requires g.Valid() && j < g.cols && |c| == g.rows && r < g.rows && q < g.cols
    requires (j < g.rows ==> j <= p < g.rows) && (g.rows <= j ==> p == j)
  {
    var from := Exchanged(r, p, j);
    if q != j then g.cells[from][q]
    else if r <= j || c[p] == 0.0 then c[from]
    else c[from] / c[p]
  }

  /** The matrix after step j of the factorisation: column j replaced by
      `NewColumn`, the pivot row `PivotUpTo` picks exchanged with row j, and
      the entries below a nonzero pivot divided by it. */
  ghost function StepGrid(g: Grid, j: nat): (h: Grid)
    requires g.Valid() && j < g.cols
    ensures h.Valid() && h.rows == g.rows && h.cols == g.cols
  {
    var c := NewColumn(g, j, g.rows);
    var p := PivotUpTo(c, j, g.rows);
    var g1 := WithColumn(g, j, c);
    var g2 := if p != j then DenseBasic.RowsSwapped(g1, p, j) else g1;
    if j < g.rows && g2.cells[j][j] != 0.0 then ScaledBelow(g2, j) else g2
  }

  /** Cell by cell, step j reads cell (r, q) from the row it is exchanged
      with: column j from the new column, divided by the pivot below the
      diagonal when the pivot is nonzero, and every other column from g. */
  lemma StepGridCells(g: Grid, j: nat, r: nat, q: nat)
    requires g.Valid() && j < g.cols && r < g.rows && q < g.cols
    ensures var c := NewColumn(g, j, g.rows);
            StepGrid(g, j).cells[r][q] == StepCell(g, j, c, PivotUpTo(c, j, g.rows), r, q)
  {
    var c := NewColumn(g, j, g.rows);
    var p := PivotUpTo(c, j, g.rows);
    var g1 := WithColumn(g, j, c);
    var g2 := if p != j then DenseBasic.RowsSwapped(g1, p, j) else g1;
    WithColumnCells(g, j, c);
    if j < g.rows && g2.cells[j][j] != 0.0 {
      ScaledBelowCells(g2, j);
    }
    assert g2.cells[r] == g1.cells[Exchanged(r, p, j)];
    if j < g.rows {
      assert g2.cells[j][j] == c[p];
    }
  }

  /** The matrix after steps 0, ..., k-1 of the factorisation of g. */
  ghost function StepsUpTo(g: Grid, k: nat): (h: Grid)
    requires g.Valid() && k <= g.cols
    ensures h.Valid() && h.rows == g.rows && h.cols == g.cols
    decreases k, 0
  {
    if k == 0 then g else AfterStep(g, k - 1)
  }

  /** The matrix after step j of the factorisation of g: step j applied to
      what steps 0, ..., j-1 left. */
  ghost function AfterStep(g: Grid, j: nat): (h: Grid)
    requires g.Valid() && j < g.cols
    ensures h.Valid() && h.rows == g.rows && h.cols == g.cols
    decreases j, 1
  {
    StepGrid(StepsUpTo(g, j), j)
  }

  /** One more step of the factorisation applies `StepGrid` to what the
      earlier steps left. */
  lemma StepsUpToNext(g: Grid, k: nat)
    requires g.Valid() && k < g.cols
    ensures StepsUpTo(g, k + 1) == StepGrid(StepsUpTo(g, k), k)
  {
    assert StepsUpTo(g, k + 1) == AfterStep(g, k);
  }

  /** The pivot row step j of the factorisation of g picks: the `PivotUpTo`
      row of the column the recurrence computes from what steps 0, ..., j-1
      left. */
  ghost function StepPivot(g: Grid, j: nat): (p: nat)
    requires g.Valid() && j < g.cols
    ensures j < g.rows ==> j <= p < g.rows
    ensures g.rows <= j ==> p == j
  {
    PivotUpTo(NewColumn(StepsUpTo(g, j), j, g.rows), j, g.rows)
  }

  /** The row exchanges steps 0, ..., k-1 of the factorisation of g make, in
      order: (p, j) for each step j whose pivot row p differs from j. */
  ghost function Exchanges(g: Grid, k: nat): (swaps: seq<(nat, nat)>)
    requires g.Valid() && k <= g.cols
    ensures |swaps| <= k && SwapsInRange(swaps, g.rows)
  {
    if k == 0 then []
    else
      var p := StepPivot(g, k - 1);
      Exchanges(g, k - 1) + if p != k - 1 then [(p, k - 1)] else []
  }

  /** Recording one more exchange of two distinct rows below m keeps the record in range. */
  lemma SwapsInRangeSnoc(swaps: seq<(nat, nat)>, m: nat, p: nat, j: nat)
    requires SwapsInRange(swaps, m) && p < m && j < m && p != j
    ensures SwapsInRange(swaps + [(p, j)], m) && |swaps + [(p, j)]| == |swaps| + 1
  {
  }

  /** One column of `LUInPlace`: the column update, the pivot exchange and
      the division below the pivot. Returns the pivot row p; A becomes
      `StepGrid` of what it held, the pivot array changes exactly when p
      differs from j, and every multiplier stored in columns up to j is then
      at most 1 in magnitude. */
  method Step(A: DenseMatrix, piv: array<nat>, LUcolj: array<real>, LUrowi: array<real>, j: nat) returns (p: nat)
    requires A.Valid() && j < A.cols && piv.Length == A.rows && LUcolj.Length == A.rows && LUrowi.Length == A.cols
    requires LUcolj != A.elements && LUrowi != A.elements && LUcolj != LUrowi
    requires Pivot.IsPermutation(piv[..]) && MultipliersBounded(A, j)
    modifies A.elements, piv, LUcolj, LUrowi
    ensures A.View() == StepGrid(old(A.View()), j)
    ensures p == PivotUpTo(NewColumn(old(A.View()), j, A.rows), j, A.rows)
    ensures Pivot.IsPermutation(piv[..])
    ensures p == j ==> piv[..] == old(piv[..])
    ensures p != j ==> p < A.rows && j < A.rows && piv[..] == Pivot.Swapped(old(piv[..]), p, j)
    ensures MultipliersBounded(A, j + 1)
  {
    ghost var g := A.View();
    ComputeColumn(A, j, LUcolj, LUrowi);
    ColumnDoneDetermines(g, j, LUcolj[..], A.rows);
    assert LUcolj[..] == LUcolj[..][..A.rows];
    p := PivotRow(A, piv, LUcolj, j);
    if j < A.rows && A.Get(j, j) != 0.0 {
      ScaleBelowPivot(A, j);
    }
  }

  /** Step j of the factorisation of g0: A, which holds what steps 0, ...,
      j-1 left of g0, comes to hold what steps 0, ..., j leave. */
  method FactorStep(A: DenseMatrix, piv: array<nat>, LUcolj: array<real>, LUrowi: array<real>, j: nat, ghost g0: Grid)
      returns (p: nat)
    requires A.Valid() && j < A.cols && piv.Length == A.rows && LUcolj.Length == A.rows && LUrowi.Length == A.cols
    requires LUcolj != A.elements && LUrowi != A.elements && LUcolj != LUrowi
    requires Pivot.IsPermutation(piv[..]) && g0.Valid() && g0.rows == A.rows && g0.cols == A.cols
    requires Factored(A, g0, j)
    modifies A.elements, piv, LUcolj, LUrowi
    ensures Factored(A, g0, j + 1)
    ensures p == StepPivot(g0, j)
    ensures Pivot.IsPermutation(piv[..])
    ensures p == j ==> piv[..] == old(piv[..])
    ensures p != j ==> p < A.rows && j < A.rows && piv[..] == Pivot.Swapped(old(piv[..]), p, j)
  {
    p := Step(A, piv, LUcolj, LUrowi, j);
    StepsUpToNext(g0, j);
  }

  /** A holds what steps 0, ..., j-1 leave of g0, and every multiplier
      stored in those columns is at most 1 in magnitude. */
  ghost predicate Factored(A: DenseMatrix, g0: Grid, j: nat)
    reads A.elements
    requires A.Valid() && g0.Valid() && g0.rows == A.rows && g0.cols == A.cols && j <= A.cols
  {
    MultipliersBounded(A, j) && A.View() == StepsUpTo(g0, j)
  }

  /** The pivots and the sign after j steps: the identity with the recorded
      exchanges applied in turn, and the parity of their number. */
  ghost predicate Recorded(pivs: seq<nat>, swaps: seq<(nat, nat)>, sign: real, m: nat, j: nat) {
    && |pivs| == m && Pivot.IsPermutation(pivs)
    && |swaps| <= j && SwapsInRange(swaps, m)
    && pivs == Pivot.Applied(Pivot.IdentityPivots(m), swaps)
    && sign == Parity(|swaps|)
  }

  /** Recording step j: an exchange of rows p and j, when they differ,
      is appended and flips the sign. */
  lemma RecordStep(pivs: seq<nat>, pivs': seq<nat>, swaps: seq<(nat, nat)>, swaps': seq<(nat, nat)>,
                    sign: real, sign': real, m: nat, j: nat, p: nat)
    requires Recorded(pivs, swaps, sign, m, j) && Pivot.IsPermutation(pivs') && |pivs'| == m
    requires p == j ==> pivs' == pivs && swaps' == swaps && sign' == sign
    requires p != j ==> && p < m && j < m && pivs' == Pivot.Swapped(pivs, p, j)
                        && swaps' == swaps + [(p, j)] && sign' == -sign
    ensures Recorded(pivs', swaps', sign', m, j + 1)
  {
    if p != j {
      ParityFlip(|swaps|);
      Pivot.AppliedSnoc(Pivot.IdentityPivots(m), swaps, p, j);
      SwapsInRangeSnoc(swaps, m, p, j);
    }
  }

  /** A fresh pivot array holding 0, 1, ..., m-1: no row exchanged yet. */
  method IdentityPivotArray(m: nat) returns (piv: array<nat>)
    ensures fresh(piv) && piv[..] == Pivot.IdentityPivots(m)
  {
    piv := new nat[m](_ => 0);
    for i := 0 to m
      invariant forall q | 0 <= q < i :: piv[q] == q
    {
      piv[i] := i;
    }
  }

  /** Overwrites A with its L\U factors and returns the pivot matrix of the
      row exchanges. The pivots are the identity with the exchanges made
      applied in turn (so a permutation of the rows), the sign is the parity
      of the number of exchanges, and, the pivot of each column being
      the entry of largest magnitude at or below the diagonal, every
      multiplier stored below the diagonal is at most 1 in magnitude. */
  method LUInPlace(A: DenseMatrix) returns (P: Pivot.PivotMatrix, ghost swaps: seq<(nat, nat)>)
    requires A.Valid()
    modifies A.elements
    ensures fresh(P) && fresh(P.pivots) && P.Valid() && P.rows == A.rows
    ensures Recorded(P.pivots[..], swaps, P.pivotSign, A.rows, A.cols)
    ensures swaps == Exchanges(old(A.View()), A.cols)
    ensures Factored(A, old(A.View()), A.cols)
  {
    ghost var g := A.View();
    var m := A.rows;
    var n := A.cols;
    var LUcolj := new real[m](_ => 0.0);
    var LUrowi := new real[n](_ => 0.0);
    var piv := IdentityPivotArray(m);
    var pivsign := 1.0;
    swaps := [];
    Pivot.IdentityIsPermutation(m);
    assert StepsUpTo(g, 0) == g;

    for j := 0 to n
      invariant piv.Length == m && Recorded(piv[..], swaps, pivsign, m, j)
      invariant Factored(A, g, j)
      invariant swaps == Exchanges(g, j)
    {
      ghost var pivs, swaps0, sign0 := piv[..], swaps, pivsign;
      var p := FactorStep(A, piv, LUcolj, LUrowi, j, g);
      if p != j {
        pivsign := -pivsign;
        swaps := swaps + [(p, j as nat)];
      }
      RecordStep(pivs, piv[..], swaps0, swaps, sign0, pivsign, m, j, p);
    }

    P := Pivot.MakePivotMatrix(piv, pivsign);
  }
}

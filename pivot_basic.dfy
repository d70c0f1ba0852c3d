/** Operations on pivot matrices: swapping pivot entries, symmetry, the
    inverse (which is the transpose), determinant, trace and norms. */
module PivotBasic {
  import opened Wrappers
  import opened Errors
  import opened Matrix
  import opened Pivot
  import DenseBasic
  import Util

  /** Exchanges pivots[r1] and pivots[r2] and negates the sign; never fails.
      An index outside the pivot array panics in the source. */
  method SwapRows(P: PivotMatrix, r1: nat, r2: nat) returns (err: Option<ErrorCode>)
    requires P.Valid() && r1 < P.rows && r2 < P.rows
    modifies P, P.pivots
    ensures err == None
    ensures P.pivots[..] == Swapped(old(P.pivots[..]), r1, r2)
    ensures P.pivotSign == -old(P.pivotSign)
  {
    P.pivots[r1], P.pivots[r2] := P.pivots[r2], P.pivots[r1];
    P.pivotSign := P.pivotSign * -1.0;
    return None;
  }

  /** A swap keeps the pivots a permutation and a sign of +1 or -1 of that form. */
  lemma SwapRowsKeepsPermutation(s: seq<nat>, sign: real, r1: nat, r2: nat)
    requires IsPermutation(s) && r1 < |s| && r2 < |s| && (sign == 1.0 || sign == -1.0)
    ensures IsPermutation(Swapped(s, r1, r2))
    ensures -sign == 1.0 || -sign == -1.0
  {
    SwappedPermutation(s, r1, r2);
  }

  /** Exchanging pivot entries r1 and r2 exchanges columns r1 and r2 of the
      matrix (column j holds its 1 in row pivots[j]). */
  lemma {:induction false} SwapRowsExchangesColumns(s: seq<nat>, r1: nat, r2: nat)
    requires r1 < |s| && r2 < |s|
    ensures OneHot(Swapped(s, r1, r2)) == Transposed(DenseBasic.RowsSwapped(Transposed(OneHot(s)), r1, r2))
  {
    GridExt(OneHot(Swapped(s, r1, r2)), Transposed(DenseBasic.RowsSwapped(Transposed(OneHot(s)), r1, r2)));
  }

  /** Applying s twice gives the identity. */
  predicate IsInvolution(s: seq<nat>)
    requires InRange(s)
  {
    forall i | 0 <= i < |s| :: s[s[i]] == i
  }

  /** Whether pivots[pivots[i]] == i for every i, stopping at the first failure.
      Pivots inside the array are the caller's duty here: in the source a
      pivot outside it panics only if the loop reaches it before a failure. */
  method Symmetric(P: PivotMatrix) returns (r: bool)
    requires P.Valid() && InRange(P.pivots[..])
    ensures r <==> IsInvolution(P.pivots[..])
  {
    for i := 0 to P.rows
      invariant forall k | 0 <= k < i :: P.pivots[P.pivots[k]] == k
    {
      if P.pivots[P.pivots[i]] != i {
        return false;
      }
    }
    return true;
  }

  /** For a permutation the three readings of symmetry agree: an involution,
      equal to its own inverse, and a symmetric one-hot matrix. */
  lemma {:induction false} SymmetricIff(s: seq<nat>)
    requires IsPermutation(s)
    ensures InRange(s)
    ensures IsInvolution(s) <==> InverseOf(s) == s
    ensures IsInvolution(s) <==> DenseBasic.IsSymmetric(OneHot(s))
  {
    InverseOfInverts(s);
    if IsInvolution(s) {
      forall v | 0 <= v < |s|
        ensures InverseOf(s)[v] == s[v]
      {
        assert InverseOf(s)[s[s[v]]] == s[v];
      }
    }
    if InverseOf(s) == s {
      assert forall i | 0 <= i < |s| :: s[s[i]] == i;
    }
    OneHotTransposed(s);
    DenseBasic.SymmetricIffTransposeFixed(OneHot(s));
    if InverseOf(s) == s {
      assert Transposed(OneHot(s)) == OneHot(s);
    }
    if Transposed(OneHot(s)) == OneHot(s) {
      forall v | 0 <= v < |s|
        ensures InverseOf(s)[v] == s[v]
      {
        var t := InverseOf(s);
        assert OneHot(s).cells[s[v]][v] == 1.0;
        assert OneHot(t).cells[s[v]][v] == 1.0;
      }
    }
  }

  /** The pivot matrix of the inverse permutation, with the same sign: a new
      array where position pivots[i] holds i. A position no pivot names keeps 0,
      and a pivot outside the array panics in the source. */
  method Transpose(P: PivotMatrix) returns (T: PivotMatrix)
    requires P.Valid() && InRange(P.pivots[..])
    ensures fresh(T) && fresh(T.pivots) && T.Valid()
    ensures T.pivots[..] == InverseOf(P.pivots[..]) && T.pivotSign == P.pivotSign
  {
    var newPivots := new nat[P.rows](_ => 0);
    for i := 0 to P.rows
      invariant forall v | 0 <= v < P.rows :: newPivots[v] == LastIndexOf(P.pivots[..i], v)
    {
      newPivots[P.pivots[i]] := i;
      assert P.pivots[..i + 1][..i] == P.pivots[..i];
    }
    assert P.pivots[..P.rows] == P.pivots[..];
    T := MakePivotMatrix(newPivots, P.pivotSign);
  }

  /** The inverse of a pivot matrix is its transpose. */
  method Inverse(P: PivotMatrix) returns (T: PivotMatrix)
    requires P.Valid() && InRange(P.pivots[..])
    ensures fresh(T) && fresh(T.pivots) && T.Valid()
    ensures T.pivots[..] == InverseOf(P.pivots[..]) && T.pivotSign == P.pivotSign
  {
    T := Transpose(P);
  }

  /** Inverting a permutation matrix twice gives back its pivots and sign, and
      the inverse's cells are the transpose of the original's. */
  method InverseTwiceRestores(P: PivotMatrix) returns (Q: PivotMatrix)
    requires P.Valid() && IsPermutation(P.pivots[..])
    ensures Q.pivots[..] == P.pivots[..] && Q.pivotSign == P.pivotSign
  {
    var T := Inverse(P);
    InverseIsPermutation(P.pivots[..]);
    Q := Inverse(T);
    InverseTwice(P.pivots[..]);
  }

  /** The determinant is the stored sign. */
  function Det(P: PivotMatrix): (d: real)
    reads P
    ensures d == P.pivotSign
  {
    P.pivotSign
  }

  /** Number of positions i with s[i] == i among the first n. */
  function FixedPoints(s: seq<nat>, n: nat): (c: nat)
    requires n <= |s|
    ensures c <= n
  {
    if n == 0 then 0 else FixedPoints(s, n - 1) + (if s[n - 1] == n - 1 then 1 else 0)
  }

  /** All positions are fixed exactly when s is the identity. */
  lemma {:induction false} FixedPointsAll(s: seq<nat>, n: nat)
    requires n <= |s|
    ensures FixedPoints(s, n) == n <==> forall i | 0 <= i < n :: s[i] == i
  {
    if n > 0 {
      FixedPointsAll(s, n - 1);
    }
  }

  /** The trace: the number of fixed points, counted as a float. */
  method Trace(P: PivotMatrix) returns (r: real)
    requires P.Valid()
    ensures r == FixedPoints(P.pivots[..], P.pivots.Length) as real
    ensures 0.0 <= r <= P.rows as real
  {
    r := 0.0;
    for i := 0 to P.pivots.Length
      invariant r == FixedPoints(P.pivots[..], i) as real
    {
      if P.pivots[i] == i {
        r := r + 1.0;
      }
    }
  }

  /** The first n diagonal cells of g. */
  function DiagonalPrefix(g: Grid, n: nat): (d: seq<real>)
    requires g.Valid() && n <= g.rows && n <= g.cols
    ensures |d| == n && forall i | 0 <= i < n :: d[i] == g.cells[i][i]
  {
    if n == 0 then [] else DiagonalPrefix(g, n - 1) + [g.cells[n - 1][n - 1]]
  }

  /** The trace is also the sum of the diagonal of the one-hot matrix. */
  lemma {:induction false} TraceIsDiagonalSum(s: seq<nat>, n: nat)
    requires n <= |s|
    ensures FixedPoints(s, n) as real == Util.SumOf(DiagonalPrefix(OneHot(s), n))
  {
    if n > 0 {
      TraceIsDiagonalSum(s, n - 1);
      Util.SumAppend(DiagonalPrefix(OneHot(s), n - 1), OneHot(s).cells[n - 1][n - 1]);
    }
  }

  /** `OneNorm` returns the size. */
  function OneNorm(P: PivotMatrix): (r: real)
    ensures r == P.rows as real
  {
    P.rows as real
  }

  /** `InfinityNorm` returns 1. */
  function InfinityNorm(P: PivotMatrix): (r: real)
    ensures r == 1.0
  {
    1.0
  }

  /** A sequence of zeros adds up to 0. */
  lemma {:induction false} SumOfZeros(a: seq<real>)
    requires forall k | 0 <= k < |a| :: a[k] == 0.0
    ensures Util.SumOf(a) == 0.0
    decreases |a|
  {
    if a != [] {
      SumOfZeros(a[..|a| - 1]);
    }
  }

  /** A single 1 among zeros adds up to 1. */
  lemma {:induction false} SumOfUnit(a: seq<real>, k: nat)
    requires k < |a| && a[k] == 1.0 && forall i | 0 <= i < |a| && i != k :: a[i] == 0.0
    ensures Util.SumOf(a) == 1.0
    decreases |a|
  {
    if k == |a| - 1 {
      SumOfZeros(a[..|a| - 1]);
    } else {
      SumOfUnit(a[..|a| - 1], k);
    }
  }

  /** The sum of each row of g. */
  ghost function RowSums(g: Grid): (r: seq<real>)
    requires g.Valid()
    ensures |r| == g.rows && forall i | 0 <= i < g.rows :: r[i] == Util.SumOf(g.cells[i])
  {
    seq(g.rows, (i: int) requires 0 <= i < g.rows && g.Valid() => Util.SumOf(g.cells[i]))
  }

  /** For a permutation, every row of the matrix sums to InfinityNorm and the
      row sums add up to OneNorm: the two constants are the row sum and the
      sum of all cells. This fixes the pivot matrix's own convention; the
      dense matrix's OneNorm is instead its largest cell (1 for the same
      grid), and its InfinityNorm the sum of all cells (rows). */
  lemma {:induction false} NormsAreSums(P: PivotMatrix)
    requires P.Valid() && IsPermutation(P.pivots[..])
    ensures forall i | 0 <= i < P.rows :: RowSums(OneHot(P.pivots[..]))[i] == InfinityNorm(P)
    ensures Util.SumOf(RowSums(OneHot(P.pivots[..]))) == OneNorm(P)
  {
    var s := P.pivots[..];
    OneHotRows(s);
    forall i | 0 <= i < P.rows
      ensures Util.SumOf(OneHot(s).cells[i]) == 1.0
    {
      SumOfUnit(OneHot(s).cells[i], InverseOf(s)[i]);
    }
    Util.SumOfOnes(RowSums(OneHot(s)));
  }

  /** A copy shares the pivot array with its original, so exchanging rows
      of the copy exchanges the original's pivots too, while the original's
      sign stays as it was. */
  method SwapOnCopy(P: PivotMatrix, r1: nat, r2: nat) returns (C: PivotMatrix)
    requires P.Valid() && r1 < P.rows && r2 < P.rows
    modifies P.pivots
    ensures C.pivots == P.pivots && C.pivotSign == -P.pivotSign
    ensures P.pivots[..] == Swapped(old(P.pivots[..]), r1, r2) && P.pivotSign == old(P.pivotSign)
  {
    C := P.Copy();
    var _ := SwapRows(C, r1, r2);
  }
}

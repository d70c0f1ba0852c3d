/** A permutation matrix stored as its pivot array: column j holds its single 1
    in row `pivots[j]`. The sign is +1 or -1 according to the parity of the
    row swaps that produced it. */
module Pivot {
  import opened Matrix
  import Dense
  import Sparse

  /** v appears somewhere in s. */
  ghost predicate Occurs(s: seq<nat>, v: nat) {
    exists i :: 0 <= i < |s| && s[i] == v
  }

  /** s lists 0 .. |s|-1, each exactly once. */
  ghost predicate IsPermutation(s: seq<nat>) {
    && (forall i | 0 <= i < |s| :: s[i] < |s|)
    && (forall i, j | 0 <= i < |s| && 0 <= j < |s| && i != j :: s[i] != s[j])
    && (forall v: nat | v < |s| :: Occurs(s, v))
  }

  /** Every entry of s names a row of an |s| x |s| matrix. */
  predicate InRange(s: seq<nat>) {
    forall i | 0 <= i < |s| :: s[i] < |s|
  }

  /** The identity 0, 1, ..., n-1. */
  function IdentityPivots(n: nat): (s: seq<nat>)
    ensures |s| == n && forall i | 0 <= i < n :: s[i] == i
  {
    seq(n, (i: int) requires 0 <= i < n => i)
  }

  lemma IdentityIsPermutation(n: nat)
    ensures IsPermutation(IdentityPivots(n))
  {
    var s := IdentityPivots(n);
    forall v: nat | v < n
      ensures Occurs(s, v)
    {
      assert s[v] == v;
    }
  }

  /** s with entries r1 and r2 exchanged. */
  function Swapped(s: seq<nat>, r1: nat, r2: nat): (t: seq<nat>)
    requires r1 < |s| && r2 < |s|
    ensures |t| == |s| && t[r1] == s[r2] && t[r2] == s[r1]
    ensures forall i | 0 <= i < |s| && i != r1 && i != r2 :: t[i] == s[i]
  {
    s[r1 := s[r2]][r2 := s[r1]]
  }

  /** The pivots reached from s by exchanging, in turn, the two entries
      each pair names. */
  ghost function Applied(s: seq<nat>, pairs: seq<(nat, nat)>): (t: seq<nat>)
    requires forall k | 0 <= k < |pairs| :: pairs[k].0 < |s| && pairs[k].1 < |s|
    ensures |t| == |s|
  {
    if pairs == [] then s
    else Swapped(Applied(s, pairs[..|pairs| - 1]), pairs[|pairs| - 1].0, pairs[|pairs| - 1].1)
  }

  /** One more pair exchanges two more entries. */
  lemma AppliedSnoc(s: seq<nat>, pairs: seq<(nat, nat)>, a: nat, b: nat)
    requires forall k | 0 <= k < |pairs| :: pairs[k].0 < |s| && pairs[k].1 < |s|
    requires a < |s| && b < |s|
    ensures forall k | 0 <= k < |pairs + [(a, b)]| :: (pairs + [(a, b)])[k].0 < |s| && (pairs + [(a, b)])[k].1 < |s|
    ensures Applied(s, pairs + [(a, b)]) == Swapped(Applied(s, pairs), a, b)
  {
    assert (pairs + [(a, b)])[..|pairs|] == pairs;
  }

  /** Exchanging two entries keeps a permutation a permutation. */
  lemma {:induction false} SwappedPermutation(s: seq<nat>, r1: nat, r2: nat)
    requires IsPermutation(s) && r1 < |s| && r2 < |s|
    ensures IsPermutation(Swapped(s, r1, r2))
  {
    var t := Swapped(s, r1, r2);
    forall v: nat | v < |t|
      ensures Occurs(t, v)
    {
      assert Occurs(s, v);
      var i :| 0 <= i < |s| && s[i] == v;
      if i == r1 {
        assert t[r2] == v;
      } else if i == r2 {
        assert t[r1] == v;
      } else {
        assert t[i] == v;
      }
    }
  }

  /** The last position of s that holds v, or 0 when there is none: what
      position v of the array `Transpose` fills ends up holding. */
  function LastIndexOf(s: seq<nat>, v: nat): (k: nat)
    ensures k == 0 || (k < |s| && s[k] == v)
  {
    if |s| == 0 then 0
    else if s[|s| - 1] == v then |s| - 1
    else LastIndexOf(s[..|s| - 1], v)
  }

  /** When v occurs in s, LastIndexOf finds an occurrence. */
  lemma {:induction false} LastIndexOfFound(s: seq<nat>, v: nat, k: nat)
    requires k < |s| && s[k] == v
    ensures LastIndexOf(s, v) < |s| && s[LastIndexOf(s, v)] == v
    decreases |s|
  {
    if s[|s| - 1] != v {
      LastIndexOfFound(s[..|s| - 1], v, k);
    }
  }

  /** The array `Transpose` builds: position v holds the index i with s[i] == v. */
  function InverseOf(s: seq<nat>): (t: seq<nat>)
    ensures |t| == |s| && forall v | 0 <= v < |s| :: t[v] == LastIndexOf(s, v)
  {
    seq(|s|, (v: int) requires 0 <= v < |s| => LastIndexOf(s, v))
  }

  /** For a permutation, InverseOf undoes s at every position. */
  lemma {:induction false} InverseOfInverts(s: seq<nat>)
    requires IsPermutation(s)
    ensures forall i | 0 <= i < |s| :: InverseOf(s)[s[i]] == i
    ensures forall v | 0 <= v < |s| :: s[InverseOf(s)[v]] == v
  {
    forall i | 0 <= i < |s|
      ensures InverseOf(s)[s[i]] == i
    {
      LastIndexOfFound(s, s[i], i);
    }
    forall v | 0 <= v < |s|
      ensures s[InverseOf(s)[v]] == v
    {
      assert Occurs(s, v);
      var i :| 0 <= i < |s| && s[i] == v;
      LastIndexOfFound(s, v, i);
    }
  }

  /** The inverse of a permutation is a permutation. */
  lemma {:induction false} InverseIsPermutation(s: seq<nat>)
    requires IsPermutation(s)
    ensures IsPermutation(InverseOf(s))
  {
    var t := InverseOf(s);
    InverseOfInverts(s);
    forall v | 0 <= v < |s|
      ensures t[v] < |s|
    {
      assert Occurs(s, v);
      var i :| 0 <= i < |s| && s[i] == v;
      LastIndexOfFound(s, v, i);
    }
    forall i: nat | i < |t|
      ensures Occurs(t, i)
    {
      assert t[s[i]] == i;
    }
  }

  /** Inverting twice gives the permutation back. */
  lemma {:induction false} InverseTwice(s: seq<nat>)
    requires IsPermutation(s)
    ensures InverseOf(InverseOf(s)) == s
  {
    var t := InverseOf(s);
    InverseIsPermutation(s);
    InverseOfInverts(s);
    InverseOfInverts(t);
    forall i | 0 <= i < |s|
      ensures InverseOf(t)[i] == s[i]
    {
      // t[s[i]] == i, and InverseOf(t) undoes t
      assert InverseOf(t)[t[s[i]]] == s[i];
    }
  }

  /** The 0/1 grid whose column j has its 1 in row s[j]. */
  function OneHot(s: seq<nat>): (g: Grid)
    ensures g.Valid() && g.rows == |s| && g.cols == |s|
    ensures forall i, j | 0 <= i < |s| && 0 <= j < |s| :: g.cells[i][j] == if s[j] == i then 1.0 else 0.0
  {
    Grid(|s|, |s|, seq(|s|, (i: int) requires 0 <= i < |s| =>
                         seq(|s|, (j: int) requires 0 <= j < |s| => if s[j] == i then 1.0 else 0.0)))
  }

  /** A permutation's one-hot grid has exactly one 1 in every row as well:
      row i has it in column InverseOf(s)[i]. */
  lemma {:induction false} OneHotRows(s: seq<nat>)
    requires IsPermutation(s)
    ensures forall i | 0 <= i < |s| :: InverseOf(s)[i] < |s| && OneHot(s).cells[i][InverseOf(s)[i]] == 1.0
    ensures forall i, j, k | 0 <= i < |s| && 0 <= j < |s| && 0 <= k < |s| && j != k ::
              !(OneHot(s).cells[i][j] == 1.0 && OneHot(s).cells[i][k] == 1.0)
  {
    InverseOfInverts(s);
    InverseIsPermutation(s);
  }

  /** The transpose of a permutation's one-hot grid is its inverse's one-hot grid. */
  lemma {:induction false} OneHotTransposed(s: seq<nat>)
    requires IsPermutation(s)
    ensures Transposed(OneHot(s)) == OneHot(InverseOf(s))
  {
    InverseOfInverts(s);
    InverseIsPermutation(s);
    var t := InverseOf(s);
    forall i, j | 0 <= i < |s| && 0 <= j < |s|
      ensures Transposed(OneHot(s)).cells[i][j] == OneHot(t).cells[i][j]
    {
      // s[i] == j exactly when t[j] == i
      assert (s[i] == j ==> t[s[i]] == i) && (t[j] == i ==> s[t[j]] == j);
    }
    GridExt(Transposed(OneHot(s)), OneHot(t));
  }

  class PivotMatrix {
    const rows: nat
    const cols: nat
    const pivots: array<nat>
    var pivotSign: real

    ghost predicate Valid() {
      rows == cols == pivots.Length
    }

    /** `MakePivotMatrix`: wraps the pivot array without copying it. */
    constructor (pivots: array<nat>, pivotSign: real)
      ensures Valid() && this.pivots == pivots && this.pivotSign == pivotSign
      ensures rows == cols == pivots.Length
    {
      this.rows := pivots.Length;
      this.cols := pivots.Length;
      this.pivots := pivots;
      this.pivotSign := pivotSign;
    }

    /** Cell (i, j) with both indices reduced modulo the size: 1 when column
        j's pivot is row i. A 0 x 0 matrix divides by zero in the source. */
    function Get(i: nat, j: nat): (v: real)
      reads pivots
      requires Valid() && rows > 0
      ensures v == 1.0 <==> pivots[j % cols] == i % rows
      ensures v == 0.0 <==> pivots[j % cols] != i % rows
    {
      if pivots[j % cols] == i % rows then 1.0 else 0.0
    }

    /** The cells, as a grid. */
    ghost function View(): (g: Grid)
      reads pivots
      requires Valid()
      ensures g == OneHot(pivots[..])
    {
      OneHot(pivots[..])
    }

    /** Inside the matrix, Get reads the one-hot grid of the pivots. */
    lemma GetIsOneHot(i: nat, j: nat)
      requires Valid() && i < rows && j < cols
      ensures Get(i, j) == OneHot(pivots[..]).cells[i][j]
    {
    }

    /** A dense matrix with a 1 at (pivots[j], j) for each column j and 0
        elsewhere. A pivot outside the matrix is fatal in the source. */
    method DenseMatrix() returns (A: Dense.DenseMatrix)
      requires Valid() && InRange(pivots[..])
      ensures fresh(A) && fresh(A.elements) && A.Valid() && A.step == A.cols
      ensures A.View() == OneHot(pivots[..])
    {
      A := Dense.Zeros(rows, cols);
      for j := 0 to rows
        invariant forall p, q | 0 <= p < rows && 0 <= q < cols ::
                    A.Get(p, q) == if q < j && pivots[q] == p then 1.0 else 0.0
      {
        A.Set(pivots[j], j, 1.0);
      }
      GridExt(A.View(), OneHot(pivots[..]));
    }

    /** The sparse matrix storing a 1 at (pivots[j], j) for each column j. */
    method SparseMatrix() returns (A: Sparse.SparseMatrix)
      requires Valid() && InRange(pivots[..])
      ensures fresh(A) && A.Valid() && A.NoZeros() && A.View() == OneHot(pivots[..])
    {
      A := Sparse.ZerosSparse(rows, cols);
      for j := 0 to rows
        invariant A.Valid() && A.NoZeros() && A.rows == rows && A.cols == cols
        invariant forall p, q | 0 <= p < rows && 0 <= q < cols ::
                    A.Get(p, q) == if q < j && pivots[q] == p then 1.0 else 0.0
      {
        A.Set(pivots[j], j, 1.0);
      }
      GridExt(A.View(), OneHot(pivots[..]));
    }

    /** A new pivot matrix over the same pivot array and with the same sign. */
    method Copy() returns (C: PivotMatrix)
      requires Valid()
      ensures fresh(C) && C.Valid() && C.pivots == pivots && C.pivotSign == pivotSign
    {
      C := new PivotMatrix(pivots, pivotSign);
    }
  }

  /** `MakePivotMatrix`. */
  method MakePivotMatrix(pivots: array<nat>, pivotSign: real) returns (P: PivotMatrix)
    ensures fresh(P) && P.Valid() && P.pivots == pivots && P.pivotSign == pivotSign
    ensures P.rows == |pivots[..]| && P.cols == |pivots[..]|
  {
    P := new PivotMatrix(pivots, pivotSign);
  }
}

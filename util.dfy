/** Small numeric helpers: larger/smaller of two values, sum and product of a
    slice, and the Fibonacci generator. */
module Util {

  function Max(x: real, y: real): (r: real)
    ensures (r == x || r == y) && r >= x && r >= y
  {
    if x > y then x else y
  }

  function MaxInt(x: int, y: int): (r: int)
    ensures (r == x || r == y) && r >= x && r >= y
  {
    if x > y then x else y
  }

  function MaxUInt(x: nat, y: nat): (r: nat)
    ensures (r == x || r == y) && r >= x && r >= y
  {
    if x > y then x else y
  }

  function Min(x: real, y: real): (r: real)
    ensures (r == x || r == y) && r <= x && r <= y
  {
    if x < y then x else y
  }

  function MinInt(x: int, y: int): (r: int)
    ensures (r == x || r == y) && r <= x && r <= y
  {
    if x < y then x else y
  }

  function MinUInt(x: nat, y: nat): (r: nat)
    ensures (r == x || r == y) && r <= x && r <= y
  {
    if x < y then x else y
  }

  /** The left-to-right sum `((0 + a[0]) + a[1]) + ...`, the order the loop adds in. */
  ghost function SumOf(a: seq<real>): real
    decreases |a|
  {
    if a == [] then 0.0 else SumOf(a[..|a| - 1]) + a[|a| - 1]
  }

  /** The left-to-right product `((1 * a[0]) * a[1]) * ...`. */
  ghost function ProductOf(a: seq<real>): real
    decreases |a|
  {
    if a == [] then 1.0 else ProductOf(a[..|a| - 1]) * a[|a| - 1]
  }

  lemma {:induction false} SumAppend(a: seq<real>, v: real)
    ensures SumOf([]) == 0.0
    ensures SumOf(a + [v]) == SumOf(a) + v
  {
    assert (a + [v])[..|a|] == a;
  }

  lemma {:induction false} ProductAppend(a: seq<real>, v: real)
    ensures ProductOf([]) == 1.0
    ensures ProductOf(a + [v]) == ProductOf(a) * v
  {
    assert (a + [v])[..|a|] == a;
  }

  /** A zero factor anywhere makes the product zero (so a zero on the diagonal
      makes the determinant zero). */
  lemma {:induction false} ProductZero(a: seq<real>, k: nat)
    requires k < |a| && a[k] == 0.0
    ensures ProductOf(a) == 0.0
    decreases |a|
  {
    if k < |a| - 1 {
      ProductZero(a[..|a| - 1], k);
    }
  }

  /** Adding up ones counts them. */
  lemma {:induction false} SumOfOnes(a: seq<real>)
    requires forall k | 0 <= k < |a| :: a[k] == 1.0
    ensures SumOf(a) == |a| as real
    decreases |a|
  {
    if a != [] {
      SumOfOnes(a[..|a| - 1]);
    }
  }

  method Sum(a: seq<real>) returns (s: real)
    ensures s == SumOf(a)
  {
    s := 0.0;
    for i := 0 to |a|
      invariant s == SumOf(a[..i])
    {
      assert a[..i + 1] == a[..i] + [a[i]];
      SumAppend(a[..i], a[i]);
      s := s + a[i];
    }
    assert a[..|a|] == a;
  }

  method Product(a: seq<real>) returns (p: real)
    ensures p == ProductOf(a)
  {
    p := 1.0;
    for i := 0 to |a|
      invariant p == ProductOf(a[..i])
    {
      assert a[..i + 1] == a[..i] + [a[i]];
      ProductAppend(a[..i], a[i]);
      p := p * a[i];
    }
    assert a[..|a|] == a;
  }

  /** Fibonacci numbers extended two steps back, so that Fib(-2) = -1 and
      Fib(-1) = 1 are the generator's starting values; Fib(0) = 0, Fib(1) = 1. */
  function Fib(n: int): int
    requires n >= -2
    decreases n + 2
  {
    if n == -2 then -1 else if n == -1 then 1 else Fib(n - 1) + Fib(n - 2)
  }

  /** The closure returned by `fibonacci()`: its captured variables x and y. */
  class Fibonacci {
    var x: int
    var y: int
    /** How often the closure has been called. */
    ghost var calls: nat

    ghost predicate Valid()
      reads this
    {
      x == Fib(calls - 2) && y == Fib(calls - 1)
    }

    constructor ()
      ensures Valid() && calls == 0
    {
      x, y := -1, 1;
      calls := 0;
    }

    /** One call of the closure: the n-th call (from 0) returns Fib(n). */
    method Next() returns (r: int)
      requires Valid()
      modifies this
      ensures Valid() && calls == old(calls) + 1
      ensures r == Fib(old(calls))
    {
      x, y := y, x + y;
      calls := calls + 1;
      r := y;
    }
  }

  /** The first six values of a fresh generator. */
  method FirstSix() returns (s: seq<int>)
    ensures s == [0, 1, 1, 2, 3, 5]
  {
    var f := new Fibonacci();
    s := [];
    for k := 0 to 6
      invariant f.Valid() && f.calls == k && |s| == k
      invariant forall m | 0 <= m < k :: s[m] == Fib(m)
    {
      var v := f.Next();
      s := s + [v];
    }
    assert Fib(0) == 0 && Fib(1) == 1 && Fib(2) == 1 && Fib(3) == 2 && Fib(4) == 3 && Fib(5) == 5;
  }
}

/**
 * The fixed-point form of a linear system and the synchronous (Jacobi) sweep
 * over it, as functions on values. Row i of the augmented matrix `a`
 * (a[i][0..n-1] coefficients, a[i][n] right-hand side) is rewritten as
 *   x_i = sum over j != i of c[i][j] * x_j + c[i][n]
 * with c[i][j] = -a[i][j] / a[i][i], c[i][i] = 0 and c[i][n] = a[i][n] / a[i][i].
 * A sweep computes every new x_i from one snapshot of the old values.
 */
module Jacobi {
  import opened Dominance

  /** The sum of row[k] * x[k] over k < j with k != i. */
  function SumExcept(row: seq<real>, x: seq<real>, i: int, j: nat): (r: real)
    requires j <= |row| && j <= |x|
  {
    if j == 0 then 0.0
    else SumExcept(row, x, i, j - 1) + (if j - 1 == i then 0.0 else row[j - 1] * x[j - 1])
  }

  /** The sum of row[k] * x[k] over k < j. */
  function Dot(row: seq<real>, x: seq<real>, j: nat): (r: real)
    requires j <= |row| && j <= |x|
  {
    if j == 0 then 0.0 else Dot(row, x, j - 1) + row[j - 1] * x[j - 1]
  }

  /** The value a sweep gives unknown i when `row` is the fixed-point row i. */
  function Update(row: seq<real>, x: seq<real>, i: int): (v: real)
    requires |row| == |x| + 1
  {
    SumExcept(row, x, i, |x|) + row[|x|]
  }

  /** One synchronous sweep: every new value computed from the same snapshot x. */
  function Sweep(c: seq<seq<real>>, x: seq<real>): (y: seq<real>)
    requires Shape(c, |x|)
    ensures |y| == |x|
  {
    seq(|x|, i requires 0 <= i < |x| => Update(c[i], x, i))
  }

  /** The vector after k sweeps from x. */
  function Iterates(c: seq<seq<real>>, x: seq<real>, k: nat): (y: seq<real>)
    requires Shape(c, |x|)
    ensures |y| == |x|
  {
    if k == 0 then x else Sweep(c, Iterates(c, x, k - 1))
  }

  /** The magnitude of the change of every unknown in one sweep from x. */
  function Deltas(c: seq<seq<real>>, x: seq<real>): (d: seq<real>)
    requires Shape(c, |x|)
    ensures |d| == |x|
  {
    var y := Sweep(c, x);
    seq(|x|, i requires 0 <= i < |x| => Abs(y[i] - x[i]))
  }

  /** The running maximum of s, started at 0 and raised by each larger entry. */
  function MaxOf(s: seq<real>): (m: real)
  {
    if s == [] then 0.0
    else
      var m := MaxOf(s[..|s| - 1]);
      if s[|s| - 1] > m then s[|s| - 1] else m
  }

  /** A sweep from x changes no unknown by eps or more. */
  predicate Settled(c: seq<seq<real>>, x: seq<real>, eps: real)
    requires Shape(c, |x|)
  {
    MaxOf(Deltas(c, x)) < eps
  }

  /**
   * A sweep from x in progress: the first i entries of sol and err hold the
   * swept values and their changes, the rest of sol still holds x.
   */
  predicate SweptUpTo(c: seq<seq<real>>, x: seq<real>, sol: seq<real>, err: seq<real>, i: int)
    requires Shape(c, |x|)
  {
    |sol| == |x| && |err| == |x| && 0 <= i <= |x| &&
    (forall k :: 0 <= k < i ==> sol[k] == Sweep(c, x)[k] && err[k] == Deltas(c, x)[k]) &&
    (forall k :: i <= k < |x| ==> sol[k] == x[k])
  }

  /** One more unknown swept. */
  lemma SweptStep(c: seq<seq<real>>, x: seq<real>, sol: seq<real>, err: seq<real>, i: int)
    requires Shape(c, |x|) && SweptUpTo(c, x, sol, err, i) && i < |x|
    ensures sol[i] == x[i]
    ensures SweptUpTo(c, x, sol[i := Sweep(c, x)[i]], err[i := Abs(Sweep(c, x)[i] - x[i])], i + 1)
  {
  }

  /** A finished sweep holds the sweep and its changes. */
  lemma SweptAll(c: seq<seq<real>>, x: seq<real>, sol: seq<real>, err: seq<real>)
    requires Shape(c, |x|) && SweptUpTo(c, x, sol, err, |x|)
    ensures sol == Sweep(c, x) && err == Deltas(c, x)
  {
  }

  /** The running maximum over one more entry. */
  lemma MaxOfStep(s: seq<real>, i: int)
    requires 0 <= i < |s|
    ensures MaxOf(s[..i + 1]) == if s[i] > MaxOf(s[..i]) then s[i] else MaxOf(s[..i])
  {
    assert s[..i + 1][..i] == s[..i];
  }

  /**
   * The state of the iteration after `iter` sweeps from x0: sol is the
   * iterate, err the changes of the last sweep and m their running maximum,
   * and no sweep before the last one settled.
   */
  predicate IteratedTo(c: seq<seq<real>>, x0: seq<real>, eps: real, iter: nat,
                       sol: seq<real>, err: seq<real>, m: real)
    requires Shape(c, |x0|)
  {
    sol == Iterates(c, x0, iter) &&
    (iter > 0 ==> err == Deltas(c, Iterates(c, x0, iter - 1)) && m == MaxOf(err)) &&
    forall k :: 0 <= k < iter - 1 ==> !Settled(c, Iterates(c, x0, k), eps)
  }

  /** Another sweep, taken because the last one did not settle, extends the iteration. */
  lemma IteratedStep(c: seq<seq<real>>, x0: seq<real>, eps: real, iter: nat,
                     sol: seq<real>, err: seq<real>, m: real)
    requires Shape(c, |x0|) && IteratedTo(c, x0, eps, iter, sol, err, m)
    requires iter > 0 ==> m >= eps
    ensures IteratedTo(c, x0, eps, iter + 1, Sweep(c, sol), Deltas(c, sol), MaxOf(Deltas(c, sol)))
  {
  }

  /**
   * The iteration from x0 stopped after `count` sweeps, at most `cap`: sol is
   * the last iterate and err the changes the last sweep made; no sweep before
   * the last one settled, and unless the cap was reached the last one did, so
   * that every change it made is below eps.
   */
  predicate Stopped(c: seq<seq<real>>, x0: seq<real>, eps: real, cap: int, count: int,
                    sol: seq<real>, err: seq<real>)
    requires Shape(c, |x0|)
  {
    1 <= count <= cap &&
    sol == Iterates(c, x0, count) &&
    err == Deltas(c, Iterates(c, x0, count - 1)) &&
    (forall k :: 0 <= k < count - 1 ==> !Settled(c, Iterates(c, x0, k), eps)) &&
    (count < cap ==> Settled(c, Iterates(c, x0, count - 1), eps)) &&
    (count < cap ==> forall i :: 0 <= i < |err| ==> err[i] < eps)
  }

  /** Leaving the loop after at least one sweep, below `cap` only because the last sweep settled. */
  lemma IteratedExit(c: seq<seq<real>>, x0: seq<real>, eps: real, count: int,
                     sol: seq<real>, err: seq<real>, m: real, cap: int)
    requires Shape(c, |x0|) && 1 <= count <= cap
    requires IteratedTo(c, x0, eps, count, sol, err, m)
    requires count < cap ==> m < eps
    ensures Stopped(c, x0, eps, cap, count, sol, err)
  {
    if count < cap {
      MaxOfBelow(err, eps);
    }
  }

  predicate NonzeroDiagonal(a: seq<seq<real>>, n: nat)
    requires Shape(a, n)
  {
    forall i :: 0 <= i < n ==> a[i][i] != 0.0
  }

  /** Row i of the fixed-point form, computed from row i of the system. */
  function NormalizedRow(a: seq<real>, i: nat): (c: seq<real>)
    requires i < |a| - 1 && a[i] != 0.0
    ensures |c| == |a|
  {
    seq(|a|, j requires 0 <= j < |a| =>
      if j == i then 0.0 else if j == |a| - 1 then a[j] / a[i] else -a[j] / a[i])
  }

  function Normalized(a: seq<seq<real>>, n: nat): (c: seq<seq<real>>)
    requires Shape(a, n) && NonzeroDiagonal(a, n)
    ensures Shape(c, n)
  {
    seq(n, i requires 0 <= i < n => NormalizedRow(a[i], i))
  }

  /** x solves the system: every row's coefficients times x give its right-hand side. */
  predicate Solves(a: seq<seq<real>>, x: seq<real>)
    requires Shape(a, |x|)
  {
    forall i :: 0 <= i < |x| ==> Dot(a[i], x, |x|) == a[i][|x|]
  }

  /** The running maximum is below eps exactly when eps is positive and every entry is below it. */
  lemma {:induction false} MaxOfBelow(s: seq<real>, eps: real)
    ensures MaxOf(s) < eps <==> 0.0 < eps && forall i :: 0 <= i < |s| ==> s[i] < eps
  {
    if s != [] {
      var t := s[..|s| - 1];
      MaxOfBelow(t, eps);
      assert forall i :: 0 <= i < |t| ==> s[i] == t[i];
    }
  }

  lemma MulDistrib(s: real, t: real, d: real)
    ensures (s + t) * d == s * d + t * d
  {
  }

  lemma TermScaled(p: real, q: real, x: real, d: real)
    requires p * d == -q
    ensures (p * x) * d == -(q * x)
  {
  }

  /** A quotient by d, multiplied back by d. */
  lemma Unscale(v: real, p: real, d: real)
    requires d != 0.0 && v == p / d
    ensures v * d == p
  {
  }

  lemma CancelFactor(u: real, v: real, d: real)
    requires d != 0.0
    ensures u == v <==> u * d == v * d
  {
    if u * d == v * d {
      assert (u - v) * d == 0.0;
    }
  }

  /**
   * c is a fixed-point row for row i of `a`: multiplied by the pivot a[i], its
   * off-diagonal coefficients give back minus those of `a` and its last entry
   * the right-hand side; its diagonal entry is zero.
   */
  predicate ScaledRow(a: seq<real>, c: seq<real>, i: nat)
    requires i < |a| - 1
  {
    |c| == |a| && c[i] == 0.0 && c[|a| - 1] * a[i] == a[|a| - 1] &&
    forall k :: 0 <= k < |a| - 1 && k != i ==> c[k] * a[i] == -a[k]
  }

  lemma NormalizedIsScaled(a: seq<real>, i: nat)
    requires i < |a| - 1 && a[i] != 0.0
    ensures ScaledRow(a, NormalizedRow(a, i), i)
  {
    var c := NormalizedRow(a, i);
    forall k | 0 <= k < |a| - 1 && k != i ensures c[k] * a[i] == -a[k] {
      Unscale(c[k], -a[k], a[i]);
    }
    Unscale(c[|a| - 1], a[|a| - 1], a[i]);
  }

  /** The off-diagonal sum of a fixed-point row, times the pivot d, is minus that of the row. */
  lemma {:induction false} SumExceptScaled(a: seq<real>, c: seq<real>, x: seq<real>, i: int, d: real, j: nat)
    requires j <= |x| && |x| <= |a| && |x| <= |c|
    requires forall k :: 0 <= k < |x| && k != i ==> c[k] * d == -a[k]
    ensures SumExcept(c, x, i, j) * d == -SumExcept(a, x, i, j)
  {
    if j > 0 {
      SumExceptScaled(a, c, x, i, d, j - 1);
      var t := if j - 1 == i then 0.0 else c[j - 1] * x[j - 1];
      MulDistrib(SumExcept(c, x, i, j - 1), t, d);
      if j - 1 != i {
        TermScaled(c[j - 1], a[j - 1], x[j - 1], d);
      }
    }
  }

  lemma {:induction false} DotSplit(a: seq<real>, x: seq<real>, i: int, j: nat)
    requires j <= |a| && j <= |x| && 0 <= i
    ensures Dot(a, x, j) == SumExcept(a, x, i, j) + (if i < j then a[i] * x[i] else 0.0)
  {
    if j > 0 {
      DotSplit(a, x, i, j - 1);
    }
  }

  /** A fixed-point row for row i leaves x_i unchanged exactly when x satisfies equation i. */
  lemma RowFixedPoint(a: seq<real>, c: seq<real>, x: seq<real>, i: nat)
    requires i < |x| && |a| == |x| + 1 && a[i] != 0.0 && ScaledRow(a, c, i)
    ensures Update(c, x, i) == x[i] <==> Dot(a, x, |x|) == a[|x|]
  {
    var n := |x|;
    var s := SumExcept(c, x, i, n);
    SumExceptScaled(a, c, x, i, a[i], n);
    DotSplit(a, x, i, n);
    CancelFactor(s + c[n], x[i], a[i]);
    MulDistrib(s, c[n], a[i]);
    assert a[i] * x[i] == x[i] * a[i];
  }

  /**
   * A vector is a fixed point of the sweep over the normalised matrix exactly
   * when it solves the original system.
   */
  lemma FixedPointIffSolution(a: seq<seq<real>>, x: seq<real>)
    requires Shape(a, |x|) && NonzeroDiagonal(a, |x|)
    ensures Sweep(Normalized(a, |x|), x) == x <==> Solves(a, x)
  {
    var n := |x|;
    var c := Normalized(a, n);
    forall i | 0 <= i < n
      ensures Sweep(c, x)[i] == x[i] <==> Dot(a[i], x, n) == a[i][n]
    {
      NormalizedIsScaled(a[i], i);
      RowFixedPoint(a[i], c[i], x, i);
    }
    if Solves(a, x) {
      assert forall i :: 0 <= i < n ==> Sweep(c, x)[i] == x[i];
    }
  }

  lemma {:induction false} SumExceptZeros(row: seq<real>, x: seq<real>, i: int, j: nat)
    requires j <= |row| && j <= |x|
    requires forall k :: 0 <= k < |x| ==> x[k] == 0.0
    ensures SumExcept(row, x, i, j) == 0.0
  {
    if j > 0 {
      SumExceptZeros(row, x, i, j - 1);
    }
  }

  /** The right-hand-side column of an augmented matrix with n unknowns. */
  function Rhs(c: seq<seq<real>>, n: nat): (b: seq<real>)
    requires Shape(c, n)
    ensures |b| == n
  {
    seq(n, i requires 0 <= i < n => c[i][n])
  }

  /**
   * The right-hand-side column of the fixed-point form is what one sweep
   * produces from the zero vector: starting from it skips that first sweep.
   */
  lemma SweepFromZero(c: seq<seq<real>>, n: nat)
    requires Shape(c, n)
    ensures Sweep(c, seq(n, _ => 0.0)) == Rhs(c, n)
    ensures forall k: nat :: Iterates(c, Rhs(c, n), k) == Iterates(c, seq(n, _ => 0.0), k + 1)
  {
    var z := seq(n, _ => 0.0);
    forall i | 0 <= i < n ensures Sweep(c, z)[i] == Rhs(c, n)[i] {
      SumExceptZeros(c[i], z, i, n);
    }
    assert Sweep(c, z) == Rhs(c, n);
    forall k: nat ensures Iterates(c, Rhs(c, n), k) == Iterates(c, z, k + 1) {
      IteratesShift(c, z, k);
    }
  }

  /** Iterating k times after one sweep is iterating k + 1 times. */
  lemma {:induction false} IteratesShift(c: seq<seq<real>>, x: seq<real>, k: nat)
    requires Shape(c, |x|)
    ensures Iterates(c, Sweep(c, x), k) == Iterates(c, x, k + 1)
  {
    if k > 0 {
      IteratesShift(c, x, k - 1);
    }
  }
}

/**
 * The solver of a linear system by simple (Jacobi) iteration. It first tries
 * to reorder the rows of the augmented matrix so that every row is eligible
 * at its own diagonal position (Kuhn's bipartite matching between rows and
 * diagonal positions), then rewrites the system in fixed-point form and
 * sweeps until no unknown changes by eps or more, or the iteration cap is hit.
 */
module SolverRunner {
  import opened Permutations
  import opened Dominance
  import opened Matching
  import opened Jacobi

  /** The most sweeps the solver makes before it gives up. */
  const MAX_ITERATION: int := 1000000

  /** How a run of the solver ends. */
  datatype Outcome =
    | DominanceUnattainable
    | IterationCapExceeded
    | Solved(iterations: int)

  /** A perfect matching of the eligibility lists is an arrangement of the rows, and back. */
  lemma MatchableIffArrangeable(rows: seq<seq<real>>, n: nat)
    requires Shape(rows, n)
    ensures PerfectMatchable(EligibilityLists(rows, n), n) <==> Arrangeable(rows, n)
  {
    var g := EligibilityLists(rows, n);
    if PerfectMatchable(g, n) {
      var q :| PerfectIn(g, q, n);
      assert forall c :: 0 <= c < n ==> Eligible(rows[q[c]], c);
    }
    if Arrangeable(rows, n) {
      var q :| IsPermutation(q, n) && forall c :: 0 <= c < n ==> Eligible(rows[q[c]], c);
      assert PerfectIn(g, q, n);
    }
  }

  /** The eligibility lists only name positions 0 .. n-1. */
  lemma ListsAreGraph(rows: seq<seq<real>>, n: nat)
    requires Shape(rows, n)
    ensures Graph(EligibilityLists(rows, n), n)
  {
    var g := EligibilityLists(rows, n);
    forall r, k | 0 <= r < n && 0 <= k < |g[r]| ensures 0 <= g[r][k] < n {
      assert g[r][k] in Candidates(rows[r], n);
    }
  }

  /**
   * A matching of the eligibility lists that leaves no position free puts
   * every row at an eligible position; one exists exactly when the rows can
   * be arranged.
   */
  lemma ArrangementFromMatching(rows: seq<seq<real>>, mt: seq<int>, n: nat)
    requires Shape(rows, n) && |mt| == n
    requires Consistent(EligibilityLists(rows, n), mt) && RowsDistinct(mt)
    requires -1 !in mt <==> PerfectMatchable(EligibilityLists(rows, n), n)
    ensures -1 !in mt <==> Arrangeable(rows, n)
    ensures -1 !in mt ==> IsPermutation(mt, n)
    ensures -1 !in mt ==> forall i :: 0 <= i < n ==> Eligible(rows[mt[i]], i)
  {
    var g := EligibilityLists(rows, n);
    MatchableIffArrangeable(rows, n);
    if -1 !in mt {
      FullMatchingPerfect(g, mt);
      forall i | 0 <= i < n ensures Eligible(rows[mt[i]], i) {
        assert i in g[mt[i]];
      }
    }
  }

  /**
   * rows is rows0 with row c replaced by row mt[c] of rows0 for every
   * position c before the first free one.
   */
  predicate ReorderedUpTo(rows0: seq<seq<real>>, rows: seq<seq<real>>, mt: seq<int>)
  {
    |mt| == |rows0| && (forall c :: 0 <= c < |mt| ==> -1 <= mt[c] < |rows0|) &&
    rows == Permute(rows0, mt[..FirstFree(mt)]) + rows0[FirstFree(mt)..]
  }

  /** Reordering by a matching with no free position is the full permutation. */
  lemma ReorderedFully(rows0: seq<seq<real>>, rows: seq<seq<real>>, mt: seq<int>)
    requires ReorderedUpTo(rows0, rows, mt) && -1 !in mt
    ensures rows == Permute(rows0, mt)
    ensures forall i :: 0 <= i < |mt| ==> rows[i] == rows0[mt[i]]
  {
  }

  /**
   * What the three phases of the row matcher give together: success exactly
   * when the rows can be arranged, and then the rows reordered by a
   * permutation that puts every row at an eligible position.
   */
  lemma MatcherOutcome(rows: seq<seq<real>>, g: seq<seq<int>>, mt: seq<int>,
                       arranged: seq<seq<real>>, ok: bool, n: nat)
    requires Shape(rows, n) && g == EligibilityLists(rows, n) && |mt| == n
    requires Consistent(g, mt) && RowsDistinct(mt)
    requires -1 !in mt <==> PerfectMatchable(g, n)
    requires ReorderedUpTo(rows, arranged, mt)
    requires ok <==> FirstFree(mt) == n
    ensures ok <==> Arrangeable(rows, n)
    ensures ok ==> IsPermutation(mt, n)
    ensures ok ==> arranged == Permute(rows, mt)
    ensures ok ==> multiset(arranged) == multiset(rows)
    ensures ok ==> forall i :: 0 <= i < n ==> Eligible(arranged[i], i)
  {
    ArrangementFromMatching(rows, mt, n);
    if ok {
      ReorderedFully(rows, arranged, mt);
      PermuteMultiset(rows, mt);
    }
  }

  /**
   * When every row has a nonzero coefficient, an arrangement that puts every
   * row at an eligible position leaves a nonzero diagonal.
   */
  lemma ArrangedDiagonalNonzero(rows: seq<seq<real>>, q: seq<int>, n: nat)
    requires Shape(rows, n) && NoZeroRow(rows, n) && IsPermutation(q, n)
    requires forall c :: 0 <= c < n ==> Eligible(rows[q[c]], c)
    ensures Shape(Permute(rows, q), n)
    ensures NonzeroDiagonal(Permute(rows, q), n)
  {
    var p := Permute(rows, q);
    forall c | 0 <= c < n ensures p[c][c] != 0.0 {
      var row := rows[q[c]];
      var k :| 0 <= k < n && row[k] != 0.0;
      EligiblePivotNonzero(row, c, k);
    }
  }

  /**
   * c is the fixed-point form of rows0 after a reordering that puts every
   * row at an eligible position and leaves a nonzero diagonal.
   */
  ghost predicate Prepared(rows0: seq<seq<real>>, c: seq<seq<real>>, n: nat)
    requires Shape(rows0, n)
  {
    exists q :: IsPermutation(q, n) &&
      (forall i :: 0 <= i < n ==> Eligible(rows0[q[i]], i)) &&
      NonzeroDiagonal(Permute(rows0, q), n) &&
      c == Normalized(Permute(rows0, q), n)
  }

  lemma PreparedFrom(rows0: seq<seq<real>>, q: seq<int>, n: nat)
    requires Shape(rows0, n) && NoZeroRow(rows0, n) && IsPermutation(q, n)
    requires forall c :: 0 <= c < n ==> Eligible(rows0[q[c]], c)
    ensures Shape(Permute(rows0, q), n) && NonzeroDiagonal(Permute(rows0, q), n)
    ensures Prepared(rows0, Normalized(Permute(rows0, q), n), n)
  {
    ArrangedDiagonalNonzero(rows0, q, n);
  }

  /**
   * The row matcher. It reads the solver's matrix, builds for every row the
   * list of its eligible diagonal positions, matches rows to positions, and
   * on success reorders the matrix rows by the matching.
   */
  class Kuhn {
    const matrix: array<seq<real>>
    /** g[r]: the eligible diagonal positions of row r, ascending. */
    var g: seq<seq<int>>
    /** mt[c]: the row matched to diagonal position c, or -1. */
    const mt: array<int>
    /** used[r]: row r was visited by the current augmenting search. */
    const used: array<bool>

    constructor (matrix: array<seq<real>>)
      ensures this.matrix == matrix && g == []
      ensures fresh(mt) && fresh(used)
      ensures mt.Length == matrix.Length && used.Length == matrix.Length
    {
      this.matrix := matrix;
      g := [];
      mt := new int[matrix.Length](_ => 0);
      used := new bool[matrix.Length](_ => false);
    }

    /**
     * Looks for an augmenting path from row v that visits only rows not yet
     * used. On success every column keeps a row that lists it, the free
     * columns lose one and v joins the matched rows; columns held by v or by
     * a row visited before the call keep their row. On failure the matching
     * is unchanged and every row the search visited has all its columns held
     * by visited rows.
     */
    method TryKuhn(v: int) returns (found: bool)
      requires mt.Length == |g| && used.Length == |g| && Graph(g, |g|)
      requires 0 <= v < |g|
      requires Consistent(g, mt[..])
      modifies mt, used
      decreases Unused(used[..])
      ensures Consistent(g, mt[..])
      ensures used[v] && Grows(old(used[..]), used[..])
      ensures old(used[v]) ==> !found && used[..] == old(used[..])
      ensures !found ==> mt[..] == old(mt[..]) && NewlyBlocked(g, mt[..], old(used[..]), used[..])
      ensures found ==> Augmented(old(mt[..]), mt[..], v) && Keeps(old(mt[..]), mt[..], old(used[..]), v)
    {
      if used[v] {
        return false;
      }
      used[v] := true;
      ghost var base := used[..];
      var i := 0;
      while i < |g[v]|
        invariant 0 <= i <= |g[v]|
        invariant mt[..] == old(mt[..])
        invariant used[v] && Grows(base, used[..])
        invariant NewlyBlocked(g, mt[..], base, used[..])
        invariant BlockedBefore(g, mt[..], used[..], v, i)
      {
        var to := g[v][i];
        if mt[to] == -1 {
          ghost var m := mt[..];
          mt[to] := v;
          AugmentDirect(g, m, old(used[..]), v, to);
          assert mt[..] == m[to := v];
          return true;
        }
        var w := mt[to];
        ghost var usedBefore := used[..];
        UnusedShrinks(old(used[..]), usedBefore, v);
        var ok := TryKuhn(w);
        if ok {
          ghost var m := mt[..];
          mt[to] := v;
          AugmentVia(g, old(mt[..]), m, old(used[..]), usedBefore, v, w, to);
          assert mt[..] == m[to := v];
          return true;
        }
        NewlyBlockedTrans(g, mt[..], base, usedBefore, used[..]);
        BlockedBeforeStep(g, mt[..], usedBefore, used[..], v, i);
        i := i + 1;
      }
      NewlyBlockedClose(g, mt[..], old(used[..]), used[..], v);
      return false;
    }

    /**
     * Builds the eligibility lists, runs an augmenting search from every row,
     * and reorders the matrix rows by the matching. Succeeds exactly when the
     * rows can be arranged with every row eligible at its own position; on
     * failure the rows before the first free position have been moved.
     */
    method DiagDominance() returns (ok: bool)
      requires mt.Length == matrix.Length && used.Length == matrix.Length
      requires Shape(matrix[..], matrix.Length) && g == []
      modifies this, mt, used, matrix
      ensures g == EligibilityLists(old(matrix[..]), matrix.Length)
      ensures Consistent(g, mt[..]) && RowsDistinct(mt[..])
      ensures ReorderedUpTo(old(matrix[..]), matrix[..], mt[..])
      ensures ok <==> FirstFree(mt[..]) == matrix.Length
      ensures ok <==> Arrangeable(old(matrix[..]), matrix.Length)
      ensures ok ==> IsPermutation(mt[..], matrix.Length)
      ensures ok ==> matrix[..] == Permute(old(matrix[..]), mt[..])
      ensures ok ==> multiset(matrix[..]) == multiset(old(matrix[..]))
      ensures ok ==> forall i :: 0 <= i < matrix.Length ==> Eligible(matrix[i], i)
    {
      ghost var rows := matrix[..];
      BuildGraph();
      ListsAreGraph(rows, matrix.Length);
      MatchRows();
      ghost var m := mt[..];
      ok := ApplyMatching();
      assert mt[..] == m;
      MatcherOutcome(rows, g, m, matrix[..], ok, matrix.Length);
    }

    /** The first phase: g[r] becomes the eligible positions of row r, ascending. */
    method BuildGraph()
      requires Shape(matrix[..], matrix.Length) && g == []
      modifies this
      ensures g == EligibilityLists(matrix[..], matrix.Length)
    {
      var n := matrix.Length;
      for i := 0 to n
        invariant |g| == i
        invariant forall r :: 0 <= r < i ==> g[r] == Candidates(matrix[r], n)
      {
        var possible := EligiblePositions(i);
        g := g + [possible];
      }
    }

    /** The eligible diagonal positions of row i, ascending. */
    method EligiblePositions(i: int) returns (possible: seq<int>)
      requires Shape(matrix[..], matrix.Length) && 0 <= i < matrix.Length
      ensures forall c :: c in possible <==> 0 <= c < matrix.Length && Eligible(matrix[i], c)
      ensures forall a, b :: 0 <= a < b < |possible| ==> possible[a] < possible[b]
      ensures possible == Candidates(matrix[i], matrix.Length)
    {
      var n := matrix.Length;
      var row := matrix[i];
      possible := [];
      var sum := Mass(row);
      for j := 0 to n
        invariant possible == Candidates(row, j)
      {
        if sum - 2.0 * Abs(row[j]) <= 0.0 {
          possible := possible + [j];
        }
      }
    }

    /**
     * The second phase: every column starts free, then one augmenting search
     * runs from each row in turn with no row visited. The result leaves a
     * free column exactly when no perfect matching exists.
     */
    method MatchRows()
      requires mt.Length == |g| && used.Length == |g| && Graph(g, |g|)
      modifies mt, used
      ensures Consistent(g, mt[..]) && RowsDistinct(mt[..])
      ensures -1 !in mt[..] <==> PerfectMatchable(g, |g|)
    {
      forall i | 0 <= i < mt.Length {
        mt[i] := -1;
      }
      SearchStart(g, mt[..]);
      for v := 0 to |g|
        invariant SearchedUpTo(g, mt[..], v)
      {
        ghost var before := mt[..];
        forall i | 0 <= i < used.Length {
          used[i] := false;
        }
        ghost var cleared := used[..];
        assert mt[..] == before;
        var found := TryKuhn(v);
        if found {
          SearchFound(g, before, mt[..], v);
        } else {
          SearchStuck(g, mt[..], cleared, used[..], v);
        }
      }
      SearchDone(g, mt[..]);
    }

    /**
     * The third phase: row i becomes the old row mt[i], until the first free
     * position, where it stops and reports failure.
     */
    method ApplyMatching() returns (ok: bool)
      requires mt.Length == matrix.Length
      requires forall c :: 0 <= c < mt.Length ==> -1 <= mt[c] < matrix.Length
      modifies matrix
      ensures ok <==> FirstFree(mt[..]) == matrix.Length
      ensures ReorderedUpTo(old(matrix[..]), matrix[..], mt[..])
    {
      var copy := matrix[..];
      for i := 0 to matrix.Length
        invariant forall k :: 0 <= k < i ==> mt[k] != -1 && matrix[k] == copy[mt[k]]
        invariant forall k :: i <= k < matrix.Length ==> matrix[k] == copy[k]
      {
        if mt[i] == -1 {
          assert matrix[..] == Permute(copy, mt[..i]) + copy[i..];
          return false;
        }
        matrix[i] := copy[mt[i]];
      }
      assert matrix[..] == Permute(copy, mt[..matrix.Length]) + copy[matrix.Length..];
      return true;
    }
  }

  /**
   * The solver state: the number of unknowns, the tolerance, the augmented
   * matrix (rows of n + 1 entries), and the solution and error vectors the
   * iteration fills in.
   */
  class Solver {
    const n: nat
    const eps: real
    const matrix: array<seq<real>>
    var solution: array<real>
    var error: array<real>

    /** The state after reading eps, n and the matrix rows. */
    constructor (n: nat, eps: real, rows: seq<seq<real>>)
      requires 0 < n <= 20 && Shape(rows, n)
      ensures this.n == n && this.eps == eps
      ensures fresh(matrix) && matrix[..] == rows
      ensures solution.Length == 0 && error.Length == 0
    {
      this.n := n;
      this.eps := eps;
      matrix := new seq<real>[n](i requires 0 <= i < n => rows[i]);
      solution := new real[0];
      error := new real[0];
    }

    /**
     * Rewrites every row i into fixed-point form: every entry divided by the
     * negated pivot, the pivot position cleared and the right-hand side
     * negated back.
     */
    method ModifyMatrix()
      requires matrix.Length == n && Shape(matrix[..], n) && NonzeroDiagonal(matrix[..], n)
      modifies matrix
      ensures Shape(matrix[..], n)
      ensures matrix[..] == Normalized(old(matrix[..]), n)
    {
      for i := 0 to matrix.Length
        invariant forall k :: 0 <= k < i ==> matrix[k] == NormalizedRow(old(matrix[k]), k)
        invariant forall k :: i <= k < n ==> matrix[k] == old(matrix[k])
      {
        var a := matrix[i];
        var row := seq(n + 1, j requires 0 <= j < n + 1 => -a[j] / a[i]);
        row := row[i := 0.0];
        row := row[n := row[n] * -1.0];
        forall j | 0 <= j < n + 1 ensures row[j] == NormalizedRow(a, i)[j] {
          if j == n {
            assert row[n] == (-a[n] / a[i]) * -1.0;
          }
        }
        assert row == NormalizedRow(a, i);
        matrix[i] := row;
      }
    }

    /** The start vector: the right-hand-side column of the fixed-point form. */
    method InitSolution(matrix: array<seq<real>>) returns (solution: array<real>)
      requires Shape(matrix[..], matrix.Length)
      ensures fresh(solution)
      ensures solution[..] == Rhs(matrix[..], matrix.Length)
    {
      solution := new real[matrix.Length];
      for i := 0 to matrix.Length
        invariant forall k :: 0 <= k < i ==> solution[k] == matrix[k][matrix.Length]
      {
        solution[i] := matrix[i][matrix.Length];
      }
    }

    /**
     * Sweeps until a sweep changes no unknown by eps or more, or until
     * MAX_ITERATION sweeps are done. Returns the number of sweeps; solution
     * holds the last iterate and error the changes made by the last sweep.
     */
    method Iterate() returns (count: int)
      requires matrix.Length == n && Shape(matrix[..], n) && solution.Length == n
      modifies this, solution
      ensures solution == old(solution) && fresh(error) && error.Length == n
      ensures Stopped(matrix[..], old(solution[..]), eps, MAX_ITERATION, count, solution[..], error[..])
    {
      error := new real[solution.Length](_ => 0.0);
      count := SweepUntilSettled();
    }

    /**
     * The loop of the iteration: sweeps while fewer than MAX_ITERATION sweeps
     * are done and the last sweep, if any, changed some unknown by eps or more.
     */
    method SweepUntilSettled() returns (count: int)
      requires matrix.Length == n && Shape(matrix[..], n)
      requires solution.Length == n && error.Length == n && solution != error
      modifies solution, error
      ensures Stopped(matrix[..], old(solution[..]), eps, MAX_ITERATION, count, solution[..], error[..])
    {
      ghost var c := matrix[..];
      ghost var x0 := solution[..];
      var currentIter := 0;
      // measured is false while maxEps still stands for Double.MAX_VALUE
      var measured := false;
      var maxEps := 0.0;
      while currentIter < MAX_ITERATION && (!measured || maxEps >= eps)
        invariant 0 <= currentIter <= MAX_ITERATION
        invariant measured <==> currentIter > 0
        invariant IteratedTo(c, x0, eps, currentIter, solution[..], error[..], maxEps)
        decreases MAX_ITERATION - currentIter
      {
        ghost var x := solution[..];
        IteratedStep(c, x0, eps, currentIter, x, error[..], maxEps);
        var currentMaxEps := SweepOnce();
        assert solution[..] == Sweep(c, x) && error[..] == Deltas(c, x);
        assert IteratedTo(c, x0, eps, currentIter + 1, solution[..], error[..], currentMaxEps);
        maxEps := currentMaxEps;
        measured := true;
        currentIter := currentIter + 1;
      }
      count := currentIter;
      IteratedExit(c, x0, eps, count, solution[..], error[..], maxEps, MAX_ITERATION);
    }

    /**
     * One sweep: every unknown gets its new value from a snapshot of the
     * old ones, error records how far each moved, and the result is the
     * largest move, kept as a running maximum from 0.
     */
    method SweepOnce() returns (currentMaxEps: real)
      requires matrix.Length == n && Shape(matrix[..], n)
      requires solution.Length == n && error.Length == n && solution != error
      modifies solution, error
      ensures solution[..] == Sweep(matrix[..], old(solution[..]))
      ensures error[..] == Deltas(matrix[..], old(solution[..]))
      ensures currentMaxEps == MaxOf(error[..])
    {
      ghost var c := matrix[..];
      currentMaxEps := 0.0;
      var currentSolution := solution[..];
      for i := 0 to |currentSolution|
        invariant SweptUpTo(c, currentSolution, solution[..], error[..], i)
        invariant currentMaxEps == MaxOf(Deltas(c, currentSolution)[..i])
      {
        var newValue := NewValue(i, currentSolution);
        SweptStep(c, currentSolution, solution[..], error[..], i);
        MaxOfStep(Deltas(c, currentSolution), i);
        error[i] := Abs(newValue - solution[i]);
        if error[i] > currentMaxEps {
          currentMaxEps := error[i];
        }
        solution[i] := newValue;
      }
      SweptAll(c, currentSolution, solution[..], error[..]);
      assert Deltas(c, currentSolution)[..n] == error[..];
    }

    /**
     * The value one sweep gives unknown i: the other unknowns of the
     * snapshot weighted by row i, plus the row's constant term.
     */
    method NewValue(i: int, currentSolution: seq<real>) returns (newValue: real)
      requires matrix.Length == n && Shape(matrix[..], n) && |currentSolution| == n && 0 <= i < n
      ensures newValue == Update(matrix[i], currentSolution, i)
    {
      newValue := 0.0;
      for j := 0 to |currentSolution|
        invariant newValue == SumExcept(matrix[i], currentSolution, i, j)
      {
        if i == j {
          continue;
        }
        newValue := newValue + matrix[i][j] * currentSolution[j];
      }
      newValue := newValue + matrix[i][matrix.Length];
    }

    /**
     * The solver's run after the input is read: match rows to diagonal
     * positions and give up if that fails, otherwise solve the arranged
     * system.
     */
    method Run() returns (outcome: Outcome)
      requires matrix.Length == n && Shape(matrix[..], n)
      requires Arrangeable(matrix[..], n) ==> NoZeroRow(matrix[..], n)
      modifies this, matrix
      ensures outcome == DominanceUnattainable <==> !Arrangeable(old(matrix[..]), n)
      ensures outcome != DominanceUnattainable ==> Prepared(old(matrix[..]), matrix[..], n)
      ensures outcome != DominanceUnattainable ==> solution.Length == n && error.Length == n
      ensures outcome.Solved? ==> 1 <= outcome.iterations < MAX_ITERATION
      ensures outcome.Solved? ==>
                solution[..] == Iterates(matrix[..], Rhs(matrix[..], n), outcome.iterations)
      ensures outcome.Solved? ==> forall i :: 0 <= i < n ==> error[i] < eps
      ensures outcome == IterationCapExceeded ==>
                forall k :: 0 <= k < MAX_ITERATION - 1 ==>
                  !Settled(matrix[..], Iterates(matrix[..], Rhs(matrix[..], n), k), eps)
      ensures outcome.Solved? ==>
                Stopped(matrix[..], Rhs(matrix[..], n), eps, MAX_ITERATION, outcome.iterations,
                        solution[..], error[..])
      ensures outcome == IterationCapExceeded ==>
                Stopped(matrix[..], Rhs(matrix[..], n), eps, MAX_ITERATION, MAX_ITERATION,
                        solution[..], error[..])
    {
      ghost var rows := matrix[..];
      var kuhn := new Kuhn(matrix);
      var ok := kuhn.DiagDominance();
      if !ok {
        return DominanceUnattainable;
      }
      ghost var q := kuhn.mt[..];
      PreparedFrom(rows, q, n);
      outcome := SolveArranged();
    }

    /**
     * The rest of the run, once the rows are arranged: normalise, start from
     * the right-hand side and iterate; hitting the cap counts as a failure.
     */
    method SolveArranged() returns (outcome: Outcome)
      requires matrix.Length == n && Shape(matrix[..], n) && NonzeroDiagonal(matrix[..], n)
      modifies this, matrix
      ensures matrix[..] == Normalized(old(matrix[..]), n)
      ensures outcome != DominanceUnattainable
      ensures solution.Length == n && error.Length == n
      ensures outcome.Solved? ==> 1 <= outcome.iterations < MAX_ITERATION
      ensures outcome.Solved? ==>
                solution[..] == Iterates(matrix[..], Rhs(matrix[..], n), outcome.iterations)
      ensures outcome.Solved? ==> forall i :: 0 <= i < n ==> error[i] < eps
      ensures outcome == IterationCapExceeded ==>
                forall k :: 0 <= k < MAX_ITERATION - 1 ==>
                  !Settled(matrix[..], Iterates(matrix[..], Rhs(matrix[..], n), k), eps)
      ensures outcome.Solved? ==>
                Stopped(matrix[..], Rhs(matrix[..], n), eps, MAX_ITERATION, outcome.iterations,
                        solution[..], error[..])
      ensures outcome == IterationCapExceeded ==>
                Stopped(matrix[..], Rhs(matrix[..], n), eps, MAX_ITERATION, MAX_ITERATION,
                        solution[..], error[..])
    {
      ModifyMatrix();
      ghost var c := matrix[..];
      solution := InitSolution(matrix);
      ghost var x0 := solution[..];
      var iterations := Iterate();
      assert matrix[..] == c && x0 == Rhs(c, n);
      if iterations == MAX_ITERATION {
        return IterationCapExceeded;
      }
      return Solved(iterations);
    }
  }
}

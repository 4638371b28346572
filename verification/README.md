# Jacobi solver with row reordering by Kuhn matching

The first laboratory of the repository solves a system of n linear equations
(n at most 20) given as an augmented matrix of n rows with n + 1 entries each.
It works in two stages.

**Reordering the rows.** A row may sit at diagonal position j when twice
|a[j]| is at least the row's coefficient mass: the sum of the magnitudes of
its first n entries. The solver builds, for every row, the list of positions
it may take. It then runs Kuhn's augmenting-path matching between rows and
positions. If some position stays free, it gives up. Otherwise it reorders
the rows so that new row i is old row `mt[i]`.

**Iterating.** The reordered system is rewritten in fixed-point form,
`x_i = sum over j != i of (-a[i][j] / a[i][i]) x_j + a[i][n] / a[i][i]`. The
solver starts from the right-hand side of that form and sweeps
synchronously: every new value is computed from a snapshot of the old ones.
It stops once no unknown moves by eps or more, or after `MAX_ITERATION`
(1000000) sweeps. If it stops at the cap, it reports failure.

The model has five modules:

- `Permutations`: index permutations, reordering a sequence by one, and the
  counting facts the matching proof needs.
- `Dominance`: the eligibility test and the per-row candidate lists.
- `Matching`: matchings in the program's own representation (`mt` indexed
  by column, -1 for a free column; `used` indexed by row). It also holds the
  maximality argument: a failed search from a free row exhibits a set of rows
  with too few usable columns.
- `Jacobi`: the fixed-point form, the sweep, the iterates and the stopping
  rule, all as functions on values.
- `SolverRunner`: the two classes of the program.
  - `Kuhn` is a class over the matrix array with the `mt` and `used` arrays
    and the list field `g`.
  - `Solver` is a class with the matrix array and the `solution` and `error`
    arrays.

Both classes' methods are proved against the functions of the other modules.

Numbers are Dafny `real`. Rows of the matrix are `seq<real>` values held in
an `array<seq<real>>`, so assigning a row replaces it as the program does.

Where a natural reading of the algorithm and the code differ, the model
follows the code:

- A row whose coefficients are all zero is eligible at every position
  (`Dominance.ZeroRowEligible`).
- The test is not strict, so two equal rows with coefficients 1, 1 and right-hand side 2 can be arranged
  (`Dominance.EqualRowsArrangeable`).
- The start vector is the right-hand side of the fixed-point form, not a
  constant. Starting there is the same as one sweep from zero
  (`Jacobi.SweepFromZero`).
- When the cap is reached, the run reports failure even if the last sweep
  settled. The contract of `SolverRunner.Solver.Run` promises nothing about
  that last sweep.
- After a failed match, the rows before the first free position have
  already been overwritten (`SolverRunner.ReorderedUpTo`). There is no
  promise that the result is a permutation of the input.

## Model

| member | source | states |
|---|---|---|
| `Dominance.Mass` | lab1/src/ru/rosroble/SolverRunner.java:156 | the magnitude sum of all entries minus that of the right-hand side equals the magnitude sum of the n coefficients, and is non-negative |
| `Dominance.Candidates` | lab1/src/ru/rosroble/SolverRunner.java:155-159 | a position c is in a row's list iff 0 <= c < n and the row is eligible at c; the list is strictly ascending |
| `Dominance.ZeroRowEligible` | lab1/src/ru/rosroble/SolverRunner.java:156-158 | a row with all coefficients zero is eligible at every diagonal position |
| `Dominance.EligiblePivotNonzero` | lab1/src/ru/rosroble/SolverRunner.java:158 | a row with some nonzero coefficient has a nonzero entry at every position where it is eligible |
| `Dominance.ZeroRowUnarrangeable` | lab1/src/ru/rosroble/SolverRunner.java:156-158 | the system [0, 0, 0 \| 0], [1, 0, 0 \| 1], [1, 0, 0 \| 1] has a zero row yet cannot be arranged, since only the zero row is eligible at positions 1 and 2 |
| `Dominance.EqualRowsArrangeable` | lab1/src/ru/rosroble/SolverRunner.java:158 | the non-strict test lets a system of two equal rows, coefficients 1 and 1 and right-hand side 2, be arranged |
| `SolverRunner.Kuhn.constructor` | lab1/src/ru/rosroble/SolverRunner.java:148-150 | `g` starts empty; `mt` and `used` are fresh arrays with one slot per matrix row |
| `SolverRunner.Kuhn.BuildGraph` | lab1/src/ru/rosroble/SolverRunner.java:154-161 | starting from the empty `g` of a fresh matcher, `g` becomes the list of eligible positions of every row, in row order |
| `SolverRunner.Kuhn.EligiblePositions` | lab1/src/ru/rosroble/SolverRunner.java:155-159 | the list built for row i holds exactly its eligible positions, ascending |
| `SolverRunner.Kuhn.TryKuhn` | lab1/src/ru/rosroble/SolverRunner.java:179-190 | terminates (the set of unvisited rows shrinks); marks v visited; keeps every matched pair an edge. On success: one free column fewer, v matched, every other row matched as often as before, and no matched column freed. Columns held by v or by rows visited earlier keep their row. On failure: `mt` unchanged and every newly visited row has all its columns held by visited rows |
| `SolverRunner.Kuhn.MatchRows` | lab1/src/ru/rosroble/SolverRunner.java:163-166 | after all columns start free (line 153) and one search runs from each row with `used` reset: every pair is an edge, no row is matched twice, and some column is free iff no perfect matching exists |
| `SolverRunner.Kuhn.ApplyMatching` | lab1/src/ru/rosroble/SolverRunner.java:168-176 | returns true iff no column is free; rows before the first free column become the old rows `mt[i]`, the rest stay |
| `SolverRunner.Kuhn.DiagDominance` | lab1/src/ru/rosroble/SolverRunner.java:152-177 | succeeds iff some reordering puts every row at an eligible position. On success `mt` is a permutation, new row i is old row `mt[i]`, each old row appears exactly once, and every new row i is eligible at i |
| `Matching.FirstFree` | lab1/src/ru/rosroble/SolverRunner.java:170-173 | the index where the reordering loop stops: every earlier column is matched, that column is free, and it equals n iff no column is free |
| `Matching.AugmentDirect` | lab1/src/ru/rosroble/SolverRunner.java:184-186 | matching a free listed column to v is an augmentation that keeps consistency and every other column |
| `Matching.AugmentVia` | lab1/src/ru/rosroble/SolverRunner.java:184-186 | taking column `to` for v after its row w found another column is an augmentation by v |
| `Matching.NewlyBlockedClose` | lab1/src/ru/rosroble/SolverRunner.java:182-189 | when every column of v is held by a visited row, every row the failed search visited is blocked |
| `Matching.StuckSearchRefutesPerfect` | lab1/src/ru/rosroble/SolverRunner.java:179-190 | Kuhn maximality: a failed search from a free row, leaving every visited row blocked, proves that no perfect matching exists |
| `Matching.SearchFound` | lab1/src/ru/rosroble/SolverRunner.java:163-166 | a successful search from row v keeps the matching consistent with distinct rows and, if a perfect matching exists, leaves n - v - 1 columns free |
| `Matching.SearchStuck` | lab1/src/ru/rosroble/SolverRunner.java:163-166 | a failed search from row v, started with no row visited, proves that no perfect matching exists |
| `Matching.SearchDone` | lab1/src/ru/rosroble/SolverRunner.java:163-166 | after a search from every row, a column is free iff no perfect matching exists |
| `Matching.FullMatchingPerfect` | lab1/src/ru/rosroble/SolverRunner.java:170-176 | a consistent matching with distinct rows and no free column is a permutation placing every row at a listed column |
| `SolverRunner.MatchableIffArrangeable` | lab1/src/ru/rosroble/SolverRunner.java:154-166 | a perfect matching of the eligibility lists exists iff the rows can be reordered with every row eligible at its position |
| `SolverRunner.ReorderedFully` | lab1/src/ru/rosroble/SolverRunner.java:170-175 | once no column is free, the partial reordering is the whole reordering by `mt` |
| `SolverRunner.MatcherOutcome` | lab1/src/ru/rosroble/SolverRunner.java:152-177 | the three phases together: success iff arrangeable; then a permutation, the same multiset of rows, every row eligible at its position |
| `Permutations.PermuteMultiset` | lab1/src/ru/rosroble/SolverRunner.java:168-176 | reordering rows by a permutation keeps every row, as often as before |
| `Permutations.PermutationOnto` | lab1/src/ru/rosroble/SolverRunner.java:170-175 | a permutation of 0 .. n-1 takes every value, so every old row is placed |
| `SolverRunner.ArrangedDiagonalNonzero` | lab1/src/ru/rosroble/SolverRunner.java:100-105 | when no row is all zero, an arrangement with every row eligible at its position leaves a nonzero diagonal, so the normalisation's divisors are nonzero |
| `SolverRunner.Solver.constructor` | lab1/src/ru/rosroble/SolverRunner.java:66-86 | the state after input: eps, n with 0 < n <= 20, and an n-row matrix of n + 1 entries per row |
| `SolverRunner.Solver.ModifyMatrix` | lab1/src/ru/rosroble/SolverRunner.java:100-109 | every row i becomes its fixed-point row: -a[j]/a[i] off the diagonal, 0 on it, a[n]/a[i] at the end, all divided by the original pivot |
| `Jacobi.NormalizedIsScaled` | lab1/src/ru/rosroble/SolverRunner.java:101-108 | the fixed-point row times the pivot gives back minus the coefficients and the right-hand side, with zero on the diagonal |
| `Jacobi.RowFixedPoint` | lab1/src/ru/rosroble/SolverRunner.java:101-108 | a fixed-point row leaves x_i unchanged iff x satisfies equation i |
| `Jacobi.FixedPointIffSolution` | lab1/src/ru/rosroble/SolverRunner.java:100-109 | a vector is unchanged by a sweep over the normalised matrix iff it solves the original system |
| `SolverRunner.Solver.InitSolution` | lab1/src/ru/rosroble/SolverRunner.java:111-117 | returns a fresh vector holding the last column of the matrix |
| `Jacobi.SweepFromZero` | lab1/src/ru/rosroble/SolverRunner.java:114 | the start vector is one sweep from zero, so k sweeps from it are k + 1 sweeps from zero |
| `SolverRunner.Solver.NewValue` | lab1/src/ru/rosroble/SolverRunner.java:127-132 | the new value of unknown i is the row's weighted sum of the other snapshot values plus its constant term |
| `SolverRunner.Solver.SweepOnce` | lab1/src/ru/rosroble/SolverRunner.java:124-138 | one sweep from the snapshot: `solution` becomes the sweep of the old vector, `error[i]` is how far unknown i moved, and the result is their running maximum from 0 |
| `Jacobi.SweptStep` | lab1/src/ru/rosroble/SolverRunner.java:133-136 | writing unknown i leaves the unknowns after i at their snapshot values, so later updates read the snapshot |
| `Jacobi.MaxOfBelow` | lab1/src/ru/rosroble/SolverRunner.java:122-134 | the running maximum from 0 is below eps iff eps is positive and every error is below eps |
| `Jacobi.IteratedStep` | lab1/src/ru/rosroble/SolverRunner.java:122-139 | a sweep taken because the last one had not settled extends the record: no earlier sweep settled |
| `Jacobi.IteratedExit` | lab1/src/ru/rosroble/SolverRunner.java:122-141 | leaving the loop below the cap means the last sweep settled and every error is below eps |
| `SolverRunner.Solver.SweepUntilSettled` | lab1/src/ru/rosroble/SolverRunner.java:122-140 | returns a count between 1 and `MAX_ITERATION`; `solution` is that many sweeps from the start and `error` the last sweep's changes; no earlier sweep settled; below the cap the last sweep settled and every error is below eps |
| `SolverRunner.Solver.Iterate` | lab1/src/ru/rosroble/SolverRunner.java:119-141 | allocates `error`, then gives the outcome stated for the loop |
| `SolverRunner.Solver.SolveArranged` | lab1/src/ru/rosroble/SolverRunner.java:39-48 | normalises, starts from the right-hand side and iterates. A count below the cap is success: the count is the first sweep that settled, the solution is that many sweeps from the start, and `error` holds that sweep's changes, each below eps. Hitting the cap is failure: none of the first `MAX_ITERATION` - 1 sweeps settled, and `solution` and `error` hold the last sweep and its changes |
| `SolverRunner.Solver.Run` | lab1/src/ru/rosroble/SolverRunner.java:33-48 | gives up iff the rows cannot be arranged; otherwise the matrix is the fixed-point form of an arrangement of the input rows, and the outcome is as in `SolveArranged`: on success the reported count is the first settled sweep and the reported `error` is that sweep's changes |

## Left out

- Console and file input, parsing and printing (`main`, `init`, `readMatrix`, `printMatrix`, `printIfConsole`, and the messages in `run`). The constructor of `Solver` takes the values `init` and `readMatrix` would read, including the 0 < n <= 20 bound `init` loops on. It assumes every input line holds exactly n + 1 numbers: `readMatrix` keeps whatever a line parses to, and a shorter row would throw at line 156 while a longer one would add its extra entries to the mass.
- IEEE-754 doubles: rounding, overflow, NaN and infinity. Numbers are exact reals. The initial `Double.MAX_VALUE` of `maxEps` is a flag that forces the first sweep, and the model keeps that for every real eps, including eps equal to `Double.MAX_VALUE`. Only an eps of +Infinity or NaN would stop the Java loop before any sweep, and the model does not capture that.
- `SolverRunner.Solver.ModifyMatrix`: requires a nonzero diagonal. With a zero pivot the Java code divides by zero and yields NaN or infinity, which reals cannot represent.
- `SolverRunner.Solver.Run`: requires only that an arrangeable system has no row with all coefficients zero, for the same reason. Such a row is eligible everywhere (`Dominance.ZeroRowEligible`), and once arranged it would be divided by a zero pivot. A system with a zero row that cannot be arranged is accepted and rejected as at lines 33-35, before any division (`Dominance.ZeroRowUnarrangeable` gives one).
- Convergence of the iteration and any bound on the number of sweeps. The code only caps the loop.
- Row aliasing: `Arrays.copyOf` at line 168 copies row references. Rows are values here, so the model cannot express two matrix slots sharing one row array. After a successful reordering the slots hold distinct old rows, and no old row is changed in place: each row is first replaced by a fresh array (line 103) before lines 106-107 write into it.
- Java streams (lines 103-105, 153, 156, 164) are written as loops, `forall` statements or functions with the same results.
- Some phases are separate methods here: `BuildGraph`, `EligiblePositions`, `MatchRows` and `ApplyMatching` inside `diagDominance`; `SweepUntilSettled`, `SweepOnce` and `NewValue` inside `iterate`; `SolveArranged` inside `run`. They run in the same order as the statements of the Java method. In `MatchRows`, the free-column initialisation of line 153 runs after the lists are built instead of before. The lists do not depend on it.
- The copy of the same solver in the `eqsolver` project, which starts from a constant vector, is not part of this model.

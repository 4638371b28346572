/**
 * The eligibility test of the row matcher. The augmented matrix has n rows of
 * n + 1 entries, the last entry of a row being its right-hand side. A row may
 * be placed at diagonal position j when |a[j]| is at least half of the row's
 * coefficient mass, the sum of the magnitudes of its first n entries.
 */
module Dominance {
  import opened Permutations

  function Abs(x: real): (r: real)
  {
    if x < 0.0 then -x else x
  }

  /** The sum of the magnitudes of the entries of `s`, added from the left. */
  function AbsSum(s: seq<real>): (r: real)
    ensures r >= 0.0
  {
    if s == [] then 0.0 else AbsSum(s[..|s| - 1]) + Abs(s[|s| - 1])
  }

  /** `rows` is an augmented matrix with n rows of n + 1 entries. */
  predicate Shape(rows: seq<seq<real>>, n: nat)
  {
    |rows| == n && forall r :: 0 <= r < n ==> |rows[r]| == n + 1
  }

  /**
   * The coefficient mass of a row, computed as the row matcher computes it:
   * the magnitudes of all entries summed, minus that of the right-hand side.
   * It is the magnitude sum over the coefficient columns alone.
   */
  function Mass(row: seq<real>): (m: real)
    requires |row| > 0
    ensures m == AbsSum(row[..|row| - 1])
    ensures m >= 0.0
  {
    AbsSum(row) - Abs(row[|row| - 1])
  }

  /** Column j is eligible for `row`: mass - 2|row[j]| <= 0. */
  predicate Eligible(row: seq<real>, j: int)
    requires 0 <= j < |row|
  {
    Mass(row) - 2.0 * Abs(row[j]) <= 0.0
  }

  /**
   * The eligible columns of `row` among 0 .. k-1, in increasing order: the list
   * the matcher builds for one row when k is the number of unknowns.
   */
  function Candidates(row: seq<real>, k: nat): (cs: seq<int>)
    requires k < |row|
    ensures forall c :: c in cs <==> 0 <= c < k && Eligible(row, c)
    ensures forall a, b :: 0 <= a < b < |cs| ==> cs[a] < cs[b]
  {
    if k == 0 then []
    else
      var prev := Candidates(row, k - 1);
      assert forall c :: c in prev ==> c < k - 1;
      assert forall a :: 0 <= a < |prev| ==> prev[a] in prev;
      prev + (if Eligible(row, k - 1) then [k - 1] else [])
  }

  /** The eligible positions of every row, as the row matcher lists them. */
  function EligibilityLists(rows: seq<seq<real>>, n: nat): (g: seq<seq<int>>)
    requires Shape(rows, n)
    ensures |g| == n
  {
    seq(n, r requires 0 <= r < n => Candidates(rows[r], n))
  }

  /**
   * The rows can be reordered, new row c being old row q[c], so that every
   * row is eligible at its own diagonal position.
   */
  ghost predicate Arrangeable(rows: seq<seq<real>>, n: nat)
    requires Shape(rows, n)
  {
    exists q :: IsPermutation(q, n) && forall c :: 0 <= c < n ==> Eligible(rows[q[c]], c)
  }

  /** Every row has a nonzero coefficient. */
  ghost predicate NoZeroRow(rows: seq<seq<real>>, n: nat)
    requires Shape(rows, n)
  {
    forall r :: 0 <= r < n ==> exists k :: 0 <= k < n && rows[r][k] != 0.0
  }

  lemma {:induction false} AbsSumOfZeros(s: seq<real>)
    requires forall k :: 0 <= k < |s| ==> s[k] == 0.0
    ensures AbsSum(s) == 0.0
  {
    if s != [] {
      AbsSumOfZeros(s[..|s| - 1]);
    }
  }

  lemma {:induction false} AbsSumAtLeast(s: seq<real>, k: int)
    requires 0 <= k < |s|
    ensures AbsSum(s) >= Abs(s[k])
  {
    if k < |s| - 1 {
      AbsSumAtLeast(s[..|s| - 1], k);
    }
  }

  /** A row whose coefficients are all zero is eligible at every diagonal position. */
  lemma ZeroRowEligible(row: seq<real>, j: int)
    requires 0 <= j < |row| - 1
    requires forall k :: 0 <= k < |row| - 1 ==> row[k] == 0.0
    ensures Eligible(row, j)
  {
    AbsSumOfZeros(row[..|row| - 1]);
  }

  /**
   * An eligible position of a row with some nonzero coefficient holds a
   * nonzero entry, so it can serve as a divisor.
   */
  lemma EligiblePivotNonzero(row: seq<real>, j: int, k: int)
    requires 0 <= j < |row| - 1 && 0 <= k < |row| - 1
    requires row[k] != 0.0
    requires Eligible(row, j)
    ensures row[j] != 0.0
  {
    AbsSumAtLeast(row[..|row| - 1], k);
  }

  /**
   * Two equal rows [1, 1 | 2] can be arranged: the test is not strict, so a
   * row with |a[j]| exactly half its mass is eligible at j.
   */
  lemma EqualRowsArrangeable()
    ensures Shape([[1.0, 1.0, 2.0], [1.0, 1.0, 2.0]], 2)
    ensures Arrangeable([[1.0, 1.0, 2.0], [1.0, 1.0, 2.0]], 2)
  {
    var rows := [[1.0, 1.0, 2.0], [1.0, 1.0, 2.0]];
    var row := rows[0];
    assert row[..2] == [1.0, 1.0];
    assert [1.0, 1.0][..1] == [1.0];
    assert [1.0][..0] == [];
    assert Mass(row) == 2.0;
    assert Eligible(rows[0], 0) && Eligible(rows[1], 1);
    assert IsPermutation([0, 1], 2);
  }

  /**
   * A zero row does not make a system arrangeable: with [0, 0, 0 | 0] and
   * two copies of [1, 0, 0 | 1], only the zero row is eligible at positions
   * 1 and 2, so no reordering exists and the matcher gives up before any
   * division.
   */
  lemma ZeroRowUnarrangeable()
    ensures Shape([[0.0, 0.0, 0.0, 0.0], [1.0, 0.0, 0.0, 1.0], [1.0, 0.0, 0.0, 1.0]], 3)
    ensures !NoZeroRow([[0.0, 0.0, 0.0, 0.0], [1.0, 0.0, 0.0, 1.0], [1.0, 0.0, 0.0, 1.0]], 3)
    ensures !Arrangeable([[0.0, 0.0, 0.0, 0.0], [1.0, 0.0, 0.0, 1.0], [1.0, 0.0, 0.0, 1.0]], 3)
  {
    var rows := [[0.0, 0.0, 0.0, 0.0], [1.0, 0.0, 0.0, 1.0], [1.0, 0.0, 0.0, 1.0]];
    var row := rows[1];
    assert row[..3] == [1.0, 0.0, 0.0];
    assert [1.0, 0.0, 0.0][..2] == [1.0, 0.0];
    assert [1.0, 0.0][..1] == [1.0];
    assert [1.0][..0] == [];
    assert Mass(row) == 1.0;
    assert forall k :: 0 <= k < 3 ==> rows[0][k] == 0.0;
    assert !Eligible(rows[1], 1) && !Eligible(rows[1], 2) && rows[2] == rows[1];
    forall q | IsPermutation(q, 3)
      ensures exists c :: 0 <= c < 3 && !Eligible(rows[q[c]], c)
    {
      // q[1] and q[2] cannot both be the zero row
      if q[1] != 0 {
        assert !Eligible(rows[q[1]], 1);
      } else {
        assert q[2] != 0;
        assert !Eligible(rows[q[2]], 2);
      }
    }
  }
}

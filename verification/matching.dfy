/**
 * Bipartite matchings between the rows and the columns (diagonal positions)
 * of an n-by-n coefficient matrix, in the representation the row matcher
 * uses: adjacency lists `g[r]` of eligible columns per row, and an array
 * `mt` indexed by column holding the matched row or -1 for a free column.
 *
 * The central fact is the one that makes Kuhn's algorithm maximal: when an
 * augmenting search from a free row v fails, the rows it visited are a set
 * whose neighbours are all taken by other visited rows, so there are more
 * visited rows than columns they can use, and no perfect matching exists.
 */
module Matching {
  import opened Permutations

  /** Adjacency lists of n rows, every listed column in 0 .. n-1. */
  predicate Graph(g: seq<seq<int>>, n: nat)
  {
    |g| == n && forall r, k :: 0 <= r < n && 0 <= k < |g[r]| ==> 0 <= g[r][k] < n
  }

  /** Every matched pair is an edge: mt[c] is -1 or a row listing c. */
  predicate Consistent(g: seq<seq<int>>, mt: seq<int>)
  {
    forall c :: 0 <= c < |mt| ==> mt[c] == -1 || (0 <= mt[c] < |g| && c in g[mt[c]])
  }

  /** No row is matched to two columns. */
  predicate RowsDistinct(mt: seq<int>)
  {
    forall c, d :: 0 <= c < d < |mt| && mt[c] != -1 ==> mt[c] != mt[d]
  }

  /** Each of the first i columns row u lists is matched to a visited row. */
  predicate BlockedBefore(g: seq<seq<int>>, mt: seq<int>, used: seq<bool>, u: int, i: int)
    requires 0 <= u < |g|
  {
    forall k :: 0 <= k < i && k < |g[u]| ==>
      0 <= g[u][k] < |mt| && 0 <= mt[g[u][k]] < |used| && used[mt[g[u][k]]]
  }

  /** Every column row u lists is matched to a visited row. */
  predicate Blocked(g: seq<seq<int>>, mt: seq<int>, used: seq<bool>, u: int)
    requires 0 <= u < |g|
  {
    BlockedBefore(g, mt, used, u, |g[u]|)
  }

  /** The visited rows of `used` include those of `used0`. */
  predicate Grows(used0: seq<bool>, used: seq<bool>)
  {
    |used| == |used0| && forall u :: 0 <= u < |used0| && used0[u] ==> used[u]
  }

  /** The rows not yet visited. */
  function Unused(used: seq<bool>): set<int>
  {
    set u | 0 <= u < |used| && !used[u]
  }

  /** Every row visited in `used` but not in `used0` is blocked. */
  predicate NewlyBlocked(g: seq<seq<int>>, mt: seq<int>, used0: seq<bool>, used: seq<bool>)
  {
    forall u :: 0 <= u < |g| && 0 <= u < |used| && 0 <= u < |used0| && used[u] && !used0[u] ==>
      Blocked(g, mt, used, u)
  }

  /**
   * One augmentation from mt0 to mt: one free column fewer and row v matched
   * once more, every other row as often as before, and no column that was
   * matched becomes free.
   */
  predicate Augmented(mt0: seq<int>, mt: seq<int>, v: int)
  {
    -1 in mt0 && multiset(mt) == multiset(mt0) - multiset{-1} + multiset{v} &&
    |mt| == |mt0| && forall c :: 0 <= c < |mt0| && mt0[c] != -1 ==> mt[c] != -1
  }

  /** Columns held in mt0 by v or by a row visited in used0 hold the same row in mt. */
  predicate Keeps(mt0: seq<int>, mt: seq<int>, used0: seq<bool>, v: int)
  {
    |mt| == |mt0| &&
    forall c :: 0 <= c < |mt0| && (mt0[c] == v || (0 <= mt0[c] < |used0| && used0[mt0[c]])) ==>
      mt[c] == mt0[c]
  }

  /** Visiting a row that was not visited shrinks the set of unvisited rows. */
  lemma UnusedShrinks(used0: seq<bool>, used: seq<bool>, v: int)
    requires Grows(used0, used) && 0 <= v < |used0| && !used0[v] && used[v]
    ensures Unused(used) < Unused(used0)
  {
    assert v in Unused(used0) && v !in Unused(used);
    forall u | u in Unused(used) ensures u in Unused(used0) {
      assert !used[u];
    }
  }

  /** Visiting more rows keeps the earlier newly visited rows blocked. */
  lemma NewlyBlockedTrans(g: seq<seq<int>>, mt: seq<int>, a: seq<bool>, b: seq<bool>, c: seq<bool>)
    requires Grows(a, b) && Grows(b, c)
    requires NewlyBlocked(g, mt, a, b) && NewlyBlocked(g, mt, b, c)
    ensures NewlyBlocked(g, mt, a, c)
  {
    forall u | 0 <= u < |g| && 0 <= u < |c| && c[u] && !a[u] ensures Blocked(g, mt, c, u) {
      if b[u] {
        assert Blocked(g, mt, b, u);
        BlockedMonotone(g, mt, b, c, u);
      }
    }
  }

  /** Once the row v is blocked, every row newly visited besides v is too. */
  lemma NewlyBlockedClose(g: seq<seq<int>>, mt: seq<int>, used0: seq<bool>, used: seq<bool>, v: int)
    requires 0 <= v < |used0| && NewlyBlocked(g, mt, used0[v := true], used)
    requires 0 <= v < |g| && Blocked(g, mt, used, v)
    ensures NewlyBlocked(g, mt, used0, used)
  {
    forall u | 0 <= u < |g| && 0 <= u < |used| && 0 <= u < |used0| && used[u] && !used0[u]
      ensures Blocked(g, mt, used, u)
    {
      if u != v {
        assert !used0[v := true][u];
      }
    }
  }

  /**
   * A search from v that fails at its i-th column, whose row w is now
   * visited, extends the blocked prefix of v; visiting more rows keeps it.
   */
  lemma BlockedBeforeStep(g: seq<seq<int>>, mt: seq<int>, used0: seq<bool>, used: seq<bool>, v: int, i: int)
    requires 0 <= v < |g| && 0 <= i < |g[v]| && Grows(used0, used)
    requires BlockedBefore(g, mt, used0, v, i)
    requires 0 <= g[v][i] < |mt| && 0 <= mt[g[v][i]] < |used| && used[mt[g[v][i]]]
    ensures BlockedBefore(g, mt, used, v, i + 1)
  {
  }

  /** Matching the free column `to` to v augments the matching and keeps every other column. */
  lemma AugmentDirect(g: seq<seq<int>>, mt: seq<int>, used0: seq<bool>, v: int, to: int)
    requires Consistent(g, mt) && 0 <= v < |g| && 0 <= to < |mt| && mt[to] == -1 && to in g[v]
    ensures Consistent(g, mt[to := v])
    ensures Augmented(mt, mt[to := v], v)
    ensures Keeps(mt, mt[to := v], used0, v)
  {
    assert mt[to] in mt;
  }

  /**
   * Matching column `to` to v after the search from its row w succeeded: w
   * has another column now, so the whole step augments by v alone.
   */
  lemma AugmentVia(g: seq<seq<int>>, mt0: seq<int>, mt1: seq<int>, used0: seq<bool>, used1: seq<bool>,
                   v: int, w: int, to: int)
    requires 0 <= v < |g| && 0 <= to < |mt0| && to in g[v] && mt0[to] == w && w != v
    requires Grows(used0, used1) && 0 <= v < |used1| && used1[v] && 0 <= w < |used0| && !used0[w]
    requires Consistent(g, mt1) && Augmented(mt0, mt1, w) && Keeps(mt0, mt1, used1, w)
    ensures Consistent(g, mt1[to := v])
    ensures Augmented(mt0, mt1[to := v], v)
    ensures Keeps(mt0, mt1[to := v], used0, v)
  {
    assert mt1[to] == w;
    assert mt1[to] in mt1;
  }

  /** `q` (new row c is old row q[c]) puts every row at a column it lists. */
  predicate PerfectIn(g: seq<seq<int>>, q: seq<int>, n: nat)
  {
    |g| == n && IsPermutation(q, n) && forall c :: 0 <= c < n ==> c in g[q[c]]
  }

  ghost predicate PerfectMatchable(g: seq<seq<int>>, n: nat)
  {
    exists q :: PerfectIn(g, q, n)
  }

  /** The index of the first free column, or |mt| when every column is matched. */
  function FirstFree(mt: seq<int>): (k: nat)
    ensures k <= |mt|
    ensures forall c :: 0 <= c < k ==> mt[c] != -1
    ensures k < |mt| ==> mt[k] == -1
    ensures k == |mt| <==> -1 !in mt
  {
    if mt == [] then 0
    else if mt[0] == -1 then 0
    else
      var k := FirstFree(mt[1..]);
      assert -1 in mt[1..] ==> -1 in mt;
      assert -1 in mt ==> mt[0] == -1 || -1 in mt[1..];
      k + 1
  }

  /** Two positions holding the same value give it at least two copies. */
  lemma TwoPositions(s: seq<int>, c: int, d: int)
    requires 0 <= c < d < |s|
    ensures s[c] == s[d] ==> multiset(s)[s[c]] >= 2
  {
    assert s == s[..d] + s[d..];
    assert s[..d][c] == s[c];
    assert s[d..][0] == s[d];
    assert s[c] in multiset(s[..d]);
    assert s[d] in multiset(s[d..]);
  }

  /** In a matching with distinct rows, a row occurs at most once. */
  lemma {:induction false} AtMostOnce(mt: seq<int>, x: int)
    requires RowsDistinct(mt) && x != -1
    ensures multiset(mt)[x] <= 1
  {
    if mt != [] {
      var t := mt[..|mt| - 1];
      assert mt == t + [mt[|mt| - 1]];
      assert RowsDistinct(t);
      AtMostOnce(t, x);
      if mt[|mt| - 1] == x {
        assert forall c :: 0 <= c < |t| ==> t[c] != x;
        assert x !in t;
      }
    }
  }

  /** A matching in which every row occurs at most once has distinct rows. */
  lemma DistinctFromCounts(mt: seq<int>)
    requires forall x :: x != -1 ==> multiset(mt)[x] <= 1
    ensures RowsDistinct(mt)
  {
    forall c, d | 0 <= c < d < |mt| && mt[c] != -1 ensures mt[c] != mt[d] {
      TwoPositions(mt, c, d);
      assert multiset(mt)[mt[c]] <= 1;
    }
  }

  /**
   * Matching one more column to a row that was free keeps the rows distinct:
   * the multiset of entries loses one -1 and gains v.
   */
  lemma AddRowKeepsDistinct(mt: seq<int>, mt': seq<int>, v: int)
    requires RowsDistinct(mt) && v != -1 && v !in mt
    requires multiset(mt') == multiset(mt) - multiset{-1} + multiset{v}
    ensures RowsDistinct(mt')
  {
    forall x | x != -1 ensures multiset(mt')[x] <= 1 {
      AtMostOnce(mt, x);
      assert multiset(mt)[v] == 0;
    }
    DistinctFromCounts(mt');
  }

  /** A matching in which every column is free holds -1 once per column. */
  lemma {:induction false} AllFreeCount(mt: seq<int>)
    requires forall c :: 0 <= c < |mt| ==> mt[c] == -1
    ensures multiset(mt)[-1] == |mt|
  {
    if mt != [] {
      var t := mt[..|mt| - 1];
      assert mt == t + [mt[|mt| - 1]];
      AllFreeCount(t);
    }
  }

  /** Visiting more rows keeps a blocked row blocked. */
  lemma BlockedMonotone(g: seq<seq<int>>, mt: seq<int>, used: seq<bool>, used': seq<bool>, u: int)
    requires 0 <= u < |g| && |used'| == |used| && Blocked(g, mt, used, u)
    requires forall x :: 0 <= x < |used| && used[x] ==> used'[x]
    ensures Blocked(g, mt, used', u)
  {
  }

  /**
   * A matching in which every column is taken, by distinct rows, is a
   * perfect one: read column by column, it is a permutation of the rows.
   */
  lemma FullMatchingPerfect(g: seq<seq<int>>, mt: seq<int>)
    requires |mt| == |g| && Consistent(g, mt) && RowsDistinct(mt) && -1 !in mt
    ensures IsPermutation(mt, |g|)
    ensures PerfectIn(g, mt, |g|)
    ensures PerfectMatchable(g, |g|)
  {
  }

  /**
   * An augmentation by a row v above every row already matched leaves one
   * free column fewer and no row above v.
   */
  lemma AugmentBound(mt0: seq<int>, mt: seq<int>, v: int)
    requires Augmented(mt0, mt, v) && 0 <= v
    requires forall c :: 0 <= c < |mt0| ==> mt0[c] < v
    ensures multiset(mt)[-1] == multiset(mt0)[-1] - 1
    ensures forall c :: 0 <= c < |mt| ==> mt[c] <= v
  {
    assert multiset(mt0)[-1] >= 1;
    forall c | 0 <= c < |mt| ensures mt[c] <= v {
      assert mt[c] in multiset(mt);
      if mt[c] != v {
        assert mt[c] in multiset(mt0);
        assert mt[c] in mt0;
      }
    }
  }

  /** The columns of a matching with distinct rows sent to rows in `rows`. */
  lemma MatchedInto(mt: seq<int>, cols: set<int>, rows: set<int>)
    requires RowsDistinct(mt)
    requires forall c :: c in cols ==> 0 <= c < |mt| && mt[c] in rows && mt[c] != -1
    ensures |cols| <= |rows|
  {
    forall x, y | x in cols && y in cols && 0 <= x < |mt| && 0 <= y < |mt| && x != y
      ensures mt[x] != mt[y]
    {
      if x < y { assert mt[x] != mt[y]; } else { assert mt[y] != mt[x]; }
    }
    InjectiveImageCard(cols, mt, |mt|);
    ImageWithin(cols, mt, rows);
    SubsetCard(Image(cols, mt), rows);
  }

  /** The rows of `rows` sit at no fewer columns of a permutation. */
  lemma PermutationPreimage(q: seq<int>, n: nat, rows: set<int>, cols: set<int>)
    requires IsPermutation(q, n)
    requires forall r :: r in rows ==> 0 <= r < n
    requires forall c :: 0 <= c < n && q[c] in rows ==> c in cols
    requires forall c :: c in cols ==> 0 <= c < n
    ensures |rows| <= |cols|
  {
    PermutationOnto(q, n);
    forall r | r in rows ensures r in Image(cols, q) {
      assert r in q;
      var c :| 0 <= c < |q| && q[c] == r;
      assert c in cols;
    }
    ImageCardLe(cols, q, n);
    SubsetCard(rows, Image(cols, q));
  }

  /**
   * The matching after the searches from rows 0 .. v-1: consistent, rows
   * distinct, no row v or above matched, and, when a perfect matching
   * exists, exactly n - v columns still free.
   */
  ghost predicate SearchedUpTo(g: seq<seq<int>>, mt: seq<int>, v: int)
  {
    |mt| == |g| && Consistent(g, mt) && RowsDistinct(mt) &&
    (forall c :: 0 <= c < |mt| ==> mt[c] < v) &&
    (PerfectMatchable(g, |g|) ==> multiset(mt)[-1] == |g| - v)
  }

  /** With every column free, no search has run yet. */
  lemma SearchStart(g: seq<seq<int>>, mt: seq<int>)
    requires |mt| == |g| && forall c :: 0 <= c < |mt| ==> mt[c] == -1
    ensures SearchedUpTo(g, mt, 0)
  {
    AllFreeCount(mt);
  }

  /** A successful search from row v moves the state on to v + 1. */
  lemma SearchFound(g: seq<seq<int>>, mt0: seq<int>, mt: seq<int>, v: int)
    requires SearchedUpTo(g, mt0, v) && 0 <= v
    requires |mt| == |g| && Consistent(g, mt) && Augmented(mt0, mt, v)
    ensures SearchedUpTo(g, mt, v + 1)
  {
    assert v !in mt0;
    AddRowKeepsDistinct(mt0, mt, v);
    AugmentBound(mt0, mt, v);
  }

  /**
   * A failed search from row v, started with no row visited, proves that no
   * perfect matching exists, and moves the state on to v + 1.
   */
  lemma SearchStuck(g: seq<seq<int>>, mt: seq<int>, used0: seq<bool>, used: seq<bool>, v: int)
    requires Graph(g, |g|) && SearchedUpTo(g, mt, v) && 0 <= v < |g|
    requires |used0| == |g| && forall u :: 0 <= u < |used0| ==> !used0[u]
    requires |used| == |g| && used[v] && NewlyBlocked(g, mt, used0, used)
    ensures !PerfectMatchable(g, |g|)
    ensures SearchedUpTo(g, mt, v + 1)
  {
    assert v !in mt;
    forall u | 0 <= u < |g| && used[u] ensures Blocked(g, mt, used, u) {
      assert !used0[u];
    }
    StuckSearchRefutesPerfect(g, mt, used, v);
  }

  /** After the searches from every row, a column is free exactly when no perfect matching exists. */
  lemma SearchDone(g: seq<seq<int>>, mt: seq<int>)
    requires SearchedUpTo(g, mt, |g|)
    ensures -1 !in mt <==> PerfectMatchable(g, |g|)
  {
    if PerfectMatchable(g, |g|) {
      assert multiset(mt)[-1] == 0;
    } else if -1 !in mt {
      FullMatchingPerfect(g, mt);
    }
  }

  /**
   * Kuhn maximality: a failed augmenting search from a free row v, which
   * leaves every visited row blocked, shows that no perfect matching exists.
   */
  lemma StuckSearchRefutesPerfect(g: seq<seq<int>>, mt: seq<int>, used: seq<bool>, v: int)
    requires Graph(g, |g|) && |mt| == |g| && |used| == |g| && 0 <= v < |g|
    requires Consistent(g, mt) && RowsDistinct(mt)
    requires v !in mt && used[v]
    requires forall u :: 0 <= u < |g| && used[u] ==> Blocked(g, mt, used, u)
    ensures !PerfectMatchable(g, |g|)
  {
    var n := |g|;
    if PerfectMatchable(g, n) {
      var q :| PerfectIn(g, q, n);
      var visited := set u | 0 <= u < n && used[u];
      var cols := set c | 0 <= c < n && 0 <= q[c] < n && used[q[c]];
      PermutationPreimage(q, n, visited, cols);
      forall c | c in cols ensures 0 <= c < n && mt[c] in visited - {v} && mt[c] != -1 {
        var u := q[c];
        assert c in g[u];
        var k :| 0 <= k < |g[u]| && g[u][k] == c;
        assert Blocked(g, mt, used, u);
        assert used[mt[c]];
        assert mt[c] != v;
      }
      assert v in visited;
      assert |visited - {v}| == |visited| - 1;
      MatchedInto(mt, cols, visited - {v});
      assert false;
    }
  }
}

/**
 * Counting facts about finite index sets and about sequences of indices read
 * as functions. The row-matching proof needs two of them: a map that is
 * one-to-one on a set keeps its size, and a permutation of 0 .. n-1 hits
 * every index; the row reordering needs a third: permuting a sequence keeps
 * its multiset of elements.
 */
module Permutations {

  /** The indices 0 .. n-1. */
  function Range(n: nat): (r: set<int>)
    ensures forall i :: i in r <==> 0 <= i < n
  {
    if n == 0 then {} else Range(n - 1) + {n - 1}
  }

  /** The image of the indices in `a` under `f`, read as a function on indices. */
  function Image(a: set<int>, f: seq<int>): (b: set<int>)
  {
    set x | x in a && 0 <= x < |f| :: f[x]
  }

  /** `f` sends distinct indices of `a` to distinct values. */
  predicate InjectiveOn(a: set<int>, f: seq<int>)
  {
    forall x, y :: x in a && y in a && 0 <= x < |f| && 0 <= y < |f| && x != y ==> f[x] != f[y]
  }

  /**
   * `q` is a permutation of 0 .. n-1: n entries, each in range, no two equal.
   * For a matrix, `q[i]` names the old row that becomes row i.
   */
  predicate IsPermutation(q: seq<int>, n: nat)
  {
    |q| == n &&
    (forall i :: 0 <= i < n ==> 0 <= q[i] < n) &&
    (forall i, j :: 0 <= i < j < n ==> q[i] != q[j])
  }

  /** The sequence whose entry i is `s[q[i]]`. */
  function Permute<T>(s: seq<T>, q: seq<int>): (p: seq<T>)
    requires forall i :: 0 <= i < |q| ==> 0 <= q[i] < |s|
    ensures |p| == |q|
    ensures forall i :: 0 <= i < |q| ==> p[i] == s[q[i]]
  {
    seq(|q|, i requires 0 <= i < |q| => s[q[i]])
  }

  /** The positions at which `x` occurs in `s`. */
  function Occurrences<T(==)>(s: seq<T>, x: T): (o: set<int>)
  {
    set i | 0 <= i < |s| && s[i] == x
  }

  lemma SubsetCard(a: set<int>, b: set<int>)
    requires a <= b
    ensures |a| <= |b|
  {
    assert b == a + (b - a);
  }

  lemma {:induction false} RangeCard(n: nat)
    ensures |Range(n)| == n
  {
    if n > 0 {
      RangeCard(n - 1);
      var r := Range(n - 1);
      assert n - 1 !in r;
      assert Range(n) == r + {n - 1};
      assert |r + {n - 1}| == |r| + 1;
    }
  }

  /** An image is never larger than the set it is taken of (induction on a bound of the set). */
  lemma {:induction false} ImageCardLe(a: set<int>, f: seq<int>, k: nat)
    requires forall x :: x in a ==> 0 <= x < k
    ensures |Image(a, f)| <= |a|
  {
    if k == 0 {
      assert forall x :: x !in a;
      assert a == {};
      assert Image(a, f) == {};
    } else {
      var x := k - 1;
      ImageCardLe(a - {x}, f, k - 1);
      if x in a && x < |f| {
        assert Image(a, f) == Image(a - {x}, f) + {f[x]};
      } else {
        assert Image(a, f) == Image(a - {x}, f);
      }
    }
  }

  /** A one-to-one image has exactly as many elements as the set it is taken of. */
  lemma {:induction false} InjectiveImageCard(a: set<int>, f: seq<int>, k: nat)
    requires forall x :: x in a ==> 0 <= x < k && x < |f|
    requires InjectiveOn(a, f)
    ensures |Image(a, f)| == |a|
  {
    if k == 0 {
      assert forall x :: x !in a;
      assert a == {};
      assert Image(a, f) == {};
    } else {
      var x := k - 1;
      InjectiveImageCard(a - {x}, f, k - 1);
      if x in a {
        assert Image(a, f) == Image(a - {x}, f) + {f[x]};
        assert f[x] !in Image(a - {x}, f);
      } else {
        assert a - {x} == a;
      }
    }
  }

  /** Every element of the image under `f` of `a` lies in `b` when `f` sends `a` into `b`. */
  lemma ImageWithin(a: set<int>, f: seq<int>, b: set<int>)
    requires forall x :: x in a && 0 <= x < |f| ==> f[x] in b
    ensures Image(a, f) <= b
  {
    forall y | y in Image(a, f) ensures y in b {
      var x :| x in a && 0 <= x < |f| && f[x] == y;
    }
  }

  lemma PermutationInjective(q: seq<int>, n: nat)
    requires IsPermutation(q, n)
    ensures InjectiveOn(Range(n), q)
  {
  }

  /** A subset as large as the whole set is the whole set. */
  lemma FullSubset(a: set<int>, b: set<int>, x: int)
    requires a <= b && |a| == |b| && x in b
    ensures x in a
  {
    var missing := b - a;
    assert b == a + missing;
    assert |missing| == 0;
    assert x !in missing;
  }

  /** Every element of an image is a value of the function. */
  lemma ImageMember(a: set<int>, f: seq<int>, y: int)
    requires y in Image(a, f)
    ensures y in f
  {
    var x :| x in a && 0 <= x < |f| && f[x] == y;
  }

  /** The image of 0 .. n-1 under a permutation is a subset of 0 .. n-1 of full size. */
  lemma PermutationImageFull(q: seq<int>, n: nat)
    requires IsPermutation(q, n)
    ensures Image(Range(n), q) <= Range(n)
    ensures |Image(Range(n), q)| == |Range(n)|
  {
    ImageWithin(Range(n), q, Range(n));
    PermutationInjective(q, n);
    InjectiveImageCard(Range(n), q, n);
  }

  /** A permutation of 0 .. n-1 takes every value in 0 .. n-1 (pigeonhole). */
  lemma PermutationOnto(q: seq<int>, n: nat)
    requires IsPermutation(q, n)
    ensures forall r :: 0 <= r < n ==> r in q
  {
    PermutationImageFull(q, n);
    forall r | 0 <= r < n ensures r in q {
      FullSubset(Image(Range(n), q), Range(n), r);
      ImageMember(Range(n), q, r);
    }
  }

  /** The number of copies of `x` in `s` is the number of positions holding it. */
  lemma {:induction false} OccurrencesCount<T>(s: seq<T>, x: T)
    ensures multiset(s)[x] == |Occurrences(s, x)|
  {
    if s == [] {
      assert Occurrences(s, x) == {};
    } else {
      var t := s[..|s| - 1];
      OccurrencesCount(t, x);
      assert s == t + [s[|s| - 1]];
      if s[|s| - 1] == x {
        assert Occurrences(s, x) == Occurrences(t, x) + {|s| - 1};
      } else {
        assert Occurrences(s, x) == Occurrences(t, x);
      }
    }
  }

  /** Reordering a sequence by a permutation keeps every element, as often as before. */
  lemma PermuteMultiset<T>(s: seq<T>, q: seq<int>)
    requires IsPermutation(q, |s|)
    ensures multiset(Permute(s, q)) == multiset(s)
  {
    var p := Permute(s, q);
    PermutationOnto(q, |s|);
    forall x: T ensures multiset(p)[x] == multiset(s)[x] {
      OccurrencesCount(p, x);
      OccurrencesCount(s, x);
      var a := Occurrences(p, x);
      InjectiveImageCard(a, q, |s|);
      ImageWithin(a, q, Occurrences(s, x));
      forall j | j in Occurrences(s, x) ensures j in Image(a, q) {
        assert j in q;
        var i :| 0 <= i < |q| && q[i] == j;
        assert i in a;
      }
      assert Image(a, q) == Occurrences(s, x);
    }
    assert forall x :: multiset(p)[x] == multiset(s)[x];
  }
}

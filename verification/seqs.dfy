/**
 * Sequence operations the system uses on lists of rows: `Array.filter`,
 * first-occurrence de-duplication (`Array.from(new Set(xs))`) and an
 * ordering by a comparison (a query's `orderBy`).
 */
module Seqs {

  // ---------------------------------------------------------------------
  // Subsequences and filter
  // ---------------------------------------------------------------------

  /** `sub` is obtained from `xs` by deleting elements, keeping the order of the rest. */
  predicate IsSubsequence<T(==)>(sub: seq<T>, xs: seq<T>)
    decreases |xs|
  {
    if sub == [] then true
    else if xs == [] then false
    else if sub[0] == xs[0] then IsSubsequence(sub[1..], xs[1..])
    else IsSubsequence(sub, xs[1..])
  }

  /** `xs.filter(p)`. */
  function Filter<T>(xs: seq<T>, p: T -> bool): (r: seq<T>)
    ensures |r| <= |xs|
    ensures forall i :: 0 <= i < |r| ==> p(r[i])
  {
    if xs == [] then [] else (if p(xs[0]) then [xs[0]] else []) + Filter(xs[1..], p)
  }

  /** `filter` keeps exactly the elements satisfying the predicate, in their original order. */
  lemma {:induction false} FilterSpec<T>(xs: seq<T>, p: T -> bool)
    ensures forall x :: x in Filter(xs, p) <==> x in xs && p(x)
    ensures IsSubsequence(Filter(xs, p), xs)
    ensures forall x :: multiset(Filter(xs, p))[x] == if p(x) then multiset(xs)[x] else 0
  {
    if xs != [] {
      FilterSpec(xs[1..], p);
      var r := Filter(xs, p);
      assert xs == [xs[0]] + xs[1..];
      assert multiset(xs) == multiset{xs[0]} + multiset(xs[1..]);
      assert multiset(r) == multiset(if p(xs[0]) then [xs[0]] else []) + multiset(Filter(xs[1..], p));
      if p(xs[0]) {
        assert r[0] == xs[0] && r[1..] == Filter(xs[1..], p);
      } else {
        assert r == Filter(xs[1..], p);
        if r != [] {
          assert p(r[0]) && r[0] != xs[0];
        }
      }
      forall x | x in xs && p(x) ensures x in r {
        if x != xs[0] {
          assert x in xs[1..];
        }
      }
    }
  }

  /** Filtering twice is filtering once by the conjunction `both` of the two predicates. */
  lemma {:induction false} FilterFilter<T>(xs: seq<T>, p: T -> bool, q: T -> bool, both: T -> bool)
    requires forall x :: both(x) == (p(x) && q(x))
    ensures Filter(Filter(xs, p), q) == Filter(xs, both)
  {
    if xs != [] {
      FilterFilter(xs[1..], p, q, both);
      var r := Filter(xs, p);
      if p(xs[0]) {
        assert r[0] == xs[0] && r[1..] == Filter(xs[1..], p);
      } else {
        assert r == Filter(xs[1..], p);
      }
    }
  }

  /** A predicate that holds of every element keeps the whole list. */
  lemma {:induction false} FilterAll<T>(xs: seq<T>, p: T -> bool)
    requires forall i :: 0 <= i < |xs| ==> p(xs[i])
    ensures Filter(xs, p) == xs
  {
    if xs != [] {
      FilterAll(xs[1..], p);
    }
  }

  // ---------------------------------------------------------------------
  // First-occurrence de-duplication
  // ---------------------------------------------------------------------

  predicate NoDuplicates<T(==)>(xs: seq<T>) {
    forall i, j :: 0 <= i < j < |xs| ==> xs[i] != xs[j]
  }

  /** A list repeats nothing exactly when every element occurs in it at most once. */
  lemma {:induction false} NoDuplicatesCounts<T>(xs: seq<T>)
    ensures NoDuplicates(xs) <==> forall x :: multiset(xs)[x] <= 1
  {
    if xs != [] {
      var tail := xs[1..];
      NoDuplicatesCounts(tail);
      assert xs == [xs[0]] + tail;
      assert multiset(xs) == multiset{xs[0]} + multiset(tail);
      if NoDuplicates(xs) {
        forall i, j | 0 <= i < j < |tail| ensures tail[i] != tail[j] {
          assert tail[i] == xs[i + 1] && tail[j] == xs[j + 1];
        }
        assert xs[0] !in tail by {
          forall k | 0 <= k < |tail| ensures tail[k] != xs[0] {
            assert tail[k] == xs[k + 1];
          }
        }
      }
      if forall x :: multiset(xs)[x] <= 1 {
        assert forall x :: multiset(tail)[x] <= 1 by {
          forall x ensures multiset(tail)[x] <= 1 {
            assert multiset(xs)[x] <= 1;
          }
        }
        assert multiset(tail)[xs[0]] == 0 by {
          assert multiset(xs)[xs[0]] <= 1;
        }
        forall i, j | 0 <= i < j < |xs| ensures xs[i] != xs[j] {
          assert xs[j] == tail[j - 1];
          if i > 0 {
            assert xs[i] == tail[i - 1];
          }
        }
      }
    }
  }

  /** Two orderings of the same elements both repeat nothing, or both repeat something. */
  lemma PermutationKeepsNoDuplicates<T>(xs: seq<T>, ys: seq<T>)
    requires multiset(xs) == multiset(ys)
    ensures NoDuplicates(xs) <==> NoDuplicates(ys)
  {
    NoDuplicatesCounts(xs);
    NoDuplicatesCounts(ys);
  }

  /** Filtering a list that repeats nothing yields a list that repeats nothing. */
  lemma FilterKeepsNoDuplicates<T>(xs: seq<T>, p: T -> bool)
    requires NoDuplicates(xs)
    ensures NoDuplicates(Filter(xs, p))
  {
    var r := Filter(xs, p);
    FilterSpec(xs, p);
    NoDuplicatesCounts(xs);
    assert forall x :: multiset(r)[x] <= multiset(xs)[x];
    NoDuplicatesCounts(r);
  }

  /** Position of the first occurrence of `x` in `xs`. */
  function FirstIndex<T(==)>(xs: seq<T>, x: T): (k: nat)
    requires x in xs
    ensures k < |xs| && xs[k] == x && x !in xs[..k]
  {
    if xs[0] == x then 0 else 1 + FirstIndex(xs[1..], x)
  }

  /** The order of first occurrences: `ys` lists its elements in the order they first appear in `xs`. */
  predicate InFirstOccurrenceOrder<T(==)>(ys: seq<T>, xs: seq<T>)
    requires forall i :: 0 <= i < |ys| ==> ys[i] in xs
  {
    forall i, j :: 0 <= i < j < |ys| ==> FirstIndex(xs, ys[i]) < FirstIndex(xs, ys[j])
  }

  /** `Array.from(new Set(xs))`: a `Set` remembers insertion order and ignores repeats. */
  function Distinct<T(==)>(xs: seq<T>): (r: seq<T>)
    ensures forall i :: 0 <= i < |r| ==> r[i] in xs
    ensures forall i :: 0 <= i < |xs| ==> xs[i] in r
    ensures NoDuplicates(r)
  {
    if xs == [] then []
    else
      var d := Distinct(xs[..|xs| - 1]);
      var last := xs[|xs| - 1];
      assert forall i :: 0 <= i < |xs| - 1 ==> xs[i] == xs[..|xs| - 1][i];
      if last in d then d else d + [last]
  }

  /** A first occurrence inside a prefix is the first occurrence in the whole list. */
  lemma FirstIndexPrefix<T>(xs: seq<T>, n: nat, x: T)
    requires n <= |xs| && x in xs[..n]
    ensures FirstIndex(xs, x) == FirstIndex(xs[..n], x)
  {
    var k := FirstIndex(xs[..n], x);
    assert xs[..n][..k] == xs[..k];
  }

  /** De-duplication keeps first occurrences in the order they appear. */
  lemma {:induction false} DistinctOrder<T>(xs: seq<T>)
    ensures InFirstOccurrenceOrder(Distinct(xs), xs)
  {
    if xs != [] {
      var init := xs[..|xs| - 1];
      var last := xs[|xs| - 1];
      var d := Distinct(init);
      DistinctOrder(init);
      assert xs[..|xs| - 1] == init;
      forall y | y in d ensures FirstIndex(xs, y) == FirstIndex(init, y) {
        FirstIndexPrefix(xs, |xs| - 1, y);
      }
      if last !in d {
        assert last !in init;
        assert FirstIndex(xs, last) == |xs| - 1;
        var r := d + [last];
        forall i, j | 0 <= i < j < |r| ensures FirstIndex(xs, r[i]) < FirstIndex(xs, r[j]) {
          if j < |d| {
            assert r[i] == d[i] && r[j] == d[j];
          } else {
            assert r[i] == d[i] && r[i] in init;
          }
        }
      }
    }
  }

  // ---------------------------------------------------------------------
  // Ordering
  // ---------------------------------------------------------------------

  /** Any two elements are comparable one way or the other. */
  ghost predicate TotalComparison<T(!new)>(le: (T, T) -> bool) {
    forall a, b :: le(a, b) || le(b, a)
  }

  /** Each element is ordered before its successor. */
  predicate SortedBy<T>(xs: seq<T>, le: (T, T) -> bool) {
    forall i :: 0 < i < |xs| ==> le(xs[i - 1], xs[i])
  }

  /** Inserts `x` before the first element it is ordered before. */
  function Insert<T>(x: T, xs: seq<T>, le: (T, T) -> bool): (r: seq<T>)
    ensures multiset(r) == multiset(xs) + multiset{x}
    ensures |r| == |xs| + 1
    ensures r != [] && (r[0] == x || (xs != [] && r[0] == xs[0]))
  {
    if xs == [] || le(x, xs[0]) then [x] + xs
    else
      assert xs == [xs[0]] + xs[1..];
      [xs[0]] + Insert(x, xs[1..], le)
  }

  lemma {:induction false} InsertSorted<T(!new)>(x: T, xs: seq<T>, le: (T, T) -> bool)
    requires TotalComparison(le)
    requires SortedBy(xs, le)
    ensures SortedBy(Insert(x, xs, le), le)
  {
    if xs != [] && !le(x, xs[0]) {
      InsertSorted(x, xs[1..], le);
      assert le(xs[0], x);
    }
  }

  /** Insertion sort: orders `xs` by `le`. */
  function Sort<T>(xs: seq<T>, le: (T, T) -> bool): (r: seq<T>)
    ensures multiset(r) == multiset(xs)
  {
    if xs == [] then []
    else
      assert xs == [xs[0]] + xs[1..];
      Insert(xs[0], Sort(xs[1..], le), le)
  }

  /** Every element of a sorted filter satisfies the filter's predicate and comes from the input. */
  lemma SortFilterMembers<T>(xs: seq<T>, p: T -> bool, le: (T, T) -> bool)
    ensures forall x :: x in Sort(Filter(xs, p), le) ==> p(x) && x in xs
  {
    var f := Filter(xs, p);
    FilterSpec(xs, p);
    forall x | x in Sort(f, le) ensures p(x) && x in xs {
      assert x in multiset(Sort(f, le));
      assert x in multiset(f);
    }
  }

  /** Sorting yields an ordered permutation of its input. */
  lemma {:induction false} SortSpec<T(!new)>(xs: seq<T>, le: (T, T) -> bool)
    requires TotalComparison(le)
    ensures SortedBy(Sort(xs, le), le)
    ensures multiset(Sort(xs, le)) == multiset(xs)
    ensures |Sort(xs, le)| == |xs|
  {
    if xs != [] {
      SortSpec(xs[1..], le);
      InsertSorted(xs[0], Sort(xs[1..], le), le);
    }
    assert |multiset(Sort(xs, le))| == |multiset(xs)|;
  }
}

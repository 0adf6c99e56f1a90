/** Descending sorts of tables by one numeric column.

    `SortDesc` is a stable insertion sort: it is the order Python's
    `sorted(..., reverse=True)` produces (used by `Counter.most_common`), and
    one admissible order for pandas' `sort_values(ascending=False)` and
    `nlargest(keep="first")`. */
module Ranking {

  /** `key` never increases along `xs`. */
  ghost predicate NonIncreasing<T>(xs: seq<T>, key: T -> real) {
    forall i, j :: 0 <= i < j < |xs| ==> key(xs[i]) >= key(xs[j])
  }

  /** `rank` strictly increases along `xs` (for instance, the input position). */
  ghost predicate RankIncreasing<T>(xs: seq<T>, rank: T -> int) {
    forall i, j :: 0 <= i < j < |xs| ==> rank(xs[i]) < rank(xs[j])
  }

  /** Ordered by descending `key`, ties by ascending `rank`. */
  ghost predicate LexSorted<T>(xs: seq<T>, key: T -> real, rank: T -> int) {
    forall i, j :: 0 <= i < j < |xs| ==>
      key(xs[i]) > key(xs[j]) || (key(xs[i]) == key(xs[j]) && rank(xs[i]) < rank(xs[j]))
  }

  /** Places `x` after every element whose key is at least `key(x)`. */
  function Insert<T>(s: seq<T>, x: T, key: T -> real): (r: seq<T>)
    requires NonIncreasing(s, key)
    ensures multiset(r) == multiset(s) + multiset{x}
    ensures |r| == |s| + 1
    ensures NonIncreasing(r, key)
  {
    if |s| == 0 then [x]
    else
      var n := |s| - 1;
      assert s == s[..n] + [s[n]];
      if key(s[n]) >= key(x) then
        AboveLast(s, s, key);
        AppendNonIncreasing(s, x, key);
        s + [x]
      else
        var r' := Insert(s[..n], x, key);
        assert forall y | y in r' :: y in multiset(s[..n]) + multiset{x};
        AboveLast(s, r', key);
        AppendNonIncreasing(r', s[n], key);
        r' + [s[n]]
  }

  /** Every element of `s` but its last, and any element keyed above the
      last, is keyed at least as high as the last. */
  lemma AboveLast<T>(s: seq<T>, r: seq<T>, key: T -> real)
    requires |s| > 0 && NonIncreasing(s, key)
    requires forall y | y in r :: y in s[..|s| - 1] || y == s[|s| - 1] || key(y) > key(s[|s| - 1])
    ensures forall y | y in r :: key(y) >= key(s[|s| - 1])
  {
    forall y | y in r ensures key(y) >= key(s[|s| - 1]) {
      if y in s[..|s| - 1] {
        var k :| 0 <= k < |s| - 1 && s[..|s| - 1][k] == y;
        assert s[k] == y;
      }
    }
  }

  /** Appending an element keyed no higher than any other keeps the order. */
  lemma AppendNonIncreasing<T>(s: seq<T>, x: T, key: T -> real)
    requires NonIncreasing(s, key)
    requires forall y | y in s :: key(y) >= key(x)
    ensures NonIncreasing(s + [x], key)
  {
    var r := s + [x];
    forall i, j | 0 <= i < j < |r| ensures key(r[i]) >= key(r[j]) {
      assert r[i] == s[i] && s[i] in s;
    }
  }

  /** Stable descending sort by `key`. */
  function SortDesc<T>(xs: seq<T>, key: T -> real): (r: seq<T>)
    ensures multiset(r) == multiset(xs)
    ensures |r| == |xs|
    ensures NonIncreasing(r, key)
  {
    if |xs| == 0 then []
    else
      var n := |xs| - 1;
      assert xs == xs[..n] + [xs[n]];
      Insert(SortDesc(xs[..n], key), xs[n], key)
  }

  /** Inserting an element ranked after everything keeps the tie order. */
  lemma {:induction false} InsertLex<T>(s: seq<T>, x: T, key: T -> real, rank: T -> int)
    requires NonIncreasing(s, key)
    requires LexSorted(s, key, rank)
    requires forall y | y in s :: rank(y) < rank(x)
    ensures LexSorted(Insert(s, x, key), key, rank)
  {
    if |s| > 0 {
      var n := |s| - 1;
      if key(s[n]) >= key(x) {
        forall y | y in s ensures key(y) > key(x) || (key(y) == key(x) && rank(y) < rank(x)) {
          var k :| 0 <= k < |s| && s[k] == y;
          assert k == n || key(s[k]) >= key(s[n]);
        }
        AppendLex(s, x, key, rank);
      } else {
        assert s == s[..n] + [s[n]];
        InsertLex(s[..n], x, key, rank);
        InsertBelow(s, x, key, rank);
      }
    }
  }

  /** The branch of `Insert` that recurses: the last element of `s` ends up
      last, behind `x` and the rest of `s`. */
  lemma InsertBelow<T>(s: seq<T>, x: T, key: T -> real, rank: T -> int)
    requires |s| > 0 && NonIncreasing(s, key) && LexSorted(s, key, rank)
    requires key(s[|s| - 1]) < key(x)
    requires LexSorted(Insert(s[..|s| - 1], x, key), key, rank)
    ensures LexSorted(Insert(s, x, key), key, rank)
  {
    var n := |s| - 1;
    var r' := Insert(s[..n], x, key);
    forall y | y in r' ensures key(y) > key(s[n]) || (key(y) == key(s[n]) && rank(y) < rank(s[n])) {
      assert y in multiset(s[..n]) + multiset{x};
      if y != x {
        var k :| 0 <= k < n && s[k] == y;
      }
    }
    AppendLex(r', s[n], key, rank);
  }

  /** A prefix of a lexicographically sorted sequence is sorted. */
  lemma LexPrefix<T>(xs: seq<T>, k: nat, key: T -> real, rank: T -> int)
    requires k <= |xs| && LexSorted(xs, key, rank)
    ensures LexSorted(xs[..k], key, rank)
  {
    forall i, j | 0 <= i < j < k
      ensures key(xs[..k][i]) > key(xs[..k][j]) || (key(xs[..k][i]) == key(xs[..k][j]) && rank(xs[..k][i]) < rank(xs[..k][j]))
    {
      assert xs[..k][i] == xs[i] && xs[..k][j] == xs[j];
    }
  }

  /** Appending an element that comes after every element keeps the order. */
  lemma AppendLex<T>(s: seq<T>, x: T, key: T -> real, rank: T -> int)
    requires LexSorted(s, key, rank)
    requires forall y | y in s :: key(y) > key(x) || (key(y) == key(x) && rank(y) < rank(x))
    ensures LexSorted(s + [x], key, rank)
  {
    var r := s + [x];
    forall i, j | 0 <= i < j < |r|
      ensures key(r[i]) > key(r[j]) || (key(r[i]) == key(r[j]) && rank(r[i]) < rank(r[j]))
    {
      assert r[i] == s[i];
      if j == |s| {
        assert s[i] in s;
      }
    }
  }

  /** The sort is stable: when the input is listed in increasing `rank`,
      equal keys come out in increasing `rank`. */
  lemma {:induction false} SortDescStable<T>(xs: seq<T>, key: T -> real, rank: T -> int)
    requires RankIncreasing(xs, rank)
    ensures LexSorted(SortDesc(xs, key), key, rank)
  {
    if |xs| > 0 {
      var n := |xs| - 1;
      var s := SortDesc(xs[..n], key);
      SortDescStable(xs[..n], key, rank);
      forall y | y in s ensures rank(y) < rank(xs[n]) {
        assert y in multiset(xs[..n]);
      }
      InsertLex(s, xs[n], key, rank);
    }
  }

  /** The values `f` takes over `xs`, in order. */
  function Project<T, U>(xs: seq<T>, f: T -> U): (r: seq<U>)
    ensures |r| == |xs|
  {
    if |xs| == 0 then [] else Project(xs[..|xs| - 1], f) + [f(xs[|xs| - 1])]
  }

  /** Inserting adds exactly one projected value. */
  lemma {:induction false} InsertProject<T, U>(s: seq<T>, x: T, key: T -> real, f: T -> U)
    requires NonIncreasing(s, key)
    ensures multiset(Project(Insert(s, x, key), f)) == multiset(Project(s, f)) + multiset{f(x)}
  {
    if |s| > 0 {
      var n := |s| - 1;
      assert s == s[..n] + [s[n]];
      ProjectSnoc(s[..n], s[n], f);
      if key(s[n]) >= key(x) {
        assert Insert(s, x, key) == s + [x];
        ProjectSnoc(s, x, f);
      } else {
        var r' := Insert(s[..n], x, key);
        assert Insert(s, x, key) == r' + [s[n]];
        InsertProject(s[..n], x, key, f);
        ProjectSnoc(r', s[n], f);
      }
    }
  }

  /** Projecting a sequence with one more element at the end. */
  lemma ProjectSnoc<T, U>(xs: seq<T>, y: T, f: T -> U)
    ensures Project(xs + [y], f) == Project(xs, f) + [f(y)]
  {
    assert (xs + [y])[..|xs|] == xs;
  }

  /** Sorting permutes the projected values: one output row per input row. */
  lemma {:induction false} SortDescProject<T, U>(xs: seq<T>, key: T -> real, f: T -> U)
    ensures multiset(Project(SortDesc(xs, key), f)) == multiset(Project(xs, f))
  {
    if |xs| > 0 {
      var n := |xs| - 1;
      SortDescProject(xs[..n], key, f);
      InsertProject(SortDesc(xs[..n], key), xs[n], key, f);
    }
  }

  /** `Project` applies `f` position by position. */
  lemma {:induction false} ProjectAt<T, U>(xs: seq<T>, f: T -> U)
    ensures forall i :: 0 <= i < |xs| ==> Project(xs, f)[i] == f(xs[i])
  {
    if |xs| > 0 {
      ProjectAt(xs[..|xs| - 1], f);
    }
  }

  /** A prefix projects to part of the whole projection. */
  lemma {:induction false} ProjectPrefix<T, U>(xs: seq<T>, k: nat, f: T -> U)
    requires k <= |xs|
    ensures multiset(Project(xs[..k], f)) <= multiset(Project(xs, f))
    decreases |xs| - k
  {
    if k < |xs| {
      var n := |xs| - 1;
      assert xs[..n][..k] == xs[..k];
      ProjectPrefix(xs[..n], k, f);
      assert Project(xs, f) == Project(xs[..n], f) + [f(xs[n])];
    } else {
      assert xs[..k] == xs;
    }
  }

  /** In a sorted permutation of `xs`, any element keyed strictly above the
      `k`-th one lies among the first `k`. */
  lemma PrefixHoldsTop<T, U>(xs: seq<T>, sorted: seq<T>, key: T -> real, k: nat, f: T -> U)
    requires multiset(sorted) == multiset(xs)
    requires NonIncreasing(sorted, key)
    requires 0 < k <= |sorted|
    ensures forall x | x in xs && key(x) > key(sorted[k - 1]) :: f(x) in Project(sorted[..k], f)
  {
    ProjectAt(sorted[..k], f);
    forall x | x in xs && key(x) > key(sorted[k - 1]) ensures f(x) in Project(sorted[..k], f) {
      assert x in multiset(xs);
      var p :| 0 <= p < |sorted| && sorted[p] == x;
      assert p < k;
      assert Project(sorted[..k], f)[p] == f(x);
    }
  }
}

/** Collection helpers shared by the model: duplicate-freedom, first
    occurrence, first-seen de-duplication, occurrence counting, two-element
    sets, and the sizes of subsets and the ratios they give. */
module Seqs {

  /** No element occurs twice. */
  ghost predicate NoDup<T>(xs: seq<T>) {
    forall i, j :: 0 <= i < j < |xs| ==> xs[i] != xs[j]
  }

  /** The elements of `xs` as a set (Python's `set(xs)`). */
  function Elems<T>(xs: seq<T>): (s: set<T>)
    ensures forall i :: 0 <= i < |xs| ==> xs[i] in s
    ensures forall x | x in s :: x in xs
  {
    set x | x in xs
  }

  /** A two-element set containing `a` is `{a, b}` for its other element. */
  lemma PairShape<T>(e: set<T>, a: T) returns (b: T)
    requires |e| == 2 && a in e
    ensures b != a && e == {a, b}
  {
    assert e - {a} != {};
    b :| b in e - {a};
    var rest := e - {a, b};
    assert |rest| == |e| - 2;
    assert rest == {};
  }

  /** Position of the first occurrence of `x`, or `|xs|` when it is absent. */
  function FirstIndex<T(==)>(xs: seq<T>, x: T): (i: nat)
    ensures i <= |xs|
    ensures i < |xs| <==> x in xs
    ensures i < |xs| ==> xs[i] == x
    ensures forall j :: 0 <= j < i ==> xs[j] != x
  {
    if |xs| == 0 then 0
    else if xs[0] == x then 0
    else 1 + FirstIndex(xs[1..], x)
  }

  /** The first occurrence of an element of a prefix is found in the prefix. */
  lemma {:induction false} FirstIndexPrefix<T>(xs: seq<T>, k: nat, x: T)
    requires k <= |xs|
    requires x in xs[..k]
    ensures FirstIndex(xs, x) == FirstIndex(xs[..k], x)
  {
    var i := FirstIndex(xs[..k], x);
    assert xs[i] == x;
    assert forall j | 0 <= j < i :: xs[j] == xs[..k][j];
    var r := FirstIndex(xs, x);
    assert r <= i;
  }

  /** The first occurrence of an element absent from `a` lies in `b`. */
  lemma FirstIndexAppend<T>(a: seq<T>, b: seq<T>, x: T)
    requires x !in a && x in b
    ensures FirstIndex(a + b, x) == |a| + FirstIndex(b, x)
  {
    var i := |a| + FirstIndex(b, x);
    assert (a + b)[i] == x;
    forall j | 0 <= j < i ensures (a + b)[j] != x {
      if j >= |a| { assert (a + b)[j] == b[j - |a|]; }
    }
  }

  /** The lists laid end to end, in order (repeated `list.extend`). */
  function Concat<T>(xss: seq<seq<T>>): seq<T>
  {
    if |xss| == 0 then [] else Concat(xss[..|xss| - 1]) + xss[|xss| - 1]
  }

  /** Where list `i` begins in `Concat(xss)`: the total length before it. */
  function Offset<T>(xss: seq<seq<T>>, i: nat): nat
    requires i <= |xss|
  {
    if i == 0 then 0 else Offset(xss, i - 1) + |xss[i - 1]|
  }

  /** A list ends before any later list begins. */
  lemma {:induction false} OffsetMono<T>(xss: seq<seq<T>>, j: nat, i: nat)
    requires j < i <= |xss|
    ensures Offset(xss, j) + |xss[j]| <= Offset(xss, i)
  {
    if j < i - 1 {
      OffsetMono(xss, j, i - 1);
    }
  }

  /** Offsets do not depend on the lists after them. */
  lemma {:induction false} OffsetPrefix<T>(xss: seq<seq<T>>, n: nat, i: nat)
    requires i <= n <= |xss|
    ensures Offset(xss[..n], i) == Offset(xss, i)
  {
    if i > 0 {
      OffsetPrefix(xss, n, i - 1);
      assert xss[..n][i - 1] == xss[i - 1];
    }
  }

  /** `Concat` is as long as all lists together. */
  lemma {:induction false} ConcatLength<T>(xss: seq<seq<T>>)
    ensures |Concat(xss)| == Offset(xss, |xss|)
  {
    if |xss| > 0 {
      var n := |xss| - 1;
      ConcatLength(xss[..n]);
      OffsetPrefix(xss, n, n);
    }
  }

  /** Position `k` of list `i` sits at `Offset(xss, i) + k` in `Concat(xss)`. */
  lemma {:induction false} ConcatAt<T>(xss: seq<seq<T>>, i: nat, k: nat)
    requires i < |xss| && k < |xss[i]|
    ensures Offset(xss, i) + k < |Concat(xss)| && Concat(xss)[Offset(xss, i) + k] == xss[i][k]
  {
    var n := |xss| - 1;
    var front := xss[..n];
    ConcatLength(front);
    OffsetPrefix(xss, n, n);
    assert Concat(xss) == Concat(front) + xss[n];
    if i < n {
      ConcatAt(front, i, k);
      OffsetPrefix(xss, n, i);
      OffsetMono(xss, i, n);
      assert front[i] == xss[i];
    }
  }

  /** `Concat` is as long as all lists together, and list `i` fills the
      positions from `Offset(xss, i)` on. */
  lemma ConcatLaid<T>(xss: seq<seq<T>>)
    ensures |Concat(xss)| == Offset(xss, |xss|)
    ensures forall i, k | 0 <= i < |xss| && 0 <= k < |xss[i]| ::
      Offset(xss, i) + k < |Concat(xss)| && Concat(xss)[Offset(xss, i) + k] == xss[i][k]
  {
    ConcatLength(xss);
    forall i, k | 0 <= i < |xss| && 0 <= k < |xss[i]|
      ensures Offset(xss, i) + k < |Concat(xss)| && Concat(xss)[Offset(xss, i) + k] == xss[i][k]
    {
      ConcatAt(xss, i, k);
    }
  }

  /** How often `x` occurs over all the lists: the sum of its counts. */
  function CountAll<T(==)>(xss: seq<seq<T>>, x: T): nat
  {
    if |xss| == 0 then 0 else CountAll(xss[..|xss| - 1], x) + multiset(xss[|xss| - 1])[x]
  }

  /** `Concat` holds each element as often as the lists do together. */
  lemma {:induction false} ConcatCount<T>(xss: seq<seq<T>>, x: T)
    ensures multiset(Concat(xss))[x] == CountAll(xss, x)
  {
    if |xss| > 0 {
      ConcatCount(xss[..|xss| - 1], x);
    }
  }

  /** Every element of `Concat(xss)` comes from one of the lists. */
  lemma {:induction false} ConcatFrom<T>(xss: seq<seq<T>>, x: T) returns (i: nat)
    requires x in Concat(xss)
    ensures i < |xss| && x in xss[i]
  {
    var n := |xss| - 1;
    if x in Concat(xss[..n]) {
      i := ConcatFrom(xss[..n], x);
      assert xss[..n][i] == xss[i];
    } else {
      i := n;
    }
  }

  /** Every element of every list is in `Concat(xss)`. */
  lemma {:induction false} ConcatHolds<T>(xss: seq<seq<T>>, p: nat, x: T)
    requires p < |xss| && x in xss[p]
    ensures x in Concat(xss)
  {
    var n := |xss| - 1;
    if p < n {
      assert xss[..n][p] == xss[p];
      ConcatHolds(xss[..n], p, x);
    }
  }

  /** The first occurrence of `x` in `Concat(xss)` lies in the first list
      holding it, at its first position there. */
  lemma {:induction false} ConcatFirst<T>(xss: seq<seq<T>>, x: T, p: nat)
    requires p < |xss| && x in xss[p]
    requires forall q | 0 <= q < p :: x !in xss[q]
    ensures FirstIndex(Concat(xss), x) == Offset(xss, p) + FirstIndex(xss[p], x)
  {
    var n := |xss| - 1;
    var front := xss[..n];
    assert Concat(xss) == Concat(front) + xss[n];
    if p < n {
      assert front[p] == xss[p];
      assert forall q | 0 <= q < p :: front[q] == xss[q];
      ConcatFirst(front, x, p);
      ConcatLaid(front);
      assert Concat(front)[Offset(front, p) + FirstIndex(xss[p], x)] == x;
      FirstIndexPrefix(Concat(xss), |Concat(front)|, x);
      assert Concat(xss)[..|Concat(front)|] == Concat(front);
      OffsetPrefix(xss, n, p);
    } else {
      if x in Concat(front) {
        var q := ConcatFrom(front, x);
      }
      ConcatLaid(front);
      OffsetPrefix(xss, n, n);
      FirstIndexAppend(Concat(front), xss[n], x);
    }
  }

  /** Number of occurrences of `x` (`Counter(xs)[x]`). */
  function Count<T(==)>(xs: seq<T>, x: T): (c: nat)
    ensures c == multiset(xs)[x]
    ensures c > 0 <==> x in xs
  {
    if |xs| == 0 then 0
    else
      assert xs == [xs[0]] + xs[1..];
      (if xs[0] == x then 1 else 0) + Count(xs[1..], x)
  }

  /** The distinct elements of `xs` in first-seen order, the key order of a
      Python `dict` or `Counter` filled from `xs`. */
  function Distinct<T(==)>(xs: seq<T>): (d: seq<T>)
    ensures NoDup(d)
    ensures Elems(d) == Elems(xs)
    ensures forall i, j :: 0 <= i < j < |d| ==> FirstIndex(xs, d[i]) < FirstIndex(xs, d[j])
  {
    if |xs| == 0 then []
    else
      var n := |xs| - 1;
      var d := Distinct(xs[..n]);
      DistinctElems(xs, d);
      DistinctPrefixRanks(xs, d);
      if xs[n] in d then d
      else
        NewLastRank(xs);
        var r := d + [xs[n]];
        AppendRanked(xs, d, r);
        r
  }

  /** The elements after one step of `Distinct`. */
  lemma DistinctElems<T>(xs: seq<T>, d: seq<T>)
    requires |xs| > 0 && Elems(d) == Elems(xs[..|xs| - 1])
    ensures xs[|xs| - 1] in d ==> Elems(d) == Elems(xs)
    ensures xs[|xs| - 1] !in d ==> Elems(d + [xs[|xs| - 1]]) == Elems(xs)
  {
    var n := |xs| - 1;
    assert xs == xs[..n] + [xs[n]];
    ElemsSnoc(xs[..n], xs[n]);
    ElemsSnoc(d, xs[n]);
  }

  /** Appending the element first seen last keeps the sequence in
      first-seen order and free of duplicates. */
  lemma AppendRanked<T>(xs: seq<T>, d: seq<T>, r: seq<T>)
    requires |xs| > 0 && xs[|xs| - 1] !in d && NoDup(d)
    requires forall i :: 0 <= i < |d| ==> FirstIndex(xs, d[i]) < |xs| - 1
    requires forall i, j :: 0 <= i < j < |d| ==> FirstIndex(xs, d[i]) < FirstIndex(xs, d[j])
    requires FirstIndex(xs, xs[|xs| - 1]) == |xs| - 1
    requires r == d + [xs[|xs| - 1]]
    ensures NoDup(r)
    ensures forall i, j :: 0 <= i < j < |r| ==> FirstIndex(xs, r[i]) < FirstIndex(xs, r[j])
  {
    forall i, j | 0 <= i < j < |r| ensures FirstIndex(xs, r[i]) < FirstIndex(xs, r[j]) && r[i] != r[j] {
      assert r[i] == d[i];
    }
  }

  /** Appending adds one element to the set of elements. */
  lemma ElemsSnoc<T>(xs: seq<T>, y: T)
    ensures Elems(xs + [y]) == Elems(xs) + {y}
  {
    assert forall x | x in Elems(xs) :: x in xs + [y];
  }

  /** An element new at the end is first seen there. */
  lemma NewLastRank<T>(xs: seq<T>)
    requires |xs| > 0 && xs[|xs| - 1] !in xs[..|xs| - 1]
    ensures FirstIndex(xs, xs[|xs| - 1]) == |xs| - 1
  {
    var n := |xs| - 1;
    assert forall j | 0 <= j < n :: xs[j] == xs[..n][j];
  }

  /** Ranks of the elements of the prefix's de-duplication survive extension. */
  lemma DistinctPrefixRanks<T>(xs: seq<T>, d: seq<T>)
    requires |xs| > 0
    requires Elems(d) == Elems(xs[..|xs| - 1])
    ensures forall i :: 0 <= i < |d| ==>
      FirstIndex(xs, d[i]) == FirstIndex(xs[..|xs| - 1], d[i]) < |xs| - 1
  {
    forall i | 0 <= i < |d|
      ensures FirstIndex(xs, d[i]) == FirstIndex(xs[..|xs| - 1], d[i]) < |xs| - 1
    {
      FirstIndexPrefix(xs, |xs| - 1, d[i]);
    }
  }

  /** A duplicate-free sequence has as many elements as its set. */
  lemma {:induction false} NoDupCard<T>(xs: seq<T>)
    requires NoDup(xs)
    ensures |Elems(xs)| == |xs|
  {
    if |xs| > 0 {
      var n := |xs| - 1;
      NoDupCard(xs[..n]);
      assert xs[n] !in xs[..n];
      assert Elems(xs) == Elems(xs[..n]) + {xs[n]};
    }
  }

  /** A subset is no larger than its superset, and equally large only when
      it is the whole. */
  lemma SubsetCard<T>(a: set<T>, b: set<T>)
    requires a <= b
    ensures |a| <= |b|
    ensures |a| == |b| ==> a == b
  {
    assert b == a + (b - a);
    assert |b| == |a| + |b - a|;
  }

  /** A ratio of a part to its whole lies in [0, 1] and is 1 only for the
      whole. */
  lemma RatioInUnit(d: real, m: real)
    requires 0.0 <= d <= m && m > 0.0
    ensures 0.0 <= d / m <= 1.0
    ensures d / m == 1.0 <==> d == m
  {
    var q := d / m;
    assert q * m == d;
  }
}

/** The weighted skill co-occurrence graph (core/graph_analysis.py:45-82).

    Every posting's skills are de-duplicated; every unordered pair of
    distinct skills of one posting adds 1 to that pair's counter; each
    counted pair becomes an edge whose weight is its count. A pair is keyed
    by the two-element set of its skills, which plays the part of the
    source's sorted tuple. */
module Cooccurrence {
  import opened Seqs
  import opened SkillField
  import opened Bipartite

  /** The co-occurrence counter: pair of skills to number of postings. */
  type Counter = map<set<string>, nat>

  /** The resulting graph: its nodes and its weighted edges. */
  datatype SkillGraph = SkillGraph(nodes: set<string>, weight: Counter)

  /** The distinct non-empty skills of a posting. */
  function SkillSet(f: Field): set<string>
  {
    set s | s in Normalize(f) && s != ""
  }

  /** `list(set([s for s in skills if s]))`. The source's order is Python's
      hash order; first-seen order stands in for it, and nothing below depends
      on the order. */
  function PostingSkills(f: Field): (xs: seq<string>)
    ensures NoDup(xs)
    ensures Elems(xs) == SkillSet(f)
  {
    var ys := Distinct(Normalize(f));
    NonEmptyOnly(ys)
  }

  /** `[s for s in xs if s]`. */
  function NonEmptyOnly(xs: seq<string>): (r: seq<string>)
    requires NoDup(xs)
    ensures NoDup(r)
    ensures Elems(r) == Elems(xs) - {""}
  {
    if |xs| == 0 then []
    else
      var rest := NonEmptyOnly(xs[1..]);
      assert xs[0] !in xs[1..];
      assert Elems(xs) == {xs[0]} + Elems(xs[1..]);
      if xs[0] != "" then [xs[0]] + rest else rest
  }

  /** `[{a, y} for y in ys]`: the pairs the inner loop at line 74 forms with `a`. */
  function Fan(a: string, ys: seq<string>): seq<set<string>>
  {
    if |ys| == 0 then [] else [{a, ys[0]}] + Fan(a, ys[1..])
  }

  /** The pairs formed by lines 73-75, one per index pair `i < j`. */
  function PairKeys(xs: seq<string>): seq<set<string>>
  {
    if |xs| == 0 then [] else Fan(xs[0], xs[1..]) + PairKeys(xs[1..])
  }

  /** With distinct partners, `Fan` forms each pair with `a` exactly once. */
  lemma {:induction false} FanCount(a: string, ys: seq<string>, e: set<string>)
    requires NoDup(ys) && a !in ys
    ensures multiset(Fan(a, ys))[e] == if |e| == 2 && a in e && e <= Elems(ys) + {a} then 1 else 0
  {
    if |ys| == 0 {
      if |e| == 2 && a in e {
        var b := PairShape(e, a);
        assert b !in Elems(ys) + {a};
      }
    } else {
      var y := ys[0];
      assert Fan(a, ys) == [{a, y}] + Fan(a, ys[1..]);
      FanCount(a, ys[1..], e);
      FanHead(a, ys, e);
    }
  }

  /** The first pair `Fan` forms accounts for the difference between `ys`
      and its tail. */
  lemma FanHead(a: string, ys: seq<string>, e: set<string>)
    requires |ys| > 0 && NoDup(ys) && a !in ys
    ensures (if {a, ys[0]} == e then 1 else 0)
      + (if |e| == 2 && a in e && e <= Elems(ys[1..]) + {a} then 1 else 0)
      == (if |e| == 2 && a in e && e <= Elems(ys) + {a} then 1 else 0)
  {
    var y := ys[0];
    assert Elems(ys) == {y} + Elems(ys[1..]);
    assert y !in ys[1..];
    if |e| == 2 && a in e {
      var b := PairShape(e, a);
      if b == y {
        assert e == {a, y};
        assert !(e <= Elems(ys[1..]) + {a});
      } else {
        assert {a, y} != e by { assert y in {a, y}; }
      }
    } else {
      assert {a, y} != e;
    }
  }

  /** From a duplicate-free list, every two-element subset is formed exactly
      once and nothing else is formed: no self-pairs, no double counts. */
  lemma {:induction false} PairKeysCount(xs: seq<string>, e: set<string>)
    requires NoDup(xs)
    ensures multiset(PairKeys(xs))[e] == if |e| == 2 && e <= Elems(xs) then 1 else 0
  {
    if |xs| > 0 {
      var a := xs[0];
      assert a !in xs[1..];
      assert Elems(xs) == {a} + Elems(xs[1..]);
      FanCount(a, xs[1..], e);
      PairKeysCount(xs[1..], e);
    }
  }

  /** `counter[e]` for a `Counter`, which reads missing keys as 0. */
  function Weight(c: Counter, e: set<string>): nat
  {
    if e in c then c[e] else 0
  }

  /** `counter[pair] += 1` for every pair of `keys`, in order. */
  function Bump(c: Counter, keys: seq<set<string>>): (r: Counter)
    ensures forall e :: Weight(r, e) == Weight(c, e) + multiset(keys)[e]
    ensures forall e | e in r :: e in c || e in keys
    decreases |keys|
  {
    if |keys| == 0 then c
    else
      var k := keys[0];
      assert keys == [k] + keys[1..];
      Bump(c[k := Weight(c, k) + 1], keys[1..])
  }

  /** Number of postings among `rows` that contain both skills of `e`. */
  function Support(rows: seq<JobRow>, e: set<string>): nat
  {
    if |rows| == 0 then 0
    else Support(rows[..|rows| - 1], e) + (if e <= SkillSet(rows[|rows| - 1].skills) then 1 else 0)
  }

  /** The counter after the row loop at lines 62-76: every pair of distinct
      skills is counted once per posting that contains both, nothing else is
      counted, and no entry is 0. */
  function CountPairs(rows: seq<JobRow>): (c: Counter)
    ensures forall e :: Weight(c, e) == if |e| == 2 then Support(rows, e) else 0
    ensures forall e | e in c :: c[e] >= 1
  {
    if |rows| == 0 then map[]
    else
      var n := |rows| - 1;
      var prev := CountPairs(rows[..n]);
      var xs := PostingSkills(rows[n].skills);
      var c := Bump(prev, PairKeys(xs));
      assert forall e :: Weight(c, e) == if |e| == 2 then Support(rows, e) else 0 by {
        forall e ensures Weight(c, e) == if |e| == 2 then Support(rows, e) else 0 {
          PairKeysCount(xs, e);
        }
      }
      assert forall e | e in c :: c[e] >= 1 by {
        forall e | e in c ensures c[e] >= 1 {
          assert Weight(c, e) == c[e];
          if e !in prev {
            PairKeysCount(xs, e);
            assert e in multiset(PairKeys(xs));
          }
        }
      }
      c
  }

  /** The endpoints of the counted pairs: `G.add_edge` adds only these. */
  function Endpoints(c: Counter): set<string>
  {
    set e, s | e in c && s in e :: s
  }

  /** `build_skill_cooccurrence_graph`: an edge between two distinct skills
      exists exactly when some posting contains both, its weight is the number
      of such postings (at least 1), and there is no self-loop. */
  function BuildCooccurrence(rows: seq<JobRow>): (g: SkillGraph)
    ensures forall e :: e in g.weight <==>
      |e| == 2 && exists i :: 0 <= i < |rows| && e <= SkillSet(rows[i].skills)
    ensures forall e | e in g.weight :: |e| == 2 && g.weight[e] == Support(rows, e) >= 1
    ensures forall s :: s in g.nodes <==> exists e :: e in g.weight && s in e
  {
    var c := CountPairs(rows);
    forall e ensures e in c <==> |e| == 2 && exists i :: 0 <= i < |rows| && e <= SkillSet(rows[i].skills) {
      assert Weight(c, e) == if |e| == 2 then Support(rows, e) else 0;
      SupportPositive(rows, e);
    }
    SkillGraph(Endpoints(c), c)
  }

  /** Some posting contains the pair exactly when its support is positive. */
  lemma {:induction false} SupportPositive(rows: seq<JobRow>, e: set<string>)
    ensures Support(rows, e) > 0 <==> exists i :: 0 <= i < |rows| && e <= SkillSet(rows[i].skills)
  {
    if |rows| > 0 {
      var n := |rows| - 1;
      SupportPositive(rows[..n], e);
      assert forall i :: 0 <= i < n ==> rows[..n][i] == rows[i];
    }
  }

  /** Counters that read the same everywhere are equal. */
  lemma CounterExt(c1: Counter, c2: Counter)
    requires forall e | e in c1 :: c1[e] >= 1
    requires forall e | e in c2 :: c2[e] >= 1
    requires forall e :: Weight(c1, e) == Weight(c2, e)
    ensures c1 == c2
  {
    forall e ensures e in c1 <==> e in c2 {
      assert Weight(c1, e) == Weight(c2, e);
    }
    forall e | e in c1 ensures c1[e] == c2[e] {
      assert Weight(c1, e) == Weight(c2, e);
    }
  }

  /** Support adds up over concatenated row lists. */
  lemma {:induction false} SupportConcat(a: seq<JobRow>, b: seq<JobRow>, e: set<string>)
    ensures Support(a + b, e) == Support(a, e) + Support(b, e)
  {
    if |b| == 0 {
      assert a + b == a;
    } else {
      var n := |b| - 1;
      assert (a + b)[..|a + b| - 1] == a + b[..n];
      assert (a + b)[|a + b| - 1] == b[n];
      SupportConcat(a, b[..n], e);
    }
  }

  /** Removing one row removes its contribution. */
  lemma SupportRemove(rows: seq<JobRow>, k: nat, e: set<string>)
    requires k < |rows|
    ensures Support(rows, e) == Support(rows[..k] + rows[k + 1..], e) + Support([rows[k]], e)
  {
    assert rows == rows[..k] + ([rows[k]] + rows[k + 1..]);
    SupportConcat(rows[..k], [rows[k]] + rows[k + 1..], e);
    SupportConcat([rows[k]], rows[k + 1..], e);
    SupportConcat(rows[..k], rows[k + 1..], e);
  }

  /** Removing the row at `k` removes one copy from the multiset. */
  lemma MultisetRemove(rows: seq<JobRow>, k: nat)
    requires k < |rows|
    ensures multiset(rows[..k] + rows[k + 1..]) == multiset(rows) - multiset{rows[k]}
  {
    assert rows == rows[..k] + [rows[k]] + rows[k + 1..];
  }

  /** Support does not depend on the order of the rows. */
  lemma {:induction false} SupportPermutation(rows1: seq<JobRow>, rows2: seq<JobRow>, e: set<string>)
    requires multiset(rows1) == multiset(rows2)
    ensures Support(rows1, e) == Support(rows2, e)
    decreases |rows1|
  {
    if |rows1| == 0 {
      assert |rows2| == |multiset(rows2)| == 0;
    } else {
      var n := |rows1| - 1;
      var x := rows1[n];
      assert x in multiset(rows2);
      var k :| 0 <= k < |rows2| && rows2[k] == x;
      var rest := rows2[..k] + rows2[k + 1..];
      MultisetRemove(rows2, k);
      MultisetRemove(rows1, n);
      assert rows1[..n] + rows1[n + 1..] == rows1[..n];
      SupportPermutation(rows1[..n], rest, e);
      SupportRemove(rows2, k, e);
      SupportRemove(rows1, n, e);
    }
  }

  /** Permuting the postings leaves the graph unchanged. */
  lemma CooccurrenceOrderInvariant(rows1: seq<JobRow>, rows2: seq<JobRow>)
    requires multiset(rows1) == multiset(rows2)
    ensures BuildCooccurrence(rows1) == BuildCooccurrence(rows2)
  {
    var c1, c2 := CountPairs(rows1), CountPairs(rows2);
    forall e ensures Weight(c1, e) == Weight(c2, e) {
      SupportPermutation(rows1, rows2, e);
    }
    CounterExt(c1, c2);
  }

  /** Only a set of at least two skills contains a pair. */
  lemma PairNeedsTwo(e: set<string>, s: set<string>)
    requires |e| == 2
    ensures e <= s ==> |s| >= 2
  {
    if e <= s {
      var a :| a in e;
      var b := PairShape(e, a);
      assert b in s - {a};
      assert |s - {a}| == |s| - 1;
    }
  }

  /** A posting with fewer than two distinct skills adds nothing. */
  lemma SmallPostingIgnored(rows: seq<JobRow>, row: JobRow)
    requires |SkillSet(row.skills)| <= 1
    ensures BuildCooccurrence(rows + [row]) == BuildCooccurrence(rows)
  {
    var rows' := rows + [row];
    var c1, c2 := CountPairs(rows'), CountPairs(rows);
    assert rows'[..|rows|] == rows;
    forall e ensures Weight(c1, e) == Weight(c2, e) {
      if |e| == 2 {
        PairNeedsTwo(e, SkillSet(row.skills));
        assert Support(rows', e) == Support(rows, e);
      }
    }
    CounterExt(c1, c2);
  }

  /** A skill is a node exactly when it shares some posting with another
      skill: skills that never co-occur do not appear. */
  lemma CooccurrenceNodes(rows: seq<JobRow>, s: string)
    ensures s in BuildCooccurrence(rows).nodes <==>
      exists i, t :: 0 <= i < |rows| && t != s && s in SkillSet(rows[i].skills) && t in SkillSet(rows[i].skills)
  {
    if s in BuildCooccurrence(rows).nodes {
      NodeHasPartner(rows, s);
    }
    if exists i, t :: 0 <= i < |rows| && t != s && s in SkillSet(rows[i].skills) && t in SkillSet(rows[i].skills) {
      var i, t :| 0 <= i < |rows| && t != s && s in SkillSet(rows[i].skills) && t in SkillSet(rows[i].skills);
      PartnerMakesNode(rows, i, s, t);
    }
  }

  /** A node shares a posting with the other end of one of its edges. */
  lemma NodeHasPartner(rows: seq<JobRow>, s: string)
    requires s in BuildCooccurrence(rows).nodes
    ensures exists i, t :: 0 <= i < |rows| && t != s && s in SkillSet(rows[i].skills) && t in SkillSet(rows[i].skills)
  {
    var g := BuildCooccurrence(rows);
    var e :| e in g.weight && s in e;
    var t := PairShape(e, s);
    var i :| 0 <= i < |rows| && e <= SkillSet(rows[i].skills);
    assert t in e;
  }

  /** Two distinct skills of one posting are both nodes. */
  lemma PartnerMakesNode(rows: seq<JobRow>, i: nat, s: string, t: string)
    requires i < |rows| && t != s
    requires s in SkillSet(rows[i].skills) && t in SkillSet(rows[i].skills)
    ensures s in BuildCooccurrence(rows).nodes
  {
    var g := BuildCooccurrence(rows);
    var e := {s, t};
    assert |e| == 2;
    assert e <= SkillSet(rows[i].skills);
    assert e in g.weight;
  }
}

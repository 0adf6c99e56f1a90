/** Skill-gap scoring (core/analysis.py:1-32): per-posting match metrics
    against the user's skills, and the ranked list of skills the user is
    missing. */
module SkillGap {
  import opened Wrappers
  import opened Seqs
  import opened Ranking

  /** A cell of a posting record. */
  datatype Value = Str(s: string) | Strs(items: seq<string>) | Int(i: int) | Float(f: real) | Other

  /** A posting record: column name to value. */
  type Record = map<string, Value>

  /** What iterating over a cell yields: the items of a list, the
      one-character strings of a string; numbers and `None` are not
      iterable. */
  function Iterate(v: Value): (r: Option<seq<string>>)
    ensures v.Strs? ==> r == Some(v.items)
    ensures v.Str? ==> r.Some? && |r.value| == |v.s| && forall i | 0 <= i < |v.s| :: r.value[i] == [v.s[i]]
    ensures r.Some? <==> v.Strs? || v.Str?
  {
    match v
    case Strs(items) => Some(items)
    case Str(s) => Some(seq(|s|, i requires 0 <= i < |s| => [s[i]]))
    case _ => None
  }

  /** A posting whose detected skills can be read and iterated. */
  predicate HasSkillList(row: Record) {
    "skills_detected" in row && Iterate(row["skills_detected"]).Some?
  }

  /** The raw detected skills of a posting, in iteration order. */
  function Detected(row: Record): seq<string>
    requires HasSkillList(row)
  {
    Iterate(row["skills_detected"]).value
  }

  /** The distinct skills of a posting (line 8). */
  function JobSkills(row: Record): set<string>
    requires HasSkillList(row)
  {
    Elems(Detected(row))
  }

  /** The numeric reading of a cell. */
  function AsReal(v: Value): real
  {
    match v
    case Int(i) => i as real
    case Float(f) => f
    case _ => 0.0
  }

  /** The three columns every posting gains. */
  const NewColumns: set<string> := {"n_skills_job", "n_skills_user_has", "match_ratio"}

  /** Lines 11-14: the share of the posting's skills the user has, as a
      float; the integer 0 for a posting without skills. */
  function MatchRatio(job: set<string>, user: set<string>): (v: Value)
    ensures job == {} ==> v == Int(0)
    ensures job != {} ==> v.Float? && v.f * |job| as real == |job * user| as real
    ensures 0.0 <= AsReal(v) <= 1.0
    ensures AsReal(v) == 1.0 <==> job != {} && job <= user
  {
    if |job| > 0 then
      SubsetCard(job * user, job);
      RatioInUnit(|job * user| as real, |job| as real);
      Float(|job * user| as real / |job| as real)
    else
      Int(0)
  }

  /** Lines 8-14 for one posting: the record gains exactly the three metric
      columns, nothing else changes, the user holds at most as many skills
      as the posting lists, and the ratio is the share of the posting's
      skills the user has: it lies in [0, 1] and is 1 exactly when the user
      has every one of a non-empty set of skills. */
  function Annotate(row: Record, user: set<string>): (r: Record)
    requires HasSkillList(row)
    ensures r.Keys == row.Keys + NewColumns
    ensures forall k | k in row && k !in NewColumns :: r[k] == row[k]
    ensures HasSkillList(r) && Detected(r) == Detected(row)
    ensures r["n_skills_job"] == Int(|JobSkills(row)|)
    ensures r["n_skills_user_has"] == Int(|JobSkills(row) * user|)
    ensures 0 <= r["n_skills_user_has"].i <= r["n_skills_job"].i
    ensures 0.0 <= AsReal(r["match_ratio"]) <= 1.0
    ensures JobSkills(row) == {} ==> r["match_ratio"] == Int(0)
    ensures JobSkills(row) != {} ==>
      r["match_ratio"].Float? && r["match_ratio"].f * |JobSkills(row)| as real == |JobSkills(row) * user| as real
    ensures r["match_ratio"] == MatchRatio(JobSkills(row), user)
    ensures AsReal(r["match_ratio"]) == 1.0 <==> JobSkills(row) != {} && JobSkills(row) <= user
  {
    var job := JobSkills(row);
    SubsetCard(job * user, job);
    row["n_skills_job" := Int(|job|)]
       ["n_skills_user_has" := Int(|job * user|)]
       ["match_ratio" := MatchRatio(job, user)]
  }

  /** Lines 7-14: the same postings come back in the same order, each
      annotated. */
  function AnnotateAll(rows: seq<Record>, user: set<string>): (r: seq<Record>)
    requires forall i | 0 <= i < |rows| :: HasSkillList(rows[i])
    ensures |r| == |rows|
    ensures forall i | 0 <= i < |rows| :: r[i] == Annotate(rows[i], user)
  {
    if |rows| == 0 then []
    else
      var n := |rows| - 1;
      AnnotateAll(rows[..n], user) + [Annotate(rows[n], user)]
  }

  /** The postings' raw skill lists, in posting order. */
  function SkillLists(rows: seq<Record>): (ls: seq<seq<string>>)
    requires forall i | 0 <= i < |rows| :: HasSkillList(rows[i])
    ensures |ls| == |rows|
    ensures forall i | 0 <= i < |rows| :: ls[i] == Detected(rows[i])
  {
    seq(|rows|, i requires 0 <= i < |rows| && HasSkillList(rows[i]) => Detected(rows[i]))
  }

  /** How often `s` occurs over the postings' raw skill lists. */
  function Occurrences(rows: seq<Record>, s: string): nat
    requires forall i | 0 <= i < |rows| :: HasSkillList(rows[i])
  {
    if |rows| == 0 then 0
    else
      var n := |rows| - 1;
      assert forall i | 0 <= i < n :: rows[..n][i] == rows[i];
      Occurrences(rows[..n], s) + multiset(Detected(rows[n]))[s]
  }

  /** Where posting `i`'s skills begin in the pooled list: the total length
      of the skill lists before it. */
  function Start(rows: seq<Record>, i: nat): nat
    requires i <= |rows|
    requires forall j | 0 <= j < |rows| :: HasSkillList(rows[j])
  {
    if i == 0 then 0 else Start(rows, i - 1) + |Detected(rows[i - 1])|
  }

  /** Lines 16-18: every detected skill of every posting, duplicates
      included, in posting order. */
  function AllSkills(rows: seq<Record>): seq<string>
    requires forall i | 0 <= i < |rows| :: HasSkillList(rows[i])
  {
    if |rows| == 0 then []
    else
      var n := |rows| - 1;
      assert forall i | 0 <= i < n :: rows[..n][i] == rows[i];
      AllSkills(rows[..n]) + Detected(rows[n])
  }

  /** The pooled list, the occurrence count and the start positions are the
      generic `Concat`, `CountAll` and `Offset` of the postings' lists. */
  lemma {:induction false} PooledIsConcat(rows: seq<Record>)
    requires forall i | 0 <= i < |rows| :: HasSkillList(rows[i])
    ensures AllSkills(rows) == Concat(SkillLists(rows))
    ensures forall s :: Occurrences(rows, s) == CountAll(SkillLists(rows), s)
  {
    if |rows| > 0 {
      var n := |rows| - 1;
      var front := rows[..n];
      assert forall i | 0 <= i < n :: front[i] == rows[i];
      PooledIsConcat(front);
      assert SkillLists(front) == SkillLists(rows)[..n];
    }
  }

  /** Start positions are the generic offsets. */
  lemma {:induction false} StartIsOffset(rows: seq<Record>, i: nat)
    requires i <= |rows|
    requires forall j | 0 <= j < |rows| :: HasSkillList(rows[j])
    ensures Start(rows, i) == Offset(SkillLists(rows), i)
  {
    if i > 0 {
      StartIsOffset(rows, i - 1);
    }
  }

  /** Lines 16-18 as a layout: the pooled list is as long as the postings'
      lists together, and posting `i`'s skills fill the positions from
      `Start(rows, i)` on, so the pooled list is their concatenation in
      posting order. */
  lemma PooledLaid(rows: seq<Record>)
    requires forall i | 0 <= i < |rows| :: HasSkillList(rows[i])
    ensures |AllSkills(rows)| == Start(rows, |rows|)
    ensures forall i, k | 0 <= i < |rows| && 0 <= k < |Detected(rows[i])| ::
      Start(rows, i) + k < |AllSkills(rows)| && AllSkills(rows)[Start(rows, i) + k] == Detected(rows[i])[k]
  {
    var ls := SkillLists(rows);
    PooledIsConcat(rows);
    ConcatLength(ls);
    StartIsOffset(rows, |rows|);
    forall i, k | 0 <= i < |rows| && 0 <= k < |Detected(rows[i])|
      ensures Start(rows, i) + k < |AllSkills(rows)| && AllSkills(rows)[Start(rows, i) + k] == Detected(rows[i])[k]
    {
      assert ls[i] == Detected(rows[i]);
      ConcatAt(ls, i, k);
      StartIsOffset(rows, i);
    }
  }

  /** Each skill occurs in the pooled list as often as over the postings,
      and only skills some posting lists occur in it. */
  lemma PooledCounts(rows: seq<Record>)
    requires forall i | 0 <= i < |rows| :: HasSkillList(rows[i])
    ensures forall s :: multiset(AllSkills(rows))[s] == Occurrences(rows, s)
    ensures forall s | s in AllSkills(rows) :: exists i :: 0 <= i < |rows| && s in Detected(rows[i])
  {
    var ls := SkillLists(rows);
    PooledIsConcat(rows);
    forall s ensures multiset(AllSkills(rows))[s] == Occurrences(rows, s) {
      ConcatCount(ls, s);
    }
    forall s | s in AllSkills(rows) ensures exists i :: 0 <= i < |rows| && s in Detected(rows[i]) {
      var i := ConcatFrom(ls, s);
      assert ls[i] == Detected(rows[i]);
    }
  }

  /** Every skill of every posting is in the pooled list. */
  lemma PooledHolds(rows: seq<Record>, p: nat, s: string)
    requires forall i | 0 <= i < |rows| :: HasSkillList(rows[i])
    requires p < |rows| && s in Detected(rows[p])
    ensures s in AllSkills(rows)
  {
    var ls := SkillLists(rows);
    assert ls[p] == Detected(rows[p]);
    ConcatHolds(ls, p, s);
    PooledIsConcat(rows);
  }

  /** The first occurrence of a skill in the pooled list lies in the first
      posting that lists it, at the skill's first position there. */
  lemma FirstSeenInPostings(rows: seq<Record>, s: string, p: nat)
    requires forall i | 0 <= i < |rows| :: HasSkillList(rows[i])
    requires p < |rows| && s in Detected(rows[p])
    requires forall q | 0 <= q < p :: s !in Detected(rows[q])
    ensures FirstIndex(AllSkills(rows), s) == Start(rows, p) + FirstIndex(Detected(rows[p]), s)
  {
    var ls := SkillLists(rows);
    assert forall q | 0 <= q < p :: ls[q] == Detected(rows[q]);
    ConcatFirst(ls, s, p);
    PooledIsConcat(rows);
    StartIsOffset(rows, p);
  }

  /** A skill first listed by an earlier posting is seen earlier in the
      pooled list, whatever the positions inside the postings. */
  lemma EarlierPostingFirst(rows: seq<Record>, a: string, p: nat, b: string, q: nat)
    requires forall i | 0 <= i < |rows| :: HasSkillList(rows[i])
    requires p < q < |rows|
    requires a in Detected(rows[p]) && forall r | 0 <= r < p :: a !in Detected(rows[r])
    requires b in Detected(rows[q]) && forall r | 0 <= r < q :: b !in Detected(rows[r])
    ensures FirstIndex(AllSkills(rows), a) < FirstIndex(AllSkills(rows), b)
  {
    FirstSeenInPostings(rows, a, p);
    FirstSeenInPostings(rows, b, q);
    var ls := SkillLists(rows);
    assert ls[p] == Detected(rows[p]);
    OffsetMono(ls, p, q);
    StartIsOffset(rows, p);
    StartIsOffset(rows, q);
  }

  /** An entry of the missing-skill list. */
  datatype MissingSkill = MissingSkill(skill: string, count: nat, priority: nat)

  /** The sort key of `most_common`. */
  function CountKey(e: MissingSkill): real { e.count as real }

  /** Line 20: one counter entry per distinct skill, in first-seen order,
      with its number of occurrences. */
  function Tally(ds: seq<string>, all: seq<string>): (t: seq<MissingSkill>)
    ensures |t| == |ds|
    ensures forall i | 0 <= i < |ds| ::
      t[i].skill == ds[i] && t[i].count == multiset(all)[ds[i]] && t[i].priority == t[i].count
  {
    if |ds| == 0 then []
    else
      var n := |ds| - 1;
      Tally(ds[..n], all) + [MissingSkill(ds[n], Count(all, ds[n]), Count(all, ds[n]))]
  }

  /** Line 29: the entries for skills the user lacks, in the same order. */
  function KeepMissing(es: seq<MissingSkill>, user: set<string>): (r: seq<MissingSkill>)
    ensures forall e :: e in r <==> e in es && e.skill !in user
  {
    if |es| == 0 then []
    else
      var n := |es| - 1;
      var front := KeepMissing(es[..n], user);
      assert es == es[..n] + [es[n]];
      if es[n].skill in user then front else front + [es[n]]
  }

  /** Filtering keeps a lexicographic order. */
  lemma {:induction false} KeepMissingLex(es: seq<MissingSkill>, user: set<string>, rank: MissingSkill -> int)
    requires LexSorted(es, CountKey, rank)
    ensures LexSorted(KeepMissing(es, user), CountKey, rank)
  {
    if |es| > 0 {
      var n := |es| - 1;
      var front := KeepMissing(es[..n], user);
      LexPrefix(es, n, CountKey, rank);
      KeepMissingLex(es[..n], user, rank);
      if es[n].skill !in user {
        assert KeepMissing(es, user) == front + [es[n]];
        forall y | y in front
          ensures CountKey(y) > CountKey(es[n]) || (CountKey(y) == CountKey(es[n]) && rank(y) < rank(es[n]))
        {
          var p :| 0 <= p < n && es[..n][p] == y;
          assert es[p] == y;
        }
        AppendLex(front, es[n], CountKey, rank);
      }
    }
  }

  /** Lines 16-30 on the pooled skill list: each skill that occurs and that
      the user lacks, exactly once, with its total number of occurrences as
      count and priority, ordered by non-increasing count and, among equal
      counts, by first occurrence. */
  function MissingSkills(all: seq<string>, user: set<string>): (m: seq<MissingSkill>)
    ensures forall i | 0 <= i < |m| :: m[i].skill in all && m[i].skill !in user
    ensures forall s | s in all && s !in user :: exists i :: 0 <= i < |m| && m[i].skill == s
    ensures forall i, j | 0 <= i < j < |m| :: m[i].skill != m[j].skill
    ensures forall i | 0 <= i < |m| :: m[i].count == multiset(all)[m[i].skill] && m[i].priority == m[i].count
    ensures forall i, j | 0 <= i < j < |m| ::
      m[i].count > m[j].count
      || (m[i].count == m[j].count && FirstIndex(all, m[i].skill) < FirstIndex(all, m[j].skill))
  {
    var ds := Distinct(all);
    var sorted := SortDesc(Tally(ds, all), CountKey);
    var m := KeepMissing(sorted, user);
    MissingFacts(all, user, ds, sorted, m);
    m
  }

  /** Why the missing-skill list has the promised shape. */
  lemma MissingFacts(all: seq<string>, user: set<string>, ds: seq<string>,
                     sorted: seq<MissingSkill>, m: seq<MissingSkill>)
    requires ds == Distinct(all)
    requires sorted == SortDesc(Tally(ds, all), CountKey)
    requires m == KeepMissing(sorted, user)
    ensures forall i | 0 <= i < |m| :: m[i].skill in all && m[i].skill !in user
    ensures forall s | s in all && s !in user :: exists i :: 0 <= i < |m| && m[i].skill == s
    ensures forall i, j | 0 <= i < j < |m| :: m[i].skill != m[j].skill
    ensures forall i | 0 <= i < |m| :: m[i].count == multiset(all)[m[i].skill] && m[i].priority == m[i].count
    ensures forall i, j | 0 <= i < j < |m| ::
      m[i].count > m[j].count
      || (m[i].count == m[j].count && FirstIndex(all, m[i].skill) < FirstIndex(all, m[j].skill))
  {
    MissingSound(all, user, ds, sorted, m);
    MissingComplete(all, user, ds, sorted, m);
    MissingOrdered(all, user, ds, sorted, m);
    forall i, j | 0 <= i < j < |m| ensures m[i].skill != m[j].skill {
      assert m[i].count > m[j].count || FirstIndex(all, m[i].skill) < FirstIndex(all, m[j].skill);
    }
  }

  /** Every kept entry is a counted skill the user lacks. */
  lemma MissingSound(all: seq<string>, user: set<string>, ds: seq<string>,
                     sorted: seq<MissingSkill>, m: seq<MissingSkill>)
    requires ds == Distinct(all)
    requires sorted == SortDesc(Tally(ds, all), CountKey)
    requires m == KeepMissing(sorted, user)
    ensures forall i | 0 <= i < |m| ::
      m[i].skill in all && m[i].skill !in user
      && m[i].count == multiset(all)[m[i].skill] && m[i].priority == m[i].count
  {
    forall i | 0 <= i < |m|
      ensures m[i].skill in all && m[i].skill !in user
      ensures m[i].count == multiset(all)[m[i].skill] && m[i].priority == m[i].count
    {
      assert m[i] in sorted;
      SortedMember(Tally(ds, all), sorted, m[i]);
      TallyMember(ds, all, m[i]);
    }
  }

  /** An element of a permutation is an element of the original. */
  lemma SortedMember(t: seq<MissingSkill>, sorted: seq<MissingSkill>, e: MissingSkill)
    requires multiset(sorted) == multiset(t)
    requires e in sorted
    ensures e in t
  {
    assert e in multiset(sorted);
  }

  /** A counter entry is a distinct skill with its occurrence count. */
  lemma TallyMember(ds: seq<string>, all: seq<string>, e: MissingSkill)
    requires ds == Distinct(all)
    requires e in Tally(ds, all)
    ensures e.skill in all && e.count == multiset(all)[e.skill] && e.priority == e.count
  {
    var t := Tally(ds, all);
    var k :| 0 <= k < |t| && t[k] == e;
    assert ds[k] in Elems(ds);
  }

  /** Every distinct skill has a counter entry. */
  lemma TallyComplete(ds: seq<string>, all: seq<string>, s: string) returns (e: MissingSkill)
    requires ds == Distinct(all)
    requires s in all
    ensures e in Tally(ds, all) && e.skill == s
  {
    assert s in Elems(all);
    var k :| 0 <= k < |ds| && ds[k] == s;
    e := Tally(ds, all)[k];
  }

  /** An entry for a skill the user lacks survives the filter. */
  lemma KeptMember(es: seq<MissingSkill>, user: set<string>, e: MissingSkill)
    requires e in es && e.skill !in user
    ensures exists i :: 0 <= i < |KeepMissing(es, user)| && KeepMissing(es, user)[i].skill == e.skill
  {
    var r := KeepMissing(es, user);
    assert e in r;
    var i :| 0 <= i < |r| && r[i] == e;
  }

  /** Every occurring skill the user lacks is kept. */
  lemma MissingComplete(all: seq<string>, user: set<string>, ds: seq<string>,
                        sorted: seq<MissingSkill>, m: seq<MissingSkill>)
    requires ds == Distinct(all)
    requires sorted == SortDesc(Tally(ds, all), CountKey)
    requires m == KeepMissing(sorted, user)
    ensures forall s | s in all && s !in user :: exists i :: 0 <= i < |m| && m[i].skill == s
  {
    forall s | s in all && s !in user ensures exists i :: 0 <= i < |m| && m[i].skill == s {
      var e := TallyComplete(ds, all, s);
      SortedMember(sorted, Tally(ds, all), e);
      KeptMember(sorted, user, e);
    }
  }

  /** Ties in `most_common` follow first occurrence in the pooled list. */
  function SeenRank(all: seq<string>): MissingSkill -> int
  {
    (e: MissingSkill) => FirstIndex(all, e.skill) as int
  }

  /** The counter's entries appear in first-seen order. */
  lemma TallyRanked(all: seq<string>)
    ensures RankIncreasing(Tally(Distinct(all), all), SeenRank(all))
  {
    var ds := Distinct(all);
    var t := Tally(ds, all);
    forall i, j | 0 <= i < j < |t| ensures SeenRank(all)(t[i]) < SeenRank(all)(t[j]) {
      assert t[i].skill == ds[i] && t[j].skill == ds[j];
    }
  }

  /** The kept entries are ordered as `most_common` orders them. */
  lemma MissingOrdered(all: seq<string>, user: set<string>, ds: seq<string>,
                       sorted: seq<MissingSkill>, m: seq<MissingSkill>)
    requires ds == Distinct(all)
    requires sorted == SortDesc(Tally(ds, all), CountKey)
    requires m == KeepMissing(sorted, user)
    ensures forall i, j | 0 <= i < j < |m| ::
      m[i].count > m[j].count
      || (m[i].count == m[j].count && FirstIndex(all, m[i].skill) < FirstIndex(all, m[j].skill))
  {
    TallyRanked(all);
    SortDescStable(Tally(ds, all), CountKey, SeenRank(all));
    KeepMissingLex(sorted, user, SeenRank(all));
    LexUnfold(all, m);
  }

  /** `LexSorted` under the count key and first-seen rank, spelled out. */
  lemma LexUnfold(all: seq<string>, m: seq<MissingSkill>)
    requires LexSorted(m, CountKey, SeenRank(all))
    ensures forall i, j | 0 <= i < j < |m| ::
      m[i].count > m[j].count
      || (m[i].count == m[j].count && FirstIndex(all, m[i].skill) < FirstIndex(all, m[j].skill))
  {
    forall i, j | 0 <= i < j < |m|
      ensures m[i].count > m[j].count
           || (m[i].count == m[j].count && FirstIndex(all, m[i].skill) < FirstIndex(all, m[j].skill))
    {
      assert CountKey(m[i]) > CountKey(m[j])
          || (CountKey(m[i]) == CountKey(m[j]) && SeenRank(all)(m[i]) < SeenRank(all)(m[j]));
    }
  }

  /** The exceptions line 8 can raise: a posting without the column, or
      one whose value cannot be iterated. */
  datatype GapError = KeyError | TypeError

  /** The error the first unreadable posting raises, if any. */
  function Check(rows: seq<Record>): (r: Option<GapError>)
    ensures r.None? <==> forall i | 0 <= i < |rows| :: HasSkillList(rows[i])
    ensures r.Some? ==> exists i | 0 <= i < |rows| ::
      && (forall j | 0 <= j < i :: HasSkillList(rows[j]))
      && !HasSkillList(rows[i])
      && (r.value == KeyError <==> "skills_detected" !in rows[i])
  {
    if |rows| == 0 then None
    else if "skills_detected" !in rows[0] then Some(KeyError)
    else if Iterate(rows[0]["skills_detected"]).None? then Some(TypeError)
    else
      var rest := Check(rows[1..]);
      assert forall i | 1 <= i < |rows| :: rows[1..][i - 1] == rows[i];
      if rest.Some? then
        ghost var i :| 0 <= i < |rows[1..]|
          && (forall j | 0 <= j < i :: HasSkillList(rows[1..][j]))
          && !HasSkillList(rows[1..][i])
          && (rest.value == KeyError <==> "skills_detected" !in rows[1..][i]);
        assert forall j | 0 <= j < i + 1 :: HasSkillList(rows[j]);
        rest
      else rest
  }

  /** `compute_skill_gap`: the first posting whose skills cannot be read
      raises; otherwise the annotated postings, in their order, and the
      missing-skill list over every posting's detected skills: a skill is
      listed exactly when some posting mentions it and the user lacks it. */
  function ComputeSkillGap(rows: seq<Record>, userSkills: seq<string>): (r: Result<(seq<Record>, seq<MissingSkill>), GapError>)
    ensures r.Failure? <==> exists i | 0 <= i < |rows| :: !HasSkillList(rows[i])
    ensures r.Failure? ==> exists i | 0 <= i < |rows| ::
      && (forall j | 0 <= j < i :: HasSkillList(rows[j]))
      && !HasSkillList(rows[i])
      && (r.error == KeyError <==> "skills_detected" !in rows[i])
    ensures r.Success? ==> |r.value.0| == |rows|
    ensures r.Success? ==> forall i | 0 <= i < |rows| ::
      HasSkillList(rows[i]) && r.value.0[i] == Annotate(rows[i], Elems(userSkills))
    ensures r.Success? ==> forall i | 0 <= i < |r.value.1| :: r.value.1[i].skill !in userSkills
    ensures r.Success? ==> forall i | 0 <= i < |r.value.1| ::
      exists p :: 0 <= p < |rows| && HasSkillList(rows[p]) && r.value.1[i].skill in Detected(rows[p])
    ensures r.Success? ==> forall p, s | 0 <= p < |rows| && HasSkillList(rows[p]) && s in JobSkills(rows[p]) && s !in userSkills ::
      exists i :: 0 <= i < |r.value.1| && r.value.1[i].skill == s
    ensures r.Success? ==> forall i | 0 <= i < |r.value.1| ::
      r.value.1[i].count == Occurrences(rows, r.value.1[i].skill) && r.value.1[i].priority == r.value.1[i].count
    ensures r.Success? ==> forall i, j | 0 <= i < j < |r.value.1| :: r.value.1[i].skill != r.value.1[j].skill
    ensures r.Success? ==> forall i, j | 0 <= i < j < |r.value.1| ::
      r.value.1[i].count > r.value.1[j].count
      || (r.value.1[i].count == r.value.1[j].count
          && FirstIndex(AllSkills(rows), r.value.1[i].skill) < FirstIndex(AllSkills(rows), r.value.1[j].skill))
  {
    match Check(rows)
    case Some(e) => Failure(e)
    case None =>
      var user := Elems(userSkills);
      var all := AllSkills(rows);
      var m := MissingSkills(all, user);
      GapFacts(rows, user, all, m);
      Success((AnnotateAll(rows, user), m))
  }

  /** The missing-skill list described over the postings rather than the
      pooled list. */
  lemma GapFacts(rows: seq<Record>, user: set<string>, all: seq<string>, m: seq<MissingSkill>)
    requires forall i | 0 <= i < |rows| :: HasSkillList(rows[i])
    requires all == AllSkills(rows)
    requires m == MissingSkills(all, user)
    ensures forall i | 0 <= i < |m| :: exists p :: 0 <= p < |rows| && m[i].skill in Detected(rows[p])
    ensures forall p, s | 0 <= p < |rows| && s in JobSkills(rows[p]) && s !in user ::
      exists i :: 0 <= i < |m| && m[i].skill == s
    ensures forall i | 0 <= i < |m| :: m[i].count == Occurrences(rows, m[i].skill)
  {
    GapSound(rows, user, all, m);
    GapComplete(rows, user, all, m);
    GapCounts(rows, user, all, m);
  }

  /** Every listed skill comes from some posting. */
  lemma GapSound(rows: seq<Record>, user: set<string>, all: seq<string>, m: seq<MissingSkill>)
    requires forall i | 0 <= i < |rows| :: HasSkillList(rows[i])
    requires all == AllSkills(rows)
    requires m == MissingSkills(all, user)
    ensures forall i | 0 <= i < |m| :: exists p :: 0 <= p < |rows| && m[i].skill in Detected(rows[p])
  {
    PooledCounts(rows);
    forall i | 0 <= i < |m| ensures exists p :: 0 <= p < |rows| && m[i].skill in Detected(rows[p]) {
      assert m[i].skill in all;
    }
  }

  /** Every skill of a posting that the user lacks is listed. */
  lemma GapComplete(rows: seq<Record>, user: set<string>, all: seq<string>, m: seq<MissingSkill>)
    requires forall i | 0 <= i < |rows| :: HasSkillList(rows[i])
    requires all == AllSkills(rows)
    requires m == MissingSkills(all, user)
    ensures forall p, s | 0 <= p < |rows| && s in JobSkills(rows[p]) && s !in user ::
      exists i :: 0 <= i < |m| && m[i].skill == s
  {
    forall p, s | 0 <= p < |rows| && s in JobSkills(rows[p]) && s !in user
      ensures exists i :: 0 <= i < |m| && m[i].skill == s
    {
      PooledHolds(rows, p, s);
    }
  }

  /** Every listed count is the skill's occurrences over the postings. */
  lemma GapCounts(rows: seq<Record>, user: set<string>, all: seq<string>, m: seq<MissingSkill>)
    requires forall i | 0 <= i < |rows| :: HasSkillList(rows[i])
    requires all == AllSkills(rows)
    requires m == MissingSkills(all, user)
    ensures forall i | 0 <= i < |m| :: m[i].count == Occurrences(rows, m[i].skill)
  {
    PooledCounts(rows);
  }

  /** When exactly one occurring skill is unknown to the user, the
      missing-skill list is that skill with its number of occurrences. */
  lemma SingleMissing(all: seq<string>, user: set<string>, s: string)
    requires s in all && s !in user
    requires forall k | 0 <= k < |all| :: all[k] == s || all[k] in user
    ensures MissingSkills(all, user) == [MissingSkill(s, multiset(all)[s], multiset(all)[s])]
  {
    var m := MissingSkills(all, user);
    var i :| 0 <= i < |m| && m[i].skill == s;
    assert m[0].skill in all && m[|m| - 1].skill in all;
    assert m[0].skill == s && m[|m| - 1].skill == s;
  }

  /** Missing skills of the pooled list `Python, Python, SQL` for a user
      who knows SQL: only Python, counted twice. */
  lemma MissingExample()
    ensures MissingSkills(["Python", "Python", "SQL"], {"SQL"}) == [MissingSkill("Python", 2, 2)]
  {
    var all := ["Python", "Python", "SQL"];
    SingleMissing(all, {"SQL"}, "Python");
    assert multiset(all)["Python"] == 2;
  }

  /** With one readable posting, the missing-skill list is computed over
      that posting's raw skills. */
  lemma SinglePosting(row: Record, userSkills: seq<string>)
    requires HasSkillList(row)
    ensures ComputeSkillGap([row], userSkills)
      == Success(([Annotate(row, Elems(userSkills))], MissingSkills(Detected(row), Elems(userSkills))))
  {
    assert [row][..0] == [];
    assert [row][1..] == [];
    assert Check([row]) == None;
    assert AnnotateAll([row], Elems(userSkills)) == [Annotate(row, Elems(userSkills))];
    assert AllSkills([row]) == [] + Detected(row);
    assert [] + Detected(row) == Detected(row);
    var user := Elems(userSkills);
    assert ComputeSkillGap([row], userSkills) == Success((AnnotateAll([row], user), MissingSkills(AllSkills([row]), user)));
  }

  /** A posting listing Python twice and SQL once, for a user who knows
      SQL: two distinct skills, one held, ratio one half. */
  lemma AnnotateExample()
    ensures var r := Annotate(map["skills_detected" := Strs(["Python", "Python", "SQL"])], {"SQL"});
      && r["n_skills_job"] == Int(2)
      && r["n_skills_user_has"] == Int(1)
      && r["match_ratio"] == Float(0.5)
  {
    var row: Record := map["skills_detected" := Strs(["Python", "Python", "SQL"])];
    assert Detected(row) == ["Python", "Python", "SQL"];
    assert JobSkills(row) == {"Python", "SQL"};
    assert JobSkills(row) * {"SQL"} == {"SQL"};
  }
}

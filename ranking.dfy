/**
 * The three tag rankings. Each drops the rows whose tag is ignored, groups the rest by tag,
 * scores every group, orders the tags by descending score and keeps the first n.
 * Scores are exact reals; the tie order of the sort is not promised.
 */
module Ranking {
  import opened Seqs
  import opened Tables

  datatype Metric =
    | Peak     // the group's maximum
    | Change   // ((last - first) * 100) / (last + 0.001) over the group's first and last rows
    | Mean     // the group's arithmetic mean

  /** The Tag column of rows, in dataset order. */
  function Tags(rows: seq<Row>): (r: seq<string>)
    ensures |r| == |rows| && forall i :: 0 <= i < |rows| ==> r[i] == TagOf(rows[i])
  {
    if rows == [] then [] else Tags(rows[..|rows| - 1]) + [TagOf(rows[|rows| - 1])]
  }

  /** The tags of the rows that survive the ignore filter, in dataset order. */
  function KeptTags(rows: seq<Row>, ignored: set<string>): (r: seq<string>)
    ensures forall t :: t in r <==> t in Tags(rows) && t !in ignored
  {
    if rows == [] then []
    else
      var p := rows[..|rows| - 1];
      assert Tags(rows) == Tags(p) + [TagOf(rows[|rows| - 1])];
      KeptTags(p, ignored) + (if TagOf(rows[|rows| - 1]) in ignored then [] else [TagOf(rows[|rows| - 1])])
  }

  /** The groups the ranking scores: one per distinct tag left after filtering. */
  function EligibleTags(rows: seq<Row>, ignored: set<string>): seq<string>
  {
    Unique(KeptTags(rows, ignored))
  }

  function EligibleSet(rows: seq<Row>, ignored: set<string>): set<string>
  {
    set t | t in Tags(rows) && t !in ignored
  }

  lemma EligibleCount(rows: seq<Row>, ignored: set<string>)
    ensures |EligibleTags(rows, ignored)| == |EligibleSet(rows, ignored)|
    ensures forall t :: t in EligibleTags(rows, ignored) <==> t in EligibleSet(rows, ignored)
  {
    UniqueCardinality(KeptTags(rows, ignored));
    assert ToSet(KeptTags(rows, ignored)) == EligibleSet(rows, ignored);
  }

  /** The values of column col over the rows tagged tag, in dataset order. */
  function GroupValues(rows: seq<Row>, col: string, tag: string): (r: seq<int>)
    ensures r != [] <==> tag in Tags(rows)
  {
    if rows == [] then []
    else
      var p := rows[..|rows| - 1];
      var last := rows[|rows| - 1];
      assert Tags(rows) == Tags(p) + [TagOf(last)];
      GroupValues(p, col, tag) + (if TagOf(last) == tag then [IntCell(last, col)] else [])
  }

  /** The rows tagged tag, in dataset order: the group that groupby("Tag") hands to the reduction. */
  function TagRows(rows: seq<Row>, tag: string): (r: seq<Row>)
    ensures forall x :: x in r <==> x in rows && TagOf(x) == tag
  {
    if rows == [] then []
    else
      var p := rows[..|rows| - 1];
      var last := rows[|rows| - 1];
      assert rows == p + [last];
      TagRows(p, tag) + (if TagOf(last) == tag then [last] else [])
  }

  /** A group has one value per row of its tag, and the tag's rows are as many as its occurrences. */
  lemma {:induction false} GroupCount(rows: seq<Row>, col: string, tag: string)
    ensures |GroupValues(rows, col, tag)| == multiset(Tags(rows))[tag]
    ensures |TagRows(rows, tag)| == multiset(Tags(rows))[tag]
    decreases |rows|
  {
    if rows != [] {
      var p := rows[..|rows| - 1];
      assert Tags(rows) == Tags(p) + [TagOf(rows[|rows| - 1])];
      GroupCount(p, col, tag);
    }
  }

  lemma {:induction false} SumOfSnoc(s: seq<int>, x: int)
    ensures SumOf(s + [x]) == SumOf(s) + x
    decreases |s|
  {
    if s != [] {
      assert (s + [x])[1..] == s[1..] + [x];
      SumOfSnoc(s[1..], x);
    }
  }

  lemma ColumnSumSnoc(q: seq<Row>, last: Row, col: string)
    ensures ColumnSum(q + [last], col) == ColumnSum(q, col) + IntCell(last, col)
  {
    assert (q + [last])[..|q|] == q;
  }

  /** The sum of a group is the column sum over the tag's rows. */
  lemma {:induction false} GroupSum(rows: seq<Row>, col: string, tag: string)
    ensures SumOf(GroupValues(rows, col, tag)) == ColumnSum(TagRows(rows, tag), col)
    decreases |rows|
  {
    if rows != [] {
      var p := rows[..|rows| - 1];
      var last := rows[|rows| - 1];
      GroupSum(p, col, tag);
      if TagOf(last) == tag {
        var q := TagRows(p, tag);
        assert TagRows(rows, tag) == q + [last];
        assert GroupValues(rows, col, tag) == GroupValues(p, col, tag) + [IntCell(last, col)];
        SumOfSnoc(GroupValues(p, col, tag), IntCell(last, col));
        ColumnSumSnoc(q, last, col);
      } else {
        assert TagRows(rows, tag) == TagRows(p, tag);
        assert GroupValues(rows, col, tag) == GroupValues(p, col, tag);
      }
    }
  }

  function MaxOf(vals: seq<int>): (m: int)
    requires vals != []
    ensures m in vals && forall v :: v in vals ==> v <= m
  {
    if |vals| == 1 then vals[0]
    else
      var m := MaxOf(vals[1..]);
      assert vals == [vals[0]] + vals[1..];
      if vals[0] >= m then vals[0] else m
  }

  function SumOf(vals: seq<int>): int
  {
    if vals == [] then 0 else vals[0] + SumOf(vals[1..])
  }

  /**
   * get_change: the percentage change between the group's first and last values. For a
   * non-negative last value it is positive exactly when the counter grew, and zero exactly
   * when it stayed.
   */
  function PercentChange(first: int, last: int): (r: real)
    ensures last >= 0 ==> (r > 0.0 <==> last > first) && (r == 0.0 <==> last == first)
  {
    var d := (last as real) + 0.001;
    assert d != 0.0 by {
      if last >= 0 { assert d > 0.0; }
      else { assert last <= -1; assert d < 0.0; }
    }
    var q := (((last - first) * 100) as real) / d;
    assert q * d == ((last - first) * 100) as real;
    q
  }

  function Score(metric: Metric, vals: seq<int>): real
    requires vals != []
  {
    match metric
    case Peak => MaxOf(vals) as real
    case Change => PercentChange(vals[0], vals[|vals| - 1])
    case Mean => (SumOf(vals) as real) / (|vals| as real)
  }

  function TagScore(rows: seq<Row>, col: string, metric: Metric, tag: string): real
  {
    var vals := GroupValues(rows, col, tag);
    if vals == [] then 0.0 else Score(metric, vals)
  }

  /**
   * The average score of a present tag is the mean of by_col over the tag's rows: their column
   * sum divided by the number of times the tag occurs.
   */
  lemma MeanIsTagAverage(rows: seq<Row>, col: string, tag: string)
    requires tag in Tags(rows)
    ensures multiset(Tags(rows))[tag] > 0
    ensures TagScore(rows, col, Mean, tag) ==
              (ColumnSum(TagRows(rows, tag), col) as real) / (multiset(Tags(rows))[tag] as real)
  {
    GroupCount(rows, col, tag);
    GroupSum(rows, col, tag);
  }

  /** The sort key that orders tags by descending score. */
  function ByDescendingScore(rows: seq<Row>, col: string, metric: Metric): string -> real
  {
    (t: string) => -TagScore(rows, col, metric, t)
  }

  /** sort_values(ascending=False) over the groups: the eligible tags in descending score order. */
  function SortedTags(rows: seq<Row>, col: string, ignored: set<string>, metric: Metric): seq<string>
  {
    SortBy(EligibleTags(rows, ignored), ByDescendingScore(rows, col, metric))
  }

  /**
   * The ranking: distinct tags, none ignored and each present in the rows; as many as head(n)
   * keeps of the eligible groups; scores non-increasing along the list; and no eligible tag left
   * out scores above a tag that was kept.
   */
  function RankTags(rows: seq<Row>, col: string, ignored: set<string>, n: int, metric: Metric): (r: seq<string>)
    ensures Distinct(r)
    ensures forall t :: t in r ==> t in Tags(rows) && t !in ignored
    ensures n >= 0 ==> |r| == if n <= |EligibleSet(rows, ignored)| then n else |EligibleSet(rows, ignored)|
    ensures n < 0 ==> |r| == if |EligibleSet(rows, ignored)| + n >= 0 then |EligibleSet(rows, ignored)| + n else 0
    ensures forall i, j :: 0 <= i < j < |r| ==> TagScore(rows, col, metric, r[i]) >= TagScore(rows, col, metric, r[j])
    ensures forall t, u :: t in EligibleSet(rows, ignored) && t !in r && u in r ==>
              TagScore(rows, col, metric, t) <= TagScore(rows, col, metric, u)
  {
    RankedPrefix(rows, col, ignored, metric, n);
    Head(SortedTags(rows, col, ignored, metric), n)
  }

  /** The sorted eligible tags: each eligible tag once, in ascending order of the negated score. */
  lemma SortedEligible(rows: seq<Row>, col: string, ignored: set<string>, metric: Metric)
    ensures |SortedTags(rows, col, ignored, metric)| == |EligibleSet(rows, ignored)|
    ensures Distinct(SortedTags(rows, col, ignored, metric))
    ensures forall t :: t in SortedTags(rows, col, ignored, metric) <==> t in EligibleSet(rows, ignored)
    ensures Ascending(SortedTags(rows, col, ignored, metric), ByDescendingScore(rows, col, metric))
  {
    var eligible := EligibleTags(rows, ignored);
    var sorted := SortedTags(rows, col, ignored, metric);
    EligibleCount(rows, ignored);
    assert |multiset(sorted)| == |multiset(eligible)|;
  }

  lemma RankedPrefix(rows: seq<Row>, col: string, ignored: set<string>, metric: Metric, n: int)
    ensures var r := Head(SortedTags(rows, col, ignored, metric), n);
            && Distinct(r)
            && (forall t :: t in r ==> t in Tags(rows) && t !in ignored)
            && |SortedTags(rows, col, ignored, metric)| == |EligibleSet(rows, ignored)|
            && (forall i, j :: 0 <= i < j < |r| ==>
                  TagScore(rows, col, metric, r[i]) >= TagScore(rows, col, metric, r[j]))
            && (forall t, u :: t in EligibleSet(rows, ignored) && t !in r && u in r ==>
                  TagScore(rows, col, metric, t) <= TagScore(rows, col, metric, u))
  {
    var key := ByDescendingScore(rows, col, metric);
    SortedEligible(rows, col, ignored, metric);
    HeadOfAscending(SortedTags(rows, col, ignored, metric), key, n);
    assert forall x :: key(x) == -TagScore(rows, col, metric, x);
  }

  /** A group lists exactly the values of column col over the rows carrying that tag. */
  lemma GroupValuesMembers(rows: seq<Row>, col: string, tag: string)
    ensures forall i :: 0 <= i < |rows| && TagOf(rows[i]) == tag ==> IntCell(rows[i], col) in GroupValues(rows, col, tag)
    ensures forall v :: v in GroupValues(rows, col, tag) ==>
              exists i :: 0 <= i < |rows| && TagOf(rows[i]) == tag && IntCell(rows[i], col) == v
  {
    GroupValuesComplete(rows, col, tag);
    GroupValuesSound(rows, col, tag);
  }

  /** Every row of the tag contributes its value to the group. */
  lemma {:induction false} GroupValuesComplete(rows: seq<Row>, col: string, tag: string)
    ensures forall i :: 0 <= i < |rows| && TagOf(rows[i]) == tag ==> IntCell(rows[i], col) in GroupValues(rows, col, tag)
    decreases |rows|
  {
    if rows != [] {
      var p, last := rows[..|rows| - 1], rows[|rows| - 1];
      var g, q := GroupValues(rows, col, tag), GroupValues(p, col, tag);
      GroupValuesComplete(p, col, tag);
      assert g == q + (if TagOf(last) == tag then [IntCell(last, col)] else []);
      forall i | 0 <= i < |rows| && TagOf(rows[i]) == tag
        ensures IntCell(rows[i], col) in g
      {
        if i < |p| {
          assert rows[i] == p[i];
          assert IntCell(p[i], col) in q;
        } else {
          assert g[|g| - 1] == IntCell(last, col);
        }
      }
    }
  }

  /** Every value of the group comes from a row of the tag. */
  lemma {:induction false} GroupValuesSound(rows: seq<Row>, col: string, tag: string)
    ensures forall v :: v in GroupValues(rows, col, tag) ==>
              exists i :: 0 <= i < |rows| && TagOf(rows[i]) == tag && IntCell(rows[i], col) == v
    decreases |rows|
  {
    if rows != [] {
      var p, last := rows[..|rows| - 1], rows[|rows| - 1];
      GroupValuesSound(p, col, tag);
      assert GroupValues(rows, col, tag) == GroupValues(p, col, tag) + (if TagOf(last) == tag then [IntCell(last, col)] else []);
      assert forall i :: 0 <= i < |p| ==> rows[i] == p[i];
      assert rows[|p|] == last;
    }
  }

  /** The group's first value comes from the first row with that tag in dataset order. */
  lemma {:induction false} GroupFirst(rows: seq<Row>, col: string, tag: string)
    requires tag in Tags(rows)
    ensures GroupValues(rows, col, tag)[0] == IntCell(rows[FirstIndex(Tags(rows), tag)], col)
    decreases |rows|
  {
    var p := rows[..|rows| - 1];
    assert Tags(rows) == Tags(p) + [TagOf(rows[|rows| - 1])];
    if tag in Tags(p) {
      GroupFirst(p, col, tag);
      var k := FirstIndex(Tags(p), tag);
      assert Tags(rows)[..k] == Tags(p)[..k];
      FirstIndexUnique(Tags(rows), tag, k);
    } else {
      assert Tags(rows)[..|p|] == Tags(p);
      FirstIndexUnique(Tags(rows), tag, |p|);
    }
  }

  /** The group's last value comes from the last row with that tag in dataset order. */
  lemma {:induction false} GroupLast(rows: seq<Row>, col: string, tag: string)
    requires tag in Tags(rows)
    ensures GroupValues(rows, col, tag)[|GroupValues(rows, col, tag)| - 1] == IntCell(rows[LastIndex(Tags(rows), tag)], col)
    decreases |rows|
  {
    var p, last := rows[..|rows| - 1], rows[|rows| - 1];
    assert Tags(rows) == Tags(p) + [TagOf(last)];
    LastIndexSnoc(Tags(p), TagOf(last), tag);
    if TagOf(last) != tag {
      GroupLast(p, col, tag);
      assert rows[LastIndex(Tags(p), tag)] == p[LastIndex(Tags(p), tag)];
    }
  }

  /** Peak ranking scores a tag by the largest value any of its rows holds. */
  lemma PeakIsTagMaximum(rows: seq<Row>, col: string, tag: string)
    requires tag in Tags(rows)
    ensures forall i :: 0 <= i < |rows| && TagOf(rows[i]) == tag ==>
              IntCell(rows[i], col) as real <= TagScore(rows, col, Peak, tag)
    ensures exists i :: 0 <= i < |rows| && TagOf(rows[i]) == tag &&
              IntCell(rows[i], col) as real == TagScore(rows, col, Peak, tag)
  {
    GroupValuesMembers(rows, col, tag);
  }

  /** Change ranking scores a tag from its first and last rows in dataset (time) order. */
  lemma ChangeUsesEndpoints(rows: seq<Row>, col: string, tag: string)
    requires tag in Tags(rows)
    ensures TagScore(rows, col, Change, tag) ==
              PercentChange(IntCell(rows[FirstIndex(Tags(rows), tag)], col), IntCell(rows[LastIndex(Tags(rows), tag)], col))
  {
    GroupFirst(rows, col, tag);
    GroupLast(rows, col, tag);
  }

  lemma {:induction false} SumAtMost(vals: seq<int>, m: int)
    requires forall v :: v in vals ==> v <= m
    ensures SumOf(vals) <= |vals| * m
  {
    if vals != [] {
      assert forall v :: v in vals[1..] ==> v in vals;
      assert vals[0] in vals;
      SumAtMost(vals[1..], m);
      assert |vals| * m == m + (|vals| - 1) * m;
    }
  }

  /** A tag's mean never exceeds its peak. */
  lemma MeanAtMostPeak(rows: seq<Row>, col: string, tag: string)
    ensures TagScore(rows, col, Mean, tag) <= TagScore(rows, col, Peak, tag)
  {
    var vals := GroupValues(rows, col, tag);
    if vals != [] {
      MeanAtMostMax(vals);
    }
  }

  lemma MeanAtMostMax(vals: seq<int>)
    requires vals != []
    ensures Score(Mean, vals) <= Score(Peak, vals)
  {
    var m := MaxOf(vals);
    SumAtMost(vals, m);
    var n := |vals|;
    assert (SumOf(vals) as real) <= (n * m) as real;
    ProductAsReal(n, m);
    QuotientAtMost(SumOf(vals) as real, n as real, m as real);
  }

  lemma ProductAsReal(a: int, b: int)
    ensures (a * b) as real == (a as real) * (b as real)
  {
  }

  lemma QuotientAtMost(s: real, n: real, m: real)
    requires n > 0.0 && s <= n * m
    ensures s / n <= m
  {
    var q := s / n;
    assert q * n == s;
    if q > m {
      assert (q - m) * n > 0.0;
    }
  }
}

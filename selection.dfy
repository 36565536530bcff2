/**
 * The pure part of the ranking and plotting entry points: the valid selectors, what one ranking
 * call yields on a given aggregated table, and the union of rankings that do_plot plots.
 */
module TagSelection {
  import opened Results
  import opened Seqs
  import opened Tables
  import opened Ranking

  /** The metric columns show_plot and do_plot accept. */
  const ValidColumns: seq<string> :=
    ["TotalUsedBytes", "PagedDiff", "NonPagedDiff", "TotalDiff", "PagedUsedBytes", "NonPagedUsedBytes"]

  /** The timestamp selectors show_plot and do_plot accept. */
  const ValidTimeColumns: seq<string> := ["DateTime", "DateTimeUTC"]

  /** The set of tags a ranking filters out: the caller's list as it stands after TOTAL is appended. */
  function IgnoredSet(listed: seq<string>): (s: set<string>)
    ensures TotalTag in s
    ensures forall t :: t in s <==> t == TotalTag || t in listed
  {
    ToSet(listed) + {TotalTag}
  }

  /** A ranking can index the table: it exists and by_col is one of its integer columns. */
  predicate Rankable(pool: Option<Table>, byCol: string)
  {
    pool.Some? && KindOf(pool.value.schema, byCol) == Some(IntCol)
  }

  /**
   * One ranking call on the aggregated table: a TypeError while it is still None, a KeyError
   * when by_col is not a column, and otherwise the ranked tags.
   */
  function RankOutcome(pool: Option<Table>, byCol: string, ignored: set<string>, n: int, metric: Metric): (r: Result<seq<string>>)
    ensures r.Ok? <==> Rankable(pool, byCol)
    ensures pool.None? ==> r == Err(NotDigested)
    ensures pool.Some? && !Rankable(pool, byCol) ==> r == Err(MissingColumn(byCol))
    ensures r.Ok? ==> Distinct(r.value) && forall t :: t in r.value ==> t in Tags(pool.value.rows) && t !in ignored
  {
    if pool.None? then Err(NotDigested)
    else if KindOf(pool.value.schema, byCol) != Some(IntCol) then Err(MissingColumn(byCol))
    else Ok(RankTags(pool.value.rows, byCol, ignored, n, metric))
  }

  /** select_tags: a ranking with n > 0 runs and its unseen tags are appended; n <= 0 skips it. */
  function AddRanking(acc: Result<seq<string>>, pool: Option<Table>, byCol: string, ignored: set<string>, n: int, metric: Metric): (r: Result<seq<string>>)
    ensures acc.Err? ==> r == acc
    ensures acc.Ok? && r.Err? ==> n > 0 && !Rankable(pool, byCol)
    ensures acc.Ok? && acc.value != [] && r.Ok? ==> r.value != [] && r.value[0] == acc.value[0]
  {
    if acc.Err? || n <= 0 then acc
    else
      match RankOutcome(pool, byCol, ignored, n, metric)
      case Err(e) => Err(e)
      case Ok(ranked) =>
        var u := Unique(acc.value + ranked);
        assert acc.value != [] ==> u != [] && u[0] == acc.value[0] by {
          if acc.value != [] { UniqueLeads(acc.value + ranked); }
        }
        Ok(u)
  }

  /** The tags do_plot hands to show_plot: TOTAL, then most changed, highest peak, highest average. */
  function Union(pool: Option<Table>, byCol: string, ignored: set<string>, nChanged: int, nHighest: int, nAverage: int): (r: Result<seq<string>>)
    ensures r.Err? ==> !Rankable(pool, byCol) && (nChanged > 0 || nHighest > 0 || nAverage > 0)
    ensures r.Ok? ==> r.value != [] && r.value[0] == TotalTag
  {
    var afterChanged := AddRanking(Ok([TotalTag]), pool, byCol, ignored, nChanged, Change);
    var afterHighest := AddRanking(afterChanged, pool, byCol, ignored, nHighest, Peak);
    AddRanking(afterHighest, pool, byCol, ignored, nAverage, Mean)
  }

  /** The tags one ranking contributes: its whole list when it runs, nothing when n <= 0. */
  function Part(pool: Option<Table>, byCol: string, ignored: set<string>, n: int, metric: Metric): seq<string>
    requires Rankable(pool, byCol)
  {
    if n > 0 then RankTags(pool.value.rows, byCol, ignored, n, metric) else []
  }

  /** One select_tags step on the distinct list of x: the distinct list of x followed by the ranking. */
  lemma {:induction false} AddRankingStep(x: seq<string>, pool: Option<Table>, byCol: string, ignored: set<string>, n: int, metric: Metric)
    requires Rankable(pool, byCol)
    ensures AddRanking(Ok(Unique(x)), pool, byCol, ignored, n, metric) == Ok(Unique(x + Part(pool, byCol, ignored, n, metric)))
  {
    if n <= 0 {
      assert x + Part(pool, byCol, ignored, n, metric) == x;
    } else {
      UniqueOfUniquePrefix(x, Part(pool, byCol, ignored, n, metric));
    }
  }

  /**
   * On a rankable table the union is the first-seen order of TOTAL followed by the three
   * rankings; TOTAL leads and no tag repeats.
   */
  lemma {:induction false} UnionSpec(pool: Option<Table>, byCol: string, ignored: set<string>, nChanged: int, nHighest: int, nAverage: int)
    requires Rankable(pool, byCol)
    ensures Union(pool, byCol, ignored, nChanged, nHighest, nAverage) ==
            Ok(Unique([TotalTag] + Part(pool, byCol, ignored, nChanged, Change)
                                 + Part(pool, byCol, ignored, nHighest, Peak)
                                 + Part(pool, byCol, ignored, nAverage, Mean)))
    ensures var tags := Union(pool, byCol, ignored, nChanged, nHighest, nAverage).value;
            tags != [] && tags[0] == TotalTag && Distinct(tags)
  {
    var c := Part(pool, byCol, ignored, nChanged, Change);
    var h := Part(pool, byCol, ignored, nHighest, Peak);
    var a := Part(pool, byCol, ignored, nAverage, Mean);
    UniqueOfDistinct([TotalTag]);
    AddRankingStep([TotalTag], pool, byCol, ignored, nChanged, Change);
    AddRankingStep([TotalTag] + c, pool, byCol, ignored, nHighest, Peak);
    AddRankingStep([TotalTag] + c + h, pool, byCol, ignored, nAverage, Mean);
    UniqueLeads([TotalTag] + c + h + a);
  }

  /**
   * The union holds TOTAL and every tag of every ranking that ran, and nothing else; every
   * tag but TOTAL is a tag of the table that is not ignored.
   */
  lemma {:induction false} UnionMembers(pool: Option<Table>, byCol: string, ignored: set<string>, nChanged: int, nHighest: int, nAverage: int)
    requires Rankable(pool, byCol)
    ensures forall t :: t in Union(pool, byCol, ignored, nChanged, nHighest, nAverage).value <==>
              || t == TotalTag
              || t in Part(pool, byCol, ignored, nChanged, Change)
              || t in Part(pool, byCol, ignored, nHighest, Peak)
              || t in Part(pool, byCol, ignored, nAverage, Mean)
    ensures forall t :: t in Union(pool, byCol, ignored, nChanged, nHighest, nAverage).value && t != TotalTag ==>
              t in Tags(pool.value.rows) && t !in ignored
  {
    UnionSpec(pool, byCol, ignored, nChanged, nHighest, nAverage);
  }

  /** The first element of a sequence stays first after removing repeats. */
  lemma {:induction false} UniqueLeads(s: seq<string>)
    requires s != []
    ensures Unique(s) != [] && Unique(s)[0] == s[0]
    decreases |s|
  {
    if |s| > 1 {
      var p := s[..|s| - 1];
      UniqueLeads(p);
      UniqueSnoc(p, s[|s| - 1]);
      assert s == p + [s[|s| - 1]];
    }
  }

  /** On a table no ranking can index, the first ranking that runs fails; with none running only TOTAL is plotted. */
  lemma {:induction false} UnionFails(pool: Option<Table>, byCol: string, ignored: set<string>, nChanged: int, nHighest: int, nAverage: int)
    requires !Rankable(pool, byCol)
    ensures nChanged > 0 || nHighest > 0 || nAverage > 0 ==>
              Union(pool, byCol, ignored, nChanged, nHighest, nAverage) ==
              Err(if pool.None? then NotDigested else MissingColumn(byCol))
    ensures nChanged <= 0 && nHighest <= 0 && nAverage <= 0 ==>
              Union(pool, byCol, ignored, nChanged, nHighest, nAverage) == Ok([TotalTag])
  {
  }

  /** How many rankings append TOTAL to a shared ignore list: each one that runs, up to the first failure. */
  function RankingsRun(rankable: bool, ns: seq<int>): (k: nat)
    ensures k <= |ns|
    ensures !rankable ==> k <= 1
    ensures k == 0 <==> forall i :: 0 <= i < |ns| ==> ns[i] <= 0
  {
    if ns == [] then 0
    else if ns[0] > 0 && !rankable then 1
    else
      assert forall i :: 1 <= i < |ns| ==> ns[i] == ns[1..][i - 1];
      (if ns[0] > 0 then 1 else 0) + RankingsRun(rankable, ns[1..])
  }

  /** The count for do_plot's three rankings, case by case. */
  lemma RunsOfThree(rankable: bool, a: int, b: int, c: int)
    ensures rankable ==>
              RankingsRun(rankable, [a, b, c]) == (if a > 0 then 1 else 0) + (if b > 0 then 1 else 0) + (if c > 0 then 1 else 0)
    ensures !rankable ==>
              RankingsRun(rankable, [a, b, c]) == if a > 0 || b > 0 || c > 0 then 1 else 0
  {
    assert RankingsRun(rankable, [c]) == if c > 0 then 1 else 0 by {
      assert [c][1..] == [];
    }
    assert RankingsRun(rankable, [b, c]) ==
           if b > 0 && !rankable then 1 else (if b > 0 then 1 else 0) + RankingsRun(rankable, [c]) by {
      assert [b, c][1..] == [c];
    }
    assert RankingsRun(rankable, [a, b, c]) ==
           if a > 0 && !rankable then 1 else (if a > 0 then 1 else 0) + RankingsRun(rankable, [b, c]) by {
      assert [a, b, c][1..] == [b, c];
    }
  }

  /** A ranking of the union runs, and appends TOTAL, when its n is positive and no earlier ranking failed. */
  lemma RunsOfUnion(pool: Option<Table>, byCol: string, ignored: set<string>, nChanged: int, nHighest: int, nAverage: int)
    ensures var afterChanged := AddRanking(Ok([TotalTag]), pool, byCol, ignored, nChanged, Change);
            var afterHighest := AddRanking(afterChanged, pool, byCol, ignored, nHighest, Peak);
            RankingsRun(Rankable(pool, byCol), [nChanged, nHighest, nAverage]) ==
              (if nChanged > 0 then 1 else 0)
              + (if nHighest > 0 && afterChanged.Ok? then 1 else 0)
              + (if nAverage > 0 && afterHighest.Ok? then 1 else 0)
  {
    RunsOfThree(Rankable(pool, byCol), nChanged, nHighest, nAverage);
  }

  /** A sequence of n copies of TOTAL: what repeated ignore_tags.append('TOTAL') adds. */
  function TotalCopies(n: nat): (s: seq<string>)
    ensures |s| == n && forall i :: 0 <= i < n ==> s[i] == TotalTag
  {
    if n == 0 then [] else TotalCopies(n - 1) + [TotalTag]
  }

  /** Appending TOTAL again and again leaves the ignored set as it was after the first append. */
  lemma IgnoredAfterTotals(listed: seq<string>, k: nat)
    ensures IgnoredSet(listed + TotalCopies(k)) == IgnoredSet(listed)
    ensures k > 0 ==> listed + TotalCopies(k) == listed + TotalCopies(k - 1) + [TotalTag]
  {
    if k > 0 {
      assert listed + TotalCopies(k) == listed + TotalCopies(k - 1) + [TotalTag];
    }
  }

  /** One pass of the append loop: the tag is appended exactly when it is not yet listed. */
  lemma AppendStep(all: seq<string>, ranked: seq<string>, i: nat, r: seq<string>)
    requires i < |ranked| && r == Unique(all + ranked[..i]) && |all| <= |r| && r[..|all|] == all
    ensures var next := if ranked[i] in r then r else r + [ranked[i]];
            next == Unique(all + ranked[..i + 1]) && |all| <= |next| && next[..|all|] == all
  {
    PrefixSnoc(all, ranked, i);
    UniqueSnoc(all + ranked[..i], ranked[i]);
    assert (r + [ranked[i]])[..|all|] == r[..|all|];
  }

  /** The loop of select_tags: every ranked tag not yet listed is appended in ranking order. */
  method AppendUnseen(all: seq<string>, ranked: seq<string>) returns (r: seq<string>)
    requires Distinct(all)
    ensures r == Unique(all + ranked)
    ensures forall t :: t in r <==> t in all || t in ranked
    ensures Distinct(r) && |all| <= |r| && r[..|all|] == all
  {
    r := all;
    UniqueOfDistinct(all);
    assert all + ranked[..0] == all;
    for i := 0 to |ranked|
      invariant r == Unique(all + ranked[..i])
      invariant |all| <= |r| && r[..|all|] == all
    {
      AppendStep(all, ranked, i, r);
      if ranked[i] !in r {
        r := r + [ranked[i]];
      }
    }
    assert ranked[..|ranked|] == ranked;
  }
}

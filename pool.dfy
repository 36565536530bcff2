/**
 * PoolEntries: the object that collects poolmon snapshots, digests them once into one
 * time-ordered table with a TOTAL row per snapshot, and answers the ranking and plotting queries.
 */
module Pool {
  import opened Results
  import opened Seqs
  import opened Tables
  import opened Totals
  import opened Aggregate
  import opened Ranking
  import opened Plotting
  import opened TagSelection

  /** A Python list owned by the caller; the rankings append to it in place. */
  class TagList {
    var items: seq<string>

    constructor (items: seq<string>)
      ensures this.items == items
    {
      this.items := items;
    }
  }

  /** What a caller passes as ignore_tags: a list it shares with the callee, or None / a non-list. */
  datatype IgnoreArg = NoList | Shared(list: TagList)

  function Frame(arg: IgnoreArg): set<object>
  {
    if arg.Shared? then {arg.list} else {}
  }

  /** The entries of the ignore list as the caller holds them (a fresh empty list for NoList). */
  function ListedBy(arg: IgnoreArg): seq<string>
    reads Frame(arg)
  {
    if arg.Shared? then arg.list.items else []
  }

  /** The tags do_plot selected and the plot show_plot builds from them. */
  datatype Selection = Selection(tags: seq<string>, plot: Plot)

  /**
   * The outcome of digest() on a buffer b that was not digested before, in the order the code
   * fails: an empty snapshot, no snapshots, no datetime column, a missing diff column. From the
   * concatenation on, the buffer is gone and the table holds what was computed so far.
   * ordered is the time-sorted row order the (unstable) sort chose.
   */
  ghost predicate Digested(b: seq<Table>, r: Result<Table>, buffer: Option<seq<Table>>, pool: Option<Table>, ordered: seq<Row>)
  {
    if exists i :: 0 <= i < |b| && b[i].rows == [] then
      r == Err(EmptySnapshot) && buffer == Some(b) && pool == None
    else if b == [] then
      r == Err(NoSnapshots) && buffer == Some(b) && pool == None
    else
      buffer == None && Aggregated(ConcatRows(WithTotalsAll(b)), b[|b| - 1].schema, r, pool, ordered)
  }

  /** The steps after the concatenation of rows under schema: find the sort column, sort, derive TotalDiff. */
  ghost predicate Aggregated(rows: seq<Row>, schema: seq<Column>, r: Result<Table>, pool: Option<Table>, ordered: seq<Row>)
  {
    match LastTimeColumn(schema)
    case None => r == Err(NoTimestampColumn) && pool == Some(Table(schema, rows))
    case Some(col) =>
      && multiset(ordered) == multiset(rows)
      && SortedByTime(ordered, col)
      && if KindOf(schema, PagedDiffColumn) != Some(IntCol) then
           r == Err(MissingColumn(PagedDiffColumn)) && pool == Some(Table(schema, ordered))
         else if KindOf(schema, NonPagedDiffColumn) != Some(IntCol) then
           r == Err(MissingColumn(NonPagedDiffColumn)) && pool == Some(Table(schema, ordered))
         else
           pool == Some(Table(WithTotalDiffColumn(schema), AddTotalDiff(ordered))) && r == Ok(pool.value)
  }

  /** The loop of digest() that gives every snapshot its TOTAL row, failing at the first empty one. */
  method AugmentAll(b: seq<Table>) returns (r: Result<seq<Table>>)
    requires forall i :: 0 <= i < |b| ==> Conforms(b[i])
    ensures (exists i :: 0 <= i < |b| && b[i].rows == []) <==> r.Err?
    ensures r.Err? ==> r.error == EmptySnapshot
    ensures r.Ok? ==> r.value == WithTotalsAll(b)
  {
    var all: seq<Table> := [];
    var i := 0;
    while i < |b|
      invariant 0 <= i <= |b|
      invariant forall k :: 0 <= k < i ==> b[k].rows != []
      invariant all == WithTotalsAll(b[..i])
    {
      var augmented := AddTotalsRow(b[i]);
      if augmented.Err? {
        assert b[i].rows == [];
        return Err(augmented.error);
      }
      WithTotalsAllSnoc(b, i);
      all := all + [augmented.value];
      i := i + 1;
    }
    assert b[..|b|] == b;
    return Ok(all);
  }

  class PoolEntries {
    /** individual_data_frames: the parsed snapshots, None once digest() has consumed them. */
    var buffer: Option<seq<Table>>
    /** pool_entries: the aggregated table, None until digest() gets past the concatenation. */
    var pool: Option<Table>
    var digestCalled: bool

    ghost predicate Valid()
      reads this
    {
      && (buffer.Some? ==> SameSchema(buffer.value) && forall i :: 0 <= i < |buffer.value| ==> Conforms(buffer.value[i]))
      && (!digestCalled ==> buffer.Some? && pool.None?)
    }

    constructor ()
      ensures Valid()
      ensures buffer == Some([]) && pool == None && !digestCalled
    {
      buffer := Some([]);
      pool := None;
      digestCalled := false;
    }

    /** add_csv_file after parsing: the snapshot joins the buffer while there is one. */
    method AddSnapshot(t: Table) returns (r: Result<()>)
      requires Valid() && Conforms(t)
      modifies this
      ensures Valid()
      ensures old(buffer).None? ==> r == Err(BufferConsumed) && buffer == old(buffer)
      ensures old(buffer).Some? && old(buffer).value != [] && t.schema != old(buffer).value[0].schema ==>
                r == Err(SchemaMismatch) && buffer == old(buffer)
      ensures r.Ok? <==> old(buffer).Some? && (old(buffer).value == [] || t.schema == old(buffer).value[0].schema)
      ensures r.Ok? ==> buffer == Some(old(buffer).value + [t])
      ensures pool == old(pool) && digestCalled == old(digestCalled)
    {
      if buffer.None? {
        return Err(BufferConsumed);
      }
      var b := buffer.value;
      if b != [] && t.schema != b[0].schema {
        return Err(SchemaMismatch);
      }
      buffer := Some(b + [t]);
      return Ok(());
    }

    /** digest(): one-shot; a second call fails, whatever became of the first. */
    method Digest() returns (r: Result<Table>, ghost ordered: seq<Row>)
      requires Valid()
      modifies this
      ensures Valid() && digestCalled
      ensures old(digestCalled) ==> r == Err(DigestCalledAgain) && buffer == old(buffer) && pool == old(pool)
      ensures !old(digestCalled) ==> Digested(old(buffer).value, r, buffer, pool, ordered)
      ensures !old(digestCalled) && r.Ok? ==> WellFormed(r.value)
    {
      ordered := [];
      if digestCalled {
        return Err(DigestCalledAgain), ordered;
      }
      digestCalled := true;
      var b := buffer.value;
      var augmented := AugmentAll(b);
      if augmented.Err? {
        return Err(augmented.error), ordered;
      }
      var all := augmented.value;
      if all == [] {
        return Err(NoSnapshots), ordered;
      }
      var rows := ConcatRows(all);
      var schema := all[|all| - 1].schema;
      assert all[|all| - 1] == WithTotals(b[|b| - 1]);
      buffer := None;
      r, ordered := SortAndDerive(rows, schema);
      if r.Ok? {
        DigestedWellFormed(b, r, buffer, pool, ordered);
      }
    }

    /** The steps of digest() after the concatenation, each leaving pool_entries as the code does. */
    method SortAndDerive(rows: seq<Row>, schema: seq<Column>) returns (r: Result<Table>, ghost ordered: seq<Row>)
      modifies this
      ensures buffer == old(buffer) && digestCalled == old(digestCalled)
      ensures Aggregated(rows, schema, r, pool, ordered)
    {
      ordered := [];
      pool := Some(Table(schema, rows));
      var col := FindSortColumn(schema);
      if col.None? {
        return Err(NoTimestampColumn), ordered;
      }
      var sorted := SortByTime(rows, col.value);
      ordered := sorted;
      pool := Some(Table(schema, sorted));
      if KindOf(schema, PagedDiffColumn) != Some(IntCol) {
        return Err(MissingColumn(PagedDiffColumn)), ordered;
      }
      if KindOf(schema, NonPagedDiffColumn) != Some(IntCol) {
        return Err(MissingColumn(NonPagedDiffColumn)), ordered;
      }
      var digested := Table(WithTotalDiffColumn(schema), AddTotalDiff(sorted));
      pool := Some(digested);
      return Ok(digested), ordered;
    }

    /**
     * Digests on first use, while the flag is still clear, and reports that digest's failure;
     * d and ordered are that digest's outcome.
     */
    method DigestIfNeeded() returns (failure: Option<Error>, ghost d: Result<Table>, ghost ordered: seq<Row>)
      requires Valid()
      modifies this
      ensures Valid() && digestCalled
      ensures old(digestCalled) ==> failure == None && buffer == old(buffer) && pool == old(pool)
      ensures !old(digestCalled) ==>
                && Digested(old(buffer).value, d, buffer, pool, ordered)
                && failure == (if d.Ok? then None else Some(d.error))
    {
      d, ordered := Err(DigestCalledAgain), [];
      failure := None;
      if !digestCalled {
        var digested;
        digested, ordered := Digest();
        d := digested;
        if digested.Err? {
          failure := Some(digested.error);
        }
      }
    }

    /** get_df: the aggregated table, which a failed earlier digest may have left None or half done. */
    method GetDf() returns (r: Result<Option<Table>>, ghost d: Result<Table>, ghost ordered: seq<Row>)
      requires Valid()
      modifies this
      ensures Valid() && digestCalled
      ensures old(digestCalled) ==> r == Ok(old(pool)) && buffer == old(buffer) && pool == old(pool)
      ensures !old(digestCalled) ==>
                && Digested(old(buffer).value, d, buffer, pool, ordered)
                && r == (if d.Ok? then Ok(Some(d.value)) else Err(d.error))
    {
      var failure;
      failure, d, ordered := DigestIfNeeded();
      if failure.Some? {
        return Err(failure.value), d, ordered;
      }
      return Ok(pool), d, ordered;
    }

    /** get_all_tags: every tag of the aggregated table once, in order of first appearance. */
    method GetAllTags() returns (r: Result<seq<string>>, ghost d: Result<Table>, ghost ordered: seq<Row>)
      requires Valid()
      modifies this
      ensures Valid() && digestCalled
      ensures old(digestCalled) ==> buffer == old(buffer) && pool == old(pool)
      ensures !old(digestCalled) ==> Digested(old(buffer).value, d, buffer, pool, ordered)
      ensures !old(digestCalled) && d.Err? ==> r == Err(d.error)
      ensures old(digestCalled) || d.Ok? ==>
                r == (if pool.Some? then Ok(Unique(Tags(pool.value.rows))) else Err(NotDigested))
      ensures r.Ok? ==> Distinct(r.value) && forall t :: t in r.value <==> t in Tags(pool.value.rows)
    {
      var failure;
      failure, d, ordered := DigestIfNeeded();
      if failure.Some? {
        return Err(failure.value), d, ordered;
      }
      if pool.None? {
        return Err(NotDigested), d, ordered;
      }
      return Ok(Unique(Tags(pool.value.rows))), d, ordered;
    }

    /**
     * The body the three rankings share: TOTAL is appended to a shared ignore list first, then the
     * ranking runs on the aggregated table (which it does not digest).
     */
    method Rank(n: int, byCol: string, ignore: IgnoreArg, metric: Metric) returns (r: Result<seq<string>>)
      modifies Frame(ignore)
      ensures ignore.Shared? ==> ignore.list.items == old(ignore.list.items) + [TotalTag]
      ensures r == RankOutcome(pool, byCol, IgnoredSet(old(ListedBy(ignore))), n, metric)
      ensures r.Ok? ==> TotalTag !in r.value
    {
      var listed := ListedBy(ignore);
      if ignore.Shared? {
        ignore.list.items := ignore.list.items + [TotalTag];
      }
      r := RankOutcome(pool, byCol, IgnoredSet(listed), n, metric);
    }

    /** get_highest_tags: the n tags with the highest peak of by_col. */
    method HighestTags(n: int, byCol: string, ignore: IgnoreArg) returns (r: Result<seq<string>>)
      modifies Frame(ignore)
      ensures ignore.Shared? ==> ignore.list.items == old(ignore.list.items) + [TotalTag]
      ensures r == RankOutcome(pool, byCol, IgnoredSet(old(ListedBy(ignore))), n, Peak)
      ensures r.Ok? ==> TotalTag !in r.value
    {
      r := Rank(n, byCol, ignore, Peak);
    }

    /** get_most_changed_tags: the n tags with the highest percentage change of by_col. */
    method MostChangedTags(n: int, byCol: string, ignore: IgnoreArg) returns (r: Result<seq<string>>)
      modifies Frame(ignore)
      ensures ignore.Shared? ==> ignore.list.items == old(ignore.list.items) + [TotalTag]
      ensures r == RankOutcome(pool, byCol, IgnoredSet(old(ListedBy(ignore))), n, Change)
      ensures r.Ok? ==> TotalTag !in r.value
    {
      r := Rank(n, byCol, ignore, Change);
    }

    /** get_tags_with_highest_average_usage: the n tags with the highest mean of by_col. */
    method HighestAverageTags(n: int, byCol: string, ignore: IgnoreArg) returns (r: Result<seq<string>>)
      modifies Frame(ignore)
      ensures ignore.Shared? ==> ignore.list.items == old(ignore.list.items) + [TotalTag]
      ensures r == RankOutcome(pool, byCol, IgnoredSet(old(ListedBy(ignore))), n, Mean)
      ensures r.Ok? ==> TotalTag !in r.value
    {
      r := Rank(n, byCol, ignore, Mean);
    }

    /**
     * show_plot without the drawing: the selectors are validated, the rows of the given tags are
     * pivoted by DateTimeUTC and Tag, and byte columns are shown in MB.
     */
    function ShowPlot(tags: seq<string>, ts: string, byCol: string): (r: Result<Plot>)
      reads this
      ensures ts !in ValidTimeColumns ==> r == Err(InvalidTimestampTag)
      ensures ts in ValidTimeColumns && byCol !in ValidColumns ==> r == Err(InvalidColumnName)
      ensures r.Ok? ==> && ts in ValidTimeColumns && byCol in ValidColumns && pool.Some?
                        && r.value.title == Title(byCol) && r.value.yFormat == YFormat(byCol)
    {
      if ts !in ValidTimeColumns then Err(InvalidTimestampTag)
      else if byCol !in ValidColumns then Err(InvalidColumnName)
      else if pool.None? then Err(NotDigested)
      else if KindOf(pool.value.schema, byCol) != Some(IntCol) then Err(MissingColumn(byCol))
      else if KindOf(pool.value.schema, UtcColumn) != Some(TimeCol) then Err(MissingColumn(UtcColumn))
      else
        match PivotCells(PlotRows(pool.value.rows, tags), byCol)
        case None => Err(DuplicatePivotEntry)
        case Some(cells) => Ok(Plot(Title(byCol), YFormat(byCol), cells))
    }

    /**
     * do_plot without the drawing: validate, digest on first use, union TOTAL with the rankings
     * that have n > 0 (most changed, highest peak, highest average, in that order), then plot.
     * A shared ignore list gains one TOTAL per ranking that ran.
     */
    method DoPlot(byCol: string, ts: string, ignore: IgnoreArg, nChanged: int, nHighest: int, nAverage: int)
      returns (r: Result<Selection>, ghost d: Result<Table>, ghost ordered: seq<Row>)
      requires Valid()
      modifies this, Frame(ignore)
      ensures Valid()
      ensures ts !in ValidTimeColumns ==>
                r == Err(InvalidTimestampTag) && unchanged(this) && ListedBy(ignore) == old(ListedBy(ignore))
      ensures ts in ValidTimeColumns && byCol !in ValidColumns ==>
                r == Err(InvalidColumnName) && unchanged(this) && ListedBy(ignore) == old(ListedBy(ignore))
      ensures ts in ValidTimeColumns && byCol in ValidColumns ==>
                && digestCalled
                && (old(digestCalled) ==> buffer == old(buffer) && pool == old(pool))
                && (!old(digestCalled) ==> Digested(old(buffer).value, d, buffer, pool, ordered))
      ensures ts in ValidTimeColumns && byCol in ValidColumns && !old(digestCalled) && d.Err? ==>
                r == Err(d.error) && ListedBy(ignore) == old(ListedBy(ignore))
      ensures ts in ValidTimeColumns && byCol in ValidColumns && (old(digestCalled) || d.Ok?) ==>
                && ListedBy(ignore) == old(ListedBy(ignore)) +
                     (if ignore.Shared? then TotalCopies(RankingsRun(Rankable(pool, byCol), [nChanged, nHighest, nAverage])) else [])
                && r == Finish(Union(pool, byCol, IgnoredSet(old(ListedBy(ignore))), nChanged, nHighest, nAverage), ts, byCol)
    {
      d, ordered := Err(DigestCalledAgain), [];
      if ts !in ValidTimeColumns {
        return Err(InvalidTimestampTag), d, ordered;
      }
      if byCol !in ValidColumns {
        return Err(InvalidColumnName), d, ordered;
      }
      var failure;
      failure, d, ordered := DigestIfNeeded();
      if failure.Some? {
        return Err(failure.value), d, ordered;
      }
      var tags := SelectAll(byCol, ignore, nChanged, nHighest, nAverage);
      r := Finish(tags, ts, byCol);
    }

    /** The three select_tags calls of do_plot, in order; a failing ranking ends the sequence. */
    method SelectAll(byCol: string, ignore: IgnoreArg, nChanged: int, nHighest: int, nAverage: int)
      returns (tags: Result<seq<string>>)
      modifies Frame(ignore)
      ensures tags == Union(pool, byCol, IgnoredSet(old(ListedBy(ignore))), nChanged, nHighest, nAverage)
      ensures ListedBy(ignore) == old(ListedBy(ignore)) +
                (if ignore.Shared? then TotalCopies(RankingsRun(Rankable(pool, byCol), [nChanged, nHighest, nAverage])) else [])
    {
      ghost var listed := ListedBy(ignore);
      ghost var ignored := IgnoredSet(listed);
      var start: Result<seq<string>> := Ok([TotalTag]);
      ghost var changed := AddRanking(start, pool, byCol, ignored, nChanged, Change);
      ghost var highest := AddRanking(changed, pool, byCol, ignored, nHighest, Peak);
      ghost var runs := RankingsRun(Rankable(pool, byCol), [nChanged, nHighest, nAverage]);
      RunsOfUnion(pool, byCol, ignored, nChanged, nHighest, nAverage);
      ghost var k1 := 0 + if nChanged > 0 && start.Ok? then 1 else 0;
      ghost var k2 := k1 + if nHighest > 0 && changed.Ok? then 1 else 0;
      assert runs == k2 + if nAverage > 0 && highest.Ok? then 1 else 0;
      var afterChanged := SelectTags(start, nChanged, byCol, ignore, Change, listed, 0);
      assert afterChanged == changed;
      var afterHighest := SelectTags(afterChanged, nHighest, byCol, ignore, Peak, listed, k1);
      assert afterHighest == highest;
      tags := SelectTags(afterHighest, nAverage, byCol, ignore, Mean, listed, k2);
      assert ListedBy(ignore) == listed + (if ignore.Shared? then TotalCopies(runs) else []);
    }

    /**
     * select_tags: with n > 0 the ranking runs (appending TOTAL to a shared ignore list) and its
     * unseen tags are appended to the tags so far; with n <= 0 nothing happens. A failure of an
     * earlier ranking is passed on unchanged, as the exception would skip this call.
     * The ignore list is the caller's listed plus k copies of TOTAL.
     */
    method SelectTags(acc: Result<seq<string>>, n: int, byCol: string, ignore: IgnoreArg, metric: Metric,
                      ghost listed: seq<string>, ghost k: nat)
      returns (r: Result<seq<string>>)
      requires acc.Ok? ==> Distinct(acc.value)
      requires ListedBy(ignore) == listed + (if ignore.Shared? then TotalCopies(k) else [])
      modifies Frame(ignore)
      ensures r == AddRanking(acc, pool, byCol, IgnoredSet(listed), n, metric)
      ensures r.Ok? ==> Distinct(r.value)
      ensures ListedBy(ignore) == listed +
                (if ignore.Shared? then TotalCopies(k + if n > 0 && acc.Ok? then 1 else 0) else [])
    {
      if acc.Err? || n <= 0 {
        return acc;
      }
      IgnoredAfterTotals(listed, k);
      var ranked;
      match metric {
        case Change => ranked := MostChangedTags(n, byCol, ignore);
        case Peak => ranked := HighestTags(n, byCol, ignore);
        case Mean => ranked := HighestAverageTags(n, byCol, ignore);
      }
      IgnoredAfterTotals(listed, k + 1);
      if ranked.Err? {
        return Err(ranked.error);
      }
      var all := AppendUnseen(acc.value, ranked.value);
      return Ok(all);
    }

    /** The do_plot result once the tags are chosen: the plot of those tags, or the first failure. */
    function Finish(tags: Result<seq<string>>, ts: string, byCol: string): Result<Selection>
      reads this
    {
      match tags
      case Err(e) => Err(e)
      case Ok(list) =>
        match ShowPlot(list, ts, byCol)
        case Err(e) => Err(e)
        case Ok(plot) => Ok(Selection(list, plot))
    }
  }

  /**
   * A digest that succeeds holds every snapshot row and every snapshot's TOTAL row, each once
   * per occurrence and with TotalDiff derived; it is time-ordered, and TotalDiff is
   * PagedDiff + NonPagedDiff on every row.
   */
  lemma {:induction false} DigestedRows(b: seq<Table>, r: Result<Table>, buffer: Option<seq<Table>>, pool: Option<Table>, ordered: seq<Row>)
    requires Digested(b, r, buffer, pool, ordered) && r.Ok?
    ensures b != [] && forall i :: 0 <= i < |b| ==> b[i].rows != []
    ensures pool == Some(r.value) && buffer == None
    ensures |r.value.rows| == AugmentedCount(b)
    ensures forall i, row :: 0 <= i < |b| && row in b[i].rows + [TotalsRow(b[i])] ==> WithTotalDiff(row) in r.value.rows
    ensures forall k :: 0 <= k < |r.value.rows| ==>
              IntCell(r.value.rows[k], TotalDiffColumn) ==
              IntCell(r.value.rows[k], PagedDiffColumn) + IntCell(r.value.rows[k], NonPagedDiffColumn)
    ensures LastTimeColumn(b[|b| - 1].schema).Some?
    ensures LastTimeColumn(b[|b| - 1].schema).value != TotalDiffColumn ==>
              SortedByTime(r.value.rows, LastTimeColumn(b[|b| - 1].schema).value)
  {
    var rows := ConcatRows(WithTotalsAll(b));
    assert Aggregated(rows, b[|b| - 1].schema, r, pool, ordered);
    AggregatedOk(rows, b[|b| - 1].schema, r, pool, ordered);
    ConcatWithTotalsLength(b);
    ConcatHoldsAll(b);
  }

  /**
   * Under the buffer invariant (every snapshot well-formed and sharing one schema), a digest that
   * succeeds is a well-formed table under the first schema with TotalDiff added, so every row
   * holds integer PagedDiff, NonPagedDiff and TotalDiff cells.
   */
  lemma DigestedWellFormed(b: seq<Table>, r: Result<Table>, buffer: Option<seq<Table>>, pool: Option<Table>, ordered: seq<Row>)
    requires Digested(b, r, buffer, pool, ordered) && r.Ok?
    requires SameSchema(b) && forall i :: 0 <= i < |b| ==> Conforms(b[i])
    ensures r.value.schema == WithTotalDiffColumn(b[|b| - 1].schema)
    ensures WellFormed(r.value)
    ensures forall k :: 0 <= k < |r.value.rows| ==>
              && HasIntCell(r.value.rows[k], PagedDiffColumn) && HasIntCell(r.value.rows[k], NonPagedDiffColumn)
              && HasIntCell(r.value.rows[k], TotalDiffColumn)
  {
    var rows := ConcatRows(WithTotalsAll(b));
    var schema := b[|b| - 1].schema;
    assert b != [] && forall i :: 0 <= i < |b| ==> b[i].rows != [];
    assert Aggregated(rows, schema, r, pool, ordered);
    AggregatedTable(rows, schema, r, pool, ordered);
    ConcatRowsFit(b);
    PermutationFits(schema, rows, ordered);
    AddTotalDiffWellFormed(schema, ordered);
    DiffCellsPresent(schema, ordered);
  }

  /** A successful run of the steps after the concatenation: the table it builds and what it relied on. */
  lemma AggregatedTable(rows: seq<Row>, schema: seq<Column>, r: Result<Table>, pool: Option<Table>, ordered: seq<Row>)
    requires Aggregated(rows, schema, r, pool, ordered) && r.Ok?
    ensures r.value == Table(WithTotalDiffColumn(schema), AddTotalDiff(ordered))
    ensures multiset(ordered) == multiset(rows)
    ensures KindOf(schema, PagedDiffColumn) == Some(IntCol) && KindOf(schema, NonPagedDiffColumn) == Some(IntCol)
  {
  }

  /** A reordering of rows that all fit a schema consists of rows that fit it. */
  lemma PermutationFits(schema: seq<Column>, rows: seq<Row>, ordered: seq<Row>)
    requires multiset(ordered) == multiset(rows) && forall row :: row in rows ==> Fits(schema, row)
    ensures forall k :: 0 <= k < |ordered| ==> Fits(schema, ordered[k])
  {
    forall k | 0 <= k < |ordered| ensures Fits(schema, ordered[k]) {
      assert ordered[k] in multiset(ordered);
      assert ordered[k] in rows;
    }
  }

  /** The concatenated rows of a well-formed buffer with one schema all fit that schema. */
  lemma ConcatRowsFit(b: seq<Table>)
    requires b != [] && SameSchema(b) && forall i :: 0 <= i < |b| ==> Conforms(b[i]) && b[i].rows != []
    ensures DistinctNames(b[|b| - 1].schema)
    ensures forall row :: row in ConcatRows(WithTotalsAll(b)) ==> Fits(b[|b| - 1].schema, row)
  {
    var w := WithTotalsAll(b);
    forall row | row in ConcatRows(w) ensures Fits(b[|b| - 1].schema, row) {
      var i :| 0 <= i < |w| && row in w[i].rows;
      assert w[i] == WithTotals(b[i]);
      assert b[i].schema == b[0].schema == b[|b| - 1].schema;
      AugmentedFits(b[i], row);
    }
  }

  /** Rows that fit a schema with integer diff columns keep those cells as integers, and gain an integer TotalDiff. */
  lemma DiffCellsPresent(schema: seq<Column>, rows: seq<Row>)
    requires DistinctNames(schema) && forall k :: 0 <= k < |rows| ==> Fits(schema, rows[k])
    requires KindOf(schema, PagedDiffColumn) == Some(IntCol) && KindOf(schema, NonPagedDiffColumn) == Some(IntCol)
    ensures forall k :: 0 <= k < |rows| ==>
              && HasIntCell(AddTotalDiff(rows)[k], PagedDiffColumn) && HasIntCell(AddTotalDiff(rows)[k], NonPagedDiffColumn)
              && HasIntCell(AddTotalDiff(rows)[k], TotalDiffColumn)
  {
    forall k | 0 <= k < |rows|
      ensures && HasIntCell(AddTotalDiff(rows)[k], PagedDiffColumn) && HasIntCell(AddTotalDiff(rows)[k], NonPagedDiffColumn)
              && HasIntCell(AddTotalDiff(rows)[k], TotalDiffColumn)
    {
      KindCell(schema, rows[k], PagedDiffColumn, IntCol);
      KindCell(schema, rows[k], NonPagedDiffColumn, IntCol);
      WithTotalDiffSpec(rows[k]);
    }
  }

  /** The steps after the concatenation, when they succeed: each row once with TotalDiff derived, time-ordered. */
  lemma AggregatedOk(rows: seq<Row>, schema: seq<Column>, r: Result<Table>, pool: Option<Table>, ordered: seq<Row>)
    requires Aggregated(rows, schema, r, pool, ordered) && r.Ok?
    ensures pool == Some(r.value) && |r.value.rows| == |rows|
    ensures forall row :: row in rows ==> WithTotalDiff(row) in r.value.rows
    ensures forall k :: 0 <= k < |r.value.rows| ==>
              IntCell(r.value.rows[k], TotalDiffColumn) ==
              IntCell(r.value.rows[k], PagedDiffColumn) + IntCell(r.value.rows[k], NonPagedDiffColumn)
    ensures LastTimeColumn(schema).Some?
    ensures LastTimeColumn(schema).value != TotalDiffColumn ==> SortedByTime(r.value.rows, LastTimeColumn(schema).value)
  {
    var col := LastTimeColumn(schema).value;
    assert r.value.rows == AddTotalDiff(ordered);
    SortedAggregate(rows, ordered, col);
  }

  /**
   * show_plot succeeds exactly when both selectors are valid, the table exists with the metric
   * and DateTimeUTC columns, and no two selected rows share a (DateTimeUTC, Tag) entry. Its cells
   * are then exactly the entries of the selected rows, each holding that row's rescaled value;
   * the title and format name MB exactly for byte columns; and which valid timestamp selector
   * was passed makes no difference.
   */
  lemma {:induction false} ShowPlotSpec(p: PoolEntries, tags: seq<string>, ts: string, byCol: string)
    ensures p.ShowPlot(tags, ts, byCol).Ok? <==>
              && ts in ValidTimeColumns && byCol in ValidColumns && p.pool.Some?
              && KindOf(p.pool.value.schema, byCol) == Some(IntCol)
              && KindOf(p.pool.value.schema, UtcColumn) == Some(TimeCol)
              && KeysDistinct(PlotRows(p.pool.value.rows, tags))
    ensures p.ShowPlot(tags, ts, byCol).Ok? ==>
              var plot := p.ShowPlot(tags, ts, byCol).value;
              && (forall row :: row in p.pool.value.rows && TagOf(row) in tags ==>
                    PivotKey(row) in plot.cells && plot.cells[PivotKey(row)] == Rescaled(byCol, IntCell(row, byCol)))
              && (forall key :: key in plot.cells ==>
                    exists row :: row in p.pool.value.rows && TagOf(row) in tags && PivotKey(row) == key)
              && (EndsWith(plot.title, " (MB)") <==> InBytes(byCol))
              && plot.yFormat == (if InBytes(byCol) then "%.3f" else "%d")
    ensures ts in ValidTimeColumns ==> p.ShowPlot(tags, ts, byCol) == p.ShowPlot(tags, UtcColumn, byCol)
  {
    var plot := p.ShowPlot(tags, ts, byCol);
    if plot.Ok? {
      SelectedCells(p.pool.value.rows, tags, byCol);
      UnitsAgree(byCol, 0);
    }
  }
}

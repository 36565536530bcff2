/** The steps of digest() after concatenation: choosing the sort column, sorting, deriving TotalDiff. */
module Aggregate {
  import opened Results
  import opened Seqs
  import opened Tables

  /** The name of the last datetime-typed column, the one the column scan leaves in its variable. */
  function LastTimeColumn(schema: seq<Column>): Option<string>
  {
    if schema == [] then None
    else if schema[|schema| - 1].kind == TimeCol then Some(schema[|schema| - 1].name)
    else LastTimeColumn(schema[..|schema| - 1])
  }

  lemma {:induction false} LastTimeColumnSpec(schema: seq<Column>)
    ensures LastTimeColumn(schema).None? <==> forall i :: 0 <= i < |schema| ==> schema[i].kind != TimeCol
    ensures LastTimeColumn(schema).Some? ==>
              exists i :: (0 <= i < |schema| && schema[i] == Column(LastTimeColumn(schema).value, TimeCol) &&
                forall j :: i < j < |schema| ==> schema[j].kind != TimeCol)
    decreases |schema|
  {
    if schema != [] && schema[|schema| - 1].kind != TimeCol {
      var p := schema[..|schema| - 1];
      LastTimeColumnSpec(p);
      if LastTimeColumn(p).Some? {
        var i :| 0 <= i < |p| && p[i] == Column(LastTimeColumn(p).value, TimeCol) &&
                 forall j :: i < j < |p| ==> p[j].kind != TimeCol;
        assert schema[i] == p[i];
      }
    }
  }

  /** The scan over the column types that keeps the last datetime column it meets. */
  method FindSortColumn(schema: seq<Column>) returns (col: Option<string>)
    ensures col == LastTimeColumn(schema)
    ensures col.None? <==> forall i :: 0 <= i < |schema| ==> schema[i].kind != TimeCol
    ensures col.Some? ==> exists i :: (0 <= i < |schema| && schema[i] == Column(col.value, TimeCol) &&
              forall j :: i < j < |schema| ==> schema[j].kind != TimeCol)
  {
    col := None;
    for i := 0 to |schema|
      invariant col == LastTimeColumn(schema[..i])
    {
      assert schema[..i + 1][..i] == schema[..i];
      if schema[i].kind == TimeCol {
        col := Some(schema[i].name);
      }
    }
    assert schema[..|schema|] == schema;
    LastTimeColumnSpec(schema);
  }

  predicate SortedByTime(rows: seq<Row>, col: string)
  {
    forall i, j :: 0 <= i < j < |rows| ==> TimeCell(rows[i], col) <= TimeCell(rows[j], col)
  }

  /** One ascending order of the rows by column col; rows with equal times may come in any order. */
  function SortByTime(rows: seq<Row>, col: string): (r: seq<Row>)
    ensures multiset(r) == multiset(rows)
    ensures SortedByTime(r, col)
  {
    var key := (x: Row) => TimeCell(x, col) as real;
    var r := SortBy(rows, key);
    assert Ascending(r, key);
    r
  }

  /** A row with TotalDiff set to PagedDiff + NonPagedDiff. */
  function WithTotalDiff(r: Row): Row
  {
    r[TotalDiffColumn := IntV(IntCell(r, PagedDiffColumn) + IntCell(r, NonPagedDiffColumn))]
  }

  function AddTotalDiff(rows: seq<Row>): (r: seq<Row>)
    ensures |r| == |rows|
    ensures forall i :: 0 <= i < |rows| ==> r[i] == WithTotalDiff(rows[i])
  {
    if rows == [] then [] else [WithTotalDiff(rows[0])] + AddTotalDiff(rows[1..])
  }

  /** Afterwards every row satisfies TotalDiff = PagedDiff + NonPagedDiff, and no other cell changed. */
  lemma TotalDiffHolds(rows: seq<Row>)
    ensures forall i :: 0 <= i < |rows| ==>
              && AddTotalDiff(rows)[i].Keys == rows[i].Keys + {TotalDiffColumn}
              && IntCell(AddTotalDiff(rows)[i], TotalDiffColumn) ==
                 IntCell(AddTotalDiff(rows)[i], PagedDiffColumn) + IntCell(AddTotalDiff(rows)[i], NonPagedDiffColumn)
              && forall c :: c in rows[i] && c != TotalDiffColumn ==> AddTotalDiff(rows)[i][c] == rows[i][c]
  {
    forall i | 0 <= i < |rows|
      ensures AddTotalDiff(rows)[i] == WithTotalDiff(rows[i])
    {
      WithTotalDiffSpec(rows[i]);
    }
  }

  /** One row's TotalDiff assignment: the column gains the sum and nothing else changes. */
  lemma WithTotalDiffSpec(r: Row)
    ensures WithTotalDiff(r).Keys == r.Keys + {TotalDiffColumn}
    ensures IntCell(WithTotalDiff(r), TotalDiffColumn) ==
            IntCell(WithTotalDiff(r), PagedDiffColumn) + IntCell(WithTotalDiff(r), NonPagedDiffColumn)
    ensures forall c :: c in r && c != TotalDiffColumn ==> WithTotalDiff(r)[c] == r[c]
  {
    assert PagedDiffColumn != TotalDiffColumn && NonPagedDiffColumn != TotalDiffColumn;
  }

  /** Deriving TotalDiff keeps the time order of any other column. */
  lemma TotalDiffKeepsOrder(rows: seq<Row>, col: string)
    requires col != TotalDiffColumn && SortedByTime(rows, col)
    ensures SortedByTime(AddTotalDiff(rows), col)
  {
    var r := AddTotalDiff(rows);
    forall i, j | 0 <= i < j < |r| ensures TimeCell(r[i], col) <= TimeCell(r[j], col) {
      assert TimeCell(r[i], col) == TimeCell(rows[i], col);
      assert TimeCell(r[j], col) == TimeCell(rows[j], col);
    }
  }

  /**
   * What sorting and deriving TotalDiff make of the concatenated rows: as many rows, each input
   * row present with its TotalDiff set, TotalDiff = PagedDiff + NonPagedDiff everywhere, and the
   * time order kept unless the sort column is TotalDiff itself.
   */
  lemma SortedAggregate(rows: seq<Row>, ordered: seq<Row>, col: string)
    requires multiset(ordered) == multiset(rows) && SortedByTime(ordered, col)
    ensures |AddTotalDiff(ordered)| == |rows|
    ensures forall row :: row in rows ==> WithTotalDiff(row) in AddTotalDiff(ordered)
    ensures forall k :: 0 <= k < |AddTotalDiff(ordered)| ==>
              IntCell(AddTotalDiff(ordered)[k], TotalDiffColumn) ==
              IntCell(AddTotalDiff(ordered)[k], PagedDiffColumn) + IntCell(AddTotalDiff(ordered)[k], NonPagedDiffColumn)
    ensures col != TotalDiffColumn ==> SortedByTime(AddTotalDiff(ordered), col)
  {
    assert |multiset(ordered)| == |multiset(rows)|;
    TotalDiffHolds(ordered);
    forall row | row in rows
      ensures WithTotalDiff(row) in AddTotalDiff(ordered)
    {
      assert row in multiset(ordered);
      var k :| 0 <= k < |ordered| && ordered[k] == row;
      assert AddTotalDiff(ordered)[k] == WithTotalDiff(row);
    }
    if col != TotalDiffColumn {
      TotalDiffKeepsOrder(ordered, col);
    }
  }

  /** The schema after the TotalDiff assignment: the column becomes integer-typed, appended if new. */
  function WithTotalDiffColumn(schema: seq<Column>): (s: seq<Column>)
    ensures KindOf(s, TotalDiffColumn) == Some(IntCol)
    ensures Names(s) == Names(schema) + {TotalDiffColumn}
  {
    if schema == [] then [Column(TotalDiffColumn, IntCol)]
    else if schema[0].name == TotalDiffColumn then
      var s := [Column(TotalDiffColumn, IntCol)] + schema[1..];
      NamesCons(schema);
      NamesCons(s);
      assert s[1..] == schema[1..];
      s
    else
      var s := [schema[0]] + WithTotalDiffColumn(schema[1..]);
      NamesCons(schema);
      NamesCons(s);
      assert s[1..] == WithTotalDiffColumn(schema[1..]);
      s
  }

  /** The shape facts about the schema after the TotalDiff assignment. */
  predicate TotalDiffShaped(schema: seq<Column>, s: seq<Column>)
  {
    && (forall c :: c in s && c.name != TotalDiffColumn ==> c in schema)
    && (forall c :: c in s && c.name == TotalDiffColumn ==> c.kind == IntCol)
    && DistinctNames(s)
  }

  /** With distinct names, the new schema keeps distinct names; TotalDiff is its only new column, integer-typed. */
  lemma {:induction false} WithTotalDiffColumnShape(schema: seq<Column>)
    requires DistinctNames(schema)
    ensures TotalDiffShaped(schema, WithTotalDiffColumn(schema))
    decreases |schema|
  {
    if schema != [] {
      DistinctRest(schema);
      if schema[0].name == TotalDiffColumn {
        ShapeAtTotalDiff(schema);
      } else {
        WithTotalDiffColumnShape(schema[1..]);
        ShapeAfterOther(schema);
      }
    }
  }

  lemma DistinctRest(schema: seq<Column>)
    requires schema != [] && DistinctNames(schema)
    ensures DistinctNames(schema[1..]) && schema[0].name !in Names(schema[1..])
  {
    var rest := schema[1..];
    forall i, j | 0 <= i < j < |rest| ensures rest[i].name != rest[j].name {
      assert rest[i] == schema[i + 1] && rest[j] == schema[j + 1];
    }
    forall j | 0 <= j < |rest| ensures rest[j].name != schema[0].name {
      assert rest[j] == schema[j + 1];
    }
  }

  /** An existing TotalDiff column is retyped in place. */
  lemma ShapeAtTotalDiff(schema: seq<Column>)
    requires schema != [] && DistinctNames(schema) && schema[0].name == TotalDiffColumn
    ensures TotalDiffShaped(schema, WithTotalDiffColumn(schema))
  {
    var s := WithTotalDiffColumn(schema);
    assert s == [Column(TotalDiffColumn, IntCol)] + schema[1..];
    assert forall i :: 0 < i < |s| ==> s[i] == schema[i];
    forall i, j | 0 <= i < j < |s| ensures s[i].name != s[j].name {
      assert s[j].name == schema[j].name;
      assert i == 0 || s[i].name == schema[i].name;
    }
    forall c | c in s ensures c.name == TotalDiffColumn ==> c.kind == IntCol
      ensures c.name != TotalDiffColumn ==> c in schema
    {
      var i :| 0 <= i < |s| && s[i] == c;
      if i > 0 {
        assert schema[i].name != schema[0].name;
      }
    }
  }

  /** A column other than TotalDiff is kept at the head of the new schema. */
  lemma ShapeAfterOther(schema: seq<Column>)
    requires schema != [] && DistinctNames(schema) && schema[0].name != TotalDiffColumn
    requires schema[0].name !in Names(schema[1..])
    requires TotalDiffShaped(schema[1..], WithTotalDiffColumn(schema[1..]))
    ensures TotalDiffShaped(schema, WithTotalDiffColumn(schema))
  {
    var s := WithTotalDiffColumn(schema);
    var w := WithTotalDiffColumn(schema[1..]);
    assert s == [schema[0]] + w;
    forall i, j | 0 <= i < j < |s| ensures s[i].name != s[j].name {
      if i == 0 {
        assert s[j] == w[j - 1];
        assert w[j - 1].name in Names(w);
      } else {
        assert s[i] == w[i - 1] && s[j] == w[j - 1];
      }
    }
    forall c | c in s && c.name != TotalDiffColumn ensures c in schema {
      if c != schema[0] { assert c in w; }
    }
  }

  /** A row that fits the schema fits the new schema once it gains its TotalDiff cell. */
  lemma WithTotalDiffFits(schema: seq<Column>, row: Row)
    requires DistinctNames(schema) && Fits(schema, row)
    ensures Fits(WithTotalDiffColumn(schema), WithTotalDiff(row))
  {
    var s := WithTotalDiffColumn(schema);
    var w := WithTotalDiff(row);
    WithTotalDiffColumnShape(schema);
    WithTotalDiffSpec(row);
    forall i | 0 <= i < |s| ensures s[i].name in w && HasKind(w[s[i].name], s[i].kind) {
      assert s[i] in s;
      if s[i].name != TotalDiffColumn {
        var j :| 0 <= j < |schema| && schema[j] == s[i];
      }
    }
  }

  /** Deriving TotalDiff over rows that fit the schema gives a well-formed table under the new schema. */
  lemma AddTotalDiffWellFormed(schema: seq<Column>, rows: seq<Row>)
    requires DistinctNames(schema) && forall k :: 0 <= k < |rows| ==> Fits(schema, rows[k])
    ensures WellFormed(Table(WithTotalDiffColumn(schema), AddTotalDiff(rows)))
  {
    WithTotalDiffColumnShape(schema);
    forall k | 0 <= k < |rows| ensures Fits(WithTotalDiffColumn(schema), AddTotalDiff(rows)[k]) {
      WithTotalDiffFits(schema, rows[k]);
    }
  }
}

/** The synthetic TOTAL row appended to every snapshot, and the concatenation of augmented snapshots. */
module Totals {
  import opened Results
  import opened Tables

  /** Row 0 with Tag set to TOTAL, then every integer-typed column replaced by its column sum. */
  function TotalsRow(t: Table): (r: Row)
    requires t.rows != []
    ensures r.Keys == t.rows[0].Keys
    ensures forall c :: c in r && KindOf(t.schema, c) == Some(IntCol) ==> r[c] == IntV(ColumnSum(t.rows, c))
    ensures TagColumn in r && KindOf(t.schema, TagColumn) != Some(IntCol) ==> r[TagColumn] == StrV(TotalTag)
    ensures forall c :: c in r && KindOf(t.schema, c) != Some(IntCol) && c != TagColumn ==> r[c] == t.rows[0][c]
  {
    map c | c in t.rows[0] :: TotalCell(t, c)
  }

  function TotalCell(t: Table, c: string): Value
    requires t.rows != [] && c in t.rows[0]
  {
    if KindOf(t.schema, c) == Some(IntCol) then IntV(ColumnSum(t.rows, c))
    else if c == TagColumn then StrV(TotalTag)
    else t.rows[0][c]
  }

  /** The snapshot with its TOTAL row appended last. */
  function WithTotals(t: Table): (r: Table)
    requires t.rows != []
    ensures r.schema == t.schema && |r.rows| == |t.rows| + 1
    ensures r.rows[..|t.rows|] == t.rows && r.rows[|t.rows|] == TotalsRow(t)
  {
    t.(rows := t.rows + [TotalsRow(t)])
  }

  /** What the TOTAL row holds, column by column. */
  lemma TotalsRowCells(t: Table)
    requires Conforms(t) && t.rows != []
    ensures TotalsRow(t)[TagColumn] == StrV(TotalTag)
    ensures forall i :: 0 <= i < |t.schema| && t.schema[i].kind == IntCol ==>
              TotalsRow(t)[t.schema[i].name] == IntV(ColumnSum(t.rows, t.schema[i].name))
    ensures forall i :: 0 <= i < |t.schema| && t.schema[i].kind != IntCol && t.schema[i].name != TagColumn ==>
              TotalsRow(t)[t.schema[i].name] == t.rows[0][t.schema[i].name]
  {
    assert Fits(t.schema, t.rows[0]);
    forall i | 0 <= i < |t.schema|
      ensures KindOf(t.schema, t.schema[i].name) == Some(t.schema[i].kind)
    {
      KindOfAt(t.schema, i);
    }
  }

  /** The TOTAL row fits the snapshot's schema, so the augmented snapshot is still well-formed. */
  lemma TotalsRowSpec(t: Table)
    requires Conforms(t) && t.rows != []
    ensures TotalsRow(t)[TagColumn] == StrV(TotalTag)
    ensures Fits(t.schema, TotalsRow(t))
    ensures Conforms(WithTotals(t))
    ensures WithTotals(t).schema == t.schema && |WithTotals(t).rows| == |t.rows| + 1
    ensures WithTotals(t).rows[..|t.rows|] == t.rows && WithTotals(t).rows[|t.rows|] == TotalsRow(t)
  {
    var row := TotalsRow(t);
    assert Fits(t.schema, t.rows[0]);
    TotalsRowCells(t);
    forall i | 0 <= i < |t.schema|
      ensures HasKind(row[t.schema[i].name], t.schema[i].kind)
    {
      KindOfAt(t.schema, i);
    }
    assert Fits(t.schema, row);
    var w := WithTotals(t);
    forall k | 0 <= k < |w.rows| ensures Fits(w.schema, w.rows[k]) {
      if k < |t.rows| { assert w.rows[k] == t.rows[k]; }
    }
  }

  /** Every row of a snapshot with its TOTAL row fits the snapshot's schema. */
  lemma AugmentedFits(t: Table, row: Row)
    requires Conforms(t) && t.rows != [] && row in WithTotals(t).rows
    ensures Fits(t.schema, row)
  {
    TotalsRowSpec(t);
    var k :| 0 <= k < |WithTotals(t).rows| && WithTotals(t).rows[k] == row;
  }

  lemma TotalsRowIs(t: Table, total: Row)
    requires WellFormed(t) && t.rows != []
    requires total.Keys == t.rows[0].Keys
    requires forall j :: 0 <= j < |t.schema| ==> total[t.schema[j].name] == TotalCell(t, t.schema[j].name)
    ensures total == TotalsRow(t)
  {
    assert Fits(t.schema, t.rows[0]);
    forall c | c in total ensures total[c] == TotalsRow(t)[c] {
      var j :| 0 <= j < |t.schema| && t.schema[j].name == c;
    }
  }

  /** The loop state of add_totals_row after i columns: those hold their final value, the rest row 0's (Tag already TOTAL). */
  ghost predicate PartialTotal(t: Table, start: Row, total: Row, i: nat)
    requires t.rows != [] && Fits(t.schema, t.rows[0]) && i <= |t.schema|
  {
    && total.Keys == start.Keys
    && (forall j :: 0 <= j < i ==> t.schema[j].name in total && total[t.schema[j].name] == TotalCell(t, t.schema[j].name))
    && (forall j :: i <= j < |t.schema| ==> t.schema[j].name in total && total[t.schema[j].name] == start[t.schema[j].name])
  }

  /** One iteration of the column loop keeps PartialTotal. */
  lemma TotalStep(t: Table, start: Row, total: Row, i: nat, next: Row)
    requires DistinctNames(t.schema) && t.rows != [] && i < |t.schema|
    requires start == t.rows[0][TagColumn := StrV(TotalTag)]
    requires Fits(t.schema, t.rows[0]) && PartialTotal(t, start, total, i)
    requires next == if t.schema[i].kind == IntCol then total[t.schema[i].name := IntV(ColumnSum(t.rows, t.schema[i].name))] else total
    ensures PartialTotal(t, start, next, i + 1)
  {
    var name := t.schema[i].name;
    KindOfAt(t.schema, i);
    assert next[name] == TotalCell(t, name);
    forall j | 0 <= j < |t.schema| && j != i
      ensures next[t.schema[j].name] == total[t.schema[j].name]
    {
      assert t.schema[j].name != name;
    }
  }

  /** add_totals_row: fails on a snapshot without a row 0, otherwise appends the TOTAL row. */
  method AddTotalsRow(t: Table) returns (r: Result<Table>)
    requires Conforms(t)
    ensures t.rows == [] ==> r == Err(EmptySnapshot)
    ensures t.rows != [] ==> r == Ok(WithTotals(t))
  {
    if |t.rows| == 0 {
      return Err(EmptySnapshot);
    }
    var first := t.rows[0];
    assert Fits(t.schema, first);
    var start := first[TagColumn := StrV(TotalTag)];
    var total := start;
    for i := 0 to |t.schema|
      invariant Fits(t.schema, first) && PartialTotal(t, start, total, i)
    {
      var col := t.schema[i];
      ghost var prev := total;
      if col.kind == IntCol {
        total := total[col.name := IntV(ColumnSum(t.rows, col.name))];
      }
      TotalStep(t, start, prev, i, total);
    }
    TotalsRowIs(t, total);
    return Ok(t.(rows := t.rows + [total]));
  }

  /** The tables of a buffer, each with its TOTAL row, in buffer order. */
  function WithTotalsAll(ts: seq<Table>): (r: seq<Table>)
    requires forall i :: 0 <= i < |ts| ==> ts[i].rows != []
    ensures |r| == |ts|
    ensures forall i :: 0 <= i < |ts| ==> r[i] == WithTotals(ts[i])
  {
    if ts == [] then []
    else
      var p := ts[..|ts| - 1];
      assert forall i :: 0 <= i < |p| ==> p[i] == ts[i];
      WithTotalsAll(p) + [WithTotals(ts[|ts| - 1])]
  }

  /** Augmenting one more snapshot of the buffer extends the augmented list by that snapshot. */
  lemma WithTotalsAllSnoc(b: seq<Table>, i: nat)
    requires i < |b| && forall k :: 0 <= k <= i ==> b[k].rows != []
    ensures WithTotalsAll(b[..i + 1]) == WithTotalsAll(b[..i]) + [WithTotals(b[i])]
  {
    assert b[..i + 1][..i] == b[..i];
  }

  /** pd.concat: the rows of all tables, table after table. */
  function ConcatRows(ts: seq<Table>): (r: seq<Row>)
    ensures forall row :: row in r <==> exists i :: 0 <= i < |ts| && row in ts[i].rows
  {
    if ts == [] then []
    else
      var p := ts[..|ts| - 1];
      assert forall i :: 0 <= i < |p| ==> p[i] == ts[i];
      ConcatRows(p) + ts[|ts| - 1].rows
  }

  /** The number of rows a digest produces: each snapshot's rows plus its TOTAL row. */
  function AugmentedCount(ts: seq<Table>): nat
  {
    if ts == [] then 0 else AugmentedCount(ts[..|ts| - 1]) + |ts[|ts| - 1].rows| + 1
  }

  lemma {:induction false} ConcatWithTotalsLength(ts: seq<Table>)
    requires forall i :: 0 <= i < |ts| ==> ts[i].rows != []
    ensures |ConcatRows(WithTotalsAll(ts))| == AugmentedCount(ts)
    decreases |ts|
  {
    if ts != [] {
      var p := ts[..|ts| - 1];
      ConcatWithTotalsLength(p);
      var w := WithTotalsAll(ts);
      assert w[..|w| - 1] == WithTotalsAll(p);
    }
  }

  /** pd.concat of a non-empty list of tables ends with the last table's rows. */
  lemma ConcatRowsSnoc(ts: seq<Table>)
    requires ts != []
    ensures ConcatRows(ts) == ConcatRows(ts[..|ts| - 1]) + ts[|ts| - 1].rows
  {
  }

  /** Each table's rows occur in pd.concat of the tables, counting repeats. */
  lemma {:induction false} ConcatContains(ts: seq<Table>, i: nat)
    requires i < |ts|
    ensures multiset(ts[i].rows) <= multiset(ConcatRows(ts))
    decreases |ts|
  {
    var p := ts[..|ts| - 1];
    ConcatRowsSnoc(ts);
    assert multiset(ConcatRows(ts)) == multiset(ConcatRows(p)) + multiset(ts[|ts| - 1].rows);
    if i < |ts| - 1 {
      assert p[i] == ts[i];
      ConcatContains(p, i);
    }
  }

  /** Every snapshot row and every TOTAL row appears in the concatenation, counting repeats. */
  lemma ConcatWithTotalsContains(ts: seq<Table>, i: nat)
    requires forall k :: 0 <= k < |ts| ==> ts[k].rows != []
    requires i < |ts|
    ensures multiset(ts[i].rows + [TotalsRow(ts[i])]) <= multiset(ConcatRows(WithTotalsAll(ts)))
  {
    var w := WithTotalsAll(ts);
    ConcatContains(w, i);
    assert w[i].rows == ts[i].rows + [TotalsRow(ts[i])];
  }

  /** Membership corollary of ConcatWithTotalsContains: every snapshot row
      and every TOTAL row is a row of the concatenation. */
  lemma ConcatHoldsAll(ts: seq<Table>)
    requires forall k :: 0 <= k < |ts| ==> ts[k].rows != []
    ensures forall i, row :: 0 <= i < |ts| && row in ts[i].rows + [TotalsRow(ts[i])] ==> row in ConcatRows(WithTotalsAll(ts))
  {
    forall i, row | 0 <= i < |ts| && row in ts[i].rows + [TotalsRow(ts[i])]
      ensures row in ConcatRows(WithTotalsAll(ts))
    {
      ConcatWithTotalsContains(ts, i);
      assert row in multiset(ts[i].rows + [TotalsRow(ts[i])]);
    }
  }
}

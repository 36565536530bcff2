/** What show_plot hands the renderer: the selected rows pivoted to one series per tag, rescaled and titled. */
module Plotting {
  import opened Results
  import opened Tables

  /** The pivoted table (cells keyed by DateTimeUTC ticks and tag; a missing key is a gap) and its labels. */
  datatype Plot = Plot(title: string, yFormat: string, cells: map<(int, string), real>)

  const BytesPerMegabyte := 1024 * 1024

  predicate EndsWith(s: string, suffix: string)
  {
    |suffix| <= |s| && s[|s| - |suffix|..] == suffix
  }

  predicate InBytes(byCol: string)
  {
    EndsWith(byCol, "Bytes")
  }

  /** A cell value as plotted: byte counters in MB, allocation counters unchanged. */
  function Rescaled(byCol: string, v: int): real
  {
    if InBytes(byCol) then (v as real) / (BytesPerMegabyte as real) else v as real
  }

  function Title(byCol: string): string
  {
    if InBytes(byCol) then byCol + " (MB)" else byCol + " (n_allocs)"
  }

  function YFormat(byCol: string): string
  {
    if InBytes(byCol) then "%.3f" else "%d"
  }

  /** The title names megabytes exactly when the column counts bytes, and the values are scaled to match. */
  lemma UnitsAgree(byCol: string, v: int)
    ensures EndsWith(Title(byCol), " (MB)") <==> InBytes(byCol)
    ensures EndsWith(Title(byCol), " (n_allocs)") <==> !InBytes(byCol)
    ensures InBytes(byCol) ==> Rescaled(byCol, v) * (BytesPerMegabyte as real) == v as real
    ensures !InBytes(byCol) ==> Rescaled(byCol, v) == v as real
  {
    var t := Title(byCol);
    if InBytes(byCol) {
      assert t[|t| - 5..] == " (MB)";
      assert t[|t| - 1] == ')' && t[|t| - 2] == 'B';
    } else {
      assert t[|t| - 11..] == " (n_allocs)";
      assert t[|t| - 2] == 's';
    }
  }

  /** The rows whose tag is one of the selected tags, in dataset order. */
  function PlotRows(rows: seq<Row>, tags: seq<string>): (r: seq<Row>)
    ensures forall x :: x in r <==> x in rows && TagOf(x) in tags
  {
    if rows == [] then []
    else
      var p := rows[..|rows| - 1];
      assert rows == p + [rows[|rows| - 1]];
      PlotRows(p, tags) + (if TagOf(rows[|rows| - 1]) in tags then [rows[|rows| - 1]] else [])
  }

  /** The pivot index: the row's DateTimeUTC and its tag. */
  function PivotKey(r: Row): (int, string)
  {
    (TimeCell(r, UtcColumn), TagOf(r))
  }

  predicate KeysDistinct(rows: seq<Row>)
  {
    forall i, j :: 0 <= i < j < |rows| ==> PivotKey(rows[i]) != PivotKey(rows[j])
  }

  /**
   * pivot(index=DateTimeUTC, columns=Tag, values=byCol): defined exactly when no two rows share
   * an index entry, and then one cell per row holding its rescaled value.
   */
  function PivotCells(rows: seq<Row>, byCol: string): (m: Option<map<(int, string), real>>)
    ensures m.Some? <==> KeysDistinct(rows)
    ensures m.Some? ==> forall k :: k in m.value <==> exists i :: 0 <= i < |rows| && PivotKey(rows[i]) == k
  {
    if rows == [] then Some(map[])
    else
      var p := rows[..|rows| - 1];
      var last := rows[|rows| - 1];
      assert forall i :: 0 <= i < |p| ==> rows[i] == p[i];
      match PivotCells(p, byCol)
      case None => None
      case Some(cells) =>
        if PivotKey(last) in cells then None
        else Some(cells[PivotKey(last) := Rescaled(byCol, IntCell(last, byCol))])
  }

  /** Each selected row's rescaled value sits in the cell of its (DateTimeUTC, Tag) entry. */
  lemma {:induction false} PivotCellValues(rows: seq<Row>, byCol: string)
    requires KeysDistinct(rows)
    ensures forall i :: 0 <= i < |rows| ==>
              PivotCells(rows, byCol).value[PivotKey(rows[i])] == Rescaled(byCol, IntCell(rows[i], byCol))
    decreases |rows|
  {
    if rows != [] {
      var p := rows[..|rows| - 1];
      var last := rows[|rows| - 1];
      assert forall i :: 0 <= i < |p| ==> rows[i] == p[i];
      assert KeysDistinct(p);
      PivotCellValues(p, byCol);
      var cells := PivotCells(p, byCol).value;
      assert PivotKey(last) !in cells;
      var v := Rescaled(byCol, IntCell(last, byCol));
      var m := cells[PivotKey(last) := v];
      assert PivotCells(rows, byCol) == Some(m);
      forall i | 0 <= i < |rows|
        ensures m[PivotKey(rows[i])] == Rescaled(byCol, IntCell(rows[i], byCol))
      {
        if i < |p| {
          assert PivotKey(rows[i]) != PivotKey(last);
          assert cells[PivotKey(p[i])] == Rescaled(byCol, IntCell(p[i], byCol));
        } else {
          assert rows[i] == last;
        }
      }
    }
  }

  /** The pivot of the selected rows: a cell for every selected row holding its rescaled value, and no cell that no selected row gives. */
  lemma SelectedCells(rows: seq<Row>, tags: seq<string>, byCol: string)
    requires KeysDistinct(PlotRows(rows, tags))
    ensures var cells := PivotCells(PlotRows(rows, tags), byCol).value;
            && (forall row :: row in rows && TagOf(row) in tags ==>
                  PivotKey(row) in cells && cells[PivotKey(row)] == Rescaled(byCol, IntCell(row, byCol)))
            && (forall key :: key in cells ==>
                  exists row :: row in rows && TagOf(row) in tags && PivotKey(row) == key)
  {
    var selected := PlotRows(rows, tags);
    var cells := PivotCells(selected, byCol).value;
    PivotCellValues(selected, byCol);
    forall row | row in rows && TagOf(row) in tags
      ensures PivotKey(row) in cells && cells[PivotKey(row)] == Rescaled(byCol, IntCell(row, byCol))
    {
      var j :| 0 <= j < |selected| && selected[j] == row;
    }
    forall key | key in cells
      ensures exists row :: row in rows && TagOf(row) in tags && PivotKey(row) == key
    {
      var j :| 0 <= j < |selected| && PivotKey(selected[j]) == key;
      assert selected[j] in selected;
    }
  }
}

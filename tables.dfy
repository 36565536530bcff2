/**
 * The table a parsed snapshot becomes: an ordered list of typed columns and a sequence of rows,
 * each row mapping column names to values. Column kinds are the dtype families the core branches
 * on: integer counters, parsed datetimes (as integer ticks) and strings.
 */
module Tables {
  import opened Results

  datatype ColType = IntCol | TimeCol | StrCol
  datatype Column = Column(name: string, kind: ColType)
  datatype Value = IntV(n: int) | TimeV(t: int) | StrV(s: string)
  type Row = map<string, Value>
  datatype Table = Table(schema: seq<Column>, rows: seq<Row>)

  const TagColumn := "Tag"
  const TotalTag := "TOTAL"
  const PagedDiffColumn := "PagedDiff"
  const NonPagedDiffColumn := "NonPagedDiff"
  const TotalDiffColumn := "TotalDiff"
  const UtcColumn := "DateTimeUTC"

  predicate HasKind(v: Value, k: ColType)
  {
    match k
    case IntCol => v.IntV?
    case TimeCol => v.TimeV?
    case StrCol => v.StrV?
  }

  function Names(schema: seq<Column>): set<string>
  {
    set i | 0 <= i < |schema| :: schema[i].name
  }

  lemma NamesCons(schema: seq<Column>)
    requires schema != []
    ensures Names(schema) == {schema[0].name} + Names(schema[1..])
  {
    forall x | x in Names(schema) ensures x in {schema[0].name} + Names(schema[1..]) {
      var i :| 0 <= i < |schema| && schema[i].name == x;
      if i > 0 { assert schema[1..][i - 1].name == x; }
    }
    forall x | x in Names(schema[1..]) ensures x in Names(schema) {
      var i :| 0 <= i < |schema[1..]| && schema[1..][i].name == x;
      assert schema[i + 1].name == x;
    }
  }

  predicate DistinctNames(schema: seq<Column>)
  {
    forall i, j :: 0 <= i < j < |schema| ==> schema[i].name != schema[j].name
  }

  /** A row holds exactly the schema's columns, each with a value of the column's kind. */
  predicate Fits(schema: seq<Column>, r: Row)
  {
    && r.Keys == Names(schema)
    && forall i :: 0 <= i < |schema| ==> schema[i].name in r && HasKind(r[schema[i].name], schema[i].kind)
  }

  predicate WellFormed(t: Table)
  {
    DistinctNames(t.schema) && forall k :: 0 <= k < |t.rows| ==> Fits(t.schema, t.rows[k])
  }

  /** The declared kind of a column, if the schema has it. */
  function KindOf(schema: seq<Column>, name: string): (k: Option<ColType>)
    ensures k.Some? <==> name in Names(schema)
  {
    if schema == [] then None
    else if schema[0].name == name then Some(schema[0].kind)
    else
      assert Names(schema) == {schema[0].name} + Names(schema[1..]);
      KindOf(schema[1..], name)
  }

  lemma {:induction false} KindOfAt(schema: seq<Column>, i: nat)
    requires DistinctNames(schema) && i < |schema|
    ensures KindOf(schema, schema[i].name) == Some(schema[i].kind)
  {
    if i > 0 {
      KindOfAt(schema[1..], i - 1);
    }
  }

  /** The row holds an integer in column c. */
  predicate HasIntCell(r: Row, c: string)
  {
    c in r && r[c].IntV?
  }

  /** A row that fits a schema with distinct names holds a cell of the declared kind in every declared column. */
  lemma KindCell(schema: seq<Column>, r: Row, name: string, kind: ColType)
    requires DistinctNames(schema) && Fits(schema, r) && KindOf(schema, name) == Some(kind)
    ensures name in r && HasKind(r[name], kind)
  {
    var i :| 0 <= i < |schema| && schema[i].name == name;
    KindOfAt(schema, i);
  }

  /** A snapshot as the parser hands it over: well-formed, with a string Tag column. */
  predicate Conforms(t: Table)
  {
    WellFormed(t) && KindOf(t.schema, TagColumn) == Some(StrCol)
  }

  predicate SameSchema(ts: seq<Table>)
  {
    forall i :: 0 <= i < |ts| ==> ts[i].schema == ts[0].schema
  }

  /** The integer in column c of r (0 where the cell is absent or not an integer). */
  function IntCell(r: Row, c: string): int
  {
    if c in r && r[c].IntV? then r[c].n else 0
  }

  /** The datetime ticks in column c of r (0 where the cell is absent or not a datetime). */
  function TimeCell(r: Row, c: string): int
  {
    if c in r && r[c].TimeV? then r[c].t else 0
  }

  function TagOf(r: Row): string
  {
    if TagColumn in r && r[TagColumn].StrV? then r[TagColumn].s else ""
  }

  /** The sum of integer column c over rows. */
  function ColumnSum(rows: seq<Row>, c: string): int
  {
    if rows == [] then 0 else ColumnSum(rows[..|rows| - 1], c) + IntCell(rows[|rows| - 1], c)
  }
}

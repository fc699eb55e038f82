/** Executing a normalization plan over records: projections, explosions and row ids. */
module Relationalizer {
  import opened Seqs
  import opened Text
  import opened Planner

  /** A cell or a document: null, a scalar (maps count as scalars), an object or an array. */
  datatype Value = Null | Str(text: string) | Number(n: int) | Obj(fields: map<string, Value>) | Arr(items: seq<Value>)

  type Row = map<string, Value>

  /** The ids that `uuid()` draws: one for each table of the plan and each row of the table. */
  type Uuids = (nat, nat) -> string

  const ROW_ID := "_row_id"
  const PARENT_ROW_ID := "_parent_row_id"
  const ARRAY_INDEX := "_array_index"
  const EMPTY_MARKER := "_empty_marker"
  const ITEM := "item"

  // Column access. An object without the field, and anything that is no object, gives null.

  function Get(v: Value, name: string): Value {
    if v.Obj? && name in v.fields then v.fields[name] else Null
  }

  function Follow(v: Value, segments: seq<string>): Value
    decreases |segments|
  {
    if segments == [] then v else Follow(Get(v, segments[0]), segments[1..])
  }

  function Resolve(v: Value, accessor: string): Value {
    Follow(v, SplitDots(accessor))
  }

  function Items(v: Value): seq<Value> {
    if v.Arr? then v.items else []
  }

  function LastSegment(accessor: string): string {
    var parts := SplitDots(accessor);
    parts[|parts| - 1]
  }

  /** The last segment is what follows the last dot, or everything when there is none. */
  lemma {:induction false} LastSegmentFollowsLastDot(accessor: string)
    ensures '.' !in LastSegment(accessor)
    ensures if '.' in accessor then
              exists k :: 0 <= k < |accessor| && accessor[k] == '.' && accessor[k + 1..] == LastSegment(accessor)
            else
              LastSegment(accessor) == accessor
  {
    if accessor != [] {
      var rest := accessor[1..];
      LastSegmentFollowsLastDot(rest);
      var parts := SplitDots(rest);
      if '.' in rest {
        var k :| 0 <= k < |rest| && rest[k] == '.' && rest[k + 1..] == LastSegment(rest);
        assert accessor[k + 1] == '.' && accessor[k + 2..] == LastSegment(rest);
        SplitsAtDot(rest);
        assert LastSegment(accessor) == LastSegment(rest);
      } else {
        SplitFirstDot(rest, "");
        assert accessor[0] == '.' ==> accessor[0 + 1..] == LastSegment(accessor);
        assert accessor == [accessor[0]] + rest;
      }
    }
  }

  lemma {:induction false} SplitsAtDot(s: string)
    requires '.' in s
    ensures |SplitDots(s)| > 1
  {
    if s[0] != '.' {
      SplitsAtDot(s[1..]);
    }
  }

  // Projections.

  datatype Projection = ColumnRef(accessor: string, alias: string) | NullLiteral(alias: string)

  function Select(v: Value, projections: seq<Projection>): Row {
    if projections == [] then map[]
    else
      var last := projections[|projections| - 1];
      Select(v, projections[..|projections| - 1])
      [last.alias := if last.ColumnRef? then Resolve(v, last.accessor) else Null]
  }

  function SelectAll(values: seq<Value>, projections: seq<Projection>): seq<Row> {
    seq(|values|, i requires 0 <= i < |values| => Select(values[i], projections))
  }

  function ColumnRefs(columns: seq<Column>): seq<Projection> {
    seq(|columns|, i requires 0 <= i < |columns| => ColumnRef(columns[i].accessor, columns[i].physicalName))
  }

  function ArrayRefs(children: seq<Explosion>): seq<Projection> {
    seq(|children|, i requires 0 <= i < |children| =>
      ColumnRef(children[i].accessor, LastSegment(children[i].accessor)))
  }

  function RootProjections(table: PlannedTable): seq<Projection> {
    var projections := ColumnRefs(table.columns) + ArrayRefs(table.children);
    if projections == [] then [NullLiteral(EMPTY_MARKER)] else projections
  }

  function ItemAccessor(accessor: string): string {
    if accessor == VALUE then ITEM else ITEM + "." + accessor
  }

  function ItemColumnRefs(columns: seq<Column>): seq<Projection> {
    seq(|columns|, i requires 0 <= i < |columns| =>
      ColumnRef(ItemAccessor(columns[i].accessor), columns[i].physicalName))
  }

  function ItemArrayRefs(children: seq<Explosion>): seq<Projection> {
    seq(|children|, i requires 0 <= i < |children| =>
      ColumnRef(ITEM + "." + children[i].accessor, children[i].accessor))
  }

  function ChildProjections(table: PlannedTable): seq<Projection> {
    [ColumnRef(PARENT_ROW_ID, PARENT_ROW_ID), ColumnRef(ARRAY_INDEX, ARRAY_INDEX)]
    + ItemColumnRefs(table.columns) + ItemArrayRefs(table.children)
  }

  // Rows.

  function WithIds(rows: seq<Row>, t: nat, uuids: Uuids): seq<Row> {
    seq(|rows|, i requires 0 <= i < |rows| => rows[i][ROW_ID := Str(uuids(t, i))])
  }

  function ExplodedRow(parentId: Value, index: Value, item: Value): Row {
    map[PARENT_ROW_ID := parentId, ARRAY_INDEX := index, ITEM := item]
  }

  /** `posexplode_outer`: a null or empty array still gives one row, with a null index. */
  function ExplodeRow(row: Row, accessor: string): seq<Row> {
    var items := Items(Resolve(Obj(row), accessor));
    var parentId := Get(Obj(row), ROW_ID);
    if items == [] then [ExplodedRow(parentId, Null, Null)]
    else seq(|items|, k requires 0 <= k < |items| => ExplodedRow(parentId, Number(k), items[k]))
  }

  function ExplodeAll(rows: seq<Row>, accessor: string): seq<Row> {
    if rows == [] then []
    else ExplodeAll(rows[..|rows| - 1], accessor) + ExplodeRow(rows[|rows| - 1], accessor)
  }

  function AsValues(rows: seq<Row>): seq<Value> {
    seq(|rows|, i requires 0 <= i < |rows| => Obj(rows[i]))
  }

  /** The rows whose array index is not null. */
  function Indexed(rows: seq<Row>): seq<Row> {
    if rows == [] then []
    else
      var last := rows[|rows| - 1];
      Indexed(rows[..|rows| - 1]) + if Get(Obj(last), ARRAY_INDEX).Null? then [] else [last]
  }

  function RootRows(docs: seq<Value>, table: PlannedTable, t: nat, uuids: Uuids): seq<Row> {
    var rows := SelectAll(docs, RootProjections(table));
    WithIds(seq(|rows|, i requires 0 <= i < |rows| => rows[i] - {EMPTY_MARKER}), t, uuids)
  }

  function ChildRows(parentRows: seq<Row>, table: PlannedTable, accessor: string, t: nat, uuids: Uuids): seq<Row> {
    WithIds(Indexed(SelectAll(AsValues(ExplodeAll(parentRows, accessor)), ChildProjections(table))), t, uuids)
  }

  // Which columns a built row has.

  lemma {:induction false} SelectKeys(v: Value, projections: seq<Projection>)
    ensures forall name :: name in Select(v, projections) <==> exists p :: p in projections && p.alias == name
  {
    if projections != [] {
      var init, last := projections[..|projections| - 1], projections[|projections| - 1];
      assert projections == init + [last];
      SelectKeys(v, init);
    }
  }

  lemma {:induction false} IndexedRowIsRow(rows: seq<Row>)
    ensures forall row :: row in Indexed(rows) ==> row in rows
  {
    if rows != [] {
      IndexedRowIsRow(rows[..|rows| - 1]);
    }
  }

  /** The columns of a row of table `i`, with its id: nothing is missing and nothing else is there. */
  ghost predicate HasExactlyItsColumns(table: PlannedTable, row: Row, id: string) {
    && row.Keys == {"_row_id"} + (
         if table.parentName.None? then
           (set c | c in table.columns :: c.physicalName)
           + (set e | e in table.children :: LastSegment(e.accessor)) - {"_empty_marker"}
         else
           {"_parent_row_id", "_array_index"} + (set c | c in table.columns :: c.physicalName)
           + (set e | e in table.children :: e.accessor))
    && row["_row_id"] == Str(id)
  }

  lemma RootAliases(table: PlannedTable, name: string)
    ensures (exists p :: p in RootProjections(table) && p.alias == name) && name != EMPTY_MARKER <==>
            ((exists c :: c in table.columns && c.physicalName == name)
             || (exists e :: e in table.children && LastSegment(e.accessor) == name)) && name != EMPTY_MARKER
  {
    var projections := RootProjections(table);
    if c :| c in table.columns && c.physicalName == name {
      var k :| 0 <= k < |table.columns| && table.columns[k] == c;
      assert projections[k].alias == name;
    }
    if e :| e in table.children && LastSegment(e.accessor) == name {
      var k :| 0 <= k < |table.children| && table.children[k] == e;
      assert projections[|table.columns| + k].alias == name;
    }
    if p :| p in projections && p.alias == name && name != EMPTY_MARKER {
      var k :| 0 <= k < |projections| && projections[k] == p;
      if k < |table.columns| {
        assert table.columns[k] in table.columns;
      } else {
        assert table.children[k - |table.columns|] in table.children;
      }
    }
  }

  lemma ChildAliases(table: PlannedTable, name: string)
    ensures (exists p :: p in ChildProjections(table) && p.alias == name) <==>
            || name == PARENT_ROW_ID || name == ARRAY_INDEX
            || (exists c :: c in table.columns && c.physicalName == name)
            || (exists e :: e in table.children && e.accessor == name)
  {
    var projections, n := ChildProjections(table), |table.columns|;
    assert projections[0].alias == PARENT_ROW_ID && projections[1].alias == ARRAY_INDEX;
    if c :| c in table.columns && c.physicalName == name {
      var k :| 0 <= k < n && table.columns[k] == c;
      assert projections[2 + k].alias == name;
    }
    if e :| e in table.children && e.accessor == name {
      var k :| 0 <= k < |table.children| && table.children[k] == e;
      assert projections[2 + n + k].alias == name;
    }
    if p :| p in projections && p.alias == name {
      var k :| 0 <= k < |projections| && projections[k] == p;
      if 2 <= k < 2 + n {
        assert table.columns[k - 2] in table.columns;
      } else if k >= 2 + n {
        assert table.children[k - 2 - n] in table.children;
      }
    }
  }

  lemma RootRowColumns(docs: seq<Value>, table: PlannedTable, t: nat, uuids: Uuids, i: nat)
    requires table.parentName.None? && i < |RootRows(docs, table, t, uuids)|
    ensures HasExactlyItsColumns(table, RootRows(docs, table, t, uuids)[i], uuids(t, i))
  {
    var row := RootRows(docs, table, t, uuids)[i];
    SelectKeys(docs[i], RootProjections(table));
    forall name
      ensures name in row <==>
                || name == ROW_ID
                || (name != EMPTY_MARKER
                    && ((exists c :: c in table.columns && c.physicalName == name)
                        || (exists e :: e in table.children && LastSegment(e.accessor) == name)))
    {
      RootAliases(table, name);
    }
  }

  /** The columns of the selected rows of a child table. */
  lemma ChildSelectColumns(source: Value, table: PlannedTable)
    ensures Select(source, ChildProjections(table)).Keys
         == {PARENT_ROW_ID, ARRAY_INDEX} + (set c | c in table.columns :: c.physicalName)
            + (set e | e in table.children :: e.accessor)
  {
    SelectKeys(source, ChildProjections(table));
    forall name
      ensures name in Select(source, ChildProjections(table)) <==>
                || name == PARENT_ROW_ID || name == ARRAY_INDEX
                || (exists c :: c in table.columns && c.physicalName == name)
                || (exists e :: e in table.children && e.accessor == name)
    {
      ChildAliases(table, name);
    }
  }

  lemma ChildRowColumns(parentRows: seq<Row>, table: PlannedTable, accessor: string, t: nat, uuids: Uuids, i: nat)
    requires table.parentName.Some? && i < |ChildRows(parentRows, table, accessor, t, uuids)|
    ensures HasExactlyItsColumns(table, ChildRows(parentRows, table, accessor, t, uuids)[i], uuids(t, i))
  {
    var sources := AsValues(ExplodeAll(parentRows, accessor));
    var selected := SelectAll(sources, ChildProjections(table));
    var bare := Indexed(selected)[i];
    IndexedRowIsRow(selected);
    assert bare in Indexed(selected);
    var k :| 0 <= k < |selected| && selected[k] == bare;
    ChildSelectColumns(sources[k], table);
    WithIdColumns(table, bare, uuids(t, i));
    assert ChildRows(parentRows, table, accessor, t, uuids)[i] == bare[ROW_ID := Str(uuids(t, i))];
  }

  lemma WithIdColumns(table: PlannedTable, bare: Row, id: string)
    requires table.parentName.Some?
    requires bare.Keys == {PARENT_ROW_ID, ARRAY_INDEX} + (set c | c in table.columns :: c.physicalName)
                          + (set e | e in table.children :: e.accessor)
    ensures HasExactlyItsColumns(table, bare[ROW_ID := Str(id)], id)
  {
  }

  method BuildRootDf(rawDf: seq<Value>, table: PlannedTable, t: nat, uuids: Uuids) returns (df: seq<Row>)
    ensures df == RootRows(rawDf, table, t, uuids)
    ensures |df| == |rawDf|
    ensures table.parentName.None? ==>
              forall i :: 0 <= i < |df| ==> HasExactlyItsColumns(table, df[i], uuids(t, i))
  {
    var projections := [];
    for i := 0 to |table.columns|
      invariant projections == ColumnRefs(table.columns)[..i]
    {
      projections := projections + [ColumnRef(table.columns[i].accessor, table.columns[i].physicalName)];
    }
    for i := 0 to |table.children|
      invariant projections == ColumnRefs(table.columns) + ArrayRefs(table.children)[..i]
    {
      var accessor := table.children[i].accessor;
      projections := projections + [ColumnRef(accessor, LastSegment(accessor))];
    }
    assert projections == ColumnRefs(table.columns) + ArrayRefs(table.children);
    if projections == [] {
      projections := projections + [NullLiteral(EMPTY_MARKER)];
    }
    df := SelectAll(rawDf, projections);
    // Dropping a column that is not there changes nothing.
    df := seq(|df|, i requires 0 <= i < |df| => df[i] - {EMPTY_MARKER});
    df := WithIds(df, t, uuids);
    forall i | table.parentName.None? && 0 <= i < |df|
      ensures HasExactlyItsColumns(table, df[i], uuids(t, i))
    {
      RootRowColumns(rawDf, table, t, uuids, i);
    }
  }

  method BuildChildDf(parentDf: seq<Row>, table: PlannedTable, accessor: string, t: nat, uuids: Uuids)
    returns (df: seq<Row>)
    ensures df == ChildRows(parentDf, table, accessor, t, uuids)
    ensures table.parentName.Some? ==>
              forall i :: 0 <= i < |df| ==> HasExactlyItsColumns(table, df[i], uuids(t, i))
  {
    var exploded := ExplodeAll(parentDf, accessor);
    var projections := [ColumnRef(PARENT_ROW_ID, PARENT_ROW_ID), ColumnRef(ARRAY_INDEX, ARRAY_INDEX)];
    ghost var keys := projections;
    for i := 0 to |table.columns|
      invariant projections == keys + ItemColumnRefs(table.columns)[..i]
    {
      var column := table.columns[i];
      if column.accessor == VALUE {
        projections := projections + [ColumnRef(ITEM, column.physicalName)];
      } else {
        projections := projections + [ColumnRef(ITEM + "." + column.accessor, column.physicalName)];
      }
    }
    for i := 0 to |table.children|
      invariant projections == keys + ItemColumnRefs(table.columns) + ItemArrayRefs(table.children)[..i]
    {
      var explosion := table.children[i];
      projections := projections + [ColumnRef(ITEM + "." + explosion.accessor, explosion.accessor)];
    }
    assert projections == ChildProjections(table);
    df := SelectAll(AsValues(exploded), projections);
    df := Indexed(df);
    df := WithIds(df, t, uuids);
    forall i | table.parentName.Some? && 0 <= i < |df|
      ensures HasExactlyItsColumns(table, df[i], uuids(t, i))
    {
      ChildRowColumns(parentDf, table, accessor, t, uuids, i);
    }
  }

  // The whole plan.

  /** Position of the table with a physical name. */
  function NamedTable(tables: seq<PlannedTable>, name: string): (i: nat)
    requires exists k :: 0 <= k < |tables| && tables[k].physicalName == name
    ensures i < |tables| && tables[i].physicalName == name
  {
    if tables[0].physicalName == name then 0 else 1 + NamedTable(tables[1..], name)
  }

  /** The first explosion that leads to a logical path. */
  function ExplosionTo(children: seq<Explosion>, path: string): (e: Explosion)
    requires exists e :: e in children && e.childPath == path
    ensures e in children && e.childPath == path
  {
    if children[0].childPath == path then children[0] else ExplosionTo(children[1..], path)
  }

  ghost predicate HasParent(tables: seq<PlannedTable>, i: nat, p: nat)
    requires i < |tables|
  {
    && p < i && tables[i].parentName == Some(tables[p].physicalName)
    && exists e :: e in tables[p].children && e.childPath == tables[i].logicalPath
  }

  ghost predicate IsChild(tables: seq<PlannedTable>, i: nat)
    requires i < |tables|
  {
    exists p :: HasParent(tables, i, p)
  }

  ghost predicate DistinctNames(tables: seq<PlannedTable>) {
    forall i, j :: 0 <= i < j < |tables| ==> tables[i].physicalName != tables[j].physicalName
  }

  /** Every lookup that the execution makes succeeds. */
  ghost predicate WellFormed(tables: seq<PlannedTable>) {
    && DistinctNames(tables)
    && forall i :: 0 <= i < |tables| && tables[i].parentName.Some? ==> IsChild(tables, i)
  }

  function ParentOf(tables: seq<PlannedTable>, i: nat): (p: nat)
    requires WellFormed(tables) && i < |tables| && tables[i].parentName.Some?
    ensures HasParent(tables, i, p)
  {
    ghost var q :| HasParent(tables, i, q);
    var p := NamedTable(tables, tables[i].parentName.value);
    assert p == q;
    p
  }

  function TableRows(tables: seq<PlannedTable>, docs: seq<Value>, uuids: Uuids, i: nat): seq<Row>
    requires WellFormed(tables) && i < |tables|
    decreases i
  {
    if tables[i].parentName.None? then RootRows(docs, tables[i], i, uuids)
    else
      var p := ParentOf(tables, i);
      var explosion := ExplosionTo(tables[p].children, tables[i].logicalPath);
      ChildRows(TableRows(tables, docs, uuids, p), tables[i], explosion.accessor, i, uuids)
  }

  /** The first `n` tables of the plan are built, each under its physical name. */
  ghost predicate Built(tables: seq<PlannedTable>, docs: seq<Value>, uuids: Uuids, n: nat,
                        result: map<string, seq<Row>>)
    requires WellFormed(tables) && n <= |tables|
  {
    && (forall name :: name in result ==> exists k :: 0 <= k < n && tables[k].physicalName == name)
    && (forall k :: 0 <= k < n ==> BuiltTable(tables, docs, uuids, k, result))
  }

  ghost predicate BuiltTable(tables: seq<PlannedTable>, docs: seq<Value>, uuids: Uuids, k: nat,
                             result: map<string, seq<Row>>)
    requires WellFormed(tables) && k < |tables|
  {
    tables[k].physicalName in result && result[tables[k].physicalName] == TableRows(tables, docs, uuids, k)
  }

  lemma BuildOneMore(tables: seq<PlannedTable>, docs: seq<Value>, uuids: Uuids, n: nat, result: map<string, seq<Row>>)
    requires WellFormed(tables) && n < |tables| && Built(tables, docs, uuids, n, result)
    ensures Built(tables, docs, uuids, n + 1, result[tables[n].physicalName := TableRows(tables, docs, uuids, n)])
  {
    var result' := result[tables[n].physicalName := TableRows(tables, docs, uuids, n)];
    forall k | 0 <= k < n + 1
      ensures BuiltTable(tables, docs, uuids, k, result')
    {
      if k < n {
        assert BuiltTable(tables, docs, uuids, k, result);
        assert tables[k].physicalName != tables[n].physicalName;
      }
    }
  }

  lemma RowColumns(tables: seq<PlannedTable>, docs: seq<Value>, uuids: Uuids, t: nat, i: nat)
    requires WellFormed(tables) && t < |tables| && i < |TableRows(tables, docs, uuids, t)|
    ensures HasExactlyItsColumns(tables[t], TableRows(tables, docs, uuids, t)[i], uuids(t, i))
  {
    if tables[t].parentName.None? {
      RootRowColumns(docs, tables[t], t, uuids, i);
    } else {
      var p := ParentOf(tables, t);
      var explosion := ExplosionTo(tables[p].children, tables[t].logicalPath);
      ChildRowColumns(TableRows(tables, docs, uuids, p), tables[t], explosion.accessor, t, uuids, i);
    }
  }

  /** Every table is there under its name and nothing else, and every row has exactly its columns. */
  ghost predicate HasItsTables(tables: seq<PlannedTable>, uuids: Uuids, result: map<string, seq<Row>>) {
    && result.Keys == (set t | t in tables :: t.physicalName)
    && forall t, i :: 0 <= t < |tables| && 0 <= i < |result[tables[t].physicalName]| ==>
         HasExactlyItsColumns(tables[t], result[tables[t].physicalName][i], uuids(t, i))
  }

  lemma BuiltHasItsTables(tables: seq<PlannedTable>, docs: seq<Value>, uuids: Uuids, result: map<string, seq<Row>>)
    requires WellFormed(tables) && Built(tables, docs, uuids, |tables|, result)
    ensures HasItsTables(tables, uuids, result)
  {
    forall t | 0 <= t < |tables|
      ensures tables[t].physicalName in result
      ensures forall i :: 0 <= i < |result[tables[t].physicalName]| ==>
                HasExactlyItsColumns(tables[t], result[tables[t].physicalName][i], uuids(t, i))
    {
      assert BuiltTable(tables, docs, uuids, t, result);
      forall i | 0 <= i < |result[tables[t].physicalName]|
        ensures HasExactlyItsColumns(tables[t], result[tables[t].physicalName][i], uuids(t, i))
      {
        RowColumns(tables, docs, uuids, t, i);
      }
    }
    forall name
      ensures name in result <==> exists t :: t in tables && t.physicalName == name
    {
      if name in result {
        var k :| 0 <= k < |tables| && tables[k].physicalName == name;
        assert tables[k] in tables;
      }
    }
  }

  method Execute(rawDf: seq<Value>, tables: seq<PlannedTable>, uuids: Uuids) returns (result: map<string, seq<Row>>)
    requires WellFormed(tables)
    ensures Built(tables, rawDf, uuids, |tables|, result)
    ensures HasItsTables(tables, uuids, result)
  {
    result := map[];
    for i := 0 to |tables|
      invariant Built(tables, rawDf, uuids, i, result)
    {
      var df;
      if tables[i].parentName.None? {
        df := BuildRootDf(rawDf, tables[i], i, uuids);
      } else {
        var p := ParentOf(tables, i);
        assert BuiltTable(tables, rawDf, uuids, p, result);
        var parentDf := result[tables[p].physicalName];
        var explosion := ExplosionTo(tables[p].children, tables[i].logicalPath);
        df := BuildChildDf(parentDf, tables[i], explosion.accessor, i, uuids);
      }
      BuildOneMore(tables, rawDf, uuids, i, result);
      result := result[tables[i].physicalName := df];
    }
    BuiltHasItsTables(tables, rawDf, uuids, result);
  }
}

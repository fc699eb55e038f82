/** Normalizing a batch of documents from end to end, and where the planner's conditions bite. */
module NormalizePipeline {
  import opened Seqs
  import opened Text
  import opened Identifiers
  import opened Columns
  import opened Planner
  import opened Relationalizer
  import opened PlanShape
  import opened Reconstruction
  import opened Lossless
  import opened Conservation

  method PlanFromSchema(naming: Naming, entity: string, fields: seq<Field>) returns (plan: Planned)
    ensures plan == PlanOf(naming, entity, fields)
  {
    var builder := new PlanBuilder(naming, entity);
    var error := builder.WalkRootStruct(fields);
    plan := match error
      case Some(refusal) => Refused(refusal)
      case None => Planned(builder.tables, builder.policy.registry);
  }

  /** No column is missing or added: ids, the cleaned names of the columns, and the arrays under their names. */
  ghost predicate RowsHaveTheirColumns(tables: seq<PlannedTable>, result: map<string, seq<Row>>) {
    forall t, row :: t in tables && t.physicalName in result && row in result[t.physicalName] ==>
      row.Keys == {"_row_id"} + (if t.parentName.None? then {} else {"_parent_row_id", "_array_index"})
                  + (set c | c in t.columns :: c.physicalName) + (set e | e in t.children :: e.accessor)
  }

  lemma PlanHasItsColumns(tables: seq<PlannedTable>, uuids: Uuids, result: map<string, seq<Row>>)
    requires AllTidy(tables) && HasItsTables(tables, uuids, result)
    ensures RowsHaveTheirColumns(tables, result)
  {
    forall t, row | t in tables && row in result[t.physicalName]
      ensures row.Keys == {"_row_id"} + (if t.parentName.None? then {} else {"_parent_row_id", "_array_index"})
                  + (set c | c in t.columns :: c.physicalName) + (set e | e in t.children :: e.accessor)
    {
      var k :| 0 <= k < |tables| && tables[k] == t;
      var i :| 0 <= i < |result[t.physicalName]| && result[t.physicalName][i] == row;
      TidyColumns(t, row, uuids(k, i));
    }
  }

  /** Item `k` of the array in column `column` of a parent row. */
  ghost predicate HasItem(parent: Row, column: string, k: nat) {
    column in parent && parent[column].Arr? && k < |parent[column].items|
  }

  /** The row carries the id of its parent and its index in the array. */
  ghost predicate IsItemRow(row: Row, parent: Row, k: nat) {
    && "_row_id" in parent && "_parent_row_id" in row && "_array_index" in row
    && row["_parent_row_id"] == parent["_row_id"] && row["_array_index"] == Number(k)
  }

  ghost predicate RowHasItem(parents: seq<Row>, column: string, row: Row) {
    exists i, k: nat :: 0 <= i < |parents| && HasItem(parents[i], column, k) && IsItemRow(row, parents[i], k)
  }

  ghost predicate ItemHasRow(rows: seq<Row>, parent: Row, k: nat) {
    exists j :: 0 <= j < |rows| && IsItemRow(rows[j], parent, k)
  }

  ghost predicate NoSecondRow(rows: seq<Row>, parent: Row, k: nat) {
    forall j, j' :: 0 <= j < j' < |rows| ==> !(IsItemRow(rows[j], parent, k) && IsItemRow(rows[j'], parent, k))
  }

  /** There is exactly one row for each item of the array, indexed from 0 under its parent, and no other row. */
  ghost predicate IsExploded(parents: seq<Row>, column: string, rows: seq<Row>) {
    && (forall row :: row in rows ==> RowHasItem(parents, column, row))
    && (forall parent, k: nat :: parent in parents ==> (HasItem(parent, column, k) <==> ItemHasRow(rows, parent, k)))
    && (forall parent, k: nat :: parent in parents ==> NoSecondRow(rows, parent, k))
  }

  ghost predicate ExplodedFrom(tables: seq<PlannedTable>, result: map<string, seq<Row>>, c: nat, p: nat, e: Explosion) {
    && p < c < |tables| && tables[c].parentName == Some(tables[p].physicalName)
    && e in tables[p].children && e.childPath == tables[c].logicalPath
    && tables[p].physicalName in result && tables[c].physicalName in result
    && IsExploded(result[tables[p].physicalName], e.accessor, result[tables[c].physicalName])
  }

  ghost predicate IsExplodedTable(tables: seq<PlannedTable>, result: map<string, seq<Row>>, c: nat) {
    exists p: nat, e :: ExplodedFrom(tables, result, c, p, e)
  }

  lemma TableIsExploded(naming: Naming, entity: string, fields: seq<Field>, docs: seq<Value>, uuids: Uuids,
                        result: map<string, seq<Row>>, c: nat)
    requires GoodFieldNames(fields) && Supported(fields, "$") && DistinctIds(uuids)
    requires PlanOf(naming, entity, fields).Planned? && 0 < c < |PlanOf(naming, entity, fields).tables|
    requires var tables := PlanOf(naming, entity, fields).tables;
             WellFormed(tables) && Built(tables, docs, uuids, |tables|, result)
    ensures IsExplodedTable(PlanOf(naming, entity, fields).tables, result, c)
  {
    var tables := PlanOf(naming, entity, fields).tables;
    PlanConservesRows(naming, entity, fields, docs, uuids, c);
    PlanIsTidy(naming, entity, fields);
    var p := ParentOf(tables, c);
    var e := ExplosionTo(tables[p].children, tables[c].logicalPath);
    assert BuiltTable(tables, docs, uuids, p, result) && BuiltTable(tables, docs, uuids, c, result);
    var parents, rows := result[tables[p].physicalName], result[tables[c].physicalName];
    assert tables[p] in tables && tables[c] in tables;
    forall i | 0 <= i < |parents|
      ensures "_row_id" in parents[i] && e.accessor in parents[i]
    {
      RowColumns(tables, docs, uuids, p, i);
      TidyColumns(tables[p], parents[i], uuids(p, i));
    }
    forall j | 0 <= j < |rows|
      ensures "_parent_row_id" in rows[j] && "_array_index" in rows[j]
    {
      RowColumns(tables, docs, uuids, c, j);
      TidyColumns(tables[c], rows[j], uuids(c, j));
    }
    forall j | 0 <= j < |rows|
      ensures Get(Obj(rows[j]), ARRAY_INDEX).Number? && Get(Obj(rows[j]), ARRAY_INDEX).n >= 0
    {
      ChildRowIsIndexed(tables, docs, uuids, c, j);
    }
    assert '.' !in e.accessor;
    ConservedIsExploded(parents, e.accessor, rows);
    assert ExplodedFrom(tables, result, c, p, e);
  }

  /** A row of a child table has a number as its index. */
  lemma ChildRowIsIndexed(tables: seq<PlannedTable>, docs: seq<Value>, uuids: Uuids, c: nat, j: nat)
    requires WellFormed(tables) && c < |tables| && tables[c].parentName.Some? && Tidy(tables[c])
    requires j < |TableRows(tables, docs, uuids, c)|
    ensures var index := Get(Obj(TableRows(tables, docs, uuids, c)[j]), ARRAY_INDEX); index.Number? && index.n >= 0
  {
    var p := ParentOf(tables, c);
    var accessor := ExplosionTo(tables[p].children, tables[c].logicalPath).accessor;
    var parents := TableRows(tables, docs, uuids, p);
    BareIsFlat(parents, tables[c], accessor);
    var i, k := FlattenFrom(Blocks(parents, tables[c], accessor), j);
    ChildKeys(tables[c], Get(Obj(parents[i]), ROW_ID), k, Items(Resolve(Obj(parents[i]), accessor))[k]);
    OtherColumn(BareChildRows(parents, tables[c], accessor)[j], Str(uuids(c, j)), ARRAY_INDEX);
  }

  lemma ConservedIsExploded(parents: seq<Row>, accessor: string, rows: seq<Row>)
    requires Conserves(parents, accessor, rows) && '.' !in accessor
    requires forall i :: 0 <= i < |parents| ==> "_row_id" in parents[i] && accessor in parents[i]
    requires forall j :: 0 <= j < |rows| ==> "_parent_row_id" in rows[j] && "_array_index" in rows[j]
    requires forall j :: 0 <= j < |rows| ==>
               Get(Obj(rows[j]), ARRAY_INDEX).Number? && Get(Obj(rows[j]), ARRAY_INDEX).n >= 0
    ensures IsExploded(parents, accessor, rows)
  {
    forall row | row in rows
      ensures RowHasItem(parents, accessor, row)
    {
      var j :| 0 <= j < |rows| && rows[j] == row;
      RowIsOfItem(parents, accessor, rows, j);
    }
    forall parent, k: nat | parent in parents
      ensures HasItem(parent, accessor, k) <==> ItemHasRow(rows, parent, k)
      ensures NoSecondRow(rows, parent, k)
    {
      var i :| 0 <= i < |parents| && parents[i] == parent;
      ItemsAreIndexed(parents, accessor, rows, i, k);
    }
  }

  lemma ItemRowMatches(rows: seq<Row>, parent: Row, k: nat)
    requires "_row_id" in parent
    requires forall j :: 0 <= j < |rows| ==> "_parent_row_id" in rows[j] && "_array_index" in rows[j]
    ensures forall j :: 0 <= j < |rows| ==> (IsItemRow(rows[j], parent, k) <==> Matches(rows[j], IdOf(parent), k))
  {
  }

  lemma ItemsAreIndexed(parents: seq<Row>, accessor: string, rows: seq<Row>, i: nat, k: nat)
    requires Conserves(parents, accessor, rows) && '.' !in accessor && i < |parents|
    requires "_row_id" in parents[i] && accessor in parents[i]
    requires forall j :: 0 <= j < |rows| ==> "_parent_row_id" in rows[j] && "_array_index" in rows[j]
    ensures HasItem(parents[i], accessor, k) <==> ItemHasRow(rows, parents[i], k)
    ensures HasItem(parents[i], accessor, k) <==> IsIndexed(rows, IdOf(parents[i]), k)
    ensures NoSecondRow(rows, parents[i], k)
  {
    ResolvePlain(Obj(parents[i]), accessor);
    assert IndexedOnce(rows, parents[i], accessor);
    assert (IsIndexed(rows, IdOf(parents[i]), k) <==> k < |ItemsOf(parents[i], accessor)|)
        && AtMostOne(rows, IdOf(parents[i]), k);
    ItemRowMatches(rows, parents[i], k);
  }

  lemma RowIsOfItem(parents: seq<Row>, accessor: string, rows: seq<Row>, j: nat)
    requires Conserves(parents, accessor, rows) && '.' !in accessor && j < |rows|
    requires forall i :: 0 <= i < |parents| ==> "_row_id" in parents[i] && accessor in parents[i]
    requires forall j :: 0 <= j < |rows| ==> "_parent_row_id" in rows[j] && "_array_index" in rows[j]
    requires Get(Obj(rows[j]), ARRAY_INDEX).Number? && Get(Obj(rows[j]), ARRAY_INDEX).n >= 0
    ensures RowHasItem(parents, accessor, rows[j])
  {
    assert HasParentIn(rows[j], parents);
    var i :| 0 <= i < |parents| && Get(Obj(rows[j]), PARENT_ROW_ID) == IdOf(parents[i]);
    var k: nat := Get(Obj(rows[j]), ARRAY_INDEX).n;
    assert Matches(rows[j], IdOf(parents[i]), k);
    ItemsAreIndexed(parents, accessor, rows, i, k);
    ItemRowMatches(rows, parents[i], k);
  }

  ghost predicate HasCell(row: Row, column: string, doc: Value, name: string) {
    column in row && row[column] == if doc.Obj? && name in doc.fields then doc.fields[name] else Null
  }

  /** The cell of a scalar of the root object is its value in the document, or null if there is none. */
  ghost predicate RootHoldsScalars(tables: seq<PlannedTable>, fields: seq<Field>, docs: seq<Value>,
                                   result: map<string, seq<Row>>)
  {
    && tables != [] && tables[0].physicalName in result && |result[tables[0].physicalName]| == |docs|
    && forall i, k :: 0 <= i < |fields| && (fields[i].dtype.ScalarType? || fields[i].dtype.MapType?)
                      && 0 <= k < |docs| ==>
         HasCell(result[tables[0].physicalName][k], Sanitize(fields[i].name), docs[k], fields[i].name)
  }

  lemma RootCells(naming: Naming, entity: string, fields: seq<Field>, docs: seq<Value>, uuids: Uuids,
                  result: map<string, seq<Row>>)
    requires GoodFieldNames(fields) && Supported(fields, "$") && PlanOf(naming, entity, fields).Planned?
    requires var tables := PlanOf(naming, entity, fields).tables;
             WellFormed(tables) && Built(tables, docs, uuids, |tables|, result)
    ensures RootHoldsScalars(PlanOf(naming, entity, fields).tables, fields, docs, result)
  {
    var tables := PlanOf(naming, entity, fields).tables;
    PlanIsTree(naming, entity, fields);
    PlanIsTidy(naming, entity, fields);
    assert tables[0] in tables && BuiltTable(tables, docs, uuids, 0, result);
    var rows := result[tables[0].physicalName];
    assert rows == RootRows(docs, tables[0], 0, uuids);
    forall i: nat, k: nat | i < |fields| && (fields[i].dtype.ScalarType? || fields[i].dtype.MapType?) && k < |docs|
      ensures HasCell(rows[k], Sanitize(fields[i].name), docs[k], fields[i].name)
    {
      RootColumn(tables, fields, i);
      assert GoodFieldNames(fields) && '.' !in fields[i].name;
      RootCell(docs, tables[0], uuids, fields[i].name, k);
    }
  }

  lemma RootCell(docs: seq<Value>, table: PlannedTable, uuids: Uuids, name: string, k: nat)
    requires Tidy(table) && table.parentName.None? && '.' !in name && k < |docs|
    requires Column("$." + name, Sanitize(name), name) in table.columns
    ensures |RootRows(docs, table, 0, uuids)| == |docs|
    ensures HasCell(RootRows(docs, table, 0, uuids)[k], Sanitize(name), docs[k], name)
  {
    RootRowHolds(docs, table, 0, uuids, k);
    RootRowColumns(docs, table, 0, uuids, k);
    var row := RootRows(docs, table, 0, uuids)[k];
    TidyColumns(table, row, uuids(0, k));
    ResolvePlain(docs[k], name);
  }

  lemma ReadsBackAndExplodes(naming: Naming, entity: string, fields: seq<Field>, docs: seq<Value>, uuids: Uuids,
                             result: map<string, seq<Row>>)
    requires GoodFieldNames(fields) && Supported(fields, "$") && DistinctIds(uuids)
    requires PlanOf(naming, entity, fields).Planned?
    requires var tables := PlanOf(naming, entity, fields).tables;
             WellFormed(tables) && Built(tables, docs, uuids, |tables|, result)
    ensures var tables := PlanOf(naming, entity, fields).tables;
      && tables != []
      && (forall i: nat :: i < |docs| ==> ReadsBack(tables, fields, docs, result, i))
      && forall c: nat :: 0 < c < |tables| ==> IsExplodedTable(tables, result, c)
  {
    var tables := PlanOf(naming, entity, fields).tables;
    PlanIsTree(naming, entity, fields);
    forall i: nat | i < |docs|
      ensures ReadsBack(tables, fields, docs, result, i)
    {
      NothingIsLost(naming, entity, fields, docs, uuids, result, i);
    }
    forall c: nat | 0 < c < |tables|
      ensures IsExplodedTable(tables, result, c)
    {
      TableIsExploded(naming, entity, fields, docs, uuids, result, c);
    }
  }

  lemma HasColumnsAndScalars(naming: Naming, entity: string, fields: seq<Field>, docs: seq<Value>, uuids: Uuids,
                             result: map<string, seq<Row>>)
    requires GoodFieldNames(fields) && Supported(fields, "$") && PlanOf(naming, entity, fields).Planned?
    requires var tables := PlanOf(naming, entity, fields).tables;
             && WellFormed(tables) && Built(tables, docs, uuids, |tables|, result)
             && HasItsTables(tables, uuids, result)
    ensures var tables := PlanOf(naming, entity, fields).tables;
            RowsHaveTheirColumns(tables, result) && RootHoldsScalars(tables, fields, docs, result)
  {
    PlanIsTidy(naming, entity, fields);
    PlanHasItsColumns(PlanOf(naming, entity, fields).tables, uuids, result);
    RootCells(naming, entity, fields, docs, uuids, result);
  }

  /** Plan and execute. When the names are accepted, the tables read back as the documents. */
  method Normalize(naming: Naming, entity: string, fields: seq<Field>, docs: seq<Value>, uuids: Uuids)
    returns (plan: Planned, result: map<string, seq<Row>>)
    requires GoodFieldNames(fields)
    ensures plan == PlanOf(naming, entity, fields)
    ensures plan.Refused? ==> result == map[]
    ensures plan.Planned? && Supported(fields, "$") && DistinctIds(uuids) ==>
      && plan.tables != []
      && (forall i: nat :: i < |docs| ==> ReadsBack(plan.tables, fields, docs, result, i))
      && forall c: nat :: 0 < c < |plan.tables| ==> IsExplodedTable(plan.tables, result, c)
    ensures plan.Planned? ==> HasItsTables(plan.tables, uuids, result) && AllJoined(plan.tables)
    ensures plan.Planned? && Supported(fields, "$") ==>
      RowsHaveTheirColumns(plan.tables, result) && RootHoldsScalars(plan.tables, fields, docs, result)
  {
    plan := PlanFromSchema(naming, entity, fields);
    result := map[];
    if plan.Planned? {
      PlanIsTree(naming, entity, fields);
      PlanIsJoined(naming, entity, fields);
      result := Execute(docs, plan.tables, uuids);
      if Supported(fields, "$") {
        HasColumnsAndScalars(naming, entity, fields, docs, uuids, result);
        if DistinctIds(uuids) {
          ReadsBackAndExplodes(naming, entity, fields, docs, uuids, result);
        }
      }
    }
  }

  // An input that needs the guard.

  /**
   * A field with a dot in its name beside the object it spells: two columns with one logical path and two
   * physical names, which a working guard would refuse, go through.
   */
  lemma DottedNameConflicts(a: string, b: string)
    ensures var fields := [Field(a + "." + b, ScalarType), Field(a, StructType([Field(b, ScalarType)]))];
      var columns := FieldColumns(fields, "$", []);
      && |columns| == 2 && columns[0].logicalPath == columns[1].logicalPath
      && columns[0].physicalName != columns[1].physicalName
      && Guarded(columns).None?
  {
    var inner := [Field(b, ScalarType)];
    var fields := [Field(a + "." + b, ScalarType), Field(a, StructType(inner))];
    DottedLeaves(a, b);
    assert SanitizeAll([a + "." + b]) != SanitizeAll([a, b]);
    assert Join([a, b], ".") == a + "." + Join([b], ".");
    assert Clash(FieldLeaves(fields), 0, 1);
    ConflictsIffClash(fields, "$", [], 0, 1);
    GuardIsNeededIff(fields, "$", []);
  }

  lemma OneLeaf(name: string)
    ensures FieldLeaves([Field(name, ScalarType)]) == [[name]]
  {
    var fields := [Field(name, ScalarType)];
    assert fields[..0] == [] && FieldLeaves([]) == [];
    assert LeavesIn(ScalarType) == [[]] && [name] + [] == [name];
    assert Led(name, [[]]) == [[name]];
  }

  lemma DottedLeaves(a: string, b: string)
    ensures FieldLeaves([Field(a + "." + b, ScalarType), Field(a, StructType([Field(b, ScalarType)]))])
         == [[a + "." + b], [a, b]]
  {
    var inner := [Field(b, ScalarType)];
    var fields := [Field(a + "." + b, ScalarType), Field(a, StructType(inner))];
    assert inner[..0] == [] && fields[..1] == [fields[0]] && fields[..1][..0] == [];
    OneLeaf(b);
    OneLeaf(a + "." + b);
    assert [a] + [b] == [a, b];
  }

  // Why no element object may have a scalar called `value`.

  lemma {:induction false} ColumnOfLeaf(fields: seq<Field>, path: string, i: nat) returns (k: nat)
    requires i < |fields| && IsLeaf(fields[i].dtype)
    ensures k < |FieldColumns(fields, path, [])|
    ensures FieldColumns(fields, path, [])[k]
         == Column(JoinPath(path, fields[i].name), ColumnName([fields[i].name]), Join([fields[i].name], "."))
  {
    var last := |fields| - 1;
    if i < last {
      k := ColumnOfLeaf(fields[..last], path, i);
    } else {
      assert [] + [fields[i].name] == [fields[i].name];
      k := |FieldColumns(fields[..last], path, [])|;
    }
  }

  lemma ValueIsItsOwnName()
    ensures ColumnName([VALUE]) == VALUE && Join([VALUE], ".") == VALUE
  {
    assert Clean(VALUE);
    SanitizeKeepsClean(VALUE);
    assert SanitizeAll([VALUE]) == [VALUE];
  }

  /**
   * The accessor `value` stands for the whole item, so the column of a scalar field of that name holds the
   * item instead of the field. The two agree on null items only.
   */
  lemma ValueFieldIsMisread(fields: seq<Field>, i: nat, table: PlannedTable, parentId: Value, index: nat, item: Value)
    requires i < |fields| && fields[i].name == VALUE && IsLeaf(fields[i].dtype)
    requires Tidy(table) && table.columns == FieldColumns(fields, table.logicalPath, [])
    ensures var cell := Get(Obj(ChildRow(table, parentId, index, item)), VALUE);
      cell == item && (cell == Get(item, VALUE) <==> item == Null)
  {
    var k := ColumnOfLeaf(fields, table.logicalPath, i);
    ValueIsItsOwnName();
    ChildColumn(table, parentId, index, item, k);
    assert item.Obj? && VALUE in item.fields ==> item.fields[VALUE] != item;
  }
}

/** Row conservation over a whole plan: every table has one row for each item it was exploded from. */
module Conservation {
  import opened Seqs
  import opened Identifiers
  import opened Columns
  import opened Planner
  import opened Relationalizer
  import opened PlanShape
  import opened Reconstruction
  import opened Lossless

  // Every table of a plan is tidy.

  lemma {:induction false} NoArraysNoTables(naming: Naming, entity: string, registry: Registry, dtype: DataType,
                                            path: string, segments: seq<string>, parentName: string)
    requires NoArrays(dtype)
    ensures TablesIn(naming, entity, registry, dtype, path, segments, parentName) == Planned([], registry)
    decreases dtype, 1
  {
    if dtype.StructType? {
      NoTablesInFields(naming, entity, registry, dtype.fields, path, segments, parentName);
    }
  }

  lemma {:induction false} NoTablesInFields(naming: Naming, entity: string, registry: Registry, fields: seq<Field>,
                                            path: string, segments: seq<string>, parentName: string)
    requires forall i :: 0 <= i < |fields| ==> NoArrays(fields[i].dtype)
    ensures FieldTables(naming, entity, registry, fields, path, segments, parentName) == Planned([], registry)
    decreases fields, 0
  {
    if fields != [] {
      var last := fields[|fields| - 1];
      NoTablesInFields(naming, entity, registry, fields[..|fields| - 1], path, segments, parentName);
      NoArraysNoTables(naming, entity, registry, last.dtype, JoinPath(path, last.name), segments + [last.name],
                       parentName);
    }
  }

  ghost predicate AllTidy(tables: seq<PlannedTable>) {
    forall t :: t in tables ==> Tidy(t)
  }

  ghost predicate FieldsSupported(fields: seq<Field>, path: string) {
    forall i :: 0 <= i < |fields| ==> SupportedField(fields[i].dtype, JoinPath(path, fields[i].name))
  }

  lemma {:induction false} TablesAreTidy(naming: Naming, entity: string, registry: Registry, dtype: DataType,
                                         path: string, segments: seq<string>, parentName: string)
    requires GoodNames(dtype) && SupportedField(dtype, path)
    requires TablesIn(naming, entity, registry, dtype, path, segments, parentName).Planned?
    ensures AllTidy(TablesIn(naming, entity, registry, dtype, path, segments, parentName).tables)
    decreases dtype, 1
  {
    match dtype
    case StructType(_) => NoArraysNoTables(naming, entity, registry, dtype, path, segments, parentName);
    case ArrayType(element) =>
      var out := TablesIn(naming, entity, registry, dtype, path, segments, parentName);
      var rest := TablesBelow(naming, entity, registry, element, path, segments, parentName);
      if element.StructType? {
        TidyTable(out.tables[0], element.fields);
        var result := TableName(naming, registry, [entity] + segments, path);
        FieldTablesAreTidy(naming, entity, Register(registry, result, path), element.fields, path, [], result.name);
      } else {
        TidyValueTable(out.tables[0], element);
      }
    case _ =>
  }

  lemma {:induction false} FieldTablesAreTidy(naming: Naming, entity: string, registry: Registry, fields: seq<Field>,
                                              path: string, segments: seq<string>, parentName: string)
    requires GoodFieldNames(fields) && FieldsSupported(fields, path)
    requires FieldTables(naming, entity, registry, fields, path, segments, parentName).Planned?
    ensures AllTidy(FieldTables(naming, entity, registry, fields, path, segments, parentName).tables)
    decreases fields, 0
  {
    if fields != [] {
      var init, last := fields[..|fields| - 1], fields[|fields| - 1];
      var before := FieldTables(naming, entity, registry, init, path, segments, parentName);
      GoodPrefix(fields);
      FieldTablesAreTidy(naming, entity, registry, init, path, segments, parentName);
      TablesAreTidy(naming, entity, before.registry, last.dtype, JoinPath(path, last.name), segments + [last.name],
                    parentName);
    }
  }

  lemma PlanIsTidy(naming: Naming, entity: string, fields: seq<Field>)
    requires GoodFieldNames(fields) && Supported(fields, "$") && PlanOf(naming, entity, fields).Planned?
    ensures AllTidy(PlanOf(naming, entity, fields).tables)
  {
    var plan := PlanOf(naming, entity, fields);
    var result := TableName(naming, map[], [entity], "$");
    TidyTable(plan.tables[0], fields);
    FieldTablesAreTidy(naming, entity, Register(map[], result, "$"), fields, "$", [], result.name);
  }

  // Every table of an execution conserves rows.

  lemma IdsStayApart(tables: seq<PlannedTable>, docs: seq<Value>, uuids: Uuids, t: nat)
    requires WellFormed(tables) && AllTidy(tables) && DistinctIds(uuids) && t < |tables|
    ensures IdsApart(TableRows(tables, docs, uuids, t))
  {
    assert tables[t] in tables;
    if tables[t].parentName.None? {
      RootIdsApart(docs, tables[t], t, uuids);
    } else {
      var p := ParentOf(tables, t);
      var accessor := ExplosionTo(tables[p].children, tables[t].logicalPath).accessor;
      ChildIdsApart(TableRows(tables, docs, uuids, p), tables[t], accessor, t, uuids);
    }
  }

  /** The total length of an array over all rows. */
  function TotalItems(rows: seq<Row>, accessor: string): nat {
    if rows == [] then 0
    else TotalItems(rows[..|rows| - 1], accessor) + |ItemsOf(rows[|rows| - 1], accessor)|
  }

  lemma {:induction false} TotalIsOffset(rows: seq<Row>, table: PlannedTable, accessor: string, n: nat)
    requires n <= |rows|
    ensures TotalItems(rows[..n], accessor) == Offset(Blocks(rows, table, accessor), n)
  {
    if n > 0 {
      TotalIsOffset(rows, table, accessor, n - 1);
      assert rows[..n][..n - 1] == rows[..n - 1];
    }
  }

  /** Some row carries this parent id and this index. */
  ghost predicate IsIndexed(rows: seq<Row>, parentId: Value, k: nat) {
    exists j :: 0 <= j < |rows| && Matches(rows[j], parentId, k)
  }

  ghost predicate AtMostOne(rows: seq<Row>, parentId: Value, k: nat) {
    forall j, j' :: 0 <= j < j' < |rows| ==> !(Matches(rows[j], parentId, k) && Matches(rows[j'], parentId, k))
  }

  ghost predicate HasParentIn(row: Row, parents: seq<Row>) {
    exists i :: 0 <= i < |parents| && Get(Obj(row), PARENT_ROW_ID) == IdOf(parents[i])
  }

  /** The rows under one parent are indexed from 0 to the length of its array, each index once. */
  ghost predicate IndexedOnce(rows: seq<Row>, parent: Row, accessor: string) {
    forall k: nat ::
      (IsIndexed(rows, IdOf(parent), k) <==> k < |ItemsOf(parent, accessor)|) && AtMostOne(rows, IdOf(parent), k)
  }

  /** One row for each item, under an existing parent, indexed without gaps or repetitions. */
  ghost predicate Conserves(parents: seq<Row>, accessor: string, rows: seq<Row>) {
    && |rows| == TotalItems(parents, accessor)
    && (forall j :: 0 <= j < |rows| ==> HasParentIn(rows[j], parents))
    && (forall i :: 0 <= i < |parents| ==> IndexedOnce(rows, parents[i], accessor))
  }

  lemma ChildConserves(parents: seq<Row>, table: PlannedTable, accessor: string, c: nat, uuids: Uuids)
    requires Tidy(table) && IdsApart(parents)
    ensures Conserves(parents, accessor, ChildRows(parents, table, accessor, c, uuids))
  {
    var rows := ChildRows(parents, table, accessor, c, uuids);
    ChildRowCount(parents, table, accessor, c, uuids);
    forall j | 0 <= j < |rows|
      ensures HasParentIn(rows[j], parents)
    {
      ParentsExist(parents, table, accessor, c, uuids, j);
    }
    forall i | 0 <= i < |parents|
      ensures IndexedOnce(rows, parents[i], accessor)
    {
      ChildrenAreIndexed(parents, table, accessor, c, uuids, i);
    }
  }

  lemma ChildRowCount(parents: seq<Row>, table: PlannedTable, accessor: string, c: nat, uuids: Uuids)
    requires Tidy(table)
    ensures |ChildRows(parents, table, accessor, c, uuids)| == TotalItems(parents, accessor)
  {
    TotalIsOffset(parents, table, accessor, |parents|);
    assert parents[..|parents|] == parents;
    BareIsFlat(parents, table, accessor);
    FlattenLength(Blocks(parents, table, accessor));
  }

  lemma ChildrenAreIndexed(parents: seq<Row>, table: PlannedTable, accessor: string, c: nat, uuids: Uuids, i: nat)
    requires Tidy(table) && IdsApart(parents) && i < |parents|
    ensures IndexedOnce(ChildRows(parents, table, accessor, c, uuids), parents[i], accessor)
  {
    var rows := ChildRows(parents, table, accessor, c, uuids);
    forall k: nat
      ensures IsIndexed(rows, IdOf(parents[i]), k) <==> k < |ItemsOf(parents[i], accessor)|
      ensures AtMostOne(rows, IdOf(parents[i]), k)
    {
      RowsAreConserved(parents, table, accessor, c, uuids, i, k);
    }
  }

  /**
   * In every execution of every plan: the root has one row for each document, and any other table conserves
   * the array of its parent that it was exploded from.
   */
  lemma PlanConservesRows(naming: Naming, entity: string, fields: seq<Field>, docs: seq<Value>, uuids: Uuids, c: nat)
    requires GoodFieldNames(fields) && Supported(fields, "$") && DistinctIds(uuids)
    requires PlanOf(naming, entity, fields).Planned? && c < |PlanOf(naming, entity, fields).tables|
    ensures var tables := PlanOf(naming, entity, fields).tables;
      && WellFormed(tables)
      && (c == 0 ==> |TableRows(tables, docs, uuids, c)| == |docs|)
      && (c > 0 ==>
            && tables[c].parentName.Some?
            && var p := ParentOf(tables, c);
               Conserves(TableRows(tables, docs, uuids, p),
                         ExplosionTo(tables[p].children, tables[c].logicalPath).accessor,
                         TableRows(tables, docs, uuids, c)))
  {
    var tables := PlanOf(naming, entity, fields).tables;
    PlanIsTree(naming, entity, fields);
    PlanIsTidy(naming, entity, fields);
    assert tables[c] in tables;
    if c > 0 {
      assert IsChild(tables, c);
      var p := ParentOf(tables, c);
      IdsStayApart(tables, docs, uuids, p);
      ChildConserves(TableRows(tables, docs, uuids, p), tables[c],
                     ExplosionTo(tables[p].children, tables[c].logicalPath).accessor, c, uuids);
    }
  }
}

/** Rebuilding the documents from the tables: relationalization loses nothing. */
module Reconstruction {
  import opened Seqs
  import opened Text
  import opened Columns
  import opened Planner
  import opened Relationalizer
  import opened PlanShape

  // What a selected row holds.

  ghost predicate AliasesApart(projections: seq<Projection>) {
    forall i, j :: 0 <= i < j < |projections| ==> projections[i].alias != projections[j].alias
  }

  function Projected(v: Value, p: Projection): Value {
    if p.ColumnRef? then Resolve(v, p.accessor) else Null
  }

  lemma {:induction false} SelectAt(v: Value, projections: seq<Projection>, k: nat)
    requires AliasesApart(projections) && k < |projections|
    ensures projections[k].alias in Select(v, projections)
    ensures Select(v, projections)[projections[k].alias] == Projected(v, projections[k])
  {
    var n := |projections| - 1;
    if k < n {
      var init := projections[..n];
      SelectAt(v, init, k);
      assert projections[k].alias != projections[n].alias;
    }
  }

  /** Names in a table that keep every column reference unambiguous. */
  ghost predicate Tidy(table: PlannedTable) {
    && ColumnsApart(table.columns)
    && (forall c :: c in table.columns ==> !Reserved(c.physicalName))
    && (forall e :: e in table.children ==>
          !Reserved(e.accessor) && '.' !in e.accessor && e.childPath == JoinPath(table.logicalPath, e.accessor))
    && (forall i, j :: 0 <= i < j < |table.children| ==> table.children[i].accessor != table.children[j].accessor)
    && (forall c, e :: c in table.columns && e in table.children ==> c.physicalName != e.accessor)
  }

  predicate Reserved(name: string) {
    name in {ROW_ID, PARENT_ROW_ID, ARRAY_INDEX, EMPTY_MARKER}
  }

  function ColumnValue(v: Value, c: Column, isItem: bool): Value {
    if isItem && c.accessor == VALUE then v else Resolve(v, c.accessor)
  }

  /** The row holds the columns and the arrays of `v`. */
  ghost predicate RowHolds(row: Row, table: PlannedTable, v: Value, isItem: bool) {
    && (forall c :: c in table.columns ==> Get(Obj(row), c.physicalName) == ColumnValue(v, c, isItem))
    && (forall e :: e in table.children ==> Get(Obj(row), e.accessor) == Get(v, e.accessor))
  }

  lemma ResolvePlain(v: Value, name: string)
    requires '.' !in name
    ensures Resolve(v, name) == Get(v, name) && LastSegment(name) == name
  {
    SplitFirstDot(name, "");
    assert Follow(v, [name]) == Follow(Get(v, name), []);
  }

  lemma ResolveItem(row: Row, accessor: string)
    ensures Resolve(Obj(row), ITEM + "." + accessor) == Resolve(Get(Obj(row), ITEM), accessor)
  {
    SplitFirstDot(ITEM, accessor);
    assert SplitDots(ITEM + "." + accessor)[1..] == SplitDots(accessor);
  }

  lemma {:induction false} RootRowHolds(docs: seq<Value>, table: PlannedTable, t: nat, uuids: Uuids, i: nat)
    requires Tidy(table) && i < |docs|
    ensures |RootRows(docs, table, t, uuids)| == |docs|
    ensures var row := RootRows(docs, table, t, uuids)[i];
            RowHolds(row, table, docs[i], false) && Get(Obj(row), ROW_ID) == Str(uuids(t, i))
  {
    var projections := RootProjections(table);
    RootAliasesApart(table);
    var row := RootRows(docs, table, t, uuids)[i];
    var selected, id := Select(docs[i], projections), Str(uuids(t, i));
    assert row == (selected - {EMPTY_MARKER})[ROW_ID := id];
    forall c | c in table.columns
      ensures Get(Obj(row), c.physicalName) == ColumnValue(docs[i], c, false)
    {
      var k :| 0 <= k < |table.columns| && table.columns[k] == c;
      assert projections[k] == ColumnRef(c.accessor, c.physicalName);
      SelectAt(docs[i], projections, k);
      KeptCell(selected, id, c.physicalName);
    }
    forall e | e in table.children
      ensures Get(Obj(row), e.accessor) == Get(docs[i], e.accessor)
    {
      var k :| 0 <= k < |table.children| && table.children[k] == e;
      ResolvePlain(docs[i], e.accessor);
      assert projections[|table.columns| + k] == ColumnRef(e.accessor, e.accessor);
      SelectAt(docs[i], projections, |table.columns| + k);
      KeptCell(selected, id, e.accessor);
    }
  }

  /** In a tidy table no column is dropped and every array keeps its name. */
  lemma TidyColumns(table: PlannedTable, row: Row, id: string)
    requires Tidy(table) && HasExactlyItsColumns(table, row, id)
    ensures row.Keys == {"_row_id"} + (if table.parentName.None? then {} else {"_parent_row_id", "_array_index"})
                        + (set c | c in table.columns :: c.physicalName) + (set e | e in table.children :: e.accessor)
  {
    forall e | e in table.children
      ensures LastSegment(e.accessor) == e.accessor
    {
      ResolvePlain(Null, e.accessor);
    }
    assert EMPTY_MARKER == "_empty_marker";
    assert (set e | e in table.children :: LastSegment(e.accessor)) == set e | e in table.children :: e.accessor;
  }

  lemma KeptCell(selected: Row, id: Value, name: string)
    requires !Reserved(name)
    ensures Get(Obj((selected - {EMPTY_MARKER})[ROW_ID := id]), name) == Get(Obj(selected), name)
  {
  }

  lemma RootAliasesApart(table: PlannedTable)
    requires Tidy(table)
    ensures AliasesApart(RootProjections(table))
  {
    var projections, n := RootProjections(table), |table.columns|;
    if table.columns != [] || table.children != [] {
      assert projections == ColumnRefs(table.columns) + ArrayRefs(table.children);
      forall i, j | 0 <= i < j < |projections|
        ensures projections[i].alias != projections[j].alias
      {
        if j >= n {
          ResolvePlain(Null, table.children[j - n].accessor);
          if i >= n {
            ResolvePlain(Null, table.children[i - n].accessor);
          }
        }
      }
    }
  }

  lemma ChildAliasesApart(table: PlannedTable)
    requires Tidy(table)
    ensures AliasesApart(ChildProjections(table))
  {
    var projections, n := ChildProjections(table), |table.columns|;
    forall i, j | 0 <= i < j < |projections|
      ensures projections[i].alias != projections[j].alias
    {
      if 2 <= j < 2 + n {
        assert projections[j].alias == table.columns[j - 2].physicalName;
      } else if j >= 2 + n {
        assert projections[j].alias == table.children[j - 2 - n].accessor;
      }
      if 2 <= i < 2 + n {
        assert projections[i].alias == table.columns[i - 2].physicalName;
      } else if i >= 2 + n {
        assert projections[i].alias == table.children[i - 2 - n].accessor;
      }
    }
  }

  /** A row of a child table, for one item of one array. */
  function ChildRow(table: PlannedTable, parentId: Value, index: nat, item: Value): Row {
    Select(Obj(ExplodedRow(parentId, Number(index), item)), ChildProjections(table))
  }

  lemma KeyNames()
    ensures '.' !in PARENT_ROW_ID && '.' !in ARRAY_INDEX && '.' !in ITEM
    ensures PARENT_ROW_ID != ARRAY_INDEX && PARENT_ROW_ID != ITEM && ARRAY_INDEX != ITEM
    ensures ROW_ID != PARENT_ROW_ID && ROW_ID != ARRAY_INDEX
  {
    assert |ROW_ID| == 7 && |PARENT_ROW_ID| == 14 && |ARRAY_INDEX| == 12 && |ITEM| == 4;
  }

  lemma GetOfThree(a: string, b: string, c: string, x: Value, y: Value, z: Value)
    requires a != b && a != c && b != c
    requires '.' !in a && '.' !in b && '.' !in c
    ensures var v := Obj(map[a := x, b := y, c := z]);
            Resolve(v, a) == x && Resolve(v, b) == y && Resolve(v, c) == z
  {
    var v := Obj(map[a := x, b := y, c := z]);
    ResolvePlain(v, a);
    ResolvePlain(v, b);
    ResolvePlain(v, c);
  }

  lemma ExplodedGet(parentId: Value, index: Value, item: Value)
    ensures var source := Obj(ExplodedRow(parentId, index, item));
            && Resolve(source, PARENT_ROW_ID) == parentId && Resolve(source, ARRAY_INDEX) == index
            && Resolve(source, ITEM) == item
  {
    KeyNames();
    GetOfThree(PARENT_ROW_ID, ARRAY_INDEX, ITEM, parentId, index, item);
  }

  /** The first two columns of a selected row. */
  lemma SelectedKeys(table: PlannedTable, parentId: Value, index: Value, item: Value)
    requires Tidy(table)
    ensures var row := Select(Obj(ExplodedRow(parentId, index, item)), ChildProjections(table));
            Get(Obj(row), PARENT_ROW_ID) == parentId && Get(Obj(row), ARRAY_INDEX) == index
  {
    var source, projections := Obj(ExplodedRow(parentId, index, item)), ChildProjections(table);
    ChildAliasesApart(table);
    ExplodedGet(parentId, index, item);
    assert projections[0] == ColumnRef(PARENT_ROW_ID, PARENT_ROW_ID);
    assert projections[1] == ColumnRef(ARRAY_INDEX, ARRAY_INDEX);
    SelectAt(source, projections, 0);
    SelectAt(source, projections, 1);
  }

  lemma ChildKeys(table: PlannedTable, parentId: Value, index: nat, item: Value)
    requires Tidy(table)
    ensures var row := ChildRow(table, parentId, index, item);
            Get(Obj(row), PARENT_ROW_ID) == parentId && Get(Obj(row), ARRAY_INDEX) == Number(index)
  {
    SelectedKeys(table, parentId, Number(index), item);
  }

  lemma ChildColumn(table: PlannedTable, parentId: Value, index: nat, item: Value, k: nat)
    requires Tidy(table) && k < |table.columns|
    ensures Get(Obj(ChildRow(table, parentId, index, item)), table.columns[k].physicalName)
         == ColumnValue(item, table.columns[k], true)
  {
    var row, c := ExplodedRow(parentId, Number(index), item), table.columns[k];
    ChildAliasesApart(table);
    assert ChildProjections(table)[2 + k] == ColumnRef(ItemAccessor(c.accessor), c.physicalName);
    SelectAt(Obj(row), ChildProjections(table), 2 + k);
    ResolvePlain(Obj(row), ITEM);
    ResolveItem(row, c.accessor);
  }

  lemma ChildArray(table: PlannedTable, parentId: Value, index: nat, item: Value, k: nat)
    requires Tidy(table) && k < |table.children|
    ensures Get(Obj(ChildRow(table, parentId, index, item)), table.children[k].accessor)
         == Get(item, table.children[k].accessor)
  {
    var row, e, at := ExplodedRow(parentId, Number(index), item), table.children[k], 2 + |table.columns| + k;
    ChildAliasesApart(table);
    assert e in table.children;
    assert ChildProjections(table)[at] == ColumnRef(ITEM + "." + e.accessor, e.accessor);
    SelectAt(Obj(row), ChildProjections(table), at);
    ResolveItem(row, e.accessor);
    ResolvePlain(item, e.accessor);
  }

  lemma ChildRowHolds(table: PlannedTable, parentId: Value, index: nat, item: Value, id: Value)
    requires Tidy(table)
    ensures var row := ChildRow(table, parentId, index, item)[ROW_ID := id];
            && RowHolds(row, table, item, true) && Get(Obj(row), ROW_ID) == id
            && Get(Obj(row), PARENT_ROW_ID) == parentId && Get(Obj(row), ARRAY_INDEX) == Number(index)
  {
    var bare := ChildRow(table, parentId, index, item);
    var row := bare[ROW_ID := id];
    ChildKeys(table, parentId, index, item);
    forall c | c in table.columns
      ensures Get(Obj(row), c.physicalName) == ColumnValue(item, c, true)
    {
      var k :| 0 <= k < |table.columns| && table.columns[k] == c;
      ChildColumn(table, parentId, index, item, k);
      assert !Reserved(c.physicalName);
      OtherColumn(bare, id, c.physicalName);
    }
    forall e | e in table.children
      ensures Get(Obj(row), e.accessor) == Get(item, e.accessor)
    {
      var k :| 0 <= k < |table.children| && table.children[k] == e;
      ChildArray(table, parentId, index, item, k);
      OtherColumn(bare, id, e.accessor);
    }
  }

  lemma OtherColumn(row: Row, id: Value, name: string)
    requires name != ROW_ID
    ensures Get(Obj(row[ROW_ID := id]), name) == Get(Obj(row), name)
  {
  }

  // The rows of a child table, one for each item.

  /** The child rows before ids are drawn. */
  function BareChildRows(parentRows: seq<Row>, table: PlannedTable, accessor: string): seq<Row> {
    Indexed(SelectAll(AsValues(ExplodeAll(parentRows, accessor)), ChildProjections(table)))
  }

  lemma {:induction false} IndexedConcat(a: seq<Row>, b: seq<Row>)
    ensures Indexed(a + b) == Indexed(a) + Indexed(b)
  {
    if b == [] {
      assert a + b == a;
    } else {
      assert (a + b)[..|a + b| - 1] == a + b[..|b| - 1];
      IndexedConcat(a, b[..|b| - 1]);
    }
  }

  lemma {:induction false} AllIndexed(rows: seq<Row>)
    requires forall i :: 0 <= i < |rows| ==> !Get(Obj(rows[i]), ARRAY_INDEX).Null?
    ensures Indexed(rows) == rows
  {
    if rows != [] {
      AllIndexed(rows[..|rows| - 1]);
      assert rows == rows[..|rows| - 1] + [rows[|rows| - 1]];
    }
  }

  /** The rows that one parent row contributes: one for each item, in order, none for a null or empty array. */
  function RowsOfParent(row: Row, table: PlannedTable, accessor: string): seq<Row> {
    var items := Items(Resolve(Obj(row), accessor));
    seq(|items|, k requires 0 <= k < |items| => ChildRow(table, Get(Obj(row), ROW_ID), k, items[k]))
  }

  lemma ParentContributes(row: Row, table: PlannedTable, accessor: string)
    requires Tidy(table)
    ensures Indexed(SelectAll(AsValues(ExplodeRow(row, accessor)), ChildProjections(table)))
         == RowsOfParent(row, table, accessor)
  {
    if Items(Resolve(Obj(row), accessor)) == [] {
      EmptyParent(row, table, accessor);
    } else {
      var rows := RowsOfParent(row, table, accessor);
      assert SelectAll(AsValues(ExplodeRow(row, accessor)), ChildProjections(table)) == rows;
      forall k | 0 <= k < |rows|
        ensures !Get(Obj(rows[k]), ARRAY_INDEX).Null?
      {
        ChildKeys(table, Get(Obj(row), ROW_ID), k, Items(Resolve(Obj(row), accessor))[k]);
      }
      AllIndexed(rows);
    }
  }

  lemma NotIndexed(rows: seq<Row>)
    requires |rows| == 1 && Get(Obj(rows[0]), ARRAY_INDEX).Null?
    ensures Indexed(rows) == []
  {
    assert rows[..0] == [];
  }

  lemma EmptyParent(row: Row, table: PlannedTable, accessor: string)
    requires Tidy(table) && Items(Resolve(Obj(row), accessor)) == []
    ensures Indexed(SelectAll(AsValues(ExplodeRow(row, accessor)), ChildProjections(table))) == []
  {
    var source := Obj(ExplodedRow(Get(Obj(row), ROW_ID), Null, Null));
    var selected := SelectAll(AsValues(ExplodeRow(row, accessor)), ChildProjections(table));
    assert selected == [Select(source, ChildProjections(table))];
    SelectedKeys(table, Get(Obj(row), ROW_ID), Null, Null);
    NotIndexed(selected);
  }

  lemma SelectConcat(a: seq<Row>, b: seq<Row>, projections: seq<Projection>)
    ensures SelectAll(AsValues(a + b), projections)
         == SelectAll(AsValues(a), projections) + SelectAll(AsValues(b), projections)
  {
    assert AsValues(a + b) == AsValues(a) + AsValues(b);
  }

  lemma {:induction false} BareSnoc(parentRows: seq<Row>, table: PlannedTable, accessor: string)
    requires Tidy(table) && parentRows != []
    ensures BareChildRows(parentRows, table, accessor)
         == BareChildRows(parentRows[..|parentRows| - 1], table, accessor)
            + RowsOfParent(parentRows[|parentRows| - 1], table, accessor)
  {
    var init, last := parentRows[..|parentRows| - 1], parentRows[|parentRows| - 1];
    var a, b := ExplodeAll(init, accessor), ExplodeRow(last, accessor);
    var projections := ChildProjections(table);
    SelectConcat(a, b, projections);
    IndexedConcat(SelectAll(AsValues(a), projections), SelectAll(AsValues(b), projections));
    ParentContributes(last, table, accessor);
  }

  /** The rows of a child table, parent by parent. */
  function Blocks(parentRows: seq<Row>, table: PlannedTable, accessor: string): seq<seq<Row>> {
    seq(|parentRows|, i requires 0 <= i < |parentRows| => RowsOfParent(parentRows[i], table, accessor))
  }

  lemma {:induction false} BareIsFlat(parentRows: seq<Row>, table: PlannedTable, accessor: string)
    requires Tidy(table)
    ensures BareChildRows(parentRows, table, accessor) == Flatten(Blocks(parentRows, table, accessor))
  {
    if parentRows != [] {
      var n := |parentRows| - 1;
      BareSnoc(parentRows, table, accessor);
      BareIsFlat(parentRows[..n], table, accessor);
      BlocksSnoc(parentRows, table, accessor);
      assert Blocks(parentRows, table, accessor)[..n] == Blocks(parentRows[..n], table, accessor);
    }
  }

  lemma BlocksSnoc(parentRows: seq<Row>, table: PlannedTable, accessor: string)
    requires parentRows != []
    ensures var n := |parentRows| - 1;
      Blocks(parentRows, table, accessor)
      == Blocks(parentRows[..n], table, accessor) + [RowsOfParent(parentRows[n], table, accessor)]
  {
  }
}

/** The round trip: plan a schema, execute the plan, and read the documents back from the tables. */
module Lossless {
  import opened Seqs
  import opened Text
  import opened Identifiers
  import opened Columns
  import opened Planner
  import opened Relationalizer
  import opened PlanShape
  import opened Reconstruction

  // Child rows and their parents.

  function IdOf(row: Row): Value {
    Get(Obj(row), ROW_ID)
  }

  ghost predicate IdsApart(rows: seq<Row>) {
    forall i, j :: 0 <= i < j < |rows| ==> IdOf(rows[i]) != IdOf(rows[j])
  }

  /** The ids drawn for one table are distinct. */
  ghost predicate DistinctIds(uuids: Uuids) {
    forall t, i, j :: i != j ==> uuids(t, i) != uuids(t, j)
  }

  function ItemsOf(row: Row, accessor: string): seq<Value> {
    Items(Resolve(Obj(row), accessor))
  }

  predicate Matches(row: Row, parentId: Value, index: nat) {
    Get(Obj(row), PARENT_ROW_ID) == parentId && Get(Obj(row), ARRAY_INDEX) == Number(index)
  }

  lemma BareChildRowAt(parentRows: seq<Row>, table: PlannedTable, accessor: string, i: nat, k: nat)
    requires Tidy(table) && i < |parentRows| && k < |ItemsOf(parentRows[i], accessor)|
    ensures var bare := BareChildRows(parentRows, table, accessor);
      var j := Offset(Blocks(parentRows, table, accessor), i) + k;
      j < |bare| && bare[j] == ChildRow(table, IdOf(parentRows[i]), k, ItemsOf(parentRows[i], accessor)[k])
  {
    var blocks := Blocks(parentRows, table, accessor);
    BareIsFlat(parentRows, table, accessor);
    FlattenAt(blocks, i, k);
    assert blocks[i] == RowsOfParent(parentRows[i], table, accessor);
  }

  /** Row `Offset(i) + k` of the child table is that of item `k` of parent row `i`. */
  lemma ChildRowAt(parentRows: seq<Row>, table: PlannedTable, accessor: string, c: nat, uuids: Uuids, i: nat, k: nat)
    returns (j: nat)
    requires Tidy(table) && i < |parentRows| && k < |ItemsOf(parentRows[i], accessor)|
    ensures j == Offset(Blocks(parentRows, table, accessor), i) + k
    ensures var rows := ChildRows(parentRows, table, accessor, c, uuids);
            && j < |rows| && IdOf(rows[j]) == Str(uuids(c, j)) && Matches(rows[j], IdOf(parentRows[i]), k)
            && RowHolds(rows[j], table, ItemsOf(parentRows[i], accessor)[k], true)
  {
    var blocks, items := Blocks(parentRows, table, accessor), ItemsOf(parentRows[i], accessor);
    j := Offset(blocks, i) + k;
    BareChildRowAt(parentRows, table, accessor, i, k);
    ChildRowHolds(table, IdOf(parentRows[i]), k, items[k], Str(uuids(c, j)));
  }

  /** Every child row is that of one item of one parent row. */
  lemma {:induction false} ChildRowFrom(parentRows: seq<Row>, table: PlannedTable, accessor: string, c: nat,
                                        uuids: Uuids, j: nat)
    returns (i: nat, k: nat)
    requires Tidy(table) && j < |ChildRows(parentRows, table, accessor, c, uuids)|
    ensures i < |parentRows| && k < |ItemsOf(parentRows[i], accessor)|
    ensures j == Offset(Blocks(parentRows, table, accessor), i) + k
    ensures Matches(ChildRows(parentRows, table, accessor, c, uuids)[j], IdOf(parentRows[i]), k)
  {
    BareIsFlat(parentRows, table, accessor);
    i, k := FlattenFrom(Blocks(parentRows, table, accessor), j);
    var j' := ChildRowAt(parentRows, table, accessor, c, uuids, i, k);
    assert j' == j;
  }

  lemma {:induction false} MatchIsUnique(parentRows: seq<Row>, table: PlannedTable, accessor: string, c: nat,
                                         uuids: Uuids,
                      i: nat, k: nat, j: nat)
    requires Tidy(table) && IdsApart(parentRows) && i < |parentRows|
    requires j < |ChildRows(parentRows, table, accessor, c, uuids)|
    requires Matches(ChildRows(parentRows, table, accessor, c, uuids)[j], IdOf(parentRows[i]), k)
    ensures k < |ItemsOf(parentRows[i], accessor)| && j == Offset(Blocks(parentRows, table, accessor), i) + k
  {
    var i', k' := ChildRowFrom(parentRows, table, accessor, c, uuids, j);
    assert IdOf(parentRows[i]) == IdOf(parentRows[i']);
  }

  /**
   * Row conservation. A child table has one row for each item of the array over all parent rows, and
   * under parent row `i` the indices are exactly 0 to the length of the array less one, each once.
   */
  lemma RowsAreConserved(parentRows: seq<Row>, table: PlannedTable, accessor: string, c: nat, uuids: Uuids,
                         i: nat, k: nat)
    requires Tidy(table) && IdsApart(parentRows) && i < |parentRows|
    ensures |ChildRows(parentRows, table, accessor, c, uuids)|
         == Offset(Blocks(parentRows, table, accessor), |parentRows|)
    ensures k < |ItemsOf(parentRows[i], accessor)| <==>
            exists j :: 0 <= j < |ChildRows(parentRows, table, accessor, c, uuids)|
                        && Matches(ChildRows(parentRows, table, accessor, c, uuids)[j], IdOf(parentRows[i]), k)
    ensures forall j, j' | 0 <= j < j' < |ChildRows(parentRows, table, accessor, c, uuids)| ::
              !(Matches(ChildRows(parentRows, table, accessor, c, uuids)[j], IdOf(parentRows[i]), k)
                && Matches(ChildRows(parentRows, table, accessor, c, uuids)[j'], IdOf(parentRows[i]), k))
  {
    var rows := ChildRows(parentRows, table, accessor, c, uuids);
    BareIsFlat(parentRows, table, accessor);
    FlattenLength(Blocks(parentRows, table, accessor));
    if k < |ItemsOf(parentRows[i], accessor)| {
      var j := ChildRowAt(parentRows, table, accessor, c, uuids, i, k);
    }
    forall j: nat | j < |rows| && Matches(rows[j], IdOf(parentRows[i]), k)
      ensures k < |ItemsOf(parentRows[i], accessor)| && j == Offset(Blocks(parentRows, table, accessor), i) + k
    {
      MatchIsUnique(parentRows, table, accessor, c, uuids, i, k, j);
    }
  }

  /** Every parent id in a child table is the id of a parent row. */
  lemma ParentsExist(parentRows: seq<Row>, table: PlannedTable, accessor: string, c: nat, uuids: Uuids, j: nat)
    requires Tidy(table) && j < |ChildRows(parentRows, table, accessor, c, uuids)|
    ensures exists i :: 0 <= i < |parentRows|
              && Get(Obj(ChildRows(parentRows, table, accessor, c, uuids)[j]), PARENT_ROW_ID) == IdOf(parentRows[i])
  {
    var i, k := ChildRowFrom(parentRows, table, accessor, c, uuids, j);
  }

  // Reading back.

  /** How many rows carry the parent id. */
  function CountOf(rows: seq<Row>, parentId: Value): nat {
    if rows == [] then 0
    else
      CountOf(rows[..|rows| - 1], parentId)
      + if Get(Obj(rows[|rows| - 1]), PARENT_ROW_ID) == parentId then 1 else 0
  }

  /** The first row with the parent id and the index. */
  function RowFor(rows: seq<Row>, parentId: Value, index: nat): Row {
    if rows == [] then map[]
    else if Matches(rows[0], parentId, index) then rows[0]
    else RowFor(rows[1..], parentId, index)
  }

  function PhysicalAt(columns: seq<Column>, path: string): string {
    if columns == [] then ""
    else if columns[0].logicalPath == path then columns[0].physicalName
    else PhysicalAt(columns[1..], path)
  }

  /** Position of the table with a logical path; the number of tables when there is none. */
  function TableAt(tables: seq<PlannedTable>, path: string): (i: nat)
    ensures i <= |tables|
  {
    if tables == [] || tables[0].logicalPath == path then 0 else 1 + TableAt(tables[1..], path)
  }

  function RowsNamed(result: map<string, seq<Row>>, name: string): seq<Row> {
    if name in result then result[name] else []
  }

  /** The value of a type that sits at `path`, read from a row of table `t` and the tables below it. */
  function Rebuild(tables: seq<PlannedTable>, result: map<string, seq<Row>>, t: nat, row: Row,
                   dtype: DataType, path: string): Value
    requires t < |tables|
    decreases dtype, 1
  {
    match dtype
    case StructType(fields) => Obj(RebuildFields(tables, result, t, row, fields, path))
    case ArrayType(element) =>
      var c := TableAt(tables, path);
      if c == |tables| then Null
      else
        Arr(RebuildItems(tables, result, c, RowsNamed(result, tables[c].physicalName), IdOf(row), element, path))
    case _ => Get(Obj(row), PhysicalAt(tables[t].columns, path))
  }

  /** The rows under one parent, in order of their array index. */
  function RebuildItems(tables: seq<PlannedTable>, result: map<string, seq<Row>>, c: nat, rows: seq<Row>, id: Value,
                        element: DataType, path: string): seq<Value>
    requires c < |tables|
    decreases element, 3
  {
    seq(CountOf(rows, id), k requires 0 <= k => RebuildItem(tables, result, c, RowFor(rows, id, k), element, path))
  }

  function RebuildItem(tables: seq<PlannedTable>, result: map<string, seq<Row>>, t: nat, row: Row,
                       element: DataType, path: string): Value
    requires t < |tables|
    decreases element, 2
  {
    if element.StructType? then Obj(RebuildFields(tables, result, t, row, element.fields, path))
    else Get(Obj(row), PhysicalAt(tables[t].columns, JoinPath(path, VALUE)))
  }

  function RebuildFields(tables: seq<PlannedTable>, result: map<string, seq<Row>>, t: nat, row: Row,
                         fields: seq<Field>, path: string): map<string, Value>
    requires t < |tables|
    decreases fields, 0
  {
    if fields == [] then map[]
    else
      var last := fields[|fields| - 1];
      RebuildFields(tables, result, t, row, fields[..|fields| - 1], path)
      [last.name := Rebuild(tables, result, t, row, last.dtype, JoinPath(path, last.name))]
  }

  // The normal form of a document: a null array is an empty array, a null object an object of nulls.

  function Norm(dtype: DataType, v: Value): Value
    decreases dtype, 1
  {
    match dtype
    case StructType(fields) => Obj(NormFields(fields, v))
    case ArrayType(element) =>
      Arr(seq(|Items(v)|, k requires 0 <= k < |Items(v)| => NormItem(element, Items(v)[k])))
    case _ => v
  }

  function NormItem(element: DataType, v: Value): Value
    decreases element, 2
  {
    if element.StructType? then Obj(NormFields(element.fields, v)) else v
  }

  function NormFields(fields: seq<Field>, v: Value): map<string, Value>
    decreases fields, 0
  {
    if fields == [] then map[]
    else
      var last := fields[|fields| - 1];
      NormFields(fields[..|fields| - 1], v)[last.name := Norm(last.dtype, Get(v, last.name))]
  }

  // Schemas whose tables keep every column reference unambiguous.

  predicate NoArrays(dtype: DataType)
    decreases dtype
  {
    match dtype
    case StructType(fields) => forall i :: 0 <= i < |fields| ==> NoArrays(fields[i].dtype)
    case ArrayType(_) => false
    case _ => true
  }

  predicate IsLeaf(dtype: DataType) {
    dtype.ScalarType? || dtype.MapType?
  }

  /** Arrays sit directly in the object of their table, under names that clash with no column. */
  ghost predicate Supported(fields: seq<Field>, path: string)
    decreases fields, 0
  {
    forall i :: 0 <= i < |fields| ==>
      && SupportedField(fields[i].dtype, JoinPath(path, fields[i].name))
      && (fields[i].dtype.ArrayType? ==>
            && !Reserved(fields[i].name)
            && forall c :: c in FieldColumns(fields, path, []) ==> c.physicalName != fields[i].name)
  }

  ghost predicate SupportedField(dtype: DataType, path: string)
    decreases dtype, 1
  {
    match dtype
    case StructType(_) => NoArrays(dtype)
    case ArrayType(element) => SupportedElement(element, path)
    case _ => true
  }

  /** No scalar of an element object is called `value`, the accessor that stands for the whole item. */
  ghost predicate SupportedElement(element: DataType, path: string)
    decreases element, 2
  {
    element.StructType? ==>
      && Supported(element.fields, path)
      && forall i :: 0 <= i < |element.fields| && IsLeaf(element.fields[i].dtype) ==> element.fields[i].name != VALUE
  }

  lemma {:induction false} NoArraysNoExplosions(dtype: DataType, path: string, segments: seq<string>)
    requires NoArrays(dtype)
    ensures ExplosionsIn(dtype, path, segments) == []
    decreases dtype, 1
  {
    match dtype
    case StructType(fields) => NoExplosionsInFields(fields, path, segments);
    case _ =>
  }

  lemma {:induction false} NoExplosionsInFields(fields: seq<Field>, path: string, segments: seq<string>)
    requires forall i :: 0 <= i < |fields| ==> NoArrays(fields[i].dtype)
    ensures FieldExplosions(fields, path, segments) == []
    decreases fields, 0
  {
    if fields != [] {
      var last := fields[|fields| - 1];
      NoExplosionsInFields(fields[..|fields| - 1], path, segments);
      NoArraysNoExplosions(last.dtype, JoinPath(path, last.name), segments + [last.name]);
    }
  }

  /** The explosions of a table are its array fields, in order. */
  ghost predicate DirectArrays(fields: seq<Field>, path: string, children: seq<Explosion>) {
    && (forall e :: e in children ==>
          exists i :: 0 <= i < |fields| && fields[i].dtype.ArrayType?
                      && e == Explosion(fields[i].name, JoinPath(path, fields[i].name)))
    && forall i, j :: 0 <= i < j < |children| ==> children[i].accessor != children[j].accessor
  }

  lemma {:induction false} ExplosionsAreDirect(fields: seq<Field>, path: string)
    requires GoodFieldNames(fields)
    requires forall i :: 0 <= i < |fields| ==> fields[i].dtype.ArrayType? || NoArrays(fields[i].dtype)
    ensures DirectArrays(fields, path, FieldExplosions(fields, path, []))
  {
    if fields != [] {
      var n := |fields| - 1;
      var init, last := fields[..n], fields[n];
      GoodPrefix(fields);
      ExplosionsAreDirect(init, path);
      var before := FieldExplosions(init, path, []);
      if last.dtype.ArrayType? {
        assert [] + [last.name] == [last.name];
        forall e | e in before
          ensures e.accessor != last.name
        {
          var i :| 0 <= i < |init| && e == Explosion(init[i].name, JoinPath(path, init[i].name));
          assert Sanitize(fields[i].name) != Sanitize(fields[n].name);
        }
        AppendDirect(fields, path, before);
      } else {
        NoArraysNoExplosions(last.dtype, JoinPath(path, last.name), [] + [last.name]);
        forall e | e in before
          ensures exists i :: 0 <= i < |fields| && fields[i].dtype.ArrayType?
                              && e == Explosion(fields[i].name, JoinPath(path, fields[i].name))
        {
          var i :| 0 <= i < |init| && init[i].dtype.ArrayType?
                 && e == Explosion(init[i].name, JoinPath(path, init[i].name));
          assert fields[i] == init[i];
        }
      }
    }
  }

  lemma AppendDirect(fields: seq<Field>, path: string, before: seq<Explosion>)
    requires fields != [] && fields[|fields| - 1].dtype.ArrayType?
    requires DirectArrays(fields[..|fields| - 1], path, before)
    requires forall e :: e in before ==> e.accessor != fields[|fields| - 1].name
    ensures var last := fields[|fields| - 1];
            DirectArrays(fields, path, before + [Explosion(last.name, JoinPath(path, last.name))])
  {
    var init, last := fields[..|fields| - 1], fields[|fields| - 1];
    forall e | e in before
      ensures exists i :: 0 <= i < |fields| && fields[i].dtype.ArrayType?
                          && e == Explosion(fields[i].name, JoinPath(path, fields[i].name))
    {
      var i :| 0 <= i < |init| && init[i].dtype.ArrayType?
                 && e == Explosion(init[i].name, JoinPath(path, init[i].name));
      assert fields[i] == init[i];
    }
  }

  lemma SplitNameHead(s: string)
    requires SplitName(s)[0] != []
    ensures s != [] && s[0] == SplitName(s)[0][0]
  {
  }

  lemma TidyTable(table: PlannedTable, fields: seq<Field>)
    requires GoodFieldNames(fields) && Supported(fields, table.logicalPath)
    requires table.columns == FieldColumns(fields, table.logicalPath, [])
    requires table.children == FieldExplosions(fields, table.logicalPath, [])
    ensures Tidy(table)
  {
    FieldColumnsAreApart(fields, table.logicalPath, []);
    ExplosionsAreDirect(fields, table.logicalPath);
    forall c | c in table.columns
      ensures !Reserved(c.physicalName)
    {
      var i := ColumnOfField(fields, table.logicalPath, [], c);
      BelongsField(table.logicalPath, [], fields[i].name, c);
      SanitizeIsClean(fields[i].name);
      SplitNameHead(c.physicalName);
    }
  }

  lemma TidyValueTable(table: PlannedTable, element: DataType)
    requires !element.StructType?
    requires table.columns == ElementColumns(element, table.logicalPath) && table.children == []
    ensures Tidy(table)
  {
    assert VALUE[0] == 'v';
  }

  // The readers find what the execution wrote.

  lemma {:induction false} CountRange(rows: seq<Row>, parentId: Value, lo: nat, n: nat, m: nat)
    requires lo + n <= |rows| && m <= |rows|
    requires forall j :: 0 <= j < |rows| ==> (Get(Obj(rows[j]), PARENT_ROW_ID) == parentId <==> lo <= j < lo + n)
    ensures CountOf(rows[..m], parentId) == if m <= lo then 0 else if m <= lo + n then m - lo else n
  {
    if m > 0 {
      CountRange(rows, parentId, lo, n, m - 1);
      assert rows[..m][..m - 1] == rows[..m - 1];
    }
  }

  lemma {:induction false} RowForIs(rows: seq<Row>, parentId: Value, k: nat, j: nat)
    requires j < |rows| && Matches(rows[j], parentId, k)
    requires forall i :: 0 <= i < |rows| && Matches(rows[i], parentId, k) ==> i == j
    ensures RowFor(rows, parentId, k) == rows[j]
  {
    if j > 0 {
      RowForIs(rows[1..], parentId, k, j - 1);
    }
  }

  /** Counting the rows under one parent gives back the length of the array. */
  lemma ReadLength(parentRows: seq<Row>, table: PlannedTable, accessor: string, c: nat, uuids: Uuids, i: nat)
    requires Tidy(table) && IdsApart(parentRows) && i < |parentRows|
    ensures CountOf(ChildRows(parentRows, table, accessor, c, uuids), IdOf(parentRows[i]))
         == |ItemsOf(parentRows[i], accessor)|
  {
    var rows, id := ChildRows(parentRows, table, accessor, c, uuids), IdOf(parentRows[i]);
    var blocks := Blocks(parentRows, table, accessor);
    BareIsFlat(parentRows, table, accessor);
    BlockFits(blocks, i);
    forall j | 0 <= j < |rows|
      ensures Get(Obj(rows[j]), PARENT_ROW_ID) == id <==> Offset(blocks, i) <= j < Offset(blocks, i) + |blocks[i]|
    {
      ParentOfRow(parentRows, table, accessor, c, uuids, i, j);
    }
    CountRange(rows, id, Offset(blocks, i), |blocks[i]|, |rows|);
    assert rows[..|rows|] == rows;
  }

  lemma ParentOfRow(parentRows: seq<Row>, table: PlannedTable, accessor: string, c: nat, uuids: Uuids, i: nat, j: nat)
    requires Tidy(table) && IdsApart(parentRows) && i < |parentRows|
    requires j < |ChildRows(parentRows, table, accessor, c, uuids)|
    ensures var blocks := Blocks(parentRows, table, accessor);
            Get(Obj(ChildRows(parentRows, table, accessor, c, uuids)[j]), PARENT_ROW_ID) == IdOf(parentRows[i])
            <==> Offset(blocks, i) <= j < Offset(blocks, i) + |blocks[i]|
  {
    var i', k := ChildRowFrom(parentRows, table, accessor, c, uuids, j);
    BlockIsUnique(Blocks(parentRows, table, accessor), i, i', k);
    SameId(parentRows, i, i');
  }

  lemma SameId(rows: seq<Row>, i: nat, j: nat)
    requires IdsApart(rows) && i < |rows| && j < |rows|
    ensures IdOf(rows[i]) == IdOf(rows[j]) <==> i == j
  {
  }

  lemma ReadItem(parentRows: seq<Row>, table: PlannedTable, accessor: string, c: nat, uuids: Uuids, i: nat, k: nat)
    returns (j: nat)
    requires Tidy(table) && IdsApart(parentRows) && i < |parentRows| && k < |ItemsOf(parentRows[i], accessor)|
    ensures var rows := ChildRows(parentRows, table, accessor, c, uuids);
            && j < |rows| && RowFor(rows, IdOf(parentRows[i]), k) == rows[j]
            && RowHolds(rows[j], table, ItemsOf(parentRows[i], accessor)[k], true)
  {
    var rows := ChildRows(parentRows, table, accessor, c, uuids);
    j := ChildRowAt(parentRows, table, accessor, c, uuids, i, k);
    forall j' | 0 <= j' < |rows| && Matches(rows[j'], IdOf(parentRows[i]), k)
      ensures j' == j
    {
      MatchIsUnique(parentRows, table, accessor, c, uuids, i, k, j');
    }
    RowForIs(rows, IdOf(parentRows[i]), k, j);
  }

  lemma ChildIdsApart(parentRows: seq<Row>, table: PlannedTable, accessor: string, c: nat, uuids: Uuids)
    requires Tidy(table) && DistinctIds(uuids)
    ensures IdsApart(ChildRows(parentRows, table, accessor, c, uuids))
  {
    var rows := ChildRows(parentRows, table, accessor, c, uuids);
    forall j: nat | j < |rows|
      ensures IdOf(rows[j]) == Str(uuids(c, j))
    {
      var i, k := ChildRowFrom(parentRows, table, accessor, c, uuids, j);
      var j' := ChildRowAt(parentRows, table, accessor, c, uuids, i, k);
    }
  }

  lemma RootIdsApart(docs: seq<Value>, table: PlannedTable, t: nat, uuids: Uuids)
    requires Tidy(table) && DistinctIds(uuids)
    ensures IdsApart(RootRows(docs, table, t, uuids))
  {
    forall i | 0 <= i < |docs|
      ensures IdOf(RootRows(docs, table, t, uuids)[i]) == Str(uuids(t, i))
    {
      RootRowHolds(docs, table, t, uuids, i);
    }
  }

  lemma {:induction false} PhysicalIs(columns: seq<Column>, c: Column)
    requires ColumnsApart(columns) && c in columns
    ensures PhysicalAt(columns, c.logicalPath) == c.physicalName
  {
    if columns[0] != c {
      assert columns == [columns[0]] + columns[1..];
      var k :| 1 <= k < |columns| && columns[k] == c;
      PhysicalIs(columns[1..], c);
    }
  }

  lemma {:induction false} TableIsAt(tables: seq<PlannedTable>, i: nat)
    requires PathsApart(tables) && i < |tables|
    ensures TableAt(tables, tables[i].logicalPath) == i
  {
    if i > 0 {
      assert tables[0].logicalPath != tables[i].logicalPath;
      TableIsAt(tables[1..], i - 1);
    }
  }

  // The theorem.

  /** Row `j` of table `t` holds `v`. */
  ghost predicate Holds(tables: seq<PlannedTable>, docs: seq<Value>, uuids: Uuids, t: nat, j: nat, v: Value)
    requires WellFormed(tables) && t < |tables|
  {
    && Tidy(tables[t]) && IdsApart(TableRows(tables, docs, uuids, t))
    && j < |TableRows(tables, docs, uuids, t)|
    && RowHolds(TableRows(tables, docs, uuids, t)[j], tables[t], v, tables[t].parentName.Some?)
  }

  lemma SuffixOfJoin(path: string, a: string, b: string)
    requires JoinPath(path, a) == JoinPath(path, b)
    ensures a == b
  {
    assert JoinPath(path, a)[|path| + 1..] == a && JoinPath(path, b)[|path| + 1..] == b;
  }

  /** The rows of the table of an array are the child rows of the rows it was exploded from. */
  lemma RowsOfChild(tables: seq<PlannedTable>, docs: seq<Value>, uuids: Uuids, t: nat, c: nat, element: DataType,
                    name: string)
    requires WellFormed(tables) && t < |tables| && Tidy(tables[t])
    requires ChildTable(tables, t, c, element, JoinPath(tables[t].logicalPath, name))
    requires Explosion(name, JoinPath(tables[t].logicalPath, name)) in tables[t].children
    ensures TableRows(tables, docs, uuids, c) == ChildRows(TableRows(tables, docs, uuids, t), tables[c], name, c, uuids)
  {
    assert HasParent(tables, c, t) && IsChild(tables, c);
    var p := ParentOf(tables, c);
    assert p == t;
    var e := ExplosionTo(tables[t].children, tables[c].logicalPath);
    SuffixOfJoin(tables[t].logicalPath, e.accessor, name);
  }

  lemma TidyElement(tables: seq<PlannedTable>, t: nat, c: nat, element: DataType, path: string)
    requires ChildTable(tables, t, c, element, path) && GoodNames(element) && SupportedElement(element, path)
    ensures Tidy(tables[c])
  {
    if element.StructType? {
      TidyTable(tables[c], element.fields);
    } else {
      TidyValueTable(tables[c], element);
    }
  }

  lemma FollowSnoc(v: Value, segments: seq<string>, name: string)
    ensures Follow(v, segments + [name]) == Get(Follow(v, segments), name)
    decreases |segments|
  {
    if segments == [] {
      assert segments + [name] == [name];
      assert Follow(Get(v, name), [][..]) == Get(v, name);
    } else {
      FollowSnoc(Get(v, segments[0]), segments[1..], name);
      assert (segments + [name])[1..] == segments[1..] + [name];
    }
  }

  /** Where a field may stand: directly in its table, or deeper with no array below it. */
  ghost predicate Placed(table: PlannedTable, dtype: DataType, path: string, segments: seq<string>) {
    && segments != [] && (forall p :: p in segments ==> '.' !in p)
    && (NoArrays(dtype)
        || (|segments| == 1 && path == JoinPath(table.logicalPath, segments[0]) && SupportedField(dtype, path)))
    && (table.parentName.Some? && IsLeaf(dtype) ==> segments != [VALUE])
  }

  // Reading needs only three things of the tables: what a row holds, and that the rows under it hold
  // the items of its arrays. `means(t, row, v)` says that `row` is a row of table `t` that holds `v`.

  ghost predicate RowsMean(tables: seq<PlannedTable>, means: (nat, Row, Value) -> bool) {
    forall t: nat, row, v :: means(t, row, v) ==>
      t < |tables| && Tidy(tables[t]) && RowHolds(row, tables[t], v, tables[t].parentName.Some?)
  }

  ghost predicate ItemsMean(rows: seq<Row>, means: (nat, Row, Value) -> bool, c: nat, id: Value, items: seq<Value>) {
    CountOf(rows, id) == |items| && forall k: nat :: k < |items| ==> means(c, RowFor(rows, id, k), items[k])
  }

  ghost predicate ChildrenMean(tables: seq<PlannedTable>, result: map<string, seq<Row>>,
                               means: (nat, Row, Value) -> bool)
  {
    forall t: nat, row, v, c: nat, element, name :: means(t, row, v) && IsArrayOf(tables, t, c, element, name) ==>
      ItemsMean(RowsNamed(result, tables[c].physicalName), means, c, IdOf(row), Items(Get(v, name)))
  }

  /** Table `c` is the table of the array field `name` of table `t`. */
  ghost predicate IsArrayOf(tables: seq<PlannedTable>, t: nat, c: nat, element: DataType, name: string) {
    && t < |tables| && ChildTable(tables, t, c, element, JoinPath(tables[t].logicalPath, name)) && Tidy(tables[c])
    && Explosion(name, JoinPath(tables[t].logicalPath, name)) in tables[t].children
  }

  ghost predicate Readable(tables: seq<PlannedTable>, result: map<string, seq<Row>>, means: (nat, Row, Value) -> bool) {
    PathsApart(tables) && RowsMean(tables, means) && ChildrenMean(tables, result, means)
  }

  lemma LeafIsRead(tables: seq<PlannedTable>, result: map<string, seq<Row>>, t: nat, row: Row, v: Value,
                   dtype: DataType, path: string, segments: seq<string>)
    requires t < |tables| && Tidy(tables[t]) && RowHolds(row, tables[t], v, tables[t].parentName.Some?)
    requires IsLeaf(dtype) && Fits(tables, t, dtype, path, segments) && Placed(tables[t], dtype, path, segments)
    ensures Rebuild(tables, result, t, row, dtype, path) == Follow(v, segments)
  {
    var c := Column(path, ColumnName(segments), Join(segments, "."));
    PhysicalIs(tables[t].columns, c);
    SplitJoin(segments);
    if tables[t].parentName.Some? && c.accessor == VALUE {
      SplitFirstDot(VALUE, "");
    }
  }

  lemma {:induction false} TypeIsRead(tables: seq<PlannedTable>, result: map<string, seq<Row>>,
                                      means: (nat, Row, Value) -> bool, t: nat, row: Row, v: Value,
                                      dtype: DataType, path: string, segments: seq<string>)
    requires Readable(tables, result, means) && t < |tables| && means(t, row, v)
    requires GoodNames(dtype) && Fits(tables, t, dtype, path, segments) && Placed(tables[t], dtype, path, segments)
    ensures Rebuild(tables, result, t, row, dtype, path) == Norm(dtype, Follow(v, segments))
    decreases dtype, 1
  {
    match dtype
    case StructType(fields) =>
      FieldsAreRead(tables, result, means, t, row, v, fields, path, segments);
    case ArrayType(element) =>
      ArrayIsRead(tables, result, means, t, row, v, element, path, segments[0]);
      assert Follow(v, segments) == Get(v, segments[0]);
    case _ =>
      LeafIsRead(tables, result, t, row, v, dtype, path, segments);
  }

  lemma {:induction false} FieldsAreRead(tables: seq<PlannedTable>, result: map<string, seq<Row>>,
                                         means: (nat, Row, Value) -> bool, t: nat, row: Row, v: Value,
                                         fields: seq<Field>, path: string, segments: seq<string>)
    requires Readable(tables, result, means) && t < |tables| && means(t, row, v)
    requires GoodFieldNames(fields) && FieldsFit(tables, t, fields, path, segments)
    requires forall i :: 0 <= i < |fields| ==>
               Placed(tables[t], fields[i].dtype, JoinPath(path, fields[i].name), segments + [fields[i].name])
    ensures RebuildFields(tables, result, t, row, fields, path) == NormFields(fields, Follow(v, segments))
    decreases fields, 0
  {
    if fields != [] {
      var n := |fields| - 1;
      var init, last := fields[..n], fields[n];
      GoodPrefix(fields);
      assert forall i :: 0 <= i < n ==> init[i] == fields[i];
      FieldsAreRead(tables, result, means, t, row, v, init, path, segments);
      TypeIsRead(tables, result, means, t, row, v, last.dtype, JoinPath(path, last.name), segments + [last.name]);
      FollowSnoc(v, segments, last.name);
    }
  }

  lemma {:induction false} ArrayIsRead(tables: seq<PlannedTable>, result: map<string, seq<Row>>,
                                       means: (nat, Row, Value) -> bool, t: nat, row: Row, v: Value,
                                       element: DataType, path: string, name: string)
    requires Readable(tables, result, means) && t < |tables| && means(t, row, v)
    requires GoodNames(element) && SupportedElement(element, path)
    requires path == JoinPath(tables[t].logicalPath, name)
    requires Fits(tables, t, ArrayType(element), path, [name])
    ensures Rebuild(tables, result, t, row, ArrayType(element), path) == Norm(ArrayType(element), Get(v, name))
    decreases element, 3
  {
    var c: nat :| ElementFits(tables, t, c, element, path);
    TableIsAt(tables, c);
    TidyElement(tables, t, c, element, path);
    assert IsArrayOf(tables, t, c, element, name);
    ItemsAreRead(tables, result, means, t, c, IdOf(row), Items(Get(v, name)), element, path);
  }

  lemma {:induction false} ItemsAreRead(tables: seq<PlannedTable>, result: map<string, seq<Row>>,
                                        means: (nat, Row, Value) -> bool, t: nat, c: nat, id: Value, items: seq<Value>,
                                        element: DataType, path: string)
    requires Readable(tables, result, means) && ElementFits(tables, t, c, element, path)
    requires GoodNames(element) && SupportedElement(element, path)
    requires ItemsMean(RowsNamed(result, tables[c].physicalName), means, c, id, items)
    ensures RebuildItems(tables, result, c, RowsNamed(result, tables[c].physicalName), id, element, path)
         == seq(|items|, k requires 0 <= k < |items| => NormItem(element, items[k]))
    decreases element, 2, 1
  {
    var rows := RowsNamed(result, tables[c].physicalName);
    forall k: nat | k < |items|
      ensures RebuildItem(tables, result, c, RowFor(rows, id, k), element, path) == NormItem(element, items[k])
    {
      ItemIsRead(tables, result, means, t, c, RowFor(rows, id, k), items[k], element, path);
    }
  }

  lemma {:induction false} ItemIsRead(tables: seq<PlannedTable>, result: map<string, seq<Row>>,
                                      means: (nat, Row, Value) -> bool, t: nat, c: nat, row: Row, item: Value,
                                      element: DataType, path: string)
    requires Readable(tables, result, means) && ElementFits(tables, t, c, element, path) && means(c, row, item)
    requires GoodNames(element) && SupportedElement(element, path)
    ensures RebuildItem(tables, result, c, row, element, path) == NormItem(element, item)
    decreases element, 2, 0
  {
    if element.StructType? {
      FieldsArePlaced(tables[c], element.fields, path);
      FieldsAreRead(tables, result, means, c, row, item, element.fields, path, []);
    } else {
      var column := Column(JoinPath(path, VALUE), VALUE, VALUE);
      assert column in tables[c].columns;
      PhysicalIs(tables[c].columns, column);
    }
  }

  lemma FieldsArePlaced(table: PlannedTable, fields: seq<Field>, path: string)
    requires GoodFieldNames(fields) && Supported(fields, path) && table.logicalPath == path
    requires table.parentName.Some? ==>
               forall i :: 0 <= i < |fields| && IsLeaf(fields[i].dtype) ==> fields[i].name != VALUE
    ensures forall i :: 0 <= i < |fields| ==>
              Placed(table, fields[i].dtype, JoinPath(path, fields[i].name), [] + [fields[i].name])
  {
  }

  // The execution provides those three things.

  ghost predicate HoldsSomewhere(tables: seq<PlannedTable>, docs: seq<Value>, uuids: Uuids, t: nat, row: Row, v: Value)
    requires WellFormed(tables)
  {
    && t < |tables|
    && exists j: nat :: Holds(tables, docs, uuids, t, j, v) && row == TableRows(tables, docs, uuids, t)[j]
  }

  lemma ArrayColumn(tables: seq<PlannedTable>, docs: seq<Value>, uuids: Uuids, t: nat, j: nat, v: Value, name: string)
    requires WellFormed(tables) && t < |tables| && Holds(tables, docs, uuids, t, j, v)
    requires Explosion(name, JoinPath(tables[t].logicalPath, name)) in tables[t].children
    ensures ItemsOf(TableRows(tables, docs, uuids, t)[j], name) == Items(Get(v, name))
  {
    var e := Explosion(name, JoinPath(tables[t].logicalPath, name));
    assert '.' !in e.accessor;
    ResolvePlain(Obj(TableRows(tables, docs, uuids, t)[j]), name);
  }

  /** Under a row of table `t` the child table holds the items of the array, one row each. */
  lemma ChildHolds(tables: seq<PlannedTable>, docs: seq<Value>, uuids: Uuids, t: nat, j: nat, v: Value,
                   c: nat, element: DataType, name: string, means: (nat, Row, Value) -> bool)
    requires WellFormed(tables) && DistinctIds(uuids) && t < |tables| && Holds(tables, docs, uuids, t, j, v)
    requires IsArrayOf(tables, t, c, element, name)
    requires forall t: nat, row, v :: means(t, row, v) <==> HoldsSomewhere(tables, docs, uuids, t, row, v)
    ensures ItemsMean(TableRows(tables, docs, uuids, c), means, c, IdOf(TableRows(tables, docs, uuids, t)[j]),
                      Items(Get(v, name)))
  {
    var parents := TableRows(tables, docs, uuids, t);
    RowsOfChild(tables, docs, uuids, t, c, element, name);
    ArrayColumn(tables, docs, uuids, t, j, v, name);
    ReadLength(parents, tables[c], name, c, uuids, j);
    ChildIdsApart(parents, tables[c], name, c, uuids);
    forall k: nat | k < |Items(Get(v, name))|
      ensures HoldsSomewhere(tables, docs, uuids, c, RowFor(TableRows(tables, docs, uuids, c), IdOf(parents[j]), k),
                             Items(Get(v, name))[k])
    {
      var at := ReadItem(parents, tables[c], name, c, uuids, j, k);
      assert Holds(tables, docs, uuids, c, at, Items(Get(v, name))[k]);
    }
  }

  lemma ExecutionIsReadable(tables: seq<PlannedTable>, docs: seq<Value>, uuids: Uuids, result: map<string, seq<Row>>,
                            means: (nat, Row, Value) -> bool)
    requires WellFormed(tables) && PathsApart(tables) && DistinctIds(uuids)
    requires Built(tables, docs, uuids, |tables|, result)
    requires forall t: nat, row, v :: means(t, row, v) <==> HoldsSomewhere(tables, docs, uuids, t, row, v)
    ensures Readable(tables, result, means)
  {
    forall t: nat, row, v, c: nat, element, name | means(t, row, v) && IsArrayOf(tables, t, c, element, name)
      ensures ItemsMean(RowsNamed(result, tables[c].physicalName), means, c, IdOf(row), Items(Get(v, name)))
    {
      var j: nat :| Holds(tables, docs, uuids, t, j, v) && row == TableRows(tables, docs, uuids, t)[j];
      assert BuiltTable(tables, docs, uuids, c, result);
      ChildHolds(tables, docs, uuids, t, j, v, c, element, name, means);
    }
  }

  /**
   * Relationalization loses nothing. For every schema with usable names whose arrays sit directly in
   * the object of their table, every run of the plan over any documents, and any distinct row ids:
   * reading the root rows back, joining child rows by parent id and ordering them by array index,
   * gives every document in normal form, at any nesting depth.
   */
  lemma NothingIsLost(naming: Naming, entity: string, fields: seq<Field>, docs: seq<Value>, uuids: Uuids,
                      result: map<string, seq<Row>>, i: nat)
    requires GoodFieldNames(fields) && Supported(fields, "$") && DistinctIds(uuids) && i < |docs|
    requires PlanOf(naming, entity, fields).Planned?
    ensures var tables := PlanOf(naming, entity, fields).tables;
            && WellFormed(tables) && tables != []
            && (Built(tables, docs, uuids, |tables|, result) ==> ReadsBack(tables, fields, docs, result, i))
  {
    PlanIsTree(naming, entity, fields);
    var tables := PlanOf(naming, entity, fields).tables;
    if Built(tables, docs, uuids, |tables|, result) {
      TreeIsRead(tables, fields, docs, uuids, result, i);
    }
  }

  /** Row `i` of the root table, read back through all tables, is document `i` in normal form. */
  ghost predicate ReadsBack(tables: seq<PlannedTable>, fields: seq<Field>, docs: seq<Value>,
                            result: map<string, seq<Row>>, i: nat)
    requires tables != [] && i < |docs|
  {
    var root := RowsNamed(result, tables[0].physicalName);
    && |root| == |docs|
    && Obj(RebuildFields(tables, result, 0, root[i], fields, "$")) == Norm(StructType(fields), docs[i])
  }

  lemma TreeIsRead(tables: seq<PlannedTable>, fields: seq<Field>, docs: seq<Value>, uuids: Uuids,
                   result: map<string, seq<Row>>, i: nat)
    requires GoodFieldNames(fields) && Supported(fields, "$") && DistinctIds(uuids) && i < |docs|
    requires IsTree(tables, fields) && Built(tables, docs, uuids, |tables|, result)
    ensures ReadsBack(tables, fields, docs, result, i)
  {
    var means := (t: nat, row: Row, v: Value) => HoldsSomewhere(tables, docs, uuids, t, row, v);
    var root := TableRows(tables, docs, uuids, 0);
    RootHolds(tables, fields, docs, uuids, i);
    assert BuiltTable(tables, docs, uuids, 0, result);
    assert means(0, root[i], docs[i]);
    ExecutionIsReadable(tables, docs, uuids, result, means);
    FieldsArePlaced(tables[0], fields, "$");
    FieldsAreRead(tables, result, means, 0, root[i], docs[i], fields, "$", []);
  }

  lemma RootHolds(tables: seq<PlannedTable>, fields: seq<Field>, docs: seq<Value>, uuids: Uuids, i: nat)
    requires GoodFieldNames(fields) && Supported(fields, "$") && IsTree(tables, fields)
    requires DistinctIds(uuids) && i < |docs|
    ensures |TableRows(tables, docs, uuids, 0)| == |docs|
    ensures HoldsSomewhere(tables, docs, uuids, 0, TableRows(tables, docs, uuids, 0)[i], docs[i])
  {
    TidyTable(tables[0], fields);
    RootRowHolds(docs, tables[0], 0, uuids, i);
    RootIdsApart(docs, tables[0], 0, uuids);
    assert Holds(tables, docs, uuids, 0, i, docs[i]);
  }

  // What the normal form keeps.

  /** A document that has every field, with no null object and no null array. */
  ghost predicate Canonical(dtype: DataType, v: Value)
    decreases dtype, 1
  {
    match dtype
    case StructType(fields) => v.Obj? && CanonicalFields(fields, v)
    case ArrayType(element) => v.Arr? && forall k :: 0 <= k < |v.items| ==> CanonicalItem(element, v.items[k])
    case _ => true
  }

  ghost predicate CanonicalItem(element: DataType, v: Value)
    decreases element, 2
  {
    element.StructType? ==> v.Obj? && CanonicalFields(element.fields, v)
  }

  ghost predicate CanonicalFields(fields: seq<Field>, v: Value)
    requires v.Obj?
    decreases fields, 0
  {
    && (forall n :: n in v.fields <==> exists i :: 0 <= i < |fields| && fields[i].name == n)
    && forall i :: 0 <= i < |fields| ==> Canonical(fields[i].dtype, Get(v, fields[i].name))
  }

  lemma {:induction false} NormAt(fields: seq<Field>, v: Value, n: string)
    requires GoodFieldNames(fields)
    ensures n in NormFields(fields, v) <==> exists i :: 0 <= i < |fields| && fields[i].name == n
    ensures forall i :: 0 <= i < |fields| && fields[i].name == n ==>
              n in NormFields(fields, v) && NormFields(fields, v)[n] == Norm(fields[i].dtype, Get(v, n))
  {
    if fields != [] {
      var init, last := fields[..|fields| - 1], fields[|fields| - 1];
      GoodPrefix(fields);
      NormAt(init, v, n);
      LastNameIsNew(fields);
      assert NormFields(fields, v) == NormFields(init, v)[last.name := Norm(last.dtype, Get(v, last.name))];
    }
  }

  lemma LastNameIsNew(fields: seq<Field>)
    requires fields != [] && GoodFieldNames(fields)
    ensures forall i :: 0 <= i < |fields| - 1 ==> fields[..|fields| - 1][i] == fields[i]
                                                  && fields[i].name != fields[|fields| - 1].name
  {
    forall i | 0 <= i < |fields| - 1
      ensures fields[i].name != fields[|fields| - 1].name
    {
      assert Sanitize(fields[i].name) != Sanitize(fields[|fields| - 1].name);
    }
  }

  /** On canonical documents the normal form is the document itself: the round trip is exact. */
  lemma {:induction false} NormKeepsCanonical(dtype: DataType, v: Value)
    requires GoodNames(dtype) && Canonical(dtype, v)
    ensures Norm(dtype, v) == v
    decreases dtype, 1
  {
    match dtype
    case StructType(fields) => NormKeepsFields(fields, v);
    case ArrayType(element) =>
      forall k | 0 <= k < |v.items|
        ensures NormItem(element, v.items[k]) == v.items[k]
      {
        assert CanonicalItem(element, v.items[k]);
        if element.StructType? {
          NormKeepsFields(element.fields, v.items[k]);
        }
      }
    case _ =>
  }

  lemma {:induction false} NormKeepsFields(fields: seq<Field>, v: Value)
    requires GoodFieldNames(fields) && v.Obj? && CanonicalFields(fields, v)
    ensures NormFields(fields, v) == v.fields
    decreases fields, 0
  {
    forall n
      ensures n in NormFields(fields, v) <==> n in v.fields
      ensures n in v.fields ==> NormFields(fields, v)[n] == v.fields[n]
    {
      NormAt(fields, v, n);
      if n in v.fields {
        var i :| 0 <= i < |fields| && fields[i].name == n;
        NormKeepsCanonical(fields[i].dtype, Get(v, n));
      }
    }
  }
}

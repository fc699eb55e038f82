/** The columns of one table, told by the field names on the way to each, and when two of them clash. */
module Columns {
  import opened Seqs
  import opened Text
  import opened Identifiers
  import opened Planner

  // Name lists.

  /** The field names on the way to each column of a type, in order. */
  function LeavesIn(dtype: DataType): seq<seq<string>>
    decreases dtype, 1
  {
    match dtype
    case StructType(fields) => FieldLeaves(fields)
    case ArrayType(_) => []
    case _ => [[]]
  }

  function FieldLeaves(fields: seq<Field>): seq<seq<string>>
    decreases fields, 0
  {
    if fields == [] then []
    else
      var last := fields[|fields| - 1];
      FieldLeaves(fields[..|fields| - 1]) + Led(last.name, LeavesIn(last.dtype))
  }

  function Led(name: string, leaves: seq<seq<string>>): seq<seq<string>> {
    seq(|leaves|, i requires 0 <= i < |leaves| => [name] + leaves[i])
  }

  /** The column of a name list below `path`, in a table that leads to that place by `segments`. */
  function ColumnOf(path: string, segments: seq<string>, leaf: seq<string>): Column {
    Column(if leaf == [] then path else JoinPath(path, Join(leaf, ".")),
           ColumnName(segments + leaf), Join(segments + leaf, "."))
  }

  function ColumnsOf(path: string, segments: seq<string>, leaves: seq<seq<string>>): seq<Column> {
    seq(|leaves|, i requires 0 <= i < |leaves| => ColumnOf(path, segments, leaves[i]))
  }

  lemma ColumnOfLed(path: string, segments: seq<string>, name: string, leaf: seq<string>)
    ensures ColumnOf(JoinPath(path, name), segments + [name], leaf) == ColumnOf(path, segments, [name] + leaf)
  {
    assert segments + [name] + leaf == segments + ([name] + leaf);
    assert ([name] + leaf)[1..] == leaf;
    if leaf != [] {
      var rest := Join(leaf, ".");
      assert path + "." + name + "." + rest == path + "." + (name + "." + rest);
    }
  }

  lemma {:induction false} TypeColumnsAreLeaves(dtype: DataType, path: string, segments: seq<string>)
    ensures ColumnsIn(dtype, path, segments) == ColumnsOf(path, segments, LeavesIn(dtype))
    decreases dtype, 1
  {
    match dtype
    case StructType(fields) => ColumnsAreLeaves(fields, path, segments);
    case ArrayType(_) =>
    case _ => assert segments + [] == segments;
  }

  /** The columns of an object are those of its name lists: the path, the name and the accessor of each. */
  lemma {:induction false} ColumnsAreLeaves(fields: seq<Field>, path: string, segments: seq<string>)
    ensures FieldColumns(fields, path, segments) == ColumnsOf(path, segments, FieldLeaves(fields))
    decreases fields, 0
  {
    if fields != [] {
      var init, last := fields[..|fields| - 1], fields[|fields| - 1];
      var leaves := LeavesIn(last.dtype);
      ColumnsAreLeaves(init, path, segments);
      TypeColumnsAreLeaves(last.dtype, JoinPath(path, last.name), segments + [last.name]);
      LedColumns(path, segments, last.name, leaves);
      ColumnsOfBoth(path, segments, FieldLeaves(init), Led(last.name, leaves));
    }
  }

  lemma LedColumns(path: string, segments: seq<string>, name: string, leaves: seq<seq<string>>)
    ensures ColumnsOf(JoinPath(path, name), segments + [name], leaves) == ColumnsOf(path, segments, Led(name, leaves))
  {
    forall i | 0 <= i < |leaves|
      ensures ColumnOf(JoinPath(path, name), segments + [name], leaves[i])
           == ColumnOf(path, segments, [name] + leaves[i])
    {
      ColumnOfLed(path, segments, name, leaves[i]);
    }
  }

  lemma ColumnsOfBoth(path: string, segments: seq<string>, a: seq<seq<string>>, b: seq<seq<string>>)
    ensures ColumnsOf(path, segments, a + b) == ColumnsOf(path, segments, a) + ColumnsOf(path, segments, b)
  {
  }

  /** Every name list starts with the name of a field. */
  lemma {:induction false} LeafOfField(fields: seq<Field>, leaf: seq<string>) returns (k: nat)
    requires leaf in FieldLeaves(fields)
    ensures k < |fields| && leaf != [] && leaf[0] == fields[k].name && leaf[1..] in LeavesIn(fields[k].dtype)
    decreases fields, 0
  {
    var init, last := fields[..|fields| - 1], fields[|fields| - 1];
    if leaf in FieldLeaves(init) {
      k := LeafOfField(init, leaf);
    } else {
      k := |fields| - 1;
      var led := Led(last.name, LeavesIn(last.dtype));
      var i :| 0 <= i < |led| && led[i] == leaf;
      assert leaf[1..] == LeavesIn(last.dtype)[i];
    }
  }

  // Two columns.

  lemma SamePathIff(path: string, segments: seq<string>, a: seq<string>, b: seq<string>)
    requires a != [] && b != []
    ensures ColumnOf(path, segments, a).logicalPath == ColumnOf(path, segments, b).logicalPath
      <==> Join(a, ".") == Join(b, ".")
  {
    var n := |path| + 1;
    assert JoinPath(path, Join(a, "."))[n..] == Join(a, ".");
    assert JoinPath(path, Join(b, "."))[n..] == Join(b, ".");
  }

  lemma SameNameIff(path: string, segments: seq<string>, a: seq<string>, b: seq<string>)
    requires a != [] && b != []
    ensures ColumnOf(path, segments, a).physicalName == ColumnOf(path, segments, b).physicalName
      <==> SanitizeAll(a) == SanitizeAll(b)
  {
    SplitUndoesColumnName(segments + a);
    SplitUndoesColumnName(segments + b);
    SanitizeBoth(segments, a);
    SanitizeBoth(segments, b);
    PrefixCancels(SanitizeAll(segments), SanitizeAll(a), SanitizeAll(b));
  }

  lemma SanitizeBoth(a: seq<string>, b: seq<string>)
    ensures SanitizeAll(a + b) == SanitizeAll(a) + SanitizeAll(b)
  {
  }

  lemma PrefixCancels(p: seq<string>, a: seq<string>, b: seq<string>)
    ensures p + a == p + b <==> a == b
  {
    assert (p + a)[|p|..] == a && (p + b)[|p|..] == b;
  }

  /** Two columns with one logical path and two physical names. */
  predicate Conflicts(columns: seq<Column>, i: nat, j: nat) {
    && i < |columns| && j < |columns|
    && columns[i].logicalPath == columns[j].logicalPath && columns[i].physicalName != columns[j].physicalName
  }

  /** Joined by dots, two name lists are the same text. */
  predicate SameText(leaves: seq<seq<string>>, i: nat, j: nat) {
    i < |leaves| && j < |leaves| && Join(leaves[i], ".") == Join(leaves[j], ".")
  }

  /** Two name lists are the same text, and differ when cleaned. */
  predicate Clash(leaves: seq<seq<string>>, i: nat, j: nat) {
    SameText(leaves, i, j) && SanitizeAll(leaves[i]) != SanitizeAll(leaves[j])
  }

  lemma LeavesAreNotEmpty(fields: seq<Field>)
    ensures forall i :: 0 <= i < |FieldLeaves(fields)| ==> FieldLeaves(fields)[i] != []
  {
    forall i | 0 <= i < |FieldLeaves(fields)|
      ensures FieldLeaves(fields)[i] != []
    {
      var k := LeafOfField(fields, FieldLeaves(fields)[i]);
    }
  }

  /** For every schema: two columns of an object conflict exactly when their name lists clash. */
  lemma ConflictsIffClash(fields: seq<Field>, path: string, segments: seq<string>, i: nat, j: nat)
    ensures |FieldColumns(fields, path, segments)| == |FieldLeaves(fields)|
    ensures Conflicts(FieldColumns(fields, path, segments), i, j) <==> Clash(FieldLeaves(fields), i, j)
  {
    var leaves := FieldLeaves(fields);
    ColumnsAreLeaves(fields, path, segments);
    LeavesAreNotEmpty(fields);
    if i < |leaves| && j < |leaves| {
      SamePathIff(path, segments, leaves[i], leaves[j]);
      SameNameIff(path, segments, leaves[i], leaves[j]);
    }
  }

  // Siblings that stay distinct when cleaned, dots or not.

  ghost predicate CleanApart(dtype: DataType)
    decreases dtype, 1
  {
    dtype.StructType? ==> FieldsCleanApart(dtype.fields)
  }

  ghost predicate FieldsCleanApart(fields: seq<Field>)
    decreases fields, 0
  {
    && (forall i :: 0 <= i < |fields| ==> CleanApart(fields[i].dtype))
    && (forall i, j :: 0 <= i < j < |fields| ==> Sanitize(fields[i].name) != Sanitize(fields[j].name))
  }

  ghost predicate CleanedApart(leaves: seq<seq<string>>) {
    forall i, j :: 0 <= i < j < |leaves| ==> SanitizeAll(leaves[i]) != SanitizeAll(leaves[j])
  }

  lemma {:induction false} TypeLeavesApart(dtype: DataType)
    requires CleanApart(dtype)
    ensures CleanedApart(LeavesIn(dtype))
    decreases dtype, 1
  {
    if dtype.StructType? {
      LeavesApart(dtype.fields);
    }
  }

  lemma {:induction false} LeavesApart(fields: seq<Field>)
    requires FieldsCleanApart(fields)
    ensures CleanedApart(FieldLeaves(fields))
    decreases fields, 0
  {
    if fields != [] {
      var init, last := fields[..|fields| - 1], fields[|fields| - 1];
      assert forall i :: 0 <= i < |init| ==> init[i] == fields[i];
      LeavesApart(init);
      TypeLeavesApart(last.dtype);
      LedApart(last.name, LeavesIn(last.dtype));
      forall a, b | a in FieldLeaves(init) && b in Led(last.name, LeavesIn(last.dtype))
        ensures SanitizeAll(a) != SanitizeAll(b)
      {
        var k := LeafOfField(init, a);
        assert SanitizeAll(a)[0] == Sanitize(fields[k].name) && SanitizeAll(b)[0] == Sanitize(last.name);
      }
      ApartTogether(FieldLeaves(init), Led(last.name, LeavesIn(last.dtype)));
    }
  }

  lemma LedApart(name: string, leaves: seq<seq<string>>)
    requires CleanedApart(leaves)
    ensures CleanedApart(Led(name, leaves))
  {
    forall i, j | 0 <= i < j < |leaves|
      ensures SanitizeAll([name] + leaves[i]) != SanitizeAll([name] + leaves[j])
    {
      assert SanitizeAll([name] + leaves[i])[1..] == SanitizeAll(leaves[i]);
      assert SanitizeAll([name] + leaves[j])[1..] == SanitizeAll(leaves[j]);
    }
  }

  lemma ApartTogether(a: seq<seq<string>>, b: seq<seq<string>>)
    requires CleanedApart(a) && CleanedApart(b)
    requires forall x, y :: x in a && y in b ==> SanitizeAll(x) != SanitizeAll(y)
    ensures CleanedApart(a + b)
  {
    forall i, j | 0 <= i < j < |a + b|
      ensures SanitizeAll((a + b)[i]) != SanitizeAll((a + b)[j])
    {
      if i < |a| <= j {
        assert (a + b)[i] in a && (a + b)[j] in b;
      }
    }
  }

  ghost predicate NamesApart(columns: seq<Column>) {
    forall i, j :: 0 <= i < j < |columns| ==> columns[i].physicalName != columns[j].physicalName
  }

  /** When siblings clean to distinct names no two columns share a physical name, dots or not. */
  lemma PhysicalNamesApart(fields: seq<Field>, path: string, segments: seq<string>)
    requires FieldsCleanApart(fields)
    ensures NamesApart(FieldColumns(fields, path, segments))
  {
    var leaves, columns := FieldLeaves(fields), FieldColumns(fields, path, segments);
    ColumnsAreLeaves(fields, path, segments);
    LeavesAreNotEmpty(fields);
    LeavesApart(fields);
    forall i, j | 0 <= i < j < |leaves|
      ensures columns[i].physicalName != columns[j].physicalName
    {
      SameNameIff(path, segments, leaves[i], leaves[j]);
    }
  }

  /** And then two columns conflict exactly when their name lists, joined by dots, are the same text. */
  lemma ConflictsIffSameText(fields: seq<Field>, path: string, segments: seq<string>, i: nat, j: nat)
    requires FieldsCleanApart(fields) && i < j < |FieldLeaves(fields)|
    ensures Conflicts(FieldColumns(fields, path, segments), i, j) <==> SameText(FieldLeaves(fields), i, j)
  {
    ConflictsIffClash(fields, path, segments, i, j);
    LeavesApart(fields);
    ClashIffSameText(FieldLeaves(fields), i, j);
  }

  ghost predicate ColumnsApart(columns: seq<Column>) {
    forall i, j :: 0 <= i < j < |columns| ==>
      columns[i].logicalPath != columns[j].logicalPath && columns[i].physicalName != columns[j].physicalName
  }

  /** Two name lists differ both as text and when cleaned. */
  predicate Differ(a: seq<string>, b: seq<string>) {
    Join(a, ".") != Join(b, ".") && SanitizeAll(a) != SanitizeAll(b)
  }

  lemma DifferIff(path: string, segments: seq<string>, a: seq<string>, b: seq<string>)
    requires a != [] && b != []
    ensures Differ(a, b) <==>
      && ColumnOf(path, segments, a).logicalPath != ColumnOf(path, segments, b).logicalPath
      && ColumnOf(path, segments, a).physicalName != ColumnOf(path, segments, b).physicalName
  {
    SamePathIff(path, segments, a, b);
    SameNameIff(path, segments, a, b);
  }

  /** For every schema: columns are apart exactly when their name lists differ both as text and when cleaned. */
  lemma ColumnsApartIff(fields: seq<Field>, path: string, segments: seq<string>)
    ensures ColumnsApart(FieldColumns(fields, path, segments)) <==>
      forall i, j :: 0 <= i < j < |FieldLeaves(fields)| ==> Differ(FieldLeaves(fields)[i], FieldLeaves(fields)[j])
  {
    ColumnsAreLeaves(fields, path, segments);
    LeavesAreNotEmpty(fields);
    ListsApartIff(path, segments, FieldLeaves(fields));
  }

  lemma ListsApartIff(path: string, segments: seq<string>, leaves: seq<seq<string>>)
    requires forall i :: 0 <= i < |leaves| ==> leaves[i] != []
    ensures ColumnsApart(ColumnsOf(path, segments, leaves)) <==>
      forall i, j :: 0 <= i < j < |leaves| ==> Differ(leaves[i], leaves[j])
  {
    var columns := ColumnsOf(path, segments, leaves);
    forall i, j | 0 <= i < j < |leaves|
      ensures Differ(leaves[i], leaves[j]) <==>
        columns[i].logicalPath != columns[j].logicalPath && columns[i].physicalName != columns[j].physicalName
    {
      DifferIff(path, segments, leaves[i], leaves[j]);
    }
    if ColumnsApart(columns) {
      forall i, j | 0 <= i < j < |leaves|
        ensures Differ(leaves[i], leaves[j])
      {
        assert columns[i].logicalPath != columns[j].logicalPath;
      }
    }
  }

  /** Without dots different name lists are different texts, so columns are apart in both respects. */
  lemma DotFreeColumnsApart(fields: seq<Field>, path: string, segments: seq<string>)
    requires FieldsCleanApart(fields)
    requires forall leaf, name :: leaf in FieldLeaves(fields) && name in leaf ==> '.' !in name
    ensures ColumnsApart(FieldColumns(fields, path, segments))
  {
    var leaves, columns := FieldLeaves(fields), FieldColumns(fields, path, segments);
    PhysicalNamesApart(fields, path, segments);
    ColumnsAreLeaves(fields, path, segments);
    LeavesAreNotEmpty(fields);
    LeavesApart(fields);
    forall i, j | 0 <= i < j < |columns|
      ensures columns[i].logicalPath != columns[j].logicalPath
    {
      SamePathIff(path, segments, leaves[i], leaves[j]);
      assert leaves[i] in leaves && leaves[j] in leaves;
      SplitJoin(leaves[i]);
      SplitJoin(leaves[j]);
    }
  }

  // The guard as it is meant.

  function NameAt(columns: seq<Column>, path: string): Option<string> {
    if columns == [] then None
    else if columns[0].logicalPath == path then Some(columns[0].physicalName)
    else NameAt(columns[1..], path)
  }

  /**
   * Registering the columns in order with a working guard: a path that is there under the same name is
   * passed over, one that is there under another name is refused.
   */
  function Guarded(columns: seq<Column>): Option<seq<Column>> {
    if columns == [] then Some([])
    else
      var c := columns[|columns| - 1];
      match Guarded(columns[..|columns| - 1])
      case None => None
      case Some(kept) =>
        match NameAt(kept, c.logicalPath)
        case None => Some(kept + [c])
        case Some(name) => if name == c.physicalName then Some(kept) else None
  }

  /** The paths and names of some columns. */
  function Pairs(columns: seq<Column>): set<(string, string)> {
    set c | c in columns :: (c.logicalPath, c.physicalName)
  }

  /** No path has two names. */
  ghost predicate Functional(pairs: set<(string, string)>) {
    forall p, q :: p in pairs && q in pairs && p.0 == q.0 ==> p.1 == q.1
  }

  lemma PairsSnoc(columns: seq<Column>, c: Column)
    ensures Pairs(columns + [c]) == Pairs(columns) + {(c.logicalPath, c.physicalName)}
  {
  }

  lemma {:induction false} NameAtIs(columns: seq<Column>, path: string)
    ensures NameAt(columns, path).None? ==> forall p :: p in Pairs(columns) ==> p.0 != path
    ensures NameAt(columns, path).Some? ==> (path, NameAt(columns, path).value) in Pairs(columns)
  {
    if columns != [] {
      NameAtIs(columns[1..], path);
      assert columns == [columns[0]] + columns[1..];
      assert Pairs(columns) == {(columns[0].logicalPath, columns[0].physicalName)} + Pairs(columns[1..]);
    }
  }

  /** The guard refuses exactly when some path has two names; otherwise it keeps every path and name. */
  lemma {:induction false} GuardRefusesIff(columns: seq<Column>)
    ensures Guarded(columns).None? <==> !Functional(Pairs(columns))
    ensures Guarded(columns).Some? ==> Pairs(Guarded(columns).value) == Pairs(columns)
  {
    if columns != [] {
      var init, c := columns[..|columns| - 1], columns[|columns| - 1];
      GuardRefusesIff(init);
      assert columns == init + [c];
      PairsSnoc(init, c);
      if Guarded(init).Some? {
        NameAtIs(Guarded(init).value, c.logicalPath);
        PairsSnoc(Guarded(init).value, c);
        GuardStep(Pairs(init), c.logicalPath, c.physicalName, NameAt(Guarded(init).value, c.logicalPath));
      }
    }
  }

  lemma GuardStep(pairs: set<(string, string)>, path: string, name: string, found: Option<string>)
    requires Functional(pairs)
    requires found.None? ==> forall p :: p in pairs ==> p.0 != path
    requires found.Some? ==> (path, found.value) in pairs
    ensures Functional(pairs + {(path, name)}) <==> found.None? || found.value == name
    ensures found == Some(name) ==> pairs + {(path, name)} == pairs
  {
    if found.Some? {
      assert (path, name) in pairs + {(path, name)} && (path, found.value) in pairs + {(path, name)};
    }
  }

  lemma ConflictBreaksFunction(columns: seq<Column>)
    ensures !Functional(Pairs(columns)) <==> exists i, j :: 0 <= i < j < |columns| && Conflicts(columns, i, j)
  {
    if p, q :| p in Pairs(columns) && q in Pairs(columns) && p.0 == q.0 && p.1 != q.1 {
      var i :| 0 <= i < |columns| && (columns[i].logicalPath, columns[i].physicalName) == p;
      var j :| 0 <= j < |columns| && (columns[j].logicalPath, columns[j].physicalName) == q;
      assert Conflicts(columns, i, j) && Conflicts(columns, j, i);
    }
    if i, j :| 0 <= i < j < |columns| && Conflicts(columns, i, j) {
      assert columns[i] in columns && columns[j] in columns;
      assert (columns[i].logicalPath, columns[i].physicalName) in Pairs(columns);
      assert (columns[j].logicalPath, columns[j].physicalName) in Pairs(columns);
    }
  }

  /** A working guard would refuse a schema exactly when two of its name lists clash. */
  lemma GuardIsNeededIff(fields: seq<Field>, path: string, segments: seq<string>)
    ensures Guarded(FieldColumns(fields, path, segments)).None? <==>
      exists i, j :: 0 <= i < j < |FieldLeaves(fields)| && Clash(FieldLeaves(fields), i, j)
  {
    var columns, leaves := FieldColumns(fields, path, segments), FieldLeaves(fields);
    GuardRefusesIff(columns);
    ConflictBreaksFunction(columns);
    forall i: nat, j: nat
      ensures |columns| == |leaves| && (Conflicts(columns, i, j) <==> Clash(leaves, i, j))
    {
      ConflictsIffClash(fields, path, segments, i, j);
    }
  }

  /** With siblings that clean apart: exactly when two name lists are the same text once joined by dots. */
  lemma GuardIsNeededIffSameText(fields: seq<Field>, path: string, segments: seq<string>)
    requires FieldsCleanApart(fields)
    ensures Guarded(FieldColumns(fields, path, segments)).None? <==>
      exists i, j :: 0 <= i < j < |FieldLeaves(fields)| && SameText(FieldLeaves(fields), i, j)
  {
    GuardIsNeededIff(fields, path, segments);
    LeavesApart(fields);
    forall i, j | 0 <= i < j < |FieldLeaves(fields)|
      ensures Clash(FieldLeaves(fields), i, j) <==> SameText(FieldLeaves(fields), i, j)
    {
      ClashIffSameText(FieldLeaves(fields), i, j);
    }
  }

  lemma ClashIffSameText(leaves: seq<seq<string>>, i: nat, j: nat)
    requires CleanedApart(leaves) && i < j < |leaves|
    ensures Clash(leaves, i, j) <==> SameText(leaves, i, j)
  {
  }

  /** The same for the table of an array, whose columns are those of its element. */
  lemma ElementGuardIsNeededIff(element: DataType, path: string)
    ensures Guarded(ElementColumns(element, path)).None? <==>
      exists i, j :: 0 <= i < j < |LeavesIn(element)| && Clash(LeavesIn(element), i, j)
  {
    if element.StructType? {
      assert LeavesIn(element) == FieldLeaves(element.fields);
      GuardIsNeededIff(element.fields, path, []);
    } else {
      GuardRefusesIff(ElementColumns(element, path));
      assert Pairs(ElementColumns(element, path)) == {(JoinPath(path, VALUE), VALUE)};
    }
  }
}

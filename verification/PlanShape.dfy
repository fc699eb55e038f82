/** What a plan looks like: distinct names, a tree of tables, and a place for everything in the schema. */
module PlanShape {
  import opened Seqs
  import opened Text
  import opened Identifiers
  import opened Columns
  import opened Planner
  import opened Relationalizer

  // Schemas with usable names.

  /** No dot in a field name, and siblings that stay distinct when cleaned, at every depth. */
  ghost predicate GoodNames(dtype: DataType)
    decreases dtype, 1
  {
    match dtype
    case StructType(fields) => GoodFieldNames(fields)
    case ArrayType(element) => GoodNames(element)
    case _ => true
  }

  ghost predicate GoodFieldNames(fields: seq<Field>)
    decreases fields, 0
  {
    && (forall i :: 0 <= i < |fields| ==> '.' !in fields[i].name && GoodNames(fields[i].dtype))
    && (forall i, j :: 0 <= i < j < |fields| ==> Sanitize(fields[i].name) != Sanitize(fields[j].name))
  }

  lemma GoodPrefix(fields: seq<Field>)
    requires fields != [] && GoodFieldNames(fields)
    ensures GoodFieldNames(fields[..|fields| - 1])
  {
    var init := fields[..|fields| - 1];
    assert forall i :: 0 <= i < |init| ==> init[i] == fields[i];
  }

  lemma {:induction false} SplitSnoc(head: string, name: string)
    requires '.' !in name
    ensures SplitDots(JoinPath(head, name)) == SplitDots(head) + [name]
  {
    if head == [] {
      SplitFirstDot([], name);
      SplitFirstDot(name, "");
      assert JoinPath(head, name) == [] + "." + name;
    } else {
      SplitSnoc(head[1..], name);
      assert JoinPath(head, name)[1..] == JoinPath(head[1..], name);
    }
  }

  /** `p` is `path` or leads further down from it. */
  predicate Under(path: string, p: string) {
    SplitDots(path) <= SplitDots(p)
  }

  lemma UnderField(path: string, name: string, p: string)
    requires '.' !in name && Under(JoinPath(path, name), p)
    ensures Under(path, p) && |SplitDots(p)| > |SplitDots(path)| && SplitDots(p)[|SplitDots(path)|] == name
  {
    SplitSnoc(path, name);
    var a, b, c := SplitDots(path), SplitDots(JoinPath(path, name)), SplitDots(p);
    assert b == c[..|b|] && a == b[..|a|];
    assert c[..|a|] == b[..|a|];
  }

  lemma UnderSiblings(path: string, a: string, b: string, p: string, q: string)
    requires '.' !in a && '.' !in b && a != b
    requires Under(JoinPath(path, a), p) && Under(JoinPath(path, b), q)
    ensures p != q
  {
    UnderField(path, a, p);
    UnderField(path, b, q);
  }

  // Columns.

  /** A column that belongs below `path` and is named after `segments`. */
  predicate Belongs(path: string, segments: seq<string>, c: Column) {
    Under(path, c.logicalPath) && SanitizeAll(segments) <= SplitName(c.physicalName)
  }

  lemma BelongsField(path: string, segments: seq<string>, name: string, c: Column)
    requires '.' !in name && Belongs(JoinPath(path, name), segments + [name], c)
    ensures Belongs(path, segments, c)
    ensures |SplitName(c.physicalName)| > |segments| && SplitName(c.physicalName)[|segments|] == Sanitize(name)
  {
    UnderField(path, name, c.logicalPath);
    var a, b, d := SanitizeAll(segments), SanitizeAll(segments + [name]), SplitName(c.physicalName);
    assert b == a + [Sanitize(name)];
    assert b == d[..|b|];
    assert d[..|a|] == b[..|a|] == a;
  }

  lemma {:induction false} ColumnsBelong(dtype: DataType, path: string, segments: seq<string>)
    requires GoodNames(dtype) && (segments != [] || dtype.StructType?)
    ensures forall c :: c in ColumnsIn(dtype, path, segments) ==> Belongs(path, segments, c)
    decreases dtype, 1
  {
    match dtype
    case StructType(fields) => FieldColumnsBelong(fields, path, segments);
    case ArrayType(_) =>
    case _ => SplitUndoesColumnName(segments);
  }

  lemma {:induction false} FieldColumnsBelong(fields: seq<Field>, path: string, segments: seq<string>)
    requires GoodFieldNames(fields)
    ensures forall c :: c in FieldColumns(fields, path, segments) ==> Belongs(path, segments, c)
    decreases fields, 1
  {
    forall c | c in FieldColumns(fields, path, segments)
      ensures Belongs(path, segments, c)
    {
      var i := ColumnOfField(fields, path, segments, c);
      BelongsField(path, segments, fields[i].name, c);
    }
  }

  /** Every column of an object comes from one of its fields. */
  lemma {:induction false} ColumnOfField(fields: seq<Field>, path: string, segments: seq<string>, c: Column)
    returns (i: nat)
    requires GoodFieldNames(fields) && c in FieldColumns(fields, path, segments)
    ensures i < |fields| && c in ColumnsIn(fields[i].dtype, JoinPath(path, fields[i].name), segments + [fields[i].name])
    ensures Belongs(JoinPath(path, fields[i].name), segments + [fields[i].name], c)
    decreases fields, 0
  {
    var init, last := fields[..|fields| - 1], fields[|fields| - 1];
    if c in FieldColumns(init, path, segments) {
      GoodPrefix(fields);
      i := ColumnOfField(init, path, segments, c);
    } else {
      i := |fields| - 1;
      ColumnsBelong(last.dtype, JoinPath(path, last.name), segments + [last.name]);
    }
  }

  /** Usable names clean apart, and no name on the way to a column has a dot. */
  lemma {:induction false} GoodNamesAreApart(dtype: DataType)
    requires GoodNames(dtype)
    ensures CleanApart(dtype)
    ensures forall leaf, name :: leaf in LeavesIn(dtype) && name in leaf ==> '.' !in name
    decreases dtype, 1
  {
    if dtype.StructType? {
      GoodFieldNamesAreApart(dtype.fields);
    }
  }

  lemma {:induction false} GoodFieldNamesAreApart(fields: seq<Field>)
    requires GoodFieldNames(fields)
    ensures FieldsCleanApart(fields)
    ensures forall leaf, name :: leaf in FieldLeaves(fields) && name in leaf ==> '.' !in name
    decreases fields, 0
  {
    forall i | 0 <= i < |fields|
      ensures CleanApart(fields[i].dtype)
      ensures forall leaf, name :: leaf in LeavesIn(fields[i].dtype) && name in leaf ==> '.' !in name
    {
      GoodNamesAreApart(fields[i].dtype);
    }
    forall leaf, name | leaf in FieldLeaves(fields) && name in leaf
      ensures '.' !in name
    {
      var k := LeafOfField(fields, leaf);
      assert leaf == [leaf[0]] + leaf[1..];
    }
  }

  /** With usable names no two columns of a table share a logical path or a physical name. */
  lemma FieldColumnsAreApart(fields: seq<Field>, path: string, segments: seq<string>)
    requires GoodFieldNames(fields)
    ensures ColumnsApart(FieldColumns(fields, path, segments))
  {
    GoodFieldNamesAreApart(fields);
    DotFreeColumnsApart(fields, path, segments);
  }

  // Tables.

  ghost predicate PathsApart(tables: seq<PlannedTable>) {
    forall i, j :: 0 <= i < j < |tables| ==> tables[i].logicalPath != tables[j].logicalPath
  }

  ghost predicate AllUnder(path: string, tables: seq<PlannedTable>) {
    forall t :: t in tables ==> Under(path, t.logicalPath)
  }

  /** Every table is registered under its name, for its logical path. */
  ghost predicate AllRegistered(registry: Registry, tables: seq<PlannedTable>) {
    forall t :: t in tables ==> t.physicalName in registry && registry[t.physicalName] == t.logicalPath
  }

  ghost predicate Keeps(before: Registry, after: Registry) {
    forall n :: n in before ==> n in after && after[n] == before[n]
  }

  ghost predicate GoodTables(before: Registry, path: string, out: Planned)
    requires out.Planned?
  {
    && Keeps(before, out.registry) && AllRegistered(out.registry, out.tables)
    && PathsApart(out.tables) && AllUnder(path, out.tables)
  }

  lemma {:induction false} TablesAreGood(naming: Naming, entity: string, registry: Registry, dtype: DataType,
                                         path: string,
                                         segments: seq<string>, parentName: string)
    requires GoodNames(dtype)
    requires TablesIn(naming, entity, registry, dtype, path, segments, parentName).Planned?
    ensures GoodTables(registry, path, TablesIn(naming, entity, registry, dtype, path, segments, parentName))
    decreases dtype, 1
  {
    match dtype
    case StructType(fields) =>
      FieldTablesAreGood(naming, entity, registry, fields, path, segments, parentName);
      WeakenTables(registry, path, fields, FieldTables(naming, entity, registry, fields, path, segments, parentName));
    case ArrayType(element) =>
      ArrayTablesAreGood(naming, entity, registry, element, path, segments, parentName);
    case _ =>
  }

  lemma {:induction false} ArrayTablesAreGood(naming: Naming, entity: string, registry: Registry, element: DataType,
                                              path: string, segments: seq<string>, parentName: string)
    requires GoodNames(element)
    requires TablesIn(naming, entity, registry, ArrayType(element), path, segments, parentName).Planned?
    ensures GoodTables(registry, path,
                       TablesIn(naming, entity, registry, ArrayType(element), path, segments, parentName))
    decreases element, 2
  {
    var result := TableName(naming, registry, [entity] + segments, path);
    NameFits(naming, registry, [entity] + segments, path);
    var registry' := Register(registry, result, path);
    var out := TablesIn(naming, entity, registry, ArrayType(element), path, segments, parentName);
    if element.StructType? {
      var rest := FieldTables(naming, entity, registry', element.fields, path, [], result.name);
      FieldTablesAreGood(naming, entity, registry', element.fields, path, [], result.name);
      assert out.tables == [out.tables[0]] + rest.tables;
      forall i | 0 <= i < |rest.tables|
        ensures rest.tables[i].logicalPath != path
      {
        var k := FieldOfTable(path, element.fields, rest.tables[i]);
        UnderField(path, element.fields[k].name, rest.tables[i].logicalPath);
      }
      WeakenTables(registry', path, element.fields, rest);
    }
  }

  /** The table lies below one of the fields. */
  ghost predicate UnderSome(path: string, fields: seq<Field>, t: PlannedTable) {
    exists k :: 0 <= k < |fields| && Under(JoinPath(path, fields[k].name), t.logicalPath)
  }

  lemma FieldOfTable(path: string, fields: seq<Field>, t: PlannedTable) returns (k: nat)
    requires UnderSome(path, fields, t)
    ensures k < |fields| && Under(JoinPath(path, fields[k].name), t.logicalPath)
  {
    k :| 0 <= k < |fields| && Under(JoinPath(path, fields[k].name), t.logicalPath);
  }

  ghost predicate GoodFieldTables(before: Registry, path: string, fields: seq<Field>, out: Planned)
    requires out.Planned?
  {
    && Keeps(before, out.registry) && AllRegistered(out.registry, out.tables) && PathsApart(out.tables)
    && forall t :: t in out.tables ==> UnderSome(path, fields, t)
  }

  lemma WeakenTables(before: Registry, path: string, fields: seq<Field>, out: Planned)
    requires out.Planned? && GoodFieldNames(fields) && GoodFieldTables(before, path, fields, out)
    ensures GoodTables(before, path, out)
  {
    forall t | t in out.tables
      ensures Under(path, t.logicalPath)
    {
      var k := FieldOfTable(path, fields, t);
      UnderField(path, fields[k].name, t.logicalPath);
    }
  }

  lemma {:induction false} FieldTablesAreGood(naming: Naming, entity: string, registry: Registry, fields: seq<Field>,
                                              path: string, segments: seq<string>, parentName: string)
    requires GoodFieldNames(fields)
    requires FieldTables(naming, entity, registry, fields, path, segments, parentName).Planned?
    ensures GoodFieldTables(registry, path, fields,
                            FieldTables(naming, entity, registry, fields, path, segments, parentName))
    decreases fields, 0
  {
    if fields != [] {
      var init, last := fields[..|fields| - 1], fields[|fields| - 1];
      var before := FieldTables(naming, entity, registry, init, path, segments, parentName);
      var more := TablesIn(naming, entity, before.registry, last.dtype, JoinPath(path, last.name),
                           segments + [last.name], parentName);
      GoodPrefix(fields);
      FieldTablesAreGood(naming, entity, registry, init, path, segments, parentName);
      TablesAreGood(naming, entity, before.registry, last.dtype, JoinPath(path, last.name), segments + [last.name],
                    parentName);
      JoinTables(registry, path, fields, before, more);
    }
  }

  lemma UnderSomeStays(path: string, fields: seq<Field>, n: nat, t: PlannedTable)
    requires n <= |fields| && UnderSome(path, fields[..n], t)
    ensures UnderSome(path, fields, t)
  {
    var k := FieldOfTable(path, fields[..n], t);
    assert fields[..n][k] == fields[k];
  }

  lemma JoinTables(registry: Registry, path: string, fields: seq<Field>, before: Planned, more: Planned)
    requires fields != [] && GoodFieldNames(fields) && before.Planned? && more.Planned?
    requires GoodFieldTables(registry, path, fields[..|fields| - 1], before)
    requires GoodTables(before.registry, JoinPath(path, fields[|fields| - 1].name), more)
    ensures GoodFieldTables(registry, path, fields, Planned(before.tables + more.tables, more.registry))
  {
    var n := |fields| - 1;
    forall t | t in before.tables
      ensures UnderSome(path, fields, t)
    {
      UnderSomeStays(path, fields, n, t);
    }
    forall t | t in more.tables
      ensures UnderSome(path, fields, t)
    {
      assert Under(JoinPath(path, fields[n].name), t.logicalPath);
    }
    forall t, u | t in before.tables && u in more.tables
      ensures t.logicalPath != u.logicalPath
    {
      var k := FieldOfTable(path, fields[..n], t);
      assert Sanitize(fields[k].name) != Sanitize(fields[n].name);
      UnderSiblings(path, fields[k].name, fields[n].name, t.logicalPath, u.logicalPath);
    }
    AppendPathsApart(before.tables, more.tables);
  }

  lemma AppendPathsApart(a: seq<PlannedTable>, b: seq<PlannedTable>)
    requires PathsApart(a) && PathsApart(b)
    requires forall t, u :: t in a && u in b ==> t.logicalPath != u.logicalPath
    ensures PathsApart(a + b)
  {
    var s := a + b;
    forall i, j | 0 <= i < j < |s|
      ensures s[i].logicalPath != s[j].logicalPath
    {
      if i < |a| <= j {
        assert s[i] in a && s[j] in b;
      }
    }
  }

  // A place for everything.

  /** Table `c` is the table of an array of `element` that sits at `path` in table `t`. */
  ghost predicate ChildTable(all: seq<PlannedTable>, t: nat, c: nat, element: DataType, path: string) {
    && t < c < |all|
    && all[c].logicalPath == path && all[c].parentName == Some(all[t].physicalName)
    && all[c].columns == ElementColumns(element, path) && all[c].children == ElementExplosions(element, path)
  }

  /** Everything in a type that sits at `path` in table `t` has its column, or its explosion and table. */
  ghost predicate Fits(all: seq<PlannedTable>, t: nat, dtype: DataType, path: string, segments: seq<string>)
    requires t < |all|
    decreases dtype, 1
  {
    match dtype
    case StructType(fields) => FieldsFit(all, t, fields, path, segments)
    case ArrayType(element) =>
      && Explosion(Join(segments, "."), path) in all[t].children
      && exists c: nat :: ElementFits(all, t, c, element, path)
    case _ => Column(path, ColumnName(segments), Join(segments, ".")) in all[t].columns
  }

  ghost predicate ElementFits(all: seq<PlannedTable>, t: nat, c: nat, element: DataType, path: string)
    decreases element, 2
  {
    ChildTable(all, t, c, element, path) && (element.StructType? ==> FieldsFit(all, c, element.fields, path, []))
  }

  ghost predicate FieldsFit(all: seq<PlannedTable>, t: nat, fields: seq<Field>, path: string, segments: seq<string>)
    requires t < |all|
    decreases fields, 0
  {
    forall i :: 0 <= i < |fields| ==>
      Fits(all, t, fields[i].dtype, JoinPath(path, fields[i].name), segments + [fields[i].name])
  }

  ghost predicate Includes<T>(whole: seq<T>, part: seq<T>) {
    forall x :: x in part ==> x in whole
  }

  /** The tables of a walk stand in the plan from position `at` on. */
  ghost predicate StandsAt(all: seq<PlannedTable>, at: nat, block: seq<PlannedTable>) {
    at + |block| <= |all| && forall i :: 0 <= i < |block| ==> all[at + i] == block[i]
  }

  ghost predicate Rooted(all: seq<PlannedTable>, at: nat, n: nat) {
    at + n <= |all| && forall i :: at <= i < at + n ==> IsChild(all, i)
  }

  lemma {:induction false} WalkFits(all: seq<PlannedTable>, t: nat, at: nat, naming: Naming, entity: string,
                                    registry: Registry, dtype: DataType, path: string, segments: seq<string>)
    requires t < at && t < |all|
    requires Includes(all[t].columns, ColumnsIn(dtype, path, segments))
    requires Includes(all[t].children, ExplosionsIn(dtype, path, segments))
    requires var out := TablesIn(naming, entity, registry, dtype, path, segments, all[t].physicalName);
             out.Planned? && StandsAt(all, at, out.tables)
    ensures Fits(all, t, dtype, path, segments)
    ensures Rooted(all, at, |TablesIn(naming, entity, registry, dtype, path, segments, all[t].physicalName).tables|)
    decreases dtype, 1
  {
    match dtype
    case StructType(fields) => FieldWalkFits(all, t, at, naming, entity, registry, fields, path, segments);
    case ArrayType(element) => ArrayWalkFits(all, t, at, naming, entity, registry, element, path, segments);
    case _ => assert Column(path, ColumnName(segments), Join(segments, ".")) in ColumnsIn(dtype, path, segments);
  }

  lemma {:induction false} ArrayWalkFits(all: seq<PlannedTable>, t: nat, at: nat, naming: Naming, entity: string,
                                         registry: Registry, element: DataType, path: string, segments: seq<string>)
    requires t < at && t < |all|
    requires Includes(all[t].children, ExplosionsIn(ArrayType(element), path, segments))
    requires var out := TablesIn(naming, entity, registry, ArrayType(element), path, segments, all[t].physicalName);
             out.Planned? && StandsAt(all, at, out.tables)
    ensures Fits(all, t, ArrayType(element), path, segments)
    ensures Rooted(all, at,
                   |TablesIn(naming, entity, registry, ArrayType(element), path, segments, all[t].physicalName).tables|)
    decreases element, 2
  {
    var out := TablesIn(naming, entity, registry, ArrayType(element), path, segments, all[t].physicalName);
    var result := TableName(naming, registry, [entity] + segments, path);
    var rest := TablesBelow(naming, entity, registry, element, path, segments, all[t].physicalName);
    SplitBlock(all, at, [out.tables[0]], rest);
    assert all[at + 0] == [out.tables[0]][0];
    assert Explosion(Join(segments, "."), path) in ExplosionsIn(ArrayType(element), path, segments);
    HeadIsChild(all, t, at, element, path, segments);
    BelowFits(all, t, at, naming, entity, Register(registry, result, path), element, path, rest);
  }

  lemma {:induction false} BelowFits(all: seq<PlannedTable>, t: nat, at: nat, naming: Naming, entity: string,
                                     registry: Registry, element: DataType, path: string, rest: seq<PlannedTable>)
    requires ChildTable(all, t, at, element, path) && IsChild(all, at) && StandsAt(all, at + 1, rest)
    requires element.StructType? ==>
               var below := FieldTables(naming, entity, registry, element.fields, path, [], all[at].physicalName);
               below.Planned? && rest == below.tables
    requires !element.StructType? ==> rest == []
    ensures ElementFits(all, t, at, element, path) && Rooted(all, at, 1 + |rest|)
    decreases element, 1
  {
    if element.StructType? {
      FieldWalkFits(all, at, at + 1, naming, entity, registry, element.fields, path, []);
    }
  }

  /** The block of an array: its own table, then those below its element. */
  lemma TablesBelow(naming: Naming, entity: string, registry: Registry, element: DataType, path: string,
                    segments: seq<string>, parentName: string) returns (rest: seq<PlannedTable>)
    requires TablesIn(naming, entity, registry, ArrayType(element), path, segments, parentName).Planned?
    ensures var out := TablesIn(naming, entity, registry, ArrayType(element), path, segments, parentName);
      var result := TableName(naming, registry, [entity] + segments, path);
      && result.Named?
      && out.tables == [PlannedTable(path, result.name, Some(parentName), JoinKeys(Some(parentName)),
                                     ElementColumns(element, path), ElementExplosions(element, path))] + rest
      && (element.StructType? ==>
            var below := FieldTables(naming, entity, Register(registry, result, path), element.fields, path, [],
                                     result.name);
            below.Planned? && rest == below.tables)
      && (!element.StructType? ==> rest == [])
  {
    var result := TableName(naming, registry, [entity] + segments, path);
    rest := if element.StructType? then
              FieldTables(naming, entity, Register(registry, result, path), element.fields, path, [],
                          result.name).tables
            else [];
  }

  lemma HeadIsChild(all: seq<PlannedTable>, t: nat, at: nat, element: DataType, path: string, segments: seq<string>)
    requires t < at < |all| && Explosion(Join(segments, "."), path) in all[t].children
    requires all[at] == PlannedTable(path, all[at].physicalName, Some(all[t].physicalName),
                                     JoinKeys(Some(all[t].physicalName)),
                                     ElementColumns(element, path), ElementExplosions(element, path))
    ensures IsChild(all, at) && ChildTable(all, t, at, element, path)
  {
    assert HasParent(all, at, t);
  }

  lemma {:induction false} FieldWalkFits(all: seq<PlannedTable>, t: nat, at: nat, naming: Naming, entity: string,
                                         registry: Registry, fields: seq<Field>, path: string, segments: seq<string>)
    requires t < at && t < |all|
    requires Includes(all[t].columns, FieldColumns(fields, path, segments))
    requires Includes(all[t].children, FieldExplosions(fields, path, segments))
    requires var out := FieldTables(naming, entity, registry, fields, path, segments, all[t].physicalName);
             out.Planned? && StandsAt(all, at, out.tables)
    ensures FieldsFit(all, t, fields, path, segments)
    ensures Rooted(all, at, |FieldTables(naming, entity, registry, fields, path, segments, all[t].physicalName).tables|)
    decreases fields, 0
  {
    if fields != [] {
      var init, last := fields[..|fields| - 1], fields[|fields| - 1];
      var before := FieldTables(naming, entity, registry, init, path, segments, all[t].physicalName);
      var more := TablesIn(naming, entity, before.registry, last.dtype, JoinPath(path, last.name),
                           segments + [last.name], all[t].physicalName);
      SplitBlock(all, at, before.tables, more.tables);
      FieldWalkFits(all, t, at, naming, entity, registry, init, path, segments);
      WalkFits(all, t, at + |before.tables|, naming, entity, before.registry, last.dtype, JoinPath(path, last.name),
               segments + [last.name]);
      OneMoreFits(all, t, fields, path, segments);
    }
  }

  lemma OneMoreFits(all: seq<PlannedTable>, t: nat, fields: seq<Field>, path: string, segments: seq<string>)
    requires t < |all| && fields != [] && FieldsFit(all, t, fields[..|fields| - 1], path, segments)
    requires var last := fields[|fields| - 1];
             Fits(all, t, last.dtype, JoinPath(path, last.name), segments + [last.name])
    ensures FieldsFit(all, t, fields, path, segments)
  {
    assert forall i :: 0 <= i < |fields| - 1 ==> fields[..|fields| - 1][i] == fields[i];
  }

  lemma SplitBlock(all: seq<PlannedTable>, at: nat, a: seq<PlannedTable>, b: seq<PlannedTable>)
    requires StandsAt(all, at, a + b)
    ensures StandsAt(all, at, a) && StandsAt(all, at + |a|, b)
  {
    forall i | 0 <= i < |a|
      ensures all[at + i] == a[i]
    {
      assert (a + b)[i] == a[i];
    }
    forall i | 0 <= i < |b|
      ensures all[at + |a| + i] == b[i]
    {
      assert (a + b)[|a| + i] == b[i];
      assert all[at + (|a| + i)] == (a + b)[|a| + i];
    }
  }

  /**
   * A tree of tables: names and paths are distinct, every table but the root has an earlier parent
   * with a matching explosion, and everything in the schema has its place.
   */
  ghost predicate IsTree(tables: seq<PlannedTable>, fields: seq<Field>) {
    && WellFormed(tables) && PathsApart(tables) && tables != []
    && tables[0].parentName == None && tables[0].logicalPath == "$"
    && tables[0].columns == FieldColumns(fields, "$", []) && tables[0].children == FieldExplosions(fields, "$", [])
    && (forall i :: 1 <= i < |tables| ==> IsChild(tables, i))
    && FieldsFit(tables, 0, fields, "$", [])
  }

  /** Every plan is a tree, so every lookup of the execution succeeds. */
  lemma PlanIsTree(naming: Naming, entity: string, fields: seq<Field>)
    requires GoodFieldNames(fields) && PlanOf(naming, entity, fields).Planned?
    ensures IsTree(PlanOf(naming, entity, fields).tables, fields)
  {
    var plan := PlanOf(naming, entity, fields);
    var result := TableName(naming, map[], [entity], "$");
    var registry := Register(map[], result, "$");
    var rest := FieldTables(naming, entity, registry, fields, "$", [], result.name);
    assert plan.tables == [plan.tables[0]] + rest.tables;
    FieldTablesAreGood(naming, entity, registry, fields, "$", [], result.name);
    RootApart(fields, plan.tables, rest.tables);
    assert AllRegistered(plan.registry, plan.tables);
    NamesFollowPaths(plan.registry, plan.tables);
    assert StandsAt(plan.tables, 1, rest.tables);
    FieldWalkFits(plan.tables, 0, 1, naming, entity, registry, fields, "$", []);
  }

  lemma RootApart(fields: seq<Field>, tables: seq<PlannedTable>, rest: seq<PlannedTable>)
    requires GoodFieldNames(fields) && tables != [] && tables == [tables[0]] + rest && tables[0].logicalPath == "$"
    requires PathsApart(rest) && forall t :: t in rest ==> UnderSome("$", fields, t)
    ensures PathsApart(tables)
  {
    forall t | t in rest
      ensures t.logicalPath != "$"
    {
      var k := FieldOfTable("$", fields, t);
      UnderField("$", fields[k].name, t.logicalPath);
    }
    AppendPathsApart([tables[0]], rest);
  }

  lemma NamesFollowPaths(registry: Registry, tables: seq<PlannedTable>)
    requires AllRegistered(registry, tables) && PathsApart(tables)
    ensures DistinctNames(tables)
  {
    forall i, j | 0 <= i < j < |tables|
      ensures tables[i].physicalName != tables[j].physicalName
    {
      assert tables[i] in tables && tables[j] in tables;
    }
  }

  // Join keys and single columns, said literally.

  lemma {:induction false} CutKeepsHead(s: string)
    requires s != [] && s[0] != '_'
    ensures StripRight(s, IsUnderscore) != []
  {
    if s[|s| - 1] == '_' {
      CutKeepsHead(s[..|s| - 1]);
    }
  }

  /** No table is nameless. */
  lemma TableNameIsNotEmpty(naming: Naming, registry: Registry, segments: seq<string>, path: string)
    requires segments != []
    ensures var r := TableName(naming, registry, segments, path); r.Named? ==> r.name != ""
  {
    SanitizeIsClean(segments[0]);
    var base := BaseName(naming, segments);
    assert base != [] && base[0] == SanitizeAll(segments)[0][0];
    var room := naming.maxIdentifierLength - |naming.separator + Take(naming.digest(path), 8)|;
    if room > 0 {
      CutKeepsHead(Take(base, room));
    }
  }

  /** The root has no join key; every other table is joined by the id of the parent row. */
  ghost predicate Joined(table: PlannedTable) {
    table.physicalName != "" && table.joinKeys == if table.parentName.None? then [] else ["_parent_row_id"]
  }

  ghost predicate AllJoined(tables: seq<PlannedTable>) {
    forall t :: t in tables ==> Joined(t)
  }

  lemma {:induction false} TablesAreJoined(naming: Naming, entity: string, registry: Registry, dtype: DataType,
                                           path: string, segments: seq<string>, parentName: string)
    requires parentName != ""
    requires TablesIn(naming, entity, registry, dtype, path, segments, parentName).Planned?
    ensures AllJoined(TablesIn(naming, entity, registry, dtype, path, segments, parentName).tables)
    decreases dtype, 1
  {
    match dtype
    case StructType(fields) => FieldTablesAreJoined(naming, entity, registry, fields, path, segments, parentName);
    case ArrayType(element) =>
      var result := TableName(naming, registry, [entity] + segments, path);
      TableNameIsNotEmpty(naming, registry, [entity] + segments, path);
      var rest := TablesBelow(naming, entity, registry, element, path, segments, parentName);
      if element.StructType? {
        FieldTablesAreJoined(naming, entity, Register(registry, result, path), element.fields, path, [], result.name);
      }
    case _ =>
  }

  lemma {:induction false} FieldTablesAreJoined(naming: Naming, entity: string, registry: Registry,
                                                fields: seq<Field>, path: string, segments: seq<string>,
                                                parentName: string)
    requires parentName != ""
    requires FieldTables(naming, entity, registry, fields, path, segments, parentName).Planned?
    ensures AllJoined(FieldTables(naming, entity, registry, fields, path, segments, parentName).tables)
    decreases fields, 0
  {
    if fields != [] {
      var init, last := fields[..|fields| - 1], fields[|fields| - 1];
      var before := FieldTables(naming, entity, registry, init, path, segments, parentName);
      FieldTablesAreJoined(naming, entity, registry, init, path, segments, parentName);
      TablesAreJoined(naming, entity, before.registry, last.dtype, JoinPath(path, last.name),
                      segments + [last.name], parentName);
    }
  }

  lemma PlanIsJoined(naming: Naming, entity: string, fields: seq<Field>)
    requires PlanOf(naming, entity, fields).Planned?
    ensures AllJoined(PlanOf(naming, entity, fields).tables)
  {
    var result := TableName(naming, map[], [entity], "$");
    TableNameIsNotEmpty(naming, map[], [entity], "$");
    FieldTablesAreJoined(naming, entity, Register(map[], result, "$"), fields, "$", [], result.name);
  }

  /** A scalar or map of the root object is a column of the root table, under its cleaned name. */
  lemma RootColumn(tables: seq<PlannedTable>, fields: seq<Field>, i: nat)
    requires IsTree(tables, fields) && i < |fields| && (fields[i].dtype.ScalarType? || fields[i].dtype.MapType?)
    ensures Column("$." + fields[i].name, Sanitize(fields[i].name), fields[i].name) in tables[0].columns
  {
    var name := fields[i].name;
    assert Fits(tables, 0, fields[i].dtype, JoinPath("$", name), [] + [name]);
    assert [] + [name] == [name] && SanitizeAll([name]) == [Sanitize(name)];
    assert "$" + "." + name == "$." + name;
  }

  /** A field of an object in the root is a column too: its names joined by dots, and cleaned by underscores. */
  lemma NestedColumn(tables: seq<PlannedTable>, fields: seq<Field>, i: nat, inner: seq<Field>, k: nat)
    requires IsTree(tables, fields) && i < |fields| && fields[i].dtype == StructType(inner)
    requires k < |inner| && (inner[k].dtype.ScalarType? || inner[k].dtype.MapType?)
    ensures Column("$." + fields[i].name + "." + inner[k].name,
                   Sanitize(fields[i].name) + "__" + Sanitize(inner[k].name),
                   fields[i].name + "." + inner[k].name) in tables[0].columns
  {
    var a, b := fields[i].name, inner[k].name;
    assert Fits(tables, 0, fields[i].dtype, JoinPath("$", a), [] + [a]);
    assert [] + [a] == [a];
    assert Fits(tables, 0, inner[k].dtype, JoinPath(JoinPath("$", a), b), [a] + [b]);
    assert [a] + [b] == [a, b] && [a, b][1..] == [b];
    TwoNames(a, b);
    assert "$" + "." + a + "." + b == "$." + a + "." + b;
  }

  lemma TwoNames(a: string, b: string)
    ensures ColumnName([a, b]) == Sanitize(a) + "__" + Sanitize(b)
    ensures Join([a, b], ".") == a + "." + b
  {
    assert SanitizeAll([a, b])[1..] == [Sanitize(b)] && [a, b][1..] == [b];
    assert Join([Sanitize(b)], SEPARATOR) == Sanitize(b) && Join([b], ".") == b;
  }

  /** An array of anything but objects in the root has a table with the one column `value`. */
  lemma ValueTable(tables: seq<PlannedTable>, fields: seq<Field>, i: nat, element: DataType) returns (c: nat)
    requires IsTree(tables, fields) && i < |fields|
    requires fields[i].dtype == ArrayType(element) && !element.StructType?
    ensures 1 <= c < |tables| && tables[c].logicalPath == "$." + fields[i].name
    ensures tables[c].parentName == Some(tables[0].physicalName) && tables[c].children == []
    ensures tables[c].columns == [Column("$." + fields[i].name + ".value", "value", "value")]
    ensures Explosion(fields[i].name, "$." + fields[i].name) in tables[0].children
  {
    var name := fields[i].name;
    assert Fits(tables, 0, fields[i].dtype, JoinPath("$", name), [] + [name]);
    assert [] + [name] == [name] && "$" + "." + name == "$." + name;
    c :| ElementFits(tables, 0, c, element, JoinPath("$", name));
    assert "$." + name + "." + "value" == "$." + name + ".value";
  }
}

/** The normalization planner: from a nested schema to a tree of tables. */
module Planner {
  import opened Seqs
  import opened Text
  import opened Identifiers

  datatype DataType = ScalarType | MapType | StructType(fields: seq<Field>) | ArrayType(element: DataType)

  datatype Field = Field(name: string, dtype: DataType)

  /** One entry of `column_mappings` together with its entry of `scalar_accessors`. */
  datatype Column = Column(logicalPath: string, physicalName: string, accessor: string)

  datatype Explosion = Explosion(accessor: string, childPath: string)

  datatype PlannedTable = PlannedTable(
    logicalPath: string, physicalName: string, parentName: Option<string>, joinKeys: seq<string>,
    columns: seq<Column>, children: seq<Explosion>)

  const VALUE := "value"

  function JoinPath(parent: string, segment: string): string {
    parent + "." + segment
  }

  // What the walk finds in a type that sits at `path`, reached by `segments` inside its table.

  function ColumnsIn(dtype: DataType, path: string, segments: seq<string>): seq<Column>
    decreases dtype, 1
  {
    match dtype
    case StructType(fields) => FieldColumns(fields, path, segments)
    case ArrayType(_) => []
    case _ => [Column(path, ColumnName(segments), Join(segments, "."))]
  }

  function FieldColumns(fields: seq<Field>, path: string, segments: seq<string>): seq<Column>
    decreases fields, 0
  {
    if fields == [] then []
    else
      var last := fields[|fields| - 1];
      FieldColumns(fields[..|fields| - 1], path, segments)
      + ColumnsIn(last.dtype, JoinPath(path, last.name), segments + [last.name])
  }

  function ExplosionsIn(dtype: DataType, path: string, segments: seq<string>): seq<Explosion>
    decreases dtype, 1
  {
    match dtype
    case StructType(fields) => FieldExplosions(fields, path, segments)
    case ArrayType(_) => [Explosion(Join(segments, "."), path)]
    case _ => []
  }

  function FieldExplosions(fields: seq<Field>, path: string, segments: seq<string>): seq<Explosion>
    decreases fields, 0
  {
    if fields == [] then []
    else
      var last := fields[|fields| - 1];
      FieldExplosions(fields[..|fields| - 1], path, segments)
      + ExplosionsIn(last.dtype, JoinPath(path, last.name), segments + [last.name])
  }

  /** The columns of the table of an array: those of the element object, or the item itself. */
  function ElementColumns(element: DataType, path: string): seq<Column> {
    if element.StructType? then FieldColumns(element.fields, path, [])
    else [Column(JoinPath(path, VALUE), VALUE, VALUE)]
  }

  function ElementExplosions(element: DataType, path: string): seq<Explosion> {
    if element.StructType? then FieldExplosions(element.fields, path, []) else []
  }

  datatype Planned = Planned(tables: seq<PlannedTable>, registry: Registry) | Refused(error: NameResult)

  function JoinKeys(parentName: Option<string>): seq<string> {
    if parentName.Some? && parentName.value != "" then ["_parent_row_id"] else []
  }

  /** The tables below a type, an array's own table before those of its element. */
  function TablesIn(naming: Naming, entity: string, registry: Registry, dtype: DataType, path: string,
                    segments: seq<string>, parentName: string): Planned
    decreases dtype, 1
  {
    match dtype
    case StructType(fields) => FieldTables(naming, entity, registry, fields, path, segments, parentName)
    case ArrayType(element) =>
      var result := TableName(naming, registry, [entity] + segments, path);
      if !result.Named? then Refused(result)
      else
        var table := PlannedTable(path, result.name, Some(parentName), JoinKeys(Some(parentName)),
                                  ElementColumns(element, path), ElementExplosions(element, path));
        var registry' := Register(registry, result, path);
        (match element
         case StructType(fields) => Below(table, FieldTables(naming, entity, registry', fields, path, [], result.name))
         case _ => Planned([table], registry'))
    case _ => Planned([], registry)
  }

  function Below(table: PlannedTable, rest: Planned): Planned {
    if rest.Planned? then Planned([table] + rest.tables, rest.registry) else rest
  }

  function FieldTables(naming: Naming, entity: string, registry: Registry, fields: seq<Field>, path: string,
                       segments: seq<string>, parentName: string): Planned
    decreases fields, 0
  {
    if fields == [] then Planned([], registry)
    else
      var last := fields[|fields| - 1];
      var before := FieldTables(naming, entity, registry, fields[..|fields| - 1], path, segments, parentName);
      if before.Refused? then before
      else
        var more := TablesIn(naming, entity, before.registry, last.dtype, JoinPath(path, last.name),
                             segments + [last.name], parentName);
        if more.Refused? then more else Planned(before.tables + more.tables, more.registry)
  }

  /** The plan of a root object. */
  function PlanOf(naming: Naming, entity: string, fields: seq<Field>): Planned {
    var result := TableName(naming, map[], [entity], "$");
    if !result.Named? then Refused(result)
    else
      var root := PlannedTable("$", result.name, None, [],
                               FieldColumns(fields, "$", []), FieldExplosions(fields, "$", []));
      Below(root, FieldTables(naming, entity, Register(map[], result, "$"), fields, "$", [], result.name))
  }

  /** The state of table `frame` and of the list of tables after a walk. */
  function Extend(tables: seq<PlannedTable>, frame: nat, columns: seq<Column>, children: seq<Explosion>,
                  below: seq<PlannedTable>): seq<PlannedTable>
    requires frame < |tables|
  {
    var table := tables[frame];
    tables[frame := table.(columns := table.columns + columns, children := table.children + children)] + below
  }

  lemma ExtendNothing(tables: seq<PlannedTable>, frame: nat)
    requires frame < |tables|
    ensures Extend(tables, frame, [], [], []) == tables
  {
    var table := tables[frame];
    assert table.columns + [] == table.columns && table.children + [] == table.children;
    assert tables[frame := table] + [] == tables;
  }

  lemma ExtendTwice(tables: seq<PlannedTable>, frame: nat, c: seq<Column>, e: seq<Explosion>, b: seq<PlannedTable>,
                    c': seq<Column>, e': seq<Explosion>, b': seq<PlannedTable>)
    requires frame < |tables|
    ensures Extend(Extend(tables, frame, c, e, b), frame, c', e', b') == Extend(tables, frame, c + c', e + e', b + b')
  {
    var table := tables[frame];
    assert (table.columns + c) + c' == table.columns + (c + c');
    assert (table.children + e) + e' == table.children + (e + e');
    var once := Extend(tables, frame, c, e, b);
    assert once[frame] == table.(columns := table.columns + c, children := table.children + e);
  }

  /** Filling a table that was appended empty is appending it filled. */
  lemma ExtendAppended(tables: seq<PlannedTable>, table: PlannedTable, c: seq<Column>, e: seq<Explosion>,
                       b: seq<PlannedTable>)
    requires table.columns == [] && table.children == []
    ensures Extend(tables + [table], |tables|, c, e, b) == tables + ([table.(columns := c, children := e)] + b)
  {
    assert (tables + [table])[|tables|] == table;
    assert table.columns + c == c && table.children + e == e;
  }

  class PlanBuilder {
    const entity: string
    const policy: IdentifierPolicy
    var tables: seq<PlannedTable>

    constructor (naming: Naming, entity: string)
      ensures this.entity == entity && tables == [] && fresh(policy)
      ensures policy.naming == naming && policy.registry == map[]
    {
      this.entity := entity;
      policy := new IdentifierPolicy(naming);
      tables := [];
    }

    method WalkRootStruct(fields: seq<Field>) returns (error: Option<NameResult>)
      requires tables == [] && policy.registry == map[]
      modifies this, policy
      ensures error.Some? ==> PlanOf(policy.naming, entity, fields) == Refused(error.value)
      ensures error.None? ==> PlanOf(policy.naming, entity, fields) == Planned(tables, policy.registry)
    {
      var name := CreateTable("$", [entity], None);
      if !name.Named? {
        return Some(name);
      }
      ghost var root := tables[0];
      assert tables == [] + [root];
      error := WalkFields(fields, 0, "$", []);
      if error.None? {
        ghost var out := FieldTables(policy.naming, entity, Register(map[], name, "$"), fields, "$", [], name.name);
        ExtendAppended([], root, FieldColumns(fields, "$", []), FieldExplosions(fields, "$", []), out.tables);
      }
    }

    method CreateTable(logicalPath: string, segments: seq<string>, parentName: Option<string>)
      returns (name: NameResult)
      modifies this, policy
      ensures name == TableName(policy.naming, old(policy.registry), segments, logicalPath)
      ensures policy.registry == Register(old(policy.registry), name, logicalPath)
      ensures tables == if name.Named? then
                          old(tables) + [PlannedTable(logicalPath, name.name, parentName, JoinKeys(parentName), [], [])]
                        else old(tables)
    {
      name := policy.MakeTableName(segments, logicalPath);
      if name.Named? {
        tables := tables + [PlannedTable(logicalPath, name.name, parentName, JoinKeys(parentName), [], [])];
      }
    }

    /** The loop over the fields of an object, in each of the places that have one. */
    method WalkFields(fields: seq<Field>, frame: nat, path: string, segments: seq<string>)
      returns (error: Option<NameResult>)
      requires frame < |tables|
      modifies this, policy
      ensures var out := FieldTables(policy.naming, entity, old(policy.registry), fields, path, segments,
                                     old(tables)[frame].physicalName);
              && (error.Some? ==> out == Refused(error.value))
              && (error.None? ==>
                    && out.Planned? && policy.registry == out.registry
                    && tables == Extend(old(tables), frame, FieldColumns(fields, path, segments),
                                        FieldExplosions(fields, path, segments), out.tables))
      decreases fields, 0
    {
      error := None;
      ExtendNothing(tables, frame);
      for i := 0 to |fields|
        invariant error.None? && frame < |tables|
        invariant var out := FieldTables(policy.naming, entity, old(policy.registry), fields[..i], path, segments,
                                         old(tables)[frame].physicalName);
                  && out.Planned? && policy.registry == out.registry
                  && tables == Extend(old(tables), frame, FieldColumns(fields[..i], path, segments),
                                      FieldExplosions(fields[..i], path, segments), out.tables)
      {
        var field := fields[i];
        assert fields[..i + 1][..i] == fields[..i] && fields[..i + 1][i] == field;
        ghost var before, registry := tables, policy.registry;
        error := WalkField(field, frame, JoinPath(path, field.name), segments + [field.name]);
        if error.Some? {
          RefusalStays(policy.naming, entity, old(policy.registry), fields, path, segments,
                       old(tables)[frame].physicalName, i + 1);
          return;
        }
        ghost var name := old(tables)[frame].physicalName;
        ghost var out := FieldTables(policy.naming, entity, old(policy.registry), fields[..i], path, segments, name);
        ghost var more := TablesIn(policy.naming, entity, registry, field.dtype, JoinPath(path, field.name),
                                   segments + [field.name], name);
        ExtendTwice(old(tables), frame, FieldColumns(fields[..i], path, segments),
                    FieldExplosions(fields[..i], path, segments), out.tables,
                    ColumnsIn(field.dtype, JoinPath(path, field.name), segments + [field.name]),
                    ExplosionsIn(field.dtype, JoinPath(path, field.name), segments + [field.name]), more.tables);
      }
      assert fields[..|fields|] == fields;
    }

    method WalkField(field: Field, frame: nat, path: string, segments: seq<string>)
      returns (error: Option<NameResult>)
      requires frame < |tables| && segments != []
      modifies this, policy
      ensures var out := TablesIn(policy.naming, entity, old(policy.registry), field.dtype, path, segments,
                                  old(tables)[frame].physicalName);
              && (error.Some? ==> out == Refused(error.value))
              && (error.None? ==>
                    && out.Planned? && policy.registry == out.registry
                    && tables == Extend(old(tables), frame, ColumnsIn(field.dtype, path, segments),
                                        ExplosionsIn(field.dtype, path, segments), out.tables))
      decreases field, 1
    {
      error := None;
      match field.dtype {
        case StructType(fields) =>
          error := WalkFields(fields, frame, path, segments);
        case ArrayType(element) =>
          var childFrame := |tables|;
          var name := CreateTable(path, [entity] + segments, Some(tables[frame].physicalName));
          if !name.Named? {
            return Some(name);
          }
          var accessor := Join(segments, ".");
          tables := tables[frame := tables[frame].(children := tables[frame].children + [Explosion(accessor, path)])];
          ghost var child, others := tables[childFrame], tables[..childFrame];
          assert tables == others + [child];
          assert old(tables)[frame].columns + [] == old(tables)[frame].columns;
          if element.StructType? {
            error := WalkFields(element.fields, childFrame, path, []);
            if error.None? {
              ghost var rest := FieldTables(policy.naming, entity, Register(old(policy.registry), name, path),
                                            element.fields, path, [], name.name);
              ExtendAppended(others, child, ElementColumns(element, path), ElementExplosions(element, path),
                             rest.tables);
            }
          } else {
            RegisterScalar(childFrame, JoinPath(path, VALUE), VALUE, VALUE);
            ExtendAppended(others, child, ElementColumns(element, path), [], []);
            ghost var filled := child.(columns := ElementColumns(element, path));
            assert child.children == [] && [filled] + [] == [filled];
          }
        case _ =>
          // Maps and scalars. The source's further branch, for an array item without segments, is dead:
          // every caller passes at least the name of the field.
          RegisterScalar(frame, path, ColumnName(segments), Join(segments, "."));
      }
    }

    /**
     * Append a column. The lookup meant to find an earlier column with the same logical path is built
     * from a list of records as if it were a list of pairs: its keys are pairs, a logical path is never
     * one of them, and the guard behind it never fires.
     */
    method RegisterScalar(frame: nat, logicalPath: string, physicalName: string, accessor: string)
      requires frame < |tables|
      modifies this
      ensures tables == Extend(old(tables), frame, [Column(logicalPath, physicalName, accessor)], [], [])
    {
      var table := tables[frame];
      tables := tables[frame := table.(columns := table.columns + [Column(logicalPath, physicalName, accessor)])];
      assert table.children + [] == table.children;
      assert tables + [] == tables;
    }
  }

  lemma {:induction false} RefusalStays(naming: Naming, entity: string, registry: Registry, fields: seq<Field>,
                                        path: string,
                                        segments: seq<string>, parentName: string, i: nat)
    requires i <= |fields|
    requires FieldTables(naming, entity, registry, fields[..i], path, segments, parentName).Refused?
    ensures FieldTables(naming, entity, registry, fields, path, segments, parentName)
         == FieldTables(naming, entity, registry, fields[..i], path, segments, parentName)
  {
    if i == |fields| {
      assert fields[..i] == fields;
    } else {
      var init := fields[..|fields| - 1];
      assert init[..i] == fields[..i];
      RefusalStays(naming, entity, registry, init, path, segments, parentName, i);
    }
  }
}

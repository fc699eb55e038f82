/** The lineage graph and the impact analysis over it. */
module Lineage {
  import opened Seqs
  import opened Walks
  import opened Ordering
  import opened BreadthFirst

  type Column = (string, string)

  datatype LineageEdge = LineageEdge(
    sourceDataset: string, targetDataset: string, sourceColumn: Option<string>, targetColumn: Option<string>)
  {
    /** A missing and an empty name both count as absent. */
    predicate HasColumns() {
      && targetColumn.Some? && targetColumn.value != ""
      && sourceColumn.Some? && sourceColumn.value != ""
      && sourceDataset != ""
    }

    function TablePair(direction: Direction): (string, string) {
      if direction.Upstream? then (targetDataset, sourceDataset) else (sourceDataset, targetDataset)
    }

    function ColumnPair(direction: Direction): (Column, Column)
      requires HasColumns()
    {
      var source, target := (sourceDataset, sourceColumn.value), (targetDataset, targetColumn.value);
      if direction.Upstream? then (target, source) else (source, target)
    }
  }

  datatype Direction = Upstream | Downstream

  // The graph that a set of lineage edges denotes.

  function TableEdges(edges: set<LineageEdge>, direction: Direction): set<(string, string)> {
    set e | e in edges :: e.TablePair(direction)
  }

  function ColumnEdges(edges: set<LineageEdge>, direction: Direction): set<(Column, Column)> {
    set e | e in edges && e.HasColumns() :: e.ColumnPair(direction)
  }

  // What the adjacency indexes must hold for a list of edges.

  function TableRefs(edges: seq<LineageEdge>, direction: Direction, dataset: string): seq<string> {
    if edges == [] then []
    else
      var pair := edges[|edges| - 1].TablePair(direction);
      TableRefs(edges[..|edges| - 1], direction, dataset) + if pair.0 == dataset then [pair.1] else []
  }

  function ColumnRefs(edges: seq<LineageEdge>, direction: Direction, column: Column): seq<Column> {
    if edges == [] then []
    else
      var edge := edges[|edges| - 1];
      ColumnRefs(edges[..|edges| - 1], direction, column)
      + if edge.HasColumns() && edge.ColumnPair(direction).0 == column then [edge.ColumnPair(direction).1] else []
  }

  /** Neighbors in order of first mention, each once. */
  function TableNext(edges: seq<LineageEdge>, direction: Direction): string -> seq<string> {
    (x: string) => Fresh(TableRefs(edges, direction, x), {})
  }

  function ColumnNext(edges: seq<LineageEdge>, direction: Direction): Column -> seq<Column> {
    (c: Column) => Fresh(ColumnRefs(edges, direction, c), {})
  }

  function ListAt<T>(index: map<string, seq<T>>, key: string): seq<T> {
    if key in index then index[key] else []
  }

  function ColumnListAt(index: map<string, map<string, seq<Column>>>, column: Column): seq<Column> {
    if column.0 in index then ListAt(index[column.0], column.1) else []
  }

  function AppendNew<T(==)>(list: seq<T>, x: T): seq<T> {
    if x in list then list else list + [x]
  }

  ghost predicate TablesIndexed(index: map<string, seq<string>>, edges: seq<LineageEdge>, direction: Direction) {
    && (forall x :: ListAt(index, x) == Fresh(TableRefs(edges, direction, x), {}))
    && (forall x :: x in index ==> index[x] != [])
  }

  ghost predicate ColumnsIndexed(
    index: map<string, map<string, seq<Column>>>, edges: seq<LineageEdge>, direction: Direction)
  {
    && (forall c :: ColumnListAt(index, c) == Fresh(ColumnRefs(edges, direction, c), {}))
    && (forall d :: d in index ==> index[d] != map[] && forall c :: c in index[d] ==> index[d][c] != [])
  }

  class LineageGraph {
    var edges: seq<LineageEdge>
    var tableParents: map<string, seq<string>>
    var tableChildren: map<string, seq<string>>
    var columnUpstream: map<string, map<string, seq<Column>>>
    var columnDownstream: map<string, map<string, seq<Column>>>

    ghost predicate Valid()
      reads this
    {
      && TablesIndexed(tableParents, edges, Upstream)
      && TablesIndexed(tableChildren, edges, Downstream)
      && ColumnsIndexed(columnUpstream, edges, Upstream)
      && ColumnsIndexed(columnDownstream, edges, Downstream)
    }

    constructor ()
      ensures Valid() && edges == []
    {
      edges := [];
      tableParents, tableChildren := map[], map[];
      columnUpstream, columnDownstream := map[], map[];
    }

    method AddEdge(edge: LineageEdge)
      requires Valid()
      modifies this
      ensures Valid() && edges == old(edges) + [edge]
    {
      ghost var before := edges;
      edges := edges + [edge];
      PutTableIndexes(tableParents, before, edge, Upstream);
      tableParents := PutTable(tableParents, edge.targetDataset, edge.sourceDataset);
      PutTableIndexes(tableChildren, before, edge, Downstream);
      tableChildren := PutTable(tableChildren, edge.sourceDataset, edge.targetDataset);
      if edge.HasColumns() {
        var source := (edge.sourceDataset, edge.sourceColumn.value);
        var target := (edge.targetDataset, edge.targetColumn.value);
        PutColumnIndexes(columnUpstream, before, edge, Upstream);
        columnUpstream := PutColumn(columnUpstream, target, source);
        PutColumnIndexes(columnDownstream, before, edge, Downstream);
        columnDownstream := PutColumn(columnDownstream, source, target);
      } else {
        NoColumns(columnUpstream, before, edge, Upstream);
        NoColumns(columnDownstream, before, edge, Downstream);
      }
    }

    method BfsTable(startDataset: string, direction: Direction, maxDepth: int) returns (rows: seq<Hit<string>>)
      requires Valid()
      ensures rows == Rows(TableNext(edges, direction), startDataset, Bound(maxDepth))
      ensures TableRowsExact(ToSet(edges), startDataset, direction, Bound(maxDepth), rows)
    {
      var adjacency := if direction.Upstream? then tableParents else tableChildren;
      var next := (x: string) => ListAt(adjacency, x);
      rows := Search(next, startDataset, maxDepth);
      TableIndexRealizes(adjacency, edges, direction, next);
      RowsCongruent(next, TableNext(edges, direction), startDataset, Bound(maxDepth));
      RowsExact(next, TableEdges(ToSet(edges), direction), startDataset, Bound(maxDepth));
    }

    method BfsColumns(startDataset: string, startColumn: string, direction: Direction, maxDepth: int)
      returns (rows: seq<Hit<Column>>)
      requires Valid()
      ensures rows == Rows(ColumnNext(edges, direction), (startDataset, startColumn), Bound(maxDepth))
      ensures ColumnRowsExact(ToSet(edges), (startDataset, startColumn), direction, Bound(maxDepth), rows)
    {
      var adjacency := if direction.Upstream? then columnUpstream else columnDownstream;
      var next := (c: Column) => ColumnListAt(adjacency, c);
      rows := Search(next, (startDataset, startColumn), maxDepth);
      ColumnIndexRealizes(adjacency, edges, direction, next);
      RowsCongruent(next, ColumnNext(edges, direction), (startDataset, startColumn), Bound(maxDepth));
      RowsExact(next, ColumnEdges(ToSet(edges), direction), (startDataset, startColumn), Bound(maxDepth));
    }

    /** The combining part of the analysis; `column` is `<dataset>.<column>`, split at its last dot. */
    method RunImpactAnalysis(column: string, depth: int) returns (outcome: ImpactOutcome)
      requires Valid()
      ensures depth < 1 ==> outcome == DepthTooSmall
      ensures depth >= 1 && '.' !in column ==> outcome == NotQualified
      ensures depth >= 1 && '.' in column ==>
                && outcome.Report?
                && column == outcome.dataset + "." + outcome.columnName && '.' !in outcome.columnName
                && ReportHalf(ToSet(edges), (outcome.dataset, outcome.columnName), Upstream, depth, outcome.upstream)
                && ReportHalf(ToSet(edges), (outcome.dataset, outcome.columnName), Downstream, depth,
                              outcome.downstream)
      // The first step in both directions, in terms of the fields of the edges.
      ensures outcome.Report? ==>
                forall d, c :: Hit((d, c), 1) in outcome.upstream.columns <==>
                  d != "" && c != "" && outcome.columnName != ""
                  && exists e :: e in edges && e.sourceDataset == d && e.targetDataset == outcome.dataset
                                 && e.sourceColumn == Some(c) && e.targetColumn == Some(outcome.columnName)
      ensures outcome.Report? ==>
                forall d, c :: Hit((d, c), 1) in outcome.downstream.columns <==>
                  outcome.dataset != "" && outcome.columnName != "" && c != ""
                  && exists e :: e in edges && e.sourceDataset == outcome.dataset && e.targetDataset == d
                                 && e.sourceColumn == Some(outcome.columnName) && e.targetColumn == Some(c)
      ensures outcome.Report? ==>
                forall e :: e in edges ==>
                  && (e.targetDataset == outcome.dataset ==> e.sourceDataset in outcome.upstream.datasets)
                  && (e.sourceDataset == outcome.dataset ==> e.targetDataset in outcome.downstream.datasets)
      ensures outcome.Report? && depth == 1 ==>
                && (forall d :: d in outcome.upstream.datasets ==>
                      exists e :: e in edges && e.targetDataset == outcome.dataset && e.sourceDataset == d)
                && (forall d :: d in outcome.downstream.datasets ==>
                      exists e :: e in edges && e.sourceDataset == outcome.dataset && e.targetDataset == d)
      ensures outcome.Report? ==> InReportOrder(outcome.upstream) && InReportOrder(outcome.downstream)
    {
      if depth < 1 {
        return DepthTooSmall;
      }
      if '.' !in column {
        return NotQualified;
      }
      var cut := LastDot(column);
      var dataset, name := column[..cut], column[cut + 1..];
      assert column == dataset + "." + name;
      var upstreamColumns := BfsColumns(dataset, name, Upstream, depth);
      var downstreamColumns := BfsColumns(dataset, name, Downstream, depth);
      var upstreamTables := BfsTable(dataset, Upstream, depth);
      var downstreamTables := BfsTable(dataset, Downstream, depth);
      var upstream := Combine(upstreamColumns, upstreamTables);
      var downstream := Combine(downstreamColumns, downstreamTables);
      CombineIsReportHalf(ToSet(edges), (dataset, name), Upstream, depth, upstreamColumns, upstreamTables);
      CombineIsReportHalf(ToSet(edges), (dataset, name), Downstream, depth, downstreamColumns, downstreamTables);
      FirstSteps(edges, (dataset, name), depth, upstream, downstream);
      HalfInOrder(ToSet(edges), (dataset, name), Upstream, depth, upstream);
      HalfInOrder(ToSet(edges), (dataset, name), Downstream, depth, downstream);
      outcome := Report(dataset, name, upstream, downstream);
    }
  }

  /** A graph built by adding edges one after the other, in any order and with any repetition. */
  method BuildGraph(edges: seq<LineageEdge>) returns (graph: LineageGraph)
    ensures fresh(graph) && graph.Valid() && graph.edges == edges
  {
    graph := new LineageGraph();
    for i := 0 to |edges|
      invariant graph.Valid() && graph.edges == edges[..i]
      invariant fresh(graph)
    {
      graph.AddEdge(edges[i]);
    }
  }

  /** `index.setdefault(key, [])`, then append `value` unless it is listed. */
  function PutTable(index: map<string, seq<string>>, key: string, value: string): map<string, seq<string>> {
    index[key := AppendNew(ListAt(index, key), value)]
  }

  function PutColumn(index: map<string, map<string, seq<Column>>>, key: Column, value: Column)
    : map<string, map<string, seq<Column>>>
  {
    var inner := if key.0 in index then index[key.0] else map[];
    index[key.0 := inner[key.1 := AppendNew(ListAt(inner, key.1), value)]]
  }

  lemma PutTableIndexes(index: map<string, seq<string>>, before: seq<LineageEdge>, edge: LineageEdge,
                        direction: Direction)
    requires TablesIndexed(index, before, direction)
    ensures var (key, value) := edge.TablePair(direction);
            TablesIndexed(PutTable(index, key, value), before + [edge], direction)
  {
    var (key, value) := edge.TablePair(direction);
    var after := PutTable(index, key, value);
    forall x
      ensures ListAt(after, x) == Fresh(TableRefs(before + [edge], direction, x), {})
    {
      assert ListAt(index, x) == Fresh(TableRefs(before, direction, x), {});
      TableRefsSnoc(before, edge, direction, x);
    }
  }

  lemma TableRefsSnoc(before: seq<LineageEdge>, edge: LineageEdge, direction: Direction, x: string)
    ensures var (key, value) := edge.TablePair(direction);
            var listed := Fresh(TableRefs(before, direction, x), {});
            Fresh(TableRefs(before + [edge], direction, x), {}) == if x == key then AppendNew(listed, value) else listed
  {
    var (key, value) := edge.TablePair(direction);
    var refs := TableRefs(before, direction, x);
    assert (before + [edge])[..|before|] == before && (before + [edge])[|before|] == edge;
    assert TableRefs(before + [edge], direction, x) == refs + if x == key then [value] else [];
    FreshIsDistinct(refs, {});
    FreshSnoc(refs, value, {});
    assert x != key ==> refs + [] == refs;
  }

  lemma PutColumnLookup(index: map<string, map<string, seq<Column>>>, key: Column, value: Column, c: Column)
    ensures ColumnListAt(PutColumn(index, key, value), c)
         == if c == key then AppendNew(ColumnListAt(index, key), value) else ColumnListAt(index, c)
  {
  }

  lemma PutColumnIndexes(index: map<string, map<string, seq<Column>>>, before: seq<LineageEdge>, edge: LineageEdge,
                         direction: Direction)
    requires ColumnsIndexed(index, before, direction) && edge.HasColumns()
    ensures var (key, value) := edge.ColumnPair(direction);
            ColumnsIndexed(PutColumn(index, key, value), before + [edge], direction)
  {
    var (key, value) := edge.ColumnPair(direction);
    var after := PutColumn(index, key, value);
    forall d | d in after
      ensures after[d] != map[] && forall c :: c in after[d] ==> after[d][c] != []
    {
      assert d == key.0 ==> key.1 in after[d];
    }
    forall c
      ensures ColumnListAt(after, c) == Fresh(ColumnRefs(before + [edge], direction, c), {})
    {
      PutColumnLookup(index, key, value, c);
      assert ColumnListAt(index, c) == Fresh(ColumnRefs(before, direction, c), {});
      ColumnRefsSnoc(before, edge, direction, c);
    }
  }

  lemma ColumnRefsSnoc(before: seq<LineageEdge>, edge: LineageEdge, direction: Direction, c: Column)
    requires edge.HasColumns()
    ensures var (key, value) := edge.ColumnPair(direction);
            var listed := Fresh(ColumnRefs(before, direction, c), {});
            Fresh(ColumnRefs(before + [edge], direction, c), {})
            == if c == key then AppendNew(listed, value) else listed
  {
    var (key, value) := edge.ColumnPair(direction);
    var refs := ColumnRefs(before, direction, c);
    assert (before + [edge])[..|before|] == before && (before + [edge])[|before|] == edge;
    assert ColumnRefs(before + [edge], direction, c) == refs + if c == key then [value] else [];
    FreshIsDistinct(refs, {});
    FreshSnoc(refs, value, {});
    assert c != key ==> refs + [] == refs;
  }

  lemma NoColumns(index: map<string, map<string, seq<Column>>>, before: seq<LineageEdge>, edge: LineageEdge,
                  direction: Direction)
    requires ColumnsIndexed(index, before, direction) && !edge.HasColumns()
    ensures ColumnsIndexed(index, before + [edge], direction)
  {
    assert (before + [edge])[..|before|] == before;
    forall c
      ensures ColumnListAt(index, c) == Fresh(ColumnRefs(before + [edge], direction, c), {})
    {
      assert ColumnRefs(before + [edge], direction, c) == ColumnRefs(before, direction, c);
    }
  }

  lemma {:induction false} TableRefsAreEdges(edges: seq<LineageEdge>, direction: Direction, x: string, y: string)
    ensures y in TableRefs(edges, direction, x) <==> (x, y) in TableEdges(ToSet(edges), direction)
  {
    if edges != [] {
      var init, last := edges[..|edges| - 1], edges[|edges| - 1];
      TableRefsAreEdges(init, direction, x, y);
      assert edges == init + [last];
      assert last in ToSet(edges);
      assert (x, y) in TableEdges(ToSet(edges), direction) <==>
             (x, y) in TableEdges(ToSet(init), direction) || last.TablePair(direction) == (x, y);
    }
  }

  lemma {:induction false} ColumnRefsAreEdges(edges: seq<LineageEdge>, direction: Direction, x: Column, y: Column)
    ensures y in ColumnRefs(edges, direction, x) <==> (x, y) in ColumnEdges(ToSet(edges), direction)
  {
    if edges != [] {
      var init, last := edges[..|edges| - 1], edges[|edges| - 1];
      ColumnRefsAreEdges(init, direction, x, y);
      assert edges == init + [last];
      assert last in ToSet(edges);
      assert (x, y) in ColumnEdges(ToSet(edges), direction) <==>
             (x, y) in ColumnEdges(ToSet(init), direction)
             || (last.HasColumns() && last.ColumnPair(direction) == (x, y));
    }
  }

  lemma TableIndexRealizes(index: map<string, seq<string>>, edges: seq<LineageEdge>, direction: Direction,
                           next: string -> seq<string>)
    requires TablesIndexed(index, edges, direction) && forall x :: next(x) == ListAt(index, x)
    ensures Realizes(next, TableEdges(ToSet(edges), direction))
  {
    forall x, y
      ensures y in next(x) <==> (x, y) in TableEdges(ToSet(edges), direction)
    {
      assert next(x) == ListAt(index, x) == Fresh(TableRefs(edges, direction, x), {});
      FreshIsDistinct(TableRefs(edges, direction, x), {});
      TableRefsAreEdges(edges, direction, x, y);
    }
  }

  lemma ColumnIndexRealizes(index: map<string, map<string, seq<Column>>>, edges: seq<LineageEdge>,
                            direction: Direction, next: Column -> seq<Column>)
    requires ColumnsIndexed(index, edges, direction) && forall x :: next(x) == ColumnListAt(index, x)
    ensures Realizes(next, ColumnEdges(ToSet(edges), direction))
  {
    forall x, y
      ensures y in next(x) <==> (x, y) in ColumnEdges(ToSet(edges), direction)
    {
      assert next(x) == ColumnListAt(index, x) == Fresh(ColumnRefs(edges, direction, x), {});
      FreshIsDistinct(ColumnRefs(edges, direction, x), {});
      ColumnRefsAreEdges(edges, direction, x, y);
    }
  }

  // What a search result means.

  /** The rows are exactly the shortest nonempty walks within the bound, in order of depth, each node once. */
  ghost predicate ExactRows<T(!new)>(edges: set<(T, T)>, start: T, bound: nat, rows: seq<Hit<T>>) {
    && (forall h :: h in rows <==> h.depth <= bound && ShortestWalk(edges, start, h.node, h.depth))
    && OrderedRows(rows)
  }

  ghost predicate TableRowsExact(edges: set<LineageEdge>, start: string, direction: Direction, bound: nat,
                                 rows: seq<Hit<string>>)
  {
    ExactRows(TableEdges(edges, direction), start, bound, rows)
  }

  ghost predicate ColumnRowsExact(edges: set<LineageEdge>, start: Column, direction: Direction, bound: nat,
                                  rows: seq<Hit<Column>>)
  {
    ExactRows(ColumnEdges(edges, direction), start, bound, rows)
  }

  lemma RowsExact<T(!new)>(next: T -> seq<T>, edges: set<(T, T)>, start: T, bound: nat)
    requires Realizes(next, edges)
    ensures ExactRows(edges, start, bound, Rows(next, start, bound))
  {
    RowsAreOrdered(next, start, bound);
    forall h
      ensures h in Rows(next, start, bound) <==> h.depth <= bound && ShortestWalk(edges, start, h.node, h.depth)
    {
      RowsAreShortestWalks(next, edges, start, bound, h);
    }
  }

  lemma DirectionsAreConverse(edges: set<LineageEdge>)
    ensures TableEdges(edges, Upstream) == Converse(TableEdges(edges, Downstream))
    ensures ColumnEdges(edges, Upstream) == Converse(ColumnEdges(edges, Downstream))
  {
    forall x, y
      ensures (x, y) in TableEdges(edges, Upstream) <==> (y, x) in TableEdges(edges, Downstream)
    {
      if (x, y) in TableEdges(edges, Upstream) {
        var e :| e in edges && e.TablePair(Upstream) == (x, y);
        assert e.TablePair(Downstream) == (y, x);
      }
      if (y, x) in TableEdges(edges, Downstream) {
        var e :| e in edges && e.TablePair(Downstream) == (y, x);
        assert e.TablePair(Upstream) == (x, y);
      }
      ConverseEdge(TableEdges(edges, Downstream), x, y);
    }
    forall x, y
      ensures (x, y) in ColumnEdges(edges, Upstream) <==> (y, x) in ColumnEdges(edges, Downstream)
    {
      if (x, y) in ColumnEdges(edges, Upstream) {
        var e :| e in edges && e.HasColumns() && e.ColumnPair(Upstream) == (x, y);
        assert e.ColumnPair(Downstream) == (y, x);
      }
      if (y, x) in ColumnEdges(edges, Downstream) {
        var e :| e in edges && e.HasColumns() && e.ColumnPair(Downstream) == (y, x);
        assert e.ColumnPair(Upstream) == (x, y);
      }
      ConverseEdge(ColumnEdges(edges, Downstream), x, y);
    }
  }

  lemma ShortestConverse<T(!new)>(edges: set<(T, T)>, a: T, b: T, d: nat)
    ensures ShortestWalk(Converse(edges), b, a, d) <==> ShortestWalk(edges, a, b, d)
  {
    forall e: nat
      ensures Reach(Converse(edges), b, a, e) <==> Reach(edges, a, b, e)
    {
      ReachConverse(edges, a, b, e);
    }
  }

  /** One column is upstream of another at a depth iff the other is downstream of it at that depth. */
  lemma ImpactDuality(edges: set<LineageEdge>, a: Column, b: Column, d: nat, bound: nat,
                      up: seq<Hit<Column>>, down: seq<Hit<Column>>)
    requires ColumnRowsExact(edges, a, Upstream, bound, up)
    requires ColumnRowsExact(edges, b, Downstream, bound, down)
    ensures Hit(b, d) in up <==> Hit(a, d) in down
  {
    DirectionsAreConverse(edges);
    ShortestConverse(ColumnEdges(edges, Downstream), b, a, d);
    assert Hit(b, d) in up <==> d <= bound && ShortestWalk(ColumnEdges(edges, Upstream), a, b, d);
    assert Hit(a, d) in down <==> d <= bound && ShortestWalk(ColumnEdges(edges, Downstream), b, a, d);
  }

  lemma TableDuality(edges: set<LineageEdge>, a: string, b: string, d: nat, bound: nat,
                     up: seq<Hit<string>>, down: seq<Hit<string>>)
    requires TableRowsExact(edges, a, Upstream, bound, up)
    requires TableRowsExact(edges, b, Downstream, bound, down)
    ensures Hit(b, d) in up <==> Hit(a, d) in down
  {
    DirectionsAreConverse(edges);
    ShortestConverse(TableEdges(edges, Downstream), b, a, d);
    assert Hit(b, d) in up <==> d <= bound && ShortestWalk(TableEdges(edges, Upstream), a, b, d);
    assert Hit(a, d) in down <==> d <= bound && ShortestWalk(TableEdges(edges, Downstream), b, a, d);
  }

  // The report.

  datatype HalfReport = HalfReport(datasets: seq<string>, columns: seq<Hit<Column>>)

  datatype ImpactOutcome =
    | DepthTooSmall
    | NotQualified
    | Report(dataset: string, columnName: string, upstream: HalfReport, downstream: HalfReport)

  function LastDot(s: string): (i: nat)
    requires '.' in s
    ensures i < |s| && s[i] == '.' && '.' !in s[i + 1..]
  {
    if s[|s| - 1] == '.' then |s| - 1 else LastDot(s[..|s| - 1])
  }

  /** Row order of the report: depth, then dataset, then column. */
  predicate HitLe(a: Hit<Column>, b: Hit<Column>) {
    a.depth < b.depth
    || (a.depth == b.depth
        && (if a.node.0 == b.node.0 then StringLe(a.node.1, b.node.1) else StringLe(a.node.0, b.node.0)))
  }

  lemma HitLeIsTotalOrder()
    ensures TotalOrder(HitLe)
  {
    StringLeIsTotalOrder();
  }

  function RowDatasets(rows: seq<Hit<Column>>): seq<string> {
    seq(|rows|, i requires 0 <= i < |rows| => rows[i].node.0)
  }

  function Nodes<T>(rows: seq<Hit<T>>): seq<T> {
    seq(|rows|, i requires 0 <= i < |rows| => rows[i].node)
  }

  /** The datasets of the column rows united with those of the table rows, and the column rows, both sorted. */
  function Combine(columnRows: seq<Hit<Column>>, tableRows: seq<Hit<string>>): HalfReport {
    HalfReport(
      Sort(StringLe, Fresh(RowDatasets(columnRows) + Nodes(tableRows), {})),
      Sort(HitLe, columnRows))
  }

  /** The meaning of one half of the report, in terms of the set of edges alone. */
  ghost predicate ReportHalf(edges: set<LineageEdge>, start: Column, direction: Direction, depth: nat,
                             half: HalfReport)
  {
    && SortedBy(StringLe, half.datasets) && Distinct(half.datasets)
    && (forall x :: x in half.datasets <==> ReachWithin(TableEdges(edges, direction), start.0, x, depth))
    && SortedBy(HitLe, half.columns) && Distinct(half.columns)
    && (forall h :: h in half.columns <==>
          h.depth <= depth && ShortestWalk(ColumnEdges(edges, direction), start, h.node, h.depth))
  }

  /** Datasets by code point; columns by depth, then dataset, then column; no entry twice. */
  ghost predicate InReportOrder(half: HalfReport) {
    && (forall i, j :: 0 <= i < j < |half.datasets| ==>
          StringLe(half.datasets[i], half.datasets[j]) && half.datasets[i] != half.datasets[j])
    && (forall i, j :: 0 <= i < j < |half.columns| ==>
          var a, b := half.columns[i], half.columns[j];
          && a.depth <= b.depth && a.node != b.node
          && (a.depth == b.depth ==>
                && StringLe(a.node.0, b.node.0)
                && (a.node.0 == b.node.0 ==> StringLe(a.node.1, b.node.1))))
  }

  lemma HalfInOrder(edges: set<LineageEdge>, start: Column, direction: Direction, depth: nat, half: HalfReport)
    requires ReportHalf(edges, start, direction, depth, half)
    ensures InReportOrder(half)
  {
    StringLeIsTotalOrder();
    forall i, j | 0 <= i < j < |half.columns|
      ensures HitLe(half.columns[i], half.columns[j]) && half.columns[i].node != half.columns[j].node
    {
      var a, b := half.columns[i], half.columns[j];
      assert a in half.columns && b in half.columns;
      if a.node == b.node {
        SameShortest(ColumnEdges(edges, direction), start, a.node, a.depth, b.depth);
        assert false;
      }
    }
  }

  lemma SameShortest<T(!new)>(edges: set<(T, T)>, a: T, b: T, d: nat, e: nat)
    requires ShortestWalk(edges, a, b, d) && ShortestWalk(edges, a, b, e)
    ensures d == e
  {
  }

  lemma OneStep<T(!new)>(edges: set<(T, T)>, a: T, b: T)
    ensures Reach(edges, a, b, 1) <==> (a, b) in edges
    ensures ShortestWalk(edges, a, b, 1) <==> (a, b) in edges
    ensures ReachWithin(edges, a, b, 1) <==> (a, b) in edges
  {
    if (a, b) in edges {
      assert WalkFromTo(edges, [a, b], a, b);
    }
    if Reach(edges, a, b, 1) {
      var p :| |p| == 2 && WalkFromTo(edges, p, a, b);
      assert (p[0], p[1]) in edges;
    }
  }

  /** What an edge is to the column searches, by its fields. */
  lemma ColumnEdgeIs(edges: seq<LineageEdge>, source: Column, target: Column)
    ensures (target, source) in ColumnEdges(ToSet(edges), Upstream) <==>
              source.0 != "" && source.1 != "" && target.1 != ""
              && exists e :: e in edges && e.sourceDataset == source.0 && e.targetDataset == target.0
                             && e.sourceColumn == Some(source.1) && e.targetColumn == Some(target.1)
    ensures (source, target) in ColumnEdges(ToSet(edges), Downstream) <==>
              (target, source) in ColumnEdges(ToSet(edges), Upstream)
  {
    DirectionsAreConverse(ToSet(edges));
    ConverseEdge(ColumnEdges(ToSet(edges), Downstream), target, source);
    var upstream := ColumnEdges(ToSet(edges), Upstream);
    if (target, source) in upstream {
      var e :| e in ToSet(edges) && e.HasColumns() && e.ColumnPair(Upstream) == (target, source);
      assert e in edges && e.sourceColumn == Some(source.1) && e.targetColumn == Some(target.1);
    }
    if e :| e in edges && e.sourceDataset == source.0 && e.targetDataset == target.0
            && e.sourceColumn == Some(source.1) && e.targetColumn == Some(target.1)
    {
      assert source.0 != "" && source.1 != "" && target.1 != "" ==>
             e in ToSet(edges) && e.HasColumns() && e.ColumnPair(Upstream) == (target, source);
    }
  }

  lemma TableEdgeIs(edges: seq<LineageEdge>, source: string, target: string)
    ensures (target, source) in TableEdges(ToSet(edges), Upstream) <==>
              exists e :: e in edges && e.sourceDataset == source && e.targetDataset == target
    ensures (source, target) in TableEdges(ToSet(edges), Downstream) <==>
              (target, source) in TableEdges(ToSet(edges), Upstream)
  {
    DirectionsAreConverse(ToSet(edges));
    ConverseEdge(TableEdges(ToSet(edges), Downstream), target, source);
    if (target, source) in TableEdges(ToSet(edges), Upstream) {
      var e :| e in ToSet(edges) && e.TablePair(Upstream) == (target, source);
      assert e in edges;
    }
    if e :| e in edges && e.sourceDataset == source && e.targetDataset == target {
      assert e in ToSet(edges) && e.TablePair(Upstream) == (target, source);
    }
  }

  /** The neighbors of the query in both directions, by the fields of the edges. */
  lemma FirstSteps(edges: seq<LineageEdge>, query: Column, depth: nat, upstream: HalfReport, downstream: HalfReport)
    requires depth >= 1
    requires ReportHalf(ToSet(edges), query, Upstream, depth, upstream)
    requires ReportHalf(ToSet(edges), query, Downstream, depth, downstream)
    ensures forall d, c :: Hit((d, c), 1) in upstream.columns <==>
              d != "" && c != "" && query.1 != ""
              && exists e :: e in edges && e.sourceDataset == d && e.targetDataset == query.0
                             && e.sourceColumn == Some(c) && e.targetColumn == Some(query.1)
    ensures forall d, c :: Hit((d, c), 1) in downstream.columns <==>
              query.0 != "" && query.1 != "" && c != ""
              && exists e :: e in edges && e.sourceDataset == query.0 && e.targetDataset == d
                             && e.sourceColumn == Some(query.1) && e.targetColumn == Some(c)
    ensures forall e :: e in edges ==>
              && (e.targetDataset == query.0 ==> e.sourceDataset in upstream.datasets)
              && (e.sourceDataset == query.0 ==> e.targetDataset in downstream.datasets)
    ensures depth == 1 ==>
              && (forall d :: d in upstream.datasets ==>
                    exists e :: e in edges && e.targetDataset == query.0 && e.sourceDataset == d)
              && (forall d :: d in downstream.datasets ==>
                    exists e :: e in edges && e.sourceDataset == query.0 && e.targetDataset == d)
  {
    forall c: Column
      ensures Hit(c, 1) in upstream.columns <==> (query, c) in ColumnEdges(ToSet(edges), Upstream)
      ensures Hit(c, 1) in downstream.columns <==> (query, c) in ColumnEdges(ToSet(edges), Downstream)
    {
      OneStep(ColumnEdges(ToSet(edges), Upstream), query, c);
      OneStep(ColumnEdges(ToSet(edges), Downstream), query, c);
    }
    forall d, c
      ensures Hit((d, c), 1) in upstream.columns <==>
                d != "" && c != "" && query.1 != ""
                && exists e :: e in edges && e.sourceDataset == d && e.targetDataset == query.0
                               && e.sourceColumn == Some(c) && e.targetColumn == Some(query.1)
      ensures Hit((d, c), 1) in downstream.columns <==>
                query.0 != "" && query.1 != "" && c != ""
                && exists e :: e in edges && e.sourceDataset == query.0 && e.targetDataset == d
                               && e.sourceColumn == Some(query.1) && e.targetColumn == Some(c)
    {
      ColumnEdgeIs(edges, (d, c), query);
      ColumnEdgeIs(edges, query, (d, c));
    }
    FirstDatasets(edges, query, depth, upstream, downstream);
  }

  lemma FirstDatasets(edges: seq<LineageEdge>, query: Column, depth: nat, upstream: HalfReport,
                      downstream: HalfReport)
    requires depth >= 1
    requires ReportHalf(ToSet(edges), query, Upstream, depth, upstream)
    requires ReportHalf(ToSet(edges), query, Downstream, depth, downstream)
    ensures forall e :: e in edges ==>
              && (e.targetDataset == query.0 ==> e.sourceDataset in upstream.datasets)
              && (e.sourceDataset == query.0 ==> e.targetDataset in downstream.datasets)
    ensures depth == 1 ==>
              && (forall d :: d in upstream.datasets ==>
                    exists e :: e in edges && e.targetDataset == query.0 && e.sourceDataset == d)
              && (forall d :: d in downstream.datasets ==>
                    exists e :: e in edges && e.sourceDataset == query.0 && e.targetDataset == d)
  {
    var ups, downs := TableEdges(ToSet(edges), Upstream), TableEdges(ToSet(edges), Downstream);
    forall d
      ensures (query.0, d) in ups ==> d in upstream.datasets
      ensures (query.0, d) in downs ==> d in downstream.datasets
      ensures depth == 1 && d in upstream.datasets ==> (query.0, d) in ups
      ensures depth == 1 && d in downstream.datasets ==> (query.0, d) in downs
    {
      OneStep(ups, query.0, d);
      OneStep(downs, query.0, d);
    }
    forall source, target
      ensures (target, source) in ups <==>
                exists e :: e in edges && e.sourceDataset == source && e.targetDataset == target
      ensures (source, target) in downs <==> (target, source) in ups
    {
      TableEdgeIs(edges, source, target);
    }
    forall e | e in edges
      ensures (e.targetDataset, e.sourceDataset) in ups && (e.sourceDataset, e.targetDataset) in downs
    {
      assert e in edges && e.sourceDataset == e.sourceDataset;
    }
  }

  lemma WithinHasShortest<T(!new)>(edges: set<(T, T)>, a: T, b: T, d: nat)
    ensures ReachWithin(edges, a, b, d) <==> exists e: nat :: e <= d && ShortestWalk(edges, a, b, e)
  {
    if ReachWithin(edges, a, b, d) {
      var e: nat :| 1 <= e <= d && Reach(edges, a, b, e);
      while !ShortestWalk(edges, a, b, e)
        invariant 1 <= e <= d && Reach(edges, a, b, e)
        decreases e
      {
        var shorter: nat :| 1 <= shorter < e && Reach(edges, a, b, shorter);
        e := shorter;
      }
    }
  }

  /** A column walk projects to a table walk of the same length. */
  lemma ColumnWalkProjects(edges: set<LineageEdge>, direction: Direction, a: Column, b: Column, k: nat)
    requires Reach(ColumnEdges(edges, direction), a, b, k)
    ensures Reach(TableEdges(edges, direction), a.0, b.0, k)
  {
    var dataset := (c: Column) => c.0;
    forall e | e in ColumnEdges(edges, direction)
      ensures (dataset(e.0), dataset(e.1)) in TableEdges(edges, direction)
    {
      var edge :| edge in edges && edge.HasColumns() && edge.ColumnPair(direction) == e;
      assert edge.TablePair(direction) == (e.0.0, e.1.0);
    }
    ReachProject(ColumnEdges(edges, direction), TableEdges(edges, direction), dataset, a, b, k);
  }

  /** Every dataset that the column search reaches, the table search reaches within the same depth. */
  lemma ColumnsAddNoDataset(edges: set<LineageEdge>, start: Column, direction: Direction, bound: nat,
                            columnRows: seq<Hit<Column>>, tableRows: seq<Hit<string>>, h: Hit<Column>)
    requires ColumnRowsExact(edges, start, direction, bound, columnRows)
    requires TableRowsExact(edges, start.0, direction, bound, tableRows)
    requires h in columnRows
    ensures exists t :: t in tableRows && t.node == h.node.0 && t.depth <= h.depth
  {
    ColumnWalkProjects(edges, direction, start, h.node, h.depth);
    var tables := TableEdges(edges, direction);
    assert ReachWithin(tables, start.0, h.node.0, h.depth);
    WithinHasShortest(tables, start.0, h.node.0, h.depth);
    var e: nat :| e <= h.depth && ShortestWalk(tables, start.0, h.node.0, e);
    assert Hit(h.node.0, e) in tableRows;
  }

  lemma OrderedRowsAreDistinct<T>(rows: seq<Hit<T>>)
    requires OrderedRows(rows)
    ensures Distinct(rows)
  {
  }

  lemma CombineIsReportHalf(edges: set<LineageEdge>, start: Column, direction: Direction, bound: nat,
                            columnRows: seq<Hit<Column>>, tableRows: seq<Hit<string>>)
    requires ColumnRowsExact(edges, start, direction, bound, columnRows)
    requires TableRowsExact(edges, start.0, direction, bound, tableRows)
    ensures ReportHalf(edges, start, direction, bound, Combine(columnRows, tableRows))
  {
    var listed := RowDatasets(columnRows) + Nodes(tableRows);
    FreshIsDistinct(listed, {});
    StringLeIsTotalOrder();
    SortOfDistinct(StringLe, Fresh(listed, {}));
    HitLeIsTotalOrder();
    OrderedRowsAreDistinct(columnRows);
    SortOfDistinct(HitLe, columnRows);
    forall x
      ensures x in listed <==> ReachWithin(TableEdges(edges, direction), start.0, x, bound)
    {
      ListedIsReached(edges, start, direction, bound, columnRows, tableRows, x);
    }
  }

  lemma ListedIsReached(edges: set<LineageEdge>, start: Column, direction: Direction, bound: nat,
                        columnRows: seq<Hit<Column>>, tableRows: seq<Hit<string>>, x: string)
    requires ColumnRowsExact(edges, start, direction, bound, columnRows)
    requires TableRowsExact(edges, start.0, direction, bound, tableRows)
    ensures x in RowDatasets(columnRows) + Nodes(tableRows)
       <==> ReachWithin(TableEdges(edges, direction), start.0, x, bound)
  {
    var tables := TableEdges(edges, direction);
    WithinHasShortest(tables, start.0, x, bound);
    if ReachWithin(tables, start.0, x, bound) {
      var e: nat :| e <= bound && ShortestWalk(tables, start.0, x, e);
      assert Hit(x, e) in tableRows;
      var i :| 0 <= i < |tableRows| && tableRows[i] == Hit(x, e);
      assert Nodes(tableRows)[i] == x;
    }
    if x in RowDatasets(columnRows) {
      var i :| 0 <= i < |columnRows| && RowDatasets(columnRows)[i] == x;
      ColumnsAddNoDataset(edges, start, direction, bound, columnRows, tableRows, columnRows[i]);
      var t :| t in tableRows && t.node == x;
      assert t.depth <= bound && ShortestWalk(tables, start.0, x, t.depth);
    }
    if x in Nodes(tableRows) {
      var i :| 0 <= i < |tableRows| && Nodes(tableRows)[i] == x;
      assert tableRows[i] in tableRows;
    }
  }

  /**
   * The report is a function of the set of edges: two lists of edges with the same elements, in any
   * order and with any repetition, give the same report.
   */
  lemma ReportDependsOnEdgeSet(edges: set<LineageEdge>, start: Column, direction: Direction, depth: nat,
                               first: HalfReport, second: HalfReport)
    requires ReportHalf(edges, start, direction, depth, first)
    requires ReportHalf(edges, start, direction, depth, second)
    ensures first == second
  {
    StringLeIsTotalOrder();
    HitLeIsTotalOrder();
    SortedSetIsUnique(StringLe, first.datasets, second.datasets);
    forall h
      ensures h in first.columns <==> h in second.columns
    {
      assert h in first.columns <==>
             h.depth <= depth && ShortestWalk(ColumnEdges(edges, direction), start, h.node, h.depth);
    }
    SortedSetIsUnique(HitLe, first.columns, second.columns);
  }
}

/**
 * The depth-bounded breadth-first search that the lineage queries run, and its exact meaning.
 * The start node is never marked as visited, so a start that lies on a cycle is reported at the
 * length of its shortest cycle: the search answers for nonempty walks.
 */
module BreadthFirst {
  import opened Seqs
  import opened Walks

  /** One result row. */
  datatype Hit<T> = Hit(node: T, depth: nat)

  /** The nodes found at one depth, in queue order, and every node found up to that depth. */
  datatype Frontier<T> = Frontier(nodes: seq<T>, visited: set<T>)

  function Expand<T>(next: T -> seq<T>, nodes: seq<T>): seq<T> {
    if nodes == [] then [] else Expand(next, nodes[..|nodes| - 1]) + next(nodes[|nodes| - 1])
  }

  /** The specification of the search: whole levels, no queue. */
  function Level<T(==)>(next: T -> seq<T>, start: T, d: nat): Frontier<T> {
    if d == 0 then Frontier([start], {})
    else
      var previous := Level(next, start, d - 1);
      var found := Fresh(Expand(next, previous.nodes), previous.visited);
      Frontier(found, previous.visited + ToSet(found))
  }

  function Tag<T>(nodes: seq<T>, d: nat): seq<Hit<T>> {
    seq(|nodes|, i requires 0 <= i < |nodes| => Hit(nodes[i], d))
  }

  /** All rows up to depth `bound`: the levels one after the other. */
  function Rows<T(==)>(next: T -> seq<T>, start: T, bound: nat): seq<Hit<T>> {
    if bound == 0 then [] else Rows(next, start, bound - 1) + Tag(Level(next, start, bound).nodes, bound)
  }

  function Bound(maxDepth: int): nat {
    if maxDepth < 0 then 0 else maxDepth
  }

  lemma ExpandSnoc<T>(next: T -> seq<T>, nodes: seq<T>, i: nat)
    requires i < |nodes|
    ensures Expand(next, nodes[..i + 1]) == Expand(next, nodes[..i]) + next(nodes[i])
  {
    assert nodes[..i + 1][..i] == nodes[..i];
  }

  lemma {:induction false} EmptyLevelEndsRows<T>(next: T -> seq<T>, start: T, d: nat, bound: nat)
    requires d <= bound && Level(next, start, d).nodes == []
    ensures Level(next, start, bound).nodes == []
    ensures Rows(next, start, bound) == Rows(next, start, d)
  {
    if d < bound {
      EmptyLevelEndsRows(next, start, d, bound - 1);
    }
  }

  /** The inner loop: queue the neighbors that no search step has met yet. */
  method Enqueue<T(==)>(neighbors: seq<T>, depth: nat, queue: seq<Hit<T>>, visited: set<T>)
    returns (longer: seq<Hit<T>>, seen: set<T>)
    ensures longer == queue + Tag(Fresh(neighbors, visited), depth)
    ensures seen == visited + ToSet(Fresh(neighbors, visited))
  {
    longer, seen := queue, visited;
    for j := 0 to |neighbors|
      invariant longer == queue + Tag(Fresh(neighbors[..j], visited), depth)
      invariant seen == visited + ToSet(Fresh(neighbors[..j], visited))
    {
      var neighbor := neighbors[j];
      FreshSnoc(neighbors[..j], neighbor, visited);
      FreshIsDistinct(neighbors[..j], visited);
      assert neighbors[..j + 1] == neighbors[..j] + [neighbor];
      if neighbor !in seen {
        seen := seen + {neighbor};
        longer := longer + [Hit(neighbor, depth)];
      }
    }
    assert neighbors[..|neighbors|] == neighbors;
  }

  /** The FIFO search with its queue, visited set and result list. */
  method Search<T(==,!new)>(next: T -> seq<T>, start: T, maxDepth: int) returns (results: seq<Hit<T>>)
    ensures results == Rows(next, start, Bound(maxDepth))
  {
    results := [];
    var visited: set<T> := {};
    var queue := [Hit(start, 0)];
    ghost var bound := Bound(maxDepth);
    ghost var levels, rows := Levels(next, start), RowsUpTo(next, start);
    LevelsFollow(next, start);
    ghost var at := Place(0, 0, levels(0), []);
    assert [start][0..] == [start];
    while queue != []
      invariant Progress(next, bound, levels, rows, at, State(queue, visited, results))
      decreases bound - at.depth, |at.level.nodes| - at.done
    {
      ghost var state := State(queue, visited, results);
      HeadOfQueue(next, bound, levels, rows, at, state);
      var head := queue[0];
      queue := queue[1..];
      if head.depth > 0 {
        results := results + [head];
      }
      if head.depth < maxDepth {
        queue, visited := Enqueue(next(head.node), head.depth + 1, queue, visited);
      }
      assert State(queue, visited, results) == Round(next, bound, state);
      at := Step(next, bound, levels, rows, at, state);
    }
    SearchEnd(next, start, bound, at, visited, results);
  }

  datatype State<T> = State(queue: seq<Hit<T>>, visited: set<T>, results: seq<Hit<T>>)

  /** One round of the loop: the head of the queue is reported and its new neighbors are queued. */
  ghost function Round<T>(next: T -> seq<T>, bound: nat, s: State<T>): State<T>
    requires s.queue != []
  {
    var head := s.queue[0];
    var results := if head.depth > 0 then s.results + [head] else s.results;
    if head.depth < bound then
      var more := Fresh(next(head.node), s.visited);
      State(s.queue[1..] + Tag(more, head.depth + 1), s.visited + ToSet(more), results)
    else
      State(s.queue[1..], s.visited, results)
  }

  /** Where a search is: entry `done` of the level at `depth`, with the rows of earlier levels. */
  datatype Place<T> = Place(depth: nat, done: nat, level: Frontier<T>, earlier: seq<Hit<T>>)

  /** What the first `i` nodes of a level contribute to the next one. */
  ghost function Found<T>(next: T -> seq<T>, level: Frontier<T>, i: nat): seq<T>
    requires i <= |level.nodes|
  {
    Fresh(Expand(next, level.nodes[..i]), level.visited)
  }

  ghost function QueueAt<T>(next: T -> seq<T>, bound: nat, at: Place<T>): seq<Hit<T>>
    requires at.done <= |at.level.nodes|
  {
    Tag(at.level.nodes[at.done..], at.depth)
    + if at.depth < bound then Tag(Found(next, at.level, at.done), at.depth + 1) else []
  }

  ghost function RowsAt<T>(at: Place<T>): seq<Hit<T>>
    requires at.done <= |at.level.nodes|
  {
    if at.depth == 0 then [] else at.earlier + Tag(at.level.nodes[..at.done], at.depth)
  }

  // The loop needs only this of the levels and rows: how each follows from the one before.

  ghost predicate Follows<T>(next: T -> seq<T>, levels: nat -> Frontier<T>, rows: nat -> seq<Hit<T>>, d: nat) {
    var level := levels(d);
    var found := Found(next, level, |level.nodes|);
    levels(d + 1) == Frontier(found, level.visited + ToSet(found)) && rows(d + 1) == rows(d) + Tag(found, d + 1)
  }

  ghost predicate Follow<T>(next: T -> seq<T>, levels: nat -> Frontier<T>, rows: nat -> seq<Hit<T>>) {
    rows(0) == [] && forall d: nat :: Follows(next, levels, rows, d)
  }

  function Levels<T(==)>(next: T -> seq<T>, start: T): nat -> Frontier<T> {
    (d: nat) => Level(next, start, d)
  }

  function RowsUpTo<T(==)>(next: T -> seq<T>, start: T): nat -> seq<Hit<T>> {
    (d: nat) => Rows(next, start, d)
  }

  lemma LevelsFollow<T>(next: T -> seq<T>, start: T)
    ensures Follow(next, Levels(next, start), RowsUpTo(next, start))
  {
    forall d: nat
      ensures Follows(next, Levels(next, start), RowsUpTo(next, start), d)
    {
      var level := Level(next, start, d);
      assert level.nodes[..|level.nodes|] == level.nodes;
    }
  }

  ghost predicate IsPlace<T>(bound: nat, levels: nat -> Frontier<T>, rows: nat -> seq<Hit<T>>, at: Place<T>) {
    && at.depth <= bound && at.done <= |at.level.nodes|
    && at.level == levels(at.depth)
    && at.earlier == (if at.depth == 0 then [] else rows(at.depth - 1))
  }

  ghost predicate Agrees<T>(next: T -> seq<T>, bound: nat, at: Place<T>, s: State<T>) {
    && at.done <= |at.level.nodes|
    && s.queue == QueueAt(next, bound, at)
    && (at.depth < bound ==> s.visited == at.level.visited + ToSet(Found(next, at.level, at.done)))
    && s.results == RowsAt(at)
  }

  ghost predicate Progress<T>(next: T -> seq<T>, bound: nat, levels: nat -> Frontier<T>, rows: nat -> seq<Hit<T>>,
                              at: Place<T>, s: State<T>)
  {
    && IsPlace(bound, levels, rows, at)
    && (at.done < |at.level.nodes| || at.depth == bound || at.level.nodes == [])
    && Agrees(next, bound, at, s)
  }

  lemma HeadOfQueue<T>(next: T -> seq<T>, bound: nat, levels: nat -> Frontier<T>, rows: nat -> seq<Hit<T>>,
                       at: Place<T>, s: State<T>)
    requires Progress(next, bound, levels, rows, at, s) && s.queue != []
    ensures at.done < |at.level.nodes| && s.queue[0] == Hit(at.level.nodes[at.done], at.depth)
  {
  }

  lemma Step<T>(next: T -> seq<T>, bound: nat, levels: nat -> Frontier<T>, rows: nat -> seq<Hit<T>>,
                at: Place<T>, s: State<T>) returns (after: Place<T>)
    requires Follow(next, levels, rows)
    requires IsPlace(bound, levels, rows, at) && at.done < |at.level.nodes| && Agrees(next, bound, at, s)
    ensures s.queue != [] && Progress(next, bound, levels, rows, after, Round(next, bound, s))
    ensures after.depth > at.depth || (after.depth == at.depth && after.level == at.level && after.done == at.done + 1)
  {
    StepWithin(next, bound, at, s);
    after := StepOn(next, bound, levels, rows, at.(done := at.done + 1), Round(next, bound, s));
  }

  /** At the end of a level the search stands at the start of the next one. */
  lemma StepOn<T>(next: T -> seq<T>, bound: nat, levels: nat -> Frontier<T>, rows: nat -> seq<Hit<T>>,
                  at: Place<T>, s: State<T>) returns (after: Place<T>)
    requires Follow(next, levels, rows) && IsPlace(bound, levels, rows, at) && Agrees(next, bound, at, s)
    ensures Progress(next, bound, levels, rows, after, s)
    ensures after.depth > at.depth || after == at
  {
    after := at;
    if at.done == |at.level.nodes| && at.depth < bound {
      after := Place(at.depth + 1, 0, levels(at.depth + 1), rows(at.depth));
      assert Follows(next, levels, rows, at.depth);
      assert at.depth > 0 ==> Follows(next, levels, rows, at.depth - 1);
      CarriesOver(next, bound, at, after, s);
    }
  }

  lemma StepWithin<T>(next: T -> seq<T>, bound: nat, at: Place<T>, s: State<T>)
    requires at.done < |at.level.nodes| && Agrees(next, bound, at, s)
    ensures s.queue != [] && Agrees(next, bound, at.(done := at.done + 1), Round(next, bound, s))
  {
    StepRows(at);
    TailOfQueue(at.level.nodes, at.done, at.depth, Tag(Found(next, at.level, at.done), at.depth + 1));
    TailOfQueue(at.level.nodes, at.done, at.depth, []);
    if at.depth < bound {
      StepQueue(next, at, s.visited);
      var more := Fresh(next(at.level.nodes[at.done]), s.visited);
      Regroup(Tag(at.level.nodes[at.done + 1..], at.depth), Tag(Found(next, at.level, at.done), at.depth + 1),
              Tag(more, at.depth + 1));
    }
  }

  lemma TailOfQueue<T>(nodes: seq<T>, i: nat, d: nat, rest: seq<Hit<T>>)
    requires i < |nodes|
    ensures var queue := Tag(nodes[i..], d) + rest;
      queue[0] == Hit(nodes[i], d) && queue[1..] == Tag(nodes[i + 1..], d) + rest
  {
    assert Tag(nodes[i..], d) == [Hit(nodes[i], d)] + Tag(nodes[i + 1..], d);
  }

  lemma Regroup<X>(a: seq<X>, b: seq<X>, c: seq<X>)
    ensures (a + b) + c == a + (b + c)
  {
  }

  lemma StepRows<T>(at: Place<T>)
    requires at.done < |at.level.nodes|
    ensures RowsAt(at.(done := at.done + 1))
         == RowsAt(at) + (if at.depth > 0 then [Hit(at.level.nodes[at.done], at.depth)] else [])
  {
    var nodes, d, i := at.level.nodes, at.depth, at.done;
    assert Tag(nodes[..i + 1], d) == Tag(nodes[..i], d) + [Hit(nodes[i], d)];
  }

  lemma StepQueue<T>(next: T -> seq<T>, at: Place<T>, visited: set<T>)
    requires at.done < |at.level.nodes|
    requires visited == at.level.visited + ToSet(Found(next, at.level, at.done))
    ensures var more, found := Fresh(next(at.level.nodes[at.done]), visited), Found(next, at.level, at.done);
            && Found(next, at.level, at.done + 1) == found + more
            && Tag(found + more, at.depth + 1) == Tag(found, at.depth + 1) + Tag(more, at.depth + 1)
            && visited + ToSet(more) == at.level.visited + ToSet(found + more)
  {
    var before := Expand(next, at.level.nodes[..at.done]);
    ExpandSnoc(next, at.level.nodes, at.done);
    FreshConcat(before, next(at.level.nodes[at.done]), at.level.visited);
    FreshIsDistinct(before, at.level.visited);
    assert at.level.visited + ToSet(before) == visited;
  }

  lemma CarriesOver<T>(next: T -> seq<T>, bound: nat, at: Place<T>, after: Place<T>, s: State<T>)
    requires Agrees(next, bound, at, s) && at.done == |at.level.nodes| && at.depth < bound
    requires after.depth == at.depth + 1 && after.done == 0 && after.level.nodes == Found(next, at.level, at.done)
    requires after.level.visited == at.level.visited + ToSet(Found(next, at.level, at.done))
    requires after.earlier == if at.depth == 0 then [] else at.earlier + Tag(at.level.nodes, at.depth)
    ensures Agrees(next, bound, after, s)
  {
    assert at.level.nodes[..at.done] == at.level.nodes;
    assert after.level.nodes[0..] == after.level.nodes;
    assert Found(next, after.level, 0) == [];
  }

  lemma SearchEnd<T>(next: T -> seq<T>, start: T, bound: nat, at: Place<T>, visited: set<T>, results: seq<Hit<T>>)
    requires Progress(next, bound, Levels(next, start), RowsUpTo(next, start), at, State([], visited, results))
    ensures results == Rows(next, start, bound)
  {
    AllRows(next, bound, at, visited, results);
    if at.depth < bound {
      EmptyLevelEndsRows(next, start, at.depth, bound);
    }
  }

  lemma AllRows<T>(next: T -> seq<T>, bound: nat, at: Place<T>, visited: set<T>, results: seq<Hit<T>>)
    requires Agrees(next, bound, at, State([], visited, results))
    ensures at.done == |at.level.nodes|
    ensures results == if at.depth == 0 then [] else at.earlier + Tag(at.level.nodes, at.depth)
  {
    assert |Tag(at.level.nodes[at.done..], at.depth)| == 0;
    assert at.level.nodes[..at.done] == at.level.nodes;
  }

  // What the rows mean.

  /** The neighbor lists list exactly the edges. */
  ghost predicate Realizes<T(!new)>(next: T -> seq<T>, edges: set<(T, T)>) {
    forall x, y :: y in next(x) <==> (x, y) in edges
  }

  ghost predicate ReachWithin<T(!new)>(edges: set<(T, T)>, a: T, b: T, d: nat) {
    exists e: nat :: 1 <= e <= d && Reach(edges, a, b, e)
  }

  lemma {:induction false} InExpand<T>(next: T -> seq<T>, nodes: seq<T>, y: T)
    ensures y in Expand(next, nodes) <==> exists x :: x in nodes && y in next(x)
  {
    if nodes != [] {
      var init, last := nodes[..|nodes| - 1], nodes[|nodes| - 1];
      InExpand(next, init, y);
      assert nodes == init + [last];
    }
  }

  lemma InLevel<T>(next: T -> seq<T>, start: T, d: nat, y: T)
    ensures var here, after := Level(next, start, d), Level(next, start, d + 1);
            && (y in after.nodes <==> y !in here.visited && exists x :: x in here.nodes && y in next(x))
            && (y in after.visited <==> y in here.visited || y in after.nodes)
  {
    var here := Level(next, start, d);
    InExpand(next, here.nodes, y);
    FreshIsDistinct(Expand(next, here.nodes), here.visited);
  }

  // Reachability needs only this of the levels: what one level takes from the one before it.

  ghost predicate LayerStep<T(!new)>(edges: set<(T, T)>, level: nat -> Frontier<T>, d: nat, y: T) {
    && (y in level(d + 1).nodes <==> y !in level(d).visited && exists x :: x in level(d).nodes && (x, y) in edges)
    && (y in level(d + 1).visited <==> y in level(d).visited || y in level(d + 1).nodes)
  }

  ghost predicate Layered<T(!new)>(edges: set<(T, T)>, start: T, level: nat -> Frontier<T>) {
    && level(0) == Frontier([start], {})
    && forall d: nat, y :: LayerStep(edges, level, d, y)
  }

  lemma LevelsAreLayered<T(!new)>(next: T -> seq<T>, edges: set<(T, T)>, start: T)
    requires Realizes(next, edges)
    ensures Layered(edges, start, Levels(next, start))
  {
    forall d: nat, y
      ensures LayerStep(edges, Levels(next, start), d, y)
    {
      InLevel(next, start, d, y);
    }
  }

  /** A successor of anything found by depth `d` is found by depth `d + 1`. */
  lemma {:induction false} VisitedCloses<T(!new)>(edges: set<(T, T)>, start: T, level: nat -> Frontier<T>, d: nat,
                                                  x: T, y: T)
    requires Layered(edges, start, level) && (x, y) in edges
    requires x in level(d).visited || (d == 0 && x == start)
    ensures y in level(d + 1).visited
  {
    assert LayerStep(edges, level, d, y);
    if d > 0 {
      assert LayerStep(edges, level, d - 1, x);
      if x !in level(d).nodes {
        VisitedCloses(edges, start, level, d - 1, x, y);
      }
    }
  }

  lemma {:induction false} NodesAreReached<T(!new)>(edges: set<(T, T)>, start: T, level: nat -> Frontier<T>, d: nat,
                                                    y: T)
    requires Layered(edges, start, level) && y in level(d).nodes
    ensures Reach(edges, start, y, d)
  {
    if d == 0 {
      ReachZero(edges, start, y);
    } else {
      assert LayerStep(edges, level, d - 1, y);
      var x :| x in level(d - 1).nodes && (x, y) in edges;
      NodesAreReached(edges, start, level, d - 1, x);
      ReachSnoc(edges, start, x, y, d - 1);
    }
  }

  lemma {:induction false} ReachedIsVisited<T(!new)>(edges: set<(T, T)>, start: T, level: nat -> Frontier<T>, d: nat,
                                                     y: T)
    requires Layered(edges, start, level) && d >= 1 && Reach(edges, start, y, d)
    ensures y in level(d).visited
  {
    var x := ReachUnsnoc(edges, start, y, d - 1);
    if d == 1 {
      ReachZero(edges, start, x);
    } else {
      ReachedIsVisited(edges, start, level, d - 1, x);
    }
    VisitedCloses(edges, start, level, d - 1, x, y);
  }

  lemma {:induction false} VisitedStays<T(!new)>(edges: set<(T, T)>, start: T, level: nat -> Frontier<T>, d: nat,
                                                 e: nat, y: T)
    requires Layered(edges, start, level) && d <= e && y in level(d).visited
    ensures y in level(e).visited
  {
    if d < e {
      VisitedStays(edges, start, level, d, e - 1, y);
      assert LayerStep(edges, level, e - 1, y);
    }
  }

  lemma {:induction false} VisitedIsReachWithin<T(!new)>(edges: set<(T, T)>, start: T, level: nat -> Frontier<T>,
                                                         d: nat, y: T)
    requires Layered(edges, start, level)
    ensures y in level(d).visited <==> ReachWithin(edges, start, y, d)
  {
    if y in level(d).visited {
      assert LayerStep(edges, level, d - 1, y);
      if y in level(d).nodes {
        NodesAreReached(edges, start, level, d, y);
      } else {
        VisitedIsReachWithin(edges, start, level, d - 1, y);
        var e: nat :| 1 <= e <= d - 1 && Reach(edges, start, y, e);
      }
    }
    if ReachWithin(edges, start, y, d) {
      var e: nat :| 1 <= e <= d && Reach(edges, start, y, e);
      ReachedIsVisited(edges, start, level, e, y);
      VisitedStays(edges, start, level, e, d, y);
    }
  }

  /** Level `d` holds exactly the nodes whose shortest nonempty walk from the start has length `d`. */
  lemma LayerIsShortest<T(!new)>(edges: set<(T, T)>, start: T, level: nat -> Frontier<T>, d: nat, y: T)
    requires Layered(edges, start, level) && d >= 1
    ensures y in level(d).nodes <==> ShortestWalk(edges, start, y, d)
  {
    assert LayerStep(edges, level, d - 1, y);
    VisitedIsReachWithin(edges, start, level, d - 1, y);
    VisitedIsReachWithin(edges, start, level, d, y);
    if y in level(d).nodes {
      NodesAreReached(edges, start, level, d, y);
    }
    if ShortestWalk(edges, start, y, d) {
      assert ReachWithin(edges, start, y, d);
    }
  }

  lemma LevelIsShortest<T(!new)>(next: T -> seq<T>, edges: set<(T, T)>, start: T, d: nat, y: T)
    requires Realizes(next, edges) && d >= 1
    ensures y in Level(next, start, d).nodes <==> ShortestWalk(edges, start, y, d)
  {
    LevelsAreLayered(next, edges, start);
    LayerIsShortest(edges, start, Levels(next, start), d, y);
  }

  lemma {:induction false} VisitedGrows<T>(next: T -> seq<T>, start: T, d: nat, e: nat)
    requires d <= e
    ensures Level(next, start, d).visited <= Level(next, start, e).visited
  {
    if d < e {
      VisitedGrows(next, start, d, e - 1);
    }
  }

  lemma {:induction false} InRows<T>(next: T -> seq<T>, start: T, bound: nat, h: Hit<T>)
    ensures h in Rows(next, start, bound) <==> 1 <= h.depth <= bound && h.node in Level(next, start, h.depth).nodes
  {
    if bound > 0 {
      InRows(next, start, bound - 1, h);
      var nodes := Level(next, start, bound).nodes;
      if h.depth == bound && h.node in nodes {
        var i :| 0 <= i < |nodes| && nodes[i] == h.node;
        assert Tag(nodes, bound)[i] == h;
      }
    }
  }

  /** The search is exact: a row appears iff it names a shortest nonempty walk within the bound. */
  lemma RowsAreShortestWalks<T(!new)>(next: T -> seq<T>, edges: set<(T, T)>, start: T, bound: nat, h: Hit<T>)
    requires Realizes(next, edges)
    ensures h in Rows(next, start, bound) <==> h.depth <= bound && ShortestWalk(edges, start, h.node, h.depth)
  {
    InRows(next, start, bound, h);
    if h.depth >= 1 {
      LevelIsShortest(next, edges, start, h.depth, h.node);
    }
  }

  /** No node is reported twice, and rows come in order of depth. */
  ghost predicate OrderedRows<T>(rows: seq<Hit<T>>) {
    forall i, j :: 0 <= i < j < |rows| ==> rows[i].depth <= rows[j].depth && rows[i].node != rows[j].node
  }

  lemma {:induction false} RowsAreOrdered<T>(next: T -> seq<T>, start: T, bound: nat)
    ensures OrderedRows(Rows(next, start, bound))
  {
    if bound > 0 {
      RowsAreOrdered(next, start, bound - 1);
      FreshIsDistinct(Expand(next, Level(next, start, bound - 1).nodes), Level(next, start, bound - 1).visited);
      forall h, y | h in Rows(next, start, bound - 1) && y in Level(next, start, bound).nodes
        ensures h.depth <= bound && h.node != y
      {
        LaterLevelIsNew(next, start, bound, h, y);
      }
      AppendLevel(Rows(next, start, bound - 1), Level(next, start, bound).nodes, bound);
    }
  }

  lemma LaterLevelIsNew<T>(next: T -> seq<T>, start: T, bound: nat, h: Hit<T>, y: T)
    requires bound > 0 && h in Rows(next, start, bound - 1) && y in Level(next, start, bound).nodes
    ensures h.depth < bound && h.node != y
  {
    InRows(next, start, bound - 1, h);
    FoundIsNew(next, start, h.depth, h.node);
    FoundIsNew(next, start, bound, y);
    VisitedGrows(next, start, h.depth, bound - 1);
  }

  lemma FoundIsNew<T>(next: T -> seq<T>, start: T, d: nat, y: T)
    requires d > 0 && y in Level(next, start, d).nodes
    ensures y in Level(next, start, d).visited && y !in Level(next, start, d - 1).visited
  {
    InLevel(next, start, d - 1, y);
  }

  lemma AppendLevel<T>(before: seq<Hit<T>>, last: seq<T>, d: nat)
    requires OrderedRows(before) && Distinct(last)
    requires forall h, y :: h in before && y in last ==> h.depth <= d && h.node != y
    ensures OrderedRows(before + Tag(last, d))
  {
    var rows := before + Tag(last, d);
    forall i, j | 0 <= i < j < |rows|
      ensures rows[i].depth <= rows[j].depth && rows[i].node != rows[j].node
    {
      if j >= |before| {
        assert rows[j] == Hit(last[j - |before|], d);
        if i >= |before| {
          assert rows[i] == Hit(last[i - |before|], d);
        } else {
          assert rows[i] in before && last[j - |before|] in last;
        }
      }
    }
  }

  lemma {:induction false} LevelCongruent<T(!new)>(f: T -> seq<T>, g: T -> seq<T>, start: T, d: nat)
    requires forall x :: f(x) == g(x)
    ensures Level(f, start, d) == Level(g, start, d)
  {
    if d > 0 {
      LevelCongruent(f, g, start, d - 1);
      ExpandCongruent(f, g, Level(f, start, d - 1).nodes);
    }
  }

  lemma {:induction false} ExpandCongruent<T(!new)>(f: T -> seq<T>, g: T -> seq<T>, nodes: seq<T>)
    requires forall x :: f(x) == g(x)
    ensures Expand(f, nodes) == Expand(g, nodes)
  {
    if nodes != [] {
      ExpandCongruent(f, g, nodes[..|nodes| - 1]);
    }
  }

  lemma {:induction false} RowsCongruent<T(!new)>(f: T -> seq<T>, g: T -> seq<T>, start: T, bound: nat)
    requires forall x :: f(x) == g(x)
    ensures Rows(f, start, bound) == Rows(g, start, bound)
  {
    if bound > 0 {
      RowsCongruent(f, g, start, bound - 1);
      LevelCongruent(f, g, start, bound);
    }
  }

  /** A larger bound only appends rows. */
  lemma {:induction false} RowsExtend<T>(next: T -> seq<T>, start: T, small: nat, large: nat)
    requires small <= large
    ensures Rows(next, start, small) <= Rows(next, start, large)
  {
    if small < large {
      RowsExtend(next, start, small, large - 1);
    }
  }
}

/** Walks in a finite directed graph given by its set of edges. */
module Walks {
  import opened Seqs

  ghost predicate IsWalk<T(!new)>(edges: set<(T, T)>, p: seq<T>) {
    && |p| > 0
    && forall i :: 0 <= i < |p| - 1 ==> (p[i], p[i + 1]) in edges
  }

  ghost predicate WalkFromTo<T(!new)>(edges: set<(T, T)>, p: seq<T>, a: T, b: T) {
    IsWalk(edges, p) && p[0] == a && p[|p| - 1] == b
  }

  /** Some walk of exactly `k` edges leads from `a` to `b`. */
  ghost predicate Reach<T(!new)>(edges: set<(T, T)>, a: T, b: T, k: nat) {
    exists p: seq<T> :: |p| == k + 1 && WalkFromTo(edges, p, a, b)
  }

  /** `d` is the length of a shortest nonempty walk from `a` to `b`. */
  ghost predicate ShortestWalk<T(!new)>(edges: set<(T, T)>, a: T, b: T, d: nat) {
    && d >= 1
    && Reach(edges, a, b, d)
    && forall e: nat :: 1 <= e < d ==> !Reach(edges, a, b, e)
  }

  lemma ReachZero<T(!new)>(edges: set<(T, T)>, a: T, b: T)
    ensures Reach(edges, a, b, 0) <==> a == b
  {
    if a == b {
      assert WalkFromTo(edges, [a], a, b);
    }
  }

  lemma ReachSnoc<T(!new)>(edges: set<(T, T)>, a: T, m: T, b: T, k: nat)
    requires Reach(edges, a, m, k) && (m, b) in edges
    ensures Reach(edges, a, b, k + 1)
  {
    var p :| |p| == k + 1 && WalkFromTo(edges, p, a, m);
    var q := p + [b];
    assert forall i :: 0 <= i < |q| - 1 ==> (q[i], q[i + 1]) in edges;
    assert WalkFromTo(edges, q, a, b);
  }

  lemma ReachUnsnoc<T(!new)>(edges: set<(T, T)>, a: T, b: T, k: nat) returns (m: T)
    requires Reach(edges, a, b, k + 1)
    ensures Reach(edges, a, m, k) && (m, b) in edges
  {
    var p :| |p| == k + 2 && WalkFromTo(edges, p, a, b);
    m := p[k];
    assert (p[k], p[k + 1]) in edges;
    assert WalkFromTo(edges, p[..k + 1], a, m);
  }

  lemma ReachTrans<T(!new)>(edges: set<(T, T)>, a: T, b: T, c: T, j: nat, k: nat)
    requires Reach(edges, a, b, j) && Reach(edges, b, c, k)
    ensures Reach(edges, a, c, j + k)
  {
    var p :| |p| == j + 1 && WalkFromTo(edges, p, a, b);
    var q :| |q| == k + 1 && WalkFromTo(edges, q, b, c);
    var r := p + q[1..];
    forall i | 0 <= i < |r| - 1
      ensures (r[i], r[i + 1]) in edges
    {
      if i < j {
        assert r[i] == p[i] && r[i + 1] == p[i + 1];
      } else {
        assert r[i] == q[i - j] && r[i + 1] == q[i - j + 1];
      }
    }
    assert WalkFromTo(edges, r, a, c);
  }

  lemma SubwalkReach<T(!new)>(edges: set<(T, T)>, p: seq<T>, i: nat, j: nat)
    requires IsWalk(edges, p) && i <= j < |p|
    ensures Reach(edges, p[i], p[j], j - i)
  {
    assert WalkFromTo(edges, p[i..j + 1], p[i], p[j]);
  }

  function Converse<T(==)>(edges: set<(T, T)>): set<(T, T)> {
    set e | e in edges :: (e.1, e.0)
  }

  lemma ConverseEdge<T(!new)>(edges: set<(T, T)>, a: T, b: T)
    ensures (a, b) in Converse(edges) <==> (b, a) in edges
  {
    if (b, a) in edges {
      assert ((b, a).1, (b, a).0) == (a, b);
    }
  }

  /** Turning every edge round turns every walk round. */
  lemma {:induction false} ReachConverse<T(!new)>(edges: set<(T, T)>, a: T, b: T, k: nat)
    ensures Reach(Converse(edges), b, a, k) <==> Reach(edges, a, b, k)
  {
    if Reach(edges, a, b, k) {
      ReverseWalk(edges, Converse(edges), a, b, k);
    }
    if Reach(Converse(edges), b, a, k) {
      ReverseWalk(Converse(edges), edges, b, a, k);
    }
  }

  lemma ReverseWalk<T(!new)>(edges: set<(T, T)>, turned: set<(T, T)>, a: T, b: T, k: nat)
    requires Reach(edges, a, b, k)
    requires turned == Converse(edges) || edges == Converse(turned)
    ensures Reach(turned, b, a, k)
  {
    var p :| |p| == k + 1 && WalkFromTo(edges, p, a, b);
    var q := seq(k + 1, i requires 0 <= i <= k => p[k - i]);
    forall i | 0 <= i < k
      ensures (q[i], q[i + 1]) in turned
    {
      assert (p[k - i - 1], p[k - i - 1 + 1]) in edges;
      ConverseEdge(edges, q[i], q[i + 1]);
      ConverseEdge(turned, q[i + 1], q[i]);
    }
    assert WalkFromTo(turned, q, b, a);
  }

  /** A map that carries edges to edges carries walks to walks. */
  lemma ReachProject<S(!new), T(!new)>(edges: set<(S, S)>, image: set<(T, T)>, f: S -> T, a: S, b: S, k: nat)
    requires forall e :: e in edges ==> (f(e.0), f(e.1)) in image
    requires Reach(edges, a, b, k)
    ensures Reach(image, f(a), f(b), k)
  {
    var p :| |p| == k + 1 && WalkFromTo(edges, p, a, b);
    var q := seq(k + 1, i requires 0 <= i <= k => f(p[i]));
    forall i | 0 <= i < k
      ensures (q[i], q[i + 1]) in image
    {
      assert (p[i], p[i + 1]) in edges;
    }
    assert WalkFromTo(image, q, f(a), f(b));
  }

  /** `a` lies on a cycle. */
  ghost predicate OnCycle<T(!new)>(edges: set<(T, T)>, a: T) {
    exists k: nat :: k >= 1 && Reach(edges, a, a, k)
  }

  /** Following edges from `a` one can come to a node that lies on a cycle. */
  ghost predicate ReachesCycle<T(!new)>(edges: set<(T, T)>, a: T) {
    exists b, k: nat :: Reach(edges, a, b, k) && OnCycle(edges, b)
  }

  ghost predicate HasNextIn<T>(edges: set<(T, T)>, pool: set<T>, x: T) {
    exists y :: y in pool && (x, y) in edges
  }

  /** In a finite set where every node has an edge into the set, every node reaches a cycle. */
  lemma TrappedReachesCycle<T(!new)>(edges: set<(T, T)>, pool: set<T>, a: T)
    requires a in pool
    requires forall x :: x in pool ==> HasNextIn(edges, pool, x)
    ensures ReachesCycle(edges, a)
  {
    var p := TrappedWalk(edges, pool, a, |pool|);
    var i, j := Pigeonhole(p, pool);
    SubwalkReach(edges, p, 0, i);
    SubwalkReach(edges, p, i, j);
    assert Reach(edges, p[i], p[i], j - i);
    assert OnCycle(edges, p[i]);
  }

  lemma TrappedWalk<T(!new)>(edges: set<(T, T)>, pool: set<T>, a: T, n: nat) returns (p: seq<T>)
    requires a in pool
    requires forall x :: x in pool ==> HasNextIn(edges, pool, x)
    ensures |p| == n + 1 && p[0] == a && IsWalk(edges, p)
    ensures forall x :: x in p ==> x in pool
  {
    p := [a];
    while |p| < n + 1
      invariant 1 <= |p| <= n + 1 && p[0] == a && IsWalk(edges, p)
      invariant forall x :: x in p ==> x in pool
    {
      assert HasNextIn(edges, pool, p[|p| - 1]);
      var y :| y in pool && (p[|p| - 1], y) in edges;
      p := p + [y];
    }
  }

  /** A rank that drops along every edge leaving ranked nodes rules cycles out. */
  lemma RankedReachesNoCycle<T(!new)>(edges: set<(T, T)>, ranked: set<T>, rank: map<T, nat>, a: T)
    requires a in ranked && ranked <= rank.Keys
    requires forall e :: e in edges && e.0 in ranked ==> e.1 in ranked && rank[e.1] < rank[e.0]
    ensures !ReachesCycle(edges, a)
  {
    forall b, k: nat | Reach(edges, a, b, k)
      ensures !OnCycle(edges, b)
    {
      RankDrops(edges, ranked, rank, a, b, k);
      forall j: nat | j >= 1 && Reach(edges, b, b, j)
        ensures false
      {
        RankDrops(edges, ranked, rank, b, b, j);
      }
    }
  }

  lemma {:induction false} RankDrops<T(!new)>(edges: set<(T, T)>, ranked: set<T>, rank: map<T, nat>, a: T, b: T, k: nat)
    requires a in ranked && ranked <= rank.Keys
    requires forall e :: e in edges && e.0 in ranked ==> e.1 in ranked && rank[e.1] < rank[e.0]
    requires Reach(edges, a, b, k)
    ensures b in ranked && rank[b] + k <= rank[a]
  {
    if k == 0 {
      ReachZero(edges, a, b);
    } else {
      var m := ReachUnsnoc(edges, a, b, k - 1);
      RankDrops(edges, ranked, rank, a, m, k - 1);
      assert (m, b).0 in ranked;
    }
  }
}

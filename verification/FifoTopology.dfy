/**
 * First-in-first-out topological order: what both Kahn sorts compute, said without a queue.
 * `deps` gives every node its set of dependencies and `le` breaks ties.
 */
module FifoTopology {
  import opened Seqs
  import opened Walks
  import opened Ordering

  type Deps = map<string, set<string>>

  ghost predicate Closed(deps: Deps) {
    forall n :: n in deps ==> deps[n] <= deps.Keys
  }

  predicate Covered(wanted: set<string>, s: seq<string>) {
    forall d :: d in wanted ==> d in s
  }

  ghost predicate EndsAt(wanted: set<string>, s: seq<string>, r: nat) {
    && r <= |s|
    && (r > 0 ==> s[r - 1] in wanted)
    && forall i :: r <= i < |s| ==> s[i] !in wanted
  }

  /** The number of leading elements of `s` that must be out before `wanted` is used up. */
  ghost function ReadyAt(wanted: set<string>, s: seq<string>): nat {
    EndExists(wanted, s);
    var r: nat :| EndsAt(wanted, s, r);
    r
  }

  lemma ReadyAtEnds(wanted: set<string>, s: seq<string>)
    ensures EndsAt(wanted, s, ReadyAt(wanted, s))
  {
    EndExists(wanted, s);
  }

  lemma ReadyAtIs(wanted: set<string>, s: seq<string>, r: nat)
    requires EndsAt(wanted, s, r)
    ensures ReadyAt(wanted, s) == r
  {
    ReadyAtEnds(wanted, s);
  }

  lemma {:induction false} EndExists(wanted: set<string>, s: seq<string>)
    ensures exists r: nat :: EndsAt(wanted, s, r)
  {
    if s == [] {
      assert EndsAt(wanted, s, 0);
    } else if s[|s| - 1] in wanted {
      assert EndsAt(wanted, s, |s|);
    } else {
      var init := s[..|s| - 1];
      EndExists(wanted, init);
      var r: nat :| EndsAt(wanted, init, r);
      assert s == init + [s[|s| - 1]];
      assert EndsAt(wanted, s, r);
    }
  }

  lemma PartsApart(s: seq<string>, t: seq<string>, k: nat)
    requires Distinct(s + t) && k < |t|
    ensures t[k] !in s
  {
    forall j | 0 <= j < |s|
      ensures s[j] != t[k]
    {
      assert (s + t)[j] == s[j] && (s + t)[|s| + k] == t[k];
    }
  }

  /** What comes after the last wanted element does not matter. */
  lemma ReadyAtExtends(wanted: set<string>, s: seq<string>, t: seq<string>)
    requires Covered(wanted, s) && Distinct(s + t)
    ensures ReadyAt(wanted, s + t) == ReadyAt(wanted, s)
  {
    ReadyAtEnds(wanted, s);
    var r := ReadyAt(wanted, s);
    forall i | r <= i < |s + t|
      ensures (s + t)[i] !in wanted
    {
      if i >= |s| {
        PartsApart(s, t, i - |s|);
      }
    }
    ReadyAtIs(wanted, s + t, r);
  }

  /** Earlier readiness first; nodes that become ready together in tie-break order. */
  ghost predicate Before(deps: Deps, le: (string, string) -> bool, s: seq<string>, a: string, b: string)
    requires a in deps && b in deps
  {
    ReadyAt(deps[a], s) < ReadyAt(deps[b], s) || (ReadyAt(deps[a], s) == ReadyAt(deps[b], s) && le(a, b))
  }

  ghost predicate Known(deps: Deps, s: seq<string>) {
    Distinct(s) && forall n :: n in s ==> n in deps
  }

  ghost predicate DepsBehind(deps: Deps, s: seq<string>, i: nat)
    requires i < |s| && Known(deps, s)
  {
    Covered(deps[s[i]], s[..i])
  }

  ghost predicate DepsFirst(deps: Deps, s: seq<string>)
    requires Known(deps, s)
  {
    forall i :: 0 <= i < |s| ==> DepsBehind(deps, s, i)
  }

  ghost predicate InOrder(deps: Deps, le: (string, string) -> bool, s: seq<string>, i: nat, j: nat)
    requires i < |s| && j < |s| && Known(deps, s)
  {
    Before(deps, le, s, s[i], s[j])
  }

  ghost predicate Ordered(deps: Deps, le: (string, string) -> bool, s: seq<string>)
    requires Known(deps, s)
  {
    forall i, j :: 0 <= i < j < |s| ==> InOrder(deps, le, s, i, j)
  }

  ghost predicate Admits(deps: Deps, s: seq<string>, done: nat)
    requires done <= |s|
  {
    forall n :: n in deps ==> (n in s <==> Covered(deps[n], s[..done]))
  }

  /** The first `done` nodes of `s` are out, the rest are queued: a state of either sort. */
  ghost predicate Stage(deps: Deps, le: (string, string) -> bool, s: seq<string>, done: nat) {
    done <= |s| && Known(deps, s) && DepsFirst(deps, s) && Admits(deps, s, done) && Ordered(deps, le, s)
  }

  /** The output: every node whose dependencies are out is out. */
  ghost predicate IsFifoOrder(deps: Deps, le: (string, string) -> bool, s: seq<string>) {
    Stage(deps, le, s, |s|)
  }

  /** What one round of the main loop must append for the next state to be a stage. */
  ghost predicate Released(deps: Deps, le: (string, string) -> bool, s: seq<string>, done: nat, added: seq<string>)
    requires done < |s|
  {
    && Distinct(added) && SortedBy(le, added)
    && forall n :: n in added <==> n in deps && s[done] in deps[n] && Covered(deps[n], s[..done + 1])
  }

  lemma StartStage(deps: Deps, le: (string, string) -> bool, ready: seq<string>)
    requires Distinct(ready) && SortedBy(le, ready)
    requires forall n :: n in ready <==> n in deps && deps[n] == {}
    ensures Stage(deps, le, ready, 0)
  {
    forall i | 0 <= i < |ready|
      ensures ready[i] in deps && deps[ready[i]] == {}
    {
      assert ready[i] in ready;
    }
    forall n | n in deps
      ensures n in ready <==> Covered(deps[n], ready[..0])
    {
      assert deps[n] != {} ==> exists d :: d in deps[n];
    }
  }

  lemma NextStage(deps: Deps, le: (string, string) -> bool, s: seq<string>, done: nat, added: seq<string>)
    requires Stage(deps, le, s, done) && done < |s| && Released(deps, le, s, done, added)
    ensures Stage(deps, le, s + added, done + 1)
  {
    AddedIsNew(deps, s, done, added);
    assert Known(deps, s + added);
    AddedDepsFirst(deps, s, done, added);
    AddedAdmitted(deps, s, done, added);
    forall i, j | 0 <= i < j < |s + added|
      ensures InOrder(deps, le, s + added, i, j)
    {
      AddedInOrder(deps, le, s, done, added, i, j);
    }
  }

  lemma AddedIsNew(deps: Deps, s: seq<string>, done: nat, added: seq<string>)
    requires done < |s| && Known(deps, s) && Admits(deps, s, done) && Distinct(added)
    requires forall n :: n in added ==> n in deps && s[done] in deps[n]
    ensures Distinct(s + added)
  {
    forall n | n in added
      ensures n !in s
    {
      NotBefore(s, done);
      assert !Covered(deps[n], s[..done]);
    }
    forall i, j | 0 <= i < j < |s + added|
      ensures (s + added)[i] != (s + added)[j]
    {
      if i < |s| <= j {
        assert added[j - |s|] in added && s[i] in s;
      }
    }
  }

  lemma NotBefore(s: seq<string>, i: nat)
    requires Distinct(s) && i < |s|
    ensures s[i] !in s[..i]
  {
  }

  lemma AddedDepsFirst(deps: Deps, s: seq<string>, done: nat, added: seq<string>)
    requires done < |s| && Known(deps, s) && DepsFirst(deps, s) && Known(deps, s + added)
    requires forall n :: n in added ==> n in deps && Covered(deps[n], s[..done + 1])
    ensures DepsFirst(deps, s + added)
  {
    var t := s + added;
    forall i | 0 <= i < |t|
      ensures DepsBehind(deps, t, i)
    {
      if i < |s| {
        assert DepsBehind(deps, s, i) && t[..i] == s[..i] && t[i] == s[i];
      } else {
        assert added[i - |s|] in added;
        assert t[..i] == s[..done + 1] + t[done + 1..i];
      }
    }
  }

  lemma AddedAdmitted(deps: Deps, s: seq<string>, done: nat, added: seq<string>)
    requires done < |s| && Admits(deps, s, done)
    requires forall n :: n in added <==> n in deps && s[done] in deps[n] && Covered(deps[n], s[..done + 1])
    ensures Admits(deps, s + added, done + 1)
  {
    assert (s + added)[..done + 1] == s[..done + 1] == s[..done] + [s[done]];
    forall n | n in deps
      ensures n in s + added <==> Covered(deps[n], s[..done + 1])
    {
      assert n in s <==> Covered(deps[n], s[..done]);
    }
  }

  lemma AddedInOrder(deps: Deps, le: (string, string) -> bool, s: seq<string>, done: nat, added: seq<string>,
                     i: nat, j: nat)
    requires Stage(deps, le, s, done) && done < |s| && Released(deps, le, s, done, added)
    requires i < j < |s + added| && Known(deps, s + added)
    ensures InOrder(deps, le, s + added, i, j)
  {
    if j < |s| {
      assert InOrder(deps, le, s, i, j);
      OldReadyAt(deps, s, added, i);
      OldReadyAt(deps, s, added, j);
    } else {
      NewReadyAt(deps, le, s, done, added, j - |s|);
      if i < |s| {
        assert s[i] in s && Covered(deps[s[i]], s[..done]);
        ReadyAtEnds(deps[s[i]], s[..done]);
        assert s + added == s[..done] + (s + added)[done..];
        ReadyAtExtends(deps[s[i]], s[..done], (s + added)[done..]);
      } else {
        NewReadyAt(deps, le, s, done, added, i - |s|);
      }
    }
  }

  lemma OldReadyAt(deps: Deps, s: seq<string>, added: seq<string>, i: nat)
    requires i < |s| && Known(deps, s) && DepsFirst(deps, s) && Distinct(s + added)
    ensures ReadyAt(deps[s[i]], s + added) == ReadyAt(deps[s[i]], s)
  {
    assert DepsBehind(deps, s, i) && s == s[..i] + s[i..];
    ReadyAtExtends(deps[s[i]], s, added);
  }

  lemma NewReadyAt(deps: Deps, le: (string, string) -> bool, s: seq<string>, done: nat, added: seq<string>, k: nat)
    requires done < |s| && Released(deps, le, s, done, added) && k < |added| && Distinct(s + added)
    ensures added[k] in deps && ReadyAt(deps[added[k]], s + added) == done + 1
  {
    assert added[k] in added;
    var wanted := deps[added[k]];
    assert s + added == s[..done + 1] + (s + added)[done + 1..];
    ReadyAtIs(wanted, s[..done + 1], done + 1);
    ReadyAtExtends(wanted, s[..done + 1], (s + added)[done + 1..]);
  }

  lemma StageSize(deps: Deps, s: seq<string>)
    requires Known(deps, s)
    ensures |s| <= |deps|
  {
    DistinctSize(s);
    SubsetSize(ToSet(s), deps.Keys);
  }

  lemma HeadOfStage(deps: Deps, ordered: seq<string>, queue: seq<string>)
    requires queue != [] && Known(deps, ordered + queue)
    ensures var all, k := ordered + queue, |ordered|;
            all[k] == queue[0] && all[..k] == ordered && all[..k + 1] == ordered + [queue[0]]
    ensures queue[0] in deps && queue[0] !in ordered && |ordered| < |deps|
  {
    var all := ordered + queue;
    assert all[|ordered|] in all;
    NotBefore(all, |ordered|);
    StageSize(deps, all);
  }

  lemma Shift(ordered: seq<string>, queue: seq<string>, released: seq<string>)
    requires queue != []
    ensures (ordered + queue) + released == (ordered + [queue[0]]) + (queue[1..] + released)
  {
  }

  lemma StageShifts(deps: Deps, le: (string, string) -> bool, ordered: seq<string>, queue: seq<string>,
                    released: seq<string>)
    requires queue != [] && Stage(deps, le, (ordered + queue) + released, |ordered| + 1)
    ensures Stage(deps, le, (ordered + [queue[0]]) + (queue[1..] + released), |ordered + [queue[0]]|)
  {
    Shift(ordered, queue, released);
  }

  lemma SizeOfCover(names: seq<string>, order: seq<string>)
    requires Distinct(order) && forall n :: n in order ==> n in names
    ensures |order| == |names| <==> Distinct(names) && forall n :: n in names ==> n in order
  {
    DistinctSize(order);
    SetSizeOfSeq(names);
    SubsetSize(ToSet(order), ToSet(names));
    if forall n :: n in names ==> n in order {
      assert ToSet(order) == ToSet(names);
    }
    if |order| == |names| {
      assert ToSet(order) == ToSet(names);
      forall n | n in names
        ensures n in order
      {
        assert n in ToSet(names);
      }
    }
  }

  /** There is one FIFO order at most, so it is a function of the graph and the tie-break. */
  lemma FifoOrderIsUnique(deps: Deps, le: (string, string) -> bool, s: seq<string>, t: seq<string>)
    requires TotalOrder(le)
    requires IsFifoOrder(deps, le, s) && IsFifoOrder(deps, le, t)
    ensures s == t
  {
    var k := CommonPrefix(s, t);
    if k < |s| && k < |t| {
      NextAgrees(deps, le, s, t, k);
    } else if k < |t| {
      NothingFollows(deps, s, t);
    } else if k < |s| {
      NothingFollows(deps, t, s);
    }
  }

  lemma CommonPrefix(s: seq<string>, t: seq<string>) returns (k: nat)
    ensures k <= |s| && k <= |t| && s[..k] == t[..k]
    ensures k < |s| && k < |t| ==> s[k] != t[k]
  {
    k := 0;
    while k < |s| && k < |t| && s[k] == t[k]
      invariant k <= |s| && k <= |t| && s[..k] == t[..k]
    {
      assert s[..k + 1] == s[..k] + [s[k]] && t[..k + 1] == t[..k] + [t[k]];
      k := k + 1;
    }
  }

  lemma NothingFollows(deps: Deps, s: seq<string>, t: seq<string>)
    requires Known(deps, s) && Admits(deps, s, |s|)
    requires Known(deps, t) && DepsFirst(deps, t)
    requires s <= t
    ensures s == t
  {
    assert s[..|s|] == s && t[..|s|] == s;
    if |s| < |t| {
      assert DepsBehind(deps, t, |s|);
      NotBefore(t, |s|);
    }
  }

  lemma NextAgrees(deps: Deps, le: (string, string) -> bool, s: seq<string>, t: seq<string>, k: nat)
    requires TotalOrder(le)
    requires IsFifoOrder(deps, le, s) && IsFifoOrder(deps, le, t)
    requires k < |s| && k < |t| && s[..k] == t[..k]
    ensures s[k] == t[k]
  {
    if s[k] != t[k] {
      var i := ComesLater(deps, s, t, k);
      var j := ComesLater(deps, t, s, k);
      assert InOrder(deps, le, t, k, i) && InOrder(deps, le, s, k, j);
      PrefixReady(deps, s, t, k, s[k]);
      PrefixReady(deps, s, t, k, t[k]);
    }
  }

  lemma ComesLater(deps: Deps, s: seq<string>, t: seq<string>, k: nat) returns (i: nat)
    requires Known(deps, s) && DepsFirst(deps, s) && Known(deps, t) && Admits(deps, t, |t|)
    requires k < |s| && k < |t| && s[..k] == t[..k] && s[k] != t[k]
    ensures k < i < |t| && t[i] == s[k]
  {
    assert s[k] in s && DepsBehind(deps, s, k);
    assert t == t[..k] + t[k..] && t[..|t|] == t;
    assert Covered(deps[s[k]], t);
    NotBefore(s, k);
    i :| 0 <= i < |t| && t[i] == s[k];
    assert t[i] !in t[..k];
  }

  lemma PrefixReady(deps: Deps, s: seq<string>, t: seq<string>, k: nat, n: string)
    requires Known(deps, s) && DepsFirst(deps, s) && Known(deps, t) && DepsFirst(deps, t)
    requires k < |s| && k < |t| && s[..k] == t[..k] && (n == s[k] || n == t[k])
    ensures n in deps && ReadyAt(deps[n], s) == ReadyAt(deps[n], t)
  {
    assert DepsBehind(deps, s, k) && DepsBehind(deps, t, k);
    assert s == s[..k] + s[k..] && t == t[..k] + t[k..];
    ReadyAtExtends(deps[n], s[..k], s[k..]);
    ReadyAtExtends(deps[n], t[..k], t[k..]);
  }

  // What is missing from the output, and how the output is layered.

  function DepEdges(deps: Deps): set<(string, string)> {
    set n, d | n in deps && d in deps[n] :: (n, d)
  }

  /** A node is missing from the output iff following dependencies from it one can come to a cycle. */
  lemma MissingIffReachesCycle(deps: Deps, le: (string, string) -> bool, s: seq<string>, n: string)
    requires Closed(deps) && IsFifoOrder(deps, le, s) && n in deps
    ensures n !in s <==> ReachesCycle(DepEdges(deps), n)
  {
    assert s[..|s|] == s;
    if n in s {
      EmittedReachesNoCycle(deps, s, n);
    } else {
      MissingReachesCycle(deps, s, n);
    }
  }

  lemma MissingReachesCycle(deps: Deps, s: seq<string>, n: string)
    requires Closed(deps) && n in deps && n !in s
    requires forall x :: x in deps ==> (x in s <==> Covered(deps[x], s))
    ensures ReachesCycle(DepEdges(deps), n)
  {
    var pool := set x | x in deps && x !in s;
    forall x | x in pool
      ensures HasNextIn(DepEdges(deps), pool, x)
    {
      var d :| d in deps[x] && d !in s;
      assert (x, d) in DepEdges(deps);
    }
    TrappedReachesCycle(DepEdges(deps), pool, n);
  }

  lemma EmittedReachesNoCycle(deps: Deps, s: seq<string>, n: string)
    requires Known(deps, s) && DepsFirst(deps, s) && n in s
    ensures !ReachesCycle(DepEdges(deps), n)
  {
    var rank: map<string, nat> := map x | x in s :: IndexOf(s, x);
    forall e | e in DepEdges(deps) && e.0 in ToSet(s)
      ensures e.1 in ToSet(s) && rank[e.1] < rank[e.0]
    {
      var i := rank[e.0];
      assert DepsBehind(deps, s, i);
      var j :| 0 <= j < i && s[..i][j] == e.1;
      assert s[j] == e.1;
    }
    RankedReachesNoCycle(DepEdges(deps), ToSet(s), rank, n);
  }

  /** Some chain of `k` dependencies hangs below `n`. */
  ghost predicate HasChain(deps: Deps, n: string, k: nat) {
    exists m :: Reach(DepEdges(deps), n, m, k)
  }

  lemma ChainStep(deps: Deps, n: string, k: nat) returns (d: string)
    requires HasChain(deps, n, k + 1)
    ensures n in deps && d in deps[n] && HasChain(deps, d, k)
  {
    var m :| Reach(DepEdges(deps), n, m, k + 1);
    var p :| |p| == k + 2 && WalkFromTo(DepEdges(deps), p, n, m);
    d := p[1];
    assert (p[0], p[1]) in DepEdges(deps);
    SubwalkReach(DepEdges(deps), p, 1, k + 1);
  }

  lemma ChainGrow(deps: Deps, n: string, d: string, k: nat)
    requires n in deps && d in deps[n] && HasChain(deps, d, k)
    ensures HasChain(deps, n, k + 1)
  {
    var m :| Reach(DepEdges(deps), d, m, k);
    assert WalkFromTo(DepEdges(deps), [n, d], n, d);
    assert Reach(DepEdges(deps), n, d, 1);
    ReachTrans(DepEdges(deps), n, d, m, 1, k);
  }

  /** The output is layered: the longest dependency chain below a node never gets shorter along it. */
  lemma {:induction false} OutputIsLayered(deps: Deps, le: (string, string) -> bool, s: seq<string>,
                                           i: nat, j: nat, k: nat)
    requires IsFifoOrder(deps, le, s) && i <= j < |s| && HasChain(deps, s[i], k)
    ensures HasChain(deps, s[j], k)
    decreases k
  {
    if i < j {
      if k == 0 {
        ReachZero(DepEdges(deps), s[j], s[j]);
      } else {
        var d := ChainStep(deps, s[i], k - 1);
        var p, q := DepIsBehind(deps, le, s, i, j, d);
        OutputIsLayered(deps, le, s, p, q, k - 1);
        ChainGrow(deps, s[j], s[q], k - 1);
      }
    }
  }

  lemma DepIsBehind(deps: Deps, le: (string, string) -> bool, s: seq<string>, i: nat, j: nat, d: string)
    returns (p: nat, q: nat)
    requires Known(deps, s) && DepsFirst(deps, s) && Ordered(deps, le, s)
    requires i < j < |s| && d in deps[s[i]]
    ensures p <= q < |s| && s[p] == d && s[q] in deps[s[j]]
  {
    assert DepsBehind(deps, s, i) && InOrder(deps, le, s, i, j);
    p :| 0 <= p < i && s[..i][p] == d;
    ReadyAtEnds(deps[s[i]], s);
    ReadyAtEnds(deps[s[j]], s);
    assert s[p] in deps[s[i]];
    q := ReadyAt(deps[s[j]], s) - 1;
  }

  // Keeping only a dependency-closed part.

  function Keep(s: seq<string>, part: set<string>): seq<string> {
    if s == [] then []
    else Keep(s[..|s| - 1], part) + if s[|s| - 1] in part then [s[|s| - 1]] else []
  }

  function Restrict(deps: Deps, part: set<string>): Deps {
    map n | n in deps && n in part :: deps[n]
  }

  lemma {:induction false} InKeep(s: seq<string>, part: set<string>, x: string)
    ensures x in Keep(s, part) <==> x in s && x in part
  {
    if s != [] {
      InKeep(s[..|s| - 1], part, x);
      assert s == s[..|s| - 1] + [s[|s| - 1]];
    }
  }

  lemma {:induction false} KeepConcat(a: seq<string>, b: seq<string>, part: set<string>)
    ensures Keep(a + b, part) == Keep(a, part) + Keep(b, part)
  {
    if b == [] {
      assert a + b == a;
    } else {
      assert (a + b)[..|a + b| - 1] == a + b[..|b| - 1];
      KeepConcat(a, b[..|b| - 1], part);
    }
  }

  /** Every kept element comes from one place, and the places keep their order. */
  lemma {:induction false} PlaceOf(s: seq<string>, part: set<string>, i: nat) returns (p: nat)
    requires i < |Keep(s, part)|
    ensures p < |s| && s[p] == Keep(s, part)[i] && s[p] in part && |Keep(s[..p], part)| == i
  {
    var init := s[..|s| - 1];
    if i < |Keep(init, part)| {
      p := PlaceOf(init, part, i);
      assert init[..p] == s[..p];
    } else {
      p := |s| - 1;
    }
  }

  lemma KeepGrows(s: seq<string>, part: set<string>, p: nat, q: nat)
    requires p <= q <= |s|
    ensures |Keep(s[..p], part)| <= |Keep(s[..q], part)|
    ensures p < q && s[q - 1] in part ==> |Keep(s[..p], part)| < |Keep(s[..q], part)|
  {
    assert s[..q] == s[..p] + s[p..q];
    KeepConcat(s[..p], s[p..q], part);
    if p < q && s[q - 1] in part {
      assert s[q - 1] == s[p..q][q - p - 1];
      InKeep(s[p..q], part, s[q - 1]);
    }
  }

  lemma KeepReadyAt(s: seq<string>, part: set<string>, wanted: set<string>)
    requires wanted <= part
    ensures ReadyAt(wanted, Keep(s, part)) == |Keep(s[..ReadyAt(wanted, s)], part)|
  {
    var r := ReadyAt(wanted, s);
    ReadyAtEnds(wanted, s);
    assert s == s[..r] + s[r..];
    KeepConcat(s[..r], s[r..], part);
    var head, tail := Keep(s[..r], part), Keep(s[r..], part);
    if r > 0 {
      assert s[..r][..r - 1] == s[..r - 1];
    }
    forall i | |head| <= i < |Keep(s, part)|
      ensures Keep(s, part)[i] !in wanted
    {
      assert Keep(s, part)[i] == tail[i - |head|];
      InKeep(s[r..], part, tail[i - |head|]);
    }
    ReadyAtIs(wanted, Keep(s, part), |head|);
  }

  /**
   * Cutting a FIFO order down to a dependency-closed part of the graph gives the FIFO order of that
   * part: filtering after sorting is the same as sorting after filtering.
   */
  lemma KeepIsFifoOrder(deps: Deps, le: (string, string) -> bool, s: seq<string>, part: set<string>)
    requires IsFifoOrder(deps, le, s)
    requires forall n :: n in part && n in deps ==> deps[n] <= part
    ensures IsFifoOrder(Restrict(deps, part), le, Keep(s, part))
  {
    var t := Keep(s, part);
    KeepIsKnown(deps, s, part);
    KeepDepsFirst(deps, s, part);
    assert s[..|s|] == s && t[..|t|] == t;
    forall n | n in deps && n in part
      ensures n in t <==> Covered(deps[n], t)
    {
      InKeep(s, part, n);
      forall d | d in deps[n]
        ensures d in t <==> d in s
      {
        InKeep(s, part, d);
      }
    }
    forall i, j | 0 <= i < j < |t|
      ensures InOrder(Restrict(deps, part), le, t, i, j)
    {
      KeepInOrder(deps, le, s, part, i, j);
    }
  }

  lemma KeepIsKnown(deps: Deps, s: seq<string>, part: set<string>)
    requires Known(deps, s)
    ensures Known(Restrict(deps, part), Keep(s, part))
  {
    var t := Keep(s, part);
    forall i, j | 0 <= i < j < |t|
      ensures t[i] != t[j]
    {
      var p := PlaceOf(s, part, i);
      var q := PlaceOf(s, part, j);
      assert p != q;
    }
    forall n | n in t
      ensures n in Restrict(deps, part)
    {
      InKeep(s, part, n);
    }
  }

  lemma KeepDepsFirst(deps: Deps, s: seq<string>, part: set<string>)
    requires Known(deps, s) && DepsFirst(deps, s) && Known(Restrict(deps, part), Keep(s, part))
    requires forall n :: n in part && n in deps ==> deps[n] <= part
    ensures DepsFirst(Restrict(deps, part), Keep(s, part))
  {
    var t := Keep(s, part);
    forall i | 0 <= i < |t|
      ensures DepsBehind(Restrict(deps, part), t, i)
    {
      var p := PlaceOf(s, part, i);
      assert DepsBehind(deps, s, p) && s == s[..p] + s[p..];
      KeepConcat(s[..p], s[p..], part);
      assert t[..i] == Keep(s[..p], part);
      forall d | d in deps[t[i]]
        ensures d in t[..i]
      {
        InKeep(s[..p], part, d);
      }
    }
  }

  lemma {:induction false} KeepInOrder(deps: Deps, le: (string, string) -> bool, s: seq<string>, part: set<string>,
                                       i: nat, j: nat)
    requires IsFifoOrder(deps, le, s) && Known(Restrict(deps, part), Keep(s, part))
    requires forall n :: n in part && n in deps ==> deps[n] <= part
    requires i < j < |Keep(s, part)|
    ensures InOrder(Restrict(deps, part), le, Keep(s, part), i, j)
  {
    var p := PlaceOf(s, part, i);
    var q := PlaceOf(s, part, j);
    if q <= p {
      KeepGrows(s, part, q, p);
    }
    assert InOrder(deps, le, s, p, q);
    KeepReadyAt(s, part, deps[s[p]]);
    KeepReadyAt(s, part, deps[s[q]]);
    ReadyAtEnds(deps[s[p]], s);
    ReadyAtEnds(deps[s[q]], s);
    KeepGrows(s, part, ReadyAt(deps[s[p]], s), ReadyAt(deps[s[q]], s));
  }
}

/** Schedule plans: the dependency sort and the checks that accept a plan. */
module Scheduler {
  import opened Seqs
  import opened Walks
  import opened Ordering
  import opened FifoTopology

  datatype ScheduledJob = ScheduledJob(name: string, dependsOn: seq<string>, retries: int, waits: bool)

  function Names(jobs: seq<ScheduledJob>): seq<string> {
    seq(|jobs|, i requires 0 <= i < |jobs| => jobs[i].name)
  }

  /** All `depends_on` entries of the jobs called `name`, repetitions included. */
  function DepList(jobs: seq<ScheduledJob>, name: string): seq<string> {
    if jobs == [] then []
    else
      var last := jobs[|jobs| - 1];
      DepList(jobs[..|jobs| - 1], name) + if last.name == name then last.dependsOn else []
  }

  function DepsOf(jobs: seq<ScheduledJob>): Deps {
    map n | n in Names(jobs) :: ToSet(DepList(jobs, n))
  }

  /** Position of the last job of each name. */
  function OrderIndex(jobs: seq<ScheduledJob>): map<string, nat> {
    if jobs == [] then map[]
    else OrderIndex(jobs[..|jobs| - 1])[jobs[|jobs| - 1].name := |jobs| - 1]
  }

  function Rank(index: map<string, nat>, name: string): nat {
    if name in index then index[name] else 0
  }

  /** Declaration order. */
  function DeclaredLe(index: map<string, nat>): (string, string) -> bool {
    (a: string, b: string) =>
      Rank(index, a) < Rank(index, b) || (Rank(index, a) == Rank(index, b) && StringLe(a, b))
  }

  ghost predicate KnownDeps(jobs: seq<ScheduledJob>) {
    forall job, d :: job in jobs && d in job.dependsOn ==> d in Names(jobs)
  }

  lemma DeclaredLeIsTotalOrder(index: map<string, nat>)
    ensures TotalOrder(DeclaredLe(index))
  {
    StringLeIsTotalOrder();
  }

  lemma {:induction false} OrderIndexIsPosition(jobs: seq<ScheduledJob>)
    ensures OrderIndex(jobs).Keys == ToSet(Names(jobs))
    ensures forall n :: n in OrderIndex(jobs) ==> OrderIndex(jobs)[n] < |jobs| && jobs[OrderIndex(jobs)[n]].name == n
    ensures forall n, i :: n in OrderIndex(jobs) && OrderIndex(jobs)[n] < i < |jobs| ==> jobs[i].name != n
  {
    if jobs != [] {
      var init, last := jobs[..|jobs| - 1], jobs[|jobs| - 1];
      OrderIndexIsPosition(init);
      assert Names(jobs) == Names(init) + [last.name];
    }
  }

  lemma {:induction false} DepListIsKnown(jobs: seq<ScheduledJob>, pool: seq<string>, name: string)
    requires forall job, d :: job in jobs && d in job.dependsOn ==> d in pool
    ensures forall d :: d in DepList(jobs, name) ==> d in pool
  {
    if jobs != [] {
      var init, last := jobs[..|jobs| - 1], jobs[|jobs| - 1];
      assert last in jobs && Names(jobs) == Names(init) + [last.name];
      DepListIsKnown(init, pool, name);
    }
  }

  lemma DepsAreClosed(jobs: seq<ScheduledJob>)
    requires KnownDeps(jobs)
    ensures Closed(DepsOf(jobs))
  {
    forall n | n in Names(jobs)
      ensures DepsOf(jobs)[n] <= DepsOf(jobs).Keys
    {
      DepListIsKnown(jobs, Names(jobs), n);
    }
  }

  /** How many entries of a dependency list are not out yet. */
  function Outstanding(list: seq<string>, out: seq<string>): nat {
    if list == [] then 0
    else Outstanding(list[..|list| - 1], out) + if list[|list| - 1] in out then 0 else 1
  }

  lemma {:induction false} OutstandingZero(list: seq<string>, out: seq<string>)
    ensures Outstanding(list, out) == 0 <==> Covered(ToSet(list), out)
  {
    if list != [] {
      OutstandingZero(list[..|list| - 1], out);
      assert list == list[..|list| - 1] + [list[|list| - 1]];
    }
  }

  lemma {:induction false} OutstandingStep(list: seq<string>, out: seq<string>, x: string)
    requires x !in out
    ensures Outstanding(list, out + [x]) == Outstanding(list, out) - multiset(list)[x]
  {
    if list != [] {
      OutstandingStep(list[..|list| - 1], out, x);
      assert list == list[..|list| - 1] + [list[|list| - 1]];
    }
  }

  lemma {:induction false} OutstandingStart(list: seq<string>)
    ensures Outstanding(list, []) == |list|
  {
    if list != [] {
      OutstandingStart(list[..|list| - 1]);
    }
  }

  /** The indegree table: one count for each `depends_on` entry. */
  method CountDependencies(jobs: seq<ScheduledJob>) returns (indegree: map<string, int>)
    ensures indegree.Keys == ToSet(Names(jobs))
    ensures forall n :: n in indegree ==> indegree[n] == |DepList(jobs, n)|
  {
    indegree := map n | n in Names(jobs) :: 0;
    for i := 0 to |jobs|
      invariant indegree.Keys == ToSet(Names(jobs))
      invariant forall n :: n in indegree ==> indegree[n] == |DepList(jobs[..i], n)|
    {
      assert Names(jobs)[i] == jobs[i].name;
      assert jobs[..i + 1][..i] == jobs[..i] && jobs[..i + 1][i] == jobs[i];
      ghost var before := indegree;
      for k := 0 to |jobs[i].dependsOn|
        invariant indegree.Keys == ToSet(Names(jobs))
        invariant forall n :: n in indegree ==> indegree[n] == before[n] + if n == jobs[i].name then k else 0
      {
        indegree := indegree[jobs[i].name := indegree[jobs[i].name] + 1];
      }
    }
    assert jobs[..|jobs|] == jobs;
  }

  /** `n` is listed under `d` as often as `d` is listed under `n`. */
  ghost predicate Mirrors(jobs: seq<ScheduledJob>, successors: map<string, seq<string>>) {
    forall d, n :: d in successors ==> multiset(successors[d])[n] == multiset(DepList(jobs, n))[d]
  }

  method SuccessorLists(jobs: seq<ScheduledJob>, le: (string, string) -> bool)
    returns (successors: map<string, seq<string>>)
    requires KnownDeps(jobs) && TotalOrder(le)
    ensures successors.Keys == ToSet(Names(jobs)) && Mirrors(jobs, successors)
    ensures forall d :: d in successors ==> SortedBy(le, successors[d])
  {
    successors := ListSuccessors(jobs);
    SortKeepsMirrors(jobs, le, successors);
    successors := map d | d in successors :: Sort(le, successors[d]);
  }

  method ListSuccessors(jobs: seq<ScheduledJob>) returns (successors: map<string, seq<string>>)
    requires KnownDeps(jobs)
    ensures successors.Keys == ToSet(Names(jobs)) && Mirrors(jobs, successors)
  {
    successors := map n | n in Names(jobs) :: [];
    for i := 0 to |jobs|
      invariant successors.Keys == ToSet(Names(jobs)) && Mirrors(jobs[..i], successors)
    {
      assert jobs[i] in jobs;
      successors := AddSuccessor(jobs[..i], jobs[i], successors);
      assert jobs[..i + 1] == jobs[..i] + [jobs[i]];
    }
    assert jobs[..|jobs|] == jobs;
  }

  lemma SortKeepsMirrors(jobs: seq<ScheduledJob>, le: (string, string) -> bool, successors: map<string, seq<string>>)
    requires TotalOrder(le) && Mirrors(jobs, successors)
    ensures Mirrors(jobs, map d | d in successors :: Sort(le, successors[d]))
    ensures forall d :: d in successors ==> SortedBy(le, Sort(le, successors[d]))
  {
    forall d | d in successors
      ensures SortedBy(le, Sort(le, successors[d])) && multiset(Sort(le, successors[d])) == multiset(successors[d])
    {
      SortIsSorted(le, successors[d]);
    }
  }

  method AddSuccessor(before: seq<ScheduledJob>, job: ScheduledJob, successors: map<string, seq<string>>)
    returns (after: map<string, seq<string>>)
    requires forall d :: d in job.dependsOn ==> d in successors
    requires Mirrors(before, successors)
    ensures after.Keys == successors.Keys && Mirrors(before + [job], after)
  {
    after := successors;
    for k := 0 to |job.dependsOn|
      invariant after.Keys == successors.Keys
      invariant forall d, n :: d in after ==>
                  multiset(after[d])[n] == multiset(successors[d])[n]
                                           + if n == job.name then multiset(job.dependsOn[..k])[d] else 0
    {
      var dep := job.dependsOn[k];
      assert job.dependsOn[..k + 1] == job.dependsOn[..k] + [dep];
      after := after[dep := after[dep] + [job.name]];
    }
    assert job.dependsOn[..|job.dependsOn|] == job.dependsOn;
    forall d, n | d in after
      ensures multiset(after[d])[n] == multiset(DepList(before + [job], n))[d]
    {
      assert (before + [job])[..|before|] == before && (before + [job])[|before|] == job;
      assert DepList(before + [job], n) == DepList(before, n) + if job.name == n then job.dependsOn else [];
    }
  }

  /** One round of the main loop: lower the indegree of every listed successor, release those at zero. */
  method Release(successors: seq<string>, indegree: map<string, int>, le: (string, string) -> bool)
    returns (lowered: map<string, int>, released: seq<string>)
    requires TotalOrder(le) && SortedBy(le, successors)
    requires forall n :: n in successors ==> n in indegree && multiset(successors)[n] <= indegree[n]
    ensures lowered.Keys == indegree.Keys
    ensures forall n :: n in indegree ==> lowered[n] == indegree[n] - multiset(successors)[n]
    ensures Distinct(released) && SortedBy(le, released)
    ensures forall n :: n in released <==> n in successors && lowered[n] == 0
  {
    lowered, released := indegree, [];
    for j := 0 to |successors|
      invariant LoweredBy(indegree, successors[..j], lowered)
      invariant ReleasedFrom(le, successors[..j], lowered, released)
    {
      var successor := successors[j];
      NextSuccessor(successors, le, j);
      ReleaseStep(indegree, le, successors[..j], successor, lowered, released);
      lowered := lowered[successor := lowered[successor] - 1];
      if lowered[successor] == 0 {
        released := released + [successor];
      }
    }
    assert successors[..|successors|] == successors;
  }

  ghost predicate LoweredBy(indegree: map<string, int>, done: seq<string>, lowered: map<string, int>) {
    && lowered.Keys == indegree.Keys
    && forall n :: n in indegree ==> lowered[n] == indegree[n] - multiset(done)[n]
  }

  ghost predicate ReleasedFrom(le: (string, string) -> bool, done: seq<string>, lowered: map<string, int>,
                               released: seq<string>)
  {
    && Distinct(released) && SortedBy(le, released)
    && forall n :: n in released <==> n in done && n in lowered && lowered[n] == 0
  }

  lemma NextSuccessor(successors: seq<string>, le: (string, string) -> bool, j: nat)
    requires j < |successors| && SortedBy(le, successors)
    ensures successors[..j + 1] == successors[..j] + [successors[j]]
    ensures multiset(successors[..j] + [successors[j]])[successors[j]] <= multiset(successors)[successors[j]]
    ensures forall n :: n in successors[..j] ==> le(n, successors[j])
  {
    assert successors == successors[..j + 1] + successors[j + 1..];
    assert successors[..j + 1] == successors[..j] + [successors[j]];
  }

  lemma ReleaseStep(indegree: map<string, int>, le: (string, string) -> bool, done: seq<string>, successor: string,
                    lowered: map<string, int>, released: seq<string>)
    requires LoweredBy(indegree, done, lowered) && ReleasedFrom(le, done, lowered, released)
    requires successor in indegree && multiset(done + [successor])[successor] <= indegree[successor]
    requires forall n :: n in done ==> le(n, successor)
    ensures var after := lowered[successor := lowered[successor] - 1];
      && LoweredBy(indegree, done + [successor], after)
      && ReleasedFrom(le, done + [successor], after, if after[successor] == 0 then released + [successor] else released)
  {
    assert lowered[successor] >= 1;
  }

  /** Every indegree counts the dependency entries that are not out yet. */
  ghost predicate Counts(jobs: seq<ScheduledJob>, out: seq<string>, indegree: map<string, int>) {
    && indegree.Keys == ToSet(Names(jobs))
    && forall n :: n in indegree ==> indegree[n] == Outstanding(DepList(jobs, n), out)
  }

  /** The dependency sort. */
  method TopologicalSort(jobs: seq<ScheduledJob>) returns (ordered: seq<string>)
    requires KnownDeps(jobs)
    ensures IsFifoOrder(DepsOf(jobs), DeclaredLe(OrderIndex(jobs)), ordered)
    // Every dependency stands before its job.
    ensures forall j, q, d :: IsAt(jobs, ordered, j, q) && d in jobs[j].dependsOn ==> d in ordered[..q]
    // Of two jobs the one declared first stands first, if it has no dependencies.
    ensures Distinct(Names(jobs)) ==>
              forall i, j, p, q :: IsAt(jobs, ordered, i, p) && IsAt(jobs, ordered, j, q) ==>
                (i < j && jobs[i].dependsOn == [] ==> p < q)
    // Otherwise the place of the last dependency decides, and then the declaration.
    ensures Distinct(Names(jobs)) ==>
              forall i, j, p, q, r, s ::
                IsAt(jobs, ordered, i, p) && IsAt(jobs, ordered, j, q)
                && LastOf(jobs[i].dependsOn, ordered, r) && LastOf(jobs[j].dependsOn, ordered, s) ==>
                  (r < s || (r == s && i < j) ==> p < q)
  {
    var le := DeclaredLe(OrderIndex(jobs));
    DeclaredLeIsTotalOrder(OrderIndex(jobs));
    var indegree := CountDependencies(jobs);
    var queue := ReadyNames(jobs, indegree, le);
    var successors := SuccessorLists(jobs, le);
    ordered := [];
    StartStage(DepsOf(jobs), le, queue);
    StartCounts(jobs, indegree);
    assert [] + queue == queue;
    while queue != []
      invariant Stage(DepsOf(jobs), le, ordered + queue, |ordered|)
      invariant Counts(jobs, ordered, indegree)
      decreases |DepsOf(jobs)| - |ordered|
    {
      var name := queue[0];
      HeadOfStage(DepsOf(jobs), ordered, queue);
      RoundIsReleased(jobs, successors, ordered, indegree, name);
      var lowered, released := Release(successors[name], indegree, le);
      RoundDone(jobs, le, successors, ordered, queue, indegree, lowered, released);
      indegree := lowered;
      queue := queue[1..] + released;
      ordered := ordered + [name];
    }
    assert ordered + [] == ordered;
    DependenciesStandFirst(jobs, ordered);
    if Distinct(Names(jobs)) {
      DeclarationDecides(jobs, ordered);
    }
  }

  /** `out[r]` is the last of `wanted` in `out`. */
  predicate LastOf(wanted: seq<string>, out: seq<string>, r: int) {
    0 <= r < |out| && out[r] in wanted && forall k :: r < k < |out| ==> out[k] !in wanted
  }

  /** Job `i` of the plan stands at place `p` of the order. */
  predicate IsAt(jobs: seq<ScheduledJob>, order: seq<string>, i: int, p: int) {
    0 <= i < |jobs| && 0 <= p < |order| && order[p] == jobs[i].name
  }

  lemma DependenciesStandFirst(jobs: seq<ScheduledJob>, ordered: seq<string>)
    requires IsFifoOrder(DepsOf(jobs), DeclaredLe(OrderIndex(jobs)), ordered)
    ensures forall j, q, d :: IsAt(jobs, ordered, j, q) && d in jobs[j].dependsOn ==> d in ordered[..q]
  {
    forall j, q, d | IsAt(jobs, ordered, j, q) && d in jobs[j].dependsOn
      ensures d in ordered[..q]
    {
      DependencyStandsFirst(jobs, ordered, j, q, d);
    }
  }

  lemma DependencyStandsFirst(jobs: seq<ScheduledJob>, ordered: seq<string>, j: nat, q: nat, d: string)
    requires IsFifoOrder(DepsOf(jobs), DeclaredLe(OrderIndex(jobs)), ordered)
    requires IsAt(jobs, ordered, j, q) && d in jobs[j].dependsOn
    ensures d in ordered[..q]
  {
    OwnDepsAreListed(jobs, j, d);
    assert Names(jobs)[j] == ordered[q];
    assert d in DepsOf(jobs)[ordered[q]];
    assert DepsBehind(DepsOf(jobs), ordered, q);
  }

  /** In a plan with distinct names the dependencies of a name are those of its one job. */
  lemma {:induction false} DepListOfDistinct(jobs: seq<ScheduledJob>, i: nat)
    requires Distinct(Names(jobs)) && i < |jobs|
    ensures DepList(jobs, jobs[i].name) == jobs[i].dependsOn
    ensures jobs[i].name in OrderIndex(jobs) && OrderIndex(jobs)[jobs[i].name] == i
  {
    var init, last := jobs[..|jobs| - 1], jobs[|jobs| - 1];
    assert Names(jobs) == Names(init) + [last.name];
    InitIsDistinct(Names(init), last.name);
    if i < |init| {
      assert Names(init)[i] == init[i].name;
      DepListOfDistinct(init, i);
    } else {
      DepListOfStranger(init, last.name);
    }
  }

  lemma LastIsReadyAt(jobs: seq<ScheduledJob>, ordered: seq<string>, i: nat)
    requires Distinct(Names(jobs)) && i < |jobs|
    ensures jobs[i].name in DepsOf(jobs)
    ensures jobs[i].dependsOn == [] ==> ReadyAt(DepsOf(jobs)[jobs[i].name], ordered) == 0
    ensures forall r :: LastOf(jobs[i].dependsOn, ordered, r) ==>
              ReadyAt(DepsOf(jobs)[jobs[i].name], ordered) == r + 1
  {
    DepListOfDistinct(jobs, i);
    assert Names(jobs)[i] == jobs[i].name;
    var wanted := DepsOf(jobs)[jobs[i].name];
    assert forall d :: d in wanted <==> d in jobs[i].dependsOn;
    if jobs[i].dependsOn == [] {
      ReadyAtIs(wanted, ordered, 0);
    }
    forall r | LastOf(jobs[i].dependsOn, ordered, r)
      ensures ReadyAt(wanted, ordered) == r + 1
    {
      ReadyAtIs(wanted, ordered, r + 1);
    }
  }

  lemma RankOfDistinct(jobs: seq<ScheduledJob>, i: nat)
    requires Distinct(Names(jobs)) && i < |jobs|
    ensures Rank(OrderIndex(jobs), jobs[i].name) == i
  {
    DepListOfDistinct(jobs, i);
  }

  lemma DeclaredLeIsByRank(index: map<string, nat>, a: string, b: string)
    ensures DeclaredLe(index)(a, b) ==> Rank(index, a) <= Rank(index, b)
  {
  }

  lemma DeclaredLeOfDistinct(jobs: seq<ScheduledJob>, i: nat, j: nat)
    requires Distinct(Names(jobs)) && i < |jobs| && j < |jobs|
    ensures DeclaredLe(OrderIndex(jobs))(jobs[j].name, jobs[i].name) ==> j <= i
  {
    DeclaredLeIsByRank(OrderIndex(jobs), jobs[j].name, jobs[i].name);
    RankOfDistinct(jobs, i);
    RankOfDistinct(jobs, j);
  }

  lemma SameNameSameJob(jobs: seq<ScheduledJob>, i: nat, j: nat)
    requires Distinct(Names(jobs)) && i < |jobs| && j < |jobs| && jobs[i].name == jobs[j].name
    ensures i == j
  {
    assert Names(jobs)[i] == jobs[i].name && Names(jobs)[j] == jobs[j].name;
  }

  /** What the order of two emitted jobs says about their readiness and declaration. */
  lemma StandingFirst(jobs: seq<ScheduledJob>, deps: Deps, le: (string, string) -> bool, ordered: seq<string>,
                      i: nat, j: nat, p: nat, q: nat)
    requires Distinct(Names(jobs)) && IsFifoOrder(deps, le, ordered)
    requires i < |jobs| && j < |jobs| && IsAt(jobs, ordered, i, p) && IsAt(jobs, ordered, j, q) && q <= p
    requires le(jobs[j].name, jobs[i].name) ==> j <= i
    ensures jobs[i].name in deps && jobs[j].name in deps
    ensures var first, second := ReadyAt(deps[jobs[j].name], ordered), ReadyAt(deps[jobs[i].name], ordered);
            first < second || (first == second && j <= i)
  {
    if q < p {
      EarlierIsBefore(deps, le, ordered, q, p);
    } else {
      SameNameSameJob(jobs, i, j);
      assert ordered[p] in ordered;
    }
  }

  lemma EarlierIsBefore(deps: Deps, le: (string, string) -> bool, s: seq<string>, q: nat, p: nat)
    requires IsFifoOrder(deps, le, s) && q < p < |s|
    ensures s[q] in deps && s[p] in deps
    ensures var first, second := ReadyAt(deps[s[q]], s), ReadyAt(deps[s[p]], s);
            first < second || (first == second && le(s[q], s[p]))
  {
    assert InOrder(deps, le, s, q, p);
  }

  /** The earlier last dependency first; without one, or with the same one, the earlier declaration first. */
  lemma EarlierStandsFirst(jobs: seq<ScheduledJob>, ordered: seq<string>, i: nat, j: nat, p: nat, q: nat)
    requires Distinct(Names(jobs)) && IsFifoOrder(DepsOf(jobs), DeclaredLe(OrderIndex(jobs)), ordered)
    requires i < |jobs| && j < |jobs| && IsAt(jobs, ordered, i, p) && IsAt(jobs, ordered, j, q)
    ensures i < j && jobs[i].dependsOn == [] ==> p < q
    ensures forall r, s :: LastOf(jobs[i].dependsOn, ordered, r) && LastOf(jobs[j].dependsOn, ordered, s) ==>
              (r < s || (r == s && i < j) ==> p < q)
  {
    LastIsReadyAt(jobs, ordered, i);
    LastIsReadyAt(jobs, ordered, j);
    if q <= p {
      DeclaredLeOfDistinct(jobs, i, j);
      StandingFirst(jobs, DepsOf(jobs), DeclaredLe(OrderIndex(jobs)), ordered, i, j, p, q);
    }
  }

  lemma DeclarationDecides(jobs: seq<ScheduledJob>, ordered: seq<string>)
    requires Distinct(Names(jobs)) && IsFifoOrder(DepsOf(jobs), DeclaredLe(OrderIndex(jobs)), ordered)
    ensures forall i, j, p, q :: IsAt(jobs, ordered, i, p) && IsAt(jobs, ordered, j, q) ==>
              (i < j && jobs[i].dependsOn == [] ==> p < q)
    ensures forall i, j, p, q, r, s ::
              IsAt(jobs, ordered, i, p) && IsAt(jobs, ordered, j, q)
              && LastOf(jobs[i].dependsOn, ordered, r) && LastOf(jobs[j].dependsOn, ordered, s) ==>
                (r < s || (r == s && i < j) ==> p < q)
  {
    forall i, j, p, q | IsAt(jobs, ordered, i, p) && IsAt(jobs, ordered, j, q)
      ensures i < j && jobs[i].dependsOn == [] ==> p < q
      ensures forall r, s :: LastOf(jobs[i].dependsOn, ordered, r) && LastOf(jobs[j].dependsOn, ordered, s) ==>
                (r < s || (r == s && i < j) ==> p < q)
    {
      EarlierStandsFirst(jobs, ordered, i, j, p, q);
    }
  }

  lemma RoundDone(jobs: seq<ScheduledJob>, le: (string, string) -> bool, successors: map<string, seq<string>>,
                  ordered: seq<string>, queue: seq<string>, indegree: map<string, int>,
                  lowered: map<string, int>, released: seq<string>)
    requires queue != [] && Stage(DepsOf(jobs), le, ordered + queue, |ordered|) && Counts(jobs, ordered, indegree)
    requires queue[0] in successors && Mirrors(jobs, successors) && lowered.Keys == indegree.Keys
    requires forall n :: n in indegree ==> lowered[n] == indegree[n] - multiset(successors[queue[0]])[n]
    requires Distinct(released) && SortedBy(le, released)
    requires forall n :: n in released <==> n in successors[queue[0]] && n in lowered && lowered[n] == 0
    ensures Stage(DepsOf(jobs), le, (ordered + [queue[0]]) + (queue[1..] + released), |ordered + [queue[0]]|)
    ensures Counts(jobs, ordered + [queue[0]], lowered)
  {
    HeadOfStage(DepsOf(jobs), ordered, queue);
    LoweredCounts(jobs, successors, ordered, queue[0], indegree, lowered);
    RoundShifts(jobs, le, successors, ordered, queue, lowered, released);
  }

  lemma RoundShifts(jobs: seq<ScheduledJob>, le: (string, string) -> bool, successors: map<string, seq<string>>,
                    ordered: seq<string>, queue: seq<string>, lowered: map<string, int>, released: seq<string>)
    requires queue != [] && Stage(DepsOf(jobs), le, ordered + queue, |ordered|)
    requires queue[0] in successors && Mirrors(jobs, successors) && Counts(jobs, ordered + [queue[0]], lowered)
    requires Distinct(released) && SortedBy(le, released)
    requires forall n :: n in released <==> n in successors[queue[0]] && n in lowered && lowered[n] == 0
    ensures Stage(DepsOf(jobs), le, (ordered + [queue[0]]) + (queue[1..] + released), |ordered + [queue[0]]|)
  {
    var all, done := ordered + queue, |ordered|;
    assert all[done] == queue[0] && all[..done + 1] == ordered + [queue[0]];
    RoundStage(jobs, le, successors, all, done, lowered, released);
    StageShifts(DepsOf(jobs), le, ordered, queue, released);
  }

  lemma RoundStage(jobs: seq<ScheduledJob>, le: (string, string) -> bool, successors: map<string, seq<string>>,
                   all: seq<string>, done: nat, lowered: map<string, int>, released: seq<string>)
    requires done < |all| && Stage(DepsOf(jobs), le, all, done)
    requires all[done] in successors && Mirrors(jobs, successors) && Counts(jobs, all[..done + 1], lowered)
    requires Distinct(released) && SortedBy(le, released)
    requires forall n :: n in released <==> n in successors[all[done]] && n in lowered && lowered[n] == 0
    ensures Stage(DepsOf(jobs), le, all + released, done + 1)
  {
    ReleasedCounts(jobs, le, all, done, successors, lowered, released);
    NextStage(DepsOf(jobs), le, all, done, released);
  }

  lemma StartCounts(jobs: seq<ScheduledJob>, indegree: map<string, int>)
    requires indegree.Keys == ToSet(Names(jobs))
    requires forall n :: n in indegree ==> indegree[n] == |DepList(jobs, n)|
    ensures Counts(jobs, [], indegree)
  {
    forall n | n in indegree
      ensures indegree[n] == Outstanding(DepList(jobs, n), [])
    {
      OutstandingStart(DepList(jobs, n));
    }
  }

  /** The names without dependencies, in declaration order. */
  method ReadyNames(jobs: seq<ScheduledJob>, indegree: map<string, int>, le: (string, string) -> bool)
    returns (ready: seq<string>)
    requires TotalOrder(le) && indegree.Keys == ToSet(Names(jobs))
    requires forall n :: n in indegree ==> indegree[n] == |DepList(jobs, n)|
    ensures Distinct(ready) && SortedBy(le, ready)
    ensures forall n :: n in ready <==> n in DepsOf(jobs) && DepsOf(jobs)[n] == {}
  {
    var names := Fresh(Names(jobs), {});
    FreshIsDistinct(Names(jobs), {});
    var found := ZeroNames(names, indegree);
    forall n | n in indegree
      ensures indegree[n] == 0 <==> DepsOf(jobs)[n] == {}
    {
      var list := DepList(jobs, n);
      assert list != [] ==> list[0] in ToSet(list);
    }
    SortOfDistinct(le, found);
    ready := Sort(le, found);
  }

  method ZeroNames(names: seq<string>, indegree: map<string, int>) returns (found: seq<string>)
    requires Distinct(names) && forall n :: n in names ==> n in indegree
    ensures Distinct(found) && forall n :: n in found <==> n in names && indegree[n] == 0
  {
    found := [];
    for i := 0 to |names|
      invariant Distinct(found)
      invariant forall n :: n in found <==> n in names[..i] && indegree[n] == 0
    {
      assert names[i] in names;
      if indegree[names[i]] == 0 {
        found := found + [names[i]];
      }
    }
    assert names[..|names|] == names;
  }

  lemma RoundIsReleased(jobs: seq<ScheduledJob>, successors: map<string, seq<string>>, ordered: seq<string>,
                        indegree: map<string, int>, name: string)
    requires name in successors && name !in ordered && Mirrors(jobs, successors)
    requires Counts(jobs, ordered, indegree)
    ensures forall n :: n in successors[name] ==> n in indegree && multiset(successors[name])[n] <= indegree[n]
  {
    forall n | n in successors[name]
      ensures n in indegree && multiset(successors[name])[n] <= indegree[n]
    {
      SuccessorFits(jobs, successors, ordered, indegree, name, n);
    }
  }

  lemma SuccessorFits(jobs: seq<ScheduledJob>, successors: map<string, seq<string>>, ordered: seq<string>,
                      indegree: map<string, int>, name: string, n: string)
    requires name in successors && name !in ordered && Mirrors(jobs, successors)
    requires Counts(jobs, ordered, indegree) && n in successors[name]
    ensures n in indegree && multiset(successors[name])[n] <= indegree[n]
  {
    assert multiset(successors[name])[n] > 0;
    assert multiset(successors[name])[n] == multiset(DepList(jobs, n))[name];
    if n !in Names(jobs) {
      DepListOfStranger(jobs, n);
    }
    OutstandingStep(DepList(jobs, n), ordered, name);
  }

  lemma LoweredCounts(jobs: seq<ScheduledJob>, successors: map<string, seq<string>>, ordered: seq<string>, name: string,
                      indegree: map<string, int>, lowered: map<string, int>)
    requires name in successors && name !in ordered && Mirrors(jobs, successors)
    requires Counts(jobs, ordered, indegree) && lowered.Keys == indegree.Keys
    requires forall n :: n in indegree ==> lowered[n] == indegree[n] - multiset(successors[name])[n]
    ensures Counts(jobs, ordered + [name], lowered)
  {
    forall n | n in lowered
      ensures lowered[n] == Outstanding(DepList(jobs, n), ordered + [name])
    {
      OutstandingStep(DepList(jobs, n), ordered, name);
    }
  }

  lemma ReleasedCounts(jobs: seq<ScheduledJob>, le: (string, string) -> bool, all: seq<string>, done: nat,
                       successors: map<string, seq<string>>, lowered: map<string, int>, released: seq<string>)
    requires done < |all| && all[done] in successors && Mirrors(jobs, successors)
    requires Counts(jobs, all[..done + 1], lowered)
    requires Distinct(released) && SortedBy(le, released)
    requires forall n :: n in released <==> n in successors[all[done]] && n in lowered && lowered[n] == 0
    ensures Released(DepsOf(jobs), le, all, done, released)
  {
    forall n
      ensures n in released <==>
              n in DepsOf(jobs) && all[done] in DepsOf(jobs)[n] && Covered(DepsOf(jobs)[n], all[..done + 1])
    {
      var list := DepList(jobs, n);
      assert n in multiset(successors[all[done]]) <==> all[done] in multiset(list);
      OutstandingZero(list, all[..done + 1]);
    }
  }

  lemma {:induction false} DepListOfStranger(jobs: seq<ScheduledJob>, name: string)
    requires name !in Names(jobs)
    ensures DepList(jobs, name) == []
  {
    if jobs != [] {
      var init, last := jobs[..|jobs| - 1], jobs[|jobs| - 1];
      assert Names(jobs) == Names(init) + [last.name];
      DepListOfStranger(init, name);
    }
  }

  // Accepting a plan.

  datatype PlanCheck =
    | Accepted
    | UnknownDeps(job: string, unknown: seq<string>)
    | SelfDependency(job: string)
    | Cyclic(remaining: seq<string>)

  function UnknownIn(names: seq<string>, wanted: seq<string>): seq<string> {
    if wanted == [] then []
    else UnknownIn(names, wanted[..|wanted| - 1])
         + if wanted[|wanted| - 1] in names then [] else [wanted[|wanted| - 1]]
  }

  ghost predicate JobPasses(jobs: seq<ScheduledJob>, i: nat)
    requires i < |jobs|
  {
    UnknownIn(Names(jobs), jobs[i].dependsOn) == [] && jobs[i].name !in jobs[i].dependsOn
  }

  /** `i` is the first job whose `depends_on` list is refused. */
  ghost predicate FirstRefused(jobs: seq<ScheduledJob>, i: nat) {
    i < |jobs| && !JobPasses(jobs, i) && forall k :: 0 <= k < i ==> JobPasses(jobs, k)
  }

  ghost predicate Acyclic(jobs: seq<ScheduledJob>) {
    forall n :: n in Names(jobs) ==> !ReachesCycle(DepEdges(DepsOf(jobs)), n)
  }

  lemma {:induction false} UnknownInEmpty(names: seq<string>, wanted: seq<string>)
    ensures UnknownIn(names, wanted) == [] <==> forall d :: d in wanted ==> d in names
  {
    if wanted != [] {
      UnknownInEmpty(names, wanted[..|wanted| - 1]);
      assert wanted == wanted[..|wanted| - 1] + [wanted[|wanted| - 1]];
    }
  }

  /** The unknown entries are kept one by one and in their order. */
  lemma {:induction false} UnknownInConcat(names: seq<string>, a: seq<string>, b: seq<string>)
    ensures UnknownIn(names, a + b) == UnknownIn(names, a) + UnknownIn(names, b)
  {
    if b == [] {
      assert a + b == a;
    } else {
      var init, last := b[..|b| - 1], b[|b| - 1];
      var kept := if last in names then [] else [last];
      assert (a + b)[..|a + b| - 1] == a + init && (a + b)[|a + b| - 1] == last;
      UnknownInConcat(names, a, init);
      assert UnknownIn(names, a + b) == UnknownIn(names, a + init) + kept;
      assert UnknownIn(names, b) == UnknownIn(names, init) + kept;
    }
  }

  lemma UnknownInOne(names: seq<string>, d: string)
    ensures UnknownIn(names, [d]) == if d in names then [] else [d]
  {
    assert [d][..0] == [] && UnknownIn(names, []) == [];
  }

  /** The names of `listed` that are not in `order`, sorted. */
  function Remaining(listed: seq<string>, order: seq<string>): seq<string> {
    Sort(StringLe, Fresh(listed, ToSet(order)))
  }

  /**
   * A plan is accepted iff every dependency is known, names are distinct and no job reaches a cycle.
   * A refusal names its cause; the jobs of a cycle error are exactly those on or downstream of a cycle,
   * so the list is empty when only a repeated name is at fault.
   */
  method ValidateDependencies(jobs: seq<ScheduledJob>) returns (check: PlanCheck)
    ensures check.Accepted? <==> KnownDeps(jobs) && Distinct(Names(jobs)) && Acyclic(jobs)
    ensures check.UnknownDeps? ==> exists i: nat ::
              && FirstRefused(jobs, i) && check.job == jobs[i].name
              && check.unknown == UnknownIn(Names(jobs), jobs[i].dependsOn) != []
    ensures check.SelfDependency? ==> exists i: nat ::
              && FirstRefused(jobs, i) && check.job == jobs[i].name
              && UnknownIn(Names(jobs), jobs[i].dependsOn) == [] && check.job in jobs[i].dependsOn
    ensures check.Cyclic? ==>
              && KnownDeps(jobs) && SortedBy(StringLe, check.remaining) && Distinct(check.remaining)
              && (forall n :: n in check.remaining <==>
                    n in Names(jobs) && ReachesCycle(DepEdges(DepsOf(jobs)), n))
              && (check.remaining == [] <==> Acyclic(jobs))
              && (check.remaining == [] ==> !Distinct(Names(jobs)))
  {
    for i := 0 to |jobs|
      invariant forall k :: 0 <= k < i ==> JobPasses(jobs, k)
    {
      var unknown := UnknownIn(Names(jobs), jobs[i].dependsOn);
      UnknownInEmpty(Names(jobs), jobs[i].dependsOn);
      if unknown != [] {
        assert FirstRefused(jobs, i);
        assert jobs[i] in jobs;
        return UnknownDeps(jobs[i].name, unknown);
      }
      if jobs[i].name in jobs[i].dependsOn {
        assert FirstRefused(jobs, i);
        SelfDependencyIsCycle(jobs, i);
        return SelfDependency(jobs[i].name);
      }
    }
    AllPass(jobs);
    var order := TopologicalSort(jobs);
    SortCovers(jobs, order);
    if |order| != |jobs| {
      FreshIsDistinct(Names(jobs), ToSet(order));
      StringLeIsTotalOrder();
      SortOfDistinct(StringLe, Fresh(Names(jobs), ToSet(order)));
      var remaining := Remaining(Names(jobs), order);
      assert remaining != [] ==> remaining[0] in remaining;
      return Cyclic(remaining);
    }
    return Accepted;
  }

  lemma AllPass(jobs: seq<ScheduledJob>)
    requires forall k :: 0 <= k < |jobs| ==> JobPasses(jobs, k)
    ensures KnownDeps(jobs)
  {
    forall job, d | job in jobs && d in job.dependsOn
      ensures d in Names(jobs)
    {
      var k :| 0 <= k < |jobs| && jobs[k] == job;
      assert JobPasses(jobs, k);
      UnknownInEmpty(Names(jobs), job.dependsOn);
    }
  }

  lemma {:induction false} OwnDepsAreListed(jobs: seq<ScheduledJob>, i: nat, d: string)
    requires i < |jobs| && d in jobs[i].dependsOn
    ensures d in DepList(jobs, jobs[i].name)
  {
    if i < |jobs| - 1 {
      OwnDepsAreListed(jobs[..|jobs| - 1], i, d);
    }
  }

  lemma SelfDependencyIsCycle(jobs: seq<ScheduledJob>, i: nat)
    requires i < |jobs| && jobs[i].name in jobs[i].dependsOn
    ensures !Acyclic(jobs)
  {
    var n, edges := jobs[i].name, DepEdges(DepsOf(jobs));
    OwnDepsAreListed(jobs, i, n);
    assert Names(jobs)[i] == n;
    assert (n, n) in edges;
    assert WalkFromTo(edges, [n, n], n, n);
    assert Reach(edges, n, n, 1);
    ReachZero(edges, n, n);
  }

  /**
   * The sort returns as many names as there are jobs iff names are distinct and no job reaches a
   * cycle; the names it leaves out are exactly those that reach one.
   */
  lemma SortCovers(jobs: seq<ScheduledJob>, order: seq<string>)
    requires KnownDeps(jobs) && IsFifoOrder(DepsOf(jobs), DeclaredLe(OrderIndex(jobs)), order)
    ensures |order| == |jobs| <==> Distinct(Names(jobs)) && Acyclic(jobs)
    ensures forall n :: n in Names(jobs) ==> (n !in order <==> ReachesCycle(DepEdges(DepsOf(jobs)), n))
    ensures Acyclic(jobs) ==> forall n :: n in order <==> n in Names(jobs)
  {
    forall n | n in Names(jobs)
      ensures n !in order <==> ReachesCycle(DepEdges(DepsOf(jobs)), n)
    {
      DepsAreClosed(jobs);
      MissingIffReachesCycle(DepsOf(jobs), DeclaredLe(OrderIndex(jobs)), order, n);
    }
    SizeOfCover(Names(jobs), order);
  }

  /** Two jobs of one name and without dependencies: acyclic, but one name short. */
  lemma RepeatedNameLooksCyclic(job: ScheduledJob, order: seq<string>)
    requires job.dependsOn == [] && IsFifoOrder(DepsOf([job, job]), DeclaredLe(OrderIndex([job, job])), order)
    ensures KnownDeps([job, job]) && Acyclic([job, job])
    ensures |order| != |[job, job]| && Remaining(Names([job, job]), order) == []
  {
    var jobs := [job, job];
    assert jobs[..1] == [job] && [job][..0] == [];
    assert DepList([job], job.name) == [];
    assert jobs[..|jobs| - 1] == [job] && jobs[|jobs| - 1] == job;
    assert DepList(jobs, job.name) == DepList([job], job.name) + [];
    assert Names(jobs) == [job.name, job.name];
    forall n | n in Names(jobs)
      ensures !ReachesCycle(DepEdges(DepsOf(jobs)), n)
    {
      NoEdgesNoCycle(DepEdges(DepsOf(jobs)), n);
    }
    SortCovers(jobs, order);
    FreshIsDistinct(Names(jobs), ToSet(order));
    var missing := Fresh(Names(jobs), ToSet(order));
    assert ToSet(missing) == {};
    DistinctSize(missing);
  }

  lemma NoEdgesNoCycle(edges: set<(string, string)>, n: string)
    requires edges == {}
    ensures !ReachesCycle(edges, n)
  {
    RankedReachesNoCycle(edges, {n}, map[n := 0], n);
  }
}

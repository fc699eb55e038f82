/** The SQL model graph: dependency references, the model sort and the selection closure. */
module SqlGraph {
  import opened Seqs
  import opened Walks
  import opened Ordering
  import opened FifoTopology
  import opened Text

  datatype SqlModel = SqlModel(stage: string, domain: string, name: string, dependsOn: seq<string>) {
    function Id(): string {
      stage + "." + domain + "." + name
    }
  }

  datatype GraphError =
    | DependencyInvalid(reference: string)
    | DependencyMissing(modelId: string, reference: string)
    | DependencyCycle(unresolved: seq<string>)

  datatype Outcome<T> = Ok(value: T) | Err(error: GraphError)

  // Dependency references.

  function NonEmptyStripped(parts: seq<string>): seq<string> {
    if parts == [] then []
    else (if Strip(parts[0], IsSpace) == [] then [] else [Strip(parts[0], IsSpace)]) + NonEmptyStripped(parts[1..])
  }

  function NormalizeReference(reference: string, stage: string, domain: string): Outcome<string> {
    var parts := NonEmptyStripped(SplitDots(reference));
    if |parts| == 1 then Ok(stage + "." + domain + "." + parts[0])
    else if |parts| == 2 then Ok(stage + "." + parts[0] + "." + parts[1])
    else if |parts| == 3 then Ok(parts[0] + "." + parts[1] + "." + parts[2])
    else Err(DependencyInvalid(reference))
  }

  /** One reference of a model against the ids there are. */
  function Resolve(model: SqlModel, ids: set<string>, reference: string): Outcome<string> {
    match NormalizeReference(reference, model.stage, model.domain)
    case Err(e) => Err(e)
    case Ok(id) => if id in ids then Ok(id) else Err(DependencyMissing(model.Id(), reference))
  }

  // What a reference stands for, in terms of the text between its dots.

  predicate Blank(piece: string) {
    forall c :: c in piece ==> IsSpace(c)
  }

  /** A name with no dot in it and no white space at either end. */
  predicate Plain(name: string) {
    name != "" && '.' !in name && !IsSpace(name[0]) && !IsSpace(name[|name| - 1])
  }

  /** `piece` is the name `part` between white space. */
  ghost predicate Padded(piece: string, part: string) {
    Plain(part) && exists before, after :: Blank(before) && Blank(after) && piece == before + part + after
  }

  /** The parts are what stands in the pieces that are not blank. */
  ghost predicate Spells(pieces: seq<string>, parts: seq<string>) {
    if pieces == [] then parts == []
    else
      || (Blank(pieces[0]) && Spells(pieces[1..], parts))
      || (parts != [] && Padded(pieces[0], parts[0]) && Spells(pieces[1..], parts[1..]))
  }

  lemma {:induction false} SpelledIsStripped(pieces: seq<string>, parts: seq<string>)
    requires Spells(pieces, parts)
    ensures NonEmptyStripped(pieces) == parts
  {
    if pieces != [] {
      if Blank(pieces[0]) && Spells(pieces[1..], parts) {
        StripTakesEnds(pieces[0], "", "", IsSpace);
        assert pieces[0] + "" + "" == pieces[0];
        SpelledIsStripped(pieces[1..], parts);
      } else {
        var before, after :| Blank(before) && Blank(after) && pieces[0] == before + parts[0] + after;
        StripTakesEnds(before, parts[0], after, IsSpace);
        SpelledIsStripped(pieces[1..], parts[1..]);
        assert parts == [parts[0]] + parts[1..];
      }
    }
  }

  /** Every reference spells something: the condition on the pieces leaves nothing out. */
  lemma {:induction false} EveryReferenceSpells(pieces: seq<string>)
    requires forall piece :: piece in pieces ==> '.' !in piece
    ensures Spells(pieces, NonEmptyStripped(pieces))
  {
    if pieces != [] {
      EveryReferenceSpells(pieces[1..]);
      var before, after := StripLeaves(pieces[0], IsSpace);
      var core := Strip(pieces[0], IsSpace);
      if core == [] {
        assert pieces[0] == before + after;
        assert NonEmptyStripped(pieces) == [] + NonEmptyStripped(pieces[1..]) == NonEmptyStripped(pieces[1..]);
      } else {
        assert pieces[0] in pieces && Blank(before) && Blank(after) && pieces[0] == before + core + after;
        assert forall c :: c in core ==> c in before + core + after;
        assert Padded(pieces[0], core);
        assert NonEmptyStripped(pieces) == [core] + NonEmptyStripped(pieces[1..]);
        assert NonEmptyStripped(pieces)[1..] == NonEmptyStripped(pieces[1..]);
      }
    }
  }

  lemma PartsStandFor(model: SqlModel, ids: set<string>, reference: string, parts: seq<string>)
    requires NonEmptyStripped(SplitDots(reference)) == parts
    ensures var found := Resolve(model, ids, reference);
      && (|parts| == 0 || |parts| > 3 ==> found == Err(DependencyInvalid(reference)))
      && (1 <= |parts| <= 3 ==>
            var id := if |parts| == 1 then model.stage + "." + model.domain + "." + parts[0]
                      else if |parts| == 2 then model.stage + "." + parts[0] + "." + parts[1]
                      else parts[0] + "." + parts[1] + "." + parts[2];
            && (id in ids ==> found == Ok(id))
            && (id !in ids ==>
                  found == Err(DependencyMissing(model.stage + "." + model.domain + "." + model.name, reference))))
  {
  }

  /** The id that a reference of one, two or three names stands for. */
  lemma ReferenceStandsFor(model: SqlModel, ids: set<string>, pieces: seq<string>, parts: seq<string>)
    requires pieces != [] && (forall piece :: piece in pieces ==> '.' !in piece) && Spells(pieces, parts)
    ensures var reference, found := Join(pieces, "."), Resolve(model, ids, Join(pieces, "."));
      && (|parts| == 0 || |parts| > 3 ==> found == Err(DependencyInvalid(reference)))
      && (1 <= |parts| <= 3 ==>
            var id := if |parts| == 1 then model.stage + "." + model.domain + "." + parts[0]
                      else if |parts| == 2 then model.stage + "." + parts[0] + "." + parts[1]
                      else parts[0] + "." + parts[1] + "." + parts[2];
            && (id in ids ==> found == Ok(id))
            && (id !in ids ==>
                  found == Err(DependencyMissing(model.stage + "." + model.domain + "." + model.name, reference))))
  {
    SplitJoin(pieces);
    SpelledIsStripped(pieces, parts);
    PartsStandFor(model, ids, Join(pieces, "."), parts);
  }

  lemma {:induction false} PlainSpells(names: seq<string>)
    requires forall name :: name in names ==> Plain(name)
    ensures Spells(names, names)
  {
    if names != [] {
      assert Blank("") && names[0] == "" + names[0] + "";
      assert Padded(names[0], names[0]);
      PlainSpells(names[1..]);
    }
  }

  /** The three ways to refer to the model `c` of domain `b` of stage `a`. */
  lemma PlainReferences(model: SqlModel, ids: set<string>, a: string, b: string, c: string)
    requires Plain(a) && Plain(b) && Plain(c)
    ensures if a + "." + b + "." + c in ids then
              Resolve(model, ids, a + "." + b + "." + c) == Ok(a + "." + b + "." + c)
            else Resolve(model, ids, a + "." + b + "." + c).Err?
    ensures if model.stage + "." + b + "." + c in ids then
              Resolve(model, ids, b + "." + c) == Ok(model.stage + "." + b + "." + c)
            else Resolve(model, ids, b + "." + c).Err?
    ensures if model.stage + "." + model.domain + "." + c in ids then
              Resolve(model, ids, c) == Ok(model.stage + "." + model.domain + "." + c)
            else Resolve(model, ids, c).Err?
  {
    FullReference(model, ids, a, b, c);
    DomainReference(model, ids, b, c);
    NameReference(model, ids, c);
  }

  lemma FullReference(model: SqlModel, ids: set<string>, a: string, b: string, c: string)
    requires Plain(a) && Plain(b) && Plain(c)
    ensures if a + "." + b + "." + c in ids then
              Resolve(model, ids, a + "." + b + "." + c) == Ok(a + "." + b + "." + c)
            else Resolve(model, ids, a + "." + b + "." + c).Err?
  {
    PlainSpells([a, b, c]);
    ReferenceStandsFor(model, ids, [a, b, c], [a, b, c]);
    JoinThree(a, b, c);
  }

  lemma JoinThree(a: string, b: string, c: string)
    ensures Join([a, b, c], ".") == a + "." + b + "." + c
  {
    assert [a, b, c][1..] == [b, c] && [b, c][1..] == [c];
    assert Join([b, c], ".") == b + "." + c;
    assert Join([a, b, c], ".") == a + "." + (b + "." + c);
    Associates(a + ".", b, "." + c);
  }

  lemma Associates(a: string, b: string, c: string)
    ensures a + (b + c) == a + b + c
  {
  }

  lemma DomainReference(model: SqlModel, ids: set<string>, b: string, c: string)
    requires Plain(b) && Plain(c)
    ensures if model.stage + "." + b + "." + c in ids then
              Resolve(model, ids, b + "." + c) == Ok(model.stage + "." + b + "." + c)
            else Resolve(model, ids, b + "." + c).Err?
  {
    PlainSpells([b, c]);
    ReferenceStandsFor(model, ids, [b, c], [b, c]);
    assert [b, c][1..] == [c];
  }

  lemma NameReference(model: SqlModel, ids: set<string>, c: string)
    requires Plain(c)
    ensures if model.stage + "." + model.domain + "." + c in ids then
              Resolve(model, ids, c) == Ok(model.stage + "." + model.domain + "." + c)
            else Resolve(model, ids, c).Err?
  {
    PlainSpells([c]);
    ReferenceStandsFor(model, ids, [c], [c]);
  }

  /** Letters, digits and underscores make a plain name; blanks, tabs and line ends are white space. */
  lemma WordsAndSpaces(name: string, spaces: string)
    requires name != [] && forall c :: c in name ==>
               'a' <= c <= 'z' || 'A' <= c <= 'Z' || '0' <= c <= '9' || c == '_'
    requires forall c :: c in spaces ==> c in {' ', '\t', '\n', '\r'}
    ensures Plain(name) && Blank(spaces) && Padded(spaces + name + spaces, name)
  {
    assert name[0] in name && name[|name| - 1] in name;
  }

  ghost predicate Resolves(model: SqlModel, ids: set<string>) {
    forall r :: r in model.dependsOn ==> Resolve(model, ids, r).Ok?
  }

  /** The ids that the resolvable references of a model stand for. */
  ghost function DepIds(model: SqlModel, ids: set<string>): set<string> {
    set r | r in model.dependsOn && Resolve(model, ids, r).Ok? :: Resolve(model, ids, r).value
  }

  /** The error is that of the first reference that does not resolve. */
  ghost predicate FirstUnresolved(model: SqlModel, ids: set<string>, error: GraphError) {
    exists i ::
      && 0 <= i < |model.dependsOn|
      && Resolve(model, ids, model.dependsOn[i]) == Err(error)
      && forall k :: 0 <= k < i ==> Resolve(model, ids, model.dependsOn[k]).Ok?
  }

  method ResolveDependencyIds(model: SqlModel, ids: set<string>) returns (outcome: Outcome<seq<string>>)
    ensures outcome.Ok? <==> Resolves(model, ids)
    ensures outcome.Ok? ==>
              && |outcome.value| == |model.dependsOn|
              && (forall i :: 0 <= i < |outcome.value| ==>
                    Resolve(model, ids, model.dependsOn[i]) == Ok(outcome.value[i]))
              && ToSet(outcome.value) == DepIds(model, ids) <= ids
    ensures outcome.Err? ==> FirstUnresolved(model, ids, outcome.error)
    // A full id, one without its stage and a bare name stand for the model they name.
    ensures outcome.Ok? ==> forall a, b, c :: Plain(a) && Plain(b) && Plain(c) ==>
              && (a + "." + b + "." + c in model.dependsOn ==> a + "." + b + "." + c in outcome.value)
              && (b + "." + c in model.dependsOn ==> model.stage + "." + b + "." + c in outcome.value)
              && (c in model.dependsOn ==> model.stage + "." + model.domain + "." + c in outcome.value)
  {
    var resolved := [];
    for i := 0 to |model.dependsOn|
      invariant |resolved| == i
      invariant forall k :: 0 <= k < i ==> Resolve(model, ids, model.dependsOn[k]) == Ok(resolved[k])
    {
      var reference := model.dependsOn[i];
      match Resolve(model, ids, reference) {
        case Err(e) =>
          assert reference in model.dependsOn;
          return Err(e);
        case Ok(id) =>
          resolved := resolved + [id];
      }
    }
    forall d | d in DepIds(model, ids)
      ensures d in resolved
    {
      var r :| r in model.dependsOn && Resolve(model, ids, r) == Ok(d);
      var k :| 0 <= k < |model.dependsOn| && model.dependsOn[k] == r;
      assert resolved[k] == d;
    }
    forall a, b, c | Plain(a) && Plain(b) && Plain(c)
      ensures a + "." + b + "." + c in model.dependsOn ==> a + "." + b + "." + c in resolved
      ensures b + "." + c in model.dependsOn ==> model.stage + "." + b + "." + c in resolved
      ensures c in model.dependsOn ==> model.stage + "." + model.domain + "." + c in resolved
    {
      PlainReferencesListed(model, ids, resolved, a, b, c);
    }
    return Ok(resolved);
  }

  lemma PlainReferencesListed(model: SqlModel, ids: set<string>, resolved: seq<string>, a: string, b: string,
                              c: string)
    requires Plain(a) && Plain(b) && Plain(c) && |resolved| == |model.dependsOn|
    requires forall k :: 0 <= k < |resolved| ==> Resolve(model, ids, model.dependsOn[k]) == Ok(resolved[k])
    ensures a + "." + b + "." + c in model.dependsOn ==> a + "." + b + "." + c in resolved
    ensures b + "." + c in model.dependsOn ==> model.stage + "." + b + "." + c in resolved
    ensures c in model.dependsOn ==> model.stage + "." + model.domain + "." + c in resolved
  {
    PlainReferences(model, ids, a, b, c);
    forall r | r in model.dependsOn
      ensures Resolve(model, ids, r).Ok? && Resolve(model, ids, r).value in resolved
    {
      var k :| 0 <= k < |model.dependsOn| && model.dependsOn[k] == r;
      assert resolved[k] in resolved;
    }
  }

  // The graph.

  function Ids(models: seq<SqlModel>): seq<string> {
    seq(|models|, i requires 0 <= i < |models| => models[i].Id())
  }

  /** The dependencies recorded under an id, over all models that have it. */
  ghost function InboundOf(models: seq<SqlModel>, ids: set<string>, id: string): set<string> {
    set m, d | m in models && m.Id() == id && d in DepIds(m, ids) :: d
  }

  ghost function GraphOf(models: seq<SqlModel>): Deps {
    map id | id in Ids(models) :: InboundOf(models, ToSet(Ids(models)), id)
  }

  ghost predicate AllResolve(models: seq<SqlModel>) {
    forall m :: m in models ==> Resolves(m, ToSet(Ids(models)))
  }

  /** `models_by_id`: the last model of each id. */
  function ById(models: seq<SqlModel>): (byId: map<string, SqlModel>)
    ensures forall id :: id in byId ==> byId[id] in models && byId[id].Id() == id
    ensures byId.Keys == ToSet(Ids(models))
  {
    if models == [] then map[]
    else
      var init, last := models[..|models| - 1], models[|models| - 1];
      assert Ids(models) == Ids(init) + [last.Id()];
      ById(init)[last.Id() := last]
  }

  /** `n` is recorded as outgoing from `d` iff `d` is recorded as inbound to `n`. */
  ghost predicate EdgeMatches(inbound: map<string, set<string>>, outgoing: map<string, set<string>>, d: string,
                              n: string)
  {
    d in outgoing ==> (n in outgoing[d] <==> n in inbound && d in inbound[n])
  }

  ghost predicate EdgesMatch(ids: set<string>, inbound: map<string, set<string>>, outgoing: map<string, set<string>>) {
    inbound.Keys == ids && outgoing.Keys == ids && forall d, n :: EdgeMatches(inbound, outgoing, d, n)
  }

  /** The error is that of the first model that has an unresolved reference. */
  ghost predicate FirstBadModel(models: seq<SqlModel>, error: GraphError) {
    exists i ::
      && 0 <= i < |models| && FirstUnresolved(models[i], ToSet(Ids(models)), error)
      && forall k :: 0 <= k < i ==> Resolves(models[k], ToSet(Ids(models)))
  }

  /** The inbound and outgoing edge sets, filled model by model; the first bad reference ends it. */
  method CollectEdges(models: seq<SqlModel>, ids: set<string>)
    returns (error: Option<GraphError>, inbound: map<string, set<string>>, outgoing: map<string, set<string>>)
    requires ids == ToSet(Ids(models))
    ensures error.None? <==> AllResolve(models)
    ensures error.Some? ==> FirstBadModel(models, error.value)
    ensures error.None? ==> inbound == GraphOf(models) && EdgesMatch(ids, inbound, outgoing)
  {
    error, inbound, outgoing := None, map id | id in ids :: {}, map id | id in ids :: {};
    StartEmpty(ids);
    for i := 0 to |models|
      invariant error.None? && EdgesMatch(ids, inbound, outgoing) && Gathered(models[..i], ids, inbound)
      invariant ResolveUpTo(models, ids, i)
    {
      assert Ids(models)[i] == models[i].Id();
      error, inbound, outgoing := AddModel(models[..i], models[i], ids, inbound, outgoing);
      if error.Some? {
        assert models[i] in models && !Resolves(models[i], ids);
        return;
      }
      assert models[..i + 1] == models[..i] + [models[i]];
    }
    assert models[..|models|] == models;
    GatheredIsGraph(models, inbound);
  }

  ghost predicate ResolveUpTo(models: seq<SqlModel>, ids: set<string>, n: nat)
    requires n <= |models|
  {
    forall k :: 0 <= k < n ==> Resolves(models[k], ids)
  }

  method AddModel(before: seq<SqlModel>, model: SqlModel, ids: set<string>,
                  inbound0: map<string, set<string>>, outgoing0: map<string, set<string>>)
    returns (error: Option<GraphError>, inbound: map<string, set<string>>, outgoing: map<string, set<string>>)
    requires EdgesMatch(ids, inbound0, outgoing0) && Gathered(before, ids, inbound0) && model.Id() in ids
    ensures error.None? <==> Resolves(model, ids)
    ensures error.Some? ==> FirstUnresolved(model, ids, error.value)
    ensures error.None? ==> EdgesMatch(ids, inbound, outgoing) && Gathered(before + [model], ids, inbound)
  {
    inbound, outgoing := inbound0, outgoing0;
    var outcome := ResolveDependencyIds(model, ids);
    if outcome.Err? {
      error := Some(outcome.error);
    } else {
      error := None;
      InboundGrows(before, model, ids, inbound);
      inbound, outgoing := AddEdges(ids, model.Id(), outcome.value, inbound, outgoing);
    }
  }

  lemma OneEdge(ids: set<string>, inbound: map<string, set<string>>, outgoing: map<string, set<string>>, n: string,
                d: string)
    requires EdgesMatch(ids, inbound, outgoing) && n in ids && d in ids
    ensures EdgesMatch(ids, inbound[n := inbound[n] + {d}], outgoing[d := outgoing[d] + {n}])
  {
    var inbound', outgoing' := inbound[n := inbound[n] + {d}], outgoing[d := outgoing[d] + {n}];
    forall x, y
      ensures EdgeMatches(inbound', outgoing', x, y)
    {
      assert EdgeMatches(inbound, outgoing, x, y);
    }
  }

  ghost predicate GatheredAt(models: seq<SqlModel>, ids: set<string>, inbound: map<string, set<string>>, id: string) {
    id in inbound ==> inbound[id] == InboundOf(models, ids, id)
  }

  ghost predicate Gathered(models: seq<SqlModel>, ids: set<string>, inbound: map<string, set<string>>) {
    inbound.Keys == ids && forall id :: GatheredAt(models, ids, inbound, id)
  }

  method AddEdges(ids: set<string>, modelId: string, dependencyIds: seq<string>,
                  inbound0: map<string, set<string>>, outgoing0: map<string, set<string>>)
    returns (inbound: map<string, set<string>>, outgoing: map<string, set<string>>)
    requires EdgesMatch(ids, inbound0, outgoing0) && modelId in ids && ToSet(dependencyIds) <= ids
    ensures EdgesMatch(ids, inbound, outgoing)
    ensures inbound == inbound0[modelId := inbound0[modelId] + ToSet(dependencyIds)]
  {
    inbound, outgoing := inbound0, outgoing0;
    assert inbound0[modelId] + ToSet(dependencyIds[..0]) == inbound0[modelId];
    for k := 0 to |dependencyIds|
      invariant EdgesMatch(ids, inbound, outgoing)
      invariant inbound == inbound0[modelId := inbound0[modelId] + ToSet(dependencyIds[..k])]
    {
      var dependencyId := dependencyIds[k];
      assert dependencyId in ToSet(dependencyIds);
      assert inbound0[modelId] + ToSet(dependencyIds[..k + 1])
          == inbound0[modelId] + ToSet(dependencyIds[..k]) + {dependencyId};
      OneEdge(ids, inbound, outgoing, modelId, dependencyId);
      inbound := inbound[modelId := inbound[modelId] + {dependencyId}];
      outgoing := outgoing[dependencyId := outgoing[dependencyId] + {modelId}];
    }
    assert dependencyIds[..|dependencyIds|] == dependencyIds;
  }

  lemma InboundGrows(models: seq<SqlModel>, model: SqlModel, ids: set<string>, inbound: map<string, set<string>>)
    requires Gathered(models, ids, inbound) && model.Id() in ids
    ensures Gathered(models + [model], ids, inbound[model.Id() := inbound[model.Id()] + DepIds(model, ids)])
  {
    var inbound' := inbound[model.Id() := inbound[model.Id()] + DepIds(model, ids)];
    forall id
      ensures GatheredAt(models + [model], ids, inbound', id)
    {
      assert GatheredAt(models, ids, inbound, id);
      assert InboundOf(models + [model], ids, id)
          == InboundOf(models, ids, id) + if id == model.Id() then DepIds(model, ids) else {};
    }
  }

  lemma StartEmpty(ids: set<string>)
    ensures var none: map<string, set<string>> := map id | id in ids :: {};
            EdgesMatch(ids, none, none) && Gathered([], ids, none)
  {
    var none: map<string, set<string>> := map id | id in ids :: {};
    forall id
      ensures GatheredAt([], ids, none, id)
    {
      assert InboundOf([], ids, id) == {};
    }
  }

  lemma GatheredIsGraph(models: seq<SqlModel>, inbound: map<string, set<string>>)
    requires Gathered(models, ToSet(Ids(models)), inbound)
    ensures inbound == GraphOf(models)
  {
    forall id | id in Ids(models)
      ensures inbound[id] == GraphOf(models)[id]
    {
      assert GatheredAt(models, ToSet(Ids(models)), inbound, id);
    }
  }

  lemma GraphIsClosed(models: seq<SqlModel>)
    requires AllResolve(models)
    ensures Closed(GraphOf(models))
  {
    var ids := ToSet(Ids(models));
    forall n, d | n in ids && d in GraphOf(models)[n]
      ensures d in ids
    {
      var m :| m in models && m.Id() == n && d in DepIds(m, ids);
    }
  }

  /** `sorted` of a set. */
  method Sorted(pool: set<string>) returns (list: seq<string>)
    ensures SortedBy(StringLe, list) && Distinct(list) && ToSet(list) == pool
  {
    var rest, found := pool, [];
    while rest != {}
      invariant rest <= pool && Distinct(found) && forall x :: x in found <==> x in pool && x !in rest
      decreases |rest|
    {
      var x :| x in rest;
      found := found + [x];
      rest := rest - {x};
    }
    StringLeIsTotalOrder();
    SortOfDistinct(StringLe, found);
    list := Sort(StringLe, found);
  }

  /** What is left of every inbound set when `out` is out. */
  ghost predicate Remaining(deps: Deps, out: seq<string>, remaining: map<string, set<string>>) {
    remaining.Keys == deps.Keys && forall n :: n in deps ==> remaining[n] == deps[n] - ToSet(out)
  }

  /** The inner loop: discard `done` from the inbound set of every child, release the emptied ones. */
  method Discard(children: seq<string>, done: string, remaining: map<string, set<string>>)
    returns (after: map<string, set<string>>, released: seq<string>)
    requires SortedBy(StringLe, children) && Distinct(children)
    requires forall n :: n in children ==> n in remaining
    ensures after.Keys == remaining.Keys
    ensures forall n :: n in remaining ==> after[n] == if n in children then remaining[n] - {done} else remaining[n]
    ensures Distinct(released) && SortedBy(StringLe, released)
    ensures forall n :: n in released <==> n in children && after[n] == {}
  {
    after, released := remaining, [];
    for j := 0 to |children|
      invariant after.Keys == remaining.Keys
      invariant forall n :: n in remaining ==>
                  after[n] == if n in children[..j] then remaining[n] - {done} else remaining[n]
      invariant Distinct(released) && SortedBy(StringLe, released)
      invariant forall n :: n in released <==> n in children[..j] && after[n] == {}
    {
      var child := children[j];
      assert children[..j + 1] == children[..j] + [child];
      NotBefore(children, j);
      assert forall n :: n in children[..j] ==> StringLe(n, child);
      after := after[child := after[child] - {done}];
      if after[child] == {} {
        released := released + [child];
      }
    }
    assert children[..|children|] == children;
  }

  /** The queue loop. It returns the ids in order and what is left of the inbound sets. */
  method SortIds(inbound: Deps, outgoing: map<string, set<string>>)
    returns (ordered: seq<string>, remaining: map<string, set<string>>)
    requires EdgesMatch(inbound.Keys, inbound, outgoing)
    ensures IsFifoOrder(inbound, StringLe, ordered) && Remaining(inbound, ordered, remaining)
  {
    var ready := Sorted(set n | n in inbound && inbound[n] == {});
    forall n
      ensures n in ready <==> n in inbound && inbound[n] == {}
    {
      assert n in ready <==> n in ToSet(ready);
    }
    StartStage(inbound, StringLe, ready);
    ordered, remaining := [], inbound;
    assert [] + ready == ready;
    while ready != []
      invariant Stage(inbound, StringLe, ordered + ready, |ordered|)
      invariant Remaining(inbound, ordered, remaining)
      decreases |inbound| - |ordered|
    {
      var modelId := ready[0];
      HeadOfStage(inbound, ordered, ready);
      var children := Sorted(outgoing[modelId]);
      forall n
        ensures n in children <==> n in inbound && modelId in inbound[n]
      {
        assert EdgeMatches(inbound, outgoing, modelId, n);
        assert n in children <==> n in ToSet(children);
      }
      var after, released := Discard(children, modelId, remaining);
      DiscardDone(inbound, ordered, ready, children, remaining, after, released);
      remaining := after;
      ready := ready[1..] + released;
      ordered := ordered + [modelId];
    }
    assert ordered + [] == ordered;
  }

  lemma DiscardDone(deps: Deps, ordered: seq<string>, ready: seq<string>, children: seq<string>,
                    remaining: map<string, set<string>>, after: map<string, set<string>>, released: seq<string>)
    requires ready != [] && Stage(deps, StringLe, ordered + ready, |ordered|) && Remaining(deps, ordered, remaining)
    requires forall n :: n in children <==> n in deps && ready[0] in deps[n]
    requires after.Keys == remaining.Keys
    requires forall n :: n in remaining ==>
      after[n] == if n in children then remaining[n] - {ready[0]} else remaining[n]
    requires Distinct(released) && SortedBy(StringLe, released)
    requires forall n :: n in released <==> n in children && n in after && after[n] == {}
    ensures Stage(deps, StringLe, (ordered + [ready[0]]) + (ready[1..] + released), |ordered + [ready[0]]|)
    ensures Remaining(deps, ordered + [ready[0]], after)
  {
    HeadOfStage(deps, ordered, ready);
    assert ToSet(ordered + [ready[0]]) == ToSet(ordered) + {ready[0]};
    assert Remaining(deps, ordered + [ready[0]], after);
    RemainingIsReleased(deps, ordered + ready, |ordered|, after, released);
    NextStage(deps, StringLe, ordered + ready, |ordered|, released);
    StageShifts(deps, StringLe, ordered, ready, released);
  }

  lemma RemainingIsReleased(deps: Deps, all: seq<string>, done: nat, after: map<string, set<string>>,
                            released: seq<string>)
    requires done < |all| && Remaining(deps, all[..done + 1], after)
    requires Distinct(released) && SortedBy(StringLe, released)
    requires forall n :: n in released <==> n in deps && all[done] in deps[n] && after[n] == {}
    ensures Released(deps, StringLe, all, done, released)
  {
    forall n | n in deps
      ensures after[n] == {} <==> Covered(deps[n], all[..done + 1])
    {
      assert forall d :: d in after[n] <==> d in deps[n] && d !in all[..done + 1];
    }
  }

  ghost predicate ReachesLoop(models: seq<SqlModel>, id: string) {
    ReachesCycle(DepEdges(GraphOf(models)), id)
  }

  ghost predicate Sortable(models: seq<SqlModel>) {
    AllResolve(models) && Distinct(Ids(models)) && forall n :: n in Ids(models) ==> !ReachesLoop(models, n)
  }

  /** The models themselves, in the one FIFO order of their graph. */
  ghost predicate IsSorted(models: seq<SqlModel>, result: seq<SqlModel>) {
    IsFifoOrder(GraphOf(models), StringLe, Ids(result)) && forall m :: m in result <==> m in models
  }

  /** A cycle error lists exactly the models that reach a cycle, sorted. */
  ghost predicate IsCycleList(models: seq<SqlModel>, unresolved: seq<string>) {
    && SortedBy(StringLe, unresolved) && Distinct(unresolved)
    && forall n :: n in unresolved <==> n in Ids(models) && ReachesLoop(models, n)
  }

  /** The sort succeeds iff every reference resolves, ids are distinct and no model reaches a cycle. */
  method SortModels(models: seq<SqlModel>) returns (outcome: Outcome<seq<SqlModel>>)
    ensures outcome.Ok? <==> Sortable(models)
    ensures outcome.Ok? ==> IsSorted(models, outcome.value)
    ensures outcome.Err? && outcome.error.DependencyCycle? ==>
              AllResolve(models) && IsCycleList(models, outcome.error.unresolved)
    ensures outcome.Err? && !outcome.error.DependencyCycle? ==> FirstBadModel(models, outcome.error)
    ensures outcome.Ok? ==>
              forall i, j :: 0 <= i < |outcome.value| && 0 <= j < |outcome.value| ==>
                (Mentions(outcome.value[i], outcome.value[j]) ==> j < i)
  {
    var byId := ById(models);
    var error, inbound, outgoing := CollectEdges(models, byId.Keys);
    if error.Some? {
      BadModelIsNoCycle(models, error.value);
      return Err(error.value);
    }
    GraphIsClosed(models);
    var ordered, remaining := SortIds(inbound, outgoing);
    EmittedModels(models, ordered, remaining);
    if |ordered| != |models| {
      var unresolved := Sorted(set n | n in remaining && remaining[n] != {});
      assert forall n :: n in unresolved <==> n in ToSet(unresolved);
      return Err(DependencyCycle(unresolved));
    }
    assert forall i :: 0 <= i < |ordered| ==> ordered[i] in ordered && ordered[i] in byId;
    var result := seq(|ordered|, i requires 0 <= i < |ordered| => byId[ordered[i]]);
    assert Ids(result) == ordered;
    SameModels(models, ordered, result);
    MentionedStandFirst(models, result);
    return Ok(result);
  }

  /** `m` lists `n`: by its full id, or by domain and name in one stage, or by its name in one domain. */
  predicate Mentions(m: SqlModel, n: SqlModel) {
    && Plain(n.stage) && Plain(n.domain) && Plain(n.name)
    && (|| n.stage + "." + n.domain + "." + n.name in m.dependsOn
        || (m.stage == n.stage && n.domain + "." + n.name in m.dependsOn)
        || (m.stage == n.stage && m.domain == n.domain && n.name in m.dependsOn))
  }

  lemma MentionedIsDependency(models: seq<SqlModel>, m: SqlModel, n: SqlModel)
    requires AllResolve(models) && m in models && Mentions(m, n)
    ensures m.Id() in GraphOf(models) && n.Id() in GraphOf(models)[m.Id()]
  {
    var ids := ToSet(Ids(models));
    PlainReferences(m, ids, n.stage, n.domain, n.name);
    assert Resolves(m, ids);
    var r :| r in m.dependsOn && Resolve(m, ids, r) == Ok(n.Id());
    var k :| 0 <= k < |models| && models[k] == m;
    assert Ids(models)[k] == m.Id();
    assert n.Id() in DepIds(m, ids);
  }

  lemma MentionedStandFirst(models: seq<SqlModel>, result: seq<SqlModel>)
    requires AllResolve(models) && IsSorted(models, result)
    ensures forall i, j :: 0 <= i < |result| && 0 <= j < |result| ==> (Mentions(result[i], result[j]) ==> j < i)
  {
    forall i, j | 0 <= i < |result| && 0 <= j < |result| && Mentions(result[i], result[j])
      ensures j < i
    {
      MentionedStandsFirst(models, result, i, j);
    }
  }

  lemma MentionedStandsFirst(models: seq<SqlModel>, result: seq<SqlModel>, i: nat, j: nat)
    requires AllResolve(models) && IsSorted(models, result)
    requires i < |result| && j < |result| && Mentions(result[i], result[j])
    ensures j < i
  {
    assert result[i] in result;
    MentionedIsDependency(models, result[i], result[j]);
    var order := Ids(result);
    assert DepsBehind(GraphOf(models), order, i);
    var k :| 0 <= k < i && order[..i][k] == result[j].Id();
    assert order[j] == order[k];
  }

  lemma BadModelIsNoCycle(models: seq<SqlModel>, error: GraphError)
    requires FirstBadModel(models, error)
    ensures !error.DependencyCycle?
  {
  }

  /** What the number of emitted ids and the leftover sets tell. */
  lemma MissingIffRemaining(deps: Deps, ordered: seq<string>, remaining: map<string, set<string>>, n: string)
    requires IsFifoOrder(deps, StringLe, ordered) && Remaining(deps, ordered, remaining) && n in deps
    ensures n !in ordered <==> remaining[n] != {}
  {
    assert ordered[..|ordered|] == ordered;
    assert forall d :: d in remaining[n] <==> d in deps[n] && d !in ordered;
    assert n in ordered <==> Covered(deps[n], ordered);
  }

  lemma {:induction false} EmittedModels(models: seq<SqlModel>, ordered: seq<string>,
                                         remaining: map<string, set<string>>)
    requires AllResolve(models) && IsFifoOrder(GraphOf(models), StringLe, ordered)
    requires Remaining(GraphOf(models), ordered, remaining) && Closed(GraphOf(models))
    ensures forall n :: n in remaining ==> (remaining[n] != {} <==> ReachesLoop(models, n))
    ensures |ordered| == |models| <==> Sortable(models)
    ensures |ordered| == |models| ==> forall n :: n in ordered <==> n in Ids(models)
    ensures forall n :: n in ordered ==> n in Ids(models)
  {
    var deps := GraphOf(models);
    forall n | n in deps
      ensures n !in ordered <==> ReachesLoop(models, n)
      ensures n !in ordered <==> remaining[n] != {}
    {
      MissingIffReachesCycle(deps, StringLe, ordered, n);
      MissingIffRemaining(deps, ordered, remaining, n);
    }
    SizeOfCover(Ids(models), ordered);
  }

  /** Of several models of one id the last one is recorded. */
  lemma {:induction false} ByIdIsLast(models: seq<SqlModel>, i: nat)
    requires i < |models| && forall k :: i < k < |models| ==> models[k].Id() != models[i].Id()
    ensures models[i].Id() in ById(models) && ById(models)[models[i].Id()] == models[i]
  {
    if i < |models| - 1 {
      ByIdIsLast(models[..|models| - 1], i);
    }
  }

  /** With distinct ids every model is the one recorded under its id. */
  lemma {:induction false} ByIdKeeps(models: seq<SqlModel>, m: SqlModel)
    requires Distinct(Ids(models)) && m in models
    ensures m.Id() in ById(models) && ById(models)[m.Id()] == m
  {
    var at :| 0 <= at < |models| && models[at] == m;
    assert Ids(models)[at] == m.Id();
    var init, last := models[..|models| - 1], models[|models| - 1];
    assert models == init + [last] && Ids(models) == Ids(init) + [last.Id()];
    assert Distinct(Ids(init)) && last.Id() !in Ids(init) by {
      forall i | 0 <= i < |init|
        ensures Ids(init)[i] != last.Id()
        ensures forall j :: i < j < |init| ==> Ids(init)[i] != Ids(init)[j]
      {
        assert Ids(models)[i] == Ids(init)[i] && Ids(models)[|init|] == last.Id();
        assert forall j :: i < j < |init| ==> Ids(models)[j] == Ids(init)[j];
      }
    }
    if m in init {
      var i :| 0 <= i < |init| && init[i] == m;
      assert Ids(init)[i] == m.Id();
      ByIdKeeps(init, m);
    }
  }

  lemma SameModels(models: seq<SqlModel>, ordered: seq<string>, result: seq<SqlModel>)
    requires Distinct(Ids(models)) && |result| == |ordered|
    requires forall n :: n in ordered <==> n in Ids(models)
    requires forall i :: 0 <= i < |result| ==> ordered[i] in ById(models) && result[i] == ById(models)[ordered[i]]
    ensures forall m :: m in result <==> m in models
  {
    forall m | m in models
      ensures m in result
    {
      ByIdKeeps(models, m);
      var k :| 0 <= k < |models| && models[k] == m;
      assert Ids(models)[k] == m.Id();
      var i :| 0 <= i < |ordered| && ordered[i] == m.Id();
      assert result[i] == m;
    }
  }

  /** The sort depends on the set of models alone, not on the order in which they were discovered. */
  lemma SortDependsOnSetOfModels(first: seq<SqlModel>, second: seq<SqlModel>, one: seq<SqlModel>, two: seq<SqlModel>)
    requires forall m :: m in first <==> m in second
    requires Distinct(Ids(first))
    requires IsSorted(first, one) && IsSorted(second, two)
    ensures one == two
  {
    SameIds(first, second);
    SameIds(second, first);
    assert ToSet(Ids(first)) == ToSet(Ids(second));
    forall id | id in Ids(first)
      ensures GraphOf(first)[id] == GraphOf(second)[id]
    {
    }
    assert GraphOf(first) == GraphOf(second);
    StringLeIsTotalOrder();
    FifoOrderIsUnique(GraphOf(first), StringLe, Ids(one), Ids(two));
    forall i | 0 <= i < |one|
      ensures one[i] == two[i]
    {
      assert Ids(one)[i] == Ids(two)[i];
      assert one[i] in first && two[i] in first;
      IdsTellApart(first, one[i], two[i]);
    }
  }

  lemma SameIds(first: seq<SqlModel>, second: seq<SqlModel>)
    requires forall m :: m in first ==> m in second
    ensures forall id :: id in Ids(first) ==> id in Ids(second)
  {
    forall id | id in Ids(first)
      ensures id in Ids(second)
    {
      var i :| 0 <= i < |first| && Ids(first)[i] == id;
      assert first[i] in second;
      var j :| 0 <= j < |second| && second[j] == first[i];
      assert Ids(second)[j] == id;
    }
  }

  lemma IdsTellApart(models: seq<SqlModel>, m: SqlModel, n: SqlModel)
    requires Distinct(Ids(models)) && m in models && n in models && m.Id() == n.Id()
    ensures m == n
  {
    var i :| 0 <= i < |models| && models[i] == m;
    var j :| 0 <= j < |models| && models[j] == n;
    assert Ids(models)[i] == Ids(models)[j];
  }

  // Selecting models.

  /** The dependencies of the model recorded under each id. */
  ghost function RecordedDeps(models: seq<SqlModel>): Deps {
    map id | id in ById(models) :: DepIds(ById(models)[id], ById(models).Keys)
  }

  /** `n` is selected or some selected model depends on it, directly or not. */
  ghost predicate Needed(deps: Deps, selected: set<string>, n: string) {
    exists a, k: nat :: a in selected && Reach(DepEdges(deps), a, n, k)
  }

  ghost predicate ClosedUnder(deps: Deps, part: set<string>) {
    forall n :: n in part && n in deps ==> deps[n] <= part
  }

  lemma {:induction false} ReachStaysInside(deps: Deps, part: set<string>, a: string, b: string, k: nat)
    requires ClosedUnder(deps, part) && a in part && Reach(DepEdges(deps), a, b, k)
    ensures b in part
    decreases k
  {
    if k == 0 {
      ReachZero(DepEdges(deps), a, b);
    } else {
      var m := ReachUnsnoc(DepEdges(deps), a, b, k - 1);
      ReachStaysInside(deps, part, a, m, k - 1);
    }
  }

  /** The needed ids are the least set that holds the selection and is closed under dependencies. */
  lemma NeededIsLeast(deps: Deps, selected: set<string>, ids: set<string>)
    requires forall n :: n in ids <==> Needed(deps, selected, n)
    ensures selected <= ids && ClosedUnder(deps, ids)
    ensures forall part :: selected <= part && ClosedUnder(deps, part) ==> ids <= part
  {
    forall n | n in selected
      ensures n in ids
    {
      ReachZero(DepEdges(deps), n, n);
    }
    forall n, d | n in ids && n in deps && d in deps[n]
      ensures d in ids
    {
      var a, k: nat :| a in selected && Reach(DepEdges(deps), a, n, k);
      assert (n, d) in DepEdges(deps);
      ReachSnoc(DepEdges(deps), a, n, d, k);
    }
    forall part, n | selected <= part && ClosedUnder(deps, part) && n in ids
      ensures n in part
    {
      var a, k: nat :| a in selected && Reach(DepEdges(deps), a, n, k);
      ReachStaysInside(deps, part, a, n, k);
    }
  }

  method ListOf(pool: set<string>) returns (list: seq<string>)
    ensures Distinct(list) && forall x :: x in list <==> x in pool
  {
    list := [];
    var rest := pool;
    while rest != {}
      invariant rest <= pool && Distinct(list) && forall x :: x in list <==> x in pool && x !in rest
      decreases |rest|
    {
      var x :| x in rest;
      list := list + [x];
      rest := rest - {x};
    }
  }

  ghost predicate AllNeeded(deps: Deps, selected: set<string>, resolved: set<string>) {
    forall n :: n in resolved ==> Needed(deps, selected, n)
  }

  /** The ids whose recorded model has only good references. */
  ghost function GoodIds(models: seq<SqlModel>): set<string> {
    set n | n in ById(models) && Resolves(ById(models)[n], ById(models).Keys)
  }

  ghost predicate Expanded(deps: Deps, good: set<string>, resolved: set<string>, n: string) {
    n in good && n in deps && deps[n] <= resolved
  }

  /** A state of the worklist: what is resolved is needed, and only stacked ids are not expanded. */
  ghost predicate Worklist(deps: Deps, good: set<string>, selected: set<string>, resolved: set<string>,
                           stack: seq<string>)
  {
    && selected <= resolved <= deps.Keys
    && Distinct(stack) && (forall n :: n in stack ==> n in resolved)
    && AllNeeded(deps, selected, resolved)
    && (forall n :: n in resolved && n !in stack ==> Expanded(deps, good, resolved, n))
  }

  /** The inner loop: add the dependencies that are not resolved yet and stack them. */
  method Push(dependencyIds: seq<string>, resolved0: set<string>, stack0: seq<string>)
    returns (resolved: set<string>, stack: seq<string>)
    requires Distinct(stack0) && forall n :: n in stack0 ==> n in resolved0
    ensures forall n :: n in resolved <==> n in resolved0 || n in dependencyIds
    ensures Distinct(stack) && forall n :: n in stack <==> n in stack0 || (n in dependencyIds && n !in resolved0)
    ensures resolved == resolved0 ==> stack == stack0
  {
    resolved, stack := resolved0, stack0;
    for i := 0 to |dependencyIds|
      invariant resolved == resolved0 ==> stack == stack0
      invariant resolved == resolved0 + ToSet(dependencyIds[..i])
      invariant Distinct(stack)
      invariant forall n :: n in stack <==> n in stack0 || (n in dependencyIds[..i] && n !in resolved0)
    {
      assert dependencyIds[..i + 1] == dependencyIds[..i] + [dependencyIds[i]];
      if dependencyIds[i] !in resolved {
        resolved := resolved + {dependencyIds[i]};
        stack := stack + [dependencyIds[i]];
      }
    }
    assert dependencyIds[..|dependencyIds|] == dependencyIds;
  }

  /** Every needed id is that of a model whose references all resolve. */
  ghost predicate NeededAreGood(deps: Deps, good: set<string>, selected: set<string>) {
    forall n :: Needed(deps, selected, n) ==> n in good
  }

  lemma DepsAreNeeded(deps: Deps, selected: set<string>, resolved: set<string>, n: string)
    requires AllNeeded(deps, selected, resolved) && n in resolved && n in deps
    ensures AllNeeded(deps, selected, resolved + deps[n])
  {
    forall d | d in deps[n]
      ensures Needed(deps, selected, d)
    {
      assert Needed(deps, selected, n);
      var a, k: nat :| a in selected && Reach(DepEdges(deps), a, n, k);
      assert (n, d) in DepEdges(deps);
      ReachSnoc(DepEdges(deps), a, n, d, k);
    }
  }

  lemma PopAndPush(deps: Deps, good: set<string>, selected: set<string>, resolved: set<string>, rest: seq<string>,
                   n: string, resolved': set<string>, stack': seq<string>)
    requires Worklist(deps, good, selected, resolved, rest + [n])
    requires n in good && n in deps && deps[n] <= deps.Keys && Distinct(stack')
    requires forall x :: x in resolved' <==> x in resolved || x in deps[n]
    requires forall x :: x in stack' <==> x in rest || (x in deps[n] && x !in resolved)
    ensures Worklist(deps, good, selected, resolved', stack')
  {
    assert n in rest + [n];
    assert resolved' == resolved + deps[n];
    DepsAreNeeded(deps, selected, resolved, n);
    forall x | x in resolved' && x !in stack'
      ensures Expanded(deps, good, resolved', x)
    {
      if x != n {
        assert x !in rest + [n];
        assert Expanded(deps, good, resolved, x);
      }
    }
  }

  lemma WorklistDone(deps: Deps, good: set<string>, selected: set<string>, resolved: set<string>)
    requires Worklist(deps, good, selected, resolved, [])
    ensures forall n :: n in resolved <==> Needed(deps, selected, n)
    ensures NeededAreGood(deps, good, selected)
  {
    forall n | n in resolved
      ensures n in good && n in deps && deps[n] <= resolved
    {
      assert Expanded(deps, good, resolved, n);
    }
    forall n | Needed(deps, selected, n)
      ensures n in resolved
    {
      var a, k: nat :| a in selected && Reach(DepEdges(deps), a, n, k);
      ReachStaysInside(deps, resolved, a, n, k);
    }
  }

  lemma Shrinks(pool: set<string>, small: set<string>, large: set<string>)
    requires small <= large <= pool
    ensures small != large ==> |pool - large| < |pool - small|
  {
    assert pool - large <= pool - small;
    SubsetSize(pool - large, pool - small);
    assert small != large ==> exists x :: x in large && x !in small;
  }

  /** The dependency ids of the model recorded under an id. */
  method Lookup(models: seq<SqlModel>, n: string, ghost deps: Deps, ghost good: set<string>)
    returns (outcome: Outcome<seq<string>>)
    requires n in ById(models) && deps == RecordedDeps(models) && good == GoodIds(models)
    ensures n in deps && deps[n] <= deps.Keys
    ensures outcome.Ok? <==> n in good
    ensures outcome.Ok? ==> forall d :: d in outcome.value <==> d in deps[n]
  {
    outcome := ResolveDependencyIds(ById(models)[n], ById(models).Keys);
    if outcome.Ok? {
      assert forall d :: d in outcome.value <==> d in ToSet(outcome.value);
    }
  }

  /** The loop that expands the id on top of the stack until the stack is empty. */
  method Close(models: seq<SqlModel>, ghost deps: Deps, ghost good: set<string>, selected: set<string>)
    returns (outcome: Outcome<set<string>>)
    requires deps == RecordedDeps(models) && good == GoodIds(models) && selected <= deps.Keys
    ensures outcome.Ok? <==> NeededAreGood(deps, good, selected)
    ensures outcome.Ok? ==> forall n :: n in outcome.value <==> Needed(deps, selected, n)
  {
    var resolved := selected;
    var stack := ListOf(selected);
    StartWorklist(deps, good, selected, stack);
    while stack != []
      invariant Worklist(deps, good, selected, resolved, stack)
      decreases |deps.Keys - resolved|, |stack|
    {
      var currentId, rest := stack[|stack| - 1], stack[..|stack| - 1];
      TopOfStack(deps, good, selected, resolved, stack);
      var dependencies := Lookup(models, currentId, deps, good);
      if dependencies.Err? {
        return Err(dependencies.error);
      }
      ghost var before := resolved;
      resolved, stack := Push(dependencies.value, resolved, rest);
      PopAndPush(deps, good, selected, before, rest, currentId, resolved, stack);
      Shrinks(deps.Keys, before, resolved);
    }
    WorklistDone(deps, good, selected, resolved);
    return Ok(resolved);
  }

  lemma StartWorklist(deps: Deps, good: set<string>, selected: set<string>, stack: seq<string>)
    requires selected <= deps.Keys && Distinct(stack) && forall x :: x in stack <==> x in selected
    ensures Worklist(deps, good, selected, selected, stack)
  {
    forall n | n in selected
      ensures Needed(deps, selected, n)
    {
      ReachZero(DepEdges(deps), n, n);
    }
  }

  lemma TopOfStack(deps: Deps, good: set<string>, selected: set<string>, resolved: set<string>, stack: seq<string>)
    requires Worklist(deps, good, selected, resolved, stack) && stack != []
    ensures var n, rest := stack[|stack| - 1], stack[..|stack| - 1];
            && stack == rest + [n] && Distinct(rest) && n in deps
            && (forall x :: x in rest ==> x in resolved)
            && (n !in good ==> !NeededAreGood(deps, good, selected))
  {
    var n, rest := stack[|stack| - 1], stack[..|stack| - 1];
    assert stack == rest + [n] && n in stack;
    InitIsDistinct(rest, n);
    assert Needed(deps, selected, n);
  }

  /**
   * Without dependencies the selection is returned as it is. With them, the result is exactly what
   * is needed, for any graph, cycles included; it fails iff a needed model has a bad reference.
   */
  method ResolveSelectedIds(models: seq<SqlModel>, selectedModels: seq<SqlModel>, includeDependencies: bool)
    returns (outcome: Outcome<set<string>>)
    requires forall m :: m in selectedModels ==> m in models
    ensures !includeDependencies ==> outcome == Ok(ToSet(Ids(selectedModels)))
    ensures includeDependencies && outcome.Ok? ==>
              forall n :: n in outcome.value <==> Needed(RecordedDeps(models), ToSet(Ids(selectedModels)), n)
    ensures includeDependencies ==> (outcome.Ok? <==>
              NeededAreGood(RecordedDeps(models), GoodIds(models), ToSet(Ids(selectedModels))))
    // The result holds the selection, and with a model every model it mentions.
    ensures outcome.Ok? ==>
              forall m :: m in selectedModels ==> m.stage + "." + m.domain + "." + m.name in outcome.value
    ensures includeDependencies && outcome.Ok? && Distinct(Ids(models)) ==>
              forall m, n :: m in models && n in models && m.Id() in outcome.value && Mentions(m, n) ==>
                n.stage + "." + n.domain + "." + n.name in outcome.value
  {
    var byId := ById(models);
    var selected := ToSet(Ids(selectedModels));
    SelectedAreHeld(selectedModels);
    SameIds(selectedModels, models);
    if !includeDependencies {
      return Ok(selected);
    }
    outcome := Close(models, RecordedDeps(models), GoodIds(models), selected);
    if outcome.Ok? {
      NeededIsLeast(RecordedDeps(models), selected, outcome.value);
      if Distinct(Ids(models)) {
        MentionedAreHeld(models, selected, outcome.value);
      }
    }
  }

  lemma SelectedAreHeld(models: seq<SqlModel>)
    ensures forall m :: m in models ==> m.stage + "." + m.domain + "." + m.name in ToSet(Ids(models))
  {
    forall m | m in models
      ensures m.stage + "." + m.domain + "." + m.name in ToSet(Ids(models))
    {
      var k :| 0 <= k < |models| && models[k] == m;
      assert Ids(models)[k] == m.Id();
    }
  }

  lemma MentionedIsRecorded(models: seq<SqlModel>, m: SqlModel, n: SqlModel)
    requires Distinct(Ids(models)) && m in models && Mentions(m, n) && Resolves(m, ToSet(Ids(models)))
    ensures m.Id() in RecordedDeps(models) && n.Id() in RecordedDeps(models)[m.Id()]
  {
    ByIdKeeps(models, m);
    var all := ToSet(Ids(models));
    PlainReferences(m, all, n.stage, n.domain, n.name);
    var r :| r in m.dependsOn && Resolve(m, all, r) == Ok(n.Id());
    assert n.Id() in DepIds(m, all);
  }

  lemma MentionedAreHeld(models: seq<SqlModel>, selected: set<string>, ids: set<string>)
    requires Distinct(Ids(models)) && forall n :: n in ids <==> Needed(RecordedDeps(models), selected, n)
    requires NeededAreGood(RecordedDeps(models), GoodIds(models), selected)
    ensures forall m, n :: m in models && n in models && m.Id() in ids && Mentions(m, n) ==> n.Id() in ids
  {
    NeededIsLeast(RecordedDeps(models), selected, ids);
    forall m, n | m in models && n in models && m.Id() in ids && Mentions(m, n)
      ensures n.Id() in ids
    {
      ByIdKeeps(models, m);
      assert Needed(RecordedDeps(models), selected, m.Id());
      MentionedIsRecorded(models, m, n);
    }
  }

  // Selecting from the sorted models.

  function FilterModels(models: seq<SqlModel>, ids: set<string>): seq<SqlModel> {
    if models == [] then []
    else
      FilterModels(models[..|models| - 1], ids)
      + if models[|models| - 1].Id() in ids then [models[|models| - 1]] else []
  }

  lemma {:induction false} FilterIsKeep(models: seq<SqlModel>, ids: set<string>)
    ensures Ids(FilterModels(models, ids)) == Keep(Ids(models), ids)
  {
    if models != [] {
      var init, last := models[..|models| - 1], models[|models| - 1];
      assert Ids(models) == Ids(init) + [last.Id()];
      assert Ids(models)[..|models| - 1] == Ids(init);
      FilterIsKeep(init, ids);
    }
  }

  lemma RecordedIsGraph(models: seq<SqlModel>)
    requires Distinct(Ids(models))
    ensures RecordedDeps(models) == GraphOf(models)
  {
    forall id | id in Ids(models)
      ensures RecordedDeps(models)[id] == GraphOf(models)[id]
    {
      forall m | m in models && m.Id() == id
        ensures m == ById(models)[id]
      {
        ByIdKeeps(models, m);
      }
    }
  }

  /**
   * Selection composes with sorting: the sorted models cut down to what is needed are the FIFO order
   * of the needed part of the graph, so every dependency of a processed model is there and earlier.
   */
  lemma {:induction false} SelectionComposes(models: seq<SqlModel>, ordered: seq<SqlModel>, selected: set<string>,
                                             ids: set<string>)
    requires Sortable(models) && IsSorted(models, ordered)
    requires forall n :: n in ids <==> Needed(RecordedDeps(models), selected, n)
    ensures IsFifoOrder(Restrict(GraphOf(models), ids), StringLe, Ids(FilterModels(ordered, ids)))
    ensures var process := Ids(FilterModels(ordered, ids));
            && (forall n :: n in process ==> n in GraphOf(models))
            && forall i, d :: 0 <= i < |process| && d in GraphOf(models)[process[i]] ==> d in process[..i]
  {
    RecordedIsGraph(models);
    NeededIsLeast(GraphOf(models), selected, ids);
    FilterIsKeep(ordered, ids);
    KeepIsFifoOrder(GraphOf(models), StringLe, Ids(ordered), ids);
    DepsComeFirst(GraphOf(models), ids, Ids(FilterModels(ordered, ids)));
  }

  lemma DepsComeFirst(deps: Deps, ids: set<string>, process: seq<string>)
    requires IsFifoOrder(Restrict(deps, ids), StringLe, process)
    ensures forall n :: n in process ==> n in deps
    ensures forall i, d :: 0 <= i < |process| && d in deps[process[i]] ==> d in process[..i]
  {
    forall i, d | 0 <= i < |process| && process[i] in deps && d in deps[process[i]]
      ensures d in process[..i]
    {
      assert process[i] in process && DepsBehind(Restrict(deps, ids), process, i);
    }
  }
}

/** Layered configuration: the recursive merge, the flat index of dotted keys and the dotted look-up. */
module ConfigLayers {
  import opened Seqs
  import opened Text

  datatype Atom = Null | Val(id: int)

  datatype Cfg = Leaf(value: Atom) | Node(entries: map<string, Cfg>)

  // Paths.

  /** What stands at a path. */
  function At(d: Cfg, path: seq<string>): Option<Cfg> {
    if path == [] then Some(d)
    else if d.Node? && path[0] in d.entries then At(d.entries[path[0]], path[1..])
    else None
  }

  ghost predicate IsLeafAt(d: Cfg, path: seq<string>) {
    At(d, path).Some? && At(d, path).value.Leaf?
  }

  ghost predicate IsNodeAt(d: Cfg, path: seq<string>) {
    At(d, path).Some? && At(d, path).value.Node?
  }

  // Merging.

  function Merge(l: Cfg, r: Cfg): Cfg
    decreases r
  {
    if l.Node? && r.Node? then
      Node(map k | k in l.entries.Keys + r.entries.Keys ::
             if k !in r.entries then l.entries[k]
             else if k in l.entries then Merge(l.entries[k], r.entries[k])
             else r.entries[k])
    else
      r
  }

  /** The loop over the right mapping; its order does not matter. */
  method MergeTwoDicts(left: Cfg, right: Cfg) returns (merged: Cfg)
    requires left.Node? && right.Node?
    ensures merged == Merge(left, right)
    // At every path of the right mapping that ends in a leaf the merge has that leaf.
    ensures forall path :: IsLeafAt(right, path) ==> At(merged, path) == At(right, path)
    // Where the right mapping has nothing and no leaf above, the merge has what the left one has.
    ensures forall path :: OnlyOnTheLeft(right, path) ==> At(merged, path) == At(left, path)
    decreases right
  {
    var entries := left.entries;
    var todo := right.entries.Keys;
    while todo != {}
      invariant todo <= right.entries.Keys
      invariant entries.Keys == left.entries.Keys + (right.entries.Keys - todo)
      invariant forall k :: k in entries ==>
        entries[k] == if k in todo then left.entries[k] else Merge(left, right).entries[k]
    {
      var key :| key in todo;
      var value := right.entries[key];
      if value.Node? && key in entries && entries[key].Node? {
        var below := MergeTwoDicts(entries[key], value);
        entries := entries[key := below];
      } else {
        entries := entries[key := value];
      }
      todo := todo - {key};
    }
    merged := Node(entries);
    assert entries == Merge(left, right).entries;
    MergeTells(left, right);
  }

  lemma MergeTells(left: Cfg, right: Cfg)
    ensures forall path :: IsLeafAt(right, path) ==> At(Merge(left, right), path) == At(right, path)
    ensures forall path :: OnlyOnTheLeft(right, path) ==> At(Merge(left, right), path) == At(left, path)
  {
    forall path
      ensures IsLeafAt(right, path) ==> At(Merge(left, right), path) == At(right, path)
      ensures OnlyOnTheLeft(right, path) ==> At(Merge(left, right), path) == At(left, path)
    {
      MergeAtPath(left, right, path);
    }
  }

  /** The right mapping has nothing at the path and no leaf on the way to it. */
  ghost predicate OnlyOnTheLeft(right: Cfg, path: seq<string>) {
    At(right, path).None? && forall n :: 0 <= n < |path| ==> !IsLeafAt(right, path[..n])
  }

  lemma {:induction false} MergeAtPath(left: Cfg, right: Cfg, path: seq<string>)
    ensures IsLeafAt(right, path) ==> At(Merge(left, right), path) == At(right, path)
    ensures OnlyOnTheLeft(right, path) ==> At(Merge(left, right), path) == At(left, path)
    decreases |path|
  {
    if path != [] {
      var k, rest := path[0], path[1..];
      if OnlyOnTheLeft(right, path) {
        assert path[..0] == [] && At(right, []) == Some(right);
        assert !IsLeafAt(right, path[..0]);
      }
      if left.Node? && right.Node? && k in left.entries && k in right.entries {
        MergeAtPath(left.entries[k], right.entries[k], rest);
        forall n | 0 <= n < |rest| && OnlyOnTheLeft(right, path)
          ensures !IsLeafAt(right.entries[k], rest[..n])
        {
          assert path[..n + 1][1..] == rest[..n] && !IsLeafAt(right, path[..n + 1]);
        }
      }
    }
  }

  function MergeAll(layers: seq<Cfg>): (merged: Cfg)
    requires forall layer :: layer in layers ==> layer.Node?
    ensures merged.Node?
  {
    if layers == [] then Node(map[]) else Merge(MergeAll(layers[..|layers| - 1]), layers[|layers| - 1])
  }

  method DeepMerge(layers: seq<Cfg>) returns (merged: Cfg)
    requires forall layer :: layer in layers ==> layer.Node?
    ensures merged == MergeAll(layers)
  {
    merged := Node(map[]);
    for i := 0 to |layers|
      invariant merged == MergeAll(layers[..i])
    {
      assert layers[..i + 1][..i] == layers[..i];
      merged := MergeTwoDicts(merged, layers[i]);
    }
    assert layers[..|layers|] == layers;
  }

  lemma {:induction false} MergeIsIdempotent(l: Cfg)
    ensures Merge(l, l) == l
  {
    if l.Node? {
      forall k | k in l.entries
        ensures Merge(l.entries[k], l.entries[k]) == l.entries[k]
      {
        MergeIsIdempotent(l.entries[k]);
      }
      assert Merge(l, l).entries == l.entries;
    }
  }

  /** Laying the same layer on top again changes nothing. */
  lemma {:induction false} MergeAgain(l: Cfg, r: Cfg)
    ensures Merge(Merge(l, r), r) == Merge(l, r)
    decreases r
  {
    if l.Node? && r.Node? {
      forall k | k in r.entries
        ensures k in l.entries ==>
          Merge(Merge(l.entries[k], r.entries[k]), r.entries[k]) == Merge(l.entries[k], r.entries[k])
        ensures Merge(r.entries[k], r.entries[k]) == r.entries[k]
      {
        MergeIsIdempotent(r.entries[k]);
        if k in l.entries {
          MergeAgain(l.entries[k], r.entries[k]);
        }
      }
      assert Merge(Merge(l, r), r).entries == Merge(l, r).entries;
    } else {
      MergeIsIdempotent(r);
    }
  }

  // Paths.

  lemma {:induction false} AtConcat(d: Cfg, p: seq<string>, q: seq<string>)
    ensures At(d, p + q) == if At(d, p).Some? then At(At(d, p).value, q) else None
  {
    if p == [] {
      assert p + q == q;
    } else if d.Node? && p[0] in d.entries {
      AtConcat(d.entries[p[0]], p[1..], q);
      assert (p + q)[1..] == p[1..] + q;
    }
  }

  // Associativity.

  /** Every key of `x`, at any depth that is a mapping in both, is a key of `c`. */
  ghost predicate Covers(c: Cfg, x: Cfg)
    decreases x
  {
    x.Node? && c.Node? ==> forall k :: k in x.entries ==> k in c.entries && Covers(c.entries[k], x.entries[k])
  }

  lemma {:induction false} CoveredAddsNothing(x: Cfg, c: Cfg)
    ensures Merge(x, c) == c <==> Covers(c, x)
    decreases c
  {
    if x.Node? && c.Node? {
      forall k | k in x.entries && k in c.entries
        ensures Merge(x.entries[k], c.entries[k]) == c.entries[k] <==> Covers(c.entries[k], x.entries[k])
      {
        CoveredAddsNothing(x.entries[k], c.entries[k]);
      }
      var merged := Merge(x, c);
      if Covers(c, x) {
        assert merged.entries == c.entries;
      }
      assert merged == c ==> forall k :: k in x.entries ==> k in c.entries && merged.entries[k] == c.entries[k];
    }
  }

  /** A leaf between two mappings hides the first from the last, unless the last has all of it anyway. */
  ghost predicate HiddenAt(a: Cfg, b: Cfg, c: Cfg, path: seq<string>) {
    && IsNodeAt(a, path) && IsLeafAt(b, path) && IsNodeAt(c, path)
    && !Covers(At(c, path).value, At(a, path).value)
  }

  ghost predicate NothingHidden(a: Cfg, b: Cfg, c: Cfg) {
    forall path :: !HiddenAt(a, b, c, path)
  }

  lemma NothingHiddenBelow(a: Cfg, b: Cfg, c: Cfg)
    requires a.Node? && b.Node? && c.Node?
    ensures NothingHidden(a, b, c) <==>
      forall k :: k in a.entries && k in b.entries && k in c.entries
                  ==> NothingHidden(a.entries[k], b.entries[k], c.entries[k])
  {
    if NothingHidden(a, b, c) {
      forall k, path | k in a.entries && k in b.entries && k in c.entries
        ensures !HiddenAt(a.entries[k], b.entries[k], c.entries[k], path)
      {
        assert ([k] + path)[1..] == path;
        assert !HiddenAt(a, b, c, [k] + path);
      }
    } else {
      var path :| HiddenAt(a, b, c, path);
      assert path != [];
      assert HiddenAt(a.entries[path[0]], b.entries[path[0]], c.entries[path[0]], path[1..]);
    }
  }

  /** Merging is associative exactly where nothing is hidden. */
  lemma {:induction false} AssociativeIff(a: Cfg, b: Cfg, c: Cfg)
    ensures Merge(Merge(a, b), c) == Merge(a, Merge(b, c)) <==> NothingHidden(a, b, c)
    decreases c
  {
    var left, right := Merge(Merge(a, b), c), Merge(a, Merge(b, c));
    if a.Node? && b.Node? && c.Node? {
      NothingHiddenBelow(a, b, c);
      assert left.entries.Keys == right.entries.Keys;
      forall k | k in left.entries
        ensures left.entries[k] == right.entries[k] <==>
          (k in a.entries && k in b.entries && k in c.entries
           ==> NothingHidden(a.entries[k], b.entries[k], c.entries[k]))
      {
        if k in a.entries && k in b.entries && k in c.entries {
          AssociativeIff(a.entries[k], b.entries[k], c.entries[k]);
        }
      }
      assert left == right <==> left.entries == right.entries;
    } else {
      forall path | path != []
        ensures !HiddenAt(a, b, c, path)
      {
      }
      assert HiddenAt(a, b, c, []) <==> a.Node? && b.Leaf? && c.Node? && !Covers(c, a);
      CoveredAddsNothing(a, c);
      if a.Node? && b.Node? {
        assert Merge(b, c) == c;
      }
    }
  }

  // Layers that agree on what is a mapping.

  ghost predicate Compatible(a: Cfg, b: Cfg) {
    forall path :: !(IsLeafAt(a, path) && IsNodeAt(b, path)) && !(IsNodeAt(a, path) && IsLeafAt(b, path))
  }

  lemma CompatibleBelow(a: Cfg, b: Cfg, k: string)
    requires Compatible(a, b) && a.Node? && b.Node? && k in a.entries && k in b.entries
    ensures Compatible(a.entries[k], b.entries[k])
  {
    forall path
      ensures !(IsLeafAt(a.entries[k], path) && IsNodeAt(b.entries[k], path))
      ensures !(IsNodeAt(a.entries[k], path) && IsLeafAt(b.entries[k], path))
    {
      assert ([k] + path)[1..] == path;
      assert IsLeafAt(a.entries[k], path) == IsLeafAt(a, [k] + path);
      assert IsNodeAt(a.entries[k], path) == IsNodeAt(a, [k] + path);
      assert IsLeafAt(b.entries[k], path) == IsLeafAt(b, [k] + path);
      assert IsNodeAt(b.entries[k], path) == IsNodeAt(b, [k] + path);
    }
  }

  function Over(below: Option<Cfg>, above: Option<Cfg>): Option<Cfg> {
    if above.None? then below else if below.None? then above else Some(Merge(below.value, above.value))
  }

  lemma {:induction false} AtMerge(a: Cfg, b: Cfg, path: seq<string>)
    requires Compatible(a, b)
    ensures At(Merge(a, b), path) == Over(At(a, path), At(b, path))
  {
    if path != [] {
      assert IsLeafAt(a, []) == a.Leaf? && IsNodeAt(a, []) == a.Node?;
      assert IsLeafAt(b, []) == b.Leaf? && IsNodeAt(b, []) == b.Node?;
      var k := path[0];
      if a.Node? && k in a.entries && k in b.entries {
        CompatibleBelow(a, b, k);
        AtMerge(a.entries[k], b.entries[k], path[1..]);
      }
    }
  }

  lemma MergeStaysCompatible(a: Cfg, b: Cfg, c: Cfg)
    requires Compatible(a, b) && Compatible(a, c) && Compatible(b, c)
    ensures Compatible(Merge(a, b), c) && Compatible(c, Merge(a, b))
  {
    forall path
      ensures !(IsLeafAt(Merge(a, b), path) && IsNodeAt(c, path)) && !(IsNodeAt(Merge(a, b), path) && IsLeafAt(c, path))
    {
      AtMerge(a, b, path);
      assert !(IsLeafAt(a, path) && IsNodeAt(c, path)) && !(IsLeafAt(b, path) && IsNodeAt(c, path));
      assert !(IsNodeAt(a, path) && IsLeafAt(c, path)) && !(IsNodeAt(b, path) && IsLeafAt(c, path));
    }
    forall path
      ensures !(IsLeafAt(c, path) && IsNodeAt(Merge(a, b), path)) && !(IsNodeAt(c, path) && IsLeafAt(Merge(a, b), path))
    {
      assert !(IsLeafAt(Merge(a, b), path) && IsNodeAt(c, path)) && !(IsNodeAt(Merge(a, b), path) && IsLeafAt(c, path));
    }
  }

  ghost predicate AllCompatible(layers: seq<Cfg>) {
    && (forall layer :: layer in layers ==> layer.Node?)
    && (forall a, b :: a in layers && b in layers ==> Compatible(a, b))
  }

  lemma {:induction false} MergeAllStaysCompatible(layers: seq<Cfg>, c: Cfg)
    requires AllCompatible(layers) && c.Node? && forall a :: a in layers ==> Compatible(a, c) && Compatible(c, a)
    ensures Compatible(MergeAll(layers), c) && Compatible(c, MergeAll(layers))
  {
    if layers == [] {
      forall path
        ensures IsNodeAt(Node(map[]), path) <==> path == []
        ensures !IsLeafAt(Node(map[]), path)
        ensures path == [] ==> !IsLeafAt(c, path)
      {
      }
    } else {
      var init, last := layers[..|layers| - 1], layers[|layers| - 1];
      MergeAllStaysCompatible(init, c);
      MergeAllStaysCompatible(init, last);
      MergeStaysCompatible(MergeAll(init), last, c);
    }
  }

  /** Layers that agree on what is a mapping may be merged in any grouping. */
  lemma {:induction false} GroupingDoesNotMatter(xs: seq<Cfg>, ys: seq<Cfg>)
    requires AllCompatible(xs + ys)
    ensures AllCompatible(xs) && AllCompatible(ys)
    ensures MergeAll(xs + ys) == Merge(MergeAll(xs), MergeAll(ys))
  {
    assert forall x :: x in xs ==> x in xs + ys;
    assert forall y :: y in ys ==> y in xs + ys;
    if ys == [] {
      assert xs + ys == xs;
      assert Merge(MergeAll(xs), Node(map[])).entries == MergeAll(xs).entries;
    } else {
      var init, last := ys[..|ys| - 1], ys[|ys| - 1];
      assert (xs + ys)[..|xs + ys| - 1] == xs + init;
      GroupingDoesNotMatter(xs, init);
      MergeAllStaysCompatible(init, last);
      AssociativeIff(MergeAll(xs), MergeAll(init), last);
      assert forall path :: !(IsLeafAt(MergeAll(init), path) && IsNodeAt(last, path));
    }
  }

  // The flat index.

  function FlatKey(prefix: string, key: string): string {
    if prefix == "" then key else prefix + "." + key
  }

  /** Every pair that flattening writes; when two share a key, the order of the mapping decides which one stays. */
  ghost function Entries(d: Cfg, prefix: string): set<(string, Atom)>
    decreases d, 0
  {
    if d.Leaf? then {}
    else set k, e | k in d.entries && e in EntriesOf(d.entries[k], FlatKey(prefix, k)) :: e
  }

  ghost function EntriesOf(value: Cfg, key: string): set<(string, Atom)>
    decreases value, 1
  {
    if value.Leaf? then {(key, value.value)} else Entries(value, key)
  }

  ghost predicate IsFlat(pairs: set<(string, Atom)>, flat: map<string, Atom>) {
    && (forall k :: k in flat ==> (k, flat[k]) in pairs)
    && (forall e :: e in pairs ==> e.0 in flat)
  }

  /** In whatever order the mapping is walked. */
  method Flatten(d: Cfg, prefix: string) returns (out: map<string, Atom>)
    requires d.Node?
    ensures IsFlat(Entries(d, prefix), out)
    // From the top, every leaf is filed under its names joined by dots, and nothing else is filed.
    ensures prefix == "" ==>
              forall path :: IsLeafAt(d, path) && path != [] && path[0] != "" ==> Join(path, ".") in out
    ensures prefix == "" ==>
              forall key :: key in out ==> exists path :: IsFiledLeaf(d, path, key, out[key])
    decreases d
  {
    out := map[];
    var todo := d.entries.Keys;
    ghost var written: set<(string, Atom)> := {};
    while todo != {}
      invariant todo <= d.entries.Keys
      invariant IsFlat(written, out)
      invariant forall e :: e in written <==>
        exists k :: k in d.entries.Keys - todo && e in EntriesOf(d.entries[k], FlatKey(prefix, k))
    {
      var k :| k in todo;
      var key := FlatKey(prefix, k);
      var value := d.entries[k];
      if value.Node? {
        var below := Flatten(value, key);
        out := out + below;
      } else {
        out := out[key := value.value];
      }
      written := written + EntriesOf(value, key);
      todo := todo - {k};
    }
    assert written == Entries(d, prefix);
    if prefix == "" {
      FlatTells(d, out);
    }
  }

  /** The leaf that is filed under a key: the key is its names joined by dots, if the first one is not empty. */
  ghost predicate IsFiledLeaf(d: Cfg, path: seq<string>, key: string, value: Atom) {
    path != [] && At(d, path) == Some(Leaf(value)) && (path[0] != "" ==> key == Join(path, "."))
  }

  lemma FlatTells(d: Cfg, out: map<string, Atom>)
    requires IsFlat(Entries(d, ""), out)
    ensures forall path :: IsLeafAt(d, path) && path != [] && path[0] != "" ==> Join(path, ".") in out
    ensures forall key :: key in out ==> exists path :: IsFiledLeaf(d, path, key, out[key])
  {
    forall path | IsLeafAt(d, path) && path != [] && path[0] != ""
      ensures Join(path, ".") in out
    {
      var value := At(d, path).value.value;
      KeyIsJoin("", path);
      assert Files(d, "", path, Join(path, "."), value);
      EntryIffPath(d, "", Join(path, "."), value);
    }
    forall key | key in out
      ensures exists path :: IsFiledLeaf(d, path, key, out[key])
    {
      EntryIffPath(d, "", key, out[key]);
      var path :| Files(d, "", path, key, out[key]);
      KeyIsJoin("", path);
      assert IsFiledLeaf(d, path, key, out[key]);
    }
  }

  /** What the loop over the parts of a dotted key returns; nulls count as absent. */
  function Found(d: Cfg, path: seq<string>): Option<Cfg> {
    var there := At(d, path);
    if there == Some(Leaf(Null)) then None else there
  }

  lemma FoundPlain(d: Cfg, key: string)
    requires d.Node?
    ensures '.' !in key ==>
              Found(d, SplitDots(key)) == if key in d.entries && d.entries[key] != Leaf(Null) then Some(d.entries[key])
                                          else None
  {
    if '.' !in key {
      SplitFirstDot(key, "");
      var path := [key];
      assert path[0] == key && path[1..] == [];
      assert At(d, path) == if key in d.entries then Some(d.entries[key]) else None;
    }
  }

  /** A dotted key is looked up part by part, each in what the part before it holds. */
  lemma FoundBelow(d: Cfg, head: string, tail: string)
    requires d.Node? && '.' !in head
    ensures Found(d, SplitDots(head + "." + tail))
         == if head in d.entries && d.entries[head].Node? then Found(d.entries[head], SplitDots(tail)) else None
  {
    SplitFirstDot(head, tail);
    var path := [head] + SplitDots(tail);
    assert path[0] == head && path[1..] == SplitDots(tail);
    assert At(d, path) == if head in d.entries then At(d.entries[head], SplitDots(tail)) else None;
  }

  method DottedGet(d: Cfg, dotted: string) returns (found: Option<Cfg>)
    requires d.Node?
    ensures found == Found(d, SplitDots(dotted))
    // A key without dots is looked up as it is; a null counts as absent.
    ensures '.' !in dotted ==>
              found == if dotted in d.entries && d.entries[dotted] != Leaf(Null) then Some(d.entries[dotted]) else None
  {
    FoundPlain(d, dotted);
    var parts := SplitDots(dotted);
    var node := d;
    for i := 0 to |parts|
      invariant At(d, parts[..i]) == Some(node) && node != Leaf(Null)
    {
      assert parts[..i + 1] == parts[..i] + [parts[i]];
      assert parts == parts[..i + 1] + parts[i + 1..];
      AtConcat(d, parts[..i], [parts[i]]);
      AtConcat(d, parts[..i + 1], parts[i + 1..]);
      if node.Leaf? || parts[i] !in node.entries {
        return None;
      }
      node := node.entries[parts[i]];
      if node == Leaf(Null) {
        assert i + 1 < |parts| ==> At(node, parts[i + 1..]) == None;
        assert parts[i + 1..] == [] ==> At(d, parts) == Some(node);
        return None;
      }
    }
    assert parts[..|parts|] == parts;
    return Some(node);
  }

  // Flat keys and paths.

  ghost predicate DotFree(d: Cfg)
    decreases d
  {
    d.Node? ==> forall k :: k in d.entries ==> '.' !in k && DotFree(d.entries[k])
  }

  /** The key under which flattening files the leaf at `path`. */
  function KeyOfPath(prefix: string, path: seq<string>): string
    decreases path
  {
    if path == [] then prefix else KeyOfPath(FlatKey(prefix, path[0]), path[1..])
  }

  lemma {:induction false} KeyIsJoin(prefix: string, path: seq<string>)
    requires path != []
    ensures prefix != "" ==> KeyOfPath(prefix, path) == prefix + "." + Join(path, ".")
    ensures prefix == "" && (path[0] != "" || |path| == 1) ==> KeyOfPath(prefix, path) == Join(path, ".")
    decreases path
  {
    var key := FlatKey(prefix, path[0]);
    if |path| > 1 {
      KeyIsJoin(key, path[1..]);
      assert prefix + "." + path[0] + "." + Join(path[1..], ".")
          == prefix + "." + (path[0] + "." + Join(path[1..], "."));
    }
  }

  /** The leaf at `path` is filed under this key. */
  ghost predicate Files(d: Cfg, prefix: string, path: seq<string>, key: string, value: Atom) {
    path != [] && At(d, path) == Some(Leaf(value)) && KeyOfPath(prefix, path) == key
  }

  lemma FilesBelow(d: Cfg, prefix: string, k: string, rest: seq<string>, key: string, value: Atom)
    requires d.Node? && k in d.entries
    ensures Files(d, prefix, [k] + rest, key, value) <==>
      if rest == [] then d.entries[k] == Leaf(value) && FlatKey(prefix, k) == key
      else Files(d.entries[k], FlatKey(prefix, k), rest, key, value)
  {
    var path := [k] + rest;
    assert path[0] == k && path[1..] == rest;
    assert KeyOfPath(prefix, path) == KeyOfPath(FlatKey(prefix, k), rest);
    assert At(d, path) == At(d.entries[k], rest);
    if rest == [] {
      assert KeyOfPath(FlatKey(prefix, k), rest) == FlatKey(prefix, k);
    }
  }

  lemma {:induction false} EntryIffPath(d: Cfg, prefix: string, key: string, value: Atom)
    ensures (key, value) in Entries(d, prefix) <==> exists path :: Files(d, prefix, path, key, value)
    decreases d
  {
    if (key, value) in Entries(d, prefix) {
      var k :| k in d.entries && (key, value) in EntriesOf(d.entries[k], FlatKey(prefix, k));
      var rest: seq<string> := [];
      if d.entries[k].Node? {
        EntryIffPath(d.entries[k], FlatKey(prefix, k), key, value);
        rest :| Files(d.entries[k], FlatKey(prefix, k), rest, key, value);
      }
      FilesBelow(d, prefix, k, rest, key, value);
    }
    if path :| Files(d, prefix, path, key, value) {
      var k, rest := path[0], path[1..];
      assert path == [k] + rest;
      FilesBelow(d, prefix, k, rest, key, value);
      if rest != [] {
        EntryIffPath(d.entries[k], FlatKey(prefix, k), key, value);
        assert d.entries[k].Node?;
      }
      assert (key, value) in EntriesOf(d.entries[k], FlatKey(prefix, k));
    }
  }

  lemma {:induction false} PathIsDotFree(d: Cfg, path: seq<string>)
    requires DotFree(d) && At(d, path).Some?
    ensures forall part :: part in path ==> '.' !in part
  {
    if path != [] {
      PathIsDotFree(d.entries[path[0]], path[1..]);
      assert path == [path[0]] + path[1..];
    }
  }

  function LeafAt(d: Cfg, path: seq<string>): Option<Atom> {
    var there := At(d, path);
    if there.Some? && there.value.Leaf? then Some(there.value.value) else None
  }

  ghost predicate HasLeaf(d: Cfg) {
    exists path :: LeafAt(d, path).Some?
  }

  /** What stands in a mapping under the empty top-level key is filed without that key. */
  ghost predicate EmptyKeyHolds(d: Cfg) {
    d.Node? && "" in d.entries && d.entries[""].Node? && HasLeaf(d.entries[""])
  }

  ghost predicate Tidy(d: Cfg) {
    DotFree(d) && d.Node? && !EmptyKeyHolds(d)
  }

  /** In a tidy mapping a flat key is written once, with the leaf at the path it spells. */
  lemma EntryIffLeaf(d: Cfg, key: string, value: Atom)
    requires Tidy(d)
    ensures (key, value) in Entries(d, "") <==> At(d, SplitDots(key)) == Some(Leaf(value))
  {
    EntryIffPath(d, "", key, value);
    if path :| Files(d, "", path, key, value) {
      TidyPath(d, path);
      KeyIsJoin("", path);
      PathIsDotFree(d, path);
      SplitJoin(path);
    }
    var parts := SplitDots(key);
    JoinSplit(key);
    if At(d, parts) == Some(Leaf(value)) {
      TidyPath(d, parts);
      KeyIsJoin("", parts);
      assert Files(d, "", parts, key, value);
    }
  }

  lemma TidyPath(d: Cfg, path: seq<string>)
    requires Tidy(d) && path != [] && At(d, path).Some? && At(d, path).value.Leaf?
    ensures path[0] != "" || |path| == 1
  {
    if |path| > 1 {
      assert LeafAt(d.entries[path[0]], path[1..]).Some?;
    }
  }

  /** The flat index and the dotted look-up agree on every value, in both directions. */
  lemma IndexAgreesWithLookup(d: Cfg, flat: map<string, Atom>, key: string, value: Atom)
    requires Tidy(d) && IsFlat(Entries(d, ""), flat) && value != Null
    ensures key in flat && flat[key] == value <==> Found(d, SplitDots(key)) == Some(Leaf(value))
  {
    EntryIffLeaf(d, key, value);
    if key in flat {
      EntryIffLeaf(d, key, flat[key]);
    }
  }

  ghost predicate IndexIsLookup(d: Cfg, flat: map<string, Atom>) {
    forall key, value :: (key in flat && flat[key] == value) <==> At(d, SplitDots(key)) == Some(Leaf(value))
  }

  /** Without dots in keys, the index holds what the keys spell exactly when the empty top-level key holds nothing. */
  lemma IndexIsLookupIff(d: Cfg, flat: map<string, Atom>)
    requires DotFree(d) && d.Node? && IsFlat(Entries(d, ""), flat)
    ensures IndexIsLookup(d, flat) <==> !EmptyKeyHolds(d)
  {
    if EmptyKeyHolds(d) {
      var below :| LeafAt(d.entries[""], below).Some?;
      assert below != [];
      var path := [""] + below;
      assert path[1..] == below;
      var key := Join(path, ".");
      PathIsDotFree(d, path);
      SplitJoin(path);
      if key in flat {
        FlatKeyIsNotHollow(d, key, flat[key]);
      }
      assert At(d, SplitDots(key)) == Some(Leaf(LeafAt(d, path).value));
    } else {
      forall key, value
        ensures (key in flat && flat[key] == value) <==> At(d, SplitDots(key)) == Some(Leaf(value))
      {
        EntryIffLeaf(d, key, value);
        if key in flat {
          EntryIffLeaf(d, key, flat[key]);
        }
      }
    }
  }

  /** No key of the index starts with an empty part, unless it is empty. */
  lemma FlatKeyIsNotHollow(d: Cfg, key: string, value: Atom)
    requires DotFree(d) && (key, value) in Entries(d, "")
    ensures |SplitDots(key)| == 1 || SplitDots(key)[0] != ""
  {
    EntryIffPath(d, "", key, value);
    var path :| Files(d, "", path, key, value);
    PathIsDotFree(d, path);
    NotHollow(path);
  }

  lemma {:induction false} NotHollow(path: seq<string>)
    requires path != [] && forall part :: part in path ==> '.' !in part
    ensures |SplitDots(KeyOfPath("", path))| == 1 || SplitDots(KeyOfPath("", path))[0] != ""
    decreases path
  {
    if |path| > 1 && path[0] == "" {
      NotHollow(path[1..]);
    } else {
      KeyIsJoin("", path);
      SplitJoin(path);
    }
  }

  /** Under an empty key a mapping is indexed without it, and not found. */
  lemma EmptyKeyIsMissed(k: string, id: int)
    requires '.' !in k && k != ""
    ensures var d := Node(map["" := Node(map[k := Leaf(Val(id))])]);
      && DotFree(d) && Entries(d, "") == {(k, Val(id))} && Found(d, SplitDots(k)) == None
  {
    var leaf := Leaf(Val(id));
    var inner := Node(map[k := leaf]);
    var d := Node(map["" := inner]);
    assert DotFree(leaf) && DotFree(inner);
    assert EntriesOf(inner.entries[k], FlatKey("", k)) == {(k, Val(id))};
    assert Entries(inner, "") == {(k, Val(id))};
    assert EntriesOf(d.entries[""], FlatKey("", "")) == {(k, Val(id))};
    SplitFirstDot(k, "");
  }

  // Flattening a merge.

  function OverAtom(below: Option<Atom>, above: Option<Atom>): Option<Atom> {
    if above.Some? then above else below
  }

  /** A leaf is replaced by a mapping, or a mapping that holds a leaf by a leaf. */
  ghost predicate LosesAt(l: Cfg, r: Cfg, path: seq<string>) {
    || (IsLeafAt(l, path) && IsNodeAt(r, path))
    || (IsNodeAt(l, path) && HasLeaf(At(l, path).value) && IsLeafAt(r, path))
  }

  ghost predicate UnionOfLeaves(l: Cfg, r: Cfg) {
    forall path :: LeafAt(Merge(l, r), path) == OverAtom(LeafAt(l, path), LeafAt(r, path))
  }

  lemma {:induction false} LeafOfMerge(l: Cfg, r: Cfg, path: seq<string>)
    requires forall p :: !LosesAt(l, r, p)
    ensures LeafAt(Merge(l, r), path) == OverAtom(LeafAt(l, path), LeafAt(r, path))
  {
    assert !LosesAt(l, r, []);
    assert At(l, []) == Some(l) && At(r, []) == Some(r);
    if path != [] {
      var k := path[0];
      if l.Node? && r.Node? && k in l.entries && k in r.entries {
        forall p
          ensures !LosesAt(l.entries[k], r.entries[k], p)
        {
          assert ([k] + p)[1..] == p;
          assert At(l, [k] + p) == At(l.entries[k], p) && At(r, [k] + p) == At(r.entries[k], p);
          assert !LosesAt(l, r, [k] + p);
        }
        LeafOfMerge(l.entries[k], r.entries[k], path[1..]);
      } else if l.Node? && r.Leaf? {
        assert LeafAt(l, path).None?;
      }
    }
  }

  /** Following a common path of mappings, the merge is the merge of what stands there. */
  lemma {:induction false} MergeAtCommon(l: Cfg, r: Cfg, path: seq<string>)
    requires At(l, path).Some? && At(r, path).Some?
    ensures At(Merge(l, r), path) == Some(Merge(At(l, path).value, At(r, path).value))
  {
    if path != [] {
      MergeAtCommon(l.entries[path[0]], r.entries[path[0]], path[1..]);
    }
  }

  /** The leaves of a merge are the right-biased union of the leaves, exactly when no path loses one. */
  lemma LeavesOfMergeIff(l: Cfg, r: Cfg)
    ensures UnionOfLeaves(l, r) <==> forall path :: !LosesAt(l, r, path)
  {
    if forall path :: !LosesAt(l, r, path) {
      forall path
        ensures LeafAt(Merge(l, r), path) == OverAtom(LeafAt(l, path), LeafAt(r, path))
      {
        LeafOfMerge(l, r, path);
      }
    } else {
      var path :| LosesAt(l, r, path);
      MergeAtCommon(l, r, path);
      if IsLeafAt(r, path) {
        var below :| LeafAt(At(l, path).value, below).Some?;
        assert below != [];
        AtConcat(l, path, below);
        AtConcat(r, path, below);
        AtConcat(Merge(l, r), path, below);
        assert LeafAt(Merge(l, r), path + below) != OverAtom(LeafAt(l, path + below), LeafAt(r, path + below));
      } else {
        assert LeafAt(Merge(l, r), path) != OverAtom(LeafAt(l, path), LeafAt(r, path));
      }
    }
  }

  lemma {:induction false} MergeIsDotFree(l: Cfg, r: Cfg)
    requires DotFree(l) && DotFree(r)
    ensures DotFree(Merge(l, r))
    decreases r
  {
    if l.Node? && r.Node? {
      forall k | k in l.entries && k in r.entries
        ensures DotFree(Merge(l.entries[k], r.entries[k]))
      {
        MergeIsDotFree(l.entries[k], r.entries[k]);
      }
    }
  }

  lemma {:induction false} LeafComesFrom(l: Cfg, r: Cfg, path: seq<string>)
    ensures LeafAt(Merge(l, r), path).Some? ==> LeafAt(l, path).Some? || LeafAt(r, path).Some?
  {
    if path != [] && l.Node? && r.Node? && path[0] in l.entries && path[0] in r.entries {
      LeafComesFrom(l.entries[path[0]], r.entries[path[0]], path[1..]);
    }
  }

  lemma MergeIsTidy(l: Cfg, r: Cfg)
    requires Tidy(l) && Tidy(r)
    ensures Tidy(Merge(l, r))
  {
    MergeIsDotFree(l, r);
    if EmptyKeyHolds(Merge(l, r)) {
      var path :| LeafAt(Merge(l, r).entries[""], path).Some?;
      if "" in l.entries && "" in r.entries {
        LeafComesFrom(l.entries[""], r.entries[""], path);
      }
    }
  }

  /** A flat index, read at a path. */
  lemma FlatIsLeaf(d: Cfg, flat: map<string, Atom>, path: seq<string>)
    requires Tidy(d) && IsFlat(Entries(d, ""), flat) && path != [] && forall p :: p in path ==> '.' !in p
    ensures (if Join(path, ".") in flat then Some(flat[Join(path, ".")]) else None) == LeafAt(d, path)
  {
    var key := Join(path, ".");
    SplitJoin(path);
    if key in flat {
      EntryIffLeaf(d, key, flat[key]);
    }
    if LeafAt(d, path).Some? {
      EntryIffLeaf(d, key, LeafAt(d, path).value);
      assert (key, LeafAt(d, path).value) in Entries(d, "");
    }
  }

  /** The index of a merge is the right-biased union of the indexes, exactly when no path loses a leaf. */
  lemma IndexOfMergeIff(l: Cfg, r: Cfg, flatL: map<string, Atom>, flatR: map<string, Atom>, flat: map<string, Atom>)
    requires Tidy(l) && Tidy(r)
    requires IsFlat(Entries(l, ""), flatL) && IsFlat(Entries(r, ""), flatR)
    requires IsFlat(Entries(Merge(l, r), ""), flat)
    ensures flat == flatL + flatR <==> forall path :: !LosesAt(l, r, path)
  {
    MergeIsTidy(l, r);
    LeavesOfMergeIff(l, r);
    if UnionOfLeaves(l, r) {
      forall key
        ensures key in flat <==> key in flatL + flatR
        ensures key in flat ==> flat[key] == (flatL + flatR)[key]
      {
        JoinSplit(key);
        FlatIsLeaf(l, flatL, SplitDots(key));
        FlatIsLeaf(r, flatR, SplitDots(key));
        FlatIsLeaf(Merge(l, r), flat, SplitDots(key));
        var path := SplitDots(key);
        assert LeafAt(Merge(l, r), path) == OverAtom(LeafAt(l, path), LeafAt(r, path));
      }
    }
    if flat == flatL + flatR {
      forall path
        ensures LeafAt(Merge(l, r), path) == OverAtom(LeafAt(l, path), LeafAt(r, path))
      {
        LeavesFromIndexes(l, r, flatL, flatR, flat, path);
      }
    }
  }

  lemma LeavesFromIndexes(l: Cfg, r: Cfg, flatL: map<string, Atom>, flatR: map<string, Atom>,
                          flat: map<string, Atom>, path: seq<string>)
    requires Tidy(l) && Tidy(r) && Tidy(Merge(l, r))
    requires IsFlat(Entries(l, ""), flatL) && IsFlat(Entries(r, ""), flatR)
    requires IsFlat(Entries(Merge(l, r), ""), flat) && flat == flatL + flatR
    ensures LeafAt(Merge(l, r), path) == OverAtom(LeafAt(l, path), LeafAt(r, path))
  {
    if path != [] {
      if forall p :: p in path ==> '.' !in p {
        FlatIsLeaf(l, flatL, path);
        FlatIsLeaf(r, flatR, path);
        FlatIsLeaf(Merge(l, r), flat, path);
      } else {
        NoLeafAtDottedPath(l, path);
        NoLeafAtDottedPath(r, path);
        NoLeafAtDottedPath(Merge(l, r), path);
      }
    }
  }

  lemma NoLeafAtDottedPath(d: Cfg, path: seq<string>)
    requires DotFree(d) && exists p :: p in path && '.' in p
    ensures At(d, path).None?
  {
    if At(d, path).Some? {
      PathIsDotFree(d, path);
    }
  }

  // Any number of layers.

  /** A later layer that hides whatever leaf stands at the path: a mapping there, or a leaf above it. */
  predicate Blocks(d: Cfg, path: seq<string>) {
    if path == [] then d.Node?
    else d.Leaf? || (path[0] in d.entries && Blocks(d.entries[path[0]], path[1..]))
  }

  /** The leaf at a path of any merge. */
  lemma {:induction false} LeafOfAnyMerge(l: Cfg, r: Cfg, path: seq<string>)
    ensures LeafAt(Merge(l, r), path)
         == if LeafAt(r, path).Some? then LeafAt(r, path)
            else if Blocks(r, path) then None
            else LeafAt(l, path)
  {
    if path != [] && l.Node? && r.Node? && path[0] in l.entries && path[0] in r.entries {
      LeafOfAnyMerge(l.entries[path[0]], r.entries[path[0]], path[1..]);
    } else if path != [] && l.Leaf? && r.Node? && path[0] in r.entries {
      LeafOrBlock(r.entries[path[0]], path[1..]);
    }
  }

  /** What a mapping holds below a leaf of another comes from the mapping alone. */
  lemma {:induction false} LeafOrBlock(d: Cfg, path: seq<string>)
    ensures LeafAt(d, path).Some? ==> !Blocks(d, path)
  {
    if path != [] && d.Node? && path[0] in d.entries {
      LeafOrBlock(d.entries[path[0]], path[1..]);
    }
  }

  /** The leaf that the last layer with one puts at a path. */
  function LastLeaf(layers: seq<Cfg>, path: seq<string>): Option<Atom> {
    if layers == [] then None
    else OverAtom(LastLeaf(layers[..|layers| - 1], path), LeafAt(layers[|layers| - 1], path))
  }

  /** Layer `i` is the last with a leaf at the path. */
  ghost predicate IsLast(layers: seq<Cfg>, path: seq<string>, i: nat) {
    i < |layers| && LeafAt(layers[i], path).Some? && forall k :: i < k < |layers| ==> LeafAt(layers[k], path).None?
  }

  /** Some layer after the last one with a leaf at the path hides it. */
  ghost predicate LosesLeaf(layers: seq<Cfg>, path: seq<string>) {
    exists i: nat, j: nat :: IsLast(layers, path, i) && i < j < |layers| && Blocks(layers[j], path)
  }

  lemma {:induction false} LastIs(layers: seq<Cfg>, path: seq<string>)
    ensures LastLeaf(layers, path).Some? <==> exists i: nat :: IsLast(layers, path, i)
  {
    if layers != [] {
      var n := |layers| - 1;
      LastIs(layers[..n], path);
      if LeafAt(layers[n], path).Some? {
        assert IsLast(layers, path, n);
      } else {
        forall i: nat
          ensures IsLast(layers, path, i) <==> IsLast(layers[..n], path, i)
        {
          LastOfInit(layers, path, i);
        }
      }
    }
  }

  lemma LastOfInit(layers: seq<Cfg>, path: seq<string>, i: nat)
    requires layers != [] && LeafAt(layers[|layers| - 1], path).None?
    ensures IsLast(layers, path, i) <==> IsLast(layers[..|layers| - 1], path, i)
  {
    var init := layers[..|layers| - 1];
    assert forall k :: 0 <= k < |init| ==> init[k] == layers[k];
  }

  /** At every path the merge of all layers has the last leaf, exactly when no later layer hides it. */
  lemma {:induction false} MergedLeafIff(layers: seq<Cfg>, path: seq<string>)
    requires forall layer :: layer in layers ==> layer.Node?
    ensures LeafAt(MergeAll(layers), path) == LastLeaf(layers, path) <==> !LosesLeaf(layers, path)
  {
    if layers == [] {
      assert LeafAt(Node(map[]), path).None?;
    } else {
      var n := |layers| - 1;
      var init, last := layers[..n], layers[n];
      MergedLeafIff(init, path);
      LeafOfAnyMerge(MergeAll(init), last, path);
      LastIs(init, path);
      if LeafAt(last, path).Some? {
        assert forall i: nat :: IsLast(layers, path, i) ==> i == n;
      } else {
        forall i: nat
          ensures IsLast(layers, path, i) <==> IsLast(init, path, i)
        {
          LastOfInit(layers, path, i);
        }
        LosesMore(layers, path);
      }
    }
  }

  lemma LosesMore(layers: seq<Cfg>, path: seq<string>)
    requires layers != []
    requires forall i: nat :: IsLast(layers, path, i) <==> IsLast(layers[..|layers| - 1], path, i)
    ensures LosesLeaf(layers, path) <==>
      || LosesLeaf(layers[..|layers| - 1], path)
      || (Blocks(layers[|layers| - 1], path) && LastLeaf(layers[..|layers| - 1], path).Some?)
  {
    var n := |layers| - 1;
    var init := layers[..n];
    LastIs(init, path);
    if i: nat, j: nat :| IsLast(layers, path, i) && i < j < |layers| && Blocks(layers[j], path) {
      assert IsLast(init, path, i);
      assert j < n ==> init[j] == layers[j];
    }
    if i: nat, j: nat :| IsLast(init, path, i) && i < j < n && Blocks(init[j], path) {
      assert IsLast(layers, path, i) && Blocks(layers[j], path);
    }
    if i: nat :| IsLast(init, path, i) && Blocks(layers[n], path) {
      assert IsLast(layers, path, i) && i < n;
    }
  }

  /** The indexes laid over each other. */
  function Overlaid(flats: seq<map<string, Atom>>): map<string, Atom> {
    if flats == [] then map[] else Overlaid(flats[..|flats| - 1]) + flats[|flats| - 1]
  }

  ghost predicate AreIndexes(layers: seq<Cfg>, flats: seq<map<string, Atom>>) {
    && |flats| == |layers|
    && forall i :: 0 <= i < |layers| ==> Tidy(layers[i]) && IsFlat(Entries(layers[i], ""), flats[i])
  }

  function Lookup(flat: map<string, Atom>, key: string): Option<Atom> {
    if key in flat then Some(flat[key]) else None
  }

  lemma {:induction false} OverlaidIsLast(layers: seq<Cfg>, flats: seq<map<string, Atom>>, key: string)
    requires AreIndexes(layers, flats)
    ensures Lookup(Overlaid(flats), key) == LastLeaf(layers, SplitDots(key))
  {
    if layers != [] {
      var n := |layers| - 1;
      OverlaidIsLast(layers[..n], flats[..n], key);
      LookupIsLeaf(layers[n], flats[n], key);
    }
  }

  lemma LookupIsLeaf(d: Cfg, flat: map<string, Atom>, key: string)
    requires Tidy(d) && IsFlat(Entries(d, ""), flat)
    ensures Lookup(flat, key) == LeafAt(d, SplitDots(key))
  {
    JoinSplit(key);
    FlatIsLeaf(d, flat, SplitDots(key));
  }

  lemma {:induction false} MergeAllIsTidy(layers: seq<Cfg>)
    requires forall layer :: layer in layers ==> layer.Node? && Tidy(layer)
    ensures Tidy(MergeAll(layers))
  {
    if layers != [] {
      MergeAllIsTidy(layers[..|layers| - 1]);
      MergeIsTidy(MergeAll(layers[..|layers| - 1]), layers[|layers| - 1]);
    }
  }

  /** The index of all layers merged is their indexes laid over each other, exactly when no leaf is hidden. */
  lemma IndexOfMergeAllIff(layers: seq<Cfg>, flats: seq<map<string, Atom>>, flat: map<string, Atom>)
    requires AreIndexes(layers, flats)
    requires forall layer :: layer in layers ==> layer.Node? && Tidy(layer)
    requires IsFlat(Entries(MergeAll(layers), ""), flat)
    ensures flat == Overlaid(flats) <==> forall path :: !LosesLeaf(layers, path)
  {
    MergeAllIsTidy(layers);
    forall key
      ensures Lookup(flat, key) == LeafAt(MergeAll(layers), SplitDots(key))
      ensures Lookup(Overlaid(flats), key) == LastLeaf(layers, SplitDots(key))
      ensures Lookup(flat, key) == Lookup(Overlaid(flats), key) <==> !LosesLeaf(layers, SplitDots(key))
    {
      LookupIsLeaf(MergeAll(layers), flat, key);
      OverlaidIsLast(layers, flats, key);
      MergedLeafIff(layers, SplitDots(key));
    }
    if flat == Overlaid(flats) {
      forall path
        ensures !LosesLeaf(layers, path)
      {
        if LosesLeaf(layers, path) {
          LostPathIsAKey(layers, path);
        }
        var key := Join(path, ".");
        assert Lookup(flat, key) == Lookup(Overlaid(flats), key);
      }
    }
    if forall path :: !LosesLeaf(layers, path) {
      forall key
        ensures Lookup(flat, key) == Lookup(Overlaid(flats), key)
      {
      }
      SameLookups(flat, Overlaid(flats));
    }
  }

  lemma SameLookups(f: map<string, Atom>, g: map<string, Atom>)
    requires forall key :: Lookup(f, key) == Lookup(g, key)
    ensures f == g
  {
    assert forall key :: key in f <==> Lookup(f, key).Some?;
    assert forall key :: key in g <==> Lookup(g, key).Some?;
    assert forall key :: key in f ==> Lookup(f, key).value == Lookup(g, key).value;
  }

  lemma LostPathIsAKey(layers: seq<Cfg>, path: seq<string>)
    requires (forall layer :: layer in layers ==> Tidy(layer)) && LosesLeaf(layers, path)
    ensures SplitDots(Join(path, ".")) == path
  {
    var i: nat, j: nat :| IsLast(layers, path, i) && i < j < |layers| && Blocks(layers[j], path);
    assert layers[i] in layers;
    PathIsDotFree(layers[i], path);
    SplitJoin(path);
  }

  lemma {:induction false} BlockedAt(d: Cfg, path: seq<string>) returns (n: nat)
    requires Blocks(d, path)
    ensures n <= |path| && (if n == |path| then IsNodeAt(d, path) else IsLeafAt(d, path[..n]))
  {
    if path == [] {
      n := 0;
    } else if d.Leaf? {
      n := 0;
    } else {
      var m := BlockedAt(d.entries[path[0]], path[1..]);
      n := m + 1;
      assert path[..n][1..] == path[1..][..m];
    }
  }

  /** Layers that agree on what is a mapping hide nothing. */
  lemma CompatibleLosesNothing(layers: seq<Cfg>)
    requires AllCompatible(layers)
    ensures forall path :: !LosesLeaf(layers, path)
  {
    forall path
      ensures !LosesLeaf(layers, path)
    {
      if i: nat, j: nat :| IsLast(layers, path, i) && i < j < |layers| && Blocks(layers[j], path) {
        assert layers[i] in layers && layers[j] in layers;
        CompatibleBlocksNothing(layers[i], layers[j], path);
      }
    }
  }

  lemma CompatibleAt(a: Cfg, b: Cfg, path: seq<string>)
    requires Compatible(a, b)
    ensures IsLeafAt(a, path) ==> !IsNodeAt(b, path)
    ensures IsNodeAt(a, path) ==> !IsLeafAt(b, path)
  {
  }

  lemma CompatibleBlocksNothing(a: Cfg, b: Cfg, path: seq<string>)
    requires Compatible(a, b) && LeafAt(a, path).Some?
    ensures !Blocks(b, path)
  {
    var n := |path|;
    if Blocks(b, path) {
      n := BlockedAt(b, path);
    }
    var head, rest := path[..n], path[n..];
    assert path == head + rest && |rest| == |path| - n;
    AtConcat(a, head, rest);
    CompatibleAt(a, b, path);
    CompatibleAt(a, b, head);
  }
}

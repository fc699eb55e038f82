/** The MERGE generator, as a statement with a meaning on tables. */
module MergeSql {
  import opened Seqs
  import opened Text

  // Identifiers as text.

  /** An identifier of word characters only is written bare, any other between back-ticks, its own doubled. */
  function Escape(name: string): string {
    if name == [] then []
    else (if name[0] == '`' then "``" else [name[0]]) + Escape(name[1..])
  }

  function Trim(name: string): string {
    Strip(name, IsSpace)
  }

  /** `isWord` is `c.isalnum() or c == "_"`. */
  function Ident(name: string, isWord: char -> bool): Option<string> {
    var trimmed := Trim(name);
    if trimmed == "" then None
    else if forall c :: c in trimmed ==> isWord(c) then Some(trimmed)
    else Some("`" + Escape(trimmed) + "`")
  }

  /** A reader of one identifier: the name and the text after it. */
  function ReadQuoted(text: string): Option<(string, string)> {
    if text == [] then None
    else if text[0] != '`' then
      match ReadQuoted(text[1..])
      case None => None
      case Some((name, rest)) => Some(([text[0]] + name, rest))
    else if |text| > 1 && text[1] == '`' then
      match ReadQuoted(text[2..])
      case None => None
      case Some((name, rest)) => Some(("`" + name, rest))
    else
      Some(([], text[1..]))
  }

  function ReadBare(text: string, isWord: char -> bool): (string, string) {
    if text == [] || !isWord(text[0]) then ([], text)
    else
      var (name, rest) := ReadBare(text[1..], isWord);
      ([text[0]] + name, rest)
  }

  function ReadIdent(text: string, isWord: char -> bool): Option<(string, string)> {
    if text != [] && text[0] == '`' then ReadQuoted(text[1..]) else Some(ReadBare(text, isWord))
  }

  lemma {:induction false} QuotedReadsBack(name: string, rest: string)
    requires rest == [] || rest[0] != '`'
    ensures ReadQuoted(Escape(name) + "`" + rest) == Some((name, rest))
  {
    var text := Escape(name) + "`" + rest;
    if name == [] {
      assert text == "`" + rest && text[1..] == rest;
    } else {
      QuotedReadsBack(name[1..], rest);
      var tail := Escape(name[1..]) + "`" + rest;
      assert name == [name[0]] + name[1..];
      if name[0] == '`' {
        assert text == "``" + tail && text[2..] == tail;
      } else {
        assert text == [name[0]] + tail && text[1..] == tail;
      }
    }
  }

  lemma {:induction false} BareReadsBack(name: string, rest: string, isWord: char -> bool)
    requires forall c :: c in name ==> isWord(c)
    requires rest == [] || !isWord(rest[0])
    ensures ReadBare(name + rest, isWord) == (name, rest)
  {
    if name == [] {
      assert name + rest == rest;
    } else {
      BareReadsBack(name[1..], rest, isWord);
      assert (name + rest)[1..] == name[1..] + rest;
      assert name == [name[0]] + name[1..];
    }
  }

  /** Wherever it stands in a statement, a written identifier reads back as the trimmed name and nothing more. */
  lemma IdentReadsBack(name: string, isWord: char -> bool, rest: string)
    requires !isWord('`')
    requires rest == [] || (rest[0] != '`' && !isWord(rest[0]))
    ensures Ident(name, isWord).None? <==> Trim(name) == ""
    ensures Ident(name, isWord).Some? ==>
      ReadIdent(Ident(name, isWord).value + rest, isWord) == Some((Trim(name), rest))
  {
    var trimmed := Trim(name);
    if trimmed != "" {
      if forall c :: c in trimmed ==> isWord(c) {
        BareReadsBack(trimmed, rest, isWord);
        assert isWord(trimmed[0]);
      } else {
        QuotedReadsBack(trimmed, rest);
        var text := "`" + Escape(trimmed) + "`" + rest;
        assert text[1..] == Escape(trimmed) + "`" + rest;
      }
    }
  }

  // The statement.

  datatype Clause = Clause(columns: seq<string>, condition: Option<string>)

  datatype Merge = Merge(target: string, query: string, on: seq<string>, update: Option<Clause>, insert: Option<Clause>)

  datatype BuildError = NoTarget | NoQuery | NoAction | NoKeys | EmptyName

  datatype Built = Statement(merge: Merge) | ValueError(error: BuildError)

  function Without(names: seq<string>, drop: set<string>): seq<string> {
    if names == [] then []
    else
      var last := names[|names| - 1];
      Without(names[..|names| - 1], drop) + if last in drop then [] else [last]
  }

  function Trimmed(names: seq<string>): seq<string> {
    seq(|names|, i requires 0 <= i < |names| => Trim(names[i]))
  }

  predicate AllNamed(names: seq<string>) {
    forall name :: name in names ==> Trim(name) != ""
  }

  /** An empty list of value columns counts as none given. */
  function UpdateColumns(keys: seq<string>, values: seq<string>, parts: seq<string>): seq<string> {
    if values == [] then Fresh(parts + keys, {}) else Without(values, ToSet(keys))
  }

  function InsertColumns(keys: seq<string>, values: seq<string>, parts: seq<string>): seq<string> {
    Fresh(keys + UpdateColumns(keys, values, parts) + parts, {})
  }

  /** An empty condition counts as none. */
  function ClauseOf(enabled: bool, columns: seq<string>, condition: string): Option<Clause> {
    if enabled && columns != [] then
      Some(Clause(Trimmed(columns), if condition == "" then None else Some(condition)))
    else
      None
  }

  function MergeOf(target: string, query: string, keys: seq<string>, values: seq<string>, parts: seq<string>,
                   matched: bool, notMatched: bool, matchedIf: string, notMatchedIf: string): Built
  {
    var update := UpdateColumns(keys, values, parts);
    var insert := InsertColumns(keys, values, parts);
    if target == "" then ValueError(NoTarget)
    else if query == "" then ValueError(NoQuery)
    else if !matched && !notMatched then ValueError(NoAction)
    else if keys == [] then ValueError(NoKeys)
    else if !AllNamed(keys) || (matched && !AllNamed(update)) || (notMatched && !AllNamed(insert)) then
      ValueError(EmptyName)
    else
      Statement(Merge(target, query, Trimmed(keys),
                      ClauseOf(matched, update, matchedIf), ClauseOf(notMatched, insert, notMatchedIf)))
  }

  function NonKeys(schema: seq<string>, keys: seq<string>): seq<string> {
    Without(schema, ToSet(keys))
  }

  function SchemaMerge(target: string, query: string, schema: seq<string>, keys: seq<string>, parts: seq<string>): Built
  {
    MergeOf(target, query, keys, NonKeys(schema, keys), parts, true, true, "", "")
  }

  /** `seen`-and-append loops. */
  method Deduplicate(names: seq<string>) returns (result: seq<string>)
    ensures result == Fresh(names, {})
  {
    result := [];
    var seen: set<string> := {};
    for i := 0 to |names|
      invariant result == Fresh(names[..i], {})
      invariant seen == ToSet(names[..i])
    {
      assert names[..i + 1] == names[..i] + [names[i]];
      FreshSnoc(names[..i], names[i], {});
      if names[i] !in seen {
        seen := seen + {names[i]};
        result := result + [names[i]];
      }
    }
    assert names[..|names|] == names;
  }

  method Drop(names: seq<string>, drop: set<string>) returns (result: seq<string>)
    ensures result == Without(names, drop)
  {
    result := [];
    for i := 0 to |names|
      invariant result == Without(names[..i], drop)
    {
      assert names[..i + 1][..i] == names[..i];
      if names[i] !in drop {
        result := result + [names[i]];
      }
    }
    assert names[..|names|] == names;
  }

  /** The identifiers of a column list, or none if a name is blank. */
  method Identifiers(names: seq<string>) returns (result: Option<seq<string>>)
    ensures result == if AllNamed(names) then Some(Trimmed(names)) else None
  {
    var idents := [];
    for i := 0 to |names|
      invariant idents == Trimmed(names[..i])
      invariant AllNamed(names[..i])
    {
      var trimmed := Trim(names[i]);
      if trimmed == "" {
        assert names[i] in names;
        return None;
      }
      idents := idents + [trimmed];
      assert names[..i + 1] == names[..i] + [names[i]];
    }
    assert names[..|names|] == names;
    return Some(idents);
  }

  /** What a statement says of the inputs: which condition and which columns are in which clause. */
  ghost predicate TellsInputs(merge: Merge, keys: seq<string>, values: seq<string>, parts: seq<string>,
                              matched: bool, notMatched: bool, matchedIf: string, notMatchedIf: string)
  {
    && |merge.on| == |keys| && (forall i :: 0 <= i < |keys| ==> merge.on[i] == Trim(keys[i]))
    && (merge.update.Some? ==>
          && matched && merge.update.value.condition == (if matchedIf == "" then None else Some(matchedIf))
          && forall t :: t in merge.update.value.columns <==>
               exists c :: Trim(c) == t && if values == [] then c in keys || c in parts else c in values && c !in keys)
    && (merge.update.None? && matched ==> values != [] && forall c :: c in values ==> c in keys)
    && (merge.insert.Some? <==> notMatched)
    && (merge.insert.Some? ==>
          && merge.insert.value.condition == (if notMatchedIf == "" then None else Some(notMatchedIf))
          && (forall t :: t in merge.insert.value.columns <==>
                exists c :: Trim(c) == t && (c in keys || c in values || c in parts)))
    // The keys come first.
    && (merge.insert.Some? && Distinct(keys) ==> merge.on <= merge.insert.value.columns)
  }

  lemma ListsHold(keys: seq<string>, values: seq<string>, parts: seq<string>, c: string)
    ensures c in UpdateColumns(keys, values, parts) <==>
              if values == [] then c in keys || c in parts else c in values && c !in keys
    ensures c in InsertColumns(keys, values, parts) <==> c in keys || c in values || c in parts
  {
    WithoutIs(values, ToSet(keys));
    FreshIsDistinct(parts + keys, {});
    FreshIsDistinct(keys + UpdateColumns(keys, values, parts) + parts, {});
  }

  lemma {:induction false} FreshOfDistinct(names: seq<string>, seen: set<string>)
    requires Distinct(names) && forall name :: name in names ==> name !in seen
    ensures Fresh(names, seen) == names
  {
    if names != [] {
      FreshOfDistinct(names[1..], seen + {names[0]});
      assert names == [names[0]] + names[1..];
    }
  }

  lemma KeysComeFirst(keys: seq<string>, values: seq<string>, parts: seq<string>)
    requires Distinct(keys)
    ensures Trimmed(keys) <= Trimmed(InsertColumns(keys, values, parts))
  {
    var update := UpdateColumns(keys, values, parts);
    FreshOfDistinct(keys, {});
    FreshConcat(keys, update + parts, {});
    assert keys + update + parts == keys + (update + parts);
    var insert := InsertColumns(keys, values, parts);
    assert keys <= insert;
    assert forall i :: 0 <= i < |keys| ==> Trimmed(insert)[i] == Trim(keys[i]);
  }

  lemma StatementTells(target: string, query: string, keys: seq<string>, values: seq<string>, parts: seq<string>,
                       matched: bool, notMatched: bool, matchedIf: string, notMatchedIf: string)
    requires MergeOf(target, query, keys, values, parts, matched, notMatched, matchedIf, notMatchedIf).Statement?
    ensures TellsInputs(
              MergeOf(target, query, keys, values, parts, matched, notMatched, matchedIf, notMatchedIf).merge,
              keys, values, parts, matched, notMatched, matchedIf, notMatchedIf)
  {
    var update, insert := UpdateColumns(keys, values, parts), InsertColumns(keys, values, parts);
    forall c
      ensures c in update <==> if values == [] then c in keys || c in parts else c in values && c !in keys
      ensures c in insert <==> c in keys || c in values || c in parts
    {
      ListsHold(keys, values, parts, c);
    }
    TrimmedHolds(update);
    TrimmedHolds(insert);
    assert keys[0] in insert;
    if values == [] {
      assert keys[0] in update;
    }
    if Distinct(keys) {
      KeysComeFirst(keys, values, parts);
    }
  }

  method BuildMergeInto(target: string, query: string, keys: seq<string>, values: seq<string>, parts: seq<string>,
                        matched: bool, notMatched: bool, matchedIf: string, notMatchedIf: string)
    returns (built: Built)
    ensures built == MergeOf(target, query, keys, values, parts, matched, notMatched, matchedIf, notMatchedIf)
    ensures built.Statement? ==>
              && built.merge.target == target && built.merge.query == query
              && TellsInputs(built.merge, keys, values, parts, matched, notMatched, matchedIf, notMatchedIf)
    // The first input at fault is named.
    ensures built == ValueError(NoTarget) <==> target == ""
    ensures built == ValueError(NoQuery) <==> target != "" && query == ""
    ensures built == ValueError(NoAction) <==> target != "" && query != "" && !matched && !notMatched
    ensures built == ValueError(NoKeys) <==> target != "" && query != "" && (matched || notMatched) && keys == []
  {
    if target == "" {
      return ValueError(NoTarget);
    }
    if query == "" {
      return ValueError(NoQuery);
    }
    if !matched && !notMatched {
      return ValueError(NoAction);
    }
    var updateColumns;
    if values == [] {
      updateColumns := Deduplicate(parts + keys);
    } else {
      updateColumns := Drop(values, ToSet(keys));
    }
    var insertColumns := Deduplicate(keys + updateColumns + parts);
    if keys == [] {
      return ValueError(NoKeys);
    }
    var on := Identifiers(keys);
    if on.None? {
      return ValueError(EmptyName);
    }
    var update, insert := None, None;
    if matched && updateColumns != [] {
      var idents := Identifiers(updateColumns);
      if idents.None? {
        return ValueError(EmptyName);
      }
      update := Some(Clause(idents.value, if matchedIf == "" then None else Some(matchedIf)));
    }
    if notMatched && insertColumns != [] {
      var idents := Identifiers(insertColumns);
      if idents.None? {
        return ValueError(EmptyName);
      }
      insert := Some(Clause(idents.value, if notMatchedIf == "" then None else Some(notMatchedIf)));
    }
    StatementTells(target, query, keys, values, parts, matched, notMatched, matchedIf, notMatchedIf);
    return Statement(Merge(target, query, on.value, update, insert));
  }

  method BuildMergeIntoFromSchema(target: string, query: string, schema: seq<string>, keys: seq<string>,
                                  parts: seq<string>) returns (built: Built)
    ensures built == SchemaMerge(target, query, schema, keys, parts)
    // Both clauses, without conditions: non-key columns are updated, and all that is mentioned is inserted.
    ensures built.Statement? ==>
              && built.merge.update.Some? && built.merge.update.value.condition == None
              && built.merge.insert.Some? && built.merge.insert.value.condition == None
              && (forall t :: t in built.merge.insert.value.columns <==>
                    exists c :: Trim(c) == t && (c in schema || c in keys || c in parts))
              && ((exists c :: c in schema && c !in keys) ==>
                    forall t :: t in built.merge.update.value.columns <==>
                      exists c :: Trim(c) == t && c in schema && c !in keys)
  {
    var values := Drop(schema, ToSet(keys));
    WithoutIs(schema, ToSet(keys));
    assert forall c :: c in values <==> c in schema && c !in keys;
    built := BuildMergeInto(target, query, keys, values, parts, true, true, "", "");
  }

  // What a statement does to a table.

  datatype Value = Null | Val(id: int)

  type Row = map<string, Value>

  ghost predicate FitsAll(rows: seq<Row>, columns: set<string>) {
    forall row :: row in rows ==> row.Keys == columns
  }

  /** The ON condition: in SQL a null equals nothing. */
  predicate Matches(keys: seq<string>, t: Row, s: Row) {
    forall k :: k in keys ==> k in t && k in s && t[k] != Null && t[k] == s[k]
  }

  datatype Rejection = NoClause | UnknownColumn | RepeatedColumn | ManyMatches

  datatype Outcome = Done(rows: seq<Row>) | Rejected(why: Rejection)

  predicate Resolves(clause: Option<Clause>, columns: set<string>) {
    clause.Some? ==> forall c :: c in clause.value.columns ==> c in columns
  }

  ghost predicate NoRepeats(clause: Option<Clause>) {
    clause.Some? ==> Distinct(clause.value.columns)
  }

  /** Some target row is matched by two source rows. */
  ghost predicate Ambiguous(keys: seq<string>, target: seq<Row>, source: seq<Row>) {
    exists t, i, j :: 0 <= i < j < |source| && t in target && Matches(keys, t, source[i]) && Matches(keys, t, source[j])
  }

  /** The source rows that match a target row, in order. */
  function Matching(keys: seq<string>, t: Row, source: seq<Row>): (found: seq<Row>)
    ensures forall s :: s in found <==> s in source && Matches(keys, t, s)
  {
    if source == [] then []
    else (if Matches(keys, t, source[0]) then [source[0]] else []) + Matching(keys, t, source[1..])
  }

  function Assign(t: Row, s: Row, given: seq<string>): Row {
    map c | c in t :: if c in given && c in s then s[c] else t[c]
  }

  function NewRow(s: Row, given: seq<string>, columns: set<string>): Row {
    map c | c in columns :: if c in given && c in s then s[c] else Null
  }

  function Updated(merge: Merge, t: Row, source: seq<Row>, holds: (string, Row, Row) -> bool): Row {
    var found := Matching(merge.on, t, source);
    if found != [] && merge.update.Some?
       && (merge.update.value.condition.None? || holds(merge.update.value.condition.value, t, found[0]))
    then Assign(t, found[0], merge.update.value.columns)
    else t
  }

  function UpdatedAll(merge: Merge, target: seq<Row>, source: seq<Row>, holds: (string, Row, Row) -> bool): seq<Row> {
    seq(|target|, i requires 0 <= i < |target| => Updated(merge, target[i], source, holds))
  }

  predicate IsMatched(keys: seq<string>, target: seq<Row>, s: Row) {
    exists t :: t in target && Matches(keys, t, s)
  }

  function Inserted(merge: Merge, target: seq<Row>, source: seq<Row>, columns: set<string>,
                    holds: (string, Row, Row) -> bool): seq<Row>
  {
    if source == [] then []
    else
      var s := source[0];
      (if !IsMatched(merge.on, target, s) && merge.insert.Some?
          && (merge.insert.value.condition.None? || holds(merge.insert.value.condition.value, map[], s))
       then [NewRow(s, merge.insert.value.columns, columns)]
       else [])
      + Inserted(merge, target, source[1..], columns, holds)
  }

  ghost function Execute(merge: Merge, columns: set<string>, target: seq<Row>, source: seq<Row>,
                         holds: (string, Row, Row) -> bool): Outcome
  {
    if merge.update.None? && merge.insert.None? then Rejected(NoClause)
    else if !(ToSet(merge.on) <= columns && Resolves(merge.update, columns) && Resolves(merge.insert, columns)) then
      Rejected(UnknownColumn)
    else if !NoRepeats(merge.update) || !NoRepeats(merge.insert) then Rejected(RepeatedColumn)
    else if merge.update.Some? && Ambiguous(merge.on, target, source) then Rejected(ManyMatches)
    else
      Done(UpdatedAll(merge, target, source, holds) + Inserted(merge, target, source, columns, holds))
  }

  /**
   * What the conditions of the clauses decide: a target row changes only where a source row matches it and the
   * update's condition holds of the two, and exactly the unmatched source rows of which the insert's condition
   * holds are added.
   */
  lemma ConditionsDecide(merge: Merge, columns: set<string>, target: seq<Row>, source: seq<Row>,
                         holds: (string, Row, Row) -> bool)
    requires Execute(merge, columns, target, source, holds).Done?
    requires merge.update.Some? && merge.update.value.condition.Some?
    requires merge.insert.Some? && merge.insert.value.condition.Some?
    ensures var rows := Execute(merge, columns, target, source, holds).rows;
      && |rows| >= |target|
      && (forall i :: 0 <= i < |target| && rows[i] != target[i] ==>
            exists s :: s in source && Matches(merge.on, target[i], s)
                        && holds(merge.update.value.condition.value, target[i], s))
      && (forall i, s, c :: 0 <= i < |target| && OnlyMatches(merge.on, target[i], s, source) ==>
            (holds(merge.update.value.condition.value, target[i], s) && c in merge.update.value.columns ==>
               (c in target[i] && c in s ==> c in rows[i] && rows[i][c] == s[c])))
      && (forall row :: row in rows[|target|..] <==>
            exists s :: s in source && IsInserted(merge, target, s, holds)
                        && row == NewRow(s, merge.insert.value.columns, columns))
  {
    var updated, inserted := UpdatedAll(merge, target, source, holds), Inserted(merge, target, source, columns, holds);
    var rows := Execute(merge, columns, target, source, holds).rows;
    assert rows[|target|..] == inserted;
    InsertedAre(merge, target, source, columns, holds);
    forall i | 0 <= i < |target|
      ensures rows[i] == Updated(merge, target[i], source, holds)
    {
      assert rows[i] == updated[i];
    }
    forall i | 0 <= i < |target| && Matching(merge.on, target[i], source) != []
      ensures var s := Matching(merge.on, target[i], source)[0]; s in source && Matches(merge.on, target[i], s)
    {
      assert Matching(merge.on, target[i], source)[0] in Matching(merge.on, target[i], source);
    }
    forall i, s | 0 <= i < |target| && OnlyMatches(merge.on, target[i], s, source)
      ensures Matching(merge.on, target[i], source) != [] && Matching(merge.on, target[i], source)[0] == s
    {
      assert s in Matching(merge.on, target[i], source);
    }
  }

  predicate OnlyMatches(keys: seq<string>, t: Row, s: Row, source: seq<Row>) {
    s in source && Matches(keys, t, s) && forall r :: r in source && Matches(keys, t, r) ==> r == s
  }

  predicate IsInserted(merge: Merge, target: seq<Row>, s: Row, holds: (string, Row, Row) -> bool)
    requires merge.insert.Some? && merge.insert.value.condition.Some?
  {
    && (forall t :: t in target ==> !Matches(merge.on, t, s))
    && holds(merge.insert.value.condition.value, map[], s)
  }

  lemma {:induction false} InsertedAre(merge: Merge, target: seq<Row>, source: seq<Row>, columns: set<string>,
                                       holds: (string, Row, Row) -> bool)
    requires merge.insert.Some? && merge.insert.value.condition.Some?
    ensures forall row :: row in Inserted(merge, target, source, columns, holds) <==>
              exists s :: s in source && IsInserted(merge, target, s, holds)
                          && row == NewRow(s, merge.insert.value.columns, columns)
  {
    if source != [] {
      InsertedAre(merge, target, source[1..], columns, holds);
      assert source == [source[0]] + source[1..];
    }
  }

  // What an upsert is.

  function Overridden(keys: seq<string>, t: Row, source: seq<Row>): (row: Row)
    ensures Matching(keys, t, source) != [] ==> row in source && Matches(keys, t, row)
  {
    var found := Matching(keys, t, source);
    if found == [] then t else assert found[0] in found; found[0]
  }

  function Unmatched(keys: seq<string>, target: seq<Row>, source: seq<Row>): (news: seq<Row>)
    ensures forall s :: s in news <==> s in source && !IsMatched(keys, target, s)
  {
    if source == [] then []
    else (if IsMatched(keys, target, source[0]) then [] else [source[0]]) + Unmatched(keys, target, source[1..])
  }

  /** Every target row gives way to the source row of its key, and the source rows without a counterpart follow. */
  function Upsert(keys: seq<string>, target: seq<Row>, source: seq<Row>): seq<Row> {
    OverriddenAll(keys, target, source) + Unmatched(keys, target, source)
  }

  function OverriddenAll(keys: seq<string>, target: seq<Row>, source: seq<Row>): seq<Row> {
    seq(|target|, i requires 0 <= i < |target| => Overridden(keys, target[i], source))
  }

  // The generated statement is an upsert.

  predicate IsPlain(name: string) {
    name != "" && Trim(name) == name
  }

  predicate AllPlain(names: seq<string>) {
    forall name :: name in names ==> IsPlain(name)
  }

  lemma {:induction false} WithoutIs(names: seq<string>, drop: set<string>)
    ensures forall name :: name in Without(names, drop) <==> name in names && name !in drop
    ensures Distinct(names) ==> Distinct(Without(names, drop))
  {
    if names != [] {
      var init := names[..|names| - 1];
      WithoutIs(init, drop);
      assert names == init + [names[|names| - 1]];
      assert Distinct(names) ==> names[|names| - 1] !in init;
    }
  }

  lemma PlainStays(names: seq<string>)
    requires AllPlain(names)
    ensures AllNamed(names) && Trimmed(names) == names
  {
    assert forall i :: 0 <= i < |names| ==> names[i] in names;
  }

  /** The names that a generated statement mentions. */
  predicate Mentioned(schema: seq<string>, keys: seq<string>, parts: seq<string>, c: string) {
    c in keys || c in NonKeys(schema, keys) || c in parts
  }

  /** The column lists of the generator: what they hold, and how often. */
  lemma ColumnLists(schema: seq<string>, keys: seq<string>, parts: seq<string>)
    requires keys != []
    ensures var values := NonKeys(schema, keys);
      var update := UpdateColumns(keys, values, parts);
      var insert := InsertColumns(keys, values, parts);
      && update != [] && insert != [] && Distinct(insert)
      && (forall c :: c in insert <==> Mentioned(schema, keys, parts, c))
      && (values == [] ==> Distinct(update) && forall c :: c in update <==> c in keys || c in parts)
      && (values != [] ==> update == values && forall c :: c in update <==> c in schema && c !in keys)
  {
    var values := NonKeys(schema, keys);
    var update := UpdateColumns(keys, values, parts);
    var insert := InsertColumns(keys, values, parts);
    WithoutIs(schema, ToSet(keys));
    FreshIsDistinct(parts + keys, {});
    FreshIsDistinct(keys + update + parts, {});
    assert keys[0] in keys && keys[0] in insert;
    if values == [] {
      assert keys[0] in update;
    } else {
      NothingToDrop(values, ToSet(keys));
    }
  }

  /** What the generator does with a schema: when it makes a statement, and which. */
  lemma SchemaStatement(target: string, query: string, schema: seq<string>, keys: seq<string>, parts: seq<string>)
    ensures var built := SchemaMerge(target, query, schema, keys, parts);
      var values := NonKeys(schema, keys);
      && (built.Statement? <==>
            && target != "" && query != "" && keys != []
            && forall c :: Mentioned(schema, keys, parts, c) ==> Trim(c) != "")
      && (built.Statement? ==> built.merge == Merge(
            target, query, Trimmed(keys),
            Some(Clause(Trimmed(UpdateColumns(keys, values, parts)), None)),
            Some(Clause(Trimmed(InsertColumns(keys, values, parts)), None))))
  {
    if keys != [] {
      ColumnLists(schema, keys, parts);
    }
  }

  lemma {:induction false} NothingToDrop(names: seq<string>, drop: set<string>)
    requires forall name :: name in names ==> name !in drop
    ensures Without(names, drop) == names
  {
    if names != [] {
      NothingToDrop(names[..|names| - 1], drop);
    }
  }

  lemma {:induction false} InsertedIsUnmatched(merge: Merge, target: seq<Row>, source: seq<Row>, columns: set<string>,
                                               holds: (string, Row, Row) -> bool)
    requires FitsAll(source, columns) && merge.insert.Some? && merge.insert.value.condition.None?
    requires forall c :: c in columns ==> c in merge.insert.value.columns
    ensures Inserted(merge, target, source, columns, holds) == Unmatched(merge.on, target, source)
  {
    if source != [] {
      InsertedIsUnmatched(merge, target, source[1..], columns, holds);
      assert source[0].Keys == columns;
      assert NewRow(source[0], merge.insert.value.columns, columns) == source[0];
    }
  }

  /** A statement that assigns or matches every column, and inserts every column, is an upsert. */
  lemma CoveringMergeIsUpsert(merge: Merge, columns: set<string>, target: seq<Row>, source: seq<Row>,
                              holds: (string, Row, Row) -> bool)
    requires FitsAll(target, columns) && FitsAll(source, columns)
    requires merge.update.Some? && merge.update.value.condition.None?
    requires merge.insert.Some? && merge.insert.value.condition.None?
    requires forall c :: c in columns ==> c in merge.insert.value.columns
    requires forall c :: c in columns ==> c in merge.update.value.columns || c in merge.on
    ensures UpdatedAll(merge, target, source, holds) + Inserted(merge, target, source, columns, holds)
         == Upsert(merge.on, target, source)
  {
    forall i | 0 <= i < |target|
      ensures Updated(merge, target[i], source, holds) == Overridden(merge.on, target[i], source)
    {
      assert target[i] in target;
      UpdatedIsOverridden(merge, columns, target[i], source, holds);
    }
    assert UpdatedAll(merge, target, source, holds) == OverriddenAll(merge.on, target, source);
    InsertedIsUnmatched(merge, target, source, columns, holds);
  }

  lemma UpdatedIsOverridden(merge: Merge, columns: set<string>, t: Row, source: seq<Row>,
                            holds: (string, Row, Row) -> bool)
    requires t.Keys == columns && FitsAll(source, columns)
    requires merge.update.Some? && merge.update.value.condition.None?
    requires forall c :: c in columns ==> c in merge.update.value.columns || c in merge.on
    ensures Updated(merge, t, source, holds) == Overridden(merge.on, t, source)
  {
    var found := Matching(merge.on, t, source);
    if found != [] {
      assert found[0] in found;
      assert Assign(t, found[0], merge.update.value.columns) == found[0];
    }
  }

  /**
   * Whatever the schema, keys, partitions and tables are: what running the generated statement gives. Names
   * are trimmed when they are written, so a name with space around it stands for a column that is not there,
   * or for one that is mentioned already.
   */
  lemma GeneratedMergeIsUpsert(name: string, query: string, schema: seq<string>, keys: seq<string>,
                               parts: seq<string>, target: seq<Row>, source: seq<Row>,
                               holds: (string, Row, Row) -> bool)
    requires SchemaMerge(name, query, schema, keys, parts).Statement?
    requires FitsAll(target, ToSet(schema)) && FitsAll(source, ToSet(schema))
    ensures Execute(SchemaMerge(name, query, schema, keys, parts).merge, ToSet(schema), target, source, holds)
         == if exists c :: Mentioned(schema, keys, parts, c) && Trim(c) !in schema then Rejected(UnknownColumn)
            else if RepeatsColumn(schema, keys, parts) then Rejected(RepeatedColumn)
            else if Ambiguous(keys, target, source) then Rejected(ManyMatches)
            else Done(Upsert(keys, target, source))
  {
    SchemaStatement(name, query, schema, keys, parts);
    ColumnLists(schema, keys, parts);
    var merge := SchemaMerge(name, query, schema, keys, parts).merge;
    WhenResolved(merge, schema, keys, parts);
    if forall c :: Mentioned(schema, keys, parts, c) ==> Trim(c) in schema {
      if c :| Mentioned(schema, keys, parts, c) && !IsPlain(c) {
        SpacedNameRepeats(schema, keys, parts, c);
      } else {
        AllMentionedPlain(schema, keys, parts);
        WithoutIs(schema, ToSet(keys));
        WhenAccepted(merge, schema, keys, parts);
        CoveringMergeIsUpsert(merge, ToSet(schema), target, source, holds);
      }
    }
  }

  /** A value column stands twice in the schema, or a mentioned name has space around it. */
  ghost predicate RepeatsColumn(schema: seq<string>, keys: seq<string>, parts: seq<string>) {
    !Distinct(NonKeys(schema, keys)) || exists c :: Mentioned(schema, keys, parts, c) && !IsPlain(c)
  }

  lemma TrimmedHolds(names: seq<string>)
    ensures forall c :: c in names ==> Trim(c) in Trimmed(names)
    ensures forall t :: t in Trimmed(names) ==> exists c :: c in names && Trim(c) == t
  {
    forall c | c in names
      ensures Trim(c) in Trimmed(names)
    {
      var i :| 0 <= i < |names| && names[i] == c;
      assert Trimmed(names)[i] == Trim(c);
    }
    forall t | t in Trimmed(names)
      ensures exists c :: c in names && Trim(c) == t
    {
      var i :| 0 <= i < |names| && Trimmed(names)[i] == t;
      assert names[i] in names;
    }
  }

  lemma WhenResolved(merge: Merge, schema: seq<string>, keys: seq<string>, parts: seq<string>)
    requires keys != []
    requires var values := NonKeys(schema, keys);
      && merge.on == Trimmed(keys)
      && merge.update == Some(Clause(Trimmed(UpdateColumns(keys, values, parts)), None))
      && merge.insert == Some(Clause(Trimmed(InsertColumns(keys, values, parts)), None))
    ensures (ToSet(merge.on) <= ToSet(schema) && Resolves(merge.update, ToSet(schema))
             && Resolves(merge.insert, ToSet(schema)))
      <==> forall c :: Mentioned(schema, keys, parts, c) ==> Trim(c) in schema
  {
    var values := NonKeys(schema, keys);
    ColumnLists(schema, keys, parts);
    WithoutIs(schema, ToSet(keys));
    TrimmedHolds(keys);
    TrimmedHolds(UpdateColumns(keys, values, parts));
    TrimmedHolds(InsertColumns(keys, values, parts));
    if Resolves(merge.insert, ToSet(schema)) {
      forall c | Mentioned(schema, keys, parts, c)
        ensures Trim(c) in schema
      {
        assert c in InsertColumns(keys, values, parts);
      }
    }
  }

  lemma AllMentionedPlain(schema: seq<string>, keys: seq<string>, parts: seq<string>)
    requires keys != [] && forall c :: Mentioned(schema, keys, parts, c) ==> IsPlain(c)
    ensures var values := NonKeys(schema, keys);
      && Trimmed(keys) == keys
      && Trimmed(UpdateColumns(keys, values, parts)) == UpdateColumns(keys, values, parts)
      && Trimmed(InsertColumns(keys, values, parts)) == InsertColumns(keys, values, parts)
      && forall c :: Mentioned(schema, keys, parts, c) ==> Trim(c) == c
  {
    var values := NonKeys(schema, keys);
    ColumnLists(schema, keys, parts);
    WithoutIs(schema, ToSet(keys));
    PlainStays(keys);
    PlainStays(UpdateColumns(keys, values, parts));
    PlainStays(InsertColumns(keys, values, parts));
  }

  /** A mentioned name with space around it writes a column that is mentioned without it as well. */
  lemma SpacedNameRepeats(schema: seq<string>, keys: seq<string>, parts: seq<string>, c: string)
    requires keys != [] && Mentioned(schema, keys, parts, c) && Trim(c) in schema && Trim(c) != c
    ensures !Distinct(Trimmed(InsertColumns(keys, NonKeys(schema, keys), parts)))
  {
    var insert := InsertColumns(keys, NonKeys(schema, keys), parts);
    ColumnLists(schema, keys, parts);
    WithoutIs(schema, ToSet(keys));
    TrimIsIdempotent(c);
    assert Mentioned(schema, keys, parts, Trim(c));
    var i :| 0 <= i < |insert| && insert[i] == c;
    var j :| 0 <= j < |insert| && insert[j] == Trim(c);
    assert Trimmed(insert)[i] == Trimmed(insert)[j];
  }

  lemma TrimIsIdempotent(name: string)
    ensures Trim(Trim(name)) == Trim(name)
  {
    StripEnds(name, IsSpace);
  }

  lemma WhenAccepted(merge: Merge, schema: seq<string>, keys: seq<string>, parts: seq<string>)
    requires merge.on == keys && merge.update.Some? && merge.insert.Some? && Distinct(merge.insert.value.columns)
    requires forall c :: c in merge.insert.value.columns <==> c in keys || c in NonKeys(schema, keys) || c in parts
    requires NonKeys(schema, keys) == [] ==>
      && Distinct(merge.update.value.columns)
      && forall c :: c in merge.update.value.columns <==> c in keys || c in parts
    requires NonKeys(schema, keys) != [] ==> merge.update.value.columns == NonKeys(schema, keys)
    ensures (ToSet(merge.on) <= ToSet(schema) && Resolves(merge.update, ToSet(schema))
             && Resolves(merge.insert, ToSet(schema)))
      <==> forall c :: c in keys || c in parts ==> c in schema
    ensures NoRepeats(merge.update) && NoRepeats(merge.insert) <==> Distinct(NonKeys(schema, keys))
  {
    WithoutIs(schema, ToSet(keys));
    if Resolves(merge.insert, ToSet(schema)) {
      forall c | c in keys || c in parts
        ensures c in schema
      {
        assert c in merge.insert.value.columns;
      }
    }
  }

  // Upserts.

  ghost predicate UniqueKeys(keys: seq<string>, rows: seq<Row>) {
    forall i, j :: 0 <= i < j < |rows| ==> !Matches(keys, rows[i], rows[j])
  }

  predicate Complete(keys: seq<string>, row: Row) {
    forall k :: k in keys ==> k in row && row[k] != Null
  }

  ghost predicate AllComplete(keys: seq<string>, rows: seq<Row>) {
    forall row :: row in rows ==> Complete(keys, row)
  }

  /** With unique source keys no statement is rejected for ambiguity. */
  lemma UniqueIsUnambiguous(keys: seq<string>, target: seq<Row>, source: seq<Row>)
    requires UniqueKeys(keys, source)
    ensures !Ambiguous(keys, target, source)
  {
    if t, i, j :| 0 <= i < j < |source| && t in target && Matches(keys, t, source[i]) && Matches(keys, t, source[j]) {
      assert Matches(keys, source[i], source[j]);
    }
  }

  lemma OnlyMatch(keys: seq<string>, t: Row, source: seq<Row>, s: Row)
    requires UniqueKeys(keys, source) && s in source && Matches(keys, t, s)
    ensures Overridden(keys, t, source) == s
  {
    var found := Matching(keys, t, source);
    assert s in found && found[0] in found;
    var i :| 0 <= i < |source| && source[i] == s;
    var j :| 0 <= j < |source| && source[j] == found[0];
    assert Matches(keys, source[i], source[j]) && Matches(keys, source[j], source[i]);
  }

  /** The row of the result that stands at, or comes from, each place. */
  lemma UpsertRows(keys: seq<string>, target: seq<Row>, source: seq<Row>)
    ensures forall row :: row in Upsert(keys, target, source) <==>
      || (exists t :: t in target && row == Overridden(keys, t, source))
      || (row in source && !IsMatched(keys, target, row))
  {
    var result := Upsert(keys, target, source);
    forall t | t in target
      ensures Overridden(keys, t, source) in result
    {
      var i :| 0 <= i < |target| && target[i] == t;
      assert result[i] == Overridden(keys, t, source);
    }
    forall row | row in Unmatched(keys, target, source)
      ensures row in result
    {
    }
    forall row | row in result
      ensures (exists t :: t in target && row == Overridden(keys, t, source))
           || (row in source && !IsMatched(keys, target, row))
    {
      var i :| 0 <= i < |result| && result[i] == row;
      if i < |target| {
        assert target[i] in target;
      } else {
        assert row in Unmatched(keys, target, source);
      }
    }
  }

  /** After the merge every complete source row is matched, by itself. */
  lemma EveryCompleteRowIsIn(keys: seq<string>, target: seq<Row>, source: seq<Row>, s: Row)
    requires UniqueKeys(keys, source) && s in source && Complete(keys, s)
    ensures s in Upsert(keys, target, source) && IsMatched(keys, Upsert(keys, target, source), s)
  {
    UpsertRows(keys, target, source);
    if IsMatched(keys, target, s) {
      var t :| t in target && Matches(keys, t, s);
      OnlyMatch(keys, t, source, s);
    }
    assert Matches(keys, s, s);
  }

  lemma {:induction false} UnmatchedIsEmptyIff(keys: seq<string>, target: seq<Row>, source: seq<Row>)
    ensures Unmatched(keys, target, source) == [] <==> forall s :: s in source ==> IsMatched(keys, target, s)
  {
    if source != [] {
      UnmatchedIsEmptyIff(keys, target, source[1..]);
      assert source == [source[0]] + source[1..];
    }
  }

  /** Overriding a row that already went through the merge changes nothing. */
  lemma OverriddenStays(keys: seq<string>, target: seq<Row>, source: seq<Row>, row: Row)
    requires UniqueKeys(keys, source) && row in Upsert(keys, target, source)
    ensures Overridden(keys, row, source) == row
  {
    UpsertRows(keys, target, source);
    var found := Matching(keys, row, source);
    if row !in source {
      var t :| t in target && row == Overridden(keys, t, source);
      assert Matching(keys, t, source) == [];
    } else if found != [] {
      assert found[0] in found;
      assert Matches(keys, row, row);
      OnlyMatch(keys, row, source, row);
    }
  }

  lemma SecondRunOnlyInserts(keys: seq<string>, target: seq<Row>, source: seq<Row>)
    requires UniqueKeys(keys, source)
    ensures var once := Upsert(keys, target, source);
      Upsert(keys, once, source) == once + Unmatched(keys, once, source)
  {
    var once := Upsert(keys, target, source);
    forall i | 0 <= i < |once|
      ensures Overridden(keys, once[i], source) == once[i]
    {
      assert once[i] in once;
      OverriddenStays(keys, target, source, once[i]);
    }
    assert OverriddenAll(keys, once, source) == once;
  }

  /** Running the merge twice is running it once, exactly when no source key has a null. */
  lemma {:induction false} IdempotentIffComplete(keys: seq<string>, target: seq<Row>, source: seq<Row>)
    requires UniqueKeys(keys, source)
    ensures Upsert(keys, Upsert(keys, target, source), source) == Upsert(keys, target, source)
      <==> AllComplete(keys, source)
  {
    var once := Upsert(keys, target, source);
    SecondRunOnlyInserts(keys, target, source);
    UnmatchedIsEmptyIff(keys, once, source);
    forall s | s in source
      ensures IsMatched(keys, once, s) <==> Complete(keys, s)
    {
      if Complete(keys, s) {
        EveryCompleteRowIsIn(keys, target, source, s);
      }
    }
  }

  /** Two source rows of one key are both inserted when no target row matches them, and both match next time. */
  lemma SecondRunIsAmbiguousIff(keys: seq<string>, target: seq<Row>, source: seq<Row>)
    requires !Ambiguous(keys, target, source)
    ensures Ambiguous(keys, Upsert(keys, target, source), source) <==> !UniqueKeys(keys, source)
  {
    if UniqueKeys(keys, source) {
      UniqueIsUnambiguous(keys, Upsert(keys, target, source), source);
    } else {
      var i, j :| 0 <= i < j < |source| && Matches(keys, source[i], source[j]);
      if t :| t in target && Matches(keys, t, source[i]) {
        assert Matches(keys, t, source[j]);
      }
      UpsertRows(keys, target, source);
      assert source[i] in source && Matches(keys, source[i], source[i]);
    }
  }

  lemma UpsertFits(keys: seq<string>, target: seq<Row>, source: seq<Row>, columns: set<string>)
    requires FitsAll(target, columns) && FitsAll(source, columns)
    ensures FitsAll(Upsert(keys, target, source), columns)
  {
    UpsertRows(keys, target, source);
    forall t | t in target
      ensures Overridden(keys, t, source).Keys == columns
    {
      assert Matching(keys, t, source) == [] ==> Overridden(keys, t, source) == t;
    }
  }

  /**
   * Running the generated statement a second time: after a first run that was accepted, the second one gives
   * the same table exactly when the source has unique keys without nulls, and is rejected exactly when two
   * source rows share a key.
   */
  lemma RunningTwice(name: string, query: string, schema: seq<string>, keys: seq<string>, parts: seq<string>,
                     target: seq<Row>, source: seq<Row>, holds: (string, Row, Row) -> bool)
    requires SchemaMerge(name, query, schema, keys, parts).Statement?
    requires FitsAll(target, ToSet(schema)) && FitsAll(source, ToSet(schema))
    ensures var merge := SchemaMerge(name, query, schema, keys, parts).merge;
      var once := Execute(merge, ToSet(schema), target, source, holds);
      once.Done? ==>
        var twice := Execute(merge, ToSet(schema), once.rows, source, holds);
        && (twice == once <==> UniqueKeys(keys, source) && AllComplete(keys, source))
        && (twice.Rejected? <==> !UniqueKeys(keys, source))
  {
    GeneratedMergeIsUpsert(name, query, schema, keys, parts, target, source, holds);
    var merge := SchemaMerge(name, query, schema, keys, parts).merge;
    if Execute(merge, ToSet(schema), target, source, holds).Done? {
      var once := Upsert(keys, target, source);
      UpsertFits(keys, target, source, ToSet(schema));
      GeneratedMergeIsUpsert(name, query, schema, keys, parts, once, source, holds);
      SecondRunIsAmbiguousIff(keys, target, source);
      if UniqueKeys(keys, source) {
        IdempotentIffComplete(keys, target, source);
      }
    }
  }

  // The upsert as an overriding of maps.

  function KeyOf(keys: seq<string>, row: Row): seq<Value>
    requires Complete(keys, row)
  {
    seq(|keys|, i requires 0 <= i < |keys| => assert keys[i] in keys; row[keys[i]])
  }

  lemma MatchesIffSameKey(keys: seq<string>, t: Row, s: Row)
    requires Complete(keys, t) && Complete(keys, s)
    ensures Matches(keys, t, s) <==> KeyOf(keys, t) == KeyOf(keys, s)
  {
    forall k | k in keys
      ensures KeyOf(keys, t) == KeyOf(keys, s) ==> t[k] == s[k]
    {
      var i :| 0 <= i < |keys| && keys[i] == k;
      assert KeyOf(keys, t)[i] == t[k] && KeyOf(keys, s)[i] == s[k];
    }
  }

  /** A table with unique complete keys, as a map. */
  ghost predicate IsKeyed(keys: seq<string>, rows: seq<Row>, table: map<seq<Value>, Row>) {
    && AllComplete(keys, rows) && UniqueKeys(keys, rows)
    && (forall row :: row in rows ==> KeyOf(keys, row) in table && table[KeyOf(keys, row)] == row)
    && (forall key :: key in table ==> table[key] in rows && KeyOf(keys, table[key]) == key)
  }

  /** On keyed tables the merge is the right-biased union of the two. */
  lemma UpsertIsOverride(keys: seq<string>, target: seq<Row>, source: seq<Row>,
                         before: map<seq<Value>, Row>, changes: map<seq<Value>, Row>)
    requires IsKeyed(keys, target, before) && IsKeyed(keys, source, changes)
    ensures IsKeyed(keys, Upsert(keys, target, source), before + changes)
  {
    var result := Upsert(keys, target, source);
    forall row | row in result
      ensures Complete(keys, row)
      ensures KeyOf(keys, row) in before + changes && (before + changes)[KeyOf(keys, row)] == row
    {
      UpsertRowIsInUnion(keys, target, source, before, changes, row);
    }
    forall key | key in before + changes
      ensures (before + changes)[key] in result && KeyOf(keys, (before + changes)[key]) == key
    {
      UnionIsInUpsert(keys, target, source, before, changes, key);
    }
    UpsertIsUnique(keys, target, source, before, changes);
  }

  lemma UpsertRowIsInUnion(keys: seq<string>, target: seq<Row>, source: seq<Row>,
                           before: map<seq<Value>, Row>, changes: map<seq<Value>, Row>, row: Row)
    requires IsKeyed(keys, target, before) && IsKeyed(keys, source, changes)
    requires row in Upsert(keys, target, source)
    ensures Complete(keys, row)
    ensures KeyOf(keys, row) in before + changes && (before + changes)[KeyOf(keys, row)] == row
  {
    UpsertRows(keys, target, source);
    if t :| t in target && row == Overridden(keys, t, source) {
      OverriddenIs(keys, t, source, changes);
    }
  }

  lemma UnionIsInUpsert(keys: seq<string>, target: seq<Row>, source: seq<Row>,
                        before: map<seq<Value>, Row>, changes: map<seq<Value>, Row>, key: seq<Value>)
    requires IsKeyed(keys, target, before) && IsKeyed(keys, source, changes)
    requires key in before + changes
    ensures (before + changes)[key] in Upsert(keys, target, source) && Complete(keys, (before + changes)[key])
    ensures KeyOf(keys, (before + changes)[key]) == key
  {
    UpsertRows(keys, target, source);
    if key in changes {
      EveryCompleteRowIsIn(keys, target, source, changes[key]);
    } else {
      OverriddenIs(keys, before[key], source, changes);
    }
  }

  lemma OverriddenIs(keys: seq<string>, t: Row, source: seq<Row>, changes: map<seq<Value>, Row>)
    requires Complete(keys, t) && IsKeyed(keys, source, changes)
    ensures var row, key := Overridden(keys, t, source), KeyOf(keys, t);
      Complete(keys, row) && KeyOf(keys, row) == key && row == if key in changes then changes[key] else t
  {
    var found := Matching(keys, t, source);
    if KeyOf(keys, t) in changes {
      var s := changes[KeyOf(keys, t)];
      MatchesIffSameKey(keys, t, s);
      OnlyMatch(keys, t, source, s);
    } else if found != [] {
      assert found[0] in found;
      MatchesIffSameKey(keys, t, found[0]);
    }
  }

  lemma UpsertIsUnique(keys: seq<string>, target: seq<Row>, source: seq<Row>,
                       before: map<seq<Value>, Row>, changes: map<seq<Value>, Row>)
    requires IsKeyed(keys, target, before) && IsKeyed(keys, source, changes)
    ensures UniqueKeys(keys, Upsert(keys, target, source))
  {
    var overridden, news := OverriddenAll(keys, target, source), Unmatched(keys, target, source);
    forall i, j | 0 <= i < j < |target|
      ensures !Matches(keys, overridden[i], overridden[j])
    {
      KeyIsKept(keys, target, source, changes, i);
      KeyIsKept(keys, target, source, changes, j);
      MatchesIffSameKey(keys, target[i], target[j]);
      MatchesIffSameKey(keys, overridden[i], overridden[j]);
    }
    forall i, s | 0 <= i < |target| && s in news
      ensures !Matches(keys, overridden[i], s)
    {
      KeyIsKept(keys, target, source, changes, i);
      MatchesIffSameKey(keys, target[i], s);
      MatchesIffSameKey(keys, overridden[i], s);
    }
    UnmatchedIsUnique(keys, target, source);
    UniqueTogether(keys, overridden, news);
  }

  lemma KeyIsKept(keys: seq<string>, target: seq<Row>, source: seq<Row>, changes: map<seq<Value>, Row>, i: nat)
    requires AllComplete(keys, target) && IsKeyed(keys, source, changes) && i < |target|
    ensures target[i] in target && Complete(keys, target[i]) && Complete(keys, OverriddenAll(keys, target, source)[i])
    ensures KeyOf(keys, OverriddenAll(keys, target, source)[i]) == KeyOf(keys, target[i])
  {
    assert target[i] in target;
    OverriddenIs(keys, target[i], source, changes);
  }

  lemma UniqueTogether(keys: seq<string>, a: seq<Row>, b: seq<Row>)
    requires UniqueKeys(keys, a) && UniqueKeys(keys, b)
    requires forall i, s :: 0 <= i < |a| && s in b ==> !Matches(keys, a[i], s)
    ensures UniqueKeys(keys, a + b)
  {
    forall i, j | 0 <= i < j < |a + b|
      ensures !Matches(keys, (a + b)[i], (a + b)[j])
    {
      if i < |a| <= j {
        assert (a + b)[j] in b;
      }
    }
  }

  lemma {:induction false} UnmatchedIsUnique(keys: seq<string>, target: seq<Row>, source: seq<Row>)
    requires UniqueKeys(keys, source)
    ensures UniqueKeys(keys, Unmatched(keys, target, source))
  {
    if source != [] {
      var rest := Unmatched(keys, target, source[1..]);
      TailIsUnique(keys, source);
      UnmatchedIsUnique(keys, target, source[1..]);
      UniqueTogether(keys, [source[0]], rest);
      assert [] + rest == rest;
    }
  }

  lemma TailIsUnique(keys: seq<string>, source: seq<Row>)
    requires source != [] && UniqueKeys(keys, source)
    ensures UniqueKeys(keys, source[1..])
    ensures forall s :: s in source[1..] ==> !Matches(keys, source[0], s)
  {
    forall s | s in source[1..]
      ensures !Matches(keys, source[0], s)
    {
      var k :| 0 <= k < |source[1..]| && source[1..][k] == s;
      assert !Matches(keys, source[0], source[k + 1]);
    }
  }

  /** Without value columns other than keys, and with inserting off, the generator makes a statement with no clause. */
  lemma ClauseLessIff(target: string, query: string, keys: seq<string>, values: seq<string>, parts: seq<string>,
                      matched: bool, notMatched: bool, matchedIf: string, notMatchedIf: string)
    requires MergeOf(target, query, keys, values, parts, matched, notMatched, matchedIf, notMatchedIf).Statement?
    ensures var merge :=
      MergeOf(target, query, keys, values, parts, matched, notMatched, matchedIf, notMatchedIf).merge;
      (merge.update.None? && merge.insert.None?)
      <==> !notMatched && values != [] && forall c :: c in values ==> c in keys
  {
    WithoutIs(values, ToSet(keys));
    FreshIsDistinct(parts + keys, {});
    FreshIsDistinct(keys + UpdateColumns(keys, values, parts) + parts, {});
    assert keys[0] in keys && keys[0] in InsertColumns(keys, values, parts);
    if values == [] {
      assert keys[0] in UpdateColumns(keys, values, parts);
    }
    var without := Without(values, ToSet(keys));
    assert without != [] ==> without[0] in without;
  }

  /** Exactly the statements without a clause are rejected for that; a statement with one clause is run. */
  lemma ClauselessIsRejected(target: string, query: string, keys: seq<string>, values: seq<string>,
                             parts: seq<string>, matched: bool, notMatched: bool, matchedIf: string,
                             notMatchedIf: string, columns: set<string>, rows: seq<Row>, source: seq<Row>,
                             holds: (string, Row, Row) -> bool)
    requires MergeOf(target, query, keys, values, parts, matched, notMatched, matchedIf, notMatchedIf).Statement?
    ensures var merge :=
      MergeOf(target, query, keys, values, parts, matched, notMatched, matchedIf, notMatchedIf).merge;
      Execute(merge, columns, rows, source, holds) == Rejected(NoClause)
      <==> !notMatched && values != [] && forall c :: c in values ==> c in keys
  {
    ClauseLessIff(target, query, keys, values, parts, matched, notMatched, matchedIf, notMatchedIf);
  }

  /** The shortest such call: one key, given as the only value. */
  lemma KeyAsOnlyValue(target: string, query: string, key: string)
    requires target != "" && query != "" && Trim(key) != ""
    ensures MergeOf(target, query, [key], [key], [], true, false, "", "")
         == Statement(Merge(target, query, [Trim(key)], None, None))
  {
    assert [key][..0] == [] && Without([key], ToSet([key])) == [];
    assert Trimmed([key]) == [Trim(key)];
  }
}

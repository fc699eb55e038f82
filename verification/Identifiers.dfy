/** Identifier cleaning, column name encoding and the registry of table names. */
module Identifiers {
  import opened Text

  // Cleaning one segment.

  predicate IsAlnum(c: char) {
    'a' <= c <= 'z' || 'A' <= c <= 'Z' || '0' <= c <= '9'
  }

  /**
   * Lower case. Outside ASCII only the Kelvin sign and the dotted capital I have a lower case form with
   * ASCII letters in it; every other character stays outside ASCII, where it is a separator anyway.
   */
  function LowerChar(c: char): string {
    if 'A' <= c <= 'Z' then [(c as int - 'A' as int + 'a' as int) as char]
    else if c == '\U{212a}' then "k"
    else if c == '\U{0130}' then "i\U{0307}"
    else [c]
  }

  function Lower(s: string): string {
    if s == [] then [] else LowerChar(s[0]) + Lower(s[1..])
  }

  function SkipSeparators(s: string): (rest: string)
    ensures |rest| <= |s| && (rest != [] ==> IsAlnum(rest[0]))
  {
    if s == [] || IsAlnum(s[0]) then s else SkipSeparators(s[1..])
  }

  /** Every maximal run of characters that are not ASCII letters or digits becomes one underscore. */
  function ReplaceRuns(s: string): string
    decreases |s|
  {
    if s == [] then []
    else if IsAlnum(s[0]) then [s[0]] + ReplaceRuns(s[1..])
    else "_" + ReplaceRuns(SkipSeparators(s[1..]))
  }

  predicate IsUnderscore(c: char) {
    c == '_'
  }

  function Sanitize(value: string): string {
    var cleaned := Strip(ReplaceRuns(Lower(Strip(value, IsSpace))), IsUnderscore);
    if cleaned == [] then "value" else cleaned
  }

  predicate IsLowerAlnum(c: char) {
    'a' <= c <= 'z' || '0' <= c <= '9'
  }

  /** Lower-case letters and digits with single underscores between them. */
  predicate Spaced(s: string) {
    && (forall i :: 0 <= i < |s| ==> IsLowerAlnum(s[i]) || s[i] == '_')
    && (forall i :: 0 <= i < |s| - 1 ==> s[i] != '_' || s[i + 1] != '_')
  }

  /** A clean identifier: not empty, and no underscore at either end. */
  predicate Clean(s: string) {
    s != [] && Spaced(s) && s[0] != '_' && s[|s| - 1] != '_'
  }

  lemma {:induction false} LowerHasNoCapitals(s: string)
    ensures forall i :: 0 <= i < |Lower(s)| ==> !('A' <= Lower(s)[i] <= 'Z')
  {
    if s != [] {
      LowerHasNoCapitals(s[1..]);
    }
  }

  lemma {:induction false} SkipIsSuffix(s: string)
    ensures exists k :: 0 <= k <= |s| && SkipSeparators(s) == s[k..]
  {
    if s == [] || IsAlnum(s[0]) {
      assert s[0..] == s;
    } else {
      SkipIsSuffix(s[1..]);
      var k :| 0 <= k <= |s| - 1 && SkipSeparators(s[1..]) == s[1..][k..];
      assert s[1..][k..] == s[k + 1..];
    }
  }

  lemma {:induction false} ReplaceRunsIsSpaced(s: string)
    requires forall i :: 0 <= i < |s| ==> !('A' <= s[i] <= 'Z')
    ensures Spaced(ReplaceRuns(s))
    ensures s != [] && IsAlnum(s[0]) ==> ReplaceRuns(s) != [] && ReplaceRuns(s)[0] != '_'
    decreases |s|
  {
    if s == [] {
    } else if IsAlnum(s[0]) {
      ReplaceRunsIsSpaced(s[1..]);
    } else {
      var rest := SkipSeparators(s[1..]);
      SkipIsSuffix(s[1..]);
      ReplaceRunsIsSpaced(rest);
      assert rest == [] ==> ReplaceRuns(rest) == [];
    }
  }

  lemma {:induction false} StripLeftOfSpaced(s: string)
    requires Spaced(s)
    ensures var r := StripLeft(s, IsUnderscore); Spaced(r) && (r != [] ==> r[0] != '_')
  {
    if s != [] && s[0] == '_' {
      StripLeftOfSpaced(s[1..]);
    }
  }

  lemma {:induction false} StripRightOfSpaced(s: string)
    requires Spaced(s) && (s != [] ==> s[0] != '_')
    ensures var r := StripRight(s, IsUnderscore); r == [] || Clean(r)
  {
    if s != [] && s[|s| - 1] == '_' {
      StripRightOfSpaced(s[..|s| - 1]);
    }
  }

  /** Whatever the input, the result is a clean identifier. */
  lemma SanitizeIsClean(value: string)
    ensures Clean(Sanitize(value))
  {
    var lowered := Lower(Strip(value, IsSpace));
    LowerHasNoCapitals(Strip(value, IsSpace));
    ReplaceRunsIsSpaced(lowered);
    StripLeftOfSpaced(ReplaceRuns(lowered));
    StripRightOfSpaced(StripLeft(ReplaceRuns(lowered), IsUnderscore));
  }

  lemma {:induction false} LowerOfClean(s: string)
    requires Spaced(s)
    ensures Lower(s) == s
  {
    if s != [] {
      LowerOfClean(s[1..]);
      assert s == [s[0]] + s[1..];
    }
  }

  lemma {:induction false} ReplaceRunsOfSpaced(s: string)
    requires Spaced(s)
    ensures ReplaceRuns(s) == s
    decreases |s|
  {
    if s != [] {
      assert s == [s[0]] + s[1..];
      ReplaceRunsOfSpaced(s[1..]);
      if s[0] == '_' && s[1..] != [] {
        assert IsLowerAlnum(s[1]);
        assert SkipSeparators(s[1..]) == s[1..];
      }
    }
  }

  /** Clean identifiers stay as they are. */
  lemma SanitizeKeepsClean(s: string)
    requires Clean(s)
    ensures Sanitize(s) == s
  {
    assert !IsSpace(s[0]) && !IsSpace(s[|s| - 1]);
    assert Strip(s, IsSpace) == s;
    LowerOfClean(s);
    ReplaceRunsOfSpaced(s);
  }

  lemma SanitizeIsIdempotent(value: string)
    ensures Sanitize(Sanitize(value)) == Sanitize(value)
  {
    SanitizeIsClean(value);
    SanitizeKeepsClean(Sanitize(value));
  }

  // Column names.

  function SanitizeAll(segments: seq<string>): (clean: seq<string>)
    ensures |clean| == |segments|
  {
    seq(|segments|, i requires 0 <= i < |segments| => Sanitize(segments[i]))
  }

  const SEPARATOR := "__"

  function ColumnName(segments: seq<string>): string {
    Join(SanitizeAll(segments), SEPARATOR)
  }

  /** `name.split("__")`. */
  function SplitName(s: string): (parts: seq<string>)
    ensures parts != []
    decreases |s|
  {
    if |s| < 2 then [s]
    else if s[0] == '_' && s[1] == '_' then [[]] + SplitName(s[2..])
    else
      var rest := SplitName(s[1..]);
      [[s[0]] + rest[0]] + rest[1..]
  }

  /** The rest of a clean identifier: no doubled underscore, none at the end. */
  predicate CleanTail(s: string) {
    s != [] && s[|s| - 1] != '_' && forall i :: 0 <= i < |s| - 1 ==> s[i] != '_' || s[i + 1] != '_'
  }

  lemma {:induction false} SplitLastPart(s: string)
    requires CleanTail(s)
    ensures SplitName(s) == [s]
  {
    if |s| >= 2 {
      assert CleanTail(s[1..]);
      SplitLastPart(s[1..]);
      assert s == [s[0]] + s[1..];
    }
  }

  lemma {:induction false} SplitFirstPart(head: string, tail: string)
    requires CleanTail(head)
    ensures SplitName(head + SEPARATOR + tail) == [head] + SplitName(tail)
  {
    var s := head + SEPARATOR + tail;
    if |head| == 1 {
      assert s[1..] == SEPARATOR + tail && s[1..][2..] == tail;
      var rest := SplitName(s[1..]);
      assert rest == [[]] + SplitName(tail);
      assert SplitName(s) == [[s[0]] + rest[0]] + rest[1..];
      assert [s[0]] + rest[0] == head && rest[1..] == SplitName(tail);
    } else {
      assert CleanTail(head[1..]);
      SplitFirstPart(head[1..], tail);
      assert s[1..] == head[1..] + SEPARATOR + tail;
      assert s[0] == head[0] && s[1] == head[1];
      assert head == [head[0]] + head[1..];
    }
  }

  lemma {:induction false} SplitJoined(parts: seq<string>)
    requires parts != [] && forall p :: p in parts ==> Clean(p)
    ensures SplitName(Join(parts, SEPARATOR)) == parts
  {
    assert Clean(parts[0]);
    if |parts| == 1 {
      SplitLastPart(parts[0]);
    } else {
      SplitJoined(parts[1..]);
      SplitFirstPart(parts[0], Join(parts[1..], SEPARATOR));
      assert parts == [parts[0]] + parts[1..];
    }
  }

  /** Splitting a column name at double underscores gives back the cleaned segments. */
  lemma SplitUndoesColumnName(segments: seq<string>)
    requires segments != []
    ensures SplitName(ColumnName(segments)) == SanitizeAll(segments)
  {
    var clean := SanitizeAll(segments);
    forall p | p in clean
      ensures Clean(p)
    {
      var i :| 0 <= i < |clean| && clean[i] == p;
      SanitizeIsClean(segments[i]);
    }
    SplitJoined(clean);
  }

  /** Column names do not start with an underscore, so none is `_row_id`, `_parent_row_id` or `_array_index`. */
  lemma ColumnNameIsNotReserved(segments: seq<string>)
    requires segments != []
    ensures ColumnName(segments) != [] && ColumnName(segments)[0] != '_'
  {
    SanitizeIsClean(segments[0]);
  }

  // Table names.

  datatype Naming = Naming(maxIdentifierLength: int, separator: string, digest: string -> string)

  datatype NameResult =
    | Named(name: string)
    | LengthInvalid
    | NameCollision(logicalPath: string, candidate: string)

  type Registry = map<string, string>

  function BaseName(naming: Naming, segments: seq<string>): string {
    Join(SanitizeAll(segments), naming.separator)
  }

  function Take(s: string, n: int): string {
    if n <= 0 then [] else if n >= |s| then s else s[..n]
  }

  /** The shortened name that carries the first eight digits of the digest of the logical path. */
  function HashedName(naming: Naming, base: string, logicalPath: string): string {
    var suffix := naming.separator + Take(naming.digest(logicalPath), 8);
    StripRight(Take(base, naming.maxIdentifierLength - |suffix|), IsUnderscore) + suffix
  }

  predicate Free(registry: Registry, name: string, logicalPath: string) {
    name !in registry || registry[name] == logicalPath
  }

  /** The answer to one request for a table name. */
  function TableName(naming: Naming, registry: Registry, segments: seq<string>, logicalPath: string): NameResult {
    var base := BaseName(naming, segments);
    if |base| <= naming.maxIdentifierLength && Free(registry, base, logicalPath) then Named(base)
    else if naming.maxIdentifierLength - |naming.separator + Take(naming.digest(logicalPath), 8)| <= 0 then
      LengthInvalid
    else if Free(registry, HashedName(naming, base, logicalPath), logicalPath) then
      Named(HashedName(naming, base, logicalPath))
    else NameCollision(logicalPath, HashedName(naming, base, logicalPath))
  }

  function Register(registry: Registry, result: NameResult, logicalPath: string): Registry {
    if result.Named? then registry[result.name := logicalPath] else registry
  }

  lemma ShortBaseName(naming: Naming, segments: seq<string>)
    ensures |segments| == 1 ==> BaseName(naming, segments) == Sanitize(segments[0])
    ensures |segments| == 2 ==>
              BaseName(naming, segments) == Sanitize(segments[0]) + naming.separator + Sanitize(segments[1])
  {
    var clean := SanitizeAll(segments);
    if |segments| == 2 {
      assert Join(clean[1..], naming.separator) == clean[1];
    }
  }

  class IdentifierPolicy {
    const naming: Naming
    var registry: Registry

    constructor (naming: Naming)
      ensures this.naming == naming && registry == map[]
    {
      this.naming := naming;
      registry := map[];
    }

    method MakeTableName(segments: seq<string>, logicalPath: string) returns (result: NameResult)
      modifies this
      ensures result == TableName(naming, old(registry), segments, logicalPath)
      ensures registry == Register(old(registry), result, logicalPath)
      // A name that fits and is free is the cleaned segments with the separator between them.
      ensures |segments| == 1 ==>
                var name := Sanitize(segments[0]);
                |name| <= naming.maxIdentifierLength && name !in old(registry) ==> result == Named(name)
      ensures |segments| == 2 ==>
                var name := Sanitize(segments[0]) + naming.separator + Sanitize(segments[1]);
                |name| <= naming.maxIdentifierLength && name !in old(registry) ==> result == Named(name)
    {
      ShortBaseName(naming, segments);
      var baseName := BaseName(naming, segments);
      if |baseName| <= naming.maxIdentifierLength && (baseName !in registry || registry[baseName] == logicalPath) {
        registry := registry[baseName := logicalPath];
        return Named(baseName);
      }
      result := BuildHashedIdentifier(baseName, logicalPath);
    }

    method BuildHashedIdentifier(baseName: string, logicalPath: string) returns (result: NameResult)
      modifies this
      ensures registry == Register(old(registry), result, logicalPath)
      ensures result ==
              if naming.maxIdentifierLength - |naming.separator + Take(naming.digest(logicalPath), 8)| <= 0 then
                LengthInvalid
              else if Free(old(registry), HashedName(naming, baseName, logicalPath), logicalPath) then
                Named(HashedName(naming, baseName, logicalPath))
              else NameCollision(logicalPath, HashedName(naming, baseName, logicalPath))
    {
      var suffix := naming.separator + Take(naming.digest(logicalPath), 8);
      var allowedPrefixLength := naming.maxIdentifierLength - |suffix|;
      if allowedPrefixLength <= 0 {
        return LengthInvalid;
      }
      var prefix := StripRight(Take(baseName, allowedPrefixLength), IsUnderscore);
      var candidate := prefix + suffix;
      if candidate in registry && registry[candidate] != logicalPath {
        return NameCollision(logicalPath, candidate);
      }
      registry := registry[candidate := logicalPath];
      return Named(candidate);
    }
  }

  // The registry over a sequence of requests.

  datatype Request = Request(segments: seq<string>, logicalPath: string)

  function After(naming: Naming, registry: Registry, requests: seq<Request>): Registry {
    if requests == [] then registry
    else
      var before := After(naming, registry, requests[..|requests| - 1]);
      var last := requests[|requests| - 1];
      Register(before, TableName(naming, before, last.segments, last.logicalPath), last.logicalPath)
  }

  function Answer(naming: Naming, requests: seq<Request>, i: nat): NameResult
    requires i < |requests|
  {
    TableName(naming, After(naming, map[], requests[..i]), requests[i].segments, requests[i].logicalPath)
  }

  lemma {:induction false} StripRightShortens(s: string, drop: char -> bool)
    ensures |StripRight(s, drop)| <= |s|
  {
    if s != [] && drop(s[|s| - 1]) {
      StripRightShortens(s[..|s| - 1], drop);
    }
  }

  lemma NameFits(naming: Naming, registry: Registry, segments: seq<string>, logicalPath: string)
    ensures var r := TableName(naming, registry, segments, logicalPath);
            r.Named? ==> |r.name| <= naming.maxIdentifierLength && Free(registry, r.name, logicalPath)
  {
    var suffix := naming.separator + Take(naming.digest(logicalPath), 8);
    StripRightShortens(Take(BaseName(naming, segments), naming.maxIdentifierLength - |suffix|), IsUnderscore);
  }

  /** Entries are never reassigned. */
  lemma {:induction false} EntriesStay(naming: Naming, requests: seq<Request>, i: nat, name: string)
    requires i <= |requests| && name in After(naming, map[], requests[..i])
    ensures name in After(naming, map[], requests)
    ensures After(naming, map[], requests)[name] == After(naming, map[], requests[..i])[name]
  {
    if i == |requests| {
      assert requests[..i] == requests;
    } else {
      var init, last := requests[..|requests| - 1], requests[|requests| - 1];
      assert init[..i] == requests[..i];
      EntriesStay(naming, init, i, name);
      NameFits(naming, After(naming, map[], init), last.segments, last.logicalPath);
    }
  }

  lemma AnswerIsRegistered(naming: Naming, requests: seq<Request>, i: nat)
    requires i < |requests| && Answer(naming, requests, i).Named?
    ensures var name := Answer(naming, requests, i).name;
            var registry := After(naming, map[], requests[..i + 1]);
            name in registry && registry[name] == requests[i].logicalPath
  {
    assert requests[..i + 1][..i] == requests[..i];
  }

  /** Requests with different logical paths never get the same name, whatever the digest collides on. */
  lemma NamesTellPathsApart(naming: Naming, requests: seq<Request>, i: nat, j: nat)
    requires i < j < |requests|
    requires Answer(naming, requests, i).Named? && Answer(naming, requests, j).Named?
    requires Answer(naming, requests, i).name == Answer(naming, requests, j).name
    ensures requests[i].logicalPath == requests[j].logicalPath
  {
    AnswerIsRegistered(naming, requests, i);
    assert requests[..j][..i + 1] == requests[..i + 1];
    EntriesStay(naming, requests[..j], i + 1, Answer(naming, requests, i).name);
    NameFits(naming, After(naming, map[], requests[..j]), requests[j].segments, requests[j].logicalPath);
  }

  /** Asking again, after any other requests, gives the same answer. */
  lemma {:induction false} RepeatingGivesTheSameAnswer(naming: Naming, requests: seq<Request>, i: nat, j: nat)
    requires i < j < |requests| && requests[i] == requests[j]
    ensures Answer(naming, requests, i) == Answer(naming, requests, j)
  {
    var before, later := After(naming, map[], requests[..i]), After(naming, map[], requests[..j]);
    assert requests[..j][..i] == requests[..i] && requests[..j][..i + 1] == requests[..i + 1];
    forall name | name in before
      ensures name in later && later[name] == before[name]
    {
      EntriesStay(naming, requests[..j], i, name);
    }
    if Answer(naming, requests, i).Named? {
      AnswerIsRegistered(naming, requests, i);
      EntriesStay(naming, requests[..j], i + 1, Answer(naming, requests, i).name);
    }
    AnswerIsStable(naming, before, later, requests[i].segments, requests[i].logicalPath);
  }

  lemma AnswerIsStable(naming: Naming, before: Registry, later: Registry, segments: seq<string>, path: string)
    requires forall name :: name in before ==> name in later && later[name] == before[name]
    requires var r := TableName(naming, before, segments, path); r.Named? ==> r.name in later && later[r.name] == path
    ensures TableName(naming, later, segments, path) == TableName(naming, before, segments, path)
  {
  }
}

/** The built-in uniqueness check and its back-search for the first row of a duplicated key. */
module Uniqueness {
  import opened Seqs

  /** Column values up to Python's equality. */
  datatype Value = Null | Atom(id: int)

  type Row = map<string, Value>

  /** A record is a dictionary or, by mistake, something else. */
  datatype Item = Dict(row: Row) | Other(value: Value)

  function Get(row: Row, column: string): Value {
    if column in row then row[column] else Null
  }

  function KeyOf(row: Row, columns: seq<string>): seq<Value> {
    seq(|columns|, i requires 0 <= i < |columns| => Get(row, columns[i]))
  }

  /** A record that has a key to compare: a dictionary with a value in some key column. */
  predicate Keyed(item: Item, columns: seq<string>) {
    item.Dict? && exists k :: 0 <= k < |columns| && Get(item.row, columns[k]) != Null
  }

  lemma SameKeySameKeyed(a: Row, b: Row, columns: seq<string>)
    requires KeyOf(a, columns) == KeyOf(b, columns)
    ensures Keyed(Dict(a), columns) == Keyed(Dict(b), columns)
  {
    assert forall k :: 0 <= k < |columns| ==> Get(a, columns[k]) == KeyOf(a, columns)[k];
    assert forall k :: 0 <= k < |columns| ==> Get(b, columns[k]) == KeyOf(b, columns)[k];
  }

  /** A violating record as it is reported. */
  function Reported(item: Item): Row {
    match item
    case Dict(row) => row
    case Other(value) => map["record" := value]
  }

  // What the check is for.

  predicate SameKey(a: Item, b: Item, columns: seq<string>) {
    Keyed(a, columns) && Keyed(b, columns) && KeyOf(a.row, columns) == KeyOf(b.row, columns)
  }

  ghost predicate Shares(records: seq<Item>, columns: seq<string>, n: nat, i: nat)
    requires i < n <= |records|
  {
    exists j :: 0 <= j < n && j != i && SameKey(records[j], records[i], columns)
  }

  /** Record `i` is at fault among the first `n`: it has no key, or shares it. */
  ghost predicate Violates(records: seq<Item>, columns: seq<string>, n: nat, i: nat)
    requires i < n <= |records|
  {
    !Keyed(records[i], columns) || Shares(records, columns, n, i)
  }

  ghost function Violating(records: seq<Item>, columns: seq<string>, n: nat): set<nat>
    requires n <= |records|
  {
    set i: nat | i < n && Violates(records, columns, n, i)
  }

  ghost function FaultyRows(records: seq<Item>, columns: seq<string>): set<Row> {
    set i | i in Violating(records, columns, |records|) :: Reported(records[i])
  }

  // What the loop does.

  /** The records among the first `n` that have this key. */
  ghost function Holders(records: seq<Item>, columns: seq<string>, key: seq<Value>, n: nat): set<nat>
    requires n <= |records|
  {
    set i: nat | i < n && Keyed(records[i], columns) && KeyOf(records[i].row, columns) == key
  }

  /** The back-search: the first record with the key that is not reported yet, if there is one. */
  function Missing(records: seq<Item>, columns: seq<string>, key: seq<Value>, known: seq<Row>): seq<Row> {
    if records == [] then []
    else if records[0].Dict? && KeyOf(records[0].row, columns) == key && records[0].row !in known then
      [records[0].row]
    else
      Missing(records[1..], columns, key, known)
  }

  /** The report after `n` records. */
  ghost function Report(records: seq<Item>, columns: seq<string>, n: nat): seq<Row>
    requires n <= |records|
  {
    if n == 0 then []
    else
      var before := Report(records, columns, n - 1);
      var item := records[n - 1];
      if !Keyed(item, columns) then before + [Reported(item)]
      else
        var key := KeyOf(item.row, columns);
        var earlier := |Holders(records, columns, key, n - 1)|;
        if earlier == 0 then before
        else
          var known := before + [item.row];
          if earlier == 1 then known + Missing(records, columns, key, known) else known
  }

  lemma {:induction false} MissingIs(records: seq<Item>, columns: seq<string>, key: seq<Value>, known: seq<Row>)
    ensures |Missing(records, columns, key, known)| <= 1
    ensures forall row :: row in Missing(records, columns, key, known) ==>
      row !in known && Dict(row) in records && KeyOf(row, columns) == key
    ensures Missing(records, columns, key, known) == [] <==>
      forall item :: item in records && item.Dict? && KeyOf(item.row, columns) == key ==> item.row in known
  {
    if records != [] {
      assert records == [records[0]] + records[1..];
      MissingIs(records[1..], columns, key, known);
    }
  }

  lemma {:induction false} MissingFindsFirst(records: seq<Item>, columns: seq<string>, key: seq<Value>,
                                             known: seq<Row>, i: nat)
    requires i < |records| && records[i].Dict? && KeyOf(records[i].row, columns) == key
    requires forall k :: 0 <= k < i && records[k].Dict? ==> KeyOf(records[k].row, columns) != key
    ensures records[i].row in known || Missing(records, columns, key, known) == [records[i].row]
  {
    if i > 0 {
      MissingFindsFirst(records[1..], columns, key, known, i - 1);
    }
  }

  lemma HoldersStep(records: seq<Item>, columns: seq<string>, key: seq<Value>, n: nat)
    requires n < |records|
    ensures Keyed(records[n], columns) && KeyOf(records[n].row, columns) == key
      ==> |Holders(records, columns, key, n + 1)| == |Holders(records, columns, key, n)| + 1
    ensures !(Keyed(records[n], columns) && KeyOf(records[n].row, columns) == key)
      ==> Holders(records, columns, key, n + 1) == Holders(records, columns, key, n)
  {
    if Keyed(records[n], columns) && KeyOf(records[n].row, columns) == key {
      assert Holders(records, columns, key, n + 1) == Holders(records, columns, key, n) + {n};
    }
  }

  ghost predicate Counts(seen: map<seq<Value>, nat>, records: seq<Item>, columns: seq<string>, n: nat)
    requires n <= |records|
  {
    forall key ::
      && (key in seen <==> Holders(records, columns, key, n) != {})
      && (key in seen ==> seen[key] + 1 == |Holders(records, columns, key, n)|)
  }

  /** One round of the loop keeps the counters right. */
  lemma CountsStep(seen: map<seq<Value>, nat>, after: map<seq<Value>, nat>, records: seq<Item>,
                   columns: seq<string>, n: nat)
    requires n < |records| && Counts(seen, records, columns, n)
    requires !Keyed(records[n], columns) ==> after == seen
    requires Keyed(records[n], columns) ==>
      var key := KeyOf(records[n].row, columns);
      after == seen[key := if key in seen then seen[key] + 1 else 0]
    ensures Counts(after, records, columns, n + 1)
  {
    forall key
      ensures key in after <==> Holders(records, columns, key, n + 1) != {}
      ensures key in after ==> after[key] + 1 == |Holders(records, columns, key, n + 1)|
    {
      HoldersStep(records, columns, key, n);
      assert key !in seen ==> |Holders(records, columns, key, n)| == 0;
    }
  }

  method BackSearch(records: seq<Item>, columns: seq<string>, key: seq<Value>, known: seq<Row>)
    returns (report: seq<Row>)
    ensures report == known + Missing(records, columns, key, known)
  {
    for i := 0 to |records|
      invariant Missing(records, columns, key, known) == Missing(records[i..], columns, key, known)
    {
      if records[i].Dict? && KeyOf(records[i].row, columns) == key && records[i].row !in known {
        return known + [records[i].row];
      }
      assert records[i..][1..] == records[i + 1..];
    }
    return known;
  }

  method ReadKey(row: Row, columns: seq<string>) returns (key: seq<Value>, allMissing: bool)
    ensures key == KeyOf(row, columns)
    ensures allMissing <==> !Keyed(Dict(row), columns)
  {
    key, allMissing := [], true;
    for c := 0 to |columns|
      invariant key == KeyOf(row, columns)[..c]
      invariant allMissing <==> forall k :: 0 <= k < c ==> Get(row, columns[k]) == Null
    {
      var v := Get(row, columns[c]);
      key := key + [v];
      if v != Null {
        allMissing := false;
      }
    }
  }

  /** The loop body: one record. */
  method VisitRecord(records: seq<Item>, columns: seq<string>, i: nat, seen0: map<seq<Value>, nat>,
                     violated0: seq<Row>) returns (seen: map<seq<Value>, nat>, violated: seq<Row>)
    requires i < |records| && violated0 == Report(records, columns, i) && Counts(seen0, records, columns, i)
    ensures violated == Report(records, columns, i + 1) && Counts(seen, records, columns, i + 1)
  {
    seen, violated := seen0, violated0;
    match records[i] {
      case Other(value) =>
        violated := violated + [map["record" := value]];
      case Dict(row) =>
        var key, allMissing := ReadKey(row, columns);
        if allMissing {
          violated := violated + [row];
        } else if key in seen {
          violated := violated + [row];
          if seen[key] == 0 {
            violated := BackSearch(records, columns, key, violated);
          }
          seen := seen[key := seen[key] + 1];
        } else {
          seen := seen[key := 0];
        }
    }
    CountsStep(seen0, seen, records, columns, i);
  }

  method CheckUniqueness(records: seq<Item>, columns: seq<string>) returns (pass: bool, violated: seq<Row>)
    ensures violated == Report(records, columns, |records|)
    ensures pass <==> violated == []
    // It passes iff every record is a dictionary with some key column filled and any two differ in a key column.
    ensures pass <==>
              && (forall r :: r in records ==> r.Dict? && exists c :: c in columns && c in r.row && r.row[c] != Null)
              && (forall i, j :: 0 <= i < j < |records| && records[i].Dict? && records[j].Dict? ==>
                    exists c :: c in columns && CellsDiffer(records[i].row, records[j].row, c))
    // What is reported is what is at fault: a dictionary as it is, anything else under the name `record`.
    ensures forall row :: row in violated <==>
              exists i :: 0 <= i < |records| && AtFault(records, columns, i)
                && row == if records[i].Dict? then records[i].row else map["record" := records[i].value]
  {
    var seen: map<seq<Value>, nat> := map[];
    violated := [];
    for i := 0 to |records|
      invariant violated == Report(records, columns, i)
      invariant Counts(seen, records, columns, i)
    {
      seen, violated := VisitRecord(records, columns, i, seen, violated);
    }
    pass := violated == [];
    PassesIffKeysDiffer(records, columns);
    ReportHoldsFaults(records, columns);
  }

  /** Two rows differ in a column; a missing cell counts as null. */
  predicate CellsDiffer(a: Row, b: Row, c: string) {
    (c in a && a[c] != Null && (c !in b || b[c] != a[c])) || (c in b && b[c] != Null && (c !in a || a[c] != b[c]))
  }

  lemma KeyedIs(item: Item, columns: seq<string>)
    ensures Keyed(item, columns) <==>
              item.Dict? && exists c :: c in columns && c in item.row && item.row[c] != Null
  {
    if item.Dict? {
      if k :| 0 <= k < |columns| && Get(item.row, columns[k]) != Null {
        assert columns[k] in columns;
      }
    }
  }

  lemma SameKeysIs(a: Row, b: Row, columns: seq<string>)
    ensures KeyOf(a, columns) == KeyOf(b, columns) <==> forall c :: c in columns ==> !CellsDiffer(a, b, c)
  {
    if KeyOf(a, columns) == KeyOf(b, columns) {
      forall c | c in columns
        ensures !CellsDiffer(a, b, c)
      {
        var k :| 0 <= k < |columns| && columns[k] == c;
        assert KeyOf(a, columns)[k] == KeyOf(b, columns)[k];
      }
    }
    if forall c :: c in columns ==> !CellsDiffer(a, b, c) {
      forall k | 0 <= k < |columns|
        ensures KeyOf(a, columns)[k] == KeyOf(b, columns)[k]
      {
        assert !CellsDiffer(a, b, columns[k]);
      }
    }
  }

  lemma PassesIffKeysDiffer(records: seq<Item>, columns: seq<string>)
    ensures Report(records, columns, |records|) == [] <==>
      && (forall r :: r in records ==> r.Dict? && exists c :: c in columns && c in r.row && r.row[c] != Null)
      && (forall i, j :: 0 <= i < j < |records| && records[i].Dict? && records[j].Dict? ==>
            exists c :: c in columns && CellsDiffer(records[i].row, records[j].row, c))
  {
    PassesIffUnique(records, columns);
    forall r | r in records
      ensures Keyed(r, columns) <==> r.Dict? && exists c :: c in columns && c in r.row && r.row[c] != Null
    {
      KeyedIs(r, columns);
    }
    forall i, j | 0 <= i < j < |records| && Keyed(records[i], columns) && Keyed(records[j], columns)
      ensures SameKey(records[i], records[j], columns) <==>
                !exists c :: c in columns && CellsDiffer(records[i].row, records[j].row, c)
    {
      SameKeysIs(records[i].row, records[j].row, columns);
    }
    assert forall i :: 0 <= i < |records| ==> records[i] in records;
  }

  /** No dictionary, or no key column filled, or no difference from another record in any key column. */
  ghost predicate AtFault(records: seq<Item>, columns: seq<string>, i: int)
    requires 0 <= i < |records|
  {
    || records[i].Other?
    || (forall c :: c in columns && c in records[i].row ==> records[i].row[c] == Null)
    || exists j :: 0 <= j < |records| && j != i && NowhereDiffer(records[j], records[i], columns)
  }

  predicate NowhereDiffer(a: Item, b: Item, columns: seq<string>) {
    a.Dict? && b.Dict? && forall c :: c in columns ==> !CellsDiffer(a.row, b.row, c)
  }

  lemma AtFaultIsViolation(records: seq<Item>, columns: seq<string>, i: nat)
    requires i < |records|
    ensures AtFault(records, columns, i) <==> Violates(records, columns, |records|, i)
  {
    KeyedIs(records[i], columns);
    forall j | 0 <= j < |records| && Keyed(records[i], columns)
      ensures SameKey(records[j], records[i], columns) <==> NowhereDiffer(records[j], records[i], columns)
    {
      if records[j].Dict? {
        SameKeysIs(records[j].row, records[i].row, columns);
        if KeyOf(records[j].row, columns) == KeyOf(records[i].row, columns) {
          SameKeySameKeyed(records[j].row, records[i].row, columns);
        }
      }
    }
  }

  lemma ReportHoldsFaults(records: seq<Item>, columns: seq<string>)
    ensures forall row :: row in Report(records, columns, |records|) <==>
              exists i :: 0 <= i < |records| && AtFault(records, columns, i)
                && row == if records[i].Dict? then records[i].row else map["record" := records[i].value]
  {
    var report := Report(records, columns, |records|);
    ReportIsExact(records, columns);
    forall i: nat | i < |records|
      ensures AtFault(records, columns, i) <==> i in Violating(records, columns, |records|)
    {
      AtFaultIsViolation(records, columns, i);
    }
    forall row
      ensures row in report <==> row in FaultyRows(records, columns)
    {
      assert row in report <==> row in ToSet(report);
    }
  }

  // The report is right as a set of values.

  /** A row is in the report after `n` records for one of two reasons. */
  ghost predicate Explained(records: seq<Item>, columns: seq<string>, n: nat, row: Row)
    requires n <= |records|
  {
    || (exists i :: 0 <= i < n && !Keyed(records[i], columns) && Reported(records[i]) == row)
    || (&& Dict(row) in records && Keyed(Dict(row), columns)
        && |Holders(records, columns, KeyOf(row, columns), n)| >= 2)
  }

  lemma {:induction false} EveryReportedRowIsExplained(records: seq<Item>, columns: seq<string>, n: nat, row: Row)
    requires n <= |records| && row in Report(records, columns, n)
    ensures Explained(records, columns, n, row)
  {
    var item := records[n - 1];
    var before := Report(records, columns, n - 1);
    HoldersStep(records, columns, KeyOf(row, columns), n - 1);
    if row in before {
      EveryReportedRowIsExplained(records, columns, n - 1, row);
    } else if Keyed(item, columns) {
      var key := KeyOf(item.row, columns);
      MissingIs(records, columns, key, before + [item.row]);
      HoldersStep(records, columns, key, n - 1);
      assert item in records;
      SameKeySameKeyed(row, item.row, columns);
    }
  }

  lemma {:induction false} EveryViolationIsReported(records: seq<Item>, columns: seq<string>, n: nat, i: nat)
    requires i < n <= |records| && Violates(records, columns, n, i)
    ensures Reported(records[i]) in Report(records, columns, n)
  {
    var item := records[n - 1];
    if i < n - 1 && Violates(records, columns, n - 1, i) {
      EveryViolationIsReported(records, columns, n - 1, i);
    } else if Keyed(records[i], columns) {
      var key := KeyOf(item.row, columns);
      var holders := Holders(records, columns, key, n - 1);
      var j :| 0 <= j < n && j != i && SameKey(records[j], records[i], columns);
      if i == n - 1 {
        assert j in holders;
        assert |holders| > 0;
      } else {
        assert j == n - 1 && i in holders;
        forall k | k in holders
          ensures k == i
        {
          if k != i {
            assert SameKey(records[k], records[i], columns);
          }
        }
        assert holders == {i};
        forall k | 0 <= k < i && records[k].Dict?
          ensures KeyOf(records[k].row, columns) != key
        {
          if KeyOf(records[k].row, columns) == key {
            SameKeySameKeyed(records[k].row, item.row, columns);
          }
          assert KeyOf(records[k].row, columns) == key ==> k in holders;
        }
        MissingFindsFirst(records, columns, key, Report(records, columns, n - 1) + [item.row], i);
      }
    }
  }

  lemma {:induction false} TwoHoldersViolate(records: seq<Item>, columns: seq<string>, key: seq<Value>, i: nat)
    requires i in Holders(records, columns, key, |records|)
    requires |Holders(records, columns, key, |records|)| >= 2
    ensures Violates(records, columns, |records|, i)
  {
    var others := Holders(records, columns, key, |records|) - {i};
    assert |others| >= 1;
    var j :| j in others;
    assert SameKey(records[j], records[i], columns);
  }

  /** By value, the report holds exactly the rows without a key and the rows that share theirs. */
  lemma ReportIsExact(records: seq<Item>, columns: seq<string>)
    ensures ToSet(Report(records, columns, |records|)) == FaultyRows(records, columns)
  {
    var report := Report(records, columns, |records|);
    var violating := Violating(records, columns, |records|);
    forall row | row in report
      ensures row in FaultyRows(records, columns)
    {
      EveryReportedRowIsExplained(records, columns, |records|, row);
      if i :| 0 <= i < |records| && !Keyed(records[i], columns) && Reported(records[i]) == row {
        assert i in violating;
      } else {
        var i :| 0 <= i < |records| && records[i] == Dict(row);
        TwoHoldersViolate(records, columns, KeyOf(row, columns), i);
        assert i in violating;
      }
    }
    forall i | i in violating
      ensures Reported(records[i]) in report
    {
      EveryViolationIsReported(records, columns, |records|, i);
    }
  }

  /** The check passes exactly when every record has a key and no two records share one. */
  lemma PassesIffUnique(records: seq<Item>, columns: seq<string>)
    ensures Report(records, columns, |records|) == [] <==>
      && (forall item :: item in records ==> Keyed(item, columns))
      && (forall i, j :: 0 <= i < j < |records| ==> !SameKey(records[i], records[j], columns))
  {
    var n := |records|;
    ReportIsExact(records, columns);
    if Report(records, columns, n) == [] {
      forall i: nat | i < n
        ensures !Violates(records, columns, n, i)
      {
        if Violates(records, columns, n, i) {
          EveryViolationIsReported(records, columns, n, i);
        }
      }
      forall item | item in records
        ensures Keyed(item, columns)
      {
        var i :| 0 <= i < n && records[i] == item;
        assert !Violates(records, columns, n, i);
      }
      forall i, j | 0 <= i < j < n
        ensures !SameKey(records[i], records[j], columns)
      {
        assert !Violates(records, columns, n, j);
      }
    } else {
      var row := Report(records, columns, n)[0];
      assert row in ToSet(Report(records, columns, n));
      var i :| i in Violating(records, columns, n) && Reported(records[i]) == row;
      if Keyed(records[i], columns) {
        var j :| 0 <= j < n && j != i && SameKey(records[j], records[i], columns);
        assert SameKey(records[i], records[j], columns);
      }
    }
  }

  // The report is not always right as a count.

  /** Record `s` is the second of its key. */
  ghost predicate Second(records: seq<Item>, columns: seq<string>, s: nat)
    requires s < |records|
  {
    && Keyed(records[s], columns)
    && |Holders(records, columns, KeyOf(records[s].row, columns), s)| == 1
  }

  /** Some record of the key differs from its second one and from what earlier non-records were reported as. */
  ghost predicate Recovered(records: seq<Item>, columns: seq<string>, s: nat)
    requires s < |records|
  {
    exists j :: 0 <= j < |records| && SameKey(records[j], records[s], columns)
      && Recoverable(records, columns, s, records[j].row)
  }

  ghost predicate Recoverable(records: seq<Item>, columns: seq<string>, s: nat, row: Row)
    requires s < |records| && records[s].Dict?
  {
    row != records[s].row
    && forall o :: 0 <= o < s && !Keyed(records[o], columns) ==> Reported(records[o]) != row
  }

  ghost predicate Loses(records: seq<Item>, columns: seq<string>, s: nat)
    requires s < |records|
  {
    Second(records, columns, s) && !Recovered(records, columns, s)
  }

  /** How many keys lose a row, of those whose second record is among the first `n`. */
  ghost function LostCount(records: seq<Item>, columns: seq<string>, n: nat): nat
    requires n <= |records|
  {
    if n == 0 then 0 else LostCount(records, columns, n - 1) + if Loses(records, columns, n - 1) then 1 else 0
  }

  lemma {:induction false} NothingLost(records: seq<Item>, columns: seq<string>, n: nat)
    requires n <= |records|
    ensures LostCount(records, columns, n) == 0 <==> forall s: nat :: s < n ==> !Loses(records, columns, s)
  {
    if n > 0 {
      NothingLost(records, columns, n - 1);
    }
  }

  lemma BackSearchRecovers(records: seq<Item>, columns: seq<string>, s: nat)
    requires s < |records| && Second(records, columns, s)
    ensures var key := KeyOf(records[s].row, columns);
      Missing(records, columns, key, Report(records, columns, s) + [records[s].row]) != []
      <==> Recovered(records, columns, s)
  {
    var key := KeyOf(records[s].row, columns);
    var before := Report(records, columns, s);
    MissingIs(records, columns, key, before + [records[s].row]);
    forall j | 0 <= j < |records| && SameKey(records[j], records[s], columns)
      ensures records[j].row in before + [records[s].row]
        <==> !Recoverable(records, columns, s, records[j].row)
    {
      var row := records[j].row;
      if row in before {
        EveryReportedRowIsExplained(records, columns, s, row);
      }
      if o :| 0 <= o < s && !Keyed(records[o], columns) && Reported(records[o]) == row {
        EveryViolationIsReported(records, columns, s, o);
      }
    }
    forall item | item in records && item.Dict? && KeyOf(item.row, columns) == key
      ensures exists j :: 0 <= j < |records| && records[j] == item && SameKey(records[j], records[s], columns)
    {
      var j :| 0 <= j < |records| && records[j] == item;
      SameKeySameKeyed(item.row, records[s].row, columns);
      assert SameKey(records[j], records[s], columns);
    }
  }

  lemma ViolatingStep(records: seq<Item>, columns: seq<string>, n: nat)
    requires n < |records|
    ensures !Keyed(records[n], columns) ==>
      Violating(records, columns, n + 1) == Violating(records, columns, n) + {n}
    ensures Keyed(records[n], columns) ==>
      var holders := Holders(records, columns, KeyOf(records[n].row, columns), n);
      && (holders == {} ==> Violating(records, columns, n + 1) == Violating(records, columns, n))
      && (holders != {} ==> Violating(records, columns, n + 1) == Violating(records, columns, n) + holders + {n})
  {
    forall i: nat | i < n
      ensures Violates(records, columns, n + 1, i) <==>
        Violates(records, columns, n, i) || SameKey(records[n], records[i], columns)
    {
    }
    if Keyed(records[n], columns) {
      var holders := Holders(records, columns, KeyOf(records[n].row, columns), n);
      forall i: nat | i < n
        ensures SameKey(records[n], records[i], columns) <==> i in holders
      {
      }
      assert Shares(records, columns, n + 1, n) <==> holders != {};
    }
  }

  /** With one holder it was not at fault before; with more they all were. */
  lemma HoldersWereViolating(records: seq<Item>, columns: seq<string>, key: seq<Value>, n: nat)
    requires n <= |records|
    ensures |Holders(records, columns, key, n)| == 1 ==>
      Holders(records, columns, key, n) !! Violating(records, columns, n)
    ensures |Holders(records, columns, key, n)| >= 2 ==>
      Holders(records, columns, key, n) <= Violating(records, columns, n)
  {
    var holders := Holders(records, columns, key, n);
    forall i | i in holders
      ensures |holders| == 1 ==> i !in Violating(records, columns, n)
      ensures |holders| >= 2 ==> i in Violating(records, columns, n)
    {
      var others := holders - {i};
      assert |others| == |holders| - 1;
      if |holders| >= 2 {
        var j :| j in others;
        assert SameKey(records[j], records[i], columns);
      } else {
        assert others == {};
        assert forall j :: 0 <= j < n && SameKey(records[j], records[i], columns) ==> j in holders;
        assert !Shares(records, columns, n, i);
      }
    }
  }

  /** How many rows become faults with record `n`: itself, and with a second holder the first one too. */
  function NewFaults(earlier: nat): nat {
    if earlier == 0 then 0 else if earlier == 1 then 2 else 1
  }

  lemma ViolatingCountStep(records: seq<Item>, columns: seq<string>, n: nat)
    requires n < |records|
    ensures !Keyed(records[n], columns) ==>
      |Violating(records, columns, n + 1)| == |Violating(records, columns, n)| + 1
    ensures Keyed(records[n], columns) ==>
      |Violating(records, columns, n + 1)| == |Violating(records, columns, n)|
        + NewFaults(|Holders(records, columns, KeyOf(records[n].row, columns), n)|)
  {
    ViolatingStep(records, columns, n);
    var before := Violating(records, columns, n);
    assert n !in before;
    if Keyed(records[n], columns) {
      var holders := Holders(records, columns, KeyOf(records[n].row, columns), n);
      HoldersWereViolating(records, columns, KeyOf(records[n].row, columns), n);
      NewFaultsAdded(before, holders, n, Violating(records, columns, n + 1));
    }
  }

  lemma NewFaultsAdded(before: set<nat>, holders: set<nat>, n: nat, after: set<nat>)
    requires n !in before && n !in holders
    requires |holders| == 1 ==> holders !! before
    requires |holders| >= 2 ==> holders <= before
    requires after == if holders == {} then before else before + holders + {n}
    ensures |after| == |before| + NewFaults(|holders|)
  {
    if |holders| == 1 {
      assert |before + holders| == |before| + 1;
    } else if |holders| >= 2 {
      assert before + holders == before;
    }
  }

  lemma ReportStep(records: seq<Item>, columns: seq<string>, n: nat)
    requires n < |records|
    ensures !Keyed(records[n], columns) ==>
      |Report(records, columns, n + 1)| == |Report(records, columns, n)| + 1
    ensures Keyed(records[n], columns) ==>
      |Report(records, columns, n + 1)|
        + (if Loses(records, columns, n) then 1 else 0)
      == |Report(records, columns, n)|
        + NewFaults(|Holders(records, columns, KeyOf(records[n].row, columns), n)|)
  {
    if Keyed(records[n], columns) {
      var key := KeyOf(records[n].row, columns);
      MissingIs(records, columns, key, Report(records, columns, n) + [records[n].row]);
      if Second(records, columns, n) {
        BackSearchRecovers(records, columns, n);
      }
    }
  }

  /** The reported number is the number of rows at fault less the groups that the back-search lost a row of. */
  lemma {:induction false} ReportCounts(records: seq<Item>, columns: seq<string>, n: nat)
    requires n <= |records|
    ensures |Report(records, columns, n)| + LostCount(records, columns, n) == |Violating(records, columns, n)|
  {
    if n > 0 {
      ReportCounts(records, columns, n - 1);
      ViolatingCountStep(records, columns, n - 1);
      ReportStep(records, columns, n - 1);
    }
  }

  /** The count is right exactly when no group loses a row. */
  lemma CountIsRightIff(records: seq<Item>, columns: seq<string>)
    ensures |Report(records, columns, |records|)| == |Violating(records, columns, |records|)| <==>
      forall s: nat :: s < |records| ==> !Loses(records, columns, s)
  {
    ReportCounts(records, columns, |records|);
    NothingLost(records, columns, |records|);
  }

  /** When all records are keyed dictionaries, a group loses a row exactly when its rows are all identical. */
  lemma LostIffIdentical(records: seq<Item>, columns: seq<string>, s: nat)
    requires s < |records| && Second(records, columns, s)
    requires forall item :: item in records ==> Keyed(item, columns)
    ensures Loses(records, columns, s) <==>
      forall item :: item in records && SameKey(item, records[s], columns) ==> item == records[s]
  {
    forall j | 0 <= j < |records| && SameKey(records[j], records[s], columns)
      ensures Recoverable(records, columns, s, records[j].row) <==> records[j] != records[s]
    {
    }
  }

  /** Two copies of one row are two rows at fault, but one is reported. */
  lemma CopiesAreMiscounted(row: Row, columns: seq<string>)
    requires Keyed(Dict(row), columns)
    ensures Report([Dict(row), Dict(row)], columns, 2) == [row]
    ensures Violating([Dict(row), Dict(row)], columns, 2) == {0, 1}
  {
    var records := [Dict(row), Dict(row)];
    var key := KeyOf(row, columns);
    assert Holders(records, columns, key, 0) == {};
    assert Holders(records, columns, key, 1) == {0};
    assert Report(records, columns, 1) == [];
    assert |Holders(records, columns, key, 1)| == 1;
    assert records[1].row == row;
    assert Report(records, columns, 1) + [row] == [row];
    assert Report(records, columns, 2) == [row] + Missing(records, columns, key, [row]);
    MissingIs(records, columns, key, [row]);
    assert forall item :: item in records ==> item == Dict(row);
    assert SameKey(records[0], records[1], columns);
    assert Shares(records, columns, 2, 0) && Shares(records, columns, 2, 1);
  }
}

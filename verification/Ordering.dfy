/** Total orders, sorted sequences and the lexicographic order on strings. */
module Ordering {
  import opened Seqs

  ghost predicate TotalOrder<T(!new)>(le: (T, T) -> bool) {
    && (forall a, b :: le(a, b) || le(b, a))
    && (forall a, b :: le(a, b) && le(b, a) ==> a == b)
    && (forall a, b, c :: le(a, b) && le(b, c) ==> le(a, c))
  }

  ghost predicate SortedBy<T>(le: (T, T) -> bool, s: seq<T>) {
    forall i, j :: 0 <= i < j < |s| ==> le(s[i], s[j])
  }

  function Insert<T(!new)>(le: (T, T) -> bool, s: seq<T>, x: T): seq<T> {
    if s == [] || le(x, s[0]) then [x] + s else [s[0]] + Insert(le, s[1..], x)
  }

  /** The model of Python's `sorted` for a total order. */
  function Sort<T(!new)>(le: (T, T) -> bool, s: seq<T>): seq<T> {
    if s == [] then [] else Insert(le, Sort(le, s[1..]), s[0])
  }

  lemma {:induction false} InsertKeepsSorted<T(!new)>(le: (T, T) -> bool, s: seq<T>, x: T)
    requires TotalOrder(le) && SortedBy(le, s)
    ensures SortedBy(le, Insert(le, s, x))
    ensures multiset(Insert(le, s, x)) == multiset(s) + multiset{x}
  {
    if s == [] {
    } else if le(x, s[0]) {
      LeastInFront(le, x, s);
    } else {
      InsertKeepsSorted(le, s[1..], x);
      var r := Insert(le, s[1..], x);
      assert s == [s[0]] + s[1..];
      forall y | y in r
        ensures le(s[0], y)
      {
        assert y in multiset(r);
        assert y == x || y in s[1..];
      }
      HeadInFront(le, s[0], r);
    }
  }

  lemma HeadInFront<T(!new)>(le: (T, T) -> bool, x: T, s: seq<T>)
    requires SortedBy(le, s) && forall y :: y in s ==> le(x, y)
    ensures SortedBy(le, [x] + s)
  {
  }

  lemma LeastInFront<T(!new)>(le: (T, T) -> bool, x: T, s: seq<T>)
    requires TotalOrder(le) && SortedBy(le, s) && s != [] && le(x, s[0])
    ensures SortedBy(le, [x] + s)
  {
    forall y | y in s
      ensures le(x, y)
    {
      var j :| 0 <= j < |s| && s[j] == y;
      assert j == 0 || le(s[0], s[j]);
    }
    HeadInFront(le, x, s);
  }

  lemma {:induction false} SortIsSorted<T(!new)>(le: (T, T) -> bool, s: seq<T>)
    requires TotalOrder(le)
    ensures SortedBy(le, Sort(le, s))
    ensures multiset(Sort(le, s)) == multiset(s)
  {
    if s != [] {
      SortIsSorted(le, s[1..]);
      InsertKeepsSorted(le, Sort(le, s[1..]), s[0]);
      assert s == [s[0]] + s[1..];
    }
  }

  lemma HeadIsLeast<T(!new)>(le: (T, T) -> bool, s: seq<T>, x: T)
    requires TotalOrder(le) && SortedBy(le, s)
    requires s != [] && x in multiset(s)
    ensures le(s[0], x)
  {
    var i :| 0 <= i < |s| && s[i] == x;
    if i == 0 {
      assert le(x, x) || le(x, x);
    }
  }

  lemma {:induction false} SortedIsUnique<T(!new)>(le: (T, T) -> bool, s: seq<T>, t: seq<T>)
    requires TotalOrder(le) && SortedBy(le, s) && SortedBy(le, t)
    requires multiset(s) == multiset(t)
    ensures s == t
  {
    assert |multiset(s)| == |s| && |multiset(t)| == |t|;
    if s != [] {
      assert s[0] in multiset(t) && t[0] in multiset(s);
      HeadIsLeast(le, t, s[0]);
      HeadIsLeast(le, s, t[0]);
      TailsMatch(s, t);
      SortedIsUnique(le, s[1..], t[1..]);
      assert s == [s[0]] + s[1..] && t == [t[0]] + t[1..];
    }
  }

  lemma TailsMatch<T>(s: seq<T>, t: seq<T>)
    requires s != [] && t != [] && s[0] == t[0] && multiset(s) == multiset(t)
    ensures multiset(s[1..]) == multiset(t[1..])
  {
    assert s == [s[0]] + s[1..] && t == [t[0]] + t[1..];
    assert multiset(s[1..]) == multiset(s) - multiset{s[0]};
    assert multiset(t[1..]) == multiset(t) - multiset{t[0]};
  }

  lemma {:induction false} DistinctMultiset<T>(s: seq<T>)
    requires Distinct(s)
    ensures forall x :: multiset(s)[x] == if x in s then 1 else 0
  {
    if s != [] {
      assert s == [s[0]] + s[1..];
      DistinctMultiset(s[1..]);
      assert s[0] !in s[1..];
    }
  }

  /** A sorted duplicate-free sequence depends on the set of its elements alone. */
  lemma SortedSetIsUnique<T(!new)>(le: (T, T) -> bool, s: seq<T>, t: seq<T>)
    requires TotalOrder(le) && Distinct(s) && Distinct(t)
    requires SortedBy(le, s) && SortedBy(le, t)
    requires forall x :: x in s <==> x in t
    ensures s == t
  {
    DistinctMultiset(s);
    DistinctMultiset(t);
    assert multiset(s) == multiset(t);
    SortedIsUnique(le, s, t);
  }

  lemma {:induction false} SortOfDistinct<T(!new)>(le: (T, T) -> bool, s: seq<T>)
    requires TotalOrder(le) && Distinct(s)
    ensures Distinct(Sort(le, s)) && SortedBy(le, Sort(le, s))
    ensures forall x :: x in Sort(le, s) <==> x in s
    ensures |Sort(le, s)| == |s|
  {
    SortIsSorted(le, s);
    var r := Sort(le, s);
    DistinctMultiset(s);
    assert |multiset(r)| == |multiset(s)|;
    forall x
      ensures x in r <==> x in s
    {
      assert x in multiset(r) <==> x in multiset(s);
    }
    forall i, j | 0 <= i < j < |r|
      ensures r[i] != r[j]
    {
      assert r == r[..j] + r[j..];
      assert multiset(r) == multiset(r[..j]) + multiset(r[j..]);
      assert r[i] == r[..j][i] && r[j] == r[j..][0];
      assert multiset(r)[r[j]] <= 1;
    }
  }

  /** Python's order on strings: by code point, a proper prefix first. */
  predicate StringLe(a: string, b: string) {
    if a == [] then true
    else if b == [] then false
    else a[0] < b[0] || (a[0] == b[0] && StringLe(a[1..], b[1..]))
  }

  /** `b` continues `a`, or the first characters that differ decide. */
  lemma {:induction false} StringLeDecides(a: string, b: string)
    ensures StringLe(a, b) <==> a <= b || exists i :: DiffersAt(a, b, i) && a[i] < b[i]
  {
    if a != [] && b != [] {
      StringLeDecides(a[1..], b[1..]);
      assert a == [a[0]] + a[1..] && b == [b[0]] + b[1..];
      if a[0] != b[0] {
        assert DiffersAt(a, b, 0);
      } else {
        assert a <= b <==> a[1..] <= b[1..];
        forall i | 0 < i
          ensures DiffersAt(a, b, i) <==> DiffersAt(a[1..], b[1..], i - 1)
        {
          if i < |a| && i < |b| {
            assert a[..i] == [a[0]] + a[1..][..i - 1] && b[..i] == [b[0]] + b[1..][..i - 1];
          }
        }
        if i :| DiffersAt(a[1..], b[1..], i) && a[1..][i] < b[1..][i] {
          assert DiffersAt(a, b, i + 1);
        }
      }
    }
  }

  predicate DiffersAt(a: string, b: string, i: int) {
    0 <= i < |a| && i < |b| && a[..i] == b[..i] && a[i] != b[i]
  }

  lemma StringLeIsTotalOrder()
    ensures TotalOrder(StringLe)
  {
    forall a: string, b: string
      ensures StringLe(a, b) || StringLe(b, a)
      ensures StringLe(a, b) && StringLe(b, a) ==> a == b
    {
      StringLeConnected(a, b);
    }
    forall a: string, b: string, c: string | StringLe(a, b) && StringLe(b, c)
      ensures StringLe(a, c)
    {
      StringLeTransitive(a, b, c);
    }
  }

  lemma {:induction false} StringLeConnected(a: string, b: string)
    ensures StringLe(a, b) || StringLe(b, a)
    ensures StringLe(a, b) && StringLe(b, a) ==> a == b
  {
    if a != [] && b != [] && a[0] == b[0] {
      StringLeConnected(a[1..], b[1..]);
      assert a == [a[0]] + a[1..] && b == [b[0]] + b[1..];
    }
  }

  lemma {:induction false} StringLeTransitive(a: string, b: string, c: string)
    requires StringLe(a, b) && StringLe(b, c)
    ensures StringLe(a, c)
  {
    if a != [] && a[0] == b[0] && b[0] == c[0] {
      StringLeTransitive(a[1..], b[1..], c[1..]);
    }
  }
}

/** Facts about sequences that several parts of the model share. */
module Seqs {

  datatype Option<+T> = None | Some(value: T)

  ghost predicate Distinct<T>(s: seq<T>) {
    forall i, j :: 0 <= i < j < |s| ==> s[i] != s[j]
  }

  lemma InitIsDistinct<T>(s: seq<T>, x: T)
    requires Distinct(s + [x])
    ensures Distinct(s) && x !in s
  {
    forall i | 0 <= i < |s|
      ensures s[i] != x
      ensures forall j :: i < j < |s| ==> s[i] != s[j]
    {
      assert (s + [x])[i] == s[i] && (s + [x])[|s|] == x;
      assert forall j :: i < j < |s| ==> (s + [x])[j] == s[j];
    }
  }

  function ToSet<T(==)>(s: seq<T>): set<T> {
    set x | x in s
  }

  /** The elements of `s` that are not in `seen`, each once, in order of first occurrence. */
  function Fresh<T(==)>(s: seq<T>, seen: set<T>): seq<T> {
    if s == [] then []
    else if s[0] in seen then Fresh(s[1..], seen)
    else [s[0]] + Fresh(s[1..], seen + {s[0]})
  }

  lemma {:induction false} FreshIsDistinct<T>(s: seq<T>, seen: set<T>)
    ensures Distinct(Fresh(s, seen))
    ensures forall x :: x in Fresh(s, seen) <==> x in s && x !in seen
  {
    if s != [] {
      assert s == [s[0]] + s[1..];
      if s[0] in seen {
        FreshIsDistinct(s[1..], seen);
      } else {
        FreshIsDistinct(s[1..], seen + {s[0]});
      }
    }
  }

  lemma {:induction false} FreshConcat<T>(a: seq<T>, b: seq<T>, seen: set<T>)
    ensures Fresh(a + b, seen) == Fresh(a, seen) + Fresh(b, seen + ToSet(a))
  {
    if a == [] {
      assert a + b == b;
      assert seen + ToSet(a) == seen;
    } else {
      assert (a + b)[1..] == a[1..] + b;
      assert a == [a[0]] + a[1..];
      if a[0] in seen {
        FreshConcat(a[1..], b, seen);
        assert seen + ToSet(a[1..]) == seen + ToSet(a);
      } else {
        FreshConcat(a[1..], b, seen + {a[0]});
        assert seen + {a[0]} + ToSet(a[1..]) == seen + ToSet(a);
      }
    }
  }

  lemma FreshSnoc<T>(s: seq<T>, x: T, seen: set<T>)
    ensures Fresh(s + [x], seen) == Fresh(s, seen) + (if x in s || x in seen then [] else [x])
  {
    FreshConcat(s, [x], seen);
    assert x in seen + ToSet(s) <==> x in s || x in seen;
  }

  /** Position of the first occurrence of `x` in `s`. */
  function IndexOf<T(==)>(s: seq<T>, x: T): (i: nat)
    requires x in s
    ensures i < |s| && s[i] == x
    ensures forall j :: 0 <= j < i ==> s[j] != x
  {
    if s[0] == x then 0 else 1 + IndexOf(s[1..], x)
  }

  lemma {:induction false} DistinctSize<T>(s: seq<T>)
    requires Distinct(s)
    ensures |ToSet(s)| == |s|
  {
    if s != [] {
      var t := s[..|s| - 1];
      DistinctSize(t);
      assert ToSet(s) == ToSet(t) + {s[|s| - 1]};
    }
  }

  lemma {:induction false} SetSizeOfSeq<T>(s: seq<T>)
    ensures |ToSet(s)| <= |s|
    ensures |ToSet(s)| == |s| <==> Distinct(s)
  {
    if s != [] {
      var init, last := s[..|s| - 1], s[|s| - 1];
      SetSizeOfSeq(init);
      assert s == init + [last];
      assert ToSet(s) == ToSet(init) + {last};
      if Distinct(s) {
        assert last !in init;
      } else if Distinct(init) {
        assert last in init;
        assert ToSet(s) == ToSet(init);
      }
    }
  }

  /** A sequence drawn from a finite set and longer than it has a repetition. */
  lemma {:induction false} Pigeonhole<T>(s: seq<T>, pool: set<T>) returns (i: nat, j: nat)
    requires forall x :: x in s ==> x in pool
    requires |s| > |pool|
    ensures i < j < |s| && s[i] == s[j]
  {
    if Distinct(s) {
      DistinctSize(s);
      SubsetSize(ToSet(s), pool);
      assert false;
    } else {
      i, j :| 0 <= i < j < |s| && s[i] == s[j];
    }
  }

  lemma SubsetSize<T>(a: set<T>, b: set<T>)
    requires a <= b
    ensures |a| <= |b|
    ensures |a| == |b| ==> a == b
  {
    assert |b| == |b - a| + |a| by { assert b == (b - a) + a; }
    if |a| == |b| {
      assert b - a == {};
    }
  }

  // Sequences of sequences.

  function Flatten<T>(blocks: seq<seq<T>>): seq<T> {
    if blocks == [] then [] else Flatten(blocks[..|blocks| - 1]) + blocks[|blocks| - 1]
  }

  /** Where block `i` starts in the flat sequence; at the end, the total length. */
  function Offset<T>(blocks: seq<seq<T>>, i: nat): nat
    requires i <= |blocks|
  {
    if i == 0 then 0 else Offset(blocks, i - 1) + |blocks[i - 1]|
  }

  lemma {:induction false} OffsetOfPrefix<T>(blocks: seq<seq<T>>, n: nat, i: nat)
    requires i <= n <= |blocks|
    ensures Offset(blocks[..n], i) == Offset(blocks, i)
  {
    if i > 0 {
      OffsetOfPrefix(blocks, n, i - 1);
    }
  }

  lemma {:induction false} OffsetGrows<T>(blocks: seq<seq<T>>, i: nat, j: nat)
    requires i <= j <= |blocks|
    ensures Offset(blocks, i) <= Offset(blocks, j)
  {
    if i < j {
      OffsetGrows(blocks, i, j - 1);
    }
  }

  lemma {:induction false} FlattenLength<T>(blocks: seq<seq<T>>)
    ensures |Flatten(blocks)| == Offset(blocks, |blocks|)
  {
    var n := |blocks|;
    if n > 0 {
      FlattenLength(blocks[..n - 1]);
      OffsetOfPrefix(blocks, n - 1, n - 1);
    }
  }

  /** Element `k` of block `i` is at `Offset(i) + k`. */
  lemma {:induction false} FlattenAt<T>(blocks: seq<seq<T>>, i: nat, k: nat)
    requires i < |blocks| && k < |blocks[i]|
    ensures Offset(blocks, i) + k < |Flatten(blocks)|
    ensures Flatten(blocks)[Offset(blocks, i) + k] == blocks[i][k]
  {
    var n := |blocks| - 1;
    FlattenLength(blocks[..n]);
    OffsetOfPrefix(blocks, n, n);
    if i < n {
      FlattenAt(blocks[..n], i, k);
      OffsetOfPrefix(blocks, n, i);
    }
  }

  /** Every element of the flat sequence comes from one block. */
  lemma {:induction false} FlattenFrom<T>(blocks: seq<seq<T>>, j: nat) returns (i: nat, k: nat)
    requires j < |Flatten(blocks)|
    ensures i < |blocks| && k < |blocks[i]| && j == Offset(blocks, i) + k
    ensures Flatten(blocks)[j] == blocks[i][k]
  {
    var n := |blocks| - 1;
    FlattenLength(blocks[..n]);
    OffsetOfPrefix(blocks, n, n);
    if j < |Flatten(blocks[..n])| {
      i, k := FlattenFrom(blocks[..n], j);
      OffsetOfPrefix(blocks, n, i);
    } else {
      i, k := n, j - |Flatten(blocks[..n])|;
    }
  }

  /** A position lies in the range of one block only. */
  lemma {:induction false} BlockIsUnique<T>(blocks: seq<seq<T>>, i: nat, j: nat, k: nat)
    requires i < |blocks| && j < |blocks| && k < |blocks[j]|
    ensures Offset(blocks, i) <= Offset(blocks, j) + k < Offset(blocks, i) + |blocks[i]| <==> i == j
  {
    assert Offset(blocks, i + 1) == Offset(blocks, i) + |blocks[i]|;
    assert Offset(blocks, j + 1) == Offset(blocks, j) + |blocks[j]|;
    if i < j {
      OffsetGrows(blocks, i + 1, j);
    } else if j < i {
      OffsetGrows(blocks, j + 1, i);
    }
  }

  lemma {:induction false} BlockFits<T>(blocks: seq<seq<T>>, i: nat)
    requires i < |blocks|
    ensures Offset(blocks, i) + |blocks[i]| <= |Flatten(blocks)|
  {
    FlattenLength(blocks);
    OffsetGrows(blocks, i + 1, |blocks|);
  }
}

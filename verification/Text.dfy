/** Python's string operations, as far as the model needs them. */
module Text {

  /** White space as `str.strip` sees it. */
  predicate IsSpace(c: char) {
    || '\U{0009}' <= c <= '\U{000d}' || '\U{001c}' <= c <= '\U{0020}'
    || c in {'\U{0085}', '\U{00a0}', '\U{1680}', '\U{2028}', '\U{2029}', '\U{202f}', '\U{205f}', '\U{3000}'}
    || '\U{2000}' <= c <= '\U{200a}'
  }

  /** The code points that count as white space, in decimal. */
  lemma WhiteSpaceTable(c: char)
    ensures IsSpace(c) <==> c as int in {9, 10, 11, 12, 13, 28, 29, 30, 31, 32, 133, 160, 5760,
                                         8192, 8193, 8194, 8195, 8196, 8197, 8198, 8199, 8200, 8201, 8202,
                                         8232, 8233, 8239, 8287, 12288}
  {
  }

  function StripLeft(s: string, drop: char -> bool): string {
    if s != [] && drop(s[0]) then StripLeft(s[1..], drop) else s
  }

  function StripRight(s: string, drop: char -> bool): string {
    if s != [] && drop(s[|s| - 1]) then StripRight(s[..|s| - 1], drop) else s
  }

  function Strip(s: string, drop: char -> bool): string {
    StripRight(StripLeft(s, drop), drop)
  }

  lemma {:induction false} StripLeftStart(s: string, drop: char -> bool)
    ensures var r := StripLeft(s, drop); r == [] || !drop(r[0])
  {
    if s != [] && drop(s[0]) {
      StripLeftStart(s[1..], drop);
    }
  }

  lemma {:induction false} StripRightEnd(s: string, drop: char -> bool)
    requires s == [] || !drop(s[0])
    ensures var r := StripRight(s, drop); r == [] || (!drop(r[0]) && !drop(r[|r| - 1]))
  {
    if s != [] && drop(s[|s| - 1]) {
      StripRightEnd(s[..|s| - 1], drop);
    }
  }

  /** Stripping again takes nothing more away. */
  lemma StripEnds(s: string, drop: char -> bool)
    ensures Strip(Strip(s, drop), drop) == Strip(s, drop)
  {
    StripLeftStart(s, drop);
    StripRightEnd(StripLeft(s, drop), drop);
  }

  /** Stripping takes away what is dropped at both ends and nothing more. */
  lemma {:induction false} StripTakesEnds(before: string, core: string, after: string, drop: char -> bool)
    requires forall c :: c in before || c in after ==> drop(c)
    requires core != [] ==> !drop(core[0]) && !drop(core[|core| - 1])
    ensures Strip(before + core + after, drop) == core
  {
    if core == [] {
      assert before + core + after == before + after;
      StripAll(before + after, drop);
    } else {
      assert before + core + after == before + (core + after);
      StripBefore(before, core + after, drop);
      StripAfter(core, after, drop);
    }
  }

  lemma {:induction false} StripAll(s: string, drop: char -> bool)
    requires forall c :: c in s ==> drop(c)
    ensures StripLeft(s, drop) == []
  {
    if s != [] {
      StripAll(s[1..], drop);
    }
  }

  lemma {:induction false} StripBefore(before: string, rest: string, drop: char -> bool)
    requires (forall c :: c in before ==> drop(c)) && rest != [] && !drop(rest[0])
    ensures StripLeft(before + rest, drop) == rest
  {
    if before == [] {
      assert before + rest == rest;
    } else {
      assert (before + rest)[1..] == before[1..] + rest;
      StripBefore(before[1..], rest, drop);
    }
  }

  lemma {:induction false} StripAfter(core: string, after: string, drop: char -> bool)
    requires core != [] && !drop(core[|core| - 1]) && forall c :: c in after ==> drop(c)
    ensures StripRight(core + after, drop) == core
  {
    if after == [] {
      assert core + after == core;
    } else {
      assert (core + after)[..|core + after| - 1] == core + after[..|after| - 1];
      StripAfter(core, after[..|after| - 1], drop);
    }
  }

  /** What stripping takes away: every string is its stripped form between dropped characters. */
  lemma {:induction false} StripLeaves(s: string, drop: char -> bool) returns (before: string, after: string)
    ensures s == before + Strip(s, drop) + after
    ensures forall c :: c in before || c in after ==> drop(c)
    ensures var core := Strip(s, drop); core != [] ==> !drop(core[0]) && !drop(core[|core| - 1])
  {
    before := StripLeftLeaves(s, drop);
    StripLeftStart(s, drop);
    var rest := StripLeft(s, drop);
    after := StripRightLeaves(rest, drop);
    StripRightEnd(rest, drop);
    assert before + (Strip(s, drop) + after) == before + Strip(s, drop) + after;
  }

  lemma {:induction false} StripLeftLeaves(s: string, drop: char -> bool) returns (before: string)
    ensures s == before + StripLeft(s, drop) && forall c :: c in before ==> drop(c)
  {
    before := [];
    if s != [] && drop(s[0]) {
      var more := StripLeftLeaves(s[1..], drop);
      before := [s[0]] + more;
      assert s == [s[0]] + s[1..];
    }
  }

  lemma {:induction false} StripRightLeaves(s: string, drop: char -> bool) returns (after: string)
    ensures s == StripRight(s, drop) + after && forall c :: c in after ==> drop(c)
  {
    after := [];
    if s != [] && drop(s[|s| - 1]) {
      var more := StripRightLeaves(s[..|s| - 1], drop);
      after := more + [s[|s| - 1]];
      assert s == s[..|s| - 1] + [s[|s| - 1]];
    }
  }

  /** `s.split(".")`. */
  function SplitDots(s: string): (parts: seq<string>)
    ensures parts != []
  {
    if s == [] then [[]]
    else
      var rest := SplitDots(s[1..]);
      if s[0] == '.' then [[]] + rest else [[s[0]] + rest[0]] + rest[1..]
  }

  /** `separator.join(parts)`. */
  function Join(parts: seq<string>, separator: string): string {
    if parts == [] then []
    else if |parts| == 1 then parts[0]
    else parts[0] + separator + Join(parts[1..], separator)
  }

  lemma {:induction false} SplitFirstDot(head: string, tail: string)
    requires '.' !in head
    ensures SplitDots(head) == [head]
    ensures SplitDots(head + "." + tail) == [head] + SplitDots(tail)
  {
    var s := head + "." + tail;
    if head == [] {
      assert s == "." + tail && s[1..] == tail;
    } else {
      SplitFirstDot(head[1..], tail);
      assert s[1..] == head[1..] + "." + tail;
      assert head == [head[0]] + head[1..];
    }
  }

  /** Splitting undoes joining when no part has a dot. */
  lemma {:induction false} SplitJoin(parts: seq<string>)
    requires parts != [] && forall p :: p in parts ==> '.' !in p
    ensures SplitDots(Join(parts, ".")) == parts
  {
    if |parts| == 1 {
      SplitFirstDot(parts[0], "");
    } else {
      SplitJoin(parts[1..]);
      SplitFirstDot(parts[0], Join(parts[1..], "."));
      assert parts == [parts[0]] + parts[1..];
    }
  }

  /** Joining undoes splitting, and no part has a dot. */
  lemma {:induction false} JoinSplit(s: string)
    ensures Join(SplitDots(s), ".") == s
    ensures forall p :: p in SplitDots(s) ==> '.' !in p
  {
    if s != [] {
      JoinSplit(s[1..]);
      var rest := SplitDots(s[1..]);
      assert s == [s[0]] + s[1..];
      if s[0] == '.' {
        assert ([[]] + rest)[1..] == rest;
      } else {
        assert ([[s[0]] + rest[0]] + rest[1..])[1..] == rest[1..];
        assert rest == [rest[0]] + rest[1..];
      }
    }
  }
}

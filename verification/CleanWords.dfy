/** What cleaning an identifier keeps, and what table names are built from, said of the text itself. */
module CleanWords {
  import opened Text
  import opened Identifiers

  /** A character that is neither an ASCII letter nor an ASCII digit, nor lower-cased to one. */
  predicate Separates(c: char) {
    && !('a' <= c <= 'z') && !('A' <= c <= 'Z') && !('0' <= c <= '9')
    && c != '\U{212a}' && c != '\U{0130}'
  }

  predicate IsGap(gap: string) {
    forall c :: c in gap ==> Separates(c)
  }

  predicate IsWord(word: string) {
    word != "" && forall c :: c in word ==> 'a' <= c <= 'z' || 'A' <= c <= 'Z' || '0' <= c <= '9'
  }

  /** Words, and between each two of them a gap that is not empty. */
  predicate Alternate(words: seq<string>, gaps: seq<string>) {
    && |words| == |gaps| + 1
    && (forall w :: w in words ==> IsWord(w))
    && (forall g :: g in gaps ==> IsGap(g) && g != "")
  }

  function Alternating(words: seq<string>, gaps: seq<string>): string
    requires |words| == |gaps| + 1
  {
    if gaps == [] then words[0] else words[0] + gaps[0] + Alternating(words[1..], gaps[1..])
  }

  /** Capitals are 32 code points below their small letters. */
  function SmallLetter(c: char): char {
    if 'A' <= c <= 'Z' then (c as int + 32) as char else c
  }

  function SmallLetters(word: string): string {
    seq(|word|, i requires 0 <= i < |word| => SmallLetter(word[i]))
  }

  function AllSmall(words: seq<string>): seq<string> {
    seq(|words|, i requires 0 <= i < |words| => SmallLetters(words[i]))
  }

  lemma {:induction false} LowerConcat(a: string, b: string)
    ensures Lower(a + b) == Lower(a) + Lower(b)
  {
    if a == [] {
      assert a + b == b;
    } else {
      assert (a + b)[1..] == a[1..] + b;
      LowerConcat(a[1..], b);
    }
  }

  lemma {:induction false} LowerOfWord(word: string)
    requires forall c :: c in word ==> 'a' <= c <= 'z' || 'A' <= c <= 'Z' || '0' <= c <= '9'
    ensures Lower(word) == SmallLetters(word)
    ensures forall c :: c in SmallLetters(word) ==> IsLowerAlnum(c)
  {
    if word != [] {
      var c, rest := word[0], word[1..];
      assert c in word && forall x :: x in rest ==> x in word;
      LowerOfWord(rest);
      assert LowerChar(c) == [SmallLetter(c)] && IsLowerAlnum(SmallLetter(c));
      assert SmallLetters(word) == [SmallLetter(c)] + SmallLetters(rest);
    }
  }

  lemma {:induction false} LowerOfGap(gap: string)
    requires IsGap(gap)
    ensures Lower(gap) == gap
  {
    if gap != [] {
      assert gap[0] in gap;
      LowerOfGap(gap[1..]);
      assert gap == [gap[0]] + gap[1..];
    }
  }

  lemma {:induction false} KeepsWord(word: string, rest: string)
    requires forall c :: c in word ==> IsAlnum(c)
    ensures ReplaceRuns(word + rest) == word + ReplaceRuns(rest)
  {
    if word == [] {
      assert word + rest == rest;
    } else {
      assert word[0] in word && (word + rest)[1..] == word[1..] + rest;
      KeepsWord(word[1..], rest);
      assert word + ReplaceRuns(rest) == [word[0]] + (word[1..] + ReplaceRuns(rest));
    }
  }

  lemma {:induction false} SkipsGap(gap: string, rest: string)
    requires (forall c :: c in gap ==> !IsAlnum(c)) && (rest == [] || IsAlnum(rest[0]))
    ensures SkipSeparators(gap + rest) == rest
  {
    if gap == [] {
      assert gap + rest == rest;
    } else {
      assert gap[0] in gap && (gap + rest)[1..] == gap[1..] + rest;
      SkipsGap(gap[1..], rest);
    }
  }

  function Dash(gap: string): string {
    if gap == [] then "" else "_"
  }

  lemma ReplacesGap(gap: string, rest: string)
    requires IsGap(gap) && (rest == [] || IsAlnum(rest[0]))
    ensures ReplaceRuns(gap + rest) == Dash(gap) + ReplaceRuns(rest)
  {
    if gap == [] {
      assert gap + rest == rest;
    } else {
      assert gap[0] in gap && (gap + rest)[1..] == gap[1..] + rest;
      assert forall c :: c in gap[1..] ==> c in gap;
      SkipsGap(gap[1..], rest);
    }
  }

  lemma KeepsWordAndGap(word: string, gap: string, rest: string)
    requires IsWord(word) && IsGap(gap) && gap != [] && rest != [] && IsAlnum(rest[0])
    ensures ReplaceRuns(SmallLetters(word) + gap + rest) == SmallLetters(word) + "_" + ReplaceRuns(rest)
  {
    LowerOfWord(word);
    KeepsWord(SmallLetters(word), gap + rest);
    ReplacesGap(gap, rest);
    assert SmallLetters(word) + (gap + rest) == SmallLetters(word) + gap + rest;
    assert SmallLetters(word) + ("_" + ReplaceRuns(rest)) == SmallLetters(word) + "_" + ReplaceRuns(rest);
  }

  lemma LowerOfFirst(word: string, gap: string, tail: string)
    requires IsWord(word) && IsGap(gap)
    ensures Lower(word + gap + tail) == SmallLetters(word) + gap + Lower(tail)
  {
    LowerConcat(word + gap, tail);
    LowerConcat(word, gap);
    LowerOfWord(word);
    LowerOfGap(gap);
  }

  lemma StartsWithAlnum(word: string, rest: string)
    requires IsWord(word)
    ensures SmallLetters(word) + rest != [] && IsAlnum((SmallLetters(word) + rest)[0])
  {
    LowerOfWord(word);
    assert SmallLetters(word)[0] in SmallLetters(word);
  }

  /** Between the ends every gap becomes one underscore. */
  lemma {:induction false} InnerGaps(words: seq<string>, gaps: seq<string>, trail: string)
    requires Alternate(words, gaps) && IsGap(trail)
    ensures var lowered := Lower(Alternating(words, gaps));
            && lowered != [] && IsAlnum(lowered[0])
            && ReplaceRuns(lowered + trail) == Join(AllSmall(words), "_") + Dash(trail)
  {
    assert words[0] in words;
    if gaps == [] {
      LastWord(words[0], trail);
      assert AllSmall(words) == [SmallLetters(words[0])];
    } else {
      var tail := Alternating(words[1..], gaps[1..]);
      assert gaps[0] in gaps;
      InnerGaps(words[1..], gaps[1..], trail);
      LowerOfFirst(words[0], gaps[0], tail);
      StartsWithAlnum(words[0], gaps[0] + Lower(tail));
      var first, gap, rest := SmallLetters(words[0]), gaps[0], Lower(tail);
      assert first + (gap + rest) == first + gap + rest;
      assert first + gap + rest + trail == first + gap + (rest + trail);
      KeepsWordAndGap(words[0], gap, rest + trail);
      assert AllSmall(words)[1..] == AllSmall(words[1..]);
      var joined := Join(AllSmall(words[1..]), "_");
      assert first + "_" + (joined + Dash(trail)) == first + "_" + joined + Dash(trail);
    }
  }

  lemma LastWord(word: string, trail: string)
    requires IsWord(word) && IsGap(trail)
    ensures Lower(word) != [] && IsAlnum(Lower(word)[0])
    ensures ReplaceRuns(Lower(word) + trail) == SmallLetters(word) + Dash(trail)
  {
    LowerOfWord(word);
    StartsWithAlnum(word, []);
    assert SmallLetters(word) + [] == SmallLetters(word) && trail + [] == trail;
    ReplacesGap(trail, []);
    KeepsWord(SmallLetters(word), trail);
  }

  /** Leading and trailing white space is part of the outer gaps. */
  lemma StripKeepsWords(lead: string, core: string, trail: string) returns (lead': string, trail': string)
    requires IsGap(lead) && IsGap(trail)
    requires core != [] && !IsSpace(core[0]) && !IsSpace(core[|core| - 1])
    ensures IsGap(lead') && IsGap(trail')
    ensures Strip(lead + core + trail, IsSpace) == lead' + core + trail'
  {
    var before := StripLeftLeaves(lead, IsSpace);
    var after := StripRightLeaves(trail, IsSpace);
    lead', trail' := StripLeft(lead, IsSpace), StripRight(trail, IsSpace);
    StripLeftStart(lead, IsSpace);
    LastStays(trail);
    assert forall c :: c in lead' ==> c in before + lead';
    assert forall c :: c in trail' ==> c in trail' + after;
    var middle := lead' + core + trail';
    Regroup(before, lead', core, trail', after);
    StripTakesEnds(before, middle, after, IsSpace);
  }

  lemma Regroup(a: string, b: string, c: string, d: string, e: string)
    ensures (a + b) + c + (d + e) == a + (b + c + d) + e
  {
  }

  lemma {:induction false} LastStays(s: string)
    ensures var r := StripRight(s, IsSpace); r == [] || !IsSpace(r[|r| - 1])
  {
    if s != [] && IsSpace(s[|s| - 1]) {
      LastStays(s[..|s| - 1]);
    }
  }

  lemma {:induction false} EndsInWords(words: seq<string>, gaps: seq<string>)
    requires Alternate(words, gaps)
    ensures var s := Alternating(words, gaps);
            s != [] && !IsSpace(s[0]) && !IsSpace(s[|s| - 1])
  {
    assert words[0] in words && words[0][0] in words[0] && words[0][|words[0]| - 1] in words[0];
    if gaps != [] {
      EndsInWords(words[1..], gaps[1..]);
    }
  }

  lemma {:induction false} JoinedIsTrimmed(words: seq<string>)
    requires words != [] && forall w :: w in words ==> IsWord(w)
    ensures var joined := Join(AllSmall(words), "_");
            joined != [] && joined[0] != '_' && joined[|joined| - 1] != '_'
  {
    var first := SmallLetters(words[0]);
    assert words[0] in words;
    LowerOfWord(words[0]);
    assert first[0] in first && first[|first| - 1] in first;
    if |words| > 1 {
      JoinedIsTrimmed(words[1..]);
      assert AllSmall(words)[1..] == AllSmall(words[1..]);
    }
  }

  /** Cleaning keeps the words of a name, in small letters and joined by single underscores. */
  lemma SanitizeJoinsWords(lead: string, words: seq<string>, gaps: seq<string>, trail: string)
    requires Alternate(words, gaps) && IsGap(lead) && IsGap(trail)
    ensures Sanitize(lead + Alternating(words, gaps) + trail) == Join(AllSmall(words), "_")
  {
    var core := Alternating(words, gaps);
    EndsInWords(words, gaps);
    var lead', trail' := StripKeepsWords(lead, core, trail);
    LowerBetweenGaps(lead', core, trail');
    InnerGaps(words, gaps, trail');
    ReplacesGap(lead', Lower(core) + trail');
    JoinedIsTrimmed(words);
    DashesGo(Dash(lead'), Join(AllSmall(words), "_"), Dash(trail'));
  }

  lemma LowerBetweenGaps(lead: string, core: string, trail: string)
    requires IsGap(lead) && IsGap(trail)
    ensures Lower(lead + core + trail) == lead + (Lower(core) + trail)
  {
    assert lead + core + trail == lead + (core + trail);
    LowerConcat(lead, core + trail);
    LowerConcat(core, trail);
    LowerOfGap(lead);
    LowerOfGap(trail);
  }

  lemma DashesGo(before: string, joined: string, after: string)
    requires forall c :: c in before || c in after ==> c == '_'
    requires joined != [] && joined[0] != '_' && joined[|joined| - 1] != '_'
    ensures Strip(before + (joined + after), IsUnderscore) == joined
  {
    assert before + (joined + after) == before + joined + after;
    StripTakesEnds(before, joined, after, IsUnderscore);
  }

  /** Without a word there is nothing to keep. */
  lemma SanitizeOfGap(gap: string)
    requires IsGap(gap)
    ensures Sanitize(gap) == "value"
  {
    var before, after := StripLeaves(gap, IsSpace);
    var core := Strip(gap, IsSpace);
    assert forall c :: c in core ==> c in before + core + after;
    LowerOfGap(core);
    assert core + [] == core;
    ReplacesGap(core, []);
    var dashes := ReplaceRuns(core);
    assert dashes + [] + [] == dashes;
    StripTakesEnds(dashes, [], [], IsUnderscore);
  }

  /** Every text is a gap or words with gaps around them, so the two laws leave nothing out. */
  lemma {:induction false} EveryTextHasWords(s: string)
    returns (lead: string, words: seq<string>, gaps: seq<string>, trail: string)
    requires forall c :: c in s ==> c != '\U{212a}' && c != '\U{0130}'
    ensures IsGap(lead) && IsGap(trail)
    ensures words == [] ==> s == lead
    ensures words != [] ==> Alternate(words, gaps) && s == lead + Alternating(words, gaps) + trail
  {
    lead, words, gaps, trail := [], [], [], [];
    if s != [] {
      var c, rest := s[0], s[1..];
      assert s == [c] + rest && c in s && forall x :: x in rest ==> x in s;
      lead, words, gaps, trail := EveryTextHasWords(rest);
      if Separates(c) {
        if words != [] {
          assert [c] + (lead + Alternating(words, gaps) + trail) == [c] + lead + Alternating(words, gaps) + trail;
        }
        lead := [c] + lead;
      } else if words == [] {
        words, trail, gaps, lead := [[c]], lead, [], [];
      } else if lead == [] {
        LongerWord(c, words, gaps);
        assert [c] + (lead + Alternating(words, gaps) + trail) == [c] + Alternating(words, gaps) + trail;
        words := [[c] + words[0]] + words[1..];
      } else {
        OneWordMore(c, lead, words, gaps);
        assert [c] + (lead + Alternating(words, gaps) + trail) == [c] + lead + Alternating(words, gaps) + trail;
        words, gaps, lead := [[c]] + words, [lead] + gaps, [];
      }
    }
  }

  lemma LongerWord(c: char, words: seq<string>, gaps: seq<string>)
    requires Alternate(words, gaps) && IsWord([c])
    ensures var longer := [[c] + words[0]] + words[1..];
            Alternate(longer, gaps) && Alternating(longer, gaps) == [c] + Alternating(words, gaps)
  {
    var longer := [[c] + words[0]] + words[1..];
    assert words[0] in words && [c][0] in [c];
    forall w | w in longer
      ensures IsWord(w)
    {
      assert w == [c] + words[0] || w in words[1..];
    }
    assert longer[1..] == words[1..];
    if gaps != [] {
      var rest := gaps[0] + Alternating(words[1..], gaps[1..]);
      assert [c] + words[0] + gaps[0] + Alternating(words[1..], gaps[1..]) == [c] + words[0] + rest;
      assert words[0] + gaps[0] + Alternating(words[1..], gaps[1..]) == words[0] + rest;
    }
  }

  lemma OneWordMore(c: char, gap: string, words: seq<string>, gaps: seq<string>)
    requires Alternate(words, gaps) && IsWord([c]) && IsGap(gap) && gap != []
    ensures var longer, more := [[c]] + words, [gap] + gaps;
            Alternate(longer, more) && Alternating(longer, more) == [c] + gap + Alternating(words, gaps)
  {
    var longer, more := [[c]] + words, [gap] + gaps;
    assert longer[1..] == words && more[1..] == gaps;
  }

  /** Of the two characters set aside the Kelvin sign is lower-cased to a letter. */
  lemma KelvinSign()
    ensures Sanitize("\U{212a}") == "k"
  {
    var kelvin := "\U{212a}";
    assert Strip(kelvin, IsSpace) == kelvin;
    assert kelvin[1..] == [] && Lower(kelvin) == "k" + [];
    SanitizeKeepsClean("k");
  }

  /** The dotted capital I is lower-cased to a letter and a separator. */
  lemma DottedCapital()
    ensures Sanitize("\U{0130}b") == "i_b"
  {
    var dotted := "\U{0130}b";
    assert Strip(dotted, IsSpace) == dotted;
    LowerOfDotted();
    RunsOfDotted();
    SanitizeKeepsClean("i_b");
  }

  lemma LowerOfDotted()
    ensures Lower("\U{0130}b") == "i\U{0307}b"
  {
    LowerConcat("\U{0130}", "b");
    LowerOfWord("b");
    assert "\U{0130}" + "b" == "\U{0130}b" && SmallLetters("b") == "b";
    assert "\U{0130}"[1..] == [] && Lower("\U{0130}") == "i\U{0307}" + [];
    assert "i\U{0307}" + "b" == "i\U{0307}b";
  }

  lemma RunsOfDotted()
    ensures ReplaceRuns("i\U{0307}b") == "i_b"
  {
    KeepsWord("b", []);
    ReplacesGap("\U{0307}", "b");
    KeepsWord("i", "\U{0307}b");
    assert "b" + [] == "b" && "\U{0307}" + "b" == "\U{0307}b" && "i" + "\U{0307}b" == "i\U{0307}b";
    assert "i" + ("_" + "b") == "i_b";
  }

  // Table names.

  lemma {:induction false} JoinSnoc(parts: seq<string>, last: string, separator: string)
    requires parts != []
    ensures Join(parts + [last], separator) == Join(parts, separator) + separator + last
  {
    if |parts| > 1 {
      JoinSnoc(parts[1..], last, separator);
      assert (parts + [last])[1..] == parts[1..] + [last];
    }
  }

  /** A table name is the cleaned segments with the separator of the policy between each two. */
  lemma BaseNameGrows(naming: Naming, segments: seq<string>, last: string)
    ensures BaseName(naming, [last]) == Sanitize(last)
    ensures segments != [] ==>
              BaseName(naming, segments + [last]) == BaseName(naming, segments) + naming.separator + Sanitize(last)
  {
    assert SanitizeAll([last]) == [Sanitize(last)];
    if segments != [] {
      assert SanitizeAll(segments + [last]) == SanitizeAll(segments) + [Sanitize(last)];
      JoinSnoc(SanitizeAll(segments), Sanitize(last), naming.separator);
    }
  }

  /** A name that does not fit or is taken is cut, loses underscores at the cut and gets eight digits of the digest. */
  lemma HashedNameIs(naming: Naming, base: string, logicalPath: string) returns (prefix: string)
    ensures var digits := naming.digest(logicalPath);
            var suffix := naming.separator + if |digits| <= 8 then digits else digits[..8];
            var room := naming.maxIdentifierLength - |suffix|;
      && HashedName(naming, base, logicalPath) == prefix + suffix
      && prefix <= base && |prefix| <= (if room < 0 then 0 else room)
      && (prefix != [] ==> prefix[|prefix| - 1] != '_')
      && forall k :: |prefix| <= k < |base| && k < room ==> base[k] == '_'
  {
    var suffix := naming.separator + Take(naming.digest(logicalPath), 8);
    var cut := Take(base, naming.maxIdentifierLength - |suffix|);
    prefix := StripRight(cut, IsUnderscore);
    var after := StripRightLeaves(cut, IsUnderscore);
    LastIsNoUnderscore(cut);
    forall k | |prefix| <= k < |base| && k < naming.maxIdentifierLength - |suffix|
      ensures base[k] == '_'
    {
      assert cut[k] == after[k - |prefix|];
      assert after[k - |prefix|] in after;
    }
  }

  lemma {:induction false} LastIsNoUnderscore(s: string)
    ensures var r := StripRight(s, IsUnderscore); r == [] || r[|r| - 1] != '_'
  {
    if s != [] && s[|s| - 1] == '_' {
      LastIsNoUnderscore(s[..|s| - 1]);
    }
  }
}

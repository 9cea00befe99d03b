/** `count_specific_word(text, word)`: the number of items `re.findall` returns
    for the pattern `\b<word>\b` over the lower-cased text, the word itself
    lower-cased and escaped so that it matches literally. */
module WordCount {
  import opened Chars

  /** A query word made of `\w` characters only. For such a word `\b` just
      before it means "at the start of the text or after a non-word character"
      and `\b` just after it means "at the end or before a non-word character". */
  predicate IsWord(w: string)
  {
    w != [] && forall i | 0 <= i < |w| :: IsWordChar(w[i])
  }

  /** How the literal word is delimited in the pattern. `WordBoundary` is
      `\b` on both sides, as `count_specific_word` writes it;
      `NoWordCharAround` is `(?<!\w)` before and `(?!\w)` after, which asks
      only that no word character touches the occurrence. */
  datatype Delimiter = WordBoundary | NoWordCharAround

  /** `\b` at position `p`: a word character on exactly one side, the
      outside of the text counting as a non-word character. */
  predicate AtBoundary(t: string, p: nat)
    requires p <= |t|
  {
    (p > 0 && IsWordChar(t[p - 1])) != (p < |t| && IsWordChar(t[p]))
  }

  /** The delimiters of `d` hold around the stretch `t[i..e]`. */
  predicate DelimitedAt(t: string, i: nat, e: nat, d: Delimiter)
    requires i <= e <= |t|
  {
    match d
    case WordBoundary => AtBoundary(t, i) && AtBoundary(t, e)
    case NoWordCharAround => (i == 0 || !IsWordChar(t[i - 1])) && (e == |t| || !IsWordChar(t[e]))
  }

  /** The pattern, delimited by `d`, matches `t` starting at position `i`. */
  predicate MatchAt(t: string, w: string, i: nat, d: Delimiter)
  {
    i + |w| <= |t| && t[i..i + |w|] == w && DelimitedAt(t, i, i + |w|, d)
  }

  /** The start positions `re.findall` reports when it scans `t` from
      position `i`: a match at `i` is recorded and the scan resumes where the
      match ends (one further on for an empty match); otherwise the scan
      moves on by one character. */
  function FindAll(t: string, w: string, i: nat, d: Delimiter): (r: seq<nat>)
    ensures forall k | 0 <= k < |r| :: i <= r[k] && MatchAt(t, w, r[k], d)
    decreases |t| + 1 - i
  {
    if i + |w| > |t| then []
    else if MatchAt(t, w, i, d) then
      [i] + FindAll(t, w, i + (if w == [] then 1 else |w|), d)
    else FindAll(t, w, i + 1, d)
  }

  /** Positions in increasing order, each at least `n` after the one before. */
  predicate Spaced(r: seq<nat>, n: nat)
  {
    forall k, l | 0 <= k < l < |r| :: r[k] + n <= r[l] && r[k] < r[l]
  }

  /** The reported positions increase, and the matches at them do not overlap. */
  lemma {:induction false} FindAllSpaced(t: string, w: string, i: nat, d: Delimiter)
    ensures Spaced(FindAll(t, w, i, d), |w|)
    decreases |t| + 1 - i
  {
    if i + |w| <= |t| {
      if MatchAt(t, w, i, d) {
        var next := i + (if w == [] then 1 else |w|);
        FindAllSpaced(t, w, next, d);
        SpacedCons(i, FindAll(t, w, next, d), |w|, next);
        assert FindAll(t, w, i, d) == [i] + FindAll(t, w, next, d);
      } else {
        FindAllSpaced(t, w, i + 1, d);
        assert FindAll(t, w, i, d) == FindAll(t, w, i + 1, d);
      }
    }
  }

  /** A position in front of later ones keeps them spaced. */
  lemma SpacedCons(x: nat, rest: seq<nat>, n: nat, next: nat)
    requires Spaced(rest, n) && x + n <= next && x < next
    requires forall k | 0 <= k < |rest| :: next <= rest[k]
    ensures Spaced([x] + rest, n)
  {
    var r := [x] + rest;
    forall k, l | 0 <= k < l < |r| ensures r[k] + n <= r[l] && r[k] < r[l] {
      assert r[l] == rest[l - 1];
      if k > 0 {
        assert r[k] == rest[k - 1];
      }
    }
  }

  /** The reported matches of a non-empty word fit side by side in the
      rest of the text. */
  lemma {:induction false} FindAllFits(t: string, w: string, i: nat, d: Delimiter)
    ensures w != [] && FindAll(t, w, i, d) != [] ==> i + |FindAll(t, w, i, d)| * |w| <= |t|
    decreases |t| + 1 - i
  {
    if w != [] && i + |w| <= |t| {
      var matched := MatchAt(t, w, i, d);
      var next := if matched then i + |w| else i + 1;
      var rest := FindAll(t, w, next, d);
      FindAllFits(t, w, next, d);
      if matched {
        assert FindAll(t, w, i, d) == [i] + rest;
        MulStep(|rest|, |w|);
      } else {
        assert FindAll(t, w, i, d) == rest;
      }
    }
  }

  /** One more factor of `m`. */
  lemma MulStep(n: nat, m: nat)
    ensures (n + 1) * m == m + n * m
  {
  }

  /** Reference count: the number of positions from `i` on at which the
      pattern matches, whatever the scan does between them. */
  function OccurrencesFrom(t: string, w: string, i: nat, d: Delimiter): nat
    decreases |t| + 1 - i
  {
    if i > |t| then 0
    else (if MatchAt(t, w, i, d) then 1 else 0) + OccurrencesFrom(t, w, i + 1, d)
  }

  /** `count_specific_word` as written, with `\b` on both sides. It never
      reports more matches than there are positions where the pattern
      matches, and exactly as many when the word is empty or made of word
      characters only (such matches cannot overlap). */
  function CountSpecificWord(text: string, word: string): (r: nat)
    ensures r <= OccurrencesFrom(Lower(text), Lower(word), 0, WordBoundary)
    ensures word == [] || IsWord(word) ==> r == OccurrencesFrom(Lower(text), Lower(word), 0, WordBoundary)
    ensures word != [] ==> r * |word| <= |text|
    ensures text == [] ==> r == 0
  {
    CountFindAll(text, word, WordBoundary)
  }

  /** The whole-word count `count_specific_word` is meant to give: an
      occurrence counts when no word character touches it. It agrees with
      the source for every word made of word characters only. */
  function CountWholeWord(text: string, word: string): (r: nat)
    ensures r <= OccurrencesFrom(Lower(text), Lower(word), 0, NoWordCharAround)
    ensures word == [] || IsWord(word) ==> r == OccurrencesFrom(Lower(text), Lower(word), 0, NoWordCharAround)
    ensures word != [] ==> r * |word| <= |text|
    ensures text == [] && word != [] ==> r == 0
    ensures IsWord(word) ==> r == CountSpecificWord(text, word)
  {
    var r := CountFindAll(text, word, NoWordCharAround);
    if IsWord(word) then
      DelimitersAgreeOnWords(Lower(text), Lower(word), 0);
      r
    else r
  }

  /** The shared body of both counts: `len(re.findall(pattern, text.lower()))`. */
  function CountFindAll(text: string, word: string, d: Delimiter): (r: nat)
    ensures r <= OccurrencesFrom(Lower(text), Lower(word), 0, d)
    ensures word == [] || IsWord(word) ==> r == OccurrencesFrom(Lower(text), Lower(word), 0, d)
    ensures word != [] ==> r * |word| <= |text|
    ensures text == [] && (word != [] || d == WordBoundary) ==> r == 0
  {
    var t, w := Lower(text), Lower(word);
    FindAllWithinOccurrences(t, w, 0, d);
    FindAllFits(t, w, 0, d);
    if w == [] || IsWord(w) then
      FindAllCountsEveryOccurrence(t, w, 0, d);
      |FindAll(t, w, 0, d)|
    else |FindAll(t, w, 0, d)|
  }

  /** For a word of word characters the two delimitings coincide: same
      reference count and same reported positions. */
  lemma DelimitersAgreeOnWords(t: string, w: string, i: nat)
    requires IsWord(w)
    ensures OccurrencesFrom(t, w, i, WordBoundary) == OccurrencesFrom(t, w, i, NoWordCharAround)
    ensures FindAll(t, w, i, WordBoundary) == FindAll(t, w, i, NoWordCharAround)
  {
    OccurrencesAgree(t, w, i);
    FindAllAgree(t, w, i);
  }

  lemma {:induction false} OccurrencesAgree(t: string, w: string, i: nat)
    requires IsWord(w)
    ensures OccurrencesFrom(t, w, i, WordBoundary) == OccurrencesFrom(t, w, i, NoWordCharAround)
    decreases |t| + 1 - i
  {
    if i <= |t| {
      SameMatch(t, w, i);
      OccurrencesAgree(t, w, i + 1);
    }
  }

  lemma {:induction false} FindAllAgree(t: string, w: string, i: nat)
    requires IsWord(w)
    ensures FindAll(t, w, i, WordBoundary) == FindAll(t, w, i, NoWordCharAround)
    decreases |t| + 1 - i
  {
    if i + |w| <= |t| {
      SameMatch(t, w, i);
      var next := if MatchAt(t, w, i, WordBoundary) then i + |w| else i + 1;
      FindAllAgree(t, w, next);
      var rest := FindAll(t, w, next, WordBoundary);
      var found := if MatchAt(t, w, i, WordBoundary) then [i] else [];
      assert FindAll(t, w, i, WordBoundary) == found + rest;
      assert FindAll(t, w, i, NoWordCharAround) == found + rest;
    }
  }

  /** The two delimitings accept the same positions for a word of word characters. */
  lemma SameMatch(t: string, w: string, i: nat)
    requires IsWord(w)
    ensures MatchAt(t, w, i, WordBoundary) == MatchAt(t, w, i, NoWordCharAround)
  {
    if i + |w| <= |t| && t[i..i + |w|] == w {
      assert t[i] == w[0];
      assert t[i + |w| - 1] == w[|w| - 1];
    }
  }

  /** Two occurrences of a word-character word cannot overlap: inside a
      match the character before any later start is a word character. */
  lemma NoOverlap(t: string, w: string, i: nat, j: nat, d: Delimiter)
    requires IsWord(w)
    requires MatchAt(t, w, i, d)
    requires i < j < i + |w|
    ensures !MatchAt(t, w, j, d)
  {
    assert t[j - 1] == t[i..i + |w|][j - 1 - i] == w[j - 1 - i];
    if j + |w| <= |t| && t[j..j + |w|] == w {
      assert t[j] == w[0];
    }
  }

  /** Positions where nothing matches add nothing to the reference count. */
  lemma {:induction false} SkipNonMatches(t: string, w: string, i: nat, j: nat, d: Delimiter)
    requires i <= j
    requires forall k | i <= k < j :: !MatchAt(t, w, k, d)
    ensures OccurrencesFrom(t, w, i, d) == OccurrencesFrom(t, w, j, d)
    decreases j - i
  {
    if i < j && i <= |t| {
      SkipNonMatches(t, w, i + 1, j, d);
    }
  }

  /** No match starts where the word no longer fits. */
  lemma NoRoomNoMatch(t: string, w: string, i: nat, d: Delimiter)
    requires i + |w| > |t|
    ensures OccurrencesFrom(t, w, i, d) == 0
  {
    if i <= |t| {
      SkipNonMatches(t, w, i, |t| + 1, d);
    }
  }

  /** After a match of a word-character word, nothing matches before its end. */
  lemma SkipInsideMatch(t: string, w: string, i: nat, d: Delimiter)
    requires IsWord(w)
    requires MatchAt(t, w, i, d)
    ensures OccurrencesFrom(t, w, i, d) == 1 + OccurrencesFrom(t, w, i + |w|, d)
  {
    forall k | i + 1 <= k < i + |w| ensures !MatchAt(t, w, k, d) {
      NoOverlap(t, w, i, k, d);
    }
    SkipNonMatches(t, w, i + 1, i + |w|, d);
  }

  /** Positions further on hold no more matches. */
  lemma {:induction false} OccurrencesShrink(t: string, w: string, i: nat, j: nat, d: Delimiter)
    requires i <= j
    ensures OccurrencesFrom(t, w, j, d) <= OccurrencesFrom(t, w, i, d)
    decreases j - i
  {
    if i < j && i <= |t| {
      OccurrencesShrink(t, w, i + 1, j, d);
    }
  }

  /** Each reported position is a distinct match, so the scan never reports
      more matches than there are positions where the pattern matches. */
  lemma {:induction false} FindAllWithinOccurrences(t: string, w: string, i: nat, d: Delimiter)
    ensures |FindAll(t, w, i, d)| <= OccurrencesFrom(t, w, i, d)
    decreases |t| + 1 - i
  {
    if i + |w| <= |t| {
      if MatchAt(t, w, i, d) {
        var next := i + if w == [] then 1 else |w|;
        assert FindAll(t, w, i, d) == [i] + FindAll(t, w, next, d);
        FindAllWithinOccurrences(t, w, next, d);
        OccurrencesShrink(t, w, i + 1, next, d);
      } else {
        assert FindAll(t, w, i, d) == FindAll(t, w, i + 1, d);
        FindAllWithinOccurrences(t, w, i + 1, d);
      }
    }
  }

  /** The findall scan misses nothing when matches cannot overlap: the
      number of matches it reports is the number of positions where the
      pattern matches. */
  lemma {:induction false} FindAllCountsEveryOccurrence(t: string, w: string, i: nat, d: Delimiter)
    requires w == [] || IsWord(w)
    ensures |FindAll(t, w, i, d)| == OccurrencesFrom(t, w, i, d)
    decreases |t| + 1 - i
  {
    if i + |w| > |t| {
      NoRoomNoMatch(t, w, i, d);
    } else if MatchAt(t, w, i, d) {
      if w == [] {
        FindAllCountsEveryOccurrence(t, w, i + 1, d);
      } else {
        FindAllCountsEveryOccurrence(t, w, i + |w|, d);
        SkipInsideMatch(t, w, i, d);
      }
    } else {
      FindAllCountsEveryOccurrence(t, w, i + 1, d);
    }
  }

  /** Every occurrence of a word-character word from `i` on is among the
      positions the scan reports. */
  lemma {:induction false} FindAllFindsEveryOccurrence(t: string, w: string, i: nat, j: nat, d: Delimiter)
    requires IsWord(w)
    requires i <= j && MatchAt(t, w, j, d)
    ensures j in FindAll(t, w, i, d)
    decreases |t| + 1 - i
  {
    if MatchAt(t, w, i, d) {
      if j != i {
        MatchesApart(t, w, i, j, d);
        FindAllFindsEveryOccurrence(t, w, i + |w|, j, d);
        FoundAfterMatch(t, w, i, j, d);
      }
    } else {
      FindAllFindsEveryOccurrence(t, w, i + 1, j, d);
      FoundAfterNonMatch(t, w, i, j, d);
    }
  }

  /** Two matches of a word-character word lie at least its length apart. */
  lemma MatchesApart(t: string, w: string, i: nat, j: nat, d: Delimiter)
    requires IsWord(w)
    requires i < j && MatchAt(t, w, i, d) && MatchAt(t, w, j, d)
    ensures i + |w| <= j
  {
    if j < i + |w| {
      NoOverlap(t, w, i, j, d);
    }
  }

  /** After a match the scan resumes at its end, so what it reports from
      there it reports from the match on. */
  lemma FoundAfterMatch(t: string, w: string, i: nat, j: nat, d: Delimiter)
    requires w != [] && MatchAt(t, w, i, d)
    requires j in FindAll(t, w, i + |w|, d)
    ensures j in FindAll(t, w, i, d)
  {
    assert FindAll(t, w, i, d) == [i] + FindAll(t, w, i + |w|, d);
  }

  /** Where nothing matches the scan moves on by one. */
  lemma FoundAfterNonMatch(t: string, w: string, i: nat, j: nat, d: Delimiter)
    requires i + |w| <= |t| && !MatchAt(t, w, i, d)
    requires j in FindAll(t, w, i + 1, d)
    ensures j in FindAll(t, w, i, d)
  {
    assert FindAll(t, w, i, d) == FindAll(t, w, i + 1, d);
  }

  /** The scan reports nothing exactly when the pattern matches nowhere
      from `i` on. */
  lemma {:induction false} FindAllEmptyIffAbsent(t: string, w: string, i: nat, d: Delimiter)
    ensures FindAll(t, w, i, d) == [] <==> forall j: nat :: i <= j ==> !MatchAt(t, w, j, d)
    decreases |t| + 1 - i
  {
    if i + |w| > |t| {
    } else if !MatchAt(t, w, i, d) {
      FindAllEmptyIffAbsent(t, w, i + 1, d);
      forall j: nat | i <= j && MatchAt(t, w, j, d) ensures i + 1 <= j { }
    }
  }

  /** Each count is zero exactly when its pattern matches nowhere in the
      lower-cased text. */
  lemma CountZeroIffAbsent(text: string, word: string)
    ensures CountSpecificWord(text, word) == 0
        <==> forall j: nat :: !MatchAt(Lower(text), Lower(word), j, WordBoundary)
    ensures CountWholeWord(text, word) == 0
        <==> forall j: nat :: !MatchAt(Lower(text), Lower(word), j, NoWordCharAround)
  {
    FindAllEmptyIffAbsent(Lower(text), Lower(word), 0, WordBoundary);
    FindAllEmptyIffAbsent(Lower(text), Lower(word), 0, NoWordCharAround);
  }

  /** Matching ignores case on both sides: texts and words that agree once
      lower-cased give the same count. */
  lemma CaseInsensitive(text1: string, text2: string, word1: string, word2: string)
    requires Lower(text1) == Lower(text2) && Lower(word1) == Lower(word2)
    ensures CountSpecificWord(text1, word1) == CountSpecificWord(text2, word2)
    ensures CountWholeWord(text1, word1) == CountWholeWord(text2, word2)
  {
  }

  /** No match where the text does not hold the word's first character. */
  lemma NotStartingHere(t: string, w: string, k: nat, d: Delimiter)
    requires w != [] && (k >= |t| || t[k] != w[0])
    ensures !MatchAt(t, w, k, d)
  {
    if k + |w| <= |t| { assert t[k..k + |w|][0] == t[k]; }
  }

  /** "Cat" is counted between spaces, whatever its case. */
  lemma ExampleCountedAcrossCase(text: string, word: string)
    requires text == "The Cat sat" && word == "cat"
    ensures CountSpecificWord(text, word) == 1
  {
    assert Lower(text) == "the cat sat";
    assert Lower(word) == word;
    OneCatInLine(Lower(text), word);
  }

  /** The reference count of "cat" in "the cat sat". */
  lemma OneCatInLine(t: string, w: string)
    requires t == "the cat sat" && w == "cat"
    ensures OccurrencesFrom(t, w, 0, WordBoundary) == 1
  {
    var d := WordBoundary;
    assert MatchAt(t, w, 4, d);
    forall k | 0 <= k < 4 ensures !MatchAt(t, w, k, d) { NotStartingHere(t, w, k, d); }
    SkipNonMatches(t, w, 0, 4, d);
    SkipInsideMatch(t, w, 4, d);
    NoRoomNoMatch(t, w, 9, d);
    forall k | 7 <= k < 9 ensures !MatchAt(t, w, k, d) { NotStartingHere(t, w, k, d); }
    SkipNonMatches(t, w, 7, 9, d);
  }

  /** A trailing full stop is a word boundary. */
  lemma ExampleFollowedByPunctuation()
    ensures CountSpecificWord("Cat.", "cat") == 1
  {
    var t, w, d := Lower("Cat."), "cat", WordBoundary;
    assert t == "cat.";
    assert Lower(w) == w;
    assert MatchAt(t, w, 0, d);
    SkipInsideMatch(t, w, 0, d);
    NoRoomNoMatch(t, w, 3, d);
  }

  /** '_' is a word character, so "cat_x" holds no whole "cat". */
  lemma ExampleUnderscoreJoins()
    ensures CountSpecificWord("cat_x", "cat") == 0
  {
    var t := Lower("cat_x");
    assert t == "cat_x";
  }

  /** No match inside a longer word. */
  lemma ExampleInsideWord()
    ensures CountSpecificWord("concatenate", "cat") == 0
  {
    var t, w := Lower("concatenate"), Lower("cat");
    assert t == "concatenate" && w == "cat";
    forall j: nat ensures !MatchAt(t, w, j, WordBoundary) {
      if j == 3 {
        assert !AtBoundary(t, 3) by { assert IsWordChar(t[2]) && IsWordChar(t[3]); }
      } else if j + 3 <= |t| {
        assert t[j..j + 3][0] == t[j] && t[j..j + 3][1] == t[j + 1];
      }
    }
    CountZeroIffAbsent("concatenate", "cat");
  }

  /** A word that ends in punctuation is never found by the source: `\b`
      after the final '.' would need a word character to follow it. The text
      "U.S." holds the word "U.S." once, yet the count is 0; the whole-word
      count gives 1. */
  lemma AbbreviationIsMissed()
    ensures CountSpecificWord("U.S.", "U.S.") == 0
    ensures CountWholeWord("U.S.", "U.S.") == 1
  {
    var t := Lower("U.S.");
    assert t == "u.s.";
    assert !MatchAt(t, t, 0, WordBoundary);
    assert MatchAt(t, t, 0, NoWordCharAround);
  }

  /** On the empty word the two counts part ways: in the text " " the source's
      `\b\b` matches nowhere, since no position is a boundary, while the
      whole-word pattern matches the empty string before and after the
      space. */
  lemma EmptyWordDiffers()
    ensures CountSpecificWord(" ", "") == 0
    ensures CountWholeWord(" ", "") == 2
  {
    var t: string := " ";
    assert Lower(t) == t;
    assert Lower([]) == [];
    assert !MatchAt(t, [], 0, WordBoundary) && !MatchAt(t, [], 1, WordBoundary);
    assert FindAll(t, [], 0, WordBoundary) == [];
    assert MatchAt(t, [], 0, NoWordCharAround) && MatchAt(t, [], 1, NoWordCharAround);
    assert FindAll(t, [], 0, NoWordCharAround) == [0, 1];
  }
}

/** `count_sentences(text)`: `re.split(r'[.!?]+', text)`, keep the pieces
    that are not blank, count them. */
module Sentences {
  import opened Chars
  import opened Splitting

  /** A character of the class `[.!?]`. */
  predicate IsTerminator(c: char)
  {
    c == '.' || c == '!' || c == '?'
  }

  /** `s` holds no character of `[.!?]`. */
  predicate NoTerminator(s: string)
  {
    forall k | 0 <= k < |s| :: !IsTerminator(s[k])
  }

  /** The end of the run of terminators that starts at `i`. */
  function RunEnd(s: string, i: nat): (e: nat)
    requires i <= |s|
    ensures i <= e <= |s|
    ensures forall k | i <= k < e :: IsTerminator(s[k])
    ensures e == |s| || !IsTerminator(s[e])
    ensures i < |s| && IsTerminator(s[i]) ==> i < e
    decreases |s| - i
  {
    if i < |s| && IsTerminator(s[i]) then RunEnd(s, i + 1) else i
  }

  /** The first terminator at or after `i`, or the end of `s`. */
  function NextTerminator(s: string, i: nat): (j: nat)
    requires i <= |s|
    ensures i <= j <= |s|
    ensures forall k | i <= k < j :: !IsTerminator(s[k])
    ensures j == |s| || IsTerminator(s[j])
    decreases |s| - i
  {
    if i == |s| || IsTerminator(s[i]) then i else NextTerminator(s, i + 1)
  }

  /** `re.split(r'[.!?]+', s[start..])`: the leftmost match is the first
      terminator at or after `start`, and the greedy `+` extends it to the
      end of its run; the search then resumes after the match. */
  function SplitFrom(s: string, start: nat): (p: Pieces)
    requires start <= |s|
    ensures |p.segments| == |p.separators| + 1
    ensures Interleave(p.segments, p.separators) == s[start..]
    ensures forall k | 0 <= k < |p.segments| :: NoTerminator(p.segments[k])
    ensures forall k | 0 <= k < |p.separators| ::
              p.separators[k] != [] && forall c | c in p.separators[k] :: IsTerminator(c)
    decreases |s| - start
  {
    var j := NextTerminator(s, start);
    TerminatorFreePrefix(s, start);
    if j == |s| then
      assert s[start..j] == s[start..];
      Pieces([s[start..]], [])
    else
      var e := RunEnd(s, j);
      var rest := SplitFrom(s, e);
      SliceInThree(s, start, j, e);
      PrependSentence(s[start..j], s[j..e], rest);
      Pieces([s[start..j]] + rest.segments, [s[j..e]] + rest.separators)
  }

  /** A sentence and the run of terminators closing it, put in front of the
      rest of a split, keep the shape of a split. */
  lemma PrependSentence(segment: string, separator: string, rest: Pieces)
    requires |rest.segments| == |rest.separators| + 1
    requires NoTerminator(segment)
    requires separator != [] && forall c | c in separator :: IsTerminator(c)
    requires forall k | 0 <= k < |rest.segments| :: NoTerminator(rest.segments[k])
    requires forall k | 0 <= k < |rest.separators| ::
               rest.separators[k] != [] && forall c | c in rest.separators[k] :: IsTerminator(c)
    ensures var p := Pieces([segment] + rest.segments, [separator] + rest.separators);
      && Interleave(p.segments, p.separators) == segment + separator + Interleave(rest.segments, rest.separators)
      && (forall k | 0 <= k < |p.segments| :: NoTerminator(p.segments[k]))
      && (forall k | 0 <= k < |p.separators| ::
            p.separators[k] != [] && forall c | c in p.separators[k] :: IsTerminator(c))
  {
    var p := Pieces([segment] + rest.segments, [separator] + rest.separators);
    InterleaveCons(segment, separator, rest.segments, rest.separators);
    assert forall k | 1 <= k < |p.segments| :: p.segments[k] == rest.segments[k - 1];
    assert forall k | 1 <= k < |p.separators| :: p.separators[k] == rest.separators[k - 1];
  }

  /** `re.split(r'[.!?]+', s)`: the segments contain no terminator, every
      separator is a non-empty run of terminators, and together, in
      alternation, they give back the text. */
  function SplitSentences(s: string): (p: Pieces)
    ensures |p.segments| == |p.separators| + 1
    ensures Interleave(p.segments, p.separators) == s
    ensures forall k | 0 <= k < |p.segments| :: NoTerminator(p.segments[k])
    ensures forall k | 0 <= k < |p.separators| ::
              p.separators[k] != [] && forall c | c in p.separators[k] :: IsTerminator(c)
  {
    assert s[0..] == s;
    SplitFrom(s, 0)
  }

  /** `count_sentences`: never more than one sentence per run of
      terminators plus one, and none for an empty text. */
  function CountSentences(text: string): (n: nat)
    ensures n <= TerminatorRuns(text, 0) + 1
    ensures text == [] ==> n == 0
  {
    SeparatorsAreRuns(text, 0);
    CountNonBlank(SplitSentences(text).segments)
  }

  /** Position `k` of `s` holds the first terminator of a run. */
  predicate RunStartsAt(s: string, k: nat)
  {
    k < |s| && IsTerminator(s[k]) && (k == 0 || !IsTerminator(s[k - 1]))
  }

  /** Number of maximal runs of terminators that start at or after `i`. */
  function TerminatorRuns(s: string, i: nat): nat
    decreases |s| - i
  {
    if i >= |s| then 0 else (if RunStartsAt(s, i) then 1 else 0) + TerminatorRuns(s, i + 1)
  }

  /** The positions inside a run of terminators start no run. */
  lemma {:induction false} SkipRun(s: string, j: nat, e: nat)
    requires 0 < j <= e <= |s|
    requires forall k | j - 1 <= k < e :: IsTerminator(s[k])
    ensures TerminatorRuns(s, j) == TerminatorRuns(s, e)
    decreases e - j
  {
    if j < e {
      SkipRun(s, j + 1, e);
    }
  }

  /** Positions holding no terminator start no run. */
  lemma {:induction false} NoRunBefore(s: string, i: nat, j: nat)
    requires i <= j <= |s|
    requires forall k | i <= k < j :: !IsTerminator(s[k])
    ensures TerminatorRuns(s, i) == TerminatorRuns(s, j)
    decreases j - i
  {
    if i < j {
      NoRunBefore(s, i + 1, j);
    }
  }

  /** The split has one separator per maximal run of terminators. */
  lemma {:induction false} SeparatorsAreRuns(s: string, start: nat)
    requires start <= |s|
    requires !(0 < start < |s| && IsTerminator(s[start - 1]) && IsTerminator(s[start]))
    ensures |SplitFrom(s, start).separators| == TerminatorRuns(s, start)
    decreases |s| - start
  {
    var j := NextTerminator(s, start);
    SeparatorCountUnfold(s, start);
    if j == |s| {
      NoRunBefore(s, start, j);
    } else {
      var e := RunEnd(s, j);
      SeparatorsAreRuns(s, e);
      RunsAtRun(s, start, j, e);
    }
  }

  /** The runs from `start` are the run at the first terminator `j`,
      which ends at `e`, and the runs after it. */
  lemma RunsAtRun(s: string, start: nat, j: nat, e: nat)
    requires start <= j < |s| && j == NextTerminator(s, start) && e == RunEnd(s, j)
    requires !(0 < start < |s| && IsTerminator(s[start - 1]) && IsTerminator(s[start]))
    ensures TerminatorRuns(s, start) == 1 + TerminatorRuns(s, e)
  {
    NoRunBefore(s, start, j);
    assert RunStartsAt(s, j);
    SkipRun(s, j + 1, e);
  }

  /** The split from `start` has no separator when no terminator follows,
      and otherwise one more than the split after the first run. */
  lemma SeparatorCountUnfold(s: string, start: nat)
    requires start <= |s|
    ensures var j := NextTerminator(s, start);
      |SplitFrom(s, start).separators|
        == if j == |s| then 0 else 1 + |SplitFrom(s, RunEnd(s, j)).separators|
  {
  }

  /** Reference count, without splitting: the characters that are neither
      whitespace nor a terminator and that open a sentence, i.e. come first
      in the text or after a terminator with only whitespace and terminators
      in between. `opening` says whether the next such character opens one. */
  function SentenceStarts(s: string, opening: bool): nat
  {
    if s == [] then 0
    else if IsTerminator(s[0]) then SentenceStarts(s[1..], true)
    else if IsSpace(s[0]) then SentenceStarts(s[1..], opening)
    else (if opening then 1 else 0) + SentenceStarts(s[1..], false)
  }

  /** Scanning a terminator-free stretch opens at most one sentence, and
      only if the stretch holds a non-whitespace character. */
  lemma {:induction false} ScanSegment(a: string, b: string, opening: bool)
    requires NoTerminator(a)
    ensures SentenceStarts(a + b, opening)
         == (if opening && HasNonSpace(a) then 1 else 0) + SentenceStarts(b, opening && !HasNonSpace(a))
  {
    if a != [] {
      assert (a + b)[1..] == a[1..] + b;
      assert (a + b)[0] == a[0];
      assert a == [a[0]] + a[1..];
      HasNonSpaceSplit([a[0]], a[1..]);
      assert HasNonSpace([a[0]]) <==> !IsSpace(a[0]) by { assert [a[0]][0] == a[0]; }
      assert NoTerminator(a[1..]) by { assert forall k | 0 <= k < |a| - 1 :: a[1..][k] == a[k + 1]; }
      assert !IsTerminator(a[0]);
      if IsSpace(a[0]) {
        ScanSegment(a[1..], b, opening);
      } else {
        ScanSegment(a[1..], b, false);
        assert HasNonSpace(a);
      }
    } else {
      assert a + b == b;
    }
  }

  /** After a run of terminators the next content character opens a
      sentence, whatever came before. */
  lemma {:induction false} ScanRun(r: string, b: string, opening: bool)
    requires r != [] && forall c | c in r :: IsTerminator(c)
    ensures SentenceStarts(r + b, opening) == SentenceStarts(b, true)
  {
    assert (r + b)[0] == r[0];
    assert (r + b)[1..] == r[1..] + b;
    if |r| > 1 {
      ScanRun(r[1..], b, true);
    }
  }

  /** One step of the correspondence: a terminator-free stretch and the run
      after it, in front of a text whose split already counts as its scan. */
  lemma ScanSentenceAndRun(a: string, r: string, b: string, segments: seq<string>)
    requires NoTerminator(a)
    requires r != [] && forall c | c in r :: IsTerminator(c)
    requires CountNonBlank(segments) == SentenceStarts(b, true)
    ensures CountNonBlank([a] + segments) == SentenceStarts(a + (r + b), true)
  {
    assert ([a] + segments)[1..] == segments;
    ScanSegment(a, r + b, true);
    ScanRun(r, b, !HasNonSpace(a));
  }

  /** The count over the split of `s[start..]` equals its reference count. */
  lemma {:induction false} SplitFromCountsStarts(s: string, start: nat)
    requires start <= |s|
    ensures CountNonBlank(SplitFrom(s, start).segments) == SentenceStarts(s[start..], true)
    decreases |s| - start
  {
    var j := NextTerminator(s, start);
    var a := s[start..j];
    TerminatorFreePrefix(s, start);
    SplitFromUnfold(s, start);
    if j == |s| {
      assert a == s[start..];
      LastSentenceCounts(a);
    } else {
      var e := RunEnd(s, j);
      SplitFromCountsStarts(s, e);
      CountsAtRun(s, start, j, e, SplitFrom(s, e).segments);
    }
  }

  /** A segment and the run of terminators after it, in front of segments
      that count as the scan of the rest, count as the scan of the whole. */
  lemma CountsAtRun(s: string, start: nat, j: nat, e: nat, segments: seq<string>)
    requires start <= j < e <= |s|
    requires NoTerminator(s[start..j])
    requires forall k | j <= k < e :: IsTerminator(s[k])
    requires CountNonBlank(segments) == SentenceStarts(s[e..], true)
    ensures CountNonBlank([s[start..j]] + segments) == SentenceStarts(s[start..], true)
  {
    var r := s[j..e];
    assert s[start..] == s[start..j] + (r + s[e..]);
    assert forall c | c in r :: IsTerminator(c);
    ScanSentenceAndRun(s[start..j], r, s[e..], segments);
  }

  /** The text before the next terminator holds none. */
  lemma TerminatorFreePrefix(s: string, start: nat)
    requires start <= |s|
    ensures NoTerminator(s[start..NextTerminator(s, start)])
  {
    var j := NextTerminator(s, start);
    assert forall k | 0 <= k < j - start :: s[start..j][k] == s[start + k];
  }

  /** A last segment, with no terminator after it, counts as its scan. */
  lemma LastSentenceCounts(a: string)
    requires NoTerminator(a)
    ensures CountNonBlank([a]) == SentenceStarts(a, true)
  {
    ScanSegment(a, [], true);
    assert a + [] == a;
    assert [a][1..] == [];
  }

  /** The segments of the split: the text up to the first terminator, then
      the segments after its run. */
  lemma SplitFromUnfold(s: string, start: nat)
    requires start <= |s|
    ensures var j := NextTerminator(s, start);
      SplitFrom(s, start).segments
        == if j == |s| then [s[start..]] else [s[start..j]] + SplitFrom(s, RunEnd(s, j)).segments
  {
  }

  /** The split-and-filter count equals the reference count. */
  lemma CountSentencesIsSentenceStarts(text: string)
    ensures CountSentences(text) == SentenceStarts(text, true)
  {
    SplitFromCountsStarts(text, 0);
    assert text[0..] == text;
  }

  /** The text holds no sentence exactly when every character is
      whitespace or a terminator. */
  lemma {:induction false} NoSentenceIffNoContent(text: string)
    ensures CountSentences(text) == 0
        <==> forall i | 0 <= i < |text| :: IsSpace(text[i]) || IsTerminator(text[i])
  {
    CountSentencesIsSentenceStarts(text);
    OpeningScanFindsContent(text);
  }

  /** The reference count from the start of a text is zero exactly when the text has no content character. */
  lemma {:induction false} OpeningScanFindsContent(s: string)
    ensures SentenceStarts(s, true) == 0
        <==> forall i | 0 <= i < |s| :: IsSpace(s[i]) || IsTerminator(s[i])
  {
    if s != [] {
      OpeningScanFindsContent(s[1..]);
      assert forall i | 1 <= i < |s| :: s[i] == s[1..][i - 1];
    }
  }

  /** Three sentences, each closed by its own terminator. */
  lemma ExampleThreeSentences(s: string)
    requires s == "Hi! Bye. Go?"
    ensures CountSentences(s) == 3
  {
    CountSentencesIsSentenceStarts(s);
    ScanThreeSentences(s);
  }

  /** A non-blank, terminator-free stretch closed by a run of terminators
      is one sentence. */
  lemma ScanSentence(a: string, r: string, rest: string)
    requires NoTerminator(a) && HasNonSpace(a)
    requires r != [] && forall c | c in r :: IsTerminator(c)
    ensures SentenceStarts(a + (r + rest), true) == 1 + SentenceStarts(rest, true)
  {
    ScanSegment(a, r + rest, true);
    ScanRun(r, rest, false);
  }

  /** The reference scan of "Hi! Bye. Go?", sentence by sentence. */
  lemma ScanThreeSentences(s: string)
    requires s == "Hi! Bye. Go?"
    ensures SentenceStarts(s, true) == 3
  {
    var a, b, c := "Hi", " Bye", " Go";
    assert NoTerminator(a) && HasNonSpace(a) by { assert !IsSpace(a[0]); }
    assert NoTerminator(b) && HasNonSpace(b) by { assert !IsSpace(b[1]); }
    assert NoTerminator(c) && HasNonSpace(c) by { assert !IsSpace(c[1]); }
    var tail := c + ("?" + []);
    var rest := b + ("." + tail);
    assert s == a + ("!" + rest);
    ScanSentence(a, "!", rest);
    ScanSentence(b, ".", tail);
    ScanSentence(c, "?", []);
  }

  /** A run of several terminators ends one sentence: "Wait... really?!"
      holds two. */
  lemma ExampleTerminatorRuns(s: string)
    requires s == "Wait... really?!"
    ensures CountSentences(s) == 2
  {
    CountSentencesIsSentenceStarts(s);
    ScanTerminatorRuns(s);
  }

  /** The reference scan of "Wait... really?!", sentence by sentence. */
  lemma ScanTerminatorRuns(s: string)
    requires s == "Wait... really?!"
    ensures SentenceStarts(s, true) == 2
  {
    var a, b := "Wait", " really";
    assert NoTerminator(a) && HasNonSpace(a) by { assert !IsSpace(a[0]); }
    assert NoTerminator(b) && HasNonSpace(b) by { assert !IsSpace(b[1]); }
    var tail := b + ("?!" + []);
    assert s == a + ("..." + tail);
    ScanSentence(a, "...", tail);
    ScanSentence(b, "?!", []);
  }
}

/** `count_paragraphs(text)`: `re.split(r'\n\s*\n', text)`, keep the pieces
    that are not blank, count them. */
module Paragraphs {
  import opened Chars
  import opened Options
  import opened Splitting

  /** `t[lo..hi]` is whitespace only. */
  predicate AllSpaceIn(t: string, lo: nat, hi: nat)
    requires lo <= hi <= |t|
  {
    forall k | lo <= k < hi :: IsSpace(t[k])
  }

  /** Line feeds at `q` and `r` with only whitespace between them: a
      blank line, the text `\n\s*\n` matches. */
  predicate BlankLineAt(t: string, q: nat, r: nat)
  {
    q < r < |t| && t[q] == '\n' && t[r] == '\n' && AllSpaceIn(t, q + 1, r)
  }

  /** `t` holds a blank line somewhere. */
  ghost predicate HasBlankLine(t: string)
  {
    exists q: nat, r: nat :: BlankLineAt(t, q, r)
  }

  /** `t` begins with whitespace that holds a line feed. */
  ghost predicate LeadingNewline(t: string)
  {
    exists r: nat :: r < |t| && t[r] == '\n' && AllSpaceIn(t, 0, r)
  }

  /** `t` ends with whitespace that holds a line feed. */
  ghost predicate TrailingNewline(t: string)
  {
    exists r: nat :: r < |t| && t[r] == '\n' && AllSpaceIn(t, r + 1, |t|)
  }

  /** A separator as `\n\s*\n` matches it: whitespace only, at least two
      characters, a line feed first and last. */
  predicate IsBlankLineSeparator(w: string)
  {
    |w| >= 2 && w[0] == '\n' && w[|w| - 1] == '\n' && AllSpaceIn(w, 0, |w|)
  }

  /** The end of the run of whitespace that starts at `i`. */
  function SpaceRunEnd(s: string, i: nat): (e: nat)
    requires i <= |s|
    ensures i <= e <= |s|
    ensures AllSpaceIn(s, i, e)
    ensures e == |s| || !IsSpace(s[e])
    decreases |s| - i
  {
    if i < |s| && IsSpace(s[i]) then SpaceRunEnd(s, i + 1) else i
  }

  /** The position of the last line feed in `s[a..b]`, if any. */
  function LastNewline(s: string, a: nat, b: nat): (r: Option<nat>)
    requires a <= b <= |s|
    ensures r.Some? ==> a <= r.value < b && s[r.value] == '\n'
                        && forall k | r.value < k < b :: s[k] != '\n'
    ensures r.None? ==> forall k | a <= k < b :: s[k] != '\n'
    decreases b - a
  {
    if a == b then None
    else if s[b - 1] == '\n' then Some(b - 1)
    else LastNewline(s, a, b - 1)
  }

  /** The pattern `\n\s*\n` tried at position `i`, giving the end of the
      match. The greedy `\s*` first takes the whole whitespace run after the
      line feed and then gives characters back until a line feed follows, so
      the match ends just after the last line feed of that run. */
  function BlankLineMatch(s: string, i: nat): (r: Option<nat>)
    requires i < |s|
    ensures r.Some? ==> && i + 2 <= r.value <= |s|
                        && IsBlankLineSeparator(s[i..r.value])
                        && !LeadingNewline(s[r.value..])
    ensures r.None? ==> forall t: nat :: !BlankLineAt(s, i, t)
  {
    if s[i] != '\n' then None
    else
      var e := SpaceRunEnd(s, i + 1);
      match LastNewline(s, i + 1, e)
      case None =>
        assert forall t: nat :: !BlankLineAt(s, i, t) by {
          forall t: nat | BlankLineAt(s, i, t) ensures false {
            SpaceRunCovers(s, i + 1, t);
          }
        }
        None
      case Some(q) =>
        var w := s[i..q + 1];
        assert forall k | 0 <= k < |w| :: w[k] == s[i + k];
        Some(q + 1)
  }

  /** A stretch of whitespace from `j` to a line feed at `t` lies inside
      the whitespace run that starts at `j`. */
  lemma SpaceRunCovers(s: string, j: nat, t: nat)
    requires j <= t < |s| && s[t] == '\n' && AllSpaceIn(s, j, t)
    ensures t < SpaceRunEnd(s, j)
  {
  }

  /** A blank line inside `s[lo..hi]` is found by the pattern tried at its
      first line feed. */
  lemma BlankLineIsMatched(s: string, lo: nat, hi: nat, q: nat, r: nat)
    requires lo <= hi <= |s|
    requires BlankLineAt(s[lo..hi], q, r)
    ensures lo + q < |s| && BlankLineMatch(s, lo + q).Some?
  {
    var t := s[lo..hi];
    assert forall k | q <= k <= r :: s[lo + k] == t[k];
    assert BlankLineAt(s, lo + q, lo + r);
  }

  /** The first position at or after `i` where the pattern matches, or the
      end of `s`. */
  function NextBlankLine(s: string, i: nat): (q: nat)
    requires i <= |s|
    ensures i <= q <= |s|
    ensures forall k | i <= k < q :: BlankLineMatch(s, k).None?
    ensures q < |s| ==> BlankLineMatch(s, q).Some?
    decreases |s| - i
  {
    if i == |s| || BlankLineMatch(s, i).Some? then i else NextBlankLine(s, i + 1)
  }

  /** A paragraph and the blank line after it, put in front of the split of
      the rest, give a split of the whole. */
  lemma PrependParagraph(s: string, start: nat, q: nat, e: nat, rest: Pieces)
    requires start <= q < e <= |s|
    requires !HasBlankLine(s[start..q]) && IsBlankLineSeparator(s[q..e]) && !LeadingNewline(s[e..])
    requires |rest.segments| == |rest.separators| + 1
    requires Interleave(rest.segments, rest.separators) == s[e..]
    requires forall k | 0 <= k < |rest.segments| :: !HasBlankLine(rest.segments[k])
    requires forall k | 0 <= k < |rest.separators| :: IsBlankLineSeparator(rest.separators[k])
    requires forall k | 1 <= k < |rest.segments| :: !LeadingNewline(rest.segments[k])
    ensures var p := Pieces([s[start..q]] + rest.segments, [s[q..e]] + rest.separators);
      && Interleave(p.segments, p.separators) == s[start..]
      && (forall k | 0 <= k < |p.segments| :: !HasBlankLine(p.segments[k]))
      && (forall k | 0 <= k < |p.separators| :: IsBlankLineSeparator(p.separators[k]))
      && (forall k | 1 <= k < |p.segments| :: !LeadingNewline(p.segments[k]))
  {
    var p := Pieces([s[start..q]] + rest.segments, [s[q..e]] + rest.separators);
    FirstSegmentIsPrefix(rest.segments, rest.separators);
    LeadingNewlineOfPrefix(s[e..], |rest.segments[0]|);
    InterleaveCons(s[start..q], s[q..e], rest.segments, rest.separators);
    SliceInThree(s, start, q, e);
    assert forall k | 1 <= k < |p.segments| :: p.segments[k] == rest.segments[k - 1];
    assert forall k | 1 <= k < |p.separators| :: p.separators[k] == rest.separators[k - 1];
  }

  /** `re.split(r'\n\s*\n', s[start..])`: the pattern is tried at each
      position in turn; the first match ends the current segment and the
      search resumes where the match ended. */
  function SplitFrom(s: string, start: nat): (p: Pieces)
    requires start <= |s|
    ensures |p.segments| == |p.separators| + 1
    ensures Interleave(p.segments, p.separators) == s[start..]
    ensures forall k | 0 <= k < |p.segments| :: !HasBlankLine(p.segments[k])
    ensures forall k | 0 <= k < |p.separators| :: IsBlankLineSeparator(p.separators[k])
    ensures forall k | 1 <= k < |p.segments| :: !LeadingNewline(p.segments[k])
    ensures Spacing(p)
    ensures |p.separators| > 0 && !LeadingNewline(s[start..]) ==> HasNonSpace(p.segments[0])
    decreases |s| - start
  {
    var q := NextBlankLine(s, start);
    NoBlankLineBefore(s, start, q);
    if q == |s| then
      assert s[start..q] == s[start..];
      Pieces([s[start..]], [])
    else
      var e := BlankLineMatch(s, q).value;
      var rest := SplitFrom(s, e);
      PrependParagraph(s, start, q, e, rest);
      TrailingNewlineIsMatched(s, start, q);
      BlankBeforeNewline(s, start, q);
      PrependSpacing(s[start..q], s[q..e], rest);
      Pieces([s[start..q]] + rest.segments, [s[q..e]] + rest.separators)
  }

  /** How the leftmost, greedy match places the separators: no segment
      before a separator ends with whitespace holding a line feed (the match
      would have started there), and every segment between two separators
      holds a non-whitespace character (two blank lines with only whitespace
      between them are one match). */
  ghost predicate Spacing(p: Pieces)
  {
    && (forall k | 0 <= k < |p.separators| && k < |p.segments| :: !TrailingNewline(p.segments[k]))
    && (forall k | 1 <= k < |p.segments| - 1 :: HasNonSpace(p.segments[k]))
  }

  /** A paragraph that does not end in a blank line, put in front of a split
      whose first segment is not blank (when it is followed by a separator),
      keeps the spacing. */
  lemma PrependSpacing(segment: string, separator: string, rest: Pieces)
    requires !TrailingNewline(segment)
    requires Spacing(rest) && |rest.segments| == |rest.separators| + 1
    requires |rest.separators| > 0 ==> HasNonSpace(rest.segments[0])
    ensures Spacing(Pieces([segment] + rest.segments, [separator] + rest.separators))
  {
    var p := Pieces([segment] + rest.segments, [separator] + rest.separators);
    assert forall k | 1 <= k < |p.segments| :: p.segments[k] == rest.segments[k - 1];
  }

  /** A segment that ends in whitespace holding a line feed, just before a
      line feed, contains a position where the pattern matches. */
  lemma TrailingNewlineIsMatched(s: string, start: nat, q: nat)
    requires start <= q < |s| && s[q] == '\n'
    ensures TrailingNewline(s[start..q]) ==> exists p | start <= p < q :: BlankLineMatch(s, p).Some?
  {
    if TrailingNewline(s[start..q]) {
      var t := s[start..q];
      var r: nat :| r < |t| && t[r] == '\n' && AllSpaceIn(t, r + 1, |t|);
      assert forall k | r <= k < |t| :: t[k] == s[start + k];
      assert BlankLineAt(s, start + r, q);
      assert BlankLineMatch(s, start + r).Some?;
    }
  }

  /** Whitespace only up to a line feed at `q`: the text from `start`
      begins with whitespace holding a line feed. */
  lemma BlankBeforeNewline(s: string, start: nat, q: nat)
    requires start <= q < |s| && s[q] == '\n'
    ensures !HasNonSpace(s[start..q]) ==> LeadingNewline(s[start..])
  {
    if !HasNonSpace(s[start..q]) {
      var t := s[start..];
      assert forall k | 0 <= k < q - start :: t[k] == s[start..q][k];
      assert t[q - start] == '\n';
    }
  }

  /** The segments of the split: the text up to the first match, then the
      segments after it. */
  lemma SplitFromUnfold(s: string, start: nat)
    requires start <= |s|
    ensures var q := NextBlankLine(s, start);
      SplitFrom(s, start).segments
        == if q == |s| then [s[start..]] else [s[start..q]] + SplitFrom(s, BlankLineMatch(s, q).value).segments
  {
  }

  /** A prefix that begins with whitespace holding a line feed makes the
      whole string begin so. */
  lemma LeadingNewlineOfPrefix(t: string, n: nat)
    requires n <= |t|
    ensures LeadingNewline(t[..n]) ==> LeadingNewline(t)
  {
    if LeadingNewline(t[..n]) {
      var r: nat :| r < n && t[..n][r] == '\n' && AllSpaceIn(t[..n], 0, r);
      assert forall k | 0 <= k <= r :: t[..n][k] == t[k];
      assert AllSpaceIn(t, 0, r);
    }
  }

  /** Where the pattern matched nowhere, the stretch holds no blank line. */
  lemma NoBlankLineBefore(s: string, start: nat, i: nat)
    requires start <= i <= |s|
    requires forall q | start <= q < i :: BlankLineMatch(s, q).None?
    ensures !HasBlankLine(s[start..i])
  {
    BlankLineIsFound(s, start, i);
  }

  /** A blank line in `s[start..i]` is found by the pattern at some
      position of the stretch. */
  lemma BlankLineIsFound(s: string, start: nat, i: nat)
    requires start <= i <= |s|
    ensures HasBlankLine(s[start..i]) ==> exists q | start <= q < i :: BlankLineMatch(s, q).Some?
  {
    if HasBlankLine(s[start..i]) {
      var q: nat, r: nat :| BlankLineAt(s[start..i], q, r);
      BlankLineIsMatched(s, start, i, q, r);
      assert start <= start + q < i;
    }
  }

  /** `re.split(r'\n\s*\n', s)`: the separators are the blank-line matches,
      no segment holds a blank line, no segment after a separator begins with
      whitespace holding a line feed (the greedy match took it), and in
      alternation they give back the text. */
  function SplitParagraphs(s: string): (p: Pieces)
    ensures |p.segments| == |p.separators| + 1
    ensures Interleave(p.segments, p.separators) == s
    ensures forall k | 0 <= k < |p.segments| :: !HasBlankLine(p.segments[k])
    ensures forall k | 0 <= k < |p.separators| :: IsBlankLineSeparator(p.separators[k])
    ensures forall k | 1 <= k < |p.segments| :: !LeadingNewline(p.segments[k])
    ensures Spacing(p)
  {
    assert s[0..] == s;
    SplitFrom(s, 0)
  }

  /** `count_paragraphs`. */
  function CountParagraphs(text: string): (n: nat)
    ensures n <= |SplitParagraphs(text).separators| + 1
    ensures |SplitParagraphs(text).separators| <= n + 1
    ensures n == 0 <==> !HasNonSpace(text)
    ensures HasNonSpace(text) && !HasBlankLine(text) ==> n == 1
  {
    var p := SplitParagraphs(text);
    CountNonBlankCovers(p.segments, 1, if |p.segments| < 2 then 1 else |p.segments| - 1);
    CountParagraphsIsParagraphStarts(text);
    BlankTextOpensNothing(text);
    NoBlankLineOneParagraph(text);
    CountNonBlank(p.segments)
  }

  /** Reference count, without splitting: the non-whitespace characters
      that open a paragraph, namely the first one of the text and every one
      whose preceding gap of whitespace (since the previous non-whitespace
      character) holds at least two line feeds. `newlines` is the number of
      line feeds in the current gap, counted up to 2; a text begins as if
      after a blank line. */
  function ParagraphStarts(s: string, newlines: nat): nat
  {
    if s == [] then 0
    else if s[0] == '\n' then ParagraphStarts(s[1..], if newlines >= 2 then 2 else newlines + 1)
    else if IsSpace(s[0]) then ParagraphStarts(s[1..], newlines)
    else (if newlines >= 2 then 1 else 0) + ParagraphStarts(s[1..], 0)
  }

  /** The gap count after scanning `s`. */
  function GapAfter(s: string, newlines: nat): nat
  {
    if s == [] then newlines
    else if s[0] == '\n' then GapAfter(s[1..], if newlines >= 2 then 2 else newlines + 1)
    else if IsSpace(s[0]) then GapAfter(s[1..], newlines)
    else GapAfter(s[1..], 0)
  }

  /** Scanning a concatenation is scanning its parts in turn. */
  lemma {:induction false} ScanConcat(a: string, b: string, newlines: nat)
    ensures ParagraphStarts(a + b, newlines)
         == ParagraphStarts(a, newlines) + ParagraphStarts(b, GapAfter(a, newlines))
  {
    if a == [] {
      assert a + b == b;
    } else {
      assert (a + b)[0] == a[0];
      assert (a + b)[1..] == a[1..] + b;
      var next := if a[0] == '\n' then (if newlines >= 2 then 2 else newlines + 1)
                  else if IsSpace(a[0]) then newlines else 0;
      ScanConcat(a[1..], b, next);
    }
  }

  /** Whitespace ending in a line feed, entered with a line feed already in
      the gap, leaves a gap of two. */
  lemma {:induction false} ScanSpaceToNewline(v: string, c: string, newlines: nat)
    requires v != [] && AllSpaceIn(v, 0, |v|) && v[|v| - 1] == '\n'
    requires newlines >= 1
    ensures ParagraphStarts(v + c, newlines) == ParagraphStarts(c, 2)
    decreases |v|
  {
    assert (v + c)[0] == v[0];
    assert (v + c)[1..] == v[1..] + c;
    var next := if v[0] == '\n' then (if newlines >= 2 then 2 else newlines + 1) else newlines;
    if |v| == 1 {
      assert v[1..] + c == c;
    } else {
      assert AllSpaceIn(v[1..], 0, |v| - 1) by {
        assert forall k | 0 <= k < |v| - 1 :: v[1..][k] == v[k + 1];
      }
      ScanSpaceToNewline(v[1..], c, next);
    }
  }

  /** After a separator the next non-whitespace character opens a
      paragraph, whatever came before. */
  lemma ScanSeparator(w: string, c: string, newlines: nat)
    requires IsBlankLineSeparator(w)
    ensures ParagraphStarts(w + c, newlines) == ParagraphStarts(c, 2)
  {
    assert (w + c)[0] == '\n';
    assert (w + c)[1..] == w[1..] + c;
    assert AllSpaceIn(w[1..], 0, |w| - 1) by {
      assert forall k | 0 <= k < |w| - 1 :: w[1..][k] == w[k + 1];
    }
    ScanSpaceToNewline(w[1..], c, if newlines >= 2 then 2 else newlines + 1);
  }

  /** A blank line after the first character is one of the whole string,
      and so is a line feed followed by whitespace holding another. */
  lemma NoBlankLineTail(u: string)
    requires u != []
    ensures HasBlankLine(u[1..]) ==> HasBlankLine(u)
    ensures u[0] == '\n' && LeadingNewline(u[1..]) ==> HasBlankLine(u)
  {
    var v := u[1..];
    if HasBlankLine(v) {
      var q: nat, r: nat :| BlankLineAt(v, q, r);
      assert forall k | q <= k <= r :: u[k + 1] == v[k];
      assert BlankLineAt(u, q + 1, r + 1);
    }
    if u[0] == '\n' && LeadingNewline(v) {
      var r: nat :| r < |v| && v[r] == '\n' && AllSpaceIn(v, 0, r);
      assert forall k | 0 <= k <= r :: u[k + 1] == v[k];
      assert BlankLineAt(u, 0, r + 1);
    }
  }

  /** Inside a stretch with no blank line, once a paragraph is open no
      further one opens. */
  lemma {:induction false} ScanInsideParagraph(u: string, newlines: nat)
    requires !HasBlankLine(u)
    requires newlines <= 1
    requires newlines == 1 ==> !LeadingNewline(u)
    ensures ParagraphStarts(u, newlines) == 0
    decreases |u|
  {
    if u != [] {
      NoBlankLineTail(u);
      if u[0] == '\n' {
        ScanInsideParagraph(u[1..], 1);
      } else if IsSpace(u[0]) {
        ScanInsideParagraph(u[1..], newlines);
      } else {
        ScanInsideParagraph(u[1..], 0);
      }
    }
  }

  /** A stretch with no blank line opens one paragraph if it holds a
      non-whitespace character, none otherwise. */
  lemma {:induction false} ScanSegment(a: string)
    requires !HasBlankLine(a)
    ensures ParagraphStarts(a, 2) == if HasNonSpace(a) then 1 else 0
    decreases |a|
  {
    if a != [] {
      NoBlankLineTail(a);
      assert a == [a[0]] + a[1..];
      HasNonSpaceSplit([a[0]], a[1..]);
      assert HasNonSpace([a[0]]) <==> !IsSpace(a[0]) by { assert [a[0]][0] == a[0]; }
      if IsSpace(a[0]) {
        ScanSegment(a[1..]);
      } else {
        ScanInsideParagraph(a[1..], 0);
      }
    }
  }

  /** A non-blank text with no blank line is one paragraph. */
  lemma NoBlankLineOneParagraph(s: string)
    ensures HasNonSpace(s) && !HasBlankLine(s) ==> ParagraphStarts(s, 2) == 1
  {
    if !HasBlankLine(s) {
      ScanSegment(s);
    }
  }

  /** A text without a non-whitespace character opens no paragraph. */
  lemma {:induction false} BlankTextOpensNothing(s: string)
    ensures !HasNonSpace(s) ==> ParagraphStarts(s, 2) == 0
    ensures HasNonSpace(s) ==> ParagraphStarts(s, 2) >= 1
  {
    if s != [] {
      assert s == [s[0]] + s[1..];
      HasNonSpaceSplit([s[0]], s[1..]);
      assert HasNonSpace([s[0]]) <==> !IsSpace(s[0]) by { assert [s[0]][0] == s[0]; }
      if IsSpace(s[0]) {
        BlankTextOpensNothing(s[1..]);
      } else if !HasNonSpace(s[1..]) {
        BlankScanIsZero(s[1..], 0);
      }
    }
  }

  /** Whitespace alone opens nothing, whatever the gap count. */
  lemma {:induction false} BlankScanIsZero(s: string, newlines: nat)
    requires !HasNonSpace(s)
    ensures ParagraphStarts(s, newlines) == 0
  {
    if s != [] {
      assert !IsSpace(s[0]) ==> HasNonSpace(s);
      BlankScanIsZero(s[1..], if s[0] == '\n' then (if newlines >= 2 then 2 else newlines + 1) else newlines);
    }
  }

  /** The count over the split of `s[start..]` equals its reference count. */
  lemma {:induction false} SplitFromCountsStarts(s: string, start: nat)
    requires start <= |s|
    ensures CountNonBlank(SplitFrom(s, start).segments) == ParagraphStarts(s[start..], 2)
    decreases |s| - start
  {
    var q := NextBlankLine(s, start);
    NoBlankLineBefore(s, start, q);
    SplitFromUnfold(s, start);
    if q == |s| {
      LastParagraphCounts(s, start);
    } else {
      var e := BlankLineMatch(s, q).value;
      SplitFromCountsStarts(s, e);
      CountsAtBlankLine(s, start, q, e, SplitFrom(s, e).segments);
    }
  }

  /** The last segment, with no blank line after it, counts as its scan. */
  lemma LastParagraphCounts(s: string, start: nat)
    requires start <= |s| && !HasBlankLine(s[start..|s|])
    ensures CountNonBlank([s[start..]]) == ParagraphStarts(s[start..], 2)
  {
    assert s[start..|s|] == s[start..];
    ScanSegment(s[start..]);
    assert [s[start..]][1..] == [];
  }

  /** A segment and the blank line after it, in front of segments that
      count as the scan of the rest, count as the scan of the whole. */
  lemma CountsAtBlankLine(s: string, start: nat, q: nat, e: nat, segments: seq<string>)
    requires start <= q < e <= |s|
    requires !HasBlankLine(s[start..q]) && IsBlankLineSeparator(s[q..e])
    requires CountNonBlank(segments) == ParagraphStarts(s[e..], 2)
    ensures CountNonBlank([s[start..q]] + segments) == ParagraphStarts(s[start..], 2)
  {
    var a, w, c := s[start..q], s[q..e], s[e..];
    assert ([a] + segments)[1..] == segments;
    assert s[start..] == a + (w + c);
    ScanConcat(a, w + c, 2);
    ScanSegment(a);
    ScanSeparator(w, c, GapAfter(a, 2));
  }

  /** The split-and-filter count equals the reference count. */
  lemma CountParagraphsIsParagraphStarts(text: string)
    ensures CountNonBlank(SplitParagraphs(text).segments) == ParagraphStarts(text, 2)
  {
    SplitFromCountsStarts(text, 0);
    assert text[0..] == text;
  }

  /** A non-blank stretch with no blank line, closed by a blank line, is
      one paragraph. */
  lemma ScanParagraph(a: string, w: string, rest: string)
    requires !HasBlankLine(a) && HasNonSpace(a) && IsBlankLineSeparator(w)
    ensures ParagraphStarts(a + (w + rest), 2) == 1 + ParagraphStarts(rest, 2)
  {
    ScanConcat(a, w + rest, 2);
    ScanSegment(a);
    ScanSeparator(w, rest, GapAfter(a, 2));
  }

  /** A single non-whitespace character is one paragraph. */
  lemma ScanOneCharacter(c: string)
    requires |c| == 1 && !IsSpace(c[0])
    ensures ParagraphStarts(c, 2) == 1
  {
    assert c[1..] == [];
  }

  /** Blank lines between three lines make three paragraphs. */
  lemma ExampleThreeParagraphs(s: string)
    requires s == "a\n\nb\n\nc"
    ensures CountParagraphs(s) == 3
  {
    CountParagraphsIsParagraphStarts(s);
    ScanThreeParagraphs(s);
  }

  /** The reference scan of "a\n\nb\n\nc", paragraph by paragraph. */
  lemma ScanThreeParagraphs(s: string)
    requires s == "a\n\nb\n\nc"
    ensures ParagraphStarts(s, 2) == 3
  {
    var a, b, c, w := "a", "b", "c", "\n\n";
    assert s == a + (w + (b + (w + c)));
    assert !IsSpace(a[0]) && !IsSpace(b[0]);
    assert IsBlankLineSeparator(w);
    ScanParagraph(a, w, b + (w + c));
    ScanParagraph(b, w, c);
    ScanOneCharacter(c);
  }

  /** A line holding only spaces is a blank line too. */
  lemma ExampleSpacesOnBlankLine(s: string)
    requires s == "a\n \nb"
    ensures CountParagraphs(s) == 2
  {
    CountParagraphsIsParagraphStarts(s);
    ScanSpacesOnBlankLine(s);
  }

  /** The reference scan of "a\n \nb". */
  lemma ScanSpacesOnBlankLine(s: string)
    requires s == "a\n \nb"
    ensures ParagraphStarts(s, 2) == 2
  {
    var a, b, w := "a", "b", "\n \n";
    assert s == a + (w + b);
    assert !IsSpace(a[0]);
    assert IsBlankLineSeparator(w);
    ScanParagraph(a, w, b);
    ScanOneCharacter(b);
  }

  /** A single line feed does not separate paragraphs. */
  lemma ExampleSingleNewline(s: string)
    requires s == "a\nb"
    ensures CountParagraphs(s) == 1
  {
    CountParagraphsIsParagraphStarts(s);
    assert s[1..] == "\nb";
    assert "\nb"[1..] == "b";
  }

  /** Several blank lines in a row are one separator: "a\n\n\n\nb" splits
      into "a" and "b" around the whole run of line feeds. */
  lemma ExampleBlankLinesInARow(s: string)
    requires s == "a\n\n\n\nb"
    ensures SplitParagraphs(s) == Pieces(["a", "b"], ["\n\n\n\n"])
  {
    assert s[0] == 'a' && s[1] == s[2] == s[3] == s[4] == '\n' && s[5] == 'b';
    assert SpaceRunEnd(s, 5) == 5;
    assert SpaceRunEnd(s, 2) == SpaceRunEnd(s, 3) == SpaceRunEnd(s, 4) == 5;
    assert LastNewline(s, 2, 5) == Some(4);
    assert BlankLineMatch(s, 1) == Some(5);
    assert NextBlankLine(s, 0) == 1;
    assert NextBlankLine(s, 5) == 6;
    assert s[5..] == "b" && s[0..1] == "a" && s[1..5] == "\n\n\n\n";
    assert SplitFrom(s, 5) == Pieces(["b"], []);
  }
}

/** `calculate_avg_word_length(text)`: the arithmetic mean of the lengths of
    the normalised tokens, or 0 when there are none. The mean is an exact
    rational here; the source computes it in floating point. */
module AverageLength {
  import opened Chars
  import opened Normalization

  /** `sum(len(word) for word in words)`. */
  function TotalLength(ws: seq<string>): nat
  {
    if ws == [] then 0 else |ws[0]| + TotalLength(ws[1..])
  }

  /** Length of the shortest token. */
  function MinLength(ws: seq<string>): (m: nat)
    requires ws != []
    ensures exists k :: 0 <= k < |ws| && |ws[k]| == m
    ensures forall k | 0 <= k < |ws| :: m <= |ws[k]|
  {
    if |ws| == 1 then |ws[0]|
    else
      var m := MinLength(ws[1..]);
      assert forall k | 1 <= k < |ws| :: ws[k] == ws[1..][k - 1];
      if |ws[0]| <= m then |ws[0]| else m
  }

  /** Length of the longest token. */
  function MaxLength(ws: seq<string>): (m: nat)
    requires ws != []
    ensures exists k :: 0 <= k < |ws| && |ws[k]| == m
    ensures forall k | 0 <= k < |ws| :: |ws[k]| <= m
  {
    if |ws| == 1 then |ws[0]|
    else
      var m := MaxLength(ws[1..]);
      assert forall k | 1 <= k < |ws| :: ws[k] == ws[1..][k - 1];
      if |ws[0]| >= m then |ws[0]| else m
  }

  /** The total lies between the token count times the shortest length
      and the token count times the longest length. */
  lemma {:induction false} TotalLengthBounds(ws: seq<string>, lo: nat, hi: nat)
    requires forall k | 0 <= k < |ws| :: lo <= |ws[k]| <= hi
    ensures |ws| * lo <= TotalLength(ws) <= |ws| * hi
  {
    if ws != [] {
      assert forall k | 0 <= k < |ws| - 1 :: ws[1..][k] == ws[k + 1];
      TotalLengthBounds(ws[1..], lo, hi);
      assert |ws| * lo == lo + (|ws| - 1) * lo;
      assert |ws| * hi == hi + (|ws| - 1) * hi;
    }
  }

  /** `calculate_avg_word_length`: 0 when the text has no token; otherwise
      the mean token length, which lies between the shortest and the longest
      token length and so is at least 1. */
  function AverageWordLength(text: string): (r: real)
    ensures Normalize(text) == [] ==> r == 0.0
    ensures var ws := Normalize(text);
      ws != [] ==> && MinLength(ws) as real <= r <= MaxLength(ws) as real
                   && 1.0 <= r
  {
    var ws := Normalize(text);
    if ws == [] then 0.0
    else
      MeanOfTokens(ws);
      TotalLength(ws) as real / |ws| as real
  }

  /** The average is the mean: times the token count it gives back the
      total token length. (The text without tokens is covered by
      `AverageWordLength`'s own contract.)

      The token list is a parameter only to give `Normalize(text)` a name:
      the requires binds it to exactly that list and to nothing else. With
      `Normalize(text)` written out in place of `ws`, the nonlinear real
      identity has the definition of `Normalize` in its context, and the
      solver no longer finds it within its budget. */
  lemma AverageIsMean(text: string, ws: seq<string>)
    requires ws == Normalize(text) && ws != []
    ensures AverageWordLength(text) * |ws| as real == TotalLength(ws) as real
  {
    MeanTimesCount(AverageWordLength(text), TotalLength(ws) as real, |ws| as real);
  }

  /** Division by a positive count is undone by multiplying by it. */
  lemma MeanTimesCount(mean: real, total: real, n: real)
    requires n > 0.0 && mean == total / n
    ensures mean * n == total
  {
  }

  /** The mean of a non-empty token list lies between the shortest and the
      longest token length, which is at least 1. */
  lemma MeanOfTokens(ws: seq<string>)
    requires ws != [] && forall k | 0 <= k < |ws| :: IsToken(ws[k])
    ensures var r := TotalLength(ws) as real / |ws| as real;
      && MinLength(ws) as real <= r <= MaxLength(ws) as real
      && 1.0 <= r
  {
    var lo, hi := MinLength(ws), MaxLength(ws);
    TotalLengthBounds(ws, lo, hi);
    assert 1 <= lo by {
      var k :| 0 <= k < |ws| && |ws[k]| == lo;
      assert IsToken(ws[k]);
    }
    MeanBounds(TotalLength(ws), |ws|, lo, hi);
  }

  /** The lengths of the tokens add up to the length of their concatenation. */
  lemma {:induction false} ConcatLength(ws: seq<string>)
    ensures |Concat(ws)| == TotalLength(ws)
  {
    if ws != [] {
      ConcatLength(ws[1..]);
    }
  }

  /** The total token length is the number of characters that survive
      lower-casing and punctuation removal and are not whitespace. */
  lemma TotalLengthOfText(text: string)
    ensures TotalLength(Normalize(text))
         == |NonSpaceChars(StripPunctuation(Lower(text)))|
  {
    var ws, kept := Normalize(text), NonSpaceChars(StripPunctuation(Lower(text)));
    SplitKeepsNonSpace(StripPunctuation(Lower(text)));
    ConcatLength(ws);
    assert TotalLength(ws) == |kept|;
  }

  /** A mean of naturals lies between their common lower and upper bounds. */
  lemma MeanBounds(total: nat, n: nat, lo: nat, hi: nat)
    requires n > 0 && n * lo <= total <= n * hi
    ensures lo as real <= total as real / n as real <= hi as real
  {
    var t, m := total as real, n as real;
    assert m * lo as real <= t <= m * hi as real;
  }

  /** "aa bb" has two tokens of length 2. */
  lemma ExampleAverage(s: string)
    requires s == "aa bb"
    ensures AverageWordLength(s) == 2.0
  {
    var ws := ["aa", "bb"];
    assert JoinWithSpace(ws) == s by { assert ws[1..] == ["bb"]; }
    assert IsToken(ws[0]) && IsToken(ws[1]);
    NormalizeCleanText(s, ws);
    MeanOfExample(ws);
  }

  /** Two tokens of total length 4 have mean 2. */
  lemma MeanOfExample(ws: seq<string>)
    requires ws == ["aa", "bb"]
    ensures TotalLength(ws) as real / |ws| as real == 2.0
  {
    assert ws[1..][1..] == [];
  }
}

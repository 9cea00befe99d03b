/** The normalisation shared by the most-common-word and the average-length
    analysers: `text.lower().translate(<delete string.punctuation>).split()`. */
module Normalization {
  import opened Chars

  /** A token as `str.split()` produces it: non-empty and free of whitespace. */
  predicate IsToken(w: string)
  {
    w != [] && forall i | 0 <= i < |w| :: !IsSpace(w[i])
  }

  /** `s.translate(str.maketrans('', '', string.punctuation))`: every punctuation
      character is deleted, every other character is kept, in order. */
  function StripPunctuation(s: string): (r: string)
    ensures forall i | 0 <= i < |r| :: !IsPunct(r[i]) && r[i] in s
    ensures forall c | !IsPunct(c) :: multiset(r)[c] == multiset(s)[c]
  {
    if s == [] then []
    else
      assert s == [s[0]] + s[1..];
      (if IsPunct(s[0]) then [] else [s[0]]) + StripPunctuation(s[1..])
  }

  /** Length of the longest whitespace-free prefix of `s`. */
  function WordLength(s: string): (n: nat)
    ensures n <= |s|
    ensures forall i | 0 <= i < n :: !IsSpace(s[i])
    ensures n == |s| || IsSpace(s[n])
  {
    if s == [] || IsSpace(s[0]) then 0 else 1 + WordLength(s[1..])
  }

  /** `s.split()` with no separator: the maximal runs of non-whitespace
      characters, in order; leading, trailing and repeated whitespace yield
      no empty tokens. */
  function SplitWhitespace(s: string): (r: seq<string>)
    ensures forall k | 0 <= k < |r| :: IsToken(r[k])
    ensures forall k, i | 0 <= k < |r| && 0 <= i < |r[k]| :: r[k][i] in s
    decreases |s|
  {
    if s == [] then []
    else if IsSpace(s[0]) then SplitWhitespace(s[1..])
    else
      var n := WordLength(s);
      [s[..n]] + SplitWhitespace(s[n..])
  }

  /** The tokens both analysers work on: lower-case, punctuation deleted,
      split on whitespace. Each token is non-empty and holds no upper-case
      letter, no whitespace and no punctuation character. */
  function Normalize(text: string): (r: seq<string>)
    ensures forall k | 0 <= k < |r| :: IsToken(r[k])
    ensures forall k, i | 0 <= k < |r| && 0 <= i < |r[k]| :: !IsUpper(r[k][i]) && !IsPunct(r[k][i])
  {
    var lowered := Lower(text);
    var stripped := StripPunctuation(lowered);
    var r := SplitWhitespace(stripped);
    assert forall c | c in stripped :: c in lowered && !IsPunct(c);
    assert forall c | c in lowered :: !IsUpper(c);
    r
  }

  /** The tokens separated by single spaces: the canonical text whose split
      gives the tokens back. */
  function JoinWithSpace(ws: seq<string>): string
  {
    if ws == [] then []
    else if |ws| == 1 then ws[0]
    else ws[0] + " " + JoinWithSpace(ws[1..])
  }

  /** All characters of `s` except whitespace, in order. */
  function NonSpaceChars(s: string): string
  {
    if s == [] then []
    else (if IsSpace(s[0]) then [] else [s[0]]) + NonSpaceChars(s[1..])
  }

  /** The tokens run together. */
  function Concat(ws: seq<string>): string
  {
    if ws == [] then [] else ws[0] + Concat(ws[1..])
  }

  /** A token followed by whitespace or by nothing is taken whole. */
  lemma {:induction false} WordLengthOfToken(w: string, rest: string)
    requires IsToken(w)
    requires rest == [] || IsSpace(rest[0])
    ensures WordLength(w + rest) == |w|
    decreases |w|
  {
    var s := w + rest;
    assert s[0] == w[0];
    if |w| > 1 {
      assert s[1..] == w[1..] + rest;
      WordLengthOfToken(w[1..], rest);
    } else {
      assert s[1..] == rest;
    }
  }

  /** Splitting the space-joined tokens gives the tokens back. */
  lemma {:induction false} SplitJoinRoundTrip(ws: seq<string>)
    requires forall k | 0 <= k < |ws| :: IsToken(ws[k])
    ensures SplitWhitespace(JoinWithSpace(ws)) == ws
  {
    if ws == [] {
    } else if |ws| == 1 {
      var w := ws[0];
      WordLengthOfToken(w, []);
      assert w + [] == w;
      assert w[|w|..] == [];
    } else {
      var w, rest := ws[0], JoinWithSpace(ws[1..]);
      var s := w + " " + rest;
      assert s == w + (" " + rest);
      WordLengthOfToken(w, " " + rest);
      assert s[..|w|] == w;
      assert s[|w|..] == " " + rest;
      assert (" " + rest)[1..] == rest;
      SplitJoinRoundTrip(ws[1..]);
      assert SplitWhitespace(s) == [w] + SplitWhitespace(s[|w|..]);
    }
  }

  /** Splitting loses exactly the whitespace: the tokens, concatenated,
      are the non-whitespace characters of the input in order. */
  lemma {:induction false} SplitKeepsNonSpace(s: string)
    ensures Concat(SplitWhitespace(s)) == NonSpaceChars(s)
    decreases |s|
  {
    if s == [] {
    } else if IsSpace(s[0]) {
      SplitKeepsNonSpace(s[1..]);
    } else {
      var n := WordLength(s);
      SplitKeepsNonSpace(s[n..]);
      NonSpacePrefix(s, n);
      assert Concat([s[..n]] + SplitWhitespace(s[n..])) == s[..n] + Concat(SplitWhitespace(s[n..]));
    }
  }

  /** A whitespace-free prefix passes through `NonSpaceChars` unchanged. */
  lemma {:induction false} NonSpacePrefix(s: string, n: nat)
    requires n <= |s|
    requires forall i | 0 <= i < n :: !IsSpace(s[i])
    ensures NonSpaceChars(s) == s[..n] + NonSpaceChars(s[n..])
    decreases n
  {
    if n > 0 {
      NonSpacePrefix(s[1..], n - 1);
      assert s[1..][n - 1..] == s[n..];
      assert s[..n] == [s[0]] + s[1..][..n - 1];
    }
  }

  /** The deletion works character by character: a single character is
      dropped exactly when it is punctuation. */
  lemma StripPunctuationOfCharacter(c: char)
    ensures StripPunctuation([c]) == if IsPunct(c) then [] else [c]
  {
    assert [c][1..] == [];
  }

  /** The deletion distributes over concatenation, so the kept characters
      stay in their order. */
  lemma {:induction false} StripPunctuationConcat(a: string, b: string)
    ensures StripPunctuation(a + b) == StripPunctuation(a) + StripPunctuation(b)
  {
    if a != [] {
      assert (a + b)[0] == a[0];
      assert (a + b)[1..] == a[1..] + b;
      StripPunctuationUnfold(a + b);
      StripPunctuationUnfold(a);
      StripPunctuationConcat(a[1..], b);
      Regroup(if IsPunct(a[0]) then [] else [a[0]], StripPunctuation(a[1..]),
              StripPunctuation(b), StripPunctuation(a + b), StripPunctuation(a));
    } else {
      assert a + b == b;
    }
  }

  /** Concatenation regrouped: `l` is `h + (p + q)` and `m` is `h + p`. */
  lemma Regroup(h: string, p: string, q: string, l: string, m: string)
    requires l == h + (p + q) && m == h + p
    ensures l == m + q
  {
  }

  /** One step of the deletion, on the first character. */
  lemma StripPunctuationUnfold(x: string)
    requires x != []
    ensures StripPunctuation(x)
         == (if IsPunct(x[0]) then [] else [x[0]]) + StripPunctuation(x[1..])
  {
  }

  /** A whitespace character after `a` ends its last token just as the end
      of the text would. */
  lemma {:induction false} WordLengthAppend(a: string, t: string)
    requires t == [] || IsSpace(t[0])
    ensures WordLength(a + t) == WordLength(a)
  {
    if a != [] {
      assert (a + t)[0] == a[0];
      assert (a + t)[1..] == a[1..] + t;
      WordLengthAppend(a[1..], t);
    } else {
      assert a + t == t;
    }
  }

  /** `split()` cuts at every whitespace character: the tokens of a text
      with a whitespace character in it are the tokens before it followed by
      the tokens after it. */
  lemma {:induction false} SplitAtSpace(a: string, c: char, b: string)
    requires IsSpace(c)
    ensures SplitWhitespace(a + [c] + b) == SplitWhitespace(a) + SplitWhitespace(b)
    decreases |a|
  {
    var s := a + [c] + b;
    if a == [] {
      assert s == [c] + b;
      assert s[1..] == b;
    } else if IsSpace(a[0]) {
      assert s[0] == a[0];
      assert s[1..] == a[1..] + [c] + b;
      SplitAtSpace(a[1..], c, b);
    } else {
      assert s[0] == a[0];
      var m := WordLength(a);
      assert s == a + ([c] + b);
      WordLengthAppend(a, [c] + b);
      assert s[..m] == a[..m];
      if m < |a| {
        assert s[m..] == a[m..] + [c] + b;
        SplitAtSpace(a[m..], c, b);
      } else {
        assert a[m..] == [];
        assert s[m..] == [c] + b;
        assert ([c] + b)[1..] == b;
      }
    }
  }

  /** A single token splits into itself. */
  lemma SplitToken(w: string)
    requires IsToken(w)
    ensures SplitWhitespace(w) == [w]
  {
    WordLengthOfToken(w, []);
    assert w + [] == w;
    assert w[|w|..] == [];
  }

  /** A text without punctuation passes through the deletion unchanged. */
  lemma {:induction false} StripPunctuationKeepsClean(s: string)
    requires forall i | 0 <= i < |s| :: !IsPunct(s[i])
    ensures StripPunctuation(s) == s
  {
    if s != [] {
      StripPunctuationKeepsClean(s[1..]);
    }
  }

  /** A text that is already normalised gives its own tokens back. */
  lemma NormalizeCleanText(text: string, ws: seq<string>)
    requires forall i | 0 <= i < |text| :: !IsUpper(text[i]) && !IsPunct(text[i])
    requires forall k | 0 <= k < |ws| :: IsToken(ws[k])
    requires text == JoinWithSpace(ws)
    ensures Normalize(text) == ws
  {
    assert Lower(text) == text;
    StripPunctuationKeepsClean(text);
    SplitJoinRoundTrip(ws);
  }
}

/** `identify_most_common_word(text)`: tally the normalised tokens in a
    `Counter`, delete the stop words from it, and take `most_common(1)[0]`.

    The `Counter` is a dictionary that remembers insertion order; it is
    modelled by a map from token to count together with the sequence of its
    keys in iteration order. */
module MostCommon {
  import opened Chars
  import opened Normalization
  import opened Options

  /** The stop words deleted from the tally, in the order the source deletes them. */
  const StopWords: seq<string> :=
    ["the", "and", "a", "to", "of", "in", "is", "it", "that", "for", "on", "with", "as", "was", "are"]

  /** The stop words are non-empty runs of lower-case letters, so each is
      a token `Normalize` can produce. */
  lemma StopWordsAreLowerCaseWords()
    ensures |StopWords| == 15
    ensures forall i | 0 <= i < |StopWords| :: StopWords[i] != []
    ensures forall i, j | 0 <= i < |StopWords| && 0 <= j < |StopWords[i]| :: 'a' <= StopWords[i][j] <= 'z'
  {
  }

  /** The list holds fifteen different words: no stop word is listed twice. */
  lemma StopWordsAreDistinct()
    ensures Distinct(StopWords)
  {
  }

  /** No key is listed twice. */
  predicate Distinct(s: seq<string>)
  {
    forall a, b | 0 <= a < b < |s| :: s[a] != s[b]
  }

  /** `counts` and `order` are the `Counter` of `ws` after the keys listed in
      `removed` were deleted: each remaining key maps to its number of
      occurrences in `ws`, and `order`, the dictionary's iteration order,
      lists the keys once each, by first occurrence in `ws`. */
  ghost predicate IsTally(ws: seq<string>, removed: seq<string>, counts: map<string, nat>, order: seq<string>)
  {
    && Distinct(order)
    && (forall x :: x in counts <==> x in order)
    && (forall x :: x in counts <==> x in ws && x !in removed)
    && (forall x | x in counts :: counts[x] == multiset(ws)[x])
    && (forall a, b | 0 <= a < b < |order| :: FirstSeenBefore(ws, order[a], order[b]))
  }

  /** `x` occurs in `ws`, and if `y` does too, `x` occurs first. */
  predicate FirstSeenBefore(ws: seq<string>, x: string, y: string)
  {
    x in ws && (y in ws ==> IndexOf(ws, x) < IndexOf(ws, y))
  }

  /** `w`, with count `c`, is what the analyser promises: a token of `ws` that
      is not a stop word, `c` is its number of occurrences, no other
      non-stop-word token occurs more often, and among the tokens that occur
      `c` times it is the one that occurs first. */
  predicate IsMostCommon(ws: seq<string>, w: string, c: nat)
  {
    && w in ws
    && w !in StopWords
    && c == multiset(ws)[w]
    && (forall j | 0 <= j < |ws| && ws[j] !in StopWords :: multiset(ws)[ws[j]] <= c)
    && (forall j | 0 <= j < |ws| && ws[j] !in StopWords && multiset(ws)[ws[j]] == c :: IndexOf(ws, w) <= j)
  }

  /** Position of the first occurrence of `x` in `s`. */
  function IndexOf(s: seq<string>, x: string): (k: nat)
    requires x in s
    ensures k < |s| && s[k] == x
    ensures forall j | 0 <= j < k :: s[j] != x
  {
    if s[0] == x then 0
    else
      assert x in s[1..];
      1 + IndexOf(s[1..], x)
  }

  /** `Counter(words)`: one pass over the tokens, adding a key with count 1
      the first time a token is seen and incrementing its count afterwards. */
  method BuildTally(ws: seq<string>) returns (counts: map<string, nat>, order: seq<string>)
    ensures IsTally(ws, [], counts, order)
  {
    counts, order := map[], [];
    ghost var seen: seq<string> := [];
    for i := 0 to |ws|
      invariant seen == ws[..i]
      invariant IsTally(seen, [], counts, order)
    {
      var w := ws[i];
      counts, order := CountToken(seen, w, counts, order);
      seen := seen + [w];
      PrefixGrows(ws, i);
    }
    assert seen == ws;
  }

  /** The prefix of `ws` grows by its next element. */
  lemma PrefixGrows(ws: seq<string>, i: nat)
    requires i < |ws|
    ensures ws[..i + 1] == ws[..i] + [ws[i]]
  {
  }

  /** `word_counts[w] += 1` for the next token `w`: a known token's count
      goes up by one; a new token enters with count 1, last in key order. */
  method CountToken(ghost seen: seq<string>, w: string, counts: map<string, nat>, order: seq<string>)
    returns (counts': map<string, nat>, order': seq<string>)
    requires IsTally(seen, [], counts, order)
    ensures IsTally(seen + [w], [], counts', order')
    ensures counts' == counts[w := if w in counts then counts[w] + 1 else 1]
    ensures order' == if w in counts then order else order + [w]
  {
    TallyAdd(seen, w, counts, order);
    if w in counts {
      counts', order' := counts[w := counts[w] + 1], order;
    } else {
      counts', order' := counts[w := 1], order + [w];
    }
  }

  /** One step of the tally: counting one more token `w`. */
  lemma TallyAdd(ws: seq<string>, w: string, counts: map<string, nat>, order: seq<string>)
    requires IsTally(ws, [], counts, order)
    ensures w in counts ==> IsTally(ws + [w], [], counts[w := counts[w] + 1], order)
    ensures w !in counts ==> IsTally(ws + [w], [], counts[w := 1], order + [w])
  {
    TallyPrefix(ws, w);
    if w in counts {
      TallyAddKnown(ws, w, counts, order);
    } else {
      TallyAddNew(ws, w, counts, order);
    }
  }

  /** A token seen before: its count goes up, the key order stays. */
  lemma TallyAddKnown(ws: seq<string>, w: string, counts: map<string, nat>, order: seq<string>)
    requires IsTally(ws, [], counts, order) && w in counts
    requires forall x | x in ws :: IndexOf(ws + [w], x) == IndexOf(ws, x)
    ensures IsTally(ws + [w], [], counts[w := counts[w] + 1], order)
  {
    var ws', counts' := ws + [w], counts[w := counts[w] + 1];
    assert forall x :: x in counts <==> x in ws by {
      assert forall x :: x in counts <==> x in ws && x !in [];
    }
    CountsFollowIncrement(ws, counts, w);
    OrderSurvivesAppend(ws, order, w);
    assert forall x :: x in counts' <==> x in order;
    TallyOfParts(ws', counts', order);
  }

  /** A token seen before is counted once more, and the tally's keys are
      still exactly the tokens seen. */
  lemma CountsFollowIncrement(ws: seq<string>, counts: map<string, nat>, w: string)
    requires forall x :: x in counts <==> x in ws
    requires forall x | x in counts :: counts[x] == multiset(ws)[x]
    requires w in ws
    ensures forall x :: x in counts[w := counts[w] + 1] <==> x in ws + [w]
    ensures forall x | x in counts[w := counts[w] + 1] :: counts[w := counts[w] + 1][x] == multiset(ws + [w])[x]
  {
    assert multiset(ws + [w]) == multiset(ws) + multiset{w};
  }

  /** Keys in first-occurrence order stay so when a token is appended. */
  lemma OrderSurvivesAppend(ws: seq<string>, order: seq<string>, w: string)
    requires forall a, b | 0 <= a < b < |order| :: FirstSeenBefore(ws, order[a], order[b])
    requires forall x | x in ws :: IndexOf(ws + [w], x) == IndexOf(ws, x)
    ensures forall a, b | 0 <= a < b < |order| :: FirstSeenBefore(ws + [w], order[a], order[b])
  {
    forall a, b | 0 <= a < b < |order| ensures FirstSeenBefore(ws + [w], order[a], order[b]) {
      assert FirstSeenBefore(ws, order[a], order[b]);
    }
  }

  /** A new token: it enters with count 1, last in the key order. */
  lemma TallyAddNew(ws: seq<string>, w: string, counts: map<string, nat>, order: seq<string>)
    requires IsTally(ws, [], counts, order) && w !in counts
    requires forall x | x in ws :: IndexOf(ws + [w], x) == IndexOf(ws, x)
    requires w !in ws ==> IndexOf(ws + [w], w) == |ws|
    ensures IsTally(ws + [w], [], counts[w := 1], order + [w])
  {
    assert w !in ws && w !in order;
    var ws', counts', order' := ws + [w], counts[w := 1], order + [w];
    assert forall x :: x in counts <==> x in ws by {
      assert forall x :: x in counts <==> x in ws && x !in [];
    }
    KeysFollowInsert(counts, order, w);
    CountsFollowInsert(ws, counts, w);
    OrderFollowsInsert(ws, order, w);
    TallyOfParts(ws', counts', order');
  }

  /** The parts of `IsTally` for a tally from which nothing was deleted. */
  lemma TallyOfParts(ws: seq<string>, counts: map<string, nat>, order: seq<string>)
    requires Distinct(order)
    requires forall x :: x in counts <==> x in order
    requires forall x :: x in counts <==> x in ws
    requires forall x | x in counts :: counts[x] == multiset(ws)[x]
    requires forall a, b | 0 <= a < b < |order| :: FirstSeenBefore(ws, order[a], order[b])
    ensures IsTally(ws, [], counts, order)
  {
  }

  /** The new key comes last: every older key was first seen before it. */
  lemma OrderFollowsInsert(ws: seq<string>, order: seq<string>, w: string)
    requires Distinct(order) && w !in order && w !in ws
    requires forall x | x in order :: x in ws
    requires forall a, b | 0 <= a < b < |order| :: FirstSeenBefore(ws, order[a], order[b])
    requires forall x | x in ws :: IndexOf(ws + [w], x) == IndexOf(ws, x)
    requires IndexOf(ws + [w], w) == |ws|
    ensures Distinct(order + [w])
    ensures forall a, b | 0 <= a < b < |order + [w]| :: FirstSeenBefore(ws + [w], (order + [w])[a], (order + [w])[b])
  {
    var ws', order' := ws + [w], order + [w];
    forall a, b | 0 <= a < b < |order'| ensures FirstSeenBefore(ws', order'[a], order'[b]) {
      if b < |order| {
        assert FirstSeenBefore(ws, order[a], order[b]);
      } else {
        var x := order[a];
        assert IndexOf(ws', x) == IndexOf(ws, x) < |ws| == IndexOf(ws', w);
      }
    }
  }

  /** Inserting a new key into the map and appending it to the key
      sequence keeps the two in step. */
  lemma KeysFollowInsert(counts: map<string, nat>, order: seq<string>, w: string)
    requires forall x :: x in counts <==> x in order
    ensures forall x :: x in counts[w := 1] <==> x in order + [w]
  {
  }

  /** A token seen for the first time is counted once, and the tally's
      keys are still exactly the tokens seen. */
  lemma CountsFollowInsert(ws: seq<string>, counts: map<string, nat>, w: string)
    requires forall x :: x in counts <==> x in ws
    requires forall x | x in counts :: counts[x] == multiset(ws)[x]
    requires w !in ws
    ensures forall x :: x in counts[w := 1] <==> x in ws + [w]
    ensures forall x | x in counts[w := 1] :: counts[w := 1][x] == multiset(ws + [w])[x]
  {
    assert multiset(ws + [w]) == multiset(ws) + multiset{w};
  }

  /** Appending one token leaves the first occurrence of every token seen
      so far where it was; a new token is first seen at the end. */
  lemma TallyPrefix(ws: seq<string>, w: string)
    ensures forall x | x in ws :: IndexOf(ws + [w], x) == IndexOf(ws, x)
    ensures w !in ws ==> IndexOf(ws + [w], w) == |ws|
  {
    forall x | x in ws ensures IndexOf(ws + [w], x) == IndexOf(ws, x) {
      IndexOfAppend(ws, w, x);
    }
  }

  /** The first occurrence of a token already in `ws` does not move when
      another token is appended. */
  lemma IndexOfAppend(ws: seq<string>, w: string, x: string)
    requires x in ws
    ensures IndexOf(ws + [w], x) == IndexOf(ws, x)
  {
    var k := IndexOf(ws, x);
    assert (ws + [w])[k] == x;
  }

  /** The loop of lines 64-66: each stop word present in the tally is deleted. */
  method DeleteStopWords(ghost ws: seq<string>, counts: map<string, nat>, order: seq<string>)
    returns (counts': map<string, nat>, order': seq<string>)
    requires IsTally(ws, [], counts, order)
    ensures IsTally(ws, StopWords, counts', order')
  {
    counts', order' := counts, order;
    for j := 0 to |StopWords|
      invariant IsTally(ws, StopWords[..j], counts', order')
    {
      var w := StopWords[j];
      assert StopWords[..j + 1] == StopWords[..j] + [w];
      TallyDelete(ws, StopWords[..j], counts', order', w);
      if w in counts' {
        var k := IndexOf(order', w);
        counts' := counts' - {w};
        order' := DeleteAt(order', k);
      }
    }
    assert StopWords[..|StopWords|] == StopWords;
  }

  /** One step of the deletion loop: deleting `w` where present leaves the
      tally of the tokens with `w` removed too. */
  lemma TallyDelete(ws: seq<string>, removed: seq<string>, counts: map<string, nat>, order: seq<string>, w: string)
    requires IsTally(ws, removed, counts, order)
    ensures w in counts ==>
      w in order && IsTally(ws, removed + [w], counts - {w}, DeleteAt(order, IndexOf(order, w)))
    ensures w !in counts ==> IsTally(ws, removed + [w], counts, order)
  {
    if w in counts {
      var k := IndexOf(order, w);
      OrderFollowsDelete(ws, order, k);
      KeysFollowDelete(ws, removed, counts, order, k);
    }
  }

  /** Deleting a key keeps the others in the order of first occurrence. */
  lemma OrderFollowsDelete(ws: seq<string>, order: seq<string>, k: nat)
    requires k < |order|
    requires forall a, b | 0 <= a < b < |order| :: FirstSeenBefore(ws, order[a], order[b])
    ensures var order' := DeleteAt(order, k);
      forall a, b | 0 <= a < b < |order'| :: FirstSeenBefore(ws, order'[a], order'[b])
  {
    var order' := DeleteAt(order, k);
    forall a, b | 0 <= a < b < |order'| ensures FirstSeenBefore(ws, order'[a], order'[b]) {
      var a', b' := if a < k then a else a + 1, if b < k then b else b + 1;
      assert order'[a] == order[a'] && order'[b] == order[b'];
    }
  }

  /** Deleting the key at `k` from both the map and the key sequence keeps
      them in step, and removes exactly that token from the tally. */
  lemma KeysFollowDelete(ws: seq<string>, removed: seq<string>, counts: map<string, nat>, order: seq<string>, k: nat)
    requires k < |order| && Distinct(order)
    requires forall x :: x in counts <==> x in order
    requires forall x :: x in counts <==> x in ws && x !in removed
    ensures var w, order' := order[k], DeleteAt(order, k);
      && Distinct(order')
      && (forall x :: x in counts - {w} <==> x in order')
      && (forall x :: x in counts - {w} <==> x in ws && x !in removed + [w])
  {
  }

  /** The key sequence after deleting the entry at position `k`: the other
      keys keep their relative order. */
  function DeleteAt(s: seq<string>, k: nat): (r: seq<string>)
    requires k < |s|
    ensures |r| == |s| - 1
    ensures forall a | 0 <= a < |r| :: r[a] == if a < k then s[a] else s[a + 1]
    ensures Distinct(s) ==> Distinct(r) && forall x :: x in r <==> x in s && x != s[k]
  {
    s[..k] + s[k + 1..]
  }

  /** `most_common(1)`: `max` over the entries in iteration order, which
      keeps the first entry among those with the largest count; `None` when
      the tally is empty (where `most_common(1)[0]` raises). */
  method MostCommonEntry(counts: map<string, nat>, order: seq<string>) returns (r: Option<(string, nat)>)
    requires forall x | x in order :: x in counts
    ensures r.None? <==> order == []
    ensures r.Some? ==> exists b :: && 0 <= b < |order| && order[b] == r.value.0
                                    && counts[order[b]] == r.value.1
                                    && (forall k | 0 <= k < |order| :: counts[order[k]] <= r.value.1)
                                    && (forall k | 0 <= k < b :: counts[order[k]] < r.value.1)
  {
    if order == [] {
      return None;
    }
    var best := 0;
    for i := 1 to |order|
      invariant best < i
      invariant forall k | 0 <= k < i :: counts[order[k]] <= counts[order[best]]
      invariant forall k | 0 <= k < best :: counts[order[k]] < counts[order[best]]
    {
      if counts[order[i]] > counts[order[best]] {
        best := i;
      }
    }
    r := Some((order[best], counts[order[best]]));
  }

  /** `identify_most_common_word`. `None` stands for the `IndexError` the
      source raises when no token other than a stop word is left. */
  method IdentifyMostCommonWord(text: string) returns (r: Option<(string, nat)>)
    ensures var ws := Normalize(text);
      && (r.None? <==> forall j | 0 <= j < |ws| :: ws[j] in StopWords)
      && (r.Some? ==> IsMostCommon(ws, r.value.0, r.value.1))
  {
    var ws := Normalize(text);
    var counts, order := BuildTally(ws);
    counts, order := DeleteStopWords(ws, counts, order);
    r := MostCommonEntry(counts, order);
    EntryIsMostCommon(ws, counts, order, r);
  }

  /** The entry `most_common(1)` picks from the stop-word-free tally is the
      most common word of the token list, and there is none exactly when
      every token is a stop word. */
  lemma EntryIsMostCommon(ws: seq<string>, counts: map<string, nat>, order: seq<string>, r: Option<(string, nat)>)
    requires IsTally(ws, StopWords, counts, order)
    requires r.None? <==> order == []
    requires r.Some? ==> exists b :: && 0 <= b < |order| && order[b] == r.value.0
                                     && counts[order[b]] == r.value.1
                                     && (forall k | 0 <= k < |order| :: counts[order[k]] <= r.value.1)
                                     && (forall k | 0 <= k < b :: counts[order[k]] < r.value.1)
    ensures r.None? <==> forall j | 0 <= j < |ws| :: ws[j] in StopWords
    ensures r.Some? ==> IsMostCommon(ws, r.value.0, r.value.1)
  {
    NoKeyOnlyStopWords(ws, counts, order);
    if r.Some? {
      LargestEntryIsMostCommon(ws, counts, order, r.value.0, r.value.1);
    }
  }

  /** The key order is empty exactly when every token is a stop word. */
  lemma NoKeyOnlyStopWords(ws: seq<string>, counts: map<string, nat>, order: seq<string>)
    requires IsTally(ws, StopWords, counts, order)
    ensures order == [] <==> forall j | 0 <= j < |ws| :: ws[j] in StopWords
  {
    EmptyTallyOnlyStopWords(ws, counts);
    if order != [] {
      assert order[0] in counts;
    }
  }

  /** An entry of largest count that comes first among those is the most
      common word. */
  lemma LargestEntryIsMostCommon(ws: seq<string>, counts: map<string, nat>, order: seq<string>, w: string, c: nat)
    requires IsTally(ws, StopWords, counts, order)
    requires exists b :: && 0 <= b < |order| && order[b] == w
                         && counts[order[b]] == c
                         && (forall k | 0 <= k < |order| :: counts[order[k]] <= c)
                         && (forall k | 0 <= k < b :: counts[order[k]] < c)
    ensures IsMostCommon(ws, w, c)
  {
    var b :| && 0 <= b < |order| && order[b] == w && counts[order[b]] == c
             && (forall k | 0 <= k < |order| :: counts[order[k]] <= c)
             && (forall k | 0 <= k < b :: counts[order[k]] < c);
    FirstMaximumIsMostCommon(ws, counts, order, b);
  }

  /** The first entry with the largest count in the stop-word-free tally is
      the most common word of the token list. */
  lemma FirstMaximumIsMostCommon(ws: seq<string>, counts: map<string, nat>, order: seq<string>, b: nat)
    requires IsTally(ws, StopWords, counts, order)
    requires b < |order|
    requires forall k | 0 <= k < |order| :: counts[order[k]] <= counts[order[b]]
    requires forall k | 0 <= k < b :: counts[order[k]] < counts[order[b]]
    ensures IsMostCommon(ws, order[b], counts[order[b]])
  {
    var w, c := order[b], counts[order[b]];
    forall j | 0 <= j < |ws| && ws[j] !in StopWords
      ensures multiset(ws)[ws[j]] <= c
      ensures multiset(ws)[ws[j]] == c ==> IndexOf(ws, w) <= j
    {
      var x := ws[j];
      assert x in counts;
      var k := IndexOf(order, x);
      if multiset(ws)[x] == c {
        if k > b {
          assert FirstSeenBefore(ws, order[b], order[k]);
        } else {
          assert k == b;
        }
      }
    }
  }

  /** The tally is empty exactly when every token is a stop word. */
  lemma EmptyTallyOnlyStopWords(ws: seq<string>, counts: map<string, nat>)
    requires forall x :: x in counts <==> x in ws && x !in StopWords
    ensures counts == map[] <==> forall j | 0 <= j < |ws| :: ws[j] in StopWords
  {
    if counts == map[] {
      forall j | 0 <= j < |ws| ensures ws[j] in StopWords {
        assert ws[j] !in counts;
      }
    }
  }

  /** The promise pins the answer down: two word/count pairs that both meet
      it are equal, so the tie-break leaves no choice. */
  lemma MostCommonIsUnique(ws: seq<string>, w1: string, c1: nat, w2: string, c2: nat)
    requires IsMostCommon(ws, w1, c1) && IsMostCommon(ws, w2, c2)
    ensures w1 == w2 && c1 == c2
  {
    var i1, i2 := IndexOf(ws, w1), IndexOf(ws, w2);
    assert c2 <= c1 by { assert ws[i2] == w2; }
    assert c1 <= c2 by { assert ws[i1] == w1; }
    assert i1 <= i2 by { assert ws[i2] == w2; }
    assert i2 <= i1 by { assert ws[i1] == w1; }
  }

  /** The tokens of "the cat and the cat sat": "the" occurs as often as
      "cat" but is a stop word, so "cat" wins with 2. */
  lemma ExampleStopWordIgnored(ws: seq<string>)
    requires ws == ["the", "cat", "and", "the", "cat", "sat"]
    ensures IsMostCommon(ws, "cat", 2)
  {
    ExampleStopWords();
    ExampleCounts(ws);
    assert ws[1] == "cat" && IndexOf(ws, "cat") == 1;
    forall j | 0 <= j < |ws| && ws[j] !in StopWords
      ensures multiset(ws)[ws[j]] <= 2 && 1 <= j
    {
      assert ws[j] == "cat" || ws[j] == "sat";
    }
  }

  /** The text "the the cat" is already normalised: its tokens are its
      words. */
  lemma ExampleTextTokens(text: string)
    requires text == "the the cat"
    ensures Normalize(text) == ["the", "the", "cat"]
  {
    var ws := ["the", "the", "cat"];
    ExampleTextIsJoin(text);
    assert forall i | 0 <= i < |text| :: 'a' <= text[i] <= 'z' || text[i] == ' ';
    assert forall k | 0 <= k < |ws| :: IsToken(ws[k]);
    NormalizeCleanText(text, ws);
  }

  /** "the the cat" is its words joined by single spaces. */
  lemma ExampleTextIsJoin(text: string)
    requires text == "the the cat"
    ensures JoinWithSpace(["the", "the", "cat"]) == text
  {
    var ws := ["the", "the", "cat"];
    assert ws[1..][1..] == ["cat"];
    assert JoinWithSpace(ws[1..]) == "the cat";
  }

  /** The most frequent token of "the the cat" is a stop word, so the
      answer is the only other token. */
  lemma ExampleStopWordDominates()
    ensures IsMostCommon(["the", "the", "cat"], "cat", 1)
  {
    var ws := ["the", "the", "cat"];
    ExampleStopWords();
    var the, cat := "the", "cat";
    assert the != cat;
    assert multiset(ws) == multiset{the, the, cat};
    assert IndexOf(ws, "cat") == 2;
  }

  /** `identify_most_common_word("the the cat")` returns ("cat", 1): the
      twice-seen "the" is deleted as a stop word. */
  method ExampleMostCommonOfText() returns (r: Option<(string, nat)>)
    ensures r == Some(("cat", 1))
  {
    var text := "the the cat";
    r := IdentifyMostCommonWord(text);
    ExampleTextTokens(text);
    ExampleStopWordDominates();
    var ws := ["the", "the", "cat"];
    assert ws[2] !in StopWords by { ExampleStopWords(); }
    MostCommonIsUnique(ws, r.value.0, r.value.1, "cat", 1);
  }

  /** Which tokens of the example are stop words. */
  lemma ExampleStopWords()
    ensures "the" in StopWords && "and" in StopWords
    ensures "cat" !in StopWords && "sat" !in StopWords
  {
    assert StopWords[0] == "the" && StopWords[1] == "and";
    assert forall x | x in StopWords :: x[0] != 'c' && x[0] != 's';
    assert "cat"[0] == 'c' && "sat"[0] == 's';
  }

  /** How often the example's content words occur. */
  lemma ExampleCounts(ws: seq<string>)
    requires ws == ["the", "cat", "and", "the", "cat", "sat"]
    ensures multiset(ws)["cat"] == 2 && multiset(ws)["sat"] == 1
  {
    var the, cat, and, sat := "the", "cat", "and", "sat";
    assert cat != the && cat != and && cat != sat && sat != the && sat != and;
    assert multiset(ws) == multiset{the, cat, and, the, cat, sat};
  }

  /** Between equally frequent words the one seen first wins. */
  lemma ExampleTieGoesToFirst()
    ensures IsMostCommon(["dog", "cat", "cat", "dog"], "dog", 2)
    ensures !IsMostCommon(["dog", "cat", "cat", "dog"], "cat", 2)
  {
    var ws := ["dog", "cat", "cat", "dog"];
    assert multiset(ws)["dog"] == 2 && multiset(ws)["cat"] == 2;
    assert IndexOf(ws, "cat") == 1;
  }
}

# News article analysers, modelled in Dafny

The analysed program reads a news article and offers five statistics over its
text: how often a given word occurs, the most common word other than a
stop word, the average word length, the number of paragraphs and the number
of sentences. This project models those five analysers of
`pythonAssessment.py`. It also models the normalisation two of them share:
lower-case the text, delete ASCII punctuation, split on whitespace. Text is
a Dafny `string`, a sequence of characters.

Modules, one per analyser plus shared pieces:

- `Chars` (`chars.dfy`): the character classes the analysers rely on. These
  are Python's whitespace, `string.punctuation` and the regex class `\w`,
  restricted to ASCII, plus `str.lower`.
- `Normalization` (`normalization.dfy`): `text.lower().translate(...)`
  followed by `.split()`.
- `WordCount` (`word_count.dfy`): `count_specific_word`. `re.findall` is
  modelled as the left-to-right scan it performs. The count is proved
  against a reference count that looks at every position.
- `MostCommon` (`most_common.dfy`): `identify_most_common_word`. The code is
  imperative. A `Counter` is built in one pass over the tokens, its
  stop-word keys are deleted in a loop, and `most_common(1)` takes the first
  entry with the largest count. Each step is a method with a loop. The
  `Counter` is a map plus the sequence of its keys in insertion order. The
  methods are proved against `IsTally` and `IsMostCommon`, which state what
  the tally holds and what the answer must be.
- `AverageLength` (`average_length.dfy`): `calculate_avg_word_length`, as an
  exact rational mean.
- `Splitting` (`splitting.dfy`): what a `re.split` returns, as segments and
  separators. Also the non-blank filter both structure counters apply.
- `Sentences` (`sentences.dfy`) and `Paragraphs` (`paragraphs.dfy`):
  `count_sentences` and `count_paragraphs`. The pattern of each `re.split` is
  modelled as its own leftmost, greedy scan. The scan is proved to give back
  the text when segments and separators are put together again. Each count
  is also proved equal to an independent one-pass character scanner
  (`SentenceStarts`, `ParagraphStarts`).
- `Options` (`option.dfy`): `Option`. `None` stands for the `IndexError` of
  `most_common(1)[0]` on an empty tally.

## Model

| member | source | states |
|---|---|---|
| Chars.IsSpace | pythonAssessment.py:57 | ASCII whitespace as `str.split`, `str.strip` and `\s` see it: the characters 9-13 (tab, line feed, vertical tab, form feed, carriage return), the information separators 28-31, and 32 (space) |
| Chars.WhitespaceIsListed | pythonAssessment.py:57 | a character is whitespace exactly when it is one of those ten characters, listed one by one |
| Chars.IsPunct | pythonAssessment.py:53 | membership in `string.punctuation`: the 32 printable ASCII characters that are neither letters, digits nor space, `_` included |
| Chars.PunctuationIsListed | pythonAssessment.py:53 | a character is punctuation exactly when it is one of the 32 characters of `string.punctuation`, written out in its own order |
| Chars.IsWordChar | pythonAssessment.py:38 | the regex class `\w` on ASCII: a letter of either case, a digit or `_` |
| Chars.WordCharactersAreListed | pythonAssessment.py:38 | a character is a word character exactly when it is one of the 26 lower-case letters, the 26 upper-case letters, the 10 digits or `_` |
| Chars.LowerLettersAreListed | pythonAssessment.py:38 | the range 'a'-'z' is exactly the 26 listed lower-case letters |
| Chars.UpperLettersAreListed | pythonAssessment.py:38 | the range 'A'-'Z' is exactly the 26 listed upper-case letters |
| Chars.DigitsAreListed | pythonAssessment.py:38 | the range '0'-'9' is exactly the 10 listed digits |
| Chars.ToLower | pythonAssessment.py:54 | the result is never an upper-case letter; an upper-case ASCII letter moves to its lower-case letter and any other character is unchanged; whitespace, punctuation and word characters stay what they were |
| Chars.Lower | pythonAssessment.py:39 | `str.lower` keeps the length and lowers every character in place |
| Normalization.StripPunctuation | pythonAssessment.py:53-54 | no punctuation character is left, and every other character keeps its number of occurrences (the order is fixed by the two lemmas below) |
| Normalization.StripPunctuationOfCharacter | pythonAssessment.py:53-54 | a single character is deleted exactly when it is punctuation |
| Normalization.StripPunctuationConcat | pythonAssessment.py:53-54 | the deletion distributes over concatenation, so the kept characters stay in their order; with the single-character case this determines the result |
| Normalization.SplitWhitespace | pythonAssessment.py:57 | every token is non-empty and free of whitespace, and is made of characters of the input (the tokens themselves are fixed by the two lemmas below) |
| Normalization.SplitAtSpace | pythonAssessment.py:57 | `split()` cuts at every whitespace character: the tokens of `a + c + b`, with `c` whitespace, are those of `a` followed by those of `b` |
| Normalization.SplitToken | pythonAssessment.py:57 | a non-empty whitespace-free string splits into itself; with the lemma above and the empty case this determines the result |
| Normalization.Normalize | pythonAssessment.py:53-57 | every token is non-empty and holds no whitespace, no upper-case letter and no punctuation (the same steps as lines 83-87) |
| Normalization.SplitJoinRoundTrip | pythonAssessment.py:57 | splitting tokens joined by single spaces gives the tokens back |
| Normalization.SplitKeepsNonSpace | pythonAssessment.py:57 | the tokens, run together, are exactly the input's non-whitespace characters in order: splitting loses only whitespace |
| Normalization.StripPunctuationKeepsClean | pythonAssessment.py:53-54 | a text without punctuation is left unchanged |
| Normalization.NormalizeCleanText | pythonAssessment.py:53-57 | a lower-case, punctuation-free text of tokens separated by single spaces normalises to exactly those tokens |
| WordCount.FindAll | pythonAssessment.py:39 | every position `re.findall` reports is a match at or after the position the scan starts from |
| WordCount.FindAllSpaced | pythonAssessment.py:39 | the reported positions increase, and each is at least the word's length after the one before, so the matches do not overlap |
| WordCount.FindAllFits | pythonAssessment.py:39 | the reported matches of a non-empty word fit side by side in the text |
| WordCount.FindAllWithinOccurrences | pythonAssessment.py:39 | the scan never reports more matches than there are positions where the pattern matches |
| WordCount.FindAllCountsEveryOccurrence | pythonAssessment.py:39-40 | for an empty word or a word of word characters, the number of matches reported equals the number of positions where the pattern matches |
| WordCount.FindAllFindsEveryOccurrence | pythonAssessment.py:39 | every occurrence of a word of word characters is among the reported positions |
| WordCount.FindAllEmptyIffAbsent | pythonAssessment.py:39 | the scan reports nothing exactly when the pattern matches nowhere |
| WordCount.CountFindAll | pythonAssessment.py:38-40 | `len(re.findall(pattern, text.lower()))` for either delimiter: at most the delimited occurrences of the lower-cased word, and exactly that many for the empty word or a word of word characters; a non-empty word is found at most `len(text) / len(word)` times; nothing is found in the empty text except the empty word with the whole-word delimiter |
| WordCount.CountSpecificWord | pythonAssessment.py:26-40 | the count, as written with `\b`, is at most the number of match positions in the lower-cased text, and equal to it for an empty word or a word of word characters; it is 0 for an empty text; matches of a non-empty word fit in the text |
| WordCount.CountZeroIffAbsent | pythonAssessment.py:38-40 | the count is 0 exactly when the pattern matches nowhere in the lower-cased text |
| WordCount.CaseInsensitive | pythonAssessment.py:38-39 | texts and words that agree once lower-cased give the same count |
| WordCount.NoOverlap | pythonAssessment.py:38-39 | two matches of a word of word characters cannot overlap |
| WordCount.DelimitersAgreeOnWords | pythonAssessment.py:38 | for a word of word characters, `\b` on both sides matches exactly where "no word character on either side" does |
| WordCount.ExampleCountedAcrossCase | pythonAssessment.py:38-40 | "cat" occurs once in "The Cat sat" |
| WordCount.ExampleFollowedByPunctuation | pythonAssessment.py:38-40 | "cat" is counted in "Cat." |
| WordCount.ExampleUnderscoreJoins | pythonAssessment.py:38-40 | "cat" is not counted in "cat_x" |
| WordCount.ExampleInsideWord | pythonAssessment.py:38-40 | "cat" is not counted inside "concatenate" |
| WordCount.AbbreviationIsMissed | pythonAssessment.py:38 | the count as written finds no "U.S." in the text "U.S.", while the whole-word count finds one |
| WordCount.CountWholeWord | pythonAssessment.py:38-40 | the corrected count is at most the number of occurrences that no word character touches, and equal to it for the empty word or a word of word characters; for a word of word characters it equals the source's count (on the empty word the two differ, see `EmptyWordDiffers`) |
| WordCount.EmptyWordDiffers | pythonAssessment.py:38-40 | on the empty word the corrected count and the source's differ: in the text " " the source's `\b\b` finds 0 matches and the corrected pattern finds 2 |
| MostCommon.StopWordsAreLowerCaseWords | pythonAssessment.py:63 | the stop-word list has 15 entries, each a non-empty run of lower-case letters, so each can be a normalised token |
| MostCommon.StopWordsAreDistinct | pythonAssessment.py:63 | the 15 entries of the stop-word list are pairwise different words |
| MostCommon.ExampleStopWords | pythonAssessment.py:63 | "the" and "and" are stop words; "cat" and "sat" are not |
| MostCommon.BuildTally | pythonAssessment.py:60 | the tally maps each token to its number of occurrences, and lists the keys once each in order of first occurrence |
| MostCommon.CountToken | pythonAssessment.py:60 | counting one more token keeps the tally exact: a known token's count rises by one with the key order unchanged; a new token enters with count 1 as the last key |
| MostCommon.TallyAdd | pythonAssessment.py:60 | counting one more token keeps the tally invariant: a known token's count goes up by one, and a new token is added last with count 1 |
| MostCommon.TallyPrefix | pythonAssessment.py:60 | appending a token leaves the first occurrence of every token already seen in place, and a new token is first seen at the end |
| MostCommon.IndexOfAppend | pythonAssessment.py:60 | the first occurrence of a token already in the list does not move when another token is appended |
| MostCommon.DeleteStopWords | pythonAssessment.py:63-66 | after the loop the tally is that of the tokens that are not stop words, with key order otherwise unchanged |
| MostCommon.TallyDelete | pythonAssessment.py:64-66 | deleting one stop word, where it is a key, keeps the tally invariant with that word added to the removed ones |
| MostCommon.DeleteAt | pythonAssessment.py:66 | deleting a key leaves the other keys, distinct and in their order |
| MostCommon.MostCommonEntry | pythonAssessment.py:69 | `None` exactly for an empty tally; otherwise a key whose count is the largest and which comes after no key with that count |
| MostCommon.IdentifyMostCommonWord | pythonAssessment.py:42-70 | `None` exactly when every token is a stop word; otherwise a word that is not a stop word, with its number of occurrences, no non-stop-word token occurring more often, and the earliest-seen one among equally frequent words |
| MostCommon.EntryIsMostCommon | pythonAssessment.py:63-70 | the entry `most_common(1)` picks from the stop-word-free tally is the most common word of the tokens, and there is none exactly when every token is a stop word |
| MostCommon.NoKeyOnlyStopWords | pythonAssessment.py:63-69 | after the stop words are deleted, the key order is empty exactly when every token is a stop word |
| MostCommon.LargestEntryIsMostCommon | pythonAssessment.py:63-69 | an entry whose count no key exceeds, and which comes before every other key with that count, is the most common non-stop word |
| MostCommon.FirstMaximumIsMostCommon | pythonAssessment.py:69 | the first largest entry of the stop-word-free tally is the most common word of the tokens |
| MostCommon.EmptyTallyOnlyStopWords | pythonAssessment.py:63-69 | the stop-word-free tally is empty exactly when every token is a stop word |
| MostCommon.MostCommonIsUnique | pythonAssessment.py:69 | at most one word/count pair meets the promise, so the tie-break leaves no choice |
| MostCommon.ExampleStopWordIgnored | pythonAssessment.py:60-69 | for the tokens of "the cat and the cat sat" the answer is ("cat", 2) |
| MostCommon.ExampleTextTokens | pythonAssessment.py:53-57 | the text "the the cat" normalises to the tokens "the", "the", "cat" |
| MostCommon.ExampleStopWordDominates | pythonAssessment.py:60-69 | for those tokens the answer is ("cat", 1): the more frequent "the" is a stop word |
| MostCommon.ExampleMostCommonOfText | pythonAssessment.py:42-70 | the analyser run on the text "the the cat" returns ("cat", 1) |
| MostCommon.ExampleTieGoesToFirst | pythonAssessment.py:69 | with "dog" and "cat" tied, "dog", seen first, is the answer and "cat" is not |
| AverageLength.TotalLength | pythonAssessment.py:91 | `sum(len(word) for word in words)`: the total length of the tokens |
| AverageLength.TotalLengthBounds | pythonAssessment.py:91 | the total length lies between the token count times the shortest length and the token count times the longest length |
| AverageLength.MeanBounds | pythonAssessment.py:92 | a mean lies between the bounds of what it averages |
| AverageLength.AverageWordLength | pythonAssessment.py:72-95 | 0 when there is no token; otherwise the mean lies between the shortest and the longest token length, so it is at least 1 |
| AverageLength.AverageIsMean | pythonAssessment.py:91-92 | with at least one token, the average times the token count is the total token length |
| AverageLength.MeanOfTokens | pythonAssessment.py:91-92 | the mean of a non-empty token list lies between its shortest and longest token length, and is at least 1 |
| AverageLength.ConcatLength | pythonAssessment.py:91 | the token lengths add up to the length of the tokens run together |
| AverageLength.TotalLengthOfText | pythonAssessment.py:83-91 | the total token length is the number of characters of the lower-cased, punctuation-free text that are not whitespace |
| AverageLength.ExampleAverage | pythonAssessment.py:83-93 | the average word length of "aa bb" is 2 |
| Splitting.CountNonBlank | pythonAssessment.py:111-113 | the count of non-blank pieces is at most the number of pieces, and 0 exactly when every piece is blank (the same filter as lines 129-131) |
| Splitting.CountNonBlankCovers | pythonAssessment.py:111 | every non-blank piece in a stretch of the pieces is counted |
| Splitting.HasNonSpaceSplit | pythonAssessment.py:111 | a concatenation is non-blank exactly when one of its parts is |
| Sentences.SplitFrom | pythonAssessment.py:126 | `re.split(r'[.!?]+', ...)` from a position on: one more segment than separators, segments and separators interleaved give back the rest of the text, no segment holds a terminator, and each separator is a non-empty run of terminators |
| Sentences.SplitSentences | pythonAssessment.py:126 | segments and separators put back together give the text; no segment holds a terminator; every separator is a non-empty run of terminators |
| Sentences.SeparatorsAreRuns | pythonAssessment.py:126 | the split has one separator per maximal run of terminators |
| Sentences.RunsAtRun | pythonAssessment.py:126 | the runs of terminators from a position are the one at the first terminator and those after it ends |
| Sentences.CountSentences | pythonAssessment.py:115-131 | at most one sentence more than there are runs of terminators; none for an empty text |
| Sentences.ScanSegment | pythonAssessment.py:126-129 | a terminator-free stretch opens at most one sentence, and only if it holds a non-whitespace character |
| Sentences.ScanRun | pythonAssessment.py:126 | after a run of terminators the next content character opens a sentence |
| Sentences.ScanSentence | pythonAssessment.py:126-129 | a non-blank, terminator-free stretch closed by a run of terminators is exactly one sentence |
| Sentences.CountSentencesIsSentenceStarts | pythonAssessment.py:126-131 | the split-and-filter count equals the number of content characters that begin the text or follow a terminator, with only whitespace and terminators in between |
| Sentences.NoSentenceIffNoContent | pythonAssessment.py:126-131 | the count is 0 exactly when every character is whitespace or a terminator |
| Sentences.ExampleThreeSentences | pythonAssessment.py:126-131 | "Hi! Bye. Go?" holds three sentences |
| Sentences.ExampleTerminatorRuns | pythonAssessment.py:126-131 | "Wait... really?!" holds two sentences: "..." and "?!" each end one sentence |
| Paragraphs.BlankLineMatch | pythonAssessment.py:108 | `\n\s*\n` tried at a position: a match is a blank-line separator after which no whitespace holding a line feed is left, because the greedy `\s*` took it; no match means no blank line starts there |
| Paragraphs.SplitFrom | pythonAssessment.py:108 | `re.split(r'\n\s*\n', ...)` from a position on: one more segment than separators, interleaved they give back the rest of the text, no segment holds a blank line, every separator is a blank-line match, no segment after the first starts with one, no segment before a separator ends in whitespace that holds a line feed (the match would have started there), every segment between two separators holds a non-whitespace character (adjacent blank lines form one match), and a first segment before a match holds content unless the text starts with a blank line |
| Paragraphs.SplitParagraphs | pythonAssessment.py:108 | segments and separators put back together give the text; no segment holds a blank line; every separator is whitespace that starts and ends with a line feed; no segment after a separator begins, and no segment before one ends, with whitespace holding a line feed (the match is leftmost and greedy); every segment between two separators holds a non-whitespace character |
| Paragraphs.TrailingNewlineIsMatched | pythonAssessment.py:108 | a segment ending in whitespace that holds a line feed, just before a line feed, contains a position where the pattern matches, so the leftmost match never leaves one |
| Paragraphs.BlankBeforeNewline | pythonAssessment.py:108 | whitespace only up to a line feed means the text there begins with whitespace holding a line feed, which the previous greedy match would have taken |
| Paragraphs.ExampleBlankLinesInARow | pythonAssessment.py:108 | "a\n\n\n\nb" splits into "a" and "b" around one separator, the whole run of line feeds |
| Paragraphs.CountParagraphs | pythonAssessment.py:97-113 | 0 exactly for a text with no non-whitespace character; 1 for a non-blank text with no blank line; never more than the number of separators plus one, nor fewer than that number minus one |
| Paragraphs.ScanSeparator | pythonAssessment.py:108 | after a separator the next non-whitespace character opens a paragraph |
| Paragraphs.ScanSegment | pythonAssessment.py:108-111 | a stretch with no blank line opens one paragraph if it is non-blank, none otherwise |
| Paragraphs.ScanInsideParagraph | pythonAssessment.py:108 | inside a stretch with no blank line, no further paragraph opens once one is open |
| Paragraphs.ScanParagraph | pythonAssessment.py:108-111 | a non-blank stretch with no blank line, closed by a blank line, is exactly one paragraph |
| Paragraphs.CountParagraphsIsParagraphStarts | pythonAssessment.py:108-113 | the split-and-filter count equals the number of non-whitespace characters that begin the text or follow whitespace holding at least two line feeds |
| Paragraphs.BlankTextOpensNothing | pythonAssessment.py:111-113 | a blank text opens no paragraph, and a non-blank text opens at least one |
| Paragraphs.NoBlankLineOneParagraph | pythonAssessment.py:108-113 | a non-blank text with no blank line is one paragraph |
| Paragraphs.ExampleThreeParagraphs | pythonAssessment.py:108-113 | "a\n\nb\n\nc" holds three paragraphs |
| Paragraphs.ExampleSpacesOnBlankLine | pythonAssessment.py:108-113 | a line of spaces between two lines separates paragraphs |
| Paragraphs.ExampleSingleNewline | pythonAssessment.py:108-113 | "a\nb" is one paragraph |

## Left out

- `read_article` (pythonAssessment.py:5-24): it reads a file and reports I/O errors on the console. File I/O is outside the model; the analysers take the text as a parameter.
- `main` (pythonAssessment.py:133-218): the interactive menu loop. It reads choices with `input` and prints results, with averages formatted by `{:.2f}`. It is console I/O around the analysers.
- AverageLength.AverageWordLength: the mean is an exact rational, not a Python float, so rounding is not modelled. With no token the source returns the integer `0`; the model returns `0.0`.
- MostCommon.IdentifyMostCommonWord: where the source raises `IndexError` (line 69, nothing left after the stop words are deleted), the model returns `None`.
- Unicode. Every character class is ASCII: `str.lower`, `str.split`, `str.strip`, `\s` and `\w`/`\b`. A non-ASCII character counts as neither whitespace, punctuation, upper-case letter nor word character. Python gives many of them one of those classes.
- The `Counter`'s hash table. A key-to-count map plus the key sequence in insertion order is all the analyser observes.
- `most_common(1)` selects with `max` over the entries, which keeps the first of equal maxima. The model uses exactly that rule. Any `n` other than 1 is not modelled.
- The regular-expression engine in general. Only the three fixed patterns are modelled, each as its own scan: `\b<word>\b` with `findall`, and `[.!?]+` and `\n\s*\n` with `split`.

## Findings

| source | as written | input that shows it | evidently intended | confidence | as-written member | corrected member |
|---|---|---|---|---|---|---|
| pythonAssessment.py:38 | the escaped word is wrapped in `\b`. After a final non-word character such as '.', `\b` holds only if a word character follows. So a word that ends or begins with punctuation is found only when it touches other word characters | `count_specific_word("U.S.", "U.S.")` gives 0, although the text is exactly that word | count an occurrence when no word character touches it on either side. This is the whole-word count the analyser promises, and the source already gives it for words made of word characters | medium, not executed | WordCount.AbbreviationIsMissed | WordCount.CountWholeWord |

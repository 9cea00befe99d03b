/** Character classes the analysers rely on, restricted to ASCII.
    Python's `str.isspace`, `str.split()`, `str.strip()` and the regex class `\s`
    agree on the ASCII whitespace set: tab, line feed, vertical tab, form feed,
    carriage return, the four information separators 0x1C-0x1F, and space. */
module Chars {

  /** Python's whitespace, as seen by `str.split()`, `str.strip()` and `\s`. */
  predicate IsSpace(c: char)
  {
    c == ' ' || ('\t' <= c <= '\r') || ('\U{1C}' <= c <= '\U{1F}')
  }

  /** Membership in `string.punctuation`: the 32 printable ASCII characters
      that are neither letters, digits nor space. Note that '_' is one of them. */
  predicate IsPunct(c: char)
  {
    ('!' <= c <= '/') || (':' <= c <= '@') || ('[' <= c <= '`') || ('{' <= c <= '~')
  }

  /** The regex class `\w` on ASCII. */
  predicate IsWordChar(c: char)
  {
    ('a' <= c <= 'z') || ('A' <= c <= 'Z') || ('0' <= c <= '9') || c == '_'
  }

  predicate IsUpper(c: char)
  {
    'A' <= c <= 'Z'
  }

  /** `str.lower` on one ASCII character; other characters are left alone. */
  function ToLower(c: char): (r: char)
    ensures !IsUpper(r)
    ensures IsUpper(c) ==> r as int == c as int + 32
    ensures !IsUpper(c) ==> r == c
    ensures IsSpace(r) <==> IsSpace(c)
    ensures IsPunct(r) <==> IsPunct(c)
    ensures IsWordChar(r) <==> IsWordChar(c)
  {
    if IsUpper(c) then (c as int + 32) as char else c
  }

  /** `str.lower` on a string. */
  function Lower(s: string): (r: string)
    ensures |r| == |s|
    ensures forall i | 0 <= i < |s| :: r[i] == ToLower(s[i])
  {
    seq(|s|, i requires 0 <= i < |s| => ToLower(s[i]))
  }

  /** True when the string holds a character other than whitespace,
      i.e. when Python's `s.strip()` is non-empty. */
  predicate HasNonSpace(s: string)
  {
    exists i :: 0 <= i < |s| && !IsSpace(s[i])
  }

  /** The ASCII whitespace, written out as Python lists it: `string.whitespace`
      plus the information separators that `str.isspace` also accepts. */
  const Whitespace: string := " \t\n\r\U{0B}\U{0C}\U{1C}\U{1D}\U{1E}\U{1F}"

  /** `string.punctuation`, written out. */
  const Punctuation: string := "!\"#$%&'()*+,-./:;<=>?@[\\]^_`{|}~"

  /** `string.ascii_lowercase`, `string.ascii_uppercase` and
      `string.digits`, written out. */
  const LowerLetters: string := "abcdefghijklmnopqrstuvwxyz"
  const UpperLetters: string := "ABCDEFGHIJKLMNOPQRSTUVWXYZ"
  const Digits: string := "0123456789"

  /** The ASCII characters of `\w`: letters, digits and the underscore. */
  const WordCharacters: string := LowerLetters + UpperLetters + Digits + "_"

  /** The whitespace class is exactly the listed characters. */
  lemma WhitespaceIsListed(c: char)
    ensures IsSpace(c) <==> c in Whitespace
  {
  }

  /** The punctuation class is exactly `string.punctuation`. */
  lemma PunctuationIsListed(c: char)
    ensures IsPunct(c) <==> c in Punctuation
  {
  }

  /** The word-character class is exactly the listed characters. */
  lemma WordCharactersAreListed(c: char)
    ensures IsWordChar(c) <==> c in WordCharacters
  {
    assert c in WordCharacters <==> c in LowerLetters || c in UpperLetters || c in Digits || c == '_';
    LowerLettersAreListed(c);
    UpperLettersAreListed(c);
    DigitsAreListed(c);
  }

  /** The lower-case range is exactly the listed lower-case letters. */
  lemma LowerLettersAreListed(c: char)
    ensures 'a' <= c <= 'z' <==> c in LowerLetters
  {
  }

  /** The upper-case range is exactly the listed upper-case letters. */
  lemma UpperLettersAreListed(c: char)
    ensures 'A' <= c <= 'Z' <==> c in UpperLetters
  {
  }

  /** The digit range is exactly the listed digits. */
  lemma DigitsAreListed(c: char)
    ensures '0' <= c <= '9' <==> c in Digits
  {
  }
}

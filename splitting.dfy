/** What `re.split` returns, and the filter both structure analysers apply
    to it (`[p for p in pieces if p.strip()]`). */
module Splitting {
  import opened Chars

  /** The pieces of a `re.split`: the text between matches (`segments`, what
      `re.split` returns) and the matched separators themselves, one fewer. */
  datatype Pieces = Pieces(segments: seq<string>, separators: seq<string>)

  /** Segments and separators put back together in alternation. */
  function Interleave(segments: seq<string>, separators: seq<string>): string
    requires |segments| == |separators| + 1
  {
    if separators == [] then segments[0]
    else segments[0] + separators[0] + Interleave(segments[1..], separators[1..])
  }

  /** One more segment and separator in front. */
  lemma InterleaveCons(segment: string, separator: string, segments: seq<string>, separators: seq<string>)
    requires |segments| == |separators| + 1
    ensures Interleave([segment] + segments, [separator] + separators)
         == segment + separator + Interleave(segments, separators)
  {
    assert ([segment] + segments)[1..] == segments;
    assert ([separator] + separators)[1..] == separators;
  }

  /** The rest of a text from `i` is the stretch up to `j`, the stretch up
      to `e`, and what follows. */
  lemma SliceInThree(s: string, i: nat, j: nat, e: nat)
    requires i <= j <= e <= |s|
    ensures s[i..] == s[i..j] + s[j..e] + s[e..]
  {
  }

  /** The first segment is where the text begins. */
  lemma FirstSegmentIsPrefix(segments: seq<string>, separators: seq<string>)
    requires |segments| == |separators| + 1
    ensures |segments[0]| <= |Interleave(segments, separators)|
    ensures Interleave(segments, separators)[..|segments[0]|] == segments[0]
  {
    if separators != [] {
      var tail := separators[0] + Interleave(segments[1..], separators[1..]);
      assert Interleave(segments, separators) == segments[0] + tail;
    }
  }

  /** `len([p for p in segments if p.strip()])`. */
  function CountNonBlank(segments: seq<string>): (n: nat)
    ensures n <= |segments|
    ensures n == 0 <==> forall k | 0 <= k < |segments| :: !HasNonSpace(segments[k])
  {
    if segments == [] then 0
    else
      assert forall k | 1 <= k < |segments| :: segments[k] == segments[1..][k - 1];
      (if HasNonSpace(segments[0]) then 1 else 0) + CountNonBlank(segments[1..])
  }

  /** Every non-blank segment in `segments[lo..hi]` is counted. */
  lemma {:induction false} CountNonBlankCovers(segments: seq<string>, lo: nat, hi: nat)
    requires lo <= hi <= |segments|
    requires forall k | lo <= k < hi :: HasNonSpace(segments[k])
    ensures hi - lo <= CountNonBlank(segments)
    decreases |segments|
  {
    if lo < hi {
      var tail := segments[1..];
      assert forall k | 1 <= k < |segments| :: tail[k - 1] == segments[k];
      if lo == 0 {
        CountNonBlankCovers(tail, 0, hi - 1);
      } else {
        CountNonBlankCovers(tail, lo - 1, hi - 1);
      }
    }
  }

  /** A concatenation is non-blank exactly when one of its parts is. */
  lemma HasNonSpaceSplit(a: string, b: string)
    ensures HasNonSpace(a + b) <==> HasNonSpace(a) || HasNonSpace(b)
  {
    if HasNonSpace(a + b) {
      var i :| 0 <= i < |a + b| && !IsSpace((a + b)[i]);
      if i >= |a| {
        assert b[i - |a|] == (a + b)[i];
      }
    }
    if HasNonSpace(a) {
      var i :| 0 <= i < |a| && !IsSpace(a[i]);
      assert (a + b)[i] == a[i];
    }
    if HasNonSpace(b) {
      var i :| 0 <= i < |b| && !IsSpace(b[i]);
      assert (a + b)[|a| + i] == b[i];
    }
  }
}

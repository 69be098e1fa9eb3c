/**
  Concrete splits, from the crate's doc examples and unit tests, and edge
  cases: empty input, trailing and adjacent delimiters, and byte spans of
  multi-byte code points.
 */
module Scenarios {
  import opened Wrappers
  import opened Delimiters
  import opened Splitting

  /** The cuts of the one-code-point pattern `[c]` are where `c` stands. */
  lemma CharCuts(c: char, h: seq<char>, lo: nat, hi: nat, cuts: seq<nat>)
    requires forall i :: 0 <= i < |cuts| ==> lo <= cuts[i] < hi
    requires forall i, j :: 0 <= i < j < |cuts| ==> cuts[i] < cuts[j]
    requires hi <= |h| && forall j :: lo <= j < hi ==> (h[j] == c <==> j in cuts)
    ensures CutsAre(Pattern([c]), h, lo, hi, cuts)
  {
    forall j | lo <= j < hi
      ensures MatchesAt(Pattern([c]), h, j) <==> j in cuts
    {
      SingleCharPattern(c, h, j);
    }
  }

  /**
    Splitting `h` on `[c]`, where `c` stands exactly at `cuts`, yields the
    texts of the gaps between them.
   */
  lemma SplitOnCharAt(c: char, h: seq<char>, cuts: seq<nat>, spans: seq<Span>, texts: seq<seq<char>>)
    requires forall i :: 0 <= i < |cuts| ==> cuts[i] < |h|
    requires forall i, j :: 0 <= i < j < |cuts| ==> cuts[i] < cuts[j]
    requires forall j :: 0 <= j < |h| ==> (h[j] == c <==> j in cuts)
    requires Gaps(0, cuts, |h|) == spans
    requires forall sp :: sp in spans ==> Within(h, sp)
    requires Texts(h, spans) == texts
    ensures SplitAll(h, Pattern([c])) == texts
  {
    CharCuts(c, h, 0, |h|, cuts);
    SingleCodePointSegments(Pattern([c]), h, 0, |h|, cuts);
  }

  /** The unit test `test_series`. */
  lemma SeriesOnSpace(h: seq<char>)
    requires h == "A B C D"
    ensures SplitAll(h, Pattern(" ")) == ["A", "B", "C", "D"]
  {
    var spans := [Span(0, 1), Span(2, 3), Span(4, 5), Span(6, 7)];
    assert h[0..1] == "A" && h[2..3] == "B" && h[4..5] == "C" && h[6..7] == "D";
    SplitOnCharAt(' ', h, [1, 3, 5], spans, ["A", "B", "C", "D"]);
  }

  /** The doc example on `StrSplit`. */
  lemma LettersOnSpace(h: seq<char>)
    requires h == "a b c d e"
    ensures SplitAll(h, Pattern(" ")) == ["a", "b", "c", "d", "e"]
  {
    var spans := [Span(0, 1), Span(2, 3), Span(4, 5), Span(6, 7), Span(8, 9)];
    assert h[0..1] == "a" && h[2..3] == "b" && h[4..5] == "c" && h[6..7] == "d" && h[8..9] == "e";
    SplitOnCharAt(' ', h, [1, 3, 5, 7], spans, ["a", "b", "c", "d", "e"]);
  }

  /** The unit test `test_single_char_ending_with_delimiter`, carried to the end. */
  lemma TrailingSpaceYieldsEmptyLast(h: seq<char>)
    requires h == "A "
    ensures SplitAll(h, Pattern(" ")) == ["A", ""]
  {
    assert h[0..1] == "A" && h[2..2] == "";
    SplitOnCharAt(' ', h, [1], [Span(0, 1), Span(2, 2)], ["A", ""]);
  }

  /** The unit test `test_single_char`. */
  lemma NoDelimiterYieldsWhole(h: seq<char>)
    requires h == "A"
    ensures SplitAll(h, Pattern(" ")) == ["A"]
  {
    assert h[0..1] == "A";
    SplitOnCharAt(' ', h, [], [Span(0, 1)], ["A"]);
  }

  lemma EmptyHaystackYieldsOneEmpty()
    ensures SplitAll("", Pattern(" ")) == [""]
  {
    EmptyViewYieldsOneEmpty(Pattern(" "), "", 0);
  }

  lemma AdjacentDelimitersYieldEmptyMiddle(h: seq<char>)
    requires h == "a,,b"
    ensures SplitAll(h, Pattern(",")) == ["a", "", "b"]
  {
    assert h[0..1] == "a" && h[2..2] == "" && h[3..4] == "b";
    SplitOnCharAt(',', h, [1, 2], [Span(0, 1), Span(2, 2), Span(3, 4)], ["a", "", "b"]);
  }

  /**
    A pattern that overlaps itself: "aaa" ends with "aa", yet the last
    segment is "a", because the leftmost occurrence at 0 is the one cut out.
   */
  lemma OverlappingPatternCutsLeftmost(h: seq<char>)
    requires h == "aaa"
    ensures SplitAll(h, Pattern("aa")) == ["", "a"]
  {
    var d := Pattern("aa");
    var segs := [Span(0, 0), Span(2, 3)];
    assert Segments(d, h, Active(0, |h|)) == segs by {
      assert h[0..2] == "aa";
      SegmentsOnMatch(d, h, 0, 3, 0);
      SegmentsWithoutMatch(d, h, 2, 3);
    }
    assert h[0..0] == "" && h[2..3] == "a";
  }

  /** `until_char` is determined: the prefix up to the first `c` is the one it returns. */
  lemma UntilCharIsPrefixBeforeFirst(s: seq<char>, c: char, k: nat)
    requires k <= |s| && c !in s[..k]
    requires k < |s| ==> s[k] == c
    ensures UntilChar(s, c) == s[..k]
  {
  }

  /** The doc example of `until_char`. */
  lemma UntilFirstO(s: seq<char>)
    requires s == "hello world"
    ensures UntilChar(s, 'o') == "hell"
  {
    assert s[..4] == "hell";
    UntilCharIsPrefixBeforeFirst(s, 'o', 4);
  }

  /** The unit test `until_char_test`. */
  lemma UntilFirstL(s: seq<char>)
    requires s == "hello world"
    ensures UntilChar(s, 'l') == "he"
  {
    assert s[..2] == "he";
    UntilCharIsPrefixBeforeFirst(s, 'l', 2);
  }

  /** A `char` delimiter after a two-byte code point: 'é' takes bytes 0..2, ',' is byte 2. */
  lemma CharAfterTwoByteCodePoint(s: seq<char>)
    requires s == "\U{E9},b"
    ensures FindNextBytes(Char(','), s) == Some((2, 3))
  {
    assert s[0] != ',' && s[1] == ',';
    LeftmostIsUnique(Char(','), s, 1);
    assert s[..1] == ['\U{E9}'] && s[..2] == ['\U{E9}', ','];
  }

  /** An `&[char]` delimiter matching a three-byte code point: '€' spans bytes 1..4. */
  lemma AnyOfMatchesThreeByteCodePoint(s: seq<char>)
    requires s == "a\U{20AC}b"
    ensures FindNextBytes(AnyOf(['\U{20AC}', 'b']), s) == Some((1, 4))
  {
    assert s[0] !in ['\U{20AC}', 'b'] && s[1] in ['\U{20AC}', 'b'];
    LeftmostIsUnique(AnyOf(['\U{20AC}', 'b']), s, 1);
    assert s[..1] == ['a'] && s[..2] == ['a', '\U{20AC}'];
  }

  /** A `&str` pattern holding a four-byte code point: "\U{1F600}b" spans bytes 1..6. */
  lemma PatternWithFourByteCodePoint(s: seq<char>)
    requires s == "a\U{1F600}b"
    ensures FindNextBytes(Pattern("\U{1F600}b"), s) == Some((1, 6))
  {
    assert s[0..2] != "\U{1F600}b" && s[1..3] == "\U{1F600}b";
    LeftmostIsUnique(Pattern("\U{1F600}b"), s, 1);
    assert s[..1] == ['a'] && s[..3] == ['a', '\U{1F600}', 'b'];
  }
}

/**
  The delimiter capability: something that can find its own first
  occurrence in a text view. Rust expresses it as the trait `Delimiter` with
  three implementations; the set is closed, so here it is one datatype with a
  variant per implementation and one matching function dispatching on it.
 */
module Delimiters {
  import opened Wrappers
  import opened Utf8

  datatype Delimiter =
    | Pattern(pattern: seq<char>)  // `impl Delimiter for &str`: an exact substring
    | Char(ch: char)               // `impl Delimiter for char`: one code point
    | AnyOf(chars: seq<char>)      // `impl Delimiter for &[char]`: any code point of the slice

  /** A half-open range `[lo, hi)` of code-point indices. */
  datatype Span = Span(lo: nat, hi: nat)

  /** The number of code points one occurrence of `d` covers. */
  function MatchLen(d: Delimiter): nat
  {
    match d
    case Pattern(p) => |p|
    case Char(_) => 1
    case AnyOf(_) => 1
  }

  /**
    Every occurrence of `d` covers at least one code point. Only the empty
    pattern fails this: Rust's `"…".find("")` matches at offset 0.
   */
  predicate Progresses(d: Delimiter)
  {
    MatchLen(d) > 0
  }

  /** `d` occurs in `s` starting at code-point index `i`. */
  predicate MatchesAt(d: Delimiter, s: seq<char>, i: nat)
  {
    && i + MatchLen(d) <= |s|
    && match d
       case Pattern(p) => s[i..i + |p|] == p
       case Char(c) => s[i] == c
       case AnyOf(cs) => s[i] in cs
  }

  /** `t` is exactly one occurrence of `d`. */
  predicate IsOccurrence(d: Delimiter, t: seq<char>)
  {
    |t| == MatchLen(d) && MatchesAt(d, t, 0)
  }

  /** A match at `i` is exactly an occurrence cut out of the text at `i`. */
  lemma MatchIsOccurrence(d: Delimiter, s: seq<char>, i: nat)
    requires i + MatchLen(d) <= |s|
    ensures MatchesAt(d, s, i) <==> IsOccurrence(d, s[i..i + MatchLen(d)])
  {
    var t := s[i..i + MatchLen(d)];
    match d
    case Pattern(p) => assert t[0..|p|] == t;
    case Char(c) => assert t[0] == s[i];
    case AnyOf(cs) => assert t[0] == s[i];
  }

  /** The leftmost match of `d` in `s` at index `i` or later, scanning left to right. */
  function FindFrom(d: Delimiter, s: seq<char>, i: nat): (r: Option<Span>)
    ensures r.Some? ==>
              && i <= r.value.lo
              && r.value.hi == r.value.lo + MatchLen(d)
              && MatchesAt(d, s, r.value.lo)
    ensures r.Some? ==> forall j :: i <= j < r.value.lo ==> !MatchesAt(d, s, j)
    ensures r.None? ==> forall j :: i <= j ==> !MatchesAt(d, s, j)
    decreases |s| + 1 - i
  {
    if i > |s| then None
    else if MatchesAt(d, s, i) then Some(Span(i, i + MatchLen(d)))
    else FindFrom(d, s, i + 1)
  }

  /**
    `find_next`, in code points: the span of the leftmost occurrence of `d`
    in `s`, or None exactly when `d` occurs nowhere in `s`.
   */
  function FindNext(d: Delimiter, s: seq<char>): (r: Option<Span>)
    ensures r.Some? ==>
              && r.value.lo <= r.value.hi <= |s|
              && r.value.hi == r.value.lo + MatchLen(d)
              && MatchesAt(d, s, r.value.lo)
              && forall j :: 0 <= j < r.value.lo ==> !MatchesAt(d, s, j)
    ensures r.None? <==> forall j :: 0 <= j ==> !MatchesAt(d, s, j)
  {
    FindFrom(d, s, 0)
  }

  /** The leftmost match is determined: a match with none before it is the one found. */
  lemma LeftmostIsUnique(d: Delimiter, s: seq<char>, k: nat)
    requires MatchesAt(d, s, k)
    requires forall j :: 0 <= j < k ==> !MatchesAt(d, s, j)
    ensures FindNext(d, s) == Some(Span(k, k + MatchLen(d)))
  {
  }

  /** A one-code-point pattern matches exactly where that code point stands. */
  lemma SingleCharPattern(c: char, s: seq<char>, j: nat)
    ensures MatchesAt(Pattern([c]), s, j) <==> j < |s| && s[j] == c
  {
    if j < |s| {
      assert s[j..j + 1] == [s[j]];
    }
  }

  /**
    `find_next` as Rust computes it, in byte offsets: the start is the byte
    offset of the first matching code point, and the end is the start plus the
    pattern's byte length (`&str`), the delimiter's `len_utf8` (`char`), or
    the matched code point's `len_utf8` (`&[char]`). The result is the byte
    image of the code-point span, so both ends fall on code-point boundaries,
    and they lie within the text, so slicing at them cannot panic.
   */
  function FindNextBytes(d: Delimiter, s: seq<char>): (r: Option<(nat, nat)>)
    ensures r.None? <==> FindNext(d, s).None?
    ensures r.Some? ==>
              && r.value.0 == ByteOffset(s, FindNext(d, s).value.lo)
              && r.value.1 == ByteOffset(s, FindNext(d, s).value.hi)
    ensures r.Some? ==> r.value.0 <= r.value.1 <= ByteLen(s)
  {
    match FindNext(d, s)
    case None => None
    case Some(m) =>
      var start := ByteOffset(s, m.lo);
      var end := start + MatchWidth(d, s, m.lo);
      assert end == ByteOffset(s, m.hi) by {
        ByteOffsetSlice(s, m.lo, m.hi);
        MatchWidthIsBytes(d, s, m.lo);
      }
      ByteOffsetsInText(s, m.lo, m.hi);
      Some((start, end))
  }

  /**
    The byte width Rust adds to the start of a match at `i`: the pattern's
    `len()`, the delimiter's `len_utf8`, or the matched code point's `len_utf8`.
   */
  function MatchWidth(d: Delimiter, s: seq<char>, i: nat): nat
    requires MatchesAt(d, s, i)
  {
    match d
    case Pattern(p) => ByteLen(p)
    case Char(c) => Utf8Len(c)
    case AnyOf(_) => Utf8Len(s[i])
  }

  /** Each of the three widths is the byte length of the code points matched. */
  lemma MatchWidthIsBytes(d: Delimiter, s: seq<char>, i: nat)
    requires MatchesAt(d, s, i)
    ensures MatchWidth(d, s, i) == ByteLen(s[i..i + MatchLen(d)])
  {
    if !d.Pattern? {
      assert s[i..i + 1] == [s[i]];
      assert [s[i]][1..] == [];
    }
  }

  /** `p` occurs in `s` at `j`, stated code point by code point. */
  predicate OccursAt(p: seq<char>, s: seq<char>, j: nat)
  {
    j + |p| <= |s| && forall k :: 0 <= k < |p| ==> s[j + k] == p[k]
  }

  /** The `&str` implementation: the leftmost exact occurrence of the pattern. */
  lemma PatternFindIsLeftmost(p: seq<char>, s: seq<char>)
    ensures match FindNext(Pattern(p), s)
            case Some(m) =>
              && m.hi == m.lo + |p|
              && OccursAt(p, s, m.lo)
              && forall j :: 0 <= j < m.lo ==> !OccursAt(p, s, j)
            case None =>
              forall j :: 0 <= j ==> !OccursAt(p, s, j)
  {
    forall j: nat | OccursAt(p, s, j)
      ensures MatchesAt(Pattern(p), s, j)
    {
      assert s[j..j + |p|] == p;
    }
    match FindNext(Pattern(p), s)
    case Some(m) =>
      forall k | 0 <= k < |p| ensures s[m.lo + k] == p[k] {
        assert s[m.lo..m.lo + |p|][k] == s[m.lo + k];
      }
    case None =>
  }

  /** The `char` implementation: the first code point equal to the delimiter. */
  lemma CharFindIsFirst(c: char, s: seq<char>)
    ensures match FindNext(Char(c), s)
            case Some(m) => m.hi == m.lo + 1 <= |s| && s[m.lo] == c && c !in s[..m.lo]
            case None => c !in s
  {
    match FindNext(Char(c), s)
    case Some(m) =>
      if c in s[..m.lo] {
        var j :| 0 <= j < m.lo && s[..m.lo][j] == c;
        assert MatchesAt(Char(c), s, j);
      }
    case None =>
      if c in s {
        var j :| 0 <= j < |s| && s[j] == c;
        assert MatchesAt(Char(c), s, j);
      }
  }

  /** The `&[char]` implementation: the first code point that is in the set. */
  lemma AnyOfFindIsFirst(cs: seq<char>, s: seq<char>)
    ensures match FindNext(AnyOf(cs), s)
            case Some(m) =>
              && m.hi == m.lo + 1 <= |s|
              && s[m.lo] in cs
              && forall j :: 0 <= j < m.lo ==> s[j] !in cs
            case None => forall j :: 0 <= j < |s| ==> s[j] !in cs
  {
    match FindNext(AnyOf(cs), s)
    case Some(m) =>
      forall j | 0 <= j < m.lo ensures s[j] !in cs {
        assert !MatchesAt(AnyOf(cs), s, j);
      }
    case None =>
      forall j | 0 <= j < |s| ensures s[j] !in cs {
        assert !MatchesAt(AnyOf(cs), s, j);
      }
  }

  /** The empty pattern is found at once, covering nothing. */
  lemma EmptyPatternMatchesAtStart(s: seq<char>)
    ensures FindNext(Pattern([]), s) == Some(Span(0, 0))
  {
    assert MatchesAt(Pattern([]), s, 0);
  }

  /**
    Nothing in the part of a text before its leftmost match is an occurrence:
    a match there would be a match of the whole text further left.
   */
  lemma NoMatchBeforeLeftmost(d: Delimiter, s: seq<char>, k: nat)
    requires Progresses(d) && k <= |s|
    requires forall j :: 0 <= j < k ==> !MatchesAt(d, s, j)
    ensures FindNext(d, s[..k]).None?
  {
    forall j | 0 <= j
      ensures !MatchesAt(d, s[..k], j)
    {
      if MatchesAt(d, s[..k], j) {
        assert s[..k][j..j + MatchLen(d)] == s[j..j + MatchLen(d)];
        assert MatchesAt(d, s, j);
        assert false;
      }
    }
  }
}

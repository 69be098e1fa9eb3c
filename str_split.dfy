/**
  The splitting iterator `StrSplit`. It holds the haystack, which it never
  copies or changes, a delimiter, and a remainder that is either a view
  `[lo, hi)` of not-yet-consumed code points of the haystack (Rust's
  `Some(&str)`) or the terminal `Exhausted` (Rust's `None`). Every segment
  it yields is a span of the haystack, so no text is ever copied.
 */
module Splitting {
  import opened Wrappers
  import opened Delimiters

  /** `remainder: Option<&str>`: an Active view of the haystack, or Exhausted. */
  datatype Remainder = Active(lo: nat, hi: nat) | Exhausted

  /** An Active view lies inside the haystack. */
  predicate WellFormed(h: seq<char>, rem: Remainder)
  {
    rem.Active? ==> rem.lo <= rem.hi <= |h|
  }

  predicate Within(h: seq<char>, sp: Span)
  {
    sp.lo <= sp.hi <= |h|
  }

  /** The text a span of the haystack stands for. */
  function Text(h: seq<char>, sp: Span): seq<char>
    requires Within(h, sp)
  {
    h[sp.lo..sp.hi]
  }

  /** The texts of a sequence of spans. */
  function Texts(h: seq<char>, spans: seq<Span>): (r: seq<seq<char>>)
    requires forall sp :: sp in spans ==> Within(h, sp)
    ensures |r| == |spans|
    ensures forall k :: 0 <= k < |r| ==> r[k] == Text(h, spans[k])
  {
    if spans == [] then [] else [Text(h, spans[0])] + Texts(h, spans[1..])
  }

  lemma SliceOfSlice(h: seq<char>, lo: nat, hi: nat, a: nat, b: nat)
    requires lo <= hi <= |h| && a <= b <= hi - lo
    ensures h[lo..hi][a..b] == h[lo + a..lo + b]
  {
    assert forall k :: 0 <= k < b - a ==> h[lo..hi][a..b][k] == h[lo + a + k];
  }

  /** A match inside a view is a match of the haystack at the shifted index, and back. */
  lemma MatchInView(d: Delimiter, h: seq<char>, lo: nat, hi: nat, j: nat)
    requires lo <= j && j + MatchLen(d) <= hi <= |h|
    ensures MatchesAt(d, h[lo..hi], j - lo) <==> MatchesAt(d, h, j)
  {
    SliceOfSlice(h, lo, hi, j - lo, j - lo + MatchLen(d));
  }

  /** What one call of `next` yields, and the remainder it leaves. */
  datatype Advance = Advance(item: Option<Span>, rest: Remainder)

  /**
    One call of `next`, as a transition of the remainder. Exhausted yields
    nothing and stays Exhausted. An Active view always yields a segment
    starting where the view starts: on a match, the text before the match,
    with the view moved past the match (Active, even when it is now empty);
    without a match, the whole view, leaving Exhausted.
   */
  function Step(d: Delimiter, h: seq<char>, rem: Remainder): (r: Advance)
    requires WellFormed(h, rem)
    ensures WellFormed(h, r.rest)
    ensures rem.Exhausted? ==> r.item.None? && r.rest.Exhausted?
    ensures rem.Active? ==>
              && r.item.Some?
              && r.item.value.lo == rem.lo
              && r.item.value.lo <= r.item.value.hi <= rem.hi
    ensures rem.Active? && r.rest.Exhausted? ==>
              && r.item.value.hi == rem.hi
              && FindNext(d, h[rem.lo..rem.hi]).None?
    ensures rem.Active? && r.rest.Active? ==>
              && r.item.value.hi + MatchLen(d) == r.rest.lo
              && r.rest.hi == rem.hi
              && IsOccurrence(d, h[r.item.value.hi..r.rest.lo])
  {
    match rem
    case Exhausted => Advance(None, Exhausted)
    case Active(lo, hi) =>
      var view := h[lo..hi];
      match FindNext(d, view)
      case Some(m) =>
        MatchIsOccurrence(d, view, m.lo);
        SliceOfSlice(h, lo, hi, m.lo, m.hi);
        Advance(Some(Span(lo, lo + m.lo)), Active(lo + m.hi, hi))
      case None =>
        Advance(Some(Span(lo, hi)), Exhausted)
  }

  /** `next` makes the state Exhausted exactly when the view holds no match. */
  lemma ExhaustsExactlyWithoutMatch(d: Delimiter, h: seq<char>, lo: nat, hi: nat)
    requires lo <= hi <= |h|
    ensures Step(d, h, Active(lo, hi)).rest.Exhausted? <==> forall j :: 0 <= j ==> !MatchesAt(d, h[lo..hi], j)
  {
  }

  /** A bound on how many more segments a remainder can yield. */
  function Measure(rem: Remainder): nat
  {
    match rem
    case Exhausted => 0
    case Active(lo, hi) => if lo <= hi then hi - lo + 1 else 0
  }

  /**
    The segments `next` yields from `rem` until it returns None, in order.
    There is at least one from an Active view and at most one more than the
    view has code points, and each lies inside the view.
   */
  function Segments(d: Delimiter, h: seq<char>, rem: Remainder): (r: seq<Span>)
    requires Progresses(d) && WellFormed(h, rem)
    ensures rem.Exhausted? <==> r == []
    ensures rem.Active? ==> 1 <= |r| <= rem.hi - rem.lo + 1
    ensures forall sp :: sp in r ==> rem.Active? && rem.lo <= sp.lo <= sp.hi <= rem.hi
    decreases Measure(rem)
  {
    var a := Step(d, h, rem);
    if a.item.None? then [] else [a.item.value] + Segments(d, h, a.rest)
  }

  /** The delimiter occurrences `next` cuts out along the way, in order. */
  function Delims(d: Delimiter, h: seq<char>, rem: Remainder): (r: seq<Span>)
    requires Progresses(d) && WellFormed(h, rem)
    ensures forall sp :: sp in r ==> Within(h, sp) && IsOccurrence(d, Text(h, sp))
    decreases Measure(rem)
  {
    var a := Step(d, h, rem);
    if a.item.Some? && a.rest.Active?
    then [Span(a.item.value.hi, a.rest.lo)] + Delims(d, h, a.rest)
    else []
  }

  /** Segments with the delimiter occurrences put back between them. */
  function Interleave(h: seq<char>, segs: seq<Span>, delims: seq<Span>): seq<char>
    requires |segs| == |delims| + 1
    requires forall sp :: sp in segs ==> Within(h, sp)
    requires forall sp :: sp in delims ==> Within(h, sp)
    decreases |delims|
  {
    if delims == [] then Text(h, segs[0])
    else Text(h, segs[0]) + Text(h, delims[0]) + Interleave(h, segs[1..], delims[1..])
  }

  lemma SlicesJoin(h: seq<char>, a: nat, b: nat, c: nat)
    requires a <= b <= c <= |h|
    ensures h[a..b] + h[b..c] == h[a..c]
  {
  }

  /** One call of `next` on an Active view, seen from the segment sequence. */
  lemma SegmentsUnfold(d: Delimiter, h: seq<char>, lo: nat, hi: nat)
    requires Progresses(d) && lo <= hi <= |h|
    ensures var a := Step(d, h, Active(lo, hi));
            Segments(d, h, Active(lo, hi)) == [a.item.value] + Segments(d, h, a.rest)
  {
  }

  /** What a call of `next` yields is the head of the segments still to come. */
  lemma SegmentsAfterNext(d: Delimiter, h: seq<char>, before: Remainder, item: Option<Span>, after: Remainder)
    requires Progresses(d) && WellFormed(h, before)
    requires Step(d, h, before) == Advance(item, after) && item.Some?
    ensures Measure(after) < Measure(before)
    ensures Segments(d, h, before) == [item.value] + Segments(d, h, after)
  {
    SegmentsUnfold(d, h, before.lo, before.hi);
  }

  /**
    A call of `next` on `[lo, hi)` whose leftmost match starts at `k`
    yields `[lo, k)` and goes on from the end of that match.
   */
  lemma SegmentsOnMatch(d: Delimiter, h: seq<char>, lo: nat, hi: nat, k: nat)
    requires Progresses(d) && lo <= k && k + MatchLen(d) <= hi <= |h|
    requires MatchesAt(d, h, k)
    requires forall j :: lo <= j < k ==> !MatchesAt(d, h, j)
    ensures Segments(d, h, Active(lo, hi)) == [Span(lo, k)] + Segments(d, h, Active(k + MatchLen(d), hi))
  {
    assert Step(d, h, Active(lo, hi)) == Advance(Some(Span(lo, k)), Active(k + MatchLen(d), hi)) by {
      LeftmostInView(d, h, lo, hi, k);
    }
    SegmentsUnfold(d, h, lo, hi);
  }

  lemma LeftmostInView(d: Delimiter, h: seq<char>, lo: nat, hi: nat, k: nat)
    requires lo <= k && k + MatchLen(d) <= hi <= |h|
    requires MatchesAt(d, h, k)
    requires forall j :: lo <= j < k ==> !MatchesAt(d, h, j)
    ensures FindNext(d, h[lo..hi]) == Some(Span(k - lo, k - lo + MatchLen(d)))
  {
    var view := h[lo..hi];
    MatchInView(d, h, lo, hi, k);
    forall j | 0 <= j < k - lo
      ensures !MatchesAt(d, view, j)
    {
      MatchInView(d, h, lo, hi, lo + j);
    }
    LeftmostIsUnique(d, view, k - lo);
  }

  /** A call of `next` on `[lo, hi)` with no match in it yields all of it, and ends. */
  lemma SegmentsWithoutMatch(d: Delimiter, h: seq<char>, lo: nat, hi: nat)
    requires Progresses(d) && lo <= hi <= |h|
    requires forall j :: lo <= j && j + MatchLen(d) <= hi ==> !MatchesAt(d, h, j)
    ensures Segments(d, h, Active(lo, hi)) == [Span(lo, hi)]
  {
    var view := h[lo..hi];
    forall j | 0 <= j
      ensures !MatchesAt(d, view, j)
    {
      if j + MatchLen(d) <= hi - lo {
        MatchInView(d, h, lo, hi, lo + j);
      }
    }
    SegmentsUnfold(d, h, lo, hi);
    SegmentsExhausted(d, h);
  }

  /** Once Exhausted, nothing more is yielded. */
  lemma SegmentsExhausted(d: Delimiter, h: seq<char>)
    requires Progresses(d)
    ensures Segments(d, h, Exhausted) == []
  {
  }

  /**
    Splitting loses nothing: there is exactly one segment more than there
    are delimiter occurrences, and the segments with the occurrences put back
    between them are the view.
   */
  lemma {:induction false} Reconstruction(d: Delimiter, h: seq<char>, lo: nat, hi: nat)
    requires Progresses(d) && lo <= hi <= |h|
    ensures |Segments(d, h, Active(lo, hi))| == |Delims(d, h, Active(lo, hi))| + 1
    ensures Interleave(h, Segments(d, h, Active(lo, hi)), Delims(d, h, Active(lo, hi))) == h[lo..hi]
    decreases hi - lo
  {
    var a := Step(d, h, Active(lo, hi));
    var segs, delims := Segments(d, h, Active(lo, hi)), Delims(d, h, Active(lo, hi));
    SegmentsUnfold(d, h, lo, hi);
    match a.rest
    case Exhausted =>
      assert segs == [Span(lo, hi)] && delims == [];
    case Active(lo', _) =>
      var m := a.item.value.hi;
      Reconstruction(d, h, lo', hi);
      assert segs[1..] == Segments(d, h, a.rest);
      assert delims == [Span(m, lo')] + Delims(d, h, a.rest);
      assert delims[1..] == Delims(d, h, a.rest);
      SlicesJoin(h, lo, m, lo');
      SlicesJoin(h, lo, lo', hi);
      calc {
        Interleave(h, segs, delims);
        h[lo..m] + h[m..lo'] + Interleave(h, segs[1..], delims[1..]);
        h[lo..m] + h[m..lo'] + h[lo'..hi];
      }
  }

  /**
    `segs` and `delims` tile `[lo, hi)` in order: the first segment starts at
    `lo`, each segment ends where the next cut starts, each cut ends where the
    next segment starts, and the last segment ends at `hi`.
   */
  predicate Tiles(segs: seq<Span>, delims: seq<Span>, lo: nat, hi: nat)
  {
    && |segs| == |delims| + 1
    && segs[0].lo == lo && segs[|segs| - 1].hi == hi
    && forall i :: 0 <= i < |delims| ==> segs[i].hi == delims[i].lo && delims[i].hi == segs[i + 1].lo
  }

  /**
    The segments and the cut-out occurrences tile the view: nothing is
    skipped, nothing overlaps, and they come in order.
   */
  lemma {:induction false} SegmentsTileView(d: Delimiter, h: seq<char>, lo: nat, hi: nat)
    requires Progresses(d) && lo <= hi <= |h|
    ensures Tiles(Segments(d, h, Active(lo, hi)), Delims(d, h, Active(lo, hi)), lo, hi)
    decreases hi - lo
  {
    var a := Step(d, h, Active(lo, hi));
    var segs, delims := Segments(d, h, Active(lo, hi)), Delims(d, h, Active(lo, hi));
    SegmentsUnfold(d, h, lo, hi);
    match a.rest
    case Exhausted =>
      assert segs == [Span(lo, hi)] && delims == [];
    case Active(lo', _) =>
      SegmentsTileView(d, h, lo', hi);
      assert delims == [Span(a.item.value.hi, lo')] + Delims(d, h, a.rest);
      TilesCons(a.item.value, Span(a.item.value.hi, lo'), Segments(d, h, a.rest), Delims(d, h, a.rest), lo, hi);
  }

  /** A segment and a cut in front of a tiling of the rest tile the whole. */
  lemma TilesCons(first: Span, cut: Span, segs: seq<Span>, delims: seq<Span>, lo: nat, hi: nat)
    requires first.lo == lo && first.hi == cut.lo
    requires Tiles(segs, delims, cut.hi, hi)
    ensures Tiles([first] + segs, [cut] + delims, lo, hi)
  {
    var segs', delims' := [first] + segs, [cut] + delims;
    forall i | 0 <= i < |delims'|
      ensures segs'[i].hi == delims'[i].lo && delims'[i].hi == segs'[i + 1].lo
    {
      if i > 0 {
        assert segs'[i] == segs[i - 1] && delims'[i] == delims[i - 1] && segs'[i + 1] == segs[i];
      }
    }
  }

  /** Everything the iterator yields for `s` split on `d`, as text. */
  function SplitAll(s: seq<char>, d: Delimiter): (r: seq<seq<char>>)
    requires Progresses(d)
    ensures |r| >= 1
  {
    Texts(s, Segments(d, s, Active(0, |s|)))
  }

  /** `parts` with `sep` between each two neighbours. */
  function Join(parts: seq<seq<char>>, sep: seq<char>): seq<char>
    decreases |parts|
  {
    if parts == [] then []
    else if |parts| == 1 then parts[0]
    else parts[0] + sep + Join(parts[1..], sep)
  }

  /** When every cut-out occurrence reads `sep`, putting them back is joining with `sep`. */
  lemma {:induction false} InterleaveIsJoin(h: seq<char>, segs: seq<Span>, delims: seq<Span>, sep: seq<char>)
    requires |segs| == |delims| + 1
    requires forall sp :: sp in segs ==> Within(h, sp)
    requires forall sp :: sp in delims ==> Within(h, sp) && Text(h, sp) == sep
    ensures Interleave(h, segs, delims) == Join(Texts(h, segs), sep)
    decreases |delims|
  {
    var texts := Texts(h, segs);
    if delims != [] {
      InterleaveIsJoin(h, segs[1..], delims[1..], sep);
      assert texts[1..] == Texts(h, segs[1..]);
    }
  }

  /**
    Reconstruction as a join: joining the segments split
    off at a non-empty `&str` pattern with that pattern gives the text back.
   */
  lemma JoinWithPatternReconstructs(p: seq<char>, h: seq<char>)
    requires |p| > 0
    ensures Join(SplitAll(h, Pattern(p)), p) == h
  {
    var d := Pattern(p);
    var segs, delims := Segments(d, h, Active(0, |h|)), Delims(d, h, Active(0, |h|));
    Reconstruction(d, h, 0, |h|);
    PatternOccurrencesReadPattern(p, h, delims);
    InterleaveIsJoin(h, segs, delims, p);
    assert h[0..|h|] == h;
  }

  lemma PatternOccurrencesReadPattern(p: seq<char>, h: seq<char>, delims: seq<Span>)
    requires forall sp :: sp in delims ==> Within(h, sp) && IsOccurrence(Pattern(p), Text(h, sp))
    ensures forall sp :: sp in delims ==> Within(h, sp) && Text(h, sp) == p
  {
    forall sp | sp in delims
      ensures Text(h, sp) == p
    {
      assert Text(h, sp)[0..|p|] == Text(h, sp);
    }
  }

  /** The same for a `char` delimiter, joined with that one code point. */
  lemma JoinWithCharReconstructs(c: char, h: seq<char>)
    ensures Join(SplitAll(h, Char(c)), [c]) == h
  {
    var d := Char(c);
    var segs, delims := Segments(d, h, Active(0, |h|)), Delims(d, h, Active(0, |h|));
    Reconstruction(d, h, 0, |h|);
    forall sp | sp in delims
      ensures Within(h, sp) && Text(h, sp) == [c]
    {
    }
    InterleaveIsJoin(h, segs, delims, [c]);
    assert h[0..|h|] == h;
  }

  /**
    Leftmost-match semantics seen from the outside: no segment contains an
    occurrence of the delimiter.
   */
  lemma {:induction false} SegmentsAreDelimiterFree(d: Delimiter, h: seq<char>, rem: Remainder)
    requires Progresses(d) && WellFormed(h, rem)
    ensures forall sp :: sp in Segments(d, h, rem) ==> FindNext(d, Text(h, sp)).None?
    decreases Measure(rem)
  {
    if rem.Active? {
      var lo, hi := rem.lo, rem.hi;
      FirstSegmentIsDelimiterFree(d, h, lo, hi);
      SegmentsAreDelimiterFree(d, h, Step(d, h, rem).rest);
      SegmentsUnfold(d, h, lo, hi);
    }
  }

  /** The segment one call of `next` yields holds no occurrence of the delimiter. */
  lemma FirstSegmentIsDelimiterFree(d: Delimiter, h: seq<char>, lo: nat, hi: nat)
    requires Progresses(d) && lo <= hi <= |h|
    ensures FindNext(d, Text(h, Step(d, h, Active(lo, hi)).item.value)).None?
  {
    var view := h[lo..hi];
    var sp := Step(d, h, Active(lo, hi)).item.value;
    match FindNext(d, view)
    case Some(m) =>
      assert sp == Span(lo, lo + m.lo);
      NoMatchBeforeLeftmost(d, view, m.lo);
      SliceOfSlice(h, lo, hi, 0, m.lo);
      assert Text(h, sp) == view[..m.lo];
    case None =>
      assert Text(h, sp) == view;
  }

  /** The gaps of `[lo, hi)` around the one-code-point cuts `cuts`, in order. */
  function Gaps(lo: nat, cuts: seq<nat>, hi: nat): seq<Span>
    decreases |cuts|
  {
    if cuts == [] then [Span(lo, hi)]
    else [Span(lo, cuts[0])] + Gaps(cuts[0] + 1, cuts[1..], hi)
  }

  lemma GapsUnfold(lo: nat, cuts: seq<nat>, hi: nat)
    requires cuts != []
    ensures Gaps(lo, cuts, hi) == [Span(lo, cuts[0])] + Gaps(cuts[0] + 1, cuts[1..], hi)
  {
  }

  /** `cuts` lists, in increasing order, exactly the indices of `[lo, hi)` where `d` matches. */
  predicate CutsAre(d: Delimiter, h: seq<char>, lo: nat, hi: nat, cuts: seq<nat>)
  {
    && (forall i :: 0 <= i < |cuts| ==> lo <= cuts[i] < hi)
    && (forall i, j :: 0 <= i < j < |cuts| ==> cuts[i] < cuts[j])
    && (forall j :: lo <= j < hi ==> (MatchesAt(d, h, j) <==> j in cuts))
  }

  /**
    For a delimiter that matches one code point, the segments are exactly
    the gaps between its occurrences: one more segment than occurrences, and
    none of them skips or overlaps one.
   */
  lemma {:induction false} SingleCodePointSegments(d: Delimiter, h: seq<char>, lo: nat, hi: nat, cuts: seq<nat>)
    requires MatchLen(d) == 1 && lo <= hi <= |h|
    requires CutsAre(d, h, lo, hi, cuts)
    ensures Segments(d, h, Active(lo, hi)) == Gaps(lo, cuts, hi)
    decreases |cuts|
  {
    if cuts == [] {
      assert forall j :: lo <= j && j + MatchLen(d) <= hi ==> !MatchesAt(d, h, j);
      SegmentsWithoutMatch(d, h, lo, hi);
    } else {
      var k := cuts[0];
      CutsAreTail(d, h, lo, hi, cuts);
      SegmentsOnMatch(d, h, lo, hi, k);
      SingleCodePointSegments(d, h, k + 1, hi, cuts[1..]);
      GapsUnfold(lo, cuts, hi);
    }
  }

  /** Past the first cut, the remaining cuts are those of the rest of the view. */
  lemma CutsAreTail(d: Delimiter, h: seq<char>, lo: nat, hi: nat, cuts: seq<nat>)
    requires CutsAre(d, h, lo, hi, cuts) && cuts != []
    ensures lo <= cuts[0] < hi && MatchesAt(d, h, cuts[0])
    ensures forall j :: lo <= j < cuts[0] ==> !MatchesAt(d, h, j)
    ensures CutsAre(d, h, cuts[0] + 1, hi, cuts[1..])
  {
    var k := cuts[0];
    assert k in cuts;
    forall j | k + 1 <= j < hi && MatchesAt(d, h, j)
      ensures j in cuts[1..]
    {
      var i :| 0 <= i < |cuts| && cuts[i] == j;
      assert cuts[1..][i - 1] == j;
    }
  }

  /**
    An empty view still yields one segment, the empty one, before the
    iterator is Exhausted: splitting "" gives [""].
   */
  lemma EmptyViewYieldsOneEmpty(d: Delimiter, h: seq<char>, i: nat)
    requires Progresses(d) && i <= |h|
    ensures Segments(d, h, Active(i, i)) == [Span(i, i)]
  {
    assert FindNext(d, h[i..i]).None?;
    SegmentsUnfold(d, h, i, i);
  }

  /**
    The last of `segs` is the empty span at `hi`, and the one before it ends
    before `hi`: exactly one empty segment sits at the end.
   */
  predicate EndsWithOneEmpty(segs: seq<Span>, hi: nat)
  {
    && |segs| >= 2
    && segs[|segs| - 1] == Span(hi, hi)
    && segs[|segs| - 2].hi < hi
  }

  /**
    The trailing-delimiter rule, for delimiters that match one code point:
    when the view ends with an occurrence, the last segment is the empty
    span at the very end, and the segment before it does not end there, so
    exactly one empty segment is yielded at that position.
   */
  lemma {:induction false} TrailingDelimiterYieldsOneEmpty(d: Delimiter, h: seq<char>, lo: nat, hi: nat)
    requires MatchLen(d) == 1 && lo < hi <= |h|
    requires MatchesAt(d, h, hi - 1)
    ensures EndsWithOneEmpty(Segments(d, h, Active(lo, hi)), hi)
    decreases hi - lo
  {
    var a := Step(d, h, Active(lo, hi));
    assert a.rest.Active? by {
      MatchInView(d, h, lo, hi, hi - 1);
    }
    var segs, rest := Segments(d, h, Active(lo, hi)), Segments(d, h, a.rest);
    SegmentsUnfold(d, h, lo, hi);
    if a.rest.lo == hi {
      EmptyViewYieldsOneEmpty(d, h, hi);
    } else {
      TrailingDelimiterYieldsOneEmpty(d, h, a.rest.lo, hi);
    }
    EndingSurvivesCons(a.item.value, rest, hi);
  }

  lemma EndingSurvivesCons(first: Span, rest: seq<Span>, hi: nat)
    requires EndsWithOneEmpty(rest, hi) || (rest == [Span(hi, hi)] && first.hi < hi)
    ensures EndsWithOneEmpty([first] + rest, hi)
  {
  }

  /** The last of `segs` is an empty span. */
  predicate EndsEmpty(segs: seq<Span>)
  {
    |segs| > 0 && segs[|segs| - 1].lo == segs[|segs| - 1].hi
  }

  /**
    The converse, for every delimiter that covers at least one code point: a
    non-empty view whose last segment is empty ends with an occurrence.
   */
  lemma {:induction false} EmptyLastSegmentFollowsDelimiter(d: Delimiter, h: seq<char>, lo: nat, hi: nat)
    requires Progresses(d) && lo < hi <= |h|
    requires EndsEmpty(Segments(d, h, Active(lo, hi)))
    ensures MatchLen(d) <= hi && MatchesAt(d, h, hi - MatchLen(d))
    decreases hi - lo
  {
    var a := Step(d, h, Active(lo, hi));
    EmptyLastSegmentStep(d, h, lo, hi);
    if a.rest.lo == hi {
      MatchIsOccurrence(d, h, a.item.value.hi);
    } else {
      EmptyLastSegmentFollowsDelimiter(d, h, a.rest.lo, hi);
    }
  }

  /**
    When a non-empty view ends with an empty segment, `next` cuts an
    occurrence, and either that occurrence ends the view or the rest of the
    view also ends with an empty segment.
   */
  lemma EmptyLastSegmentStep(d: Delimiter, h: seq<char>, lo: nat, hi: nat)
    requires Progresses(d) && lo < hi <= |h|
    requires EndsEmpty(Segments(d, h, Active(lo, hi)))
    ensures var a := Step(d, h, Active(lo, hi));
            && a.rest.Active? && a.rest.hi == hi
            && (a.rest.lo < hi ==> EndsEmpty(Segments(d, h, a.rest)))
  {
    var a := Step(d, h, Active(lo, hi));
    var segs := Segments(d, h, Active(lo, hi));
    SegmentsUnfold(d, h, lo, hi);
    SegmentsExhausted(d, h);
    assert a.rest.Active?;
    var rest := Segments(d, h, a.rest);
    assert segs == [a.item.value] + rest;
    LastOfCons(a.item.value, rest);
  }

  lemma LastOfCons(first: Span, rest: seq<Span>)
    requires rest != []
    ensures ([first] + rest)[|rest|] == rest[|rest| - 1]
  {
  }

  /**
    With the empty pattern `next` never advances: it yields the empty
    segment and leaves the remainder as it was, so it yields it forever.
   */
  lemma EmptyPatternNeverAdvances(h: seq<char>, lo: nat, hi: nat)
    requires lo <= hi <= |h|
    ensures Step(Pattern([]), h, Active(lo, hi)) == Advance(Some(Span(lo, lo)), Active(lo, hi))
  {
    EmptyPatternMatchesAtStart(h[lo..hi]);
  }

  /**
    `StrSplit<'haystack, D>`. The haystack and the delimiter never change;
    the remainder is the only state, and it is always a suffix of the
    haystack while Active.
   */
  class StrSplit {
    const haystack: seq<char>
    const delimiter: Delimiter
    var remainder: Remainder

    ghost predicate Valid()
      reads this
    {
      WellFormed(haystack, remainder) && (remainder.Active? ==> remainder.hi == |haystack|)
    }

    /** `StrSplit::new`: Active over the whole haystack. */
    constructor (haystack: seq<char>, delimiter: Delimiter)
      ensures Valid()
      ensures this.haystack == haystack && this.delimiter == delimiter
      ensures remainder == Active(0, |haystack|)
    {
      this.haystack := haystack;
      this.delimiter := delimiter;
      remainder := Active(0, |haystack|);
    }

    /** `Iterator::next`: one transition of `Step`, in place. */
    method Next() returns (item: Option<Span>)
      requires Valid()
      modifies this
      ensures Valid()
      ensures Advance(item, remainder) == Step(delimiter, haystack, old(remainder))
      ensures old(remainder).Exhausted? ==> item.None? && remainder.Exhausted?
    {
      match remainder
      case Exhausted =>
        item := None;
      case Active(lo, hi) =>
        var found := FindNext(delimiter, haystack[lo..hi]);
        if found.Some? {
          item := Some(Span(lo, lo + found.value.lo));
          remainder := Active(lo + found.value.hi, hi);
        } else {
          item := Some(Span(lo, hi));
          remainder := Exhausted;
        }
    }

    /** `.collect()`: calls `next` until it returns None. */
    method Collect() returns (items: seq<Span>)
      requires Valid() && Progresses(delimiter)
      modifies this
      ensures Valid() && remainder.Exhausted?
      ensures items == Segments(delimiter, haystack, old(remainder))
    {
      items := [];
      while true
        invariant Valid()
        invariant items + Segments(delimiter, haystack, remainder) == Segments(delimiter, haystack, old(remainder))
        decreases Measure(remainder)
      {
        ghost var before := remainder;
        var item := Next();
        if item.None? {
          return;
        }
        SegmentsAfterNext(delimiter, haystack, before, item, remainder);
        assert items + [item.value] + Segments(delimiter, haystack, remainder) == items + Segments(delimiter, haystack, before);
        items := items + [item.value];
      }
    }
  }

  /**
    `until_char`: the first segment of splitting `s` on `c`, which is the
    prefix of `s` before the first `c`, or all of `s` when there is none.
    A fresh iterator always yields a first segment, so the `expect` in the
    source never fires.
   */
  function UntilChar(s: seq<char>, c: char): (r: seq<char>)
    ensures r <= s
    ensures c !in r
    ensures |r| < |s| ==> s[|r|] == c
  {
    match Step(Char(c), s, Active(0, |s|)).item
    case Some(first) =>
      CharFindIsFirst(c, s);
      assert s[0..|s|] == s;
      Text(s, first)
    case None => assert false; []
  }
}

# Zero-copy string splitting, modelled in Dafny

This project models the final version of the `lifetimes` crate's string splitter, `lifetimes/src/v6_final.rs`. It covers:

- the `Delimiter` capability, with its three implementations:
  - `&str`: an exact substring;
  - `char`: one code point;
  - `&[char]`: any code point of a set;
- the `StrSplit` iterator, with `new` and `next`;
- the `until_char` helper.

The haystack is a `seq<char>` of Unicode scalar values and is never copied or changed. Every segment the iterator yields, and every delimiter occurrence it cuts out, is a `Span` `[lo, hi)` of code-point indices into that one haystack. This is the model of the crate's borrowed `&'haystack str` views.

Rust indexes `str` by byte. The link between the two is `Utf8.ByteOffset`, which gives the byte offset of a code-point index. `Delimiters.FindNextBytes` computes the `(start, end)` byte pair that `find_next` returns:

- for `&str`: the start plus `self.len()`;
- for `char`: the start plus `len_utf8` of the delimiter;
- for `&[char]`: the start plus `len_utf8` of the matched code point.

`Delimiters.FindNextBytes` is proved to be the byte image of the code-point span, so no boundary ever falls inside a code point.

Files:

- `wrappers.dfy`: `Option`.
- `utf8.dfy`: `len_utf8`, byte lengths and byte offsets.
- `delimiters.dfy`: the delimiter datatype, leftmost-match search, and byte spans.
- `str_split.dfy`: the remainder state machine, the `StrSplit` class, the full sequence of segments, reconstruction, the trailing-delimiter rule, and `until_char`.
- `scenarios.dfy`: the crate's doc examples and unit tests, a few edge cases, and byte spans around multi-byte code points.

The `StrSplit` class:

- Its `remainder` is `Active(lo, hi) | Exhausted`, which stands for Rust's `Option<&str>`. An empty `Active` view is kept distinct from `Exhausted`.
- `Next` updates `remainder` in place. Its contract ties the step to the pure transition `Step`.
- `Collect` calls `Next` until it returns `None`. It is proved to return `Segments`, the specification of the whole split. Facts about the whole split are proved as lemmas about `Segments` and `Delims`, the occurrences that were cut out.

## Model

| member | source | states |
|---|---|---|
| Utf8.Utf8Len | lifetimes/src/v6_final.rs:85 | `len_utf8` is 1 to 4 bytes, and it is 1 exactly for ASCII code points |
| Utf8.ByteLen | lifetimes/src/v6_final.rs:76 | `str::len` lies between the number of code points and four times that number, and is 0 only for the empty text |
| Utf8.ByteLenAppend | lifetimes/src/v6_final.rs:76 | byte lengths add up over concatenation |
| Utf8.ByteOffsetSlice | lifetimes/src/v6_final.rs:64-65 | the bytes between two code-point boundaries are the byte length of the code points between them |
| Utf8.ByteOffsetStrictlyIncreasing | lifetimes/src/v6_final.rs:83-85 | code-point boundaries map to strictly increasing byte offsets, so distinct boundaries are distinct char-boundary offsets |
| Utf8.ByteOffsetsInText | lifetimes/src/v6_final.rs:64-65 | the byte offsets of two ordered code-point boundaries are ordered and at most the text's byte length, so slicing at them stays in bounds |
| Delimiters.MatchIsOccurrence | lifetimes/src/v6_final.rs:10-17 | a match at `i` holds exactly when the text cut out at `i` is one occurrence of the delimiter |
| Delimiters.FindFrom | lifetimes/src/v6_final.rs:83-84 | the left-to-right scan from `i` returns a match at the lowest index at or after `i`, with none skipped; None means there is no match at or after `i` |
| Delimiters.FindNext | lifetimes/src/v6_final.rs:10-17 | `find_next` returns a span inside the text of the delimiter's length, at which the delimiter matches, with no match further left; None holds exactly when the delimiter matches nowhere |
| Delimiters.LeftmostIsUnique | lifetimes/src/v6_final.rs:76 | a match with no match before it is the one `find_next` returns |
| Delimiters.SingleCharPattern | lifetimes/src/v6_final.rs:76 | a one-code-point `&str` pattern matches exactly where that code point stands |
| Delimiters.FindNextBytes | lifetimes/src/v6_final.rs:74-94 | the `(start, end)` byte pair of each implementation is None exactly when there is no match; otherwise it is the byte offsets of the two ends of the leftmost code-point match, with start <= end <= the text's byte length |
| Delimiters.MatchWidthIsBytes | lifetimes/src/v6_final.rs:76-93 | the width each implementation adds to the start (`self.len()`, the delimiter's `len_utf8`, the matched code point's `len_utf8`) is the byte length of the code points matched |
| Delimiters.PatternFindIsLeftmost | lifetimes/src/v6_final.rs:75-77 | `&str`: the result is the leftmost exact occurrence and ends `len` after it starts; None means the pattern occurs nowhere |
| Delimiters.CharFindIsFirst | lifetimes/src/v6_final.rs:82-86 | `char`: the result is the first code point equal to the delimiter, one code point long, with no equal code point before it; None means the code point is absent |
| Delimiters.AnyOfFindIsFirst | lifetimes/src/v6_final.rs:89-94 | `&[char]`: the result is the first code point contained in the set, one code point long; None means no code point of the text is in the set |
| Delimiters.EmptyPatternMatchesAtStart | lifetimes/src/v6_final.rs:76 | the empty `&str` pattern is found at offset 0 and covers nothing |
| Delimiters.NoMatchBeforeLeftmost | lifetimes/src/v6_final.rs:63-64 | the text before the leftmost match holds no match of a non-empty delimiter |
| Splitting.Step | lifetimes/src/v6_final.rs:60-70 | one `next` call. Exhausted yields None and stays Exhausted. An Active view always yields a segment that starts at the view's start. When the new state is Exhausted, the view had no match and the whole view is yielded. Otherwise the segment ends where an occurrence starts, and the new view starts right after that occurrence and keeps the old end |
| Splitting.ExhaustsExactlyWithoutMatch | lifetimes/src/v6_final.rs:63-68 | `next` on an Active view leaves the state Exhausted exactly when the delimiter matches nowhere in the view |
| Splitting.Segments | lifetimes/src/v6_final.rs:60-70 | the items `next` yields until None: none from Exhausted; from an Active view at least one and at most one more than the view has code points, each inside the view |
| Splitting.Delims | lifetimes/src/v6_final.rs:63-65 | each span cut out along the way lies in the haystack and reads as one occurrence of the delimiter |
| Splitting.SegmentsUnfold | lifetimes/src/v6_final.rs:60-70 | the segments of an Active view are the item of one `next` call followed by the segments of the state it leaves |
| Splitting.SegmentsAfterNext | lifetimes/src/v6_final.rs:60-70 | each `next` call that yields an item strictly decreases the termination measure, and its item is the head of the remaining segments |
| Splitting.SegmentsOnMatch | lifetimes/src/v6_final.rs:63-66 | with the leftmost match at `k`, the first segment is `[lo, k)` and the split goes on from the end of that match |
| Splitting.SegmentsWithoutMatch | lifetimes/src/v6_final.rs:67-68 | with no match in the view, the view is yielded whole, once |
| Splitting.SegmentsExhausted | lifetimes/src/v6_final.rs:61 | Exhausted yields nothing |
| Splitting.Reconstruction | lifetimes/src/v6_final.rs:63-68 | there is exactly one more segment than cut-out occurrences. Putting the occurrences back between the segments gives the view exactly |
| Splitting.SegmentsTileView | lifetimes/src/v6_final.rs:63-68 | the segments and the cut-out occurrences tile the view in order: the first segment starts at the view's start, each segment ends where the next cut starts, each cut ends where the next segment starts, and the last segment ends at the view's end |
| Splitting.SplitAll | lifetimes/src/v6_final.rs:133 | `collect()` as text always has at least one element |
| Splitting.InterleaveIsJoin | lifetimes/src/v6_final.rs:63-65 | when every cut-out occurrence reads `sep`, putting the occurrences back is joining the segments with `sep` |
| Splitting.JoinWithPatternReconstructs | lifetimes/src/v6_final.rs:60-77 | joining everything collected from a non-empty `&str` pattern with that pattern gives back the haystack |
| Splitting.JoinWithCharReconstructs | lifetimes/src/v6_final.rs:60-86 | joining everything collected from a `char` delimiter with that code point gives back the haystack |
| Splitting.SegmentsAreDelimiterFree | lifetimes/src/v6_final.rs:63-64 | no yielded segment contains an occurrence of the delimiter |
| Splitting.FirstSegmentIsDelimiterFree | lifetimes/src/v6_final.rs:63-64 | the item of one `next` call contains no occurrence of the delimiter |
| Splitting.SingleCodePointSegments | lifetimes/src/v6_final.rs:60-94 | for a delimiter that matches one code point, the segments are exactly the gaps between its occurrences |
| Splitting.EmptyViewYieldsOneEmpty | lifetimes/src/v6_final.rs:65-68 | an empty Active view yields exactly one empty segment before the state becomes Exhausted |
| Splitting.TrailingDelimiterYieldsOneEmpty | lifetimes/src/v6_final.rs:63-68 | for a one-code-point delimiter, a view that ends with an occurrence ends with the empty segment at its end, and the segment before it ends earlier: exactly one trailing empty segment |
| Splitting.EmptyLastSegmentFollowsDelimiter | lifetimes/src/v6_final.rs:63-68 | the converse, for every delimiter that covers at least one code point: a non-empty view whose last segment is empty ends with an occurrence of the delimiter |
| Splitting.EmptyLastSegmentStep | lifetimes/src/v6_final.rs:63-68 | when a non-empty view ends with an empty segment, `next` cuts an occurrence, and either it ends the view or the rest of the view also ends with an empty segment |
| Splitting.EmptyPatternNeverAdvances | lifetimes/src/v6_final.rs:63-66 | with the empty `&str` pattern, `next` yields the empty segment and leaves the state unchanged |
| Splitting.StrSplit.constructor | lifetimes/src/v6_final.rs:46-51 | `new` stores the haystack and the delimiter, and starts Active over the whole haystack |
| Splitting.StrSplit.Next | lifetimes/src/v6_final.rs:60-70 | the item and the new remainder are exactly one `Step` of the old remainder. Exhausted returns None and stays Exhausted. The remainder always stays a suffix of the haystack |
| Splitting.StrSplit.Collect | lifetimes/src/v6_final.rs:26-28 | calling `next` until None returns exactly `Segments` of the starting state and leaves the iterator Exhausted |
| Splitting.UntilChar | lifetimes/src/v6_final.rs:106-110 | the result is a prefix of `s` that contains no `c`, and it is followed by `c` unless it is all of `s`. The `expect` never fires |
| Scenarios.SplitOnCharAt | lifetimes/src/v6_final.rs:60-77 | splitting on a one-code-point pattern that stands exactly at `cuts` yields the texts of the gaps between them |
| Scenarios.SeriesOnSpace | lifetimes/src/v6_final.rs:131-135 | "A B C D" split on " " collects to ["A", "B", "C", "D"] |
| Scenarios.LettersOnSpace | lifetimes/src/v6_final.rs:26-28 | "a b c d e" split on " " collects to ["a", "b", "c", "d", "e"] |
| Scenarios.TrailingSpaceYieldsEmptyLast | lifetimes/src/v6_final.rs:120-123 | "A " split on " " yields "A" first and collects to ["A", ""] |
| Scenarios.NoDelimiterYieldsWhole | lifetimes/src/v6_final.rs:125-128 | "A" split on " " collects to ["A"] |
| Scenarios.EmptyHaystackYieldsOneEmpty | lifetimes/src/v6_final.rs:67-68 | "" split on " " collects to [""] |
| Scenarios.AdjacentDelimitersYieldEmptyMiddle | lifetimes/src/v6_final.rs:63-66 | "a,,b" split on "," collects to ["a", "", "b"] |
| Scenarios.OverlappingPatternCutsLeftmost | lifetimes/src/v6_final.rs:76 | "aaa" split on "aa" collects to ["", "a"], because the leftmost occurrence is cut |
| Scenarios.CharAfterTwoByteCodePoint | lifetimes/src/v6_final.rs:82-86 | in "é,b" the `char` delimiter ',' is found at bytes (2, 3), after the two-byte 'é' |
| Scenarios.AnyOfMatchesThreeByteCodePoint | lifetimes/src/v6_final.rs:89-94 | in "a€b" the set ['€', 'b'] matches '€' at bytes (1, 4), its own three-byte width |
| Scenarios.PatternWithFourByteCodePoint | lifetimes/src/v6_final.rs:75-77 | in "a😀b" the pattern "😀b" is found at bytes (1, 6), its five-byte `len()` |
| Scenarios.UntilCharIsPrefixBeforeFirst | lifetimes/src/v6_final.rs:106-110 | `until_char` is the prefix before the first `c`, or all of `s` when there is no `c` |
| Scenarios.UntilFirstO | lifetimes/src/v6_final.rs:104 | `until_char("hello world", 'o')` is "hell" |
| Scenarios.UntilFirstL | lifetimes/src/v6_final.rs:116-118 | `until_char("hello world", 'l')` is "he" |

## Left out

- Lifetimes and borrows (`'haystack`, the delimiter's own lifetime): these are compile-time checks. Spans into one immutable haystack stand for the borrowed views.
- The generic parameter `D: Delimiter`: the three implementations form one closed datatype, with one search function that dispatches on the variant. Other delimiter types a user might add are not modelled.
- Byte indexing: the iterator works on code-point indices. For the result of `find_next`, `FindNextBytes` and `ByteOffset` tie the two together.
- FindNext: it searches code point by code point. Rust's `str::find` searches bytes. The two agree on valid UTF-8, because UTF-8 is self-synchronising, but that argument is not proved here.
- The search algorithms inside `str::find` and `char_indices`: only their results are modelled, as the leftmost occurrence or the first matching code point.
- The empty `&str` delimiter: it is modelled as it behaves, since `find("")` returns `Some(0)` and `next` then yields `""` forever (`EmptyPatternNeverAdvances`). `Segments`, `Collect` and the whole-split lemmas require a delimiter that matches at least one code point (`Progresses`), because the sequence is infinite otherwise.
- TrailingDelimiterYieldsOneEmpty: it is proved for delimiters that match one code point (`char`, `&[char]`, one-code-point `&str`). For a longer `&str` pattern that overlaps itself, a text that ends with an occurrence need not end with an empty segment. The leftmost occurrence is cut first, so "aaa" on "aa" gives ["", "a"] (`OverlappingPatternCutsLeftmost`). The code behaves that way, and the model follows the code.
- The panic in `until_char`'s `expect`: the branch in which a fresh iterator yields None is proved unreachable, so no failure path is modelled.
- `collect()` is the standard library's. `Collect` is the loop that it amounts to, over the spans.
- The superseded drafts `v1_string.rs` to `v5_generic.rs` are not part of this model, and neither is the `#[cfg(test)]` harness itself. The cases of that harness are lemmas in `scenarios.dfy`.

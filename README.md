# vscodiff core, modelled in Dafny

vscodiff is a Python port of VS Code's diff model. This project models the
bookkeeping layer that the diff engine is built on, and proves its properties:

- Value types:
  - 1-based positions, ordered lexicographically (`Positions`);
  - self-normalising ranges (`Ranges`);
  - half-open offset and line intervals (`OffsetRanges`, `LineRanges`);
  - relative text extents (`TextLengths`);
  - offset pairs and sequence diffs (`DiffAlgorithms`);
  - diff changes (`DiffChanges`).
- The monotone binary searches (`ListsFind`) and the two structures built on them:
  - `LineRanges.LineRangeSet`, a sorted list of separated line ranges that `add_range` updates in place;
  - `PositionToOffset.PositionOffsetTransformer`, which converts between (line, column) positions and offsets.
- Reading text by range from line-based and string-based texts (`TextEdits`), and the ordering checks of `TextEdit` and `OffsetEdit` (`OffsetEdits`).
- The list, string and hash helpers (`Lists`, `Asserts`, `Strings`, `Hashes`), and the character array of `StringDiffSequence` (`DiffSequences`).
- The reconciliation step in `range_mapping.py` (`RangeMappings`):
  - it maps character-level alignments to line ranges;
  - it groups neighbours whose lines overlap or touch;
  - it asserts that the resulting changes are separated by equal gaps.

How the Python code is rendered:

- **Exceptions.** A `raise ValueError` becomes the result `Err(ValueError)`. A failing Python `assert` becomes `Err(AssertionError)` (`Wrappers.Result`).
- **Optional values.** `None` is `Option.None`.
- **Python slicing.** Slices, including negative and out-of-range bounds, are written out in `Slices`.
- **Callbacks.** They are Dafny function values. A `for_each*` helper returns the sequence of arguments it would pass to its callback.
- **Loops.** Every loop in the source is a `method` with loop invariants. Each such method is proved against a specification function: `CountNewlines`/`LastLineLength`, `LineStarts`/`LineEnds`, `FoldHash`, `JoinAll`, `InvertSpans`, `Flatten`/`Grouped`, `AllAdjacent`, and so on.
- **Mutable state.** `LineRangeSet` and `MonotonousList` are classes whose methods update their fields.
- **`MAX_SAFE_SMALL_INT`.** It comes from `vscodiff/common/uint.py`, which is not part of this model. `Wrappers.MaxSafeSmallInt` stands for it, as 0x4000_0000.
- **Integers.** They are unbounded, as in Python, so `number_hash` never wraps.

The model follows the code as written. Where the code departs from what the surrounding code evidently intends, both versions are modelled; see "## Findings".

## Model

| member | source | states |
|---|---|---|
| Positions.Min | src/vscodiff/common/position.py:4-9 | the smaller position in the generated order is one of the two and is <= both |
| Positions.Max | src/vscodiff/common/position.py:4-9 | the larger position is one of the two and is >= both |
| Positions.EqualIff | src/vscodiff/common/position.py:4-9 | two positions are equal exactly when line and column are equal |
| Positions.Trichotomy | src/vscodiff/common/position.py:4-9 | any two positions are <, == or >; < is irreflexive and asymmetric |
| Positions.LessTransitive | src/vscodiff/common/position.py:4-9 | < is transitive |
| Positions.LessEqTransitive | src/vscodiff/common/position.py:4-9 | <= is transitive |
| Positions.LessEqIsNotGreater | src/vscodiff/common/position.py:4-9 | <= is the negation of >, so the order is total |
| Ranges.Make | src/vscodiff/common/range.py:13-19 | construction never fails; start <= end afterwards; the ends are swapped exactly when start > end |
| Ranges.MakeSymmetric | src/vscodiff/common/range.py:13-19 | Range(a, b) equals Range(b, a) |
| Ranges.MakeValidIdentity | src/vscodiff/common/range.py:13-19 | a normalised range is rebuilt unchanged |
| Ranges.IsEmptyIff | src/vscodiff/common/range.py:24-25 | a constructed range is empty exactly when its two positions are equal |
| Ranges.Range.Union | src/vscodiff/common/range.py:27-28 | union takes the earlier start and the later end, and contains every position of either operand |
| Ranges.UnionCommutative | src/vscodiff/common/range.py:27-28 | union is commutative |
| Ranges.UnionIdempotent | src/vscodiff/common/range.py:27-28 | a range unioned with itself is itself |
| OffsetRanges.Make | src/vscodiff/common/offset_range.py:12-17 | raises ValueError iff start > end_exclusive; otherwise stores both ends |
| OffsetRanges.EmptyIffNoOffsets | src/vscodiff/common/offset_range.py:26-27 | `is_empty` (start == end) holds for a valid range exactly when it contains no offset |
| OffsetRanges.OffsetRange.Len | src/vscodiff/common/offset_range.py:22-23 | the length is never negative for a live range, and is 0 iff the range is empty |
| OffsetRanges.OfLength | src/vscodiff/common/offset_range.py:29-31 | [0, n); raises iff n < 0 |
| OffsetRanges.OfStartAndLength | src/vscodiff/common/offset_range.py:33-35 | [s, s + n); raises iff n < 0 |
| OffsetRanges.EmptyAt | src/vscodiff/common/offset_range.py:37-39 | the empty range at the offset |
| OffsetRanges.OffsetRange.Delta | src/vscodiff/common/offset_range.py:41-42 | both ends shift by k: same length, x is inside iff x + k is inside the result |
| OffsetRanges.OffsetRange.DeltaStart | src/vscodiff/common/offset_range.py:44-45 | only the start moves; raises iff it would pass the end |
| OffsetRanges.OffsetRange.DeltaEnd | src/vscodiff/common/offset_range.py:47-48 | only the end moves; raises iff it would pass below the start |
| OffsetRanges.OffsetRange.Join | src/vscodiff/common/offset_range.py:50-53 | [min start, max end): encloses both operands and each end is one of theirs |
| OffsetRanges.JoinContainsBoth | src/vscodiff/common/offset_range.py:50-53 | the join contains every offset of both operands and is commutative |
| OffsetRanges.OffsetRange.Intersect | src/vscodiff/common/offset_range.py:55-61 | None iff the ranges neither overlap nor touch; otherwise exactly the common offsets, empty iff they only touch |
| OffsetRanges.IntersectCommonOffset | src/vscodiff/common/offset_range.py:55-61 | ranges sharing an offset intersect in a non-empty range holding it |
| OffsetRanges.IntersectsImpliesTouches | src/vscodiff/common/offset_range.py:63-71 | the strict test implies the non-strict one, and is symmetric |
| OffsetRanges.OffsetRange.Slice | src/vscodiff/common/offset_range.py:73-74 | for an in-bounds range, exactly the items start .. end_exclusive - 1 |
| OffsetRanges.OffsetRange.Substring | src/vscodiff/common/offset_range.py:76-77 | for an in-bounds range, exactly the characters start .. end_exclusive - 1 |
| OffsetRanges.OffsetRange.ForEach | src/vscodiff/common/offset_range.py:79-81 | the callback receives each offset of the range once, in increasing order |
| ListsFind.FindLastIdxMonotonous | src/vscodiff/common/lists_find.py:35-52 | result in [start - 1, end - 1]; the predicate is true at it and false just after; on a true-then-false predicate it is the last true index |
| ListsFind.FindFirstIdxMonotonousOrLstLen | src/vscodiff/common/lists_find.py:60-77 | result in [start, end]; true at it, false just before; on a false-then-true predicate it is the first true index, or end if none |
| ListsFind.FindLastMonotonous | src/vscodiff/common/lists_find.py:30-32 | the element at the last true index, None iff there is none (for a monotone predicate) |
| ListsFind.FindFirstMonotonous | src/vscodiff/common/lists_find.py:55-57 | the element at the first true index, None iff there is none (for a monotone predicate) |
| ListsFind.MonotonousList.constructor | src/vscodiff/common/lists_find.py:5-12 | keeps the list; the remembered index starts at 0 and no previous predicate is recorded |
| ListsFind.MonotonousList.FindLastMonotonous | src/vscodiff/common/lists_find.py:14-27 | with invariant checks, raises iff some item satisfies the previous predicate but not the new one, changing nothing; otherwise searches from the remembered index, stores idx + 1, returns None iff idx == -1 |
| LineRanges.Make | src/vscodiff/common/line_range.py:21-26 | raises ValueError iff start_line > end_line_exclusive |
| LineRanges.EmptyIffNoLines | src/vscodiff/common/line_range.py:35-36 | `is_empty` (start == end) holds for a valid line range exactly when it contains no line |
| LineRanges.LineRange.Len | src/vscodiff/common/line_range.py:31-36 | the length is never negative for a live range, and is 0 iff the range is empty |
| LineRanges.FromRangeInclusive | src/vscodiff/common/line_range.py:38-40 | the lines from the start line through the end line; never raises for a normalised range |
| LineRanges.JoinMany | src/vscodiff/common/line_range.py:42-55 | raises iff the list is empty; otherwise equals join folded over the list |
| LineRanges.JoinAllBounds | src/vscodiff/common/line_range.py:42-55 | the fold starts at the least start and ends at the greatest end of the list |
| LineRanges.OfLength | src/vscodiff/common/line_range.py:57-59 | [s, s + n); raises iff n < 0 |
| LineRanges.LineRange.Delta | src/vscodiff/common/line_range.py:61-62 | both ends shift by k, keeping the length and moving every line by k |
| LineRanges.LineRange.Join | src/vscodiff/common/line_range.py:64-68 | [min start, max end), containing every line of both |
| LineRanges.LineRange.Intersect | src/vscodiff/common/line_range.py:70-76 | as written: present iff other's end lies within this range, and then always empty, starting at other's end |
| LineRanges.IntersectAsWrittenLosesLines | src/vscodiff/common/line_range.py:70-76 | [1,5) intersect [2,4) gives the empty [4,4) where [2,4) is meant |
| LineRanges.LineRange.IntersectLines | src/vscodiff/common/line_range.py:70-76 | corrected: present iff the ranges overlap or touch, holding exactly the common lines |
| LineRanges.OverlapOrTouchSymmetric | src/vscodiff/common/line_range.py:78-82 | overlap_or_touch is symmetric and holds iff start1 <= end2 and start2 <= end1 |
| LineRanges.LineRange.ToInclusiveRange | src/vscodiff/common/line_range.py:84-91 | None iff empty; else from (start, 1) to (end - 1, MAX_SAFE_SMALL_INT) |
| LineRanges.LineRange.ToOffsetRange | src/vscodiff/common/line_range.py:93-94 | both ends shifted down by one; line l is inside iff offset l - 1 is |
| LineRanges.LineRangeSet.constructor | src/vscodiff/common/line_range.py:98-99 | stores the given normalised list |
| LineRanges.SearchTouching | src/vscodiff/common/line_range.py:109-118 | the two binary searches bracket exactly the stored ranges that overlap or touch the new range |
| LineRanges.AddRangeSplice | src/vscodiff/common/line_range.py:119-132 | each of the three branches is one splice that keeps the list normalised and covers old lines plus new lines |
| LineRanges.LineRangeSet.AddRange | src/vscodiff/common/line_range.py:105-132 | an empty range changes nothing; otherwise the covered lines become old ∪ new and the list stays sorted with no overlapping or touching ranges |
| LineRanges.LineRangeSet.Contains | src/vscodiff/common/line_range.py:134-141 | true iff some stored range holds the line |
| LineRanges.LineRangeSet.SubtractFrom | src/vscodiff/common/line_range.py:143-169 | the result covers exactly the lines of the range not in the set, normalised for a non-empty range; an empty range comes back as [range] iff no stored range overlaps or touches it, and otherwise as the empty set |
| LineRanges.LineRangeSet.GetIntersection | src/vscodiff/common/line_range.py:171-186 | as written, always the empty set (the intersect it calls never yields a non-empty range) |
| LineRanges.LineRangeSet.GetWithDelta | src/vscodiff/common/line_range.py:188-191 | every range shifted by the value: still normalised, line l covered iff l - value was |
| TextLengths.BetweenPositions | src/vscodiff/common/text_length.py:13-18 | (0, col2 - col1) on one line, else (line2 - line1, col2 - 1) |
| TextLengths.OfRange | src/vscodiff/common/text_length.py:20-22 | the extent between the range's start and end |
| TextLengths.OfText | src/vscodiff/common/text_length.py:24-34 | line_count is the number of '\n', column_count the number of characters after the last one ('\r' included) |
| TextLengths.LastLineLengthIsSuffix | src/vscodiff/common/text_length.py:24-34 | the counted last line is a '\n'-free suffix, preceded by a '\n' unless it is the whole text |
| TextLengths.CountsOfConcat | src/vscodiff/common/text_length.py:24-34 | the counts of a + b follow from those of a and b |
| TextLengths.TextLength.CreateRange | src/vscodiff/common/text_length.py:36-43 | the range from start to the position the extent reaches from it |
| TextLengths.TextLength.ToRange | src/vscodiff/common/text_length.py:45-48 | (1, 1) to (line_count + 1, column_count + 1) for non-negative counts |
| TextLengths.TextLength.ToLineRange | src/vscodiff/common/text_length.py:50-51 | [1, line_count + 2); raises iff line_count < -1 |
| TextLengths.TextLength.AddToPosition | src/vscodiff/common/text_length.py:53-57 | same line moves the column by column_count; otherwise line + line_count at column column_count + 1 |
| TextLengths.BetweenAddRoundTrip | src/vscodiff/common/text_length.py:13-18 | between_positions(p, L.add_to_position(p)) == L for all p and L |
| TextLengths.AddBetweenRoundTrip | src/vscodiff/common/text_length.py:53-57 | moving p1 by the extent between p1 and p2 gives p2 |
| TextLengths.OfRangeToRange | src/vscodiff/common/text_length.py:45-48 | of_range(L.to_range()) == L and of_range(L.create_range(p)) == L for non-negative counts |
| PositionToOffset.LineStartsFacts | src/vscodiff/common/position_to_offset.py:12-16 | start table: ('\n' count) + 1 entries, 0 first, strictly increasing, each after a '\n', no '\n' inside a line, last entry is len - last line length |
| PositionToOffset.LineEnds | src/vscodiff/common/position_to_offset.py:13-23 | as written: one entry per character plus len(text) |
| PositionToOffset.PositionOffsetTransformer.constructor | src/vscodiff/common/position_to_offset.py:9-23 | builds both tables in one pass: the start table and the end table as written |
| PositionToOffset.PositionOffsetTransformer.LineCount | src/vscodiff/common/position_to_offset.py:25-30 | one more than the number of '\n' |
| PositionToOffset.PositionOffsetTransformer.TextLength | src/vscodiff/common/position_to_offset.py:25-30 | equals TextLength.of_text of the same text |
| PositionToOffset.PositionOffsetTransformer.GetLineLength | src/vscodiff/common/position_to_offset.py:32-36 | as written never positive: 0 for line 1, and never below minus the line's start |
| PositionToOffset.LineLengthAsWritten | src/vscodiff/common/position_to_offset.py:32-36 | the single line of "ab" has length 0 |
| PositionToOffset.CorrectedLineEnds | src/vscodiff/common/position_to_offset.py:13-23 | corrected end table: one entry per line, the last at len(text) |
| PositionToOffset.CorrectedLineEndsFacts | src/vscodiff/common/position_to_offset.py:13-23 | with the corrected table every line has non-negative length and ends right before its '\n' or '\r\n' |
| PositionToOffset.PositionOffsetTransformer.ValidatePosition | src/vscodiff/common/position_to_offset.py:61-77 | the five clamping cases: line < 1, line past the last, column < 1, column past the line end, unchanged |
| PositionToOffset.PositionOffsetTransformer.GetOffset | src/vscodiff/common/position_to_offset.py:38-42 | start of the validated line plus column - 1, always within [0, len(text)] |
| PositionToOffset.PositionOffsetTransformer.GetOffsetRange | src/vscodiff/common/position_to_offset.py:44-45 | raises iff the start offset passes the end offset; else an in-text range |
| PositionToOffset.PositionOffsetTransformer.GetPosition | src/vscodiff/common/position_to_offset.py:47-53 | the last line whose start is <= offset, column offset - start + 1 (negative offsets read the last start, as Python's index -1) |
| PositionToOffset.PositionOffsetTransformer.PositionOfUnique | src/vscodiff/common/position_to_offset.py:47-53 | each offset has exactly one position |
| PositionToOffset.PositionOffsetTransformer.PositionOfInverse | src/vscodiff/common/position_to_offset.py:47-53 | for offset >= 0: column >= 1 and start + column - 1 == offset |
| PositionToOffset.PositionOffsetTransformer.PositionOfMonotone | src/vscodiff/common/position_to_offset.py:47-53 | positions are monotone in the offset |
| PositionToOffset.PositionOffsetTransformer.GetRange | src/vscodiff/common/position_to_offset.py:55-59 | both ends converted by get_position; the result is already normalised |
| TextEdits.MakeLineBasedText | src/vscodiff/common/text_edit.py:30-34 | asserts line_count >= 1 |
| TextEdits.AbstractText.Length | src/vscodiff/common/text_edit.py:38-77 | a line-based text: (line_count - 1, length of the last line); a string text: the transformer's text_length, i.e. the of_text counts |
| TextEdits.LinesValueOfRange | src/vscodiff/common/text_edit.py:43-56 | within one line the column slice; across lines the first line's tail, each middle line after "\n", then "\n" and the last line's head |
| TextEdits.AbstractText.GetValueOfRange | src/vscodiff/common/text_edit.py:43-80 | a line-based text accumulates exactly LinesValueOfRange; a string text gives the substring over get_offset_range, raising when that raises |
| TextEdits.StringValueOfRange | src/vscodiff/common/text_edit.py:79-80 | the substring between the two offsets; an error iff get_offset_range raises |
| TextEdits.MiddleLinesOfList | src/vscodiff/common/text_edit.py:49-56 | the first line plus the middle lines of a list text is the "\n" join of its prefix |
| TextEdits.WholeListText | src/vscodiff/common/text_edit.py:49-56 | from (1, 1) to the end of the last line a list text reads all lines joined by "\n" |
| TextEdits.AbstractText.GetLineLength | src/vscodiff/common/text_edit.py:21-59 | a line-based text: the length of the line; a string text uses the base definition, which as written reads "" for every line |
| TextEdits.LineLengthMatchesBase | src/vscodiff/common/text_edit.py:21-26 | the line-based override agrees with the base definition for lines shorter than MAX_SAFE_SMALL_INT |
| TextEdits.StringLineRangeAsWritten | src/vscodiff/common/text_edit.py:21-26 | both ends of a line's full range map to the same offset, so the base get_line_length is 0 |
| TextEdits.ListLine | src/vscodiff/common/text_edit.py:62-64 | line n of a list text is lines[n - 1] |
| TextEdits.ListText | src/vscodiff/common/text_edit.py:62-64 | a line-based text with len(lines) lines; the assertion fails iff the list is empty |
| TextEdits.ListTextLengthIsJoinedLength | src/vscodiff/common/text_edit.py:38-41 | a list text's length is the of_text length of its joined lines |
| TextEdits.MakeStringText | src/vscodiff/common/text_edit.py:67-73 | keeps the value and builds a fresh transformer for it |
| TextEdits.SingleTextEditEmptyIff | src/vscodiff/common/text_edit.py:89-90 | a single edit is empty exactly when its text is empty and its range starts where it ends |
| TextEdits.MakeTextEdit | src/vscodiff/common/text_edit.py:97-100 | the assertion fails iff some edit's end comes after the next edit's start; otherwise stores the edits |
| TextEdits.EditsOrderedTransitive | src/vscodiff/common/text_edit.py:97-100 | in an accepted list every edit ends at or before every later edit starts |
| OffsetEdits.SingleOffsetEditEmptyIff | src/vscodiff/common/offset_edit.py:15-16 | a single edit is empty exactly when its new text is empty and its replaced range is empty (length 0) |
| OffsetEdits.MakeOffsetEdit | src/vscodiff/common/offset_edit.py:23-31 | raises ValueError iff some edit starts before the previous edit's end (the first against -1); otherwise stores the edits unchanged |
| OffsetEdits.OrderedDisjoint | src/vscodiff/common/offset_edit.py:23-31 | in an accepted list no two edits overlap; touching is allowed |
| OffsetEdits.FirstEditBound | src/vscodiff/common/offset_edit.py:24-27 | the first edit is rejected only if it starts below -1 |
| Asserts.CheckAdjacentItems | src/vscodiff/common/asserts.py:4-14 | true iff the predicate holds on every neighbouring pair; lists of 0 or 1 items pass |
| Lists.Equals | src/vscodiff/common/lists.py:4-20 | true when equal (both None included), false when only one is None or lengths differ, else iff item_equals holds pairwise |
| Lists.ForEachAdjacent | src/vscodiff/common/lists.py:23-25 | len(lst) calls: (None, lst[0]) and then (lst[i-1], lst[i]); the second argument is never None |
| Lists.ForEachWithNeighbors | src/vscodiff/common/lists.py:28-36 | one call per index, with None before the first and after the last item |
| Lists.GroupAdjacentBy | src/vscodiff/common/lists.py:39-55 | the groups concatenate to the input; each is non-empty; pairs inside a group satisfy the predicate and pairs across a boundary do not; no groups iff no items |
| Strings.CommonPrefixLength | src/vscodiff/common/strings.py:6-12 | the first r characters agree and the next differ unless r is the shorter length; a string against itself gives its length |
| Strings.CommonSuffixLength | src/vscodiff/common/strings.py:15-23 | the last r characters agree and the ones before differ unless r is the shorter length; a string against itself gives its length |
| Strings.FirstNonWhitespaceIndex | src/vscodiff/common/strings.py:30-36 | -1 iff every character is space or tab; else the first other index |
| Strings.LastNonWhitespaceIndex | src/vscodiff/common/strings.py:39-48 | the largest index <= start_index (default len - 1) that is not space or tab, or -1 |
| Hashes.NumberHash | src/vscodiff/common/hash.py:1-2 | 31 * h + v exactly, since integers are unbounded |
| Hashes.StringHash | src/vscodiff/common/hash.py:5-10 | the salt 149417 folded in, then every character left to right |
| Hashes.StringHashEmpty | src/vscodiff/common/hash.py:5-6 | string_hash("", h) == number_hash(149417, h) |
| Hashes.FoldHashAppend | src/vscodiff/common/hash.py:7-8 | hashing a + b continues from the hash of a |
| Hashes.StringHashSnoc | src/vscodiff/common/hash.py:5-10 | string_hash(s + c, h) == number_hash(ord(c), string_hash(s, h)) |
| Hashes.FoldHashLinearInSeed | src/vscodiff/common/hash.py:5-10 | the seed enters linearly: it is scaled by 31^len(s) |
| DiffSequences.StringDiffSequence.constructor | src/vscodiff/common/diff/diff.py:14-17 | stores the source |
| DiffSequences.StringDiffSequence.GetElements | src/vscodiff/common/diff/diff.py:19-25 | a fresh array of length len(source) whose element i is ord(source[i]) and non-negative |
| DiffChanges.DiffChange.GetOriginalEnd | src/vscodiff/common/diff/diff_change.py:11-12 | start + length; the end is >= the start iff the length is >= 0 |
| DiffChanges.DiffChange.GetModifiedEnd | src/vscodiff/common/diff/diff_change.py:14-15 | start + length; the end is >= the start iff the length is >= 0 |
| DiffAlgorithms.Trivial | src/vscodiff/diff/default_lines_diff_computer/algorithms/diff_algorithm.py:48-58 | one diff [0, len1) × [0, len2) without timeout; raises iff a length is negative |
| DiffAlgorithms.TrivialTimeout | src/vscodiff/diff/default_lines_diff_computer/algorithms/diff_algorithm.py:60-70 | the same diff, reporting the timeout |
| DiffAlgorithms.Invert | src/vscodiff/diff/default_lines_diff_computer/algorithms/diff_algorithm.py:78-102 | built through for_each_adjacent: the spans between consecutive diffs, starting at (0, 0), raising when a span would be reversed |
| DiffAlgorithms.InvertSpansAsWritten | src/vscodiff/diff/default_lines_diff_computer/algorithms/diff_algorithm.py:78-102 | as written, exactly one span per diff (none after the last), and no span for an empty list |
| DiffAlgorithms.InvertIntendedTiles | src/vscodiff/diff/default_lines_diff_computer/algorithms/diff_algorithm.py:78-102 | corrected: sorted diffs inside the document give len + 1 spans that tile its complement and end at doc_length |
| DiffAlgorithms.InvertIntendedEmpty | src/vscodiff/diff/default_lines_diff_computer/algorithms/diff_algorithm.py:78-102 | corrected: with no diffs, the whole document is the one unchanged span |
| DiffAlgorithms.FromOffsetPairs | src/vscodiff/diff/default_lines_diff_computer/algorithms/diff_algorithm.py:104-109 | the two ranges built componentwise; raises iff either start exceeds its end |
| DiffAlgorithms.AssertSorted | src/vscodiff/diff/default_lines_diff_computer/algorithms/diff_algorithm.py:111-122 | raises ValueError iff some neighbouring pair overlaps on either side; touching diffs pass |
| DiffAlgorithms.SequenceDiff.Swap | src/vscodiff/diff/default_lines_diff_computer/algorithms/diff_algorithm.py:124-125 | exchanges the two sides |
| DiffAlgorithms.SwapInvolution | src/vscodiff/diff/default_lines_diff_computer/algorithms/diff_algorithm.py:124-125 | swap is an involution and preserves well-formedness |
| DiffAlgorithms.IntersectsOrTouchesFacts | src/vscodiff/diff/default_lines_diff_computer/algorithms/diff_algorithm.py:157-160 | intersects-or-touches on either side is symmetric, reflexive on valid diffs, and holds whenever `intersect` finds a common part |
| DiffAlgorithms.SequenceDiff.Join | src/vscodiff/diff/default_lines_diff_computer/algorithms/diff_algorithm.py:127-131 | componentwise join, covering both diffs on each side |
| DiffAlgorithms.SequenceDiff.Delta | src/vscodiff/diff/default_lines_diff_computer/algorithms/diff_algorithm.py:133-139 | 0 returns self; otherwise both sides shift by the offset with unchanged lengths |
| DiffAlgorithms.SequenceDiff.DeltaStart | src/vscodiff/diff/default_lines_diff_computer/algorithms/diff_algorithm.py:141-147 | 0 returns self; otherwise both starts move, raising iff either passes its end |
| DiffAlgorithms.SequenceDiff.DeltaEnd | src/vscodiff/diff/default_lines_diff_computer/algorithms/diff_algorithm.py:149-155 | 0 returns self; otherwise both ends move, raising iff either passes its start |
| DiffAlgorithms.SequenceDiff.Intersect | src/vscodiff/diff/default_lines_diff_computer/algorithms/diff_algorithm.py:162-168 | None unless both sides share an offset (an empty intersection counts as absent); else exactly the common offsets |
| DiffAlgorithms.SequenceDiff.GetStarts | src/vscodiff/diff/default_lines_diff_computer/algorithms/diff_algorithm.py:170-171 | the pair of starts |
| DiffAlgorithms.SequenceDiff.GetEndExclusive | src/vscodiff/diff/default_lines_diff_computer/algorithms/diff_algorithm.py:173-174 | the pair of exclusive ends |
| DiffAlgorithms.Zero | src/vscodiff/diff/default_lines_diff_computer/algorithms/diff_algorithm.py:182-184 | (0, 0) |
| DiffAlgorithms.MaxPair | src/vscodiff/diff/default_lines_diff_computer/algorithms/diff_algorithm.py:186-188 | (MAX_SAFE_SMALL_INT, MAX_SAFE_SMALL_INT) |
| DiffAlgorithms.OffsetPair.Delta | src/vscodiff/diff/default_lines_diff_computer/algorithms/diff_algorithm.py:190-194 | adds the offset to both; 0 returns self |
| RangeMappings.LineRangeMapping.Flip | src/vscodiff/diff/range_mapping.py:19-20 | swaps original and modified |
| RangeMappings.LineRangeMapping.Join | src/vscodiff/diff/range_mapping.py:22-25 | componentwise join, covering both mappings' lines |
| RangeMappings.LineRangeMapping.ToRangeMapping | src/vscodiff/diff/range_mapping.py:27-102 | the first applicable shape: column-1 ranges when both end lines are valid, else ranges to the end of line end - 1 when both are non-empty, else from the end of the previous lines when both start after line 1; raises iff none applies |
| RangeMappings.EndOfLine | src/vscodiff/diff/range_mapping.py:46-52 | the normalised end of a line: one past its last character |
| RangeMappings.RangeMapping.Flip | src/vscodiff/diff/range_mapping.py:138-139 | swaps the two ranges |
| RangeMappings.DetailedLineRangeMapping.AsLineRangeMapping | src/vscodiff/diff/range_mapping.py:105-121 | the inherited line-range part |
| RangeMappings.DetailedLineRangeMapping.Flip | src/vscodiff/diff/range_mapping.py:123-130 | swaps the sides and flips every inner change; None stays None |
| RangeMappings.FlipInvolution | src/vscodiff/diff/range_mapping.py:123-139 | flipping twice gives back the mapping, for all three kinds |
| RangeMappings.NormalizePosition | src/vscodiff/diff/range_mapping.py:192-203 | line < 1 gives (1, 1); a line past the end gives the end of the last line; a column past the line end is clamped; column < 1 is left alone |
| RangeMappings.ValidLineNumberKept | src/vscodiff/diff/range_mapping.py:206-207 | a line number is valid (1 <= n <= number of lines) exactly when normalising a position on it keeps its line |
| RangeMappings.NormalizeIdempotent | src/vscodiff/diff/range_mapping.py:192-203 | normalising is idempotent |
| RangeMappings.GetLineRangeMapping | src/vscodiff/diff/range_mapping.py:210-248 | end is end.line + 1, less 1 when both ends are at column 1; start is start.line, plus 1 when both starts are at a line end and stay <= the adjusted end; the line ranges never raise |
| RangeMappings.MappedAlignments | src/vscodiff/diff/range_mapping.py:149-153 | one well-formed line mapping per alignment, carrying exactly that alignment |
| RangeMappings.ChangeOfGroup | src/vscodiff/diff/range_mapping.py:157-165 | on each side, the join of the first and last member's line ranges, enclosing both, with every member's inner change in order |
| RangeMappings.ChangesOf | src/vscodiff/diff/range_mapping.py:148-165 | one change per group |
| RangeMappings.BuildChanges | src/vscodiff/diff/range_mapping.py:148-165 | the loop builds exactly one change per group, and their inner changes are the members' in order |
| RangeMappings.CheckChanges | src/vscodiff/diff/range_mapping.py:167-186 | true iff the start lines and trailing distances agree (unless disabled) and neighbours have equal, strictly positive gaps |
| RangeMappings.LineRangeMappingFromRangeMappings | src/vscodiff/diff/range_mapping.py:142-189 | the changes come from grouping the mapped alignments by overlap or touch; their inner changes are the alignments, in order; the assertion fails iff the gap checks fail |

## Left out

- I/O and concurrency: the core has none.
- Callback side effects and call order beyond the arguments: the `for_each*` helpers and `invert` are modelled by the arguments they pass.
- `OffsetRange.__str__`, `Range.__str__` and the other `__str__` methods: display only.
- `split_lines`: a wrapper over a regular expression.
- `lines_diff_computer.py`, `edit_operation.py` and `char_code.py`:
  - `lines_diff_computer.py` holds only an abstract method and records;
  - `edit_operation.py` is a record;
  - `char_code.py` holds constants, and TAB = 9 and SPACE = 32 are inlined.
- `DiffAlgorithm.compute`, `Sequence` and `Timeout` are abstract, and `Timeout` reads a clock. `Trivial` and `TrivialTimeout` take the two sequence lengths instead of the sequences.
- `vscodiff/common/uint.py` is not part of this model. `MAX_SAFE_SMALL_INT` is fixed at 0x4000_0000.
- The generator laziness of `group_adjacent_by`: the groups are returned as one list.
- The ABC rules of `AbstractText` and `Sequence`. The two text kinds are the two constructors of one datatype.
- `LineRangeSet` aliasing: the constructor copies the given list into a field, so a caller who keeps the list does not see `add_range`'s in-place updates.
- `assert` statements are stripped under `python -O`. The model keeps them, as `Err(AssertionError)`.
- `TextEdits.ListLine`: a line number past the end of the list raises `IndexError` in Python; the model reads "" there instead. Line numbers <= 0 wrap around, as Python's negative indexing does.
- `Strings.LastNonWhitespaceIndex`: requires a given start index to be below the length of the text. For a start index at or past the end the source raises `IndexError` on its first read; that error path is not modelled. Every caller in the core stays in range.
- `ListsFind.FindLastIdxMonotonous`: requires 0 <= start and end <= the list length. Outside those bounds the source raises `IndexError`, or reads from the end of the list for a negative index; neither is modelled. Every caller in the core stays in range.
- `ListsFind.FindFirstIdxMonotonousOrLstLen`: the same bounds and the same unmodelled `IndexError` and negative-index reads as `FindLastIdxMonotonous`.
- `RangeMappings.LineRangeMapping.ToRangeMapping`: requires both line lists to be non-empty. On an empty list the source can raise `IndexError` while normalising (a position on a line below 1 is clamped to (1, 1) without indexing); that error path is not modelled.
- `RangeMappings.NormalizePosition`: requires a non-empty line list, for the same `IndexError` reason.
- `RangeMappings.EndOfLine`: states the end of the line only for lines shorter than MAX_SAFE_SMALL_INT.
- `PositionToOffset.PositionOffsetTransformer.GetLineLength`: states bounds on the value rather than naming the table entries. The bounds are what matters: as written the value is never positive.
- `LineRanges.LineRangeSet.GetIntersection`: states only the as-written result, the empty set.
- `RangeMappings.LineRangeMappingFromRangeMappings`: the grouping is exposed as a ghost out-parameter, so that the ensures can name the groups.
- `PositionToOffset.PositionOffsetTransformer`: no position → offset → position round trip is proved. With the end table as written, line lengths are never positive, so the round trip does not hold.

## Findings

The model keeps the code as written: every other member calls the as-written versions. Each corrected version stands beside its as-written counterpart, with its intended property proved.

| source | as written | input that shows it | evidently intended | confidence | as-written member | corrected member |
|---|---|---|---|---|---|---|
| src/vscodiff/common/line_range.py:70-76 | the lower bound of `intersect` is `other.end_line_exclusive`, so any range it returns is empty | [1,5) intersect [2,4) gives [4,4) | the lower bound is `other.start_line`, giving [2,4) | not executed | LineRanges.IntersectAsWrittenLosesLines | LineRanges.LineRange.IntersectLines |
| src/vscodiff/common/position_to_offset.py:13-23 | the end table gets an entry per character, so `get_line_length` is never positive | "ab": line 1 has length 0 | one end entry per line, before its '\n' or '\r\n' | not executed | PositionToOffset.LineLengthAsWritten | PositionToOffset.CorrectedLineEndsFacts |
| src/vscodiff/diff/default_lines_diff_computer/algorithms/diff_algorithm.py:78-102 | `for_each_adjacent` (lists.py:23-25) never passes `b = None`, so `invert` emits no span after the last diff | no diffs and doc_length 5 give [] | a final span up to doc_length: [0,5) × [0,5) | not executed | DiffAlgorithms.InvertSpansAsWritten | DiffAlgorithms.InvertIntendedTiles |

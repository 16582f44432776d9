/** Mappings between regions of the original and the modified text, and the
    grouping of character-level alignments into line-level changes. */
module RangeMappings {
  import opened Wrappers
  import opened Positions
  import Ranges
  import LineRanges
  import TextEdits
  import Lists
  import Asserts

  type LineRange = LineRanges.LineRange

  /** Line ranges in the original and the modified text. */
  datatype LineRangeMapping = LineRangeMapping(original: LineRange, modified: LineRange) {

    predicate Valid() {
      original.Valid() && modified.Valid()
    }

    /** `flip`: exchanges the two sides. */
    function Flip(): (r: LineRangeMapping)
      ensures r.original == modified && r.modified == original
    {
      LineRangeMapping(modified, original)
    }

    /** `join`: the componentwise join, covering both mappings' lines. */
    function Join(other: LineRangeMapping): (r: LineRangeMapping)
      requires Valid() && other.Valid()
      ensures r.Valid()
      ensures r.original == original.Join(other.original) && r.modified == modified.Join(other.modified)
      ensures forall l :: original.Contains(l) || other.original.Contains(l) ==> r.original.Contains(l)
      ensures forall l :: modified.Contains(l) || other.modified.Contains(l) ==> r.modified.Contains(l)
    {
      LineRangeMapping(original.Join(other.original), modified.Join(other.modified))
    }

    /** `to_range_mapping`: the first of three shapes that applies, or
        ValueError. The line lists must be non-empty: the source reads the
        last line of a list when a line number passes its end. */
    function ToRangeMapping(originalLines: seq<string>, modifiedLines: seq<string>): (r: Result<RangeMapping>)
      requires Valid()
      requires |originalLines| >= 1 && |modifiedLines| >= 1
      ensures r.Ok? <==> BothEndsValid(originalLines, modifiedLines) ||
                         (!original.IsEmpty() && !modified.IsEmpty()) ||
                         (original.startLine > 1 && modified.startLine > 1)
      ensures r.Err? ==> r.error == ValueError
      ensures r.Ok? ==> r.value.originalRange.Valid() && r.value.modifiedRange.Valid()
      ensures BothEndsValid(originalLines, modifiedLines) ==>
                r == Ok(RangeMapping(
                       Ranges.Range(Position(original.startLine, 1), Position(original.endLineExclusive, 1)),
                       Ranges.Range(Position(modified.startLine, 1), Position(modified.endLineExclusive, 1))))
      ensures !BothEndsValid(originalLines, modifiedLines) && !original.IsEmpty() && !modified.IsEmpty() ==>
                r == Ok(RangeMapping(
                       Ranges.Make(Position(original.startLine, 1), EndOfLine(original.endLineExclusive - 1, originalLines)),
                       Ranges.Make(Position(modified.startLine, 1), EndOfLine(modified.endLineExclusive - 1, modifiedLines))))
      ensures !BothEndsValid(originalLines, modifiedLines) && (original.IsEmpty() || modified.IsEmpty()) &&
              original.startLine > 1 && modified.startLine > 1 ==>
                r == Ok(RangeMapping(
                       Ranges.Make(EndOfLine(original.startLine - 1, originalLines),
                                   EndOfLine(original.endLineExclusive - 1, originalLines)),
                       Ranges.Make(EndOfLine(modified.startLine - 1, modifiedLines),
                                   EndOfLine(modified.endLineExclusive - 1, modifiedLines))))
    {
      if BothEndsValid(originalLines, modifiedLines) then
        Ok(RangeMapping(
          Ranges.Make(Position(original.startLine, 1), Position(original.endLineExclusive, 1)),
          Ranges.Make(Position(modified.startLine, 1), Position(modified.endLineExclusive, 1))))
      else if !original.IsEmpty() && !modified.IsEmpty() then
        Ok(RangeMapping(
          Ranges.Make(Position(original.startLine, 1),
                      NormalizePosition(Position(original.endLineExclusive - 1, MaxSafeSmallInt), originalLines)),
          Ranges.Make(Position(modified.startLine, 1),
                      NormalizePosition(Position(modified.endLineExclusive - 1, MaxSafeSmallInt), modifiedLines))))
      else if original.startLine > 1 && modified.startLine > 1 then
        Ok(RangeMapping(
          Ranges.Make(NormalizePosition(Position(original.startLine - 1, MaxSafeSmallInt), originalLines),
                      NormalizePosition(Position(original.endLineExclusive - 1, MaxSafeSmallInt), originalLines)),
          Ranges.Make(NormalizePosition(Position(modified.startLine - 1, MaxSafeSmallInt), modifiedLines),
                      NormalizePosition(Position(modified.endLineExclusive - 1, MaxSafeSmallInt), modifiedLines))))
      else Err(ValueError)
    }

    predicate BothEndsValid(originalLines: seq<string>, modifiedLines: seq<string>) {
      IsValidLineNumber(original.endLineExclusive, originalLines) &&
      IsValidLineNumber(modified.endLineExclusive, modifiedLines)
    }
  }

  /** A character-level mapping between a range of each text. */
  datatype RangeMapping = RangeMapping(originalRange: Ranges.Range, modifiedRange: Ranges.Range) {
    /** `flip`: exchanges the two sides. */
    function Flip(): (r: RangeMapping)
      ensures r.originalRange == modifiedRange && r.modifiedRange == originalRange
    {
      RangeMapping(modifiedRange, originalRange)
    }
  }

  /** A line-level change with the character-level mappings inside it. */
  datatype DetailedLineRangeMapping =
    DetailedLineRangeMapping(original: LineRange, modified: LineRange, innerChanges: Option<seq<RangeMapping>>)
  {
    /** The `LineRangeMapping` part, through which `join` and
        `to_range_mapping` are inherited. */
    function AsLineRangeMapping(): (r: LineRangeMapping)
      ensures r.original == original && r.modified == modified
    {
      LineRangeMapping(original, modified)
    }

    /** `flip`: exchanges the sides and flips every inner change. */
    function Flip(): (r: DetailedLineRangeMapping)
      ensures r.original == modified && r.modified == original
      ensures r.innerChanges.None? <==> innerChanges.None?
      ensures innerChanges.Some? ==>
                (|r.innerChanges.value| == |innerChanges.value| &&
                 forall i :: 0 <= i < |innerChanges.value| ==> r.innerChanges.value[i] == innerChanges.value[i].Flip())
    {
      DetailedLineRangeMapping(
        modified, original,
        if innerChanges.Some? then
          Some(seq(|innerChanges.value|, i requires 0 <= i < |innerChanges.value| => innerChanges.value[i].Flip()))
        else None)
    }
  }

  /** Flipping twice gives back the mapping, for all three kinds. */
  lemma FlipInvolution(m: LineRangeMapping, d: DetailedLineRangeMapping, rm: RangeMapping)
    ensures m.Flip().Flip() == m
    ensures rm.Flip().Flip() == rm
    ensures d.Flip().Flip() == d
  {
    if d.innerChanges.Some? {
      assert d.Flip().Flip().innerChanges.value == d.innerChanges.value;
    }
  }

  /** `_is_valid_line_number` */
  predicate IsValidLineNumber(lineNumber: int, lines: seq<string>) {
    1 <= lineNumber <= |lines|
  }

  /** `_normalize_position`: clamps the line into the text and the column to
      one past the end of its line; a column below 1 is left alone. */
  function NormalizePosition(pos: Position, content: seq<string>): (r: Position)
    requires |content| >= 1
    ensures 1 <= r.line <= |content| && r.column <= |content[r.line - 1]| + 1
    ensures pos.line < 1 ==> r == Position(1, 1)
    ensures pos.line > |content| ==> r == Position(|content|, |content[|content| - 1]| + 1)
    ensures 1 <= pos.line <= |content| ==>
              r == Position(pos.line, if pos.column > |content[pos.line - 1]| + 1 then |content[pos.line - 1]| + 1 else pos.column)
  {
    if pos.line < 1 then Position(1, 1)
    else if pos.line > |content| then Position(|content|, |content[|content| - 1]| + 1)
    else
      var lineContent := content[pos.line - 1];
      if pos.column > |lineContent| + 1 then Position(pos.line, |lineContent| + 1)
      else pos
  }

  /** A line number is valid exactly when normalising a position on it
      keeps its line. */
  lemma ValidLineNumberKept(pos: Position, content: seq<string>)
    requires |content| >= 1
    ensures IsValidLineNumber(pos.line, content) <==> NormalizePosition(pos, content).line == pos.line
  {
  }

  /** Normalising is idempotent. */
  lemma NormalizeIdempotent(pos: Position, content: seq<string>)
    requires |content| >= 1
    ensures NormalizePosition(NormalizePosition(pos, content), content) == NormalizePosition(pos, content)
  {
  }

  /** The end of a line, clamped into the text: where the fallback shapes of
      `to_range_mapping` put their ends. */
  function EndOfLine(line: int, content: seq<string>): (r: Position)
    requires |content| >= 1
    ensures 1 <= r.line <= |content|
    ensures 1 <= line <= |content| && |content[line - 1]| < MaxSafeSmallInt ==>
              r == Position(line, |content[line - 1]| + 1)
  {
    NormalizePosition(Position(line, MaxSafeSmallInt), content)
  }

  /** Both ranges end at column 1 and neither starts after the line it ends on. */
  predicate EndsAtColumnOne(rm: RangeMapping) {
    && rm.modifiedRange.end.column == 1
    && rm.originalRange.end.column == 1
    && rm.originalRange.start.line <= rm.originalRange.end.line
    && rm.modifiedRange.start.line <= rm.modifiedRange.end.line
  }

  /** Both ranges start at or after the end of their first line, and that
      line can be skipped without passing the (adjusted) end line. */
  predicate StartsAtLineEnd(rm: RangeMapping, originalLines: TextEdits.AbstractText,
                            modifiedLines: TextEdits.AbstractText, lineEndDelta: int)
    requires originalLines.Valid() && modifiedLines.Valid()
  {
    && rm.modifiedRange.start.column - 1 >= modifiedLines.GetLineLength(rm.modifiedRange.start.line)
    && rm.originalRange.start.column - 1 >= originalLines.GetLineLength(rm.originalRange.start.line)
    && rm.originalRange.start.line <= rm.originalRange.end.line + lineEndDelta
    && rm.modifiedRange.start.line <= rm.modifiedRange.end.line + lineEndDelta
  }

  /** `_get_line_range_mapping`: the lines a character mapping touches. The
      last line is dropped when both ranges end at column 1 of it, and the
      first line when both ranges start at its end. Both sides get the same
      adjustment, and the line ranges are always well formed, so the
      `LineRange` constructor never raises here. */
  function GetLineRangeMapping(rm: RangeMapping, originalLines: TextEdits.AbstractText,
                               modifiedLines: TextEdits.AbstractText): (r: DetailedLineRangeMapping)
    requires rm.originalRange.Valid() && rm.modifiedRange.Valid()
    requires originalLines.Valid() && modifiedLines.Valid()
    ensures r.original.Valid() && r.modified.Valid()
    ensures r.innerChanges == Some([rm])
    ensures var lineEndDelta := if EndsAtColumnOne(rm) then -1 else 0;
      && r.original.endLineExclusive == rm.originalRange.end.line + 1 + lineEndDelta
      && r.modified.endLineExclusive == rm.modifiedRange.end.line + 1 + lineEndDelta
      && var lineStartDelta := if StartsAtLineEnd(rm, originalLines, modifiedLines, lineEndDelta) then 1 else 0;
         && r.original.startLine == rm.originalRange.start.line + lineStartDelta
         && r.modified.startLine == rm.modifiedRange.start.line + lineStartDelta
  {
    var lineEndDelta := if EndsAtColumnOne(rm) then -1 else 0;
    var lineStartDelta := if StartsAtLineEnd(rm, originalLines, modifiedLines, lineEndDelta) then 1 else 0;
    DetailedLineRangeMapping(
      LineRanges.LineRange(rm.originalRange.start.line + lineStartDelta, rm.originalRange.end.line + 1 + lineEndDelta),
      LineRanges.LineRange(rm.modifiedRange.start.line + lineStartDelta, rm.modifiedRange.end.line + 1 + lineEndDelta),
      Some([rm]))
  }

  /** The grouping test: the original or the modified lines overlap or touch. */
  predicate ShouldBeGrouped(a1: DetailedLineRangeMapping, a2: DetailedLineRangeMapping) {
    a1.original.OverlapOrTouch(a2.original) || a1.modified.OverlapOrTouch(a2.modified)
  }

  /** What `_get_line_range_mapping` always yields: well-formed line ranges
      and exactly one inner change. */
  predicate WellFormedMember(m: DetailedLineRangeMapping) {
    m.original.Valid() && m.modified.Valid() && m.innerChanges.Some? && |m.innerChanges.value| == 1
  }

  /** The change built from one group: the join of its first and last
      members, with each member's single inner change, in order. */
  function ChangeOfGroup(g: seq<DetailedLineRangeMapping>): (r: DetailedLineRangeMapping)
    requires |g| > 0 && AllWellFormed(g)
    ensures r.original.Valid() && r.modified.Valid()
    ensures r.original.startLine <= g[0].original.startLine && g[0].original.endLineExclusive <= r.original.endLineExclusive
    ensures r.modified.startLine <= g[0].modified.startLine && g[0].modified.endLineExclusive <= r.modified.endLineExclusive
    ensures r.original == g[0].original.Join(g[|g| - 1].original) && r.modified == g[0].modified.Join(g[|g| - 1].modified)
    ensures forall l :: g[|g| - 1].original.Contains(l) ==> r.original.Contains(l)
    ensures forall l :: g[|g| - 1].modified.Contains(l) ==> r.modified.Contains(l)
    ensures r.innerChanges == Some(InnerOfMembers(g))
  {
    var first, last := g[0], g[|g| - 1];
    assert WellFormedMember(first) && WellFormedMember(last);
    DetailedLineRangeMapping(
      first.original.Join(last.original),
      first.modified.Join(last.modified),
      Some(InnerOfMembers(g)))
  }

  /** The first inner change of each member, in order. */
  function InnerOfMembers(members: seq<DetailedLineRangeMapping>): (r: seq<RangeMapping>)
    requires AllWellFormed(members)
    ensures |r| == |members| && forall k :: 0 <= k < |members| ==> r[k] == members[k].innerChanges.value[0]
  {
    seq(|members|, k requires 0 <= k < |members| => members[k].innerChanges.value[0])
  }

  predicate AllWellFormed(members: seq<DetailedLineRangeMapping>) {
    forall k :: 0 <= k < |members| ==> WellFormedMember(members[k])
  }

  ghost predicate WellFormedGroups(groups: seq<seq<DetailedLineRangeMapping>>) {
    forall g :: 0 <= g < |groups| ==> |groups[g]| > 0 && AllWellFormed(groups[g])
  }

  /** One change per group. */
  function ChangesOf(groups: seq<seq<DetailedLineRangeMapping>>): (r: seq<DetailedLineRangeMapping>)
    requires WellFormedGroups(groups)
    ensures |r| == |groups| && forall g :: 0 <= g < |groups| ==> r[g] == ChangeOfGroup(groups[g])
  {
    seq(|groups|, g requires 0 <= g < |groups| => ChangeOfGroup(groups[g]))
  }

  /** The gap test `check_adjacent_items` applies to neighbouring changes:
      equal, strictly positive gaps on both sides. */
  predicate EqualPositiveGaps(m1: DetailedLineRangeMapping, m2: DetailedLineRangeMapping) {
    && m2.original.startLine - m1.original.endLineExclusive == m2.modified.startLine - m1.modified.endLineExclusive
    && m1.original.endLineExclusive < m2.original.startLine
    && m1.modified.endLineExclusive < m2.modified.startLine
  }

  /** What the closing `assert` checks. */
  ghost predicate ChangesConsistent(changes: seq<DetailedLineRangeMapping>, originalLines: TextEdits.AbstractText,
                                    modifiedLines: TextEdits.AbstractText, dontAssertStartLine: bool)
    requires originalLines.Valid() && modifiedLines.Valid()
  {
    && (!dontAssertStartLine && |changes| > 0 ==>
          && changes[0].modified.startLine == changes[0].original.startLine
          && modifiedLines.Length().lineCount - changes[|changes| - 1].modified.endLineExclusive ==
             originalLines.Length().lineCount - changes[|changes| - 1].original.endLineExclusive)
    && Asserts.AllAdjacent(changes, EqualPositiveGaps)
  }

  /** The inner changes of the changes, concatenated. */
  function AllInnerChanges(changes: seq<DetailedLineRangeMapping>): seq<RangeMapping>
  {
    if |changes| == 0 then []
    else
      var last := changes[|changes| - 1];
      AllInnerChanges(changes[..|changes| - 1]) + (if last.innerChanges.Some? then last.innerChanges.value else [])
  }

  /** The per-alignment line mappings the grouping runs on. */
  function MappedAlignments(alignments: seq<RangeMapping>, originalLines: TextEdits.AbstractText,
                            modifiedLines: TextEdits.AbstractText): (r: seq<DetailedLineRangeMapping>)
    requires forall i :: 0 <= i < |alignments| ==> alignments[i].originalRange.Valid() && alignments[i].modifiedRange.Valid()
    requires originalLines.Valid() && modifiedLines.Valid()
    ensures |r| == |alignments|
    ensures forall i :: 0 <= i < |r| ==> WellFormedMember(r[i]) && r[i].innerChanges == Some([alignments[i]])
  {
    seq(|alignments|, i requires 0 <= i < |alignments| => GetLineRangeMapping(alignments[i], originalLines, modifiedLines))
  }

  /** `line_range_mapping_from_range_mappings`: maps every alignment to its
      lines, groups neighbours whose lines overlap or touch on either side,
      builds one change per group, and asserts the result is consistent.
      `groups` exposes the grouping the changes are built from. */
  method LineRangeMappingFromRangeMappings(alignments: seq<RangeMapping>,
                                          originalLines: TextEdits.AbstractText,
                                          modifiedLines: TextEdits.AbstractText,
                                          dontAssertStartLine: bool)
    returns (r: Result<seq<DetailedLineRangeMapping>>, ghost groups: seq<seq<DetailedLineRangeMapping>>)
    requires forall i :: 0 <= i < |alignments| ==> alignments[i].originalRange.Valid() && alignments[i].modifiedRange.Valid()
    requires originalLines.Valid() && modifiedLines.Valid()
    ensures Lists.Flatten(groups) == MappedAlignments(alignments, originalLines, modifiedLines)
    ensures Lists.Grouped(groups, ShouldBeGrouped)
    ensures WellFormedGroups(groups)
    ensures r.Ok? <==> ChangesConsistent(ChangesOf(groups), originalLines, modifiedLines, dontAssertStartLine)
    ensures r.Ok? ==> r.value == ChangesOf(groups)
    ensures r.Err? ==> r.error == AssertionError
    ensures AllInnerChanges(ChangesOf(groups)) == alignments
  {
    var mapped := seq(|alignments|, i requires 0 <= i < |alignments| =>
                        GetLineRangeMapping(alignments[i], originalLines, modifiedLines));
    assert mapped == MappedAlignments(alignments, originalLines, modifiedLines);
    var gs := Lists.GroupAdjacentBy(mapped, ShouldBeGrouped);
    groups := gs;
    MembersWellFormed(gs, mapped);
    var changes := BuildChanges(gs);
    InnerOfMappedIsAlignments(alignments, mapped);
    var ok := CheckChanges(changes, originalLines, modifiedLines, dontAssertStartLine);
    if !ok {
      return Err(AssertionError), groups;
    }
    return Ok(changes), groups;
  }

  /** The loop of `line_range_mapping_from_range_mappings` that turns each
      group into one change. */
  method BuildChanges(gs: seq<seq<DetailedLineRangeMapping>>) returns (changes: seq<DetailedLineRangeMapping>)
    requires WellFormedGroups(gs)
    ensures changes == ChangesOf(gs)
    ensures AllWellFormed(Lists.Flatten(gs))
    ensures AllInnerChanges(changes) == InnerOfMembers(Lists.Flatten(gs))
  {
    changes := [];
    for gi := 0 to |gs|
      invariant |changes| == gi
      invariant forall k :: 0 <= k < gi ==> changes[k] == ChangeOfGroup(gs[k])
      invariant AllWellFormed(Lists.Flatten(gs[..gi]))
      invariant AllInnerChanges(changes) == InnerOfMembers(Lists.Flatten(gs[..gi]))
    {
      var g := gs[gi];
      var first := g[0];
      var last := g[|g| - 1];
      var change := DetailedLineRangeMapping(
        first.original.Join(last.original),
        first.modified.Join(last.modified),
        Some(InnerOfMembers(g)));
      assert change == ChangeOfGroup(g);
      InnerStep(changes, gs, gi);
      changes := changes + [change];
    }
    assert gs[..|gs|] == gs;
  }

  /** The closing `assert` of `line_range_mapping_from_range_mappings`. */
  method CheckChanges(changes: seq<DetailedLineRangeMapping>, originalLines: TextEdits.AbstractText,
                      modifiedLines: TextEdits.AbstractText, dontAssertStartLine: bool) returns (ok: bool)
    requires originalLines.Valid() && modifiedLines.Valid()
    ensures ok <==> ChangesConsistent(changes, originalLines, modifiedLines, dontAssertStartLine)
  {
    ok := true;
    if !dontAssertStartLine && |changes| > 0 {
      if changes[0].modified.startLine != changes[0].original.startLine {
        ok := false;
      } else if modifiedLines.Length().lineCount - changes[|changes| - 1].modified.endLineExclusive !=
                originalLines.Length().lineCount - changes[|changes| - 1].original.endLineExclusive {
        ok := false;
      }
    }
    if ok {
      ok := Asserts.CheckAdjacentItems(changes, EqualPositiveGaps);
    }
  }

  /** Every member of the grouping is one of the mapped alignments, so it is
      well formed. */
  lemma MembersWellFormed(groups: seq<seq<DetailedLineRangeMapping>>, mapped: seq<DetailedLineRangeMapping>)
    requires Lists.Flatten(groups) == mapped && Lists.Grouped(groups, ShouldBeGrouped)
    requires forall i :: 0 <= i < |mapped| ==> WellFormedMember(mapped[i])
    ensures WellFormedGroups(groups)
  {
    forall g, k | 0 <= g < |groups| && 0 <= k < |groups[g]|
      ensures WellFormedMember(groups[g][k])
    {
      Lists.FlattenMember(groups, g, k);
    }
  }

  /** One loop step: the inner changes collected so far grow by the new
      group's members. */
  lemma InnerStep(changes: seq<DetailedLineRangeMapping>, groups: seq<seq<DetailedLineRangeMapping>>, gi: int)
    requires WellFormedGroups(groups) && 0 <= gi < |groups|
    requires AllWellFormed(Lists.Flatten(groups[..gi]))
    requires AllInnerChanges(changes) == InnerOfMembers(Lists.Flatten(groups[..gi]))
    ensures AllWellFormed(Lists.Flatten(groups[..gi + 1]))
    ensures AllInnerChanges(changes + [ChangeOfGroup(groups[gi])]) == InnerOfMembers(Lists.Flatten(groups[..gi + 1]))
  {
    var c := ChangeOfGroup(groups[gi]);
    assert (changes + [c])[..|changes|] == changes;
    Lists.FlattenPrefix(groups, gi);
  }

  /** Each mapped alignment carries exactly that alignment. */
  lemma InnerOfMappedIsAlignments(alignments: seq<RangeMapping>, mapped: seq<DetailedLineRangeMapping>)
    requires |mapped| == |alignments|
    requires forall i :: 0 <= i < |mapped| ==> WellFormedMember(mapped[i]) && mapped[i].innerChanges == Some([alignments[i]])
    ensures InnerOfMembers(mapped) == alignments
  {
  }
}

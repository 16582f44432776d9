/** `PositionOffsetTransformer`: converts between 1-based (line, column)
    positions and 0-based offsets into a string, through two tables built
    once by the constructor. */
module PositionToOffset {
  import opened Wrappers
  import opened Positions
  import Ranges
  import OffsetRanges
  import TextLengths
  import ListsFind

  /** The start table: 0, then i + 1 for every '\n' at index i. */
  function LineStarts(text: string): (r: seq<int>)
    ensures |r| >= 1
  {
    if |text| == 0 then [0]
    else LineStarts(text[..|text| - 1]) + (if text[|text| - 1] == '\n' then [|text|] else [])
  }

  /** Entry k (for k < |text|) of the end table, as the constructor fills it:
      one entry per character, moved back by one after a '\r'. */
  function EndEntry(text: string, k: int): int
    requires 0 <= k < |text|
  {
    if k > 0 && text[k - 1] == '\r' then k - 1 else k
  }

  /** The end table as written: an entry per character, then |text|. */
  function LineEnds(text: string): (r: seq<int>)
    ensures |r| == |text| + 1
  {
    seq(|text|, k requires 0 <= k < |text| => EndEntry(text, k)) + [|text|]
  }

  /** The size, the ends and the order of the start table: one entry per
      '\n' plus one, 0 first, strictly increasing, and the last entry is
      where the last line starts. */
  lemma {:induction false} LineStartsShape(text: string)
    ensures var r := LineStarts(text);
      && |r| == TextLengths.CountNewlines(text) + 1
      && r[0] == 0
      && r[|r| - 1] == |text| - TextLengths.LastLineLength(text)
      && (forall i :: 0 <= i < |r| ==> i <= r[i] <= |text|)
      && (forall i, j :: 0 <= i < j < |r| ==> r[i] < r[j])
  {
    if |text| > 0 {
      var init := text[..|text| - 1];
      LineStartsShape(init);
      TextLengths.LastLineLengthIsSuffix(init);
      var r0 := LineStarts(init);
      if text[|text| - 1] == '\n' {
        assert LineStarts(text) == r0 + [|text|];
      } else {
        assert LineStarts(text) == r0;
      }
    }
  }

  /** Every line but the first starts right after a '\n'. */
  lemma {:induction false} LineStartsAfterNewline(text: string)
    ensures forall i {:trigger LineStarts(text)[i]} :: 0 < i < |LineStarts(text)| ==>
      0 < LineStarts(text)[i] <= |text| && text[LineStarts(text)[i] - 1] == '\n'
  {
    if |text| > 0 {
      var init := text[..|text| - 1];
      LineStartsAfterNewline(init);
      var r0 := LineStarts(init);
      assert forall k :: 0 <= k < |init| ==> init[k] == text[k];
      if text[|text| - 1] == '\n' {
        var r := r0 + [|text|];
        assert LineStarts(text) == r;
        forall i | 0 < i < |r|
          ensures 0 < r[i] <= |text| && text[r[i] - 1] == '\n'
        {
          if i < |r0| {
            assert r[i] == r0[i];
            assert 0 < r0[i] <= |init|;
            assert init[r0[i] - 1] == '\n';
          }
        }
      } else {
        assert LineStarts(text) == r0;
      }
    }
  }

  /** No '\n' lies inside a line: only the last character before the next
      line's start is one. */
  lemma {:induction false} LineStartsNoInnerNewline(text: string)
    ensures var r := LineStarts(text);
      forall i, k :: 0 <= i < |r| - 1 && 0 <= r[i] <= k < r[i + 1] - 1 && k < |text| ==> text[k] != '\n'
  {
    if |text| > 0 {
      var init := text[..|text| - 1];
      LineStartsNoInnerNewline(init);
      LineStartsShape(init);
      var r0 := LineStarts(init);
      assert forall k :: 0 <= k < |init| ==> init[k] == text[k];
      if text[|text| - 1] == '\n' {
        var r := r0 + [|text|];
        assert LineStarts(text) == r;
        forall i, k | 0 <= i < |r| - 1 && 0 <= r[i] <= k < r[i + 1] - 1 && k < |text|
          ensures text[k] != '\n'
        {
          if i < |r0| - 1 {
            assert r[i] == r0[i] && r[i + 1] == r0[i + 1];
          } else {
            assert r[i] == |init| - TextLengths.LastLineLength(init) && k < |init|;
            TextLengths.LastLineLengthIsSuffix(init);
          }
        }
      } else {
        assert LineStarts(text) == r0;
      }
    }
  }

  /** What the start table holds: line i starts right after the i-th '\n';
      the table is strictly increasing, has one entry per '\n' plus one, and
      no '\n' lies inside a line. */
  lemma LineStartsFacts(text: string)
    ensures var r := LineStarts(text);
      && |r| == TextLengths.CountNewlines(text) + 1
      && r[0] == 0
      && (forall i, j :: 0 <= i < j < |r| ==> r[i] < r[j])
      && (forall i :: 0 <= i < |r| ==> i <= r[i] <= |text|)
      && (forall i :: 0 < i < |r| ==> text[r[i] - 1] == '\n')
      && (forall i, k :: 0 <= i < |r| - 1 && r[i] <= k < r[i + 1] - 1 ==> text[k] != '\n')
      && r[|r| - 1] == |text| - TextLengths.LastLineLength(text)
  {
    LineStartsShape(text);
    LineStartsAfterNewline(text);
    LineStartsNoInnerNewline(text);
  }

  class PositionOffsetTransformer {
    const text: string
    const lineStartOffsetByLineIdx: seq<int>
    const lineEndOffsetByLineIdx: seq<int>

    ghost predicate Valid() {
      lineStartOffsetByLineIdx == LineStarts(text) && lineEndOffsetByLineIdx == LineEnds(text)
    }

    /** Builds both tables in one pass over the text. */
    constructor(text: string)
      ensures Valid() && this.text == text
    {
      var starts := [0];
      var ends := [];
      for i := 0 to |text|
        invariant starts == LineStarts(text[..i])
        invariant ends == seq(i, k requires 0 <= k < i => EndEntry(text, k))
      {
        assert text[..i + 1][..i] == text[..i];
        if text[i] == '\n' {
          starts := starts + [i + 1];
        }
        if i > 0 && text[i - 1] == '\r' {
          ends := ends + [i - 1];
        } else {
          ends := ends + [i];
        }
      }
      assert text[..|text|] == text;
      ends := ends + [|text|];
      this.text := text;
      lineStartOffsetByLineIdx := starts;
      lineEndOffsetByLineIdx := ends;
    }

    /** Number of lines: one more than the number of '\n'. */
    function LineCount(): (n: int)
      requires Valid()
      ensures n == TextLengths.CountNewlines(text) + 1
    {
      LineStartsFacts(text);
      |lineStartOffsetByLineIdx|
    }

    /** `text_length`: agrees with `TextLength.of_text` on the same text. */
    function TextLength(): (r: TextLengths.TextLength)
      requires Valid()
      ensures r == TextLengths.TextLength(TextLengths.CountNewlines(text), TextLengths.LastLineLength(text))
    {
      LineStartsFacts(text);
      var lineIdx := |lineStartOffsetByLineIdx| - 1;
      TextLengths.TextLength(lineIdx, |text| - lineStartOffsetByLineIdx[lineIdx])
    }

    /** `get_line_length`: end entry minus start entry. With the end table as
        written the end entry of line l is l - 1 or l - 2 while its start is
        at least l - 1, so no line has a positive length. */
    function GetLineLength(line: int): (r: int)
      requires Valid() && 1 <= line <= LineCount()
      ensures r <= 0
      ensures line == 1 ==> r == 0
      ensures lineStartOffsetByLineIdx[line - 1] + r >= 0
    {
      LineStartsFacts(text);
      lineEndOffsetByLineIdx[line - 1] - lineStartOffsetByLineIdx[line - 1]
    }

    /** `_validate_position`: clamps a position into the text. */
    function ValidatePosition(pos: Position): (r: Position)
      requires Valid()
      ensures 1 <= r.line <= LineCount()
      ensures pos.line < 1 ==> r == Position(1, 1)
      ensures pos.line > LineCount() ==> r == Position(LineCount(), GetLineLength(LineCount()) + 1)
      ensures 1 <= pos.line <= LineCount() && pos.column < 1 ==> r == Position(pos.line, 1)
      ensures 1 <= pos.line <= LineCount() && 1 <= pos.column && pos.column - 1 > GetLineLength(pos.line) ==>
                r == Position(pos.line, GetLineLength(pos.line) + 1)
      ensures 1 <= pos.line <= LineCount() && 1 <= pos.column <= GetLineLength(pos.line) + 1 ==> r == pos
    {
      if pos.line < 1 then Position(1, 1)
      else
        var lineCount := TextLength().lineCount + 1;
        if pos.line > lineCount then
          Position(lineCount, GetLineLength(lineCount) + 1)
        else if pos.column < 1 then Position(pos.line, 1)
        else if pos.column - 1 > GetLineLength(pos.line) then
          Position(pos.line, GetLineLength(pos.line) + 1)
        else pos
    }

    /** `get_offset`: start of the validated line plus its column - 1. The
        offset always lies in [0, |text|], at or before the start of the
        validated line. */
    function GetOffset(pos: Position): (r: int)
      requires Valid()
      ensures 0 <= r <= |text|
      ensures var v := ValidatePosition(pos); r == lineStartOffsetByLineIdx[v.line - 1] + v.column - 1
      ensures r <= lineStartOffsetByLineIdx[ValidatePosition(pos).line - 1]
    {
      LineStartsFacts(text);
      var valPos := ValidatePosition(pos);
      lineStartOffsetByLineIdx[valPos.line - 1] + valPos.column - 1
    }

    /** `get_offset_range`: raises when the start offset passes the end offset. */
    function GetOffsetRange(range: Ranges.Range): (r: Result<OffsetRanges.OffsetRange>)
      requires Valid()
      ensures r.Ok? <==> GetOffset(range.start) <= GetOffset(range.end)
      ensures r.Ok? ==> r.value.start == GetOffset(range.start) && r.value.endExclusive == GetOffset(range.end)
      ensures r.Ok? ==> r.value.Valid() && 0 <= r.value.start && r.value.endExclusive <= |text|
    {
      OffsetRanges.Make(GetOffset(range.start), GetOffset(range.end))
    }

    /** The position `get_position` computes for `offset`: the last line whose
        start is at or before the offset, and the distance from that start
        plus one. A negative offset finds no line; the source then reads the
        start table at index -1, which in Python is its last entry. */
    ghost predicate PositionOf(offset: int, p: Position)
      requires Valid()
    {
      var starts := lineStartOffsetByLineIdx;
      if offset >= 0 then
        && 1 <= p.line <= |starts|
        && starts[p.line - 1] <= offset
        && (p.line < |starts| ==> offset < starts[p.line])
        && p.column == offset - starts[p.line - 1] + 1
      else
        p == Position(0, offset - starts[|starts| - 1] + 1)
    }

    /** Each offset has exactly one position. */
    lemma PositionOfUnique(offset: int, p: Position, q: Position)
      requires Valid() && PositionOf(offset, p) && PositionOf(offset, q)
      ensures p == q
    {
      LineStartsFacts(text);
    }

    /** For a non-negative offset the column is at least 1 and start + column
        - 1 gives the offset back. */
    lemma PositionOfInverse(offset: int, p: Position)
      requires Valid() && offset >= 0 && PositionOf(offset, p)
      ensures p.column >= 1
      ensures lineStartOffsetByLineIdx[p.line - 1] + p.column - 1 == offset
    {
    }

    /** Positions are monotone in the offset. */
    lemma {:induction false} PositionOfMonotone(o1: int, o2: int, p: Position, q: Position)
      requires Valid() && o1 <= o2 && PositionOf(o1, p) && PositionOf(o2, q)
      ensures LessEq(p, q)
    {
      LineStartsFacts(text);
    }

    /** `get_position`: a binary search for the last line start <= offset. */
    method GetPosition(offset: int) returns (p: Position)
      requires Valid()
      ensures PositionOf(offset, p)
    {
      LineStartsFacts(text);
      var starts := lineStartOffsetByLineIdx;
      var idx := ListsFind.FindLastIdxMonotonous(starts, i => i <= offset, 0, |starts|);
      var line := idx + 1;
      var column := offset - (if idx >= 0 then starts[idx] else starts[|starts| - 1]) + 1;
      p := Position(line, column);
    }

    /** `get_range`: both ends converted; the range constructor never needs
        to swap them. */
    method GetRange(offsetRange: OffsetRanges.OffsetRange) returns (r: Ranges.Range)
      requires Valid() && offsetRange.Valid()
      ensures PositionOf(offsetRange.start, r.start) && PositionOf(offsetRange.endExclusive, r.end)
      ensures r.Valid()
    {
      var p := GetPosition(offsetRange.start);
      var q := GetPosition(offsetRange.endExclusive);
      PositionOfMonotone(offsetRange.start, offsetRange.endExclusive, p, q);
      r := Ranges.Make(p, q);
    }
  }

  /** As written, line 1 of "ab" has length 0 instead of 2. */
  lemma LineLengthAsWritten(t: PositionOffsetTransformer)
    requires t.Valid() && t.text == "ab"
    ensures t.LineCount() == 1 && t.GetLineLength(1) == 0 && |t.text| == 2
  {
    assert t.text[..1] == "a" && t.text[..1][..0] == "";
    assert TextLengths.CountNewlines("a") == 0;
    assert TextLengths.CountNewlines(t.text) == 0;
  }

  /** The end table the constructor evidently means to build: one entry per
      line, at the '\n' that ends it (at the '\r' of a "\r\n"), and |text|
      for the last line. */
  function CorrectedLineEnds(text: string): (r: seq<int>)
    ensures |r| >= 1
  {
    if |text| == 0 then [0]
    else
      var c := CorrectedLineEnds(text[..|text| - 1]);
      if text[|text| - 1] == '\n' then
        var lineEnd := if |text| >= 2 && text[|text| - 2] == '\r' then |text| - 2 else |text| - 1;
        c[..|c| - 1] + [lineEnd, |text|]
      else c[..|c| - 1] + [|text|]
  }

  /** The corrected table has one entry per line, and the last is |text|. */
  lemma {:induction false} CorrectedEndsShape(text: string)
    ensures |CorrectedLineEnds(text)| == |LineStarts(text)|
    ensures CorrectedLineEnds(text)[|CorrectedLineEnds(text)| - 1] == |text|
  {
    if |text| > 0 {
      CorrectedEndsShape(text[..|text| - 1]);
    }
  }

  /** With the corrected table no line has a negative length. */
  lemma {:induction false} CorrectedEndsAfterStarts(text: string)
    ensures var starts, ends := LineStarts(text), CorrectedLineEnds(text);
      |ends| == |starts| && forall i :: 0 <= i < |ends| ==> starts[i] <= ends[i]
  {
    CorrectedEndsShape(text);
    if |text| > 0 {
      var init := text[..|text| - 1];
      CorrectedEndsAfterStarts(init);
      CorrectedEndsShape(init);
      LineStartsShape(init);
      LineStartsShape(text);
      var s0, e0 := LineStarts(init), CorrectedLineEnds(init);
      var starts, ends := LineStarts(text), CorrectedLineEnds(text);
      if text[|text| - 1] == '\n' {
        var lineEnd := if |text| >= 2 && text[|text| - 2] == '\r' then |text| - 2 else |text| - 1;
        assert starts == s0 + [|text|];
        assert ends == e0[..|e0| - 1] + [lineEnd, |text|];
        if lineEnd == |text| - 2 {
          assert init[|init| - 1] == '\r';
          assert TextLengths.LastLineLength(init) >= 1;
        }
        forall i | 0 <= i < |ends|
          ensures starts[i] <= ends[i]
        {
          if i < |e0| - 1 {
            assert starts[i] == s0[i] && ends[i] == e0[i];
          }
        }
      } else {
        assert starts == s0;
        assert ends == e0[..|e0| - 1] + [|text|];
        forall i | 0 <= i < |ends|
          ensures starts[i] <= ends[i]
        {
          if i < |e0| - 1 {
            assert ends[i] == e0[i];
          }
        }
      }
    }
  }

  /** With the corrected table a line ends just before its '\n', or before
      the "\r\n" that ends it. */
  lemma {:induction false} CorrectedEndsAdjacent(text: string)
    ensures var starts, ends := LineStarts(text), CorrectedLineEnds(text);
      |ends| == |starts| &&
      forall i :: 0 <= i < |ends| - 1 ==>
        ends[i] + 1 == starts[i + 1] || (ends[i] + 2 == starts[i + 1] && 0 <= ends[i] < |text| && text[ends[i]] == '\r')
  {
    CorrectedEndsShape(text);
    if |text| > 0 {
      var init := text[..|text| - 1];
      CorrectedEndsAdjacent(init);
      CorrectedEndsShape(init);
      var s0, e0 := LineStarts(init), CorrectedLineEnds(init);
      var starts, ends := LineStarts(text), CorrectedLineEnds(text);
      if text[|text| - 1] == '\n' {
        var lineEnd := if |text| >= 2 && text[|text| - 2] == '\r' then |text| - 2 else |text| - 1;
        assert starts == s0 + [|text|];
        assert ends == e0[..|e0| - 1] + [lineEnd, |text|];
        forall i | 0 <= i < |ends| - 1
          ensures ends[i] + 1 == starts[i + 1] || (ends[i] + 2 == starts[i + 1] && 0 <= ends[i] < |text| && text[ends[i]] == '\r')
        {
          if i < |e0| - 1 {
            assert ends[i] == e0[i] && starts[i + 1] == s0[i + 1];
            assert 0 <= e0[i] < |init| ==> text[e0[i]] == init[e0[i]];
          }
        }
      } else {
        assert starts == s0;
        assert ends == e0[..|e0| - 1] + [|text|];
        forall i | 0 <= i < |ends| - 1
          ensures ends[i] + 1 == starts[i + 1] || (ends[i] + 2 == starts[i + 1] && 0 <= ends[i] < |text| && text[ends[i]] == '\r')
        {
          assert ends[i] == e0[i];
          assert 0 <= e0[i] < |init| ==> text[e0[i]] == init[e0[i]];
        }
      }
    }
  }

  /** With the corrected table every line has a non-negative length, and a
      line ends just before its '\n', or before the "\r\n" that ends it. */
  lemma CorrectedLineEndsFacts(text: string)
    ensures var starts, ends := LineStarts(text), CorrectedLineEnds(text);
      && |ends| == |starts|
      && ends[|ends| - 1] == |text|
      && (forall i :: 0 <= i < |ends| ==> starts[i] <= ends[i])
      && (forall i :: 0 <= i < |ends| - 1 ==>
            ends[i] + 1 == starts[i + 1] || (ends[i] + 2 == starts[i + 1] && 0 <= ends[i] < |text| && text[ends[i]] == '\r'))
  {
    CorrectedEndsShape(text);
    CorrectedEndsAfterStarts(text);
    CorrectedEndsAdjacent(text);
  }
}

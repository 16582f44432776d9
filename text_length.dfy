/** `TextLength`: a relative extent of text, counted in lines and in columns
    on the last line. */
module TextLengths {
  import opened Wrappers
  import opened Positions
  import Ranges
  import LineRanges

  datatype TextLength = TextLength(lineCount: int, columnCount: int) {

    /** `create_range`: the range of this extent when it starts at `start`. */
    function CreateRange(start: Position): (r: Ranges.Range)
      ensures r == Ranges.Make(start, AddToPosition(start))
      ensures lineCount >= 0 && columnCount >= 0 ==> r == Ranges.Range(start, AddToPosition(start))
    {
      if lineCount == 0 then
        Ranges.Make(start, Position(start.line, start.column + columnCount))
      else
        Ranges.Make(start, Position(start.line + lineCount, columnCount + 1))
    }

    /** `to_range`: the extent as a range starting at (1, 1). */
    function ToRange(): (r: Ranges.Range)
      ensures r.Valid()
      ensures lineCount >= 0 && columnCount >= 0 ==>
                r == Ranges.Range(Position(1, 1), Position(lineCount + 1, columnCount + 1))
    {
      Ranges.Make(Position(1, 1), Position(lineCount + 1, columnCount + 1))
    }

    /** `to_line_range`: lines [1, lineCount + 2); raises when lineCount < -1. */
    function ToLineRange(): (r: Result<LineRanges.LineRange>)
      ensures r.Ok? <==> lineCount >= -1
      ensures r.Ok? ==> r.value.startLine == 1 && r.value.endLineExclusive == lineCount + 2
    {
      LineRanges.OfLength(1, lineCount + 1)
    }

    /** `add_to_position`: where the extent ends when it starts at `pos`. */
    function AddToPosition(pos: Position): (r: Position)
      ensures r.line == pos.line + lineCount
      ensures lineCount == 0 ==> r.column == pos.column + columnCount
      ensures lineCount != 0 ==> r.column == columnCount + 1
    {
      if lineCount == 0 then Position(pos.line, pos.column + columnCount)
      else Position(pos.line + lineCount, columnCount + 1)
    }
  }

  /** `between_positions`: the extent from pos1 to pos2. */
  function BetweenPositions(pos1: Position, pos2: Position): (r: TextLength)
    ensures r.lineCount == pos2.line - pos1.line
    ensures pos1.line == pos2.line ==> r.columnCount == pos2.column - pos1.column
    ensures pos1.line != pos2.line ==> r.columnCount == pos2.column - 1
  {
    if pos1.line == pos2.line then TextLength(0, pos2.column - pos1.column)
    else TextLength(pos2.line - pos1.line, pos2.column - 1)
  }

  /** `of_range` */
  function OfRange(range: Ranges.Range): (r: TextLength)
    ensures r == BetweenPositions(range.start, range.end)
  {
    BetweenPositions(range.start, range.end)
  }

  /** Number of '\n' characters. */
  function CountNewlines(s: string): nat
  {
    if |s| == 0 then 0
    else CountNewlines(s[..|s| - 1]) + (if s[|s| - 1] == '\n' then 1 else 0)
  }

  /** Number of characters after the last '\n' (all of them if there is none). */
  function LastLineLength(s: string): nat
  {
    if |s| == 0 then 0
    else if s[|s| - 1] == '\n' then 0
    else LastLineLength(s[..|s| - 1]) + 1
  }

  /** The last line is a '\n'-free suffix of the text that is the whole
      text or follows a '\n'. */
  lemma {:induction false} LastLineLengthIsSuffix(s: string)
    ensures LastLineLength(s) <= |s|
    ensures forall i :: |s| - LastLineLength(s) <= i < |s| ==> s[i] != '\n'
    ensures LastLineLength(s) < |s| ==> s[|s| - LastLineLength(s) - 1] == '\n'
  {
    if |s| > 0 && s[|s| - 1] != '\n' {
      var init := s[..|s| - 1];
      LastLineLengthIsSuffix(init);
      assert forall i :: 0 <= i < |init| ==> init[i] == s[i];
    }
  }

  /** `of_text`: each '\n' starts a new line; everything else, '\r'
      included, is a column on the current line. */
  method OfText(text: string) returns (r: TextLength)
    ensures r == TextLength(CountNewlines(text), LastLineLength(text))
  {
    var line, column := 0, 0;
    for i := 0 to |text|
      invariant line == CountNewlines(text[..i])
      invariant column == LastLineLength(text[..i])
    {
      assert text[..i + 1][..i] == text[..i];
      if text[i] == '\n' {
        line := line + 1;
        column := 0;
      } else {
        column := column + 1;
      }
    }
    assert text[..|text|] == text;
    r := TextLength(line, column);
  }

  /** Round trip: the extent between p and p moved by L is L. */
  lemma BetweenAddRoundTrip(len: TextLength, p: Position)
    ensures BetweenPositions(p, len.AddToPosition(p)) == len
  {
  }

  /** Round trip: moving pos1 by the extent between pos1 and pos2 gives pos2. */
  lemma AddBetweenRoundTrip(pos1: Position, pos2: Position)
    ensures BetweenPositions(pos1, pos2).AddToPosition(pos1) == pos2
  {
  }

  /** The range of a non-negative extent measures back to the extent. */
  lemma OfRangeToRange(len: TextLength)
    requires len.lineCount >= 0 && len.columnCount >= 0
    ensures OfRange(len.ToRange()) == len
    ensures forall p :: OfRange(len.CreateRange(p)) == len
  {
  }

  /** Concatenation: the counts of a + b follow from those of a and b. */
  lemma {:induction false} CountsOfConcat(a: string, b: string)
    ensures CountNewlines(a + b) == CountNewlines(a) + CountNewlines(b)
    ensures LastLineLength(a + b) == if CountNewlines(b) == 0 then LastLineLength(a) + |b| else LastLineLength(b)
  {
    if |b| > 0 {
      var b' := b[..|b| - 1];
      assert (a + b)[..|a + b| - 1] == a + b';
      CountsOfConcat(a, b');
    } else {
      assert a + b == a;
    }
  }
}

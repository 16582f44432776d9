/** Texts that can be read by range (line based or string based), and the
    edits applied to them. */
module TextEdits {
  import opened Wrappers
  import opened Positions
  import Ranges
  import Slices
  import TextLengths
  import OffsetRanges
  import PositionToOffset
  import Asserts

  /** `AbstractText` with its two concrete kinds. A line-based text reads
      its lines through a callback; a string text keeps the string and a
      transformer built from it. */
  datatype AbstractText =
    | LineBasedText(getLineContent: int -> string, lineCount: int)
    | StringText(value: string, t: PositionToOffset.PositionOffsetTransformer)
  {
    ghost predicate Valid() {
      match this
      case LineBasedText(_, n) => n >= 1
      case StringText(v, t) => t.Valid() && t.text == v
    }

    /** `length`: the extent of the whole text. A string text measures it
        exactly as `TextLength.of_text` does. */
    function Length(): (r: TextLengths.TextLength)
      requires Valid()
      ensures LineBasedText? ==> r == TextLengths.TextLength(lineCount - 1, |getLineContent(lineCount)|)
      ensures StringText? ==>
                r == TextLengths.TextLength(TextLengths.CountNewlines(value), TextLengths.LastLineLength(value))
    {
      match this
      case LineBasedText(f, n) => TextLengths.TextLength(n - 1, |f(n)|)
      case StringText(_, t) => t.TextLength()
    }

    /** `get_value_of_range` */
    method GetValueOfRange(range: Ranges.Range) returns (r: Result<string>)
      requires Valid()
      ensures LineBasedText? ==> r == Ok(LinesValueOfRange(getLineContent, range))
      ensures StringText? ==> r == StringValueOfRange(t, value, range)
    {
      match this
      case StringText(value, t) =>
        r := StringValueOfRange(t, value, range);
      case LineBasedText(f, _) =>
        if range.start.line == range.end.line {
          return Ok(Slices.Slice(f(range.start.line), range.start.column - 1, range.end.column - 1));
        }
        var result := Slices.SliceFrom(f(range.start.line), range.start.column - 1);
        var i := range.start.line + 1;
        while i < range.end.line
          invariant range.start.line + 1 <= i && (i <= range.end.line || range.end.line < range.start.line + 1)
          invariant i > range.end.line ==> i == range.start.line + 1
          invariant result == Slices.SliceFrom(f(range.start.line), range.start.column - 1) +
                              MiddleLines(f, range.start.line + 1, i)
        {
          result := result + "\n" + f(i);
          i := i + 1;
        }
        assert MiddleLines(f, range.start.line + 1, i) == MiddleLines(f, range.start.line + 1, range.end.line);
        result := result + "\n" + Slices.SliceTo(f(range.end.line), range.end.column - 1);
        return Ok(result);
    }

    /** `get_line_length`: a line-based text measures the line itself; a
        string text uses the base definition, the length of the value of
        the range from column 1 to column MAX_SAFE_SMALL_INT of that line.
        That read never raises, and with the end table as written it is
        always empty. */
    function GetLineLength(line: int): (r: int)
      requires Valid()
      ensures LineBasedText? ==> r == |getLineContent(line)|
      ensures StringText? ==> StringValueOfRange(t, value, LineRange(line)) == Ok("") && r == 0
    {
      match this
      case LineBasedText(f, _) => |f(line)|
      case StringText(value, t) =>
        StringLineRangeAsWritten(t, value, line);
        var v := StringValueOfRange(t, value, LineRange(line));
        if v.Ok? then |v.value| else assert false; 0
    }
  }

  /** The range the base `get_line_length` reads. */
  function LineRange(line: int): Ranges.Range
  {
    Ranges.Make(Position(line, 1), Position(line, MaxSafeSmallInt))
  }

  /** The lines strictly between two lines, each preceded by "\n". */
  function MiddleLines(f: int -> string, lo: int, hi: int): string
    decreases hi - lo
  {
    if hi <= lo then "" else MiddleLines(f, lo, hi - 1) + "\n" + f(hi - 1)
  }

  /** What `LineBasedText.get_value_of_range` reads: within one line, the
      slice from start column - 1 to end column - 1; across lines, the tail
      of the first line, the middle lines and the head of the last line,
      joined by "\n". */
  function LinesValueOfRange(f: int -> string, range: Ranges.Range): string
  {
    if range.start.line == range.end.line then
      Slices.Slice(f(range.start.line), range.start.column - 1, range.end.column - 1)
    else
      Slices.SliceFrom(f(range.start.line), range.start.column - 1) +
      MiddleLines(f, range.start.line + 1, range.end.line) + "\n" +
      Slices.SliceTo(f(range.end.line), range.end.column - 1)
  }

  /** What `StringText.get_value_of_range` reads: the substring over the
      transformer's offset range, raising where that range raises. */
  function StringValueOfRange(t: PositionToOffset.PositionOffsetTransformer, value: string, range: Ranges.Range)
    : (r: Result<string>)
    requires t.Valid() && t.text == value
    ensures r.Ok? <==> t.GetOffsetRange(range).Ok?
    ensures r.Ok? ==> r.value == value[t.GetOffset(range.start)..t.GetOffset(range.end)]
  {
    match t.GetOffsetRange(range)
    case Err(e) => Err(e)
    case Ok(o) => Ok(o.Substring(value))
  }

  /** The `LineBasedText` constructor asserts that there is at least one line. */
  function MakeLineBasedText(getLineContent: int -> string, lineCount: int): (r: Result<AbstractText>)
    ensures r.Ok? <==> lineCount >= 1
    ensures r.Ok? ==> r.value.Valid() && r.value == LineBasedText(getLineContent, lineCount)
    ensures r.Err? ==> r.error == AssertionError
  {
    if lineCount >= 1 then Ok(LineBasedText(getLineContent, lineCount)) else Err(AssertionError)
  }

  /** Line n of a `ListText`: `lines[n - 1]`, with Python's wrap-around for
      n - 1 < 0. Lines no index reaches read as "" here. */
  function ListLine(lines: seq<string>, n: int): (r: string)
    ensures 1 <= n <= |lines| ==> r == lines[n - 1]
  {
    if 1 <= n <= |lines| then lines[n - 1]
    else if -|lines| < n <= 0 then lines[|lines| + n - 1]
    else ""
  }

  /** `ListText`: a line-based text over a list of lines. */
  function ListText(lines: seq<string>): (r: Result<AbstractText>)
    ensures r.Ok? <==> |lines| >= 1
    ensures r.Ok? ==> r.value.LineBasedText? && r.value.lineCount == |lines| &&
                      forall n :: 1 <= n <= |lines| ==> r.value.getLineContent(n) == lines[n - 1]
  {
    MakeLineBasedText(n => ListLine(lines, n), |lines|)
  }

  /** The `StringText` constructor builds the transformer for the value. */
  method MakeStringText(value: string) returns (r: AbstractText)
    ensures r.Valid() && r.StringText? && r.value == value
    ensures fresh(r.t)
  {
    var t := new PositionToOffset.PositionOffsetTransformer(value);
    r := StringText(value, t);
  }

  /** The lines joined by "\n". */
  function JoinLines(lines: seq<string>): string
    requires |lines| >= 1
  {
    if |lines| == 1 then lines[0] else JoinLines(lines[..|lines| - 1]) + "\n" + lines[|lines| - 1]
  }

  lemma {:induction false} MiddleLinesOfList(lines: seq<string>, k: int)
    requires 1 <= k <= |lines|
    ensures lines[0] + MiddleLines(n => ListLine(lines, n), 2, k + 1) == JoinLines(lines[..k])
    decreases k
  {
    var f := n => ListLine(lines, n);
    if k == 1 {
      assert lines[..1] == [lines[0]];
    } else {
      MiddleLinesOfList(lines, k - 1);
      assert lines[..k][..k - 1] == lines[..k - 1];
      assert f(k) == lines[k - 1];
    }
  }

  /** From (1, 1) to the end of the last line, a `ListText` reads all its
      lines joined by "\n". */
  lemma WholeListText(lines: seq<string>)
    requires |lines| >= 1
    ensures var last := lines[|lines| - 1];
      LinesValueOfRange(n => ListLine(lines, n),
                        Ranges.Range(Position(1, 1), Position(|lines|, |last| + 1))) == JoinLines(lines)
  {
    MiddleLinesOfList(lines, |lines|);
    assert lines[..|lines|] == lines;
  }

  /** A line-based text's own `get_line_length` agrees with the base
      definition for every line shorter than MAX_SAFE_SMALL_INT. */
  lemma LineLengthMatchesBase(f: int -> string, line: int)
    requires |f(line)| < MaxSafeSmallInt
    ensures |LinesValueOfRange(f, LineRange(line))| == |f(line)|
  {
  }

  /** As written, both ends of a line's full range land on the same offset
      of a string text, so the base `get_line_length` reads "" for every
      line. */
  lemma StringLineRangeAsWritten(t: PositionToOffset.PositionOffsetTransformer, value: string, line: int)
    requires t.Valid() && t.text == value
    ensures StringValueOfRange(t, value, LineRange(line)) == Ok("")
  {
    var range := LineRange(line);
    assert range == Ranges.Range(Position(line, 1), Position(line, MaxSafeSmallInt));
    assert t.GetOffset(range.start) == t.GetOffset(range.end);
  }

  /** Without '\n' inside the lines, a `ListText` has the length of its
      joined text, as `TextLength.of_text` counts it. */
  lemma {:induction false} ListTextLengthIsJoinedLength(lines: seq<string>)
    requires |lines| >= 1
    requires forall i, k :: 0 <= i < |lines| && 0 <= k < |lines[i]| ==> lines[i][k] != '\n'
    ensures ListText(lines).value.Length() ==
              TextLengths.TextLength(TextLengths.CountNewlines(JoinLines(lines)),
                                     TextLengths.LastLineLength(JoinLines(lines)))
  {
    var n := |lines|;
    NoNewline(lines[n - 1]);
    if n > 1 {
      var init := lines[..n - 1];
      ListTextLengthIsJoinedLength(init);
      assert ListText(init).value.Length().lineCount == n - 2;
      TextLengths.CountsOfConcat(JoinLines(init), "\n");
      TextLengths.CountsOfConcat(JoinLines(init) + "\n", lines[n - 1]);
      assert "\n"[..0] == "";
    } else {
      assert JoinLines(lines) == lines[0];
    }
  }

  lemma {:induction false} NoNewline(s: string)
    requires forall k :: 0 <= k < |s| ==> s[k] != '\n'
    ensures TextLengths.CountNewlines(s) == 0 && TextLengths.LastLineLength(s) == |s|
  {
    if |s| > 0 {
      NoNewline(s[..|s| - 1]);
    }
  }

  /** `SingleTextEdit`: replaces `range` by `text`. */
  datatype SingleTextEdit = SingleTextEdit(range: Ranges.Range, text: string) {
    /** `is_empty`: replaces nothing by nothing. */
    predicate IsEmpty() {
      range.IsEmpty() && |text| == 0
    }
  }

  /** A text edit is empty exactly when its text is empty and its range
      starts where it ends. */
  lemma SingleTextEditEmptyIff(e: SingleTextEdit)
    ensures e.IsEmpty() <==> e.text == "" && e.range.start == e.range.end
  {
  }

  datatype TextEdit = TextEdit(edits: seq<SingleTextEdit>)

  /** Each edit ends at or before the next one starts. */
  ghost predicate EditsOrdered(edits: seq<SingleTextEdit>) {
    forall i :: 0 <= i < |edits| - 1 ==> LessEq(edits[i].range.end, edits[i + 1].range.start)
  }

  /** The `TextEdit` constructor asserts the ordering through
      `check_adjacent_items` and keeps the edits as given. */
  method MakeTextEdit(edits: seq<SingleTextEdit>) returns (r: Result<TextEdit>)
    ensures r.Ok? <==> EditsOrdered(edits)
    ensures r.Ok? ==> r.value.edits == edits
    ensures r.Err? ==> r.error == AssertionError
  {
    var ok := Asserts.CheckAdjacentItems(edits, (a: SingleTextEdit, b: SingleTextEdit) => LessEq(a.range.end, b.range.start));
    if !ok {
      return Err(AssertionError);
    }
    return Ok(TextEdit(edits));
  }

  /** In an accepted edit list of normalised ranges, every edit ends at or
      before every later edit starts. */
  lemma {:induction false} EditsOrderedTransitive(edits: seq<SingleTextEdit>, i: int, j: int)
    requires EditsOrdered(edits)
    requires forall k :: 0 <= k < |edits| ==> edits[k].range.Valid()
    requires 0 <= i < j < |edits|
    ensures LessEq(edits[i].range.end, edits[j].range.start)
    decreases j - i
  {
    if i + 1 < j {
      EditsOrderedTransitive(edits, i + 1, j);
      LessEqTransitive(edits[i].range.end, edits[i + 1].range.start, edits[i + 1].range.end);
      LessEqTransitive(edits[i].range.end, edits[i + 1].range.end, edits[j].range.start);
    }
  }
}

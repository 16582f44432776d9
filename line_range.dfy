/** `LineRange`: the half-open interval [startLine, endLineExclusive) over
    1-based line numbers, and `LineRangeSet`, a sorted list of line ranges
    that neither overlap nor touch. */
module LineRanges {
  import opened Wrappers
  import opened Ints
  import Positions
  import Ranges
  import OffsetRanges
  import ListsFind

  datatype LineRange = LineRange(startLine: int, endLineExclusive: int) {

    predicate Valid() {
      startLine <= endLineExclusive
    }

    /** `__len__` */
    function Len(): (n: int)
      ensures Valid() ==> n >= 0
      ensures n == 0 <==> IsEmpty()
    {
      endLineExclusive - startLine
    }

    predicate IsEmpty() {
      startLine == endLineExclusive
    }

    predicate Contains(line: int) {
      startLine <= line < endLineExclusive
    }

    /** `delta`: both ends move, the length is kept. */
    function Delta(offset: int): (r: LineRange)
      requires Valid()
      ensures r.Valid() && r.Len() == Len()
      ensures forall l :: Contains(l) <==> r.Contains(l + offset)
    {
      LineRange(startLine + offset, endLineExclusive + offset)
    }

    /** `join`: [min of the starts, max of the ends). */
    function Join(other: LineRange): (r: LineRange)
      requires Valid() && other.Valid()
      ensures r.Valid()
      ensures r.startLine == Min(startLine, other.startLine)
      ensures r.endLineExclusive == Max(endLineExclusive, other.endLineExclusive)
      ensures forall l :: Contains(l) || other.Contains(l) ==> r.Contains(l)
    {
      LineRange(Min(startLine, other.startLine), Max(endLineExclusive, other.endLineExclusive))
    }

    /** `intersect` as written: the lower bound is `other.endLineExclusive`
        (not `other.startLine`), so a range is returned only when
        startLine <= other.endLineExclusive <= endLineExclusive, and that
        range is always empty. */
    function Intersect(other: LineRange): (r: Option<LineRange>)
      requires Valid() && other.Valid()
      ensures r.Some? <==> startLine <= other.endLineExclusive <= endLineExclusive
      ensures r.Some? ==> r.value.Valid() && r.value.IsEmpty()
      ensures r.Some? ==> r.value.startLine == other.endLineExclusive
    {
      var s := Max(startLine, other.endLineExclusive);
      var e := Min(endLineExclusive, other.endLineExclusive);
      if s <= e then Some(LineRange(s, e)) else None
    }

    /** The intersection the surrounding code expects: the common lines of
        both ranges, `None` when they neither overlap nor touch. */
    function IntersectLines(other: LineRange): (r: Option<LineRange>)
      requires Valid() && other.Valid()
      ensures r.Some? <==> OverlapOrTouch(other)
      ensures r.Some? ==> r.value.Valid()
      ensures r.Some? ==> forall l :: r.value.Contains(l) <==> Contains(l) && other.Contains(l)
    {
      var s := Max(startLine, other.startLine);
      var e := Min(endLineExclusive, other.endLineExclusive);
      if s <= e then Some(LineRange(s, e)) else None
    }

    /** `overlap_or_touch` */
    predicate OverlapOrTouch(other: LineRange) {
      startLine <= other.endLineExclusive && other.startLine <= endLineExclusive
    }

    /** `to_inclusive_range`: None for an empty range, otherwise from column 1
        of the first line to MAX_SAFE_SMALL_INT on the last line. */
    function ToInclusiveRange(): (r: Option<Ranges.Range>)
      requires Valid()
      ensures r.None? <==> IsEmpty()
      ensures r.Some? ==> r.value.Valid()
      ensures r.Some? ==> r.value.start == Positions.Position(startLine, 1)
      ensures r.Some? ==> r.value.end == Positions.Position(endLineExclusive - 1, MaxSafeSmallInt)
    {
      if IsEmpty() then None
      else Some(Ranges.Make(Positions.Position(startLine, 1), Positions.Position(endLineExclusive - 1, MaxSafeSmallInt)))
    }

    /** `to_offset_range`: both ends shifted down by one (line 1 is offset 0). */
    function ToOffsetRange(): (r: OffsetRanges.OffsetRange)
      requires Valid()
      ensures r.Valid() && r.Len() == Len()
      ensures forall l :: Contains(l) <==> r.Contains(l - 1)
    {
      OffsetRanges.OffsetRange(startLine - 1, endLineExclusive - 1)
    }
  }

  /** The constructor: raises ValueError iff startLine > endLineExclusive. */
  function Make(startLine: int, endLineExclusive: int): (r: Result<LineRange>)
    ensures r.Ok? <==> startLine <= endLineExclusive
    ensures r.Ok? ==> r.value.Valid() && r.value == LineRange(startLine, endLineExclusive)
  {
    if startLine > endLineExclusive then Err(ValueError) else Ok(LineRange(startLine, endLineExclusive))
  }

  /** `of_length`: [start, start + length); raises on a negative length. */
  function OfLength(startLine: int, length: int): (r: Result<LineRange>)
    ensures r.Ok? <==> length >= 0
    ensures r.Ok? ==> r.value.startLine == startLine && r.value.Len() == length
  {
    Make(startLine, startLine + length)
  }

  /** `from_range_inclusive`: the lines from the start line to the end line,
      both included; a normalised range never makes it raise. */
  function FromRangeInclusive(range: Ranges.Range): (r: Result<LineRange>)
    ensures r.Ok? <==> range.start.line <= range.end.line + 1
    ensures range.Valid() ==> r.Ok?
    ensures r.Ok? ==> forall l :: r.value.Contains(l) <==> range.start.line <= l <= range.end.line
  {
    Make(range.start.line, range.end.line + 1)
  }

  /** The specification of `join_many`: `join` folded over the list. */
  function JoinAll(rs: seq<LineRange>): LineRange
    requires |rs| > 0
    requires forall i :: 0 <= i < |rs| ==> rs[i].Valid()
  {
    if |rs| == 1 then rs[0] else JoinAll(rs[..|rs| - 1]).Join(rs[|rs| - 1])
  }

  /** The fold starts at the smallest start and ends at the largest end. */
  lemma {:induction false} JoinAllBounds(rs: seq<LineRange>)
    requires |rs| > 0
    requires forall i :: 0 <= i < |rs| ==> rs[i].Valid()
    ensures JoinAll(rs).Valid()
    ensures forall i :: 0 <= i < |rs| ==> JoinAll(rs).startLine <= rs[i].startLine
    ensures forall i :: 0 <= i < |rs| ==> rs[i].endLineExclusive <= JoinAll(rs).endLineExclusive
    ensures exists i :: 0 <= i < |rs| && JoinAll(rs).startLine == rs[i].startLine
    ensures exists i :: 0 <= i < |rs| && JoinAll(rs).endLineExclusive == rs[i].endLineExclusive
  {
    if |rs| > 1 {
      var init := rs[..|rs| - 1];
      JoinAllBounds(init);
      var js :| 0 <= js < |init| && JoinAll(init).startLine == init[js].startLine;
      var je :| 0 <= je < |init| && JoinAll(init).endLineExclusive == init[je].endLineExclusive;
      assert forall i :: 0 <= i < |init| ==> init[i] == rs[i];
      if JoinAll(rs).startLine == rs[|rs| - 1].startLine {
      } else {
        assert JoinAll(rs).startLine == rs[js].startLine;
      }
      if JoinAll(rs).endLineExclusive == rs[|rs| - 1].endLineExclusive {
      } else {
        assert JoinAll(rs).endLineExclusive == rs[je].endLineExclusive;
      }
    }
  }

  /** `join_many`: raises on an empty list, otherwise folds min/max over
      the starts and ends. */
  method JoinMany(lineRanges: seq<LineRange>) returns (r: Result<LineRange>)
    requires forall i :: 0 <= i < |lineRanges| ==> lineRanges[i].Valid()
    ensures r.Err? <==> |lineRanges| == 0
    ensures r.Ok? ==> r.value == JoinAll(lineRanges)
  {
    if |lineRanges| == 0 {
      return Err(ValueError);
    }
    var startLine := lineRanges[0].startLine;
    var endLineExclusive := lineRanges[0].endLineExclusive;
    for i := 1 to |lineRanges|
      invariant LineRange(startLine, endLineExclusive) == JoinAll(lineRanges[..i])
    {
      assert lineRanges[..i + 1][..i] == lineRanges[..i];
      startLine := Min(startLine, lineRanges[i].startLine);
      endLineExclusive := Max(endLineExclusive, lineRanges[i].endLineExclusive);
    }
    assert lineRanges[..|lineRanges|] == lineRanges;
    JoinAllBounds(lineRanges);
    r := Make(startLine, endLineExclusive);
  }

  /** `overlap_or_touch` is symmetric, and it holds exactly when the join
      covers no line that lies in neither range. */
  lemma OverlapOrTouchSymmetric(a: LineRange, b: LineRange)
    requires a.Valid() && b.Valid()
    ensures a.OverlapOrTouch(b) <==> b.OverlapOrTouch(a)
    ensures a.OverlapOrTouch(b) <==>
              forall l :: a.Join(b).Contains(l) ==> a.Contains(l) || b.Contains(l)
  {
    if !a.OverlapOrTouch(b) {
      var gap := if a.endLineExclusive < b.startLine then a.endLineExclusive else b.endLineExclusive;
      assert a.Join(b).Contains(gap) && !a.Contains(gap) && !b.Contains(gap);
    }
  }

  /** A valid line range is empty exactly when it contains no line. */
  lemma {:induction false} EmptyIffNoLines(r: LineRange)
    requires r.Valid()
    ensures r.IsEmpty() <==> forall l :: !r.Contains(l)
  {
    if !r.IsEmpty() {
      assert r.Contains(r.startLine);
    }
  }

  /** As written, `intersect` never returns a non-empty range, even for
      ranges that share lines: [1, 5) and [2, 4) give the empty [4, 4). */
  lemma IntersectAsWrittenLosesLines()
    ensures LineRange(1, 5).Intersect(LineRange(2, 4)) == Some(LineRange(4, 4))
    ensures LineRange(1, 5).IntersectLines(LineRange(2, 4)) == Some(LineRange(2, 4))
  {
  }

  // ---------------------------------------------------------------------
  // LineRangeSet

  /** Some range of the list holds the line. */
  ghost predicate Covers(rs: seq<LineRange>, line: int) {
    exists i :: 0 <= i < |rs| && rs[i].Contains(line)
  }

  /** Sorted, and neither overlapping nor touching: each range ends strictly
      before the next one starts. */
  ghost predicate Separated(rs: seq<LineRange>) {
    (forall i :: 0 <= i < |rs| ==> rs[i].Valid()) &&
    (forall i, j :: 0 <= i < j < |rs| ==> rs[i].endLineExclusive < rs[j].startLine)
  }

  /** The invariant of a LineRangeSet: separated, and no range is empty. */
  ghost predicate Normalized(rs: seq<LineRange>) {
    Separated(rs) && forall i :: 0 <= i < |rs| ==> !rs[i].IsEmpty()
  }

  /** What `subtract_from`'s loop keeps after visiting rs[lo..i]: the gaps
      found so far cover exactly the lines of the range below `startLine`
      that no stored range holds, and `startLine` is past every visited
      range. */
  ghost predicate SubtractInv(rs: seq<LineRange>, range: LineRange, lo: int, i: int,
                              result: seq<LineRange>, startLine: int)
  {
    0 <= lo <= i <= |rs| &&
    startLine >= range.startLine &&
    (i == lo ==> startLine == range.startLine) &&
    (i > lo ==> startLine == rs[i - 1].endLineExclusive) &&
    (forall k :: 0 <= k < i ==> rs[k].endLineExclusive <= startLine) &&
    Normalized(result) &&
    (forall j :: 0 <= j < |result| ==> result[j].endLineExclusive < startLine) &&
    (forall line :: Covers(result, line) <==> range.startLine <= line < startLine && !Covers(rs, line)) &&
    (range.IsEmpty() ==> result == [])
  }

  /** One step of `subtract_from`'s loop: the gap before rs[i], if any, is
      appended and `startLine` moves to the end of rs[i]. */
  lemma SubtractStep(rs: seq<LineRange>, range: LineRange, lo: int, hi: int, i: int,
                     result: seq<LineRange>, startLine: int)
    requires Normalized(rs) && range.Valid() && SearchBounds(rs, range, lo, hi) && lo <= i < hi
    requires SubtractInv(rs, range, lo, i, result, startLine)
    ensures var r := rs[i];
      SubtractInv(rs, range, lo, i + 1,
                  if r.startLine > startLine then result + [LineRange(startLine, r.startLine)] else result,
                  r.endLineExclusive)
  {
    var r := rs[i];
    forall line | startLine <= line < r.startLine
      ensures !Covers(rs, line)
    {
      NoneCovers(rs, i, line);
    }
    var next := result;
    if r.startLine > startLine {
      var gap := LineRange(startLine, r.startLine);
      NormalizedAppend(result, gap);
      CoversAppend(result, gap);
      next := result + [gap];
    }
    if i == lo {
      assert rs[i].endLineExclusive >= range.startLine;
    } else {
      assert rs[i - 1].endLineExclusive < rs[i].startLine;
    }
    assert startLine <= r.endLineExclusive && r.startLine < r.endLineExclusive;
    assert forall line :: r.Contains(line) ==> Covers(rs, line);
    forall k | 0 <= k < i
      ensures rs[k].endLineExclusive <= r.endLineExclusive
    {
      assert rs[k].endLineExclusive < rs[i].startLine;
    }
  }

  /** `subtract_from` when no stored range overlaps or touches the range:
      the range itself is the answer. */
  lemma SubtractUntouched(rs: seq<LineRange>, range: LineRange, lo: int)
    requires Normalized(rs) && range.Valid() && SearchBounds(rs, range, lo, lo)
    ensures forall line :: Covers([range], line) <==> range.Contains(line) && !Covers(rs, line)
    ensures forall k :: 0 <= k < |rs| ==> !rs[k].OverlapOrTouch(range)
    ensures !range.IsEmpty() ==> Normalized([range])
  {
    forall line | range.Contains(line)
      ensures !Covers(rs, line)
    {
      NoneCovers(rs, lo, line);
    }
    CoversAppend([], range);
  }

  /** The end of `subtract_from`: after the loop, the lines from the end of
      the last touching range to the end of the range are added, if any. */
  lemma SubtractFinish(rs: seq<LineRange>, range: LineRange, lo: int, hi: int,
                       result: seq<LineRange>, startLine: int)
    requires Normalized(rs) && range.Valid() && SearchBounds(rs, range, lo, hi) && lo < hi
    requires SubtractInv(rs, range, lo, hi, result, startLine)
    ensures var final := if startLine < range.endLineExclusive
                         then result + [LineRange(startLine, range.endLineExclusive)] else result;
      && (forall line :: Covers(final, line) <==> range.Contains(line) && !Covers(rs, line))
      && Normalized(final)
      && (range.IsEmpty() ==> final == [] && rs[lo].OverlapOrTouch(range))
  {
    var b := range.endLineExclusive;
    if startLine < b {
      var tail := LineRange(startLine, b);
      forall line | tail.Contains(line)
        ensures !Covers(rs, line)
      {
        NoneCovers(rs, hi, line);
      }
      NormalizedAppend(result, tail);
      CoversAppend(result, tail);
    } else {
      var last := rs[hi - 1];
      forall line | b <= line < startLine
        ensures Covers(rs, line)
      {
        assert last.Contains(line);
      }
    }
  }

  /** In a separated list the ranges that start at or before a line form a
      prefix. */
  lemma SeparatedStartsMonotone(rs: seq<LineRange>, startsAtOrBefore: LineRange -> bool, line: int)
    requires Separated(rs)
    requires forall r :: startsAtOrBefore(r) == (r.startLine <= line)
    ensures ListsFind.TrueThenFalse(rs, startsAtOrBefore, 0, |rs|)
  {
    forall i, j | 0 <= i < j < |rs| && startsAtOrBefore(rs[j])
      ensures startsAtOrBefore(rs[i])
    {
      assert rs[i].endLineExclusive < rs[j].startLine;
    }
  }

  /** In a separated list only the last range starting at or before a line
      can hold it. */
  lemma SeparatedOnlyCandidate(rs: seq<LineRange>, i: int, line: int)
    requires Separated(rs) && 0 <= i < |rs| && rs[i].startLine <= line
    requires i + 1 == |rs| || rs[i + 1].startLine > line
    ensures Covers(rs, line) <==> rs[i].Contains(line)
  {
    forall k | 0 <= k < |rs| && k != i
      ensures !rs[k].Contains(line)
    {
      if k < i {
        assert rs[k].endLineExclusive < rs[i].startLine;
      } else {
        assert rs[i + 1].startLine <= rs[k].startLine;
      }
    }
  }

  lemma CoversAppend(rs: seq<LineRange>, r: LineRange)
    ensures forall line :: Covers(rs + [r], line) <==> Covers(rs, line) || r.Contains(line)
  {
    var s := rs + [r];
    forall line
      ensures Covers(s, line) <==> Covers(rs, line) || r.Contains(line)
    {
      if Covers(rs, line) {
        var i :| 0 <= i < |rs| && rs[i].Contains(line);
        assert s[i] == rs[i];
      }
      if r.Contains(line) {
        assert s[|rs|] == r;
      }
      if Covers(s, line) {
        var i :| 0 <= i < |s| && s[i].Contains(line);
        if i < |rs| {
          assert s[i] == rs[i];
        }
      }
    }
  }

  lemma NormalizedAppend(rs: seq<LineRange>, r: LineRange)
    requires Normalized(rs) && r.Valid() && !r.IsEmpty()
    requires forall j :: 0 <= j < |rs| ==> rs[j].endLineExclusive < r.startLine
    ensures Normalized(rs + [r])
  {
    var s := rs + [r];
    assert forall j :: 0 <= j < |rs| ==> s[j] == rs[j];
  }

  lemma CoversSplit(rs: seq<LineRange>, lo: int, hi: int, line: int)
    requires 0 <= lo <= hi <= |rs|
    ensures Covers(rs, line) <==> Covers(rs[..lo], line) || Covers(rs[lo..hi], line) || Covers(rs[hi..], line)
  {
    if Covers(rs, line) {
      var i :| 0 <= i < |rs| && rs[i].Contains(line);
      if i < lo {
        assert rs[..lo][i] == rs[i];
      } else if i < hi {
        assert rs[lo..hi][i - lo] == rs[i];
      } else {
        assert rs[hi..][i - hi] == rs[i];
      }
    }
    if Covers(rs[..lo], line) {
      var i :| 0 <= i < lo && rs[..lo][i].Contains(line);
      assert rs[i] == rs[..lo][i];
    }
    if Covers(rs[lo..hi], line) {
      var i :| 0 <= i < hi - lo && rs[lo..hi][i].Contains(line);
      assert rs[lo + i] == rs[lo..hi][i];
    }
    if Covers(rs[hi..], line) {
      var i :| 0 <= i < |rs| - hi && rs[hi..][i].Contains(line);
      assert rs[hi + i] == rs[hi..][i];
    }
  }

  /** Replacing rs[lo..hi] by one range that fits strictly between its
      neighbours keeps the list normalised. */
  lemma SpliceNormalized(rs: seq<LineRange>, lo: int, hi: int, r: LineRange)
    requires Normalized(rs) && 0 <= lo <= hi <= |rs|
    requires r.Valid() && !r.IsEmpty()
    requires lo > 0 ==> rs[lo - 1].endLineExclusive < r.startLine
    requires hi < |rs| ==> r.endLineExclusive < rs[hi].startLine
    ensures Normalized(rs[..lo] + [r] + rs[hi..])
  {
    var s := rs[..lo] + [r] + rs[hi..];
    forall k | 0 <= k < |s|
      ensures s[k] == if k < lo then rs[k] else if k == lo then r else rs[k - lo - 1 + hi]
    {
    }
    forall i, j | 0 <= i < j < |s|
      ensures s[i].endLineExclusive < s[j].startLine
    {
      if j == lo {
        assert rs[i].endLineExclusive <= rs[lo - 1].endLineExclusive;
      } else if i == lo {
        assert rs[hi].startLine <= rs[j - lo - 1 + hi].startLine;
      }
    }
  }

  /** The lines of a splice: those of the kept prefix, the new range and the
      kept suffix. */
  lemma SpliceCovers(rs: seq<LineRange>, lo: int, hi: int, r: LineRange)
    requires 0 <= lo <= hi <= |rs|
    ensures forall line :: Covers(rs[..lo] + [r] + rs[hi..], line) <==>
                             Covers(rs[..lo], line) || r.Contains(line) || Covers(rs[hi..], line)
  {
    var s := rs[..lo] + [r] + rs[hi..];
    forall line
      ensures Covers(s, line) <==> Covers(rs[..lo], line) || r.Contains(line) || Covers(rs[hi..], line)
    {
      if Covers(s, line) {
        var k :| 0 <= k < |s| && s[k].Contains(line);
        if k < lo {
          assert rs[..lo][k] == s[k];
        } else if k > lo {
          assert rs[hi..][k - lo - 1] == s[k];
        }
      }
      if Covers(rs[..lo], line) {
        var k :| 0 <= k < lo && rs[..lo][k].Contains(line);
        assert s[k] == rs[..lo][k];
      }
      if r.Contains(line) {
        assert s[lo] == r;
      }
      if Covers(rs[hi..], line) {
        var k :| 0 <= k < |rs| - hi && rs[hi..][k].Contains(line);
        assert s[lo + 1 + k] == rs[hi..][k];
      }
    }
  }

  /** When `r` spans from min(rs[lo].start, a) to max(rs[hi-1].end, b) and the
      new range [a, b) overlaps or touches every one of rs[lo..hi], `r` holds
      exactly the lines of rs[lo..hi] and of [a, b). */
  lemma MergedCovers(rs: seq<LineRange>, lo: int, hi: int, range: LineRange, r: LineRange)
    requires Normalized(rs) && 0 <= lo < hi <= |rs| && range.Valid()
    requires forall k :: lo <= k < hi ==> rs[k].endLineExclusive >= range.startLine
    requires forall k :: lo <= k < hi ==> rs[k].startLine <= range.endLineExclusive
    requires r.startLine == Min(rs[lo].startLine, range.startLine)
    requires r.endLineExclusive == Max(rs[hi - 1].endLineExclusive, range.endLineExclusive)
    ensures forall line :: r.Contains(line) <==> Covers(rs[lo..hi], line) || range.Contains(line)
  {
    forall line
      ensures r.Contains(line) <==> Covers(rs[lo..hi], line) || range.Contains(line)
    {
      if Covers(rs[lo..hi], line) {
        var i :| 0 <= i < hi - lo && rs[lo..hi][i].Contains(line);
        assert rs[lo..hi][i] == rs[lo + i];
        assert rs[lo].startLine <= rs[lo + i].startLine;
        assert rs[lo + i].endLineExclusive <= rs[hi - 1].endLineExclusive;
      }
      if r.Contains(line) && !range.Contains(line) {
        if line < range.startLine {
          assert rs[lo].Contains(line);
          assert rs[lo..hi][0] == rs[lo];
        } else {
          assert rs[lo].endLineExclusive <= rs[hi - 1].endLineExclusive;
          assert rs[hi - 1].Contains(line);
          assert rs[lo..hi][hi - 1 - lo] == rs[hi - 1];
        }
      }
    }
  }

  /** A line at or after the end of every range before `lo`, and before the
      start of every range from `hi` on, lies in no range outside rs[lo..hi]. */
  lemma OutsideCovers(rs: seq<LineRange>, lo: int, hi: int, line: int)
    requires 0 <= lo <= hi <= |rs|
    requires forall k :: 0 <= k < lo ==> rs[k].endLineExclusive <= line
    requires forall k :: hi <= k < |rs| ==> line < rs[k].startLine
    ensures !Covers(rs[..lo], line) && !Covers(rs[hi..], line)
  {
    forall i | 0 <= i < lo
      ensures !rs[..lo][i].Contains(line)
    {
      assert rs[..lo][i] == rs[i];
    }
    forall i | 0 <= i < |rs| - hi
      ensures !rs[hi..][i].Contains(line)
    {
      assert rs[hi..][i] == rs[hi + i];
    }
  }

  /** What the two binary searches of `add_range` and `subtract_from` find
      for the range [a, b): ranges before `lo` end before a, ranges from `hi`
      on start after b. */
  ghost predicate SearchBounds(rs: seq<LineRange>, range: LineRange, lo: int, hi: int) {
    0 <= lo <= hi <= |rs| &&
    (forall k :: 0 <= k < lo ==> rs[k].endLineExclusive < range.startLine) &&
    (forall k :: lo <= k < |rs| ==> rs[k].endLineExclusive >= range.startLine) &&
    (forall k :: 0 <= k < hi ==> rs[k].startLine <= range.endLineExclusive) &&
    (forall k :: hi <= k < |rs| ==> rs[k].startLine > range.endLineExclusive)
  }

  /** Runs both searches and proves that the first index never passes the
      second one. */
  method SearchTouching(rs: seq<LineRange>, range: LineRange) returns (lo: int, hi: int)
    requires Normalized(rs) && range.Valid()
    ensures SearchBounds(rs, range, lo, hi)
  {
    var a, b := range.startLine, range.endLineExclusive;
    var endsAtOrAfter := (r: LineRange) => r.endLineExclusive >= a;
    var startsAtOrBefore := (r: LineRange) => r.startLine <= b;
    assert ListsFind.FalseThenTrue(rs, endsAtOrAfter, 0, |rs|) by {
      forall i, j | 0 <= i < j < |rs| && endsAtOrAfter(rs[i])
        ensures endsAtOrAfter(rs[j])
      {
        assert rs[i].endLineExclusive < rs[j].startLine;
      }
    }
    assert ListsFind.TrueThenFalse(rs, startsAtOrBefore, 0, |rs|) by {
      forall i, j | 0 <= i < j < |rs| && startsAtOrBefore(rs[j])
        ensures startsAtOrBefore(rs[i])
      {
        assert rs[i].endLineExclusive < rs[j].startLine;
      }
    }
    lo := ListsFind.FindFirstIdxMonotonousOrLstLen(rs, endsAtOrAfter, 0, |rs|);
    var lastIdx := ListsFind.FindLastIdxMonotonous(rs, startsAtOrBefore, 0, |rs|);
    hi := lastIdx + 1;
    assert forall k :: 0 <= k < lo ==> rs[k].endLineExclusive < a;
    assert forall k :: lo <= k < |rs| ==> rs[k].endLineExclusive >= a;
    assert forall k :: 0 <= k < hi ==> rs[k].startLine <= b;
    assert forall k :: hi <= k < |rs| ==> rs[k].startLine > b;
    assert hi < |rs| ==> rs[hi].endLineExclusive >= a;
  }

  /** The three branches of `add_range` are one splice: rs[lo..hi] is
      replaced by `joined`, which is the new range itself when lo == hi and
      otherwise spans from the first replaced range to the last. */
  lemma AddRangeSplice(rs: seq<LineRange>, range: LineRange, lo: int, hi: int, joined: LineRange)
    requires Normalized(rs) && range.Valid() && !range.IsEmpty()
    requires SearchBounds(rs, range, lo, hi)
    requires lo == hi ==> joined == range
    requires lo < hi ==> joined.startLine == Min(rs[lo].startLine, range.startLine)
    requires lo < hi ==> joined.endLineExclusive == Max(rs[hi - 1].endLineExclusive, range.endLineExclusive)
    ensures Normalized(rs[..lo] + [joined] + rs[hi..])
    ensures forall line :: Covers(rs[..lo] + [joined] + rs[hi..], line) <==> Covers(rs, line) || range.Contains(line)
  {
    SpliceNormalized(rs, lo, hi, joined);
    SpliceCovers(rs, lo, hi, joined);
    if lo < hi {
      MergedCovers(rs, lo, hi, range, joined);
    }
    forall line
      ensures Covers(rs, line) <==> Covers(rs[..lo], line) || Covers(rs[lo..hi], line) || Covers(rs[hi..], line)
    {
      CoversSplit(rs, lo, hi, line);
    }
    if lo == hi {
      assert forall line :: !Covers(rs[lo..hi], line);
    }
  }

  /** The first `i` ranges end at or before `line`, the others start after
      `limit`: lines in [line, limit] are covered by none of them. */
  lemma NoneCovers(rs: seq<LineRange>, i: int, line: int)
    requires Separated(rs) && 0 <= i <= |rs|
    requires forall k :: 0 <= k < i ==> rs[k].endLineExclusive <= line
    requires i < |rs| ==> line < rs[i].startLine
    ensures !Covers(rs, line)
  {
    forall k | 0 <= k < |rs|
      ensures !rs[k].Contains(line)
    {
      if k > i {
        assert rs[i].endLineExclusive < rs[k].startLine;
      }
    }
  }

  class LineRangeSet {
    var ranges: seq<LineRange>

    ghost predicate Valid()
      reads this
    {
      Normalized(ranges)
    }

    constructor (normalizedRanges: seq<LineRange>)
      requires Normalized(normalizedRanges)
      ensures Valid() && ranges == normalizedRanges
    {
      ranges := normalizedRanges;
    }

    /** `add_range`: an empty range changes nothing; otherwise the ranges
        that overlap or touch the new one are merged with it in place. */
    method AddRange(range: LineRange)
      requires Valid() && range.Valid()
      modifies this
      ensures Valid()
      ensures range.IsEmpty() ==> ranges == old(ranges)
      ensures forall line :: Covers(ranges, line) <==> Covers(old(ranges), line) || range.Contains(line)
    {
      if range.Len() == 0 {
        return;
      }
      var rs := ranges;
      var joinRangeStartIdx, joinRangeEndIdxExclusive := SearchTouching(rs, range);
      if joinRangeStartIdx == joinRangeEndIdxExclusive {
        // insert
        AddRangeSplice(rs, range, joinRangeStartIdx, joinRangeEndIdxExclusive, range);
        ranges := rs[..joinRangeStartIdx] + [range] + rs[joinRangeStartIdx..];
      } else if joinRangeStartIdx == joinRangeEndIdxExclusive - 1 {
        // replace one element
        var joinRange := rs[joinRangeStartIdx].Join(range);
        AddRangeSplice(rs, range, joinRangeStartIdx, joinRangeEndIdxExclusive, joinRange);
        ranges := rs[joinRangeStartIdx := joinRange];
        assert ranges == rs[..joinRangeStartIdx] + [joinRange] + rs[joinRangeEndIdxExclusive..];
      } else {
        // replace a slice
        var first, last := rs[joinRangeStartIdx], rs[joinRangeEndIdxExclusive - 1];
        assert first.startLine <= last.startLine && first.endLineExclusive <= last.endLineExclusive;
        var joinRange := first.Join(last).Join(range);
        AddRangeSplice(rs, range, joinRangeStartIdx, joinRangeEndIdxExclusive, joinRange);
        ranges := rs[..joinRangeStartIdx] + [joinRange] + rs[joinRangeEndIdxExclusive..];
      }
    }

    /** `contains`: the last range starting at or before the line is the only
        one that can hold it. */
    method Contains(line: int) returns (b: bool)
      requires Valid()
      ensures b <==> Covers(ranges, line)
    {
      var rs := ranges;
      var startsAtOrBefore := (r: LineRange) => r.startLine <= line;
      SeparatedStartsMonotone(rs, startsAtOrBefore, line);
      var found := ListsFind.FindLastMonotonous(rs, startsAtOrBefore);
      b := found.Some? && found.value.endLineExclusive > line;
      if found.None? {
        assert forall k :: 0 <= k < |rs| ==> !rs[k].Contains(line);
      } else {
        var i :| 0 <= i < |rs| && rs[i] == found.value && startsAtOrBefore(rs[i]) &&
                 (i + 1 == |rs| || !startsAtOrBefore(rs[i + 1]));
        SeparatedOnlyCandidate(rs, i, line);
      }
    }

    /** `subtract_from`: the lines of `range` that no stored range holds, as
        the ranges of the new set, in increasing order; this set is not
        changed. An empty `range` comes back as is when no stored range
        overlaps or touches it, and otherwise gives the empty set. */
    method SubtractFrom(range: LineRange) returns (result: seq<LineRange>)
      requires Valid() && range.Valid()
      ensures forall line :: Covers(result, line) <==> range.Contains(line) && !Covers(ranges, line)
      ensures Normalized(result) || result == [range]
      ensures !range.IsEmpty() ==> Normalized(result)
      ensures range.IsEmpty() ==>
                (result == [range] <==> forall k :: 0 <= k < |ranges| ==> !ranges[k].OverlapOrTouch(range))
      ensures range.IsEmpty() && result != [range] ==> result == []
    {
      var rs := ranges;
      var a, b := range.startLine, range.endLineExclusive;
      var joinRangeStartIdx, joinRangeEndIdxExclusive := SearchTouching(rs, range);
      if joinRangeStartIdx == joinRangeEndIdxExclusive {
        SubtractUntouched(rs, range, joinRangeStartIdx);
        return [range];
      }
      result := [];
      var startLine := a;
      for i := joinRangeStartIdx to joinRangeEndIdxExclusive
        invariant SubtractInv(rs, range, joinRangeStartIdx, i, result, startLine)
      {
        var r := rs[i];
        SubtractStep(rs, range, joinRangeStartIdx, joinRangeEndIdxExclusive, i, result, startLine);
        if r.startLine > startLine {
          result := result + [LineRange(startLine, r.startLine)];
        }
        startLine := r.endLineExclusive;
      }
      SubtractFinish(rs, range, joinRangeStartIdx, joinRangeEndIdxExclusive, result, startLine);
      if startLine < b {
        result := result + [LineRange(startLine, b)];
      }
    }

    /** `get_intersection` as written: because `LineRange.intersect` only
        ever yields empty ranges, which the loop drops, the result is always
        the empty set. */
    method GetIntersection(other: LineRangeSet) returns (result: seq<LineRange>)
      requires Valid() && other.Valid()
      ensures result == []
    {
      result := [];
      var i1, i2 := 0, 0;
      while i1 < |ranges| && i2 < |other.ranges|
        invariant 0 <= i1 <= |ranges| && 0 <= i2 <= |other.ranges|
        invariant result == []
        decreases |ranges| - i1 + |other.ranges| - i2
      {
        var r1 := ranges[i1];
        var r2 := other.ranges[i2];
        var i := r1.Intersect(r2);
        match i {
          case Some(v) =>
            if !v.IsEmpty() {
              result := result + [v];
            }
          case None =>
        }
        if r1.endLineExclusive < r2.endLineExclusive {
          i1 := i1 + 1;
        } else {
          i2 := i2 + 1;
        }
      }
    }

    /** `get_with_delta`: every range shifted by the same amount. */
    function GetWithDelta(value: int): (r: seq<LineRange>)
      requires Valid()
      reads this
      ensures |r| == |ranges|
      ensures Normalized(r)
      ensures forall line :: Covers(r, line) <==> Covers(ranges, line - value)
    {
      var rs := ranges;
      var shifted := seq(|rs|, i requires 0 <= i < |rs| => rs[i].Delta(value));
      assert forall line :: Covers(shifted, line) <==> Covers(rs, line - value) by {
        forall line
          ensures Covers(shifted, line) <==> Covers(rs, line - value)
        {
          if Covers(rs, line - value) {
            var i :| 0 <= i < |rs| && rs[i].Contains(line - value);
            assert shifted[i].Contains(line);
          }
        }
      }
      shifted
    }
  }
}

/** The result type of the diff algorithms: sequence diffs over two offset
    spaces, their arithmetic, and the inversion that yields the unchanged
    spans between them. */
module DiffAlgorithms {
  import opened Wrappers
  import opened OffsetRanges
  import Lists

  /** A pair of offsets, one into each sequence. */
  datatype OffsetPair = OffsetPair(offset1: int, offset2: int) {
    /** `delta`: moves both offsets by the same amount. */
    function Delta(offset: int): (r: OffsetPair)
      ensures r.offset1 - offset1 == offset && r.offset2 - offset2 == offset
      ensures offset == 0 ==> r == this
    {
      if offset == 0 then this else OffsetPair(offset1 + offset, offset2 + offset)
    }
  }

  /** `OffsetPair.zero` */
  function Zero(): (r: OffsetPair)
    ensures r.offset1 == 0 && r.offset2 == 0
  {
    OffsetPair(0, 0)
  }

  /** `OffsetPair.max` */
  function MaxPair(): (r: OffsetPair)
    ensures r.offset1 == MaxSafeSmallInt && r.offset2 == MaxSafeSmallInt
  {
    OffsetPair(MaxSafeSmallInt, MaxSafeSmallInt)
  }

  /** A range in the first sequence matched with a range in the second. */
  datatype SequenceDiff = SequenceDiff(seq1Range: OffsetRange, seq2Range: OffsetRange) {

    predicate Valid() {
      seq1Range.Valid() && seq2Range.Valid()
    }

    /** `swap`: exchanges the two sides. */
    function Swap(): (r: SequenceDiff)
      ensures r.seq1Range == seq2Range && r.seq2Range == seq1Range
    {
      SequenceDiff(seq2Range, seq1Range)
    }

    /** `join`: the componentwise join, covering both diffs on each side. */
    function Join(other: SequenceDiff): (r: SequenceDiff)
      requires Valid() && other.Valid()
      ensures r.Valid()
      ensures r.seq1Range == seq1Range.Join(other.seq1Range) && r.seq2Range == seq2Range.Join(other.seq2Range)
      ensures forall x :: seq1Range.Contains(x) || other.seq1Range.Contains(x) ==> r.seq1Range.Contains(x)
      ensures forall x :: seq2Range.Contains(x) || other.seq2Range.Contains(x) ==> r.seq2Range.Contains(x)
    {
      SequenceDiff(seq1Range.Join(other.seq1Range), seq2Range.Join(other.seq2Range))
    }

    /** `delta`: shifts both sides by the same offset, keeping their lengths. */
    function Delta(offset: int): (r: SequenceDiff)
      requires Valid()
      ensures r.Valid()
      ensures offset == 0 ==> r == this
      ensures r.seq1Range.start == seq1Range.start + offset && r.seq1Range.Len() == seq1Range.Len()
      ensures r.seq2Range.start == seq2Range.start + offset && r.seq2Range.Len() == seq2Range.Len()
    {
      if offset == 0 then this
      else SequenceDiff(seq1Range.Delta(offset), seq2Range.Delta(offset))
    }

    /** `delta_start`: moves both starts; raises if either passes its end. */
    function DeltaStart(offset: int): (r: Result<SequenceDiff>)
      ensures offset == 0 ==> r == Ok(this)
      ensures offset != 0 ==>
                (r.Ok? <==> seq1Range.start + offset <= seq1Range.endExclusive &&
                            seq2Range.start + offset <= seq2Range.endExclusive)
      ensures offset != 0 && r.Ok? ==>
                r.value.seq1Range == OffsetRange(seq1Range.start + offset, seq1Range.endExclusive) &&
                r.value.seq2Range == OffsetRange(seq2Range.start + offset, seq2Range.endExclusive)
    {
      if offset == 0 then Ok(this)
      else
        match seq1Range.DeltaStart(offset)
        case Err(e) => Err(e)
        case Ok(r1) =>
          match seq2Range.DeltaStart(offset)
          case Err(e) => Err(e)
          case Ok(r2) => Ok(SequenceDiff(r1, r2))
    }

    /** `delta_end`: moves both ends; raises if either passes its start. */
    function DeltaEnd(offset: int): (r: Result<SequenceDiff>)
      ensures offset == 0 ==> r == Ok(this)
      ensures offset != 0 ==>
                (r.Ok? <==> seq1Range.start <= seq1Range.endExclusive + offset &&
                            seq2Range.start <= seq2Range.endExclusive + offset)
      ensures offset != 0 && r.Ok? ==>
                r.value.seq1Range == OffsetRange(seq1Range.start, seq1Range.endExclusive + offset) &&
                r.value.seq2Range == OffsetRange(seq2Range.start, seq2Range.endExclusive + offset)
    {
      if offset == 0 then Ok(this)
      else
        match seq1Range.DeltaEnd(offset)
        case Err(e) => Err(e)
        case Ok(r1) =>
          match seq2Range.DeltaEnd(offset)
          case Err(e) => Err(e)
          case Ok(r2) => Ok(SequenceDiff(r1, r2))
    }

    /** `intersects_or_touches`: either side intersects or touches. */
    predicate IntersectsOrTouches(other: SequenceDiff) {
      seq1Range.IntersectsOrTouches(other.seq1Range) || seq2Range.IntersectsOrTouches(other.seq2Range)
    }

    /** `intersect`: None unless both sides share at least one offset (an
        empty component intersection counts as missing); otherwise the
        componentwise intersection. */
    function Intersect(other: SequenceDiff): (r: Option<SequenceDiff>)
      requires Valid() && other.Valid()
      ensures r.Some? <==> seq1Range.Intersects(other.seq1Range) && seq2Range.Intersects(other.seq2Range)
      ensures r.Some? ==> r.value.Valid() && !r.value.seq1Range.IsEmpty() && !r.value.seq2Range.IsEmpty()
      ensures r.Some? ==> forall x :: r.value.seq1Range.Contains(x) <==>
                                       seq1Range.Contains(x) && other.seq1Range.Contains(x)
      ensures r.Some? ==> forall x :: r.value.seq2Range.Contains(x) <==>
                                       seq2Range.Contains(x) && other.seq2Range.Contains(x)
    {
      var i1 := seq1Range.Intersect(other.seq1Range);
      var i2 := seq2Range.Intersect(other.seq2Range);
      if i1.None? || i1.value.Len() == 0 || i2.None? || i2.value.Len() == 0 then None
      else Some(SequenceDiff(i1.value, i2.value))
    }

    /** `get_starts` */
    function GetStarts(): (r: OffsetPair)
      ensures r.offset1 == seq1Range.start && r.offset2 == seq2Range.start
    {
      OffsetPair(seq1Range.start, seq2Range.start)
    }

    /** `get_end_exclusive` */
    function GetEndExclusive(): (r: OffsetPair)
      ensures r.offset1 == seq1Range.endExclusive && r.offset2 == seq2Range.endExclusive
    {
      OffsetPair(seq1Range.endExclusive, seq2Range.endExclusive)
    }
  }

  /** `intersects_or_touches` is symmetric and reflexive on valid diffs, and
      holds whenever `intersect` finds a common part. */
  lemma IntersectsOrTouchesFacts(a: SequenceDiff, b: SequenceDiff)
    ensures a.IntersectsOrTouches(b) <==> b.IntersectsOrTouches(a)
    ensures a.Valid() ==> a.IntersectsOrTouches(a)
    ensures a.Valid() && b.Valid() && a.Intersect(b).Some? ==> a.IntersectsOrTouches(b)
  {
  }

  /** `swap` is an involution. */
  lemma SwapInvolution(d: SequenceDiff)
    ensures d.Swap().Swap() == d
    ensures d.Swap().Valid() <==> d.Valid()
  {
  }

  /** `from_offset_pairs`: raises if either start exceeds its end. */
  function FromOffsetPairs(start: OffsetPair, endExclusive: OffsetPair): (r: Result<SequenceDiff>)
    ensures r.Ok? <==> start.offset1 <= endExclusive.offset1 && start.offset2 <= endExclusive.offset2
    ensures r.Ok? ==> r.value.Valid() && r.value.GetStarts() == start && r.value.GetEndExclusive() == endExclusive
  {
    match OffsetRanges.Make(start.offset1, endExclusive.offset1)
    case Err(e) => Err(e)
    case Ok(r1) =>
      match OffsetRanges.Make(start.offset2, endExclusive.offset2)
      case Err(e) => Err(e)
      case Ok(r2) => Ok(SequenceDiff(r1, r2))
  }

  /** What a diff algorithm returns. */
  datatype DiffAlgorithmResult = DiffAlgorithmResult(diffs: seq<SequenceDiff>, hitTimeout: bool)

  /** `trivial`: everything differs; the sequences enter through their
      lengths only. */
  function Trivial(length1: int, length2: int): (r: Result<DiffAlgorithmResult>)
    ensures r.Ok? <==> length1 >= 0 && length2 >= 0
    ensures r.Ok? ==> !r.value.hitTimeout && r.value.diffs ==
                      [SequenceDiff(OffsetRange(0, length1), OffsetRange(0, length2))]
  {
    match OffsetRanges.OfLength(length1)
    case Err(e) => Err(e)
    case Ok(r1) =>
      match OffsetRanges.OfLength(length2)
      case Err(e) => Err(e)
      case Ok(r2) => Ok(DiffAlgorithmResult([SequenceDiff(r1, r2)], false))
  }

  /** `trivial_timeout`: as `trivial`, but reporting the timeout. */
  function TrivialTimeout(length1: int, length2: int): (r: Result<DiffAlgorithmResult>)
    ensures r.Ok? <==> length1 >= 0 && length2 >= 0
    ensures r.Ok? ==> r.value.hitTimeout && r.value.diffs ==
                      [SequenceDiff(OffsetRange(0, length1), OffsetRange(0, length2))]
  {
    match OffsetRanges.OfLength(length1)
    case Err(e) => Err(e)
    case Ok(r1) =>
      match OffsetRanges.OfLength(length2)
      case Err(e) => Err(e)
      case Ok(r2) => Ok(DiffAlgorithmResult([SequenceDiff(r1, r2)], true))
  }

  /** The span the inversion callback builds from a pair of neighbours: from
      the end of `a` (or (0, 0)) to the start of `b`, or, with no `b`, to the
      document end moved by the offset difference `a` leaves behind. */
  function Span(a: Option<SequenceDiff>, b: Option<SequenceDiff>, docLength: int): Result<SequenceDiff>
  {
    FromOffsetPairs(
      if a.Some? then a.value.GetEndExclusive() else Zero(),
      if b.Some? then b.value.GetStarts()
      else OffsetPair(docLength,
                      (if a.Some? then a.value.seq2Range.endExclusive - a.value.seq1Range.endExclusive else 0)
                      + docLength))
  }

  /** The span before diff i. */
  function GapBefore(diffs: seq<SequenceDiff>, i: int, docLength: int): Result<SequenceDiff>
    requires 0 <= i < |diffs|
  {
    Span(if i == 0 then None else Some(diffs[i - 1]), Some(diffs[i]), docLength)
  }

  /** What `invert` returns as written: the span before each diff, and
      nothing after the last one. */
  function InvertSpans(diffs: seq<SequenceDiff>, docLength: int): Result<seq<SequenceDiff>>
  {
    if forall i :: 0 <= i < |diffs| ==> GapBefore(diffs, i, docLength).Ok? then
      Ok(seq(|diffs|, i requires 0 <= i < |diffs| => GapBefore(diffs, i, docLength).value))
    else Err(ValueError)
  }

  /** `invert`, driven by `for_each_adjacent` as the source does. */
  method Invert(diffs: seq<SequenceDiff>, docLength: int) returns (r: Result<seq<SequenceDiff>>)
    ensures r == InvertSpans(diffs, docLength)
  {
    var calls := Lists.ForEachAdjacent(diffs);
    var result: seq<SequenceDiff> := [];
    for i := 0 to |calls|
      invariant |result| == i
      invariant forall k :: 0 <= k < i ==> GapBefore(diffs, k, docLength) == Ok(result[k])
    {
      var span := Span(calls[i].0, calls[i].1, docLength);
      assert calls[i] == (if i == 0 then None else Some(diffs[i - 1]), Some(diffs[i]));
      assert span == GapBefore(diffs, i, docLength);
      if span.Err? {
        assert !(forall k :: 0 <= k < |diffs| ==> GapBefore(diffs, k, docLength).Ok?);
        return Err(span.error);
      }
      result := result + [span.value];
    }
    assert result == seq(|diffs|, k requires 0 <= k < |diffs| => GapBefore(diffs, k, docLength).value);
    return Ok(result);
  }

  /** As written, `invert` makes one span per diff: the span that should
      run from the last diff to the end of the document is never built, so
      an empty diff list inverts to nothing rather than to the whole
      document. */
  lemma {:induction false} InvertSpansAsWritten(diffs: seq<SequenceDiff>, docLength: int)
    ensures InvertSpans(diffs, docLength).Ok? ==> |InvertSpans(diffs, docLength).value| == |diffs|
    ensures InvertSpans([], docLength) == Ok([])
  {
    var r := InvertSpans([], docLength);
    assert r.Ok? && |r.value| == 0;
  }

  /** Span i of the evidently intended inversion: before diff i, or after
      the last diff when i == |diffs|. */
  function GapIntended(diffs: seq<SequenceDiff>, i: int, docLength: int): Result<SequenceDiff>
    requires 0 <= i <= |diffs|
  {
    Span(if i == 0 then None else Some(diffs[i - 1]), if i == |diffs| then None else Some(diffs[i]), docLength)
  }

  /** The spans `invert` evidently means to build: one before each diff and
      one after the last, as `for_each_adjacent` with its trailing call gives. */
  function InvertSpansIntended(diffs: seq<SequenceDiff>, docLength: int): Result<seq<SequenceDiff>>
  {
    if forall i :: 0 <= i <= |diffs| ==> GapIntended(diffs, i, docLength).Ok? then
      Ok(seq(|diffs| + 1, i requires 0 <= i <= |diffs| => GapIntended(diffs, i, docLength).value))
    else Err(ValueError)
  }

  /** `assert_sorted`'s condition: each diff starts, on both sides, at or
      after the previous one ends. */
  ghost predicate Sorted(diffs: seq<SequenceDiff>) {
    forall i :: 0 < i < |diffs| ==>
      diffs[i - 1].seq1Range.endExclusive <= diffs[i].seq1Range.start &&
      diffs[i - 1].seq2Range.endExclusive <= diffs[i].seq2Range.start
  }

  /** With the trailing span, inverting sorted diffs inside a document of
      length docLength succeeds and tiles it: the spans and the diffs
      alternate, starting at 0 and ending at docLength on the first side. */
  lemma InvertIntendedTiles(diffs: seq<SequenceDiff>, docLength: int)
    requires Sorted(diffs) && forall i :: 0 <= i < |diffs| ==> diffs[i].Valid()
    requires |diffs| > 0 ==> diffs[0].seq1Range.start >= 0 && diffs[0].seq2Range.start >= 0 &&
                             diffs[|diffs| - 1].seq1Range.endExclusive <= docLength
    requires |diffs| == 0 ==> docLength >= 0
    ensures InvertSpansIntended(diffs, docLength).Ok?
    ensures var spans := InvertSpansIntended(diffs, docLength).value;
      && |spans| == |diffs| + 1
      && spans[0].GetStarts() == Zero()
      && spans[|diffs|].seq1Range.endExclusive == docLength
      && (forall i :: 0 <= i < |diffs| ==>
            spans[i].GetEndExclusive() == diffs[i].GetStarts() &&
            spans[i + 1].GetStarts() == diffs[i].GetEndExclusive())
  {
    var n := |diffs|;
    forall i | 0 <= i <= n
      ensures GapIntended(diffs, i, docLength).Ok?
    {
      if 0 < i < n {
        assert diffs[i - 1].seq1Range.endExclusive <= diffs[i].seq1Range.start;
      }
    }
  }

  /** The whole document is the one unchanged span of an empty diff list. */
  lemma InvertIntendedEmpty(docLength: int)
    requires docLength >= 0
    ensures InvertSpansIntended([], docLength) ==
              Ok([SequenceDiff(OffsetRange(0, docLength), OffsetRange(0, docLength))])
  {
    var whole := SequenceDiff(OffsetRange(0, docLength), OffsetRange(0, docLength));
    assert GapIntended([], 0, docLength) == Ok(whole);
    var r := InvertSpansIntended([], docLength);
    assert r.Ok? && |r.value| == 1 && r.value[0] == whole;
    assert r.value == [whole];
  }

  /** `assert_sorted`: raises ValueError iff some neighbouring pair overlaps
      on either side; touching diffs pass. */
  method AssertSorted(diffs: seq<SequenceDiff>) returns (r: Result<()>)
    ensures r.Ok? <==> Sorted(diffs)
    ensures r.Err? ==> r.error == ValueError
  {
    var last: Option<SequenceDiff> := None;
    for i := 0 to |diffs|
      invariant last == if i == 0 then None else Some(diffs[i - 1])
      invariant forall k :: 0 < k < i ==>
                  diffs[k - 1].seq1Range.endExclusive <= diffs[k].seq1Range.start &&
                  diffs[k - 1].seq2Range.endExclusive <= diffs[k].seq2Range.start
    {
      var cur := diffs[i];
      if last.Some? {
        if !(last.value.seq1Range.endExclusive <= cur.seq1Range.start &&
             last.value.seq2Range.endExclusive <= cur.seq2Range.start) {
          return Err(ValueError);
        }
      }
      last := Some(cur);
    }
    return Ok(());
  }
}

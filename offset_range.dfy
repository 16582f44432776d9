/** `OffsetRange`: the half-open interval [start, endExclusive) over a flat
    offset space. The Python constructor raises ValueError when
    start > endExclusive; here `Make` returns `Err(ValueError)` instead, so
    every range the model builds satisfies `Valid()`. */
module OffsetRanges {
  import opened Wrappers
  import Slices
  import opened Ints

  datatype OffsetRange = OffsetRange(start: int, endExclusive: int) {

    predicate Valid() {
      start <= endExclusive
    }

    /** `__len__` */
    function Len(): (n: int)
      ensures Valid() ==> n >= 0
      ensures n == 0 <==> IsEmpty()
    {
      endExclusive - start
    }

    predicate IsEmpty() {
      start == endExclusive
    }

    predicate Contains(offset: int) {
      start <= offset < endExclusive
    }

    /** `delta`: shift both ends, keeps the length; never raises. */
    function Delta(offset: int): (r: OffsetRange)
      requires Valid()
      ensures r.Valid() && r.Len() == Len()
      ensures forall x :: Contains(x) <==> r.Contains(x + offset)
    {
      OffsetRange(start + offset, endExclusive + offset)
    }

    /** `delta_start`: raises when the start would pass the end. */
    function DeltaStart(offset: int): (r: Result<OffsetRange>)
      ensures r.Ok? <==> start + offset <= endExclusive
      ensures r.Ok? ==> r.value.endExclusive == endExclusive && r.value.Len() == Len() - offset
    {
      Make(start + offset, endExclusive)
    }

    /** `delta_end`: raises when the end would pass below the start. */
    function DeltaEnd(offset: int): (r: Result<OffsetRange>)
      ensures r.Ok? <==> start <= endExclusive + offset
      ensures r.Ok? ==> r.value.start == start && r.value.Len() == Len() + offset
    {
      Make(start, endExclusive + offset)
    }

    /** `join`: the smallest range enclosing both. */
    function Join(other: OffsetRange): (r: OffsetRange)
      requires Valid() && other.Valid()
      ensures r.Valid()
      ensures r.start <= start && r.start <= other.start
      ensures r.endExclusive >= endExclusive && r.endExclusive >= other.endExclusive
      ensures r.start == start || r.start == other.start
      ensures r.endExclusive == endExclusive || r.endExclusive == other.endExclusive
    {
      OffsetRange(Min(start, other.start), Max(endExclusive, other.endExclusive))
    }

    /** `intersect`: `None` exactly when the two ranges neither overlap nor
        touch; touching ranges give an empty range. */
    function Intersect(other: OffsetRange): (r: Option<OffsetRange>)
      requires Valid() && other.Valid()
      ensures r.None? <==> !IntersectsOrTouches(other)
      ensures r.Some? ==> r.value.Valid()
      ensures r.Some? ==> forall x :: r.value.Contains(x) <==> Contains(x) && other.Contains(x)
      ensures r.Some? ==> (r.value.IsEmpty() <==> !Intersects(other))
    {
      var s := Max(start, other.start);
      var e := Min(endExclusive, other.endExclusive);
      if s <= e then Some(OffsetRange(s, e)) else None
    }

    /** `intersects`: the strict test. */
    predicate Intersects(other: OffsetRange) {
      Max(start, other.start) < Min(endExclusive, other.endExclusive)
    }

    /** `intersects_or_touches`: the non-strict test. */
    predicate IntersectsOrTouches(other: OffsetRange) {
      Max(start, other.start) <= Min(endExclusive, other.endExclusive)
    }

    /** `slice` (Python slice semantics on a list). */
    function Slice<T>(lst: seq<T>): (r: seq<T>)
      requires Valid()
      ensures 0 <= start && endExclusive <= |lst| ==>
                |r| == Len() && forall i :: 0 <= i < Len() ==> r[i] == lst[start + i]
    {
      Slices.Slice(lst, start, endExclusive)
    }

    /** `substring` (Python slice semantics on a string). */
    function Substring(source: string): (r: string)
      requires Valid()
      ensures 0 <= start && endExclusive <= |source| ==> r == source[start..endExclusive]
    {
      Slices.Slice(source, start, endExclusive)
    }

    /** `for_each`: the offsets `f` is called with, in call order. */
    method ForEach() returns (calls: seq<int>)
      requires Valid()
      ensures |calls| == Len()
      ensures forall i :: 0 <= i < |calls| ==> calls[i] == start + i
      ensures forall x :: x in calls <==> Contains(x)
    {
      calls := [];
      var i := start;
      while i < endExclusive
        invariant start <= i <= endExclusive
        invariant |calls| == i - start
        invariant forall k :: 0 <= k < |calls| ==> calls[k] == start + k
      {
        calls := calls + [i];
        i := i + 1;
      }
      assert forall x :: Contains(x) ==> calls[x - start] == x;
    }
  }

  /** The constructor: raises ValueError iff start > endExclusive. */
  function Make(start: int, endExclusive: int): (r: Result<OffsetRange>)
    ensures r.Ok? <==> start <= endExclusive
    ensures r.Ok? ==> r.value.Valid() && r.value.start == start && r.value.endExclusive == endExclusive
  {
    if start > endExclusive then Err(ValueError) else Ok(OffsetRange(start, endExclusive))
  }

  /** `of_length`: [0, n); raises on a negative length. */
  function OfLength(length: int): (r: Result<OffsetRange>)
    ensures r.Ok? <==> length >= 0
    ensures r.Ok? ==> r.value.start == 0 && r.value.Len() == length
  {
    Make(0, length)
  }

  /** `of_start_and_length`: [s, s + n); raises on a negative length. */
  function OfStartAndLength(start: int, length: int): (r: Result<OffsetRange>)
    ensures r.Ok? <==> length >= 0
    ensures r.Ok? ==> r.value.start == start && r.value.Len() == length
  {
    Make(start, start + length)
  }

  /** `empty_at`: [o, o). */
  function EmptyAt(offset: int): (r: OffsetRange)
    ensures r.Valid() && r.IsEmpty() && r.start == offset
  {
    OffsetRange(offset, offset)
  }

  /** A valid range is empty exactly when it contains no offset. */
  lemma {:induction false} EmptyIffNoOffsets(r: OffsetRange)
    requires r.Valid()
    ensures r.IsEmpty() <==> forall x :: !r.Contains(x)
  {
    if !r.IsEmpty() {
      assert r.Contains(r.start);
    }
  }

  /** The join contains both operands, and nothing it contains lies outside
      the span from the smaller start to the larger end. */
  lemma JoinContainsBoth(a: OffsetRange, b: OffsetRange)
    requires a.Valid() && b.Valid()
    ensures forall x :: a.Contains(x) || b.Contains(x) ==> a.Join(b).Contains(x)
    ensures a.Join(b) == b.Join(a)
  {
  }

  /** A strict intersection is also an intersection-or-touch. */
  lemma IntersectsImpliesTouches(a: OffsetRange, b: OffsetRange)
    ensures a.Intersects(b) ==> a.IntersectsOrTouches(b)
    ensures a.Intersects(b) <==> b.Intersects(a)
  {
  }

  /** Intersection is a common sub-range: when two ranges share an offset,
      `intersect` returns a non-empty range holding it. */
  lemma IntersectCommonOffset(a: OffsetRange, b: OffsetRange, x: int)
    requires a.Valid() && b.Valid()
    requires a.Contains(x) && b.Contains(x)
    ensures a.Intersect(b).Some? && a.Intersect(b).value.Contains(x)
    ensures !a.Intersect(b).value.IsEmpty()
  {
  }
}

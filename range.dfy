/** `Range`: two positions, swapped at construction so that start <= end. */
module Ranges {
  import opened Positions

  datatype Range = Range(start: Position, end: Position) {

    /** Every Range built by `Make` is normalised. */
    predicate Valid() {
      LessEq(start, end)
    }

    predicate IsEmpty() {
      start == end
    }

    predicate ContainsPosition(p: Position) {
      LessEq(start, p) && LessEq(p, end)
    }

    /** `union`: the earlier start and the later end. */
    function Union(other: Range): (r: Range)
      requires Valid() && other.Valid()
      ensures r.Valid()
      ensures r.start == Min(start, other.start) && r.end == Max(end, other.end)
      ensures forall p :: ContainsPosition(p) || other.ContainsPosition(p) ==> r.ContainsPosition(p)
    {
      LessEqTransitiveAll();
      Make(Min(start, other.start), Max(end, other.end))
    }
  }

  /** The constructor: swaps the ends when start > end, never fails. */
  function Make(start: Position, end: Position): (r: Range)
    ensures r.Valid()
    ensures !Less(end, start) ==> r == Range(start, end)
    ensures Less(end, start) ==> r == Range(end, start)
  {
    if Less(end, start) then Range(end, start) else Range(start, end)
  }

  lemma LessEqTransitiveAll()
    ensures forall a, b, c :: LessEq(a, b) && LessEq(b, c) ==> LessEq(a, c)
  {
  }

  /** Range(a, b) and Range(b, a) are the same range. */
  lemma MakeSymmetric(a: Position, b: Position)
    ensures Make(a, b) == Make(b, a)
  {
  }

  /** A normalised range is rebuilt unchanged. */
  lemma MakeValidIdentity(r: Range)
    requires r.Valid()
    ensures Make(r.start, r.end) == r
  {
  }

  lemma IsEmptyIff(a: Position, b: Position)
    ensures Make(a, b).IsEmpty() <==> a == b
  {
  }

  lemma UnionCommutative(a: Range, b: Range)
    requires a.Valid() && b.Valid()
    ensures a.Union(b) == b.Union(a)
  {
  }

  lemma UnionIdempotent(a: Range)
    requires a.Valid()
    ensures a.Union(a) == a
  {
  }
}

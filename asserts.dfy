/** `check_adjacent_items`: a scan over neighbouring pairs. */
module Asserts {

  /** The predicate holds on every pair of neighbours. */
  ghost predicate AllAdjacent<T>(items: seq<T>, pred: (T, T) -> bool) {
    forall i :: 0 <= i < |items| - 1 ==> pred(items[i], items[i + 1])
  }

  /** True iff every neighbouring pair satisfies the predicate; lists of
      length 0 or 1 always pass. */
  method CheckAdjacentItems<T>(items: seq<T>, pred: (T, T) -> bool) returns (ok: bool)
    ensures ok <==> AllAdjacent(items, pred)
    ensures |items| <= 1 ==> ok
  {
    var i := 0;
    while i < |items| - 1
      invariant 0 <= i <= if |items| == 0 then 0 else |items| - 1
      invariant forall k :: 0 <= k < i ==> pred(items[k], items[k + 1])
    {
      if !pred(items[i], items[i + 1]) {
        return false;
      }
      i := i + 1;
    }
    return true;
  }
}

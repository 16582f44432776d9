/** Binary searches over a list whose predicate is monotone, and the
    `MonotonousList` helper that remembers where the last search ended. */
module ListsFind {
  import opened Wrappers

  /** The predicate holds on a prefix of lst[lo..hi] and fails after it. */
  ghost predicate TrueThenFalse<T>(lst: seq<T>, pred: T -> bool, lo: int, hi: int)
    requires 0 <= lo && hi <= |lst|
  {
    forall i, j :: lo <= i < j < hi && pred(lst[j]) ==> pred(lst[i])
  }

  /** The predicate fails on a prefix of lst[lo..hi] and holds after it. */
  ghost predicate FalseThenTrue<T>(lst: seq<T>, pred: T -> bool, lo: int, hi: int)
    requires 0 <= lo && hi <= |lst|
  {
    forall i, j :: lo <= i < j < hi && pred(lst[i]) ==> pred(lst[j])
  }

  /** `find_last_idx_monotonous`: the last index in [startIdx, endIdxEx) where
      the predicate holds, or startIdx - 1. Whatever the predicate, the result
      is a boundary: true at r (or r is startIdx - 1), false at r + 1 (or
      r + 1 is endIdxEx). */
  method FindLastIdxMonotonous<T>(lst: seq<T>, pred: T -> bool, startIdx: int, endIdxEx: int)
    returns (r: int)
    requires 0 <= startIdx && endIdxEx <= |lst|
    ensures startIdx <= endIdxEx ==> startIdx - 1 <= r <= endIdxEx - 1
    ensures startIdx > endIdxEx ==> r == startIdx - 1
    ensures r >= startIdx ==> pred(lst[r])
    ensures startIdx <= r + 1 < endIdxEx ==> !pred(lst[r + 1])
    ensures TrueThenFalse(lst, pred, startIdx, endIdxEx) ==>
              (forall k :: startIdx <= k <= r ==> pred(lst[k])) &&
              (forall k :: r < k < endIdxEx ==> !pred(lst[k]))
  {
    var i, j := startIdx, endIdxEx;
    while i < j
      invariant startIdx <= i && (startIdx <= endIdxEx ==> i <= j <= endIdxEx)
      invariant startIdx > endIdxEx ==> i == startIdx
      invariant j == endIdxEx || startIdx <= j
      invariant i > startIdx ==> pred(lst[i - 1])
      invariant j < endIdxEx ==> !pred(lst[j])
      invariant TrueThenFalse(lst, pred, startIdx, endIdxEx) ==>
                  (forall k :: startIdx <= k < i ==> pred(lst[k])) &&
                  (forall k :: j <= k < endIdxEx ==> !pred(lst[k]))
      decreases j - i
    {
      var k := (i + j) / 2;
      if pred(lst[k]) {
        i := k + 1;
      } else {
        j := k;
      }
    }
    r := i - 1;
  }

  /** `find_first_idx_monotonous_or_lst_len`: the first index in
      [startIdx, endIdxEx) where the predicate holds, or endIdxEx. */
  method FindFirstIdxMonotonousOrLstLen<T>(lst: seq<T>, pred: T -> bool, startIdx: int, endIdxEx: int)
    returns (r: int)
    requires 0 <= startIdx && endIdxEx <= |lst|
    ensures startIdx <= endIdxEx ==> startIdx <= r <= endIdxEx
    ensures startIdx > endIdxEx ==> r == startIdx
    ensures r < endIdxEx ==> pred(lst[r])
    ensures startIdx < r <= endIdxEx ==> !pred(lst[r - 1])
    ensures FalseThenTrue(lst, pred, startIdx, endIdxEx) ==>
              (forall k :: startIdx <= k < r ==> !pred(lst[k])) &&
              (forall k :: r <= k < endIdxEx ==> pred(lst[k]))
  {
    var i, j := startIdx, endIdxEx;
    while i < j
      invariant startIdx <= i && (startIdx <= endIdxEx ==> i <= j <= endIdxEx)
      invariant startIdx > endIdxEx ==> i == startIdx
      invariant j == endIdxEx || startIdx <= j
      invariant i > startIdx ==> !pred(lst[i - 1])
      invariant j < endIdxEx ==> pred(lst[j])
      invariant FalseThenTrue(lst, pred, startIdx, endIdxEx) ==>
                  (forall k :: startIdx <= k < i ==> !pred(lst[k])) &&
                  (forall k :: j <= k < endIdxEx ==> pred(lst[k]))
      decreases j - i
    {
      var k := (i + j) / 2;
      if pred(lst[k]) {
        j := k;
      } else {
        i := k + 1;
      }
    }
    r := i;
  }

  /** `find_last_monotonous`: the element at the last index where the
      predicate holds, or None when the search returns -1. */
  method FindLastMonotonous<T>(lst: seq<T>, pred: T -> bool) returns (r: Option<T>)
    ensures r.None? ==> |lst| == 0 || !pred(lst[0])
    ensures r.Some? ==> exists i :: 0 <= i < |lst| && lst[i] == r.value && pred(lst[i]) &&
                                    (i + 1 == |lst| || !pred(lst[i + 1]))
    ensures TrueThenFalse(lst, pred, 0, |lst|) ==>
              (r.None? <==> forall k :: 0 <= k < |lst| ==> !pred(lst[k]))
  {
    var idx := FindLastIdxMonotonous(lst, pred, 0, |lst|);
    r := if idx == -1 then None else Some(lst[idx]);
  }

  /** `find_first_monotonous`: the element at the first index where the
      predicate holds, or None when the search returns len(lst). */
  method FindFirstMonotonous<T>(lst: seq<T>, pred: T -> bool) returns (r: Option<T>)
    ensures r.None? ==> |lst| == 0 || !pred(lst[|lst| - 1])
    ensures r.Some? ==> exists i :: 0 <= i < |lst| && lst[i] == r.value && pred(lst[i]) &&
                                    (i == 0 || !pred(lst[i - 1]))
    ensures FalseThenTrue(lst, pred, 0, |lst|) ==>
              (r.None? <==> forall k :: 0 <= k < |lst| ==> !pred(lst[k]))
  {
    var idx := FindFirstIdxMonotonousOrLstLen(lst, pred, 0, |lst|);
    r := if idx == |lst| then None else Some(lst[idx]);
  }

  /** `MonotonousList`: repeated last-true searches whose predicates only
      grow, so that each search may start where the previous one ended.
      The Python class-level switch `assert_invariants` is a parameter here. */
  class MonotonousList<T> {
    const lst: seq<T>
    var lastIdx: int
    var prevPredicate: Option<T -> bool>

    ghost predicate Valid()
      reads this
    {
      0 <= lastIdx <= |lst|
    }

    constructor (lst: seq<T>)
      ensures Valid()
      ensures this.lst == lst && lastIdx == 0 && prevPredicate == None
    {
      this.lst := lst;
      lastIdx := 0;
      prevPredicate := None;
    }

    /** With `assertInvariants`, a new predicate that is false on some item
        where the previous one held raises ValueError (and changes nothing);
        otherwise the search runs from the remembered index, which then moves
        one past the found index. When nothing new is found the element before
        the remembered index is returned again, unchecked. */
    method FindLastMonotonous(pred: T -> bool, assertInvariants: bool) returns (r: Result<Option<T>>)
      requires Valid()
      modifies this
      ensures Valid()
      ensures r.Err? <==>
                assertInvariants && old(prevPredicate).Some? &&
                exists k :: 0 <= k < |lst| && old(prevPredicate).value(lst[k]) && !pred(lst[k])
      ensures r.Err? ==> lastIdx == old(lastIdx) && prevPredicate == old(prevPredicate)
      ensures r.Ok? ==> prevPredicate == if assertInvariants then Some(pred) else old(prevPredicate)
      ensures r.Ok? ==> old(lastIdx) <= lastIdx
      ensures r.Ok? ==> (r.value.None? <==> lastIdx == 0)
      ensures r.Ok? && r.value.Some? ==> r.value.value == lst[lastIdx - 1]
      ensures r.Ok? && lastIdx > old(lastIdx) ==> pred(lst[lastIdx - 1])
      ensures r.Ok? && lastIdx < |lst| ==> !pred(lst[lastIdx])
    {
      if assertInvariants {
        if prevPredicate.Some? {
          var prev := prevPredicate.value;
          var n := 0;
          while n < |lst|
            invariant 0 <= n <= |lst|
            invariant forall k :: 0 <= k < n ==> !(prev(lst[k]) && !pred(lst[k]))
          {
            if prev(lst[n]) && !pred(lst[n]) {
              return Err(ValueError);
            }
            n := n + 1;
          }
        }
        prevPredicate := Some(pred);
      }
      var idx := FindLastIdxMonotonous(lst, pred, lastIdx, |lst|);
      lastIdx := idx + 1;
      r := Ok(if idx == -1 then None else Some(lst[idx]));
    }
  }
}

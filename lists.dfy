/** List helpers: element-wise equality, neighbour iteration and grouping. */
module Lists {
  import opened Wrappers

  /** `equals`: equal lists (both None included) are equal; otherwise both
      must be present, of one length, and equal item by item. */
  method Equals<T(==)>(one: Option<seq<T>>, another: Option<seq<T>>, itemEquals: (T, T) -> bool)
    returns (r: bool)
    ensures r <==> one == another ||
                   (one.Some? && another.Some? && |one.value| == |another.value| &&
                    forall i :: 0 <= i < |one.value| ==> itemEquals(one.value[i], another.value[i]))
  {
    if one == another {
      return true;
    }
    if one.None? || another.None? {
      return false;
    }
    var a, b := one.value, another.value;
    if |a| != |b| {
      return false;
    }
    for i := 0 to |a|
      invariant forall k :: 0 <= k < i ==> itemEquals(a[k], b[k])
    {
      if !itemEquals(a[i], b[i]) {
        return false;
      }
    }
    return true;
  }

  /** `for_each_adjacent`, as the sequence of argument pairs it passes to its
      callback: (None, lst[0]), then (lst[i-1], lst[i]). The `i == len(lst)`
      test in the source never holds inside the loop, so the second argument
      is always present and no call follows the last item. */
  method ForEachAdjacent<T>(lst: seq<T>) returns (calls: seq<(Option<T>, Option<T>)>)
    ensures |calls| == |lst|
    ensures forall i :: 0 <= i < |lst| ==>
              calls[i] == (if i == 0 then None else Some(lst[i - 1]), Some(lst[i]))
  {
    calls := [];
    for i := 0 to |lst|
      invariant |calls| == i
      invariant forall k :: 0 <= k < i ==>
                  calls[k] == (if k == 0 then None else Some(lst[k - 1]), Some(lst[k]))
    {
      calls := calls + [(if i == 0 then None else Some(lst[i - 1]), if i == |lst| then None else Some(lst[i]))];
    }
  }

  /** `for_each_with_neighbors`, as the sequence of argument triples: each
      item with its predecessor and successor, None past either end. */
  method ForEachWithNeighbors<T>(lst: seq<T>) returns (calls: seq<(Option<T>, T, Option<T>)>)
    ensures |calls| == |lst|
    ensures forall i :: 0 <= i < |lst| ==>
              calls[i] == (if i == 0 then None else Some(lst[i - 1]),
                           lst[i],
                           if i + 1 == |lst| then None else Some(lst[i + 1]))
  {
    calls := [];
    for i := 0 to |lst|
      invariant |calls| == i
      invariant forall k :: 0 <= k < i ==>
                  calls[k] == (if k == 0 then None else Some(lst[k - 1]),
                               lst[k],
                               if k + 1 == |lst| then None else Some(lst[k + 1]))
    {
      calls := calls + [(if i == 0 then None else Some(lst[i - 1]),
                         lst[i],
                         if i + 1 == |lst| then None else Some(lst[i + 1]))];
    }
  }

  /** Concatenation of a list of lists. */
  function Flatten<T>(groups: seq<seq<T>>): seq<T>
  {
    if |groups| == 0 then [] else Flatten(groups[..|groups| - 1]) + groups[|groups| - 1]
  }

  /** The grouping laws: groups are non-empty, neighbours inside a group
      satisfy the predicate, and neighbours across a boundary do not. */
  ghost predicate Grouped<T>(groups: seq<seq<T>>, shouldBeGrouped: (T, T) -> bool) {
    && (forall g :: 0 <= g < |groups| ==> |groups[g]| > 0)
    && (forall g, j :: 0 <= g < |groups| && 0 <= j < |groups[g]| - 1 ==>
          shouldBeGrouped(groups[g][j], groups[g][j + 1]))
    && (forall g :: 0 <= g < |groups| - 1 && |groups[g]| > 0 && |groups[g + 1]| > 0 ==>
          !shouldBeGrouped(groups[g][|groups[g]| - 1], groups[g + 1][0]))
  }

  lemma FlattenAppend<T>(groups: seq<seq<T>>, g: seq<T>)
    ensures Flatten(groups + [g]) == Flatten(groups) + g
  {
    assert (groups + [g])[..|groups|] == groups;
  }

  /** Every member of a group occurs in the concatenation. */
  lemma {:induction false} FlattenMember<T>(groups: seq<seq<T>>, g: int, k: int)
    requires 0 <= g < |groups| && 0 <= k < |groups[g]|
    ensures groups[g][k] in Flatten(groups)
  {
    var init := groups[..|groups| - 1];
    if g < |groups| - 1 {
      FlattenMember(init, g, k);
    } else {
      assert Flatten(groups) == Flatten(init) + groups[g];
      assert Flatten(groups)[|Flatten(init)| + k] == groups[g][k];
    }
  }

  /** Concatenation distributes over appending a group. */
  lemma FlattenPrefix<T>(groups: seq<seq<T>>, i: int)
    requires 0 <= i < |groups|
    ensures Flatten(groups[..i + 1]) == Flatten(groups[..i]) + groups[i]
  {
    assert groups[..i + 1][..i] == groups[..i];
  }

  /** Appending an item that groups with the last one keeps the laws. */
  lemma GroupedExtend<T>(groups: seq<seq<T>>, g: seq<T>, items: seq<T>, i: nat, shouldBeGrouped: (T, T) -> bool)
    requires i < |items| && Flatten(groups + [g]) == items[..i]
    requires Grouped(groups + [g], shouldBeGrouped) && |g| > 0
    requires shouldBeGrouped(g[|g| - 1], items[i])
    ensures Grouped(groups + [g + [items[i]]], shouldBeGrouped)
    ensures Flatten(groups + [g + [items[i]]]) == items[..i + 1]
  {
    var x := items[i];
    var before, after := groups + [g], groups + [g + [x]];
    var n := |after|;
    assert |before| == n;
    forall k | 0 <= k < n
      ensures |after[k]| > 0
    {
      if k < n - 1 {
        assert after[k] == before[k];
      }
    }
    forall k, j | 0 <= k < n && 0 <= j < |after[k]| - 1
      ensures shouldBeGrouped(after[k][j], after[k][j + 1])
    {
      if k < n - 1 {
        assert after[k] == before[k];
      } else if j < |g| - 1 {
        assert after[k][j] == g[j] && after[k][j + 1] == g[j + 1] && before[k] == g;
      } else {
        assert after[k][j] == g[|g| - 1] && after[k][j + 1] == x;
      }
    }
    forall k | 0 <= k < n - 1 && |after[k]| > 0 && |after[k + 1]| > 0
      ensures !shouldBeGrouped(after[k][|after[k]| - 1], after[k + 1][0])
    {
      assert after[k] == before[k];
      if k + 1 < n - 1 {
        assert after[k + 1] == before[k + 1];
      } else {
        assert after[k + 1][0] == g[0] == before[k + 1][0];
      }
    }
    FlattenAppend(groups, g);
    FlattenAppend(groups, g + [x]);
    assert items[..i + 1] == items[..i] + [x];
  }

  /** Starting a new group at an item that does not group with the last one
      keeps the laws. */
  lemma GroupedStart<T>(groups: seq<seq<T>>, g: seq<T>, items: seq<T>, i: nat, shouldBeGrouped: (T, T) -> bool)
    requires i < |items| && Flatten(groups + [g]) == items[..i]
    requires Grouped(groups + [g], shouldBeGrouped) && |g| > 0
    requires !shouldBeGrouped(g[|g| - 1], items[i])
    ensures Grouped(groups + [g] + [[items[i]]], shouldBeGrouped)
    ensures Flatten(groups + [g] + [[items[i]]]) == items[..i + 1]
  {
    var x := items[i];
    var before, after := groups + [g], groups + [g] + [[x]];
    var n := |after|;
    assert |before| == n - 1;
    forall k | 0 <= k < n
      ensures |after[k]| > 0
    {
      if k < n - 1 {
        assert after[k] == before[k];
      }
    }
    forall k, j | 0 <= k < n && 0 <= j < |after[k]| - 1
      ensures shouldBeGrouped(after[k][j], after[k][j + 1])
    {
      assert k < n - 1;
      assert after[k] == before[k];
    }
    forall k | 0 <= k < n - 1 && |after[k]| > 0 && |after[k + 1]| > 0
      ensures !shouldBeGrouped(after[k][|after[k]| - 1], after[k + 1][0])
    {
      assert after[k] == before[k];
      if k + 1 < n - 1 {
        assert after[k + 1] == before[k + 1];
      } else {
        assert after[k] == g && after[k + 1][0] == x;
      }
    }
    FlattenAppend(groups + [g], [x]);
    assert items[..i + 1] == items[..i] + [x];
  }

  lemma GroupedSingle<T>(item: T, shouldBeGrouped: (T, T) -> bool)
    ensures Grouped([[item]], shouldBeGrouped)
  {
  }

  /** One step of the grouping: `item` joins the last group when it groups
      with `prev`, the item before it, and opens a new group otherwise. */
  function GroupStep<T>(gs: seq<seq<T>>, prev: T, item: T, shouldBeGrouped: (T, T) -> bool): seq<seq<T>>
  {
    if |gs| > 0 && shouldBeGrouped(prev, item) then gs[..|gs| - 1] + [gs[|gs| - 1] + [item]]
    else gs + [[item]]
  }

  /** The groups `group_adjacent_by` yields, item by item. */
  function GroupSpec<T>(items: seq<T>, shouldBeGrouped: (T, T) -> bool): seq<seq<T>>
    decreases |items|
  {
    if |items| == 0 then []
    else if |items| == 1 then [[items[0]]]
    else
      var init := items[..|items| - 1];
      GroupStep(GroupSpec(init, shouldBeGrouped), init[|init| - 1], items[|items| - 1], shouldBeGrouped)
  }

  /** A step keeps the grouping laws and the link to the items. */
  lemma GroupStepFacts<T>(gs: seq<seq<T>>, items: seq<T>, i: nat, shouldBeGrouped: (T, T) -> bool)
    requires 0 < i < |items|
    requires Flatten(gs) == items[..i] && Grouped(gs, shouldBeGrouped)
    requires |gs| > 0 && |gs[|gs| - 1]| > 0 && gs[|gs| - 1][|gs[|gs| - 1]| - 1] == items[i - 1]
    ensures var r := GroupStep(gs, items[i - 1], items[i], shouldBeGrouped);
      && Flatten(r) == items[..i + 1] && Grouped(r, shouldBeGrouped)
      && |r| > 0 && |r[|r| - 1]| > 0 && r[|r| - 1][|r[|r| - 1]| - 1] == items[i]
  {
    var front, g := gs[..|gs| - 1], gs[|gs| - 1];
    assert front + [g] == gs;
    if shouldBeGrouped(items[i - 1], items[i]) {
      GroupedExtend(front, g, items, i, shouldBeGrouped);
    } else {
      GroupedStart(front, g, items, i, shouldBeGrouped);
    }
  }

  /** The grouping laws hold for `GroupSpec`, and its last group ends with
      the last item. */
  lemma {:induction false} GroupSpecFacts<T>(items: seq<T>, shouldBeGrouped: (T, T) -> bool)
    requires |items| > 0
    ensures var gs := GroupSpec(items, shouldBeGrouped);
      && Flatten(gs) == items && Grouped(gs, shouldBeGrouped)
      && |gs| > 0 && |gs[|gs| - 1]| > 0 && gs[|gs| - 1][|gs[|gs| - 1]| - 1] == items[|items| - 1]
    decreases |items|
  {
    if |items| == 1 {
      GroupedSingle(items[0], shouldBeGrouped);
      assert items == [items[0]];
    } else {
      var i := |items| - 1;
      var init := items[..i];
      GroupSpecFacts(init, shouldBeGrouped);
      GroupStepFacts(GroupSpec(init, shouldBeGrouped), items, i, shouldBeGrouped);
      assert items[..i + 1] == items;
    }
  }

  /** `group_adjacent_by`: the groups it yields, in order. */
  method GroupAdjacentBy<T>(items: seq<T>, shouldBeGrouped: (T, T) -> bool) returns (groups: seq<seq<T>>)
    ensures Flatten(groups) == items
    ensures Grouped(groups, shouldBeGrouped)
    ensures |items| == 0 <==> groups == []
  {
    groups := [];
    var currentGroup: Option<seq<T>> := None;
    var last: Option<T> := None;
    for i := 0 to |items|
      invariant last == if i == 0 then None else Some(items[i - 1])
      invariant i == 0 ==> currentGroup == None && groups == []
      invariant i > 0 ==> currentGroup.Some? && GroupSpec(items[..i], shouldBeGrouped) == groups + [currentGroup.value]
    {
      var item := items[i];
      assert items[..i + 1][..i] == items[..i];
      assert i > 0 ==> GroupSpec(items[..i + 1], shouldBeGrouped) ==
                       GroupStep(GroupSpec(items[..i], shouldBeGrouped), items[i - 1], item, shouldBeGrouped);
      if last.Some? && shouldBeGrouped(last.value, item) {
        currentGroup := Some(currentGroup.value + [item]);
      } else {
        if currentGroup.Some? {
          groups := groups + [currentGroup.value];
        }
        currentGroup := Some([item]);
      }
      last := Some(item);
    }
    assert items[..|items|] == items;
    if currentGroup.Some? {
      groups := groups + [currentGroup.value];
    }
    if |items| > 0 {
      GroupSpecFacts(items, shouldBeGrouped);
    }
  }
}

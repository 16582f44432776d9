/** Edits addressed by offsets into a string. */
module OffsetEdits {
  import opened Wrappers
  import opened OffsetRanges

  /** Replaces the text in `replaceRange` by `newText`. */
  datatype SingleOffsetEdit = SingleOffsetEdit(replaceRange: OffsetRange, newText: string) {
    /** `is_empty`: an edit that inserts nothing over an empty range. */
    predicate IsEmpty() {
      |newText| == 0 && replaceRange.Len() == 0
    }
  }

  /** An edit is empty exactly when its new text is empty and its range is
      empty. */
  lemma SingleOffsetEditEmptyIff(e: SingleOffsetEdit)
    ensures e.IsEmpty() <==> e.newText == "" && e.replaceRange.IsEmpty()
  {
  }

  /** A list of single edits in increasing offset order. */
  datatype OffsetEdit = OffsetEdit(edits: seq<SingleOffsetEdit>)

  /** The end the constructor compares edit i against: -1 for the first
      edit, the end of the previous edit otherwise. */
  function PrevEnd(edits: seq<SingleOffsetEdit>, i: int): int
    requires 0 <= i < |edits|
  {
    if i == 0 then -1 else edits[i - 1].replaceRange.endExclusive
  }

  /** Every edit starts at or after the previous one's end; edits may touch. */
  ghost predicate Ordered(edits: seq<SingleOffsetEdit>) {
    forall i :: 0 <= i < |edits| ==> PrevEnd(edits, i) <= edits[i].replaceRange.start
  }

  /** The `OffsetEdit` constructor: raises ValueError at the first edit that
      starts before the previous end, and otherwise keeps the list as given. */
  method MakeOffsetEdit(edits: seq<SingleOffsetEdit>) returns (r: Result<OffsetEdit>)
    ensures r.Ok? <==> Ordered(edits)
    ensures r.Ok? ==> r.value.edits == edits
    ensures r.Err? ==> r.error == ValueError
  {
    var lastEndEx := -1;
    for i := 0 to |edits|
      invariant lastEndEx == if i == 0 then -1 else edits[i - 1].replaceRange.endExclusive
      invariant forall k :: 0 <= k < i ==> PrevEnd(edits, k) <= edits[k].replaceRange.start
    {
      if !(edits[i].replaceRange.start >= lastEndEx) {
        return Err(ValueError);
      }
      lastEndEx := edits[i].replaceRange.endExclusive;
    }
    return Ok(OffsetEdit(edits));
  }

  /** In an accepted list of well-formed edits no two edits overlap: each
      one ends at or before every later one starts, and only the first may
      start at -1. */
  lemma {:induction false} OrderedDisjoint(edits: seq<SingleOffsetEdit>, i: int, j: int)
    requires Ordered(edits)
    requires forall k :: 0 <= k < |edits| ==> edits[k].replaceRange.Valid()
    requires 0 <= i < j < |edits|
    ensures edits[i].replaceRange.endExclusive <= edits[j].replaceRange.start
    decreases j - i
  {
    if i + 1 < j {
      OrderedDisjoint(edits, i + 1, j);
      assert PrevEnd(edits, i + 1) <= edits[i + 1].replaceRange.start;
    } else {
      assert PrevEnd(edits, j) <= edits[j].replaceRange.start;
    }
  }

  /** The first edit is only checked against -1. */
  lemma FirstEditBound(edits: seq<SingleOffsetEdit>)
    requires |edits| > 0
    ensures Ordered(edits) ==> edits[0].replaceRange.start >= -1
    ensures Ordered([edits[0]]) <==> edits[0].replaceRange.start >= -1
  {
    assert PrevEnd(edits, 0) == -1;
    assert PrevEnd([edits[0]], 0) == -1;
  }
}

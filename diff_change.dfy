/** A change reported by the diff: a start and a length on each side. */
module DiffChanges {

  /** No field is validated, so negative lengths are representable. */
  datatype DiffChange = DiffChange(originalStart: int, originalLength: int,
                                   modifiedStart: int, modifiedLength: int)
  {
    /** `get_original_end`: one past the last original element. */
    function GetOriginalEnd(): (r: int)
      ensures r - originalStart == originalLength
      ensures r >= originalStart <==> originalLength >= 0
    {
      originalStart + originalLength
    }

    /** `get_modified_end`: one past the last modified element. */
    function GetModifiedEnd(): (r: int)
      ensures r - modifiedStart == modifiedLength
      ensures r >= modifiedStart <==> modifiedLength >= 0
    {
      modifiedStart + modifiedLength
    }
  }
}

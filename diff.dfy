/** The character sequence the string diff runs on. */
module DiffSequences {

  /** `StringDiffSequence`: wraps a string; the source is never changed. */
  class StringDiffSequence {
    const source: string

    constructor(source: string)
      ensures this.source == source
    {
      this.source := source;
    }

    /** `get_elements`: a fresh array of the character codes, one per
        character, all non-negative. */
    method GetElements() returns (chars: array<int>)
      ensures fresh(chars)
      ensures chars.Length == |source|
      ensures forall i :: 0 <= i < |source| ==> chars[i] == source[i] as int
      ensures forall i :: 0 <= i < chars.Length ==> chars[i] >= 0
    {
      chars := new int[|source|](_ => 0);
      for i := 0 to |source|
        invariant forall k :: 0 <= k < i ==> chars[k] == source[k] as int
        invariant forall k :: 0 <= k < chars.Length ==> chars[k] >= 0
      {
        chars[i] := source[i] as int;
      }
    }
  }
}

/** String scans: common prefix and suffix lengths, and the first and last
    characters that are not blanks. */
module Strings {
  import opened Wrappers
  import Ints

  /** Character codes of `CharCode.SPACE` and `CharCode.TAB`. */
  const Space: int := 32
  const Tab: int := 9

  /** Only space and tab count as blanks in these scans. */
  predicate IsBlank(c: char) {
    c as int == Space || c as int == Tab
  }

  /** `common_prefix_length`: the first `r` characters agree and, unless one
      string is used up, the next ones differ. */
  method CommonPrefixLength(a: string, b: string) returns (r: int)
    ensures 0 <= r <= Ints.Min(|a|, |b|)
    ensures a[..r] == b[..r]
    ensures r < Ints.Min(|a|, |b|) ==> a[r] != b[r]
    ensures a == b ==> r == |a|
  {
    var length := Ints.Min(|a|, |b|);
    for i := 0 to length
      invariant a[..i] == b[..i]
    {
      if a[i] as int != b[i] as int {
        return i;
      }
      assert a[..i + 1] == a[..i] + [a[i]] && b[..i + 1] == b[..i] + [b[i]];
    }
    return length;
  }

  /** `common_suffix_length`: the last `r` characters agree and, unless one
      string is used up, the characters just before them differ. */
  method CommonSuffixLength(a: string, b: string) returns (r: int)
    ensures 0 <= r <= Ints.Min(|a|, |b|)
    ensures a[|a| - r..] == b[|b| - r..]
    ensures r < Ints.Min(|a|, |b|) ==> a[|a| - r - 1] != b[|b| - r - 1]
    ensures a == b ==> r == |a|
  {
    var length := Ints.Min(|a|, |b|);
    var aLastIndex := |a| - 1;
    var bLastIndex := |b| - 1;
    for i := 0 to length
      invariant a[|a| - i..] == b[|b| - i..]
    {
      if a[aLastIndex - i] as int != b[bLastIndex - i] as int {
        return i;
      }
      assert a[|a| - (i + 1)..] == [a[aLastIndex - i]] + a[|a| - i..];
      assert b[|b| - (i + 1)..] == [b[bLastIndex - i]] + b[|b| - i..];
    }
    return length;
  }

  /** `first_non_whitespace_index`: -1 iff every character is a blank;
      otherwise the first non-blank index, with only blanks before it. */
  method FirstNonWhitespaceIndex(source: string) returns (r: int)
    ensures r == -1 <==> forall k :: 0 <= k < |source| ==> IsBlank(source[k])
    ensures r != -1 ==> 0 <= r < |source| && !IsBlank(source[r]) &&
                        forall k :: 0 <= k < r ==> IsBlank(source[k])
  {
    for i := 0 to |source|
      invariant forall k :: 0 <= k < i ==> IsBlank(source[k])
    {
      var chCode := source[i] as int;
      if chCode != Space && chCode != Tab {
        return i;
      }
    }
    return -1;
  }

  /** `last_non_whitespace_index`: scans down from `startIndex` (by default
      the last index) and returns the largest index at or below it that is
      not a blank, or -1. A start index at or past the end would make the
      first read fail, so callers keep it below |source|. */
  method LastNonWhitespaceIndex(source: string, startIndex: Option<int>) returns (r: int)
    requires startIndex.Some? ==> startIndex.value < |source|
    ensures var s := if startIndex.Some? then startIndex.value else |source| - 1;
      && (r == -1 <==> forall k :: 0 <= k <= s ==> IsBlank(source[k]))
      && (r != -1 ==> 0 <= r <= s && !IsBlank(source[r]) &&
                      forall k :: r < k <= s ==> IsBlank(source[k]))
  {
    var start := if startIndex.Some? then startIndex.value else |source| - 1;
    var i := start;
    while i > -1
      invariant i <= start && (i >= -1 || i == start)
      invariant forall k :: i < k <= start ==> IsBlank(source[k])
    {
      var chCode := source[i] as int;
      if chCode != Space && chCode != Tab {
        return i;
      }
      i := i - 1;
    }
    return -1;
  }
}

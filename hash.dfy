/** The string hash the diff uses to bucket lines. */
module Hashes {

  /** `number_hash`: on Python's unbounded integers `h << 5` is `h * 32`
      and `| 0` leaves the value as it is, so this is `31 * h + val`. */
  function NumberHash(val: int, initialHashVal: int): (r: int)
    ensures r == 31 * initialHashVal + val
  {
    initialHashVal * 32 - initialHashVal + val
  }

  /** Folding `number_hash` over the characters, left to right. */
  function FoldHash(s: string, hashVal: int): int
  {
    if |s| == 0 then hashVal
    else NumberHash(s[|s| - 1] as int, FoldHash(s[..|s| - 1], hashVal))
  }

  /** The hash `string_hash` computes: a fixed salt, then every character. */
  function StringHashOf(source: string, hashVal: int): int
  {
    FoldHash(source, NumberHash(149417, hashVal))
  }

  /** `string_hash` */
  method StringHash(source: string, hashVal: int) returns (r: int)
    ensures r == StringHashOf(source, hashVal)
  {
    r := NumberHash(149417, hashVal);
    for i := 0 to |source|
      invariant r == FoldHash(source[..i], NumberHash(149417, hashVal))
    {
      assert source[..i + 1][..i] == source[..i];
      r := NumberHash(source[i] as int, r);
    }
    assert source[..|source|] == source;
  }

  /** The empty string hashes to the salt alone. */
  lemma StringHashEmpty(hashVal: int)
    ensures StringHashOf("", hashVal) == NumberHash(149417, hashVal)
  {
  }

  /** Characters are folded left to right: hashing a + b continues from
      the hash of a. */
  lemma {:induction false} FoldHashAppend(a: string, b: string, hashVal: int)
    ensures FoldHash(a + b, hashVal) == FoldHash(b, FoldHash(a, hashVal))
  {
    if |b| == 0 {
      assert a + b == a;
    } else {
      var b' := b[..|b| - 1];
      assert (a + b)[..|a + b| - 1] == a + b';
      FoldHashAppend(a, b', hashVal);
    }
  }

  /** `string_hash(s + c, h) == number_hash(ord(c), string_hash(s, h))`. */
  lemma StringHashSnoc(s: string, c: char, hashVal: int)
    ensures StringHashOf(s + [c], hashVal) == NumberHash(c as int, StringHashOf(s, hashVal))
  {
    FoldHashAppend(s, [c], NumberHash(149417, hashVal));
  }

  function Pow31(n: nat): (r: int)
    ensures r >= 1
  {
    if n == 0 then 1 else 31 * Pow31(n - 1)
  }

  /** The seed enters linearly: it is scaled by 31^|s| and the characters
      contribute the hash of the string from seed 0. */
  lemma {:induction false} FoldHashLinearInSeed(s: string, hashVal: int)
    ensures FoldHash(s, hashVal) == Pow31(|s|) * hashVal + FoldHash(s, 0)
  {
    if |s| > 0 {
      var init := s[..|s| - 1];
      FoldHashLinearInSeed(init, hashVal);
      calc {
        FoldHash(s, hashVal);
        31 * FoldHash(init, hashVal) + s[|s| - 1] as int;
        31 * (Pow31(|init|) * hashVal + FoldHash(init, 0)) + s[|s| - 1] as int;
        { assert 31 * (Pow31(|init|) * hashVal) == (31 * Pow31(|init|)) * hashVal; }
        Pow31(|s|) * hashVal + (31 * FoldHash(init, 0) + s[|s| - 1] as int);
        Pow31(|s|) * hashVal + FoldHash(s, 0);
      }
    }
  }
}

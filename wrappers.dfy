/** Shared failure-carrying datatypes for the model. A Python `raise ValueError`
    becomes `Err(ValueError)`, a failing `assert` statement becomes
    `Err(AssertionError)`, and a function returning `None` becomes `None`. */
module Wrappers {

  datatype Option<+T> = None | Some(value: T)

  /** The exceptions the modelled code raises on purpose. */
  datatype Error = ValueError | AssertionError

  datatype Result<+T> = Ok(value: T) | Err(error: Error)

  /** Value of MAX_SAFE_SMALL_INT. `vscodiff/common/uint.py` is not part of this
      model; the proofs only use that the constant is positive. */
  const MaxSafeSmallInt: int := 0x4000_0000
}

/** Python's built-in `min` and `max` on two integers. */
module Ints {
  function Min(a: int, b: int): (r: int)
    ensures r <= a && r <= b && (r == a || r == b)
  {
    if a <= b then a else b
  }

  function Max(a: int, b: int): (r: int)
    ensures r >= a && r >= b && (r == a || r == b)
  {
    if a >= b then a else b
  }
}

/** Python's `s[lo:hi]` on a sequence: negative bounds count from the end, and
    both bounds are clamped into `[0, |s|]`. */
module Slices {

  /** Where a Python slice bound lands in a sequence of length `n`. */
  function Clamp(i: int, n: nat): (r: nat)
    ensures r <= n
    ensures 0 <= i <= n ==> r == i
    ensures i > n ==> r == n
    ensures i < 0 ==> r == if n + i < 0 then 0 else n + i
  {
    if i < 0 then (if n + i < 0 then 0 else n + i)
    else if i > n then n
    else i
  }

  function Slice<T>(s: seq<T>, lo: int, hi: int): (r: seq<T>)
    ensures 0 <= lo <= hi <= |s| ==> r == s[lo..hi]
    ensures |r| <= |s|
  {
    var a := Clamp(lo, |s|);
    var b := Clamp(hi, |s|);
    if a < b then s[a..b] else []
  }

  /** `s[lo:]` */
  function SliceFrom<T>(s: seq<T>, lo: int): (r: seq<T>)
    ensures 0 <= lo <= |s| ==> r == s[lo..]
  {
    Slice(s, lo, |s|)
  }

  /** `s[:hi]` */
  function SliceTo<T>(s: seq<T>, hi: int): (r: seq<T>)
    ensures 0 <= hi <= |s| ==> r == s[..hi]
    ensures hi >= |s| ==> r == s
  {
    Slice(s, 0, hi)
  }
}

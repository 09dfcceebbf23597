/**
 The arithmetic helpers of the JavaScript `Math` object that the model needs:
 the `Math.max(lo, Math.min(hi, v))` clamping idiom and `Math.round`.
 */
module Numeric {

  /** `Math.max(lo, Math.min(hi, v))` on reals. When `lo > hi` the lower bound wins. */
  function Clamp(lo: real, hi: real, v: real): (r: real)
    ensures lo <= hi ==> lo <= r <= hi
    ensures lo <= v <= hi ==> r == v
    ensures v < lo || hi < lo ==> r == lo
    ensures lo <= hi < v ==> r == hi
  {
    var m := if hi < v then hi else v;
    if lo < m then m else lo
  }

  /** The same clamping idiom on integers: on integer bounds the real clamp is an integer. */
  function ClampInt(lo: int, hi: int, v: int): (r: int)
    ensures lo <= hi ==> lo <= r <= hi
    ensures lo <= v <= hi ==> r == v
    ensures v < lo || hi < lo ==> r == lo
    ensures lo <= hi < v ==> r == hi
  {
    Clamp(lo as real, hi as real, v as real).Floor
  }

  /**
   `Math.round`: the nearest integer, halves rounded towards +infinity.
   The contract determines the result uniquely.
   */
  function RoundHalfUp(v: real): (r: int)
    ensures r as real - 0.5 <= v < r as real + 0.5
  {
    (v + 0.5).Floor
  }

  /** Rounding keeps any integer bounds that held of the exact value. */
  lemma RoundWithin(v: real, lo: int, hi: int)
    requires lo as real <= v <= hi as real
    ensures lo <= RoundHalfUp(v) <= hi
  {
  }

  /** Rounding is monotonic. */
  lemma RoundMonotonic(v: real, w: real)
    requires v <= w
    ensures RoundHalfUp(v) <= RoundHalfUp(w)
  {
  }
}

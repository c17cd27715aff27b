/** The normalisation policy between raw samples and float heights:
    divide by 32767 when decoding, multiply by 32767 and truncate toward zero
    when encoding. Heights are exact reals here; the float32 rounding of the
    original is not part of this model. */
module Normalization {

  /** The largest value of a C# `short`, the divisor of both directions. */
  const MaxShort: int := 32767

  /** `short_value / max_short`: the height a raw sample stands for. No
      clamping: samples above 32767 give heights above 1. */
  function Normalize(s: int): real
  {
    s as real / MaxShort as real
  }

  /** Python's `int(x)` on a float: truncation toward zero. */
  function Trunc(x: real): (r: int)
    ensures 0.0 <= x ==> 0 <= r && r as real <= x < r as real + 1.0
    ensures x < 0.0 ==> r <= 0 && r as real - 1.0 < x <= r as real
  {
    if 0.0 <= x then x.Floor else -((-x).Floor)
  }

  /** `int(float_value * max_short)`: the raw sample a height is written as. */
  function Quantize(f: real): int
  {
    Trunc(f * MaxShort as real)
  }

  /** Every sample a raw file can hold (0..65535) has a height in
      [0, 65535 / 32767], far below the initial running minimum 32767. */
  lemma NormalizeRange(s: int)
    requires 0 <= s <= 65535
    ensures 0.0 <= Normalize(s) <= 65535.0 / 32767.0
    ensures Normalize(s) < MaxShort as real
  {
  }

  /** The quantised sample fits in two unsigned bytes exactly when the scaled
      height lies strictly between -1 and 65536: a slightly negative height
      truncates to 0 and is still written, anything below -1/32767 is not. */
  lemma QuantizeFitsIff(f: real)
    ensures 0 <= Quantize(f) <= 65535 <==> -1.0 < f * 32767.0 < 65536.0
  {
  }
}

/**
 * Unsigned 8-bit channel values and the integer arithmetic the pixel engine
 * needs: Rust's saturating `u8` operations, and rounding a quotient by 255 to
 * the nearest integer (the blends compute `(x as f32 / 255.0).round()`).
 */
module ByteMath {

  /** An unsigned 8-bit value, Rust's `u8`. */
  type Byte = x: int | 0 <= x < 256

  /** `x.saturating_add(y)` on `u8`: the sum, capped at 255 instead of wrapping. */
  function SaturatingAdd(x: Byte, y: Byte): (r: Byte)
    ensures r <= x + y
    ensures r == x + y || r == 255
  {
    if x + y > 255 then 255 else x + y
  }

  /** `x.saturating_sub(y)` on `u8`: the difference, floored at 0 instead of wrapping. */
  function SaturatingSub(x: Byte, y: Byte): (r: Byte)
    ensures r >= x - y
    ensures r == x - y || r == 0
  {
    if y <= x then x - y else 0
  }

  /** `x.saturating_mul(y)` on `u8`: the product, capped at 255 instead of wrapping. */
  function SaturatingMul(x: Byte, y: Byte): (r: Byte)
    ensures r <= x * y
    ensures r == x * y || r == 255
  {
    if x * y > 255 then 255 else x * y
  }

  /**
   * The integer nearest to p / 255. Since 255 is odd, p / 255 is never exactly
   * halfway between two integers, so the tie rule of `f32::round` never matters.
   */
  function Round255(p: nat): (r: nat)
    ensures -255 < 2 * p - 510 * r < 255
    ensures p <= 255 * 255 ==> r <= 255
  {
    var q := (2 * p + 255) / 510;
    var m := (2 * p + 255) % 510;
    assert 2 * p + 255 == 510 * q + m && 0 <= m < 510;
    // m is odd, so it is not 0 and p / 255 is never exactly q - 1/2
    assert m == 2 * (p + 127 - 255 * q) + 1;
    q
  }

  /** Round255(p) is the only integer within half a unit of p / 255. */
  lemma RoundUnique(p: nat, q: int)
    requires -255 < 2 * p - 510 * q < 255
    ensures q == Round255(p)
  {
    var r := Round255(p);
    assert -510 < 510 * (r - q) < 510;
  }

  /** Rounding is monotonic in the numerator, bounded by any q with p <= 255 q. */
  lemma RoundAtMost(p: nat, q: nat)
    requires p <= 255 * q
    ensures Round255(p) <= q
  {
    var r := Round255(p);
    assert 510 * r < 2 * p + 255 + 1;
  }

  /** Rounding commutes with complementing against 255 * 255. */
  lemma RoundComplement(p: nat)
    requires p <= 255 * 255
    ensures Round255(255 * 255 - p) == 255 - Round255(p)
  {
    var r := Round255(p);
    RoundUnique(255 * 255 - p, 255 - r);
  }

  /** Products of bounded non-negative factors are bounded by the product of the bounds. */
  lemma ProductBound(x: int, y: int, xMax: int, yMax: int)
    requires 0 <= x <= xMax && 0 <= y <= yMax
    ensures 0 <= x * y <= xMax * yMax
  {
    assert x * y <= xMax * y;
    assert xMax * y <= xMax * yMax;
  }
}

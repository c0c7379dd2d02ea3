/** Small shared definitions: an optional value and the arithmetic of JavaScript's `Math.round`. */
module Common {

  /** A value that may be absent, for the source's `null` / `undefined` results. */
  datatype Option<+T> = None | Some(value: T)

  function Min(a: int, b: int): int { if a <= b then a else b }

  function Max(a: int, b: int): int { if a >= b then a else b }

  /** `Math.round(num / den)` on exact rationals: the nearest integer, halves rounded up. */
  function RoundDiv(num: int, den: int): (r: int)
    requires den > 0
    ensures 2 * r * den <= 2 * num + den < 2 * r * den + 2 * den
  {
    var q := (2 * num + den) / (2 * den);
    assert 2 * num + den == q * (2 * den) + (2 * num + den) % (2 * den);
    q
  }

  /** Multiplying both sides of an inequality by a non-negative number keeps it. */
  lemma MulMonotone(a: int, b: int, c: int)
    requires a <= b && c >= 0
    ensures a * c <= b * c
  {
    var d := b - a;
    assert b * c == a * c + d * c;
  }

  /** A ratio between 0 and `scale` rounds to an integer between 0 and `scale`. */
  lemma RoundDivBounded(num: int, den: int, scale: nat)
    requires den > 0 && 0 <= num <= scale * den
    ensures 0 <= RoundDiv(num, den) <= scale
  {
    var r := RoundDiv(num, den);
    if r < 0 {
      MulMonotone(r + 1, 0, den);
      assert false;
    }
    if r > scale {
      MulMonotone(scale + 1, r, den);
      assert false;
    }
  }

  /** A ratio of at least `k` rounds to at least `k`. */
  lemma RoundDivAtLeast(num: int, den: int, k: int)
    requires den > 0 && num >= k * den
    ensures RoundDiv(num, den) >= k
  {
    var r := RoundDiv(num, den);
    if r < k {
      MulMonotone(r + 1, k, den);
      assert false;
    }
  }

  /** A ratio of at most `k` rounds to at most `k`. */
  lemma RoundDivAtMost(num: int, den: int, k: int)
    requires den > 0 && num <= k * den
    ensures RoundDiv(num, den) <= k
  {
    var r := RoundDiv(num, den);
    if r > k {
      MulMonotone(k + 1, r, den);
      assert false;
    }
  }

  /** Rounding keeps the order of ratios over the same denominator. */
  lemma RoundDivMonotone(a: int, b: int, den: int)
    requires den > 0 && a <= b
    ensures RoundDiv(a, den) <= RoundDiv(b, den)
  {
    var ra, rb := RoundDiv(a, den), RoundDiv(b, den);
    if ra > rb {
      MulMonotone(rb + 1, ra, den);
      assert false;
    }
  }

  /** `Math.round(100 * part / whole)`, the percentage the source reports, or 0 when `whole` is 0. */
  function Percent(part: nat, whole: nat): (r: int)
    ensures whole == 0 ==> r == 0
    ensures whole > 0 ==> 2 * r * whole <= 200 * part + whole < 2 * r * whole + 2 * whole
    ensures part <= whole ==> 0 <= r <= 100
    ensures 0 < whole && part == whole ==> r == 100
    ensures part == 0 ==> r == 0
  {
    if whole == 0 then 0
    else
      var r := RoundDiv(100 * part, whole);
      if part <= whole then
        RoundDivBounded(100 * part, whole, 100);
        assert part == whole ==> r == 100 by {
          if part == whole && r < 100 {
            MulMonotone(r + 1, 100, whole);
          }
        }
        assert part == 0 ==> r == 0 by {
          if part == 0 && r > 0 {
            MulMonotone(1, r, whole);
          }
        }
        r
      else r
  }
}

/**
  Prices as exact decimals. A listed price is whatever number the user typed or the
  request carried; it is held as `mantissa / 10^scale`, so `45300`, `45300.00` and
  `45300.5` are all exact and rounding them needs no floating point.
*/
module Money {
  import opened Rounding

  /** The number `mantissa / 10^scale`. */
  datatype Decimal = Decimal(mantissa: int, scale: nat)

  function Pow10(n: nat): (p: nat)
    ensures p >= 1
  {
    if n == 0 then 1 else 10 * Pow10(n - 1)
  }

  /** The value of `d` is at most the value of `e`, compared without division. */
  predicate AtMost(d: Decimal, e: Decimal)
  {
    d.mantissa * Pow10(e.scale) <= e.mantissa * Pow10(d.scale)
  }

  /** A whole-dollar amount as a decimal. */
  function Whole(x: int): (d: Decimal)
    ensures d.mantissa == x * Pow10(d.scale)
  {
    Decimal(x, 0)
  }

  /** `r` is a nearest multiple of 100 to `m / p`, the even one on a tie;
      `IsNearestHundred` with both sides scaled by `p`. */
  predicate NearestHundredScaled(m: int, p: int, r: int)
  {
    && r % 100 == 0
    && (r - 50) * p <= m <= (r + 50) * p
    && ((m == (r - 50) * p || m == (r + 50) * p) ==> (r / 100) % 2 == 0)
  }

  /** `r` is a nearest multiple of 100 to the value of `d`, the even one on a tie. */
  predicate IsNearestHundredOf(d: Decimal, r: int)
  {
    NearestHundredScaled(d.mantissa, Pow10(d.scale), r)
  }

  lemma MulMono(a: int, b: int, p: int)
    requires a <= b && p > 0
    ensures a * p <= b * p
  {
    assert b * p - a * p == (b - a) * p;
  }

  lemma MulCancel(a: int, b: int, p: int)
    requires a * p <= b * p && p > 0
    ensures a <= b
  {
    if a > b {
      MulMono(b + 1, a, p);
    }
  }

  /** A product with a positive factor is zero only when the other factor is. */
  lemma MulZero(a: int, p: int)
    requires p > 0
    ensures a * p == 0 <==> a == 0
  {
    if a > 0 {
      MulMono(1, a, p);
    } else if a < 0 {
      MulMono(a, -1, p);
    }
  }

  /** The value `whole + frac / p` lies between `r - 50` and `r + 50` when the whole part
      does and a fraction is present only below the upper end, and it hits an end only
      when the whole part does and there is no fraction. */
  lemma Bracket(whole: int, frac: int, p: int, r: int)
    requires p > 0 && 0 <= frac < p
    requires r - 50 <= whole <= r + 50
    requires whole == r + 50 ==> frac == 0
    ensures (r - 50) * p <= whole * p + frac <= (r + 50) * p
    ensures whole * p + frac == (r - 50) * p ==> whole == r - 50
    ensures whole * p + frac == (r + 50) * p ==> whole == r + 50
  {
    var a := whole - (r - 50);
    var b := (r + 50) - whole;
    assert whole * p + frac - (r - 50) * p == a * p + frac;
    assert (r + 50) * p - (whole * p + frac) == b * p - frac;
    MulMono(0, a, p);
    MulZero(a, p);
    MulZero(b, p);
    if b >= 1 {
      MulMono(1, b, p);
    }
  }

  /** Python's `round(price, -2)` on the exact value of `price`: split off the whole
      dollars; the fractional cents only matter when the whole part sits exactly on a
      tie, where any positive fraction tips the rounding upwards. */
  function RoundPrice(d: Decimal): (r: int)
    ensures IsNearestHundredOf(d, r)
  {
    var p := Pow10(d.scale);
    var whole := d.mantissa / p;
    var frac := d.mantissa % p;
    RoundPriceCorrect(d, whole, frac);
    if frac != 0 && whole % 100 == 50 then whole + 50 else RoundHundred(whole)
  }

  lemma RoundPriceCorrect(d: Decimal, whole: int, frac: int)
    requires whole == d.mantissa / Pow10(d.scale) && frac == d.mantissa % Pow10(d.scale)
    ensures IsNearestHundredOf(d, if frac != 0 && whole % 100 == 50 then whole + 50 else RoundHundred(whole))
  {
    var p := Pow10(d.scale);
    var r := if frac != 0 && whole % 100 == 50 then whole + 50 else RoundHundred(whole);
    assert d.mantissa == whole * p + frac && 0 <= frac < p;
    assert r % 100 == 0 && r - 50 <= whole <= r + 50;
    assert whole == r + 50 ==> frac == 0;
    assert (whole == r - 50 || whole == r + 50) && frac == 0 ==> (r / 100) % 2 == 0;
    SplitCorrect(d.mantissa, p, whole, frac, r);
  }

  /** The rounding specification for `m = whole * p + frac`, from facts about `whole`. */
  lemma SplitCorrect(m: int, p: int, whole: int, frac: int, r: int)
    requires p > 0 && 0 <= frac < p && m == whole * p + frac
    requires r % 100 == 0 && r - 50 <= whole <= r + 50
    requires whole == r + 50 ==> frac == 0
    requires (whole == r - 50 || whole == r + 50) && frac == 0 ==> (r / 100) % 2 == 0
    ensures NearestHundredScaled(m, p, r)
  {
    Bracket(whole, frac, p, r);
  }

  /** At most one value meets the specification of the rounded price. */
  lemma NearestHundredOfUnique(d: Decimal, r1: int, r2: int)
    requires IsNearestHundredOf(d, r1) && IsNearestHundredOf(d, r2)
    ensures r1 == r2
  {
    var p := Pow10(d.scale);
    if r1 < r2 {
      MulCancel(r2 - 50, r1 + 50, p);
    } else if r2 < r1 {
      MulCancel(r1 - 50, r2 + 50, p);
    }
  }

  /** The same number written with `k` more fractional digits. */
  function Rescale(d: Decimal, k: nat): (e: Decimal)
    ensures e.scale == d.scale + k
  {
    Decimal(d.mantissa * Pow10(k), d.scale + k)
  }

  lemma {:induction false} Pow10Add(a: nat, b: nat)
    ensures Pow10(a + b) == Pow10(a) * Pow10(b)
  {
    if a > 0 {
      Pow10Add(a - 1, b);
      assert Pow10(a + b) == 10 * Pow10(a - 1 + b);
      assert 10 * (Pow10(a - 1) * Pow10(b)) == (10 * Pow10(a - 1)) * Pow10(b);
    }
  }

  /** Multiplying by a positive factor keeps order and equality, both ways. */
  lemma MulCompare(a: int, b: int, q: int)
    requires q > 0
    ensures a <= b <==> a * q <= b * q
    ensures a == b <==> a * q == b * q
  {
    if a <= b {
      MulMono(a, b, q);
    } else {
      MulMono(b + 1, a, q);
    }
    MulZero(a - b, q);
    assert (a - b) * q == a * q - b * q;
  }

  lemma MulAssoc(a: int, b: int, c: int)
    ensures a * (b * c) == (a * b) * c
  {
  }

  /** Scaling the value and the denominator by the same factor keeps the rounding. */
  lemma NearestHundredScaledMul(m: int, p: int, q: int, r: int)
    requires p > 0 && q > 0 && NearestHundredScaled(m, p, r)
    ensures NearestHundredScaled(m * q, p * q, r)
  {
    var lo, hi := (r - 50) * p, (r + 50) * p;
    MulAssoc(r - 50, p, q);
    MulAssoc(r + 50, p, q);
    MulCompare(lo, m, q);
    MulCompare(m, hi, q);
  }

  /** Multiplying both sides of the rounding specification by `10^k` keeps it. */
  lemma NearestRescaled(d: Decimal, k: nat, r: int)
    requires IsNearestHundredOf(d, r)
    ensures IsNearestHundredOf(Rescale(d, k), r)
  {
    Pow10Add(d.scale, k);
    NearestHundredScaledMul(d.mantissa, Pow10(d.scale), Pow10(k), r);
  }

  /** Writing a price with more fractional digits does not change its rounding. */
  lemma RoundPriceRescale(d: Decimal, k: nat)
    ensures RoundPrice(Rescale(d, k)) == RoundPrice(d)
  {
    NearestRescaled(d, k, RoundPrice(d));
    NearestHundredOfUnique(Rescale(d, k), RoundPrice(Rescale(d, k)), RoundPrice(d));
  }

  /** With a common denominator, a larger numerator never has a smaller nearest
      hundred. */
  lemma NearestHundredScaledMonotone(m1: int, m2: int, p: int, r1: int, r2: int)
    requires p > 0 && m1 <= m2
    requires NearestHundredScaled(m1, p, r1) && NearestHundredScaled(m2, p, r2)
    ensures r1 <= r2
  {
    if r1 > r2 {
      // Both numerators would have to sit on the one tie between the two roundings.
      assert (r1 - 50) * p <= m1 && m2 <= (r2 + 50) * p;
      MulCancel(r1 - 50, r2 + 50, p);
      assert false;
    }
  }

  /** Between prices written to the same number of fractional digits, rounding keeps
      the order. */
  lemma RoundPriceMonotoneSameScale(d: Decimal, e: Decimal)
    requires d.scale == e.scale && d.mantissa <= e.mantissa
    ensures RoundPrice(d) <= RoundPrice(e)
  {
    NearestHundredScaledMonotone(d.mantissa, e.mantissa, Pow10(d.scale), RoundPrice(d), RoundPrice(e));
  }

  /** On whole dollars, rounding a price is rounding the amount. */
  lemma RoundPriceWhole(x: int)
    ensures RoundPrice(Whole(x)) == RoundHundred(x)
  {
    NearestHundredOfUnique(Whole(x), RoundPrice(Whole(x)), RoundHundred(x));
  }

  /** Rounding a price never reverses the order of two prices. */
  lemma RoundPriceMonotone(d: Decimal, e: Decimal)
    requires AtMost(d, e)
    ensures RoundPrice(d) <= RoundPrice(e)
  {
    RoundPriceRescale(d, e.scale);
    RoundPriceRescale(e, d.scale);
    RoundPriceMonotoneSameScale(Rescale(d, e.scale), Rescale(e, d.scale));
  }

  /** A rounded price is a whole number of hundreds that rounding leaves alone, whether
      it is rounded as a whole number or as a price. */
  lemma RoundPriceIdempotent(d: Decimal)
    ensures RoundPrice(d) % 100 == 0
    ensures RoundHundred(RoundPrice(d)) == RoundPrice(d)
    ensures RoundPrice(Whole(RoundPrice(d))) == RoundPrice(d)
  {
    var r := RoundPrice(d);
    assert IsNearestHundred(r, r);
    RoundHundredCharacterized(r, r);
    RoundPriceWhole(r);
  }

  /** Two notations of the same number round alike. */
  lemma RoundPriceSameValue(d: Decimal, e: Decimal)
    requires AtMost(d, e) && AtMost(e, d)
    ensures RoundPrice(d) == RoundPrice(e)
  {
    RoundPriceMonotone(d, e);
    RoundPriceMonotone(e, d);
  }

  /** Trailing zeros after the decimal point change nothing: `45300.00` rounds as `45300`. */
  lemma RoundPriceTrailingZeros(x: int, k: nat)
    ensures RoundPrice(Decimal(x * Pow10(k), k)) == RoundHundred(x)
  {
    RoundPriceRescale(Whole(x), k);
    RoundPriceWhole(x);
  }
}

/**
  Rounding of whole-dollar amounts to the nearest hundred, as Python's `round(x, -2)`
  does on an exactly representable value: the nearest multiple of 100, and on a tie
  (a remainder of exactly 50) the multiple whose quotient by 100 is even.
*/
module Rounding {

  /** `r` is a nearest multiple of 100 to `x`, and on a tie it is the even one. */
  predicate IsNearestHundred(x: int, r: int)
  {
    && r % 100 == 0
    && r - 50 <= x <= r + 50
    && ((x == r - 50 || x == r + 50) ==> (r / 100) % 2 == 0)
  }

  /** Python's `round(x, -2)` on an integer amount: half-to-even at the hundreds digit.
      Python's `//` and `%` floor; for the positive divisor 100 Dafny's Euclidean
      operators agree with them, negative amounts included. */
  function RoundHundred(x: int): (r: int)
    ensures IsNearestHundred(x, r)
  {
    var q := x / 100;
    var m := x % 100;
    if m < 50 then q * 100
    else if m > 50 then (q + 1) * 100
    else if q % 2 == 0 then q * 100
    else (q + 1) * 100
  }

  /** At most one value meets the specification of the rounded amount. */
  lemma NearestHundredUnique(x: int, r1: int, r2: int)
    requires IsNearestHundred(x, r1) && IsNearestHundred(x, r2)
    ensures r1 == r2
  {
  }

  /** The rounding function and its specification single out the same value. */
  lemma RoundHundredCharacterized(x: int, r: int)
    ensures IsNearestHundred(x, r) <==> r == RoundHundred(x)
  {
    if IsNearestHundred(x, r) {
      NearestHundredUnique(x, r, RoundHundred(x));
    }
  }

  /** A rounded amount is a multiple of 100, and rounding it again changes nothing. */
  lemma RoundHundredIdempotent(x: int)
    ensures RoundHundred(x) % 100 == 0
    ensures RoundHundred(RoundHundred(x)) == RoundHundred(x)
  {
    var r := RoundHundred(x);
    assert IsNearestHundred(r, r);
    NearestHundredUnique(r, r, RoundHundred(r));
  }

  /** Rounding to the nearest hundred never reverses the order of two amounts. */
  lemma RoundHundredMonotone(x: int, y: int)
    requires x <= y
    ensures RoundHundred(x) <= RoundHundred(y)
  {
  }
}

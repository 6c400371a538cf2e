/**
  The estimated selling range: the model's point estimate shifted by the low and high
  quantile offsets, each end rounded to the nearest hundred, and the pair put in order.
*/
module Ranges {
  import opened Rounding

  /** A price range in whole dollars; `lo <= hi` once it has been built. */
  datatype PriceRange = PriceRange(lo: int, hi: int)
  {
    predicate Ordered()
    {
      lo <= hi
    }
  }

  /** Offset the point estimate `pred` by `lowQ` and `highQ`, round both ends to the
      nearest hundred, and swap them if they came out inverted. The result is the two
      rounded ends, in order, and nothing else. */
  function BuildRange(pred: int, lowQ: int, highQ: int): (r: PriceRange)
    ensures r.Ordered()
    ensures var a, b := RoundHundred(pred + lowQ), RoundHundred(pred + highQ);
            (r.lo == a && r.hi == b) || (r.lo == b && r.hi == a)
  {
    var lo := RoundHundred(pred + lowQ);
    var hi := RoundHundred(pred + highQ);
    if lo > hi then PriceRange(hi, lo) else PriceRange(lo, hi)
  }

  /** Both ends are multiples of 100 and rounding them again leaves them unchanged. */
  lemma BuildRangeRounded(pred: int, lowQ: int, highQ: int)
    ensures var r := BuildRange(pred, lowQ, highQ);
            && r.lo % 100 == 0 && r.hi % 100 == 0
            && RoundHundred(r.lo) == r.lo && RoundHundred(r.hi) == r.hi
  {
    RoundHundredIdempotent(pred + lowQ);
    RoundHundredIdempotent(pred + highQ);
  }

  /** With offsets in their natural order the swap never happens: the low end comes from
      the low offset and the high end from the high offset. */
  lemma BuildRangeNoSwap(pred: int, lowQ: int, highQ: int)
    requires lowQ <= highQ
    ensures BuildRange(pred, lowQ, highQ)
            == PriceRange(RoundHundred(pred + lowQ), RoundHundred(pred + highQ))
  {
    RoundHundredMonotone(pred + lowQ, pred + highQ);
  }

  /** Exchanging the two offsets gives the same range. */
  lemma BuildRangeSymmetric(pred: int, lowQ: int, highQ: int)
    ensures BuildRange(pred, lowQ, highQ) == BuildRange(pred, highQ, lowQ)
  {
  }
}

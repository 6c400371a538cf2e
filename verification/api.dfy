/**
  The HTTP prediction endpoint, written step by step as the endpoint does it, and
  proved to agree with the shared range builder and classifier.
*/
module Api {
  import opened Wrappers
  import opened Rounding
  import opened Money
  import opened Ranges
  import opened Valuation

  /** The JSON response: the two ends of the range and, when a listed price was sent,
      the valuation text. */
  datatype Response = Response(estimatedRangeLow: int, estimatedRangeHigh: int, valuation: Option<string>)

  /** The response for point estimate `pred`, quantile offsets `lowQ` and `highQ`, and an
      optional listed price. */
  function Predict(pred: int, lowQ: int, highQ: int, listedPrice: Option<Decimal>): (r: Response)
    ensures PriceRange(r.estimatedRangeLow, r.estimatedRangeHigh) == BuildRange(pred, lowQ, highQ)
    ensures r.valuation.None? <==> listedPrice.None?
    ensures listedPrice.Some? ==>
              r.valuation == Some(ApiText(Valuate(listedPrice.value, BuildRange(pred, lowQ, highQ))))
  {
    var lo := RoundHundred(pred + lowQ);
    var hi := RoundHundred(pred + highQ);
    var (lo', hi') := if lo > hi then (hi, lo) else (lo, hi);
    var valuation :=
      if listedPrice.Some? then
        var p := RoundPrice(listedPrice.value);
        if p < lo' then Some(ApiText(Below))
        else if p > hi' then Some(ApiText(Above))
        else Some(ApiText(Around))
      else None;
    Response(lo', hi', valuation)
  }

  /** The returned low end never exceeds the high end, whatever the offsets; with the
      offsets in their natural order the low end comes from the low offset. */
  lemma ResponseOrdered(pred: int, lowQ: int, highQ: int, listedPrice: Option<Decimal>)
    ensures var r := Predict(pred, lowQ, highQ, listedPrice);
            && r.estimatedRangeLow <= r.estimatedRangeHigh
            && (lowQ <= highQ ==> r.estimatedRangeLow == RoundHundred(pred + lowQ)
                                  && r.estimatedRangeHigh == RoundHundred(pred + highQ))
  {
    if lowQ <= highQ {
      BuildRangeNoSwap(pred, lowQ, highQ);
    }
  }

  /** The category a response's valuation names. */
  function ResponseCategory(r: Response): Option<Category>
  {
    if r.valuation.Some? then CategoryOfText(r.valuation.value) else None
  }

  /** A listed price is valued Below exactly when its nearest hundred is under the low
      end, Above exactly when it is over the high end, and Around otherwise. */
  lemma ValuationTrichotomy(pred: int, lowQ: int, highQ: int, price: Decimal)
    ensures var r := Predict(pred, lowQ, highQ, Some(price));
            var p := RoundPrice(price);
            && (ResponseCategory(r) == Some(Below) <==> p < r.estimatedRangeLow)
            && (ResponseCategory(r) == Some(Above) <==> r.estimatedRangeHigh < p)
            && (ResponseCategory(r) == Some(Around) <==> r.estimatedRangeLow <= p <= r.estimatedRangeHigh)
  {
    var rng := BuildRange(pred, lowQ, highQ);
    CategoryOfApiText(Valuate(price, rng));
    ClassifyTrichotomy(RoundPrice(price), rng);
  }

  /** Raising the listed price never moves the valuation from Above to Around or Below,
      nor from Around to Below. */
  lemma ValuationMonotone(pred: int, lowQ: int, highQ: int, d: Decimal, e: Decimal)
    requires AtMost(d, e)
    ensures var cd := ResponseCategory(Predict(pred, lowQ, highQ, Some(d)));
            var ce := ResponseCategory(Predict(pred, lowQ, highQ, Some(e)));
            cd.Some? && ce.Some? && Rank(cd.value) <= Rank(ce.value)
  {
    var rng := BuildRange(pred, lowQ, highQ);
    CategoryOfApiText(Valuate(d, rng));
    CategoryOfApiText(Valuate(e, rng));
    ValuateMonotone(d, e, rng);
  }

  /** The worked example: estimate 18000 with offsets -1500 and +1200 and a listed
      price of 20000 gives the range 16500 to 19200 and "Above market price". */
  lemma Scenario()
    ensures Predict(18000, -1500, 1200, Some(Whole(20000)))
            == Response(16500, 19200, Some("Above market price"))
  {
    RoundPriceWhole(20000);
    assert RoundHundred(16500) == 16500 && RoundHundred(19200) == 19200;
    assert RoundHundred(20000) == 20000;
  }
}

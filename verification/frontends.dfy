/**
  The two front ends side by side: given the same point estimate, offsets and price,
  the form and the HTTP endpoint produce the same range and the same category, the form's
  label being the endpoint's text with a space and a coloured marker appended.
*/
module FrontEnds {
  import opened Wrappers
  import opened Money
  import opened Ranges
  import opened Valuation
  import opened PriceText
  import App
  import Api

  lemma SameRange(pred: int, lowQ: int, highQ: int, field: PriceField, listedPrice: Option<Decimal>)
    ensures var e := App.PredictRangeAndJudge(pred, lowQ, highQ, field);
            var r := Api.Predict(pred, lowQ, highQ, listedPrice);
            e.range.lo == r.estimatedRangeLow && e.range.hi == r.estimatedRangeHigh
  {
  }

  /** When the form reads its price field as the number the endpoint receives, both
      give the same category and the labels differ only by the marker suffix. */
  lemma SameValuation(pred: int, lowQ: int, highQ: int, s: string, price: Decimal)
    requires ReadPrice(Text(s)) == Price(price)
    ensures var e := App.PredictRangeAndJudge(pred, lowQ, highQ, Text(s));
            var r := Api.Predict(pred, lowQ, highQ, Some(price));
            var c := Valuate(price, e.range);
            && r.valuation == Some(ApiText(c))
            && e.verdict == r.valuation.value + " " + [Marker(c)]
  {
  }
}

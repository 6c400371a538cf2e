/**
  The web form's estimate handler, written step by step as the form does it, and
  proved to agree with the shared range builder, price reader and classifier.
*/
module App {
  import opened Wrappers
  import opened Rounding
  import opened Money
  import opened Ranges
  import opened Valuation
  import opened PriceText

  /** The handler's outputs: the range (shown as formatted text) and the label text. */
  datatype Estimate = Estimate(range: PriceRange, verdict: string)

  /** The form's label for a reading of its price field against a range. */
  function LabelFor(reading: PriceReading, rng: PriceRange): (verdict: string)
    ensures verdict == "" <==> reading.NoPrice?
    ensures verdict == InvalidPriceText <==> reading.Unparseable?
    ensures reading.Price? ==> verdict == UiText(Valuate(reading.value, rng))
  {
    match reading
    case NoPrice => ""
    case Unparseable => InvalidPriceText
    case Price(p) => UiText(Valuate(p, rng))
  }

  /** The form's label block, step by step: a label only when the price field holds
      text that is not blank; the cleaned text is parsed and its nearest hundred compared
      with the ends of `rng`, and a text that is not a number gets
      "Invalid price input". */
  function JudgePrice(userPrice: PriceField, rng: PriceRange): (verdict: string)
    ensures verdict == LabelFor(ReadPrice(userPrice), rng)
  {
    var lo, hi := rng.lo, rng.hi;
    JudgeMatchesLibrary(userPrice, rng);
    if userPrice.Text? && Strip(userPrice.s) != "" then
      match ParseNumber(Clean(userPrice.s))
      case Some(p) =>
        var pR := RoundPrice(p);
        if pR < lo then UiText(Below)
        else if pR > hi then UiText(Above)
        else UiText(Around)
      case None => InvalidPriceText
    else ""
  }

  lemma JudgeMatchesLibrary(userPrice: PriceField, rng: PriceRange)
    ensures LabelFor(ReadPrice(userPrice), rng)
            == if userPrice.Text? && Strip(userPrice.s) != "" then
                 match ParseNumber(Clean(userPrice.s))
                 case Some(p) =>
                   if RoundPrice(p) < rng.lo then UiText(Below)
                   else if RoundPrice(p) > rng.hi then UiText(Above)
                   else UiText(Around)
                 case None => InvalidPriceText
               else ""
  {
    match userPrice
    case NotText =>
    case Text(s) =>
      StripBlank(s);
  }

  /** The estimate for point estimate `pred` and quantile offsets `lowQ`, `highQ`: the
      ordered rounded range, and the label the shared library gives the reading of the
      price field against that range. */
  function PredictRangeAndJudge(pred: int, lowQ: int, highQ: int, userPrice: PriceField): (e: Estimate)
    ensures e.range == BuildRange(pred, lowQ, highQ)
    ensures e.verdict == LabelFor(ReadPrice(userPrice), e.range)
  {
    var lo := pred + lowQ;
    var hi := pred + highQ;
    var loR := RoundHundred(lo);
    var hiR := RoundHundred(hi);
    var range := if loR > hiR then PriceRange(hiR, loR) else PriceRange(loR, hiR);
    assert range == BuildRange(pred, lowQ, highQ);
    Estimate(range, JudgePrice(userPrice, range))
  }

  /** The range is always ordered and its ends are multiples of 100; a field that is not
      text or is blank gives no label, and a field that does not parse gives the invalid
      label while the range is still produced. */
  lemma EstimateCases(pred: int, lowQ: int, highQ: int, userPrice: PriceField)
    ensures var e := PredictRangeAndJudge(pred, lowQ, highQ, userPrice);
            && e.range.lo <= e.range.hi
            && e.range.lo % 100 == 0 && e.range.hi % 100 == 0
            && (userPrice.NotText? || AllSpace(userPrice.s) ==> e.verdict == "")
            && (userPrice.Text? && !AllSpace(userPrice.s) && ParseNumber(Clean(userPrice.s)).None?
                ==> e.verdict == InvalidPriceText)
  {
    BuildRangeRounded(pred, lowQ, highQ);
  }

  /** A parsed price is labelled Below exactly when its nearest hundred is under the
      range, Above exactly when it is over, and Around otherwise, ends included. */
  lemma LabelTrichotomy(pred: int, lowQ: int, highQ: int, s: string, p: Decimal)
    requires ReadPrice(Text(s)) == Price(p)
    ensures var e := PredictRangeAndJudge(pred, lowQ, highQ, Text(s));
            && (e.verdict == UiText(Below) <==> RoundPrice(p) < e.range.lo)
            && (e.verdict == UiText(Above) <==> e.range.hi < RoundPrice(p))
            && (e.verdict == UiText(Around) <==> e.range.lo <= RoundPrice(p) <= e.range.hi)
  {
    var e := PredictRangeAndJudge(pred, lowQ, highQ, Text(s));
    var c := Valuate(p, e.range);
    ClassifyTrichotomy(RoundPrice(p), e.range);
    LabelsDistinct(c, Below);
    LabelsDistinct(c, Around);
    LabelsDistinct(c, Above);
  }

  /** A `,` or `$` inserted anywhere in a price field that is not blank changes neither
      the range nor the label. */
  lemma LabelIgnoresSeparator(pred: int, lowQ: int, highQ: int, a: string, c: char, b: string)
    requires c == ',' || c == '$'
    requires !AllSpace(a + b)
    ensures PredictRangeAndJudge(pred, lowQ, highQ, Text(a + [c] + b))
            == PredictRangeAndJudge(pred, lowQ, highQ, Text(a + b))
  {
    ReadPriceIgnoresSeparator(a, c, b);
  }

  /** The field text of a whole number reads as that number. */
  lemma ReadShowNat(n: nat)
    ensures ReadPrice(Text(ShowNat(n))) == Price(Whole(n))
  {
    CleanDigits(ShowNat(n));
    ParseShowNat(n);
    ReadParsed(ShowNat(n), Whole(n));
  }

  /** Zeros after a decimal point, as in `45300.00`, change neither the range nor the
      label of a whole-number price. */
  lemma CentsIgnored(pred: int, lowQ: int, highQ: int, n: nat, k: nat)
    ensures PredictRangeAndJudge(pred, lowQ, highQ, Text(ShowNat(n) + "." + Zeros(k)))
            == PredictRangeAndJudge(pred, lowQ, highQ, Text(ShowNat(n)))
  {
    var rng := BuildRange(pred, lowQ, highQ);
    ReadShowNatZeros(n, k);
    ReadShowNat(n);
    RoundPriceTrailingZeros(n, k);
    RoundPriceWhole(n);
    assert Valuate(Decimal(n * Pow10(k), k), rng) == Valuate(Whole(n), rng);
  }

  /** `$45,300` and `45300` in the price field give the same estimate. */
  lemma SeparatorsExample(pred: int, lowQ: int, highQ: int)
    ensures PredictRangeAndJudge(pred, lowQ, highQ, Text("$45,300"))
            == PredictRangeAndJudge(pred, lowQ, highQ, Text("45300"))
  {
    assert "$45,300" == [] + ['$'] + "45,300";
    assert [] + "45,300" == "45,300" && !IsSpace("45,300"[0]);
    assert "45,300" == "45" + [','] + "300";
    assert "45" + "300" == "45300" && !IsSpace("45300"[0]);
    LabelIgnoresSeparator(pred, lowQ, highQ, [], '$', "45,300");
    LabelIgnoresSeparator(pred, lowQ, highQ, "45", ',', "300");
  }

  /** `45,300.00` and `45300` in the price field give the same estimate. */
  lemma CentsExample(pred: int, lowQ: int, highQ: int)
    ensures PredictRangeAndJudge(pred, lowQ, highQ, Text("45,300.00"))
            == PredictRangeAndJudge(pred, lowQ, highQ, Text("45300"))
  {
    assert "45,300.00" == "45" + [','] + "300.00";
    assert "45" + "300.00" == "45300.00" && !IsSpace("45300.00"[0]);
    ShownNumbers();
    assert Zeros(2) == "00";
    assert "45300.00" == ShowNat(45300) + "." + Zeros(2);
    LabelIgnoresSeparator(pred, lowQ, highQ, "45", ',', "300.00");
    CentsIgnored(pred, lowQ, highQ, 45300, 2);
  }

  /** A field holding `abc` gets the invalid-input label, and a blank field or one that is
      not text gets no label; the range is produced either way. */
  lemma InvalidExample(pred: int, lowQ: int, highQ: int)
    ensures PredictRangeAndJudge(pred, lowQ, highQ, Text("abc"))
            == Estimate(BuildRange(pred, lowQ, highQ), InvalidPriceText)
    ensures PredictRangeAndJudge(pred, lowQ, highQ, Text("  "))
            == Estimate(BuildRange(pred, lowQ, highQ), "")
    ensures PredictRangeAndJudge(pred, lowQ, highQ, NotText)
            == Estimate(BuildRange(pred, lowQ, highQ), "")
  {
    ReadLetters();
    ReadSpaces();
  }

  /** The worked example: estimate 18000 with offsets -1500 and +1200 gives the range
      16500 to 19200; 17000 is Around and 15000 is Below. */
  lemma Scenario()
    ensures PredictRangeAndJudge(18000, -1500, 1200, Text("17000"))
            == Estimate(PriceRange(16500, 19200), UiText(Around))
    ensures PredictRangeAndJudge(18000, -1500, 1200, Text("15000"))
            == Estimate(PriceRange(16500, 19200), UiText(Below))
  {
    var rng := PriceRange(16500, 19200);
    assert BuildRange(18000, -1500, 1200) == rng by {
      assert RoundHundred(16500) == 16500;
      assert RoundHundred(19200) == 19200;
    }
    WholeFieldLabel(18000, -1500, 1200, 17000);
    WholeFieldLabel(18000, -1500, 1200, 15000);
    ShownNumbers();
    RoundPriceWhole(17000);
    RoundPriceWhole(15000);
    assert RoundHundred(17000) == 17000;
    assert RoundHundred(15000) == 15000;
  }

  /** A whole number typed into the price field is judged as that number. */
  lemma WholeFieldLabel(pred: int, lowQ: int, highQ: int, n: nat)
    ensures var e := PredictRangeAndJudge(pred, lowQ, highQ, Text(ShowNat(n)));
            e.verdict == UiText(Valuate(Whole(n), e.range))
  {
    ReadShowNat(n);
  }

  /** The digits of the numbers used in the worked examples. */
  lemma ShownNumbers()
    ensures ShowNat(17000) == "17000"
    ensures ShowNat(15000) == "15000"
    ensures ShowNat(45300) == "45300"
  {
    assert DigitChar(0) == '0' && DigitChar(1) == '1' && DigitChar(3) == '3';
    assert DigitChar(4) == '4' && DigitChar(5) == '5' && DigitChar(7) == '7';
    assert ShowNat(1) == "1" && ShowNat(17) == "17" && ShowNat(170) == "170";
    assert ShowNat(1700) == "1700";
    assert ShowNat(15) == "15" && ShowNat(150) == "150" && ShowNat(1500) == "1500";
    assert ShowNat(4) == "4" && ShowNat(45) == "45" && ShowNat(453) == "453";
    assert ShowNat(4530) == "4530";
  }
}

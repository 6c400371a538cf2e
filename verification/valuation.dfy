/**
  The valuation of a listed price against an estimated range: the price is rounded to
  the nearest hundred and is Below, Around or Above the range, with both ends of the
  range counting as Around.
*/
module Valuation {
  import opened Wrappers
  import opened Money
  import opened Ranges

  datatype Category = Below | Around | Above

  /** Position of a category from cheapest to dearest. */
  function Rank(c: Category): nat
  {
    match c
    case Below => 0
    case Around => 1
    case Above => 2
  }

  /** The category of an already rounded price `p`. */
  function Classify(p: int, rng: PriceRange): (c: Category)
    ensures c == Below ==> p < rng.lo
    ensures c == Around ==> rng.lo <= p <= rng.hi
    ensures c == Above ==> rng.hi < p
  {
    if p < rng.lo then Below
    else if p > rng.hi then Above
    else Around
  }

  /** The category of a listed price: its nearest hundred compared with the range. */
  function Valuate(price: Decimal, rng: PriceRange): (c: Category)
    ensures c == Below ==> RoundPrice(price) < rng.lo
    ensures c == Around ==> rng.lo <= RoundPrice(price) <= rng.hi
    ensures c == Above ==> rng.hi < RoundPrice(price)
  {
    Classify(RoundPrice(price), rng)
  }

  /** On an ordered range each category holds exactly when its comparison does. */
  lemma ClassifyTrichotomy(p: int, rng: PriceRange)
    requires rng.Ordered()
    ensures Classify(p, rng) == Below <==> p < rng.lo
    ensures Classify(p, rng) == Around <==> rng.lo <= p <= rng.hi
    ensures Classify(p, rng) == Above <==> rng.hi < p
  {
  }

  /** The ends of the range are inclusive. */
  lemma ValuateBoundaries(price: Decimal, rng: PriceRange)
    requires rng.Ordered()
    requires RoundPrice(price) == rng.lo || RoundPrice(price) == rng.hi
    ensures Valuate(price, rng) == Around
  {
  }

  /** A dearer price never gets a cheaper category. */
  lemma ClassifyMonotone(p: int, q: int, rng: PriceRange)
    requires p <= q
    ensures Rank(Classify(p, rng)) <= Rank(Classify(q, rng))
  {
  }

  /** Raising the listed price never moves its category from Above to Around or Below,
      nor from Around to Below. */
  lemma ValuateMonotone(d: Decimal, e: Decimal, rng: PriceRange)
    requires AtMost(d, e)
    ensures Rank(Valuate(d, rng)) <= Rank(Valuate(e, rng))
  {
    RoundPriceMonotone(d, e);
    ClassifyMonotone(RoundPrice(d), RoundPrice(e), rng);
  }

  /** The text the HTTP front end returns under `valuation`. */
  function ApiText(c: Category): string
  {
    match c
    case Below => "Below market price"
    case Around => "Around market price"
    case Above => "Above market price"
  }

  /** The category an API valuation text names, if it names one. */
  function CategoryOfText(t: string): (r: Option<Category>)
    ensures r.Some? ==> ApiText(r.value) == t
  {
    if t == ApiText(Below) then Some(Below)
    else if t == ApiText(Around) then Some(Around)
    else if t == ApiText(Above) then Some(Above)
    else None
  }

  /** Reading a valuation text back gives the category it was written for. */
  lemma CategoryOfApiText(c: Category)
    ensures CategoryOfText(ApiText(c)) == Some(c)
  {
    LabelsDistinct(c, Below);
    LabelsDistinct(c, Around);
  }

  /** The coloured marker the form appends to the label. */
  function Marker(c: Category): char
  {
    match c
    case Below => '\U{1F7E2}'
    case Around => '\U{1F7E1}'
    case Above => '\U{1F534}'
  }

  /** The label text the form shows. */
  function UiText(c: Category): (t: string)
    ensures |t| == |ApiText(c)| + 2 && t[..|ApiText(c)|] == ApiText(c)
    ensures t != "" && t != InvalidPriceText
  {
    ApiText(c) + " " + [Marker(c)]
  }

  /** The form's label when the price text is not a number. */
  const InvalidPriceText: string := "Invalid price input"

  /** Each label names one category, and the form's labels are the API's texts followed
      by a space and a marker; none of them is empty or the invalid-input text. */
  lemma LabelsDistinct(c1: Category, c2: Category)
    ensures ApiText(c1) == ApiText(c2) <==> c1 == c2
    ensures UiText(c1) == UiText(c2) <==> c1 == c2
  {
    if UiText(c1) == UiText(c2) {
      assert |ApiText(c1)| == |ApiText(c2)|;
      assert ApiText(c1) == UiText(c1)[..|ApiText(c1)|] == UiText(c2)[..|ApiText(c2)|] == ApiText(c2);
    }
  }
}

# Corolla price estimator: range and valuation core

This project models the decision logic of a used-car price estimator. The estimator has two front ends:
- an interactive form (`app.py`);
- an HTTP endpoint (`main.py`).

Both take the model's point estimate of a car's price and shift it by two quantile offsets, `LOW_Q` and `HIGH_Q`. Each end of the range is rounded to the nearest hundred, and the ends are swapped if they came out inverted. Optionally, a listed price is compared with the range:
- it is rounded to the nearest hundred;
- it is labelled Below, Around or Above the range, with both ends counting as Around.

The form reads the listed price from free text:
- it removes every `,` and `$`;
- it strips surrounding whitespace;
- it parses the rest as a number.

The form reports "Invalid price input" when the text is not a number, and shows no label when the field is blank. The form also resets its badge and spec dropdowns when the year changes.

The modules:
- `Rounding` is Python's `round(x, -2)` on whole numbers: nearest hundred, ties to the even hundred.
- `Money` holds exact decimal prices and `round(p, -2)` on them.
- `Ranges` is the range builder.
- `Valuation` holds the categories, the classifier and the label texts.
- `PriceText` covers the form's price field: `strip`, `replace`, and a `float` restricted to decimal notation.
- `Dropdowns` is the year-change handler.
- `App` is the form's estimate handler, written as the form does it.
- `Api` is the endpoint's handler, written as the endpoint does it.
- `FrontEnds` proves that the two handlers agree.

Each front end is written step by step, like its source. Its contract ties it to the shared definitions, and the lemmas state the properties once, for both.

Numbers:
- The point estimate and the offsets are taken as whole dollars and passed in as parameters. In the source the point estimate is the regressor's float output and usually has cents; see "## Left out".
- Listed prices are exact decimals, `mantissa / 10^scale`, so `45,300.00` and `$45,300` are represented exactly.

## Model

| member | source | states |
|---|---|---|
| Rounding.RoundHundred | app.py:55-56 | the result is a multiple of 100 within 50 of the input, and on a tie it is the even hundred (Python's banker's rounding) |
| Rounding.RoundHundredCharacterized | app.py:55-56 | a value is the rounded result exactly when it is a nearest hundred with ties to even, so the rounding is the unique such value |
| Rounding.RoundHundredIdempotent | app.py:55-56 | the rounded value is a multiple of 100, and rounding it again leaves it unchanged |
| Rounding.RoundHundredMonotone | app.py:55-56 | rounding never reverses the order of two numbers |
| Money.RoundPrice | app.py:67 | a decimal price rounds to a multiple of 100 within 50 of its exact value, ties to the even hundred |
| Money.NearestHundredOfUnique | app.py:67 | at most one value meets that specification, so the rounded price is determined by the price's value |
| Money.RoundPriceWhole | main.py:76 | a whole-dollar price rounds as the whole number does |
| Money.RoundPriceRescale | app.py:66-67 | writing a price with more fractional digits does not change its rounding |
| Money.RoundPriceMonotone | app.py:67 | a price at most another never rounds above it |
| Money.RoundPriceSameValue | app.py:66-67 | two notations of the same number round alike |
| Money.RoundPriceIdempotent | app.py:67 | a rounded price is a multiple of 100, and rounding it again, as a whole number or as a price, leaves it unchanged |
| Money.RoundPriceTrailingZeros | app.py:66-67 | `x` followed by a point and zeros rounds as `x` |
| Ranges.BuildRange | app.py:52-59 | the range is ordered, and its ends are the two rounded offsets, in one order or the other |
| Ranges.BuildRangeRounded | app.py:55-59 | both ends are multiples of 100 and are unchanged by rounding again |
| Ranges.BuildRangeNoSwap | app.py:58-59 | when `LOW_Q <= HIGH_Q` the low end comes from the low offset and no swap happens |
| Ranges.BuildRangeSymmetric | app.py:52-59 | exchanging the two offsets gives the same range |
| Valuation.Classify | app.py:69-74 | Below implies under the low end, Around implies within the range with both ends included, Above implies over the high end |
| Valuation.Valuate | app.py:67-74 | the same three implications, for the listed price rounded to the nearest hundred |
| Valuation.ClassifyTrichotomy | app.py:69-74 | on an ordered range, each category holds if and only if its comparison does |
| Valuation.ValuateBoundaries | app.py:73-74 | a price that rounds to either end of the range is Around |
| Valuation.ClassifyMonotone | app.py:69-74 | a larger rounded price never gets a lower category |
| Valuation.ValuateMonotone | main.py:76-82 | a dearer listed price never gets a lower category |
| Valuation.CategoryOfText | main.py:78-82 | a category read from a valuation text is the category that text names |
| Valuation.CategoryOfApiText | main.py:78-82 | reading back the text written for a category gives that category |
| Valuation.UiText | app.py:70-74 | the form's label starts with the endpoint's text, followed by two more characters, and is neither empty nor the invalid-input text |
| Valuation.LabelsDistinct | app.py:70-76 | different categories get different texts, on both the endpoint and the form |
| PriceText.Strip | app.py:64 | what is left of the field after stripping neither starts nor ends with whitespace |
| PriceText.TrimStart | app.py:64 | stripping the front leaves a suffix of the field that is empty or starts with a character that is not whitespace |
| PriceText.TrimEnd | app.py:64 | stripping the back leaves a prefix of the field that is empty or ends with a character that is not whitespace |
| PriceText.StripBlank | app.py:64 | stripping leaves nothing exactly when the field is all whitespace |
| PriceText.StripPadding | app.py:66 | stripping removes exactly the whitespace padding around the text |
| PriceText.RemoveChar | app.py:66 | removing a character never makes the text longer |
| PriceText.RemoveCharRemoves | app.py:66 | after `replace(c, "")` no `c` is left |
| PriceText.RemoveCharAbsent | app.py:66 | text without `c` is unchanged by `replace(c, "")` |
| PriceText.RemoveCharOther | app.py:66 | a character other than `c` is kept |
| PriceText.RemoveCharAppend | app.py:66 | removal works piece by piece, so together with the two lemmas above it changes nothing but the `c`s |
| PriceText.CleanShape | app.py:66 | the text passed to the parser holds no `,` or `$` and has no whitespace at either end |
| PriceText.CleanIgnoresSeparator | app.py:66 | a `,` or `$` inserted anywhere changes nothing in the text passed to the parser |
| PriceText.DigitsValue | app.py:66 | a run of `n` digits denotes a number below `10^n` |
| PriceText.ParseUnsigned | app.py:66 | a number read without a sign is never negative |
| PriceText.ParseUnsignedWhole | app.py:66 | digits without a point parse as that whole number |
| PriceText.ParseUnsignedPoint | app.py:66 | digits, a point and digits parse exactly, keeping every fractional digit |
| PriceText.ParseNumber | app.py:66 | text that parses is not empty, and a negative number starts with `-` |
| PriceText.ParseUnsignedHasDigit | app.py:66 | text that parses as an unsigned number has a digit in it |
| PriceText.ParseNumberHasDigit | app.py:66 | text that parses as a number has a digit in it, so a lone sign or point is not a number |
| PriceText.ParseNumberRejects | app.py:66 | in the plain decimal notation this model accepts (see `PriceText.ParseNumber` under "Left out"), a text with a character other than a digit, a point or a leading sign, or with two points, is not a number |
| PriceText.ParseNumberNegative | app.py:66 | a leading `-` before an unsigned number gives its negation |
| PriceText.ParsePointed | app.py:66 | digits with a point put before the last `k` of them parse to their value with `k` fractional digits |
| PriceText.ParseShowDecimal | app.py:66 | every decimal written in plain notation (sign, digits, point before the fractional digits) parses back to exactly that decimal |
| PriceText.DigitsValueLeadingZeros | app.py:66 | leading zeros do not change the value of a run of digits |
| PriceText.ParseShowNat | app.py:66 | a whole number written out in digits parses back to itself |
| PriceText.ParseShowNatZeros | app.py:66 | a whole number written with a point and `k` zeros parses to that number with `k` fractional digits |
| PriceText.ReadPrice | app.py:63-66 | no price exactly when the field is not text or is blank; unparseable exactly when the cleaned text is not a number; otherwise the parsed number |
| PriceText.ReadPriceIgnoresSeparator | app.py:66 | inserting a `,` or `$` into a field that is not blank does not change its reading |
| PriceText.ReadShowNatZeros | app.py:63-66 | the field `45300.00` (a whole number with `k` zero decimals) reads as that number |
| PriceText.ReadRejects | app.py:63-66 | in the plain decimal notation this model accepts (see `PriceText.ParseNumber` under "Left out"), a field that needs no cleaning and holds a character that cannot stand where it is (not a digit, not a point, not a leading sign) is unparseable |
| PriceText.ReadLetters | app.py:64-76 | the field `abc` is not blank and is unparseable |
| PriceText.ReadSpaces | app.py:64 | a field of spaces holds no price |
| PriceText.CleanPlain | app.py:64-66 | text without separators, currency signs or surrounding whitespace is not blank and reaches the parser unchanged |
| Dropdowns.YearDropdown | app.py:85-90 | the choices are the year's entries, or none when the year is missing; a value is selected exactly when there are entries, and it is the first |
| Dropdowns.UpdateBadgeAndSpec | app.py:83-91 | each of the badge and spec dropdowns offers its own table's entries for the year, or none when the year is missing, and selects the first entry, or nothing when there is none |
| Dropdowns.SelectionIsAChoice | app.py:89-90 | a selected value is one of the choices, and an empty list selects nothing |
| App.LabelFor | app.py:63-76 | no label for no price, the invalid text for unparseable text, and the category's label for a parsed price |
| App.JudgePrice | app.py:63-76 | the form's label block gives the shared label for its reading of the price field |
| App.PredictRangeAndJudge | app.py:52-76 | the range is the shared ordered rounded range, and the label is the shared label for the reading of the field |
| App.EstimateCases | app.py:58-76 | the range is ordered with ends that are multiples of 100; no label for a field that is not text or is blank; the invalid label for text that is not a number, with the range still given |
| App.LabelTrichotomy | app.py:69-74 | a parsed price is labelled Below, Above or Around if and only if its rounded value is under, over or within the range |
| App.LabelIgnoresSeparator | app.py:66 | a `,` or `$` inserted anywhere in a field that is not blank changes neither the range nor the label |
| App.ReadShowNat | app.py:63-66 | the field holding a whole number's digits reads as that number |
| App.CentsIgnored | app.py:66-67 | zero decimals after a whole-number price change neither the range nor the label |
| App.SeparatorsExample | app.py:66 | `$45,300` and `45300` give the same estimate |
| App.CentsExample | app.py:66-67 | `45,300.00` and `45300` give the same estimate |
| App.InvalidExample | app.py:63-76 | `abc` gets "Invalid price input", and a blank field or one that is not text gets no label; the range is given either way |
| App.Scenario | app.py:52-74 | estimate 18000 with offsets -1500 and +1200 gives 16500 to 19200, with 17000 Around and 15000 Below |
| App.WholeFieldLabel | app.py:63-74 | a whole number typed into the field is judged as that number |
| Api.Predict | main.py:63-84 | the response's ends are the shared ordered rounded range; a valuation is present exactly when a listed price is; it is the text for the listed price's category |
| Api.ResponseOrdered | main.py:65-68 | the low end never exceeds the high end, and with `LOW_Q <= HIGH_Q` the low end comes from the low offset |
| Api.ValuationTrichotomy | main.py:75-82 | the valuation names Below, Above or Around if and only if the rounded listed price is under, over or within the range |
| Api.ValuationMonotone | main.py:75-82 | a dearer listed price never gets a lower valuation |
| Api.Scenario | main.py:63-84 | estimate 18000 with offsets -1500 and +1200 and listed price 20000 gives 16500 to 19200 and "Above market price" |
| FrontEnds.SameRange | main.py:65-68 | the form and the endpoint give the same range |
| FrontEnds.SameValuation | main.py:75-82 | for the same price the form's label is the endpoint's valuation text, then a space and the category's marker |

## Left out

- The trained model (`model.predict`), and the feature row built from the form or request, are left out: the point estimate is a parameter.
- Loading `LOW_Q`, `HIGH_Q` and the year tables from their files is left out: they are parameters. `int(year)` and `int(k)` on the keys are not modelled; years are integers.
- Floating point is left out. The model takes the point estimate and the offsets as whole dollars, so `pred + LOW_Q` is a whole number. The source's `pred` (`app.py:50`, `main.py:63`) is a float that normally has a fractional part. A fractional sum has no counterpart here: the source rounds 16450.4 to 16500 and 16449.6 to 16400, and neither is a tie. A listed price is the exact decimal the user typed, not its nearest binary float. Rounding a binary float that lies just off a tie can differ from rounding the decimal.
- The endpoint's `listed_price` is an exact decimal. The JSON number parsing and validation done by the request model are not part of this model. The request model types `listed_price` as a float, so the literals `NaN` and `Infinity` would also reach `main.py:76-82`. `NaN` would get "Around market price", because both comparisons are false, and `Infinity` would get "Above market price". `Api.ValuationTrichotomy` does not hold for `NaN`. The model has no such values.
- The display string `"$lo – $hi"` with thousands separators is left out. The form's range is returned as the pair of ends.
- The form layout, the initial dropdown values, the CSS, the `/health` endpoint and the web frameworks are left out. They hold no decision logic.
- PriceText.ParseNumber: does not accept the rest of what Python's `float()` accepts: exponents (`1e3`), `inf`, `nan`, underscores between digits, and non-ASCII digits. The model calls such text unparseable, where the form would read a number. The visible effect on the form differs by case. `1e3`, `1_000` and non-ASCII digits would be judged as the number they denote. `inf` would be "Above market price 🔴", and `-inf` would be "Below market price 🟢". `nan` would be "Around market price 🟡": `round(nan, -2)` is still NaN, so both comparisons at `app.py:69` and `app.py:71` are false and the `else` branch is taken. The model gives "Invalid price input" for all of these.
- PriceText.IsSpace: a definition without a contract. It lists the code points `str.isspace()` accepts, which is the set `str.strip()` removes at `app.py:64` and `app.py:66`. Its meaning is stated through `PriceText.Strip`, `PriceText.StripBlank` and `PriceText.StripPadding`.
- PriceText.Scrub: a definition without a contract. It is the `.replace(",", "").replace("$", "")` at `app.py:66`. Its properties are stated by `PriceText.CleanShape`, `PriceText.CleanIgnoresSeparator` and the `RemoveChar…` lemmas.
- Valuation.ApiText: a definition without a contract. It holds the three texts at `main.py:78-82`. That they are distinct and can be read back is stated by `Valuation.LabelsDistinct` and `Valuation.CategoryOfApiText`.
- Valuation.Marker: a definition without a contract. It holds the three markers at `app.py:70-74`. `Valuation.UiText` and `FrontEnds.SameValuation` state where they appear.
- Valuation.InvalidPriceText: a constant, the text "Invalid price input" at `app.py:76`. `Valuation.UiText` and `App.LabelFor` state that no price label equals it.
- PriceText.Clean: has no contract of its own. Its properties are stated by `PriceText.CleanShape`, `PriceText.CleanIgnoresSeparator` and `PriceText.CleanPlain`.
- PriceText.RemoveChar: its own contract states only the length bound. That `c` is removed and that nothing else changes is stated by the `RemoveChar…` lemmas listed above.
- Api.ResponseCategory: a helper that reads the category back from a response. It has no contract of its own.

Where the source differs from its plain description, this model follows the code:
- The form's labels carry a space and a coloured marker after the endpoint's text (`app.py:70-74`).
- Every `,` and `$` is removed wherever it stands, not only as a thousands separator or a leading currency sign (`app.py:66`).
- A year with no entries selects nothing, so the value is `None` (`app.py:89-90`).

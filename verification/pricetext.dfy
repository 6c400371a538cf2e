/**
  Reading the form's free-text price field: the field must be text that is not blank;
  every `,` and `$` is removed, the surrounding whitespace stripped, and the rest parsed
  as a decimal number. A field that fails to parse is reported as unparseable.
*/
module PriceText {
  import opened Wrappers
  import opened Money

  /** The characters Python's `str.strip()` removes: those `str.isspace()` accepts. */
  predicate IsSpace(c: char)
  {
    || ('\U{0009}' <= c <= '\U{000D}')
    || ('\U{001C}' <= c <= '\U{0020}')
    || c == '\U{0085}' || c == '\U{00A0}' || c == '\U{1680}'
    || ('\U{2000}' <= c <= '\U{200A}')
    || c == '\U{2028}' || c == '\U{2029}' || c == '\U{202F}' || c == '\U{205F}'
    || c == '\U{3000}'
  }

  predicate AllSpace(s: string)
  {
    forall i :: 0 <= i < |s| ==> IsSpace(s[i])
  }

  /** `s` without its leading whitespace. */
  function TrimStart(s: string): (r: string)
    ensures |r| <= |s| && r == s[|s| - |r|..]
    ensures r == [] || !IsSpace(r[0])
  {
    if |s| > 0 && IsSpace(s[0]) then TrimStart(s[1..]) else s
  }

  /** `s` without its trailing whitespace. */
  function TrimEnd(s: string): (r: string)
    ensures |r| <= |s| && r == s[..|r|]
    ensures r == [] || !IsSpace(r[|r| - 1])
  {
    if |s| > 0 && IsSpace(s[|s| - 1]) then TrimEnd(s[..|s| - 1]) else s
  }

  /** Python's `s.strip()`: what is left starts and ends with a character that is not
      whitespace (`StripBlank` says when nothing is left). */
  function Strip(s: string): (r: string)
    ensures r != [] ==> !IsSpace(r[0]) && !IsSpace(r[|r| - 1])
  {
    TrimEnd(TrimStart(s))
  }

  lemma {:induction false} TrimStartBlank(s: string)
    ensures TrimStart(s) == [] <==> AllSpace(s)
  {
    if s != [] && IsSpace(s[0]) {
      TrimStartBlank(s[1..]);
      assert AllSpace(s[1..]) ==> AllSpace(s) by {
        assert forall i :: 1 <= i < |s| ==> s[i] == s[1..][i - 1];
      }
    }
  }

  lemma {:induction false} TrimEndKeepsFirst(t: string)
    requires t != [] && !IsSpace(t[0])
    ensures TrimEnd(t) != []
  {
    if IsSpace(t[|t| - 1]) {
      TrimEndKeepsFirst(t[..|t| - 1]);
    }
  }

  /** Stripping leaves nothing exactly when the text is all whitespace. */
  lemma StripBlank(s: string)
    ensures Strip(s) == [] <==> AllSpace(s)
  {
    TrimStartBlank(s);
    var t := TrimStart(s);
    if t != [] {
      TrimEndKeepsFirst(t);
    }
  }

  lemma TrimStartPadding(w: string, t: string)
    requires AllSpace(w)
    requires t != [] && !IsSpace(t[0])
    ensures TrimStart(w + t) == t
  {
    if w != [] {
      assert (w + t)[1..] == w[1..] + t;
      TrimStartPadding(w[1..], t);
    }
  }

  lemma TrimEndPadding(t: string, w: string)
    requires AllSpace(w)
    requires t != [] && !IsSpace(t[|t| - 1])
    ensures TrimEnd(t + w) == t
  {
    if w != [] {
      assert (t + w)[..|t + w| - 1] == t + w[..|w| - 1];
      TrimEndPadding(t, w[..|w| - 1]);
    }
  }

  /** Stripping removes exactly the whitespace padding around the text: whatever is
      padded on either side with whitespace strips back to itself. */
  lemma {:induction false} StripPadding(w1: string, t: string, w2: string)
    requires AllSpace(w1) && AllSpace(w2)
    requires t == [] || (!IsSpace(t[0]) && !IsSpace(t[|t| - 1]))
    ensures Strip(w1 + t + w2) == t
  {
    if t == [] {
      assert w1 + t + w2 == w1 + w2;
      assert AllSpace(w1 + w2) by {
        assert forall i :: |w1| <= i < |w1 + w2| ==> (w1 + w2)[i] == w2[i - |w1|];
      }
      StripBlank(w1 + w2);
    } else {
      assert w1 + t + w2 == w1 + (t + w2);
      TrimStartPadding(w1, t + w2);
      TrimEndPadding(t, w2);
    }
  }

  /** No character of `s` is `c`. */
  predicate Excludes(s: string, c: char)
  {
    forall i :: 0 <= i < |s| ==> s[i] != c
  }

  lemma ExcludesSlice(s: string, d: char, i: nat, j: nat)
    requires Excludes(s, d) && i <= j <= |s|
    ensures Excludes(s[i..j], d)
  {
    assert forall k :: 0 <= k < j - i ==> s[i..j][k] == s[i + k];
  }

  /** Python's `s.replace(c, "")`: `s` with every `c` removed and nothing else changed
      (`RemoveCharRemoves`, `RemoveCharAppend` and `RemoveCharOther` say so). */
  function RemoveChar(s: string, c: char): (r: string)
    ensures |r| <= |s|
  {
    if s == [] then []
    else (if s[0] == c then [] else [s[0]]) + RemoveChar(s[1..], c)
  }

  /** A character other than `c` survives the removal. */
  lemma RemoveCharOther(x: char, c: char)
    requires x != c
    ensures RemoveChar([x], c) == [x]
  {
    assert [x][1..] == [];
  }

  lemma {:induction false} RemoveCharRemoves(s: string, c: char)
    ensures Excludes(RemoveChar(s, c), c)
  {
    if s != [] {
      RemoveCharRemoves(s[1..], c);
    }
  }

  /** Text without `c` is left as it is. */
  lemma {:induction false} RemoveCharAbsent(s: string, c: char)
    requires Excludes(s, c)
    ensures RemoveChar(s, c) == s
  {
    if s != [] {
      RemoveCharAbsent(s[1..], c);
      assert s == [s[0]] + s[1..];
    }
  }

  /** Removal works piece by piece. */
  lemma {:induction false} RemoveCharAppend(a: string, b: string, c: char)
    ensures RemoveChar(a + b, c) == RemoveChar(a, c) + RemoveChar(b, c)
  {
    if a != [] {
      assert (a + b)[1..] == a[1..] + b;
      RemoveCharAppend(a[1..], b, c);
    } else {
      assert a + b == b;
    }
  }

  lemma {:induction false} RemoveCharKeeps(s: string, c: char, d: char)
    requires Excludes(s, d)
    ensures Excludes(RemoveChar(s, c), d)
  {
    if s != [] {
      RemoveCharKeeps(s[1..], c, d);
    }
  }

  /** Stripping only drops characters. */
  lemma StripKeeps(s: string, d: char)
    requires Excludes(s, d)
    ensures Excludes(Strip(s), d)
  {
    var t := TrimStart(s);
    ExcludesSlice(s, d, |s| - |t|, |s|);
    ExcludesSlice(t, d, 0, |TrimEnd(t)|);
  }

  /** The price text with every `,` and `$` removed, in the form's order:
      `user_price.replace(",", "").replace("$", "")`. */
  function Scrub(s: string): string
  {
    RemoveChar(RemoveChar(s, ','), '$')
  }

  lemma ScrubAppend(a: string, b: string)
    ensures Scrub(a + b) == Scrub(a) + Scrub(b)
  {
    RemoveCharAppend(a, b, ',');
    RemoveCharAppend(RemoveChar(a, ','), RemoveChar(b, ','), '$');
  }

  /** The cleaned price text handed to the number parser: scrubbed, then stripped. */
  function Clean(s: string): string
  {
    Strip(Scrub(s))
  }

  /** The cleaned text holds no `,` or `$` and neither starts nor ends with whitespace. */
  lemma CleanShape(s: string)
    ensures var r := Clean(s);
            && Excludes(r, ',') && Excludes(r, '$')
            && (r == [] || (!IsSpace(r[0]) && !IsSpace(r[|r| - 1])))
  {
    var u := Scrub(s);
    RemoveCharRemoves(s, ',');
    RemoveCharRemoves(RemoveChar(s, ','), '$');
    RemoveCharKeeps(RemoveChar(s, ','), '$', ',');
    StripKeeps(u, ',');
    StripKeeps(u, '$');
  }

  /** A `,` or `$` anywhere in the price text makes no difference to what is parsed,
      so `$45,300` and `45300` are read alike. */
  lemma CleanIgnoresSeparator(a: string, c: char, b: string)
    requires c == ',' || c == '$'
    ensures Clean(a + [c] + b) == Clean(a + b)
  {
    ScrubAppend(a + [c], b);
    ScrubAppend(a, [c]);
    ScrubAppend(a, b);
    assert Scrub([c]) == [];
    assert Scrub(a + [c] + b) == Scrub(a + b);
  }

  predicate IsDigit(c: char)
  {
    '0' <= c <= '9'
  }

  predicate AllDigits(s: string)
  {
    forall i :: 0 <= i < |s| ==> IsDigit(s[i])
  }

  function DigitValue(c: char): (d: nat)
    requires IsDigit(c)
    ensures d < 10
  {
    c as int - '0' as int
  }

  /** The number a string of decimal digits denotes; it fits in as many digits. */
  function DigitsValue(s: string): (n: nat)
    requires AllDigits(s)
    ensures n < Pow10(|s|)
  {
    if s == [] then 0 else DigitsValue(s[..|s| - 1]) * 10 + DigitValue(s[|s| - 1])
  }

  /** Position of the first `.` in `s`, or `|s|` when there is none. */
  function IndexOfDot(s: string): (k: nat)
    ensures k <= |s|
    ensures forall i :: 0 <= i < k ==> s[i] != '.'
    ensures k < |s| ==> s[k] == '.'
  {
    if s == [] then 0
    else if s[0] == '.' then 0
    else 1 + IndexOfDot(s[1..])
  }

  /** An unsigned decimal: digits, optionally a `.` and more digits, at least one digit
      in all. The value keeps every fractional digit. */
  function ParseUnsigned(s: string): (r: Option<Decimal>)
    ensures r.Some? ==> r.value.mantissa >= 0
  {
    var k := IndexOfDot(s);
    var w := s[..k];
    var f := if k == |s| then [] else s[k + 1..];
    if |w| + |f| > 0 && AllDigits(w) && AllDigits(f) then
      Some(Decimal(DigitsValue(w + f), |f|))
    else
      None
  }

  /** Python's `float()` on the cleaned price text, restricted to plain decimal
      notation: an optional sign and an unsigned decimal. */
  function ParseNumber(s: string): (r: Option<Decimal>)
    ensures r.Some? ==> |s| > 0 && (r.value.mantissa < 0 ==> s[0] == '-')
  {
    if |s| > 0 && (s[0] == '+' || s[0] == '-') then
      match ParseUnsigned(s[1..])
      case None => None
      case Some(d) => Some(if s[0] == '-' then Decimal(-d.mantissa, d.scale) else d)
    else
      ParseUnsigned(s)
  }

  function DigitChar(d: nat): (c: char)
    requires d < 10
    ensures IsDigit(c) && DigitValue(c) == d
  {
    ('0' as int + d) as char
  }

  /** The decimal digits of a whole number, as Python's `str(n)` writes them. */
  function ShowNat(n: nat): (s: string)
    ensures s != [] && AllDigits(s)
  {
    if n < 10 then [DigitChar(n)] else ShowNat(n / 10) + [DigitChar(n % 10)]
  }

  /** A string of `k` zeros. */
  function Zeros(k: nat): (s: string)
    ensures |s| == k && AllDigits(s)
  {
    if k == 0 then [] else Zeros(k - 1) + ['0']
  }

  lemma AllDigitsAppend(a: string, b: string)
    requires AllDigits(a) && AllDigits(b)
    ensures AllDigits(a + b)
  {
    assert forall i :: |a| <= i < |a + b| ==> (a + b)[i] == b[i - |a|];
  }

  lemma TimesTen(v: int, p: int)
    ensures v * p * 10 == v * (10 * p)
  {
  }

  /** Reading back the digits of a whole number gives the number. */
  lemma {:induction false} DigitsValueShowNat(n: nat)
    ensures DigitsValue(ShowNat(n)) == n
  {
    if n >= 10 {
      var s := ShowNat(n);
      assert s[..|s| - 1] == ShowNat(n / 10);
      DigitsValueShowNat(n / 10);
    }
  }

  /** Appending `k` zero digits multiplies the value by `10^k`. */
  lemma {:induction false} DigitsValueZeros(w: string, k: nat)
    requires AllDigits(w)
    ensures DigitsValue(w + Zeros(k)) == DigitsValue(w) * Pow10(k)
  {
    if k == 0 {
      assert w + Zeros(k) == w;
    } else {
      var s := w + Zeros(k);
      var s' := w + Zeros(k - 1);
      AllDigitsAppend(w, Zeros(k - 1));
      AllDigitsAppend(w, Zeros(k));
      assert s == s' + ['0'];
      assert s[..|s| - 1] == s' && s[|s| - 1] == '0';
      assert DigitsValue(s) == DigitsValue(s') * 10;
      DigitsValueZeros(w, k - 1);
      var v, p := DigitsValue(w), Pow10(k - 1);
      assert DigitsValue(s') == v * p;
      assert Pow10(k) == 10 * p;
      TimesTen(v, p);
    }
  }

  /** A run of digits with no point reads as a whole number. */
  lemma ParseUnsignedWhole(w: string)
    requires w != [] && AllDigits(w)
    ensures ParseUnsigned(w) == Some(Decimal(DigitsValue(w), 0))
  {
    assert IndexOfDot(w) == |w| by {
      assert forall i :: 0 <= i < |w| ==> w[i] != '.';
    }
    assert w[..|w|] + [] == w;
  }

  /** Digits, a point and digits read as the digits run together over `10^|f|`. */
  lemma ParseUnsignedPoint(w: string, f: string)
    requires |w| + |f| > 0 && AllDigits(w) && AllDigits(f)
    ensures ParseUnsigned(w + "." + f) == Some(Decimal(DigitsValue(w + f), |f|))
  {
    var s := w + "." + f;
    assert forall i :: 0 <= i < |w| ==> s[i] == w[i] && s[i] != '.';
    assert s[|w|] == '.';
    assert IndexOfDot(s) == |w|;
    assert s[..|w|] == w && s[|w| + 1..] == f;
  }

  /** An unsigned number has a digit in its text. */
  lemma ParseUnsignedHasDigit(t: string)
    requires ParseUnsigned(t).Some?
    ensures exists i :: 0 <= i < |t| && IsDigit(t[i])
  {
    var k := IndexOfDot(t);
    var w := t[..k];
    var f := if k == |t| then [] else t[k + 1..];
    if |w| > 0 {
      assert IsDigit(w[0]) && t[0] == w[0];
    } else {
      assert IsDigit(f[0]) && t[k + 1] == f[0];
    }
  }

  /** Text that parses as a number has a digit in it: a lone sign or point is not a
      number. */
  lemma ParseNumberHasDigit(s: string)
    requires ParseNumber(s).Some?
    ensures exists i :: 0 <= i < |s| && IsDigit(s[i])
  {
    if s[0] == '+' || s[0] == '-' {
      var t := s[1..];
      ParseUnsignedHasDigit(t);
      var i :| 0 <= i < |t| && IsDigit(t[i]);
      assert s[i + 1] == t[i];
    } else {
      ParseUnsignedHasDigit(s);
    }
  }

  /** Text that starts with a digit carries no sign. */
  lemma ParseNumberUnsigned(s: string)
    requires s != [] && IsDigit(s[0])
    ensures ParseNumber(s) == ParseUnsigned(s)
  {
  }

  /** Unsigned text with a character that is neither a digit nor a point at position
      `i` does not parse. */
  lemma ParseUnsignedRejectsOther(t: string, i: nat)
    requires i < |t| && !IsDigit(t[i]) && t[i] != '.'
    ensures ParseUnsigned(t) == None
  {
    var k := IndexOfDot(t);
    if i < k {
      assert t[..k][i] == t[i];
    } else {
      assert t[k + 1..][i - k - 1] == t[i];
    }
  }

  /** Unsigned text with a second point does not parse. */
  lemma ParseUnsignedRejectsSecondPoint(t: string, i: nat, j: nat)
    requires i < j < |t| && t[i] == '.' && t[j] == '.'
    ensures ParseUnsigned(t) == None
  {
    var k := IndexOfDot(t);
    assert t[k + 1..][j - k - 1] == t[j];
  }

  /** The parser accepts nothing but digits, one point and a leading sign: a text with
      any other character, or with two points, is not a number. */
  lemma ParseNumberRejects(s: string, i: nat, j: nat)
    requires i < |s| && j < |s|
    requires || (!IsDigit(s[i]) && s[i] != '.' && (i > 0 || (s[0] != '+' && s[0] != '-')))
             || (i < j && s[i] == '.' && s[j] == '.')
    ensures ParseNumber(s) == None
  {
    var signed := s[0] == '+' || s[0] == '-';
    var t := if signed then s[1..] else s;
    var o := if signed then 1 else 0;
    if !IsDigit(s[i]) && s[i] != '.' && (i > 0 || !signed) {
      assert t[i - o] == s[i];
      ParseUnsignedRejectsOther(t, i - o);
    } else {
      assert t[i - o] == s[i] && t[j - o] == s[j];
      ParseUnsignedRejectsSecondPoint(t, i - o, j - o);
    }
  }

  /** A whole number written out in digits parses back to itself. */
  lemma ParseShowNat(n: nat)
    ensures ParseNumber(ShowNat(n)) == Some(Whole(n))
  {
    var w := ShowNat(n);
    ParseNumberUnsigned(w);
    ParseUnsignedWhole(w);
    DigitsValueShowNat(n);
  }

  /** A whole number written with `k` zero cents-style digits, such as `45300.00`,
      parses to the same number with `k` fractional digits. */
  lemma ParseShowNatZeros(n: nat, k: nat)
    ensures ParseNumber(ShowNat(n) + "." + Zeros(k)) == Some(Decimal(n * Pow10(k), k))
  {
    var w := ShowNat(n);
    var s := w + "." + Zeros(k);
    assert s[0] == w[0];
    ParseNumberUnsigned(s);
    ParseUnsignedPoint(w, Zeros(k));
    DigitsValueZeros(w, k);
    DigitsValueShowNat(n);
  }

  /** Leading zeros do not change the value of a run of digits. */
  lemma {:induction false} DigitsValueLeadingZeros(j: nat, w: string)
    requires AllDigits(w)
    ensures AllDigits(Zeros(j) + w) && DigitsValue(Zeros(j) + w) == DigitsValue(w)
  {
    AllDigitsAppend(Zeros(j), w);
    if w == [] {
      assert Zeros(j) + w == Zeros(j);
      DigitsValueAllZeros(j);
    } else {
      var s := Zeros(j) + w;
      assert s[..|s| - 1] == Zeros(j) + w[..|w| - 1];
      assert s[|s| - 1] == w[|w| - 1];
      DigitsValueLeadingZeros(j, w[..|w| - 1]);
    }
  }

  lemma {:induction false} DigitsValueAllZeros(j: nat)
    ensures DigitsValue(Zeros(j)) == 0
  {
    if j > 0 {
      assert Zeros(j)[..j - 1] == Zeros(j - 1);
      DigitsValueAllZeros(j - 1);
    }
  }

  /** The digits of `n`, with leading zeros added up to at least `width` digits. */
  function PadDigits(n: nat, width: nat): (s: string)
    ensures |s| >= width && |s| > 0
  {
    var w := ShowNat(n);
    Zeros(if |w| < width then width - |w| else 0) + w
  }

  lemma PadDigitsValue(n: nat, width: nat)
    ensures AllDigits(PadDigits(n, width)) && DigitsValue(PadDigits(n, width)) == n
  {
    var w := ShowNat(n);
    DigitsValueShowNat(n);
    DigitsValueLeadingZeros(if |w| < width then width - |w| else 0, w);
  }

  lemma SplitDigits(s: string, j: nat)
    requires AllDigits(s) && j <= |s|
    ensures AllDigits(s[..j]) && AllDigits(s[j..]) && s[..j] + s[j..] == s
  {
    assert forall i :: 0 <= i < |s[j..]| ==> s[j..][i] == s[j + i];
  }

  /** `digits` with a point put before the last `k` of them. */
  function InsertPoint(digits: string, k: nat): (s: string)
    requires k < |digits|
    ensures |s| == |digits| + 1 && s[|digits| - k] == '.'
  {
    digits[..|digits| - k] + "." + digits[|digits| - k..]
  }

  /** `a / 10^k` in plain notation without a sign: the digits of `a`, and a point before
      the last `k` of them when `k > 0`, with a zero before the point when needed. */
  function ShowUnsigned(a: nat, k: nat): (s: string)
    ensures s != []
  {
    if k == 0 then PadDigits(a, 1) else InsertPoint(PadDigits(a, k + 1), k)
  }

  /** Digits with a point put before the last `k` of them read as their value over
      `10^k`. */
  lemma ParsePointed(digits: string, k: nat)
    requires AllDigits(digits) && 0 < k < |digits|
    ensures ParseUnsigned(InsertPoint(digits, k)) == Some(Decimal(DigitsValue(digits), k))
  {
    var w, f := digits[..|digits| - k], digits[|digits| - k..];
    SplitDigits(digits, |digits| - k);
    ParseUnsignedPoint(w, f);
  }

  /** Plain notation starts with a digit, never with a point. */
  lemma ShowUnsignedFirst(a: nat, k: nat)
    ensures IsDigit(ShowUnsigned(a, k)[0])
  {
    var digits := PadDigits(a, k + 1);
    PadDigitsValue(a, k + 1);
    if k > 0 {
      assert InsertPoint(digits, k)[0] == digits[0];
    }
    PadDigitsValue(a, 1);
  }

  lemma ParseShowUnsigned(a: nat, k: nat)
    ensures ParseUnsigned(ShowUnsigned(a, k)) == Some(Decimal(a, k))
  {
    if k == 0 {
      PadDigitsValue(a, 1);
      ParseUnsignedWhole(PadDigits(a, 1));
    } else {
      PadDigitsValue(a, k + 1);
      ParsePointed(PadDigits(a, k + 1), k);
    }
  }

  /** The absolute value. */
  function Magnitude(m: int): (a: nat)
    ensures a == m || a == -m
  {
    if m < 0 then -m else m
  }

  /** A leading `-` negates what follows it. */
  lemma ParseNumberNegative(u: string, m: int, k: nat)
    requires m < 0 && ParseUnsigned(u) == Some(Decimal(Magnitude(m), k))
    ensures ParseNumber("-" + u) == Some(Decimal(m, k))
  {
    assert ("-" + u)[1..] == u;
  }

  /** A decimal in plain positional notation: a `-` for a negative value, then the
      unsigned notation. */
  function ShowDecimal(d: Decimal): string
  {
    var u := ShowUnsigned(Magnitude(d.mantissa), d.scale);
    if d.mantissa < 0 then "-" + u else u
  }

  lemma ParseShowNegative(m: int, k: nat)
    requires m < 0
    ensures ParseNumber(ShowDecimal(Decimal(m, k))) == Some(Decimal(m, k))
  {
    var u := ShowUnsigned(Magnitude(m), k);
    assert ShowDecimal(Decimal(m, k)) == "-" + u;
    ParseShowUnsigned(Magnitude(m), k);
    ParseNumberNegative(u, m, k);
  }

  lemma ParseShowNonNegative(a: nat, k: nat)
    ensures ParseNumber(ShowDecimal(Decimal(a, k))) == Some(Decimal(a, k))
  {
    var u := ShowUnsigned(a, k);
    assert ShowDecimal(Decimal(a, k)) == u;
    ParseShowUnsigned(a, k);
    ShowUnsignedFirst(a, k);
    ParseNumberUnsigned(u);
  }

  /** Reading back a decimal written in plain notation gives the same decimal: the
      parser loses no digit, keeps the sign and counts the fractional digits. */
  lemma ParseShowDecimal(d: Decimal)
    ensures ParseNumber(ShowDecimal(d)) == Some(d)
  {
    if d.mantissa < 0 {
      ParseShowNegative(d.mantissa, d.scale);
    } else {
      ParseShowNonNegative(d.mantissa, d.scale);
    }
  }

  /** What the form makes of its price field. */
  datatype PriceField = NotText | Text(s: string)

  datatype PriceReading = NoPrice | Unparseable | Price(value: Decimal)

  /** The form's decision for its price field: no price when the field is not text or
      is blank, otherwise the parsed cleaned text, or unparseable when that fails. */
  function ReadPrice(field: PriceField): (r: PriceReading)
    ensures r.NoPrice? <==> field.NotText? || AllSpace(field.s)
    ensures r.Unparseable? <==> field.Text? && !AllSpace(field.s) && ParseNumber(Clean(field.s)).None?
    ensures r.Price? ==> field.Text? && ParseNumber(Clean(field.s)) == Some(r.value)
  {
    match field
    case NotText => NoPrice
    case Text(s) =>
      StripBlank(s);
      if Strip(s) == "" then NoPrice
      else
        match ParseNumber(Clean(s))
        case None => Unparseable
        case Some(p) => Price(p)
  }

  /** Two fields that are not blank read alike when their cleaned texts agree. */
  lemma ReadPriceByClean(s1: string, s2: string)
    requires !AllSpace(s1) && !AllSpace(s2) && Clean(s1) == Clean(s2)
    ensures ReadPrice(Text(s1)) == ReadPrice(Text(s2))
  {
  }

  /** Inserting a `,` or `$` into a field that is not blank does not change its reading. */
  lemma ReadPriceIgnoresSeparator(a: string, c: char, b: string)
    requires c == ',' || c == '$'
    requires !AllSpace(a + b)
    ensures ReadPrice(Text(a + [c] + b)) == ReadPrice(Text(a + b))
  {
    var s := a + [c] + b;
    assert !AllSpace(s) by {
      assert s[|a|] == c;
    }
    CleanIgnoresSeparator(a, c, b);
    ReadPriceByClean(s, a + b);
  }

  /** A field that is not blank and whose cleaned text parses reads as that number. */
  lemma ReadParsed(s: string, d: Decimal)
    requires !AllSpace(s) && ParseNumber(Clean(s)) == Some(d)
    ensures ReadPrice(Text(s)) == Price(d)
  {
  }

  /** Text with no separators, currency signs or surrounding whitespace is not blank,
      and cleaning leaves it as it is. */
  lemma CleanPlain(s: string)
    requires s != [] && Excludes(s, ',') && Excludes(s, '$')
    requires !IsSpace(s[0]) && !IsSpace(s[|s| - 1])
    ensures !AllSpace(s) && Clean(s) == s
  {
    RemoveCharAbsent(s, ',');
    RemoveCharAbsent(s, '$');
    assert Scrub(s) == s;
    StripPadding([], s, []);
    assert [] + s + [] == s;
  }

  /** A non-empty string of digits is not blank and cleaning leaves it as it is. */
  lemma CleanDigits(s: string)
    requires s != [] && AllDigits(s)
    ensures !AllSpace(s) && Clean(s) == s
  {
    CleanPlain(s);
  }

  /** A field with a character that cannot stand where it is in a plain decimal (not a
      digit, not a point, not a leading sign) is unparseable, once the cleaning leaves
      it alone. */
  lemma ReadRejects(s: string, i: nat)
    requires s != [] && Excludes(s, ',') && Excludes(s, '$')
    requires !IsSpace(s[0]) && !IsSpace(s[|s| - 1])
    requires i < |s| && !IsDigit(s[i]) && s[i] != '.' && (i > 0 || (s[0] != '+' && s[0] != '-'))
    ensures ReadPrice(Text(s)) == Unparseable
  {
    CleanPlain(s);
    ParseNumberRejects(s, i, i);
  }

  /** Letters are unparseable. */
  lemma ReadLetters()
    ensures ReadPrice(Text("abc")) == Unparseable
  {
    var abc := "abc";
    assert abc[0] == 'a' && abc[2] == 'c';
    assert Excludes(abc, ',') && Excludes(abc, '$');
    ReadRejects(abc, 0);
  }

  lemma ReadSpaces()
    ensures ReadPrice(Text("  ")) == NoPrice
  {
    assert AllSpace("  ") by {
      assert IsSpace("  "[0]) && IsSpace("  "[1]);
    }
  }

  /** A whole number followed by `.` and `k` zeros reads as that number with `k`
      fractional digits. */
  lemma ReadShowNatZeros(n: nat, k: nat)
    ensures ReadPrice(Text(ShowNat(n) + "." + Zeros(k))) == Price(Decimal(n * Pow10(k), k))
  {
    var w := ShowNat(n);
    var s := w + "." + Zeros(k);
    forall i | 0 <= i < |s|
      ensures IsDigit(s[i]) || s[i] == '.'
    {
      if i < |w| {
        assert s[i] == w[i];
      } else if i > |w| {
        assert s[i] == Zeros(k)[i - |w| - 1];
      }
    }
    assert Excludes(s, ',') && Excludes(s, '$');
    CleanPlain(s);
    ParseShowNatZeros(n, k);
    ReadParsed(s, Decimal(n * Pow10(k), k));
  }
}

/** Decimal numerals as exact values. */
module Decimal {
  import opened Wrappers

  predicate IsDigit(c: char) {
    '0' <= c <= '9'
  }

  predicate Digits(s: string) {
    forall i :: 0 <= i < |s| ==> IsDigit(s[i])
  }

  function CountDigits(s: string): (n: nat)
    ensures n <= |s|
  {
    if s != "" && IsDigit(s[0]) then 1 + CountDigits(s[1..]) else 0
  }

  function DecimalValue(n: string): (v: nat)
    requires Digits(n)
  {
    if n == "" then 0 else
      assert IsDigit(n[|n| - 1]);
      DecimalValue(n[..|n| - 1]) * 10 + (n[|n| - 1] as int - '0' as int)
  }

  function Pow10(k: nat): (p: nat)
    ensures p > 0
  {
    if k == 0 then 1 else 10 * Pow10(k - 1)
  }

  function Product(a: nat, b: nat): nat {
    a * b
  }

  function Over(a: nat, p: nat): nat
    requires p > 0
  {
    a / p
  }

  lemma {:induction false} CountDigitsAt(d: string, rest: string)
    requires Digits(d) && (rest == "" || !IsDigit(rest[0]))
    ensures CountDigits(d + rest) == |d|
  {
    if d == "" {
      assert d + rest == rest;
    } else {
      assert (d + rest)[1..] == d[1..] + rest;
      CountDigitsAt(d[1..], rest);
    }
  }

  lemma {:induction false} CountedDigits(s: string)
    ensures Digits(s[..CountDigits(s)])
    ensures CountDigits(s) < |s| ==> !IsDigit(s[CountDigits(s)])
  {
    if s != "" && IsDigit(s[0]) {
      CountedDigits(s[1..]);
      assert s[..CountDigits(s)] == [s[0]] + s[1..][..CountDigits(s) - 1];
    }
  }

  lemma {:induction false} ValueConcat(a: string, b: string)
    requires Digits(a) && Digits(b)
    ensures Digits(a + b) && DecimalValue(a + b) == DecimalValue(a) * Pow10(|b|) + DecimalValue(b)
  {
    if b == "" {
      assert a + b == a;
    } else {
      ValueConcat(a, b[..|b| - 1]);
      assert (a + b)[..|a + b| - 1] == a + b[..|b| - 1];
      ConcatStep(DecimalValue(a), Pow10(|b| - 1), DecimalValue(b[..|b| - 1]), b[|b| - 1] as int - '0' as int);
    }
  }

  lemma ConcatStep(a: nat, p: nat, b: nat, last: int)
    ensures (a * p + b) * 10 + last == a * (10 * p) + (b * 10 + last)
  {
  }

  lemma {:induction false} ValueBound(s: string)
    requires Digits(s)
    ensures DecimalValue(s) < Pow10(|s|)
  {
    if s != "" {
      ValueBound(s[..|s| - 1]);
      assert IsDigit(s[|s| - 1]);
    }
  }

  // ----- Writing ---------------------------------------------------------------------------------

  function DigitChar(d: nat): (c: char)
    requires d < 10
    ensures IsDigit(c) && c as int - '0' as int == d
  {
    ('0' as int + d) as char
  }

  /** The last k digits of n. */
  function Padded(n: nat, k: nat): (s: string)
    ensures |s| == k && Digits(s)
  {
    if k == 0 then "" else Padded(n / 10, k - 1) + [DigitChar(n % 10)]
  }

  /** n without leading zeros. */
  function NatText(n: nat): (s: string)
    ensures s != "" && Digits(s)
  {
    if n < 10 then [DigitChar(n)] else NatText(n / 10) + [DigitChar(n % 10)]
  }

  lemma {:induction false} PaddedValue(n: nat, k: nat)
    requires n < Pow10(k)
    ensures DecimalValue(Padded(n, k)) == n
  {
    if k > 0 {
      PaddedValue(n / 10, k - 1);
      assert Padded(n, k)[..k - 1] == Padded(n / 10, k - 1);
    }
  }

  /** A fraction without trailing zeros. */
  function Strip(mant: nat, places: nat): (r: (nat, nat))
  {
    if places > 0 && mant % 10 == 0 then Strip(mant / 10, places - 1) else (mant, places)
  }

  lemma TenfoldQuotient(a: nat, p: nat)
    requires p > 0
    ensures Over(10 * a, 10 * p) == Over(a, p)
  {
    var q, r := a / p, a % p;
    assert a == p * q + r;
    assert 10 * a == (10 * p) * q + 10 * r;
    QuotientIs(10 * a, 10 * p, q, 10 * r);
  }

  lemma MultiplyLe(p: nat, a: nat, b: nat)
    ensures a <= b ==> p * a <= p * b
  {
  }

  lemma QuotientIs(a: nat, p: nat, q: nat, r: nat)
    requires p > 0 && a == p * q + r && r < p
    ensures Over(a, p) == q
  {
    MultiplyLe(p, Over(a, p) + 1, q);
    MultiplyLe(p, q + 1, Over(a, p));
  }

  /** It stands for the same value, whatever it is multiplied by. */
  lemma {:induction false} StripKeepsValue(mant: nat, places: nat, k: nat)
    ensures var (m, p) := Strip(mant, places); Over(Product(m, k), Pow10(p)) == Over(Product(mant, k), Pow10(places))
  {
    if places > 0 && mant % 10 == 0 {
      StripKeepsValue(mant / 10, places - 1, k);
      TenfoldQuotient(Product(mant / 10, k), Pow10(places - 1));
      TenfoldProduct(mant / 10, k);
    }
  }

  lemma TenfoldProduct(q: nat, k: nat)
    ensures Product(10 * q, k) == 10 * Product(q, k)
  {
  }

  /** Whole part and fraction of a numeral, multiplied one by one. */
  lemma PartsTimes(w: nat, f: nat, k: nat, p: nat)
    requires p > 0
    ensures Over(Product(w * p + f, k), p) == Product(w, k) + Over(Product(f, k), p)
  {
    var q, r := Over(Product(f, k), p), Product(f, k) % p;
    assert Product(f, k) == p * q + r;
    assert Product(w * p + f, k) == (w * p) * k + f * k;
    assert (w * p) * k == p * Product(w, k);
    assert p * Product(w, k) + p * q == p * (Product(w, k) + q);
    QuotientIs(Product(w * p + f, k), p, Product(w, k) + q, r);
  }

  lemma {:induction false} NatTextValue(n: nat)
    ensures DecimalValue(NatText(n)) == n
    ensures n > 0 ==> Pow10(|NatText(n)| - 1) <= n
  {
    if n >= 10 {
      NatTextValue(n / 10);
      var s := NatText(n);
      assert s[..|s| - 1] == NatText(n / 10);
    } else {
      var s := NatText(n);
      assert s[..0] == "";
    }
  }

  // ----- Numerals --------------------------------------------------------------------------------

  /** The number mant / 10^scale, or its negation. */
  datatype Quantity = Quantity(neg: bool, mant: nat, scale: int)

  function Times(x: Quantity, m: nat): nat {
    var p := Product(x.mant, m);
    if x.scale < 0 then Product(p, Pow10(-x.scale)) else Over(p, Pow10(x.scale))
  }

  /** The value times m, truncated toward zero. */
  function Truncated(x: Quantity, m: nat): int {
    var t: int := Times(x, m);
    if x.neg then -t else t
  }

  /** What an int64 holds of a number, or that it cannot hold it; what the conversion makes of that is not defined. */
  datatype Amount = Exactly(n: int) | OutOfRange

  function InRange(n: int): Amount {
    if -0x8000_0000_0000_0000 <= n < 0x8000_0000_0000_0000 then Exactly(n) else OutOfRange
  }

  /** An optional exponent up to the end of the text. */
  function Exponent(s: string): Option<int> {
    if s == "" then Some(0)
    else if s[0] != 'e' && s[0] != 'E' then None
    else
      var signed := |s| > 1 && (s[1] == '+' || s[1] == '-');
      var digits := if signed then s[2..] else s[1..];
      if digits == "" || CountDigits(digits) != |digits| then None
      else
        CountedDigits(digits);
        assert digits[..|digits|] == digits;
        var e: int := DecimalValue(digits);
        Some(if signed && s[1] == '-' then -e else e)
  }

  /** Digits, perhaps a point and more digits, and the rest. */
  datatype Parts = Parts(whole: string, point: bool, frac: string, rest: string)

  function Split(s: string): (p: Parts)
    ensures Digits(p.whole) && Digits(p.frac) && |p.whole| + |p.frac| + |p.rest| <= |s|
    ensures |p.whole| + (if p.frac == "" then 0 else 1 + |p.frac|) <= |s|
  {
    var a := CountDigits(s);
    CountedDigits(s);
    if a < |s| && s[a] == '.' then
      var tail := s[a + 1..];
      var b := CountDigits(tail);
      CountedDigits(tail);
      Parts(s[..a], true, tail[..b], tail[b..])
    else Parts(s[..a], false, "", s[a..])
  }

  lemma SplitRebuilds(s: string)
    ensures var p := Split(s); s == p.whole + (if p.point then "." else "") + p.frac + p.rest
  {
  }

  lemma SplitOf(whole: string, point: bool, frac: string, rest: string)
    requires Digits(whole) && Digits(frac) && (!point ==> frac == "")
    requires rest == "" || !IsDigit(rest[0])
    requires !point ==> rest == "" || rest[0] != '.'
    ensures Split(whole + (if point then "." else "") + frac + rest) == Parts(whole, point, frac, rest)
  {
    var tail := frac + rest;
    CountDigitsAt(frac, rest);
    if point {
      var s := whole + "." + frac + rest;
      assert s == whole + ("." + tail);
      CountDigitsAt(whole, "." + tail);
      assert s[|whole| + 1..] == tail;
    } else {
      assert whole + "" + frac + rest == whole + rest;
      CountDigitsAt(whole, rest);
    }
  }

  /** A numeral without a sign: digits with at most one point among them, and an exponent. */
  function Unsigned(s: string, neg: bool): Option<Quantity> {
    var p := Split(s);
    if p.whole + p.frac == "" then None
    else match Exponent(p.rest)
      case None => None
      case Some(e) =>
        ValueConcat(p.whole, p.frac);
        Some(Quantity(neg, DecimalValue(p.whole + p.frac), |p.frac| - e))
  }

  /** strconv.ParseFloat on decimal numerals, without rounding. */
  function ParseNumber(s: string): Option<Quantity> {
    if s != "" && (s[0] == '+' || s[0] == '-') then Unsigned(s[1..], s[0] == '-') else Unsigned(s, false)
  }

  /** The characters of a numeral. */
  predicate NumeralChar(c: char) {
    IsDigit(c) || c == '.' || c == '+' || c == '-' || c == 'e' || c == 'E'
  }

  lemma ExponentChars(s: string)
    requires Exponent(s).Some?
    ensures forall i :: 0 <= i < |s| ==> NumeralChar(s[i])
  {
    if s != "" {
      var signed := |s| > 1 && (s[1] == '+' || s[1] == '-');
      var digits := if signed then s[2..] else s[1..];
      CountedDigits(digits);
      assert digits[..|digits|] == digits;
      assert s == s[..|s| - |digits|] + digits;
    }
  }

  lemma UnsignedChars(s: string, neg: bool)
    requires Unsigned(s, neg).Some?
    ensures forall i :: 0 <= i < |s| ==> NumeralChar(s[i])
  {
    SplitRebuilds(s);
    ExponentChars(Split(s).rest);
  }

  lemma NumberChars(s: string)
    requires ParseNumber(s).Some?
    ensures s != "" && forall i :: 0 <= i < |s| ==> NumeralChar(s[i])
  {
    if s != "" && (s[0] == '+' || s[0] == '-') {
      UnsignedChars(s[1..], s[0] == '-');
      assert s == [s[0]] + s[1..];
    } else {
      UnsignedChars(s, false);
    }
  }

  lemma UnsignedNumeral(whole: string, point: bool, frac: string, neg: bool)
    requires Digits(whole) && Digits(frac) && whole + frac != "" && (!point ==> frac == "")
    ensures Digits(whole + frac)
    ensures Unsigned(whole + (if point then "." else "") + frac, neg) == Some(Quantity(neg, DecimalValue(whole + frac), |frac|))
  {
    var body := whole + (if point then "." else "") + frac;
    SplitOf(whole, point, frac, "");
    assert body + "" == body;
    ValueConcat(whole, frac);
  }

  lemma Signed(sign: string, body: string)
    requires sign in {"", "+", "-"} && body != "" && body[0] != '+' && body[0] != '-'
    ensures ParseNumber(sign + body) == Unsigned(body, sign == "-")
  {
    if sign == "" {
      assert sign + body == body;
    } else {
      assert (sign + body)[1..] == body && (sign + body)[0] == sign[0];
    }
  }

  /** What a plain numeral means: all its digits over as many tenths as there are after the point. */
  lemma PlainNumeral(sign: string, whole: string, point: bool, frac: string)
    requires sign in {"", "+", "-"} && Digits(whole) && Digits(frac) && whole + frac != "" && (!point ==> frac == "")
    ensures Digits(whole + frac)
    ensures ParseNumber(sign + (whole + (if point then "." else "") + frac))
         == Some(Quantity(sign == "-", DecimalValue(whole + frac), |frac|))
  {
    UnsignedNumeral(whole, point, frac, sign == "-");
    Signed(sign, whole + (if point then "." else "") + frac);
  }

  /** An exponent moves the point: up to the right, or down to the left. */
  lemma ExponentNumeral(sign: string, whole: string, point: bool, frac: string, mark: string, esign: string, exp: string)
    requires sign in {"", "+", "-"} && Digits(whole) && Digits(frac) && whole + frac != "" && (!point ==> frac == "")
    requires mark in {"e", "E"} && esign in {"", "+", "-"} && Digits(exp) && exp != ""
    ensures Digits(whole + frac)
    ensures ParseNumber(sign + (whole + (if point then "." else "") + frac + (mark + esign + exp)))
         == Some(Quantity(sign == "-", DecimalValue(whole + frac), |frac| - Moved(esign, exp)))
  {
    hide Split, Exponent, Unsigned, ParseNumber;
    var e := mark + esign + exp;
    var body := whole + (if point then "." else "") + frac + e;
    ValueConcat(whole, frac);
    UnsignedExponent(whole, point, frac, mark, esign, exp, sign == "-");
    assert body != "" && body[0] == if whole != "" then whole[0] else '.';
    assert whole != "" ==> IsDigit(whole[0]);
    Signed(sign, body);
  }

  /** How far an exponent moves the point. */
  function Moved(esign: string, exp: string): int
    requires Digits(exp)
  {
    var e: int := DecimalValue(exp);
    if esign == "-" then -e else e
  }

  lemma UnsignedExponent(whole: string, point: bool, frac: string, mark: string, esign: string, exp: string, neg: bool)
    requires Digits(whole) && Digits(frac) && whole + frac != "" && (!point ==> frac == "")
    requires mark in {"e", "E"} && esign in {"", "+", "-"} && Digits(exp) && exp != ""
    ensures Digits(whole + frac)
    ensures Unsigned(whole + (if point then "." else "") + frac + (mark + esign + exp), neg)
         == Some(Quantity(neg, DecimalValue(whole + frac), |frac| - Moved(esign, exp)))
  {
    hide Split, Exponent;
    ExponentText(mark, esign, exp);
    SplitOf(whole, point, frac, mark + esign + exp);
    ValueConcat(whole, frac);
  }

  lemma ExponentText(mark: string, esign: string, exp: string)
    requires mark in {"e", "E"} && esign in {"", "+", "-"} && Digits(exp) && exp != ""
    ensures Exponent(mark + esign + exp) == Some(Moved(esign, exp))
  {
    var s := mark + esign + exp;
    var n := |esign| + 1;
    assert s[n..] == exp && IsDigit(exp[0]);
    assert exp + "" == exp && exp[..|exp|] == exp;
    CountDigitsAt(exp, "");
    assert s[0] == mark[0] && s[1] == if esign == "" then exp[0] else esign[0];
  }

  /** Truncation, without division: the magnitude is the last whole number that is not beyond the product. */
  lemma TruncatedIs(x: Quantity, m: nat) returns (t: nat)
    ensures Truncated(x, m) == if x.neg then -(t as int) else t
    ensures x.scale >= 0 ==> t * Pow10(x.scale) <= x.mant * m < (t + 1) * Pow10(x.scale)
    ensures x.scale < 0 ==> t == (x.mant * m) * Pow10(-x.scale)
  {
    t := Times(x, m);
    var p := Product(x.mant, m);
    if x.scale >= 0 {
      FloorIs(p, Pow10(x.scale));
    }
  }

  lemma FloorIs(a: nat, p: nat)
    requires p > 0
    ensures Over(a, p) * p <= a < (Over(a, p) + 1) * p
  {
  }

  /** A plain numeral and its parts: perhaps a sign, and digits with at most one point among them. */
  predicate Numeral(s: string, sign: string, whole: string, point: bool, frac: string) {
    && (sign == "" || sign == "+" || sign == "-") && Digits(whole) && Digits(frac) && whole + frac != "" && (!point ==> frac == "")
    && s == sign + (whole + (if point then "." else "") + frac)
  }

  predicate NoExponent(s: string) {
    forall i :: 0 <= i < |s| ==> s[i] != 'e' && s[i] != 'E'
  }

  lemma UnsignedShape(s: string, neg: bool)
    requires Unsigned(s, neg).Some? && NoExponent(s)
    ensures Numeral(s, "", Split(s).whole, Split(s).point, Split(s).frac)
  {
    hide Split;
    SplitRebuilds(s);
    SplitDigits(s);
    RestStarts(s);
  }

  lemma RestStarts(s: string)
    ensures var r := Split(s).rest; r != "" ==> |r| <= |s| && s[|s| - |r|] == r[0]
  {
    hide Split;
    SplitRebuilds(s);
  }

  lemma SplitDigits(s: string)
    ensures var p := Split(s); Digits(p.whole) && Digits(p.frac) && (!p.point ==> p.frac == "")
  {
  }

  lemma NumberShape(s: string)
    requires ParseNumber(s).Some? && NoExponent(s)
    ensures exists sign, whole, point, frac :: Numeral(s, sign, whole, point, frac)
  {
    hide Split, Unsigned, Digits;
    var signed := s != "" && (s[0] == '+' || s[0] == '-');
    var sign, body := if signed then s[..1] else "", if signed then s[1..] else s;
    UnsignedShape(body, signed && s[0] == '-');
    var p := Split(body);
    Prefixed(sign, body, s, p.whole, p.point, p.frac);
  }

  lemma Prefixed(sign: string, body: string, s: string, whole: string, point: bool, frac: string)
    requires Numeral(body, "", whole, point, frac) && s == sign + body && (sign == "" || sign == "+" || sign == "-")
    ensures Numeral(s, sign, whole, point, frac)
  {
    hide Digits;
    assert "" + (whole + (if point then "." else "") + frac) == whole + (if point then "." else "") + frac;
  }

  /** Without an exponent nothing else is a number. */
  lemma NumeralIff(s: string)
    requires NoExponent(s)
    ensures ParseNumber(s).Some? <==> exists sign, whole, point, frac :: Numeral(s, sign, whole, point, frac)
  {
    hide ParseNumber;
    if ParseNumber(s).Some? {
      NumberShape(s);
    }
    if sign, whole, point, frac :| Numeral(s, sign, whole, point, frac) {
      PlainNumeral(sign, whole, point, frac);
    }
  }
}

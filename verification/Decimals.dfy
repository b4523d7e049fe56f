/** Decimal numbers written as text: parsing, the canonical `'f', -1` form, and rounding.

    Numbers are exact. Go works in float64; the two agree on decimals of up to 15 significant digits. */
module Decimals {
  import opened Options

  /** A parsed number. `Fin` stands for (-1)^neg * coeff * 10^exp, so that -0 and 0 stay apart. */
  datatype Number = NaN | Inf(neg: bool) | Fin(neg: bool, coeff: nat, exp: int)

  const ZERO := Fin(false, 0, 0)

  /** No trailing zero in the coefficient: one `Fin` for each value and sign. */
  predicate Canonical(n: Number) {
    n.Fin? ==> if n.coeff == 0 then n.exp == 0 else n.coeff % 10 != 0
  }

  function Pow10(n: nat): (p: nat)
    ensures p > 0
  {
    if n == 0 then 1 else 10 * Pow10(n - 1)
  }

  ghost function Magnitude(coeff: nat, exp: int): real {
    if exp >= 0 then (coeff * Pow10(exp)) as real else coeff as real / Pow10(-exp) as real
  }

  ghost function Value(n: Number): real
    requires n.Fin?
  {
    if n.neg then -Magnitude(n.coeff, n.exp) else Magnitude(n.coeff, n.exp)
  }

  /** Moves trailing zeros of the coefficient into the exponent. */
  function Canon(neg: bool, coeff: nat, exp: int): (n: Number)
    ensures n.Fin? && n.neg == neg && Canonical(n)
    decreases coeff
  {
    if coeff == 0 then Fin(neg, 0, 0)
    else if coeff % 10 == 0 then Canon(neg, coeff / 10, exp + 1)
    else Fin(neg, coeff, exp)
  }

  // ----- Digits -----

  predicate IsDigit(c: char) { '0' <= c <= '9' }

  predicate AllDigits(s: string) { forall i :: 0 <= i < |s| ==> IsDigit(s[i]) }

  function DigitOf(d: nat): (c: char)
    requires d < 10
    ensures IsDigit(c)
  {
    '0' + d as char
  }

  function NatOf(s: string): nat
    requires AllDigits(s)
  {
    if s == "" then 0 else NatOf(s[..|s| - 1]) * 10 + (s[|s| - 1] as int - '0' as int)
  }

  function DigitsOf(n: nat): (s: string)
    ensures AllDigits(s) && |s| > 0 && NatOf(s) == n
  {
    if n < 10 then [DigitOf(n)]
    else
      var s := DigitsOf(n / 10) + [DigitOf(n % 10)];
      assert s[..|s| - 1] == DigitsOf(n / 10);
      s
  }

  function Zeros(k: nat): (s: string)
    ensures |s| == k && AllDigits(s) && forall i :: 0 <= i < k ==> s[i] == '0'
  {
    seq(k, _ => '0')
  }

  // ----- Parsing -----

  /** Index of the first occurrence of a character, or the length if there is none. */
  function IndexOf(s: string, c: char): (i: nat)
    ensures i <= |s|
    ensures i < |s| ==> s[i] == c
    ensures forall k :: 0 <= k < i ==> s[k] != c
  {
    if s == "" || s[0] == c then 0
    else
      var i := 1 + IndexOf(s[1..], c);
      assert forall k :: 1 <= k < i ==> s[k] == s[1..][k - 1];
      i
  }

  function LowerChar(c: char): char {
    if 'A' <= c <= 'Z' then c - 'A' + 'a' else c
  }

  function Lower(s: string): (r: string)
    ensures |r| == |s| && forall i :: 0 <= i < |s| ==> r[i] == LowerChar(s[i])
  {
    seq(|s|, i requires 0 <= i < |s| => LowerChar(s[i]))
  }

  predicate HasSign(s: string) { |s| > 0 && (s[0] == '+' || s[0] == '-') }

  function Unsigned(s: string): string { if HasSign(s) then s[1..] else s }

  predicate IsNegative(s: string) { |s| > 0 && s[0] == '-' }

  /** The digits after the exponent mark, with an optional sign; None if there are none. */
  function ParseExponent(s: string): Option<int> {
    var digits := Unsigned(s);
    if digits == "" || !AllDigits(digits) then None
    else if IsNegative(s) then Some(0 - NatOf(digits))
    else Some(NatOf(digits))
  }

  /** Digits with an optional point and an optional exponent. */
  function ParseFinite(neg: bool, body: string): (r: Option<Number>)
    ensures r.Some? ==> r.value.Fin? && r.value.neg == neg && Canonical(r.value)
  {
    var e := IndexOf(Lower(body), 'e');
    var mantissa := body[..e];
    var exponent := if e == |body| then Some(0) else ParseExponent(body[e + 1..]);
    var p := IndexOf(mantissa, '.');
    var whole := mantissa[..p];
    var fraction := if p < |mantissa| then mantissa[p + 1..] else "";
    if exponent.Some? && AllDigits(whole + fraction) && |whole + fraction| > 0 then
      Some(Canon(neg, NatOf(whole + fraction), exponent.value - |fraction|))
    else
      None
  }

  /** NaN and the infinities, which may be written in any case. */
  function ParseSpecial(s: string): Option<Number> {
    if Lower(s) == "nan" then Some(NaN)
    else if Lower(Unsigned(s)) == "inf" || Lower(Unsigned(s)) == "infinity" then Some(Inf(IsNegative(s)))
    else None
  }

  /** strconv.ParseFloat on decimal text, NaN and the infinities. */
  function ParseFloat(s: string): (r: Option<Number>)
    ensures r.Some? ==> Canonical(r.value)
  {
    if ParseSpecial(s).Some? then ParseSpecial(s) else ParseFinite(IsNegative(s), Unsigned(s))
  }

  // ----- Printing -----

  /** Places the point in a string of digits. */
  function FormatDigits(d: string, exp: int): string {
    if exp >= 0 then d + Zeros(exp)
    else if |d| + exp > 0 then d[..|d| + exp] + "." + d[|d| + exp..]
    else "0." + Zeros(-exp - |d|) + d
  }

  /** strconv.FormatFloat with format 'f' and precision -1. */
  function FormatFloat(n: Number): string {
    match n
    case NaN => "NaN"
    case Inf(neg) => if neg then "-Inf" else "+Inf"
    case Fin(neg, coeff, exp) => (if neg then "-" else "") + FormatDigits(DigitsOf(coeff), exp)
  }

  function NormalizeDecimal(value: string): string {
    match ParseFloat(value)
    case None => value
    case Some(n) => FormatFloat(n)
  }

  /** Number of characters after the point. */
  function DecimalPlaces(value: string): nat {
    var i := IndexOf(value, '.');
    if i == |value| then 0 else |value| - i - 1
  }

  /** Rounds the magnitude, halves upwards, to at most the given number of decimal places. */
  function Round(n: Number, places: nat): (r: Number)
    ensures Canonical(n) ==> Canonical(r)
  {
    if n.Fin? && n.exp + places < 0 then
      var drop := Pow10(-n.exp - places);
      Canon(n.neg, RoundQuotient(n.coeff, drop), 0 - places)
    else n
  }

  /** The nearest whole number to a quotient, halves upwards. */
  function RoundQuotient(c: nat, d: nat): nat
    requires d > 0
  {
    (c + d / 2) / d
  }

  lemma RoundQuotientNearest(c: nat, d: nat)
    requires d > 0
    ensures 0 - d <= 2 * (c - RoundQuotient(c, d) * d) < d
  {
    var x := c + d / 2;
    assert x == x / d * d + x % d;
  }

  // ----- Printing then parsing is the identity -----

  lemma TimesTen(a: int, p: int)
    ensures a * p * 10 == a * (10 * p) == 10 * (a * p)
  {
  }

  lemma NatOfSnoc(s: string, c: char)
    requires AllDigits(s) && IsDigit(c)
    ensures NatOf(s + [c]) == NatOf(s) * 10 + (c as int - '0' as int)
  {
    var t := s + [c];
    assert t[..|t| - 1] == s;
  }

  lemma {:induction false} NatOfAppendZeros(s: string, k: nat)
    requires AllDigits(s)
    ensures NatOf(s + Zeros(k)) == NatOf(s) * Pow10(k)
  {
    if k == 0 {
      assert s + Zeros(0) == s;
    } else {
      NatOfAppendZeros(s, k - 1);
      NatOfSnoc(s + Zeros(k - 1), '0');
      assert s + Zeros(k) == s + Zeros(k - 1) + ['0'];
      TimesTen(NatOf(s), Pow10(k - 1));
    }
  }

  lemma {:induction false} NatOfPrependZeros(k: nat, s: string)
    requires AllDigits(s)
    ensures NatOf(Zeros(k) + s) == NatOf(s)
  {
    var t := Zeros(k) + s;
    if s == "" {
      if k > 0 {
        assert t[..|t| - 1] == Zeros(k - 1) + "";
        NatOfPrependZeros(k - 1, "");
      }
    } else {
      assert t[..|t| - 1] == Zeros(k) + s[..|s| - 1];
      NatOfPrependZeros(k, s[..|s| - 1]);
    }
  }

  lemma {:induction false} CanonShift(neg: bool, coeff: nat, k: nat, exp: int)
    ensures Canon(neg, coeff * Pow10(k), exp) == Canon(neg, coeff, exp + k)
  {
    if k > 0 && coeff > 0 {
      TimesTen(coeff, Pow10(k - 1));
      CanonShift(neg, coeff, k - 1, exp + 1);
    }
  }

  /** Digits with at most one point, starting with a digit: what FormatDigits prints. */
  predicate Plain(body: string, p: nat) {
    0 < p <= |body| && AllDigits(body[..p]) &&
    (p < |body| ==> body[p] == '.' && AllDigits(body[p + 1..]))
  }

  function PlainFraction(body: string, p: nat): string
    requires p <= |body|
  {
    if p < |body| then body[p + 1..] else ""
  }

  /** What the digits of a plain text denote. */
  function PlainNumber(neg: bool, body: string, p: nat): Number
    requires p <= |body| && AllDigits(body[..p] + PlainFraction(body, p))
  {
    Canon(neg, NatOf(body[..p] + PlainFraction(body, p)), 0 - |PlainFraction(body, p)|)
  }

  lemma IndexOfIs(s: string, c: char, i: nat)
    requires i <= |s| && (i < |s| ==> s[i] == c)
    requires forall k :: 0 <= k < i ==> s[k] != c
    ensures IndexOf(s, c) == i
  {
  }

  lemma DigitsConcat(a: string, b: string)
    requires AllDigits(a) && AllDigits(b)
    ensures AllDigits(a + b)
  {
  }

  lemma PlainCharacter(body: string, p: nat, i: nat)
    requires Plain(body, p) && i < |body|
    ensures if i == p then body[i] == '.' else IsDigit(body[i])
  {
    if i < p {
      assert body[i] == body[..p][i];
    } else if i > p {
      assert body[i] == body[p + 1..][i - p - 1];
    }
  }

  lemma PlainHasNoExponent(body: string, p: nat)
    requires Plain(body, p)
    ensures IndexOf(Lower(body), 'e') == |body|
  {
    forall k | 0 <= k < |body|
      ensures Lower(body)[k] != 'e'
    {
      PlainCharacter(body, p, k);
    }
    IndexOfIs(Lower(body), 'e', |body|);
  }

  lemma PlainFinite(neg: bool, body: string, p: nat)
    requires Plain(body, p)
    ensures AllDigits(body[..p] + PlainFraction(body, p))
    ensures ParseFinite(neg, body) ==
            Some(PlainNumber(neg, body, p))
  {
    PlainHasNoExponent(body, p);
    assert body[..|body|] == body;
    forall k | 0 <= k < p
      ensures body[k] != '.'
    {
      PlainCharacter(body, p, k);
    }
    IndexOfIs(body, '.', p);
    DigitsConcat(body[..p], PlainFraction(body, p));
  }

  lemma NotSpecial(neg: bool, body: string)
    requires |body| > 0 && IsDigit(body[0])
    ensures var s := (if neg then "-" else "") + body;
            ParseSpecial(s) == None && IsNegative(s) == neg && Unsigned(s) == body
  {
    var s := (if neg then "-" else "") + body;
    assert Unsigned(s) == body;
    assert Lower(s)[0] != 'n';
    assert Lower(body)[0] != 'i';
  }

  /** Such text is read as its digits, scaled by the length of the fraction. */
  lemma PlainParses(neg: bool, body: string, p: nat)
    requires Plain(body, p)
    ensures AllDigits(body[..p] + PlainFraction(body, p))
    ensures ParseFloat((if neg then "-" else "") + body) ==
            Some(PlainNumber(neg, body, p))
  {
    PlainFinite(neg, body, p);
    PlainCharacter(body, p, 0);
    NotSpecial(neg, body);
  }

  /** Where the point of the printed form is, or its length if there is none. */
  function PointAt(d: string, exp: int): (p: nat)
    ensures p <= |FormatDigits(d, exp)|
  {
    if exp >= 0 then |d| + exp else if |d| + exp > 0 then |d| + exp else 1
  }

  lemma WholePlain(d: string, exp: nat)
    requires d != "" && AllDigits(d)
    ensures var body := FormatDigits(d, exp);
            Plain(body, |body|) && PlainFraction(body, |body|) == "" && body[..|body|] == d + Zeros(exp)
  {
  }

  lemma PointPlain(d: string, exp: int)
    requires AllDigits(d) && exp < 0 && |d| + exp > 0
    ensures var body, p := FormatDigits(d, exp), |d| + exp;
            Plain(body, p) && |PlainFraction(body, p)| == -exp && body[..p] + PlainFraction(body, p) == d
  {
    var body, p := FormatDigits(d, exp), |d| + exp;
    assert body[..p] == d[..p] && PlainFraction(body, p) == d[p..];
  }

  lemma FractionPlain(d: string, exp: int)
    requires d != "" && AllDigits(d) && exp < 0 && |d| + exp <= 0
    ensures var body := FormatDigits(d, exp);
            Plain(body, 1) && |PlainFraction(body, 1)| == -exp &&
            body[..1] + PlainFraction(body, 1) == Zeros(1 - exp - |d|) + d
  {
    var body := FormatDigits(d, exp);
    assert body[..1] == "0" && PlainFraction(body, 1) == Zeros(-exp - |d|) + d;
  }

  lemma PlainNumberIs(neg: bool, body: string, p: nat, t: string)
    requires p <= |body| && AllDigits(t) && body[..p] + PlainFraction(body, p) == t
    ensures PlainNumber(neg, body, p) == Canon(neg, NatOf(t), 0 - |PlainFraction(body, p)|)
  {
  }

  lemma ScaledDigits(neg: bool, d: string, exp: nat)
    requires AllDigits(d)
    ensures AllDigits(d + Zeros(exp)) && Canon(neg, NatOf(d + Zeros(exp)), 0) == Canon(neg, NatOf(d), exp)
  {
    NatOfAppendZeros(d, exp);
    CanonShift(neg, NatOf(d), exp, 0);
  }

  /** The printed form is plain text that denotes its digits times a power of ten. */
  lemma FormatPlain(neg: bool, d: string, exp: int)
    requires d != "" && AllDigits(d)
    ensures var body, p := FormatDigits(d, exp), PointAt(d, exp);
            Plain(body, p) && AllDigits(body[..p] + PlainFraction(body, p)) &&
            PlainNumber(neg, body, p) == Canon(neg, NatOf(d), exp)
  {
    var body, p := FormatDigits(d, exp), PointAt(d, exp);
    if exp >= 0 {
      WholePlain(d, exp);
      assert body[..p] + PlainFraction(body, p) == d + Zeros(exp);
      PlainNumberIs(neg, body, p, d + Zeros(exp));
      ScaledDigits(neg, d, exp);
    } else if |d| + exp > 0 {
      PointPlain(d, exp);
      PlainNumberIs(neg, body, p, d);
    } else {
      FractionPlain(d, exp);
      var z := 1 - exp - |d|;
      DigitsConcat(Zeros(z), d);
      PlainNumberIs(neg, body, p, Zeros(z) + d);
      NatOfPrependZeros(z, d);
    }
  }

  lemma FormatParses(n: Number)
    requires Canonical(n)
    ensures ParseFloat(FormatFloat(n)) == Some(n)
  {
    match n
    case NaN => assert Lower("NaN") == "nan";
    case Inf(neg) =>
      var s := FormatFloat(n);
      assert Unsigned(s) == "Inf";
      assert Lower("Inf") == "inf";
      assert |Lower(s)| == 4;
    case Fin(neg, coeff, exp) =>
      var d := DigitsOf(coeff);
      FormatPlain(neg, d, exp);
      PlainParses(neg, FormatDigits(d, exp), PointAt(d, exp));
  }

  /** Digits read from left to right, in base ten. */
  lemma {:induction false} NatOfConcat(a: string, b: string)
    requires AllDigits(a) && AllDigits(b)
    ensures AllDigits(a + b) && NatOf(a + b) == NatOf(a) * Pow10(|b|) + NatOf(b)
  {
    if b == "" {
      assert a + b == a;
    } else {
      var last := |b| - 1;
      NatOfConcat(a, b[..last]);
      assert a + b == a + b[..last] + [b[last]];
      NatOfSnoc(a + b[..last], b[last]);
      assert b == b[..last] + [b[last]];
      TimesTen(NatOf(a), Pow10(last));
    }
  }

  /** The ten digits have their values. */
  lemma DigitValues()
    ensures NatOf("0123456789") == 123456789
  {
    assert NatOf("0123") == 123 by {
      assert "0123"[..3] == "012" && "012"[..2] == "01" && "01"[..1] == "0" && "0"[..0] == "";
    }
    assert NatOf("456") == 456 && NatOf("789") == 789 by {
      assert "456"[..2] == "45" && "45"[..1] == "4" && "4"[..0] == "";
      assert "789"[..2] == "78" && "78"[..1] == "7" && "7"[..0] == "";
    }
    NatOfConcat("0123", "456");
    NatOfConcat("0123456", "789");
    assert "0123" + "456" == "0123456" && "0123456" + "789" == "0123456789";
    assert Pow10(3) == 1000;
  }

  /** Where the digits end before the point, and those after it. */
  function PrintedWhole(d: string, exp: int): string {
    if exp >= 0 then d + Zeros(exp) else if |d| + exp > 0 then d[..|d| + exp] else "0"
  }

  function PrintedFraction(d: string, exp: int): string {
    if exp >= 0 then "" else if |d| + exp > 0 then d[|d| + exp..] else Zeros(-exp - |d|) + d
  }

  predicate Shortest(whole: string, fraction: string) {
    AllDigits(whole) && AllDigits(fraction) && whole != "" && (|whole| > 1 ==> whole[0] != '0') &&
    (fraction != "" ==> fraction[|fraction| - 1] != '0')
  }

  lemma PrintedParts(d: string, exp: int)
    requires d != "" && AllDigits(d) && (d == "0" ==> exp == 0)
    ensures FormatDigits(d, exp) ==
            PrintedWhole(d, exp) +
            if PrintedFraction(d, exp) == "" then "" else "." + PrintedFraction(d, exp)
  {
    hide Zeros;
  }

  lemma PrintedIsShortest(d: string, exp: int)
    requires d != "" && AllDigits(d) && (|d| > 1 ==> d[0] != '0')
    requires if d == "0" then exp == 0 else d[0] != '0' && d[|d| - 1] != '0'
    ensures Shortest(PrintedWhole(d, exp), PrintedFraction(d, exp))
  {
    hide Zeros;
    if exp < 0 && |d| + exp <= 0 {
      DigitsConcat(Zeros(-exp - |d|), d);
    }
  }

  /** A printed number has no exponent and no zero that could be left out; only a negative one has a sign. */
  lemma FormatIsShortest(n: Number)
    requires n.Fin? && Canonical(n)
    ensures exists whole, fraction ::
              Shortest(whole, fraction) &&
              FormatFloat(n) == (if n.neg then "-" else "") + (whole + if fraction == "" then "" else "." + fraction)
  {
    hide Shortest, FormatDigits, PrintedWhole, PrintedFraction;
    DigitsHaveNoLeadingZero(n.coeff);
    DigitsEnd(n.coeff);
    PrintedIsShortest(DigitsOf(n.coeff), n.exp);
    PrintedParts(DigitsOf(n.coeff), n.exp);
  }

  lemma {:induction false} DigitsHaveNoLeadingZero(n: nat)
    ensures n > 0 ==> DigitsOf(n)[0] != '0'
    ensures n == 0 ==> DigitsOf(n) == "0"
    ensures n > 0 ==> DigitsOf(n) != "0"
  {
    if n >= 10 {
      DigitsHaveNoLeadingZero(n / 10);
    }
  }

  lemma DigitsEnd(n: nat)
    ensures DigitsOf(n)[|DigitsOf(n)| - 1] == DigitOf(n % 10)
  {
  }

  // ----- What is read -----

  datatype Exponent = Exponent(mark: char, sign: string, digits: string)

  /** A number as it may be written: a sign, digits with an optional point among them, and an exponent. */
  datatype Literal = Literal(sign: string, whole: string, point: bool, fraction: string, exponent: Option<Exponent>)

  predicate IsSign(s: string) { s == "" || s == "+" || s == "-" }

  predicate Written(l: Literal) {
    IsSign(l.sign) && AllDigits(l.whole) && AllDigits(l.fraction) && l.whole + l.fraction != "" &&
    (!l.point ==> l.fraction == "") &&
    (l.exponent.Some? ==>
       l.exponent.value.mark in "eE" && IsSign(l.exponent.value.sign) &&
       l.exponent.value.digits != "" && AllDigits(l.exponent.value.digits))
  }

  function MantissaText(l: Literal): string { l.whole + (if l.point then "." + l.fraction else "") }

  function ExponentText(e: Option<Exponent>): string {
    match e
    case None => ""
    case Some(x) => [x.mark] + x.sign + x.digits
  }

  function LiteralText(l: Literal): string { l.sign + MantissaText(l) + ExponentText(l.exponent) }

  function Power(e: Option<Exponent>): int
    requires e.Some? ==> AllDigits(e.value.digits)
  {
    match e
    case None => 0
    case Some(x) => if x.sign == "-" then 0 - NatOf(x.digits) else NatOf(x.digits)
  }

  /** Its digits, with the point moved right by the power, or left if that is negative. */
  ghost function Denoted(l: Literal): real
    requires Written(l)
  {
    var m := Magnitude(NatOf(l.whole), Power(l.exponent)) +
             Magnitude(NatOf(l.fraction), Power(l.exponent) - |l.fraction|);
    if l.sign == "-" then -m else m
  }

  lemma MagnitudeSum(a: nat, b: nat, exp: int)
    ensures Magnitude(a + b, exp) == Magnitude(a, exp) + Magnitude(b, exp)
  {
    if exp >= 0 {
      assert (a + b) * Pow10(exp) == a * Pow10(exp) + b * Pow10(exp);
    } else {
      DivideSum(a as real, b as real, Pow10(-exp) as real);
    }
  }

  lemma DivideSum(x: real, y: real, p: real)
    requires p > 0.0
    ensures (x + y) / p == x / p + y / p
  {
    assert (x / p + y / p) * p == x + y;
  }

  lemma MantissaMagnitude(whole: string, fraction: string, power: int)
    requires AllDigits(whole) && AllDigits(fraction)
    ensures AllDigits(whole + fraction)
    ensures Magnitude(NatOf(whole + fraction), power - |fraction|) ==
            Magnitude(NatOf(whole), power) + Magnitude(NatOf(fraction), power - |fraction|)
  {
    hide Magnitude, NatOf, Pow10;
    NatOfConcat(whole, fraction);
    MagnitudeSum(NatOf(whole) * Pow10(|fraction|), NatOf(fraction), power - |fraction|);
    MagnitudeAlign(NatOf(whole), power - |fraction|, |fraction|);
  }

  lemma SignedText(sign: string, body: string)
    requires IsSign(sign) && (body != "" ==> body[0] != '+' && body[0] != '-')
    ensures Unsigned(sign + body) == body && (IsNegative(sign + body) <==> sign == "-")
  {
    if sign == "" {
      assert sign + body == body;
    } else {
      assert (sign + body)[1..] == body;
    }
  }

  lemma ExponentIsRead(x: Exponent)
    requires IsSign(x.sign) && x.digits != "" && AllDigits(x.digits)
    ensures ParseExponent(x.sign + x.digits) == Some(Power(Some(x)))
  {
    assert IsDigit(x.digits[0]);
    SignedText(x.sign, x.digits);
  }

  lemma MantissaCharacters(l: Literal)
    requires Written(l)
    ensures var m := MantissaText(l);
            m != "" && (IsDigit(m[0]) || m[0] == '.') &&
            (forall k :: 0 <= k < |m| ==> LowerChar(m[k]) != 'e') && IndexOf(m, '.') == |l.whole| &&
            m[..|l.whole|] == l.whole && (|l.whole| < |m| <==> l.point) &&
            (l.point ==> m[|l.whole| + 1..] == l.fraction)
  {
    var m := MantissaText(l);
    forall k | 0 <= k < |m|
      ensures IsDigit(m[k]) || m[k] == '.'
      ensures k < |l.whole| ==> IsDigit(m[k])
    {
      if k < |l.whole| {
        assert m[k] == l.whole[k];
      } else if k > |l.whole| {
        assert m[k] == l.fraction[k - |l.whole| - 1];
      }
    }
    IndexOfIs(m, '.', |l.whole|);
  }

  lemma ExponentStarts(m: string, tail: string)
    requires forall k :: 0 <= k < |m| ==> LowerChar(m[k]) != 'e'
    requires tail != "" ==> LowerChar(tail[0]) == 'e'
    ensures IndexOf(Lower(m + tail), 'e') == |m| && (m + tail)[..|m|] == m
    ensures tail != "" ==> (m + tail)[|m| + 1..] == tail[1..]
  {
    var body := m + tail;
    forall k | 0 <= k < |m|
      ensures Lower(body)[k] != 'e'
    {
      assert body[k] == m[k];
    }
    IndexOfIs(Lower(body), 'e', |m|);
  }

  lemma ExponentTail(e: Option<Exponent>)
    requires e.Some? ==> e.value.mark in "eE"
    ensures ExponentText(e) != "" <==> e.Some?
    ensures e.Some? ==> LowerChar(ExponentText(e)[0]) == 'e' && ExponentText(e)[1..] == e.value.sign + e.value.digits
  {
  }

  lemma BodyIsRead(l: Literal, neg: bool)
    requires Written(l)
    ensures AllDigits(l.whole + l.fraction)
    ensures ParseFinite(neg, MantissaText(l) + ExponentText(l.exponent)) ==
            Some(Canon(neg, NatOf(l.whole + l.fraction), Power(l.exponent) - |l.fraction|))
  {
    hide MantissaText, ExponentText, IndexOf, Canon, NatOf, ParseExponent, Lower, Power;
    MantissaCharacters(l);
    DigitsConcat(l.whole, l.fraction);
    ExponentTail(l.exponent);
    ExponentStarts(MantissaText(l), ExponentText(l.exponent));
    if l.exponent.Some? {
      ExponentIsRead(l.exponent.value);
    } else {
      assert Power(l.exponent) == 0 by { NoPower(); }
    }
  }

  lemma NoPower()
    ensures Power(None) == 0
  {
  }

  lemma BodyIsNotSpecial(sign: string, body: string)
    requires IsSign(sign) && body != "" && (IsDigit(body[0]) || body[0] == '.')
    ensures ParseSpecial(sign + body) == None
  {
    SignedText(sign, body);
    assert sign == "" ==> sign + body == body;
    assert Lower(sign + body)[0] == if sign == "" then LowerChar(body[0]) else sign[0];
    assert Lower(body)[0] == LowerChar(body[0]);
  }

  lemma DenotedIs(l: Literal, n: Number)
    requires Written(l) && AllDigits(l.whole + l.fraction)
    requires n == Canon(l.sign == "-", NatOf(l.whole + l.fraction), Power(l.exponent) - |l.fraction|)
    ensures Value(n) == Denoted(l)
  {
    hide Canon, Magnitude, NatOf, Power;
    CanonKeepsValue(l.sign == "-", NatOf(l.whole + l.fraction), Power(l.exponent) - |l.fraction|);
    MantissaMagnitude(l.whole, l.fraction, Power(l.exponent));
  }

  /** What a written number is read as: its sign, and its digits moved by the power. */
  lemma LiteralIsRead(l: Literal)
    requires Written(l)
    ensures var n := ParseFloat(LiteralText(l));
            n.Some? && n.value.Fin? && (n.value.neg <==> l.sign == "-") && Value(n.value) == Denoted(l)
  {
    hide ParseFinite, ParseSpecial, Canon, Value, Denoted, MantissaText, ExponentText, NatOf, Power, Unsigned,
      IsNegative;
    var body := MantissaText(l) + ExponentText(l.exponent);
    MantissaCharacters(l);
    assert body[0] == MantissaText(l)[0];
    assert LiteralText(l) == l.sign + body;
    BodyIsNotSpecial(l.sign, body);
    SignedText(l.sign, body);
    BodyIsRead(l, l.sign == "-");
    DenotedIs(l, Canon(l.sign == "-", NatOf(l.whole + l.fraction), Power(l.exponent) - |l.fraction|));
  }

  lemma SplitSign(s: string)
    ensures var sign := if HasSign(s) then s[..1] else "";
            IsSign(sign) && sign + Unsigned(s) == s && (IsNegative(s) <==> sign == "-")
  {
  }

  lemma MantissaParts(mantissa: string, p: nat)
    requires p <= |mantissa| && (p < |mantissa| ==> mantissa[p] == '.')
    requires AllDigits(mantissa[..p] + if p < |mantissa| then mantissa[p + 1..] else "")
    ensures var l := Literal("", mantissa[..p], p < |mantissa|, if p < |mantissa| then mantissa[p + 1..] else "", None);
            AllDigits(l.whole) && AllDigits(l.fraction) && MantissaText(l) == mantissa
  {
    DigitsSplit(mantissa[..p], if p < |mantissa| then mantissa[p + 1..] else "");
  }

  lemma ExponentParts(written: string)
    requires written != "" && LowerChar(written[0]) == 'e' && ParseExponent(written[1..]).Some?
    ensures exists x: Exponent :: x.mark in "eE" && IsSign(x.sign) && x.digits != "" && AllDigits(x.digits) &&
                                  ExponentText(Some(x)) == written
  {
    hide AllDigits, LowerChar, NatOf;
    var rest := written[1..];
    SplitSign(rest);
    var x := Exponent(written[0], if HasSign(rest) then rest[..1] else "", Unsigned(rest));
    MarkIs(written[0]);
    assert x.sign + x.digits == rest;
    assert [written[0]] + rest == written;
    ExponentTextIs(x);
  }

  lemma ExponentTextIs(x: Exponent)
    ensures ExponentText(Some(x)) == [x.mark] + (x.sign + x.digits)
  {
  }

  lemma FiniteParts(body: string, neg: bool)
    requires ParseFinite(neg, body).Some?
    ensures exists l :: Written(l) && l.sign == "" && LiteralText(l) == body
  {
    hide NatOf, Canon, IndexOf, MantissaText, ExponentText, ParseExponent, AllDigits;
    var e := IndexOf(Lower(body), 'e');
    var mantissa := body[..e];
    var p := IndexOf(mantissa, '.');
    var l := Literal("", mantissa[..p], p < |mantissa|, if p < |mantissa| then mantissa[p + 1..] else "", None);
    MantissaParts(mantissa, p);
    assert body == mantissa + body[e..];
    if e < |body| {
      assert body[e..][1..] == body[e + 1..];
      ExponentFollows(l, body[e..]);
    } else {
      NoExponentText();
      assert LiteralText(l) == body;
    }
  }

  lemma ExponentFollows(l: Literal, written: string)
    requires Written(l) && l.sign == ""
    requires written != "" && LowerChar(written[0]) == 'e' && ParseExponent(written[1..]).Some?
    ensures exists m :: Written(m) && m.sign == "" && LiteralText(m) == MantissaText(l) + written
  {
    hide Written, ParseExponent, ExponentText, MantissaText, LiteralText;
    ExponentParts(written);
    var x: Exponent :| x.mark in "eE" && IsSign(x.sign) && x.digits != "" && AllDigits(x.digits) &&
                       ExponentText(Some(x)) == written;
    WithExponent(l, x);
    assert l.sign + MantissaText(l) == MantissaText(l);
  }

  lemma WithExponent(l: Literal, x: Exponent)
    ensures var m := l.(exponent := Some(x)); LiteralText(m) == l.sign + MantissaText(l) + ExponentText(Some(x))
    ensures Written(l) && x.mark in "eE" && IsSign(x.sign) && x.digits != "" && AllDigits(x.digits) ==>
              Written(l.(exponent := Some(x)))
  {
  }

  lemma NoExponentText()
    ensures ExponentText(None) == ""
  {
  }

  lemma MarkIs(c: char)
    ensures LowerChar(c) == 'e' ==> c in "eE"
  {
  }

  /** Nothing else is read as a finite number. */
  lemma FiniteIsLiteral(s: string)
    requires ParseFloat(s).Some? && ParseFloat(s).value.Fin?
    ensures exists l :: Written(l) && LiteralText(l) == s
  {
    hide ParseFinite, ParseExponent, ExponentText, Lower;
    SplitSign(s);
    FiniteParts(Unsigned(s), IsNegative(s));
    var l :| Written(l) && l.sign == "" && LiteralText(l) == Unsigned(s);
    var m := l.(sign := if HasSign(s) then s[..1] else "");
    assert LiteralText(m) == m.sign + LiteralText(l);
    assert Written(m);
  }

  lemma DigitsSplit(a: string, b: string)
    requires AllDigits(a + b)
    ensures AllDigits(a) && AllDigits(b)
  {
    assert forall i :: 0 <= i < |a| ==> a[i] == (a + b)[i];
    assert forall i :: 0 <= i < |b| ==> b[i] == (a + b)[|a| + i];
  }

  /** Text is read exactly if it is a written number, NaN, or an infinity, the last two in any case. */
  lemma ReadableIff(s: string)
    ensures ParseFloat(s).Some? <==>
            (exists l :: Written(l) && LiteralText(l) == s) || Lower(s) == "nan" ||
            exists sign :: IsSign(sign) && (Lower(s) == sign + "inf" || Lower(s) == sign + "infinity")
    ensures ParseFloat(s) == Some(NaN) <==> Lower(s) == "nan"
    ensures forall neg :: ParseFloat(s) == Some(Inf(neg)) <==>
              exists sign :: IsSign(sign) && (neg <==> sign == "-") &&
                             (Lower(s) == sign + "inf" || Lower(s) == sign + "infinity")
  {
    hide ParseFinite;
    if l :| Written(l) && LiteralText(l) == s {
      LiteralIsRead(l);
    }
    if ParseFloat(s).Some? && ParseFloat(s).value.Fin? {
      FiniteIsLiteral(s);
    }
    InfinityIff(s);
  }

  /** A signed word is read off sign first. */
  lemma SignedWord(s: string, sign: string, word: string)
    requires IsSign(sign) && word != "" && word[0] == 'i'
    ensures Lower(s) == sign + word <==>
            (if HasSign(s) then s[..1] else "") == sign && Lower(Unsigned(s)) == word
  {
    var own := if HasSign(s) then s[..1] else "";
    assert Lower(s) == own + Lower(Unsigned(s));
    if Lower(s) == sign + word {
      assert s != "" && Lower(s)[0] == LowerChar(s[0]);
      assert (sign + word)[0] == if sign == "" then 'i' else sign[0];
      assert own == sign;
    }
  }

  lemma InfinityIff(s: string)
    ensures forall sign :: IsSign(sign) && (Lower(s) == sign + "inf" || Lower(s) == sign + "infinity") ==>
              ParseSpecial(s) == Some(Inf(sign == "-"))
    ensures forall neg :: ParseSpecial(s) == Some(Inf(neg)) ==>
              exists sign :: IsSign(sign) && (neg <==> sign == "-") &&
                             (Lower(s) == sign + "inf" || Lower(s) == sign + "infinity")
  {
    hide Lower, Unsigned;
    SplitSign(s);
    forall sign | IsSign(sign)
      ensures (Lower(s) == sign + "inf" || Lower(s) == sign + "infinity") <==>
              (if HasSign(s) then s[..1] else "") == sign &&
              (Lower(Unsigned(s)) == "inf" || Lower(Unsigned(s)) == "infinity")
    {
      SignedWord(s, sign, "inf");
      SignedWord(s, sign, "infinity");
    }
  }

  // ----- NormalizeDecimal is a normal form -----

  lemma NormalizeKeepsNumber(value: string)
    requires ParseFloat(value).Some?
    ensures ParseFloat(NormalizeDecimal(value)) == ParseFloat(value)
  {
    FormatParses(ParseFloat(value).value);
  }

  lemma NormalizeIdempotent(value: string)
    ensures NormalizeDecimal(NormalizeDecimal(value)) == NormalizeDecimal(value)
  {
    if ParseFloat(value).Some? {
      NormalizeKeepsNumber(value);
    }
  }

  lemma MagnitudeShift(coeff: nat, exp: int)
    ensures Magnitude(10 * coeff, exp) == Magnitude(coeff, exp + 1)
  {
    if exp >= 0 {
      assert Pow10(exp + 1) == 10 * Pow10(exp);
      assert 10 * coeff * Pow10(exp) == coeff * Pow10(exp + 1);
    } else {
      var p := Pow10(-exp - 1);
      assert Pow10(-exp) == 10 * p;
      assert (10 * coeff) as real / (10 * p) as real == coeff as real / p as real;
    }
  }

  /** Moving zeros to the exponent changes no value. */
  lemma {:induction false} CanonKeepsValue(neg: bool, coeff: nat, exp: int)
    ensures Value(Canon(neg, coeff, exp)) == Value(Fin(neg, coeff, exp))
    decreases coeff
  {
    if coeff != 0 && coeff % 10 == 0 {
      CanonKeepsValue(neg, coeff / 10, exp + 1);
      MagnitudeShift(coeff / 10, exp);
    }
  }

  lemma {:induction false} MagnitudeAlign(coeff: nat, exp: int, k: nat)
    ensures Magnitude(coeff * Pow10(k), exp) == Magnitude(coeff, exp + k)
    decreases k
  {
    if k > 0 {
      assert coeff * Pow10(k) == 10 * (coeff * Pow10(k - 1));
      MagnitudeShift(coeff * Pow10(k - 1), exp);
      MagnitudeAlign(coeff, exp + 1, k - 1);
    } else {
      assert coeff * Pow10(0) == coeff;
    }
  }

  lemma MagnitudeInjective(a: nat, b: nat, exp: int)
    requires Magnitude(a, exp) == Magnitude(b, exp)
    ensures a == b
  {
    if exp >= 0 {
      var p := Pow10(exp);
      assert a * p == b * p;
    } else {
      var p := Pow10(-exp) as real;
      assert a as real == a as real / p * p == b as real / p * p == b as real;
    }
  }

  lemma CanonicalUnique(a: nat, e: int, b: nat, f: int)
    requires Canonical(Fin(false, a, e)) && Canonical(Fin(false, b, f))
    requires e <= f
    requires Magnitude(a, e) == Magnitude(b, f)
    ensures a == b && e == f
  {
    var k := f - e;
    MagnitudeAlign(b, e, k);
    MagnitudeInjective(a, b * Pow10(k), e);
    if k > 0 {
      TenDivides(b, k);
    }
  }

  lemma TenDivides(b: int, k: nat)
    requires k > 0
    ensures b * Pow10(k) % 10 == 0
  {
    assert b * Pow10(k) == 10 * (b * Pow10(k - 1));
  }

  /** Two finite decimals print alike exactly when they are equal and have the same sign mark. */
  lemma SignedEqualIff(s: string, t: string)
    requires ParseFloat(s).Some? && ParseFloat(s).value.Fin?
    requires ParseFloat(t).Some? && ParseFloat(t).value.Fin?
    ensures NormalizeDecimal(s) == NormalizeDecimal(t) <==>
            Value(ParseFloat(s).value) == Value(ParseFloat(t).value) &&
            ParseFloat(s).value.neg == ParseFloat(t).value.neg
  {
    var m, n := ParseFloat(s).value, ParseFloat(t).value;
    FormatParses(m);
    FormatParses(n);
    if Value(m) == Value(n) && m.neg == n.neg {
      if m.exp <= n.exp {
        CanonicalUnique(m.coeff, m.exp, n.coeff, n.exp);
      } else {
        CanonicalUnique(n.coeff, n.exp, m.coeff, m.exp);
      }
    }
  }

  lemma MagnitudePositive(c: nat, e: int)
    ensures Magnitude(c, e) >= 0.0 && (Magnitude(c, e) == 0.0 <==> c == 0)
  {
    if e >= 0 {
      ProductPositive(c, Pow10(e));
    } else {
      var x := c as real / Pow10(-e) as real;
      assert x * Pow10(-e) as real == c as real;
    }
  }

  lemma ProductPositive(c: nat, p: nat)
    requires p > 0
    ensures c * p >= 0 && (c * p == 0 <==> c == 0)
  {
  }

  predicate NegativeZero(n: Number) { n.Fin? && n.neg && n.coeff == 0 }

  /** Negative zero aside, two finite decimals print alike exactly when they are equal. */
  lemma NormalizeEqualIff(s: string, t: string)
    requires ParseFloat(s).Some? && ParseFloat(s).value.Fin? && !NegativeZero(ParseFloat(s).value)
    requires ParseFloat(t).Some? && ParseFloat(t).value.Fin? && !NegativeZero(ParseFloat(t).value)
    ensures NormalizeDecimal(s) == NormalizeDecimal(t) <==> Value(ParseFloat(s).value) == Value(ParseFloat(t).value)
  {
    hide ParseFloat, NormalizeDecimal, Magnitude;
    var m, n := ParseFloat(s).value, ParseFloat(t).value;
    SignedEqualIff(s, t);
    MagnitudePositive(m.coeff, m.exp);
    MagnitudePositive(n.coeff, n.exp);
  }

  /** Decimals that are read have one normal form exactly if the same number is read. */
  lemma SameNumberIff(s: string, t: string)
    requires ParseFloat(s).Some? && ParseFloat(t).Some?
    ensures NormalizeDecimal(s) == NormalizeDecimal(t) <==> ParseFloat(s) == ParseFloat(t)
  {
    hide ParseFloat, FormatFloat;
    NormalizeKeepsNumber(s);
    NormalizeKeepsNumber(t);
  }

  /** Two written numbers of one sign normalise to the same text exactly if their digits denote the same: an exponent
      makes no difference, nor do zeros that could be left out. */
  lemma LiteralsEqualIff(l: Literal, m: Literal)
    requires Written(l) && Written(m) && (l.sign == "-" <==> m.sign == "-")
    ensures NormalizeDecimal(LiteralText(l)) == NormalizeDecimal(LiteralText(m)) <==> Denoted(l) == Denoted(m)
  {
    hide ParseFloat, NormalizeDecimal, Denoted, LiteralText;
    LiteralIsRead(l);
    LiteralIsRead(m);
    SignedEqualIff(LiteralText(l), LiteralText(m));
  }

  // ----- Decimal places and rounding -----

  lemma PlacesOfFormat(n: Number)
    requires n.Fin? && Canonical(n)
    ensures DecimalPlaces(FormatFloat(n)) == if n.exp < 0 then -n.exp else 0
  {
    var s := FormatFloat(n);
    var sign := if n.neg then 1 else 0;
    var d := DigitsOf(n.coeff);
    if n.exp >= 0 {
      assert forall i :: 0 <= i < |s| ==> s[i] != '.';
    } else {
      var p := sign + if |d| > -n.exp then |d| + n.exp else 1;
      assert s[p] == '.';
      assert forall i :: 0 <= i < p ==> s[i] != '.';
      assert IndexOf(s, '.') == p;
    }
  }

  lemma {:induction false} PowAdd(a: nat, b: nat)
    ensures Pow10(a + b) == Pow10(a) * Pow10(b)
  {
    if a > 0 {
      PowAdd(a - 1, b);
      assert Pow10(a) * Pow10(b) == 10 * (Pow10(a - 1) * Pow10(b));
    } else {
      assert Pow10(0) * Pow10(b) == Pow10(b);
    }
  }

  ghost predicate IsWhole(x: real) { x.Floor as real == x }

  lemma WholeScaled(x: real, c: nat, p: nat, q: nat)
    requires x == (c * p) as real * q as real
    ensures IsWhole(x)
  {
    assert x == (c * p * q) as real;
  }

  lemma PartScaled(x: real, c: nat, p: nat, q: nat, s: nat)
    requires p > 0 && s == q * p
    requires x == c as real / p as real * s as real
    ensures IsWhole(x)
  {
    var y := c as real / p as real;
    assert y * p as real == c as real;
    assert y * (q * p) as real == y * p as real * q as real;
    assert x == (c * q) as real;
  }

  lemma PartShort(x: real, c: nat, a: nat, b: nat)
    requires a > 0 && b > 0
    requires x == c as real / (a * b) as real * a as real && IsWhole(x)
    ensures c == x.Floor * b
  {
    var y := c as real / (a * b) as real;
    assert y * (a * b) as real == c as real;
    assert y * (a * b) as real == y * a as real * b as real;
    assert c as real == (x.Floor * b) as real;
  }

  lemma ScaledUp(x: real, coeff: nat, exp: int, places: nat, scale: nat)
    requires exp + places >= 0 && scale == Pow10(places)
    requires x == Magnitude(coeff, exp) * scale as real
    ensures IsWhole(x)
  {
    if exp >= 0 {
      WholeScaled(x, coeff, Pow10(exp), scale);
    } else {
      ScaledUpPart(x, coeff, -exp, places + exp, scale);
    }
  }

  lemma ScaledUpPart(x: real, coeff: nat, k: nat, rest: nat, scale: nat)
    requires scale == Pow10(rest + k)
    requires x == coeff as real / Pow10(k) as real * scale as real
    ensures IsWhole(x)
  {
    PowAdd(rest, k);
    PartScaled(x, coeff, Pow10(k), Pow10(rest), scale);
  }

  lemma ScaledShort(x: real, coeff: nat, exp: int, places: nat, scale: nat)
    requires coeff % 10 != 0 && exp + places < 0 && scale == Pow10(places)
    requires x == Magnitude(coeff, exp) * scale as real
    ensures !IsWhole(x)
  {
    var k := -exp - places;
    PowAdd(places, k);
    assert Pow10(-exp) == scale * Pow10(k);
    if IsWhole(x) {
      PartShort(x, coeff, scale, Pow10(k));
      TenDivides(x.Floor, k);
    }
  }

  /** A canonical number scaled by 10^places is whole exactly when its exponent allows it. */
  lemma WholeIff(x: real, n: Number, places: nat, scale: nat)
    requires n.Fin? && Canonical(n) && scale == Pow10(places)
    requires x == Magnitude(n.coeff, n.exp) * scale as real
    ensures IsWhole(x) <==> n.exp + places >= 0
  {
    if n.exp + places >= 0 {
      ScaledUp(x, n.coeff, n.exp, places, scale);
    } else {
      ScaledShort(x, n.coeff, n.exp, places, scale);
    }
  }

  lemma HundredThousand()
    ensures Pow10(5) == 100000
  {
    assert Pow10(2) == 100 && Pow10(4) == 10000;
  }

  lemma FiveWholeIff(n: Number)
    requires n.Fin? && Canonical(n)
    ensures n.exp >= -5 <==> IsWhole(Magnitude(n.coeff, n.exp) * 100000.0)
  {
    HundredThousand();
    WholeIff(Magnitude(n.coeff, n.exp) * 100000.0, n, 5, 100000);
  }

  /** At most five printed places: exactly when a hundred thousand times the magnitude is whole. */
  lemma FivePlacesIff(value: string, n: Number)
    requires ParseFloat(value) == Some(n) && n.Fin?
    ensures DecimalPlaces(NormalizeDecimal(value)) <= 5 <==> IsWhole(Magnitude(n.coeff, n.exp) * 100000.0)
  {
    assert NormalizeDecimal(value) == FormatFloat(n);
    FivePlaces(n);
  }

  lemma FivePlaces(n: Number)
    requires n.Fin? && Canonical(n)
    ensures DecimalPlaces(FormatFloat(n)) <= 5 <==> IsWhole(Magnitude(n.coeff, n.exp) * 100000.0)
  {
    PlacesOfFormat(n);
    FiveWholeIff(n);
  }

  /** Rounding is the identity exactly on the numbers that print with few enough places. */
  lemma RoundIdentityIff(n: Number, places: nat)
    requires n.Fin? && Canonical(n)
    ensures Round(n, places) == n <==> DecimalPlaces(FormatFloat(n)) <= places
  {
    hide FormatFloat, DecimalPlaces;
    PlacesOfFormat(n);
    RoundExp(n, places);
  }

  lemma RoundExp(n: Number, places: nat)
    requires n.Fin?
    ensures if n.exp + places < 0 then Round(n, places).exp + places >= 0 else Round(n, places) == n
  {
    hide RoundQuotient;
    if n.exp + places < 0 {
      CanonExp(n.neg, RoundQuotient(n.coeff, Pow10(-n.exp - places)), 0 - places);
    }
  }

  lemma {:induction false} CanonExp(neg: bool, coeff: nat, exp: int)
    requires coeff == 0 ==> exp <= 0
    ensures Canon(neg, coeff, exp).exp >= exp
    decreases coeff
  {
    if coeff != 0 && coeff % 10 == 0 {
      CanonExp(neg, coeff / 10, exp + 1);
    }
  }
}

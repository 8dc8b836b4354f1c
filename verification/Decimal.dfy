/** Plain decimal numbers as text: what `std::stod` and `atof` read (without
    exponents, hexadecimal forms, infinities and rounding), and what `%.6f` prints. */
module Decimal {
  import opened Options

  predicate IsDigit(c: char) { '0' <= c <= '9' }

  predicate IsSpace(c: char) { c == ' ' || '\t' <= c <= '\r' }

  function DigitVal(c: char): nat {
    if IsDigit(c) then (c - '0') as nat else 0
  }

  predicate AllDigits(s: string) {
    forall i | 0 <= i < |s| :: IsDigit(s[i])
  }

  /** The digits a string starts with, and what follows them. */
  function SplitDigits(s: string): (string, string) {
    if s != "" && IsDigit(s[0]) then
      var (digits, rest) := SplitDigits(s[1..]);
      ([s[0]] + digits, rest)
    else ("", s)
  }

  lemma {:induction false} SplitDigitsIs(digits: string, rest: string)
    requires AllDigits(digits) && (rest == "" || !IsDigit(rest[0]))
    ensures SplitDigits(digits + rest) == (digits, rest)
  {
    if digits == "" {
      assert digits + rest == rest;
    } else {
      assert (digits + rest)[1..] == digits[1..] + rest;
      SplitDigitsIs(digits[1..], rest);
      assert [digits[0]] + digits[1..] == digits;
    }
  }

  function NatVal(digits: string): nat {
    if digits == "" then 0 else 10 * NatVal(digits[..|digits| - 1]) + DigitVal(digits[|digits| - 1])
  }

  /** `n` with the decimal point moved `k` places to the left. */
  function Scaled(n: nat, k: nat): real {
    if k == 0 then n as real else Scaled(n, k - 1) / 10.0
  }

  function SkipSpace(s: string): string {
    if s != "" && IsSpace(s[0]) then SkipSpace(s[1..]) else s
  }

  /** The longest `ddd.ddd` prefix with at least one digit. */
  function Unsigned(s: string): Option<real> {
    var (whole, rest) := SplitDigits(s);
    var frac := if rest != "" && rest[0] == '.' then SplitDigits(rest[1..]).0 else "";
    if whole == "" && frac == "" then None else Some(Scaled(NatVal(whole + frac), |frac|))
  }

  /** `std::stod`: None is the thrown exception.  Trailing text is ignored. */
  function Stod(s: string): Option<real> {
    var t := SkipSpace(s);
    if t != "" && t[0] == '-' then
      match Unsigned(t[1..])
      case None => None
      case Some(x) => Some(-x)
    else if t != "" && t[0] == '+' then Unsigned(t[1..])
    else Unsigned(t)
  }

  /** `atof`: like `stod`, but 0 where that would throw. */
  function Atof(s: string): real {
    match Stod(s)
    case None => 0.0
    case Some(x) => x
  }

  lemma StartsWithDigit(s: string)
    requires s != "" && IsDigit(s[0])
    ensures Stod(s).Some?
  {
  }

  // ----- printing -----

  const MICRO: nat := 1000000

  /** The value of a price counted in millionths. */
  function Micros(n: int): real {
    n as real / 1000000.0
  }

  function DigitOf(d: nat): char
    requires d < 10
  {
    '0' + d as char
  }

  function Digits(n: nat): string {
    if n < 10 then [DigitOf(n)] else Digits(n / 10) + [DigitOf(n % 10)]
  }

  /** The last `k` digits, with leading zeros. */
  function Padded(n: nat, k: nat): string {
    if k == 0 then "" else Padded(n / 10, k - 1) + [DigitOf(n % 10)]
  }

  lemma {:induction false} DigitsReadBack(n: nat)
    ensures Digits(n) != "" && AllDigits(Digits(n)) && NatVal(Digits(n)) == n
  {
    if n < 10 {
      assert Digits(n)[..0] == "";
    } else {
      DigitsReadBack(n / 10);
      assert Digits(n)[..|Digits(n)| - 1] == Digits(n / 10);
    }
  }

  function Pow10(k: nat): nat {
    if k == 0 then 1 else 10 * Pow10(k - 1)
  }

  lemma {:induction false} PaddedReadsBack(n: nat, k: nat)
    requires n < Pow10(k)
    ensures |Padded(n, k)| == k && AllDigits(Padded(n, k)) && NatVal(Padded(n, k)) == n
  {
    if k > 0 {
      PaddedReadsBack(n / 10, k - 1);
      assert Padded(n, k)[..k - 1] == Padded(n / 10, k - 1);
    }
  }

  /** The nearest whole number; halfway, the even one. */
  function HalfEven(x: real): (n: nat)
    requires x >= 0.0
    ensures -0.5 <= n as real - x <= 0.5
    ensures n as real - x == 0.5 || n as real - x == -0.5 ==> n % 2 == 0
  {
    var down: nat := x.Floor;
    var frac := x - down as real;
    if frac < 0.5 || (frac == 0.5 && down % 2 == 0) then down else down + 1
  }

  /** The size of a price in whole millionths. */
  function MicroSize(price: real): nat {
    HalfEven((if price < 0.0 then -price else price) * 1000000.0)
  }

  /** `%.6f` of a price. */
  function Printed(price: real): string {
    var n := MicroSize(price);
    (if price < 0.0 then "-" else "") + (Digits(n / MICRO) + (['.'] + Padded(n % MICRO, 6)))
  }

  /** The price that the printed text stands for. */
  function Rounded(price: real): real {
    if price < 0.0 then -Micros(MicroSize(price)) else Micros(MicroSize(price))
  }

  /** Printing is off by at most half a millionth, and keeps whole millionths. */
  lemma RoundedIsNearest(price: real, micro: int)
    ensures -0.0000005 <= Rounded(price) - price <= 0.0000005
    ensures Rounded(Micros(micro)) == Micros(micro)
  {
    var n := if micro < 0 then -micro else micro;
    var size := (if Micros(micro) < 0.0 then -Micros(micro) else Micros(micro)) * 1000000.0;
    assert size == n as real;
    assert HalfEven(size) == n;
  }

  lemma FracOf(frac: string, rest: string)
    requires AllDigits(frac) && (rest == "" || !IsDigit(rest[0]))
    ensures SplitDigits((['.'] + (frac + rest))[1..]) == (frac, rest)
  {
    assert (['.'] + (frac + rest))[1..] == frac + rest;
    SplitDigitsIs(frac, rest);
  }

  lemma UnsignedOf(s: string, whole: string, tail: string, frac: string, rest: string, x: real)
    requires (whole != "" || frac != "") && SplitDigits(s) == (whole, tail)
    requires tail != "" && tail[0] == '.' && SplitDigits(tail[1..]) == (frac, rest)
    requires x == Scaled(NatVal(whole + frac), |frac|)
    ensures Unsigned(s) == Some(x)
  {
  }

  /** The body of a number with a point, as one string. */
  lemma PointBody(whole: string, frac: string, rest: string, v: real) returns (body: string)
    requires AllDigits(whole) && AllDigits(frac) && whole + frac != "" && (rest == "" || !IsDigit(rest[0]))
    requires v == Scaled(NatVal(whole + frac), |frac|)
    ensures body == whole + (['.'] + (frac + rest)) && Unsigned(body) == Some(v) && NumberStarts(body)
  {
    var tail := ['.'] + (frac + rest);
    body := whole + tail;
    SplitDigitsIs(whole, tail);
    FracOf(frac, rest);
    UnsignedOf(body, whole, tail, frac, rest, v);
    FirstAny(whole, tail);
  }

  predicate NumberStarts(body: string) {
    body != "" && (IsDigit(body[0]) || body[0] == '.')
  }

  lemma FirstAny(a: string, b: string)
    requires b != ""
    ensures a + b != "" && (a + b)[0] == if a == "" then b[0] else a[0]
  {
  }

  lemma RegroupFive<T>(a: seq<T>, b: seq<T>, c: seq<T>, d: seq<T>, e: seq<T>)
    ensures (a + (b + (c + d))) + e == a + (b + (c + (d + e)))
  {
  }

  lemma SixPlaces(n: nat)
    ensures Scaled(n, 6) == Micros(n)
  {
    assert Scaled(n, 1) == n as real / 10.0;
    assert Scaled(n, 3) == n as real / 1000.0;
    assert Scaled(n, 5) == n as real / 100000.0;
  }

  lemma StodSigned(sign: string, body: string, x: real)
    requires sign == "" || sign == "-"
    requires body != "" && IsDigit(body[0]) && Unsigned(body) == Some(x)
    ensures Stod(sign + body) == Some(if sign == "" then x else -x)
  {
    if sign == "" {
      assert sign + body == body;
    } else {
      assert (sign + body)[1..] == body;
    }
  }

  lemma FirstOf(a: string, b: string)
    requires a != ""
    ensures a + b != "" && (a + b)[0] == a[0]
  {
  }

  /** The printed digits and what follows them, kept as one string so that the sign
      can be dealt with on its own. */
  lemma FixedBody(sign: string, n: nat, rest: string) returns (body: string)
    requires rest == "" || !IsDigit(rest[0])
    ensures body != "" && IsDigit(body[0]) && Unsigned(body) == Some(Micros(n))
    ensures (sign + (Digits(n / MICRO) + (['.'] + Padded(n % MICRO, 6)))) + rest == sign + body
  {
    var whole, frac := Digits(n / MICRO), Padded(n % MICRO, 6);
    DigitsOfSize(n);
    SixPlaces(n);
    body := PointBody(whole, frac, rest, Micros(n));
    FirstOf(whole, ['.'] + (frac + rest));
    RegroupFive(sign, whole, ['.'], frac, rest);
  }

  /** The two parts of the printed digits are all the digits of the size. */
  lemma DigitsOfSize(n: nat)
    ensures var whole, frac := Digits(n / MICRO), Padded(n % MICRO, 6);
            whole != "" && AllDigits(whole) && |frac| == 6 && AllDigits(frac) && NatVal(whole + frac) == n
  {
    DigitsReadBack(n / MICRO);
    assert Pow10(6) == MICRO by { assert Pow10(2) == 100; assert Pow10(4) == 10000; }
    PaddedReadsBack(n % MICRO, 6);
    NatValAppend(Digits(n / MICRO), Padded(n % MICRO, 6));
    assert n == n / MICRO * MICRO + n % MICRO;
  }

  /** A price printed with six decimals reads back as the price rounded to millionths,
      whatever non-digit follows it on the line. */
  lemma PrintedReadsBack(price: real, rest: string)
    requires rest == "" || !IsDigit(rest[0])
    ensures Stod(Printed(price) + rest) == Some(Rounded(price))
  {
    var sign := if price < 0.0 then "-" else "";
    var body := FixedBody(sign, MicroSize(price), rest);
    StodSigned(sign, body, Micros(MicroSize(price)));
  }

  /** A fixed-point price printed with six decimals reads back as itself. */
  lemma FixedRoundTrip(micro: int, rest: string)
    requires rest == "" || !IsDigit(rest[0])
    ensures Stod(Printed(Micros(micro)) + rest) == Some(Micros(micro))
  {
    PrintedReadsBack(Micros(micro), rest);
    RoundedIsNearest(0.0, micro);
  }

  // ----- what is read, for any number of digits -----

  predicate Blank(s: string) {
    forall i | 0 <= i < |s| :: s[i] == ' ' || 9 <= s[i] as int <= 13
  }

  predicate Sign(s: string) {
    s == "" || s == "+" || s == "-"
  }

  /** The digits of a value, one by one. */
  lemma {:induction false} NatValDigits(s: string, i: nat)
    requires i < |s| && AllDigits(s)
    ensures Pow10(|s| - 1 - i) > 0
    ensures NatVal(s) / Pow10(|s| - 1 - i) % 10 == s[i] as int - '0' as int
    decreases |s|
  {
    var n := |s| - 1;
    var d := s[n] as int - '0' as int;
    assert 0 <= d <= 9 && NatVal(s) == 10 * NatVal(s[..n]) + d;
    if i < n {
      NatValDigits(s[..n], i);
      DigitAbove(NatVal(s[..n]), d, n - 1 - i);
    } else {
      LastDigit(NatVal(s[..n]), d);
    }
  }

  lemma LastDigit(a: nat, d: nat)
    requires d <= 9
    ensures Pow10(0) == 1 && (10 * a + d) / Pow10(0) % 10 == d
  {
  }

  lemma DigitAbove(a: nat, d: nat, k: nat)
    requires d <= 9 && Pow10(k) > 0
    ensures Pow10(k + 1) > 0 && (10 * a + d) / Pow10(k + 1) == a / Pow10(k)
  {
    CutDigit(a, d, Pow10(k));
  }

  lemma CutDigit(a: nat, d: nat, p: nat)
    requires d <= 9 && p > 0
    ensures (10 * a + d) / (10 * p) == a / p
  {
    var q, m := a / p, a % p;
    assert a == q * p + m;
    var v, w := 10 * a + d, 10 * p;
    assert v == q * w + (10 * m + d) && 0 <= 10 * m + d < w;
    Quotient(v, w, q, 10 * m + d);
  }

  lemma Quotient(v: nat, w: nat, q: nat, m: nat)
    requires w > 0 && v == q * w + m && m < w
    ensures v / w == q
  {
    var k := v / w;
    assert k * w <= v < k * w + w;
    Multiples(k, q, w);
    Multiples(q, k, w);
  }

  lemma Multiples(a: nat, b: nat, w: nat)
    ensures a < b ==> a * w + w <= b * w
  {
    if a < b {
      var d := b - a;
      assert b * w == a * w + d * w;
      assert d * w == w + (d - 1) * w;
    }
  }

  lemma {:induction false} NatValAppend(a: string, b: string)
    ensures NatVal(a + b) == NatVal(a) * Pow10(|b|) + NatVal(b)
  {
    if b == "" {
      assert a + b == a;
    } else {
      var n := |b| - 1;
      assert (a + b)[..|a| + n] == a + b[..n] && (a + b)[|a| + n] == b[n];
      NatValAppend(a, b[..n]);
      Tenfold(NatVal(a), Pow10(n), NatVal(b[..n]), DigitVal(b[n]));
    }
  }

  lemma Tenfold(a: nat, p: nat, b: nat, d: nat)
    ensures 10 * (a * p + b) + d == a * (10 * p) + (10 * b + d)
  {
  }

  lemma {:induction false} ScaledBack(n: nat, k: nat)
    ensures Product(Scaled(n, k), Pow10(k) as real) == n as real
  {
    if k > 0 {
      ScaledBack(n, k - 1);
      var x, p := Scaled(n, k - 1), Pow10(k - 1) as real;
      assert Pow10(k) as real == 10.0 * p;
      TenfoldProduct(x, p);
    }
  }

  /** Multiplication by name, to keep it out of the proofs about texts. */
  function Product(x: real, y: real): real {
    x * y
  }

  lemma TenfoldProduct(x: real, p: real)
    ensures Product(x / 10.0, 10.0 * p) == Product(x, p)
  {
  }

  lemma {:induction false} BlankSkipped(blanks: string, t: string)
    requires Blank(blanks) && (t == "" || !IsSpace(t[0]))
    ensures SkipSpace(blanks + t) == t
  {
    if blanks == "" {
      assert blanks + t == t;
    } else {
      assert (blanks + t)[1..] == blanks[1..] + t;
      BlankSkipped(blanks[1..], t);
    }
  }

  /** What `stod` makes of a number's sign and body. */
  lemma SignRead(blanks: string, sign: string, body: string)
    requires Blank(blanks) && Sign(sign)
    requires sign == "" ==> body == "" || (!IsSpace(body[0]) && body[0] != '-' && body[0] != '+')
    ensures Stod(blanks + (sign + body))
         == if Unsigned(body).None? then None
            else Some(if sign == "-" then -Unsigned(body).value else Unsigned(body).value)
  {
    var t := sign + body;
    BlankSkipped(blanks, t);
    if sign == "" {
      assert t == body;
    } else {
      assert t[1..] == body;
    }
  }

  lemma SignedProduct(x: real, p: real)
    ensures Product(-x, p) == -Product(x, p)
  {
  }

  lemma NumberRead(s: string, blanks: string, sign: string, body: string, v: real)
    requires s == blanks + (sign + body)
    requires Blank(blanks) && Sign(sign) && Unsigned(body) == Some(v) && NumberStarts(body)
    ensures Stod(s) == Some(if sign == "-" then -v else v)
  {
    SignRead(blanks, sign, body);
  }

  /** Blanks, a sign, digits on both sides of a point, and what is no digit any more. */
  predicate IsWithPoint(s: string, blanks: string, sign: string, whole: string, frac: string, rest: string) {
    && s == blanks + (sign + (whole + (['.'] + (frac + rest))))
    && Blank(blanks) && Sign(sign) && AllDigits(whole) && AllDigits(frac) && whole + frac != ""
    && (rest == "" || !IsDigit(rest[0]))
  }

  /** `IsWithPoint`, quantified so that a proof unfolds it only where it speaks of it. */
  ghost predicate WithPoint(s: string, blanks: string, sign: string, whole: string, frac: string, rest: string) {
    forall t | t == s :: IsWithPoint(t, blanks, sign, whole, frac, rest)
  }

  /** A decimal with a point: `x` times the power of ten of its fraction digits is the
      value of all its digits. */
  lemma DecimalRead(s: string, blanks: string, sign: string, whole: string, frac: string, rest: string)
      returns (x: real)
    requires WithPoint(s, blanks, sign, whole, frac, rest)
    ensures Stod(s) == Some(x) && HasDigits(x, sign, whole + frac, |frac|)
  {
    var digits := whole + frac;
    x := if sign == "-" then -Scaled(NatVal(digits), |frac|) else Scaled(NatVal(digits), |frac|);
    PointRead(s, blanks, sign, whole, frac, rest, Scaled(NatVal(digits), |frac|));
    SignedValue(x, sign, digits, |frac|);
  }

  /** The signed value of the digits, the last `places` of them behind the point.
      (Quantified so that a proof unfolds the arithmetic only where it speaks of it.) */
  ghost predicate HasDigits(x: real, sign: string, digits: string, places: nat) {
    forall d | d == digits ::
      Product(x, Pow10(places) as real) == if sign == "-" then -(NatVal(d) as real) else NatVal(d) as real
  }

  lemma SignedValue(x: real, sign: string, digits: string, places: nat)
    requires x == if sign == "-" then -Scaled(NatVal(digits), places) else Scaled(NatVal(digits), places)
    ensures HasDigits(x, sign, digits, places)
  {
    var n := NatVal(digits);
    ScaledBack(n, places);
    SignedProduct(Scaled(n, places), Pow10(places) as real);
  }

  lemma PointRead(s: string, blanks: string, sign: string, whole: string, frac: string, rest: string, v: real)
    requires WithPoint(s, blanks, sign, whole, frac, rest) && v == Scaled(NatVal(whole + frac), |frac|)
    ensures Stod(s) == Some(if sign == "-" then -v else v)
  {
    assert IsWithPoint(s, blanks, sign, whole, frac, rest);
    var body := PointBody(whole, frac, rest, v);
    NumberRead(s, blanks, sign, body, v);
  }

  /** A whole number. */
  lemma WholeRead(s: string, blanks: string, sign: string, whole: string, rest: string)
    requires s == blanks + (sign + (whole + rest))
    requires Blank(blanks) && Sign(sign) && AllDigits(whole) && whole != ""
    requires rest == "" || (!IsDigit(rest[0]) && rest[0] != '.')
    ensures Stod(s) == Some(if sign == "-" then -(NatVal(whole) as real) else NatVal(whole) as real)
  {
    var v := NatVal(whole) as real;
    var body := WholeBody(whole, rest, v);
    NumberRead(s, blanks, sign, body, v);
  }

  lemma WholeBody(whole: string, rest: string, v: real) returns (body: string)
    requires AllDigits(whole) && whole != "" && (rest == "" || (!IsDigit(rest[0]) && rest[0] != '.'))
    requires v == NatVal(whole) as real
    ensures body == whole + rest && Unsigned(body) == Some(v) && NumberStarts(body)
  {
    body := whole + rest;
    SplitDigitsIs(whole, rest);
    assert whole + "" == whole;
    assert body[0] == whole[0];
  }

  /** No number: neither a digit nor a point and a digit where it should begin. */
  lemma NothingRead(s: string, blanks: string, sign: string, body: string)
    requires s == blanks + (sign + body)
    requires Blank(blanks) && Sign(sign)
    requires body == "" || (!IsDigit(body[0]) && (body[0] == '.' && |body| > 1 ==> !IsDigit(body[1])))
    requires sign == "" ==> body == "" || (!IsSpace(body[0]) && body[0] != '-' && body[0] != '+')
    ensures Stod(s) == None
  {
    SignRead(blanks, sign, body);
    assert SplitDigits(body) == ("", body);
    if body != "" && body[0] == '.' {
      assert SplitDigits(body[1..]).0 == "";
    }
  }

  /** `atof` reads what `stod` reads, and 0 where there is no number. */
  lemma AtofMeans(s: string, x: real)
    ensures Stod(s) == Some(x) ==> Atof(s) == x
    ensures Stod(s) == None ==> Atof(s) == 0.0
  {
  }

  /** `%.6f`: a point and exactly six digits, the last six of the rounded size. */
  lemma PrintedShape(price: real)
    ensures var s := Printed(price);
            && |s| > 7 && s[|s| - 7] == '.' && AllDigits(s[|s| - 6..])
            && AllDigits(if s[0] == '-' then s[1..|s| - 7] else s[..|s| - 7])
            && (s[0] == '-' <==> price < 0.0)
  {
    var n := MicroSize(price);
    var sign := if price < 0.0 then "-" else "";
    var whole, frac := Digits(n / MICRO), Padded(n % MICRO, 6);
    DigitsOfSize(n);
    PrintedParts(sign, whole, frac);
  }

  lemma PrintedParts(sign: string, whole: string, frac: string)
    requires (sign == "" || sign == "-") && whole != "" && AllDigits(whole) && |frac| == 6 && AllDigits(frac)
    ensures var s := sign + (whole + (['.'] + frac));
            && |s| > 7 && s[|s| - 7] == '.' && s[|s| - 6..] == frac
            && (if s[0] == '-' then s[1..|s| - 7] else s[..|s| - 7]) == whole
            && (s[0] == '-' <==> sign == "-")
  {
    var s := sign + (whole + (['.'] + frac));
    assert sign == "" ==> s[0] == whole[0];
  }
}

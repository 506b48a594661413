/** The fixed-point decimal codec of src/orderbook.rs: `parse_decimal_to_int`
    turns exchange decimal text such as "0.33" into a scaled unsigned integer.
    The unsigned integer parser it relies on (Rust's `u64::from_str`) and the
    decimal rendering used for query parameters (`u64::to_string`) are modelled
    here too, so that each has the other as its inverse. */
module Decimal {
  import opened Wrappers

  const U64_MAX: nat := 0xFFFF_FFFF_FFFF_FFFF

  predicate IsDigit(c: char) {
    '0' <= c <= '9'
  }

  predicate AllDigits(s: string) {
    forall i :: 0 <= i < |s| ==> IsDigit(s[i])
  }

  function DigitValue(c: char): nat
    requires IsDigit(c)
  {
    c as int - '0' as int
  }

  function DigitChar(d: nat): char
    requires d < 10
  {
    ('0' as int + d) as char
  }

  /** The number a string of ASCII digits denotes, most significant digit first. */
  function DigitsValue(s: string): nat
    requires AllDigits(s)
  {
    if s == [] then 0 else DigitsValue(s[..|s| - 1]) * 10 + DigitValue(s[|s| - 1])
  }

  function Pow10(n: nat): (r: nat)
    ensures r >= 1
  {
    if n == 0 then 1 else 10 * Pow10(n - 1)
  }

  lemma {:induction false} Pow10Add(a: nat, b: nat)
    ensures Pow10(a) * Pow10(b) == Pow10(a + b)
  {
    if a > 0 {
      Pow10Add(a - 1, b);
      MulAssociates(10, Pow10(a - 1), Pow10(b));
    }
  }

  /** The quotient of naturals is a natural. `ScaleFraction` calls it so
      that its `nat` result is checked without nonlinear search. */
  lemma DivisionOfNaturals(a: nat, b: nat)
    requires b > 0
    ensures a / b >= 0
  {
  }

  // ---------------------------------------------------------------------
  // u64::from_str
  // ---------------------------------------------------------------------

  /** The text `u64::from_str` reads digits from: everything after one
      optional leading '+'. */
  function UnsignedDigits(s: string): string {
    if |s| > 0 && s[0] == '+' then s[1..] else s
  }

  /** Text that `u64::from_str` accepts: one optional '+', then at least one
      ASCII digit, denoting a value no larger than u64::MAX. */
  predicate IsU64Text(s: string) {
    var d := UnsignedDigits(s);
    |d| > 0 && AllDigits(d) && DigitsValue(d) <= U64_MAX
  }

  /** Rust's `str::parse::<u64>`: None where Rust returns a ParseIntError
      (empty text, a lone sign, any other character, or overflow). */
  function ParseU64(s: string): (r: Option<nat>)
    ensures r.Some? <==> IsU64Text(s)
    ensures r.Some? ==> r.value <= U64_MAX
    ensures r.Some? ==> s != [] && forall i :: 0 <= i < |s| ==> IsDigit(s[i]) || (i == 0 && s[i] == '+')
    ensures s != [] && AllDigits(s) && DigitsValue(s) <= U64_MAX ==> r == Some(DigitsValue(s))
  {
    var d := UnsignedDigits(s);
    if |d| > 0 && AllDigits(d) && DigitsValue(d) <= U64_MAX then Some(DigitsValue(d)) else None
  }

  // ---------------------------------------------------------------------
  // u64::to_string
  // ---------------------------------------------------------------------

  /** Rust's `u64::to_string`: the shortest decimal rendering of `n`. */
  function DecimalString(n: nat): (s: string)
    ensures s != [] && AllDigits(s)
    ensures |s| > 1 ==> s[0] != '0'
  {
    if n < 10 then [DigitChar(n)] else DecimalString(n / 10) + [DigitChar(n % 10)]
  }

  lemma {:induction false} DecimalStringValue(n: nat)
    ensures DigitsValue(DecimalString(n)) == n
  {
    if n >= 10 {
      var s := DecimalString(n);
      DecimalStringValue(n / 10);
      assert s[..|s| - 1] == DecimalString(n / 10);
    }
  }

  /** Rendering a u64 and parsing it back gives the same number. */
  lemma ParseRendered(n: nat)
    requires n <= U64_MAX
    ensures ParseU64(DecimalString(n)) == Some(n)
  {
    DecimalStringValue(n);
  }

  /** Parsing then rendering gives back canonical text: text without a sign
      and without leading zeros. */
  lemma {:induction false} RenderParsed(s: string)
    requires s != [] && AllDigits(s) && (|s| > 1 ==> s[0] != '0')
    ensures DecimalString(DigitsValue(s)) == s
  {
    if |s| > 1 {
      var init := s[..|s| - 1];
      RenderParsed(init);
      DigitsValuePositive(init);
      var n := DigitsValue(s);
      assert n / 10 == DigitsValue(init);
      assert n % 10 == DigitValue(s[|s| - 1]);
    }
  }

  lemma {:induction false} DigitsValuePositive(s: string)
    requires s != [] && AllDigits(s) && s[0] != '0'
    ensures DigitsValue(s) >= 1
  {
    if |s| > 1 {
      DigitsValuePositive(s[..|s| - 1]);
    }
  }

  // ---------------------------------------------------------------------
  // parse_decimal_to_int
  // ---------------------------------------------------------------------

  /** The three error strings of `parse_decimal_to_int`. */
  datatype DecimalError = InvalidIntegerPart | InvalidFractionalPart | InvalidInteger

  /** `str::find(c)`: the index of the first occurrence of `c`. */
  function FindFirst(s: string, c: char): (r: Option<nat>)
    ensures r.None? <==> c !in s
    ensures r.Some? ==> r.value < |s| && s[r.value] == c && c !in s[..r.value]
  {
    if s == [] then None
    else if s[0] == c then Some(0)
    else match FindFirst(s[1..], c)
      case None => None
      case Some(k) =>
        assert s[1..][..k] == s[1..k + 1];
        assert s[..k + 1] == [s[0]] + s[1..k + 1];
        Some(k + 1)
  }

  /** Brings a fraction written with `fracLen` characters to exactly
      `decimals` digits: pads with zeros or drops the extra trailing digits. */
  function ScaleFraction(frac: nat, fracLen: nat, decimals: nat): nat {
    if fracLen < decimals then
      frac * Pow10(decimals - fracLen)
    else if fracLen > decimals then
      var drop := Pow10(fracLen - decimals);
      DivisionOfNaturals(frac, drop);
      frac / drop
    else frac
  }

  /** `s` is an integer part, a '.', and a fractional part, both accepted by
      `u64::from_str`; the integer part holds no '.'. */
  predicate IsPointedDecimal(s: string, p: nat) {
    p < |s| && s[p] == '.' && '.' !in s[..p] && IsU64Text(s[..p]) && IsU64Text(s[p + 1..])
  }

  /** The branch of `parse_decimal_to_int` for text whose first '.' is at `dot`. */
  function ParsePointed(s: string, dot: nat, decimals: nat): Result<nat, DecimalError>
    requires dot < |s|
  {
    match ParseU64(s[..dot])
    case None => Failure(InvalidIntegerPart)
    case Some(intPart) =>
      var fracStr := s[dot + 1..];
      match ParseU64(fracStr)
      case None => Failure(InvalidFractionalPart)
      case Some(fracPart) => Success(intPart * Pow10(decimals) + ScaleFraction(fracPart, |fracStr|, decimals))
  }

  /** `parse_decimal_to_int(s, decimals)`. The source computes
      `10u64.pow(decimals)` first, which overflows beyond 19. */
  function ParseDecimal(s: string, decimals: nat): Result<nat, DecimalError>
    requires decimals <= 19
  {
    match FindFirst(s, '.')
    case Some(dot) => ParsePointed(s, dot, decimals)
    case None =>
      match ParseU64(s)
      case None => Failure(InvalidInteger)
      case Some(intPart) => Success(intPart * Pow10(decimals))
  }

  /** A '.' with none before it is the one `str::find` reports. */
  lemma FirstDot(s: string, p: nat)
    requires p < |s| && s[p] == '.' && '.' !in s[..p]
    ensures FindFirst(s, '.') == Some(p)
  {
  }

  /** Parsing succeeds exactly on a whole number, or on two numbers joined
      by the first '.', each accepted by `u64::from_str`. */
  lemma ParseSucceedsIff(s: string, decimals: nat)
    requires decimals <= 19
    ensures ParseDecimal(s, decimals).Success? <==>
            ('.' !in s && IsU64Text(s)) || exists p: nat :: IsPointedDecimal(s, p)
  {
    match FindFirst(s, '.')
    case None =>
    case Some(dot) =>
      if exists p: nat :: IsPointedDecimal(s, p) {
        var p: nat :| IsPointedDecimal(s, p);
        FirstDot(s, p);
      }
      if ParseDecimal(s, decimals).Success? {
        assert IsPointedDecimal(s, dot);
      }
  }

  /** Which error is reported: a whole number that `u64::from_str` rejects
      gives InvalidInteger; otherwise the text before the first '.' is
      checked first (InvalidIntegerPart), then the text after it
      (InvalidFractionalPart). */
  lemma ParseErrors(s: string, decimals: nat)
    requires decimals <= 19
    ensures ParseDecimal(s, decimals) == Failure(InvalidInteger) <==> '.' !in s && !IsU64Text(s)
    ensures ParseDecimal(s, decimals) == Failure(InvalidIntegerPart) <==>
            exists p: nat :: p < |s| && s[p] == '.' && '.' !in s[..p] && !IsU64Text(s[..p])
    ensures ParseDecimal(s, decimals) == Failure(InvalidFractionalPart) <==>
            exists p: nat :: p < |s| && s[p] == '.' && '.' !in s[..p] && IsU64Text(s[..p]) && !IsU64Text(s[p + 1..])
  {
    match FindFirst(s, '.')
    case None =>
    case Some(dot) =>
      forall p: nat | p < |s| && s[p] == '.' && '.' !in s[..p] ensures p == dot {
        FirstDot(s, p);
      }
  }

  /** Text without a '.' is a whole number scaled by 10^decimals. */
  lemma ParseWhole(s: string, decimals: nat)
    requires decimals <= 19 && '.' !in s && IsU64Text(s)
    ensures ParseDecimal(s, decimals) == Success(ParseU64(s).value * Pow10(decimals))
  {
  }

  /** The result is the exact decimal value `I.F` (with `L` fraction
      characters) scaled by 10^decimals and truncated toward zero:
      r * 10^L <= (I * 10^L + F) * 10^decimals < r * 10^L + 10^L. `L` is the
      length of the fraction text, so leading zeros count. */
  lemma ParseTruncates(s: string, decimals: nat, p: nat)
    requires decimals <= 19 && IsPointedDecimal(s, p)
    ensures ParseDecimal(s, decimals).Success?
    ensures var r, i, f, len := ParseDecimal(s, decimals).value, ParseU64(s[..p]).value, ParseU64(s[p + 1..]).value, |s| - p - 1;
            r * Pow10(len) <= ScaledExact(i, f, len, decimals) < r * Pow10(len) + Pow10(len)
  {
    var i, f, len := ParseU64(s[..p]).value, ParseU64(s[p + 1..]).value, |s| - p - 1;
    FirstDot(s, p);
    assert ParseDecimal(s, decimals) == ParsePointed(s, p, decimals);
    assert |s[p + 1..]| == len;
    TruncationBounds(i, f, len, decimals, ParseDecimal(s, decimals).value);
  }

  /** The exact value of `I.F` scaled by 10^decimals, times 10^L. */
  function ScaledExact(i: nat, f: nat, len: nat, decimals: nat): nat {
    (i * Pow10(len) + f) * Pow10(decimals)
  }

  lemma TruncationBounds(i: nat, f: nat, len: nat, decimals: nat, r: nat)
    requires r == i * Pow10(decimals) + ScaleFraction(f, len, decimals)
    ensures r * Pow10(len) <= ScaledExact(i, f, len, decimals) < r * Pow10(len) + Pow10(len)
  {
    if len <= decimals {
      PaddedFraction(i, f, len, decimals, r);
    } else {
      var q, m := DivideFraction(f, Pow10(len - decimals));
      DroppedFraction(i, f, q, m, len, decimals, r);
    }
  }

  /** A fraction no longer than `decimals` is padded: the result is exact. */
  lemma PaddedFraction(i: nat, f: nat, len: nat, decimals: nat, r: nat)
    requires len <= decimals && r == i * Pow10(decimals) + ScaleFraction(f, len, decimals)
    ensures r * Pow10(len) == ScaledExact(i, f, len, decimals)
  {
    var P, D, A := Pow10(len), Pow10(decimals), Pow10(decimals - len);
    Pow10Add(decimals - len, len);
    PaddedIsExact(i, f, r, P, D, A, ScaledExact(i, f, len, decimals));
  }

  /** A longer fraction `f = q * 10^(len - decimals) + m` keeps only `q`. */
  lemma DroppedFraction(i: nat, f: nat, q: nat, m: nat, len: nat, decimals: nat, r: nat)
    requires len > decimals && f == q * Pow10(len - decimals) + m && m < Pow10(len - decimals)
    requires r == i * Pow10(decimals) + q
    ensures r * Pow10(len) <= ScaledExact(i, f, len, decimals) < r * Pow10(len) + Pow10(len)
  {
    var P, D, K := Pow10(len), Pow10(decimals), Pow10(len - decimals);
    Pow10Add(len - decimals, decimals);
    DroppedDigitsTruncate(i, f, q, m, r, P, D, K, ScaledExact(i, f, len, decimals));
  }

  lemma DivideFraction(f: nat, K: nat) returns (q: nat, m: nat)
    requires K >= 1
    ensures q == f / K && f == q * K + m && m < K
  {
    q, m := f / K, f % K;
  }

  lemma MulMonotone(a: nat, b: nat, c: nat)
    requires a <= b
    ensures a * c <= b * c
  {
  }

  lemma MulDistributes(a: int, b: int, c: int)
    ensures (a + b) * c == a * c + b * c
  {
  }

  lemma MulAssociates(a: int, b: int, c: int)
    ensures a * b * c == a * (b * c)
  {
  }

  lemma MulCommutes(a: int, b: int)
    ensures a * b == b * a
  {
  }

  /** With A * P == D (a fraction shorter than `decimals`): padding is exact. */
  lemma PaddedIsExact(i: nat, f: nat, r: nat, P: nat, D: nat, A: nat, X: nat)
    requires A * P == D && r == i * D + f * A && X == (i * P + f) * D
    ensures r * P == X
  {
    MulDistributes(i * D, f * A, P);
    MulAssociates(i, D, P);
    MulAssociates(f, A, P);
    MulDistributes(i * P, f, D);
    MulAssociates(i, P, D);
    MulCommutes(D, P);
  }

  /** With K * D == P (a fraction longer than `decimals`): dropping the last
      digits of `f = q * K + m` (keeping `q`) truncates. */
  lemma DroppedDigitsTruncate(i: nat, f: nat, q: nat, m: nat, r: nat, P: nat, D: nat, K: nat, X: nat)
    requires D >= 1 && K * D == P && f == q * K + m && m < K && r == i * D + q && X == (i * P + f) * D
    ensures r * P <= X < r * P + P
  {
    // f * D == q * P + m * D
    MulDistributes(q * K, m, D);
    MulAssociates(q, K, D);
    // (i * P + f) * D == i * D * P + f * D
    MulDistributes(i * P, f, D);
    MulAssociates(i, P, D);
    MulAssociates(i, D, P);
    MulCommutes(D, P);
    // r * P == i * D * P + q * P
    MulDistributes(i * D, q, P);
    // m * D < P
    MulMonotone(m + 1, K, D);
    MulDistributes(m, 1, D);
  }

  /** The two values named in the source's doc comment. */
  lemma PriceExample()
    ensures ParseDecimal("0.33", 2) == Success(33)
  {
    FirstDot("0.33", 1);
    assert "0.33"[..1] == "0" && "0.33"[2..] == "33" && "33"[..1] == "3";
    assert ParseU64("0") == Some(0);
    assert DigitsValue("33") == 33;
    assert Pow10(2) == 100;
  }

  lemma SizeExample()
    ensures ParseDecimal("4142.5", 1) == Success(41425)
  {
    FirstDot("4142.5", 4);
    assert ParseDecimal("4142.5", 1) == ParsePointed("4142.5", 4, 1);
    assert "4142.5"[..4] == "4142";
    Digits4142();
    assert "4142.5"[5..] == "5";
    assert ParseU64("5") == Some(5);
    assert ScaleFraction(5, 1, 1) == 5;
    assert Pow10(1) == 10;
  }

  lemma Digits4142()
    ensures ParseU64("4142") == Some(4142)
  {
    assert "41"[..1] == "4";
    assert DigitsValue("41") == 41;
    assert "414"[..2] == "41";
    assert DigitsValue("414") == 414;
    assert "4142"[..3] == "414";
    assert DigitsValue("4142") == 4142;
  }

  /** A whole number is scaled by 10^decimals. */
  lemma WholeExample()
    ensures ParseDecimal("5", 2) == Success(500)
  {
    assert ParseU64("5") == Some(5);
    assert Pow10(2) == 100;
  }

  /** A short fraction is padded by its text length, so "0.05" is 5 and not 50. */
  lemma PaddingExample()
    ensures ParseDecimal("0.05", 2) == Success(5)
  {
    FirstDot("0.05", 1);
    assert "0.05"[..1] == "0" && "0.05"[2..] == "05" && "05"[..1] == "0";
    assert ParseU64("0") == Some(0);
    assert DigitsValue("05") == 5;
    assert Pow10(2) == 100;
  }

  /** A long fraction is truncated, not rounded: "1.2345" is 123. */
  lemma TruncationExample()
    ensures ParseDecimal("1.2345", 2) == Success(123)
  {
    FirstDot("1.2345", 1);
    assert "1.2345"[..1] == "1" && "1.2345"[2..] == "2345";
    assert "23"[..1] == "2";
    assert DigitsValue("23") == 23;
    assert "234"[..2] == "23";
    assert DigitsValue("234") == 234;
    assert "2345"[..3] == "234";
    assert DigitsValue("2345") == 2345;
    assert ParseU64("2345") == Some(2345);
    assert ParseU64("1") == Some(1);
    assert Pow10(2) == 100;
  }

  /** A missing part on either side of the '.', a second '.', or a letter is an error. */
  lemma ErrorExamples()
    ensures ParseDecimal(".5", 2) == Failure(InvalidIntegerPart)
    ensures ParseDecimal("5.", 2) == Failure(InvalidFractionalPart)
    ensures ParseDecimal("1.2.3", 2) == Failure(InvalidFractionalPart)
    ensures ParseDecimal("abc", 2) == Failure(InvalidInteger)
  {
    assert FindFirst(".5", '.') == Some(0);
    assert FindFirst("5.", '.') == Some(1);
    assert FindFirst("1.2.3", '.') == Some(1);
    assert "1.2.3"[2..] == "2.3";
    assert !IsDigit("2.3"[1]);
  }
}

/** The two printers of scaled decimal values, against a reader of decimal text. */
module Decimals {
  import opened Options
  import Words

  /** n times ten to the k. */
  function Scaled(n: int, k: nat): (r: int)
    ensures n >= 0 ==> r >= n
  {
    if k == 0 then n else 10 * Scaled(n, k - 1)
  }

  function Pow10(k: nat): (p: nat)
    ensures p >= 1
  {
    Scaled(1, k)
  }

  /** The zeros a scale adds after the integer. */
  function Zeroes(scale: int): nat {
    if scale < 0 then -scale else 0
  }

  /** The digits a scale puts after the point. */
  function Places(scale: int): nat {
    if scale > 0 then scale else 0
  }

  // ----- reading -----

  predicate AllDigits(s: string) {
    forall i :: 0 <= i < |s| ==> '0' <= s[i] <= '9'
  }

  function DigitOf(c: char): (d: nat)
    requires '0' <= c <= '9'
    ensures d < 10
  {
    c as int - '0' as int
  }

  /** The number the first `k` digits spell. */
  function NumberUpTo(s: string, k: nat): nat
    requires AllDigits(s) && k <= |s|
  {
    if k == 0 then 0 else 10 * NumberUpTo(s, k - 1) + DigitOf(s[k - 1])
  }

  function NumberOf(s: string): nat
    requires AllDigits(s)
  {
    NumberUpTo(s, |s|)
  }

  /** The number `mantissa` divided by ten to the `places`. */
  datatype Decimal = Decimal(mantissa: int, places: nat) {
    /** The number is raw times ten to the minus scale. */
    predicate Is(raw: int, scale: int) {
      Scaled(mantissa, Places(scale)) == Scaled(raw, Zeroes(scale) + places)
    }
  }

  function Signed(negative: bool, n: int): int {
    if negative then -n else n
  }

  /** How far a text has been read: nothing, a minus, digits, a point, or digits after the point. */
  datatype Scan =
    | Bad
    | Start
    | Minus
    | Whole(negative: bool, n: nat)
    | Point(negative: bool, n: nat)
    | Fraction(negative: bool, n: nat, places: nat)
  {
    function Next(c: char): Scan {
      if '0' <= c <= '9' then
        match this
        case Bad => Bad
        case Start => Whole(false, DigitOf(c))
        case Minus => Whole(true, DigitOf(c))
        case Whole(negative, n) => Whole(negative, 10 * n + DigitOf(c))
        case Point(negative, n) => Fraction(negative, 10 * n + DigitOf(c), 1)
        case Fraction(negative, n, places) => Fraction(negative, 10 * n + DigitOf(c), places + 1)
      else if c == '.' && Whole? then Point(negative, n)
      else if c == '-' && Start? then Minus
      else Bad
    }

    /** After the first `k` characters. */
    function After(s: string, k: nat): Scan
      requires k <= |s|
    {
      if k == 0 then this else After(s, k - 1).Next(s[k - 1])
    }

    function Result(): Option<Decimal> {
      match this
      case Whole(negative, n) => Some(Decimal(Signed(negative, n), 0))
      case Fraction(negative, n, places) => Some(Decimal(Signed(negative, n), places))
      case _ => None
    }

    lemma {:induction false} AfterPrefix(a: string, b: string, k: nat)
      requires k <= |a|
      ensures After(a + b, k) == After(a, k)
    {
      if k > 0 { AfterPrefix(a, b, k - 1); }
    }

    lemma {:induction false} AfterJoins(a: string, b: string, k: nat)
      requires k <= |b|
      ensures After(a + b, |a| + k) == After(a, |a|).After(b, k)
    {
      if k == 0 {
        AfterPrefix(a, b, |a|);
      } else {
        AfterJoins(a, b, k - 1);
        assert (a + b)[|a| + k - 1] == b[k - 1];
      }
    }

    lemma {:induction false} WholeDigits(s: string, k: nat)
      requires (Start? || Minus?) && AllDigits(s) && 0 < k <= |s|
      ensures After(s, k) == Whole(Minus?, NumberUpTo(s, k))
    {
      if k > 1 {
        WholeDigits(s, k - 1);
      } else {
        assert After(s, 0) == this && NumberUpTo(s, 0) == 0;
      }
    }

    lemma {:induction false} FractionDigits(s: string, k: nat)
      requires Point? && AllDigits(s) && 0 < k <= |s|
      ensures After(s, k) == Fraction(negative, Scaled(n, k) + NumberUpTo(s, k), k)
    {
      if k > 1 {
        FractionDigits(s, k - 1);
      } else {
        assert After(s, 0) == this && NumberUpTo(s, 0) == 0 && Scaled(n, 0) == n;
      }
    }
  }

  function ReadUpTo(text: string): Scan {
    Start.After(text, |text|)
  }

  /** Reads an optional minus, digits, and optionally a point with more digits. */
  function Read(text: string): Option<Decimal> {
    ReadUpTo(text).Result()
  }

  function Sign(negative: bool): string {
    if negative then "-" else ""
  }

  /** The text reads as exactly raw times ten to the minus scale. */
  predicate Denotes(text: string, raw: int, scale: int) {
    Read(text).Some? && Read(text).value.Is(raw, scale)
  }

  // ----- printing -----

  function Abs(a: int): nat {
    if a < 0 then -a else a
  }

  function DigitChar(d: nat): (c: char)
    requires d < 10
    ensures '0' <= c <= '9' && DigitOf(c) == d
  {
    ('0' as int + d) as char
  }

  /** Decimal digits without leading zeros. */
  function Digits(n: nat): (s: string)
    ensures AllDigits(s) && s != "" && (s[0] == '0' ==> n == 0)
  {
    if n < 10 then [DigitChar(n)] else Digits(n / 10) + [DigitChar(n % 10)]
  }

  lemma {:induction false} DigitsRead(n: nat)
    ensures NumberOf(Digits(n)) == n
  {
    if n < 10 {
      assert NumberUpTo(Digits(n), 0) == 0;
    } else {
      DigitsRead(n / 10);
      NumberPrefix(Digits(n / 10), [DigitChar(n % 10)], |Digits(n / 10)|);
    }
  }

  /** How a signed integer prints. */
  function IntText(raw: int): string {
    Sign(raw < 0) + Digits(Abs(raw))
  }

  function Zeros(n: nat): (s: string)
    ensures |s| == n && forall i :: 0 <= i < n ==> s[i] == '0'
  {
    seq(n, i => '0')
  }

  lemma {:induction false} ZerosRead(n: nat, k: nat)
    requires k <= n
    ensures NumberUpTo(Zeros(n), k) == 0
  {
    if k > 0 { ZerosRead(n, k - 1); }
  }

  /** Left-padded with zeros to the width, unchanged when already as wide. */
  function PadLeft(s: string, width: nat): (r: string)
    ensures |r| == if |s| < width then width else |s|
  {
    if |s| < width then Zeros(width - |s|) + s else s
  }

  /** Digits with a point before the last `scale` of them, and zeros put in front when there are too few. */
  function PutPoint(digits: string, scale: nat): string {
    var padded := Padded(digits, scale);
    var split := |padded| - scale;
    padded[..split] + "." + padded[split..]
  }

  /** At least one digit more than the scale. */
  function Padded(digits: string, scale: nat): (r: string)
    ensures |r| > scale
  {
    if |digits| <= scale then PadLeft(digits, scale + 1) else digits
  }

  /** `format_decimal_scalar`: the digits of the raw integer with a point put in, or zeros put after. */
  function FormatDecimal(raw: int, scale: int): string
    requires -128 < scale <= 127
  {
    var text := IntText(raw);
    if scale == 0 then text
    else if scale < 0 then text + Zeros(-scale)
    else if text[0] == '-' then "-" + PutPoint(text[1..], scale)
    else PutPoint(text, scale)
  }

  const I128_MIN: int := -0x8000_0000_0000_0000_0000_0000_0000_0000
  const I128_MAX: int := 0x7fff_ffff_ffff_ffff_ffff_ffff_ffff_ffff

  predicate FitsI128(x: int) {
    I128_MIN <= x <= I128_MAX
  }

  /** Division that rounds towards zero. */
  function TruncDiv(a: int, b: nat): int
    requires b > 0
  {
    if a < 0 then -(-a / b) else a / b
  }

  function TruncRem(a: int, b: nat): int
    requires b > 0
  {
    if a < 0 then -(-a % b) else a % b
  }

  /** The text `decimal_to_python` builds by dividing; `None` where 128-bit arithmetic overflows. */
  function DividedDecimal(unscaled: int, scale: int): Option<string>
    requires -128 < scale <= 127
  {
    if scale <= 0 then
      var multiplier := Pow10(-scale);
      if FitsI128(multiplier) && FitsI128(unscaled * multiplier) then Some(IntText(unscaled * multiplier)) else None
    else
      var divisor := Pow10(scale);
      if !FitsI128(divisor) then None
      else
        var whole := TruncDiv(unscaled, divisor);
        var frac := Abs(TruncRem(unscaled, divisor));
        Some(IntText(whole) + "." + PadLeft(Digits(frac), scale))
  }

  // ----- digits -----

  lemma {:induction false} NumberPrefix(a: string, b: string, k: nat)
    requires AllDigits(a) && AllDigits(b) && k <= |a|
    ensures NumberUpTo(a + b, k) == NumberUpTo(a, k)
  {
    if k > 0 { NumberPrefix(a, b, k - 1); }
  }

  lemma {:induction false} NumberJoinsUpTo(a: string, b: string, k: nat)
    requires AllDigits(a) && AllDigits(b) && k <= |b|
    ensures NumberUpTo(a + b, |a| + k) == Scaled(NumberOf(a), k) + NumberUpTo(b, k)
  {
    if k == 0 {
      NumberPrefix(a, b, |a|);
    } else {
      NumberJoinsUpTo(a, b, k - 1);
      assert (a + b)[|a| + k - 1] == b[k - 1];
    }
  }

  /** Reading digits in two parts. */
  lemma NumberJoins(a: string, b: string)
    requires AllDigits(a) && AllDigits(b)
    ensures AllDigits(a + b) && NumberOf(a + b) == Scaled(NumberOf(a), |b|) + NumberOf(b)
  {
    NumberJoinsUpTo(a, b, |b|);
  }

  /** Leading zeros leave the number as it was. */
  lemma PadKeeps(s: string, width: nat)
    requires AllDigits(s)
    ensures AllDigits(PadLeft(s, width)) && NumberOf(PadLeft(s, width)) == NumberOf(s)
  {
    if |s| < width {
      NumberJoins(Zeros(width - |s|), s);
      ZerosRead(width - |s|, width - |s|);
      ScaledIsProduct(0, |s|);
    }
  }

  lemma {:induction false} DigitsWidth(n: nat, width: nat)
    requires width > 0 && n < Pow10(width)
    ensures |Digits(n)| <= width
  {
    if n >= 10 {
      assert width > 1;
      DigitsWidth(n / 10, width - 1);
    }
  }

  lemma AfterSign(negative: bool)
    ensures Start.After(Sign(negative), |Sign(negative)|) == if negative then Minus else Start
  {
    if negative { assert Start.After("-", 0) == Start; }
  }

  /** Reading a sign and digits. */
  lemma ReadWhole(negative: bool, digits: string)
    requires AllDigits(digits) && digits != ""
    ensures ReadUpTo(Sign(negative) + digits) == Whole(negative, NumberOf(digits))
  {
    AfterSign(negative);
    Start.AfterJoins(Sign(negative), digits, |digits|);
    Start.After(Sign(negative), |Sign(negative)|).WholeDigits(digits, |digits|);
  }

  /** Reading a sign, digits and a point. */
  lemma ReadPoint(negative: bool, whole: string)
    requires AllDigits(whole) && whole != ""
    ensures ReadUpTo(Sign(negative) + whole + ".") == Point(negative, NumberOf(whole))
  {
    ReadWhole(negative, whole);
    Start.AfterPrefix(Sign(negative) + whole, ".", |Sign(negative) + whole|);
  }

  /** Reading on from a point. */
  lemma ReadFraction(pointed: string, frac: string, negative: bool, n: nat)
    requires ReadUpTo(pointed) == Point(negative, n) && AllDigits(frac) && frac != ""
    ensures Read(pointed + frac) == Some(Decimal(Signed(negative, Scaled(n, |frac|) + NumberOf(frac)), |frac|))
  {
    Start.AfterJoins(pointed, frac, |frac|);
    Point(negative, n).FractionDigits(frac, |frac|);
  }

  // ----- the printer -----

  lemma IntTextShape(raw: int)
    ensures IntText(raw)[0] == '-' <==> raw < 0
    ensures (if raw < 0 then IntText(raw)[1..] else IntText(raw)) == Digits(Abs(raw))
  {
  }

  /** No leading zero but in the number zero. */
  predicate Canonical(digits: string) {
    AllDigits(digits) && digits != "" && (digits[0] == '0' ==> |digits| == 1)
  }

  lemma DigitsCanonical(n: nat)
    ensures Canonical(Digits(n))
  {}

  /** A point put into digits adds none and loses none, and leaves no superfluous zero before it. */
  lemma PutPointSplits(digits: string, scale: nat) returns (whole: string, frac: string)
    requires Canonical(digits) && scale > 0
    ensures Canonical(whole) && AllDigits(frac) && |frac| == scale
    ensures PutPoint(digits, scale) == whole + "." + frac
    ensures Scaled(NumberOf(whole), scale) + NumberOf(frac) == NumberOf(digits)
  {
    PaddedKeeps(digits, scale);
    var padded := Padded(digits, scale);
    whole, frac := padded[..|padded| - scale], padded[|padded| - scale..];
    CutDigits(padded, |padded| - scale);
  }

  lemma PaddedKeeps(digits: string, scale: nat)
    requires AllDigits(digits)
    ensures AllDigits(Padded(digits, scale)) && NumberOf(Padded(digits, scale)) == NumberOf(digits)
  {
    PadKeeps(digits, scale + 1);
  }

  lemma CutDigits(s: string, k: nat)
    requires AllDigits(s) && k <= |s|
    ensures AllDigits(s[..k]) && AllDigits(s[k..])
    ensures Scaled(NumberOf(s[..k]), |s| - k) + NumberOf(s[k..]) == NumberOf(s)
  {
    assert s[..k] + s[k..] == s;
    NumberJoins(s[..k], s[k..]);
  }

  lemma PointedShape(raw: int, scale: nat, whole: string, frac: string)
    requires 0 < scale <= 127 && PutPoint(Digits(Abs(raw)), scale) == whole + "." + frac
    ensures FormatDecimal(raw, scale) == Sign(raw < 0) + whole + "." + frac
  {
    IntTextShape(raw);
    SignJoins(raw < 0, whole, frac, PutPoint(Digits(Abs(raw)), scale));
  }

  lemma SignJoins(negative: bool, whole: string, frac: string, pointed: string)
    requires pointed == whole + "." + frac
    ensures (if negative then "-" + pointed else pointed) == Sign(negative) + whole + "." + frac
  {}

  lemma WholeShape(raw: int, scale: int)
    requires -128 < scale <= 0
    ensures FormatDecimal(raw, scale) == Sign(raw < 0) + (Digits(Abs(raw)) + Zeros(-scale))
  {
    var sign, digits, zeros := Sign(raw < 0), Digits(Abs(raw)), Zeros(-scale);
    assert (sign + digits) + zeros == sign + (digits + zeros);
    if scale == 0 {
      assert zeros == "" && digits + zeros == digits;
    }
  }

  lemma ZerosAfter(digits: string, zeros: nat)
    requires AllDigits(digits)
    ensures AllDigits(digits + Zeros(zeros))
    ensures NumberOf(digits + Zeros(zeros)) == Scaled(NumberOf(digits), zeros)
  {
    NumberJoins(digits, Zeros(zeros));
    ZerosRead(zeros, zeros);
  }

  /** The printed text reads back as the raw integer over ten to the scale: the sign, every digit, and exactly
      `scale` digits after the point, or `-scale` zeros in its place. */
  lemma FormatReadsBack(raw: int, scale: int)
    requires -128 < scale <= 127
    ensures Read(FormatDecimal(raw, scale)) == Some(Decimal(Scaled(raw, Zeroes(scale)), Places(scale)))
  {
    if scale <= 0 {
      WholeReadsBack(raw, scale);
    } else {
      PointedReadsBack(raw, scale);
    }
  }

  lemma WholeReadsBack(raw: int, scale: int)
    requires -128 < scale <= 0
    ensures Read(FormatDecimal(raw, scale)) == Some(Decimal(Scaled(raw, -scale), 0))
  {
    WholeShape(raw, scale);
    ZerosAfter(Digits(Abs(raw)), -scale);
    DigitsRead(Abs(raw));
    ReadWhole(raw < 0, Digits(Abs(raw)) + Zeros(-scale));
    SignedScaled(raw, -scale);
  }

  lemma PointedReadsBack(raw: int, scale: int)
    requires 0 < scale <= 127
    ensures Read(FormatDecimal(raw, scale)) == Some(Decimal(raw, scale))
  {
    var pointed, frac, n := PointedParts(raw, scale);
    ReadPointed(FormatDecimal(raw, scale), raw, scale, pointed, frac, n);
  }

  lemma ReadPointed(text: string, raw: int, scale: nat, pointed: string, frac: string, n: nat)
    requires text == pointed + frac && AllDigits(frac) && |frac| == scale > 0
    requires ReadUpTo(pointed) == Point(raw < 0, n) && Scaled(n, scale) + NumberOf(frac) == Abs(raw)
    ensures Read(text) == Some(Decimal(raw, scale))
  {
    ReadFraction(pointed, frac, raw < 0, n);
  }

  lemma PointedParts(raw: int, scale: int) returns (pointed: string, frac: string, n: nat)
    requires 0 < scale <= 127
    ensures FormatDecimal(raw, scale) == pointed + frac && AllDigits(frac) && |frac| == scale
    ensures ReadUpTo(pointed) == Point(raw < 0, n) && Scaled(n, scale) + NumberOf(frac) == Abs(raw)
  {
    var whole;
    DigitsCanonical(Abs(raw));
    whole, frac := PutPointSplits(Digits(Abs(raw)), scale);
    PointedShape(raw, scale, whole, frac);
    DigitsRead(Abs(raw));
    pointed, n := Sign(raw < 0) + whole + ".", NumberOf(whole);
    ReadPoint(raw < 0, whole);
  }

  lemma {:induction false} SignedScaled(n: int, k: nat)
    ensures Signed(n < 0, Scaled(Abs(n), k)) == Scaled(n, k)
  {
    if k > 0 { SignedScaled(n, k - 1); }
  }

  lemma {:induction false} ScaledTwice(n: int, a: nat, b: nat)
    ensures Scaled(Scaled(n, a), b) == Scaled(n, a + b)
  {
    if b > 0 { ScaledTwice(n, a, b - 1); }
  }

  lemma {:induction false} ScaledIsProduct(n: int, k: nat)
    ensures Scaled(n, k) == n * Pow10(k)
  {
    if k > 0 {
      ScaledIsProduct(n, k - 1);
      assert n * (10 * Pow10(k - 1)) == 10 * (n * Pow10(k - 1));
    }
  }

  /** The printed text denotes raw times ten to the minus scale. */
  lemma FormatDenotes(raw: int, scale: int)
    requires -128 < scale <= 127
    ensures Denotes(FormatDecimal(raw, scale), raw, scale)
  {
    FormatReadsBack(raw, scale);
    ReadBackIs(raw, scale);
  }

  /** At one scale no two values print alike. */
  lemma FormatInjective(a: int, b: int, scale: int)
    requires -128 < scale <= 127 && FormatDecimal(a, scale) == FormatDecimal(b, scale)
    ensures a == b
  {
    FormatReadsBack(a, scale);
    FormatReadsBack(b, scale);
    Cancel(a, b, Zeroes(scale));
  }

  lemma {:induction false} Cancel(a: int, b: int, k: nat)
    requires Scaled(a, k) == Scaled(b, k)
    ensures a == b
  {
    if k > 0 { Cancel(a, b, k - 1); }
  }

  // ----- the exact text -----

  lemma {:induction false} SameDigits(s: string, t: string, k: nat)
    requires AllDigits(s) && AllDigits(t) && k <= |s| && k <= |t| && NumberUpTo(s, k) == NumberUpTo(t, k)
    ensures s[..k] == t[..k]
  {
    if k > 0 {
      SameDigits(s, t, k - 1);
      assert s[..k] == s[..k - 1] + [s[k - 1]] && t[..k] == t[..k - 1] + [t[k - 1]];
    }
  }

  /** Digits of one length that read alike are the same. */
  lemma DigitsUnique(s: string, t: string)
    requires AllDigits(s) && AllDigits(t) && |s| == |t| && NumberOf(s) == NumberOf(t)
    ensures s == t
  {
    SameDigits(s, t, |s|);
    assert s[..|s|] == s && t[..|t|] == t;
  }

  lemma {:induction false} NumberBound(s: string, k: nat)
    requires AllDigits(s) && k <= |s|
    ensures NumberUpTo(s, k) < Pow10(k)
  {
    if k > 0 { NumberBound(s, k - 1); }
  }

  lemma DigitsStep(n: nat, c: char)
    requires n > 0 && '0' <= c <= '9'
    ensures Digits(10 * n + DigitOf(c)) == Digits(n) + [c]
  {
    var m: nat := 10 * n + DigitOf(c);
    assert m / 10 == n && m % 10 == DigitOf(c);
  }

  /** The digits without leading zeros are the printed ones. */
  lemma {:induction false} CanonicalIsPrinted(s: string)
    requires Canonical(s)
    ensures Digits(NumberOf(s)) == s
    decreases |s|
  {
    if |s| == 1 {
      assert NumberUpTo(s, 0) == 0;
    } else {
      var init, c := s[..|s| - 1], s[|s| - 1];
      assert s == init + [c];
      CanonicalIsPrinted(init);
      NumberPrefix(init, [c], |init|);
      DigitsStep(NumberOf(init), c);
    }
  }

  /** With a point, the text is the sign, the whole part's digits and exactly `scale` digits of the rest. */
  lemma FormatIs(raw: int, scale: int) returns (q: nat, r: nat)
    requires 0 < scale <= 127
    ensures Abs(raw) == q * Pow10(scale) + r && r < Pow10(scale)
    ensures FormatDecimal(raw, scale) == Sign(raw < 0) + Digits(q) + "." + PadLeft(Digits(r), scale)
  {
    var whole, frac;
    whole, frac, q, r := CutParts(Abs(raw), scale);
    PointedShape(raw, scale, whole, frac);
  }

  lemma CutParts(n: nat, scale: nat) returns (whole: string, frac: string, q: nat, r: nat)
    requires scale > 0
    ensures PutPoint(Digits(n), scale) == whole + "." + frac
    ensures whole == Digits(q) && frac == PadLeft(Digits(r), scale)
    ensures n == q * Pow10(scale) + r && r < Pow10(scale)
  {
    DigitsCanonical(n);
    whole, frac := PutPointSplits(Digits(n), scale);
    q, r := NumberOf(whole), NumberOf(frac);
    CanonicalIsPrinted(whole);
    FractionIsPrinted(frac);
    PartsAdd(n, scale, whole, frac);
  }

  lemma PartsAdd(n: nat, scale: nat, whole: string, frac: string)
    requires AllDigits(whole) && AllDigits(frac) && |frac| == scale
    requires Scaled(NumberOf(whole), scale) + NumberOf(frac) == NumberOf(Digits(n))
    ensures n == NumberOf(whole) * Pow10(scale) + NumberOf(frac) && NumberOf(frac) < Pow10(scale)
  {
    DigitsRead(n);
    NumberBound(frac, scale);
    ScaledIsProduct(NumberOf(whole), scale);
  }

  lemma FractionIsPrinted(frac: string)
    requires AllDigits(frac) && frac != ""
    ensures frac == PadLeft(Digits(NumberOf(frac)), |frac|)
  {
    NumberBound(frac, |frac|);
    DigitsWidth(NumberOf(frac), |frac|);
    DigitsRead(NumberOf(frac));
    PadKeeps(Digits(NumberOf(frac)), |frac|);
    DigitsUnique(frac, PadLeft(Digits(NumberOf(frac)), |frac|));
  }

  // ----- the dividing printer -----

  lemma {:induction false} Pow10Grows(a: nat, b: nat)
    requires a <= b
    ensures Pow10(a) <= Pow10(b)
  {
    if a < b { Pow10Grows(a, b - 1); }
  }

  lemma Pow10Add(a: nat, b: nat)
    ensures Pow10(a + b) == Pow10(a) * Pow10(b)
  {
    ScaledTwice(1, a, b);
    ScaledIsProduct(Pow10(a), b);
  }

  lemma PowersOfTen()
    ensures Pow10(38) == 1_0000_0000_0000_0000_0000_0000_0000_0000_00_0000
    ensures Pow10(39) == 10 * Pow10(38)
  {
    assert Pow10(2) == 100 && Pow10(4) == 1_0000;
    Pow10Add(4, 4);
    Pow10Add(8, 8);
    Pow10Add(16, 16);
    Pow10Add(32, 4);
    Pow10Add(36, 2);
  }

  /** The powers of ten that fit 128 bits, and the bounds themselves. */
  lemma I128Bounds(k: nat)
    ensures FitsI128(Pow10(k)) <==> k <= 38
    ensures I128_MAX == Words.Pow2(127) - 1 && I128_MIN == -(I128_MAX + 1)
  {
    PowersOfTen();
    if k <= 38 { Pow10Grows(k, 38); } else { Pow10Grows(39, k); }
    Words.Pow2Values();
    Words.Pow2Square(64, 0x1_0000_0000_0000_0000);
  }

  /** It prints exactly when neither the power of ten nor the product overflows. */
  lemma DividesExactlyWhen(unscaled: int, scale: int)
    requires -128 < scale <= 127
    ensures DividedDecimal(unscaled, scale).Some? <==>
            if scale > 0 then scale <= 38
            else -scale <= 38 && 0 - Words.Pow2(127) <= Scaled(unscaled, -scale) < Words.Pow2(127)
  {
    I128Bounds(if scale > 0 then scale else -scale);
    if scale <= 0 { ScaledIsProduct(unscaled, -scale); }
  }

  /** Values whose whole part is zero and whose sign the dividing printer therefore loses. */
  predicate SignLost(unscaled: int, scale: int) {
    scale > 0 && 0 - Pow10(scale) < unscaled < 0
  }

  lemma WholeDivided(n: int)
    ensures Read(IntText(n)) == Some(Decimal(n, 0))
  {
    DigitsRead(Abs(n));
    ReadWhole(n < 0, Digits(Abs(n)));
  }

  lemma DividedParts(whole: int, frac: nat, scale: nat) returns (pointed: string, f: string)
    requires scale > 0 && frac < Pow10(scale)
    ensures IntText(whole) + "." + PadLeft(Digits(frac), scale) == pointed + f
    ensures AllDigits(f) && |f| == scale && NumberOf(f) == frac
    ensures ReadUpTo(pointed) == Point(whole < 0, Abs(whole))
  {
    pointed, f := IntText(whole) + ".", PadLeft(Digits(frac), scale);
    PadKeeps(Digits(frac), scale);
    DigitsRead(frac);
    DigitsRead(Abs(whole));
    DigitsWidth(frac, scale);
    ReadPoint(whole < 0, Digits(Abs(whole)));
  }

  lemma PointedDivided(text: string, whole: int, frac: nat, scale: nat)
    requires scale > 0 && frac < Pow10(scale) && text == IntText(whole) + "." + PadLeft(Digits(frac), scale)
    ensures Read(text) == Some(Decimal(Signed(whole < 0, Scaled(Abs(whole), scale) + frac), scale))
  {
    var pointed, f := DividedParts(whole, frac, scale);
    ReadFraction(pointed, f, whole < 0, Abs(whole));
  }

  /** What the divided text reads as. */
  lemma DividedReadsBack(unscaled: int, scale: int)
    requires -128 < scale <= 127 && DividedDecimal(unscaled, scale).Some?
    ensures Read(DividedDecimal(unscaled, scale).value) ==
            Some(Decimal(if SignLost(unscaled, scale) then -unscaled else Scaled(unscaled, Zeroes(scale)),
                         Places(scale)))
  {
    if scale <= 0 {
      MultipliedReadsBack(unscaled, scale);
    } else {
      QuotientReadsBack(unscaled, scale);
    }
  }

  lemma MultipliedReadsBack(unscaled: int, scale: int)
    requires -128 < scale <= 0 && DividedDecimal(unscaled, scale).Some?
    ensures Read(DividedDecimal(unscaled, scale).value) == Some(Decimal(Scaled(unscaled, -scale), 0))
  {
    WholeDivided(unscaled * Pow10(-scale));
    ScaledIsProduct(unscaled, -scale);
  }

  lemma QuotientReadsBack(unscaled: int, scale: int)
    requires 0 < scale <= 127 && DividedDecimal(unscaled, scale).Some?
    ensures Read(DividedDecimal(unscaled, scale).value) ==
            Some(Decimal(if SignLost(unscaled, scale) then -unscaled else unscaled, scale))
  {
    var d := Pow10(scale);
    DividedValue(unscaled, scale);
    PointedDivided(DividedDecimal(unscaled, scale).value, TruncDiv(unscaled, d), Abs(TruncRem(unscaled, d)), scale);
  }

  lemma DividedValue(unscaled: int, scale: nat)
    requires scale > 0
    ensures var d := Pow10(scale);
            var whole, frac := TruncDiv(unscaled, d), Abs(TruncRem(unscaled, d));
            frac < d
            && Signed(whole < 0, Scaled(Abs(whole), scale) + frac) ==
               if SignLost(unscaled, scale) then -unscaled else unscaled
  {
    Divided(unscaled, Pow10(scale));
    ScaledIsProduct(Abs(TruncDiv(unscaled, Pow10(scale))), scale);
  }

  lemma Divided(a: int, d: nat)
    requires d > 0
    ensures Abs(a) == Abs(TruncDiv(a, d)) * d + Abs(TruncRem(a, d)) && Abs(TruncRem(a, d)) < d
    ensures TruncDiv(a, d) < 0 <==> a + d <= 0
    ensures a >= 0 ==> TruncDiv(a, d) >= 0
  {
    var n: int := Abs(a);
    assert n == n / d * d + n % d;
    if a < 0 && n / d >= 1 { assert n / d * d >= d; }
  }

  /** The dividing printer denotes the value it is given exactly when the value is not a negative one above
      minus one. */
  lemma DividedDenotesExactlyWhen(unscaled: int, scale: int)
    requires -128 < scale <= 127 && DividedDecimal(unscaled, scale).Some?
    ensures Denotes(DividedDecimal(unscaled, scale).value, unscaled, scale) <==> !SignLost(unscaled, scale)
  {
    DividedReadsBack(unscaled, scale);
    if SignLost(unscaled, scale) {
      NegationIsNot(unscaled, scale);
    } else {
      ReadBackIs(unscaled, scale);
    }
  }

  lemma ReadBackIs(raw: int, scale: int)
    ensures Decimal(Scaled(raw, Zeroes(scale)), Places(scale)).Is(raw, scale)
  {
    ScaledTwice(raw, Zeroes(scale), Places(scale));
  }

  lemma NegationIsNot(raw: int, scale: nat)
    requires raw < 0
    ensures !Decimal(-raw, scale).Is(raw, scale)
  {
    if Scaled(-raw, scale) == Scaled(raw, scale) { Cancel(-raw, raw, scale); }
  }

  /** Both printers denote the same number exactly outside that band. */
  lemma PrintersAgreeExactlyWhen(unscaled: int, scale: int)
    requires -128 < scale <= 127 && DividedDecimal(unscaled, scale).Some?
    ensures Read(DividedDecimal(unscaled, scale).value) == Read(FormatDecimal(unscaled, scale)) <==>
            !SignLost(unscaled, scale)
  {
    DividedReadsBack(unscaled, scale);
    FormatReadsBack(unscaled, scale);
  }

  /** Zeros multiply. */
  lemma {:induction false} ZerosScale(n: nat, k: nat)
    requires n > 0
    ensures Digits(Scaled(n, k)) == Digits(n) + Zeros(k)
  {
    if k == 0 {
      assert Digits(n) + "" == Digits(n);
    } else {
      ZerosScale(n, k - 1);
      assert Zeros(k) == Zeros(k - 1) + "0";
      assert Digits(n) + Zeros(k) == Digits(n) + Zeros(k - 1) + "0";
    }
  }

  /** The two printers print the same text exactly outside the band where the sign is lost, but for a zero with
      zeros after it. */
  lemma PrintersPrintAlikeExactlyWhen(unscaled: int, scale: int)
    requires -128 < scale <= 127 && DividedDecimal(unscaled, scale).Some?
    ensures DividedDecimal(unscaled, scale).value == FormatDecimal(unscaled, scale) <==>
            !SignLost(unscaled, scale) && (scale >= 0 || unscaled != 0)
  {
    if scale > 0 {
      PointedAlike(unscaled, scale);
    } else {
      WholeAlike(unscaled, scale);
    }
  }

  lemma PointedAlike(unscaled: int, scale: int)
    requires 0 < scale <= 127 && DividedDecimal(unscaled, scale).Some?
    ensures DividedDecimal(unscaled, scale).value == FormatDecimal(unscaled, scale) <==> !SignLost(unscaled, scale)
  {
    if SignLost(unscaled, scale) {
      PrintersAgreeExactlyWhen(unscaled, scale);
    } else {
      var d := Pow10(scale);
      var q, r := FormatIs(unscaled, scale);
      Divided(unscaled, d);
      Words.QuotientUnique(d, Abs(TruncDiv(unscaled, d)), Abs(TruncRem(unscaled, d)), q, r);
      SameParts(unscaled, scale, q, r);
    }
  }

  lemma SameParts(unscaled: int, scale: int, q: nat, r: nat)
    requires 0 < scale <= 127 && DividedDecimal(unscaled, scale).Some?
    requires Abs(TruncDiv(unscaled, Pow10(scale))) == q && Abs(TruncRem(unscaled, Pow10(scale))) == r
    requires TruncDiv(unscaled, Pow10(scale)) < 0 <==> unscaled < 0
    ensures DividedDecimal(unscaled, scale).value ==
            Sign(unscaled < 0) + Digits(q) + "." + PadLeft(Digits(r), scale)
  {
  }

  lemma WholeAlike(unscaled: int, scale: int)
    requires -128 < scale <= 0 && DividedDecimal(unscaled, scale).Some?
    ensures DividedDecimal(unscaled, scale).value == FormatDecimal(unscaled, scale) <==> scale == 0 || unscaled != 0
  {
    var k: nat := -scale;
    ScaledIsProduct(unscaled, k);
    WholeShape(unscaled, scale);
    if unscaled != 0 {
      ZerosScale(Abs(unscaled), k);
      ScaledSign(unscaled, k);
    } else {
      ScaledIsProduct(0, k);
    }
  }

  lemma {:induction false} ScaledSign(n: int, k: nat)
    ensures Abs(Scaled(n, k)) == Scaled(Abs(n), k) && (Scaled(n, k) < 0 <==> n < 0)
  {
    if k > 0 { ScaledSign(n, k - 1); }
  }

  /** Minus a half prints as plus a half. */
  lemma DividedLosesSign()
    ensures DividedDecimal(-5, 1) == Some("0.5") && FormatDecimal(-5, 1) == "-0.5"
  {
    assert Scaled(1, 1) == 10 * Scaled(1, 0);
    assert TruncDiv(-5, 10) == 0 && TruncRem(-5, 10) == -5;
    assert IntText(0) == "0" && PadLeft("5", 1) == "5" && Digits(5) == "5" && Abs(-5) == 5;
    assert Pow10(1) == 10 && FitsI128(10);
    assert "0" + "." + "5" == "0.5";
    HalfFormats();
  }

  lemma HalfFormats()
    ensures FormatDecimal(-5, 1) == "-0.5"
  {
    assert Zeros(1) == "0" && Zeros(1) + "5" == "05" && PadLeft("5", 2) == "05";
    assert "05"[..1] == "0" && "05"[1..] == "5";
    assert "0" + "." + "5" == "0.5" && PutPoint("5", 1) == "0.5";
    assert IntText(-5) == "-5" && "-5"[1..] == "5" && FormatDecimal(-5, 1) == "-" + PutPoint("5", 1);
    IntTextShape(-5);
    assert Digits(5) == "5" && "-" + "0.5" == "-0.5";
  }
}

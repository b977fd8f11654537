/**
 * The part of java.math.BigDecimal that the calculator relies on. A decimal is an
 * unscaled integer and a scale, worth unscaled * 10^-scale. Equality of `Dec` values
 * is Java's scale-sensitive `equals`; `Cmp` is `compareTo`, which only looks at value.
 */
module Decimal {
  import opened Wrappers
  import opened Text

  datatype Dec = Dec(unscaled: int, scale: int)

  /** BigDecimal.ZERO */
  const Zero := Dec(0, 0)

  /** java.math.RoundingMode */
  datatype RoundingMode = Up | Down | Ceiling | Floor | HalfUp | HalfDown | HalfEven | Unnecessary

  function Abs(x: int): nat { if x < 0 then -x else x }

  function Max(a: int, b: int): int { if a < b then b else a }

  function Pow10(n: nat): (r: nat)
    ensures r >= 1
  {
    if n == 0 then 1 else 10 * Pow10(n - 1)
  }

  lemma {:induction false} Pow10Add(a: nat, b: nat)
    ensures Pow10(a + b) == Pow10(a) * Pow10(b)
  {
    if b > 0 {
      Pow10Add(a, b - 1);
      calc {
        Pow10(a + b);
        10 * Pow10(a + b - 1);
        10 * (Pow10(a) * Pow10(b - 1));
        Pow10(a) * (10 * Pow10(b - 1));
      }
    }
  }

  /** The value of d written as an integer number of units of 10^-s. */
  function ValueAt(d: Dec, s: int): int
    requires s >= d.scale
  {
    d.unscaled * Pow10(s - d.scale)
  }

  lemma ValueAtShift(d: Dec, s: int, k: nat)
    requires s >= d.scale
    ensures ValueAt(d, s + k) == ValueAt(d, s) * Pow10(k)
  {
    var a: nat := s - d.scale;
    Pow10Add(a, k);
    var p, q := Pow10(a), Pow10(k);
    calc {
      ValueAt(d, s + k);
      d.unscaled * Pow10(a + k);
      d.unscaled * (p * q);
      { MulAssoc(d.unscaled, p, q); }
      (d.unscaled * p) * q;
    }
  }

  lemma EuclidFacts(n: int, d: int)
    requires d > 0
    ensures n == (n / d) * d + n % d && 0 <= n % d < d
  {
  }

  lemma SuccessorProduct(fl: int, d: int, q: int, inc: bool)
    requires q == if inc then fl + 1 else fl
    ensures q * d == fl * d + (if inc then d else 0)
  {
    if inc { assert q * d == (fl + 1) * d == fl * d + d; }
  }

  lemma MulNonneg(x: int, y: int)
    requires x >= 0 && y >= 0
    ensures x * y >= 0
  {
  }

  lemma MulAssoc(x: int, y: int, z: int)
    ensures x * (y * z) == (x * y) * z
  {
  }

  /** BigDecimal.compareTo: -1, 0 or 1 as a is below, equal to or above b in value. */
  function Cmp(a: Dec, b: Dec): (r: int)
    ensures -1 <= r <= 1
    ensures forall s :: s >= a.scale && s >= b.scale ==>
      (r < 0 <==> ValueAt(a, s) < ValueAt(b, s)) && (r == 0 <==> ValueAt(a, s) == ValueAt(b, s))
  {
    var m := (if a.scale < b.scale then b.scale else a.scale);
    var x, y := ValueAt(a, m), ValueAt(b, m);
    forall s | s >= a.scale && s >= b.scale
      ensures (x < y <==> ValueAt(a, s) < ValueAt(b, s)) && (x == y <==> ValueAt(a, s) == ValueAt(b, s))
    {
      ValueAtShift(a, m, s - m);
      ValueAtShift(b, m, s - m);
      MulPositive(x, y, Pow10(s - m));
    }
    if x < y then -1 else if x > y then 1 else 0
  }

  lemma Distribute(x: int, y: int, p: int)
    ensures (x + y) * p == x * p + y * p && (x - y) * p == x * p - y * p
  {
  }

  lemma MulPositive(x: int, y: int, p: int)
    requires p > 0
    ensures (x < y <==> x * p < y * p) && (x == y <==> x * p == y * p)
  {
    if x < y {
      assert y * p - x * p == (y - x) * p;
    } else if y < x {
      assert x * p - y * p == (x - y) * p;
    }
  }

  /** Equal in value (compareTo == 0), whatever the scales. */
  predicate SameValue(a: Dec, b: Dec) { Cmp(a, b) == 0 }

  lemma SameValueTransitive(a: Dec, b: Dec, c: Dec)
    requires SameValue(a, b) && SameValue(b, c)
    ensures SameValue(a, c)
  {
    var s := Max(a.scale, Max(b.scale, c.scale));
    assert ValueAt(a, s) == ValueAt(b, s) == ValueAt(c, s);
  }

  function Signum(d: Dec): (r: int)
    ensures r == Cmp(d, Zero)
  {
    var m := Max(d.scale, 0);
    assert ValueAt(Zero, m) == 0 * Pow10(m) == 0;
    MulPositive(d.unscaled, 0, Pow10(m - d.scale));
    if d.unscaled < 0 then -1 else if d.unscaled > 0 then 1 else 0
  }

  /** BigDecimal.negate keeps the scale. */
  function Negate(d: Dec): Dec
  {
    Dec(-d.unscaled, d.scale)
  }

  /** Negation keeps the scale and reverses the comparison with zero. */
  lemma NegateReverses(d: Dec)
    ensures Negate(d).scale == d.scale && Cmp(Negate(d), Zero) == -Cmp(d, Zero)
  {
    assert Signum(Negate(d)) == -Signum(d);
  }

  /** Negation is the additive inverse: the sum is zero at the same scale. */
  lemma NegateCancels(d: Dec)
    ensures Add(d, Negate(d)) == Dec(0, d.scale)
  {
    assert Pow10(0) == 1;
  }

  /** BigDecimal.add: exact, at the larger of the two scales. */
  function Add(a: Dec, b: Dec): (r: Dec)
    ensures r.scale == (if a.scale < b.scale then b.scale else a.scale)
  {
    var m := (if a.scale < b.scale then b.scale else a.scale);
    Dec(ValueAt(a, m) + ValueAt(b, m), m)
  }

  /** The sum is exact: at every scale both operands can be written at, values add. */
  lemma AddExact(a: Dec, b: Dec, s: int)
    requires s >= a.scale && s >= b.scale
    ensures ValueAt(Add(a, b), s) == ValueAt(a, s) + ValueAt(b, s)
  {
    var r := Add(a, b);
    var m := r.scale;
    var k: nat := s - m;
    ValueAtShift(a, m, k);
    ValueAtShift(b, m, k);
    ValueAtShift(r, m, k);
    var x, y, p := ValueAt(a, m), ValueAt(b, m), Pow10(k);
    assert ValueAt(r, m) == r.unscaled * 1 == x + y;
    Distribute(x, y, p);
  }

  /** BigDecimal.subtract: exact, at the larger of the two scales. */
  function Sub(a: Dec, b: Dec): (r: Dec)
    ensures r.scale == (if a.scale < b.scale then b.scale else a.scale)
  {
    var m := (if a.scale < b.scale then b.scale else a.scale);
    Dec(ValueAt(a, m) - ValueAt(b, m), m)
  }

  /** The difference is exact. */
  lemma SubExact(a: Dec, b: Dec, s: int)
    requires s >= a.scale && s >= b.scale
    ensures ValueAt(Sub(a, b), s) == ValueAt(a, s) - ValueAt(b, s)
  {
    var r := Sub(a, b);
    var m := r.scale;
    var k: nat := s - m;
    ValueAtShift(a, m, k);
    ValueAtShift(b, m, k);
    ValueAtShift(r, m, k);
    var x, y, p := ValueAt(a, m), ValueAt(b, m), Pow10(k);
    assert ValueAt(r, m) == r.unscaled * 1 == x - y;
    Distribute(x, y, p);
  }

  /** BigDecimal.multiply: exact, at the sum of the scales. */
  function Mul(a: Dec, b: Dec): (r: Dec)
    ensures r.scale == a.scale + b.scale
  {
    Dec(a.unscaled * b.unscaled, a.scale + b.scale)
  }

  /** The product is exact: written at scales s and t, the operands multiply to the product at s + t. */
  lemma MulExact(a: Dec, b: Dec, s: int, t: int)
    requires s >= a.scale && t >= b.scale
    ensures ValueAt(Mul(a, b), s + t) == ValueAt(a, s) * ValueAt(b, t)
  {
    var r := Mul(a, b);
    Pow10Add(s - a.scale, t - b.scale);
    assert s + t - r.scale == (s - a.scale) + (t - b.scale);
    var p, q := Pow10(s - a.scale), Pow10(t - b.scale);
    assert a.unscaled * b.unscaled * (p * q) == (a.unscaled * p) * (b.unscaled * q);
  }

  /**
   * What it means for the integer q to be n / d rounded with the given mode (d > 0):
   * q is one of the two integers around n / d, an exact quotient is kept, and the
   * mode picks the neighbour.
   */
  ghost predicate Rounded(n: int, d: int, q: int, mode: RoundingMode)
    requires d > 0
  {
    RoundedProduct(n, d, n % d, q * d, q % 2 == 0, mode)
  }

  /** Rounded, with m standing for q * d and rem for n % d. */
  ghost predicate RoundedProduct(n: int, d: int, rem: int, m: int, even: bool, mode: RoundingMode)
  {
    && m - d < n < m + d
    && (rem == 0 ==> m == n)
    && match mode
       case Up => (n > 0 ==> m >= n) && (n < 0 ==> m <= n)
       case Down => (n > 0 ==> m <= n) && (n < 0 ==> m >= n)
       case Ceiling => m >= n
       case Floor => m <= n
       case HalfUp => 2 * Abs(n - m) <= d && (2 * Abs(n - m) == d ==> Abs(m) > Abs(n))
       case HalfDown => 2 * Abs(n - m) <= d && (2 * Abs(n - m) == d ==> Abs(m) < Abs(n))
       case HalfEven => 2 * Abs(n - m) <= d && (2 * Abs(n - m) == d ==> even)
       case Unnecessary => m == n
  }

  /** Integer division of n by a positive d, rounded as BigDecimal rounds a discarded fraction. */
  function RoundDiv(n: int, d: int, mode: RoundingMode): (r: Result<int>)
    requires d > 0
    ensures r.Ok? ==> Rounded(n, d, r.value, mode)
    ensures r.Err? <==> mode == Unnecessary && n % d != 0
    ensures r.Err? ==> r.fault == RoundingNecessary
  {
    var fl, rem := n / d, n % d;
    if rem != 0 && mode == Unnecessary then Err(RoundingNecessary)
    else
      // whether the discarded fraction moves the floor quotient up by one
      var up := n > 0;
      var inc := rem != 0 && match mode
        case Up => up
        case Down => !up
        case Ceiling => true
        case Floor => false
        case HalfUp => 2 * rem > d || (2 * rem == d && up)
        case HalfDown => 2 * rem > d || (2 * rem == d && !up)
        case HalfEven => 2 * rem > d || (2 * rem == d && fl % 2 != 0)
        case Unnecessary => false;
      var q := if inc then fl + 1 else fl;
      RoundedStep(n, d, fl, rem, q, inc, mode);
      Ok(q)
  }

  lemma RoundedStep(n: int, d: int, fl: int, rem: int, q: int, inc: bool, mode: RoundingMode)
    requires d > 0 && fl == n / d && rem == n % d
    requires q == if inc then fl + 1 else fl
    requires rem == 0 ==> !inc
    requires mode == Unnecessary ==> rem == 0
    requires rem != 0 ==> inc == match mode
        case Up => n > 0
        case Down => n <= 0
        case Ceiling => true
        case Floor => false
        case HalfUp => 2 * rem > d || (2 * rem == d && n > 0)
        case HalfDown => 2 * rem > d || (2 * rem == d && n <= 0)
        case HalfEven => 2 * rem > d || (2 * rem == d && fl % 2 != 0)
        case Unnecessary => false
    ensures Rounded(n, d, q, mode)
  {
    var f, m := fl * d, q * d;
    EuclidFacts(n, d);
    SuccessorProduct(fl, d, q, inc);
    FloorProductSign(n, d, fl);
    SuccessorParity(fl, q, inc);
    RoundedCases(n, d, rem, f, m, q % 2 == 0, fl % 2 == 0, inc, mode);
  }

  /** The floor quotient times the divisor is not negative for a positive n, and at most -d for a negative one. */
  lemma FloorProductSign(n: int, d: int, fl: int)
    requires d > 0 && fl == n / d
    ensures (n < 0 ==> fl * d <= -d) && (n > 0 ==> fl * d >= 0) && (n == 0 ==> n % d == 0)
  {
    EuclidFacts(n, d);
    if fl >= 0 {
      MulNonneg(fl, d);
    } else {
      MulNonneg(-fl - 1, d);
      assert (-fl - 1) * d == -(fl * d) - d;
    }
  }

  /** Moving the quotient up by one flips its parity. */
  lemma SuccessorParity(fl: int, q: int, inc: bool)
    requires q == if inc then fl + 1 else fl
    ensures (q % 2 == 0) == (if inc then !(fl % 2 == 0) else fl % 2 == 0)
  {
  }

  lemma RoundedCases(n: int, d: int, rem: int, f: int, m: int, even: bool, flEven: bool, inc: bool,
                     mode: RoundingMode)
    requires d > 0 && n == f + rem && 0 <= rem < d
    requires n < 0 ==> f <= -d
    requires n > 0 ==> f >= 0
    requires n == 0 ==> rem == 0
    requires m == f + (if inc then d else 0)
    requires even == (if inc then !flEven else flEven)
    requires rem == 0 ==> !inc
    requires mode == Unnecessary ==> rem == 0
    requires rem != 0 ==> inc == match mode
        case Up => n > 0
        case Down => n <= 0
        case Ceiling => true
        case Floor => false
        case HalfUp => 2 * rem > d || (2 * rem == d && n > 0)
        case HalfDown => 2 * rem > d || (2 * rem == d && n <= 0)
        case HalfEven => 2 * rem > d || (2 * rem == d && !flEven)
        case Unnecessary => false
    ensures RoundedProduct(n, d, rem, m, even, mode)
  {
    if mode == HalfDown && rem != 0 && 2 * rem == d && n < 0 {
      assert m == n + rem && n + rem <= 0;
      assert Abs(m) == -(n + rem) < -n == Abs(n);
    }
  }

  /**
   * BigDecimal.setScale(s, mode): the same value at scale s, rounding when digits are
   * dropped; UNNECESSARY throws when a nonzero digit would be dropped.
   */
  function SetScale(d: Dec, s: int, mode: RoundingMode): (r: Result<Dec>)
    ensures r.Ok? ==> r.value.scale == s
    ensures s >= d.scale ==> r.Ok? && SameValue(r.value, d)
    ensures s < d.scale ==> (r.Ok? <==> RoundDiv(d.unscaled, Pow10(d.scale - s), mode).Ok?)
    ensures s < d.scale && r.Ok? ==> Rounded(d.unscaled, Pow10(d.scale - s), r.value.unscaled, mode)
    ensures r.Err? ==> r.fault == RoundingNecessary
  {
    if s >= d.scale then
      var r := Dec(d.unscaled * Pow10(s - d.scale), s);
      assert ValueAt(r, s) == ValueAt(d, s);
      Ok(r)
    else
      match RoundDiv(d.unscaled, Pow10(d.scale - s), mode)
      case Ok(q) => Ok(Dec(q, s))
      case Err(f) => Err(f)
  }

  /**
   * The integers whose quotient is a / b written in units of 10^-scale, as BigDecimal's
   * divide(b, scale, mode) forms them: the side with the smaller power of ten is
   * multiplied up, and the divisor is made positive.
   */
  function DivNumerator(a: Dec, b: Dec, scale: int): int
  {
    var e := scale - a.scale + b.scale;
    var num := if e >= 0 then a.unscaled * Pow10(e) else a.unscaled;
    if b.unscaled < 0 then -num else num
  }

  function DivDenominator(a: Dec, b: Dec, scale: int): nat
  {
    var e := scale - a.scale + b.scale;
    Abs(if e >= 0 then b.unscaled else b.unscaled * Pow10(-e))
  }

  /**
   * BigDecimal.divide(b, scale, mode): the quotient at the given scale, rounded with mode.
   * A zero divisor throws ArithmeticException, as does UNNECESSARY on an inexact quotient.
   */
  function Divide(a: Dec, b: Dec, scale: int, mode: RoundingMode): (r: Result<Dec>)
    ensures b.unscaled == 0 <==> r == Err(DivisionByZero)
    ensures r.Ok? ==> r.value.scale == scale
    ensures r.Ok? ==> (DivDenominator(a, b, scale) > 0 &&
      Rounded(DivNumerator(a, b, scale), DivDenominator(a, b, scale), r.value.unscaled, mode))
    ensures mode != Unnecessary ==> (r.Ok? <==> b.unscaled != 0)
    ensures r.Err? ==> r.fault == DivisionByZero || r.fault == RoundingNecessary
  {
    if b.unscaled == 0 then Err(DivisionByZero)
    else
      var e := scale - a.scale + b.scale;
      assert e < 0 ==> b.unscaled * Pow10(-e) != 0;
      match RoundDiv(DivNumerator(a, b, scale), DivDenominator(a, b, scale), mode)
      case Ok(q) => Ok(Dec(q, scale))
      case Err(f) => Err(f)
  }

  /** divide's quotient, read off the rounded integer division of its numerator by its denominator. */
  lemma DivideByParts(a: Dec, b: Dec, scale: int, mode: RoundingMode, n: int, d: int, q: int)
    requires b.unscaled != 0 && n == DivNumerator(a, b, scale) && d == DivDenominator(a, b, scale)
    requires d > 0 && RoundDiv(n, d, mode) == Ok(q)
    ensures Divide(a, b, scale, mode) == Ok(Dec(q, scale))
  {
  }

  /**
   * BigDecimal.stripTrailingZeros as Java implemented it before the JDK 8 fix that
   * CalcDialogUtils.stripTrailingZeroes works around: trailing zero digits of a nonzero
   * value are removed (the scale may become negative); a zero is returned as it is,
   * whatever its scale. From JDK 8 on, any zero becomes BigDecimal.ZERO.
   */
  function StripTrailingZeros(d: Dec): (r: Dec)
    ensures SameValue(r, d)
    ensures r.scale <= d.scale
    ensures d.unscaled == 0 ==> r == d
    ensures d.unscaled != 0 ==> r.unscaled % 10 != 0
  {
    var p := StripDigits(d.unscaled, d.scale);
    StripDigitsValue(d.unscaled, d.scale);
    var r := Dec(p.0, p.1);
    assert ValueAt(r, d.scale) == ValueAt(d, d.scale);
    r
  }

  /** The unscaled value and scale left once the trailing zero digits of q are removed. */
  function StripDigits(q: int, s: int): (int, int)
    decreases Abs(q)
  {
    if q == 0 || q % 10 != 0 then (q, s) else StripDigits(q / 10, s - 1)
  }

  /**
   * What StripDigits leaves: a number that gives back q once scaled to s again, with no
   * trailing zero unless it is zero, which is left as it was.
   */
  lemma {:induction false} StripDigitsValue(q: int, s: int)
    ensures var p := StripDigits(q, s);
      p.1 <= s && p.0 * Pow10(s - p.1) == q &&
      (q == 0 ==> p == (q, s)) && (q != 0 ==> p.0 % 10 != 0)
    decreases Abs(q)
  {
    if q != 0 && q % 10 == 0 {
      StripDigitsValue(q / 10, s - 1);
      var p := StripDigits(q / 10, s - 1);
      calc {
        p.0 * Pow10(s - p.1);
        p.0 * (10 * Pow10(s - 1 - p.1));
        { MulAssoc(p.0, 10, Pow10(s - 1 - p.1)); }
        (p.0 * 10) * Pow10(s - 1 - p.1);
        { MulAssoc(10, p.0, Pow10(s - 1 - p.1)); }
        10 * (p.0 * Pow10(s - 1 - p.1));
        q;
      }
    }
  }

  /** A number whose last unscaled digit is not zero is already stripped. */
  lemma StripWithoutTrailingZero(d: Dec)
    requires d.unscaled % 10 != 0
    ensures StripTrailingZeros(d) == d
  {
  }

  /** Each trailing zero removed lowers the scale by one. */
  lemma StripTrailingZero(q: int, s: int)
    requires q != 0
    ensures StripTrailingZeros(Dec(10 * q, s)) == StripTrailingZeros(Dec(q, s - 1))
  {
    assert (10 * q) % 10 == 0 && (10 * q) / 10 == q;
  }

  /** The decimal digits of n, without leading zeros ("0" for zero). */
  function DigitsOf(n: nat): (s: string)
    ensures |s| >= 1 && AllDigits(s)
    ensures n > 0 ==> s[0] != '0'
    decreases n
  {
    if n < 10 then [DigitChar(n)] else DigitsOf(n / 10) + [DigitChar(n % 10)]
  }

  /** The number written by a string of digits (leading zeros allowed). */
  function DigitsValue(s: string): nat
    requires AllDigits(s)
  {
    if s == [] then 0 else DigitsValue(s[..|s| - 1]) * 10 + DigitValue(s[|s| - 1])
  }

  lemma {:induction false} DigitsRoundTrip(n: nat)
    ensures DigitsValue(DigitsOf(n)) == n
    decreases n
  {
    if n >= 10 {
      var s := DigitsOf(n);
      assert s[..|s| - 1] == DigitsOf(n / 10);
      DigitsRoundTrip(n / 10);
    }
  }

  lemma {:induction false} LeadingZerosValue(k: nat, s: string)
    requires AllDigits(s)
    ensures AllDigits(Zeros(k) + s) && DigitsValue(Zeros(k) + s) == DigitsValue(s)
    decreases |s|
  {
    var z := Zeros(k) + s;
    if s == [] {
      assert z == Zeros(k);
      ZerosValue(k);
    } else {
      assert z[..|z| - 1] == Zeros(k) + s[..|s| - 1];
      LeadingZerosValue(k, s[..|s| - 1]);
    }
  }

  lemma {:induction false} ZerosValue(k: nat)
    ensures DigitsValue(Zeros(k)) == 0
  {
    if k > 0 {
      assert Zeros(k)[..k - 1] == Zeros(k - 1);
      ZerosValue(k - 1);
    }
  }

  /** The digits of n padded with leading zeros to at least `width` characters. */
  function Padded(n: nat, width: nat): (s: string)
    ensures AllDigits(s) && |s| >= width && DigitsValue(s) == n
  {
    var ds := DigitsOf(n);
    DigitsRoundTrip(n);
    var k := if |ds| < width then width - |ds| else 0;
    LeadingZerosValue(k, ds);
    Zeros(k) + ds
  }

  /**
   * BigDecimal.toPlainString: the value without exponent; a positive scale gives exactly
   * `scale` digits after the '.', a negative scale gives trailing zeros.
   */
  function ToPlainString(d: Dec): (s: string)
  {
    var sign := if d.unscaled < 0 then "-" else "";
    if d.scale <= 0 then
      if d.unscaled == 0 then "0" else sign + DigitsOf(Abs(d.unscaled)) + Zeros(-d.scale)
    else
      var p := Padded(Abs(d.unscaled), d.scale + 1);
      sign + p[..|p| - d.scale] + "." + p[|p| - d.scale..]
  }

  /** toPlainString of a zero at a positive scale: "0", the point, and that many zeros. */
  lemma ZeroPlainText(k: nat)
    requires k > 0
    ensures ToPlainString(Dec(0, k)) == "0" + "." + Zeros(k)
  {
    var ds := DigitsOf(0);
    assert ds == [DigitChar(0)] == "0";
    var p := Padded(0, k + 1);
    assert p == Zeros(k) + ds;
    assert p == Zeros(k + 1);
    assert p[..1] == "0";
    assert p[1..] == Zeros(k);
  }

  /**
   * The plain text is never empty, starts with '-' exactly for a negative value, and at a
   * positive scale has its '.' before exactly `scale` digits.
   */
  lemma PlainStringShape(d: Dec)
    ensures var s := ToPlainString(d);
      |s| >= 1 && (s[0] == '-' <==> d.unscaled < 0) &&
      (d.scale > 0 ==> |s| >= d.scale + 2 && s[|s| - d.scale - 1] == '.')
  {
  }

  /**
   * new BigDecimal(String) for plain notation: an optional sign, digits with at most one
   * '.', and at least one digit; the scale is the number of digits after the '.'.
   * None stands for NumberFormatException.
   */
  function Parse(s: string): (r: Option<Dec>)
    ensures r.Some? ==> r.value.scale >= 0
    ensures s == [] || s == "-" || s == "." ==> r == None
  {
    if s == [] then None
    else
      var body := if s[0] == '-' || s[0] == '+' then s[1..] else s;
      match ParseUnsigned(body)
      case None => None
      case Some(u) => Some(Dec(Signed(s[0] == '-', u.0), u.1))
  }

  function Signed(neg: bool, v: nat): int { if neg then -(v as int) else v }

  /** The digits and optional '.' after the sign: the unscaled magnitude and the scale. */
  function ParseUnsigned(body: string): (r: Option<(nat, nat)>)
    ensures body == [] || body == "." ==> r == None
  {
    var p := IndexOf(body, '.');
    var ip := if p == -1 then body else body[..p];
    var fp := if p == -1 then "" else body[p + 1..];
    if !AllDigits(ip) || !AllDigits(fp) || |ip| + |fp| == 0 then None
    else Some((DigitsValue(ip + fp), |fp|))
  }

  function SignText(neg: bool): string { if neg then "-" else "" }

  lemma ParseSigned(neg: bool, body: string)
    requires |body| >= 1 && IsDigit(body[0])
    ensures Parse(SignText(neg) + body) ==
      match ParseUnsigned(body)
      case None => None
      case Some(u) => Some(Dec(Signed(neg, u.0), u.1))
  {
    var s := SignText(neg) + body;
    if neg { assert s[1..] == body; } else { assert s == body; }
  }

  lemma NoPointInDigits(ip: string)
    requires AllDigits(ip)
    ensures '.' !in ip && IndexOf(ip, '.') == -1
  {
    assert forall i | 0 <= i < |ip| :: ip[i] != '.';
  }

  lemma {:induction false} IndexOfAfter(a: string, b: string, c: char)
    requires c !in a
    ensures IndexOf(a + b, c) == if IndexOf(b, c) == -1 then -1 else |a| + IndexOf(b, c)
  {
    if a == [] {
      assert a + b == b;
    } else {
      assert (a + b)[1..] == a[1..] + b;
      IndexOfAfter(a[1..], b, c);
    }
  }

  lemma ParseWithoutPoint(ip: string)
    requires AllDigits(ip) && |ip| >= 1
    ensures ParseUnsigned(ip) == Some((DigitsValue(ip), 0))
  {
    NoPointInDigits(ip);
    assert ip + "" == ip;
  }

  lemma ParseWithPoint(ip: string, fp: string)
    requires AllDigits(ip) && AllDigits(fp) && |ip| >= 1
    ensures ParseUnsigned(ip + "." + fp) == Some((DigitsValue(ip + fp), |fp|))
  {
    var body := ip + ("." + fp);
    assert body == ip + "." + fp;
    NoPointInDigits(ip);
    IndexOfAfter(ip, "." + fp, '.');
    var p := IndexOf(body, '.');
    assert p == |ip|;
    assert body[..p] == ip && body[p + 1..] == fp;
  }

  lemma PlainTextUnscaled(d: Dec)
    requires d.scale == 0 && d.unscaled != 0
    ensures ToPlainString(d) == SignText(d.unscaled < 0) + DigitsOf(Abs(d.unscaled))
  {
    var ds := DigitsOf(Abs(d.unscaled));
    assert ds + Zeros(0) == ds;
  }

  lemma ParseUnscaledText(d: Dec)
    requires d.scale == 0 && d.unscaled != 0
    ensures Parse(SignText(d.unscaled < 0) + DigitsOf(Abs(d.unscaled))) == Some(d)
  {
    var ds := DigitsOf(Abs(d.unscaled));
    ParseSigned(d.unscaled < 0, ds);
    ParseWithoutPoint(ds);
    DigitsRoundTrip(Abs(d.unscaled));
  }

  lemma ParseZeroText()
    ensures Parse(ToPlainString(Zero)) == Some(Zero)
  {
    assert ToPlainString(Zero) == SignText(false) + "0";
    ParseSigned(false, "0");
    ParseWithoutPoint("0");
    assert DigitsValue("0") == DigitsValue("") * 10 + 0;
  }

  /** The text of a positive-scale decimal: its padded digits with a '.' before the last `scale`. */
  lemma PlainTextScaled(d: Dec)
    requires d.scale > 0
    ensures var p := Padded(Abs(d.unscaled), d.scale + 1);
      ToPlainString(d) == SignText(d.unscaled < 0) + (p[..|p| - d.scale] + "." + p[|p| - d.scale..])
  {
  }

  lemma ParseSignedPoint(neg: bool, ip: string, fp: string)
    requires AllDigits(ip) && AllDigits(fp) && |ip| >= 1
    ensures Parse(SignText(neg) + (ip + "." + fp)) == Some(Dec(Signed(neg, DigitsValue(ip + fp)), |fp|))
  {
    ParseSigned(neg, ip + "." + fp);
    ParseWithPoint(ip, fp);
  }

  /** Printing a decimal of non-negative scale and parsing the text back gives it back exactly. */
  lemma PlainStringRoundTrip(d: Dec)
    requires d.scale >= 0
    ensures Parse(ToPlainString(d)) == Some(d)
  {
    if d.scale > 0 {
      PlainTextScaled(d);
      var p := Padded(Abs(d.unscaled), d.scale + 1);
      var k := |p| - d.scale;
      assert p[..k] + p[k..] == p;
      ParseSignedPoint(d.unscaled < 0, p[..k], p[k..]);
      assert Signed(d.unscaled < 0, DigitsValue(p)) == d.unscaled;
    } else if d.unscaled == 0 {
      ParseZeroText();
    } else {
      PlainTextUnscaled(d);
      ParseUnscaledText(d);
    }
  }
}

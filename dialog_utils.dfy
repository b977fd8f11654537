/**
 * The two value helpers shared by the dialogs: the bound test symmetric about zero and
 * the trailing-zero strip that also normalises zeros.
 */
module DialogUtils {
  import opened Wrappers
  import opened Decimal

  /** The magnitude of d, at d's scale. */
  function Magnitude(d: Dec): Dec
  {
    Dec(Abs(d.unscaled), d.scale)
  }

  /**
   * isValueOutOfBounds: false when there is no maximum, otherwise whether the value lies
   * above the maximum or below its negation.
   */
  function IsValueOutOfBounds(value: Dec, maxValue: Option<Dec>): (b: bool)
    ensures maxValue.None? ==> !b
  {
    maxValue.Some? && (Cmp(value, maxValue.value) > 0 || Cmp(value, Negate(maxValue.value)) < 0)
  }

  lemma ValueAtNegate(d: Dec, s: int)
    requires s >= d.scale
    ensures ValueAt(Negate(d), s) == -ValueAt(d, s)
  {
  }

  /** Negating both sides of a comparison reverses it. */
  lemma CmpNegate(a: Dec, b: Dec)
    ensures Cmp(Negate(a), Negate(b)) == -Cmp(a, b)
  {
    var s := Max(a.scale, b.scale);
    ValueAtNegate(a, s);
    ValueAtNegate(b, s);
  }

  /** The bound is symmetric: a value and its negation are out of bounds together. */
  lemma OutOfBoundsSymmetric(value: Dec, maxValue: Option<Dec>)
    ensures IsValueOutOfBounds(Negate(value), maxValue) == IsValueOutOfBounds(value, maxValue)
  {
    if maxValue.Some? {
      var m := maxValue.value;
      CmpNegate(value, m);
      CmpNegate(value, Negate(m));
      assert Negate(Negate(m)) == m;
    }
  }

  lemma NegatedProduct(u: int, p: nat)
    ensures Abs(u) * p == Abs(u * p)
  {
    if u < 0 {
      assert Abs(u) * p == -(u * p);
      MulNonneg(-u, p);
    } else {
      MulNonneg(u, p);
    }
  }

  lemma ValueAtMagnitude(d: Dec, s: int)
    requires s >= d.scale
    ensures ValueAt(Magnitude(d), s) == Abs(ValueAt(d, s))
  {
    NegatedProduct(d.unscaled, Pow10(s - d.scale));
  }

  /**
   * With a non-negative maximum (the settings store |max|), a value is out of bounds
   * exactly when its magnitude exceeds the maximum.
   */
  lemma OutOfBoundsIsMagnitudeAbove(value: Dec, max: Dec)
    requires max.unscaled >= 0
    ensures IsValueOutOfBounds(value, Some(max)) <==> Cmp(Magnitude(value), max) > 0
  {
    var s := Max(value.scale, max.scale);
    var x, m := ValueAt(value, s), ValueAt(max, s);
    MulNonneg(max.unscaled, Pow10(s - max.scale));
    ValueAtNegate(max, s);
    ValueAtMagnitude(value, s);
    assert Cmp(value, max) > 0 <==> x > m;
    assert Cmp(value, Negate(max)) < 0 <==> x < -m;
    assert Cmp(Magnitude(value), max) > 0 <==> Abs(x) > m;
  }

  /** A value at most max in magnitude, zero included, is never out of bounds. */
  lemma ZeroInBounds(max: Dec, s: int)
    requires max.unscaled >= 0
    ensures !IsValueOutOfBounds(Dec(0, s), Some(max))
  {
    OutOfBoundsIsMagnitudeAbove(Dec(0, s), max);
    var t := Max(s, max.scale);
    MulNonneg(max.unscaled, Pow10(t - max.scale));
  }

  /** A decimal compares equal to zero exactly when its unscaled part is zero. */
  lemma ZeroValued(d: Dec)
    ensures Cmp(d, Zero) == 0 <==> d.unscaled == 0
  {
    assert Signum(d) == Cmp(d, Zero);
  }

  /**
   * stripTrailingZeroes: any zero-valued input becomes the unscaled ZERO, any other value
   * loses its trailing zero digits and keeps its value.
   */
  function StripTrailingZeroes(from: Dec): (r: Dec)
    ensures Cmp(from, Zero) == 0 ==> r == Zero
    ensures Cmp(from, Zero) != 0 ==> SameValue(r, from) && r.unscaled % 10 != 0
  {
    ZeroValued(from);
    if Cmp(from, Zero) == 0 then Zero else StripTrailingZeros(from)
  }

  lemma TenTimesEndsInZero(q: int)
    ensures (10 * q) % 10 == 0
  {
  }

  lemma {:induction false} ShiftedEndsInZero(u: int, k: nat)
    requires k > 0
    ensures (u * Pow10(k)) % 10 == 0
  {
    var q := u * Pow10(k - 1);
    MulAssoc(u, 10, Pow10(k - 1));
    assert u * Pow10(k) == 10 * q;
    TenTimesEndsInZero(q);
  }

  lemma StrippedUniqueOrdered(a: Dec, b: Dec)
    requires a.unscaled % 10 != 0 && b.unscaled % 10 != 0
    requires a.scale <= b.scale && SameValue(a, b)
    ensures a == b
  {
    var k: nat := b.scale - a.scale;
    assert ValueAt(a, b.scale) == ValueAt(b, b.scale);
    assert ValueAt(b, b.scale) == b.unscaled * 1;
    if k > 0 {
      ShiftedEndsInZero(a.unscaled, k);
      assert false;
    }
  }

  lemma SameValueSymmetric(a: Dec, b: Dec)
    requires SameValue(a, b)
    ensures SameValue(b, a)
  {
    var m := Max(a.scale, b.scale);
    assert ValueAt(a, m) == ValueAt(b, m);
  }

  /** Two stripped forms of the same nonzero value are identical, scale included. */
  lemma StrippedUnique(a: Dec, b: Dec)
    requires a.unscaled % 10 != 0 && b.unscaled % 10 != 0
    requires SameValue(a, b)
    ensures a == b
  {
    if a.scale <= b.scale {
      StrippedUniqueOrdered(a, b);
    } else {
      SameValueSymmetric(a, b);
      StrippedUniqueOrdered(b, a);
    }
  }

  /** A zero value and a nonzero value are never equal. */
  lemma SameValueZero(a: Dec, b: Dec)
    requires SameValue(a, b)
    ensures a.unscaled == 0 <==> b.unscaled == 0
  {
    ZeroValued(a);
    ZeroValued(b);
    if a.unscaled == 0 {
      assert SameValue(b, a);
      SameValueTransitive(b, a, Zero);
    } else if b.unscaled == 0 {
      SameValueTransitive(a, b, Zero);
    }
  }

  /** The result depends only on the value: equal values strip to the same decimal. */
  lemma StripCanonical(a: Dec, b: Dec)
    requires SameValue(a, b)
    ensures StripTrailingZeroes(a) == StripTrailingZeroes(b)
  {
    ZeroValued(a);
    ZeroValued(b);
    SameValueZero(a, b);
    if a.unscaled != 0 {
      var ra, rb := StripTrailingZeroes(a), StripTrailingZeroes(b);
      SameValueTransitive(ra, a, b);
      SameValueTransitive(ra, b, rb);
      StrippedUnique(ra, rb);
    }
  }

  /** Stripping twice is stripping once. */
  lemma StripIdempotent(d: Dec)
    ensures StripTrailingZeroes(StripTrailingZeroes(d)) == StripTrailingZeroes(d)
  {
    var r := StripTrailingZeroes(d);
    ZeroValued(d);
    if d.unscaled != 0 {
      StripCanonical(r, d);
    }
  }
}

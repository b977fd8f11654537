/**
 * The settings object of the string-token generation (com.nmaltais.calcdialog.CalcSettings):
 * defaults and the validating setters the dialog forwards to it.
 */
module TokenSettings {
  import opened Wrappers
  import opened Decimal
  import opened DialogUtils

  /** CalcDialog.MAX_DIGITS_UNLIMITED */
  const MaxDigitsUnlimited: int := -1

  /** CalcDialog.FORMAT_CHAR_DEFAULT: take the separator from the locale. */
  const FormatCharDefault: char := 0 as char

  /** 1E10, the default maximum. */
  const DefaultMaxValue := Dec(1, -10)

  /** Every field of the settings, as one value. */
  datatype Fields = Fields(
    requestCode: int,
    initialValue: Option<Dec>,
    maxValue: Option<Dec>,
    maxIntDigits: int,
    maxFracDigits: int,
    roundingMode: RoundingMode,
    signCanBeChanged: bool,
    initialSign: int,
    clearOnOperation: bool,
    showZeroWhenNoValue: bool,
    showAnswerBtn: bool,
    showSignBtn: bool,
    decimalSep: char,
    groupSep: char,
    groupSize: int,
    preventLeadingZeroes: bool)

  /**
   * setValue's clamp: a value outside the bounds becomes the maximum when it is positive,
   * its negation otherwise; without a maximum, or within it, the value is kept.
   */
  function Clamped(value: Option<Dec>, maxValue: Option<Dec>): (r: Option<Dec>)
    ensures r.None? <==> value.None?
    ensures value.Some? && !IsValueOutOfBounds(value.value, maxValue) ==> r == value
    ensures value.Some? && IsValueOutOfBounds(value.value, maxValue) ==>
      r == (if Signum(value.value) > 0 then maxValue else Some(Negate(maxValue.value)))
  {
    if value.Some? && maxValue.Some? && IsValueOutOfBounds(value.value, maxValue) then
      if Cmp(value.value, Zero) > 0 then maxValue else Some(Negate(maxValue.value))
    else value
  }

  /** A maximum that is not negative lies within its own bounds, and so does its negation. */
  lemma BoundsHold(m: Dec)
    requires Signum(m) >= 0
    ensures !IsValueOutOfBounds(m, Some(m)) && !IsValueOutOfBounds(Negate(m), Some(m))
  {
    var s := Max(m.scale, 0);
    assert ValueAt(Zero, s) == 0;
    assert ValueAt(m, s) >= 0;
    assert ValueAt(Negate(m), s) == -ValueAt(m, s);
  }

  /** With a maximum that is not negative, setValue always stores a value within the bounds. */
  lemma ClampedInBounds(value: Dec, maxValue: Option<Dec>)
    requires maxValue.None? || Signum(maxValue.value) >= 0
    ensures !IsValueOutOfBounds(Clamped(Some(value), maxValue).value, maxValue)
  {
    if maxValue.Some? {
      BoundsHold(maxValue.value);
    }
  }

  /** setMaxValue's sign fix: a negative maximum is negated. */
  function NonNegative(maxValue: Option<Dec>): (r: Option<Dec>)
    ensures r.None? <==> maxValue.None?
    ensures r.Some? ==> Signum(r.value) >= 0 && SameValue(Magnitude(r.value), Magnitude(maxValue.value))
  {
    if maxValue.Some? && Cmp(maxValue.value, Zero) < 0 then
      var m := maxValue.value;
      assert Magnitude(Negate(m)) == Magnitude(m);
      Some(Negate(m))
    else maxValue
  }

  /** setMaxValue's replacement: an initial value outside the new bounds becomes the maximum. */
  function Refitted(initialValue: Option<Dec>, maxValue: Option<Dec>): (r: Option<Dec>)
  {
    if initialValue.Some? && IsValueOutOfBounds(initialValue.value, maxValue) then maxValue else initialValue
  }

  /**
   * After setMaxValue the maximum is not negative and the initial value, if any, lies within
   * the bounds (it is replaced by the maximum itself, positive whatever its sign).
   */
  lemma RefittedInBounds(initialValue: Option<Dec>, maxValue: Option<Dec>)
    ensures var m := NonNegative(maxValue); var v := Refitted(initialValue, m);
      (v.Some? ==> !IsValueOutOfBounds(v.value, m)) &&
      (initialValue.Some? && IsValueOutOfBounds(initialValue.value, m) ==> v == m) &&
      (initialValue.Some? && !IsValueOutOfBounds(initialValue.value, m) ==> v == initialValue)
  {
    var m := NonNegative(maxValue);
    if m.Some? {
      BoundsHold(m.value);
    }
  }

  /** setMaxDigits' check: each limit is UNLIMITED, or at least 1 for the integer part and 0 for the fraction. */
  predicate ValidMaxDigits(intPart: int, fracPart: int)
  {
    !((intPart != MaxDigitsUnlimited && intPart < 1) || (fracPart != MaxDigitsUnlimited && fracPart < 0))
  }

  /** setFormatSymbols' check: the two separators differ unless the decimal one is the default. */
  predicate ValidFormatSymbols(decimalSep: char, groupSep: char)
  {
    !(decimalSep != FormatCharDefault && decimalSep == groupSep)
  }

  class CalcSettings {
    var requestCode: int
    var initialValue: Option<Dec>
    var maxValue: Option<Dec>
    var maxIntDigits: int
    var maxFracDigits: int
    var roundingMode: RoundingMode
    var signCanBeChanged: bool
    var initialSign: int
    var clearOnOperation: bool
    var showZeroWhenNoValue: bool
    var showAnswerBtn: bool
    var showSignBtn: bool
    var decimalSep: char
    var groupSep: char
    var groupSize: int
    var preventLeadingZeroes: bool

    function Snapshot(): Fields
      reads this
    {
      Fields(requestCode, initialValue, maxValue, maxIntDigits, maxFracDigits, roundingMode,
        signCanBeChanged, initialSign, clearOnOperation, showZeroWhenNoValue, showAnswerBtn,
        showSignBtn, decimalSep, groupSep, groupSize, preventLeadingZeroes)
    }

    /**
     * The defaults: at most 1E10, 10 integer and 8 fraction digits, HALF_UP, the locale's
     * separators with groups of 3, the sign free to change, a zero shown, and the sign button
     * but no answer button. Fields the constructor leaves alone keep Java's zero defaults.
     */
    constructor ()
      ensures Snapshot() == Fields(0, None, Some(DefaultMaxValue), 10, 8, HalfUp, true, 0, false,
        true, false, true, FormatCharDefault, FormatCharDefault, 3, false)
    {
      requestCode := 0;
      initialValue := None;
      maxValue := Some(DefaultMaxValue);
      maxIntDigits := 10;
      maxFracDigits := 8;
      roundingMode := HalfUp;
      signCanBeChanged := true;
      initialSign := 0;
      clearOnOperation := false;
      showZeroWhenNoValue := true;
      showAnswerBtn := false;
      showSignBtn := true;
      decimalSep := FormatCharDefault;
      groupSep := FormatCharDefault;
      groupSize := 3;
      preventLeadingZeroes := false;
    }

    /** The initial value respects the bounds. */
    predicate InitialInBounds()
      reads this
    {
      initialValue.None? || !IsValueOutOfBounds(initialValue.value, maxValue)
    }

    /** setValue: the value is stored clamped to the current bounds. */
    method SetValue(value: Option<Dec>)
      modifies this
      ensures Snapshot() == old(Snapshot()).(initialValue := Clamped(value, old(maxValue)))
      ensures maxValue.None? || Signum(maxValue.value) >= 0 ==> InitialInBounds()
    {
      if value.Some? && (maxValue.None? || Signum(maxValue.value) >= 0) {
        ClampedInBounds(value.value, maxValue);
      }
      initialValue := Clamped(value, maxValue);
    }

    /** setMaxValue: the maximum is stored as a magnitude, then an initial value outside it is replaced. */
    method SetMaxValue(max: Option<Dec>)
      modifies this
      ensures Snapshot() == old(Snapshot()).(maxValue := NonNegative(max),
        initialValue := Refitted(old(initialValue), NonNegative(max)))
      ensures InitialInBounds()
    {
      RefittedInBounds(initialValue, max);
      maxValue := NonNegative(max);
      initialValue := Refitted(initialValue, maxValue);
    }

    /** setMaxDigits: IllegalArgumentException, changing nothing, unless both limits are valid. */
    method SetMaxDigits(intPart: int, fracPart: int) returns (thrown: Option<Fault>)
      modifies this
      ensures !ValidMaxDigits(intPart, fracPart) ==>
        thrown == Some(IllegalArgument) && Snapshot() == old(Snapshot())
      ensures ValidMaxDigits(intPart, fracPart) ==>
        thrown == None && Snapshot() == old(Snapshot()).(maxIntDigits := intPart, maxFracDigits := fracPart)
    {
      if (intPart != MaxDigitsUnlimited && intPart < 1) || (fracPart != MaxDigitsUnlimited && fracPart < 0) {
        return Some(IllegalArgument);
      }
      maxIntDigits := intPart;
      maxFracDigits := fracPart;
      return None;
    }

    /** setRoundingMode: UNNECESSARY is refused, any other mode stored. */
    method SetRoundingMode(mode: RoundingMode) returns (thrown: Option<Fault>)
      modifies this
      ensures mode == Unnecessary ==> thrown == Some(IllegalArgument) && Snapshot() == old(Snapshot())
      ensures mode != Unnecessary ==> thrown == None && Snapshot() == old(Snapshot()).(roundingMode := mode)
    {
      if mode == Unnecessary {
        return Some(IllegalArgument);
      }
      roundingMode := mode;
      return None;
    }

    /**
     * setSignCanBeChanged: the flag is stored first; a locked sign must then be -1 or 1 and
     * is recorded, while a free sign leaves the recorded one as it was.
     */
    method SetSignCanBeChanged(canBeChanged: bool, sign: int) returns (thrown: Option<Fault>)
      modifies this
      ensures canBeChanged ==> thrown == None && Snapshot() == old(Snapshot()).(signCanBeChanged := true)
      ensures !canBeChanged && sign != -1 && sign != 1 ==>
        thrown == Some(IllegalArgument) && Snapshot() == old(Snapshot()).(signCanBeChanged := false)
      ensures !canBeChanged && (sign == -1 || sign == 1) ==>
        thrown == None && Snapshot() == old(Snapshot()).(signCanBeChanged := false, initialSign := sign)
    {
      signCanBeChanged := canBeChanged;
      if !signCanBeChanged {
        if sign != -1 && sign != 1 {
          return Some(IllegalArgument);
        }
        initialSign := sign;
      }
      return None;
    }

    /** setFormatSymbols: equal separators are refused unless the decimal one is the default. */
    method SetFormatSymbols(decimal: char, group: char) returns (thrown: Option<Fault>)
      modifies this
      ensures !ValidFormatSymbols(decimal, group) ==>
        thrown == Some(IllegalArgument) && Snapshot() == old(Snapshot())
      ensures ValidFormatSymbols(decimal, group) ==>
        thrown == None && Snapshot() == old(Snapshot()).(decimalSep := decimal, groupSep := group)
    {
      if decimal != FormatCharDefault && decimal == group {
        return Some(IllegalArgument);
      }
      decimalSep := decimal;
      groupSep := group;
      return None;
    }

    /** setGroupSize: a negative size is refused; 0 turns grouping off. */
    method SetGroupSize(size: int) returns (thrown: Option<Fault>)
      modifies this
      ensures size < 0 ==> thrown == Some(IllegalArgument) && Snapshot() == old(Snapshot())
      ensures size >= 0 ==> thrown == None && Snapshot() == old(Snapshot()).(groupSize := size)
    {
      if size < 0 {
        return Some(IllegalArgument);
      }
      groupSize := size;
      return None;
    }
  }
}

/**
 * The settings object of the current dialog generation (com.maltaisn.calcdialog.CalcSettings):
 * defaults, the bound check run when the dialog attaches, the number format setter that
 * moves the format's integer-digit limit into the settings, and the chaining setters.
 */
module LibSettings {
  import opened Wrappers
  import opened Decimal

  /** Integer.MAX_VALUE */
  const IntegerMaxValue: int := 0x7fff_ffff

  /** -1E10 and 1E10, the default bounds. */
  const DefaultMinValue := Dec(-1, -10)
  const DefaultMaxValue := Dec(1, -10)

  /** CalcNumpadLayout: whether 789 or 123 is the top row. */
  datatype NumpadLayout = Calculator | Phone

  /**
   * The fields of java.text.NumberFormat that the calculator reads or writes. How the
   * format renders a number is not part of this class.
   */
  class NumberFormat {
    var maximumIntegerDigits: int
    var maximumFractionDigits: int
    var minimumFractionDigits: int
    var roundingMode: RoundingMode

    constructor (maxInt: int, maxFrac: int, minFrac: int, mode: RoundingMode)
      ensures maximumIntegerDigits == maxInt && maximumFractionDigits == maxFrac
      ensures minimumFractionDigits == minFrac && roundingMode == mode
    {
      maximumIntegerDigits := maxInt;
      maximumFractionDigits := maxFrac;
      minimumFractionDigits := minFrac;
      roundingMode := mode;
    }
  }

  /** Every field of the settings, as one value. */
  datatype Fields = Fields(
    requestCode: int,
    nbFormat: NumberFormat,
    maxIntDigits: int,
    numpadLayout: NumpadLayout,
    isExpressionShown: bool,
    isZeroShownWhenNoValue: bool,
    isAnswerBtnShown: bool,
    isSignBtnShown: bool,
    isExpressionEditable: bool,
    shouldEvaluateOnOperation: bool,
    initialValue: Option<Dec>,
    minValue: Option<Dec>,
    maxValue: Option<Dec>,
    isOrderOfOperationsApplied: bool)

  class CalcSettings {
    var requestCode: int
    var nbFormat: NumberFormat
    var maxIntDigits: int
    var numpadLayout: NumpadLayout
    var isExpressionShown: bool
    var isZeroShownWhenNoValue: bool
    var isAnswerBtnShown: bool
    var isSignBtnShown: bool
    var isExpressionEditable: bool
    var shouldEvaluateOnOperation: bool
    var initialValue: Option<Dec>
    var minValue: Option<Dec>
    var maxValue: Option<Dec>
    var isOrderOfOperationsApplied: bool

    function Snapshot(): Fields
      reads this
    {
      Fields(requestCode, nbFormat, maxIntDigits, numpadLayout, isExpressionShown,
        isZeroShownWhenNoValue, isAnswerBtnShown, isSignBtnShown, isExpressionEditable,
        shouldEvaluateOnOperation, initialValue, minValue, maxValue, isOrderOfOperationsApplied)
    }

    /**
     * The defaults. The locale's default format is taken to round HALF_EVEN with no
     * minimum fraction digits; the constructor then lifts its integer-digit limit and
     * allows eight fraction digits.
     */
    constructor ()
      ensures fresh(nbFormat)
      ensures Snapshot() == Fields(0, nbFormat, 10, Calculator, false, true, false, true, false,
        false, None, Some(DefaultMinValue), Some(DefaultMaxValue), true)
      ensures nbFormat.maximumIntegerDigits == IntegerMaxValue && nbFormat.maximumFractionDigits == 8
      ensures nbFormat.minimumFractionDigits == 0 && nbFormat.roundingMode == HalfEven
    {
      requestCode := 0;
      nbFormat := new NumberFormat(IntegerMaxValue, 8, 0, HalfEven);
      maxIntDigits := 10;
      numpadLayout := Calculator;
      isExpressionShown := false;
      isZeroShownWhenNoValue := true;
      isAnswerBtnShown := false;
      isSignBtnShown := true;
      isExpressionEditable := false;
      shouldEvaluateOnOperation := false;
      initialValue := None;
      minValue := Some(DefaultMinValue);
      maxValue := Some(DefaultMaxValue);
      isOrderOfOperationsApplied := true;
    }

    /**
     * validate: IllegalArgumentException when both bounds are set and the minimum is not
     * below the maximum.
     */
    function Validate(): (r: Option<Fault>)
      reads this
      ensures r.Some? ==> r.value == IllegalArgument
      ensures r.None? ==> forall v :: !(IsAboveMax(v) && IsBelowMin(v))
    {
      if minValue.Some? && maxValue.Some? && Cmp(minValue.value, maxValue.value) >= 0 then
        Some(IllegalArgument)
      else
        NoValueOutsideBoth();
        None
    }

    predicate IsAboveMax(v: Dec)
      reads this
    {
      maxValue.Some? && Cmp(v, maxValue.value) > 0
    }

    predicate IsBelowMin(v: Dec)
      reads this
    {
      minValue.Some? && Cmp(v, minValue.value) < 0
    }

    lemma NoValueOutsideBoth()
      requires !(minValue.Some? && maxValue.Some? && Cmp(minValue.value, maxValue.value) >= 0)
      ensures forall v :: !(IsAboveMax(v) && IsBelowMin(v))
    {
      forall v | IsAboveMax(v)
        ensures !IsBelowMin(v)
      {
        if minValue.Some? {
          var lo, hi := minValue.value, maxValue.value;
          var s := Max(v.scale, Max(lo.scale, hi.scale));
          assert ValueAt(v, s) > ValueAt(hi, s) > ValueAt(lo, s);
        }
      }
    }

    /** The default bounds pass validation: -1E10 is below 1E10. */
    lemma DefaultsValid()
      requires minValue == Some(DefaultMinValue) && maxValue == Some(DefaultMaxValue)
      ensures Validate().None?
    {
      assert ValueAt(DefaultMinValue, 0) < 0 < ValueAt(DefaultMaxValue, 0);
    }

    /**
     * setNumberFormat: a format rounding UNNECESSARY is refused and nothing changes;
     * otherwise the format is kept, its integer-digit limit becomes the limit on typed
     * integer digits, and the format itself is set to show any number of integer digits.
     */
    method SetNumberFormat(format: NumberFormat) returns (r: Result<CalcSettings>)
      modifies this, format
      ensures old(format.roundingMode) == Unnecessary ==>
        r == Err(IllegalArgument) && Snapshot() == old(Snapshot()) && unchanged(format)
      ensures old(format.roundingMode) != Unnecessary ==>
        r == Ok(this) &&
        Snapshot() == old(Snapshot()).(nbFormat := format, maxIntDigits := old(format.maximumIntegerDigits)) &&
        format.maximumIntegerDigits == IntegerMaxValue &&
        format.maximumFractionDigits == old(format.maximumFractionDigits) &&
        format.minimumFractionDigits == old(format.minimumFractionDigits) &&
        format.roundingMode == old(format.roundingMode)
    {
      if format.roundingMode == Unnecessary {
        return Err(IllegalArgument);
      }
      nbFormat := format;
      maxIntDigits := nbFormat.maximumIntegerDigits;
      nbFormat.maximumIntegerDigits := IntegerMaxValue;
      return Ok(this);
    }

    method SetRequestCode(code: int) returns (r: CalcSettings)
      modifies this
      ensures r == this && Snapshot() == old(Snapshot()).(requestCode := code)
    {
      requestCode := code;
      return this;
    }

    method SetNumpadLayout(layout: NumpadLayout) returns (r: CalcSettings)
      modifies this
      ensures r == this && Snapshot() == old(Snapshot()).(numpadLayout := layout)
    {
      numpadLayout := layout;
      return this;
    }

    method SetExpressionShown(shown: bool) returns (r: CalcSettings)
      modifies this
      ensures r == this && Snapshot() == old(Snapshot()).(isExpressionShown := shown)
    {
      isExpressionShown := shown;
      return this;
    }

    method SetExpressionEditable(editable: bool) returns (r: CalcSettings)
      modifies this
      ensures r == this && Snapshot() == old(Snapshot()).(isExpressionEditable := editable)
    {
      isExpressionEditable := editable;
      return this;
    }

    method SetZeroShownWhenNoValue(shown: bool) returns (r: CalcSettings)
      modifies this
      ensures r == this && Snapshot() == old(Snapshot()).(isZeroShownWhenNoValue := shown)
    {
      isZeroShownWhenNoValue := shown;
      return this;
    }

    method SetAnswerBtnShown(shown: bool) returns (r: CalcSettings)
      modifies this
      ensures r == this && Snapshot() == old(Snapshot()).(isAnswerBtnShown := shown)
    {
      isAnswerBtnShown := shown;
      return this;
    }

    method SetSignBtnShown(shown: bool) returns (r: CalcSettings)
      modifies this
      ensures r == this && Snapshot() == old(Snapshot()).(isSignBtnShown := shown)
    {
      isSignBtnShown := shown;
      return this;
    }

    method SetShouldEvaluateOnOperation(evaluate: bool) returns (r: CalcSettings)
      modifies this
      ensures r == this && Snapshot() == old(Snapshot()).(shouldEvaluateOnOperation := evaluate)
    {
      shouldEvaluateOnOperation := evaluate;
      return this;
    }

    method SetInitialValue(value: Option<Dec>) returns (r: CalcSettings)
      modifies this
      ensures r == this && Snapshot() == old(Snapshot()).(initialValue := value)
    {
      initialValue := value;
      return this;
    }

    method SetMinValue(value: Option<Dec>) returns (r: CalcSettings)
      modifies this
      ensures r == this && Snapshot() == old(Snapshot()).(minValue := value)
    {
      minValue := value;
      return this;
    }

    method SetMaxValue(value: Option<Dec>) returns (r: CalcSettings)
      modifies this
      ensures r == this && Snapshot() == old(Snapshot()).(maxValue := value)
    {
      maxValue := value;
      return this;
    }

    method SetOrderOfOperationsApplied(applied: bool) returns (r: CalcSettings)
      modifies this
      ensures r == this && Snapshot() == old(Snapshot()).(isOrderOfOperationsApplied := applied)
    {
      isOrderOfOperationsApplied := applied;
      return this;
    }
  }
}

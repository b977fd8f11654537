/**
 * The presenter of the current dialog generation (com.maltaisn.calcdialog.CalcPresenter):
 * the value being typed, the edit flags, the error code and the expression the keys build.
 * Each key handler is specified by a function from the presenter's state before the key to
 * its state after it; the view calls it makes are added, in order, to a log of events.
 */
module LibPresenter {
  import opened Wrappers
  import opened Text
  import opened Decimal
  import opened CalcExpression
  import opened ValueText
  import LibSettings

  /** ERROR_NONE, ERROR_DIV_ZERO, ERROR_OUT_OF_BOUNDS, ERROR_WRONG_SIGN_POS, ERROR_WRONG_SIGN_NEG. */
  datatype ErrorCode = NoError | DivZero | OutOfBounds | WrongSignPos | WrongSignNeg

  /** The calls the presenter makes on its view. */
  datatype ViewEvent =
    | ExpressionVisible(visible: bool)
    | DecimalSepBtnEnabled(enabled: bool)
    | AnswerBtnVisible(visible: bool)
    | SignBtnVisible(visible: bool)
    | CurrentValueShown(value: Option<Dec>, fractionDigits: int)  // rendered by the number format
    | AnswerTextShown
    | ExpressionShown(numbers: seq<Dec>, operators: seq<Operator>, isResult: bool)  // text: ShownText
    | ErrorTextShown(code: ErrorCode)
    | ValueSent(value: Option<Dec>)
    | Exited

  /** The view calls made so far: `Then(log, e)` is the calls of `log` followed by e. */
  datatype Log = Empty | Then(before: Log, last: ViewEvent)

  /**
   * The settings the presenter reads, as they stand once the dialog has attached, with the
   * number format's fraction-digit limit and rounding mode, and its rendering as `format`.
   */
  datatype Config = Config(
    maxIntDigits: int,
    maxFracDigits: int,
    roundingMode: RoundingMode,
    minValue: Option<Dec>,
    maxValue: Option<Dec>,
    isOrderOfOperationsApplied: bool,
    isZeroShownWhenNoValue: bool,
    isExpressionShown: bool,
    isAnswerBtnShown: bool,
    isSignBtnShown: bool,
    isExpressionEditable: bool,
    shouldEvaluateOnOperation: bool,
    format: Dec -> string)

  /** The presenter's fields, the two lists of its expression, and the view calls so far. */
  datatype State = State(
    numbers: seq<Dec>,
    operators: seq<Operator>,
    currentValue: Option<Dec>,
    resultValue: Option<Dec>,
    currentValueScale: int,
    errorCode: ErrorCode,
    currentIsAnswer: bool,
    currentIsResult: bool,
    canEditCurrentValue: bool,
    canEditExpression: bool,
    view: Log)

  /** The expression has as many operators as numbers, or one fewer. */
  predicate WellShaped(s: State)
  {
    |s.numbers| == |s.operators| || |s.numbers| == |s.operators| + 1
  }

  /**
   * What every handler keeps: a well-shaped expression with as many operators as numbers
   * when it can be edited; the typed scale is -1 when there is no value to edit; an
   * editable value has no more fraction digits than the typed scale shows, so that
   * setScale(max(0, scale), UNNECESSARY) cannot throw.
   */
  predicate Inv(s: State)
  {
    && WellShaped(s)
    && (s.canEditExpression ==> |s.numbers| == |s.operators|)
    && s.currentValueScale >= -1
    && (s.currentValue.None? ==> s.currentValueScale == -1)
    && (!s.canEditCurrentValue ==> s.currentValueScale == -1)
    && (s.canEditCurrentValue && s.currentValue.Some? ==>
          s.currentValue.value.scale <= Max(0, s.currentValueScale))
  }

  /** The state without its view log, for comparing the effect of two key sequences. */
  function Fields(s: State): State
  {
    s.(view := Empty)
  }

  function Show(s: State, e: ViewEvent): (r: State)
    ensures Fields(r) == Fields(s)
  {
    s.(view := Then(s.view, e))
  }

  function OrZero(v: Option<Dec>): Dec
  {
    if v.None? then Zero else v.value
  }

  predicate HasError(s: State) { s.errorCode != NoError }

  /**
   * getCurrentValueString: "" for no value, else the typed text of the value, which
   * ValueStringIsPlainText shows to be toPlainString of setScale(max(0, scale), UNNECESSARY)
   * with a '.' added for a bare point.
   */
  function ValueString(v: Option<Dec>, scale: int): (t: string)
    requires v.Some? ==> v.value.scale <= Max(0, scale)
    ensures v.None? <==> t == ""
  {
    if v.None? then ""
    else
      var u := ValueAt(v.value, Max(0, scale));
      TypedErase(u, scale);
      Typed(u, scale)
  }

  lemma ValueStringIsPlainText(v: Dec, scale: int)
    requires v.scale <= Max(0, scale)
    ensures SetScale(v, Max(0, scale), Unnecessary).Ok?
    ensures ValueString(Some(v), scale) ==
      ToPlainString(SetScale(v, Max(0, scale), Unnecessary).value) + (if scale == 0 then "." else "")
  {
    SetScaleUp(v, Max(0, scale), Unnecessary);
  }

  /** updateCurrentValue: the answer text, or the value (zero for none, if so set). */
  function CurrentValueUpdated(c: Config, s: State): (r: State)
    ensures Fields(r) == Fields(s)
  {
    if s.currentIsAnswer then Show(s, AnswerTextShown)
    else
      var value := if s.currentValue.None? && c.isZeroShownWhenNoValue then Some(Zero) else s.currentValue;
      Show(s, CurrentValueShown(value, s.currentValueScale))
  }

  /**
   * updateExpression: the view is given the expression as it stands; the text it shows is
   * ShownText of that event.
   */
  function ExpressionUpdated(c: Config, s: State): (r: State)
    ensures Fields(r) == Fields(s)
  {
    if c.isExpressionShown then Show(s, ExpressionShown(s.numbers, s.operators, s.currentIsResult)) else s
  }

  /** The text of an ExpressionShown event: the formatted expression, and " =" after a result. */
  function ShownText(fmt: Dec -> string, numbers: seq<Dec>, operators: seq<Operator>, isResult: bool): (t: string)
    ensures isResult ==> |t| >= 2 && t[|t| - 2..] == " ="
    ensures numbers == [] ==> t == (if isResult then " =" else "")
  {
    DropLast(Pieces(numbers, operators, 0, fmt)) + (if isResult then " =" else "")
  }

  /** clearExpressionIfNeeded: a calculated expression is emptied before it is edited. */
  function ClearedExpression(c: Config, s: State): (r: State)
    ensures s.canEditExpression ==> r == s
    ensures !s.canEditExpression ==>
      Fields(r) == Fields(s).(numbers := [], operators := [], canEditExpression := true, currentIsResult := false)
    ensures Inv(s) ==> Inv(r) && |r.numbers| == |r.operators|
  {
    if !s.canEditExpression then
      ExpressionUpdated(c, s.(numbers := [], operators := [], canEditExpression := true, currentIsResult := false))
    else s
  }

  /** dismissError, whose boolean result is HasError of the state it starts from. */
  function ErrorDismissed(c: Config, s: State): (r: State)
    ensures HasError(s) ==> Fields(r) == Fields(s).(errorCode := NoError)
    ensures !HasError(s) ==> r == s
    ensures Inv(s) ==> Inv(r)
  {
    if HasError(s) then CurrentValueUpdated(c, s.(errorCode := NoError)) else s
  }

  /** The answer flag is dropped and the answer button hidden. */
  function AnswerDismissed(s: State): (r: State)
    ensures Fields(r) == Fields(s).(currentIsAnswer := false)
  {
    Show(s.(currentIsAnswer := false), AnswerBtnVisible(false))
  }

  /** A value that cannot be edited gives way to a new, empty one. */
  function ValueDiscarded(s: State): (r: State)
    ensures Fields(r) == Fields(s).(currentValue := None, canEditCurrentValue := true, currentValueScale := -1)
  {
    s.(currentValue := None, canEditCurrentValue := true, currentValueScale := -1)
  }

  /** dismissOldValue: the error and the answer go, and a value that cannot be edited too. */
  function OldValueDismissed(c: Config, s: State): (r: State)
    ensures var d := Fields(s).(errorCode := NoError, currentIsAnswer := false);
      Fields(r) ==
        if s.canEditCurrentValue then d
        else d.(currentValue := None, canEditCurrentValue := true, currentValueScale := -1)
    ensures Inv(s) ==> Inv(r)
  {
    var s1 := AnswerDismissed(ErrorDismissed(c, s));
    if !s1.canEditCurrentValue then ValueDiscarded(s1) else s1
  }

  /** reset: every field back to its initial value (no error, no value, an empty editable expression). */
  function ResetState(s: State): (r: State)
    ensures Inv(r)
    ensures Fields(r) == Fields(Unattached).(errorCode := NoError, currentValueScale := -1, canEditExpression := true)
  {
    Show(s.(numbers := [], operators := [], currentValue := None, resultValue := None,
      currentValueScale := -1, errorCode := NoError, currentIsAnswer := false,
      currentIsResult := false, canEditCurrentValue := false, canEditExpression := true),
      AnswerBtnVisible(false))
  }

  /** setError: the values and edit flags are cleared, the expression is kept. */
  function WithError(s: State, e: ErrorCode): (r: State)
    ensures Fields(r) == Fields(s).(errorCode := e, currentValue := None, resultValue := None,
      currentValueScale := -1, currentIsAnswer := false, canEditCurrentValue := false, canEditExpression := false)
    ensures WellShaped(s) ==> Inv(r)
  {
    Show(s.(errorCode := e, currentValue := None, resultValue := None, currentValueScale := -1,
      currentIsAnswer := false, canEditCurrentValue := false, canEditExpression := false),
      ErrorTextShown(e))
  }

  /** The value of the presenter's expression under the configured order, scale and rounding. */
  function Evaluated(c: Config, s: State): Result<Dec>
  {
    Evaluation(s.numbers, s.operators, c.isOrderOfOperationsApplied, c.maxFracDigits, c.roundingMode)
  }

  /** calculate: the expression's value becomes the current value; an arithmetic fault is DIV_ZERO. */
  function Calculated(c: Config, s: State): (r: State)
    requires |s.numbers| == |s.operators| + 1
    ensures Evaluated(c, s).Ok? ==> Fields(r) == Fields(s).(currentValue := Some(Evaluated(c, s).value),
      currentValueScale := -1, currentIsAnswer := false, canEditCurrentValue := false)
    ensures Evaluated(c, s).Err? ==> r == WithError(s, DivZero)
  {
    match Evaluated(c, s)
    case Err(_) => WithError(s, DivZero)
    case Ok(v) => s.(currentValue := Some(v), currentValueScale := -1, currentIsAnswer := false,
      canEditCurrentValue := false)
  }

  /** Whether equal and an operator drop or replace the last operator: after a computed value. */
  predicate AfterComputed(s: State)
  {
    !s.currentIsAnswer && !s.canEditCurrentValue && |s.operators| > 0
  }

  /** The value (zero for none) appended to the expression's numbers. */
  function ValueAppended(s: State): (r: State)
    ensures Fields(r) ==
      Fields(s).(currentValue := Some(OrZero(s.currentValue)), numbers := s.numbers + [OrZero(s.currentValue)])
  {
    s.(currentValue := Some(OrZero(s.currentValue)), numbers := s.numbers + [OrZero(s.currentValue)])
  }

  /** The expression equal evaluates: the dangling operator dropped, or the value (zero for none) appended. */
  function Closed(s: State): (r: State)
    requires |s.numbers| == |s.operators|
    ensures |r.numbers| == |r.operators| + 1
    ensures AfterComputed(s) ==> Fields(r) == Fields(s).(operators := s.operators[..|s.operators| - 1])
    ensures !AfterComputed(s) ==>
      Fields(r) == Fields(s).(currentValue := Some(OrZero(s.currentValue)), numbers := s.numbers + [OrZero(s.currentValue)])
  {
    if AfterComputed(s) then s.(operators := s.operators[..|s.operators| - 1]) else ValueAppended(s)
  }

  /** After equal's calculation: a value is kept as the result; the expression is closed to edits. */
  function ResultStored(c: Config, s: State): (r: State)
    ensures Fields(r) ==
      if s.errorCode == NoError then
        Fields(s).(resultValue := s.currentValue, currentIsResult := true, currentValueScale := -1,
          canEditExpression := false)
      else Fields(s).(canEditExpression := false)
  {
    var s3 :=
      if s.errorCode == NoError then
        CurrentValueUpdated(c, s.(resultValue := s.currentValue, currentIsResult := true, currentValueScale := -1))
      else s;
    s3.(canEditExpression := false)
  }

  /**
   * equal: the closed expression is evaluated; its value becomes both the current and the
   * result value, or the error is DIV_ZERO; the expression can no longer be edited.
   */
  function Equaled(c: Config, s: State): (r: State)
    requires |s.numbers| == |s.operators|
    ensures Inv(r) && !r.canEditExpression
    ensures r.numbers == Closed(s).numbers && r.operators == Closed(s).operators
    ensures Evaluated(c, Closed(s)).Ok? && !HasError(s) ==>
      !HasError(r) && r.currentValue == r.resultValue == Some(Evaluated(c, Closed(s)).value) &&
      r.currentIsResult && r.currentValueScale == -1 && !r.canEditCurrentValue
    ensures Evaluated(c, Closed(s)).Err? ==>
      r.errorCode == DivZero && r.currentValue.None? && r.resultValue.None?
  {
    ExpressionUpdated(c, ResultStored(c, Calculated(c, Closed(s))))
  }

  /** The typed scale after popping a number off the expression: -1 for a scale of 0 or less. */
  function PoppedScale(x: Dec): (k: int)
    ensures k >= -1 && x.scale <= Max(0, k)
    ensures k == -1 <==> x.scale <= 0
  {
    if x.scale <= 0 then -1 else x.scale
  }

  /**
   * The popped scale as onErasedOnce computes it: only a scale of exactly 0 becomes -1, so
   * a number with a negative scale, such as a calculated 1E+2, keeps that scale.
   */
  function PoppedScaleAsWritten(x: Dec): int
  {
    if x.scale == 0 then -1 else x.scale
  }

  /**
   * As written, popping 1E+2 leaves a typed scale of -2: the state breaks Inv, the typed text
   * "100" has no point, and the point key still does nothing.
   */
  lemma PoppedHundredAsWritten(c: Config)
    ensures var x := Dec(1, -2);
      var k := PoppedScaleAsWritten(x);
      var s := State([], [], Some(x), None, k, NoError, false, false, true, true, Empty);
      var r := DecimalSepPressed(c, s);
      k == -2 && !Inv(s) && IndexOf(ValueString(Some(x), k), '.') == -1 &&
      r.currentValue == Some(x) && r.currentValueScale == k
  {
    TypedPoint(100, -2);
  }

  /** With the corrected scale, the popped number's text has no point exactly when the point key acts. */
  lemma PoppedPointKey(x: Dec)
    ensures var k := PoppedScale(x);
      k >= -1 && (IndexOf(ValueString(Some(x), k), '.') == -1 <==> k == -1)
  {
    TypedPoint(ValueAt(x, Max(0, PoppedScale(x))), PoppedScale(x));
  }

  lemma ErasedScale(u: int, k: int)
    requires k >= -1
    ensures Erased(u, k).Some? ==> Erased(u, k).value.scale <= Max(0, if k >= 0 then k - 1 else k)
  {
  }

  /**
   * The erase key on an editable value: the last character of its text is dropped and the
   * rest read back, so a digit goes (and the scale with it) or the point goes (scale 0
   * becomes -1); a text that becomes "" or "-" leaves no value.
   */
  function ValueErased(s: State): (r: State)
    requires s.canEditCurrentValue && s.currentValue.Some? && s.currentValueScale >= -1
    requires s.currentValue.value.scale <= Max(0, s.currentValueScale)
    ensures var u, k := ValueAt(s.currentValue.value, Max(0, s.currentValueScale)), s.currentValueScale;
      r == s.(currentValue := Erased(u, k),
        currentValueScale := if Erased(u, k).None? then -1 else if k >= 0 then k - 1 else k)
  {
    var k := s.currentValueScale;
    var t := ValueString(s.currentValue, k);
    ValueStringErased(s.currentValue.value, k);
    match Parse(t[..|t| - 1])
    case Some(v) => s.(currentValue := Some(v), currentValueScale := if k >= 0 then k - 1 else k)
    case None => s.(currentValue := None, currentValueScale := -1)
  }

  /** The text of a value, less its last character, reads back as the erased value. */
  lemma ValueStringErased(v: Dec, k: int)
    requires v.scale <= Max(0, k)
    ensures var t := ValueString(Some(v), k);
      |t| >= 1 && Parse(t[..|t| - 1]) == Erased(ValueAt(v, Max(0, k)), k)
  {
    TypedErase(ValueAt(v, Max(0, k)), k);
  }

  /** Erasing a character of an editable value keeps the invariant. */
  lemma ValueErasedKeepsInv(s: State)
    requires Inv(s)
    ensures s.canEditCurrentValue && s.currentValue.Some? ==> Inv(ValueErased(s))
  {
    if s.canEditCurrentValue && s.currentValue.Some? {
      var u, k := ValueAt(s.currentValue.value, Max(0, s.currentValueScale)), s.currentValueScale;
      ErasedScale(u, k);
    }
  }

  /** Erasing with no value left: the expression's last number and operator come back, the number as the value. */
  function NumberPopped(c: Config, s: State): (r: State)
    requires |s.numbers| == |s.operators| > 0
    ensures var x := s.numbers[|s.numbers| - 1];
      Fields(r) == Fields(s).(numbers := s.numbers[..|s.numbers| - 1], operators := s.operators[..|s.operators| - 1],
        currentValue := Some(x), currentValueScale := PoppedScale(x))
    ensures Inv(s) && s.canEditCurrentValue ==> Inv(r)
  {
    var x := s.numbers[|s.numbers| - 1];
    ExpressionUpdated(c, s.(numbers := s.numbers[..|s.numbers| - 1], operators := s.operators[..|s.operators| - 1],
      currentValue := Some(x), currentValueScale := PoppedScale(x)))
  }

  /** The erase key's first step: no answer, no result, and the answer button hidden. */
  function EraseBegun(s: State): (r: State)
    ensures Fields(r) == Fields(s).(currentIsAnswer := false, currentIsResult := false)
  {
    Show(s.(currentIsAnswer := false, currentIsResult := false), AnswerBtnVisible(false))
  }

  /**
   * The erase key once no error is left: a value that cannot be edited is cleared and made
   * editable, an editable value loses the last character of its text, and with no value
   * the expression's last number comes back if the expression may be edited.
   */
  function EraseApplied(c: Config, s: State): (r: State)
    requires Inv(s) && |s.numbers| == |s.operators|
    ensures Inv(r) && !r.currentIsAnswer && !r.currentIsResult && r.canEditCurrentValue
    ensures r.errorCode == s.errorCode && r.resultValue == s.resultValue
    ensures !s.canEditCurrentValue ==> r.currentValue == None && r.numbers == s.numbers
    ensures s.canEditCurrentValue && s.currentValue.Some? ==>
      var k := s.currentValueScale;
      r.currentValue == Erased(ValueAt(s.currentValue.value, Max(0, k)), k) && r.numbers == s.numbers
    ensures s.canEditCurrentValue && s.currentValue.None? && c.isExpressionEditable && |s.numbers| > 0 ==>
      r.currentValue == Some(s.numbers[|s.numbers| - 1]) &&
      r.numbers == s.numbers[..|s.numbers| - 1] && r.operators == s.operators[..|s.operators| - 1]
    ensures s.canEditCurrentValue && s.currentValue.None? && !(c.isExpressionEditable && |s.numbers| > 0) ==>
      Fields(r) == Fields(s).(currentIsAnswer := false, currentIsResult := false)
  {
    var s2 := EraseBegun(s);
    ValueErasedKeepsInv(s2);
    var s3 :=
      if !s2.canEditCurrentValue then s2.(currentValue := None, canEditCurrentValue := true)
      else if s2.currentValue.Some? then ValueErased(s2)
      else if c.isExpressionEditable && |s2.numbers| > 0 then NumberPopped(c, s2)
      else s2;
    CurrentValueUpdated(c, s3)
  }

  /** onErasedOnce: an error set is only dismissed. */
  function ErasePressed(c: Config, s: State): (r: State)
    requires Inv(s)
    ensures Inv(r)
    ensures HasError(s) ==> Fields(r) == Fields(ClearedExpression(c, s)).(errorCode := NoError)
  {
    var s1 := ClearedExpression(c, s);
    if HasError(s1) then ErrorDismissed(c, s1) else EraseApplied(c, s1)
  }

  /** Whether the digit key leaves a text at its limits unchanged. */
  predicate DigitLimitReached(c: Config, t: string)
  {
    IntDigits(t) >= c.maxIntDigits || (IndexOf(t, '.') != -1 && FracDigits(t) >= c.maxFracDigits)
  }

  /**
   * The value that typing digit d gives: d after the digits typed so far, and one more
   * fraction digit when a point was typed.
   */
  function DigitAppended(v: Option<Dec>, k: int, d: nat): Dec
    requires v.Some? ==> v.value.scale <= Max(0, k)
  {
    if v.None? then Dec(d, 0)
    else
      var u := ValueAt(v.value, Max(0, k));
      Dec(Signed(u < 0, Pushed(Abs(u), d)), if k >= 0 then Max(0, k) + 1 else 0)
  }

  /**
   * The digit key on an editable value: unless the text is at a digit limit, the digit is
   * appended to the text and the text read back, which gives DigitAppended; the typed scale
   * grows by one exactly when the text has a point.
   */
  function ValueTyped(c: Config, s: State, digit: nat): (r: State)
    requires s.canEditCurrentValue && s.currentValueScale >= -1 && digit < 10
    requires s.currentValue.None? ==> s.currentValueScale == -1
    requires s.currentValue.Some? ==> s.currentValue.value.scale <= Max(0, s.currentValueScale)
    ensures var k := s.currentValueScale;
      r == if DigitLimitReached(c, ValueString(s.currentValue, k)) then s
        else CurrentValueUpdated(c, s.(currentValue := Some(DigitAppended(s.currentValue, k, digit)),
          currentValueScale := if k >= 0 then k + 1 else k))
  {
    var t := ValueString(s.currentValue, s.currentValueScale);
    if DigitLimitReached(c, t) then s
    else
      var k := if IndexOf(t, '.') != -1 then s.currentValueScale + 1 else s.currentValueScale;
      TypedDigitText(s.currentValue, s.currentValueScale, digit);
      CurrentValueUpdated(c, s.(currentValue := Parse(t + [DigitChar(digit)]), currentValueScale := k))
  }

  /** Typing a digit keeps the invariant. */
  lemma ValueTypedKeepsInv(c: Config, s: State, digit: nat)
    requires s.canEditCurrentValue && s.currentValueScale >= -1 && digit < 10
    requires s.currentValue.None? ==> s.currentValueScale == -1
    requires s.currentValue.Some? ==> s.currentValue.value.scale <= Max(0, s.currentValueScale)
    requires Inv(s)
    ensures Inv(ValueTyped(c, s, digit))
  {
    var k := s.currentValueScale;
    if !DigitLimitReached(c, ValueString(s.currentValue, k)) {
      var k1 := if k >= 0 then k + 1 else k;
      var a := DigitAppended(s.currentValue, k, digit);
      assert a.scale <= Max(0, k1);
      assert Inv(s.(currentValue := Some(a), currentValueScale := k1));
    }
  }

  /** The text with the digit appended reads back as DigitAppended, and it has a point iff k >= 0. */
  lemma TypedDigitText(v: Option<Dec>, k: int, d: nat)
    requires k >= -1 && d < 10
    requires v.None? ==> k == -1
    requires v.Some? ==> v.value.scale <= Max(0, k)
    ensures var t := ValueString(v, k);
      Parse(t + [DigitChar(d)]) == Some(DigitAppended(v, k, d)) && (IndexOf(t, '.') != -1 <==> k >= 0)
  {
    if v.None? {
      FirstDigit(d);
    } else {
      var u := ValueAt(v.value, Max(0, k));
      TypedDigit(u, k, d);
      TypedPoint(u, k);
    }
  }

  /** onDigitBtnClicked: an error or old value is dismissed, and the digit typed. */
  function DigitPressed(c: Config, s: State, digit: nat): (r: State)
    requires Inv(s) && digit < 10
    ensures Inv(r) && r.canEditCurrentValue && !HasError(r) && !r.currentIsAnswer
  {
    var s1 := OldValueDismissed(c, ClearedExpression(c, s));
    ValueTypedKeepsInv(c, s1, digit);
    ValueTyped(c, s1, digit)
  }

  /** The operator after the calculated expression; the value is kept only if evaluation on operation is set. */
  function OperatorAppended(c: Config, s: State, op: Operator): (r: State)
    ensures Fields(r) == Fields(s).(operators := s.operators + [op],
      currentValue := if c.shouldEvaluateOnOperation then s.currentValue else None)
  {
    var s5 := s.(operators := s.operators + [op]);
    if !c.shouldEvaluateOnOperation then s5.(currentValue := None) else s5
  }

  /** The operand the operator key appends and evaluates, and the operator after it. */
  function OperandPushed(c: Config, s: State, op: Operator): (r: State)
    requires |s.numbers| == |s.operators|
    ensures var v := OrZero(s.currentValue);
      var ev := Evaluated(c, s.(numbers := s.numbers + [v]));
      r.numbers == s.numbers + [v] && r.operators == s.operators + [op] &&
      !r.canEditCurrentValue && !r.currentIsAnswer && r.currentValueScale == -1 &&
      r.currentIsResult == s.currentIsResult &&
      (ev.Err? ==> r.errorCode == DivZero && r.currentValue.None? && r.resultValue.None? && !r.canEditExpression) &&
      (ev.Ok? ==>
        r.errorCode == s.errorCode && r.resultValue == s.resultValue && r.canEditExpression == s.canEditExpression &&
        r.currentValue == if c.shouldEvaluateOnOperation then Some(ev.value) else None)
  {
    OperatorAppended(c, Calculated(c, ValueAppended(s)), op)
  }

  /** The operator key's last step: the answer button, the value and the expression shown. */
  function OperatorShown(c: Config, s: State): (r: State)
    ensures Fields(r) == Fields(s)
  {
    ExpressionUpdated(c, CurrentValueUpdated(c, Show(s, AnswerBtnVisible(c.isAnswerBtnShown && s.resultValue.Some?))))
  }

  /**
   * The operator key once no error is left: after a computed value (not an answer) the
   * last operator is replaced; otherwise the value (zero for none) is appended and the
   * expression calculated, and the operator follows it.
   */
  function OperatorApplied(c: Config, s: State, op: Operator): (r: State)
    requires |s.numbers| == |s.operators|
    ensures Inv(r) && !r.currentIsResult && |r.numbers| == |r.operators| > 0 && r.operators[|r.operators| - 1] == op
    ensures AfterComputed(s) ==>
      Fields(r) == Fields(s).(operators := s.operators[..|s.operators| - 1] + [op], currentIsResult := false,
        currentValueScale := -1)
    ensures !AfterComputed(s) ==> r.numbers == s.numbers + [OrZero(s.currentValue)] && r.operators == s.operators + [op]
  {
    var s2 := s.(currentIsResult := false, currentValueScale := -1);
    var s3 := if AfterComputed(s2) then s2.(operators := s2.operators[..|s2.operators| - 1] + [op]) else OperandPushed(c, s2, op);
    OperatorShown(c, s3)
  }

  /** onOperatorBtnClicked: an error set is only dismissed. */
  function OperatorPressed(c: Config, s: State, op: Operator): (r: State)
    requires Inv(s)
    ensures Inv(r)
    ensures HasError(s) ==> Fields(r) == Fields(ClearedExpression(c, s)).(errorCode := NoError)
  {
    var s1 := ClearedExpression(c, s);
    if HasError(s1) then ErrorDismissed(c, s1) else OperatorApplied(c, s1, op)
  }

  /** The point typed: the typed scale becomes 0, and no value becomes 0. */
  function PointInserted(s: State): (r: State)
    ensures Fields(r) == Fields(s).(currentValue := Some(OrZero(s.currentValue)), currentValueScale := 0)
  {
    s.(currentValue := Some(OrZero(s.currentValue)), currentValueScale := 0)
  }

  /** onDecimalSepBtnClicked: a point is added only when there is none; no value becomes 0. */
  function DecimalSepPressed(c: Config, s: State): (r: State)
    ensures r.canEditCurrentValue && !HasError(r)
    ensures Inv(s) ==> Inv(r) && r.currentValue.Some? && r.currentValueScale >= 0
    ensures s.currentValueScale == -1 || !s.canEditCurrentValue ==>
      r.currentValueScale == 0 && r.currentValue == Some(OrZero(if s.canEditCurrentValue then s.currentValue else None))
    ensures s.currentValueScale != -1 && s.canEditCurrentValue ==>
      r.currentValueScale == s.currentValueScale && r.currentValue == s.currentValue
  {
    var s1 := OldValueDismissed(c, ClearedExpression(c, s));
    if s1.currentValueScale == -1 then
      CurrentValueUpdated(c, PointInserted(s1))
    else s1
  }

  /** Whether the sign key first discards the value: a computed value with an expression. */
  predicate SignClears(s: State)
  {
    !s.canEditCurrentValue && !s.currentIsResult && |s.numbers| > 0
  }

  /** The sign key's negation: a nonzero value is negated, no value and zero are left alone. */
  function Toggled(v: Option<Dec>): (r: Option<Dec>)
    ensures v.Some? && Cmp(v.value, Zero) != 0 ==> r == Some(Negate(v.value))
    ensures v.None? || Cmp(v.value, Zero) == 0 ==> r == v
    ensures r.Some? ==> v.Some? && r.value.scale == v.value.scale
  {
    if v.Some? && Cmp(v.value, Zero) != 0 then Some(Negate(v.value)) else v
  }

  /** onSignBtnClicked: the error is dismissed, and a nonzero value negated. */
  function SignPressed(c: Config, s: State): (r: State)
    ensures Inv(s) ==> Inv(r)
    ensures !HasError(r) && !r.currentIsAnswer && r.numbers == s.numbers && r.operators == s.operators
    ensures SignClears(s) ==> r.currentValue == None && r.canEditCurrentValue && r.currentValueScale == -1
    ensures !SignClears(s) ==>
      Fields(r) == Fields(s).(errorCode := NoError, currentIsAnswer := false, currentValue := Toggled(s.currentValue))
  {
    var s1 := AnswerDismissed(ErrorDismissed(c, s));
    var s2 := if SignClears(s1) then ValueDiscarded(s1) else s1;
    CurrentValueUpdated(c, s2.(currentValue := Toggled(s2.currentValue)))
  }

  /** onEqualBtnClicked: an error set is only dismissed. */
  function EqualPressed(c: Config, s: State): (r: State)
    requires Inv(s)
    ensures Inv(r)
    ensures HasError(s) ==> Fields(r) == Fields(ClearedExpression(c, s)).(errorCode := NoError)
    ensures !HasError(s) ==> r == Equaled(c, ClearedExpression(c, s))
  {
    var s1 := ClearedExpression(c, s);
    if HasError(s1) then ErrorDismissed(c, s1) else Equaled(c, s1)
  }

  /** onAnswerBtnClicked: the last result becomes the current, non-editable value. */
  function AnswerPressed(c: Config, s: State): (r: State)
    ensures Inv(s) ==> Inv(r)
    ensures Fields(r) == Fields(s).(currentValue := s.resultValue, currentValueScale := -1,
      currentIsAnswer := true, canEditCurrentValue := false)
  {
    CurrentValueUpdated(c, Show(s.(currentValue := s.resultValue, currentValueScale := -1,
      currentIsAnswer := true, canEditCurrentValue := false), AnswerBtnVisible(false)))
  }

  /** onClearBtnClicked, and onErasedAll which calls it: an error is only dismissed, else all is reset. */
  function ClearPressed(c: Config, s: State): (r: State)
    ensures Inv(s) ==> Inv(r)
    ensures HasError(s) ==> Fields(r) == Fields(ClearedExpression(c, s)).(errorCode := NoError)
    ensures !HasError(s) ==> Fields(r) == Fields(ResetState(s))
  {
    var s1 := ClearedExpression(c, s);
    if HasError(s1) then ErrorDismissed(c, s1)
    else ExpressionUpdated(c, CurrentValueUpdated(c, Show(ResetState(s1), AnswerBtnVisible(false))))
  }

  /** onCancelBtnClicked */
  function CancelPressed(s: State): (r: State)
    ensures Fields(r) == Fields(s) && r.view == Then(s.view, Exited)
  {
    Show(s, Exited)
  }

  /** onDismissed */
  function Dismissed(s: State): (r: State)
    ensures Inv(r) && Fields(r) == Fields(ResetState(s))
  {
    ResetState(s)
  }

  /** Whether OK finds the result above the maximum, or below the minimum. */
  predicate AboveMax(c: Config, s: State)
  {
    s.resultValue.Some? && c.maxValue.Some? && Cmp(s.resultValue.value, c.maxValue.value) > 0
  }

  predicate BelowMin(c: Config, s: State)
  {
    s.resultValue.Some? && c.minValue.Some? && Cmp(s.resultValue.value, c.minValue.value) < 0
  }

  /**
   * The checks of onOkBtnClicked once the expression is reduced to its value: above the
   * maximum (WRONG_SIGN_NEG for a maximum of zero), below the minimum (WRONG_SIGN_POS for a
   * minimum of zero), else the result is sent and the dialog exits if no error is set.
   */
  function BoundsChecked(c: Config, s: State): (r: State)
    ensures WellShaped(s) ==> (Inv(s) ==> Inv(r)) && (AboveMax(c, s) || BelowMin(c, s) ==> Inv(r))
    ensures r.numbers == s.numbers && r.operators == s.operators
    ensures AboveMax(c, s) ==> r.errorCode == (if Cmp(c.maxValue.value, Zero) == 0 then WrongSignNeg else OutOfBounds)
    ensures !AboveMax(c, s) && BelowMin(c, s) ==>
      r.errorCode == (if Cmp(c.minValue.value, Zero) == 0 then WrongSignPos else OutOfBounds)
    ensures r.view == Then(Then(s.view, ValueSent(s.resultValue)), Exited) <==>
      !AboveMax(c, s) && !BelowMin(c, s) && !HasError(s)
    ensures !AboveMax(c, s) && !BelowMin(c, s) ==> Fields(r) == Fields(s)
  {
    if AboveMax(c, s) then
      WithError(s, if Cmp(c.maxValue.value, Zero) == 0 then WrongSignNeg else OutOfBounds)
    else if BelowMin(c, s) then
      WithError(s, if Cmp(c.minValue.value, Zero) == 0 then WrongSignPos else OutOfBounds)
    else if s.errorCode == NoError then
      Show(Show(s, ValueSent(s.resultValue)), Exited)
    else s
  }

  /** onOkBtnClicked: an error set is only dismissed; with more than one number left after equal, nothing is checked or sent. */
  function OkPressed(c: Config, s: State): (r: State)
    requires Inv(s)
    ensures Inv(r)
    ensures HasError(s) ==> Fields(r) == Fields(ClearedExpression(c, s)).(errorCode := NoError)
    ensures !HasError(s) ==>
      var e := Equaled(c, ClearedExpression(c, s));
      (|e.numbers| > 1 ==> r == e) && (|e.numbers| <= 1 ==> r == BoundsChecked(c, e))
  {
    var s1 := ClearedExpression(c, s);
    if HasError(s1) then ErrorDismissed(c, s1)
    else
      var s2 := Equaled(c, s1);
      if |s2.numbers| > 1 then s2 else BoundsChecked(c, s2)
  }

  /** The presenter's fields before attach: Java's defaults, so the error code is 0 (DIV_ZERO). */
  const Unattached := State([], [], None, None, 0, DivZero, false, false, false, false, Empty)

  /** The four view settings attach makes. */
  function ViewSetUp(c: Config, s: State): (r: State)
    ensures Fields(r) == Fields(s)
  {
    Show(Show(Show(Show(s, ExpressionVisible(c.isExpressionShown)),
      DecimalSepBtnEnabled(c.maxFracDigits > 0)),
      AnswerBtnVisible(c.isAnswerBtnShown && s.resultValue.Some?)),
      SignBtnVisible(c.isSignBtnShown))
  }

  /** attach without saved state: reset, the initial value, the button states, and both texts. */
  function Attached(c: Config, initialValue: Option<Dec>): (r: State)
    ensures Inv(r) && Fields(r) == Fields(ResetState(Unattached)).(currentValue := initialValue)
  {
    ExpressionUpdated(c, CurrentValueUpdated(c, ViewSetUp(c, ResetState(Unattached).(currentValue := initialValue))))
  }

  /**
   * The digit key's limits in terms of the value: the integer digits of its text, or a
   * typed scale that already reaches the format's fraction-digit limit.
   */
  lemma DigitLimitByScale(c: Config, v: Option<Dec>, k: int)
    requires k >= -1
    requires v.None? ==> k == -1
    requires v.Some? ==> v.value.scale <= Max(0, k)
    ensures var t := ValueString(v, k);
      DigitLimitReached(c, t) <==> IntDigits(t) >= c.maxIntDigits || (k >= 0 && k >= c.maxFracDigits)
  {
    if v.Some? {
      TypedPoint(ValueAt(v.value, Max(0, k)), k);
    }
  }

  /** A digit typed and then erased leaves the value at the typed scale, unless it replaced a lone 0. */
  lemma DigitThenErase(c: Config, s: State, d: nat)
    requires s.canEditCurrentValue && s.currentValueScale >= -1 && d < 10
    requires s.currentValue.Some? && s.currentValue.value.scale <= Max(0, s.currentValueScale)
    requires !DigitLimitReached(c, ValueString(s.currentValue, s.currentValueScale))
    requires s.currentValueScale == -1 ==> ValueAt(s.currentValue.value, 0) != 0
    ensures var r := ValueErased(ValueTyped(c, s, d));
      r.currentValue == Some(Dec(ValueAt(s.currentValue.value, Max(0, s.currentValueScale)), Max(0, s.currentValueScale))) &&
      r.currentValueScale == s.currentValueScale
  {
    var u, k := ValueAt(s.currentValue.value, Max(0, s.currentValueScale)), s.currentValueScale;
    var a := DigitAppended(s.currentValue, k, d);
    var k1 := if k >= 0 then k + 1 else k;
    var s1 := ValueTyped(c, s, d);
    assert s1.currentValue == Some(a) && s1.currentValueScale == k1;
    assert ValueAt(a, Max(0, k1)) == Signed(u < 0, Pushed(Abs(u), d));
    PushedThenErased(u, k, d);
  }

  /** The point key acts only without a point: pressing it twice is pressing it once. */
  lemma DecimalSepTwice(c: Config, s: State)
    ensures Fields(DecimalSepPressed(c, DecimalSepPressed(c, s))) == Fields(DecimalSepPressed(c, s))
  {
  }

  lemma NegateTwice(d: Dec)
    ensures Negate(Negate(d)) == d
  {
  }

  /** Pressing the sign key twice restores the value, unless the first press cleared it. */
  lemma SignTwice(c: Config, s: State)
    requires !SignClears(s)
    ensures SignPressed(c, SignPressed(c, s)).currentValue == s.currentValue
  {
    var s1 := SignPressed(c, s);
    assert s1.currentValue == Toggled(s.currentValue) && !SignClears(s1);
    assert SignPressed(c, s1).currentValue == Toggled(s1.currentValue);
    ToggledTwice(s.currentValue);
  }

  /** The sign key's negation is its own inverse. */
  lemma ToggledTwice(v: Option<Dec>)
    ensures Toggled(Toggled(v)) == v
  {
    if v.Some? {
      NegateTwice(v.value);
      NegateReverses(v.value);
    }
  }

  /** The settings as the presenter reads them once attached, and the format's rendering. */
  function ConfigOf(settings: LibSettings.CalcSettings, format: Dec -> string): Config
    reads settings, settings.nbFormat
  {
    Config(settings.maxIntDigits, settings.nbFormat.maximumFractionDigits, settings.nbFormat.roundingMode,
      settings.minValue, settings.maxValue, settings.isOrderOfOperationsApplied, settings.isZeroShownWhenNoValue,
      settings.isExpressionShown, settings.isAnswerBtnShown, settings.isSignBtnShown,
      settings.isExpressionEditable, settings.shouldEvaluateOnOperation, format)
  }

  /** The settings before attach, which the key handlers never see. */
  const Detached := Config(0, 0, HalfEven, None, None, false, false, false, false, false, false, false, d => "")

  /**
   * CalcPresenter: the fields each key handler updates, the expression it edits in place,
   * and the log of the calls it makes on its view. Each handler leaves Snapshot() equal to
   * the handler's function of the state before it.
   */
  class CalcPresenter {
    var config: Config
    var attached: bool
    const expression: Expression
    var currentValue: Option<Dec>
    var resultValue: Option<Dec>
    var currentValueScale: int
    var errorCode: ErrorCode
    var currentIsAnswer: bool
    var currentIsResult: bool
    var canEditCurrentValue: bool
    var canEditExpression: bool
    var view: Log

    function Snapshot(): State
      reads this, expression
    {
      State(expression.numbers, expression.operators, currentValue, resultValue, currentValueScale, errorCode,
        currentIsAnswer, currentIsResult, canEditCurrentValue, canEditExpression, view)
    }

    predicate Valid()
      reads this, expression
    {
      attached && Inv(Snapshot())
    }

    /** A new presenter: an empty expression and Java's default field values. */
    constructor ()
      ensures fresh(expression) && !attached && Snapshot() == Unattached
    {
      config := Detached;
      attached := false;
      expression := new Expression();
      currentValue := None;
      resultValue := None;
      currentValueScale := 0;
      errorCode := DivZero;
      currentIsAnswer := false;
      currentIsResult := false;
      canEditCurrentValue := false;
      canEditExpression := false;
      view := Empty;
    }

    /**
     * attach without saved state: the settings are validated (IllegalArgumentException,
     * before anything changes, when the minimum is not below the maximum), then the presenter
     * is reset to the initial value and the view set up.
     */
    method Attach(settings: LibSettings.CalcSettings, format: Dec -> string) returns (r: Option<Fault>)
      requires !attached && Snapshot() == Unattached
      modifies this, expression
      ensures settings.Validate().Some? ==> r == Some(IllegalArgument) && unchanged(this, expression)
      ensures settings.Validate().None? ==>
        r == None && Valid() && config == ConfigOf(settings, format) &&
        Snapshot() == Attached(config, settings.initialValue)
    {
      r := settings.Validate();
      if r.Some? {
        return;
      }
      config := ConfigOf(settings, format);
      attached := true;
      Start(settings.initialValue);
    }

    /** The part of attach after the settings are read. */
    method Start(initialValue: Option<Dec>)
      requires Snapshot() == Unattached
      modifies this, expression
      ensures config == old(config) && attached == old(attached)
      ensures Snapshot() == Attached(config, initialValue)
    {
      Reset();
      currentValue := initialValue;
      ghost var s1 := Snapshot();
      assert s1 == ResetState(Unattached).(currentValue := initialValue);
      SetUpView();
      ghost var s2 := Snapshot();
      assert s2 == ViewSetUp(config, s1);
      UpdateCurrentValue();
      ghost var s3 := Snapshot();
      assert s3 == CurrentValueUpdated(config, s2);
      UpdateExpression();
    }

    method SetUpView()
      modifies this
      ensures config == old(config) && attached == old(attached)
      ensures Snapshot() == ViewSetUp(config, old(Snapshot()))
    {
      Emit(ExpressionVisible(config.isExpressionShown));
      Emit(DecimalSepBtnEnabled(config.maxFracDigits > 0));
      Emit(AnswerBtnVisible(config.isAnswerBtnShown && resultValue.Some?));
      Emit(SignBtnVisible(config.isSignBtnShown));
    }

    /** One call on the view. */
    method Emit(e: ViewEvent)
      modifies this
      ensures config == old(config) && attached == old(attached)
      ensures Snapshot() == Show(old(Snapshot()), e)
    {
      view := Then(view, e);
    }

    method UpdateCurrentValue()
      modifies this
      ensures config == old(config) && attached == old(attached)
      ensures Snapshot() == CurrentValueUpdated(config, old(Snapshot()))
    {
      ghost var s0 := Snapshot();
      if currentIsAnswer {
        view := Then(view, AnswerTextShown);
        assert Snapshot() == Show(s0, AnswerTextShown);
        return;
      }
      var value := currentValue;
      if value.None? && config.isZeroShownWhenNoValue {
        value := Some(Zero);
      }
      view := Then(view, CurrentValueShown(value, currentValueScale));
      assert Snapshot() == Show(s0, CurrentValueShown(value, currentValueScale));
    }

    method UpdateExpression()
      modifies this
      ensures config == old(config) && attached == old(attached)
      ensures Snapshot() == ExpressionUpdated(config, old(Snapshot()))
    {
      ghost var s0 := Snapshot();
      if config.isExpressionShown {
        view := Then(view, ExpressionShown(expression.numbers, expression.operators, currentIsResult));
        assert Snapshot() == Show(s0, ExpressionShown(s0.numbers, s0.operators, s0.currentIsResult));
      }
    }

    method GetCurrentValueString() returns (t: string)
      requires currentValue.Some? ==> currentValue.value.scale <= Max(0, currentValueScale)
      ensures t == ValueString(currentValue, currentValueScale)
    {
      if currentValue.None? {
        return "";
      }
      ValueStringIsPlainText(currentValue.value, currentValueScale);
      var scaled := SetScale(currentValue.value, Max(0, currentValueScale), Unnecessary);
      t := ToPlainString(scaled.value);
      if currentValueScale == 0 {
        t := t + ".";
      }
    }

    method ClearExpressionIfNeeded()
      modifies this, expression
      ensures config == old(config) && attached == old(attached)
      ensures Snapshot() == ClearedExpression(config, old(Snapshot()))
    {
      ghost var s0 := Snapshot();
      if !canEditExpression {
        expression.Clear();
        canEditExpression := true;
        currentIsResult := false;
        assert Snapshot() == s0.(numbers := [], operators := [], canEditExpression := true, currentIsResult := false);
        UpdateExpression();
      }
    }

    method DismissError() returns (b: bool)
      modifies this
      ensures config == old(config) && attached == old(attached)
      ensures b == HasError(old(Snapshot())) && Snapshot() == ErrorDismissed(config, old(Snapshot()))
    {
      ghost var s0 := Snapshot();
      if errorCode != NoError {
        errorCode := NoError;
        assert Snapshot() == s0.(errorCode := NoError);
        UpdateCurrentValue();
        return true;
      }
      return false;
    }

    method DismissOldValue()
      modifies this
      ensures config == old(config) && attached == old(attached)
      ensures Snapshot() == OldValueDismissed(config, old(Snapshot()))
    {
      var _ := DismissError();
      DismissAnswer();
      if !canEditCurrentValue {
        DiscardValue();
      }
    }

    method DismissAnswer()
      modifies this
      ensures config == old(config) && attached == old(attached)
      ensures Snapshot() == AnswerDismissed(old(Snapshot()))
    {
      ghost var s0 := Snapshot();
      currentIsAnswer := false;
      view := Then(view, AnswerBtnVisible(false));
      assert Snapshot() == s0.(currentIsAnswer := false, view := Then(s0.view, AnswerBtnVisible(false)));
    }

    method DiscardValue()
      modifies this
      ensures config == old(config) && attached == old(attached)
      ensures Snapshot() == ValueDiscarded(old(Snapshot()))
    {
      ghost var s0 := Snapshot();
      currentValue := None;
      canEditCurrentValue := true;
      currentValueScale := -1;
      assert Snapshot() == s0.(currentValue := None, canEditCurrentValue := true, currentValueScale := -1);
    }

    method Reset()
      modifies this, expression
      ensures config == old(config) && attached == old(attached)
      ensures Snapshot() == ResetState(old(Snapshot()))
    {
      ghost var s0 := Snapshot();
      expression.Clear();
      currentValue := None;
      resultValue := None;
      currentValueScale := -1;
      errorCode := NoError;
      currentIsAnswer := false;
      currentIsResult := false;
      canEditCurrentValue := false;
      canEditExpression := true;
      view := Then(view, AnswerBtnVisible(false));
      assert Snapshot() == s0.(numbers := [], operators := [], currentValue := None, resultValue := None,
        currentValueScale := -1, errorCode := NoError, currentIsAnswer := false,
        currentIsResult := false, canEditCurrentValue := false, canEditExpression := true,
        view := Then(s0.view, AnswerBtnVisible(false)));
    }

    method SetError(e: ErrorCode)
      modifies this
      ensures config == old(config) && attached == old(attached)
      ensures Snapshot() == WithError(old(Snapshot()), e)
    {
      StoreError(e);
      Emit(ErrorTextShown(e));
    }

    /** The error is stored and the value, the result and both edit flags are dropped. */
    method StoreError(e: ErrorCode)
      modifies this
      ensures config == old(config) && attached == old(attached)
      ensures Snapshot() == old(Snapshot()).(errorCode := e, currentValue := None, resultValue := None,
        currentValueScale := -1, currentIsAnswer := false, canEditCurrentValue := false, canEditExpression := false)
    {
      errorCode := e;
      currentValue := None;
      resultValue := None;
      currentValueScale := -1;
      currentIsAnswer := false;
      canEditCurrentValue := false;
      canEditExpression := false;
    }

    method Calculate()
      requires |expression.numbers| == |expression.operators| + 1
      modifies this
      ensures config == old(config) && attached == old(attached)
      ensures Snapshot() == Calculated(config, old(Snapshot()))
    {
      ghost var s0 := Snapshot();
      var r := expression.Evaluate(config.isOrderOfOperationsApplied, config.maxFracDigits, config.roundingMode);
      assert r == Evaluated(config, s0);
      if r.Err? {
        SetError(DivZero);
        return;
      }
      currentValue := Some(r.value);
      currentValueScale := -1;
      currentIsAnswer := false;
      canEditCurrentValue := false;
      assert Snapshot() == s0.(currentValue := Some(r.value), currentValueScale := -1, currentIsAnswer := false,
        canEditCurrentValue := false);
    }

    method Equal()
      requires |expression.numbers| == |expression.operators|
      modifies this, expression
      ensures config == old(config) && attached == old(attached)
      ensures Snapshot() == Equaled(config, old(Snapshot()))
    {
      CloseExpression();
      Calculate();
      StoreResult();
      UpdateExpression();
    }

    /** equal's first step: the dangling operator is removed, or the value appended. */
    method CloseExpression()
      requires |expression.numbers| == |expression.operators|
      modifies this, expression
      ensures config == old(config) && attached == old(attached)
      ensures Snapshot() == Closed(old(Snapshot()))
    {
      ghost var s0 := Snapshot();
      if !currentIsAnswer && !canEditCurrentValue && |expression.operators| > 0 {
        expression.operators := expression.operators[..|expression.operators| - 1];
        assert Snapshot() == s0.(operators := s0.operators[..|s0.operators| - 1]);
      } else {
        AppendValue();
      }
    }

    method AppendValue()
      modifies this, expression
      ensures config == old(config) && attached == old(attached)
      ensures Snapshot() == ValueAppended(old(Snapshot()))
    {
      ghost var s0 := Snapshot();
      if currentValue.None? {
        currentValue := Some(Zero);
      }
      expression.numbers := expression.numbers + [currentValue.value];
      assert Snapshot() == s0.(currentValue := Some(OrZero(s0.currentValue)), numbers := s0.numbers + [OrZero(s0.currentValue)]);
    }

    /** equal's step after calculate. */
    method StoreResult()
      modifies this
      ensures config == old(config) && attached == old(attached)
      ensures Snapshot() == ResultStored(config, old(Snapshot()))
    {
      ghost var s0 := Snapshot();
      if errorCode == NoError {
        resultValue := currentValue;
        currentIsResult := true;
        currentValueScale := -1;
        assert Snapshot() == s0.(resultValue := s0.currentValue, currentIsResult := true, currentValueScale := -1);
        UpdateCurrentValue();
      }
      ghost var s3 := Snapshot();
      canEditExpression := false;
      assert Snapshot() == s3.(canEditExpression := false);
    }

    /** The erase key on an editable value: its text loses the last character and is read back. */
    method EraseValue()
      requires canEditCurrentValue && currentValue.Some? && currentValueScale >= -1
      requires currentValue.value.scale <= Max(0, currentValueScale)
      modifies this
      ensures config == old(config) && attached == old(attached)
      ensures Snapshot() == ValueErased(old(Snapshot()))
    {
      ghost var s0 := Snapshot();
      ghost var u, k := ValueAt(currentValue.value, Max(0, currentValueScale)), currentValueScale;
      var parsed := ReadErased();
      if parsed.Some? {
        currentValue := parsed;
        if currentValueScale >= 0 {
          currentValueScale := currentValueScale - 1;
        }
      } else {
        currentValue := None;
        currentValueScale := -1;
      }
      assert Snapshot() == s0.(currentValue := Erased(u, k),
        currentValueScale := if Erased(u, k).None? then -1 else if k >= 0 then k - 1 else k);
    }

    /** The value's text without its last character, read back as a decimal. */
    method ReadErased() returns (parsed: Option<Dec>)
      requires currentValue.Some? && currentValueScale >= -1
      requires currentValue.value.scale <= Max(0, currentValueScale)
      ensures parsed == Erased(ValueAt(currentValue.value, Max(0, currentValueScale)), currentValueScale)
    {
      ghost var u, k := ValueAt(currentValue.value, Max(0, currentValueScale)), currentValueScale;
      var t := GetCurrentValueString();
      assert t == Typed(u, k);
      TypedErase(u, k);
      var erased := t[..|t| - 1];
      assert Parse(erased) == Erased(u, k);
      parsed := Parse(erased);
    }

    /** The erase key with no value: the expression's last number comes back as the value. */
    method PopNumber()
      requires |expression.numbers| == |expression.operators| > 0
      modifies this, expression
      ensures config == old(config) && attached == old(attached)
      ensures Snapshot() == NumberPopped(config, old(Snapshot()))
    {
      ghost var s0 := Snapshot();
      TakeLastNumber();
      ghost var s1 := Snapshot();
      UpdateExpression();
      assert Snapshot() == ExpressionUpdated(config, s1);
    }

    /** The expression's last number and operator are removed, the number becoming the value. */
    method TakeLastNumber()
      requires |expression.numbers| == |expression.operators| > 0
      modifies this, expression
      ensures config == old(config) && attached == old(attached)
      ensures var x := old(expression.numbers)[|old(expression.numbers)| - 1];
        Snapshot() == old(Snapshot()).(numbers := old(expression.numbers)[..|old(expression.numbers)| - 1],
          operators := old(expression.operators)[..|old(expression.operators)| - 1],
          currentValue := Some(x), currentValueScale := PoppedScale(x))
    {
      ghost var s0 := Snapshot();
      var x := expression.numbers[|expression.numbers| - 1];
      expression.numbers := expression.numbers[..|expression.numbers| - 1];
      expression.operators := expression.operators[..|expression.operators| - 1];
      currentValue := Some(x);
      currentValueScale := x.scale;
      if currentValueScale <= 0 {
        currentValueScale := -1;
      }
      assert Snapshot() == s0.(numbers := s0.numbers[..|s0.numbers| - 1], operators := s0.operators[..|s0.operators| - 1],
        currentValue := Some(x), currentValueScale := PoppedScale(x));
    }

    /** The erase key once no error is left. */
    method ApplyErase()
      requires Inv(Snapshot()) && |expression.numbers| == |expression.operators|
      modifies this, expression
      ensures config == old(config) && attached == old(attached)
      ensures Snapshot() == EraseApplied(config, old(Snapshot()))
    {
      BeginErase();
      ghost var s2 := Snapshot();
      if !canEditCurrentValue {
        currentValue := None;
        canEditCurrentValue := true;
        assert Snapshot() == s2.(currentValue := None, canEditCurrentValue := true);
      } else if currentValue.Some? {
        EraseValue();
      } else if config.isExpressionEditable && |expression.numbers| > 0 {
        PopNumber();
      }
      UpdateCurrentValue();
    }

    method BeginErase()
      modifies this
      ensures config == old(config) && attached == old(attached)
      ensures Snapshot() == EraseBegun(old(Snapshot()))
    {
      ghost var s0 := Snapshot();
      currentIsAnswer := false;
      currentIsResult := false;
      view := Then(view, AnswerBtnVisible(false));
      assert Snapshot() == s0.(currentIsAnswer := false, currentIsResult := false,
        view := Then(s0.view, AnswerBtnVisible(false)));
    }

    method OnErasedOnce()
      requires Valid()
      modifies this, expression
      ensures Valid() && config == old(config)
      ensures Snapshot() == ErasePressed(config, old(Snapshot()))
    {
      ClearExpressionIfNeeded();
      var dismissed := DismissError();
      if dismissed {
        return;
      }
      ApplyErase();
    }

    method OnErasedAll()
      requires Valid()
      modifies this, expression
      ensures Valid() && config == old(config)
      ensures Snapshot() == ClearPressed(config, old(Snapshot()))
    {
      OnClearBtnClicked();
    }

    /** The digit key on an editable value: the digit is appended to its text unless at a limit. */
    method TypeDigit(digit: nat)
      requires canEditCurrentValue && currentValueScale >= -1 && digit < 10
      requires currentValue.None? ==> currentValueScale == -1
      requires currentValue.Some? ==> currentValue.value.scale <= Max(0, currentValueScale)
      modifies this
      ensures config == old(config) && attached == old(attached)
      ensures Snapshot() == ValueTyped(config, old(Snapshot()), digit)
    {
      var t := GetCurrentValueString();
      var limit, pointPos := AtDigitLimit(t);
      if limit {
        return;
      }
      AppendDigit(t, pointPos, digit);
      UpdateCurrentValue();
    }

    /** The digit appended to the value's text, which is read back; a point in the text adds to the scale. */
    method AppendDigit(t: string, pointPos: int, digit: nat)
      requires currentValueScale >= -1 && digit < 10
      requires currentValue.None? ==> currentValueScale == -1
      requires currentValue.Some? ==> currentValue.value.scale <= Max(0, currentValueScale)
      requires t == ValueString(currentValue, currentValueScale) && pointPos == IndexOf(t, '.')
      modifies this
      ensures config == old(config) && attached == old(attached)
      ensures var k := old(currentValueScale);
        Snapshot() == old(Snapshot()).(currentValue := Some(DigitAppended(old(currentValue), k, digit)),
          currentValueScale := if k >= 0 then k + 1 else k)
    {
      var v, k := currentValue, currentValueScale;
      TypedDigitText(v, k, digit);
      var typed := Parse(t + [DigitChar(digit)]);
      var scale := if pointPos != -1 then k + 1 else k;
      assert typed == Some(DigitAppended(v, k, digit)) && scale == if k >= 0 then k + 1 else k;
      StoreTyped(typed, scale);
    }

    /** The value read back from the typed text, and its typed scale, become the current ones. */
    method StoreTyped(value: Option<Dec>, scale: int)
      modifies this
      ensures config == old(config) && attached == old(attached)
      ensures Snapshot() == old(Snapshot()).(currentValue := value, currentValueScale := scale)
    {
      currentValueScale := scale;
      currentValue := value;
    }

    /** The digit key's check of the integer and fraction digits typed so far. */
    method AtDigitLimit(t: string) returns (limit: bool, pointPos: int)
      ensures limit == DigitLimitReached(config, t) && pointPos == IndexOf(t, '.')
    {
      pointPos := IndexOf(t, '.');
      var intDigits := (if pointPos == -1 then |t| else pointPos) - (if |t| > 0 && t[0] == '-' then 1 else 0);
      var maxIntReached := intDigits >= config.maxIntDigits;
      var maxFracReached := pointPos != -1 && |t| - pointPos - 1 >= config.maxFracDigits;
      limit := maxIntReached || maxFracReached;
    }

    method OnDigitBtnClicked(digit: nat)
      requires Valid() && digit < 10
      modifies this, expression
      ensures Valid() && config == old(config)
      ensures Snapshot() == DigitPressed(config, old(Snapshot()), digit)
    {
      ghost var s0 := Snapshot();
      ClearExpressionIfNeeded();
      DismissOldValue();
      ghost var s1 := Snapshot();
      assert s1 == OldValueDismissed(config, ClearedExpression(config, s0));
      TypeDigit(digit);
      assert Snapshot() == ValueTyped(config, s1, digit) == DigitPressed(config, s0, digit);
    }

    /** The operator key's second case: the value is appended and evaluated, then the operator. */
    method PushOperand(op: Operator)
      requires |expression.numbers| == |expression.operators|
      modifies this, expression
      ensures config == old(config) && attached == old(attached)
      ensures Snapshot() == OperandPushed(config, old(Snapshot()), op)
    {
      AppendValue();
      Calculate();
      AppendOperator(op);
    }

    method AppendOperator(op: Operator)
      modifies this, expression
      ensures config == old(config) && attached == old(attached)
      ensures Snapshot() == OperatorAppended(config, old(Snapshot()), op)
    {
      ghost var s0 := Snapshot();
      expression.operators := expression.operators + [op];
      if !config.shouldEvaluateOnOperation {
        currentValue := None;
      }
      assert Snapshot() == s0.(operators := s0.operators + [op],
        currentValue := if config.shouldEvaluateOnOperation then s0.currentValue else None);
    }

    /** The operator key once no error is left. */
    method ApplyOperator(op: Operator)
      requires |expression.numbers| == |expression.operators|
      modifies this, expression
      ensures config == old(config) && attached == old(attached)
      ensures Snapshot() == OperatorApplied(config, old(Snapshot()), op)
    {
      ghost var s0 := Snapshot();
      LeaveTyping();
      ghost var s2 := Snapshot();
      assert s2 == s0.(currentIsResult := false, currentValueScale := -1);
      if !currentIsAnswer && !canEditCurrentValue && |expression.operators| > 0 {
        assert AfterComputed(s2);
        ReplaceOperator(op);
      } else {
        assert !AfterComputed(s2);
        PushOperand(op);
      }
      ghost var s3 := Snapshot();
      assert s3 == if AfterComputed(s2) then s2.(operators := s2.operators[..|s2.operators| - 1] + [op])
        else OperandPushed(config, s2, op);
      ShowOperator();
    }

    /** The value is no longer a result, and no typed scale is kept. */
    method LeaveTyping()
      modifies this
      ensures config == old(config) && attached == old(attached)
      ensures Snapshot() == old(Snapshot()).(currentIsResult := false, currentValueScale := -1)
    {
      currentIsResult := false;
      currentValueScale := -1;
    }

    /** The operator key right after a computed value: the last operator is replaced. */
    method ReplaceOperator(op: Operator)
      requires |expression.operators| > 0
      modifies expression
      ensures Snapshot() == old(Snapshot()).(operators := old(expression.operators)[..|old(expression.operators)| - 1] + [op])
    {
      expression.operators := expression.operators[..|expression.operators| - 1] + [op];
    }

    method ShowOperator()
      modifies this
      ensures config == old(config) && attached == old(attached)
      ensures Snapshot() == OperatorShown(config, old(Snapshot()))
    {
      Emit(AnswerBtnVisible(config.isAnswerBtnShown && resultValue.Some?));
      ghost var s1 := Snapshot();
      UpdateCurrentValue();
      assert Snapshot() == CurrentValueUpdated(config, s1);
      UpdateExpression();
    }

    method OnOperatorBtnClicked(op: Operator)
      requires Valid()
      modifies this, expression
      ensures Valid() && config == old(config)
      ensures Snapshot() == OperatorPressed(config, old(Snapshot()), op)
    {
      ClearExpressionIfNeeded();
      var dismissed := DismissError();
      if dismissed {
        return;
      }
      ApplyOperator(op);
    }

    method OnDecimalSepBtnClicked()
      requires Valid()
      modifies this, expression
      ensures Valid() && config == old(config)
      ensures Snapshot() == DecimalSepPressed(config, old(Snapshot()))
    {
      ClearExpressionIfNeeded();
      DismissOldValue();
      if currentValueScale == -1 {
        InsertPoint();
        UpdateCurrentValue();
      }
    }

    method InsertPoint()
      modifies this
      ensures config == old(config) && attached == old(attached)
      ensures Snapshot() == PointInserted(old(Snapshot()))
    {
      ghost var s0 := Snapshot();
      if currentValue.None? {
        currentValue := Some(Zero);
      }
      currentValueScale := 0;
      assert Snapshot() == s0.(currentValue := Some(OrZero(s0.currentValue)), currentValueScale := 0);
    }

    method OnSignBtnClicked()
      requires Valid()
      modifies this
      ensures Valid() && config == old(config)
      ensures Snapshot() == SignPressed(config, old(Snapshot()))
    {
      ApplySign();
    }

    /** The steps of onSignBtnClicked. */
    method ApplySign()
      modifies this
      ensures config == old(config) && attached == old(attached)
      ensures Snapshot() == SignPressed(config, old(Snapshot()))
    {
      var _ := DismissError();
      DismissAnswer();
      if !canEditCurrentValue && !currentIsResult && |expression.numbers| > 0 {
        DiscardValue();
      }
      ToggleSign();
      UpdateCurrentValue();
    }

    /** A value that is not zero is negated. */
    method ToggleSign()
      modifies this
      ensures config == old(config) && attached == old(attached)
      ensures Snapshot() == old(Snapshot()).(currentValue := Toggled(old(currentValue)))
    {
      ghost var s0 := Snapshot();
      if currentValue.Some? && Cmp(currentValue.value, Zero) != 0 {
        currentValue := Some(Negate(currentValue.value));
      }
      assert Snapshot() == s0.(currentValue := Toggled(s0.currentValue));
    }

    method OnEqualBtnClicked()
      requires Valid()
      modifies this, expression
      ensures Valid() && config == old(config)
      ensures Snapshot() == EqualPressed(config, old(Snapshot()))
    {
      ClearExpressionIfNeeded();
      var dismissed := DismissError();
      if dismissed {
        return;
      }
      Equal();
    }

    /** onAnswerBtnClicked; the source asserts that there is a result value, which is not required here. */
    method OnAnswerBtnClicked()
      requires Valid()
      modifies this
      ensures Valid() && config == old(config)
      ensures Snapshot() == AnswerPressed(config, old(Snapshot()))
    {
      ghost var s0 := Snapshot();
      currentValue := resultValue;
      currentValueScale := -1;
      currentIsAnswer := true;
      canEditCurrentValue := false;
      view := Then(view, AnswerBtnVisible(false));
      assert Snapshot() == Show(s0.(currentValue := s0.resultValue, currentValueScale := -1,
        currentIsAnswer := true, canEditCurrentValue := false), AnswerBtnVisible(false));
      UpdateCurrentValue();
    }

    method OnClearBtnClicked()
      requires Valid()
      modifies this, expression
      ensures Valid() && config == old(config)
      ensures Snapshot() == ClearPressed(config, old(Snapshot()))
    {
      ClearExpressionIfNeeded();
      var dismissed := DismissError();
      if dismissed {
        return;
      }
      Reset();
      ghost var s2 := Snapshot();
      view := Then(view, AnswerBtnVisible(false));
      assert Snapshot() == Show(s2, AnswerBtnVisible(false));
      UpdateCurrentValue();
      UpdateExpression();
    }

    method OnCancelBtnClicked()
      requires Valid()
      modifies this
      ensures Valid() && config == old(config)
      ensures Snapshot() == CancelPressed(old(Snapshot()))
    {
      ghost var s0 := Snapshot();
      view := Then(view, Exited);
      assert Snapshot() == Show(s0, Exited);
    }

    /** The checks of OK once the expression is reduced to its value. */
    method CheckBounds()
      modifies this
      ensures config == old(config) && attached == old(attached)
      ensures Snapshot() == BoundsChecked(config, old(Snapshot()))
    {
      ghost var s0 := Snapshot();
      if resultValue.Some? {
        if config.maxValue.Some? && Cmp(resultValue.value, config.maxValue.value) > 0 {
          SetError(if Cmp(config.maxValue.value, Zero) == 0 then WrongSignNeg else OutOfBounds);
          return;
        } else if config.minValue.Some? && Cmp(resultValue.value, config.minValue.value) < 0 {
          SetError(if Cmp(config.minValue.value, Zero) == 0 then WrongSignPos else OutOfBounds);
          return;
        }
      }
      assert !AboveMax(config, s0) && !BelowMin(config, s0);
      if errorCode == NoError {
        view := Then(view, ValueSent(resultValue));
        view := Then(view, Exited);
        assert Snapshot() == Show(Show(s0, ValueSent(s0.resultValue)), Exited);
      }
    }

    method OnOkBtnClicked()
      requires Valid()
      modifies this, expression
      ensures Valid() && config == old(config)
      ensures Snapshot() == OkPressed(config, old(Snapshot()))
    {
      ClearExpressionIfNeeded();
      var dismissed := DismissError();
      if dismissed {
        return;
      }
      Equal();
      if |expression.numbers| > 1 {
        return;
      }
      CheckBounds();
    }

    method OnDismissed()
      requires Valid()
      modifies this, expression
      ensures Valid() && config == old(config)
      ensures Snapshot() == Dismissed(old(Snapshot()))
    {
      Reset();
    }
  }
}

/**
 * The presenter of the string-token generation (com.nmaltais.calcdialog.CalcPresenter).
 * The value being typed is a text token, edited in place, that holds the settings' decimal
 * separator and grouping separators; an operation reads it back as a decimal. Each handler
 * is specified by a function from the presenter's state before it to its state after it,
 * or to the Java exception it raises; the view calls it makes are added, in order, to a log.
 */
module TokenPresenter {
  import opened Wrappers
  import opened Text
  import opened Decimal
  import opened DialogUtils
  import opened Token
  import TokenSettings

  const OperationNone := -1
  const OperationAdd := 0
  const OperationSub := 1
  const OperationMult := 2
  const OperationDiv := 3

  const ErrorNone := -1
  const ErrorDivZero := 0
  const ErrorOutOfBounds := 1
  const ErrorWrongSignPos := 2
  const ErrorWrongSignNeg := 3

  /** The calls the presenter makes on its view. */
  datatype Event =
    | ValueTextShown(text: string)
    | ErrorTextShown(code: int)
    | AnswerTextShown
    | AnswerBtnVisible(visible: bool)
    | EqualBtnVisible(visible: bool)
    | DecimalSepBtnEnabled(enabled: bool)
    | SignBtnVisible(visible: bool)
    | ValueSent(value: Option<Dec>)
    | Exited

  /** The view calls made so far: `Then(log, e)` is the calls of `log` followed by e. */
  datatype Log = Empty | Then(before: Log, last: Event)

  /** The settings the presenter reads once attached, with the text it shows for zero. */
  datatype Config = Config(
    decimalSep: char,
    groupSep: char,
    groupSize: int,
    maxIntDigits: int,
    maxFracDigits: int,
    roundingMode: RoundingMode,
    maxValue: Option<Dec>,
    signCanBeChanged: bool,
    initialSign: int,
    clearOnOperation: bool,
    showZeroWhenNoValue: bool,
    preventLeadingZeroes: bool,
    showAnswerBtn: bool,
    showSignBtn: bool,
    zeroString: string)

  /** The presenter's fields and the view calls so far. */
  datatype State = State(
    operation: int,
    error: int,
    valueStr: string,
    resultValue: Option<Dec>,
    resultIsDisplayed: bool,
    overwriteValue: bool,
    answerValue: Option<Dec>,
    currentIsAnswer: bool,
    view: Log)

  /** The state without its view log, for comparing the effect of two key sequences. */
  function Fields(s: State): State
  {
    s.(view := Empty)
  }

  function Show(s: State, e: Event): (r: State)
    ensures Fields(r) == Fields(s)
  {
    s.(view := Then(s.view, e))
  }

  function OrZero(v: Option<Dec>): Dec
  {
    if v.None? then Zero else v.value
  }

  function Negated(v: Option<Dec>): (r: Option<Dec>)
    ensures r.None? <==> v.None?
  {
    if v.None? then None else Some(Negate(v.value))
  }

  /** zeroString: BigDecimal.ZERO's text with the '.' localised. */
  function ZeroText(decimalSep: char): string
  {
    PointLocalised(ToPlainString(Zero), decimalSep)
  }

  /** The text shown for no value whatever the separator: "0". */
  lemma ZeroTextIsZero(decimalSep: char)
    ensures ZeroText(decimalSep) == "0"
  {
    assert ToPlainString(Zero) == "0";
  }

  /** setAnswerBtnVisible: the answer key and the equal key are shown in turn. */
  function AnswerBtnShown(s: State, visible: bool): (r: State)
    ensures Fields(r) == Fields(s)
  {
    Show(Show(s, AnswerBtnVisible(visible)), EqualBtnVisible(!visible))
  }

  /** view.displayValueText(valueStr) */
  function Displayed(s: State): (r: State)
    ensures Fields(r) == Fields(s)
  {
    Show(s, ValueTextShown(s.valueStr))
  }

  /** formatValue: an empty token becomes zeroString (to be overwritten), any other is formatted. */
  function ValueFormatted(c: Config, s: State): (r: State)
    ensures Fields(r) == Fields(s).(valueStr := r.valueStr, overwriteValue := r.overwriteValue)
  {
    if s.valueStr == [] && c.showZeroWhenNoValue then s.(valueStr := c.zeroString, overwriteValue := true)
    else s.(valueStr := Formatted(s.valueStr, c.decimalSep, c.groupSep, c.groupSize))
  }

  /** removeGroupSeparators */
  function SeparatorsRemoved(c: Config, s: State): (r: State)
    ensures Fields(r) == Fields(s).(valueStr := r.valueStr)
  {
    s.(valueStr := GroupsRemoved(s.valueStr, c.groupSep, c.groupSize))
  }

  /** The text getCurrentValue parses: groups removed and the decimal separator back to '.'. */
  function ReadText(c: Config, t: string): string
  {
    PointRestored(GroupsRemoved(t, c.groupSep, c.groupSize), c.decimalSep)
  }

  /** The decimal a token reads as; None stands for NumberFormatException. */
  function TokenValue(c: Config, t: string): Option<Dec>
  {
    Parse(ReadText(c, t))
  }

  /** getCurrentValue's edit of the token: a typed token is left in its parsed form. */
  function ValueRead(c: Config, s: State): (r: State)
    ensures Fields(r) == Fields(s).(valueStr := r.valueStr)
  {
    if s.currentIsAnswer || s.valueStr == [] then s else s.(valueStr := ReadText(c, s.valueStr))
  }

  /** getCurrentValue: the answer, ZERO for an empty token, or the token's decimal. */
  function CurrentValue(c: Config, s: State): (r: Result<Option<Dec>>)
  {
    if s.currentIsAnswer then Ok(s.answerValue)
    else if s.valueStr == [] then Ok(Some(Zero))
    else
      var v := TokenValue(c, s.valueStr);
      if v.None? then Err(NumberFormat) else Ok(v)
  }

  /** Reading the token neither looks at nor changes the stored result. */
  lemma ResultIgnored(c: Config, s: State, v: Option<Dec>)
    ensures ValueRead(c, s.(resultValue := v)) == ValueRead(c, s).(resultValue := v)
    ensures CurrentValue(c, s.(resultValue := v)) == CurrentValue(c, s)
  {
  }

  /** The token after reset: zeroString, or nothing when no zero is shown. */
  function EmptyText(c: Config): string
  {
    if c.showZeroWhenNoValue then c.zeroString else []
  }

  /** reset: no operation, result or answer, an empty token to be overwritten. */
  function Cleared(c: Config, s: State): (r: State)
    ensures r.error == s.error && r.operation == OperationNone && r.resultValue.None? && r.answerValue.None?
    ensures !r.currentIsAnswer && r.resultIsDisplayed && r.overwriteValue && r.valueStr == EmptyText(c)
  {
    var s1 := AnswerBtnShown(s.(operation := OperationNone, resultValue := None, overwriteValue := true,
      answerValue := None, currentIsAnswer := false), false);
    assert Formatted([], c.decimalSep, c.groupSep, c.groupSize) == [];
    ValueFormatted(c, s1.(valueStr := [])).(resultIsDisplayed := true)
  }

  /** The state an error leaves: the code kept, every value reset. */
  predicate ShowsError(c: Config, r: State, e: int)
  {
    && r.error == e && r.operation == OperationNone && r.resultValue.None? && r.answerValue.None?
    && !r.currentIsAnswer && r.resultIsDisplayed && r.overwriteValue && r.valueStr == EmptyText(c)
  }

  /** setError */
  function WithError(c: Config, s: State, e: int): (r: State)
    ensures ShowsError(c, r, e)
  {
    Cleared(c, Show(s.(error := e), ErrorTextShown(e)))
  }

  /** dismissError: an error is cleared and the token shown again. */
  function ErrorDismissed(s: State): (r: State)
    ensures r.error == ErrorNone
    ensures s.error == ErrorNone ==> r == s
    ensures s.error != ErrorNone ==> OnlyDismissed(s, r)
  {
    if s.error != ErrorNone then Displayed(s.(error := ErrorNone)).(resultIsDisplayed := false) else s
  }

  /** A key that met an error did nothing but dismiss it. */
  predicate OnlyDismissed(s: State, r: State)
  {
    Fields(r) == Fields(s).(error := ErrorNone, resultIsDisplayed := false)
  }

  /** The operation, the stored result and the answer are as they were. */
  predicate KeepsValues(s: State, r: State)
  {
    r.operation == s.operation && r.resultValue == s.resultValue && r.answerValue == s.answerValue
  }

  /** The state calculate leaves after a result: stored stripped, shown formatted, no operation pending. */
  predicate ShowsResult(c: Config, r: State)
  {
    && r.resultValue.Some?
    && StripTrailingZeroes(r.resultValue.value) == r.resultValue.value
    && r.valueStr == Formatted(ToPlainString(r.resultValue.value), c.decimalSep, c.groupSep, c.groupSize)
    && r.resultIsDisplayed && r.operation == OperationNone
  }

  /**
   * The end of calculate: a result outside the bounds is an OUT_OF_BOUNDS error; any other
   * is set to maxFracDigits digits with the rounding mode, stripped and shown.
   */
  function ResultShown(c: Config, s: State): (r: Result<State>)
    ensures r.Ok? ==> ShowsResult(c, r.value) || ShowsError(c, r.value, ErrorOutOfBounds)
  {
    if s.resultValue.None? then Err(NullPointer)
    else if IsValueOutOfBounds(s.resultValue.value, c.maxValue) then Ok(WithError(c, s, ErrorOutOfBounds))
    else
      match SetScale(s.resultValue.value, c.maxFracDigits, c.roundingMode)
      case Err(f) => Err(f)
      case Ok(y) =>
        var z := StripTrailingZeroes(y);
        StripIdempotent(y);
        assert |ToPlainString(z)| > 0;
        Ok(Displayed(ValueFormatted(c, s.(resultValue := Some(z), valueStr := ToPlainString(z))))
          .(resultIsDisplayed := true, operation := OperationNone))
  }

  /** The arithmetic of calculate: acc op operand; an unknown operation leaves acc. */
  function Combined(op: int, acc: Dec, operand: Dec, scale: int, mode: RoundingMode): Result<Dec>
  {
    if op == OperationAdd then Ok(Add(acc, operand))
    else if op == OperationSub then Ok(Sub(acc, operand))
    else if op == OperationMult then Ok(Mul(acc, operand))
    else if op == OperationDiv then Divide(acc, operand, scale, mode)
    else Ok(acc)
  }

  predicate IsArithmetic(op: int)
  {
    op == OperationAdd || op == OperationSub || op == OperationMult || op == OperationDiv
  }

  /** calculate's update of resultValue by the operand (the zero-divisor test apart). */
  function Operated(c: Config, s: State, operand: Option<Dec>): (r: Result<State>)
    requires s.resultValue.Some?
  {
    if !IsArithmetic(s.operation) then Ok(s)
    else if operand.None? then Err(NullPointer)
    else
      match Combined(s.operation, s.resultValue.value, operand.value, c.maxFracDigits, c.roundingMode)
      case Err(f) => Err(f)
      case Ok(x) => Ok(s.(resultValue := Some(x)))
  }

  /**
   * calculate: nothing while a result is displayed; otherwise the result becomes the token's
   * value, or the stored result (ZERO when none) combined with it, and ends as a shown
   * result, a DIV_ZERO error or an OUT_OF_BOUNDS error.
   */
  function Calculated(c: Config, s: State): (r: Result<State>)
    ensures s.resultIsDisplayed ==> r == Ok(s)
    ensures r.Ok? && !s.resultIsDisplayed ==>
      ShowsResult(c, r.value) || ShowsError(c, r.value, ErrorDivZero) || ShowsError(c, r.value, ErrorOutOfBounds)
  {
    if s.resultIsDisplayed then Ok(s)
    else
      match CurrentValue(c, s)
      case Err(f) => Err(f)
      case Ok(v) =>
        if s.operation == OperationNone || s.valueStr == [] then ResultShown(c, ValueRead(c, s).(resultValue := v))
        else
          var s1 := ValueRead(c, s).(resultValue := Some(OrZero(s.resultValue)));
          if s.operation == OperationDiv && v.Some? && Cmp(v.value, Zero) == 0 then Ok(WithError(c, s1, ErrorDivZero))
          else
            match Operated(c, s1, v)
            case Err(f) => Err(f)
            case Ok(s2) => ResultShown(c, s2)
  }

  /** The answer is no longer the value, and the answer button is hidden. */
  function EditBegun(s: State): (r: State)
    ensures Fields(r) == Fields(s).(currentIsAnswer := false)
  {
    AnswerBtnShown(s.(currentIsAnswer := false), false)
  }

  /** A displayed result or an overwrite token is cleared before an edit. */
  function ShownDiscarded(s: State): (r: State)
    ensures Fields(r) == Fields(s).(valueStr := r.valueStr, overwriteValue := r.overwriteValue)
    ensures !r.overwriteValue && (s.resultIsDisplayed || s.overwriteValue ==> r.valueStr == [])
  {
    if s.resultIsDisplayed || s.overwriteValue then s.(valueStr := [], overwriteValue := false) else s
  }

  /** The token is formatted and displayed, and it no longer shows a result. */
  function Refreshed(c: Config, s: State): (r: State)
    ensures !r.resultIsDisplayed
  {
    Displayed(ValueFormatted(c, s)).(resultIsDisplayed := false)
  }

  /** The erase edit on the ungrouped token: ErasedTail, with "-0" left by it turned into "0". */
  function ErasedToken(t: string, decimalSep: char): (r: string)
    requires |t| > 0
  {
    var u := ErasedTail(t, decimalSep);
    if |u| < |t| - 1 && u == "-0" then "0" else u
  }

  /**
   * onErasedOnce: after a dismissed error nothing else; an empty token stays; a result or an
   * overwrite token is cleared; any other one loses its last character as ErasedToken says.
   */
  function ErasePressed(c: Config, s: State): (r: Result<State>)
    ensures s.error != ErrorNone ==> r.Ok? && OnlyDismissed(s, r.value)
    ensures r.Err? ==> r.fault == IndexOutOfBounds
    ensures r.Ok? ==> KeepsValues(s, r.value) && r.value.error == ErrorNone
    ensures r.Ok? && s.error == ErrorNone ==> !r.value.currentIsAnswer
  {
    if s.error != ErrorNone then Ok(ErrorDismissed(s))
    else
      var s1 := EditBegun(s);
      if s1.valueStr == [] then Ok(s1)
      else if s1.resultIsDisplayed || s1.overwriteValue then Ok(Refreshed(c, s1.(valueStr := [], overwriteValue := false)))
      else
        var s2 := SeparatorsRemoved(c, s1);
        if s2.valueStr == [] then Err(IndexOutOfBounds)
        else Ok(Refreshed(c, s2.(valueStr := ErasedToken(s2.valueStr, c.decimalSep))))
  }

  /** The index of the decimal separator in a typed token, and the digits after it. */
  function FracLength(t: string, decimalSep: char): int
  {
    |t| - IndexOf(t, decimalSep) - 1
  }

  /**
   * The digit edit on the ungrouped token: the digit is appended while the integer part
   * (sign included) or the fraction is below its limit, unless it is a 0 after a lone "0"
   * with leading zeros prevented; a lone "0" is replaced by a nonzero digit.
   */
  function DigitTyped(c: Config, t: string, digit: nat): (r: string)
    requires digit < 10
  {
    var p := IndexOf(t, c.decimalSep);
    var withinMaxInt := p == -1 && (c.maxIntDigits == TokenSettings.MaxDigitsUnlimited || |t| < c.maxIntDigits);
    var withinMaxFrac := p != -1 && (c.maxFracDigits == TokenSettings.MaxDigitsUnlimited || |t| - p - 1 < c.maxFracDigits);
    var isValueZero := p == -1 && |t| == 1 && t[0] == '0';
    if (withinMaxInt || withinMaxFrac) && (!isValueZero || !c.preventLeadingZeroes || digit != 0) then
      (if isValueZero && digit != 0 then [] else t) + [DigitChar(digit)]
    else t
  }

  /** onDigitBtnClicked: an error is dismissed and the digit still typed. */
  function DigitPressed(c: Config, s: State, digit: nat): (r: State)
    requires digit < 10
    ensures KeepsValues(s, r) && r.error == ErrorNone && !r.currentIsAnswer && !r.resultIsDisplayed
  {
    var s1 := SeparatorsRemoved(c, ShownDiscarded(EditBegun(ErrorDismissed(s))));
    Refreshed(c, s1.(valueStr := DigitTyped(c, s1.valueStr, digit)))
  }

  /** onOperatorBtnClicked's first operand: the token's value becomes the result. */
  function OperandStored(c: Config, s: State): (r: Result<State>)
  {
    match CurrentValue(c, s)
    case Err(f) => Err(f)
    case Ok(v) =>
      var s1 := ValueRead(c, s).(resultValue := v);
      Ok(if !c.clearOnOperation then ValueFormatted(c, s1.(valueStr := [])).(resultIsDisplayed := false) else s1)
  }

  /** The end of onOperatorBtnClicked: the operation is recorded, the answer key offered. */
  function OperatorSet(c: Config, s: State, op: int): (r: State)
    ensures r.operation == op
  {
    var s1 := s.(operation := op);
    var s2 := if c.clearOnOperation then Refreshed(c, s1.(valueStr := [])) else s1;
    AnswerBtnShown(s2, c.showAnswerBtn && s2.answerValue.Some?)
  }

  /**
   * onOperatorBtnClicked: with a token or an answer, a pending operation is calculated, or
   * else the value is stored as the first operand; then the operation is recorded.
   */
  function OperatorPressed(c: Config, s: State, op: int): (r: Result<State>)
    ensures s.error != ErrorNone ==> r.Ok? && OnlyDismissed(s, r.value)
    ensures r.Ok? && s.error == ErrorNone ==> r.value.operation == op
  {
    if s.error != ErrorNone then Ok(ErrorDismissed(s))
    else
      match OperandTaken(c, s)
      case Err(f) => Err(f)
      case Ok(s1) => Ok(OperatorSet(c, s1, op))
  }

  /** With a token or an answer, the pending operation is calculated or the value stored. */
  function OperandTaken(c: Config, s: State): (r: Result<State>)
  {
    if s.valueStr != [] || s.currentIsAnswer then
      (if s.operation != OperationNone then Calculated(c, s) else OperandStored(c, s))
    else Ok(s)
  }

  /** onDecimalSepBtnClicked: the separator is appended unless the token has one. */
  function DecimalSepPressed(c: Config, s: State): (r: State)
    ensures c.decimalSep in r.valueStr && !r.overwriteValue
    ensures KeepsValues(s, r) && r.error == ErrorNone && !r.currentIsAnswer
  {
    var s1 := ShownDiscarded(EditBegun(ErrorDismissed(s)));
    if c.decimalSep in s1.valueStr then s1
    else Displayed(s1.(valueStr := PointAppended(s1.valueStr, c.decimalSep))).(resultIsDisplayed := false)
  }

  /**
   * onSignBtnClicked, with the displayed values negated only where they are present (see
   * SignPressedAsWritten): the token's leading '-' is toggled unless it reads as no value or zero.
   */
  function SignPressed(c: Config, s: State): (r: State)
    ensures s.error != ErrorNone ==> OnlyDismissed(s, r)
    ensures s.error == ErrorNone && !SignApplies(s.valueStr, c.decimalSep) ==> r == s
    ensures r.operation == s.operation && r.error == ErrorNone && r.currentIsAnswer == s.currentIsAnswer
    ensures (r.resultValue.None? <==> s.resultValue.None?) && (r.answerValue.None? <==> s.answerValue.None?)
  {
    if s.error != ErrorNone then ErrorDismissed(s)
    else if !SignApplies(s.valueStr, c.decimalSep) then s
    else
      var s1 := s.(valueStr := SignToggled(s.valueStr));
      var s2 := if s1.resultIsDisplayed then s1.(resultValue := Negated(s1.resultValue), answerValue := Negated(s1.answerValue)) else s1;
      Displayed(s2).(resultIsDisplayed := false)
  }

  /** onSignBtnClicked as written: a displayed result with no answer stored throws. */
  function SignPressedAsWritten(c: Config, s: State): (r: Result<State>)
    ensures r.Err? <==> (s.error == ErrorNone && SignApplies(s.valueStr, c.decimalSep) && s.resultIsDisplayed
      && (s.resultValue.None? || s.answerValue.None?))
    ensures r.Err? ==> r.fault == NullPointer
    ensures r.Ok? ==> r.value == SignPressed(c, s)
  {
    if s.error != ErrorNone then Ok(ErrorDismissed(s))
    else if !SignApplies(s.valueStr, c.decimalSep) then Ok(s)
    else
      var s1 := s.(valueStr := SignToggled(s.valueStr));
      if s1.resultIsDisplayed && (s1.resultValue.None? || s1.answerValue.None?) then Err(NullPointer)
      else
        var s2 := if s1.resultIsDisplayed then s1.(resultValue := Negated(s1.resultValue), answerValue := Negated(s1.answerValue)) else s1;
        Ok(Displayed(s2).(resultIsDisplayed := false))
  }

  /** onEqualBtnClicked: calculate, then the result is the answer. */
  function EqualPressed(c: Config, s: State): (r: Result<State>)
    ensures s.error != ErrorNone ==> r.Ok? && OnlyDismissed(s, r.value)
    ensures r.Ok? && s.error == ErrorNone ==> r.value.answerValue == r.value.resultValue
    ensures r.Ok? && s.error == ErrorNone && !s.resultIsDisplayed ==>
      ShowsResult(c, r.value) || ShowsError(c, r.value, ErrorDivZero) || ShowsError(c, r.value, ErrorOutOfBounds)
  {
    if s.error != ErrorNone then Ok(ErrorDismissed(s))
    else
      match Calculated(c, s)
      case Err(f) => Err(f)
      case Ok(r) => Ok(r.(answerValue := r.resultValue))
  }

  /** onAnswerBtnClicked */
  function AnswerPressed(s: State): (r: State)
    ensures Fields(r) == Fields(s).(currentIsAnswer := true, resultIsDisplayed := false)
  {
    Show(AnswerBtnShown(s, false), AnswerTextShown).(currentIsAnswer := true, resultIsDisplayed := false)
  }

  /** clear, for the clear key and erase-all: reset, then the emptied token shown. */
  function ClearPressed(c: Config, s: State): (r: State)
    ensures s.error != ErrorNone ==> OnlyDismissed(s, r)
    ensures s.error == ErrorNone ==> (r.error == ErrorNone && r.operation == OperationNone && r.resultValue.None?
      && r.answerValue.None? && !r.currentIsAnswer && !r.resultIsDisplayed && r.overwriteValue && r.valueStr == EmptyText(c))
  {
    if s.error != ErrorNone then ErrorDismissed(s)
    else Displayed(Cleared(c, EditBegun(s))).(resultIsDisplayed := false)
  }

  /** onCancelBtnClicked */
  function CancelPressed(s: State): (r: State)
    ensures Fields(r) == Fields(s) && r.view.Then? && r.view.last == Exited
  {
    Show(s, Exited)
  }

  /** The sign check of onOkBtnClicked and the sending of the result. */
  function SignChecked(c: Config, s: State): (r: State)
  {
    if s.error != ErrorNone then s
    else if !c.signCanBeChanged && s.resultValue.Some? && Signum(s.resultValue.value) != 0
      && Signum(s.resultValue.value) != c.initialSign then
      WithError(c, s, if Signum(s.resultValue.value) == 1 then ErrorWrongSignNeg else ErrorWrongSignPos)
    else Show(Show(s, ValueSent(s.resultValue)), Exited)
  }

  /** onOkBtnClicked: calculate; with an operation pending that is all, like the equal key. */
  function OkPressed(c: Config, s: State): (r: Result<State>)
    ensures s.error != ErrorNone ==> r.Ok? && OnlyDismissed(s, r.value)
    ensures s.error == ErrorNone ==> (r.Err? <==> Calculated(c, s).Err?)
    ensures s.error == ErrorNone && s.operation != OperationNone ==> r == Calculated(c, s)
  {
    if s.error != ErrorNone then Ok(ErrorDismissed(s))
    else
      match Calculated(c, s)
      case Err(f) => Err(f)
      case Ok(r) => Ok(if s.operation != OperationNone then r else SignChecked(c, r))
  }

  /** onDismissed */
  function Dismissed(c: Config, s: State): (r: State)
    ensures r.error == s.error && r.operation == OperationNone && r.resultValue.None? && r.answerValue.None?
    ensures !r.currentIsAnswer && r.valueStr == EmptyText(c)
  {
    Cleared(c, s)
  }

  /** The value attach starts from: the initial value at maxFracDigits digits, stripped. */
  function StartValue(c: Config, s: State, initialValue: Option<Dec>): (r: Result<State>)
  {
    var s0 := s.(answerValue := None, currentIsAnswer := false, operation := OperationNone, error := ErrorNone,
      resultValue := None, resultIsDisplayed := true);
    if initialValue.None? then Ok(s0.(valueStr := []))
    else
      match SetScale(initialValue.value, c.maxFracDigits, c.roundingMode)
      case Err(f) => Err(f)
      case Ok(y) =>
        var z := StripTrailingZeroes(y);
        Ok(s0.(resultValue := Some(z), answerValue := Some(z), valueStr := ToPlainString(z)))
  }

  /** The view set-up that ends attach. */
  function ViewSetUp(c: Config, s: State): (r: State)
  {
    var s1 := Show(s, DecimalSepBtnEnabled(c.maxFracDigits > 0));
    Show(AnswerBtnShown(s1, c.showAnswerBtn && s1.answerValue.Some?), SignBtnVisible(c.showSignBtn))
  }

  /** attach without saved state. */
  function Attached(c: Config, s: State, initialValue: Option<Dec>): (r: Result<State>)
    ensures r.Err? <==> initialValue.Some? && SetScale(initialValue.value, c.maxFracDigits, c.roundingMode).Err?
    ensures r.Ok? ==> r.value.error == ErrorNone && r.value.operation == OperationNone && r.value.resultIsDisplayed
    ensures r.Ok? ==> r.value.resultValue == r.value.answerValue && (r.value.resultValue.Some? <==> initialValue.Some?)
  {
    match StartValue(c, s, initialValue)
    case Err(f) => Err(f)
    case Ok(s1) => Ok(ViewSetUp(c, Displayed(ValueFormatted(c, s1))))
  }

  // ---------------------------------------------------------------------------------------
  // Reading a shown result back

  /** Separators that differ from each other, from the digits and from '-'. */
  predicate SymbolsApart(c: Config)
  {
    && !IsDigit(c.decimalSep) && c.decimalSep != '-'
    && !IsDigit(c.groupSep) && c.groupSep != '-' && c.groupSep != c.decimalSep
  }

  /** The characters toPlainString writes. */
  predicate PlainChars(t: string)
  {
    forall i :: 0 <= i < |t| ==> IsDigit(t[i]) || t[i] == '-' || t[i] == '.'
  }

  /** toPlainString writes digits, '-' and '.', and no '.' is left once the first is localised. */
  lemma PlainTextShape(d: Dec, decimalSep: char)
    requires decimalSep != '.'
    ensures PlainChars(ToPlainString(d)) && '.' !in PointLocalised(ToPlainString(d), decimalSep)
  {
    if d.scale <= 0 {
      PlainShapeUnscaled(d);
    } else {
      PlainShapeScaled(d, decimalSep);
    }
  }

  lemma PlainShapeUnscaled(d: Dec)
    requires d.scale <= 0
    ensures PlainChars(ToPlainString(d)) && '.' !in ToPlainString(d)
  {
    var t := ToPlainString(d);
    if d.unscaled != 0 {
      var ds := DigitsOf(Abs(d.unscaled)) + Zeros(-d.scale);
      assert t == SignText(d.unscaled < 0) + ds;
      assert forall i :: 0 <= i < |ds| ==> IsDigit(ds[i]);
    }
    assert forall i :: 0 <= i < |t| ==> t[i] != '.';
  }

  lemma PlainShapeScaled(d: Dec, decimalSep: char)
    requires d.scale > 0 && decimalSep != '.'
    ensures PlainChars(ToPlainString(d)) && '.' !in PointLocalised(ToPlainString(d), decimalSep)
  {
    var p := Padded(Abs(d.unscaled), d.scale + 1);
    var k := |p| - d.scale;
    PlainTextScaled(d);
    var t := SignText(d.unscaled < 0) + (p[..k] + "." + p[k..]);
    assert ToPlainString(d) == t;
    DigitsSplit(p, k);
    PointTextShape(SignText(d.unscaled < 0), p[..k], p[k..], decimalSep);
    assert PlainChars(t) && '.' !in PointLocalised(t, decimalSep);
  }

  /** A sign, digits, '.', digits: plain characters, and no '.' once it is localised. */
  lemma PointTextShape(sign: string, a: string, b: string, x: char)
    requires sign == "" || sign == "-"
    requires AllDigits(a) && AllDigits(b) && x != '.'
    ensures PlainChars(sign + (a + "." + b)) && '.' !in PointLocalised(sign + (a + "." + b), x)
  {
    var before := sign + a;
    assert sign + (a + "." + b) == before + ("." + b);
    assert forall i :: 0 <= i < |before| ==> before[i] == '-' || IsDigit(before[i]);
    PlainPieces(before, b);
    LocalisedPieces(before, b, x);
  }

  /** Signs and digits, then '.' and digits: only plain characters. */
  lemma PlainPieces(before: string, b: string)
    requires forall i :: 0 <= i < |before| ==> before[i] == '-' || IsDigit(before[i])
    requires AllDigits(b)
    ensures PlainChars(before + ("." + b))
  {
    var t := before + ("." + b);
    forall i | 0 <= i < |t|
      ensures IsDigit(t[i]) || t[i] == '-' || t[i] == '.'
    {
      if i < |before| {
        assert t[i] == before[i];
      } else if i > |before| {
        assert t[i] == b[i - |before| - 1];
      }
    }
  }

  /** The only '.' of such a text is the one localisation replaces. */
  lemma LocalisedPieces(before: string, b: string, x: char)
    requires '.' !in before && AllDigits(b) && x != '.'
    ensures '.' !in PointLocalised(before + ("." + b), x)
  {
    var c := "." + b;
    IndexOfAfter(before, c, '.');
    assert c[0] == '.';
    assert IndexOf(c, '.') == 0;
    PointReplaced(before, b, x);
    assert PointLocalised(before + c, x) == before + [x] + b;
    assert '.' !in b;
  }

  lemma PointReplaced(a: string, b: string, x: char)
    ensures (a + ("." + b))[|a| := x] == a + [x] + b
  {
    var r := (a + ("." + b))[|a| := x];
    assert forall i :: 0 <= i < |r| ==> r[i] == (a + [x] + b)[i];
  }

  /** A character of neither kind in the localised text of a plain number. */
  lemma NotInLocalised(t: string, decimalSep: char, x: char)
    requires PlainChars(t) && x != decimalSep && !IsDigit(x) && x != '-'
    requires x == '.' ==> '.' !in PointLocalised(t, decimalSep)
    ensures x !in PointLocalised(t, decimalSep)
  {
    var r := PointLocalised(t, decimalSep);
    var p := IndexOf(t, '.');
    forall i | 0 <= i < |r|
      ensures r[i] != x
    {
      if x != '.' && !(p != -1 && i == p) {
        assert r[i] == t[i];
      }
    }
  }

  /** The shown text of a result, read back, is toPlainString's text of it. */
  lemma ShownTextReadBack(c: Config, d: Dec)
    requires SymbolsApart(c)
    ensures ReadText(c, Formatted(ToPlainString(d), c.decimalSep, c.groupSep, c.groupSize)) == ToPlainString(d)
  {
    var t := ToPlainString(d);
    if c.decimalSep != '.' {
      PlainTextShape(d, c.decimalSep);
    } else {
      PlainTextShape(d, ',');
    }
    NotInLocalised(t, c.decimalSep, c.groupSep);
    FormattedThenUngrouped(t, c.decimalSep, c.groupSep, c.groupSize);
    assert c.decimalSep == '.' || c.decimalSep !in t;
    PointRoundTrip(t, c.decimalSep);
  }

  /** The decimal new BigDecimal(String) reads from toPlainString's text. */
  function PlainValue(d: Dec): Dec
  {
    if d.scale >= 0 then d else Dec(d.unscaled * Pow10(-d.scale), 0)
  }

  /** Digits followed by k zeros are worth 10^k times the digits. */
  lemma {:induction false} TrailingZerosValue(s: string, k: nat)
    requires AllDigits(s)
    ensures AllDigits(s + Zeros(k)) && DigitsValue(s + Zeros(k)) == DigitsValue(s) * Pow10(k)
  {
    var z := s + Zeros(k);
    assert forall i :: 0 <= i < |z| ==> IsDigit(z[i]);
    if k > 0 {
      assert z[..|z| - 1] == s + Zeros(k - 1);
      TrailingZerosValue(s, k - 1);
      assert DigitsValue(z) == DigitsValue(s + Zeros(k - 1)) * 10 + DigitValue('0');
      var a, p := DigitsValue(s), Pow10(k - 1);
      assert DigitsValue(z) == (a * p) * 10 && Pow10(k) == 10 * p;
      MulAssoc(a, p, 10);
      assert p * 10 == 10 * p;
    } else {
      assert z == s;
    }
  }

  /**
   * Parsing toPlainString's text gives the decimal back: exactly when its scale is not
   * negative, and otherwise the same value at scale 0.
   */
  lemma PlainStringReadBack(d: Dec)
    ensures Parse(ToPlainString(d)) == Some(PlainValue(d)) && SameValue(PlainValue(d), d)
    ensures d.scale >= 0 ==> PlainValue(d) == d
  {
    if d.scale >= 0 {
      PlainStringRoundTrip(d);
    } else if d.unscaled == 0 {
      ParseZeroText();
      assert PlainValue(d) == Zero;
    } else {
      NegativeScaleReadBack(d);
    }
  }

  lemma NegativeScaleReadBack(d: Dec)
    requires d.scale < 0 && d.unscaled != 0
    ensures Parse(ToPlainString(d)) == Some(PlainValue(d)) && SameValue(PlainValue(d), d)
  {
    ShiftedParse(d.unscaled, -d.scale);
    assert d == Dec(d.unscaled, -(-d.scale));
    ShiftedSameValue(d);
  }

  lemma ShiftedSameValue(d: Dec)
    requires d.scale < 0
    ensures SameValue(PlainValue(d), d)
  {
    var v := PlainValue(d);
    assert ValueAt(v, 0) == v.unscaled;
    assert ValueAt(d, 0) == v.unscaled;
  }

  lemma ShiftedParse(u: int, k: int)
    requires u != 0 && k > 0
    ensures Parse(ToPlainString(Dec(u, -k))) == Some(Dec(u * Pow10(k), 0))
  {
    var n := Abs(u);
    ShiftedText(Dec(u, -k));
    ShiftedDigitsParse(u < 0, n, k);
    SignedShift(u, k);
  }

  lemma ShiftedText(d: Dec)
    requires d.scale < 0 && d.unscaled != 0
    ensures ToPlainString(d) == SignText(d.unscaled < 0) + (DigitsOf(Abs(d.unscaled)) + Zeros(-d.scale))
  {
  }

  lemma SignedShift(u: int, k: nat)
    ensures Signed(u < 0, Abs(u) * Pow10(k)) == u * Pow10(k)
  {
    if u < 0 {
      assert Abs(u) == -u;
      assert -((-u) * Pow10(k)) == u * Pow10(k);
    }
  }

  lemma ShiftedDigitsParse(neg: bool, n: nat, k: nat)
    ensures Parse(SignText(neg) + (DigitsOf(n) + Zeros(k))) == Some(Dec(Signed(neg, n * Pow10(k)), 0))
  {
    var body := DigitsOf(n) + Zeros(k);
    TrailingZerosValue(DigitsOf(n), k);
    DigitsRoundTrip(n);
    ParseSigned(neg, body);
    ParseWithoutPoint(body);
  }

  /**
   * formatValue then getCurrentValue is the identity on values: the token calculate shows
   * for a result reads back as that result (exactly, when its scale is not negative).
   */
  lemma ShownResultReadBack(c: Config, r: State)
    requires SymbolsApart(c) && ShowsResult(c, r) && !r.currentIsAnswer
    ensures CurrentValue(c, r).Ok? && CurrentValue(c, r).value.Some?
    ensures var v := CurrentValue(c, r).value.value; var z := r.resultValue.value;
      SameValue(v, z) && (z.scale >= 0 ==> v == z)
  {
    var z := r.resultValue.value;
    ShownTextReadBack(c, z);
    PlainStringReadBack(z);
    assert |ToPlainString(z)| > 0;
  }

  // ---------------------------------------------------------------------------------------
  // Digit entry

  /** Appending keeps the first index of a character the text already holds. */
  lemma IndexOfAppend(a: string, b: string, c: char)
    requires c in a
    ensures IndexOf(a + b, c) == IndexOf(a, c)
  {
    var p := IndexOf(a, c);
    assert (a + b)[..p] == a[..p];
    IndexOfFirst(a + b, c, p);
  }

  /**
   * A digit key changes the token only by appending the digit, or by replacing a lone "0"
   * with a nonzero digit; the integer-part limit and the fraction limit it checks are kept.
   */
  lemma DigitTypedBounds(c: Config, t: string, digit: nat)
    requires digit < 10 && !IsDigit(c.decimalSep)
    ensures var r := DigitTyped(c, t, digit);
      r == t || r == t + [DigitChar(digit)] || (t == "0" && digit != 0 && r == [DigitChar(digit)])
    ensures var r := DigitTyped(c, t, digit);
      c.decimalSep !in t && c.maxIntDigits != TokenSettings.MaxDigitsUnlimited && |t| <= c.maxIntDigits ==>
        c.decimalSep !in r && |r| <= c.maxIntDigits
    ensures var r := DigitTyped(c, t, digit);
      c.decimalSep in t && c.maxFracDigits != TokenSettings.MaxDigitsUnlimited && FracLength(t, c.decimalSep) <= c.maxFracDigits ==>
        IndexOf(r, c.decimalSep) == IndexOf(t, c.decimalSep) && FracLength(r, c.decimalSep) <= c.maxFracDigits
  {
    var r := DigitTyped(c, t, digit);
    var dc := DigitChar(digit);
    if c.decimalSep in t {
      if r != t {
        IndexOfAppend(t, [dc], c.decimalSep);
      }
    } else {
      assert c.decimalSep !in [dc];
      assert c.decimalSep !in t + [dc];
    }
  }

  /**
   * Which digits a key accepts: below the limit the digit is appended to any token but a
   * lone "0"; at the limit nothing changes; a lone "0" is replaced by a nonzero digit, and
   * a further 0 is dropped only when leading zeros are prevented.
   */
  lemma DigitTypedPolicy(c: Config, t: string, digit: nat)
    requires digit < 10 && !IsDigit(c.decimalSep)
    ensures var r := DigitTyped(c, t, digit);
      t != "0" && (if c.decimalSep in t then c.maxFracDigits == TokenSettings.MaxDigitsUnlimited || FracLength(t, c.decimalSep) < c.maxFracDigits
                   else c.maxIntDigits == TokenSettings.MaxDigitsUnlimited || |t| < c.maxIntDigits) ==>
        r == t + [DigitChar(digit)]
    ensures var r := DigitTyped(c, t, digit);
      (if c.decimalSep in t then c.maxFracDigits != TokenSettings.MaxDigitsUnlimited && FracLength(t, c.decimalSep) >= c.maxFracDigits
       else c.maxIntDigits != TokenSettings.MaxDigitsUnlimited && |t| >= c.maxIntDigits) ==>
        r == t
    ensures var r := DigitTyped(c, t, digit);
      t == "0" && (c.maxIntDigits == TokenSettings.MaxDigitsUnlimited || c.maxIntDigits > 1) ==>
        r == (if digit != 0 then [DigitChar(digit)] else if c.preventLeadingZeroes then t else "00")
  {
    if t == "0" {
      assert c.decimalSep !in t;
    }
  }

  // ---------------------------------------------------------------------------------------
  // Erase

  /**
   * The erase edit leaves no decimal separator or '-' at the end of a typed number, keeps
   * its marks apart and shortens it; a "-0" it would leave becomes "0".
   */
  lemma ErasedTokenClean(t: string, decimalSep: char)
    requires |t| > 0 && MarksApart(t, decimalSep)
    ensures var r := ErasedToken(t, decimalSep);
      (r == [] || !IsMark(r[|r| - 1], decimalSep)) && MarksApart(r, decimalSep) && |r| < |t|
  {
    ErasedTailClean(t, decimalSep);
    var u := ErasedTail(t, decimalSep);
    if |u| < |t| - 1 && u == "-0" {
      assert !IsMark('0', decimalSep) by {
        assert u[|u| - 1] == '0';
      }
    }
  }

  /** Erasing a digit just typed after a number that does not end in a mark gives the number back. */
  lemma TypedThenErased(t: string, decimalSep: char, digit: nat)
    requires digit < 10 && !IsDigit(decimalSep) && decimalSep != '-'
    requires t == [] || !IsMark(t[|t| - 1], decimalSep)
    ensures ErasedToken(t + [DigitChar(digit)], decimalSep) == t
  {
    var w := t + [DigitChar(digit)];
    assert w[..|w| - 1] == t;
  }

  /**
   * An erase with a result displayed, or on a token to be overwritten, empties the token:
   * it then shows EmptyText, to be overwritten again when that is zeroString.
   */
  lemma EraseOfShownValue(c: Config, s: State)
    requires s.error == ErrorNone && s.valueStr != [] && (s.resultIsDisplayed || s.overwriteValue)
    ensures ErasePressed(c, s).Ok?
    ensures var r := ErasePressed(c, s).value;
      r.valueStr == EmptyText(c) && r.overwriteValue == c.showZeroWhenNoValue && !r.resultIsDisplayed && !r.currentIsAnswer
  {
    assert Formatted([], c.decimalSep, c.groupSep, c.groupSize) == [];
  }

  /**
   * The erase key throws StringIndexOutOfBoundsException exactly when it edits a typed
   * token made of grouping separators only, so that nothing is left to delete.
   */
  lemma EraseFaults(c: Config, s: State)
    ensures ErasePressed(c, s).Err? <==>
      s.error == ErrorNone && s.valueStr != [] && !s.resultIsDisplayed && !s.overwriteValue
      && GroupsRemoved(s.valueStr, c.groupSep, c.groupSize) == []
    ensures ErasePressed(c, s).Err? ==> ErasePressed(c, s) == Err(IndexOutOfBounds)
  {
  }

  // ---------------------------------------------------------------------------------------
  // Sign

  /** The token starts a number: a digit, or '-' and then a digit. */
  predicate SignedNumber(t: string)
  {
    |t| > 0 && (if t[0] == '-' then |t| > 1 && IsDigit(t[1]) else IsDigit(t[0]))
  }

  /** Removing the grouping separators keeps a leading '-' and a leading character that is not one. */
  lemma GroupsRemovedHead(t: string, groupSep: char, groupSize: int)
    requires |t| > 0 && t[0] != groupSep && groupSep != '-'
    ensures GroupsRemoved(['-'] + t, groupSep, groupSize) == ['-'] + GroupsRemoved(t, groupSep, groupSize)
    ensures var g := GroupsRemoved(t, groupSep, groupSize); |g| > 0 && g[0] == t[0]
  {
    if groupSize > 0 {
      UngroupedAppend(['-'], t, groupSep);
      assert Ungrouped(['-'], groupSep) == ['-'];
      assert t == [t[0]] + t[1..];
      UngroupedAppend([t[0]], t[1..], groupSep);
      assert Ungrouped([t[0]], groupSep) == [t[0]];
    }
  }

  /** Restoring the point keeps a leading '-' and a leading character that is not the separator. */
  lemma PointRestoredHead(g: string, decimalSep: char)
    requires |g| > 0 && g[0] != decimalSep && decimalSep != '-'
    ensures PointRestored(['-'] + g, decimalSep) == ['-'] + PointRestored(g, decimalSep)
    ensures PointRestored(g, decimalSep)[0] == g[0]
  {
    IndexOfAfter(['-'], g, decimalSep);
    var p := IndexOf(g, decimalSep);
    if p != -1 {
      assert p != 0;
      assert (['-'] + g)[p + 1 := '.'] == ['-'] + g[p := '.'];
    }
  }

  /** Parsing a number with a '-' in front gives its negation. */
  lemma ParseMinus(x: string)
    requires |x| > 0 && IsDigit(x[0])
    ensures Parse(['-'] + x) == Negated(Parse(x))
  {
    ParseSigned(true, x);
    ParseSigned(false, x);
    assert SignText(true) + x == ['-'] + x;
    assert SignText(false) + x == x;
    var p := ParseUnsigned(x);
    if p.Some? {
      assert Negate(Dec(Signed(false, p.value.0), p.value.1)) == Dec(Signed(true, p.value.0), p.value.1);
    }
  }

  /** Reading a token with a leading '-' gives the negation of reading it without. */
  lemma MinusReadsNegated(c: Config, t: string)
    requires SymbolsApart(c) && |t| > 0 && IsDigit(t[0])
    ensures TokenValue(c, ['-'] + t) == Negated(TokenValue(c, t))
  {
    GroupsRemovedHead(t, c.groupSep, c.groupSize);
    var g := GroupsRemoved(t, c.groupSep, c.groupSize);
    PointRestoredHead(g, c.decimalSep);
    ParseMinus(PointRestored(g, c.decimalSep));
  }

  /**
   * The sign key's edit negates the number the token reads as, when the token starts a
   * number: the '-' it inserts or deletes is read as the sign.
   */
  lemma SignToggledReadsNegated(c: Config, t: string)
    requires SymbolsApart(c) && SignedNumber(t)
    ensures TokenValue(c, SignToggled(t)) == Negated(TokenValue(c, t))
  {
    if t[0] == '-' {
      var rest := t[1..];
      assert t == ['-'] + rest;
      MinusReadsNegated(c, rest);
      var v := TokenValue(c, rest);
      if v.Some? {
        assert Negate(Negate(v.value)) == v.value;
      }
    } else {
      MinusReadsNegated(c, t);
    }
  }

  /**
   * Two sign keys give the token back; the values a displayed result negates stay negated
   * once, since the first key ends the display.
   */
  lemma SignTwice(c: Config, s: State)
    requires s.error == ErrorNone && SignedNumber(s.valueStr)
    requires SignApplies(s.valueStr, c.decimalSep) && SignApplies(SignToggled(s.valueStr), c.decimalSep)
    ensures var r1 := SignPressed(c, s); var r2 := SignPressed(c, r1);
      r2.valueStr == s.valueStr && Fields(r2) == Fields(r1).(valueStr := s.valueStr)
      && r1.resultValue == (if s.resultIsDisplayed then Negated(s.resultValue) else s.resultValue)
  {
    SignToggledTwice(s.valueStr);
  }

  // ---------------------------------------------------------------------------------------
  // Decimal separator

  /** A second decimal key changes nothing but the view's answer and equal keys. */
  lemma DecimalSepTwice(c: Config, s: State)
    ensures var r1 := DecimalSepPressed(c, s);
      c.decimalSep in r1.valueStr && Fields(DecimalSepPressed(c, r1)) == Fields(r1)
  {
    var s1 := ShownDiscarded(EditBegun(ErrorDismissed(s)));
    PointAppendedOnce(s1.valueStr, c.decimalSep);
  }

  /** The decimal key writes the separator once, after the token or after a 0 on an empty one. */
  lemma DecimalSepAppends(c: Config, s: State)
    requires c.decimalSep != '0'
    ensures var s1 := ShownDiscarded(EditBegun(ErrorDismissed(s))); var r := DecimalSepPressed(c, s);
      c.decimalSep !in s1.valueStr ==>
        IndexOf(r.valueStr, c.decimalSep) == |r.valueStr| - 1 &&
        r.valueStr[..|r.valueStr| - 1] == (if s1.valueStr == [] then "0" else s1.valueStr)
  {
    var s1 := ShownDiscarded(EditBegun(ErrorDismissed(s)));
    PointAppendedOnce(s1.valueStr, c.decimalSep);
  }

  // ---------------------------------------------------------------------------------------
  // Calculate, equal and OK

  /**
   * How calculate ends for the value x it computed: an OUT_OF_BOUNDS error outside the
   * bounds, the rounding fault of setScale, or x at maxFracDigits digits, stripped and shown.
   */
  predicate Settles(c: Config, r: Result<State>, x: Dec)
  {
    if IsValueOutOfBounds(x, c.maxValue) then r.Ok? && ShowsError(c, r.value, ErrorOutOfBounds)
    else
      match SetScale(x, c.maxFracDigits, c.roundingMode)
      case Err(f) => r == Err(f)
      case Ok(y) => r.Ok? && ShowsResult(c, r.value) && r.value.resultValue == Some(StripTrailingZeroes(y))
  }

  lemma ResultShownSettles(c: Config, s: State)
    requires s.resultValue.Some?
    ensures Settles(c, ResultShown(c, s), s.resultValue.value)
  {
  }

  /**
   * Without an operation pending, or on an empty token, calculate settles the token's
   * value; a value that cannot be read is its fault, a missing answer a NullPointerException.
   */
  lemma CalculateValue(c: Config, s: State)
    requires !s.resultIsDisplayed && (s.operation == OperationNone || s.valueStr == [])
    ensures CurrentValue(c, s).Err? ==> Calculated(c, s) == Err(CurrentValue(c, s).fault)
    ensures CurrentValue(c, s) == Ok(None) ==> Calculated(c, s) == Err(NullPointer)
    ensures CurrentValue(c, s).Ok? && CurrentValue(c, s).value.Some? ==>
      Settles(c, Calculated(c, s), CurrentValue(c, s).value.value)
  {
    var cv := CurrentValue(c, s);
    if cv.Ok? && cv.value.Some? {
      ResultShownSettles(c, ValueRead(c, s).(resultValue := cv.value));
    }
  }

  /**
   * With an operation pending on a typed token of value v, calculate divides by zero into a
   * DIV_ZERO error, and otherwise settles the stored result (ZERO when none) combined with v.
   */
  lemma CalculateOperation(c: Config, s: State, v: Dec)
    requires !s.resultIsDisplayed && s.operation != OperationNone && s.valueStr != []
    requires CurrentValue(c, s) == Ok(Some(v))
    ensures s.operation == OperationDiv && Cmp(v, Zero) == 0 ==>
      Calculated(c, s).Ok? && ShowsError(c, Calculated(c, s).value, ErrorDivZero)
    ensures !(s.operation == OperationDiv && Cmp(v, Zero) == 0) ==>
      match Combined(s.operation, OrZero(s.resultValue), v, c.maxFracDigits, c.roundingMode)
      case Err(f) => Calculated(c, s) == Err(f)
      case Ok(x) => Settles(c, Calculated(c, s), x)
  {
    var s1 := ValueRead(c, s).(resultValue := Some(OrZero(s.resultValue)));
    if !(s.operation == OperationDiv && Cmp(v, Zero) == 0) {
      match Operated(c, s1, Some(v))
      case Err(f) =>
      case Ok(s2) =>
        ResultShownSettles(c, s2);
    }
  }

  /**
   * The equal key leaves the answer equal to the result: the displayed one, or none after
   * an error.
   */
  lemma EqualStoresAnswer(c: Config, s: State)
    requires s.error == ErrorNone && !s.resultIsDisplayed && EqualPressed(c, s).Ok?
    ensures var r := EqualPressed(c, s).value;
      r.answerValue == r.resultValue &&
      (ShowsResult(c, r) || (r.resultValue.None? && (r.error == ErrorDivZero || r.error == ErrorOutOfBounds)))
  {
  }

  /** With an operation pending, OK does what calculate does and sends nothing. */
  lemma OkActsAsEqual(c: Config, s: State)
    requires s.error == ErrorNone && s.operation != OperationNone
    ensures OkPressed(c, s) == Calculated(c, s)
  {
  }

  /** The sign OK accepts: any if it can be changed, else zero or the initial sign. */
  predicate SignAccepted(c: Config, v: Option<Dec>)
  {
    c.signCanBeChanged || v.None? || Signum(v.value) == 0 || Signum(v.value) == c.initialSign
  }

  /**
   * Without an operation pending and without an error from calculate, OK sends the result
   * and exits exactly when its sign is accepted; otherwise it shows WRONG_SIGN_NEG for a
   * positive result and WRONG_SIGN_POS for a negative one.
   */
  lemma OkSendsResult(c: Config, s: State, r: State)
    requires s.error == ErrorNone && s.operation == OperationNone
    requires Calculated(c, s) == Ok(r) && r.error == ErrorNone
    ensures OkPressed(c, s).Ok?
    ensures OkPressed(c, s).value.error == ErrorNone <==> SignAccepted(c, r.resultValue)
    ensures SignAccepted(c, r.resultValue) ==>
      OkPressed(c, s).value == Show(Show(r, ValueSent(r.resultValue)), Exited)
    ensures !SignAccepted(c, r.resultValue) ==>
      ShowsError(c, OkPressed(c, s).value, if Signum(r.resultValue.value) == 1 then ErrorWrongSignNeg else ErrorWrongSignPos)
  {
  }

  /** After an error from calculate OK stops: nothing is sent. */
  lemma OkAfterError(c: Config, s: State, r: State)
    requires s.error == ErrorNone && Calculated(c, s) == Ok(r) && r.error != ErrorNone
    ensures OkPressed(c, s) == Ok(r)
  {
  }

  // ---------------------------------------------------------------------------------------
  // A displayed result without an answer

  /** The library's defaults with '.' and ',' as the locale's separators. */
  const DefaultConfig := Config('.', ',', 3, 10, 8, HalfUp, Some(TokenSettings.DefaultMaxValue), true, 0,
    false, true, false, false, true, "0")

  /** The presenter's fields before attach: Java's zero defaults. */
  const Unattached := State(0, 0, [], None, false, false, None, false, Empty)

  /**
   * A second operator key calculates the pending operation and displays its result, but
   * only the equal key stores an answer; the sign key then negates both.
   */
  lemma DisplayedWithoutAnswer(c: Config, s: State)
    requires s.resultIsDisplayed && s.error == ErrorNone && s.answerValue.None?
    requires SignApplies(s.valueStr, c.decimalSep)
    ensures SignPressedAsWritten(c, s) == Err(NullPointer)
    ensures SignPressed(c, s).answerValue.None? && SignPressed(c, s).resultValue == Negated(s.resultValue)
    ensures SignPressed(c, s).valueStr == SignToggled(s.valueStr)
  {
  }

  /** The states of the key sequence 2, +, 3, + on the default dialog, view log aside. */
  const ShownZero := State(OperationNone, ErrorNone, "0", None, true, true, None, false, Empty)
  const TypedTwo := State(OperationNone, ErrorNone, "2", None, false, false, None, false, Empty)
  const AddingTwo := State(OperationAdd, ErrorNone, "0", Some(Dec(2, 0)), false, true, None, false, Empty)
  const TypedThree := State(OperationAdd, ErrorNone, "3", Some(Dec(2, 0)), false, false, None, false, Empty)
  const AddingFive := State(OperationAdd, ErrorNone, "5", Some(Dec(5, 0)), true, false, None, false, Empty)

  lemma DigitReadsAsItself(digit: nat)
    requires digit < 10
    ensures Parse([DigitChar(digit)]) == Some(Dec(digit, 0))
    ensures Formatted([DigitChar(digit)], '.', ',', 3) == [DigitChar(digit)]
  {
    var t := [DigitChar(digit)];
    ParseWithoutPoint(t);
    ParseSigned(false, t);
    assert SignText(false) + t == t;
    assert DigitsValue(t) == DigitsValue([]) * 10 + DigitValue(t[0]);
  }

  lemma AttachShowsZero()
    ensures Attached(DefaultConfig, Unattached, None).Ok?
    ensures Fields(Attached(DefaultConfig, Unattached, None).value) == ShownZero
  {
  }

  lemma TypingTwo(s: State)
    requires Fields(s) == ShownZero
    ensures Fields(DigitPressed(DefaultConfig, s, 2)) == TypedTwo
  {
    DigitReadsAsItself(2);
  }

  lemma PressingAdd(s: State)
    requires Fields(s) == TypedTwo
    ensures OperatorPressed(DefaultConfig, s, OperationAdd).Ok?
    ensures Fields(OperatorPressed(DefaultConfig, s, OperationAdd).value) == AddingTwo
  {
    DigitReadsAsItself(2);
    assert CurrentValue(DefaultConfig, s) == Ok(Some(Dec(2, 0)));
  }

  lemma TypingThree(s: State)
    requires Fields(s) == AddingTwo
    ensures Fields(DigitPressed(DefaultConfig, s, 3)) == TypedThree
  {
    DigitReadsAsItself(3);
  }

  /** Stripping u * 10^k, for u without a trailing zero, removes exactly the k zeros. */
  lemma {:induction false} StripShifted(u: int, k: nat, scale: int)
    requires u % 10 != 0
    ensures StripTrailingZeros(Dec(u * Pow10(k), scale)) == Dec(u, scale - k)
  {
    if k > 0 {
      var w := u * Pow10(k - 1);
      assert u * Pow10(k) == w * 10;
      assert (w * 10) / 10 == w;
      StripShifted(u, k - 1, scale - 1);
    }
  }

  lemma ResultShownOk(c: Config, s: State, y: Dec)
    requires s.resultValue.Some? && !IsValueOutOfBounds(s.resultValue.value, c.maxValue)
    requires SetScale(s.resultValue.value, c.maxFracDigits, c.roundingMode) == Ok(y)
    ensures var z := StripTrailingZeroes(y);
      ResultShown(c, s) == Ok(Displayed(ValueFormatted(c, s.(resultValue := Some(z), valueStr := ToPlainString(z))))
        .(resultIsDisplayed := true, operation := OperationNone))
  {
  }

  lemma CalculatedOperated(c: Config, s: State, v: Dec, s2: State)
    requires !s.resultIsDisplayed && s.operation != OperationNone && s.valueStr != []
    requires CurrentValue(c, s) == Ok(Some(v)) && !(s.operation == OperationDiv && Cmp(v, Zero) == 0)
    requires Operated(c, ValueRead(c, s).(resultValue := Some(OrZero(s.resultValue))), Some(v)) == Ok(s2)
    ensures Calculated(c, s) == ResultShown(c, s2)
  {
  }

  lemma TwoPlusThreeIsFive()
    ensures Add(Dec(2, 0), Dec(3, 0)) == Dec(5, 0)
    ensures !IsValueOutOfBounds(Dec(5, 0), Some(TokenSettings.DefaultMaxValue))
  {
  }

  lemma FiveAtEightDigits()
    ensures SetScale(Dec(5, 0), 8, HalfUp) == Ok(Dec(500000000, 8))
    ensures StripTrailingZeroes(Dec(500000000, 8)) == Dec(5, 0)
    ensures ToPlainString(Dec(5, 0)) == "5"
  {
    assert Pow10(8) == 100000000;
    StripShifted(5, 8, 8);
    ZeroValued(Dec(500000000, 8));
  }

  lemma PressingAddAgain(s: State)
    requires Fields(s) == TypedThree
    ensures OperatorPressed(DefaultConfig, s, OperationAdd).Ok?
    ensures Fields(OperatorPressed(DefaultConfig, s, OperationAdd).value) == AddingFive
  {
    var c := DefaultConfig;
    DigitReadsAsItself(3);
    DigitReadsAsItself(5);
    assert ReadText(c, "3") == "3";
    assert CurrentValue(c, s) == Ok(Some(Dec(3, 0)));
    var s1 := ValueRead(c, s).(resultValue := Some(OrZero(s.resultValue)));
    assert Fields(s1) == TypedThree;
    TwoPlusThreeIsFive();
    var s2 := s1.(resultValue := Some(Dec(5, 0)));
    assert Operated(c, s1, Some(Dec(3, 0))) == Ok(s2);
    FiveAtEightDigits();
    ResultShownOk(c, s2, Dec(500000000, 8));
    var s3 := Displayed(ValueFormatted(c, s2.(resultValue := Some(Dec(5, 0)), valueStr := "5")))
      .(resultIsDisplayed := true, operation := OperationNone);
    assert Formatted("5", c.decimalSep, c.groupSep, c.groupSize) == "5" by {
      assert [DigitChar(5)] == "5";
    }
    CalculatedOperated(c, s, Dec(3, 0), s2);
    assert Calculated(c, s) == Ok(s3);
    assert Fields(s3) == AddingFive.(operation := OperationNone);
  }

  /** The default dialog reaches such a state: 2, +, 3, + displays 5 with no answer. */
  lemma TwoPlusThreePlus()
    ensures Attached(DefaultConfig, Unattached, None).Ok?
    ensures var c := DefaultConfig;
      var s0 := Attached(c, Unattached, None).value;
      var s1 := DigitPressed(c, s0, 2);
      OperatorPressed(c, s1, OperationAdd).Ok? &&
      var s2 := OperatorPressed(c, s1, OperationAdd).value;
      var s3 := DigitPressed(c, s2, 3);
      OperatorPressed(c, s3, OperationAdd).Ok? &&
      Fields(OperatorPressed(c, s3, OperationAdd).value) == AddingFive
  {
    var c := DefaultConfig;
    AttachShowsZero();
    var s0 := Attached(c, Unattached, None).value;
    TypingTwo(s0);
    var s1 := DigitPressed(c, s0, 2);
    PressingAdd(s1);
    var s2 := OperatorPressed(c, s1, OperationAdd).value;
    TypingThree(s2);
    var s3 := DigitPressed(c, s2, 3);
    PressingAddAgain(s3);
  }

  /** The sign key on that display: the code as written throws, the corrected one shows -5. */
  lemma SignOnFive(s: State)
    requires Fields(s) == AddingFive
    ensures SignPressedAsWritten(DefaultConfig, s) == Err(NullPointer)
    ensures var r := SignPressed(DefaultConfig, s);
      r.valueStr == "-5" && r.resultValue == Some(Dec(-5, 0)) && r.answerValue.None? && !r.resultIsDisplayed
  {
    assert s.valueStr == "5" && s.resultValue == Some(Dec(5, 0));
    FiveToggled(s.valueStr);
    FiveNegated(s.resultValue);
    DisplayedWithoutAnswer(DefaultConfig, s);
  }

  lemma FiveToggled(t: string)
    requires t == "5"
    ensures SignApplies(t, DefaultConfig.decimalSep) && SignToggled(t) == "-5"
  {
    assert ['-'] + t == "-5";
  }

  lemma FiveNegated(v: Option<Dec>)
    requires v == Some(Dec(5, 0))
    ensures Negated(v) == Some(Dec(-5, 0))
  {
  }

  // ---------------------------------------------------------------------------------------
  // The presenter object

  /** What a handler that may throw leaves: its state, or the exception it raised. */
  predicate Outcome(r: Result<State>, thrown: Option<Fault>, now: State)
  {
    match r
    case Ok(s) => thrown.None? && now == s
    case Err(f) => thrown == Some(f)
  }

  /** calculate with an operation pending: the zero-divisor check, then the arithmetic. */
  lemma CalculatedCombined(c: Config, s: State, v: Option<Dec>, s1: State)
    requires !s.resultIsDisplayed && s.operation != OperationNone && s.valueStr != []
    requires CurrentValue(c, s) == Ok(v) && s1 == ValueRead(c, s).(resultValue := Some(OrZero(s.resultValue)))
    ensures s.operation == OperationDiv && v.Some? && Cmp(v.value, Zero) == 0 ==>
      Calculated(c, s) == Ok(WithError(c, s1, ErrorDivZero))
    ensures !(s.operation == OperationDiv && v.Some? && Cmp(v.value, Zero) == 0) ==>
      Calculated(c, s) == match Operated(c, s1, v) case Err(f) => Err(f) case Ok(s2) => ResultShown(c, s2)
  {
  }

  /** A locale default replaces a separator left at FORMAT_CHAR_DEFAULT. */
  function Localised(sep: char, localeSep: char): char
  {
    if sep == TokenSettings.FormatCharDefault then localeSep else sep
  }

  /** The settings the presenter reads, with zeroString derived from the decimal separator. */
  function ConfigOf(f: TokenSettings.Fields): (c: Config)
    ensures c.zeroString == ZeroText(f.decimalSep)
  {
    Config(f.decimalSep, f.groupSep, f.groupSize, f.maxIntDigits, f.maxFracDigits, f.roundingMode,
      f.maxValue, f.signCanBeChanged, f.initialSign, f.clearOnOperation, f.showZeroWhenNoValue,
      f.preventLeadingZeroes, f.showAnswerBtn, f.showSignBtn, ZeroText(f.decimalSep))
  }

  class CalcPresenter {
    var config: Config
    var attached: bool
    var operation: int
    var error: int
    var valueStr: string
    var resultValue: Option<Dec>
    var resultIsDisplayed: bool
    var overwriteValue: bool
    var answerValue: Option<Dec>
    var currentIsAnswer: bool
    var view: Log

    function Snapshot(): State
      reads this
    {
      State(operation, error, valueStr, resultValue, resultIsDisplayed, overwriteValue, answerValue,
        currentIsAnswer, view)
    }

    /** A new presenter: Java's default field values, no view attached. */
    constructor ()
      ensures !attached && Snapshot() == Unattached
    {
      config := DefaultConfig;
      attached := false;
      operation := 0;
      error := 0;
      valueStr := [];
      resultValue := None;
      resultIsDisplayed := false;
      overwriteValue := false;
      answerValue := None;
      currentIsAnswer := false;
      view := Empty;
    }

    /**
     * attach without saved state: separators left at the default take the locale's, the
     * settings are read, and the presenter starts from the initial value.
     */
    method Attach(settings: TokenSettings.CalcSettings, localeDecimalSep: char, localeGroupSep: char)
      returns (thrown: Option<Fault>)
      modifies this, settings
      ensures settings.Snapshot() == old(settings.Snapshot()).(
        decimalSep := Localised(old(settings.decimalSep), localeDecimalSep),
        groupSep := Localised(old(settings.groupSep), localeGroupSep))
      ensures attached && config == ConfigOf(settings.Snapshot())
      ensures Outcome(Attached(config, old(Snapshot()), settings.initialValue), thrown, Snapshot())
    {
      ReadSettings(settings, localeDecimalSep, localeGroupSep);
      thrown := Start(settings.initialValue);
      if thrown.Some? {
        return;
      }
      FormatValue();
      DisplayValueText();
      SetUpView();
    }

    /** The separator defaults resolved against the locale, and the settings read. */
    method ReadSettings(settings: TokenSettings.CalcSettings, localeDecimalSep: char, localeGroupSep: char)
      modifies this, settings
      ensures settings.Snapshot() == old(settings.Snapshot()).(
        decimalSep := Localised(old(settings.decimalSep), localeDecimalSep),
        groupSep := Localised(old(settings.groupSep), localeGroupSep))
      ensures attached && config == ConfigOf(settings.Snapshot()) && Snapshot() == old(Snapshot())
    {
      LocaliseSeparators(settings, localeDecimalSep, localeGroupSep);
      var f := settings.Snapshot();
      var zero := ZeroString(f.decimalSep);
      config := Config(f.decimalSep, f.groupSep, f.groupSize, f.maxIntDigits, f.maxFracDigits, f.roundingMode,
        f.maxValue, f.signCanBeChanged, f.initialSign, f.clearOnOperation, f.showZeroWhenNoValue,
        f.preventLeadingZeroes, f.showAnswerBtn, f.showSignBtn, zero);
      attached := true;
    }

    /** A separator left at FORMAT_CHAR_DEFAULT takes the locale's. */
    static method LocaliseSeparators(settings: TokenSettings.CalcSettings, localeDecimalSep: char, localeGroupSep: char)
      modifies settings
      ensures settings.Snapshot() == old(settings.Snapshot()).(
        decimalSep := Localised(old(settings.decimalSep), localeDecimalSep),
        groupSep := Localised(old(settings.groupSep), localeGroupSep))
    {
      if settings.decimalSep == TokenSettings.FormatCharDefault {
        settings.decimalSep := localeDecimalSep;
      }
      if settings.groupSep == TokenSettings.FormatCharDefault {
        settings.groupSep := localeGroupSep;
      }
    }

    /** zeroString: ZERO's plain text, its '.' replaced by the decimal separator. */
    static method ZeroString(decimalSep: char) returns (zero: string)
      ensures zero == ZeroText(decimalSep)
    {
      zero := ToPlainString(Zero);
      var pointPos := IndexOf(zero, '.');
      if pointPos != -1 && decimalSep != '.' {
        zero := zero[pointPos := decimalSep];
      }
    }

    /** The fields attach sets: no operation, error or answer, the initial value displayed. */
    method Start(initialValue: Option<Dec>) returns (thrown: Option<Fault>)
      modifies this
      ensures config == old(config) && attached == old(attached)
      ensures Outcome(StartValue(config, old(Snapshot()), initialValue), thrown, Snapshot())
    {
      ClearStartState();
      if initialValue.Some? {
        var y := SetScale(initialValue.value, config.maxFracDigits, config.roundingMode);
        if y.Err? {
          return Some(y.fault);
        }
        StartFrom(StripTrailingZeroes(y.value));
      } else {
        ClearToken();
      }
      return None;
    }

    /** The fields the start of the presenter resets before it reads the initial value. */
    method ClearStartState()
      modifies this
      ensures config == old(config) && attached == old(attached)
      ensures Snapshot() == old(Snapshot()).(answerValue := None, currentIsAnswer := false, operation := OperationNone,
        error := ErrorNone, resultValue := None, resultIsDisplayed := true)
    {
      answerValue := None;
      currentIsAnswer := false;
      operation := OperationNone;
      error := ErrorNone;
      resultValue := None;
      resultIsDisplayed := true;
    }

    /** The token is emptied. */
    method ClearToken()
      modifies this
      ensures config == old(config) && attached == old(attached)
      ensures Snapshot() == old(Snapshot()).(valueStr := [])
    {
      valueStr := [];
    }

    /** The initial value, rounded for display, becomes the result, the answer and the token. */
    method StartFrom(z: Dec)
      modifies this
      ensures config == old(config) && attached == old(attached)
      ensures Snapshot() == old(Snapshot()).(resultValue := Some(z), answerValue := Some(z), valueStr := ToPlainString(z))
    {
      resultValue := Some(z);
      answerValue := resultValue;
      valueStr := ToPlainString(z);
    }

    method SetUpView()
      modifies this
      ensures config == old(config) && attached == old(attached)
      ensures Snapshot() == ViewSetUp(config, old(Snapshot()))
    {
      view := Then(view, DecimalSepBtnEnabled(config.maxFracDigits > 0));
      SetAnswerBtnVisible(config.showAnswerBtn && answerValue.Some?);
      view := Then(view, SignBtnVisible(config.showSignBtn));
    }

    /** setAnswerBtnVisible: the answer key and the equal key are shown in turn. */
    method SetAnswerBtnVisible(visible: bool)
      modifies this
      ensures config == old(config) && attached == old(attached)
      ensures Snapshot() == AnswerBtnShown(old(Snapshot()), visible)
    {
      view := Then(view, AnswerBtnVisible(visible));
      view := Then(view, EqualBtnVisible(!visible));
    }

    /** view.displayValueText(valueStr) */
    method DisplayValueText()
      modifies this
      ensures config == old(config) && attached == old(attached)
      ensures Snapshot() == Displayed(old(Snapshot()))
    {
      view := Then(view, ValueTextShown(valueStr));
    }

    /**
     * formatValue: an empty token becomes zeroString when a zero is shown; otherwise the '.'
     * becomes the decimal separator and the grouping separators are inserted before it.
     */
    method FormatValue()
      modifies this
      ensures config == old(config) && attached == old(attached)
      ensures Snapshot() == ValueFormatted(config, old(Snapshot()))
    {
      if valueStr == [] && config.showZeroWhenNoValue {
        valueStr := config.zeroString;
        overwriteValue := true;
        return;
      }
      valueStr := FormatText(valueStr, config.decimalSep, config.groupSep, config.groupSize);
    }

    /** removeGroupSeparators: nothing happens when grouping is off. */
    method RemoveGroupSeparators()
      modifies this
      ensures config == old(config) && attached == old(attached)
      ensures Snapshot() == SeparatorsRemoved(config, old(Snapshot()))
    {
      if config.groupSize > 0 {
        valueStr := DeleteGroupSeparators(valueStr, config.groupSep);
      }
    }

    /**
     * getCurrentValue: the answer, ZERO for an empty token, or the token read as a decimal
     * after its grouping separators are removed and its separator made a '.'.
     */
    method GetCurrentValue() returns (thrown: Option<Fault>, value: Option<Dec>)
      modifies this
      ensures config == old(config) && attached == old(attached)
      ensures Snapshot() == ValueRead(config, old(Snapshot()))
      ensures match CurrentValue(config, old(Snapshot()))
        case Ok(v) => thrown.None? && value == v
        case Err(f) => thrown == Some(f)
    {
      if currentIsAnswer {
        return None, answerValue;
      }
      if valueStr == [] {
        return None, Some(Zero);
      }
      RemoveGroupSeparators();
      var pointPos := IndexOf(valueStr, config.decimalSep);
      if pointPos != -1 {
        valueStr := valueStr[pointPos := '.'];
      }
      value := Parse(valueStr);
      if value.None? {
        return Some(NumberFormat), None;
      }
      return None, value;
    }

    /** reset */
    method Reset()
      modifies this
      ensures config == old(config) && attached == old(attached)
      ensures Snapshot() == Cleared(config, old(Snapshot()))
    {
      ClearValues();
      SetAnswerBtnVisible(false);
      ghost var s2 := Snapshot();
      valueStr := [];
      assert Snapshot() == s2.(valueStr := []);
      FormatValue();
      resultIsDisplayed := true;
      assert Snapshot() == ValueFormatted(config, s2.(valueStr := [])).(resultIsDisplayed := true);
    }

    /** The first part of reset: no operation, result or answer, and the token to be overwritten. */
    method ClearValues()
      modifies this
      ensures config == old(config) && attached == old(attached)
      ensures Snapshot() == old(Snapshot()).(operation := OperationNone, resultValue := None,
        overwriteValue := true, answerValue := None, currentIsAnswer := false)
    {
      operation := OperationNone;
      resultValue := None;
      overwriteValue := true;
      answerValue := None;
      currentIsAnswer := false;
    }

    /** setError: the error is shown and everything reset. */
    method SetError(e: int)
      modifies this
      ensures config == old(config) && attached == old(attached)
      ensures Snapshot() == WithError(config, old(Snapshot()), e)
    {
      error := e;
      view := Then(view, ErrorTextShown(e));
      Reset();
    }

    /** dismissError: true when there was an error to dismiss. */
    method DismissError() returns (dismissed: bool)
      modifies this
      ensures config == old(config) && attached == old(attached)
      ensures dismissed == (old(error) != ErrorNone)
      ensures Snapshot() == ErrorDismissed(old(Snapshot()))
    {
      if error != ErrorNone {
        error := ErrorNone;
        DisplayValueText();
        resultIsDisplayed := false;
        return true;
      }
      return false;
    }

    /** clear */
    method Clear()
      modifies this
      ensures config == old(config) && attached == old(attached)
      ensures Snapshot() == ClearPressed(config, old(Snapshot()))
    {
      var dismissed := DismissError();
      if dismissed {
        return;
      }
      currentIsAnswer := false;
      SetAnswerBtnVisible(false);
      Reset();
      DisplayValueText();
      resultIsDisplayed := false;
    }

    /** The end of calculate: the bounds check, the rounding, and the result displayed. */
    method ShowResult() returns (thrown: Option<Fault>)
      modifies this
      ensures config == old(config) && attached == old(attached)
      ensures Outcome(ResultShown(config, old(Snapshot())), thrown, Snapshot())
    {
      if resultValue.None? {
        return Some(NullPointer);
      }
      if IsValueOutOfBounds(resultValue.value, config.maxValue) {
        SetError(ErrorOutOfBounds);
        return None;
      }
      var y := SetScale(resultValue.value, config.maxFracDigits, config.roundingMode);
      if y.Err? {
        return Some(y.fault);
      }
      ResultShownOk(config, Snapshot(), y.value);
      DisplayResult(StripTrailingZeroes(y.value));
      return None;
    }

    /** The result is stored, printed, formatted and displayed; no operation is left. */
    method DisplayResult(z: Dec)
      modifies this
      ensures config == old(config) && attached == old(attached)
      ensures Snapshot() == Displayed(ValueFormatted(config, old(Snapshot()).(resultValue := Some(z), valueStr := ToPlainString(z))))
        .(resultIsDisplayed := true, operation := OperationNone)
    {
      StoreResult(z);
      FormatValue();
      DisplayValueText();
      EndCalculation();
    }

    /** The value becomes the result, and its plain text the token. */
    method StoreResult(z: Dec)
      modifies this
      ensures config == old(config) && attached == old(attached)
      ensures Snapshot() == old(Snapshot()).(resultValue := Some(z), valueStr := ToPlainString(z))
    {
      resultValue := Some(z);
      valueStr := ToPlainString(z);
    }

    /** The result is now displayed, and no operation is pending. */
    method EndCalculation()
      modifies this
      ensures config == old(config) && attached == old(attached)
      ensures Snapshot() == old(Snapshot()).(resultIsDisplayed := true, operation := OperationNone)
    {
      resultIsDisplayed := true;
      operation := OperationNone;
    }

    /** calculate's arithmetic on the stored result; a zero divisor is a DIV_ZERO error. */
    method ApplyOperation(operand: Option<Dec>) returns (thrown: Option<Fault>, divByZero: bool)
      requires resultValue.Some?
      modifies this
      ensures config == old(config) && attached == old(attached)
      ensures divByZero <==> old(operation) == OperationDiv && operand.Some? && Cmp(operand.value, Zero) == 0
      ensures divByZero ==> thrown.None? && Snapshot() == WithError(config, old(Snapshot()), ErrorDivZero)
      ensures !divByZero ==> Outcome(Operated(config, old(Snapshot()), operand), thrown, Snapshot())
    {
      divByZero := false;
      if operation == OperationAdd || operation == OperationSub || operation == OperationMult || operation == OperationDiv {
        if operand.None? {
          return Some(NullPointer), false;
        }
        var x := operand.value;
        if operation == OperationAdd {
          resultValue := Some(Add(resultValue.value, x));
        } else if operation == OperationSub {
          resultValue := Some(Sub(resultValue.value, x));
        } else if operation == OperationMult {
          resultValue := Some(Mul(resultValue.value, x));
        } else {
          if Cmp(x, Zero) == 0 {
            SetError(ErrorDivZero);
            return None, true;
          }
          var q := Divide(resultValue.value, x, config.maxFracDigits, config.roundingMode);
          if q.Err? {
            return Some(q.fault), false;
          }
          resultValue := Some(q.value);
        }
      }
      return None, false;
    }

    /**
     * calculate: nothing while a result is displayed; otherwise the token's value, or the
     * stored result combined with it, is rounded, stripped and displayed.
     */
    method Calculate() returns (thrown: Option<Fault>)
      modifies this
      ensures config == old(config) && attached == old(attached)
      ensures Outcome(Calculated(config, old(Snapshot())), thrown, Snapshot())
    {
      if resultIsDisplayed {
        return None;
      }
      ghost var s0 := Snapshot();
      if operation == OperationNone || valueStr == [] {
        var value;
        thrown, value := GetCurrentValue();
        if thrown.Some? {
          return;
        }
        resultValue := value;
        assert Calculated(config, s0) == ResultShown(config, Snapshot());
      } else {
        var proceed;
        thrown, proceed := CombineOperand();
        if !proceed {
          return;
        }
      }
      thrown := ShowResult();
    }

    /**
     * The stored result (ZERO when none) combined with the token's value; proceed says
     * whether calculate goes on to show the result.
     */
    method CombineOperand() returns (thrown: Option<Fault>, proceed: bool)
      requires !resultIsDisplayed && operation != OperationNone && valueStr != []
      modifies this
      ensures config == old(config) && attached == old(attached)
      ensures proceed ==> thrown.None? && Calculated(config, old(Snapshot())) == ResultShown(config, Snapshot())
      ensures !proceed ==> Outcome(Calculated(config, old(Snapshot())), thrown, Snapshot())
    {
      ghost var s0 := Snapshot();
      var value;
      thrown, value := TakeResultAndOperand();
      if thrown.Some? {
        return thrown, false;
      }
      CalculatedCombined(config, s0, value, Snapshot());
      var divByZero;
      thrown, divByZero := ApplyOperation(value);
      if divByZero {
        assert Calculated(config, s0) == Ok(Snapshot());
        return None, false;
      }
      if thrown.Some? {
        assert Calculated(config, s0) == Err(thrown.value);
        return thrown, false;
      }
      assert Calculated(config, s0) == ResultShown(config, Snapshot());
      return None, true;
    }

    /** The stored result, ZERO when none, and the token's value as the operand. */
    method TakeResultAndOperand() returns (thrown: Option<Fault>, value: Option<Dec>)
      modifies this
      ensures config == old(config) && attached == old(attached)
      ensures Snapshot() == ValueRead(config, old(Snapshot())).(resultValue := Some(OrZero(old(resultValue))))
      ensures match CurrentValue(config, old(Snapshot()))
        case Ok(v) => thrown.None? && value == v
        case Err(f) => thrown == Some(f)
    {
      ghost var s0 := Snapshot();
      DefaultResult();
      ResultIgnored(config, s0, Some(OrZero(s0.resultValue)));
      thrown, value := GetCurrentValue();
    }

    /** A missing result becomes ZERO. */
    method DefaultResult()
      modifies this
      ensures config == old(config) && attached == old(attached)
      ensures Snapshot() == old(Snapshot()).(resultValue := Some(OrZero(old(resultValue))))
    {
      if resultValue.None? {
        resultValue := Some(Zero);
      }
    }

    /** A displayed result or an overwrite token is cleared before an edit. */
    method DiscardShown()
      modifies this
      ensures config == old(config) && attached == old(attached)
      ensures Snapshot() == ShownDiscarded(old(Snapshot()))
    {
      if resultIsDisplayed || overwriteValue {
        valueStr := [];
        overwriteValue := false;
      }
    }

    /** The token is formatted and displayed, and it no longer shows a result. */
    method Refresh()
      modifies this
      ensures config == old(config) && attached == old(attached)
      ensures Snapshot() == Refreshed(config, old(Snapshot()))
    {
      FormatValue();
      DisplayValueText();
      resultIsDisplayed := false;
    }

    /** The answer is no longer the value, and the answer button is hidden. */
    method BeginEdit()
      modifies this
      ensures config == old(config) && attached == old(attached)
      ensures Snapshot() == EditBegun(old(Snapshot()))
    {
      currentIsAnswer := false;
      SetAnswerBtnVisible(false);
    }

    /** onErasedOnce */
    method OnErasedOnce() returns (thrown: Option<Fault>)
      modifies this
      ensures config == old(config) && attached == old(attached)
      ensures Outcome(ErasePressed(config, old(Snapshot())), thrown, Snapshot())
    {
      var dismissed := DismissError();
      if dismissed {
        return None;
      }
      BeginEdit();
      if |valueStr| > 0 {
        if resultIsDisplayed || overwriteValue {
          valueStr := [];
          overwriteValue := false;
        } else {
          RemoveGroupSeparators();
          if |valueStr| == 0 {
            return Some(IndexOutOfBounds);
          }
          EraseLast();
        }
        Refresh();
      }
      return None;
    }

    /** The erase edit: the last character goes, then a mark left at the end, then the '-' of "-0". */
    method EraseLast()
      requires |valueStr| > 0
      modifies this
      ensures config == old(config) && attached == old(attached)
      ensures Snapshot() == old(Snapshot()).(valueStr := ErasedToken(old(valueStr), config.decimalSep))
    {
      valueStr := valueStr[..|valueStr| - 1];
      if |valueStr| > 0 {
        var last := valueStr[|valueStr| - 1];
        if last == config.decimalSep || last == '-' {
          valueStr := valueStr[..|valueStr| - 1];
          if valueStr == "-0" {
            valueStr := valueStr[1..];
          }
        }
      }
    }

    /** onErasedAll */
    method OnErasedAll()
      modifies this
      ensures config == old(config) && attached == old(attached)
      ensures Snapshot() == ClearPressed(config, old(Snapshot()))
    {
      Clear();
    }

    /** onDigitBtnClicked */
    method OnDigitBtnClicked(digit: nat)
      requires digit < 10
      modifies this
      ensures config == old(config) && attached == old(attached)
      ensures Snapshot() == DigitPressed(config, old(Snapshot()), digit)
    {
      var _ := DismissError();
      BeginEdit();
      DiscardShown();
      RemoveGroupSeparators();
      AppendDigit(digit);
      Refresh();
    }

    /** The digit edit with its limit checks. */
    method AppendDigit(digit: nat)
      requires digit < 10
      modifies this
      ensures config == old(config) && attached == old(attached)
      ensures Snapshot() == old(Snapshot()).(valueStr := DigitTyped(config, old(valueStr), digit))
    {
      var pointPos := IndexOf(valueStr, config.decimalSep);
      var withinMaxInt := pointPos == -1 &&
        (config.maxIntDigits == TokenSettings.MaxDigitsUnlimited || |valueStr| < config.maxIntDigits);
      var withinMaxFrac := pointPos != -1 &&
        (config.maxFracDigits == TokenSettings.MaxDigitsUnlimited || |valueStr| - pointPos - 1 < config.maxFracDigits);
      var isValueZero := pointPos == -1 && |valueStr| == 1 && valueStr[0] == '0';
      if (withinMaxInt || withinMaxFrac) && (!isValueZero || !config.preventLeadingZeroes || digit != 0) {
        if isValueZero && digit != 0 {
          valueStr := [];
        }
        valueStr := valueStr + [DigitChar(digit)];
      }
    }

    /** onOperatorBtnClicked */
    method OnOperatorBtnClicked(op: int) returns (thrown: Option<Fault>)
      modifies this
      ensures config == old(config) && attached == old(attached)
      ensures Outcome(OperatorPressed(config, old(Snapshot()), op), thrown, Snapshot())
    {
      var dismissed := DismissError();
      if dismissed {
        return None;
      }
      thrown := TakeOperand();
      if thrown.Some? {
        return;
      }
      SetOperation(op);
    }

    /** The first part of onOperatorBtnClicked. */
    method TakeOperand() returns (thrown: Option<Fault>)
      modifies this
      ensures config == old(config) && attached == old(attached)
      ensures Outcome(OperandTaken(config, old(Snapshot())), thrown, Snapshot())
    {
      if |valueStr| != 0 || currentIsAnswer {
        if operation != OperationNone {
          thrown := Calculate();
        } else {
          thrown := StoreOperand();
        }
      } else {
        thrown := None;
      }
    }

    /** The value becomes the first operand; the token is emptied unless it is cleared later. */
    method StoreOperand() returns (thrown: Option<Fault>)
      modifies this
      ensures config == old(config) && attached == old(attached)
      ensures Outcome(OperandStored(config, old(Snapshot())), thrown, Snapshot())
    {
      var value;
      thrown, value := GetCurrentValue();
      if thrown.Some? {
        return;
      }
      resultValue := value;
      if !config.clearOnOperation {
        valueStr := [];
        FormatValue();
        resultIsDisplayed := false;
      }
    }

    /** The end of onOperatorBtnClicked. */
    method SetOperation(op: int)
      modifies this
      ensures config == old(config) && attached == old(attached)
      ensures Snapshot() == OperatorSet(config, old(Snapshot()), op)
    {
      operation := op;
      if config.clearOnOperation {
        valueStr := [];
        Refresh();
      }
      SetAnswerBtnVisible(config.showAnswerBtn && answerValue.Some?);
    }

    /** onDecimalSepBtnClicked */
    method OnDecimalSepBtnClicked()
      modifies this
      ensures config == old(config) && attached == old(attached)
      ensures Snapshot() == DecimalSepPressed(config, old(Snapshot()))
    {
      var _ := DismissError();
      BeginEdit();
      DiscardShown();
      ghost var s1 := Snapshot();
      if config.decimalSep !in valueStr {
        AppendPoint();
        ghost var s2 := Snapshot();
        DisplayValueText();
        assert Snapshot() == Displayed(s2);
        LeaveResult();
      }
    }

    /** The separator appended to the token, after a "0" when the token is empty. */
    method AppendPoint()
      requires config.decimalSep !in valueStr
      modifies this
      ensures config == old(config) && attached == old(attached)
      ensures Snapshot() == old(Snapshot()).(valueStr := PointAppended(old(valueStr), config.decimalSep))
    {
      if |valueStr| == 0 {
        valueStr := "0";
      }
      valueStr := valueStr + [config.decimalSep];
    }

    /** onSignBtnClicked, negating the displayed values only where they are present. */
    method OnSignBtnClicked()
      modifies this
      ensures config == old(config) && attached == old(attached)
      ensures Snapshot() == SignPressed(config, old(Snapshot()))
    {
      var dismissed := DismissError();
      if dismissed {
        return;
      }
      if valueStr != [] && valueStr != "0" && valueStr != "0" + [config.decimalSep] {
        ghost var s0 := Snapshot();
        ToggleSignText();
        ghost var s1 := Snapshot();
        NegateShownResult();
        ghost var s2 := Snapshot();
        assert s2 == if s1.resultIsDisplayed then s1.(resultValue := Negated(s1.resultValue),
          answerValue := Negated(s1.answerValue)) else s1;
        DisplayValueText();
        LeaveResult();
      }
    }

    /** The sign key's edit of the token: a leading '-' inserted, or removed when present. */
    method ToggleSignText()
      requires valueStr != []
      modifies this
      ensures config == old(config) && attached == old(attached)
      ensures Snapshot() == old(Snapshot()).(valueStr := SignToggled(old(valueStr)))
    {
      if valueStr[0] != '-' {
        valueStr := ['-'] + valueStr;
      } else {
        valueStr := valueStr[1..];
      }
    }

    /** A displayed result, and the answer with it, changes sign with the token. */
    method NegateShownResult()
      modifies this
      ensures config == old(config) && attached == old(attached)
      ensures Snapshot() == if old(resultIsDisplayed) then old(Snapshot()).(resultValue := Negated(old(resultValue)),
        answerValue := Negated(old(answerValue))) else old(Snapshot())
    {
      if resultIsDisplayed {
        resultValue := Negated(resultValue);
        answerValue := Negated(answerValue);
      }
    }

    /** The token no longer shows a result. */
    method LeaveResult()
      modifies this
      ensures config == old(config) && attached == old(attached)
      ensures Snapshot() == old(Snapshot()).(resultIsDisplayed := false)
    {
      resultIsDisplayed := false;
    }

    /** onEqualBtnClicked */
    method OnEqualBtnClicked() returns (thrown: Option<Fault>)
      modifies this
      ensures config == old(config) && attached == old(attached)
      ensures Outcome(EqualPressed(config, old(Snapshot())), thrown, Snapshot())
    {
      var dismissed := DismissError();
      if dismissed {
        return None;
      }
      thrown := Calculate();
      if thrown.Some? {
        return;
      }
      answerValue := resultValue;
    }

    /** onAnswerBtnClicked */
    method OnAnswerBtnClicked()
      modifies this
      ensures config == old(config) && attached == old(attached)
      ensures Snapshot() == AnswerPressed(old(Snapshot()))
    {
      SetAnswerBtnVisible(false);
      view := Then(view, AnswerTextShown);
      currentIsAnswer := true;
      resultIsDisplayed := false;
    }

    /** onClearBtnClicked */
    method OnClearBtnClicked()
      modifies this
      ensures config == old(config) && attached == old(attached)
      ensures Snapshot() == ClearPressed(config, old(Snapshot()))
    {
      Clear();
    }

    /** onCancelBtnClicked */
    method OnCancelBtnClicked()
      modifies this
      ensures config == old(config) && attached == old(attached)
      ensures Snapshot() == CancelPressed(old(Snapshot()))
    {
      view := Then(view, Exited);
    }

    /**
     * onOkBtnClicked: calculate; with an operation pending nothing more; otherwise, without
     * an error, a locked sign is checked and the result sent before the dialog exits.
     */
    method OnOkBtnClicked() returns (thrown: Option<Fault>)
      modifies this
      ensures config == old(config) && attached == old(attached)
      ensures Outcome(OkPressed(config, old(Snapshot())), thrown, Snapshot())
    {
      var dismissed := DismissError();
      if dismissed {
        return None;
      }
      var opBefore := operation;
      thrown := Calculate();
      if thrown.Some? || opBefore != OperationNone {
        return;
      }
      CheckSign();
    }

    /** The sign check and the sending of the result. */
    method CheckSign()
      modifies this
      ensures config == old(config) && attached == old(attached)
      ensures Snapshot() == SignChecked(config, old(Snapshot()))
    {
      if error == ErrorNone {
        if !config.signCanBeChanged && resultValue.Some? {
          var sign := Signum(resultValue.value);
          if sign != 0 && sign != config.initialSign {
            SetError(if sign == 1 then ErrorWrongSignNeg else ErrorWrongSignPos);
            return;
          }
        }
        view := Then(view, ValueSent(resultValue));
        view := Then(view, Exited);
      }
    }

    /** onDismissed */
    method OnDismissed()
      modifies this
      ensures config == old(config) && attached == old(attached)
      ensures Snapshot() == Dismissed(config, old(Snapshot()))
    {
      Reset();
    }
  }
}

/**
 * The first string-token generation (com.nmaltais.calcdialog.CalcDialog of the library
 * module): a single dialog object holds the settings, the text token and the listeners of
 * its keys. Each listener is specified by a function from the dialog's state before it to
 * its state after it, or to the Java exception it raises; the texts put on the display, the
 * value handed to the callback and the dismissal are added, in order, to a log.
 */
module TokenDialog {
  import opened Wrappers
  import opened Text
  import opened Decimal
  import opened DialogUtils
  import opened Token
  import TokenSettings
  import TP = TokenPresenter

  /** The settings fields of the dialog, with the zero text onCreate derives from them. */
  datatype Options = Options(
    maxValue: Option<Dec>,
    maxIntDigits: int,
    maxFracDigits: int,
    roundingMode: RoundingMode,
    stripTrailingZeroes: bool,
    signCanBeChanged: bool,
    initialSign: int,
    clearOnOperation: bool,
    showZeroWhenNoValue: bool,
    decimalSep: char,
    groupSep: char,
    groupSize: int,
    zeroString: string)

  /** The calculator's fields and the display calls so far. */
  datatype Session = Session(
    operation: int,
    error: int,
    valueStr: string,
    resultValue: Option<Dec>,
    resultIsDisplayed: bool,
    overwriteValue: bool,
    view: TP.Log)

  /**
   * The constructor's settings: at most 1E10, 10 integer and 8 fraction digits, HALF_UP,
   * results stripped, the locale's separators in groups of 3, a zero shown, and the sign
   * free to change (see SignLockedAsWritten for the constructor as written).
   */
  const Defaults := Options(Some(TokenSettings.DefaultMaxValue), 10, 8, HalfUp, true, true, 0, false, true,
    TokenSettings.FormatCharDefault, TokenSettings.FormatCharDefault, 3, [])

  /** The constructor as written: signCanBeChanged is never assigned and keeps Java's false. */
  const WrittenDefaults := Defaults.(signCanBeChanged := false)

  /** A new dialog: no operation, error or value; the token is created by onCreate. */
  const NewSession := Session(TP.OperationNone, TP.ErrorNone, [], None, false, false, TP.Empty)

  function Show(s: Session, e: TP.Event): Session
  {
    s.(view := TP.Then(s.view, e))
  }

  /** textvDisplay.setText(valueStr) */
  function Displayed(s: Session): Session
  {
    Show(s, TP.ValueTextShown(s.valueStr))
  }

  /** formatValue: an empty token becomes zeroString (to be overwritten), any other is formatted. */
  function ValueFormatted(o: Options, s: Session): (r: Session)
    ensures r == s.(valueStr := r.valueStr, overwriteValue := r.overwriteValue)
    ensures s.valueStr == [] && o.showZeroWhenNoValue ==> r.valueStr == o.zeroString && r.overwriteValue
    ensures s.valueStr != [] || !o.showZeroWhenNoValue ==> r.overwriteValue == s.overwriteValue
  {
    if s.valueStr == [] && o.showZeroWhenNoValue then s.(valueStr := o.zeroString, overwriteValue := true)
    else s.(valueStr := Formatted(s.valueStr, o.decimalSep, o.groupSep, o.groupSize))
  }

  /** removeGroupSeparators */
  function SeparatorsRemoved(o: Options, s: Session): Session
  {
    s.(valueStr := GroupsRemoved(s.valueStr, o.groupSep, o.groupSize))
  }

  /** The text getCurrentValue parses: groups removed and the decimal separator back to '.'. */
  function ReadText(o: Options, t: string): string
  {
    PointRestored(GroupsRemoved(t, o.groupSep, o.groupSize), o.decimalSep)
  }

  /** The decimal a token reads as; None stands for NumberFormatException. */
  function TokenValue(o: Options, t: string): Option<Dec>
  {
    Parse(ReadText(o, t))
  }

  /** getCurrentValue's edit of the token: a non-empty one is left in its parsed form. */
  function ValueRead(o: Options, s: Session): Session
  {
    if s.valueStr == [] then s else s.(valueStr := ReadText(o, s.valueStr))
  }

  /** getCurrentValue: ZERO for an empty token, else the token's decimal. */
  function CurrentValue(o: Options, s: Session): (r: Result<Dec>)
    ensures s.valueStr == [] ==> r == Ok(Zero)
    ensures s.valueStr != [] ==> (r.Ok? <==> TokenValue(o, s.valueStr).Some?)
    ensures r.Err? ==> r.fault == NumberFormat
    ensures r.Ok? && s.valueStr != [] ==> Some(r.value) == TokenValue(o, s.valueStr)
  {
    if s.valueStr == [] then Ok(Zero)
    else
      match TokenValue(o, s.valueStr)
      case None => Err(NumberFormat)
      case Some(v) => Ok(v)
  }

  /** The token after reset: zeroString, or nothing when no zero is shown. */
  function EmptyText(o: Options): string
  {
    if o.showZeroWhenNoValue then o.zeroString else []
  }

  /** reset: no operation or result, an empty token to be overwritten, shown as a result. */
  function Cleared(o: Options, s: Session): (r: Session)
    ensures r.error == s.error && r.operation == TP.OperationNone && r.resultValue.None?
    ensures r.resultIsDisplayed && r.overwriteValue && r.valueStr == EmptyText(o) && r.view == s.view
  {
    assert Formatted([], o.decimalSep, o.groupSep, o.groupSize) == [];
    ValueFormatted(o, s.(operation := TP.OperationNone, resultValue := None, overwriteValue := true, valueStr := []))
      .(resultIsDisplayed := true)
  }

  /** The state an error leaves: the code kept, every value reset. */
  predicate ShowsError(o: Options, r: Session, e: int)
  {
    && r.error == e && r.operation == TP.OperationNone && r.resultValue.None?
    && r.resultIsDisplayed && r.overwriteValue && r.valueStr == EmptyText(o)
  }

  /** setError: the error message shown, then reset. */
  function WithError(o: Options, s: Session, e: int): (r: Session)
    ensures ShowsError(o, r, e)
  {
    Cleared(o, Show(s.(error := e), TP.ErrorTextShown(e)))
  }

  /** dismissError: an error is cleared and the token shown again. */
  function ErrorDismissed(s: Session): (r: Session)
    ensures r.error == TP.ErrorNone
    ensures s.error == TP.ErrorNone ==> r == s
    ensures s.error != TP.ErrorNone ==> OnlyDismissed(s, r)
  {
    if s.error != TP.ErrorNone then Displayed(s.(error := TP.ErrorNone)).(resultIsDisplayed := false) else s
  }

  /** A listener that met an error did nothing but dismiss it (and show the token). */
  predicate OnlyDismissed(s: Session, r: Session)
  {
    r == s.(error := TP.ErrorNone, resultIsDisplayed := false, view := r.view)
  }

  /** The rounding for display: setScale(maxFracDigits, roundingMode), then stripped if asked. */
  function Settled(o: Options, x: Dec): (r: Result<Dec>)
    ensures r.Ok? <==> SetScale(x, o.maxFracDigits, o.roundingMode).Ok?
    ensures r.Err? ==> r.fault == RoundingNecessary
    ensures r.Ok? ==> SameValue(r.value, SetScale(x, o.maxFracDigits, o.roundingMode).value)
    ensures r.Ok? && o.stripTrailingZeroes ==> StripTrailingZeroes(r.value) == r.value
    ensures r.Ok? && !o.stripTrailingZeroes ==> r.value.scale == o.maxFracDigits
  {
    match SetScale(x, o.maxFracDigits, o.roundingMode)
    case Err(f) => Err(f)
    case Ok(y) =>
      if o.stripTrailingZeroes then
        StripIdempotent(y);
        StrippedSameValue(y);
        Ok(StripTrailingZeroes(y))
      else Ok(y)
  }

  /** stripTrailingZeroes keeps the value, a zero one included. */
  lemma StrippedSameValue(y: Dec)
    ensures SameValue(StripTrailingZeroes(y), y)
  {
    if Cmp(y, Zero) == 0 {
      ZeroValued(y);
      assert ValueAt(Zero, Max(0, y.scale)) == 0 == ValueAt(y, Max(0, y.scale));
    }
  }

  /** The state calculate leaves after a result: rounded for display, shown formatted, no operation pending. */
  predicate ShowsResult(o: Options, r: Session)
  {
    && r.resultValue.Some?
    && (o.stripTrailingZeroes ==> StripTrailingZeroes(r.resultValue.value) == r.resultValue.value)
    && (!o.stripTrailingZeroes ==> r.resultValue.value.scale == o.maxFracDigits)
    && r.valueStr == Formatted(ToPlainString(r.resultValue.value), o.decimalSep, o.groupSep, o.groupSize)
    && r.resultIsDisplayed && r.operation == TP.OperationNone && r.error == TP.ErrorNone
  }

  /**
   * The end of calculate: a result outside the bounds is an OUT_OF_BOUNDS error; any other
   * is rounded for display and shown.
   */
  function ResultShown(o: Options, s: Session): (r: Result<Session>)
    requires s.resultValue.Some? && s.error == TP.ErrorNone
    ensures r.Ok? ==> ShowsResult(o, r.value) || ShowsError(o, r.value, TP.ErrorOutOfBounds)
  {
    if IsValueOutOfBounds(s.resultValue.value, o.maxValue) then Ok(WithError(o, s, TP.ErrorOutOfBounds))
    else
      match Settled(o, s.resultValue.value)
      case Err(f) => Err(f)
      case Ok(z) =>
        assert |ToPlainString(z)| > 0;
        Ok(Displayed(ValueFormatted(o, s.(resultValue := Some(z), valueStr := ToPlainString(z))))
          .(resultIsDisplayed := true, operation := TP.OperationNone))
  }

  /**
   * calculate: nothing while a result is displayed; without an operation, or with no token,
   * the result becomes the token's value; otherwise the stored result (ZERO when none) is
   * combined with it, a zero divisor being a DIV_ZERO error. Either way it ends as a shown
   * result or an OUT_OF_BOUNDS error.
   */
  function Calculated(o: Options, s: Session): (r: Result<Session>)
    requires s.error == TP.ErrorNone
    ensures s.resultIsDisplayed ==> r == Ok(s)
    ensures r.Ok? && !s.resultIsDisplayed ==>
      ShowsResult(o, r.value) || ShowsError(o, r.value, TP.ErrorDivZero) || ShowsError(o, r.value, TP.ErrorOutOfBounds)
  {
    if s.resultIsDisplayed then Ok(s)
    else if s.operation == TP.OperationNone || s.valueStr == [] then
      match CurrentValue(o, s)
      case Err(f) => Err(f)
      case Ok(v) => ResultShown(o, ValueRead(o, s).(resultValue := Some(v)))
    else
      var acc := TP.OrZero(s.resultValue);
      match CurrentValue(o, s)
      case Err(f) => Err(f)
      case Ok(v) =>
        var s1 := ValueRead(o, s).(resultValue := Some(acc));
        if s.operation == TP.OperationDiv && Cmp(v, Zero) == 0 then Ok(WithError(o, s1, TP.ErrorDivZero))
        else
          match TP.Combined(s.operation, acc, v, o.maxFracDigits, o.roundingMode)
          case Err(f) => Err(f)
          case Ok(x) => ResultShown(o, s1.(resultValue := Some(x)))
  }

  /** A displayed result or an overwrite token is cleared before an edit. */
  function ShownDiscarded(s: Session): (r: Session)
    ensures !r.overwriteValue && (s.resultIsDisplayed || s.overwriteValue ==> r.valueStr == [])
  {
    if s.resultIsDisplayed || s.overwriteValue then s.(valueStr := [], overwriteValue := false) else s
  }

  /** The token is formatted and displayed, and it no longer shows a result. */
  function Refreshed(o: Options, s: Session): (r: Session)
    ensures !r.resultIsDisplayed
  {
    Displayed(ValueFormatted(o, s)).(resultIsDisplayed := false)
  }

  /**
   * The erase listener: after a dismissed error nothing else; an empty token stays; a
   * result or an overwrite token is cleared; any other, ungrouped, loses its last character
   * and then a separator or '-' left at its end.
   */
  function ErasePressed(o: Options, s: Session): (r: Result<Session>)
    ensures s.error != TP.ErrorNone ==> r.Ok? && OnlyDismissed(s, r.value)
    ensures r.Err? ==> r.fault == IndexOutOfBounds
    ensures r.Ok? ==> r.value.error == TP.ErrorNone && r.value.operation == s.operation && r.value.resultValue == s.resultValue
  {
    if s.error != TP.ErrorNone then Ok(ErrorDismissed(s))
    else if s.valueStr == [] then Ok(s)
    else if s.resultIsDisplayed || s.overwriteValue then Ok(Refreshed(o, s.(valueStr := [], overwriteValue := false)))
    else
      var s1 := SeparatorsRemoved(o, s);
      if s1.valueStr == [] then Err(IndexOutOfBounds)
      else Ok(Refreshed(o, s1.(valueStr := ErasedTail(s1.valueStr, o.decimalSep))))
  }

  /**
   * The digit edit on the ungrouped token: the digit is appended when, without a separator,
   * the token (sign included) is below maxIntDigits and, after one, the fraction is below
   * maxFracDigits; MAX_DIGITS_UNLIMITED lifts a limit.
   */
  function DigitTyped(o: Options, t: string, digit: nat): (r: string)
    requires digit < 10
  {
    var p := IndexOf(t, o.decimalSep);
    if (p != -1 || o.maxIntDigits == TokenSettings.MaxDigitsUnlimited || |t| < o.maxIntDigits)
      && (p == -1 || o.maxFracDigits == TokenSettings.MaxDigitsUnlimited || |t| - p - 1 < o.maxFracDigits)
    then t + [DigitChar(digit)]
    else t
  }

  /** The digit listener: an error is dismissed and the digit still typed. */
  function DigitPressed(o: Options, s: Session, digit: nat): (r: Session)
    requires digit < 10
    ensures r.error == TP.ErrorNone && !r.resultIsDisplayed && r.operation == s.operation && r.resultValue == s.resultValue
  {
    var s1 := SeparatorsRemoved(o, ShownDiscarded(ErrorDismissed(s)));
    Refreshed(o, s1.(valueStr := DigitTyped(o, s1.valueStr, digit)))
  }

  /**
   * The operator listener's first part, with a token: a pending operation is calculated,
   * or else the token's value becomes the result and, unless the display is cleared on
   * operation, the token is emptied.
   */
  function OperandTaken(o: Options, s: Session): (r: Result<Session>)
    requires s.error == TP.ErrorNone
  {
    if s.valueStr == [] then Ok(s)
    else if s.operation != TP.OperationNone then Calculated(o, s)
    else
      match CurrentValue(o, s)
      case Err(f) => Err(f)
      case Ok(v) =>
        var s1 := ValueRead(o, s).(resultValue := Some(v));
        Ok(if !o.clearOnOperation then ValueFormatted(o, s1.(valueStr := [])).(resultIsDisplayed := false) else s1)
  }

  /** The operator listener: the operand taken, then the operation recorded. */
  function OperatorPressed(o: Options, s: Session, op: int): (r: Result<Session>)
    ensures r.Ok? && s.error == TP.ErrorNone ==> r.value.operation == op
  {
    if s.error != TP.ErrorNone then Ok(ErrorDismissed(s))
    else
      match OperandTaken(o, s)
      case Err(f) => Err(f)
      case Ok(s1) =>
        var s2 := s1.(operation := op);
        Ok(if o.clearOnOperation then Refreshed(o, s2.(valueStr := [])) else s2)
  }

  /**
   * The decimal listener as written: only a displayed result is cleared; a token to be
   * overwritten is kept, and still to be overwritten (see PointThenDigitAsWritten).
   */
  function DecimalSepPressedAsWritten(o: Options, s: Session): (r: Session)
    ensures r.overwriteValue == s.overwriteValue
    ensures !s.overwriteValue ==> r == DecimalSepPressed(o, s)
  {
    var s0 := ErrorDismissed(s);
    var s1 := if s0.resultIsDisplayed then s0.(valueStr := []) else s0;
    if o.decimalSep in s1.valueStr then s1
    else Displayed(s1.(valueStr := PointAppended(s1.valueStr, o.decimalSep))).(resultIsDisplayed := false)
  }

  /**
   * The decimal listener, with a token to be overwritten cleared like a displayed result:
   * the separator is appended unless the token has one, after a 0 on an empty token.
   * The dialog enables its button only when maxFracDigits > 0; the function is total anyway.
   */
  function DecimalSepPressed(o: Options, s: Session): (r: Session)
    ensures o.decimalSep in r.valueStr && !r.overwriteValue
    ensures r.error == TP.ErrorNone && r.operation == s.operation && r.resultValue == s.resultValue
  {
    var s1 := ShownDiscarded(ErrorDismissed(s));
    if o.decimalSep in s1.valueStr then s1
    else Displayed(s1.(valueStr := PointAppended(s1.valueStr, o.decimalSep))).(resultIsDisplayed := false)
  }

  /**
   * The sign listener as written: the token's leading '-' is toggled unless it reads as no
   * value or zero, and a displayed result is negated, which throws when there is none.
   */
  function SignPressedAsWritten(o: Options, s: Session): (r: Result<Session>)
    ensures r.Err? <==> (s.error == TP.ErrorNone && SignApplies(s.valueStr, o.decimalSep) && s.resultIsDisplayed
      && s.resultValue.None?)
    ensures r.Err? ==> r.fault == NullPointer
    ensures r.Ok? ==> r.value == SignPressed(o, s)
  {
    if s.error != TP.ErrorNone then Ok(ErrorDismissed(s))
    else if !SignApplies(s.valueStr, o.decimalSep) then Ok(s)
    else
      var s1 := s.(valueStr := SignToggled(s.valueStr));
      if s1.resultIsDisplayed && s1.resultValue.None? then Err(NullPointer)
      else
        var s2 := if s1.resultIsDisplayed then s1.(resultValue := TP.Negated(s1.resultValue)) else s1;
        Ok(Displayed(s2).(resultIsDisplayed := false))
  }

  /** The sign listener, with a displayed result negated only where there is one. */
  function SignPressed(o: Options, s: Session): (r: Session)
    ensures s.error != TP.ErrorNone ==> OnlyDismissed(s, r)
    ensures s.error == TP.ErrorNone && !SignApplies(s.valueStr, o.decimalSep) ==> r == s
    ensures r.operation == s.operation && r.error == TP.ErrorNone && (r.resultValue.None? <==> s.resultValue.None?)
  {
    if s.error != TP.ErrorNone then ErrorDismissed(s)
    else if !SignApplies(s.valueStr, o.decimalSep) then s
    else
      var s1 := s.(valueStr := SignToggled(s.valueStr));
      var s2 := if s1.resultIsDisplayed then s1.(resultValue := TP.Negated(s1.resultValue)) else s1;
      Displayed(s2).(resultIsDisplayed := false)
  }

  /** The equal listener. */
  function EqualPressed(o: Options, s: Session): (r: Result<Session>)
    ensures s.error != TP.ErrorNone ==> r.Ok? && OnlyDismissed(s, r.value)
    ensures s.error == TP.ErrorNone && s.resultIsDisplayed ==> r == Ok(s)
    ensures r.Ok? && s.error == TP.ErrorNone && !s.resultIsDisplayed ==>
      ShowsResult(o, r.value) || ShowsError(o, r.value, TP.ErrorDivZero) || ShowsError(o, r.value, TP.ErrorOutOfBounds)
  {
    if s.error != TP.ErrorNone then Ok(ErrorDismissed(s)) else Calculated(o, s)
  }

  /** The clear listener: reset, then the emptied token shown. */
  function ClearPressed(o: Options, s: Session): (r: Session)
    ensures s.error != TP.ErrorNone ==> OnlyDismissed(s, r)
    ensures s.error == TP.ErrorNone ==> (r.error == TP.ErrorNone && r.operation == TP.OperationNone && r.resultValue.None?
      && !r.resultIsDisplayed && r.overwriteValue && r.valueStr == EmptyText(o))
  {
    if s.error != TP.ErrorNone then ErrorDismissed(s)
    else Displayed(Cleared(o, s)).(resultIsDisplayed := false)
  }

  /** The cancel listener: the dialog is dismissed. */
  function CancelPressed(s: Session): (r: Session)
    ensures r == s.(view := r.view) && r.view.Then? && r.view.last == TP.Exited
  {
    Show(s, TP.Exited)
  }

  /** The sign OK accepts: any if it can be changed, else zero or the initial sign. */
  predicate SignAccepted(o: Options, v: Option<Dec>)
  {
    o.signCanBeChanged || v.None? || Signum(v.value) == 0 || Signum(v.value) == o.initialSign
  }

  /**
   * The OK listener: calculate; if an operation is still pending, or calculate failed, that
   * is all; otherwise a sign that is not accepted is an error, and any other result is sent
   * before the dialog is dismissed.
   */
  function OkPressed(o: Options, s: Session): (r: Result<Session>)
    ensures s.error != TP.ErrorNone ==> r.Ok? && OnlyDismissed(s, r.value)
    ensures s.error == TP.ErrorNone ==> (r.Err? <==> Calculated(o, s).Err?)
  {
    if s.error != TP.ErrorNone then Ok(ErrorDismissed(s))
    else
      match Calculated(o, s)
      case Err(f) => Err(f)
      case Ok(r) => Ok(SignChecked(o, r))
  }

  /** The end of the OK listener, after calculate. */
  function SignChecked(o: Options, r: Session): Session
  {
    if r.operation != TP.OperationNone || r.error != TP.ErrorNone then r
    else if !SignAccepted(o, r.resultValue) then
      WithError(o, r, if Signum(r.resultValue.value) == 1 then TP.ErrorWrongSignNeg else TP.ErrorWrongSignPos)
    else Show(Show(r, TP.ValueSent(r.resultValue)), TP.Exited)
  }

  /** onDismiss */
  function Dismissed(o: Options, s: Session): (r: Session)
    ensures r.error == s.error && r.operation == TP.OperationNone && r.resultValue.None? && r.valueStr == EmptyText(o)
  {
    Cleared(o, s)
  }

  /** setScale on ZERO never needs rounding: it is zero at the requested scale, whatever the mode. */
  lemma ZeroRescaled(scale: int, mode: RoundingMode)
    ensures SetScale(Zero, scale, mode) == Ok(Dec(0, scale))
  {
    if scale < 0 {
      var r := RoundDiv(0, Pow10(-scale), mode);
      assert r.Ok? && Rounded(0, Pow10(-scale), r.value, mode);
      assert r.value * Pow10(-scale) == 0;
    }
  }

  /** zeroString: ZERO, at maxFracDigits digits unless results are stripped, as plain text with its '.' localised. */
  function ZeroText(o: Options): string
  {
    ZeroRescaled(o.maxFracDigits, o.roundingMode);
    var zero := if o.stripTrailingZeroes then Zero else SetScale(Zero, o.maxFracDigits, o.roundingMode).value;
    PointLocalised(ToPlainString(zero), o.decimalSep)
  }

  /** onCreate's settings: the locale's separators where the defaults were left, and zeroString. */
  function OptionsCreated(o: Options, localeDecimalSep: char, localeGroupSep: char): (r: Options)
  {
    var o1 := o.(decimalSep := TP.Localised(o.decimalSep, localeDecimalSep),
      groupSep := TP.Localised(o.groupSep, localeGroupSep));
    o1.(zeroString := ZeroText(o1))
  }

  /** onCreate's token: the initial value rounded for display, or nothing, then formatted. */
  function SessionCreated(o: Options, s: Session): (r: Result<Session>)
    ensures r.Err? <==> (s.resultValue.Some? && SetScale(s.resultValue.value, o.maxFracDigits, o.roundingMode).Err?)
    ensures r.Ok? ==> r.value.operation == s.operation && r.value.error == s.error
    ensures r.Ok? ==> (r.value.resultValue.Some? <==> s.resultValue.Some?)
  {
    if s.resultValue.None? then Ok(ValueFormatted(o, s.(valueStr := [])))
    else
      match Settled(o, s.resultValue.value)
      case Err(f) => Err(f)
      case Ok(z) => Ok(ValueFormatted(o, s.(resultValue := Some(z), valueStr := ToPlainString(z))))
  }

  /** onCreateDialog: the token displayed, and treated as a displayed result. */
  function DialogCreated(s: Session): (r: Session)
    ensures r.resultIsDisplayed
  {
    Displayed(s).(resultIsDisplayed := true)
  }

  /** The separators of the dialog as the later presenter's settings, to share its lemmas. */
  function Reading(o: Options): (c: TP.Config)
    ensures c.decimalSep == o.decimalSep && c.groupSep == o.groupSep && c.groupSize == o.groupSize
    ensures c.maxIntDigits == o.maxIntDigits && c.maxFracDigits == o.maxFracDigits && !c.preventLeadingZeroes
  {
    TP.Config(o.decimalSep, o.groupSep, o.groupSize, o.maxIntDigits, o.maxFracDigits, o.roundingMode,
      o.maxValue, o.signCanBeChanged, o.initialSign, o.clearOnOperation, o.showZeroWhenNoValue,
      false, false, true, o.zeroString)
  }

  /** Separators that differ from each other, from the digits and from '-'. */
  predicate SymbolsApart(o: Options)
  {
    TP.SymbolsApart(Reading(o))
  }

  // ---------------------------------------------------------------------------------------
  // Reading a shown result back

  /**
   * The token of a displayed result reads back as the result: the same value, and exactly
   * the result when its scale is not negative, as it always is without stripping.
   */
  lemma ShownResultReadBack(o: Options, r: Session)
    requires SymbolsApart(o) && ShowsResult(o, r)
    ensures CurrentValue(o, r).Ok?
    ensures var v := CurrentValue(o, r).value; var z := r.resultValue.value;
      SameValue(v, z) && (z.scale >= 0 ==> v == z)
      && (!o.stripTrailingZeroes && o.maxFracDigits >= 0 ==> v == z)
  {
    var z := r.resultValue.value;
    TP.ShownTextReadBack(Reading(o), z);
    TP.PlainStringReadBack(z);
    assert |ToPlainString(z)| > 0;
    assert ReadText(o, r.valueStr) == ToPlainString(z);
  }

  // ---------------------------------------------------------------------------------------
  // Digit entry

  /**
   * The digit edit is the later presenter's with leading zeros allowed, except on a lone
   * "0": the dialog appends the digit to it, where the presenter replaces it.
   */
  lemma DigitAgreesWithPresenter(o: Options, t: string, digit: nat)
    requires digit < 10
    ensures t != "0" ==> DigitTyped(o, t, digit) == TP.DigitTyped(Reading(o), t, digit)
    ensures (t == "0" && digit != 0 && o.decimalSep != '0'
      && (o.maxIntDigits == TokenSettings.MaxDigitsUnlimited || o.maxIntDigits > 1)) ==>
      DigitTyped(o, t, digit) == ['0', DigitChar(digit)] && TP.DigitTyped(Reading(o), t, digit) == [DigitChar(digit)]
  {
    if |t| == 1 && t[0] == '0' {
      assert t == "0";
    }
  }

  // ---------------------------------------------------------------------------------------
  // Erase

  /** Erasing a digit just typed after a number that does not end in a mark gives the number back. */
  lemma TypedThenErased(t: string, decimalSep: char, digit: nat)
    requires digit < 10 && !IsDigit(decimalSep) && decimalSep != '-'
    requires t == [] || !IsMark(t[|t| - 1], decimalSep)
    ensures ErasedTail(t + [DigitChar(digit)], decimalSep) == t
  {
    var w := t + [DigitChar(digit)];
    assert w[..|w| - 1] == t;
  }

  /**
   * An erase with a result displayed, or on a token to be overwritten, empties the token,
   * which then shows EmptyText.
   */
  lemma EraseOfShownValue(o: Options, s: Session)
    requires s.error == TP.ErrorNone && s.valueStr != [] && (s.resultIsDisplayed || s.overwriteValue)
    ensures ErasePressed(o, s).Ok?
    ensures var r := ErasePressed(o, s).value;
      r.valueStr == EmptyText(o) && r.overwriteValue == o.showZeroWhenNoValue && !r.resultIsDisplayed
  {
    assert Formatted([], o.decimalSep, o.groupSep, o.groupSize) == [];
  }

  /**
   * The erase listener throws StringIndexOutOfBoundsException exactly when it edits a
   * typed token made of grouping separators only, so that nothing is left to delete.
   */
  lemma EraseFaults(o: Options, s: Session)
    ensures ErasePressed(o, s).Err? <==>
      s.error == TP.ErrorNone && s.valueStr != [] && !s.resultIsDisplayed && !s.overwriteValue
      && GroupsRemoved(s.valueStr, o.groupSep, o.groupSize) == []
    ensures ErasePressed(o, s).Err? ==> ErasePressed(o, s) == Err(IndexOutOfBounds)
  {
  }

  // ---------------------------------------------------------------------------------------
  // Sign

  /**
   * The sign key negates the number the token reads as, when the token starts a number,
   * and negates a displayed result.
   */
  lemma SignReadsNegated(o: Options, s: Session)
    requires SymbolsApart(o) && s.error == TP.ErrorNone && TP.SignedNumber(s.valueStr)
    requires SignApplies(s.valueStr, o.decimalSep)
    ensures var r := SignPressed(o, s);
      TokenValue(o, r.valueStr) == TP.Negated(TokenValue(o, s.valueStr))
      && r.resultValue == (if s.resultIsDisplayed then TP.Negated(s.resultValue) else s.resultValue)
      && !r.resultIsDisplayed
  {
    TP.SignToggledReadsNegated(Reading(o), s.valueStr);
  }

  /** Two sign keys give the token back; a displayed result is negated once, since the first ends the display. */
  lemma SignTwice(o: Options, s: Session)
    requires s.error == TP.ErrorNone && TP.SignedNumber(s.valueStr)
    requires SignApplies(s.valueStr, o.decimalSep) && SignApplies(SignToggled(s.valueStr), o.decimalSep)
    ensures var r1 := SignPressed(o, s); var r2 := SignPressed(o, r1);
      r2.valueStr == s.valueStr && r2.resultValue == r1.resultValue && !r2.resultIsDisplayed
      && r1.resultValue == (if s.resultIsDisplayed then TP.Negated(s.resultValue) else s.resultValue)
  {
    SignToggledTwice(s.valueStr);
  }

  /** zeroString when results are not stripped: "0", the separator, and maxFracDigits zeros. */
  lemma ZeroTextUnstripped(o: Options)
    requires !o.stripTrailingZeroes && o.maxFracDigits > 0
    ensures ZeroText(o) == ['0', o.decimalSep] + Zeros(o.maxFracDigits)
  {
    var k := o.maxFracDigits;
    ZeroRescaled(k, o.roundingMode);
    ZeroPlainText(k);
    var t := ToPlainString(Dec(0, k));
    IndexOfFirst(t, '.', 1);
    assert t[1 := o.decimalSep] == ['0', o.decimalSep] + Zeros(k);
  }


  /** zeroString when results are stripped: "0". */
  lemma ZeroTextStripped(o: Options)
    requires o.stripTrailingZeroes
    ensures ZeroText(o) == "0"
  {
    assert ToPlainString(Zero) == "0";
    assert IndexOf("0", '.') == -1;
  }

  /**
   * Without stripping, a dialog opened with no value shows zeroString, "0" followed by the
   * separator and zeros, as a displayed result; the sign key applies to that text and
   * negates the result, which is null: it throws.
   */
  lemma UnstrippedZeroSignAsWritten(o0: Options, localeDecimalSep: char, localeGroupSep: char, s: Session)
    requires !o0.stripTrailingZeroes && o0.showZeroWhenNoValue && o0.maxFracDigits > 0
    requires s.error == TP.ErrorNone && s.resultValue.None?
    ensures var o := OptionsCreated(o0, localeDecimalSep, localeGroupSep);
      SessionCreated(o, s).Ok? && SignPressedAsWritten(o, DialogCreated(SessionCreated(o, s).value)) == Err(NullPointer)
  {
    var sep := TP.Localised(o0.decimalSep, localeDecimalSep);
    ZeroTextUnstripped(o0.(decimalSep := sep, groupSep := TP.Localised(o0.groupSep, localeGroupSep)));
  }

  /** With the displayed result negated only where there is one, the same key press leaves "-" before zeroString and no result. */
  lemma UnstrippedZeroSign(o0: Options, localeDecimalSep: char, localeGroupSep: char, s: Session)
    requires !o0.stripTrailingZeroes && o0.showZeroWhenNoValue && o0.maxFracDigits > 0
    requires s.error == TP.ErrorNone && s.resultValue.None?
    ensures var o := OptionsCreated(o0, localeDecimalSep, localeGroupSep);
      SessionCreated(o, s).Ok? &&
      var r := SignPressed(o, DialogCreated(SessionCreated(o, s).value));
      r.valueStr == ['-'] + o.zeroString && r.resultValue.None? && !r.resultIsDisplayed && r.error == TP.ErrorNone
  {
    var sep := TP.Localised(o0.decimalSep, localeDecimalSep);
    ZeroTextUnstripped(o0.(decimalSep := sep, groupSep := TP.Localised(o0.groupSep, localeGroupSep)));
  }

  // ---------------------------------------------------------------------------------------
  // Decimal separator

  /** After the decimal key the token holds a separator and a second key changes nothing. */
  lemma DecimalSepTwice(o: Options, s: Session)
    ensures var r1 := DecimalSepPressed(o, s);
      o.decimalSep in r1.valueStr && DecimalSepPressed(o, r1) == r1
  {
    var s1 := ShownDiscarded(ErrorDismissed(s));
    PointAppendedOnce(s1.valueStr, o.decimalSep);
  }

  /** A one-digit token is displayed as it is. */
  lemma OneDigitFormatted(o: Options, digit: nat)
    requires SymbolsApart(o) && digit < 10
    ensures Formatted([DigitChar(digit)], o.decimalSep, o.groupSep, o.groupSize) == [DigitChar(digit)]
  {
    var t := [DigitChar(digit)];
    assert IndexOf(t, '.') == -1 && IndexOf(t, o.decimalSep) == -1;
  }

  /** "0", the separator and a digit are displayed as they are. */
  lemma PointDigitFormatted(o: Options, digit: nat)
    requires SymbolsApart(o) && digit < 10
    ensures Formatted(['0', o.decimalSep, DigitChar(digit)], o.decimalSep, o.groupSep, o.groupSize)
      == ['0', o.decimalSep, DigitChar(digit)]
  {
    var t := ['0', o.decimalSep, DigitChar(digit)];
    IndexOfFirst(t, o.decimalSep, 1);
    if o.decimalSep == '.' {
      assert t[1 := '.'] == t;
    } else {
      assert '.' !in t;
    }
  }

  /**
   * As written, the decimal key leaves a token to be overwritten still to be overwritten,
   * so the next digit replaces it: on the zero shown, '.' and then 5 display "5", not "0.5".
   */
  lemma PointThenDigitAsWritten(o: Options, s: Session, digit: nat)
    requires SymbolsApart(o) && digit < 10 && s.overwriteValue
    requires o.maxIntDigits == TokenSettings.MaxDigitsUnlimited || o.maxIntDigits >= 1
    ensures DecimalSepPressedAsWritten(o, s).overwriteValue
    ensures DigitPressed(o, DecimalSepPressedAsWritten(o, s), digit).valueStr == [DigitChar(digit)]
  {
    OneDigitFormatted(o, digit);
    assert GroupsRemoved([], o.groupSep, o.groupSize) == [];
  }

  /**
   * With a token to be overwritten cleared by the decimal key, the digit follows "0" and the
   * separator. The decimal button is enabled only when maxFracDigits > 0, so that is required.
   */
  lemma PointThenDigit(o: Options, s: Session, digit: nat)
    requires SymbolsApart(o) && digit < 10 && s.overwriteValue
    requires o.maxFracDigits >= 1
    ensures !DecimalSepPressed(o, s).overwriteValue
    ensures DigitPressed(o, DecimalSepPressed(o, s), digit).valueStr == ['0', o.decimalSep, DigitChar(digit)]
  {
    var t := ['0', o.decimalSep];
    assert PointAppended([], o.decimalSep) == t;
    assert o.groupSep !in t;
    UngroupedWithout(t, o.groupSep);
    IndexOfFirst(t, o.decimalSep, 1);
    assert t + [DigitChar(digit)] == ['0', o.decimalSep, DigitChar(digit)];
    PointDigitFormatted(o, digit);
  }

  // ---------------------------------------------------------------------------------------
  // Calculate, equal and OK

  /**
   * How calculate ends for the value x it computed: an OUT_OF_BOUNDS error outside the
   * bounds, the rounding fault of setScale, or x rounded for display and shown.
   */
  predicate Settles(o: Options, r: Result<Session>, x: Dec)
  {
    if IsValueOutOfBounds(x, o.maxValue) then r.Ok? && ShowsError(o, r.value, TP.ErrorOutOfBounds)
    else
      match Settled(o, x)
      case Err(f) => r == Err(f)
      case Ok(z) => r.Ok? && ShowsResult(o, r.value) && r.value.resultValue == Some(z)
  }

  /** Without an operation, or with no token, calculate settles the token's value (ZERO for none). */
  lemma CalculateValue(o: Options, s: Session)
    requires s.error == TP.ErrorNone && !s.resultIsDisplayed
    requires s.operation == TP.OperationNone || s.valueStr == []
    ensures CurrentValue(o, s).Err? ==> Calculated(o, s) == Err(NumberFormat)
    ensures CurrentValue(o, s).Ok? ==> Settles(o, Calculated(o, s), CurrentValue(o, s).value)
  {
  }

  /**
   * With an operation and a token, calculate combines the stored result (ZERO when none)
   * with the token's value and settles the outcome; a zero divisor is a DIV_ZERO error.
   */
  lemma CalculateOperation(o: Options, s: Session, v: Dec)
    requires s.error == TP.ErrorNone && !s.resultIsDisplayed && TP.IsArithmetic(s.operation) && s.valueStr != []
    requires CurrentValue(o, s) == Ok(v)
    ensures s.operation == TP.OperationDiv && Cmp(v, Zero) == 0 ==>
      Calculated(o, s).Ok? && ShowsError(o, Calculated(o, s).value, TP.ErrorDivZero)
    ensures !(s.operation == TP.OperationDiv && Cmp(v, Zero) == 0) ==>
      match TP.Combined(s.operation, TP.OrZero(s.resultValue), v, o.maxFracDigits, o.roundingMode)
      case Err(f) => Calculated(o, s) == Err(f)
      case Ok(x) => Settles(o, Calculated(o, s), x)
  {
  }

  /**
   * Without an error from calculate and with no operation left, OK sends the result and
   * dismisses the dialog exactly when its sign is accepted; otherwise it shows
   * WRONG_SIGN_NEG for a positive result and WRONG_SIGN_POS for a negative one.
   */
  lemma OkSendsResult(o: Options, s: Session, r: Session)
    requires s.error == TP.ErrorNone && Calculated(o, s) == Ok(r)
    requires r.error == TP.ErrorNone && r.operation == TP.OperationNone
    ensures OkPressed(o, s).Ok?
    ensures OkPressed(o, s).value.error == TP.ErrorNone <==> SignAccepted(o, r.resultValue)
    ensures SignAccepted(o, r.resultValue) ==>
      OkPressed(o, s).value == Show(Show(r, TP.ValueSent(r.resultValue)), TP.Exited)
    ensures !SignAccepted(o, r.resultValue) ==>
      ShowsError(o, OkPressed(o, s).value, if Signum(r.resultValue.value) == 1 then TP.ErrorWrongSignNeg else TP.ErrorWrongSignPos)
  {
  }

  /** When calculate ends in an error, or leaves an operation pending, OK stops there: nothing is sent. */
  lemma OkStops(o: Options, s: Session, r: Session)
    requires s.error == TP.ErrorNone && Calculated(o, s) == Ok(r)
    requires r.error != TP.ErrorNone || r.operation != TP.OperationNone
    ensures OkPressed(o, s) == Ok(r)
  {
  }

  /**
   * As written, a new dialog has signCanBeChanged false and initialSign 0, so OK refuses
   * every nonzero value: opened on the value 5, it shows WRONG_SIGN_NEG instead of sending 5.
   */
  lemma SignLockedAsWritten(s: Session)
    requires s.error == TP.ErrorNone && s.operation == TP.OperationNone && s.resultIsDisplayed
    requires s.resultValue.Some? && Signum(s.resultValue.value) != 0
    ensures OkPressed(WrittenDefaults, s).Ok?
    ensures ShowsError(WrittenDefaults, OkPressed(WrittenDefaults, s).value,
      if Signum(s.resultValue.value) == 1 then TP.ErrorWrongSignNeg else TP.ErrorWrongSignPos)
  {
  }

  /** With the sign free to change by default, the value shown is sent and the dialog dismissed. */
  lemma DefaultSendsValue(s: Session)
    requires s.error == TP.ErrorNone && s.operation == TP.OperationNone && s.resultIsDisplayed
    ensures OkPressed(Defaults, s) == Ok(Show(Show(s, TP.ValueSent(s.resultValue)), TP.Exited))
  {
  }

  // ---------------------------------------------------------------------------------------
  // The dialog object

  /** Reading the token does not look at, nor change, the stored result. */
  lemma ValueReadKeepsResult(o: Options, s0: Session, s1: Session)
    requires s1 == s0.(resultValue := s1.resultValue)
    ensures CurrentValue(o, s1) == CurrentValue(o, s0)
    ensures ValueRead(o, s1) == ValueRead(o, s0).(resultValue := s1.resultValue)
  {
  }

  /** What a listener that may throw leaves: its state, or the exception it raised. */
  predicate Outcome(r: Result<Session>, thrown: Option<Fault>, now: Session)
  {
    match r
    case Ok(s) => thrown.None? && now == s
    case Err(f) => thrown == Some(f)
  }

  class CalcDialog {
    var settings: Options
    var operation: int
    var error: int
    var valueStr: string
    var resultValue: Option<Dec>
    var resultIsDisplayed: bool
    var overwriteValue: bool
    var view: TP.Log

    function Snapshot(): Session
      reads this
    {
      Session(operation, error, valueStr, resultValue, resultIsDisplayed, overwriteValue, view)
    }

    /** A new dialog with the default settings; the token and zeroString wait for onCreate. */
    constructor ()
      ensures settings == Defaults && Snapshot() == NewSession
    {
      settings := Options(Some(TokenSettings.DefaultMaxValue), 10, 8, HalfUp, true, true, 0, false, true,
        TokenSettings.FormatCharDefault, TokenSettings.FormatCharDefault, 3, []);
      operation := TP.OperationNone;
      error := TP.ErrorNone;
      valueStr := [];
      resultValue := None;
      resultIsDisplayed := false;
      overwriteValue := false;
      view := TP.Empty;
    }

    /**
     * onCreate: the locale's separators where the defaults were left, zeroString, then the
     * token from the initial value.
     */
    method OnCreate(localeDecimalSep: char, localeGroupSep: char) returns (thrown: Option<Fault>)
      modifies this
      ensures settings == OptionsCreated(old(settings), localeDecimalSep, localeGroupSep)
      ensures Outcome(SessionCreated(settings, old(Snapshot())), thrown, Snapshot())
    {
      LocaliseSeparators(localeDecimalSep, localeGroupSep);
      MakeZeroString();
      thrown := InitValues();
    }

    /** A separator left at FORMAT_CHAR_DEFAULT takes the locale's. */
    method LocaliseSeparators(localeDecimalSep: char, localeGroupSep: char)
      modifies this
      ensures settings == old(settings).(decimalSep := TP.Localised(old(settings.decimalSep), localeDecimalSep),
        groupSep := TP.Localised(old(settings.groupSep), localeGroupSep))
      ensures Snapshot() == old(Snapshot())
    {
      if settings.decimalSep == TokenSettings.FormatCharDefault {
        settings := settings.(decimalSep := localeDecimalSep);
      }
      if settings.groupSep == TokenSettings.FormatCharDefault {
        settings := settings.(groupSep := localeGroupSep);
      }
    }

    /** zeroString: ZERO, at maxFracDigits digits unless stripping, in plain text with its separator. */
    method MakeZeroString()
      modifies this
      ensures Snapshot() == old(Snapshot())
      ensures settings == old(settings).(zeroString := ZeroText(old(settings)))
    {
      var zero := Zero;
      if !settings.stripTrailingZeroes {
        ZeroRescaled(settings.maxFracDigits, settings.roundingMode);
        zero := SetScale(Zero, settings.maxFracDigits, settings.roundingMode).value;
      }
      var t := ToPlainString(zero);
      var pointPos := IndexOf(t, '.');
      if pointPos != -1 && settings.decimalSep != '.' {
        t := t[pointPos := settings.decimalSep];
      }
      assert t == PointLocalised(ToPlainString(zero), settings.decimalSep);
      settings := settings.(zeroString := t);
    }

    /** onCreate's token: the initial value rounded for display, or nothing, then formatted. */
    method InitValues() returns (thrown: Option<Fault>)
      modifies this
      ensures settings == old(settings)
      ensures Outcome(SessionCreated(settings, old(Snapshot())), thrown, Snapshot())
    {
      if resultValue.Some? {
        var z;
        thrown, z := RoundForDisplay(resultValue.value);
        if thrown.Some? {
          return;
        }
        resultValue := Some(z);
        valueStr := ToPlainString(z);
      } else {
        valueStr := [];
        thrown := None;
      }
      FormatValue();
    }

    /** onCreateDialog: the token displayed, as a result. */
    method OnCreateDialog()
      modifies this
      ensures settings == old(settings)
      ensures Snapshot() == DialogCreated(old(Snapshot()))
    {
      DisplayValueText();
      resultIsDisplayed := true;
    }

    /** textvDisplay.setText(valueStr) */
    method DisplayValueText()
      modifies this
      ensures settings == old(settings)
      ensures Snapshot() == Displayed(old(Snapshot()))
    {
      view := TP.Then(view, TP.ValueTextShown(valueStr));
    }

    /**
     * formatValue: an empty token becomes zeroString when a zero is shown; otherwise the '.'
     * becomes the decimal separator and the grouping separators are inserted before it.
     */
    method FormatValue()
      modifies this
      ensures settings == old(settings)
      ensures Snapshot() == ValueFormatted(settings, old(Snapshot()))
    {
      if valueStr == [] && settings.showZeroWhenNoValue {
        valueStr := settings.zeroString;
        overwriteValue := true;
        return;
      }
      var t := valueStr;
      var pointPos := IndexOf(t, '.');
      if pointPos != -1 {
        t := t[pointPos := settings.decimalSep];
      } else {
        pointPos := IndexOf(t, settings.decimalSep);
      }
      assert t == PointLocalised(valueStr, settings.decimalSep) && pointPos == PointIndex(valueStr, settings.decimalSep);
      if settings.groupSize > 0 {
        var end := if pointPos == -1 then |t| else pointPos;
        t := InsertGroupSeparators(t, settings.groupSep, settings.groupSize, end - settings.groupSize);
      }
      valueStr := t;
    }

    /** removeGroupSeparators: nothing happens when grouping is off. */
    method RemoveGroupSeparators()
      modifies this
      ensures settings == old(settings)
      ensures Snapshot() == SeparatorsRemoved(settings, old(Snapshot()))
    {
      if settings.groupSize > 0 {
        valueStr := DeleteGroupSeparators(valueStr, settings.groupSep);
      }
    }

    /**
     * getCurrentValue: ZERO for an empty token, or the token read as a decimal once its
     * grouping separators are removed and its separator made a '.'.
     */
    method GetCurrentValue() returns (thrown: Option<Fault>, value: Dec)
      modifies this
      ensures settings == old(settings)
      ensures Snapshot() == ValueRead(settings, old(Snapshot()))
      ensures match CurrentValue(settings, old(Snapshot()))
        case Ok(v) => thrown.None? && value == v
        case Err(f) => thrown == Some(f)
    {
      if valueStr == [] {
        return None, Zero;
      }
      RemoveGroupSeparators();
      var pointPos := IndexOf(valueStr, settings.decimalSep);
      if pointPos != -1 {
        valueStr := valueStr[pointPos := '.'];
      }
      var parsed := Parse(valueStr);
      if parsed.None? {
        return Some(NumberFormat), Zero;
      }
      return None, parsed.value;
    }

    /** isValueOutOfBounds, against the dialog's maximum. */
    method IsValueOutOfBounds(value: Dec) returns (b: bool)
      ensures b == DialogUtils.IsValueOutOfBounds(value, settings.maxValue)
      ensures b == DialogUtils.IsValueOutOfBounds(Negate(value), settings.maxValue)
    {
      OutOfBoundsSymmetric(value, settings.maxValue);
      b := settings.maxValue.Some? && (Cmp(value, settings.maxValue.value) > 0 || Cmp(value, Negate(settings.maxValue.value)) < 0);
    }

    /** The static stripTrailingZeroes: ZERO for any zero, otherwise the stripped value. */
    static method StripTrailingZeroes(from: Dec) returns (r: Dec)
      ensures r == DialogUtils.StripTrailingZeroes(from)
      ensures SameValue(r, from) && DialogUtils.StripTrailingZeroes(r) == r
    {
      StripIdempotent(from);
      StrippedSameValue(from);
      if Cmp(from, Zero) == 0 {
        return Zero;
      }
      return StripTrailingZeros(from);
    }

    /** reset: no operation or result, and the emptied token to be overwritten, as a displayed result. */
    method Reset()
      modifies this
      ensures settings == old(settings)
      ensures Snapshot() == Cleared(settings, old(Snapshot()))
    {
      operation := TP.OperationNone;
      resultValue := None;
      overwriteValue := true;
      valueStr := [];
      FormatValue();
      resultIsDisplayed := true;
    }

    /** setError: the error message shown, then reset. */
    method SetError(e: int)
      modifies this
      ensures settings == old(settings)
      ensures Snapshot() == WithError(settings, old(Snapshot()), e)
    {
      error := e;
      view := TP.Then(view, TP.ErrorTextShown(e));
      Reset();
    }

    /** dismissError: true when there was an error to dismiss. */
    method DismissError() returns (dismissed: bool)
      modifies this
      ensures settings == old(settings)
      ensures dismissed == (old(error) != TP.ErrorNone)
      ensures Snapshot() == ErrorDismissed(old(Snapshot()))
    {
      if error != TP.ErrorNone {
        error := TP.ErrorNone;
        DisplayValueText();
        resultIsDisplayed := false;
        return true;
      }
      return false;
    }

    /** The rounding for display: setScale, then stripTrailingZeroes when results are stripped. */
    method RoundForDisplay(x: Dec) returns (thrown: Option<Fault>, z: Dec)
      ensures match Settled(settings, x)
        case Err(f) => thrown == Some(f)
        case Ok(v) => thrown.None? && z == v
    {
      var y := SetScale(x, settings.maxFracDigits, settings.roundingMode);
      if y.Err? {
        return Some(y.fault), Zero;
      }
      z := y.value;
      if settings.stripTrailingZeroes {
        z := StripTrailingZeroes(z);
      }
      return None, z;
    }

    /** The end of calculate: the bounds check, the rounding, and the result displayed. */
    method ShowResult() returns (thrown: Option<Fault>)
      requires resultValue.Some? && error == TP.ErrorNone
      modifies this
      ensures settings == old(settings)
      ensures Outcome(ResultShown(settings, old(Snapshot())), thrown, Snapshot())
    {
      var outOfBounds := IsValueOutOfBounds(resultValue.value);
      if outOfBounds {
        SetError(TP.ErrorOutOfBounds);
        return None;
      }
      var z;
      thrown, z := RoundForDisplay(resultValue.value);
      if thrown.Some? {
        return;
      }
      DisplayResult(z);
    }

    /** The result is stored, printed, formatted and displayed; no operation is left. */
    method DisplayResult(z: Dec)
      modifies this
      ensures settings == old(settings)
      ensures Snapshot() == Displayed(ValueFormatted(settings, old(Snapshot()).(resultValue := Some(z), valueStr := ToPlainString(z))))
        .(resultIsDisplayed := true, operation := TP.OperationNone)
    {
      StoreResult(z);
      FormatValue();
      DisplayValueText();
      EndCalculation();
    }

    /** The value becomes the result, and its plain text the token. */
    method StoreResult(z: Dec)
      modifies this
      ensures settings == old(settings)
      ensures Snapshot() == old(Snapshot()).(resultValue := Some(z), valueStr := ToPlainString(z))
    {
      resultValue := Some(z);
      valueStr := ToPlainString(z);
    }

    /** The result is now displayed, and no operation is pending. */
    method EndCalculation()
      modifies this
      ensures settings == old(settings)
      ensures Snapshot() == old(Snapshot()).(resultIsDisplayed := true, operation := TP.OperationNone)
    {
      resultIsDisplayed := true;
      operation := TP.OperationNone;
    }

    /** calculate's arithmetic on the stored result; a zero divisor is a DIV_ZERO error. */
    method ApplyOperation(operand: Dec) returns (thrown: Option<Fault>, divByZero: bool)
      requires resultValue.Some?
      modifies this
      ensures settings == old(settings)
      ensures divByZero <==> old(operation) == TP.OperationDiv && Cmp(operand, Zero) == 0
      ensures divByZero ==> thrown.None? && Snapshot() == WithError(settings, old(Snapshot()), TP.ErrorDivZero)
      ensures !divByZero ==>
        match TP.Combined(old(operation), old(resultValue).value, operand, settings.maxFracDigits, settings.roundingMode)
        case Err(f) => thrown == Some(f)
        case Ok(x) => thrown.None? && Snapshot() == old(Snapshot()).(resultValue := Some(x))
    {
      if operation == TP.OperationAdd {
        resultValue := Some(Add(resultValue.value, operand));
      } else if operation == TP.OperationSub {
        resultValue := Some(Sub(resultValue.value, operand));
      } else if operation == TP.OperationMult {
        resultValue := Some(Mul(resultValue.value, operand));
      } else if operation == TP.OperationDiv {
        if Cmp(operand, Zero) == 0 {
          SetError(TP.ErrorDivZero);
          return None, true;
        }
        var q := Divide(resultValue.value, operand, settings.maxFracDigits, settings.roundingMode);
        if q.Err? {
          return Some(q.fault), false;
        }
        resultValue := Some(q.value);
      }
      return None, false;
    }

    /**
     * calculate: nothing while a result is displayed; otherwise the token's value, or the
     * stored result combined with it, is checked, rounded and displayed.
     */
    method Calculate() returns (thrown: Option<Fault>)
      requires error == TP.ErrorNone
      modifies this
      ensures settings == old(settings)
      ensures Outcome(Calculated(settings, old(Snapshot())), thrown, Snapshot())
    {
      if resultIsDisplayed {
        return None;
      }
      ghost var s0 := Snapshot();
      if operation == TP.OperationNone || valueStr == [] {
        var value;
        thrown, value := GetCurrentValue();
        if thrown.Some? {
          return;
        }
        resultValue := Some(value);
        assert Calculated(settings, s0) == ResultShown(settings, Snapshot());
      } else {
        var proceed;
        thrown, proceed := CombineOperand();
        if !proceed {
          return;
        }
      }
      thrown := ShowResult();
    }

    /**
     * The stored result (ZERO when none) combined with the token's value; proceed says
     * whether calculate goes on to show the result.
     */
    method CombineOperand() returns (thrown: Option<Fault>, proceed: bool)
      requires !resultIsDisplayed && operation != TP.OperationNone && valueStr != [] && error == TP.ErrorNone
      modifies this
      ensures settings == old(settings)
      ensures proceed ==> (thrown.None? && resultValue.Some? && error == TP.ErrorNone
        && Calculated(settings, old(Snapshot())) == ResultShown(settings, Snapshot()))
      ensures !proceed ==> Outcome(Calculated(settings, old(Snapshot())), thrown, Snapshot())
    {
      ghost var s0 := Snapshot();
      var value;
      thrown, value := TakeResultAndOperand();
      if thrown.Some? {
        return thrown, false;
      }
      ghost var s1 := Snapshot();
      var divByZero;
      thrown, divByZero := ApplyOperation(value);
      if divByZero {
        assert Calculated(settings, s0) == Ok(WithError(settings, s1, TP.ErrorDivZero));
        return None, false;
      }
      if thrown.Some? {
        assert Calculated(settings, s0) == Err(thrown.value);
        return thrown, false;
      }
      assert Calculated(settings, s0) == ResultShown(settings, Snapshot());
      return None, true;
    }

    /** The stored result, ZERO when none, and the token's value as the operand. */
    method TakeResultAndOperand() returns (thrown: Option<Fault>, value: Dec)
      modifies this
      ensures settings == old(settings)
      ensures Snapshot() == ValueRead(settings, old(Snapshot())).(resultValue := Some(TP.OrZero(old(resultValue))))
      ensures match CurrentValue(settings, old(Snapshot()))
        case Ok(v) => thrown.None? && value == v
        case Err(f) => thrown == Some(f)
    {
      ghost var s0 := Snapshot();
      ResultOrZero();
      ghost var s1 := Snapshot();
      ValueReadKeepsResult(settings, s0, s1);
      thrown, value := GetCurrentValue();
    }

    /** if (resultValue == null) resultValue = ZERO */
    method ResultOrZero()
      modifies this
      ensures settings == old(settings)
      ensures Snapshot() == old(Snapshot()).(resultValue := Some(TP.OrZero(old(resultValue))))
    {
      if resultValue.None? {
        resultValue := Some(Zero);
      }
    }

    /** A displayed result or an overwrite token is cleared before an edit. */
    method DiscardShown()
      modifies this
      ensures settings == old(settings)
      ensures Snapshot() == ShownDiscarded(old(Snapshot()))
    {
      if resultIsDisplayed || overwriteValue {
        valueStr := [];
        overwriteValue := false;
      }
    }

    /** The token is formatted and displayed, and it no longer shows a result. */
    method Refresh()
      modifies this
      ensures settings == old(settings)
      ensures Snapshot() == Refreshed(settings, old(Snapshot()))
    {
      FormatValue();
      DisplayValueText();
      resultIsDisplayed := false;
    }

    /** The erase listener. */
    method OnEraseBtnClicked() returns (thrown: Option<Fault>)
      modifies this
      ensures settings == old(settings)
      ensures Outcome(ErasePressed(settings, old(Snapshot())), thrown, Snapshot())
    {
      var dismissed := DismissError();
      if dismissed {
        return None;
      }
      if |valueStr| > 0 {
        if resultIsDisplayed || overwriteValue {
          valueStr := [];
          overwriteValue := false;
        } else {
          RemoveGroupSeparators();
          if |valueStr| == 0 {
            return Some(IndexOutOfBounds);
          }
          EraseLast();
        }
        Refresh();
      }
      return None;
    }

    /** The erase edit: the last character goes, then a separator or '-' left at the end. */
    method EraseLast()
      requires |valueStr| > 0
      modifies this
      ensures settings == old(settings)
      ensures Snapshot() == old(Snapshot()).(valueStr := ErasedTail(old(valueStr), settings.decimalSep))
    {
      valueStr := valueStr[..|valueStr| - 1];
      if |valueStr| > 0 {
        var last := valueStr[|valueStr| - 1];
        if last == settings.decimalSep || last == '-' {
          valueStr := valueStr[..|valueStr| - 1];
        }
      }
    }

    /** A digit listener. */
    method OnDigitBtnClicked(digit: nat)
      requires digit < 10
      modifies this
      ensures settings == old(settings)
      ensures Snapshot() == DigitPressed(settings, old(Snapshot()), digit)
    {
      var _ := DismissError();
      DiscardShown();
      RemoveGroupSeparators();
      AppendDigit(digit);
      Refresh();
    }

    /** The digit edit with its limit checks. */
    method AppendDigit(digit: nat)
      requires digit < 10
      modifies this
      ensures settings == old(settings)
      ensures Snapshot() == old(Snapshot()).(valueStr := DigitTyped(settings, old(valueStr), digit))
    {
      var pointPos := IndexOf(valueStr, settings.decimalSep);
      if (pointPos != -1 || settings.maxIntDigits == TokenSettings.MaxDigitsUnlimited || |valueStr| < settings.maxIntDigits)
        && (pointPos == -1 || settings.maxFracDigits == TokenSettings.MaxDigitsUnlimited || |valueStr| - pointPos - 1 < settings.maxFracDigits)
      {
        valueStr := valueStr + [DigitChar(digit)];
      }
    }

    /** An operator listener. */
    method OnOperatorBtnClicked(op: int) returns (thrown: Option<Fault>)
      modifies this
      ensures settings == old(settings)
      ensures Outcome(OperatorPressed(settings, old(Snapshot()), op), thrown, Snapshot())
    {
      var dismissed := DismissError();
      if dismissed {
        return None;
      }
      thrown := TakeOperand();
      if thrown.Some? {
        return;
      }
      SetOperation(op);
    }

    /** The first part of the operator listener. */
    method TakeOperand() returns (thrown: Option<Fault>)
      requires error == TP.ErrorNone
      modifies this
      ensures settings == old(settings)
      ensures Outcome(OperandTaken(settings, old(Snapshot())), thrown, Snapshot())
    {
      if |valueStr| != 0 {
        if operation != TP.OperationNone {
          thrown := Calculate();
        } else {
          thrown := StoreOperand();
        }
      } else {
        thrown := None;
      }
    }

    /** The token's value becomes the result; the token is emptied unless it is cleared later. */
    method StoreOperand() returns (thrown: Option<Fault>)
      requires error == TP.ErrorNone && valueStr != [] && operation == TP.OperationNone
      modifies this
      ensures settings == old(settings)
      ensures Outcome(OperandTaken(settings, old(Snapshot())), thrown, Snapshot())
    {
      var value;
      thrown, value := GetCurrentValue();
      if thrown.Some? {
        return;
      }
      StoreResultValue(value);
      if !settings.clearOnOperation {
        ClearOperand();
      }
    }

    /** The value becomes the stored result. */
    method StoreResultValue(value: Dec)
      modifies this
      ensures settings == old(settings)
      ensures Snapshot() == old(Snapshot()).(resultValue := Some(value))
    {
      resultValue := Some(value);
    }

    /** The taken operand leaves an empty token, formatted and not a displayed result. */
    method ClearOperand()
      modifies this
      ensures settings == old(settings)
      ensures Snapshot() == ValueFormatted(settings, old(Snapshot()).(valueStr := [])).(resultIsDisplayed := false)
    {
      valueStr := [];
      FormatValue();
      resultIsDisplayed := false;
    }

    /** The end of the operator listener. */
    method SetOperation(op: int)
      modifies this
      ensures settings == old(settings)
      ensures Snapshot() == (var s2 := old(Snapshot()).(operation := op);
        if settings.clearOnOperation then Refreshed(settings, s2.(valueStr := [])) else s2)
    {
      operation := op;
      if settings.clearOnOperation {
        valueStr := [];
        Refresh();
      }
    }

    /** The decimal listener, with a token to be overwritten cleared like a displayed result. */
    method OnDecimalBtnClicked()
      modifies this
      ensures settings == old(settings)
      ensures Snapshot() == DecimalSepPressed(settings, old(Snapshot()))
    {
      var _ := DismissError();
      DiscardShown();
      if settings.decimalSep !in valueStr {
        if |valueStr| == 0 {
          valueStr := "0";
        }
        valueStr := valueStr + [settings.decimalSep];
        DisplayValueText();
        resultIsDisplayed := false;
      }
    }

    /** The sign listener, with a displayed result negated only where there is one. */
    method OnSignBtnClicked()
      modifies this
      ensures settings == old(settings)
      ensures Snapshot() == SignPressed(settings, old(Snapshot()))
    {
      var dismissed := DismissError();
      if dismissed {
        return;
      }
      if valueStr != [] && valueStr != "0" && valueStr != "0" + [settings.decimalSep] {
        if valueStr[0] != '-' {
          valueStr := ['-'] + valueStr;
        } else {
          valueStr := valueStr[1..];
        }
        if resultIsDisplayed {
          resultValue := TP.Negated(resultValue);
        }
        DisplayValueText();
        resultIsDisplayed := false;
      }
    }

    /** The equal listener. */
    method OnEqualBtnClicked() returns (thrown: Option<Fault>)
      modifies this
      ensures settings == old(settings)
      ensures Outcome(EqualPressed(settings, old(Snapshot())), thrown, Snapshot())
    {
      var dismissed := DismissError();
      if dismissed {
        return None;
      }
      thrown := Calculate();
    }

    /** The clear listener. */
    method OnClearBtnClicked()
      modifies this
      ensures settings == old(settings)
      ensures Snapshot() == ClearPressed(settings, old(Snapshot()))
    {
      var dismissed := DismissError();
      if dismissed {
        return;
      }
      Reset();
      DisplayValueText();
      resultIsDisplayed := false;
    }

    /** The cancel listener: the dialog is dismissed. */
    method OnCancelBtnClicked()
      modifies this
      ensures settings == old(settings)
      ensures Snapshot() == CancelPressed(old(Snapshot()))
    {
      view := TP.Then(view, TP.Exited);
    }

    /** The OK listener. */
    method OnOkBtnClicked() returns (thrown: Option<Fault>)
      modifies this
      ensures settings == old(settings)
      ensures Outcome(OkPressed(settings, old(Snapshot())), thrown, Snapshot())
    {
      var dismissed := DismissError();
      if dismissed {
        return None;
      }
      thrown := Calculate();
      if thrown.Some? {
        return;
      }
      CheckSign();
    }

    /** After calculate: with no operation and no error, the sign check, then the result sent and the dialog dismissed. */
    method CheckSign()
      modifies this
      ensures settings == old(settings)
      ensures Snapshot() == SignChecked(settings, old(Snapshot()))
    {
      if operation != TP.OperationNone {
        return;
      }
      if error == TP.ErrorNone {
        if !settings.signCanBeChanged && resultValue.Some? {
          var sign := Signum(resultValue.value);
          if sign != 0 && sign != settings.initialSign {
            SetError(if sign == 1 then TP.ErrorWrongSignNeg else TP.ErrorWrongSignPos);
            return;
          }
        }
        view := TP.Then(view, TP.ValueSent(resultValue));
        view := TP.Then(view, TP.Exited);
      }
    }

    /** onDismiss */
    method OnDismiss()
      modifies this
      ensures settings == old(settings)
      ensures Snapshot() == Dismissed(settings, old(Snapshot()))
    {
      Reset();
    }

    /** setValue: the initial value is stored clamped to the bounds. */
    method SetValue(value: Option<Dec>)
      modifies this
      ensures settings == old(settings)
      ensures Snapshot() == old(Snapshot()).(resultValue := TokenSettings.Clamped(value, settings.maxValue))
      ensures settings.maxValue.None? || Signum(settings.maxValue.value) >= 0 ==>
        resultValue.None? || !DialogUtils.IsValueOutOfBounds(resultValue.value, settings.maxValue)
    {
      if value.Some? && (settings.maxValue.None? || Signum(settings.maxValue.value) >= 0) {
        TokenSettings.ClampedInBounds(value.value, settings.maxValue);
      }
      resultValue := TokenSettings.Clamped(value, settings.maxValue);
    }

    /** setMaxValue: the maximum is stored as a magnitude, then an initial value outside it replaced. */
    method SetMaxValue(max: Option<Dec>)
      modifies this
      ensures settings == old(settings).(maxValue := TokenSettings.NonNegative(max))
      ensures Snapshot() == old(Snapshot()).(resultValue := TokenSettings.Refitted(old(resultValue), TokenSettings.NonNegative(max)))
      ensures resultValue.None? || !DialogUtils.IsValueOutOfBounds(resultValue.value, settings.maxValue)
    {
      TokenSettings.RefittedInBounds(resultValue, max);
      settings := settings.(maxValue := TokenSettings.NonNegative(max));
      resultValue := TokenSettings.Refitted(resultValue, settings.maxValue);
    }

    /** setMaxDigits: IllegalArgumentException, changing nothing, unless both limits are valid. */
    method SetMaxDigits(intPart: int, fracPart: int) returns (thrown: Option<Fault>)
      modifies this
      ensures Snapshot() == old(Snapshot())
      ensures !TokenSettings.ValidMaxDigits(intPart, fracPart) ==>
        thrown == Some(IllegalArgument) && settings == old(settings)
      ensures TokenSettings.ValidMaxDigits(intPart, fracPart) ==>
        thrown == None && settings == old(settings).(maxIntDigits := intPart, maxFracDigits := fracPart)
    {
      if (intPart != TokenSettings.MaxDigitsUnlimited && intPart < 1)
        || (fracPart != TokenSettings.MaxDigitsUnlimited && fracPart < 0)
      {
        return Some(IllegalArgument);
      }
      settings := settings.(maxIntDigits := intPart);
      settings := settings.(maxFracDigits := fracPart);
      return None;
    }

    /** setRoundingMode: UNNECESSARY is refused, any other mode stored. */
    method SetRoundingMode(mode: RoundingMode) returns (thrown: Option<Fault>)
      modifies this
      ensures Snapshot() == old(Snapshot())
      ensures mode == Unnecessary ==> thrown == Some(IllegalArgument) && settings == old(settings)
      ensures mode != Unnecessary ==> thrown == None && settings == old(settings).(roundingMode := mode)
    {
      if mode == Unnecessary {
        return Some(IllegalArgument);
      }
      settings := settings.(roundingMode := mode);
      return None;
    }

    /** setStripTrailingZeroes */
    method SetStripTrailingZeroes(strip: bool)
      modifies this
      ensures Snapshot() == old(Snapshot())
      ensures settings == old(settings).(stripTrailingZeroes := strip)
    {
      settings := settings.(stripTrailingZeroes := strip);
    }

    /**
     * setSignCanBeChanged: the flag is stored first; a locked sign must then be -1 or 1 and
     * is recorded, while a free sign leaves the recorded one as it was.
     */
    method SetSignCanBeChanged(canBeChanged: bool, sign: int) returns (thrown: Option<Fault>)
      modifies this
      ensures Snapshot() == old(Snapshot())
      ensures canBeChanged ==> thrown == None && settings == old(settings).(signCanBeChanged := true)
      ensures !canBeChanged && sign != -1 && sign != 1 ==>
        thrown == Some(IllegalArgument) && settings == old(settings).(signCanBeChanged := false)
      ensures !canBeChanged && (sign == -1 || sign == 1) ==>
        thrown == None && settings == old(settings).(signCanBeChanged := false, initialSign := sign)
    {
      settings := settings.(signCanBeChanged := canBeChanged);
      if !settings.signCanBeChanged {
        if sign != -1 && sign != 1 {
          return Some(IllegalArgument);
        }
        settings := settings.(initialSign := sign);
      }
      return None;
    }

    /** setFormatSymbols: equal separators are refused unless the decimal one is the default. */
    method SetFormatSymbols(decimal: char, group: char) returns (thrown: Option<Fault>)
      modifies this
      ensures Snapshot() == old(Snapshot())
      ensures !TokenSettings.ValidFormatSymbols(decimal, group) ==>
        thrown == Some(IllegalArgument) && settings == old(settings)
      ensures TokenSettings.ValidFormatSymbols(decimal, group) ==>
        thrown == None && settings == old(settings).(decimalSep := decimal, groupSep := group)
    {
      if decimal != TokenSettings.FormatCharDefault && decimal == group {
        return Some(IllegalArgument);
      }
      settings := settings.(decimalSep := decimal);
      settings := settings.(groupSep := group);
      return None;
    }

    /** setClearDisplayOnOperation */
    method SetClearDisplayOnOperation(clear: bool)
      modifies this
      ensures Snapshot() == old(Snapshot())
      ensures settings == old(settings).(clearOnOperation := clear)
    {
      settings := settings.(clearOnOperation := clear);
    }

    /** setShowZeroWhenNoValue */
    method SetShowZeroWhenNoValue(show: bool)
      modifies this
      ensures Snapshot() == old(Snapshot())
      ensures settings == old(settings).(showZeroWhenNoValue := show)
    {
      settings := settings.(showZeroWhenNoValue := show);
    }

    /** setGroupSize: a negative size is refused; 0 turns grouping off. */
    method SetGroupSize(size: int) returns (thrown: Option<Fault>)
      modifies this
      ensures Snapshot() == old(Snapshot())
      ensures size < 0 ==> thrown == Some(IllegalArgument) && settings == old(settings)
      ensures size >= 0 ==> thrown == None && settings == old(settings).(groupSize := size)
    {
      if size < 0 {
        return Some(IllegalArgument);
      }
      settings := settings.(groupSize := size);
      return None;
    }
  }
}

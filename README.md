# calcdialoglib in Dafny

A model of the calculator engine behind calcdialoglib's dialogs. The engine exists in three generations, and the model keeps all three:

- **the `library` dialog** (`com.nmaltais.calcdialog.CalcDialog`), the oldest. The dialog holds the display token itself: a `StringBuilder` with the typed number. Its listeners edit the token, and its private helpers compute with `BigDecimal`. Module `TokenDialog`.
- **the `calcdialog` presenter** (`com.nmaltais.calcdialog.CalcPresenter`). It has the same token engine moved into a presenter, plus an answer value and a separate `CalcSettings` object. Modules `TokenPresenter` and `TokenSettings`.
- **the `lib` presenter** (`com.maltaisn.calcdialog.CalcPresenter`), the newest. It holds the value being typed as a decimal plus a scale, and it builds a written-out `Expression`. The expression is evaluated left to right or with products first. Modules `LibPresenter`, `LibSettings` and `CalcExpression`.

Shared pieces:

- `Decimal` models the `java.math.BigDecimal` values and operations the code relies on:
  - a decimal is `Dec(unscaled, scale)`;
  - `equals` is structural, while `compareTo` is `Cmp`;
  - division rounds to a scale in the given `RoundingMode`;
  - `setScale`, `stripTrailingZeros`, `toPlainString` and `new BigDecimal(String)` are included.
- `DialogUtils` holds the out-of-bounds test and the zero-safe trailing-zero strip of `CalcDialogUtils`. The library dialog has copies of both.
- `Token` holds the string edits the two token generations share: grouping separators, the decimal separator, erase and sign.
- `ValueText` holds the typing arithmetic of the lib presenter. There a digit, a point or an erase works on the text of `currentValue` at `currentValueScale`.
- `Text` holds the character helpers, and `Wrappers` holds `Option` for Java's null and `Result`/`Fault` for a call that may throw.

Each presenter or dialog is modelled twice:

- **A value model.** A datatype holds every field the Java object changes. A pure function per handler says what the handler leaves behind. The events the view receives are kept as a list (`display`, `error`, `send`, `exit`, the button visibilities). The lemmas are proved about these functions: round trips, bounds, idempotence and the error cases.
- **An imperative model.** A class has the Java fields, and its methods follow the Java methods one by one. Each method promises that its new `Snapshot()` is the value model's function of the old one, or, where the Java code can throw, states the outcome. The settings of the library dialog, thirteen Java fields that only the setters and `onCreate` change, are held together in one field `settings` of type `Options`.

`NumberFormat` rendering, the locale's separators and the Android view are parameters or recorded events.

## Model

| member | source | states |
|---|---|---|
| Text.IndexOf | calcdialog/src/main/java/com/nmaltais/calcdialog/CalcPresenter.java:187 | `indexOf`: the first index holding the character, with none before it, or -1 exactly when the character is absent |
| Text.DigitChar | calcdialog/src/main/java/com/nmaltais/calcdialog/CalcPresenter.java:203 | `append(digit)` writes the one digit character whose value is the digit |
| Decimal.Cmp | calcdialog/src/main/java/com/nmaltais/calcdialog/CalcDialogUtils.java:20-21 | `compareTo` is -1, 0 or 1 as the first value is below, equal to or above the second, at every scale both can be written at |
| Decimal.Signum | calcdialog/src/main/java/com/nmaltais/calcdialog/CalcPresenter.java:324 | `signum` is the comparison with zero |
| Decimal.NegateReverses | calcdialog/src/main/java/com/nmaltais/calcdialog/CalcPresenter.java:278 | `negate` keeps the scale and reverses the comparison with zero |
| Decimal.NegateCancels | calcdialog/src/main/java/com/nmaltais/calcdialog/CalcPresenter.java:278 | `negate` is the additive inverse at the same scale: adding it to the value gives zero |
| Decimal.Add | lib/src/main/java/com/maltaisn/calcdialog/Expression.java:91-92 | `add` has the larger of the two scales |
| Decimal.AddExact | lib/src/main/java/com/maltaisn/calcdialog/Expression.java:91-92 | the sum is exact: at every common scale the values add |
| Decimal.Sub | lib/src/main/java/com/maltaisn/calcdialog/Expression.java:93-94 | `subtract` has the larger of the two scales |
| Decimal.SubExact | lib/src/main/java/com/maltaisn/calcdialog/Expression.java:93-94 | the difference is exact |
| Decimal.Mul | lib/src/main/java/com/maltaisn/calcdialog/Expression.java:95-96 | `multiply` has the sum of the scales |
| Decimal.MulExact | lib/src/main/java/com/maltaisn/calcdialog/Expression.java:95-96 | the product is exact: the operands' values multiply to the product's value |
| Decimal.RoundDiv | lib/src/main/java/com/maltaisn/calcdialog/Expression.java:79 | the quotient is rounded as the mode rounds a discarded fraction: DOWN/FLOOR/CEILING/UP by direction, the HALF modes by distance with their tie rule; UNNECESSARY faults exactly when the division is inexact |
| Decimal.SetScale | calcdialog/src/main/java/com/nmaltais/calcdialog/CalcPresenter.java:397 | `setScale` gives the requested scale; widening keeps the value; narrowing rounds the discarded digits in the mode, and faults only under UNNECESSARY |
| Decimal.Divide | lib/src/main/java/com/maltaisn/calcdialog/Expression.java:98 | `divide(b, scale, mode)` faults with ArithmeticException exactly when the divisor is zero (or the mode is UNNECESSARY and the quotient inexact); otherwise it has the given scale and is the exact quotient rounded in the mode |
| Decimal.StripTrailingZeros | lib/src/main/java/com/maltaisn/calcdialog/Expression.java:102 | `stripTrailingZeros` keeps the value, never raises the scale, leaves a zero as it is (the behaviour before the JDK 8 fix) and otherwise leaves no trailing zero digit |
| Decimal.Parse | calcdialog/src/main/java/com/nmaltais/calcdialog/CalcPresenter.java:465 | `new BigDecimal(String)` never gives a negative scale, and refuses "", "-" and "." |
| Decimal.ParseSigned | calcdialog/src/main/java/com/nmaltais/calcdialog/CalcPresenter.java:465 | a leading '-' negates the value of what follows and keeps its scale |
| Decimal.ParseWithPoint | calcdialog/src/main/java/com/nmaltais/calcdialog/CalcPresenter.java:465 | digits, '.', digits parse to the digits' value, with the fraction's length as the scale |
| Decimal.PlainStringRoundTrip | lib/src/main/java/com/maltaisn/calcdialog/CalcPresenter.java:522-531 | `toPlainString` of a decimal of non-negative scale parses back to the same decimal, scale included |
| Decimal.PlainStringShape | calcdialog/src/main/java/com/nmaltais/calcdialog/CalcPresenter.java:79 | `toPlainString` is never empty, starts with '-' exactly for a negative value, and at a positive scale has the '.' before exactly `scale` digits |
| DialogUtils.IsValueOutOfBounds | calcdialog/src/main/java/com/nmaltais/calcdialog/CalcDialogUtils.java:19-22 | never out of bounds without a maximum; otherwise out exactly when above the maximum or below its negation |
| DialogUtils.OutOfBoundsSymmetric | calcdialog/src/main/java/com/nmaltais/calcdialog/CalcDialogUtils.java:19-22 | a value and its negation are out of bounds together |
| DialogUtils.OutOfBoundsIsMagnitudeAbove | calcdialog/src/main/java/com/nmaltais/calcdialog/CalcDialogUtils.java:19-22 | with a maximum that is not negative, out of bounds exactly when the magnitude exceeds it |
| DialogUtils.ZeroInBounds | calcdialog/src/main/java/com/nmaltais/calcdialog/CalcDialogUtils.java:19-22 | zero, at any scale, is never out of bounds of a maximum that is not negative |
| DialogUtils.StripTrailingZeroes | calcdialog/src/main/java/com/nmaltais/calcdialog/CalcDialogUtils.java:45-51 | a zero-valued input (0.000 too) becomes the unscaled ZERO; any other keeps its value and ends on a nonzero digit |
| DialogUtils.StrippedUnique | calcdialog/src/main/java/com/nmaltais/calcdialog/CalcDialogUtils.java:38-50 | two stripped forms of the same nonzero value are equal, scale included |
| DialogUtils.StripCanonical | calcdialog/src/main/java/com/nmaltais/calcdialog/CalcDialogUtils.java:38-50 | the result depends only on the value: compareTo-equal inputs strip to equal decimals |
| DialogUtils.StripIdempotent | calcdialog/src/main/java/com/nmaltais/calcdialog/CalcDialogUtils.java:45-51 | stripping twice is stripping once |
| CalcExpression.Symbol | lib/src/main/java/com/maltaisn/calcdialog/Expression.java:161-169 | each operator's symbol is one of + − × ÷ |
| CalcExpression.SymbolsDistinct | lib/src/main/java/com/maltaisn/calcdialog/Expression.java:161-169 | two operators have the same symbol exactly when they are the same operator |
| CalcExpression.Apply | lib/src/main/java/com/maltaisn/calcdialog/Expression.java:91-98 | addition, subtraction and multiplication never fail; a failure is an ArithmeticException |
| CalcExpression.LeftToRight | lib/src/main/java/com/maltaisn/calcdialog/Expression.java:86-100 | the left-to-right reading fails only with an ArithmeticException |
| CalcExpression.Collapse | lib/src/main/java/com/maltaisn/calcdialog/Expression.java:65-84 | the priority pass leaves a balanced list with no more operators than before, or fails with an ArithmeticException |
| CalcExpression.Evaluation | lib/src/main/java/com/maltaisn/calcdialog/Expression.java:55-103 | IllegalStateException exactly when the lists are unbalanced; any other failure is an ArithmeticException |
| CalcExpression.Expression.constructor | lib/src/main/java/com/maltaisn/calcdialog/Expression.java:32-35 | a new expression has no numbers and no operators |
| CalcExpression.Expression.Clear | lib/src/main/java/com/maltaisn/calcdialog/Expression.java:37-40 | `clear` empties both lists |
| CalcExpression.Expression.IsEmpty | lib/src/main/java/com/maltaisn/calcdialog/Expression.java:42-44 | empty exactly when there are no numbers |
| CalcExpression.Expression.Evaluate | lib/src/main/java/com/maltaisn/calcdialog/Expression.java:55-103 | `evaluate` returns or throws what Evaluation says and changes nothing (it works on copies); unbalanced lists give IllegalStateException in both directions; one number is returned as it is, not stripped |
| CalcExpression.Expression.Format | lib/src/main/java/com/maltaisn/calcdialog/Expression.java:110-124 | `format` writes each number's text, a space, its operator's symbol if it has one, and a space, then drops the last character |
| CalcExpression.ReduceProducts | lib/src/main/java/com/maltaisn/calcdialog/Expression.java:65-84 | the first loop, which removes and sets list elements in place without advancing past a product, computes Collapse |
| CalcExpression.ReduceLeftToRight | lib/src/main/java/com/maltaisn/calcdialog/Expression.java:86-100 | the second loop computes the left-to-right reading |
| CalcExpression.CollapseLeavesSums | lib/src/main/java/com/maltaisn/calcdialog/Expression.java:65-84 | after the priority pass only ADD and SUBTRACT remain |
| CalcExpression.CollapseWithoutProducts | lib/src/main/java/com/maltaisn/calcdialog/Expression.java:65-84 | without × or ÷ the priority pass changes nothing |
| CalcExpression.PriorityIrrelevantWithoutProducts | lib/src/main/java/com/maltaisn/calcdialog/Expression.java:55-103 | with only + and − both evaluation orders give the same result |
| CalcExpression.PiecesJoined | lib/src/main/java/com/maltaisn/calcdialog/Expression.java:111-119 | the format loop builds the tokens joined by single spaces, followed by one or two spaces |
| CalcExpression.FormatSpacing | lib/src/main/java/com/maltaisn/calcdialog/Expression.java:110-124 | the formatted text is the tokens joined by single spaces; a balanced expression keeps one trailing space, one that ends on an operator none |
| CalcExpression.TwoSum | lib/src/test/java/com/maltaisn/calcdialog/ExpressionTest.java:27-37 | 12.1 + -24.8 evaluates to exactly -12.7 |
| CalcExpression.SumAndMultiply | lib/src/test/java/com/maltaisn/calcdialog/ExpressionTest.java:39-53 | 3 + 4 × 5 is 35 left to right |
| CalcExpression.SumThenMultiplied | lib/src/main/java/com/maltaisn/calcdialog/Expression.java:86-102 | without priority, x + y × z evaluates to (x + y) × z with its trailing zeros stripped, at any scale and rounding mode |
| CalcExpression.SumAndMultiplyWithPriority | lib/src/test/java/com/maltaisn/calcdialog/ExpressionTest.java:39-53 | 3 + 4 × 5 is 23 with priority |
| CalcExpression.PrioritySumProduct | lib/src/main/java/com/maltaisn/calcdialog/Expression.java:55-103 | with priority, x + y × z evaluates to the stripped sum of x and the product |
| CalcExpression.CollapseSumProduct | lib/src/main/java/com/maltaisn/calcdialog/Expression.java:65-84 | the priority pass turns x + y × z into the sum of x and the product |
| CalcExpression.StripTrailingZeroesOfQuotient | lib/src/test/java/com/maltaisn/calcdialog/ExpressionTest.java:79-88 | 1 ÷ 8 at scale 8 is exactly 0.125, stripped |
| CalcExpression.LongExpression | lib/src/test/java/com/maltaisn/calcdialog/ExpressionTest.java:55-77 | -1 ÷ 6 + 5 × 12 ÷ 3 ÷ 8 − (−10) is 12.41666667 left to right at scale 8, HALF_UP |
| CalcExpression.LongExpressionWithPriority | lib/src/test/java/com/maltaisn/calcdialog/ExpressionTest.java:55-77 | the same expression is 12.33333333 with priority |
| CalcExpression.LeftToRightSix | lib/src/main/java/com/maltaisn/calcdialog/Expression.java:86-100 | six left-to-right steps of known outcome give the last one |
| CalcExpression.PriorityLong | lib/src/main/java/com/maltaisn/calcdialog/Expression.java:55-103 | with priority an expression shaped like the long one reduces its products first, then applies + and − in order |
| Token.Ungrouped | calcdialog/src/main/java/com/nmaltais/calcdialog/CalcPresenter.java:506-514 | the token without its group separators holds none and is no longer |
| Token.UngroupedAppend | calcdialog/src/main/java/com/nmaltais/calcdialog/CalcPresenter.java:506-514 | removing separators works piece by piece over a concatenation |
| Token.UngroupedWithout | calcdialog/src/main/java/com/nmaltais/calcdialog/CalcPresenter.java:506-514 | a token without separators is left as it is |
| Token.UngroupedKeeps | calcdialog/src/main/java/com/nmaltais/calcdialog/CalcPresenter.java:506-514 | every other character is kept: it occurs afterwards exactly when it occurred before |
| Token.DeleteGroupSeparators | calcdialog/src/main/java/com/nmaltais/calcdialog/CalcPresenter.java:508-512 | the deleting loop, from the last index down, leaves exactly the token without separators |
| Token.InsertGroupSeparators | calcdialog/src/main/java/com/nmaltais/calcdialog/CalcPresenter.java:491-497 | the inserting loop, from `start` down to 1, computes the insertion function |
| Token.FormatText | calcdialog/src/main/java/com/nmaltais/calcdialog/CalcPresenter.java:481-498 | the text work of formatValue computes the formatted token: the '.' localised and the group separators inserted before the point |
| Token.InsertGroupsUngrouped | calcdialog/src/main/java/com/nmaltais/calcdialog/CalcPresenter.java:489-514 | removing separators after the loop has inserted them gives back the token without separators |
| Token.GroupingUngrouped | calcdialog/src/main/java/com/nmaltais/calcdialog/CalcPresenter.java:489-498 | grouping the digits inserts only separators |
| Token.InsertGroupsIsGrouping | calcdialog/src/main/java/com/nmaltais/calcdialog/CalcPresenter.java:491-497 | the loop started at length − size puts a separator before each group of `groupSize` digits counted from the right, never at index 0 and never between a leading '-' and the first digit |
| Token.GroupsBeforePoint | calcdialog/src/main/java/com/nmaltais/calcdialog/CalcPresenter.java:489-498 | with a positive group size the integer part before the separator (or the whole token) is grouped and the rest is kept as it was |
| Token.PointLocalised | calcdialog/src/main/java/com/nmaltais/calcdialog/CalcPresenter.java:481-487 | replacing '.' by the decimal separator keeps the length |
| Token.PointIndex | calcdialog/src/main/java/com/nmaltais/calcdialog/CalcPresenter.java:481-487 | the index grouped against is -1 or an index of the token |
| Token.FormattedThenUngrouped | calcdialog/src/main/java/com/nmaltais/calcdialog/CalcPresenter.java:474-514 | removing group separators undoes formatValue: the localised token comes back |
| Token.PointRestored | calcdialog/src/main/java/com/nmaltais/calcdialog/CalcPresenter.java:463-464 | restoring '.' keeps the length |
| Token.PointRoundTrip | calcdialog/src/main/java/com/nmaltais/calcdialog/CalcPresenter.java:463-464 | restoring the point undoes its localisation when the separator is '.' or new to the token |
| Token.ErasedTailClean | calcdialog/src/main/java/com/nmaltais/calcdialog/CalcPresenter.java:147-159 | after an erase a typed number neither ends on a separator or '-' nor has two such marks side by side, and it is a proper prefix of what it was |
| Token.SignToggledTwice | calcdialog/src/main/java/com/nmaltais/calcdialog/CalcPresenter.java:270-274 | the sign edit applied twice gives the token back |
| Token.PointAppendedOnce | library/src/main/java/com/nmaltais/calcdialog/CalcDialog.java:323-338 | after the decimal key the token holds one separator at its end, after what was typed (or "0"); a token that had one is unchanged, so pressing twice is pressing once |
| ValueText.TypedDigit | lib/src/main/java/com/maltaisn/calcdialog/CalcPresenter.java:212-216 | appending digit d to the current value's text reads back ten times the magnitude plus d, sign kept, with the scale one higher after a point and 0 without one |
| ValueText.FirstDigit | lib/src/main/java/com/maltaisn/calcdialog/CalcPresenter.java:216 | a digit typed with no value reads back as that digit |
| ValueText.TypedErase | lib/src/main/java/com/maltaisn/calcdialog/CalcPresenter.java:164-175 | dropping the last character of the text reads back, per case: nothing (NumberFormatException) for a lone digit, the integer for a bare point, otherwise the value without its last digit at one scale lower |
| ValueText.TypedPoint | lib/src/main/java/com/maltaisn/calcdialog/CalcPresenter.java:203-206 | the text has a '.' exactly when a point was typed, and then the fraction digits it counts are the typed scale |
| ValueText.PushedThenErased | lib/src/main/java/com/maltaisn/calcdialog/CalcPresenter.java:164-216 | erasing the digit just typed gives back the value and the typed scale, except for a lone 0 that the digit replaced |
| LibSettings.NumberFormat.constructor | lib/src/main/java/com/maltaisn/calcdialog/CalcSettings.java:45 | a format holds exactly the integer and fraction digit limits and the rounding mode it is given |
| LibSettings.CalcSettings.constructor | lib/src/main/java/com/maltaisn/calcdialog/CalcSettings.java:42-65 | the defaults: request code 0, 10 integer digits typed, the calculator layout, no expression, a zero shown, the sign button but no answer button, bounds -1E10 and 1E10, priority applied, and a fresh format that rounds HALF_EVEN with any number of integer digits and at most 8 fraction digits |
| LibSettings.CalcSettings.Validate | lib/src/main/java/com/maltaisn/calcdialog/CalcSettings.java:67-71 | the only fault is IllegalArgumentException, and when validation passes no value is at once above the maximum and below the minimum |
| LibSettings.CalcSettings.NoValueOutsideBoth | lib/src/main/java/com/maltaisn/calcdialog/CalcSettings.java:67-71 | when the minimum is below the maximum, or a bound is missing, every value above the maximum is at least the minimum |
| LibSettings.CalcSettings.DefaultsValid | lib/src/main/java/com/maltaisn/calcdialog/CalcSettings.java:58-59 | the default bounds pass validation |
| LibSettings.CalcSettings.SetNumberFormat | lib/src/main/java/com/maltaisn/calcdialog/CalcSettings.java:97-111 | a format rounding UNNECESSARY is refused with IllegalArgumentException and nothing changes; any other is kept, its integer-digit limit moves into the settings and the format then shows any number of integer digits, its other fields untouched |
| LibSettings.CalcSettings.SetRequestCode | lib/src/main/java/com/maltaisn/calcdialog/CalcSettings.java:78-81 | only the request code changes, and the same settings object is returned for chaining |
| LibSettings.CalcSettings.SetNumpadLayout | lib/src/main/java/com/maltaisn/calcdialog/CalcSettings.java:125-128 | only the numpad layout changes; the same object is returned |
| LibSettings.CalcSettings.SetExpressionShown | lib/src/main/java/com/maltaisn/calcdialog/CalcSettings.java:141-144 | only the expression-shown flag changes; the same object is returned |
| LibSettings.CalcSettings.SetExpressionEditable | lib/src/main/java/com/maltaisn/calcdialog/CalcSettings.java:156-159 | only the expression-editable flag changes; the same object is returned |
| LibSettings.CalcSettings.SetZeroShownWhenNoValue | lib/src/main/java/com/maltaisn/calcdialog/CalcSettings.java:172-175 | only the zero-shown flag changes; the same object is returned |
| LibSettings.CalcSettings.SetAnswerBtnShown | lib/src/main/java/com/maltaisn/calcdialog/CalcSettings.java:188-191 | only the answer-button flag changes; the same object is returned |
| LibSettings.CalcSettings.SetSignBtnShown | lib/src/main/java/com/maltaisn/calcdialog/CalcSettings.java:202-205 | only the sign-button flag changes; the same object is returned |
| LibSettings.CalcSettings.SetShouldEvaluateOnOperation | lib/src/main/java/com/maltaisn/calcdialog/CalcSettings.java:218-221 | only the evaluate-on-operation flag changes; the same object is returned |
| LibSettings.CalcSettings.SetInitialValue | lib/src/main/java/com/maltaisn/calcdialog/CalcSettings.java:234-237 | only the initial value changes, with no bound check; the same object is returned |
| LibSettings.CalcSettings.SetMinValue | lib/src/main/java/com/maltaisn/calcdialog/CalcSettings.java:251-254 | only the minimum changes, checked later by validation; the same object is returned |
| LibSettings.CalcSettings.SetMaxValue | lib/src/main/java/com/maltaisn/calcdialog/CalcSettings.java:268-271 | only the maximum changes, checked later by validation; the same object is returned |
| LibSettings.CalcSettings.SetOrderOfOperationsApplied | lib/src/main/java/com/maltaisn/calcdialog/CalcSettings.java:285-288 | only the priority flag changes; the same object is returned |
| TokenSettings.Clamped | calcdialog/src/main/java/com/nmaltais/calcdialog/CalcSettings.java:92-97 | null stays null; a value within the bounds is kept; one outside becomes the maximum when positive and the negated maximum otherwise |
| TokenSettings.ClampedInBounds | calcdialog/src/main/java/com/nmaltais/calcdialog/CalcSettings.java:92-97 | with no maximum or one that is not negative, the stored initial value always lies within the bounds |
| TokenSettings.NonNegative | calcdialog/src/main/java/com/nmaltais/calcdialog/CalcSettings.java:99-104 | the stored maximum is null exactly when given null, never negative, and of the same magnitude as the one given |
| TokenSettings.RefittedInBounds | calcdialog/src/main/java/com/nmaltais/calcdialog/CalcSettings.java:99-110 | after a new maximum the initial value lies within the bounds: one outside is replaced by the maximum, one inside is kept |
| TokenSettings.CalcSettings.constructor | calcdialog/src/main/java/com/nmaltais/calcdialog/CalcSettings.java:35-52 | the defaults: at most 1E10, 10 integer and 8 fraction digits, HALF_UP, the locale's separators in groups of 3, the sign free to change, a zero shown, the sign button but no answer button, and Java's zero defaults elsewhere |
| TokenSettings.CalcSettings.SetValue | calcdialog/src/main/java/com/nmaltais/calcdialog/CalcSettings.java:92-97 | only the initial value changes, to the clamped value, and it then lies within the bounds whenever the maximum is not negative |
| TokenSettings.CalcSettings.SetMaxValue | calcdialog/src/main/java/com/nmaltais/calcdialog/CalcSettings.java:99-110 | the maximum becomes the magnitude given and the initial value is refitted to it; afterwards the initial value always lies within the bounds |
| TokenSettings.CalcSettings.SetMaxDigits | calcdialog/src/main/java/com/nmaltais/calcdialog/CalcSettings.java:112-120 | IllegalArgumentException with nothing changed unless each limit is UNLIMITED or at least 1 (integer part) and 0 (fraction); otherwise exactly the two limits change |
| TokenSettings.CalcSettings.SetRoundingMode | calcdialog/src/main/java/com/nmaltais/calcdialog/CalcSettings.java:122-128 | UNNECESSARY is refused with nothing changed; any other mode is stored and nothing else changes |
| TokenSettings.CalcSettings.SetSignCanBeChanged | calcdialog/src/main/java/com/nmaltais/calcdialog/CalcSettings.java:130-138 | the flag is stored before the check, so a locked sign other than -1 or 1 throws with the flag already false; a valid locked sign is recorded; a free sign keeps the old one |
| TokenSettings.CalcSettings.SetFormatSymbols | calcdialog/src/main/java/com/nmaltais/calcdialog/CalcSettings.java:140-147 | equal separators are refused, with nothing changed, unless the decimal one is the locale default; otherwise exactly the two separators change |
| TokenSettings.CalcSettings.SetGroupSize | calcdialog/src/main/java/com/nmaltais/calcdialog/CalcSettings.java:149-154 | a negative size is refused with nothing changed; otherwise only the group size changes |
| LibPresenter.ValueString | lib/src/main/java/com/maltaisn/calcdialog/CalcPresenter.java:522-531 | the typed text is empty exactly when there is no value |
| LibPresenter.ValueStringIsPlainText | lib/src/main/java/com/maltaisn/calcdialog/CalcPresenter.java:522-531 | for a value with no more fraction digits than the typed scale shows, setScale(max(0, scale), UNNECESSARY) cannot throw, and the typed text is its plain string with a '.' added exactly for a scale of 0 |
| LibPresenter.CurrentValueUpdated | lib/src/main/java/com/maltaisn/calcdialog/CalcPresenter.java:466-509 | showing the value (the answer text, the value, or zero for none when so set) changes no field of the presenter |
| LibPresenter.ExpressionUpdated | lib/src/main/java/com/maltaisn/calcdialog/CalcPresenter.java:511-520 | showing the expression changes no field of the presenter |
| LibPresenter.ShownText | lib/src/main/java/com/maltaisn/calcdialog/CalcPresenter.java:511-520 | the shown expression ends in " =" after a result, and an empty expression shows as "" or " =" |
| LibPresenter.ClearedExpression | lib/src/main/java/com/maltaisn/calcdialog/CalcPresenter.java:363-370 | an editable expression is left as it is; a calculated one is emptied, made editable and no longer marks a result; the presenter invariant holds afterwards with as many operators as numbers |
| LibPresenter.ErrorDismissed | lib/src/main/java/com/maltaisn/calcdialog/CalcPresenter.java:457-464 | with an error set only the error is cleared, without one nothing changes, and the invariant is kept |
| LibPresenter.AnswerDismissed | lib/src/main/java/com/maltaisn/calcdialog/CalcPresenter.java:375-377 | only the answer flag is dropped |
| LibPresenter.ValueDiscarded | lib/src/main/java/com/maltaisn/calcdialog/CalcPresenter.java:379-383 | a value that cannot be edited is replaced by no value, editable, with no point typed |
| LibPresenter.OldValueDismissed | lib/src/main/java/com/maltaisn/calcdialog/CalcPresenter.java:372-384 | the error and the answer flag go, a value that cannot be edited is discarded, an editable one is kept, and the invariant is kept |
| LibPresenter.ResetState | lib/src/main/java/com/maltaisn/calcdialog/CalcPresenter.java:389-402 | every field is back to its initial value: no error, no values, an empty editable expression, no point typed; the invariant holds |
| LibPresenter.WithError | lib/src/main/java/com/maltaisn/calcdialog/CalcPresenter.java:443-455 | the error is recorded, both values and the edit flags are cleared, the expression is kept, and a well-shaped expression gives a state satisfying the invariant |
| LibPresenter.Calculated | lib/src/main/java/com/maltaisn/calcdialog/CalcPresenter.java:404-417 | a value of the expression under the configured order, fraction digits and rounding becomes the current, non-editable value; an arithmetic fault sets DIV_ZERO exactly as setError does |
| LibPresenter.ValueAppended | lib/src/main/java/com/maltaisn/calcdialog/CalcPresenter.java:424-427 | the value, zero for none, becomes the current value and is appended to the expression's numbers |
| LibPresenter.Closed | lib/src/main/java/com/maltaisn/calcdialog/CalcPresenter.java:420-428 | after a computed value the dangling operator is dropped, otherwise the value (zero for none) is appended, and either way the expression has one more number than operators |
| LibPresenter.ResultStored | lib/src/main/java/com/maltaisn/calcdialog/CalcPresenter.java:432-439 | without an error the current value becomes the result and is marked as one; with or without, the expression can no longer be edited |
| LibPresenter.Equaled | lib/src/main/java/com/maltaisn/calcdialog/CalcPresenter.java:419-441 | the closed expression is evaluated; on success the current value and the result are both its value and the value is not editable, on a fault DIV_ZERO is set and both values cleared; the expression is never editable after, and the invariant holds |
| LibPresenter.PoppedScale | lib/src/main/java/com/maltaisn/calcdialog/CalcPresenter.java:183-184 | the corrected typed scale of a popped number: -1 exactly for a scale of 0 or less, and otherwise the number's scale, so the number fits the typed scale |
| LibPresenter.PoppedHundredAsWritten | lib/src/main/java/com/maltaisn/calcdialog/CalcPresenter.java:179-184 | as written, popping a calculated 1E+2 leaves a typed scale of -2: the invariant fails, the typed text "100" has no point, and the point key still does nothing |
| LibPresenter.PoppedPointKey | lib/src/main/java/com/maltaisn/calcdialog/CalcPresenter.java:183-184 | with the corrected scale, the popped number's text lacks a point exactly when the point key will insert one |
| LibPresenter.ValueErased | lib/src/main/java/com/maltaisn/calcdialog/CalcPresenter.java:163-175 | the erased value is the typed text without its last character read back: a digit goes with one scale less, a bare point goes back to no point, and a text left as "" or "-" gives no value |
| LibPresenter.ValueStringErased | lib/src/main/java/com/maltaisn/calcdialog/CalcPresenter.java:164-167 | the value's typed text is never empty, and without its last character it reads back as the erased value |
| LibPresenter.ValueErasedKeepsInv | lib/src/main/java/com/maltaisn/calcdialog/CalcPresenter.java:163-175 | erasing a character of an editable value keeps the invariant |
| LibPresenter.NumberPopped | lib/src/main/java/com/maltaisn/calcdialog/CalcPresenter.java:177-187 | the expression loses its last number and operator and that number becomes the value with the corrected typed scale; the invariant is kept |
| LibPresenter.EraseBegun | lib/src/main/java/com/maltaisn/calcdialog/CalcPresenter.java:155-157 | only the answer and result flags are dropped |
| LibPresenter.EraseApplied | lib/src/main/java/com/maltaisn/calcdialog/CalcPresenter.java:155-189 | the value always ends editable with no answer or result flag; a value that cannot be edited is cleared, an editable value loses its last typed character, and with no value the expression's last number is popped when the expression is editable and not empty, with the corrected typed scale of PoppedScale (see Findings); the invariant is kept |
| LibPresenter.ErasePressed | lib/src/main/java/com/maltaisn/calcdialog/CalcPresenter.java:151-190 | with an error set the key only clears the (calculated) expression and dismisses the error; the invariant is kept; a popped number gets the corrected typed scale (see Findings) |
| LibPresenter.ValueTyped | lib/src/main/java/com/maltaisn/calcdialog/CalcPresenter.java:200-217 | at a digit limit nothing changes; otherwise the value becomes the digits typed so far followed by the digit, with one more fraction digit exactly when a point was typed |
| LibPresenter.ValueTypedKeepsInv | lib/src/main/java/com/maltaisn/calcdialog/CalcPresenter.java:200-217 | typing a digit into an editable value keeps the invariant |
| LibPresenter.TypedDigitText | lib/src/main/java/com/maltaisn/calcdialog/CalcPresenter.java:212-216 | the typed text with the digit appended reads back as that value, and it contains a point exactly when the typed scale is not -1 |
| LibPresenter.DigitPressed | lib/src/main/java/com/maltaisn/calcdialog/CalcPresenter.java:196-218 | after the digit key the value is editable, no error is set and no answer is shown, and the invariant is kept |
| LibPresenter.OperatorAppended | lib/src/main/java/com/maltaisn/calcdialog/CalcPresenter.java:238-242 | the operator is appended, and the value is kept only when evaluation on operation is set |
| LibPresenter.OperandPushed | lib/src/main/java/com/maltaisn/calcdialog/CalcPresenter.java:233-242 | the value (zero for none) and then the operator are appended to the expression; on success the current value is the expression's value when evaluation on operation is set and none otherwise; on a fault DIV_ZERO is set and both values cleared |
| LibPresenter.OperatorShown | lib/src/main/java/com/maltaisn/calcdialog/CalcPresenter.java:245-247 | showing the answer button, the value and the expression changes no field |
| LibPresenter.OperatorApplied | lib/src/main/java/com/maltaisn/calcdialog/CalcPresenter.java:224-247 | the expression always ends with the operator and as many numbers as operators: after a computed value the last operator is replaced, otherwise the value (zero for none) and the operator are appended; the invariant holds |
| LibPresenter.OperatorPressed | lib/src/main/java/com/maltaisn/calcdialog/CalcPresenter.java:220-248 | with an error set the key only clears the expression and dismisses the error; the invariant is kept |
| LibPresenter.PointInserted | lib/src/main/java/com/maltaisn/calcdialog/CalcPresenter.java:254-259 | the typed scale becomes 0 and no value becomes zero |
| LibPresenter.DecimalSepPressed | lib/src/main/java/com/maltaisn/calcdialog/CalcPresenter.java:250-262 | afterwards the value is editable, is some value and has a point typed; a point is added (to zero for no value) only when none was typed, otherwise the value and scale stay |
| LibPresenter.Toggled | lib/src/main/java/com/maltaisn/calcdialog/CalcPresenter.java:280-283 | a nonzero value is negated, keeping its scale; no value and zero are left alone |
| LibPresenter.ToggledTwice | lib/src/main/java/com/maltaisn/calcdialog/CalcPresenter.java:280-283 | a second negation by the sign key gives the value back |
| LibPresenter.SignPressed | lib/src/main/java/com/maltaisn/calcdialog/CalcPresenter.java:264-286 | no error and no answer afterwards and the expression is untouched; a computed value with an expression is discarded, otherwise the only other change is the negated value; the invariant is kept |
| LibPresenter.EqualPressed | lib/src/main/java/com/maltaisn/calcdialog/CalcPresenter.java:288-292 | with an error set the key only clears the expression and dismisses the error; otherwise it is equal on the cleared expression; the invariant is kept |
| LibPresenter.AnswerPressed | lib/src/main/java/com/maltaisn/calcdialog/CalcPresenter.java:294-304 | the last result becomes the current value, shown as the answer and not editable, with no point typed |
| LibPresenter.ClearPressed | lib/src/main/java/com/maltaisn/calcdialog/CalcPresenter.java:306-315 | with an error set the key only clears the expression and dismisses the error, otherwise every field is reset; the invariant is kept |
| LibPresenter.CancelPressed | lib/src/main/java/com/maltaisn/calcdialog/CalcPresenter.java:317-319 | no field changes and the view is told to exit |
| LibPresenter.Dismissed | lib/src/main/java/com/maltaisn/calcdialog/CalcPresenter.java:359-361 | every field is reset |
| LibPresenter.BoundsChecked | lib/src/main/java/com/maltaisn/calcdialog/CalcPresenter.java:333-356 | a result above the maximum sets WRONG_SIGN_NEG for a zero maximum and OUT_OF_BOUNDS otherwise, one below the minimum WRONG_SIGN_POS or OUT_OF_BOUNDS; the value is sent and the view exits exactly when the result is within both bounds and no error is set; the expression is untouched |
| LibPresenter.OkPressed | lib/src/main/java/com/maltaisn/calcdialog/CalcPresenter.java:321-357 | with an error set the key only clears the expression and dismisses the error; otherwise equal runs, and the bounds are checked only when at most one number is left; the invariant is kept |
| LibPresenter.ViewSetUp | lib/src/main/java/com/maltaisn/calcdialog/CalcPresenter.java:102-105 | setting up the expression, point, answer and sign buttons changes no field |
| LibPresenter.Attached | lib/src/main/java/com/maltaisn/calcdialog/CalcPresenter.java:94-108 | attach without saved state gives the reset state holding the initial value, which satisfies the invariant |
| LibPresenter.DigitLimitByScale | lib/src/main/java/com/maltaisn/calcdialog/CalcPresenter.java:203-207 | the digit key's fraction limit, measured on the text, is reached exactly when a point was typed and the typed scale reaches the format's fraction-digit limit |
| LibPresenter.DigitThenErase | lib/src/main/java/com/maltaisn/calcdialog/CalcPresenter.java:164-216 | a digit typed and then erased gives back the value at its typed scale, and that scale, unless the digit replaced a lone 0 |
| LibPresenter.DecimalSepTwice | lib/src/main/java/com/maltaisn/calcdialog/CalcPresenter.java:250-262 | pressing the point key twice leaves the same fields as pressing it once |
| LibPresenter.SignTwice | lib/src/main/java/com/maltaisn/calcdialog/CalcPresenter.java:264-286 | pressing the sign key twice gives back the value, unless the first press discarded it |
| LibPresenter.CalcPresenter.constructor | lib/src/main/java/com/maltaisn/calcdialog/CalcPresenter.java:31-83 | a new presenter is detached with an empty expression and Java's default fields |
| LibPresenter.CalcPresenter.Attach | lib/src/main/java/com/maltaisn/calcdialog/CalcPresenter.java:86-109 | settings that fail validation throw IllegalArgumentException before anything changes; otherwise the configuration is read from the settings and the state is the attached one |
| LibPresenter.CalcPresenter.Start | lib/src/main/java/com/maltaisn/calcdialog/CalcPresenter.java:94-108 | the state becomes the attached state for the initial value |
| LibPresenter.CalcPresenter.SetUpView | lib/src/main/java/com/maltaisn/calcdialog/CalcPresenter.java:102-105 | the state is updated as the view set-up says |
| LibPresenter.CalcPresenter.Emit | lib/src/main/java/com/maltaisn/calcdialog/CalcPresenter.java:102-105 | one call on the view is recorded and no other field changes |
| LibPresenter.CalcPresenter.UpdateCurrentValue | lib/src/main/java/com/maltaisn/calcdialog/CalcPresenter.java:466-509 | the state is updated as showing the value says |
| LibPresenter.CalcPresenter.UpdateExpression | lib/src/main/java/com/maltaisn/calcdialog/CalcPresenter.java:511-520 | the state is updated as showing the expression says |
| LibPresenter.CalcPresenter.GetCurrentValueString | lib/src/main/java/com/maltaisn/calcdialog/CalcPresenter.java:522-531 | returns the typed text of the value |
| LibPresenter.CalcPresenter.ClearExpressionIfNeeded | lib/src/main/java/com/maltaisn/calcdialog/CalcPresenter.java:363-370 | the state becomes the cleared-expression state |
| LibPresenter.CalcPresenter.DismissError | lib/src/main/java/com/maltaisn/calcdialog/CalcPresenter.java:457-464 | returns whether an error was set and the state becomes the error-dismissed state |
| LibPresenter.CalcPresenter.DismissOldValue | lib/src/main/java/com/maltaisn/calcdialog/CalcPresenter.java:372-384 | the state becomes the old-value-dismissed state |
| LibPresenter.CalcPresenter.DismissAnswer | lib/src/main/java/com/maltaisn/calcdialog/CalcPresenter.java:375-377 | the state loses its answer flag |
| LibPresenter.CalcPresenter.DiscardValue | lib/src/main/java/com/maltaisn/calcdialog/CalcPresenter.java:379-383 | the state's value is discarded |
| LibPresenter.CalcPresenter.Reset | lib/src/main/java/com/maltaisn/calcdialog/CalcPresenter.java:389-402 | the state becomes the reset state |
| LibPresenter.CalcPresenter.SetError | lib/src/main/java/com/maltaisn/calcdialog/CalcPresenter.java:443-455 | the state becomes the error state |
| LibPresenter.CalcPresenter.StoreError | lib/src/main/java/com/maltaisn/calcdialog/CalcPresenter.java:444-452 | the error code is stored and the value, the result, the typed scale, the answer flag and both edit flags are dropped; nothing else changes |
| LibPresenter.CalcPresenter.Calculate | lib/src/main/java/com/maltaisn/calcdialog/CalcPresenter.java:404-417 | the state becomes the calculated state, the expression list edited in place |
| LibPresenter.CalcPresenter.Equal | lib/src/main/java/com/maltaisn/calcdialog/CalcPresenter.java:419-441 | the state becomes the equal state |
| LibPresenter.CalcPresenter.CloseExpression | lib/src/main/java/com/maltaisn/calcdialog/CalcPresenter.java:420-428 | the expression's lists are closed in place |
| LibPresenter.CalcPresenter.AppendValue | lib/src/main/java/com/maltaisn/calcdialog/CalcPresenter.java:424-427 | the value is appended to the expression's numbers in place |
| LibPresenter.CalcPresenter.StoreResult | lib/src/main/java/com/maltaisn/calcdialog/CalcPresenter.java:432-439 | the result is stored as the result-stored state says |
| LibPresenter.CalcPresenter.EraseValue | lib/src/main/java/com/maltaisn/calcdialog/CalcPresenter.java:163-175 | the value becomes the erased value |
| LibPresenter.CalcPresenter.ReadErased | lib/src/main/java/com/maltaisn/calcdialog/CalcPresenter.java:164-167 | the text of the value without its last character reads back as the erased value: no value once only a digit, or a sign and a digit, is left |
| LibPresenter.CalcPresenter.PopNumber | lib/src/main/java/com/maltaisn/calcdialog/CalcPresenter.java:177-187 | the expression's last number and operator are removed in place and the number becomes the value, with the corrected typed scale (see Findings) |
| LibPresenter.CalcPresenter.TakeLastNumber | lib/src/main/java/com/maltaisn/calcdialog/CalcPresenter.java:179-184 | the last number and operator leave the expression and that number becomes the value with the corrected typed scale; nothing else changes |
| LibPresenter.CalcPresenter.ApplyErase | lib/src/main/java/com/maltaisn/calcdialog/CalcPresenter.java:155-189 | the state becomes the erase-applied state, whose pop uses the corrected typed scale (see Findings) |
| LibPresenter.CalcPresenter.BeginErase | lib/src/main/java/com/maltaisn/calcdialog/CalcPresenter.java:155-157 | the answer and result flags are dropped |
| LibPresenter.CalcPresenter.OnErasedOnce | lib/src/main/java/com/maltaisn/calcdialog/CalcPresenter.java:151-190 | the state becomes the erase-key state, whose pop uses the corrected typed scale (see Findings), and the presenter stays valid |
| LibPresenter.CalcPresenter.OnErasedAll | lib/src/main/java/com/maltaisn/calcdialog/CalcPresenter.java:192-194 | the state becomes the clear-key state |
| LibPresenter.CalcPresenter.TypeDigit | lib/src/main/java/com/maltaisn/calcdialog/CalcPresenter.java:200-217 | the state becomes the typed-digit state |
| LibPresenter.CalcPresenter.AppendDigit | lib/src/main/java/com/maltaisn/calcdialog/CalcPresenter.java:212-217 | the text with the digit appended is read back as the value, and the typed scale grows when the text has a point |
| LibPresenter.CalcPresenter.StoreTyped | lib/src/main/java/com/maltaisn/calcdialog/CalcPresenter.java:212-216 | the value read back and its typed scale become the current ones; nothing else changes |
| LibPresenter.CalcPresenter.AtDigitLimit | lib/src/main/java/com/maltaisn/calcdialog/CalcPresenter.java:203-207 | returns whether a limit is reached and where the text's point is |
| LibPresenter.CalcPresenter.OnDigitBtnClicked | lib/src/main/java/com/maltaisn/calcdialog/CalcPresenter.java:196-218 | the state becomes the digit-key state and the presenter stays valid |
| LibPresenter.CalcPresenter.PushOperand | lib/src/main/java/com/maltaisn/calcdialog/CalcPresenter.java:233-242 | the value and the operator are pushed onto the expression in place |
| LibPresenter.CalcPresenter.AppendOperator | lib/src/main/java/com/maltaisn/calcdialog/CalcPresenter.java:238-242 | the operator is appended in place |
| LibPresenter.CalcPresenter.LeaveTyping | lib/src/main/java/com/maltaisn/calcdialog/CalcPresenter.java:224-225 | the value stops being a result and keeps no typed scale; nothing else changes |
| LibPresenter.CalcPresenter.ReplaceOperator | lib/src/main/java/com/maltaisn/calcdialog/CalcPresenter.java:227-230 | the expression's last operator is replaced by the new one; nothing else changes |
| LibPresenter.CalcPresenter.ApplyOperator | lib/src/main/java/com/maltaisn/calcdialog/CalcPresenter.java:224-247 | the state becomes the operator-applied state |
| LibPresenter.CalcPresenter.ShowOperator | lib/src/main/java/com/maltaisn/calcdialog/CalcPresenter.java:245-247 | the state is updated as showing the operator's result says |
| LibPresenter.CalcPresenter.OnOperatorBtnClicked | lib/src/main/java/com/maltaisn/calcdialog/CalcPresenter.java:220-248 | the state becomes the operator-key state and the presenter stays valid |
| LibPresenter.CalcPresenter.OnDecimalSepBtnClicked | lib/src/main/java/com/maltaisn/calcdialog/CalcPresenter.java:250-262 | the state becomes the point-key state and the presenter stays valid |
| LibPresenter.CalcPresenter.InsertPoint | lib/src/main/java/com/maltaisn/calcdialog/CalcPresenter.java:254-259 | the point is inserted |
| LibPresenter.CalcPresenter.OnSignBtnClicked | lib/src/main/java/com/maltaisn/calcdialog/CalcPresenter.java:264-286 | the state becomes the sign-key state and the presenter stays valid |
| LibPresenter.CalcPresenter.ApplySign | lib/src/main/java/com/maltaisn/calcdialog/CalcPresenter.java:264-286 | the state becomes the sign-key state |
| LibPresenter.CalcPresenter.ToggleSign | lib/src/main/java/com/maltaisn/calcdialog/CalcPresenter.java:280-283 | only the value changes, to its toggled sign |
| LibPresenter.CalcPresenter.OnEqualBtnClicked | lib/src/main/java/com/maltaisn/calcdialog/CalcPresenter.java:288-292 | the state becomes the equal-key state and the presenter stays valid |
| LibPresenter.CalcPresenter.OnAnswerBtnClicked | lib/src/main/java/com/maltaisn/calcdialog/CalcPresenter.java:294-304 | the state becomes the answer-key state and the presenter stays valid |
| LibPresenter.CalcPresenter.OnClearBtnClicked | lib/src/main/java/com/maltaisn/calcdialog/CalcPresenter.java:306-315 | the state becomes the clear-key state and the presenter stays valid |
| LibPresenter.CalcPresenter.OnCancelBtnClicked | lib/src/main/java/com/maltaisn/calcdialog/CalcPresenter.java:317-319 | the state becomes the cancel-key state |
| LibPresenter.CalcPresenter.CheckBounds | lib/src/main/java/com/maltaisn/calcdialog/CalcPresenter.java:333-356 | the state becomes the bounds-checked state |
| LibPresenter.CalcPresenter.OnOkBtnClicked | lib/src/main/java/com/maltaisn/calcdialog/CalcPresenter.java:321-357 | the state becomes the OK-key state and the presenter stays valid |
| LibPresenter.CalcPresenter.OnDismissed | lib/src/main/java/com/maltaisn/calcdialog/CalcPresenter.java:359-361 | the state becomes the reset state |
| TokenPresenter.Negated | calcdialog/src/main/java/com/nmaltais/calcdialog/CalcPresenter.java:276-281 | negating keeps a missing value missing and a present one present |
| TokenPresenter.ZeroTextIsZero | calcdialog/src/main/java/com/nmaltais/calcdialog/CalcPresenter.java:55-63 | ZERO's plain text has no point, so the text shown for zero is "0" whatever the decimal separator |
| TokenPresenter.AnswerBtnShown | calcdialog/src/main/java/com/nmaltais/calcdialog/CalcPresenter.java:516-519 | switching the answer and equal keys changes no field |
| TokenPresenter.Displayed | calcdialog/src/main/java/com/nmaltais/calcdialog/CalcPresenter.java:164 | showing the token changes no field |
| TokenPresenter.ValueFormatted | calcdialog/src/main/java/com/nmaltais/calcdialog/CalcPresenter.java:474-499 | formatting changes only the token and whether it is to be overwritten |
| TokenPresenter.SeparatorsRemoved | calcdialog/src/main/java/com/nmaltais/calcdialog/CalcPresenter.java:506-514 | removing the grouping separators changes only the token |
| TokenPresenter.ValueRead | calcdialog/src/main/java/com/nmaltais/calcdialog/CalcPresenter.java:454-467 | reading the value changes only the token |
| TokenPresenter.ResultIgnored | calcdialog/src/main/java/com/nmaltais/calcdialog/CalcPresenter.java:454-467 | reading the token neither depends on nor changes the stored result |
| TokenPresenter.Cleared | calcdialog/src/main/java/com/nmaltais/calcdialog/CalcPresenter.java:345-358 | reset leaves no operation, result or answer, the result marked as displayed and the token empty (zeroString to be overwritten when a zero is shown), and keeps the error |
| TokenPresenter.WithError | calcdialog/src/main/java/com/nmaltais/calcdialog/CalcPresenter.java:413-418 | an error leaves its code set and every value reset |
| TokenPresenter.ResultShown | calcdialog/src/main/java/com/nmaltais/calcdialog/CalcPresenter.java:392-406 | a normal end of calculate either shows the stored result or records OUT_OF_BOUNDS |
| TokenPresenter.Calculated | calcdialog/src/main/java/com/nmaltais/calcdialog/CalcPresenter.java:363-407 | nothing changes while a result is displayed; otherwise a normal end shows the result or records DIV_ZERO or OUT_OF_BOUNDS |
| TokenPresenter.EditBegun | calcdialog/src/main/java/com/nmaltais/calcdialog/CalcPresenter.java:136-137 | only the answer flag is dropped |
| TokenPresenter.ShownDiscarded | calcdialog/src/main/java/com/nmaltais/calcdialog/CalcPresenter.java:179-182 | a displayed result or a token to be overwritten is emptied; afterwards nothing is to be overwritten and only the token changed |
| TokenPresenter.Refreshed | calcdialog/src/main/java/com/nmaltais/calcdialog/CalcPresenter.java:163-165 | afterwards no result is marked as displayed |
| TokenPresenter.ErasePressed | calcdialog/src/main/java/com/nmaltais/calcdialog/CalcPresenter.java:133-167 | a pending error is only dismissed; otherwise the token and its flags change but the operation, the result and the answer do not, no error is left, the answer is no longer the value, and the one fault is StringIndexOutOfBoundsException |
| TokenPresenter.DigitPressed | calcdialog/src/main/java/com/nmaltais/calcdialog/CalcPresenter.java:173-209 | the digit key leaves no error and no displayed result or answer, and keeps the operation, the result and the answer |
| TokenPresenter.OperatorPressed | calcdialog/src/main/java/com/nmaltais/calcdialog/CalcPresenter.java:211-236 | a pending error is only dismissed; otherwise, when nothing throws, the new operation is the one pending |
| TokenPresenter.DecimalSepPressed | calcdialog/src/main/java/com/nmaltais/calcdialog/CalcPresenter.java:238-261 | the token ends with a decimal separator in it and nothing to overwrite, no error is left, and the operation, the result and the answer are kept |
| TokenPresenter.SignPressed | calcdialog/src/main/java/com/nmaltais/calcdialog/CalcPresenter.java:263-286 | the corrected sign key: a pending error is only dismissed; a token that reads as no value or zero is left alone; the operation and the answer flag are kept, and the result and the answer stay present exactly when they were |
| TokenPresenter.SignPressedAsWritten | calcdialog/src/main/java/com/nmaltais/calcdialog/CalcPresenter.java:263-286 | the sign key as written throws NullPointerException exactly when it negates a displayed result with no result or no answer stored, and otherwise agrees with the corrected key |
| TokenPresenter.EqualPressed | calcdialog/src/main/java/com/nmaltais/calcdialog/CalcPresenter.java:288-293 | a pending error is only dismissed; otherwise the answer becomes the result, and a calculation ends as a shown result, a DIV_ZERO error or an OUT_OF_BOUNDS error |
| TokenPresenter.AnswerPressed | calcdialog/src/main/java/com/nmaltais/calcdialog/CalcPresenter.java:295-301 | the answer becomes the value, no result is displayed, and no other field changes |
| TokenPresenter.ClearPressed | calcdialog/src/main/java/com/nmaltais/calcdialog/CalcPresenter.java:303-305 | a pending error is only dismissed; otherwise no operation, error, result or answer is left and the emptied token is shown |
| TokenPresenter.CancelPressed | calcdialog/src/main/java/com/nmaltais/calcdialog/CalcPresenter.java:307-309 | no field changes and the last view call is the exit |
| TokenPresenter.OkPressed | calcdialog/src/main/java/com/nmaltais/calcdialog/CalcPresenter.java:311-335 | a pending error is only dismissed; otherwise the key fails exactly when calculate does, and with an operation pending it is calculate alone |
| TokenPresenter.Dismissed | calcdialog/src/main/java/com/nmaltais/calcdialog/CalcPresenter.java:337-339 | dismissal leaves no operation, result or answer and the empty token, and keeps the error code |
| TokenPresenter.Attached | calcdialog/src/main/java/com/nmaltais/calcdialog/CalcPresenter.java:65-94 | attach fails exactly when the initial value cannot be set to maxFracDigits digits; otherwise no error or operation is left, a result is displayed, and the result and the answer are both the initial value or both missing |
| TokenPresenter.OperatorSet | calcdialog/src/main/java/com/nmaltais/calcdialog/CalcPresenter.java:227-235 | the operation pressed is the one recorded |
| TokenPresenter.PlainTextShape | calcdialog/src/main/java/com/nmaltais/calcdialog/CalcPresenter.java:474-499 | toPlainString writes only digits, '-' and '.', and no '.' is left once the first is replaced by the decimal separator |
| TokenPresenter.PlainShapeUnscaled | calcdialog/src/main/java/com/nmaltais/calcdialog/CalcPresenter.java:474-499 | the plain text of a number of scale 0 or less has no point |
| TokenPresenter.PlainShapeScaled | calcdialog/src/main/java/com/nmaltais/calcdialog/CalcPresenter.java:474-499 | the plain text of a number with fraction digits has one point, gone once it is localised |
| TokenPresenter.PointTextShape | calcdialog/src/main/java/com/nmaltais/calcdialog/CalcPresenter.java:474-499 | a sign, digits, a point and digits make a plain text with no point left once localised |
| TokenPresenter.PointReplaced | calcdialog/src/main/java/com/nmaltais/calcdialog/CalcPresenter.java:474-499 | replacing the point by the separator splices that separator between the two digit runs |
| TokenPresenter.NotInLocalised | calcdialog/src/main/java/com/nmaltais/calcdialog/CalcPresenter.java:474-499 | a character that is neither a plain character nor the separator does not occur in the localised text |
| TokenPresenter.ShownTextReadBack | calcdialog/src/main/java/com/nmaltais/calcdialog/CalcPresenter.java:454-514 | with separators apart from each other, the digits and '-', removing the groups and restoring the point undoes formatValue on toPlainString's text |
| TokenPresenter.TrailingZerosValue | calcdialog/src/main/java/com/nmaltais/calcdialog/CalcPresenter.java:454-467 | digits followed by k zeros are worth 10^k times the digits |
| TokenPresenter.PlainStringReadBack | calcdialog/src/main/java/com/nmaltais/calcdialog/CalcPresenter.java:454-467 | new BigDecimal of toPlainString's text is the same value, and the same decimal when the scale is not negative |
| TokenPresenter.NegativeScaleReadBack | calcdialog/src/main/java/com/nmaltais/calcdialog/CalcPresenter.java:454-467 | for a negative scale the text read back is the value at scale 0 |
| TokenPresenter.ShiftedSameValue | calcdialog/src/main/java/com/nmaltais/calcdialog/CalcPresenter.java:454-467 | the value at scale 0 of a negative-scale number equals it |
| TokenPresenter.ShiftedParse | calcdialog/src/main/java/com/nmaltais/calcdialog/CalcPresenter.java:454-467 | the plain text of u times 10^k reads back at scale 0 |
| TokenPresenter.ShiftedText | calcdialog/src/main/java/com/nmaltais/calcdialog/CalcPresenter.java:454-467 | the plain text of a negative-scale number is its sign, its digits and its zeros |
| TokenPresenter.SignedShift | calcdialog/src/main/java/com/nmaltais/calcdialog/CalcPresenter.java:454-467 | shifting the magnitude and then signing is shifting the signed number |
| TokenPresenter.ShiftedDigitsParse | calcdialog/src/main/java/com/nmaltais/calcdialog/CalcPresenter.java:454-467 | a sign, digits and k zeros read back as the signed digits times 10^k |
| TokenPresenter.ShownResultReadBack | calcdialog/src/main/java/com/nmaltais/calcdialog/CalcPresenter.java:397-402 | the token calculate shows for a result reads back as that result: the same value, and the same decimal when its scale is not negative |
| TokenPresenter.IndexOfAppend | calcdialog/src/main/java/com/nmaltais/calcdialog/CalcPresenter.java:187 | appending keeps the first index of a character the text already holds |
| TokenPresenter.DigitTypedBounds | calcdialog/src/main/java/com/nmaltais/calcdialog/CalcPresenter.java:184-204 | a digit key only appends the digit or replaces a lone "0" by a nonzero digit, and keeps a token within the integer-digit or fraction-digit limit it was within |
| TokenPresenter.DigitTypedPolicy | calcdialog/src/main/java/com/nmaltais/calcdialog/CalcPresenter.java:186-204 | below the limit a digit is appended to any token but a lone "0"; at the limit nothing changes; a lone "0" is replaced by a nonzero digit and a further 0 is dropped only with leading zeros prevented |
| TokenPresenter.ErasedTokenClean | calcdialog/src/main/java/com/nmaltais/calcdialog/CalcPresenter.java:145-160 | the erase edit shortens the token, keeps '-' and the separator where a number has them, and never leaves either at the end |
| TokenPresenter.TypedThenErased | calcdialog/src/main/java/com/nmaltais/calcdialog/CalcPresenter.java:148-160 | erasing a digit just typed after a token not ending in a mark gives the token back |
| TokenPresenter.EraseOfShownValue | calcdialog/src/main/java/com/nmaltais/calcdialog/CalcPresenter.java:139-165 | erasing a displayed result or a token to be overwritten empties it, so it shows the empty text, to be overwritten again when that is zeroString |
| TokenPresenter.EraseFaults | calcdialog/src/main/java/com/nmaltais/calcdialog/CalcPresenter.java:139-166 | the erase key throws StringIndexOutOfBoundsException exactly when it edits a typed token made only of grouping separators |
| TokenPresenter.GroupsRemovedHead | calcdialog/src/main/java/com/nmaltais/calcdialog/CalcPresenter.java:506-514 | removing the groups keeps a leading '-' and the first character that is not a separator |
| TokenPresenter.PointRestoredHead | calcdialog/src/main/java/com/nmaltais/calcdialog/CalcPresenter.java:454-467 | restoring the point keeps a leading '-' and the first character that is not the separator |
| TokenPresenter.ParseMinus | calcdialog/src/main/java/com/nmaltais/calcdialog/CalcPresenter.java:454-467 | reading a number with '-' in front gives its negation |
| TokenPresenter.MinusReadsNegated | calcdialog/src/main/java/com/nmaltais/calcdialog/CalcPresenter.java:454-467 | a token with a leading '-' reads as the negation of the token without it |
| TokenPresenter.SignToggledReadsNegated | calcdialog/src/main/java/com/nmaltais/calcdialog/CalcPresenter.java:263-286 | the sign key's edit of a token that starts a number negates the value it reads as |
| TokenPresenter.SignTwice | calcdialog/src/main/java/com/nmaltais/calcdialog/CalcPresenter.java:263-286 | two sign keys give the token back and change nothing else after the first; a displayed result is negated once, since the first key ends the display |
| TokenPresenter.DecimalSepTwice | calcdialog/src/main/java/com/nmaltais/calcdialog/CalcPresenter.java:238-261 | after the decimal key the token holds the separator, and a second key changes no field |
| TokenPresenter.DecimalSepAppends | calcdialog/src/main/java/com/nmaltais/calcdialog/CalcPresenter.java:244-260 | without a separator the key writes it once, at the end, after the token or after a 0 on an empty token |
| TokenPresenter.ResultShownSettles | calcdialog/src/main/java/com/nmaltais/calcdialog/CalcPresenter.java:392-406 | the end of calculate on x: OUT_OF_BOUNDS outside the bounds, the rounding fault of setScale, or x at maxFracDigits digits, stripped and shown |
| TokenPresenter.CalculateValue | calcdialog/src/main/java/com/nmaltais/calcdialog/CalcPresenter.java:363-406 | without an operation, or on an empty token, calculate settles the token's value; an unreadable token throws its NumberFormatException and a missing answer a NullPointerException |
| TokenPresenter.CalculateOperation | calcdialog/src/main/java/com/nmaltais/calcdialog/CalcPresenter.java:371-406 | with an operation on a typed token of value v, dividing by zero records DIV_ZERO, otherwise the stored result (ZERO when none) combined with v is settled or its fault thrown |
| TokenPresenter.EqualStoresAnswer | calcdialog/src/main/java/com/nmaltais/calcdialog/CalcPresenter.java:288-293 | after the equal key the answer is the result: the shown one, or none after DIV_ZERO or OUT_OF_BOUNDS |
| TokenPresenter.OkActsAsEqual | calcdialog/src/main/java/com/nmaltais/calcdialog/CalcPresenter.java:311-319 | with an operation pending the OK key only calculates, sending nothing |
| TokenPresenter.OkSendsResult | calcdialog/src/main/java/com/nmaltais/calcdialog/CalcPresenter.java:311-335 | without an operation or an error the result is sent and the dialog exits exactly when its sign is accepted; otherwise WRONG_SIGN_NEG for a positive and WRONG_SIGN_POS for a negative result |
| TokenPresenter.OkAfterError | calcdialog/src/main/java/com/nmaltais/calcdialog/CalcPresenter.java:316-321 | after an error from calculate OK sends nothing |
| TokenPresenter.DisplayedWithoutAnswer | calcdialog/src/main/java/com/nmaltais/calcdialog/CalcPresenter.java:276-281 | a displayed result with no answer stored makes the sign key throw as written; the corrected key negates the result, leaves no answer and toggles the token |
| TokenPresenter.DigitReadsAsItself | calcdialog/src/main/java/com/nmaltais/calcdialog/CalcPresenter.java:203-207 | a single digit token reads as that digit and is shown unchanged |
| TokenPresenter.AttachShowsZero | calcdialog/src/main/java/com/nmaltais/calcdialog/CalcPresenter.java:40-95 | attaching the default dialog with no initial value shows zero |
| TokenPresenter.TypingTwo | calcdialog/src/main/java/com/nmaltais/calcdialog/CalcPresenter.java:173-209 | the digit 2 on the zero display gives the token "2" |
| TokenPresenter.PressingAdd | calcdialog/src/main/java/com/nmaltais/calcdialog/CalcPresenter.java:211-236 | the add key on "2" stores 2 as the first operand with addition pending |
| TokenPresenter.TypingThree | calcdialog/src/main/java/com/nmaltais/calcdialog/CalcPresenter.java:173-209 | the digit 3 then gives the token "3" |
| TokenPresenter.StripShifted | calcdialog/src/main/java/com/nmaltais/calcdialog/CalcPresenter.java:397-398 | stripping u times 10^k, for u without a trailing zero, removes exactly the k zeros |
| TokenPresenter.ResultShownOk | calcdialog/src/main/java/com/nmaltais/calcdialog/CalcPresenter.java:392-406 | a result within the bounds that setScale rounds to y is stored and shown as y stripped |
| TokenPresenter.CalculatedOperated | calcdialog/src/main/java/com/nmaltais/calcdialog/CalcPresenter.java:371-406 | calculate with an operation that does not divide by zero ends with the combined result shown |
| TokenPresenter.TwoPlusThreeIsFive | calcdialog/src/main/java/com/nmaltais/calcdialog/CalcPresenter.java:375-377 | 2 + 3 is 5, within the default bounds |
| TokenPresenter.FiveAtEightDigits | calcdialog/src/main/java/com/nmaltais/calcdialog/CalcPresenter.java:397-401 | 5 at 8 fraction digits, stripped, is 5 and shows as "5" |
| TokenPresenter.PressingAddAgain | calcdialog/src/main/java/com/nmaltais/calcdialog/CalcPresenter.java:211-236 | the add key on 2 + 3 displays 5 and stores no answer |
| TokenPresenter.TwoPlusThreePlus | calcdialog/src/main/java/com/nmaltais/calcdialog/CalcPresenter.java:40-236 | the default dialog reaches that display with the keys 2, +, 3, + |
| TokenPresenter.SignOnFive | calcdialog/src/main/java/com/nmaltais/calcdialog/CalcPresenter.java:263-286 | on that display the sign key as written throws NullPointerException; the corrected key shows "-5" with the result -5 and no answer |
| TokenPresenter.CalculatedCombined | calcdialog/src/main/java/com/nmaltais/calcdialog/CalcPresenter.java:371-406 | with an operation pending, a zero divisor records DIV_ZERO and any other operand goes on to the arithmetic and the shown result |
| TokenPresenter.ConfigOf | calcdialog/src/main/java/com/nmaltais/calcdialog/CalcPresenter.java:55-63 | the configuration's zero text is derived from the decimal separator read from the settings |
| TokenPresenter.CalcPresenter.constructor | calcdialog/src/main/java/com/nmaltais/calcdialog/CalcPresenter.java:24-38 | a new presenter is detached with Java's default fields |
| TokenPresenter.CalcPresenter.Attach | calcdialog/src/main/java/com/nmaltais/calcdialog/CalcPresenter.java:40-95 | the settings' default separators take the locale's, the configuration is read from them, and the state is attach's, or the fault it throws |
| TokenPresenter.CalcPresenter.ReadSettings | calcdialog/src/main/java/com/nmaltais/calcdialog/CalcPresenter.java:43-63 | the separators are localised and the configuration read; the state is unchanged |
| TokenPresenter.CalcPresenter.LocaliseSeparators | calcdialog/src/main/java/com/nmaltais/calcdialog/CalcPresenter.java:48-53 | a separator left at FORMAT_CHAR_DEFAULT takes the locale's; nothing else changes |
| TokenPresenter.CalcPresenter.ZeroString | calcdialog/src/main/java/com/nmaltais/calcdialog/CalcPresenter.java:55-63 | the zero text is ZERO's plain text with its point localised |
| TokenPresenter.CalcPresenter.Start | calcdialog/src/main/java/com/nmaltais/calcdialog/CalcPresenter.java:65-94 | the state is attach's start from the initial value, or the fault it throws |
| TokenPresenter.CalcPresenter.StartFrom | calcdialog/src/main/java/com/nmaltais/calcdialog/CalcPresenter.java:75-79 | the rounded initial value becomes the result, the answer and the token |
| TokenPresenter.CalcPresenter.ClearStartState | calcdialog/src/main/java/com/nmaltais/calcdialog/CalcPresenter.java:66-71 | no answer, operation, error or result is left and a result counts as displayed; nothing else changes |
| TokenPresenter.CalcPresenter.ClearToken | calcdialog/src/main/java/com/nmaltais/calcdialog/CalcPresenter.java:82 | the token becomes empty; nothing else changes |
| TokenPresenter.CalcPresenter.SetUpView | calcdialog/src/main/java/com/nmaltais/calcdialog/CalcPresenter.java:92-94 | the state is updated as the view set-up says |
| TokenPresenter.CalcPresenter.SetAnswerBtnVisible | calcdialog/src/main/java/com/nmaltais/calcdialog/CalcPresenter.java:516-519 | the answer and equal keys are switched |
| TokenPresenter.CalcPresenter.DisplayValueText | calcdialog/src/main/java/com/nmaltais/calcdialog/CalcPresenter.java:164 | the token is shown |
| TokenPresenter.CalcPresenter.FormatValue | calcdialog/src/main/java/com/nmaltais/calcdialog/CalcPresenter.java:474-499 | the token is formatted in place |
| TokenPresenter.CalcPresenter.RemoveGroupSeparators | calcdialog/src/main/java/com/nmaltais/calcdialog/CalcPresenter.java:506-514 | the grouping separators are removed in place |
| TokenPresenter.CalcPresenter.GetCurrentValue | calcdialog/src/main/java/com/nmaltais/calcdialog/CalcPresenter.java:454-467 | returns the value the token reads as, or the fault, and leaves the token in its parsed form |
| TokenPresenter.CalcPresenter.Reset | calcdialog/src/main/java/com/nmaltais/calcdialog/CalcPresenter.java:345-358 | the state becomes the reset state |
| TokenPresenter.CalcPresenter.ClearValues | calcdialog/src/main/java/com/nmaltais/calcdialog/CalcPresenter.java:346-351 | no operation, result or answer is left |
| TokenPresenter.CalcPresenter.SetError | calcdialog/src/main/java/com/nmaltais/calcdialog/CalcPresenter.java:413-418 | the state becomes the error state |
| TokenPresenter.CalcPresenter.DismissError | calcdialog/src/main/java/com/nmaltais/calcdialog/CalcPresenter.java:424-432 | returns whether an error was set and clears it |
| TokenPresenter.CalcPresenter.Clear | calcdialog/src/main/java/com/nmaltais/calcdialog/CalcPresenter.java:437-447 | the state becomes the clear-key state |
| TokenPresenter.CalcPresenter.ShowResult | calcdialog/src/main/java/com/nmaltais/calcdialog/CalcPresenter.java:392-406 | the state becomes the end of calculate, or the fault it throws |
| TokenPresenter.CalcPresenter.DisplayResult | calcdialog/src/main/java/com/nmaltais/calcdialog/CalcPresenter.java:400-404 | the result is stored, written, formatted and shown |
| TokenPresenter.CalcPresenter.StoreResult | calcdialog/src/main/java/com/nmaltais/calcdialog/CalcPresenter.java:397-401 | the result and its plain text are stored, nothing else changes |
| TokenPresenter.CalcPresenter.EndCalculation | calcdialog/src/main/java/com/nmaltais/calcdialog/CalcPresenter.java:404-406 | the result is marked displayed and no operation is left |
| TokenPresenter.CalcPresenter.ApplyOperation | calcdialog/src/main/java/com/nmaltais/calcdialog/CalcPresenter.java:375-389 | reports a division by zero exactly for a zero divisor under division, recording DIV_ZERO; otherwise the arithmetic's state or fault |
| TokenPresenter.CalcPresenter.Calculate | calcdialog/src/main/java/com/nmaltais/calcdialog/CalcPresenter.java:363-407 | the state becomes calculate's, or the fault it throws |
| TokenPresenter.CalcPresenter.CombineOperand | calcdialog/src/main/java/com/nmaltais/calcdialog/CalcPresenter.java:371-390 | when it proceeds, what is left of calculate is the shown result; otherwise it has ended calculate |
| TokenPresenter.CalcPresenter.TakeResultAndOperand | calcdialog/src/main/java/com/nmaltais/calcdialog/CalcPresenter.java:372-373 | the stored result becomes itself or ZERO and the token's value is returned |
| TokenPresenter.CalcPresenter.DefaultResult | calcdialog/src/main/java/com/nmaltais/calcdialog/CalcPresenter.java:372 | a missing stored result becomes ZERO; nothing else changes |
| TokenPresenter.CalcPresenter.DiscardShown | calcdialog/src/main/java/com/nmaltais/calcdialog/CalcPresenter.java:179-182 | a displayed result or a token to be overwritten is emptied |
| TokenPresenter.CalcPresenter.Refresh | calcdialog/src/main/java/com/nmaltais/calcdialog/CalcPresenter.java:163-165 | the token is formatted and shown and no result is displayed |
| TokenPresenter.CalcPresenter.BeginEdit | calcdialog/src/main/java/com/nmaltais/calcdialog/CalcPresenter.java:136-137 | the answer flag is dropped |
| TokenPresenter.CalcPresenter.OnErasedOnce | calcdialog/src/main/java/com/nmaltais/calcdialog/CalcPresenter.java:133-167 | the state becomes the erase-key state, or the fault it throws |
| TokenPresenter.CalcPresenter.EraseLast | calcdialog/src/main/java/com/nmaltais/calcdialog/CalcPresenter.java:148-160 | only the token changes, by the erase edit |
| TokenPresenter.CalcPresenter.OnErasedAll | calcdialog/src/main/java/com/nmaltais/calcdialog/CalcPresenter.java:169-171 | the state becomes the clear-key state |
| TokenPresenter.CalcPresenter.OnDigitBtnClicked | calcdialog/src/main/java/com/nmaltais/calcdialog/CalcPresenter.java:173-209 | the state becomes the digit-key state |
| TokenPresenter.CalcPresenter.AppendDigit | calcdialog/src/main/java/com/nmaltais/calcdialog/CalcPresenter.java:184-204 | only the token changes, by the digit edit |
| TokenPresenter.CalcPresenter.OnOperatorBtnClicked | calcdialog/src/main/java/com/nmaltais/calcdialog/CalcPresenter.java:211-236 | the state becomes the operator-key state, or the fault it throws |
| TokenPresenter.CalcPresenter.TakeOperand | calcdialog/src/main/java/com/nmaltais/calcdialog/CalcPresenter.java:214-225 | the pending operation is calculated or the value stored |
| TokenPresenter.CalcPresenter.StoreOperand | calcdialog/src/main/java/com/nmaltais/calcdialog/CalcPresenter.java:218-223 | the value becomes the first operand |
| TokenPresenter.CalcPresenter.SetOperation | calcdialog/src/main/java/com/nmaltais/calcdialog/CalcPresenter.java:227-235 | the operation is recorded |
| TokenPresenter.CalcPresenter.OnDecimalSepBtnClicked | calcdialog/src/main/java/com/nmaltais/calcdialog/CalcPresenter.java:238-261 | the state becomes the decimal-key state |
| TokenPresenter.CalcPresenter.AppendPoint | calcdialog/src/main/java/com/nmaltais/calcdialog/CalcPresenter.java:251-256 | a token without a separator gets one at its end, after a "0" when it was empty |
| TokenPresenter.CalcPresenter.OnSignBtnClicked | calcdialog/src/main/java/com/nmaltais/calcdialog/CalcPresenter.java:263-286 | the state becomes the corrected sign-key state |
| TokenPresenter.CalcPresenter.ToggleSignText | calcdialog/src/main/java/com/nmaltais/calcdialog/CalcPresenter.java:270-274 | a leading '-' is inserted, or removed when present; nothing else changes |
| TokenPresenter.CalcPresenter.NegateShownResult | calcdialog/src/main/java/com/nmaltais/calcdialog/CalcPresenter.java:276-281 | while a result is displayed the result and the answer are negated; otherwise nothing changes |
| TokenPresenter.CalcPresenter.LeaveResult | calcdialog/src/main/java/com/nmaltais/calcdialog/CalcPresenter.java:284 | the token no longer shows a result; nothing else changes |
| TokenPresenter.CalcPresenter.OnEqualBtnClicked | calcdialog/src/main/java/com/nmaltais/calcdialog/CalcPresenter.java:288-293 | the state becomes the equal-key state, or the fault it throws |
| TokenPresenter.CalcPresenter.OnAnswerBtnClicked | calcdialog/src/main/java/com/nmaltais/calcdialog/CalcPresenter.java:295-301 | the state becomes the answer-key state |
| TokenPresenter.CalcPresenter.OnClearBtnClicked | calcdialog/src/main/java/com/nmaltais/calcdialog/CalcPresenter.java:303-305 | the state becomes the clear-key state |
| TokenPresenter.CalcPresenter.OnCancelBtnClicked | calcdialog/src/main/java/com/nmaltais/calcdialog/CalcPresenter.java:307-309 | the view is told to exit |
| TokenPresenter.CalcPresenter.OnOkBtnClicked | calcdialog/src/main/java/com/nmaltais/calcdialog/CalcPresenter.java:311-335 | the state becomes the OK-key state, or the fault it throws |
| TokenPresenter.CalcPresenter.CheckSign | calcdialog/src/main/java/com/nmaltais/calcdialog/CalcPresenter.java:321-334 | the sign check and the sending of the result |
| TokenPresenter.CalcPresenter.OnDismissed | calcdialog/src/main/java/com/nmaltais/calcdialog/CalcPresenter.java:337-339 | the state becomes the reset state |
| TokenDialog.ValueFormatted | library/src/main/java/com/nmaltais/calcdialog/CalcDialog.java:599-624 | formatting changes only the token and the overwrite flag; an empty token becomes zeroString, to be overwritten, when a zero is shown, and otherwise the overwrite flag stays |
| TokenDialog.CurrentValue | library/src/main/java/com/nmaltais/calcdialog/CalcDialog.java:573-582 | an empty token reads as ZERO; any other reads as the decimal its text gives, and throws NumberFormatException exactly when it gives none |
| TokenDialog.Cleared | library/src/main/java/com/nmaltais/calcdialog/CalcDialog.java:483-492 | reset leaves no operation or result, the emptied token to be overwritten and treated as a displayed result, and keeps the error |
| TokenDialog.WithError | library/src/main/java/com/nmaltais/calcdialog/CalcDialog.java:547-552 | an error leaves its code set and every value reset |
| TokenDialog.ErrorDismissed | library/src/main/java/com/nmaltais/calcdialog/CalcDialog.java:558-566 | no error is left, and without one nothing changes |
| TokenDialog.Settled | library/src/main/java/com/nmaltais/calcdialog/CalcDialog.java:531-532 | the rounding for display fails exactly when setScale to maxFracDigits does, with its rounding fault; it keeps setScale's value, and the result is stripped when stripping is on and has maxFracDigits digits when it is off |
| TokenDialog.StrippedSameValue | library/src/main/java/com/nmaltais/calcdialog/CalcDialog.java:875-881 | stripping the trailing zeros, of a zero as of any number, keeps the value |
| TokenDialog.ResultShown | library/src/main/java/com/nmaltais/calcdialog/CalcDialog.java:526-540 | the end of calculate either shows the result or records OUT_OF_BOUNDS |
| TokenDialog.Calculated | library/src/main/java/com/nmaltais/calcdialog/CalcDialog.java:497-541 | nothing changes while a result is displayed; otherwise a normal end shows the result or records DIV_ZERO or OUT_OF_BOUNDS |
| TokenDialog.ShownDiscarded | library/src/main/java/com/nmaltais/calcdialog/CalcDialog.java:251-254 | a displayed result or a token to be overwritten is emptied, and nothing is left to be overwritten |
| TokenDialog.Refreshed | library/src/main/java/com/nmaltais/calcdialog/CalcDialog.java:267-269 | afterwards no result is marked as displayed |
| TokenDialog.ErasePressed | library/src/main/java/com/nmaltais/calcdialog/CalcDialog.java:199-224 | a pending error is only dismissed; otherwise no error is left, the operation and the result are kept, and the one fault is StringIndexOutOfBoundsException |
| TokenDialog.DigitPressed | library/src/main/java/com/nmaltais/calcdialog/CalcDialog.java:248-270 | the digit listener leaves no error and no displayed result, and keeps the operation and the result |
| TokenDialog.DecimalSepPressed | library/src/main/java/com/nmaltais/calcdialog/CalcDialog.java:320-339 | the corrected decimal listener: the token ends with a decimal separator in it and nothing to overwrite, no error is left, and the operation and the result are kept |
| TokenDialog.DecimalSepPressedAsWritten | library/src/main/java/com/nmaltais/calcdialog/CalcDialog.java:320-339 | the decimal listener as written never clears the overwrite flag, and agrees with the corrected listener whenever that flag is not set |
| TokenDialog.SignPressed | library/src/main/java/com/nmaltais/calcdialog/CalcDialog.java:347-368 | the corrected sign listener: a pending error is only dismissed; a token that reads as no value or zero is left alone; the operation is kept and the result stays present exactly when it was |
| TokenDialog.SignPressedAsWritten | library/src/main/java/com/nmaltais/calcdialog/CalcDialog.java:347-368 | the sign listener as written throws NullPointerException exactly when it negates a displayed result that is not stored, and otherwise agrees with the corrected listener |
| TokenDialog.EqualPressed | library/src/main/java/com/nmaltais/calcdialog/CalcDialog.java:376-379 | a pending error is only dismissed; a displayed result is left alone; otherwise the calculation ends as a shown result, a DIV_ZERO error or an OUT_OF_BOUNDS error |
| TokenDialog.ClearPressed | library/src/main/java/com/nmaltais/calcdialog/CalcDialog.java:386-391 | a pending error is only dismissed; otherwise no operation, error or result is left and the emptied token is shown, to be overwritten |
| TokenDialog.CancelPressed | library/src/main/java/com/nmaltais/calcdialog/CalcDialog.java:397-399 | no field changes and the last display call is the dismissal |
| TokenDialog.OkPressed | library/src/main/java/com/nmaltais/calcdialog/CalcDialog.java:405-442 | a pending error is only dismissed; otherwise the listener fails exactly when calculate does |
| TokenDialog.Dismissed | library/src/main/java/com/nmaltais/calcdialog/CalcDialog.java:473-477 | dismissal leaves no operation or result and the empty token, and keeps the error code |
| TokenDialog.SessionCreated | library/src/main/java/com/nmaltais/calcdialog/CalcDialog.java:164-172 | the initial token fails exactly when the initial value cannot be set to maxFracDigits digits; otherwise the operation and the error are kept and a result is stored exactly when there was an initial value |
| TokenDialog.OperatorPressed | library/src/main/java/com/nmaltais/calcdialog/CalcDialog.java:287-310 | without an error and without a fault, the operation pressed is the one recorded |
| TokenDialog.DialogCreated | library/src/main/java/com/nmaltais/calcdialog/CalcDialog.java:191-193 | the token is shown and treated as a displayed result |
| TokenDialog.ShownResultReadBack | library/src/main/java/com/nmaltais/calcdialog/CalcDialog.java:531-537 | the token of a displayed result reads back as the same value, and as the result itself when its scale is not negative, which it always is without stripping |
| TokenDialog.DigitAgreesWithPresenter | library/src/main/java/com/nmaltais/calcdialog/CalcDialog.java:251-265 | the digit edit is the later presenter's, except on a lone "0", which the dialog keeps in front of a nonzero digit where the presenter replaces it |
| TokenDialog.TypedThenErased | library/src/main/java/com/nmaltais/calcdialog/CalcDialog.java:210-217 | erasing a digit just typed after a token not ending in a mark gives the token back |
| TokenDialog.EraseOfShownValue | library/src/main/java/com/nmaltais/calcdialog/CalcDialog.java:202-223 | erasing a displayed result or a token to be overwritten empties it, so it shows the empty text |
| TokenDialog.EraseFaults | library/src/main/java/com/nmaltais/calcdialog/CalcDialog.java:199-224 | the erase listener throws StringIndexOutOfBoundsException exactly when it edits a typed token made only of grouping separators |
| TokenDialog.SignReadsNegated | library/src/main/java/com/nmaltais/calcdialog/CalcDialog.java:347-368 | the sign key negates the value a token that starts a number reads as, negates a displayed result, and ends the display |
| TokenDialog.SignTwice | library/src/main/java/com/nmaltais/calcdialog/CalcDialog.java:347-368 | two sign keys give the token back; a displayed result is negated only once, since the first key ends the display |
| TokenDialog.ZeroTextUnstripped | library/src/main/java/com/nmaltais/calcdialog/CalcDialog.java:152-162 | without stripping, zeroString is "0", the decimal separator and maxFracDigits zeros |
| TokenDialog.ZeroTextStripped | library/src/main/java/com/nmaltais/calcdialog/CalcDialog.java:152-162 | with stripping, zeroString is "0" |
| TokenDialog.ZeroRescaled | library/src/main/java/com/nmaltais/calcdialog/CalcDialog.java:154 | `ZERO.setScale` never needs rounding: it gives zero at the requested scale, in every rounding mode, so making zeroString cannot throw |
| TokenDialog.UnstrippedZeroSignAsWritten | library/src/main/java/com/nmaltais/calcdialog/CalcDialog.java:347-368 | without stripping, a dialog created with no value shows zeroString as a displayed result, the sign key applies to it, and negating the missing result throws NullPointerException |
| TokenDialog.UnstrippedZeroSign | library/src/main/java/com/nmaltais/calcdialog/CalcDialog.java:347-368 | with the result negated only where there is one, the same key press shows "-" before zeroString, with no result and no error |
| TokenDialog.DecimalSepTwice | library/src/main/java/com/nmaltais/calcdialog/CalcDialog.java:320-339 | after the decimal key the token holds the separator and a second key changes nothing |
| TokenDialog.OneDigitFormatted | library/src/main/java/com/nmaltais/calcdialog/CalcDialog.java:599-624 | a one-digit token is displayed as it is |
| TokenDialog.PointDigitFormatted | library/src/main/java/com/nmaltais/calcdialog/CalcDialog.java:599-624 | "0", the separator and a digit are displayed as they are |
| TokenDialog.PointThenDigitAsWritten | library/src/main/java/com/nmaltais/calcdialog/CalcDialog.java:320-339 | as written, the decimal key leaves a token to be overwritten still to be overwritten, so the next digit replaces it: on the zero shown, the separator and then 5 display "5" |
| TokenDialog.PointThenDigit | library/src/main/java/com/nmaltais/calcdialog/CalcDialog.java:320-339 | with the decimal key clearing a token to be overwritten, the next digit follows "0" and the separator |
| TokenDialog.CalculateValue | library/src/main/java/com/nmaltais/calcdialog/CalcDialog.java:502-541 | without an operation, or with no token, calculate settles the token's value (ZERO for none) or throws NumberFormatException |
| TokenDialog.CalculateOperation | library/src/main/java/com/nmaltais/calcdialog/CalcDialog.java:505-541 | with an operation and a token, a zero divisor records DIV_ZERO; otherwise the stored result (ZERO when none) combined with the token's value is settled or its fault thrown |
| TokenDialog.OkSendsResult | library/src/main/java/com/nmaltais/calcdialog/CalcDialog.java:405-442 | without an error or an operation left by calculate, OK sends the result and dismisses exactly when its sign is accepted, and otherwise shows WRONG_SIGN_NEG for a positive and WRONG_SIGN_POS for a negative result |
| TokenDialog.OkStops | library/src/main/java/com/nmaltais/calcdialog/CalcDialog.java:408-413 | when calculate ends in an error or leaves an operation pending, OK sends nothing |
| TokenDialog.SignLockedAsWritten | library/src/main/java/com/nmaltais/calcdialog/CalcDialog.java:121-139 | as written the constructor leaves signCanBeChanged false and initialSign 0, so OK on a displayed nonzero value shows a wrong-sign error instead of sending it |
| TokenDialog.DefaultSendsValue | library/src/main/java/com/nmaltais/calcdialog/CalcDialog.java:405-442 | with the sign free to change by default, OK on a displayed value sends it and dismisses the dialog |
| TokenDialog.ValueReadKeepsResult | library/src/main/java/com/nmaltais/calcdialog/CalcDialog.java:573-582 | reading the token neither looks at nor changes the stored result |
| TokenDialog.CalcDialog.constructor | library/src/main/java/com/nmaltais/calcdialog/CalcDialog.java:121-139 | a new dialog has the corrected default settings, with the sign free to change where the constructor as written leaves it locked (see Findings), and no operation, error or value |
| TokenDialog.CalcDialog.OnCreate | library/src/main/java/com/nmaltais/calcdialog/CalcDialog.java:146-172 | the settings become the localised separators with zeroString made from them, and the token is made from the initial value, or the rounding fault is thrown |
| TokenDialog.CalcDialog.LocaliseSeparators | library/src/main/java/com/nmaltais/calcdialog/CalcDialog.java:149-150 | a separator left at FORMAT_CHAR_DEFAULT takes the locale's; nothing else changes |
| TokenDialog.CalcDialog.MakeZeroString | library/src/main/java/com/nmaltais/calcdialog/CalcDialog.java:152-162 | zeroString becomes the zero text of the settings, and nothing else changes |
| TokenDialog.CalcDialog.InitValues | library/src/main/java/com/nmaltais/calcdialog/CalcDialog.java:164-172 | the token is made from the initial value rounded for display, or the fault thrown |
| TokenDialog.CalcDialog.OnCreateDialog | library/src/main/java/com/nmaltais/calcdialog/CalcDialog.java:191-193 | the token is shown as a displayed result |
| TokenDialog.CalcDialog.DisplayValueText | library/src/main/java/com/nmaltais/calcdialog/CalcDialog.java:192 | the token is shown |
| TokenDialog.CalcDialog.FormatValue | library/src/main/java/com/nmaltais/calcdialog/CalcDialog.java:599-624 | the token is formatted in place |
| TokenDialog.CalcDialog.RemoveGroupSeparators | library/src/main/java/com/nmaltais/calcdialog/CalcDialog.java:631-639 | the grouping separators are removed in place |
| TokenDialog.CalcDialog.GetCurrentValue | library/src/main/java/com/nmaltais/calcdialog/CalcDialog.java:573-582 | returns the value the token reads as, or throws, and leaves the token in its parsed form |
| TokenDialog.CalcDialog.IsValueOutOfBounds | library/src/main/java/com/nmaltais/calcdialog/CalcDialog.java:590-593 | the answer is the shared bound check, and is the same for a value and its negation |
| TokenDialog.CalcDialog.StripTrailingZeroes | library/src/main/java/com/nmaltais/calcdialog/CalcDialog.java:875-881 | the result is the same value, already stripped |
| TokenDialog.CalcDialog.Reset | library/src/main/java/com/nmaltais/calcdialog/CalcDialog.java:483-492 | the state becomes the reset state |
| TokenDialog.CalcDialog.SetError | library/src/main/java/com/nmaltais/calcdialog/CalcDialog.java:547-552 | the state becomes the error state |
| TokenDialog.CalcDialog.DismissError | library/src/main/java/com/nmaltais/calcdialog/CalcDialog.java:558-566 | returns whether an error was set and clears it |
| TokenDialog.CalcDialog.RoundForDisplay | library/src/main/java/com/nmaltais/calcdialog/CalcDialog.java:531-532 | returns the value rounded for display, or its fault |
| TokenDialog.CalcDialog.ShowResult | library/src/main/java/com/nmaltais/calcdialog/CalcDialog.java:526-540 | the state becomes the end of calculate, or the fault it throws |
| TokenDialog.CalcDialog.DisplayResult | library/src/main/java/com/nmaltais/calcdialog/CalcDialog.java:535-538 | the result is stored, written, formatted and shown |
| TokenDialog.CalcDialog.StoreResult | library/src/main/java/com/nmaltais/calcdialog/CalcDialog.java:535 | the result and its plain text are stored |
| TokenDialog.CalcDialog.EndCalculation | library/src/main/java/com/nmaltais/calcdialog/CalcDialog.java:538-540 | the result is marked displayed and no operation is left |
| TokenDialog.CalcDialog.ApplyOperation | library/src/main/java/com/nmaltais/calcdialog/CalcDialog.java:509-523 | reports a division by zero exactly for a zero divisor under division, recording DIV_ZERO; otherwise the arithmetic's state or fault |
| TokenDialog.CalcDialog.Calculate | library/src/main/java/com/nmaltais/calcdialog/CalcDialog.java:497-541 | the state becomes calculate's, or the fault it throws |
| TokenDialog.CalcDialog.CombineOperand | library/src/main/java/com/nmaltais/calcdialog/CalcDialog.java:505-524 | when it proceeds, a result is stored with no error; otherwise it has ended calculate |
| TokenDialog.CalcDialog.TakeResultAndOperand | library/src/main/java/com/nmaltais/calcdialog/CalcDialog.java:506-507 | the stored result becomes itself or ZERO and the token's value is returned |
| TokenDialog.CalcDialog.ResultOrZero | library/src/main/java/com/nmaltais/calcdialog/CalcDialog.java:506 | a missing result becomes ZERO |
| TokenDialog.CalcDialog.DiscardShown | library/src/main/java/com/nmaltais/calcdialog/CalcDialog.java:251-254 | a displayed result or a token to be overwritten is emptied |
| TokenDialog.CalcDialog.Refresh | library/src/main/java/com/nmaltais/calcdialog/CalcDialog.java:267-269 | the token is formatted and shown and no result is displayed |
| TokenDialog.CalcDialog.OnEraseBtnClicked | library/src/main/java/com/nmaltais/calcdialog/CalcDialog.java:199-224 | the state becomes the erase listener's, or the fault it throws |
| TokenDialog.CalcDialog.EraseLast | library/src/main/java/com/nmaltais/calcdialog/CalcDialog.java:211-217 | only the token changes, by the erase edit |
| TokenDialog.CalcDialog.OnDigitBtnClicked | library/src/main/java/com/nmaltais/calcdialog/CalcDialog.java:248-270 | the state becomes the digit listener's |
| TokenDialog.CalcDialog.AppendDigit | library/src/main/java/com/nmaltais/calcdialog/CalcDialog.java:256-265 | only the token changes, by the digit edit |
| TokenDialog.CalcDialog.OnOperatorBtnClicked | library/src/main/java/com/nmaltais/calcdialog/CalcDialog.java:287-310 | the state becomes the operator listener's, or the fault it throws |
| TokenDialog.CalcDialog.TakeOperand | library/src/main/java/com/nmaltais/calcdialog/CalcDialog.java:290-301 | the pending operation is calculated or the value stored |
| TokenDialog.CalcDialog.StoreOperand | library/src/main/java/com/nmaltais/calcdialog/CalcDialog.java:294-299 | the value becomes the first operand |
| TokenDialog.CalcDialog.StoreResultValue | library/src/main/java/com/nmaltais/calcdialog/CalcDialog.java:294 | the value becomes the stored result; nothing else changes |
| TokenDialog.CalcDialog.ClearOperand | library/src/main/java/com/nmaltais/calcdialog/CalcDialog.java:295-299 | the token is emptied and formatted, and no longer shows a result |
| TokenDialog.CalcDialog.SetOperation | library/src/main/java/com/nmaltais/calcdialog/CalcDialog.java:303-309 | the operation is recorded and the token cleared when so set |
| TokenDialog.CalcDialog.OnDecimalBtnClicked | library/src/main/java/com/nmaltais/calcdialog/CalcDialog.java:320-339 | the state becomes the corrected decimal listener's |
| TokenDialog.CalcDialog.OnSignBtnClicked | library/src/main/java/com/nmaltais/calcdialog/CalcDialog.java:347-368 | the state becomes the corrected sign listener's |
| TokenDialog.CalcDialog.OnEqualBtnClicked | library/src/main/java/com/nmaltais/calcdialog/CalcDialog.java:376-379 | the state becomes the equal listener's, or the fault it throws |
| TokenDialog.CalcDialog.OnClearBtnClicked | library/src/main/java/com/nmaltais/calcdialog/CalcDialog.java:386-391 | the state becomes the clear listener's |
| TokenDialog.CalcDialog.OnCancelBtnClicked | library/src/main/java/com/nmaltais/calcdialog/CalcDialog.java:397-399 | the dialog is dismissed |
| TokenDialog.CalcDialog.OnOkBtnClicked | library/src/main/java/com/nmaltais/calcdialog/CalcDialog.java:405-442 | the state becomes the OK listener's, or the fault it throws |
| TokenDialog.CalcDialog.CheckSign | library/src/main/java/com/nmaltais/calcdialog/CalcDialog.java:413-441 | the sign check and the sending of the result |
| TokenDialog.CalcDialog.OnDismiss | library/src/main/java/com/nmaltais/calcdialog/CalcDialog.java:473-477 | the state becomes the reset state |
| TokenDialog.CalcDialog.SetValue | library/src/main/java/com/nmaltais/calcdialog/CalcDialog.java:648-654 | only the initial value changes, clamped to the bounds, and it then lies within them whenever the maximum is not negative |
| TokenDialog.CalcDialog.SetMaxValue | library/src/main/java/com/nmaltais/calcdialog/CalcDialog.java:664-677 | the maximum becomes the magnitude given and the initial value is refitted to it, after which it lies within the bounds |
| TokenDialog.CalcDialog.SetMaxDigits | library/src/main/java/com/nmaltais/calcdialog/CalcDialog.java:687-697 | IllegalArgumentException with nothing changed unless both limits are valid; otherwise exactly the two limits change |
| TokenDialog.CalcDialog.SetRoundingMode | library/src/main/java/com/nmaltais/calcdialog/CalcDialog.java:706-714 | UNNECESSARY is refused with nothing changed; any other mode is stored |
| TokenDialog.CalcDialog.SetStripTrailingZeroes | library/src/main/java/com/nmaltais/calcdialog/CalcDialog.java:724-728 | only the stripping flag changes |
| TokenDialog.CalcDialog.SetSignCanBeChanged | library/src/main/java/com/nmaltais/calcdialog/CalcDialog.java:740-750 | the flag is stored before the check, so a locked sign other than -1 or 1 throws with the flag already false; a valid locked sign is recorded; a free sign keeps the old one |
| TokenDialog.CalcDialog.SetFormatSymbols | library/src/main/java/com/nmaltais/calcdialog/CalcDialog.java:760-769 | equal separators are refused unless the decimal one is the default; otherwise exactly the two separators change |
| TokenDialog.CalcDialog.SetClearDisplayOnOperation | library/src/main/java/com/nmaltais/calcdialog/CalcDialog.java:778-782 | only the clear-on-operation flag changes |
| TokenDialog.CalcDialog.SetShowZeroWhenNoValue | library/src/main/java/com/nmaltais/calcdialog/CalcDialog.java:789-793 | only the zero-shown flag changes |
| TokenDialog.CalcDialog.SetGroupSize | library/src/main/java/com/nmaltais/calcdialog/CalcDialog.java:803-810 | a negative size is refused with nothing changed; otherwise only the group size changes |

## Left out

- `java.text.NumberFormat` rendering. The lib presenter and `Expression.format` get it as a function `Dec -> string`. The presenter records the fraction-digit count it would display with as part of the `CurrentValueShown` event. The temporarily raised minimum fraction digits and the added suffix in `updateCurrentValue` (lib CalcPresenter 466-509) are formatter tricks and are not modelled.
- Locale lookup: `getDefaultLocale` and `DecimalFormatSymbols`. The locale's separators are parameters of `Attach` and `OnCreate`.
- Saving and restoring state through `Bundle` and `Parcel` in all the presenters, settings and `Expression`: persistence only.
- The Android dialogs: layout inflation, the button wiring, theming, window sizing, `detach`, and the view calls. Each view call becomes an event in the `view` log. Each event records what it shows, not how.
- The library dialog's resource loading in `onCreate`, and its `onAttach`/`onDetach`/`onDestroyView`. The callback lookup on the target fragment or the activity is the `ValueSent` event.
- `CalcEraseButton` and `EraseButton`: touch handling and the timed repetition of erase. Every erase the button fires is one call of the erase handler.
- The demo apps, `User.java`, and both `CalcNumpadLayout` enums, which are only tables of resource ids.
- The `ExpressionTest` of the `calcdialog` module is not part of this model. It tests an `Expression` class of that module, which is not among the modelled files. The lib module's `ExpressionTest` cases appear as lemmas of `CalcExpression`.
- `new BigDecimal(String)` reads only an optional `-`, digits and at most one `.`. No exponent is read, because every string the code parses is one it wrote like that.
- A digit key is a whole number below 10, since the dialogs only have keys 0 to 9.
- When a Java handler throws, the model returns the exception. It says nothing about the fields the handler had changed before throwing: the Java code does not catch these exceptions, so the dialog does not go on.
- `maxFracDigits` of `MAX_DIGITS_UNLIMITED` is modelled as written. It goes into `setScale` and `divide` as the scale -1, which rounds to tens.
- The `calcdialog` presenter reads `settings.preventLeadingZeroes`, but the `calcdialog` `CalcSettings` shown does not declare it. The model gives the settings that field with the default `false`.
- The cancel key and `onDismiss` are modelled as separate entry points. The Android framework calls `onDismiss` after `dismiss()`, and that call order belongs to the framework and is not modelled.
- The corrected members follow the intended behaviour of the Findings, not the code as written; each finding's as-written member shows the difference. They are LibPresenter.PoppedScale, LibPresenter.NumberPopped, LibPresenter.EraseApplied, LibPresenter.ErasePressed, LibPresenter.CalcPresenter.TakeLastNumber, LibPresenter.CalcPresenter.PopNumber, LibPresenter.CalcPresenter.ApplyErase and LibPresenter.CalcPresenter.OnErasedOnce (popped scale); TokenPresenter.SignPressed, TokenPresenter.CalcPresenter.NegateShownResult and TokenPresenter.CalcPresenter.OnSignBtnClicked (sign key); TokenDialog.SignPressed and TokenDialog.CalcDialog.OnSignBtnClicked (sign listener); TokenDialog.DecimalSepPressed and TokenDialog.CalcDialog.OnDecimalBtnClicked (decimal listener); TokenDialog.Defaults and TokenDialog.CalcDialog.constructor (`signCanBeChanged`).
- Decimal.StripTrailingZeros: modelled as `BigDecimal.stripTrailingZeros` behaved before the JDK 8 fix that CalcDialogUtils.java:38-51 and CalcDialog.java:869-881 work around, so a zero keeps its scale. On JDK 8 and later a zero becomes `BigDecimal.ZERO`. The lib module calls it directly (Expression.java:102), so there a zero result such as 0 ÷ 5 keeps scale 8 in the model. On JDK 8 it would have scale 0, and popping it back by erase would give the typed scale -1 instead of 8.
- LibPresenter.CalcPresenter.OnAnswerBtnClicked: the Java `assert resultValue != null` is not required of callers. Without a result, the current value becomes no value.

## Findings

| source | as written | input that shows it | evidently intended | confidence | as-written member | corrected member |
|---|---|---|---|---|---|---|
| calcdialog/src/main/java/com/nmaltais/calcdialog/CalcPresenter.java:263-286 | while a result is displayed, the sign key negates `answerValue` as well as `resultValue`, and `answerValue` is only set by the equal key | 2, +, 3, + (the operator shows 5 as a displayed result), then the sign key: `answerValue` is null, and `negate()` throws NullPointerException | negate the answer only when there is one | not executed | TokenPresenter.SignOnFive | TokenPresenter.CalcPresenter.OnSignBtnClicked |
| library/src/main/java/com/nmaltais/calcdialog/CalcDialog.java:347-368 | the sign key negates `resultValue` whenever a result is displayed, and a token that is not "0" or "0" plus the separator passes the zero test | with stripping off, the dialog opens with no value and shows zeroString "0.00000000" as a displayed result; the sign key then calls `negate()` on a null `resultValue` | treat the zero text as zero, or negate the result only when there is one | not executed | TokenDialog.UnstrippedZeroSignAsWritten | TokenDialog.UnstrippedZeroSign |
| lib/src/main/java/com/maltaisn/calcdialog/CalcPresenter.java:179-184 | erase that pops the last number of the expression takes `currentValueScale` from `scale()`, and turns only a scale of 0 into -1 | with `isExpressionEditable` set (it defaults to false): 50 × 2 = gives the stripped result 1E+2; + puts it into the expression and leaves the value not editable; a first erase only clears the value, and a second erase pops 1E+2 back with scale -2; the decimal key then does nothing, since it acts only at scale -1 | a popped number without fraction digits gets the scale -1 | not executed | LibPresenter.PoppedHundredAsWritten | LibPresenter.PoppedScale |
| library/src/main/java/com/nmaltais/calcdialog/CalcDialog.java:320-339 | the decimal key empties a displayed result but leaves `overwriteValue` set | on the zero shown at creation, the decimal key writes "0." but the token is still to be overwritten, so 5 then replaces it and shows "5" | typing after the decimal key continues the token "0." | not executed | TokenDialog.PointThenDigitAsWritten | TokenDialog.PointThenDigit |
| library/src/main/java/com/nmaltais/calcdialog/CalcDialog.java:121-139 | the constructor sets every default but `signCanBeChanged`, which stays false, with `initialSign` 0 | OK on the displayed value 5 with the defaults shows WRONG_SIGN_NEG instead of sending 5 | the sign free to change by default, as `setSignCanBeChanged` and the later `CalcSettings` say | not executed | TokenDialog.SignLockedAsWritten | TokenDialog.DefaultSendsValue |

The generations also differ where neither is a mistake. The model keeps each one as written:

- the library erase does not turn "-0" into "0";
- the library digit key keeps a lone "0" in front of a new digit and has no `preventLeadingZeroes`;
- stripping trailing zeros is optional in the library dialog;
- the library dialog has no answer value.

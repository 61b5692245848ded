# A verified model of a React Native calculator

This project models the core of a four-function calculator app written in TypeScript with React Native. The model covers three parts:

- **The keystroke state machine of the `Calculator` component.** The component's state hooks are the entry buffer `rawValue`, the pending `firstNumber` and `operation`, the `waitingForSecondNumber` flag, the `expression` line, the calculation `history` and the history modal's visibility. Each key handler updates them.
- **The arithmetic and formatting helpers the state machine calls:** `calculate`, `calculateResult`, `isValidNumber`, `formatDisplayValue` and `formatExpressionWithSecondNumber`.
- **The expression line shown above the value:** how `CalculatorDisplay` derives it, and when it is shown at all.

The model has seven modules, one per file:

| module | file | role |
|---|---|---|
| `Wrappers` | `wrappers.dfy` | `Option`, for the source's `null` |
| `JsString` | `js_string.dfy` | the JavaScript string operations used: `endsWith`, `lastIndexOf`, `substring`, `split`, `join` and `replace(/,/g, '')` |
| `JsNumber` | `js_number.dfy` | numbers as exact reals or NaN; `parseFloat`, `parseInt`, `String(x)` and the digit grouping of `Intl.NumberFormat('en-US')` |
| `CalculatorUtils` | `calculator_utils.dfy` | the helpers of `calculatorUtils.ts` and their laws |
| `CalculatorDisplay` | `calculator_display.dfy` | `displayExpression` and the rule for showing the line |
| `Session` | `session.dfy` | the component's state as a value; one transition function per handler; keys, runs, the invariant and the behaviour of whole calculations |
| `Calculator` | `calculator.dfy` | the component as a class whose fields are the state hooks |

Each handler of the `Calculator` class is a method that updates the fields in place. Each method is proved to perform its `Session` transition and to keep the invariant. The invariant says four things:

- The first operand and the operation are set and cleared together.
- A pending operator ends the expression.
- The buffer is never empty, holds at most one '.' and holds no comma.
- Every history record's result, with its commas removed, is such a buffer too.

`displayValue` is derived rather than stored. It is `formatDisplayValue(rawValue)`, which is what the effect in the component keeps it equal to.

Three behaviours of the code shape the model:

- **An "Undefined" buffer.** `parseFloat` reads "Undefined" as NaN, and `calculate` gives NaN whenever an operand is NaN (`CalculatorUtils.Calculate`, with `Session.ParseResult` for how a result's text reads back). After equals the buffer may hold "Undefined", but the waiting flag is set, so the next digit replaces it and the next calculation is not affected. NaN is carried into a calculation whenever an operator or equals uses a buffer that does not start with a number (`Session.NaNBufferCarried`). Such buffers are "Undefined" itself, "NaN" after +/- or % on it, "Undefine" or "-" after delete, and a recalled "Undefined" record (`JsNumber.ParseFloatNoNumber`). Digits typed onto "Undefined" while not waiting are appended to it: with a number being entered, recalling an "Undefined" record and typing 7 gives "Undefined7".
- **Leading zeros.** The keys can produce "-05": toggle the sign of "5", delete once, then type "0" and "5". The invariant therefore does not exclude leading zeros.
- **Idempotence of `formatDisplayValue`.** Formatting the display again, after removing its commas, gives the same display for every text without a comma of its own (`CalculatorUtils.FormatIdempotent`). It fails for text such as "Undefined," (`CalculatorUtils.CommaBreaksIdempotence`). The invariant says that buffers never hold a comma, so the display of every reachable state is stable (`Session.DisplayIdempotent`).

## Model

| member | source | states |
|---|---|---|
| Calculator.Calculator.constructor | app/components/Calculator.tsx:20-27 | a fresh calculator is the initial state: buffer "0", no first operand or operation, not waiting, an empty expression and history, the modal closed; the invariant holds |
| Calculator.Calculator.HandleNumberPress | app/components/Calculator.tsx:59-67 | the fields after a digit press are `Session.NumberPress` of the fields before it; the invariant is kept; the waiting flag is cleared |
| Calculator.Calculator.HandleOperationPress | app/components/Calculator.tsx:69-98 | dispatches on the three cases of the handler; the new fields are `Session.OperationPress` of the old; the invariant is kept; after a first operator, or with an operation pending, the new operator is the pending one |
| Calculator.Calculator.StartOperation | app/components/Calculator.tsx:72-77 | first operator: the buffer's value becomes the first operand, the operation is set, waiting starts and the expression is "<display value> <operator>" |
| Calculator.Calculator.ChangeOperation | app/components/Calculator.tsx:78-87 | operator changed while waiting: only the operation and the expression change, the expression cut at the last occurrence of the old symbol and ended by the new one |
| Calculator.Calculator.ContinueOperation | app/components/Calculator.tsx:88-96 | operator after a second operand: the pending calculation's result text becomes the buffer and, read back, the first operand; the new operator waits |
| Calculator.Calculator.HandleEqualsPress | app/components/Calculator.tsx:100-121 | the new fields are `Session.EqualsPress` of the old; the invariant is kept; with an operation pending the history grows by exactly one record in front of the unchanged older ones; without one nothing changes |
| Calculator.Calculator.Evaluate | app/components/Calculator.tsx:103-120 | equals with a pending operation: result in the buffer, the full calculation in the expression, a new record at the head of the history, operand and operation cleared, waiting |
| Calculator.Calculator.HandleClearPress | app/components/Calculator.tsx:123-129 | clear: the state is the initial one with the history and its visibility kept |
| Calculator.Calculator.HandleDecimalPress | app/components/Calculator.tsx:131-141 | decimal point: "0." while waiting, otherwise a '.' appended only when there is none; afterwards the buffer holds a '.'; the invariant is kept |
| Calculator.Calculator.HandleToggleSignPress | app/components/Calculator.tsx:143-145 | the buffer becomes `String` of its value negated; the invariant is kept |
| Calculator.Calculator.HandlePercentPress | app/components/Calculator.tsx:147-149 | the buffer becomes `String` of its value divided by 100; the invariant is kept |
| Calculator.Calculator.HandleDeletePress | app/components/Calculator.tsx:151-153 | the last character is dropped, or the buffer becomes "0" from one character; the invariant is kept |
| Calculator.Calculator.ToggleHistory | app/components/Calculator.tsx:155-157 | the modal's visibility flips and nothing else changes |
| Calculator.Calculator.HandleHistoryItemPress | app/components/Calculator.tsx:159-162 | the record's result without commas becomes the buffer and the modal closes; nothing else changes; the invariant is kept |
| Calculator.Calculator.HandleClearHistory | app/components/Calculator.tsx:164-167 | the history becomes empty and nothing else changes |
| Calculator.Calculator.Commit | app/components/Calculator.tsx:107-120 | the values a handler computes are written to all the hooks at once, as React applies a handler's setters together |
| Session.Init | app/components/Calculator.tsx:20-27 | definition: the hook defaults, buffer "0", no first operand or operation, not waiting, an empty expression and history, the modal closed; `Session.InitInv` and `Session.ClearResets` state its properties |
| Session.DisplayValue | app/components/Calculator.tsx:40-46 | definition: `displayValue` is `formatDisplayValue` of the buffer, which the effect keeps it equal to; `Session.DisplayIdempotent` states its stability |
| Session.ExpressionLine | app/components/CalculatorDisplay.tsx:34-47 | definition: the line `CalculatorDisplay` derives from the expression, the operation and the value; `Session.ExpressionLineWithoutAppend` states what it is in reachable states |
| Session.NumberPress | app/components/Calculator.tsx:59-67 | definition: a digit starts a new number while waiting and clears the flag, replaces a buffer of "0", and is appended otherwise; `Session.AppendDigits`, `Session.TypeNumber` and `Session.DeleteUndoesDigit` state its properties |
| Session.DecimalPress | app/components/Calculator.tsx:131-141 | definition: "0." while waiting, otherwise a '.' appended only when there is none; `Session.DecimalPressKeepsInv` and `Session.DeleteUndoesDecimal` state its properties |
| Session.OperationPress | app/components/Calculator.tsx:69-98 | definition: dispatches on the three cases of the handler, and does nothing with a first operand but no operation; `Session.OperationPressKeepsInv` and the operator lemmas state its properties |
| Session.StartOperation | app/components/Calculator.tsx:72-77 | definition: the buffer read by `parseFloat` becomes the first operand, the operator waits and the expression is "<display value> <symbol>"; `Session.FirstOperator` states it as a key press |
| Session.ChangeOperation | app/components/Calculator.tsx:78-87 | definition: the expression cut at the last occurrence of the old symbol and ended by the new one; `Session.ReplaceOperator` and `Session.ReplaceOperatorTwice` state its properties |
| Session.ContinueOperation | app/components/Calculator.tsx:88-96 | definition: the pending calculation's text becomes the buffer and, read back, the first operand; the new operator waits; `Session.ChainLeftToRight` states its properties |
| Session.EqualsExpression | app/components/Calculator.tsx:105 | definition: both operands written by `String`, formatted, around the symbol, followed by " =" |
| Session.EqualsPress | app/components/Calculator.tsx:100-121 | definition: nothing changes without a first operand and an operation, otherwise `Session.Evaluate`; `Session.EqualsRecords` and `Session.EqualsWithoutOperation` state its properties |
| Session.Evaluate | app/components/Calculator.tsx:103-120 | definition: the result text becomes the buffer, the full calculation the expression and a new record the head of the history; operand and operation cleared; waiting |
| Session.ClearPress | app/components/Calculator.tsx:123-129 | definition: the five reset hooks, history and modal kept; `Session.ClearResets` states its properties |
| Session.DeletePress | app/components/Calculator.tsx:151-153 | definition: the last character dropped, or "0" from a single character; `Session.DeletePressKeepsInv`, `Session.DeleteUndoesDigit` and `Session.DeleteUndoesDecimal` state its properties |
| Session.ToggleSignPress | app/components/Calculator.tsx:143-145 | definition: the buffer read, negated and written back by `String`; `Session.ToggleSignTwice` states its property |
| Session.PercentPress | app/components/Calculator.tsx:147-149 | definition: the buffer read, divided by 100 and written back by `String`; `Session.PercentValue` states its property |
| Session.ToggleHistory | app/components/Calculator.tsx:155-157 | definition: the modal's visibility flips |
| Session.HistoryItemPress | app/components/Calculator.tsx:159-162 | definition: the record's result without commas becomes the buffer and the modal closes; `Session.RecallLatest` states its property |
| Session.ClearHistory | app/components/Calculator.tsx:164-167 | definition: the history becomes empty |
| Session.Step | app/components/Calculator.tsx:59-167 | definition: each key runs its handler's transition; `Session.StepKeepsInv` states that it keeps the invariant |
| Session.Inv | app/components/Calculator.tsx:18-167 | definition of the invariant: operand and operation set together, a pending symbol ending the expression, a non-empty buffer with at most one '.' and no comma, and every record's result well formed; `Session.ReachableInv` proves it of every reachable state |
| Session.InitInv | app/components/Calculator.tsx:20-27 | the initial state satisfies the invariant |
| Session.StepKeepsInv | app/components/Calculator.tsx:59-167 | every key the user can press keeps the invariant |
| Session.NumberPressKeepsInv | app/components/Calculator.tsx:59-66 | a digit never adds a second '.' nor empties the buffer |
| Session.DecimalPressKeepsInv | app/components/Calculator.tsx:131-141 | the decimal point never makes a second '.' |
| Session.OperationPressKeepsInv | app/components/Calculator.tsx:69-98 | every operator branch sets operand and operation together and leaves the operator at the end of the expression |
| Session.EqualsPressKeepsInv | app/components/Calculator.tsx:100-121 | equals clears operand and operation together, writes a well-formed buffer and records a result that reads back as one |
| Session.DeletePressKeepsInv | app/components/Calculator.tsx:151-153 | delete never leaves an empty buffer nor adds a '.' |
| Session.RunKeepsInv | app/components/Calculator.tsx:59-167 | any sequence of offered keys keeps the invariant |
| Session.ReachableInv | app/components/Calculator.tsx:18-167 | every state reachable from a fresh calculator satisfies the invariant: operand and operation paired, buffer never empty, at most one '.' |
| Session.PrependHistoryOk | app/components/Calculator.tsx:117 | prepending a well-formed record keeps every record well formed |
| Session.ShowBufferOk | app/components/Calculator.tsx:143-149 | `String` of any number is a well-formed buffer |
| Session.ResultBufferOk | app/utils/calculatorUtils.ts:61-75 | `calculateResult` always writes a well-formed buffer |
| Session.RecordedResult | app/components/Calculator.tsx:113 | a record's formatted result, with its commas removed, is exactly the text `calculateResult` wrote |
| Session.WordUnchanged | app/utils/calculatorUtils.ts:38-48 | a word such as "Undefined" comes back unchanged from display and comma removal |
| Session.AppendDigits | app/components/Calculator.tsx:59-66 | digits typed onto a number being entered are appended to it in order |
| Session.TypeNumber | app/components/Calculator.tsx:59-66 | a number typed while waiting or over "0" becomes exactly the buffer, reads back as its value and ends the waiting |
| Session.TypeDigit | app/components/Calculator.tsx:59-66 | a single digit typed while waiting or over "0" becomes the whole buffer and reads as its value |
| Session.ParseDigits | app/components/Calculator.tsx:70 | `parseFloat` reads a run of digits as the number it denotes |
| Session.DeleteUndoesDigit | app/components/Calculator.tsx:151-153 | delete takes back a digit typed onto a number being entered |
| Session.DeleteUndoesDecimal | app/components/Calculator.tsx:151-153 | delete takes back a '.' typed onto a number without one |
| Session.ParseResult | app/components/Calculator.tsx:91 | the result text reads back as the result truncated to 16 fraction digits, and as NaN for "Undefined" |
| Session.FirstOperator | app/components/Calculator.tsx:72-77 | the first operator stores the buffer's value, sets the operation and waiting, keeps the buffer, and the expression line reads "<display value> <operator>" |
| Session.ReplaceOperator | app/components/Calculator.tsx:78-87 | while waiting, an operator replaces exactly the final symbol of the expression and changes nothing but the operation |
| Session.ReplaceOperatorTwice | app/components/Calculator.tsx:78-87 | changing the operator twice is changing it once, to the second one |
| Session.ChainLeftToRight | app/components/Calculator.tsx:88-96 | an operator after a second operand evaluates the pending operation on the two operands; the result becomes both buffer and first operand; the new operator waits; the expression is the formatted result and the operator; the history is untouched |
| Session.EqualsRecords | app/components/Calculator.tsx:100-121 | equals records one item in front of the older ones; the item's expression is "<a> <op> <b> =" with both operands formatted and its result the formatted buffer; the buffer reads back as the result; the operation is done; the line shows the expression |
| Session.EqualsWithoutOperation | app/components/Calculator.tsx:101 | equals without a pending operation changes nothing |
| Session.RecallLatest | app/components/Calculator.tsx:159-162 | recalling the record an equals press just made puts its exact result text back in the buffer |
| Session.ClearResets | app/components/Calculator.tsx:123-129 | clear gives the initial state with the history kept, whatever the state before; clearing twice is clearing once; the invariant is kept |
| Session.ToggleSignTwice | app/components/Calculator.tsx:143-145 | toggling the sign twice leaves the buffer as `String` writes its value |
| Session.PercentValue | app/components/Calculator.tsx:147-149 | percent divides the buffer's value by 100, to 16 fraction digits |
| Session.ExpressionLineWithoutAppend | app/components/CalculatorDisplay.tsx:37-42 | in every reachable state the pending operator already ends the expression, so the line is the expression, or the value when the expression is empty |
| Session.DisplayIdempotent | app/components/Calculator.tsx:40-46 | in every state satisfying the invariant, formatting the shown value again after removing its commas shows the same text |
| Session.ExpressionLineShownRule | app/components/CalculatorDisplay.tsx:75 | in every state satisfying the invariant, the expression line is rendered exactly when the expression is not empty and differs from the shown value |
| Session.NaNBufferCarried | app/components/Calculator.tsx:70-107 | with a buffer read as NaN, a first operator stores NaN as the first operand, and an operator or equals after a second operand writes "Undefined" |
| Session.OperandThenOperator | app/components/Calculator.tsx:88-96 | a digit and an operator, while waiting, evaluate the pending operation on that digit and leave the new operator pending |
| Session.OperandThenEquals | app/components/Calculator.tsx:100-121 | a digit and equals, while waiting, leave the result of the pending operation in the buffer and add one record |
| Session.PendingFold | app/components/Calculator.tsx:88-121 | from a pending operation, operands and operators followed by equals leave the left fold of the operators in the buffer and add one record |
| Session.LeftToRight | app/components/Calculator.tsx:88-121 | a calculation typed from the start, `a o1 b1 ... =`, leaves in the buffer the left-to-right fold of the operators over the operands, without precedence, and records one item |
| Session.NoPrecedence | app/components/Calculator.tsx:88-96 | typing `a + b × c =` gives (a + b) × c, not a + b × c |
| Session.SumThenProduct | app/utils/calculatorUtils.ts:12-17 | folding "+ b" and then "× c" over a gives exactly (a + b) × c |
| Session.RoundedSum | app/utils/calculatorUtils.ts:12-13 | the sum of two integers is written and read back exactly |
| Session.RoundedProduct | app/utils/calculatorUtils.ts:16-17 | the product of two integers is written and read back exactly |
| CalculatorUtils.Remainder | app/utils/calculatorUtils.ts:20-21 | definition: JavaScript's `%` on finite operands, the dividend minus the divisor times the truncated quotient; `CalculatorUtils.RemainderLaw` states its law |
| CalculatorUtils.IsValidNumber | app/utils/calculatorUtils.ts:54-56 | definition: `parseFloat` finds a finite number; `CalculatorUtils.CalculateResultValid` states its relation to `calculateResult` |
| CalculatorUtils.FormatIntegerPart | app/utils/calculatorUtils.ts:38-46 | definition: the first piece Intl-formatted when `parseInt` reads an integer from it, unchanged otherwise; `CalculatorUtils.FormatInteger` and `CalculatorUtils.FormatNonNumeric` state both cases |
| CalculatorUtils.FormatDisplayValue | app/utils/calculatorUtils.ts:30-49 | definition: "0" as it is; otherwise leading zeros stripped, the text split at '.', the first piece formatted and the pieces joined; `CalculatorUtils.FormatIdempotent`, `CalculatorUtils.FormatKeepsFraction` and `CalculatorUtils.FormatShowRoundTrip` state its properties |
| CalculatorUtils.FormatExpressionWithSecondNumber | app/utils/calculatorUtils.ts:80-91 | definition: the first operand without an operation, otherwise both operands formatted around the symbol; `CalculatorUtils.ExpressionReadsBack` states its inverse |
| CalculatorUtils.Symbol | app/utils/calculatorUtils.ts:1 | an operator symbol is never a digit, '.', ',', ' ' or '=' |
| CalculatorUtils.SymbolInjective | app/utils/calculatorUtils.ts:1 | different operators have different symbols |
| CalculatorUtils.Calculate | app/utils/calculatorUtils.ts:6-25 | no operation gives the second operand; otherwise the result is NaN exactly when an operand is NaN or the divisor of `÷` or `%` is 0 |
| CalculatorUtils.InverseOperations | app/utils/calculatorUtils.ts:12-19 | `-` undoes `+`, and `÷` undoes `×` by a non-zero number |
| CalculatorUtils.DivideByZero | app/utils/calculatorUtils.ts:18-19 | division by zero is NaN, so `calculateResult` says "Undefined" |
| CalculatorUtils.RemainderLaw | app/utils/calculatorUtils.ts:20-21 | `%` is the truncated remainder: dividend = divisor × truncated quotient + remainder, with the dividend's sign and smaller than the divisor in magnitude |
| CalculatorUtils.Trunc | app/utils/calculatorUtils.ts:21 | rounding toward zero stays within one of the value, on the side of zero |
| CalculatorUtils.CalculateResult | app/utils/calculatorUtils.ts:61-75 | "Undefined" exactly when `calculate` gives NaN; otherwise text that reads back as the result |
| CalculatorUtils.CalculateResultValid | app/utils/calculatorUtils.ts:54-56 | `isValidNumber` accepts the text of `calculateResult` exactly when the result is a number |
| CalculatorUtils.StripLeadingZeros | app/utils/calculatorUtils.ts:34 | only zeros are removed from the front; what is left does not start with a zero followed by a digit, and starts with a digit when anything was removed |
| CalculatorUtils.StripKeepsValue | app/utils/calculatorUtils.ts:34 | removing leading zeros does not change what `parseFloat` reads |
| CalculatorUtils.FormatKeepsFraction | app/utils/calculatorUtils.ts:36-48 | everything from the first '.' on passes through unchanged; only the text before it is reformatted |
| CalculatorUtils.FormatNonNumeric | app/utils/calculatorUtils.ts:38-48 | when no integer can be read before the first '.', the value is only stripped of leading zeros |
| CalculatorUtils.FormatUnsignedNonDigit | app/utils/calculatorUtils.ts:30-48 | text starting with neither a digit nor a sign, such as "Undefined" or "NaN", is displayed as it is |
| CalculatorUtils.FormatUndefined | app/utils/calculatorUtils.ts:30-48 | "Undefined" is displayed as it is |
| CalculatorUtils.FormatDecimalText | app/utils/calculatorUtils.ts:36-48 | decimal text gets its integer digits grouped by commas and nothing else changed |
| CalculatorUtils.RegroupedText | app/utils/calculatorUtils.ts:36-48 | a sign, canonical digits and anything from a '.' on are displayed as the sign, the grouped digits and the rest unchanged |
| CalculatorUtils.FormatInteger | app/utils/calculatorUtils.ts:39-44 | an integer is displayed as its digits in comma groups of three |
| CalculatorUtils.FormatShowRoundTrip | app/utils/calculatorUtils.ts:30-48 | removing the commas from the display of a number's text gives that text back |
| CalculatorUtils.FormatIdempotent | app/utils/calculatorUtils.ts:30-49 | for text without a comma, formatting the display again after removing its commas gives the same display |
| CalculatorUtils.CommaBreaksIdempotence | app/utils/calculatorUtils.ts:30-49 | a word followed by a comma is a counterexample to that idempotence |
| CalculatorUtils.ExpressionWithSecondNumber | app/utils/calculatorUtils.ts:80-91 | without an operation the first operand is returned as given; with one, the space-separated pieces are those of both formatted operands around the operator symbol |
| CalculatorUtils.FormatShowReadsBack | app/utils/calculatorUtils.ts:30-48 | the display of any number's text holds no space, and without its commas it is that text again |
| CalculatorUtils.ExpressionReadsBack | app/utils/calculatorUtils.ts:80-91 | the line for two numbers splits at its spaces into exactly three pieces: the first operand, the symbol and the second operand, each operand without its commas being the text `String` wrote for it |
| CalculatorDisplay.DisplayExpression | app/components/CalculatorDisplay.tsx:31-47 | definition: a finished calculation verbatim, an empty expression falling back to the value, otherwise the expression with the pending symbol appended when it is not at the end; `CalculatorDisplay.AppendsOnlyMissingOperator` and `CalculatorDisplay.DisplayExpressionStable` state its properties |
| CalculatorDisplay.ExpressionLineShown | app/components/CalculatorDisplay.tsx:75 | definition: the line is rendered only when it differs from the value |
| CalculatorDisplay.AppendsOnlyMissingOperator | app/components/CalculatorDisplay.tsx:34-47 | the line is the expression, or the value when the expression is empty, except in one case: an unfinished expression whose pending operator is not at its end gets " <operator>" appended, after which it ends with the operator |
| CalculatorDisplay.DisplayExpressionStable | app/components/CalculatorDisplay.tsx:34-47 | deriving the line from a derived line gives it again |
| JsNumber.ParseFloat | app/components/Calculator.tsx:70 | definition: an optional sign, a digit run and an optional '.' with a digit run, at least one digit, else NaN; `JsNumber.ParseDecimal` and `JsNumber.ShowRoundTrip` state its properties |
| JsNumber.ParseInt | app/utils/calculatorUtils.ts:39 | definition: an optional sign and a digit run, else no integer; the sign of "-0" is kept; `CalculatorUtils.FormatInteger` states its use |
| JsNumber.IntlFormat | app/utils/calculatorUtils.ts:41-44 | definition: the sign, then the digits of the magnitude in comma groups; `JsNumber.GroupShape` and `JsNumber.GroupRemoveCommas` state its properties |
| JsNumber.Show | app/utils/calculatorUtils.ts:74 | definition: `String(x)`, the decimal value truncated to 16 fraction digits, or "NaN"; `JsNumber.ShowRoundTrip` states its inverse |
| JsString.EndsWith | app/components/CalculatorDisplay.tsx:39 | definition: `endsWith`, the text's last characters equal to the suffix |
| JsString.SubstringTo | app/components/Calculator.tsx:85 | definition: `substring(0, end)`, with a negative end read as 0 |
| JsString.Join | app/utils/calculatorUtils.ts:48 | definition: `join`, the pieces with the separator between them; `JsString.JoinSplit` states its inverse |
| JsString.LastIndexOf | app/components/Calculator.tsx:85 | -1 exactly when the character is absent; otherwise an index holding it with no occurrence after it |
| JsString.RemoveAll | app/components/Calculator.tsx:160 | no occurrence of the character is left, exactly its occurrences are removed, and text without it is unchanged |
| JsString.RemoveAllKeepsCount | app/components/Calculator.tsx:160 | removing one character keeps the count of every other character |
| JsString.Split | app/utils/calculatorUtils.ts:36 | there is one more piece than there are separators |
| JsString.SplitPiecesFree | app/utils/calculatorUtils.ts:36 | no piece holds the separator |
| JsString.JoinSplit | app/utils/calculatorUtils.ts:36-48 | joining the pieces with the separator gives the text back |
| JsString.SplitHead | app/utils/calculatorUtils.ts:36-38 | the first piece is the text before the first separator |
| JsNumber.Group | app/utils/calculatorUtils.ts:41-44 | grouping leaves up to three digits unchanged and never empties a number |
| JsNumber.GroupRemoveCommas | app/utils/calculatorUtils.ts:41-44 | grouping adds nothing but commas |
| JsNumber.GroupShape | app/utils/calculatorUtils.ts:41-44 | the first group holds one to three digits, every later group exactly three, and there are as many groups as three-digit groups cover the digits |
| JsNumber.GroupChars | app/utils/calculatorUtils.ts:41-44 | grouped text holds only digits and commas |
| JsNumber.NatToDigits | app/utils/calculatorUtils.ts:41-44 | canonical digits: never empty, denote the number, and start with '0' only for 0 |
| JsNumber.ShowRoundTrip | app/utils/calculatorUtils.ts:74 | `parseFloat(String(x))` is x truncated to the written fraction digits |
| JsNumber.ShowRealShape | app/utils/calculatorUtils.ts:74 | `String(x)` starts with '-' or a digit, holds only digits, '-' and '.', and at most one '.' |
| JsNumber.ShowHasNoComma | app/utils/calculatorUtils.ts:74 | `String(x)` never writes a comma |
| JsNumber.ShowNegateTwice | app/components/Calculator.tsx:144 | negating through the text twice gives the text of the value |
| JsNumber.ParseDecimal | app/components/Calculator.tsx:70 | `parseFloat` reads plain decimal text as its value |
| JsNumber.ParseFloatNoNumber | app/components/Calculator.tsx:70 | text that, after its sign, starts with neither a digit nor '.' reads as NaN, as "Undefined", "NaN", "Undefine" and "-" do |
| JsNumber.ShowInteger | app/components/Calculator.tsx:105 | an integer is written as its plain decimal digits |

## Left out

- Persistence of the history is not modelled. This covers loading it on mount (`app/components/Calculator.tsx:30-38`), the debounced save (`app/components/Calculator.tsx:49-56`) and the stored copy cleared by `handleClearHistory`. They are asynchronous storage I/O and a timer. The history is a plain sequence that starts empty.
- `generateId` and `new Date()` are not modelled. They read the clock and random numbers. Their values are parameters of the equals key (`id`, `timestamp`).
- React's scheduling is not modelled: setter batching, updater functions and stale closures. Each handler is one atomic transition on the current state. `displayValue` is derived from the buffer instead of being kept in step by the effect at `app/components/Calculator.tsx:41-46`.
- JsNumber.Num: numbers are exact reals or NaN. IEEE-754 rounding, overflow to Infinity and the sign of zero are not modelled, except for the sign `parseInt` reads in "-0".
- JsNumber.Show: `String(x)` is the exact decimal value truncated to 16 fraction digits, never the shortest round-trip text nor an exponent form.
- Session.RecordedResult: holds of the model's `String`, which never writes an exponent form. JavaScript writes one for results the keys can reach, and then the property fails: a result of 1e21 is written "1e+21", and `formatDisplayValue` records it as "1", because `parseInt("1e+21")` is 1.
- Session.RecallLatest: fails in the program for the same reason: recalling the record of a result of 1e21 puts "1" in the buffer.
- CalculatorUtils.FormatShowRoundTrip: fails in the program for exponent forms: `0 . 0 0 0 0 5 %` makes the buffer `(0.00005/100).toString()`, which is "5e-7", and `formatDisplayValue` shows it as "5", because `parseInt("5e-7")` is 5.
- CalculatorUtils.FormatShowReadsBack: holds only of the model's `String`, for the same reason as `CalculatorUtils.FormatShowRoundTrip`.
- CalculatorUtils.ExpressionReadsBack: holds only of the model's `String`, for the same reason as `CalculatorUtils.FormatShowRoundTrip`.
- JsNumber.ParseFloat: no leading whitespace, exponents or "Infinity".
- JsNumber.IntlFormat: the exact digits of the integer are grouped. The loss of precision above 2^53 is not modelled.
- CalculatorUtils.CalculateResult: the non-finite branch is reached only through NaN, because results never overflow.
- Session.LeftToRight: the operands of the calculation are single digits. `Session.TypeNumber` and `Session.AppendDigits` cover typing longer numbers.
- Session.NoPrecedence: the operands are single digits.
- The `%` operator of `calculate` is modelled, but no key sends it: the keypad's `%` key is the percent key (`app/components/CalculatorKeypad.tsx`, which is not part of this model).
- `handleOperationPress(null)` is not modelled: no key sends a null operation.
- `isValidNumber` and `formatExpressionWithSecondNumber` are modelled, but the component never calls either: it imports only `OperationType`, `formatDisplayValue` and `calculateResult` (`app/components/Calculator.tsx:5`).
- The rendering of the component and the display, the keypad, the history list, theming and animation are not part of this model.

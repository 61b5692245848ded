/** The calculator session as values: the state the component keeps, one transition per key
    handler, and what every sequence of key presses preserves. The class in `Calculator` is
    proved to perform exactly these transitions. */
module Session {
  import opened Wrappers
  import opened JsString
  import opened JsNumber
  import opened CalculatorUtils
  import opened CalculatorDisplay

  /** A calculation history record. `id` and `timestamp` come from the clock and random numbers,
      so they are given to the equals transition from outside. */
  datatype HistoryItem = HistoryItem(id: string, expression: string, result: string, timestamp: int)

  /** The component's state; `displayValue` is derived from `rawValue` (see `DisplayValue`). */
  datatype State = State(
    rawValue: string,
    firstNumber: Option<Num>,
    operation: Option<Op>,
    waitingForSecondNumber: bool,
    expression: string,
    history: seq<HistoryItem>,
    historyVisible: bool)

  /** The state of a freshly mounted calculator, before any stored history is loaded. */
  function Init(): State
  {
    State("0", None, None, false, "", [], false)
  }

  /** The value shown in large type: the buffer formatted. */
  function DisplayValue(s: State): string
  {
    FormatDisplayValue(s.rawValue)
  }

  /** The expression line derived for the current state. */
  function ExpressionLine(s: State): string
  {
    DisplayExpression(s.expression, s.operation, DisplayValue(s))
  }

  // ---------------------------------------------------------------------------------------------
  // One transition per handler

  /** `handleNumberPress(number)`: while waiting the digit starts a new number; a buffer of "0"
      is replaced; anything else is extended. */
  function NumberPress(s: State, number: char): State
    requires IsDigit(number)
  {
    if s.waitingForSecondNumber then s.(rawValue := [number], waitingForSecondNumber := false)
    else s.(rawValue := if s.rawValue == "0" then [number] else s.rawValue + [number])
  }

  /** `handleDecimalPress`: while waiting a new "0." is started; otherwise a '.' is appended
      unless the buffer has one. */
  function DecimalPress(s: State): State
  {
    if s.waitingForSecondNumber then s.(rawValue := "0.", waitingForSecondNumber := false)
    else if '.' !in s.rawValue then s.(rawValue := s.rawValue + ".")
    else s
  }

  /** `handleOperationPress(next)`: the first operator stores the buffer as the first operand;
      another operator while waiting replaces the pending one in the expression; an operator after
      a second operand evaluates the pending operation first. With a first operand and no
      operation nothing happens. */
  function OperationPress(s: State, next: Op): State
  {
    if s.firstNumber.None? then StartOperation(s, next)
    else if s.operation.Some? then
      if s.waitingForSecondNumber then ChangeOperation(s, next) else ContinueOperation(s, next)
    else s
  }

  /** The first operator: the buffer becomes the first operand, shown with the operator. */
  function StartOperation(s: State, next: Op): State
  {
    s.(firstNumber := Some(ParseFloat(s.rawValue)), operation := Some(next), waitingForSecondNumber := true,
       expression := DisplayValue(s) + " " + [Symbol(next)])
  }

  /** Another operator before the second operand: the expression is cut at the last occurrence
      of the pending operator's symbol and the new symbol put there. */
  function ChangeOperation(s: State, next: Op): State
    requires s.operation.Some?
  {
    var cut := LastIndexOf(s.expression, Symbol(s.operation.value));
    s.(operation := Some(next), expression := SubstringTo(s.expression, cut) + [Symbol(next)])
  }

  /** An operator after the second operand: the pending operation is evaluated, its result text
      becomes the buffer and (read back) the first operand, and the new operator waits. */
  function ContinueOperation(s: State, next: Op): State
    requires s.firstNumber.Some?
  {
    var result := CalculateResult(s.firstNumber.value, ParseFloat(s.rawValue), s.operation);
    s.(firstNumber := Some(ParseFloat(result)), operation := Some(next), rawValue := result,
       waitingForSecondNumber := true, expression := FormatDisplayValue(result) + " " + [Symbol(next)])
  }

  /** The expression an equals press records: both operands as `String` writes them, formatted,
      around the operator, then " =". */
  function EqualsExpression(first: Num, operation: Op, current: Num): string
  {
    FormatDisplayValue(Show(first)) + " " + [Symbol(operation)] + " " + FormatDisplayValue(Show(current)) + " ="
  }

  /** `handleEqualsPress`, with `id` and `timestamp` standing for `generateId()` and `new Date()`. */
  function EqualsPress(s: State, id: string, timestamp: int): State
  {
    if s.firstNumber.None? || s.operation.None? then s else Evaluate(s, id, timestamp)
  }

  /** Equals with a pending operation: the result becomes the buffer, the calculation the
      expression and a new record the head of the history; the operation is done. */
  function Evaluate(s: State, id: string, timestamp: int): State
    requires s.firstNumber.Some? && s.operation.Some?
  {
    var currentValue := ParseFloat(s.rawValue);
    var result := CalculateResult(s.firstNumber.value, currentValue, s.operation);
    var fullExpression := EqualsExpression(s.firstNumber.value, s.operation.value, currentValue);
    var item := HistoryItem(id, fullExpression, FormatDisplayValue(result), timestamp);
    s.(rawValue := result, expression := fullExpression, history := [item] + s.history,
       firstNumber := None, operation := None, waitingForSecondNumber := true)
  }

  /** `handleClearPress`: everything but the history and its visibility back to the start. */
  function ClearPress(s: State): State
  {
    s.(rawValue := "0", firstNumber := None, operation := None, waitingForSecondNumber := false,
       expression := "")
  }

  /** `handleDeletePress`: drop the last character, or go back to "0" from a single character. */
  function DeletePress(s: State): State
  {
    s.(rawValue := if |s.rawValue| > 1 then s.rawValue[..|s.rawValue| - 1] else "0")
  }

  /** `handleToggleSignPress`: the buffer read, negated and written back. */
  function ToggleSignPress(s: State): State
  {
    s.(rawValue := Show(Negate(ParseFloat(s.rawValue))))
  }

  /** `handlePercentPress`: the buffer read, divided by 100 and written back. */
  function PercentPress(s: State): State
  {
    s.(rawValue := Show(Hundredth(ParseFloat(s.rawValue))))
  }

  /** `toggleHistory`. */
  function ToggleHistory(s: State): State
  {
    s.(historyVisible := !s.historyVisible)
  }

  /** `handleHistoryItemPress(item)`: the record's result, without commas, becomes the buffer and
      the history closes; nothing else changes. */
  function HistoryItemPress(s: State, item: HistoryItem): State
  {
    s.(rawValue := RemoveAll(item.result, ','), historyVisible := false)
  }

  /** `handleClearHistory` (the stored copy is not part of this model). */
  function ClearHistory(s: State): State
  {
    s.(history := [])
  }

  // ---------------------------------------------------------------------------------------------
  // Keys and runs

  /** The events the keypad, the history list and the settings menu deliver. */
  datatype Key =
    | Digit(number: char)
    | DecimalPoint
    | Operator(op: Op)
    | EqualsKey(id: string, timestamp: int)
    | ClearKey
    | DeleteKey
    | ToggleSignKey
    | PercentKey
    | Recall(item: HistoryItem)
    | ClearHistoryKey
    | ToggleHistoryKey

  /** A key the user can press in state `s`: the keypad sends single digits, and the history
      list offers only records of the history. The set is larger than the keypad's: it offers
      `Operator(Modulo)`, which no key sends, so every property over offered keys covers `%` too. */
  predicate Offered(s: State, k: Key)
  {
    match k
    case Digit(n) => IsDigit(n)
    case Recall(item) => item in s.history
    case _ => true
  }

  function Step(s: State, k: Key): State
    requires k.Digit? ==> IsDigit(k.number)
  {
    match k
    case Digit(n) => NumberPress(s, n)
    case DecimalPoint => DecimalPress(s)
    case Operator(op) => OperationPress(s, op)
    case EqualsKey(id, timestamp) => EqualsPress(s, id, timestamp)
    case ClearKey => ClearPress(s)
    case DeleteKey => DeletePress(s)
    case ToggleSignKey => ToggleSignPress(s)
    case PercentKey => PercentPress(s)
    case Recall(item) => HistoryItemPress(s, item)
    case ClearHistoryKey => ClearHistory(s)
    case ToggleHistoryKey => ToggleHistory(s)
  }

  /** Every key of `keys` is offered in the state it is pressed in. */
  predicate AllOffered(s: State, keys: seq<Key>)
    decreases |keys|
  {
    keys == [] || (Offered(s, keys[0]) && AllOffered(Step(s, keys[0]), keys[1..]))
  }

  function Run(s: State, keys: seq<Key>): State
    requires AllOffered(s, keys)
    decreases |keys|
  {
    if keys == [] then s else Run(Step(s, keys[0]), keys[1..])
  }

  /** Pressing the digit keys of `ds` one after another. */
  function DigitKeys(ds: string): (keys: seq<Key>)
    requires AllDigits(ds)
    ensures |keys| == |ds|
  {
    if ds == [] then [] else [Digit(ds[0])] + DigitKeys(ds[1..])
  }

  // ---------------------------------------------------------------------------------------------
  // The invariant

  /** A buffer is never empty, holds at most one '.' and never a comma. */
  predicate BufferOk(raw: string)
  {
    |raw| > 0 && Count(raw, '.') <= 1 && ',' !in raw
  }

  /** What every reachable state satisfies: the first operand and the operation are set and
      cleared together; a pending operator ends the expression; the buffer is well formed; and so
      is every record's result once its commas are removed. */
  predicate Inv(s: State)
  {
    && (s.firstNumber.Some? <==> s.operation.Some?)
    && (s.operation.Some? ==> EndsWith(s.expression, [Symbol(s.operation.value)]))
    && BufferOk(s.rawValue)
    && HistoryOk(s.history)
  }

  /** Every record's result, with its commas removed, is a well-formed buffer. */
  predicate HistoryOk(history: seq<HistoryItem>)
  {
    forall i :: 0 <= i < |history| ==> BufferOk(RemoveAll(history[i].result, ','))
  }

  lemma PrependHistoryOk(item: HistoryItem, history: seq<HistoryItem>)
    requires BufferOk(RemoveAll(item.result, ',')) && HistoryOk(history)
    ensures HistoryOk([item] + history)
  {
    var h := [item] + history;
    forall i | 0 <= i < |h|
      ensures BufferOk(RemoveAll(h[i].result, ','))
    {
      if i > 0 {
        assert h[i] == history[i - 1];
      }
    }
  }

  lemma InitInv()
    ensures Inv(Init())
  {
    assert Count("0", '.') == 0;
  }

  /** `String` writes a well-formed buffer. */
  lemma ShowBufferOk(x: Num)
    ensures BufferOk(Show(x))
  {
    ShowHasNoComma(x);
    if x.Fin? {
      ShowRealShape(x.value, FractionDigits);
    } else {
      assert Count("NaN", '.') == 0;
    }
  }

  /** `calculateResult` writes a well-formed buffer. */
  lemma ResultBufferOk(a: Num, b: Num, op: Option<Op>)
    ensures BufferOk(CalculateResult(a, b, op))
  {
    if Calculate(a, b, op).NaN? {
      assert '.' !in "Undefined" && ',' !in "Undefined";
    } else {
      ShowBufferOk(Calculate(a, b, op));
    }
  }

  /** A record's result, with its commas removed, is exactly the text `calculateResult` wrote. */
  lemma RecordedResult(a: Num, b: Num, op: Option<Op>)
    ensures RemoveAll(FormatDisplayValue(CalculateResult(a, b, op)), ',') == CalculateResult(a, b, op)
  {
    var x := Calculate(a, b, op);
    if x.NaN? {
      var u := CalculateResult(a, b, op);
      assert u[0] == 'U' && ',' !in u;
      WordUnchanged(u);
    } else {
      assert CalculateResult(a, b, op) == Show(x);
      FormatShowRoundTrip(x);
    }
  }

  /** A word such as "Undefined" comes back from display and comma removal unchanged. */
  lemma WordUnchanged(value: string)
    requires |value| > 0 && !IsDigit(value[0]) && value[0] != '-' && value[0] != '+' && ',' !in value
    ensures RemoveAll(FormatDisplayValue(value), ',') == value
  {
    FormatUnsignedNonDigit(value);
  }

  /** Text ending in " <symbol>" ends with the symbol. */
  lemma EndsWithSymbol(prefix: string, c: char)
    ensures EndsWith(prefix + [c], [c])
  {
    assert (prefix + [c])[|prefix|..] == [c];
  }

  /** Every offered key keeps the invariant. */
  lemma StepKeepsInv(s: State, k: Key)
    requires Inv(s) && Offered(s, k)
    ensures Inv(Step(s, k))
  {
    match k
    case Digit(n) => NumberPressKeepsInv(s, n);
    case DecimalPoint => DecimalPressKeepsInv(s);
    case Operator(next) => OperationPressKeepsInv(s, next);
    case EqualsKey(id, timestamp) => EqualsPressKeepsInv(s, id, timestamp);
    case ClearKey => assert Count("0", '.') == 0;
    case DeleteKey => DeletePressKeepsInv(s);
    case ToggleSignKey => ShowBufferOk(Negate(ParseFloat(s.rawValue)));
    case PercentKey => ShowBufferOk(Hundredth(ParseFloat(s.rawValue)));
    case Recall(item) =>
    case ClearHistoryKey =>
    case ToggleHistoryKey =>
  }

  lemma NumberPressKeepsInv(s: State, number: char)
    requires Inv(s) && IsDigit(number)
    ensures Inv(NumberPress(s, number))
  {
    if !s.waitingForSecondNumber && s.rawValue != "0" {
      CountAppend(s.rawValue, [number], '.');
    }
  }

  lemma DecimalPressKeepsInv(s: State)
    requires Inv(s)
    ensures Inv(DecimalPress(s))
  {
    if s.waitingForSecondNumber {
      assert Count("0.", '.') == 1;
    } else if '.' !in s.rawValue {
      CountAppend(s.rawValue, ".", '.');
    }
  }

  lemma OperationPressKeepsInv(s: State, next: Op)
    requires Inv(s)
    ensures Inv(OperationPress(s, next))
  {
    if s.firstNumber.None? {
      EndsWithSymbol(DisplayValue(s) + " ", Symbol(next));
    } else if s.waitingForSecondNumber {
      var cut := LastIndexOf(s.expression, Symbol(s.operation.value));
      EndsWithSymbol(SubstringTo(s.expression, cut), Symbol(next));
    } else {
      var currentValue := ParseFloat(s.rawValue);
      var result := CalculateResult(s.firstNumber.value, currentValue, s.operation);
      ResultBufferOk(s.firstNumber.value, currentValue, s.operation);
      EndsWithSymbol(FormatDisplayValue(result) + " ", Symbol(next));
    }
  }

  lemma EqualsPressKeepsInv(s: State, id: string, timestamp: int)
    requires Inv(s)
    ensures Inv(EqualsPress(s, id, timestamp))
  {
    if s.firstNumber.Some? {
      var a, b, op := s.firstNumber.value, ParseFloat(s.rawValue), s.operation;
      var result := CalculateResult(a, b, op);
      var item := HistoryItem(id, EqualsExpression(a, op.value, b), FormatDisplayValue(result), timestamp);
      assert EqualsPress(s, id, timestamp)
          == s.(rawValue := result, expression := item.expression, history := [item] + s.history,
                firstNumber := None, operation := None, waitingForSecondNumber := true);
      ResultBufferOk(a, b, op);
      RecordedResult(a, b, op);
      PrependHistoryOk(item, s.history);
    }
  }

  lemma DeletePressKeepsInv(s: State)
    requires Inv(s)
    ensures Inv(DeletePress(s))
  {
    var raw := s.rawValue;
    if |raw| > 1 {
      assert raw == raw[..|raw| - 1] + [raw[|raw| - 1]];
      CountAppend(raw[..|raw| - 1], [raw[|raw| - 1]], '.');
    } else {
      assert Count("0", '.') == 0;
    }
  }

  /** Every state reached from the start by offered keys satisfies the invariant. */
  lemma {:induction false} RunKeepsInv(s: State, keys: seq<Key>)
    requires Inv(s) && AllOffered(s, keys)
    ensures Inv(Run(s, keys))
    decreases |keys|
  {
    if keys != [] {
      StepKeepsInv(s, keys[0]);
      RunKeepsInv(Step(s, keys[0]), keys[1..]);
    }
  }

  /** So in particular every state the calculator can reach from its start does. */
  lemma ReachableInv(keys: seq<Key>)
    requires AllOffered(Init(), keys)
    ensures Inv(Run(Init(), keys))
  {
    InitInv();
    RunKeepsInv(Init(), keys);
  }

  // ---------------------------------------------------------------------------------------------
  // Entering numbers

  /** Typing digits onto a number being entered (not waiting, not a bare "0") appends them. */
  lemma {:induction false} AppendDigits(s: State, ds: string)
    requires AllDigits(ds)
    requires !s.waitingForSecondNumber && |s.rawValue| > 0 && s.rawValue != "0"
    ensures AllOffered(s, DigitKeys(ds))
    ensures Run(s, DigitKeys(ds)) == s.(rawValue := s.rawValue + ds)
    decreases |ds|
  {
    if ds != [] {
      var keys := DigitKeys(ds);
      assert keys[0] == Digit(ds[0]) && keys[1..] == DigitKeys(ds[1..]);
      var s1 := NumberPress(s, ds[0]);
      assert s1 == s.(rawValue := s.rawValue + [ds[0]]);
      AppendDigits(s1, ds[1..]);
      assert s.rawValue + [ds[0]] + ds[1..] == s.rawValue + ds;
    }
  }

  /** Typing a number that does not start with 0, after an operator, after equals or over the
      initial "0", makes the buffer exactly that number and ends the waiting. */
  lemma TypeNumber(s: State, ds: string)
    requires AllDigits(ds) && |ds| > 0 && ds[0] != '0'
    requires s.waitingForSecondNumber || s.rawValue == "0"
    ensures AllOffered(s, DigitKeys(ds))
    ensures var t := Run(s, DigitKeys(ds));
      && t == s.(rawValue := ds, waitingForSecondNumber := false)
      && ParseFloat(t.rawValue) == Fin(DigitsValue(ds) as real)
  {
    var keys := DigitKeys(ds);
    assert keys[0] == Digit(ds[0]) && keys[1..] == DigitKeys(ds[1..]);
    var s1 := NumberPress(s, ds[0]);
    assert s1 == s.(rawValue := [ds[0]], waitingForSecondNumber := false);
    AppendDigits(s1, ds[1..]);
    assert [ds[0]] + ds[1..] == ds;
    ParseDigits(ds);
  }

  /** A run of digits reads as the number it denotes. */
  lemma ParseDigits(ds: string)
    requires AllDigits(ds) && |ds| > 0
    ensures ParseFloat(ds) == Fin(DigitsValue(ds) as real)
  {
    DecimalBody(ds, []);
    assert ds + DotFraction([]) == ds;
    assert Fraction([]) == 0.0;
    assert Unsigned(ds) == ds && !SignOf(ds);
    ParseFloatOf(ds, DigitsValue(ds) as real);
  }

  /** Delete takes back a digit typed onto a number being entered. */
  lemma DeleteUndoesDigit(s: State, d: char)
    requires IsDigit(d) && !s.waitingForSecondNumber && |s.rawValue| > 0 && s.rawValue != "0"
    ensures DeletePress(NumberPress(s, d)) == s
  {
    var raw := s.rawValue + [d];
    assert raw[..|raw| - 1] == s.rawValue;
  }

  /** Delete takes back a '.' typed onto a number being entered. */
  lemma DeleteUndoesDecimal(s: State)
    requires !s.waitingForSecondNumber && |s.rawValue| > 0 && '.' !in s.rawValue
    ensures DeletePress(DecimalPress(s)) == s
  {
    var raw := s.rawValue + ".";
    assert raw[..|raw| - 1] == s.rawValue;
  }

  // ---------------------------------------------------------------------------------------------
  // Operators and equals

  /** The value text written by `calculateResult` reads back as the result, truncated to
      `FractionDigits` fraction digits, and as NaN for "Undefined". */
  function Rounded(x: Num): Num
  {
    match x
    case Fin(r) => Fin(Truncate(r, FractionDigits))
    case NaN => NaN
  }

  lemma ParseResult(a: Num, b: Num, op: Option<Op>)
    ensures ParseFloat(CalculateResult(a, b, op)) == Rounded(Calculate(a, b, op))
  {
    CalculateResultValid(a, b, op);
  }

  /** The first operator takes the buffer's value as the first operand and shows
      "<display value> <operator>" as the expression line. */
  lemma FirstOperator(s: State, next: Op)
    requires Inv(s) && s.firstNumber.None?
    ensures var t := OperationPress(s, next);
      && t.firstNumber == Some(ParseFloat(s.rawValue)) && t.operation == Some(next)
      && t.waitingForSecondNumber && t.rawValue == s.rawValue
      && ExpressionLine(t) == DisplayValue(s) + " " + [Symbol(next)]
  {
    var t := OperationPress(s, next);
    StepKeepsInv(s, Operator(next));
    ExpressionLineWithoutAppend(t);
  }

  /** Pressing an operator while waiting for the second operand replaces exactly the final
      operator symbol of the expression; the operands are kept. */
  lemma ReplaceOperator(s: State, next: Op)
    requires Inv(s) && s.operation.Some? && s.waitingForSecondNumber
    ensures |s.expression| > 0
    ensures OperationPress(s, next)
         == s.(operation := Some(next), expression := s.expression[..|s.expression| - 1] + [Symbol(next)])
  {
    var e := s.expression;
    var c := Symbol(s.operation.value);
    assert e[|e| - 1] == c;
    assert LastIndexOf(e, c) == |e| - 1;
  }

  /** Changing the operator twice is changing it once, to the second one. */
  lemma ReplaceOperatorTwice(s: State, a: Op, b: Op)
    requires Inv(s) && s.operation.Some? && s.waitingForSecondNumber
    ensures OperationPress(OperationPress(s, a), b) == OperationPress(s, b)
  {
    var e := s.expression;
    ReplaceOperator(s, a);
    var s1 := OperationPress(s, a);
    StepKeepsInv(s, Operator(a));
    ReplaceOperator(s1, b);
    ReplaceOperator(s, b);
    assert s1.expression[..|s1.expression| - 1] == e[..|e| - 1];
  }

  /** An operator after a second operand evaluates the pending operation on the two operands
      as they stand, strictly left to right: the result (as its text reads back) becomes both the
      buffer and the new first operand, and the new operator waits for its second operand. */
  lemma ChainLeftToRight(s: State, next: Op)
    requires Inv(s) && s.operation.Some? && !s.waitingForSecondNumber
    ensures var t := OperationPress(s, next);
      && t.firstNumber == Some(Rounded(Calculate(s.firstNumber.value, ParseFloat(s.rawValue), s.operation)))
      && ParseFloat(t.rawValue) == t.firstNumber.value
      && t.operation == Some(next) && t.waitingForSecondNumber
      && t.expression == DisplayValue(t) + " " + [Symbol(next)]
      && t.history == s.history
  {
    ParseResult(s.firstNumber.value, ParseFloat(s.rawValue), s.operation);
  }

  /** Equals with a pending operation records exactly one history item in front of the older
      ones, which keep their order; the item's expression is the formatted calculation and its
      result the formatted buffer; the buffer reads back as the result; the operation is done. */
  lemma EqualsRecords(s: State, id: string, timestamp: int)
    requires Inv(s) && s.operation.Some?
    ensures var a, b := s.firstNumber.value, ParseFloat(s.rawValue);
      var t := EqualsPress(s, id, timestamp);
      && t.history == [HistoryItem(id, t.expression, DisplayValue(t), timestamp)] + s.history
      && |t.history| == |s.history| + 1 && t.history[1..] == s.history
      && t.expression == FormatExpressionWithSecondNumber(Show(a), Show(b), s.operation) + " ="
      && ParseFloat(t.rawValue) == Rounded(Calculate(a, b, s.operation))
      && t.firstNumber.None? && t.operation.None? && t.waitingForSecondNumber
      && ExpressionLine(t) == t.expression
  {
    var a, b := s.firstNumber.value, ParseFloat(s.rawValue);
    var t := EqualsPress(s, id, timestamp);
    ParseResult(a, b, s.operation);
    assert '=' in t.expression by {
      assert t.expression[|t.expression| - 1] == '=';
    }
  }

  /** Equals without a pending operation does nothing. */
  lemma EqualsWithoutOperation(s: State, id: string, timestamp: int)
    requires Inv(s) && s.operation.None?
    ensures EqualsPress(s, id, timestamp) == s
  {
  }

  /** Recalling the record an equals press just made puts its exact result text back in the
      buffer. */
  lemma RecallLatest(s: State, id: string, timestamp: int)
    requires Inv(s) && s.operation.Some?
    ensures var t := EqualsPress(s, id, timestamp);
      |t.history| > 0 && HistoryItemPress(t, t.history[0]) == t.(historyVisible := false)
  {
    RecordedResult(s.firstNumber.value, ParseFloat(s.rawValue), s.operation);
  }

  // ---------------------------------------------------------------------------------------------
  // The other keys

  /** Clear returns to the start, keeping the history and its visibility; clearing twice is
      clearing once. */
  lemma ClearResets(s: State)
    ensures ClearPress(s) == Init().(history := s.history, historyVisible := s.historyVisible)
    ensures ClearPress(ClearPress(s)) == ClearPress(s)
    ensures Inv(s) ==> Inv(ClearPress(s))
  {
    if Inv(s) {
      StepKeepsInv(s, ClearKey);
    }
  }

  /** Toggling the sign twice leaves the number as `String` writes it. */
  lemma ToggleSignTwice(s: State)
    ensures ToggleSignPress(ToggleSignPress(s)) == s.(rawValue := Show(ParseFloat(s.rawValue)))
  {
    ShowNegateTwice(ParseFloat(s.rawValue));
  }

  /** Percent divides the buffer's value by 100 (to `FractionDigits` fraction digits). */
  lemma PercentValue(s: State)
    ensures ParseFloat(PercentPress(s).rawValue) == Rounded(Hundredth(ParseFloat(s.rawValue)))
  {
    var x := Hundredth(ParseFloat(s.rawValue));
    if x.Fin? {
      ParseShowAt(x.value, FractionDigits);
    } else {
      assert DigitRun("NaN") == [];
    }
  }

  // ---------------------------------------------------------------------------------------------
  // The expression line in reachable states

  /** In a state satisfying the invariant the pending operator already ends the expression, so
      the line is the expression itself (or the value when there is none): the branch of
      `displayExpression` that appends the operator is never taken. */
  lemma ExpressionLineWithoutAppend(s: State)
    requires Inv(s)
    ensures ExpressionLine(s) == if s.expression == "" then DisplayValue(s) else s.expression
  {
    AppendsOnlyMissingOperator(s.expression, s.operation, DisplayValue(s));
  }

  /** The value shown is stable: formatting it again once its commas are removed shows the same
      text, because reachable buffers hold no comma of their own. */
  lemma DisplayIdempotent(s: State)
    requires Inv(s)
    ensures FormatDisplayValue(RemoveAll(DisplayValue(s), ',')) == DisplayValue(s)
  {
    FormatIdempotent(s.rawValue);
  }

  /** The expression line is rendered exactly when there is an expression and it differs from
      the value shown below it. */
  lemma ExpressionLineShownRule(s: State)
    requires Inv(s)
    ensures ExpressionLineShown(s.expression, s.operation, DisplayValue(s))
        <==> s.expression != "" && s.expression != DisplayValue(s)
  {
    ExpressionLineWithoutAppend(s);
  }

  /** A buffer `parseFloat` cannot read ("Undefined", "NaN" from +/- or %, "Undefine" or "-"
      after delete) carries NaN into the calculation: a first operator stores NaN as the first
      operand, and an operator or equals after a second operand writes "Undefined". */
  lemma NaNBufferCarried(s: State, next: Op, id: string, timestamp: int)
    requires ParseFloat(s.rawValue).NaN?
    ensures StartOperation(s, next).firstNumber == Some(NaN)
    ensures s.firstNumber.Some? && s.operation.Some? ==>
      && ContinueOperation(s, next).rawValue == "Undefined"
      && ContinueOperation(s, next).firstNumber == Some(NaN)
      && Evaluate(s, id, timestamp).rawValue == "Undefined"
  {
    if s.firstNumber.Some? && s.operation.Some? {
      assert Calculate(s.firstNumber.value, NaN, s.operation).NaN?;
      var u := "Undefined";
      assert u[0] == 'U';
    }
  }

  // ---------------------------------------------------------------------------------------------
  // Left-to-right evaluation of a whole calculation

  /** Running `[k] + keys` is pressing `k` and then running `keys`. */
  lemma RunCons(s: State, k: Key, keys: seq<Key>)
    requires Offered(s, k) && AllOffered(Step(s, k), keys)
    ensures AllOffered(s, [k] + keys)
    ensures Run(s, [k] + keys) == Run(Step(s, k), keys)
  {
    assert ([k] + keys)[1..] == keys;
  }

  /** An operator followed by a one-digit operand. */
  datatype Entry = Entry(op: Op, digit: char)

  predicate DigitEntries(entries: seq<Entry>)
  {
    forall i :: 0 <= i < |entries| ==> IsDigit(entries[i].digit)
  }

  /** The keys of the entries: each operator, then its operand's digit. */
  function EntryKeys(entries: seq<Entry>): (keys: seq<Key>)
    ensures |keys| == 2 * |entries|
  {
    if entries == [] then [] else [Operator(entries[0].op), Digit(entries[0].digit)] + EntryKeys(entries[1..])
  }

  /** The value of `acc`, then each entry applied in turn with no precedence, every intermediate
      result read back from the text `calculateResult` writes for it. */
  function LeftFold(acc: Num, entries: seq<Entry>): Num
    requires DigitEntries(entries)
    decreases |entries|
  {
    if entries == [] then acc
    else LeftFold(Rounded(Calculate(acc, Fin(DigitValue(entries[0].digit) as real), Some(entries[0].op))), entries[1..])
  }

  /** Waiting with a pending operation, a digit and another operator evaluate the pending
      operation and leave the next one pending, in the state `t`; any keys `rest` then run
      from `t`. */
  lemma OperandThenOperator(s: State, d: char, next: Op, rest: seq<Key>) returns (t: State)
    requires Inv(s) && s.operation.Some? && s.waitingForSecondNumber && IsDigit(d)
    ensures Inv(t) && t.operation == Some(next) && t.waitingForSecondNumber && t.history == s.history
    ensures t.firstNumber == Some(Rounded(Calculate(s.firstNumber.value, Fin(DigitValue(d) as real), s.operation)))
    ensures AllOffered(t, rest) ==>
      AllOffered(s, [Digit(d)] + ([Operator(next)] + rest)) && Run(s, [Digit(d)] + ([Operator(next)] + rest)) == Run(t, rest)
  {
    TypeDigit(s, d);
    var s1 := NumberPress(s, d);
    ChainLeftToRight(s1, next);
    OperationPressKeepsInv(s1, next);
    t := OperationPress(s1, next);
    if AllOffered(t, rest) {
      DigitThenKeys(s, d, Operator(next), rest);
    }
  }

  /** Waiting with a pending operation, a digit and equals evaluate the pending operation and
      record it. */
  lemma OperandThenEquals(s: State, d: char, id: string, timestamp: int)
    requires Inv(s) && s.operation.Some? && s.waitingForSecondNumber && IsDigit(d)
    ensures var keys := [Digit(d)] + ([EqualsKey(id, timestamp)] + []);
      && AllOffered(s, keys)
      && ParseFloat(Run(s, keys).rawValue) == Rounded(Calculate(s.firstNumber.value, Fin(DigitValue(d) as real), s.operation))
      && |Run(s, keys).history| == |s.history| + 1
  {
    TypeDigit(s, d);
    EqualsRecords(NumberPress(s, d), id, timestamp);
    DigitThenKeys(s, d, EqualsKey(id, timestamp), []);
  }

  /** A digit, then the key `k`, then `rest`. */
  lemma DigitThenKeys(s: State, d: char, k: Key, rest: seq<Key>)
    requires IsDigit(d) && Offered(NumberPress(s, d), k) && AllOffered(Step(NumberPress(s, d), k), rest)
    ensures AllOffered(s, [Digit(d)] + ([k] + rest))
    ensures Run(s, [Digit(d)] + ([k] + rest)) == Run(Step(NumberPress(s, d), k), rest)
  {
    RunCons(NumberPress(s, d), k, rest);
    RunCons(s, Digit(d), [k] + rest);
  }

  /** From a pending operation, the operand `d`, then the entries, then equals compute the left
      fold of the entries over the pending operation's result. */
  lemma {:induction false} PendingFold(s: State, d: char, entries: seq<Entry>, id: string, timestamp: int)
    requires Inv(s) && s.operation.Some? && s.waitingForSecondNumber && IsDigit(d) && DigitEntries(entries)
    ensures var keys := [Digit(d)] + EntryKeys(entries) + [EqualsKey(id, timestamp)];
      && AllOffered(s, keys)
      && ParseFloat(Run(s, keys).rawValue)
         == LeftFold(Rounded(Calculate(s.firstNumber.value, Fin(DigitValue(d) as real), s.operation)), entries)
      && |Run(s, keys).history| == |s.history| + 1
    decreases |entries|
  {
    var eq := EqualsKey(id, timestamp);
    if entries == [] {
      OperandThenEquals(s, d, id, timestamp);
      assert [Digit(d)] + EntryKeys(entries) + [eq] == [Digit(d)] + ([eq] + []);
    } else {
      var e := entries[0];
      var rest := [Digit(e.digit)] + EntryKeys(entries[1..]) + [eq];
      var t := OperandThenOperator(s, d, e.op, rest);
      PendingFold(t, e.digit, entries[1..], id, timestamp);
      Regroup(Digit(d), Operator(e.op), Digit(e.digit), EntryKeys(entries[1..]), eq);
      var keys := [Digit(d)] + EntryKeys(entries) + [eq];
      assert keys == [Digit(d)] + ([Operator(e.op)] + rest);
      assert AllOffered(s, keys) && Run(s, keys) == Run(t, rest);
      assert LeftFold(t.firstNumber.value, entries)
          == LeftFold(Rounded(Calculate(t.firstNumber.value, Fin(DigitValue(e.digit) as real), t.operation)), entries[1..]);
    }
  }

  /** The keys of a first entry, regrouped after its operator. */
  lemma Regroup(first: Key, op: Key, digit: Key, tail: seq<Key>, last: Key)
    ensures [first] + ([op, digit] + tail) + [last] == [first] + ([op] + ([digit] + tail + [last]))
  {
  }

  /** A digit typed while waiting, or over "0", becomes the whole buffer, which reads as its value. */
  lemma TypeDigit(s: State, d: char)
    requires Inv(s) && IsDigit(d) && (s.waitingForSecondNumber || s.rawValue == "0")
    ensures var t := NumberPress(s, d);
      && t == s.(rawValue := [d], waitingForSecondNumber := false)
      && Inv(t) && ParseFloat(t.rawValue) == Fin(DigitValue(d) as real)
  {
    NumberPressKeepsInv(s, d);
    ParseDigits([d]);
    assert DigitsValue([d]) == 10 * DigitsValue([]) + DigitValue(d);
  }

  /** A whole calculation typed from the start, one digit per operand, `a o1 b1 o2 b2 ... =`,
      leaves in the buffer the left fold of the operators over the operands: each operator applies
      to the result so far, with no precedence. It records one history item. */
  lemma LeftToRight(a: char, entries: seq<Entry>, id: string, timestamp: int)
    requires IsDigit(a) && DigitEntries(entries) && |entries| > 0
    ensures var keys := [Digit(a)] + EntryKeys(entries) + [EqualsKey(id, timestamp)];
      && AllOffered(Init(), keys)
      && ParseFloat(Run(Init(), keys).rawValue) == LeftFold(Fin(DigitValue(a) as real), entries)
      && |Run(Init(), keys).history| == 1
  {
    var e := entries[0];
    var s0 := Init();
    InitInv();
    TypeDigit(s0, a);
    var s1 := NumberPress(s0, a);
    OperationPressKeepsInv(s1, e.op);
    var s2 := OperationPress(s1, e.op);
    PendingFold(s2, e.digit, entries[1..], id, timestamp);
    var rest := [Digit(e.digit)] + EntryKeys(entries[1..]) + [EqualsKey(id, timestamp)];
    DigitThenKeys(s0, a, Operator(e.op), rest);
    Regroup(Digit(a), Operator(e.op), Digit(e.digit), EntryKeys(entries[1..]), EqualsKey(id, timestamp));
  }

  /** The keys of a calculation with two entries, spelled out. */
  lemma TwoEntryKeys(first: Key, e1: Entry, e2: Entry, last: Key)
    ensures [first] + EntryKeys([e1, e2]) + [last]
         == [first, Operator(e1.op), Digit(e1.digit), Operator(e2.op), Digit(e2.digit), last]
  {
    assert [e1, e2][1..] == [e2];
    assert EntryKeys([e1, e2]) == [Operator(e1.op), Digit(e1.digit), Operator(e2.op), Digit(e2.digit)];
  }

  /** An integer loses nothing to truncation. */
  lemma TruncateInteger(i: int, p: nat)
    ensures Truncate(i as real, p) == i as real
  {
    ParseShowAt(i as real, p);
    ShowInteger(i, p);
    ParseIntString(i);
  }

  /** Typing `a + b × c =` gives (a + b) × c, not a + b × c: there is no operator precedence
      ("2 + 3 × 4 =" gives 20, not 14). */
  lemma NoPrecedence(a: char, b: char, c: char, id: string, timestamp: int)
    requires IsDigit(a) && IsDigit(b) && IsDigit(c)
    ensures var keys := [Digit(a), Operator(Add), Digit(b), Operator(Multiply), Digit(c), EqualsKey(id, timestamp)];
      && AllOffered(Init(), keys)
      && ParseFloat(Run(Init(), keys).rawValue) == Fin(((DigitValue(a) + DigitValue(b)) * DigitValue(c)) as real)
  {
    var entries := [Entry(Add, b), Entry(Multiply, c)];
    LeftToRight(a, entries, id, timestamp);
    TwoEntryKeys(Digit(a), entries[0], entries[1], EqualsKey(id, timestamp));
    SumThenProduct(a, b, c);
  }

  /** Folding "+ b" and then "× c" over a gives (a + b) × c exactly. */
  lemma SumThenProduct(a: char, b: char, c: char)
    requires IsDigit(a) && IsDigit(b) && IsDigit(c)
    ensures LeftFold(Fin(DigitValue(a) as real), [Entry(Add, b), Entry(Multiply, c)])
         == Fin(((DigitValue(a) + DigitValue(b)) * DigitValue(c)) as real)
  {
    var x, y, z := DigitValue(a), DigitValue(b), DigitValue(c);
    var entries := [Entry(Add, b), Entry(Multiply, c)];
    var product := (x + y) * z;
    RoundedSum(x, y);
    RoundedProduct(x + y, z, product);
    assert entries[1..] == [Entry(Multiply, c)] && entries[1..][1..] == [];
    assert LeftFold(Fin(x as real), entries) == LeftFold(Fin((x + y) as real), entries[1..]);
    assert LeftFold(Fin((x + y) as real), entries[1..]) == LeftFold(Fin(product as real), []);
  }

  /** The sum of two integers is displayed and read back exactly. */
  lemma RoundedSum(m: int, n: int)
    ensures Rounded(Calculate(Fin(m as real), Fin(n as real), Some(Add))) == Fin((m + n) as real)
  {
    assert Calculate(Fin(m as real), Fin(n as real), Some(Add)) == Fin((m + n) as real);
    RoundedInteger(m + n);
  }

  /** The product of two integers is displayed and read back exactly. */
  lemma RoundedProduct(m: int, n: int, p: int)
    requires p == m * n
    ensures Rounded(Calculate(Fin(m as real), Fin(n as real), Some(Multiply))) == Fin(p as real)
  {
    CastProduct(m, n, p);
    assert Calculate(Fin(m as real), Fin(n as real), Some(Multiply)) == Fin(p as real);
    RoundedInteger(p);
  }

  /** An integer is displayed and read back exactly. */
  lemma RoundedInteger(i: int)
    ensures Rounded(Fin(i as real)) == Fin(i as real)
  {
    TruncateInteger(i, FractionDigits);
  }

  /** Integer multiplication agrees with real multiplication. */
  lemma CastProduct(m: int, n: int, p: int)
    requires p == m * n
    ensures m as real * n as real == p as real
  {
  }
}

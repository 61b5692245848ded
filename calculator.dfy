/** The calculator component: its state hooks as fields, each key handler as a method that
    updates them in place. Every method is proved to perform the `Session` transition of its
    handler and to keep the session invariant. */
module Calculator {
  import opened Wrappers
  import opened JsString
  import opened JsNumber
  import opened CalculatorUtils
  import Session

  class Calculator {
    var rawValue: string
    var firstNumber: Option<Num>
    var operation: Option<Op>
    var waitingForSecondNumber: bool
    var expression: string
    var history: seq<Session.HistoryItem>
    var historyVisible: bool

    /** The fields as a `Session.State` value. */
    function Snapshot(): Session.State
      reads this
    {
      Session.State(rawValue, firstNumber, operation, waitingForSecondNumber, expression, history, historyVisible)
    }

    predicate Valid()
      reads this
    {
      Session.Inv(Snapshot())
    }

    /** The value shown in large type, kept in step with the buffer: `Session.DisplayValue` of
        the fields. */
    function DisplayValue(): string
      reads this
    {
      Session.DisplayValue(Snapshot())
    }

    /** A freshly mounted calculator: "0", nothing pending, an empty history, closed. */
    constructor ()
      ensures Snapshot() == Session.Init() && Valid()
    {
      rawValue := "0";
      firstNumber := None;
      operation := None;
      waitingForSecondNumber := false;
      expression := "";
      history := [];
      historyVisible := false;
      new;
      Session.InitInv();
    }

    method HandleNumberPress(number: char)
      requires Valid() && IsDigit(number)
      modifies this
      ensures Snapshot() == Session.NumberPress(old(Snapshot()), number) && Valid()
      ensures waitingForSecondNumber == false
    {
      Session.NumberPressKeepsInv(Snapshot(), number);
      if waitingForSecondNumber {
        waitingForSecondNumber := false;
        rawValue := [number];
      } else if rawValue == "0" {
        rawValue := [number];
      } else {
        rawValue := rawValue + [number];
      }
    }

    method HandleOperationPress(nextOperation: Op)
      requires Valid()
      modifies this
      ensures Snapshot() == Session.OperationPress(old(Snapshot()), nextOperation) && Valid()
      ensures old(firstNumber).None? || old(operation).Some? ==> operation == Some(nextOperation)
    {
      Session.OperationPressKeepsInv(Snapshot(), nextOperation);
      if firstNumber.None? {
        StartOperation(nextOperation);
      } else if operation.Some? {
        if waitingForSecondNumber {
          ChangeOperation(nextOperation);
        } else {
          ContinueOperation(nextOperation);
        }
      }
    }

    /** The first operator: the buffer becomes the first operand. */
    method StartOperation(nextOperation: Op)
      requires firstNumber.None?
      modifies this
      ensures Snapshot() == Session.StartOperation(old(Snapshot()), nextOperation)
    {
      var currentValue := ParseFloat(rawValue);
      var shown := DisplayValue();
      Commit(Snapshot().(firstNumber := Some(currentValue), operation := Some(nextOperation),
        waitingForSecondNumber := true, expression := shown + " " + [Symbol(nextOperation)]));
    }

    /** The operator changed before a second operand: the last operator symbol is replaced. */
    method ChangeOperation(nextOperation: Op)
      requires operation.Some?
      modifies this
      ensures Snapshot() == Session.ChangeOperation(old(Snapshot()), nextOperation)
    {
      var withoutOperator := SubstringTo(expression, LastIndexOf(expression, Symbol(operation.value)));
      operation := Some(nextOperation);
      expression := withoutOperator + [Symbol(nextOperation)];
    }

    /** An operator after a second operand: calculate and continue. */
    method ContinueOperation(nextOperation: Op)
      requires firstNumber.Some?
      modifies this
      ensures Snapshot() == Session.ContinueOperation(old(Snapshot()), nextOperation)
    {
      var currentValue := ParseFloat(rawValue);
      var result := CalculateResult(firstNumber.value, currentValue, operation);
      Commit(Snapshot().(firstNumber := Some(ParseFloat(result)), operation := Some(nextOperation),
        rawValue := result, waitingForSecondNumber := true,
        expression := FormatDisplayValue(result) + " " + [Symbol(nextOperation)]));
    }

    /** `id` and `timestamp` stand for `generateId()` and `new Date()`. */
    method HandleEqualsPress(id: string, timestamp: int)
      requires Valid()
      modifies this
      ensures Snapshot() == Session.EqualsPress(old(Snapshot()), id, timestamp) && Valid()
      ensures old(operation).Some? ==> |history| == |old(history)| + 1 && history[1..] == old(history)
      ensures old(operation).None? ==> unchanged(this)
    {
      Session.EqualsPressKeepsInv(Snapshot(), id, timestamp);
      if firstNumber.None? || operation.None? {
        return;
      }
      Evaluate(id, timestamp);
    }

    /** Equals with a pending operation: the calculation is finished and recorded. */
    method Evaluate(id: string, timestamp: int)
      requires firstNumber.Some? && operation.Some?
      modifies this
      ensures Snapshot() == Session.Evaluate(old(Snapshot()), id, timestamp)
    {
      var currentValue := ParseFloat(rawValue);
      var result := CalculateResult(firstNumber.value, currentValue, operation);
      var fullExpression := Session.EqualsExpression(firstNumber.value, operation.value, currentValue);
      var item := Session.HistoryItem(id, fullExpression, FormatDisplayValue(result), timestamp);
      Commit(Snapshot().(rawValue := result, expression := fullExpression, history := [item] + history,
        firstNumber := None, operation := None, waitingForSecondNumber := true));
    }

    /** The setters a handler calls take effect together, at the next render: every hook is
        written at once with the values the handler computed. */
    method Commit(next: Session.State)
      modifies this
      ensures Snapshot() == next
    {
      rawValue := next.rawValue;
      firstNumber := next.firstNumber;
      operation := next.operation;
      waitingForSecondNumber := next.waitingForSecondNumber;
      expression := next.expression;
      history := next.history;
      historyVisible := next.historyVisible;
    }

    method HandleClearPress()
      requires Valid()
      modifies this
      ensures Snapshot() == Session.ClearPress(old(Snapshot())) && Valid()
      ensures Snapshot() == Session.Init().(history := old(history), historyVisible := old(historyVisible))
    {
      Session.ClearResets(Snapshot());
      rawValue := "0";
      firstNumber := None;
      operation := None;
      waitingForSecondNumber := false;
      expression := "";
    }

    method HandleDecimalPress()
      requires Valid()
      modifies this
      ensures Snapshot() == Session.DecimalPress(old(Snapshot())) && Valid()
      ensures '.' in rawValue
    {
      Session.DecimalPressKeepsInv(Snapshot());
      if waitingForSecondNumber {
        rawValue := "0.";
        waitingForSecondNumber := false;
        return;
      }
      if '.' !in rawValue {
        rawValue := rawValue + ".";
      }
    }

    method HandleToggleSignPress()
      requires Valid()
      modifies this
      ensures Snapshot() == Session.ToggleSignPress(old(Snapshot())) && Valid()
    {
      Session.StepKeepsInv(Snapshot(), Session.ToggleSignKey);
      rawValue := Show(Negate(ParseFloat(rawValue)));
    }

    method HandlePercentPress()
      requires Valid()
      modifies this
      ensures Snapshot() == Session.PercentPress(old(Snapshot())) && Valid()
    {
      Session.StepKeepsInv(Snapshot(), Session.PercentKey);
      rawValue := Show(Hundredth(ParseFloat(rawValue)));
    }

    method HandleDeletePress()
      requires Valid()
      modifies this
      ensures Snapshot() == Session.DeletePress(old(Snapshot())) && Valid()
    {
      Session.DeletePressKeepsInv(Snapshot());
      rawValue := if |rawValue| > 1 then rawValue[..|rawValue| - 1] else "0";
    }

    method ToggleHistory()
      requires Valid()
      modifies this
      ensures Snapshot() == Session.ToggleHistory(old(Snapshot())) && Valid()
      ensures historyVisible == !old(historyVisible)
    {
      historyVisible := !historyVisible;
    }

    /** Only records of the history are offered to be pressed. */
    method HandleHistoryItemPress(item: Session.HistoryItem)
      requires Valid() && item in history
      modifies this
      ensures Snapshot() == Session.HistoryItemPress(old(Snapshot()), item) && Valid()
      ensures !historyVisible
    {
      Session.StepKeepsInv(Snapshot(), Session.Recall(item));
      rawValue := RemoveAll(item.result, ',');
      historyVisible := false;
    }

    /** The stored copy of the history is not part of this model. */
    method HandleClearHistory()
      requires Valid()
      modifies this
      ensures Snapshot() == Session.ClearHistory(old(Snapshot())) && Valid()
      ensures history == []
    {
      history := [];
    }
  }
}

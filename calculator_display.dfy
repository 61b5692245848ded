/** The expression line above the value: which text it shows, and whether it is shown at all. */
module CalculatorDisplay {
  import opened Wrappers
  import opened JsString
  import opened CalculatorUtils

  /** An expression holding '=' is a finished calculation. */
  predicate IsShowingResult(expression: string)
  {
    '=' in expression
  }

  /** `displayExpression`: a finished calculation verbatim; an empty expression falls back to
      the value; otherwise the expression, with the pending operator appended when it is not
      already at the end. */
  function DisplayExpression(expression: string, operation: Option<Op>, value: string): string
  {
    if IsShowingResult(expression) then expression
    else if expression != "" then
      if operation.Some? && !EndsWith(expression, [Symbol(operation.value)]) then
        expression + " " + [Symbol(operation.value)]
      else expression
    else value
  }

  /** The expression line is rendered only when it would differ from the value below it. */
  predicate ExpressionLineShown(expression: string, operation: Option<Op>, value: string)
  {
    DisplayExpression(expression, operation, value) != value
  }

  /** The derived line is the expression itself, or the value for an empty expression, except in
      exactly one case: an unfinished expression whose pending operator is not at its end gets
      " <operator>" appended. */
  lemma AppendsOnlyMissingOperator(expression: string, operation: Option<Op>, value: string)
    ensures var d := DisplayExpression(expression, operation, value);
      var appends := expression != "" && !IsShowingResult(expression) && operation.Some?
        && !EndsWith(expression, [Symbol(operation.value)]);
      && (appends ==> d == expression + " " + [Symbol(operation.value)] && EndsWith(d, [Symbol(operation.value)]))
      && (!appends ==> d == if expression == "" then value else expression)
  {
    if expression != "" && !IsShowingResult(expression) && operation.Some?
      && !EndsWith(expression, [Symbol(operation.value)])
    {
      var d := expression + " " + [Symbol(operation.value)];
      assert d[|d| - 1..] == [Symbol(operation.value)];
    }
  }

  /** Displaying is stable: feeding the derived line back in as the expression derives it again. */
  lemma DisplayExpressionStable(expression: string, operation: Option<Op>, value: string)
    requires expression != ""
    ensures var d := DisplayExpression(expression, operation, value);
      DisplayExpression(d, operation, value) == d
  {
    var d := DisplayExpression(expression, operation, value);
    AppendsOnlyMissingOperator(expression, operation, value);
    if d != expression {
      var k := |expression|;
      assert d[..k] == expression;
      assert '=' !in d by {
        assert forall i :: 0 <= i < |d| ==> i < k ==> d[i] == expression[i];
        assert d[k] == ' ' && d[k + 1] == Symbol(operation.value);
      }
    }
  }
}

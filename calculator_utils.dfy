/** The calculator's arithmetic and formatting helpers: `calculate`, `calculateResult`,
    `isValidNumber`, `formatDisplayValue` and `formatExpressionWithSecondNumber`. */
module CalculatorUtils {
  import opened Wrappers
  import opened JsString
  import opened JsNumber

  /** The four keypad operators and `%`; the `null` of `OperationType` is `None`. */
  datatype Op = Add | Subtract | Multiply | Divide | Modulo

  /** The operator as it is written in the expression line. Symbols never clash with each
      other nor with the characters of a number. */
  function Symbol(op: Op): (c: char)
    ensures !IsDigit(c) && c != '.' && c != ',' && c != ' ' && c != '='
  {
    match op
    case Add => '+'
    case Subtract => '-'
    case Multiply => '×'
    case Divide => '÷'
    case Modulo => '%'
  }

  /** Different operators have different symbols. */
  lemma SymbolInjective(a: Op, b: Op)
    ensures Symbol(a) == Symbol(b) ==> a == b
  {
  }

  /** `Math.trunc(x)`: `x` rounded toward zero. */
  function Trunc(x: real): (i: int)
    ensures x >= 0.0 ==> 0.0 <= i as real <= x < i as real + 1.0
    ensures x < 0.0 ==> i as real - 1.0 < x <= i as real <= 0.0
  {
    if x >= 0.0 then x.Floor else -((-x).Floor)
  }

  /** JavaScript's `x % y` on finite operands: the remainder of the quotient truncated toward zero. */
  function Remainder(x: real, y: real): real
    requires y != 0.0
  {
    x - y * Trunc(x / y) as real
  }

  /** `calculate(a, b, op)`: no operation gives `b`; otherwise NaN whenever an operand is NaN or
      `b` is 0 for `÷` and `%`, and the exact sum, difference, product, quotient or remainder
      of two finite operands. */
  function Calculate(a: Num, b: Num, op: Option<Op>): (r: Num)
    ensures op.None? ==> r == b
    ensures op.Some? ==>
      (r.NaN? <==> a.NaN? || b.NaN? || ((op.value == Divide || op.value == Modulo) && b == Fin(0.0)))
  {
    match op
    case None => b
    case Some(o) =>
      if a.NaN? || b.NaN? then NaN
      else
        var x, y := a.value, b.value;
        match o
        case Add => Fin(x + y)
        case Subtract => Fin(x - y)
        case Multiply => Fin(x * y)
        case Divide => if y != 0.0 then Fin(x / y) else NaN
        case Modulo => if y != 0.0 then Fin(Remainder(x, y)) else NaN
  }

  /** `calculateResult(a, b, op)`: "Undefined" exactly when `calculate` gives NaN, and
      otherwise text that reads back as the result (to `FractionDigits` fraction digits). */
  function CalculateResult(a: Num, b: Num, op: Option<Op>): (s: string)
    ensures s == "Undefined" <==> Calculate(a, b, op).NaN?
    ensures Calculate(a, b, op).Fin? ==>
      ParseFloat(s) == Fin(Truncate(Calculate(a, b, op).value, FractionDigits))
  {
    var r := Calculate(a, b, op);
    if r.NaN? then "Undefined"
    else
      ParseShowAt(r.value, FractionDigits);
      ShowRealShape(r.value, FractionDigits);
      Show(r)
  }

  /** `isValidNumber(s)`: `parseFloat` finds a (finite) number at the start of `s`. */
  predicate IsValidNumber(s: string)
  {
    ParseFloat(s).Fin?
  }

  /** The regular expression `^0+(?=\d)` removed: the leading zeros that are followed by a digit.
      What is removed is zeros only, what is left does not start with a zero and a digit, and when
      anything was removed what is left starts with a digit. */
  function StripLeadingZeros(s: string): (t: string)
    ensures |t| <= |s| && t == s[|s| - |t|..]
    ensures forall i :: 0 <= i < |s| - |t| ==> s[i] == '0'
    ensures !(|t| >= 2 && t[0] == '0' && IsDigit(t[1]))
    ensures |t| < |s| ==> |t| > 0 && IsDigit(t[0])
  {
    if |s| >= 2 && s[0] == '0' && IsDigit(s[1]) then StripLeadingZeros(s[1..]) else s
  }

  /** `parts[0]` after the integer-part step of `formatDisplayValue`: Intl-formatted with comma
      groups when `parseInt` reads an integer from it, untouched otherwise. */
  function FormatIntegerPart(part: string): string
  {
    if |part| > 0 && ParseInt(part).Some? then IntlFormat(ParseInt(part).value) else part
  }

  /** `formatDisplayValue(value)`. */
  function FormatDisplayValue(value: string): string
  {
    if value == "0" then value
    else
      var parts := Split(StripLeadingZeros(value), '.');
      Join([FormatIntegerPart(parts[0])] + parts[1..], '.')
  }

  /** `formatExpressionWithSecondNumber(first, second, op)`. */
  function FormatExpressionWithSecondNumber(first: string, second: string, op: Option<Op>): string
  {
    if op.None? then first
    else FormatDisplayValue(first) + " " + [Symbol(op.value)] + " " + FormatDisplayValue(second)
  }

  // ---------------------------------------------------------------------------------------------
  // calculate

  /** `-` undoes `+` and `÷` undoes `×` (by a non-zero number) on finite operands. */
  lemma {:induction false} InverseOperations(x: real, y: real)
    ensures Calculate(Calculate(Fin(x), Fin(y), Some(Add)), Fin(y), Some(Subtract)) == Fin(x)
    ensures y != 0.0 ==> Calculate(Calculate(Fin(x), Fin(y), Some(Multiply)), Fin(y), Some(Divide)) == Fin(x)
  {
    if y != 0.0 {
      assert x * y / y == x;
    }
  }

  /** Division by zero is NaN whatever the dividend, and so `calculateResult` says "Undefined". */
  lemma DivideByZero(a: Num)
    ensures Calculate(a, Fin(0.0), Some(Divide)) == NaN
    ensures CalculateResult(a, Fin(0.0), Some(Divide)) == "Undefined"
  {
  }

  /** `%` agrees with JavaScript: `x == y * q + r` for the quotient `q` truncated toward zero,
      the remainder has the dividend's sign and is smaller than the divisor in magnitude. */
  lemma RemainderLaw(x: real, y: real)
    requires y != 0.0
    ensures var r := Remainder(x, y);
      && x == y * Trunc(x / y) as real + r
      && (x >= 0.0 ==> r >= 0.0)
      && (x < 0.0 ==> r <= 0.0)
      && (y > 0.0 ==> -y < r < y)
      && (y < 0.0 ==> y < r < -y)
  {
    var t := x / y;
    var q := Trunc(t) as real;
    assert x == y * t;
    RemainderBounds(x, y, t, q, y * q);
  }

  /** The bounds of `x - p` for `x == y * t`, `p == y * q` and `q` the truncation of `t`. */
  lemma RemainderBounds(x: real, y: real, t: real, q: real, p: real)
    requires y != 0.0 && x == y * t && p == y * q
    requires t >= 0.0 ==> 0.0 <= q <= t < q + 1.0
    requires t < 0.0 ==> q - 1.0 < t <= q <= 0.0
    ensures x >= 0.0 ==> x - p >= 0.0
    ensures x < 0.0 ==> x - p <= 0.0
    ensures y > 0.0 ==> -y < x - p < y
    ensures y < 0.0 ==> y < x - p < -y
  {
    if y > 0.0 && t >= 0.0 {
      QuotientBounds(x, y, t, q, p);
    } else if y > 0.0 {
      QuotientBounds(-x, y, -t, -q, -p);
    } else if t >= 0.0 {
      QuotientBounds(-x, -y, t, q, -p);
    } else {
      QuotientBounds(x, -y, -t, -q, p);
    }
  }

  /** For `y > 0` and `q` the whole part of `t >= 0`, `y * t` is non-negative and exceeds
      `y * q` by less than `y`. */
  lemma QuotientBounds(x: real, y: real, t: real, q: real, p: real)
    requires x == y * t && p == y * q
    requires y > 0.0 && 0.0 <= q <= t < q + 1.0
    ensures x >= 0.0
    ensures 0.0 <= x - p < y
  {
    MulBounds(y, t, x);
    MulBounds(y, t - q, y * (t - q));
    Distribute(y, t, q, x, p, y * (t - q));
  }

  /** `y * (t - q) == y * t - y * q`, with every product named. */
  lemma Distribute(y: real, t: real, q: real, x: real, p: real, m: real)
    requires x == y * t && p == y * q && m == y * (t - q)
    ensures m == x - p
  {
  }

  /** `0 <= y * d`, and `y * d < y` when `d < 1`. */
  lemma MulBounds(y: real, d: real, m: real)
    requires y > 0.0 && 0.0 <= d && m == y * d
    ensures 0.0 <= m
    ensures d < 1.0 ==> m < y
  {
    assert d < 1.0 ==> y * (1.0 - d) > 0.0;
  }

  /** `isValidNumber` accepts what `calculateResult` returns exactly when it is not "Undefined". */
  lemma CalculateResultValid(a: Num, b: Num, op: Option<Op>)
    ensures IsValidNumber(CalculateResult(a, b, op)) <==> Calculate(a, b, op).Fin?
  {
    if Calculate(a, b, op).NaN? {
      assert ParseFloat("Undefined") == NaN by {
        assert DigitRun("Undefined") == [];
        assert FractionRun("Undefined") == [];
      }
    }
  }

  // ---------------------------------------------------------------------------------------------
  // formatDisplayValue

  /** Leading zeros do not change what `parseFloat` reads. */
  lemma {:induction false} StripKeepsValue(s: string)
    ensures ParseFloat(StripLeadingZeros(s)) == ParseFloat(s)
  {
    if |s| >= 2 && s[0] == '0' && IsDigit(s[1]) {
      StripKeepsValue(s[1..]);
      LeadingZeroValue(s);
    }
  }

  /** One leading zero before a digit changes nothing `parseFloat` reads. */
  lemma LeadingZeroValue(z: string)
    requires |z| >= 2 && z[0] == '0' && IsDigit(z[1])
    ensures ParseFloat(z) == ParseFloat(z[1..])
  {
    var s := z[1..];
    assert z == ['0'] + s;
    assert Unsigned(z) == z && Unsigned(s) == s;
    var w := DigitRun(s);
    assert DigitRun(z) == ['0'] + w;
    assert z[|['0'] + w|..] == s[|w|..];
    DigitsValueLeadingZero(w);
  }

  lemma {:induction false} DigitsValueLeadingZero(w: string)
    requires AllDigits(w)
    ensures AllDigits(['0'] + w) && DigitsValue(['0'] + w) == DigitsValue(w)
  {
    if w != [] {
      var init := w[..|w| - 1];
      DigitsValueLeadingZero(init);
      assert (['0'] + w)[..|w|] == ['0'] + init;
    }
  }

  /** Everything from the first '.' on passes through `formatDisplayValue` unchanged; only the
      text before it is reformatted. */
  lemma FormatKeepsFraction(value: string)
    requires value != "0"
    ensures var t := StripLeadingZeros(value);
      var head := Split(t, '.')[0];
      && |head| <= |t| && '.' !in head
      && (|head| < |t| ==> t[|head|] == '.')
      && FormatDisplayValue(value) == FormatIntegerPart(head) + t[|head|..]
  {
    var t := StripLeadingZeros(value);
    var parts := Split(t, '.');
    SplitHead(t, '.');
    SplitPiecesFree(t, '.');
    JoinSplit(t, '.');
    JoinReplaceHead(parts, FormatIntegerPart(parts[0]), '.');
  }

  /** When no integer can be read before the first '.', such as in "Undefined" or "NaN",
      `formatDisplayValue` only strips leading zeros. */
  lemma FormatNonNumeric(value: string)
    requires value != "0"
    requires ParseInt(Split(StripLeadingZeros(value), '.')[0]).None?
    ensures FormatDisplayValue(value) == StripLeadingZeros(value)
  {
    var parts := Split(StripLeadingZeros(value), '.');
    assert [parts[0]] + parts[1..] == parts;
    JoinSplit(StripLeadingZeros(value), '.');
  }

  /** Text that starts with neither a digit nor a sign, such as "Undefined" or "NaN", is
      displayed as it is. */
  lemma FormatUnsignedNonDigit(value: string)
    requires |value| > 0 && !IsDigit(value[0]) && value[0] != '-' && value[0] != '+'
    ensures FormatDisplayValue(value) == value
  {
    assert StripLeadingZeros(value) == value;
    SplitHead(value, '.');
    NoLeadingInteger(Split(value, '.')[0], value);
    FormatNonNumeric(value);
  }

  /** `parseInt` finds no integer in a prefix of text that starts with neither a digit nor a sign. */
  lemma NoLeadingInteger(head: string, value: string)
    requires |value| > 0 && !IsDigit(value[0]) && value[0] != '-' && value[0] != '+'
    requires |head| <= |value| && head == value[..|head|]
    ensures ParseInt(head).None?
  {
    if head != [] {
      assert head[0] == value[0];
      assert Unsigned(head) == head;
    }
  }

  /** "Undefined" is displayed as it is. */
  lemma FormatUndefined()
    ensures FormatDisplayValue("Undefined") == "Undefined"
  {
    var u := "Undefined";
    assert u[0] == 'U';
    FormatUnsignedNonDigit(u);
  }

  /** Plain decimal text, as `String(x)` writes it, gets its integer digits grouped by commas
      and nothing else changed. */
  lemma FormatDecimalText(negative: bool, n: nat, frac: string)
    requires AllDigits(frac)
    ensures FormatDisplayValue(DecimalText(negative, NatToDigits(n), frac))
         == DecimalText(negative, Group(NatToDigits(n)), frac)
  {
    RegroupedText(negative, n, DotFraction(frac));
  }

  /** `parseInt` reads an optional '-' and canonical digits as that integer. */
  lemma ParseIntOfDigits(negative: bool, ds: string)
    requires AllDigits(ds) && |ds| > 0
    ensures ParseInt((if negative then "-" else "") + ds) == Some(SignedInt(negative, DigitsValue(ds)))
  {
    var s := (if negative then "-" else "") + ds;
    assert Unsigned(s) == ds by {
      if negative { assert s[1..] == ds; } else { assert s == ds; }
    }
    DigitRunOf(ds, []);
    assert ds + [] == ds;
  }

  /** Removing the commas of grouped decimal text gives the plain text back. */
  lemma UngroupDecimalText(negative: bool, ds: string, frac: string)
    requires AllDigits(ds) && AllDigits(frac)
    ensures RemoveAll(DecimalText(negative, Group(ds), frac), ',') == DecimalText(negative, ds, frac)
  {
    var sign: string := if negative then "-" else "";
    var tail := DotFraction(frac);
    assert ',' !in sign;
    assert ',' !in tail by {
      assert forall i :: 0 <= i < |frac| ==> IsDigit(frac[i]);
      if frac != [] {
        assert tail == ['.'] + frac;
      }
    }
    GroupRemoveCommas(ds);
    RemoveAllAppend(sign + Group(ds), tail, ',');
    RemoveAllAppend(sign, Group(ds), ',');
  }

  /** Removing the commas from the display of a number's text gives that text back: a history
      record's result, with its commas removed, is the exact text `String` wrote. */
  lemma FormatShowRoundTrip(x: Num)
    requires x.Fin?
    ensures RemoveAll(FormatDisplayValue(Show(x)), ',') == Show(x)
  {
    FormatShowRealRoundTrip(x.value, FractionDigits);
  }

  lemma FormatShowRealRoundTrip(r: real, p: nat)
    ensures RemoveAll(FormatDisplayValue(ShowReal(r, p)), ',') == ShowReal(r, p)
  {
    var n := Scaled(r, p);
    var (whole, frac) := SplitScaled(n, p);
    var negative := r < 0.0 && n != 0;
    var t := FractionText(frac, p);
    FormatDecimalText(negative, whole, t);
    UngroupDecimalText(negative, NatToDigits(whole), t);
  }

  /** An integer is displayed as its digits in comma groups of three. */
  lemma FormatInteger(i: int)
    ensures FormatDisplayValue(IntString(i)) == IntlFormat(SignedInt(i < 0, if i < 0 then -i else i))
  {
    var a: nat := if i < 0 then -i else i;
    IntStringText(i);
    FormatDecimalText(i < 0, a, []);
  }

  /** Formatting is idempotent up to the commas it adds: formatting the display again, with its
      commas removed, gives the same display, for any text that has no comma of its own. */
  lemma FormatIdempotent(x: string)
    requires ',' !in x
    ensures FormatDisplayValue(RemoveAll(FormatDisplayValue(x), ',')) == FormatDisplayValue(x)
  {
    if x != "0" {
      var head, tail := StrippedParts(x);
      FormatKeepsFraction(x);
      if ParseInt(head).Some? {
        IntegerRegrouped(ParseInt(head).value, tail);
      } else {
        StrippedFormat(head + tail, head);
      }
    }
  }

  /** Comma-free text, stripped of leading zeros, cut before its first '.': the two parts hold
      no comma, the rest is empty or starts with '.', and nothing more is stripped. */
  lemma StrippedParts(x: string) returns (head: string, tail: string)
    requires ',' !in x
    ensures var t := StripLeadingZeros(x);
      && head == Split(t, '.')[0] && |head| <= |t| && tail == t[|head|..] && head + tail == t
    ensures ',' !in head + tail && ',' !in tail && (tail == [] || tail[0] == '.')
    ensures StripLeadingZeros(head + tail) == head + tail
  {
    var t := StripLeadingZeros(x);
    head := Split(t, '.')[0];
    SplitHead(t, '.');
    tail := t[|head|..];
    SuffixWithout(x, t, ',');
    PartsWithout(head, tail, t, ',');
    StripStripped(x);
  }

  /** Stripping leading zeros twice strips nothing more. */
  lemma StripStripped(x: string)
    ensures StripLeadingZeros(StripLeadingZeros(x)) == StripLeadingZeros(x)
  {
  }

  /** A suffix of text without `c` is without `c`. */
  lemma SuffixWithout(x: string, t: string, c: char)
    requires |t| <= |x| && t == x[|x| - |t|..] && c !in x
    ensures c !in t
  {
    assert forall i :: 0 <= i < |t| ==> t[i] == x[|x| - |t| + i];
  }

  /** Both parts of text without `c`, cut anywhere, are without `c`. */
  lemma PartsWithout(head: string, tail: string, t: string, c: char)
    requires |head| <= |t| && head == t[..|head|] && tail == t[|head|..] && c !in t
    ensures c !in tail && head + tail == t
  {
    assert forall i :: 0 <= i < |tail| ==> tail[i] == t[|head| + i];
  }

  /** Comma-free stripped text with no integer before its first '.' comes back unchanged from
      formatting and comma removal. */
  lemma StrippedFormat(t: string, head: string)
    requires ',' !in t && StripLeadingZeros(t) == t && Split(t, '.')[0] == head && ParseInt(head).None?
    ensures FormatDisplayValue(t) == t
    ensures FormatDisplayValue(RemoveAll(t, ',')) == t
  {
    if t != "0" {
      FormatNonNumeric(t);
    }
  }

  /** An integer part formatted by Intl and a comma-free tail that is empty or starts with '.'
      come back unchanged from comma removal and formatting. */
  lemma IntegerRegrouped(v: SignedInt, tail: string)
    requires ',' !in tail && (tail == [] || tail[0] == '.')
    ensures FormatDisplayValue(RemoveAll(IntlFormat(v) + tail, ',')) == IntlFormat(v) + tail
  {
    var sign: string := if v.negative then "-" else "";
    var ds := NatToDigits(v.magnitude);
    UngroupText(sign, ds, tail);
    RegroupedText(v.negative, v.magnitude, tail);
  }

  /** Removing the commas of a sign, grouped digits and a comma-free tail. */
  lemma UngroupText(sign: string, ds: string, tail: string)
    requires AllDigits(ds) && ',' !in sign && ',' !in tail
    ensures RemoveAll(sign + Group(ds) + tail, ',') == sign + ds + tail
  {
    GroupRemoveCommas(ds);
    RemoveAllAppend(sign + Group(ds), tail, ',');
    RemoveAllAppend(sign, Group(ds), ',');
  }

  /** A sign, the digits of a number and a tail that is empty or starts with '.' are displayed
      as the sign, the grouped digits and the tail. */
  lemma RegroupedText(negative: bool, n: nat, tail: string)
    requires tail == [] || tail[0] == '.'
    ensures var sign: string := if negative then "-" else "";
      FormatDisplayValue(sign + NatToDigits(n) + tail) == sign + Group(NatToDigits(n)) + tail
  {
    var sign: string := if negative then "-" else "";
    var head := sign + NatToDigits(n);
    var x := head + tail;
    if x != "0" {
      SignedHead(negative, n, tail);
      ParseIntOfDigits(negative, NatToDigits(n));
      FormatWithHead(x, head);
    }
  }

  /** The text before the first '.' of a sign, digits and a tail that is empty or starts with
      '.' is the sign and the digits, and there are no leading zeros to strip. */
  lemma SignedHead(negative: bool, n: nat, tail: string)
    requires tail == [] || tail[0] == '.'
    ensures var head := (if negative then "-" else "") + NatToDigits(n);
      && StripLeadingZeros(head + tail) == head + tail
      && Split(head + tail, '.')[0] == head
  {
    SignedDigitsUnstripped(negative, n, tail);
    SignedDigitsWithoutDot(negative, NatToDigits(n));
    SplitFirstPiece((if negative then "-" else "") + NatToDigits(n), tail, '.');
  }

  /** Stripped text is displayed as its part before the first '.' formatted, then the rest. */
  lemma FormatWithHead(x: string, head: string)
    requires x != "0" && StripLeadingZeros(x) == x && Split(x, '.')[0] == head
    ensures |head| <= |x| && FormatDisplayValue(x) == FormatIntegerPart(head) + x[|head|..]
  {
    FormatKeepsFraction(x);
  }

  /** An optional '-' and digits hold no '.'. */
  lemma SignedDigitsWithoutDot(negative: bool, ds: string)
    requires AllDigits(ds)
    ensures '.' !in (if negative then "-" else "") + ds
  {
    var head := (if negative then "-" else "") + ds;
    assert forall i :: 0 <= i < |head| ==> head[i] == '-' || IsDigit(head[i]);
  }

  /** A sign, canonical digits and a tail that is empty or starts with '.' have no leading
      zeros to strip. */
  lemma SignedDigitsUnstripped(negative: bool, n: nat, tail: string)
    requires tail == [] || tail[0] == '.'
    ensures var x := (if negative then "-" else "") + NatToDigits(n) + tail;
      StripLeadingZeros(x) == x
  {
    var ds := NatToDigits(n);
    var x := (if negative then "-" else "") + ds + tail;
    if !negative && ds[0] == '0' && |x| >= 2 {
      assert x[1] == tail[0];
    }
  }

  /** Text with a comma of its own can break idempotence: a word followed by a comma is
      displayed as it is, but without its comma it is displayed as the bare word. */
  lemma CommaBreaksIdempotence(w: string)
    requires |w| > 0 && !IsDigit(w[0]) && w[0] != '-' && w[0] != '+' && ',' !in w
    ensures FormatDisplayValue(RemoveAll(FormatDisplayValue(w + ","), ',')) != FormatDisplayValue(w + ",")
  {
    var wc := w + ",";
    assert wc[0] == w[0];
    FormatUnsignedNonDigit(wc);
    RemoveAllAppend(w, ",", ',');
    assert RemoveAll(",", ',') == [];
    assert RemoveAll(wc, ',') == w;
    FormatUnsignedNonDigit(w);
    assert |w| != |wc|;
  }

  /** With an operation, the expression is both operands formatted around the operator; without
      one it is the first operand as given. */
  lemma ExpressionWithSecondNumber(first: string, second: string, op: Option<Op>)
    ensures op.None? ==> FormatExpressionWithSecondNumber(first, second, op) == first
    ensures op.Some? ==>
      Split(FormatExpressionWithSecondNumber(first, second, op), ' ')
      == Split(FormatDisplayValue(first), ' ') + [[Symbol(op.value)]] + Split(FormatDisplayValue(second), ' ')
  {
    if op.Some? {
      var f, g := FormatDisplayValue(first), FormatDisplayValue(second);
      var c := Symbol(op.value);
      assert f + " " + [c] + " " + g == f + [' '] + ([c] + [' '] + g);
      SplitAppend(f, [c] + [' '] + g, ' ');
      SplitAppend([c], g, ' ');
      SplitWithoutSeparator([c], ' ');
    }
  }
  /** The displayed text of a number holds no space, and without its commas it is the text
      `String` wrote. */
  lemma FormatShowReadsBack(x: Num)
    ensures ' ' !in FormatDisplayValue(Show(x))
    ensures RemoveAll(FormatDisplayValue(Show(x)), ',') == Show(x)
  {
    var f := FormatDisplayValue(Show(x));
    if x.Fin? {
      ShowRealShape(x.value, FractionDigits);
      FormatShowRoundTrip(x);
      RemoveAllKeepsCount(f, ',', ' ');
    } else {
      assert Show(x) == "NaN";
      FormatUnsignedNonDigit("NaN");
    }
  }

  /** The line `formatExpressionWithSecondNumber` writes for two numbers reads back: split at its
      spaces it is the first operand, the symbol and the second operand, and each operand without
      its commas is the text `String` wrote for it. */
  lemma ExpressionReadsBack(a: Num, b: Num, op: Op)
    ensures var pieces := Split(FormatExpressionWithSecondNumber(Show(a), Show(b), Some(op)), ' ');
      && |pieces| == 3
      && RemoveAll(pieces[0], ',') == Show(a)
      && pieces[1] == [Symbol(op)]
      && RemoveAll(pieces[2], ',') == Show(b)
  {
    var f, g := FormatDisplayValue(Show(a)), FormatDisplayValue(Show(b));
    FormatShowReadsBack(a);
    FormatShowReadsBack(b);
    ExpressionWithSecondNumber(Show(a), Show(b), Some(op));
    SpaceFreePieces(f, g, Symbol(op));
  }

  /** Two space-free texts around a symbol, separated by single spaces, split into three pieces. */
  lemma SpaceFreePieces(f: string, g: string, c: char)
    requires ' ' !in f && ' ' !in g
    ensures Split(f, ' ') + [[c]] + Split(g, ' ') == [f, [c], g]
  {
    SplitWithoutSeparator(f, ' ');
    SplitWithoutSeparator(g, ' ');
  }
}

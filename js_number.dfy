/** The JavaScript number built-ins the calculator relies on: `parseFloat`, `parseInt(_, 10)`,
    `Number.prototype.toString` and the digit grouping of `Intl.NumberFormat('en-US')`.
    Numbers are exact reals or NaN; IEEE-754 rounding is not modelled. */
module JsNumber {
  import opened Wrappers
  import opened JsString

  /** A JavaScript number: a finite value or NaN. */
  datatype Num = Fin(value: real) | NaN

  /** `x * -1`. */
  function Negate(x: Num): Num
  {
    match x
    case Fin(r) => Fin(-r)
    case NaN => NaN
  }

  /** `x / 100`. */
  function Hundredth(x: Num): Num
  {
    match x
    case Fin(r) => Fin(r / 100.0)
    case NaN => NaN
  }

  predicate IsDigit(c: char) { '0' <= c <= '9' }

  predicate AllDigits(s: string) { forall i :: 0 <= i < |s| ==> IsDigit(s[i]) }

  function DigitValue(c: char): nat
    requires IsDigit(c)
  {
    c as int - '0' as int
  }

  function DigitChar(d: nat): (c: char)
    requires d < 10
    ensures IsDigit(c) && DigitValue(c) == d
  {
    ('0' as int + d) as char
  }

  function Pow10(k: nat): (p: nat)
    ensures p > 0
  {
    if k == 0 then 1 else 10 * Pow10(k - 1)
  }

  /** The value of a string of decimal digits, most significant first. */
  function DigitsValue(s: string): nat
    requires AllDigits(s)
  {
    if s == [] then 0 else 10 * DigitsValue(s[..|s| - 1]) + DigitValue(s[|s| - 1])
  }

  lemma DigitsValueSnoc(s: string, c: char)
    requires AllDigits(s) && IsDigit(c)
    ensures AllDigits(s + [c]) && DigitsValue(s + [c]) == 10 * DigitsValue(s) + DigitValue(c)
  {
    assert (s + [c])[..|s|] == s;
  }

  /** The canonical decimal digits of `n`: never empty, and starting with '0' only for 0 itself. */
  function NatToDigits(n: nat): (s: string)
    ensures |s| > 0 && AllDigits(s)
    ensures DigitsValue(s) == n
    ensures s[0] == '0' <==> n == 0
    ensures |s| == 1 <==> n < 10
  {
    if n < 10 then
      assert DigitsValue([DigitChar(n)]) == 10 * DigitsValue([]) + n;
      [DigitChar(n)]
    else
      var s := NatToDigits(n / 10) + [DigitChar(n % 10)];
      DigitsValueSnoc(NatToDigits(n / 10), DigitChar(n % 10));
      s
  }

  /** The longest prefix of `s` made of digits. */
  function DigitRun(s: string): (p: string)
    ensures |p| <= |s| && p == s[..|p|] && AllDigits(p)
    ensures |p| < |s| ==> !IsDigit(s[|p|])
  {
    if s == [] || !IsDigit(s[0]) then [] else [s[0]] + DigitRun(s[1..])
  }

  /** A digit run stops exactly where the digits stop. */
  lemma {:induction false} DigitRunOf(a: string, b: string)
    requires AllDigits(a)
    requires b == [] || !IsDigit(b[0])
    ensures DigitRun(a + b) == a
  {
    if a == [] {
      assert a + b == b;
    } else {
      assert (a + b)[1..] == a[1..] + b;
      DigitRunOf(a[1..], b);
      assert a == [a[0]] + a[1..];
    }
  }

  /** Whether the text starts with a minus sign. */
  predicate SignOf(s: string) { |s| > 0 && s[0] == '-' }

  /** The text after an optional leading '+' or '-'. */
  function Unsigned(s: string): string
  {
    if |s| > 0 && (s[0] == '-' || s[0] == '+') then s[1..] else s
  }

  /** `parseFloat(s)`: an optional sign, a run of digits, optionally '.' and a second run of digits,
      with at least one digit in all; whatever follows is ignored, and no digit at all gives NaN. */
  function ParseFloat(s: string): Num
  {
    match ParseUnsigned(Unsigned(s))
    case None => NaN
    case Some(m) => Fin(if SignOf(s) then -m else m)
  }

  /** Text that, after its sign, starts with neither a digit nor '.' holds no number, so
      `parseFloat` reads it as NaN: "Undefined", "NaN", "Undefine" or "-". */
  lemma ParseFloatNoNumber(s: string)
    requires var body := Unsigned(s); body == [] || (!IsDigit(body[0]) && body[0] != '.')
    ensures ParseFloat(s).NaN?
  {
    var body := Unsigned(s);
    assert DigitRun(body) == [];
    assert body[0..] == body;
  }

  /** The unsigned decimal number at the start of `body`, if it starts with one. */
  function ParseUnsigned(body: string): Option<real>
  {
    var whole := DigitRun(body);
    var frac := FractionRun(body[|whole|..]);
    if |whole| + |frac| == 0 then None else Some(DigitsValue(whole) as real + Fraction(frac))
  }

  /** The fraction digits after a leading '.', if there is one. */
  function FractionRun(rest: string): (frac: string)
    ensures AllDigits(frac)
  {
    if |rest| > 0 && rest[0] == '.' then DigitRun(rest[1..]) else []
  }

  /** The value of fraction digits: "25" denotes 25 / 100. */
  function Fraction(frac: string): real
    requires AllDigits(frac)
  {
    Unscale(DigitsValue(frac) as real, |frac|)
  }

  /** `x * 10^p`, one factor of ten at a time. */
  function Scale(x: real, p: nat): (y: real)
    ensures x >= 0.0 ==> y >= 0.0
  {
    if p == 0 then x else 10.0 * Scale(x, p - 1)
  }

  /** `x / 10^p`, one factor of ten at a time. */
  function Unscale(x: real, p: nat): (y: real)
    ensures x >= 0.0 ==> y >= 0.0
    ensures x > 0.0 ==> y > 0.0
    decreases p
  {
    if p == 0 then x else Unscale(x / 10.0, p - 1)
  }

  /** The integer `parseInt` reads, with the sign kept apart so that "-0" stays negative. */
  datatype SignedInt = SignedInt(negative: bool, magnitude: nat)

  /** `parseInt(s, 10)`: an optional sign and a run of digits; no digit gives NaN (`None`). */
  function ParseInt(s: string): Option<SignedInt>
  {
    var digits := DigitRun(Unsigned(s));
    if digits == [] then None else Some(SignedInt(SignOf(s), DigitsValue(digits)))
  }

  /** `new Intl.NumberFormat('en-US', {useGrouping: true, maximumFractionDigits: 0}).format(v)`
      for an integer: the sign, then the digits in comma-separated groups of three. */
  function IntlFormat(v: SignedInt): string
  {
    (if v.negative then "-" else "") + Group(NatToDigits(v.magnitude))
  }

  /** Commas inserted between groups of three digits, counted from the right. */
  function Group(ds: string): (g: string)
    ensures |g| > 0 <==> |ds| > 0
    ensures |ds| <= 3 ==> g == ds
  {
    if |ds| <= 3 then ds else Group(ds[..|ds| - 3]) + "," + ds[|ds| - 3..]
  }

  /** `Group` adds nothing but commas: removing them gives the digits back. */
  lemma {:induction false} GroupRemoveCommas(ds: string)
    requires AllDigits(ds)
    ensures RemoveAll(Group(ds), ',') == ds
  {
    if |ds| > 3 {
      var pre, last := ds[..|ds| - 3], ds[|ds| - 3..];
      GroupRemoveCommas(pre);
      DigitsHaveNoComma(last);
      RemoveCommaJoin(Group(pre), last);
      assert pre + last == ds;
    } else {
      DigitsHaveNoComma(ds);
    }
  }

  lemma DigitsHaveNoComma(ds: string)
    requires AllDigits(ds)
    ensures ',' !in ds
  {
    assert forall i :: 0 <= i < |ds| ==> ds[i] != ',';
  }

  lemma RemoveCommaJoin(x: string, last: string)
    requires ',' !in last
    ensures RemoveAll(x + "," + last, ',') == RemoveAll(x, ',') + last
  {
    RemoveAllAppend(x + ",", last, ',');
    RemoveAllAppend(x, ",", ',');
    assert RemoveAll(",", ',') == [];
    assert RemoveAll(x, ',') + [] == RemoveAll(x, ',');
  }

  /** Every character `Group` writes is a digit or a comma. */
  lemma {:induction false} GroupChars(ds: string)
    requires AllDigits(ds)
    ensures forall c :: c in Group(ds) ==> IsDigit(c) || c == ','
  {
    if |ds| > 3 {
      GroupChars(ds[..|ds| - 3]);
      assert forall c :: c in ds[|ds| - 3..] ==> IsDigit(c);
    } else {
      assert forall c :: c in ds ==> IsDigit(c);
    }
  }

  /** The groups `Group` forms (`split(',')`): the first holds one to three digits, every later
      one exactly three, and there are as many as three-digit groups cover the digits. */
  lemma {:induction false} GroupShape(ds: string)
    requires AllDigits(ds) && |ds| > 0
    ensures var pieces := Split(Group(ds), ',');
      && 1 <= |pieces[0]| <= 3
      && (forall i :: 1 <= i < |pieces| ==> |pieces[i]| == 3)
      && |pieces| == (|ds| + 2) / 3
  {
    if |ds| <= 3 {
      assert ',' !in ds;
      SplitWithoutSeparator(ds, ',');
    } else {
      var pre, last := ds[..|ds| - 3], ds[|ds| - 3..];
      GroupShape(pre);
      assert ',' !in last;
      SplitWithoutSeparator(last, ',');
      SplitAppend(Group(pre), last, ',');
    }
  }

  // ---------------------------------------------------------------------------------------------
  // Number.prototype.toString

  /** How many fraction digits `Show` writes at most. */
  const FractionDigits: nat := 16

  function Magnitude(r: real): (m: real)
    ensures m >= 0.0
  {
    if r < 0.0 then -r else r
  }

  /** |r| * 10^p, truncated to an integer. */
  function Scaled(r: real, p: nat): nat
  {
    Scale(Magnitude(r), p).Floor
  }

  /** `r` truncated toward zero to `p` fraction digits. */
  function Truncate(r: real, p: nat): real
  {
    var t := Unscale(Scaled(r, p) as real, p);
    if r < 0.0 then -t else t
  }

  /** Exactly `p` digits for a value below 10^p, with leading zeros. */
  function FixedDigits(n: nat, p: nat): (s: string)
    requires n < Pow10(p)
    ensures |s| == p && AllDigits(s)
    ensures DigitsValue(s) == n
  {
    if p == 0 then []
    else
      var s := FixedDigits(n / 10, p - 1) + [DigitChar(n % 10)];
      DigitsValueSnoc(FixedDigits(n / 10, p - 1), DigitChar(n % 10));
      s
  }

  /** The digits with their trailing zeros dropped. */
  function TrimTrailingZeros(s: string): (t: string)
    requires AllDigits(s)
    ensures |t| <= |s| && t == s[..|t|] && AllDigits(t)
    ensures t == [] || t[|t| - 1] != '0'
  {
    if |s| > 0 && s[|s| - 1] == '0' then TrimTrailingZeros(s[..|s| - 1]) else s
  }

  /** `q * 10^p`: `q` followed by `p` zero digits. */
  function Shift(q: nat, p: nat): (n: nat)
    ensures n >= q
  {
    if p == 0 then q else 10 * Shift(q, p - 1)
  }

  /** `n` split at its `p`-th digit from the right: the integer part and the low `p` digits. */
  function SplitScaled(n: nat, p: nat): (qf: (nat, nat))
    ensures qf.1 < Pow10(p)
    ensures n == Shift(qf.0, p) + qf.1
  {
    if p == 0 then (n, 0)
    else
      var (q, f) := SplitScaled(n / 10, p - 1);
      (q, 10 * f + n % 10)
  }

  /** `Number.prototype.toString` on a finite value with at most `p` fraction digits:
      a minus sign for a negative non-zero value, the integer digits, and the fraction digits
      (without trailing zeros) after a '.' when there are any. */
  function ShowReal(r: real, p: nat): string
  {
    var n := Scaled(r, p);
    var (whole, frac) := SplitScaled(n, p);
    DecimalText(r < 0.0 && n != 0, NatToDigits(whole), FractionText(frac, p))
  }

  /** Plain decimal text: an optional '-', the integer digits, and a '.' followed by the
      fraction digits when there are any. */
  function DecimalText(negative: bool, whole: string, frac: string): string
  {
    (if negative then "-" else "") + whole + DotFraction(frac)
  }

  function DotFraction(frac: string): string
  {
    if frac == [] then "" else "." + frac
  }

  /** The significant fraction digits of `frac / 10^p`: none for 0, otherwise the `p` digits
      without their trailing zeros; they denote the same fraction. */
  function FractionText(frac: nat, p: nat): (t: string)
    requires frac < Pow10(p)
    ensures AllDigits(t)
    ensures t == [] <==> frac == 0
    ensures Fraction(t) == Unscale(frac as real, p)
  {
    if frac == 0 then
      UnscaleZero(p);
      []
    else
      TrimKeepsFraction(FixedDigits(frac, p));
      TrimTrailingZeros(FixedDigits(frac, p))
  }

  /** `String(x)`. */
  function Show(x: Num): string
  {
    ShowAt(x, FractionDigits)
  }

  /** `String(x)` with at most `p` fraction digits. */
  function ShowAt(x: Num, p: nat): string
  {
    match x
    case Fin(r) => ShowReal(r, p)
    case NaN => "NaN"
  }

  /** The decimal text of an integer. */
  function IntString(i: int): string
  {
    (if i < 0 then "-" else "") + NatToDigits(if i < 0 then -i else i)
  }

  // ---------------------------------------------------------------------------------------------
  // Properties of the number text

  lemma {:induction false} UnscaleZero(p: nat)
    ensures Unscale(0.0, p) == 0.0
  {
    if p > 0 {
      UnscaleZero(p - 1);
    }
  }

  lemma {:induction false} ScaleZero(p: nat)
    ensures Scale(0.0, p) == 0.0
  {
    if p > 0 {
      ScaleZero(p - 1);
    }
  }

  lemma {:induction false} UnscaleAdd(a: real, b: real, p: nat)
    ensures Unscale(a + b, p) == Unscale(a, p) + Unscale(b, p)
    decreases p
  {
    if p > 0 {
      assert (a + b) / 10.0 == a / 10.0 + b / 10.0;
      UnscaleAdd(a / 10.0, b / 10.0, p - 1);
    }
  }

  /** Dividing by 10^p undoes multiplying by it. */
  lemma {:induction false} UnscaleMultiple(q: nat, p: nat)
    ensures Unscale(Shift(q, p) as real, p) == q as real
  {
    if p > 0 {
      assert Shift(q, p) as real / 10.0 == Shift(q, p - 1) as real;
      UnscaleMultiple(q, p - 1);
    }
  }

  /** Multiplying by 10^p undoes dividing by it. */
  lemma {:induction false} ScaleUnscale(x: real, p: nat)
    ensures Scale(Unscale(x, p), p) == x
    decreases p
  {
    if p > 0 {
      ScaleUnscale(x / 10.0, p - 1);
    }
  }

  lemma {:induction false} ScaleNat(q: nat, p: nat)
    ensures Scale(q as real, p) == Shift(q, p) as real
  {
    if p > 0 {
      ScaleNat(q, p - 1);
    }
  }

  /** Dropping trailing zeros of a fraction's digits does not change the fraction they denote. */
  lemma {:induction false} TrimKeepsFraction(s: string)
    requires AllDigits(s)
    ensures Fraction(TrimTrailingZeros(s)) == Fraction(s)
  {
    if |s| > 0 && s[|s| - 1] == '0' {
      var s' := s[..|s| - 1];
      TrimKeepsFraction(s');
      assert s == s' + ['0'];
      DigitsValueSnoc(s', '0');
      var d := DigitsValue(s') as real;
      assert DigitsValue(s) as real == 10.0 * d;
      assert 10.0 * d / 10.0 == d;
    }
  }

  /** The value of an optional '-', integer digits and fraction digits. */
  function DecimalValue(negative: bool, whole: string, frac: string): real
    requires AllDigits(whole) && AllDigits(frac)
  {
    var m := DigitsValue(whole) as real + Fraction(frac);
    if negative then -m else m
  }

  /** `parseFloat` reads plain decimal text as its value. */
  lemma ParseDecimal(negative: bool, whole: string, frac: string)
    requires AllDigits(whole) && |whole| > 0 && AllDigits(frac)
    ensures ParseFloat(DecimalText(negative, whole, frac)) == Fin(DecimalValue(negative, whole, frac))
  {
    var s := DecimalText(negative, whole, frac);
    var m := DigitsValue(whole) as real + Fraction(frac);
    DecimalTextSign(negative, whole, frac);
    DecimalBody(whole, frac);
    ParseFloatOf(s, m);
  }

  lemma DecimalTextSign(negative: bool, whole: string, frac: string)
    requires |whole| > 0 && whole[0] != '-' && whole[0] != '+'
    ensures Unsigned(DecimalText(negative, whole, frac)) == whole + DotFraction(frac)
    ensures SignOf(DecimalText(negative, whole, frac)) == negative
  {
    var s := DecimalText(negative, whole, frac);
    var u := whole + DotFraction(frac);
    if negative {
      assert s == "-" + u;
    } else {
      assert s == u;
    }
  }

  lemma DecimalBody(whole: string, frac: string)
    requires AllDigits(whole) && |whole| > 0 && AllDigits(frac)
    ensures ParseUnsigned(whole + DotFraction(frac)) == Some(DigitsValue(whole) as real + Fraction(frac))
  {
    var tail := DotFraction(frac);
    DigitRunOf(whole, tail);
    assert (whole + tail)[|whole|..] == tail;
    assert FractionRun(tail) == frac by {
      if frac != [] {
        DigitRunOf(frac, []);
        assert frac + [] == frac;
        assert tail[1..] == frac;
      }
    }
    ParseUnsignedOf(whole + tail, whole, frac);
  }

  lemma ParseFloatOf(s: string, m: real)
    requires ParseUnsigned(Unsigned(s)) == Some(m)
    ensures ParseFloat(s) == Fin(if SignOf(s) then -m else m)
  {
  }

  lemma ParseUnsignedOf(body: string, whole: string, frac: string)
    requires |whole| > 0 && DigitRun(body) == whole && FractionRun(body[|whole|..]) == frac
    ensures ParseUnsigned(body) == Some(DigitsValue(whole) as real + Fraction(frac))
  {
    var w := DigitRun(body);
    assert FractionRun(body[|w|..]) == frac;
  }

  /** `parseFloat(String(x))` gives back `x` truncated to `p` fraction digits: the text written
      for a number reads back as the same number as far as it was written out. */
  lemma ShowRoundTrip(r: real, p: nat)
    ensures ParseFloat(ShowReal(r, p)) == Fin(Truncate(r, p))
  {
    var n := Scaled(r, p);
    var (whole, frac) := SplitScaled(n, p);
    var negative := r < 0.0 && n != 0;
    var ds, t := NatToDigits(whole), FractionText(frac, p);
    assert ShowReal(r, p) == DecimalText(negative, ds, t);
    ParseDecimal(negative, ds, t);
    var m := whole as real + Unscale(frac as real, p);
    assert DecimalValue(negative, ds, t) == if negative then -m else m;
    TruncateParts(r, p);
    assert Truncate(r, p) == DecimalValue(negative, ds, t);
  }

  /** `Truncate` in terms of the integer part and the fraction digits `SplitScaled` yields. */
  lemma TruncateParts(r: real, p: nat)
    ensures var n := Scaled(r, p);
      var (whole, frac) := SplitScaled(n, p);
      var m := whole as real + Unscale(frac as real, p);
      Truncate(r, p) == if r < 0.0 && n != 0 then -m else m
  {
    var n := Scaled(r, p);
    var (whole, frac) := SplitScaled(n, p);
    UnscaleAdd(Shift(whole, p) as real, frac as real, p);
    UnscaleMultiple(whole, p);
    if n == 0 {
      UnscaleZero(p);
    }
  }

  /** `n` scaled up by 10^p splits back into `n` and no fraction. */
  lemma {:induction false} SplitScaledMultiple(m: nat, p: nat)
    ensures SplitScaled(Shift(m, p), p) == (m, 0)
  {
    if p > 0 {
      SplitScaledMultiple(m, p - 1);
    }
  }

  /** An integer is written as its plain decimal digits, whatever the precision. */
  lemma ShowInteger(i: int, p: nat)
    ensures ShowReal(i as real, p) == IntString(i)
  {
    var a: nat := if i < 0 then -i else i;
    assert Magnitude(i as real) == a as real;
    ScaleNat(a, p);
    SplitScaledMultiple(a, p);
  }

  /** `parseFloat` reads an integer's decimal text as that integer. */
  lemma ParseIntString(i: int)
    ensures ParseFloat(IntString(i)) == Fin(i as real)
  {
    var a: nat := if i < 0 then -i else i;
    IntStringText(i);
    ParseDecimal(i < 0, NatToDigits(a), []);
    assert DecimalValue(i < 0, NatToDigits(a), []) == i as real;
  }

  lemma IntStringText(i: int)
    ensures IntString(i) == DecimalText(i < 0, NatToDigits(if i < 0 then -i else i), [])
  {
  }

  /** The shape of the text `ShowReal` writes: it starts with '-' or a digit, holds only digits,
      '-' and '.', and at most one '.'. */
  lemma ShowRealShape(r: real, p: nat)
    ensures var s := ShowReal(r, p);
      && |s| > 0 && (s[0] == '-' || IsDigit(s[0]))
      && (forall c :: c in s ==> IsDigit(c) || c == '-' || c == '.')
      && Count(s, '.') <= 1
  {
    var n := Scaled(r, p);
    var (whole, frac) := SplitScaled(n, p);
    DecimalTextShape(r < 0.0 && n != 0, NatToDigits(whole), FractionText(frac, p));
  }

  lemma DecimalTextShape(negative: bool, whole: string, frac: string)
    requires AllDigits(whole) && |whole| > 0 && AllDigits(frac)
    ensures var s := DecimalText(negative, whole, frac);
      && |s| > 0 && (s[0] == '-' || IsDigit(s[0]))
      && (forall c :: c in s ==> IsDigit(c) || c == '-' || c == '.')
      && Count(s, '.') <= 1
  {
    var s := DecimalText(negative, whole, frac);
    var sign: string := if negative then "-" else "";
    var tail := DotFraction(frac);
    assert s == sign + whole + tail;
    assert s[0] == '-' || IsDigit(s[0]) by {
      if negative {
        assert s[0] == sign[0];
      } else {
        assert s[0] == whole[0];
      }
    }
    assert forall c :: c in whole ==> IsDigit(c);
    assert forall c :: c in frac ==> IsDigit(c);
    assert forall c :: c in tail ==> IsDigit(c) || c == '.';
    assert Count(whole, '.') == 0;
    assert Count(tail, '.') <= 1 by {
      if frac != [] {
        CountAppend(".", frac, '.');
        assert Count(frac, '.') == 0;
      }
    }
    CountAppend(sign + whole, tail, '.');
    CountAppend(sign, whole, '.');
  }

  /** `String` never writes a comma. */
  lemma ShowHasNoComma(x: Num)
    ensures ',' !in Show(x)
  {
    if x.Fin? {
      ShowRealShape(x.value, FractionDigits);
    }
  }

  /** Truncation is symmetric around zero. */
  lemma TruncateNegate(r: real, p: nat)
    ensures Truncate(-r, p) == -Truncate(r, p)
  {
    assert Magnitude(-r) == Magnitude(r);
    if r == 0.0 {
      ScaleZero(p);
      UnscaleZero(p);
    }
  }

  /** A truncated value is written exactly as the value itself. */
  lemma ShowTruncate(r: real, p: nat)
    ensures ShowReal(Truncate(r, p), p) == ShowReal(r, p)
  {
    var n := Scaled(r, p);
    var t := Truncate(r, p);
    assert Magnitude(t) == Unscale(n as real, p);
    ScaleUnscale(n as real, p);
    assert Scaled(t, p) == n;
    assert (t < 0.0 && n != 0) == (r < 0.0 && n != 0);
  }

  /** Pressing +/- twice writes the value as pressing it never would have: `String` of the value. */
  lemma ShowNegateTwice(x: Num)
    ensures Show(Negate(ParseFloat(Show(Negate(x))))) == Show(x)
  {
    ShowAtNegateTwice(x, FractionDigits);
  }

  lemma ShowAtNegateTwice(x: Num, p: nat)
    ensures ShowAt(Negate(ParseFloat(ShowAt(Negate(x), p))), p) == ShowAt(x, p)
  {
    if x.Fin? {
      ParseShowAt(Negate(x).value, p);
      NegateTruncateNegate(x.value, p);
      ShowAtTruncate(x.value, p);
    }
  }

  lemma NegateTruncateNegate(r: real, p: nat)
    ensures Negate(Fin(Truncate(Negate(Fin(r)).value, p))) == Fin(Truncate(r, p))
  {
    TruncateNegate(r, p);
  }

  lemma ParseShowAt(r: real, p: nat)
    ensures ParseFloat(ShowAt(Fin(r), p)) == Fin(Truncate(r, p))
  {
    ShowRoundTrip(r, p);
  }

  lemma ShowAtTruncate(r: real, p: nat)
    ensures ShowAt(Fin(Truncate(r, p)), p) == ShowAt(Fin(r), p)
  {
    ShowTruncate(r, p);
  }
}

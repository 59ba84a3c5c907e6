/**
 * JavaScript numbers as the converter meets them: `parseFloat` of a string and
 * the string form `'' + n` of a number. A finite number is modelled as an
 * exact decimal, mantissa × 10^-scale, kept canonical (no trailing zero after
 * the point) so that equal values are equal decimals.
 */
module JsNumber {
  import opened Wrappers
  import opened JsString

  datatype Decimal = Decimal(mantissa: int, scale: nat)

  predicate IsCanonical(d: Decimal) {
    d.scale == 0 || d.mantissa % 10 != 0
  }

  /** A finite number. */
  type Dec = d: Decimal | IsCanonical(d) witness Decimal(0, 0)

  function Abs(m: int): nat {
    if m < 0 then -m else m
  }

  /** Drops trailing zeros after the point. */
  function Normalize(m: int, k: nat): (d: Dec)
    ensures d.scale <= k
    decreases k
  {
    if k > 0 && m % 10 == 0 then Normalize(m / 10, k - 1) else Decimal(m, k)
  }

  /** Normalizing keeps the value: m × 10^-k. */
  lemma {:induction false} NormalizeValue(m: int, k: nat)
    ensures var d := Normalize(m, k); d.mantissa * Pow10(k - d.scale) == m
    decreases k
  {
    if k > 0 && m % 10 == 0 {
      var d := Normalize(m / 10, k - 1);
      NormalizeValue(m / 10, k - 1);
      assert Pow10(k - d.scale) == 10 * Pow10(k - 1 - d.scale);
      MulLeft(d.mantissa, Pow10(k - 1 - d.scale));
    }
  }

  lemma {:induction false} MulLeft(x: int, p: int)
    ensures x * (10 * p) == 10 * (x * p)
  {
  }

  /**
   * The text after the white space and sign that `parseFloat` skips starts a
   * decimal literal: a digit, or a point followed by a digit.
   */
  predicate HasNumericPrefix(s: string) {
    var u := Unsigned(TrimStart(s));
    (u != [] && IsDigit(u[0])) || (|u| >= 2 && u[0] == '.' && IsDigit(u[1]))
  }

  /** The digits after the point of an unsigned decimal literal (none when there is no point). */
  function FractionDigits(rest: string): string
  {
    if rest != [] && rest[0] == '.' then rest[1..][..DecimalPrefix(rest[1..])] else []
  }

  /**
   * The unsigned decimal literal at the start of `u`: integer digits and an
   * optional point with fraction digits, up to the first character that does
   * not continue it. Gives the digits' value and the number of fraction
   * digits, or `None` when there is no digit.
   */
  function ParseUnsigned(u: string): Option<(nat, nat)>
  {
    var intDigits := u[..DecimalPrefix(u)];
    var fracDigits := FractionDigits(u[|intDigits|..]);
    if intDigits == [] && fracDigits == [] then None
    else Some((DigitsValue(intDigits + fracDigits), |fracDigits|))
  }

  /**
   * `parseFloat(s)`: skip white space, read an optional sign and an unsigned
   * decimal literal; `None` stands for `NaN`.
   */
  function ParseFloat(s: string): (r: Option<Dec>)
  {
    var t := TrimStart(s);
    WithSign(t != [] && t[0] == '-', ParseUnsigned(Unsigned(t)))
  }

  /** The number an unsigned literal's digits and fraction length stand for, negated after a minus sign. */
  function WithSign(negative: bool, literal: Option<(nat, nat)>): (r: Option<Dec>)
    ensures r.Some? <==> literal.Some?
  {
    match literal
    case None => None
    case Some((magnitude, k)) => Some(Normalize(if negative then -(magnitude as int) else magnitude, k))
  }

  /** `parseFloat` gives a number exactly when the text has a numeric prefix. */
  lemma {:induction false} ParseFloatDefined(s: string)
    ensures ParseFloat(s).Some? <==> HasNumericPrefix(s)
  {
    ParseUnsignedDefined(Unsigned(TrimStart(s)));
  }

  lemma {:induction false} ParseUnsignedDefined(u: string)
    ensures ParseUnsigned(u).Some? <==> ((u != [] && IsDigit(u[0])) || (|u| >= 2 && u[0] == '.' && IsDigit(u[1])))
  {
    var n := DecimalPrefix(u);
    if u != [] && IsDigit(u[0]) {
      assert n > 0;
    } else {
      assert n == 0;
      assert u[n..] == u;
      if |u| >= 2 && u[0] == '.' {
        var m := DecimalPrefix(u[1..]);
        assert IsDigit(u[1]) <==> m > 0;
      }
    }
  }

  /** `'' + d`: a minus sign for a negative number, then the digits of its magnitude. */
  function Render(d: Dec): (r: string)
  {
    (if d.mantissa < 0 then "-" else "") + RenderMagnitude(Abs(d.mantissa), d.scale)
  }

  /** Integer digits without leading zeros, then the point and the `k` fraction digits if `k > 0`. */
  function RenderMagnitude(m: nat, k: nat): (r: string)
    ensures r != [] && IsDigit(r[0])
  {
    if k == 0 then NatToDigits(m)
    else NatToDigits(IntegerPart(m, k)) + "." + FixedDigits(m, k)
  }

  /** The digits of `m × 10^-k` before the point. */
  function IntegerPart(m: nat, k: nat): nat {
    var p := Pow10(k);
    DivNonnegative(m, p);
    m / p
  }

  lemma {:induction false} DivNonnegative(m: nat, p: nat)
    requires p > 0
    ensures m / p >= 0
  {
  }

  /** Text that starts an exponent, which `parseFloat` would read as part of the number. */
  predicate StartsExponent(u: string) {
    && |u| >= 2 && (u[0] == 'e' || u[0] == 'E')
    && (IsDigit(u[1]) || (|u| >= 3 && (u[1] == '+' || u[1] == '-') && IsDigit(u[2])))
  }

  /** Text that cannot continue a decimal literal written before it. */
  predicate EndsLiteral(u: string) {
    u == [] || (!IsDigit(u[0]) && u[0] != '.' && !StartsExponent(u))
  }

  /** Reading back the rendering of a number, followed by anything that ends the literal, gives the number. */
  lemma {:induction false} ParseRendered(d: Dec, u: string)
    requires EndsLiteral(u)
    ensures ParseFloat(Render(d) + u) == Some(d)
  {
    var magnitude := Abs(d.mantissa);
    var body := RenderMagnitude(magnitude, d.scale);
    var sign := if d.mantissa < 0 then "-" else "";
    assert Render(d) + u == sign + (body + u);
    ParseSigned(sign, body + u);
    ParseMagnitude(magnitude, d.scale, u);
    NormalizeCanonical(d);
  }

  /** After an optional minus sign, `parseFloat` reads the unsigned literal that starts with a digit. */
  lemma {:induction false} ParseSigned(sign: string, v: string)
    requires sign == "-" || sign == ""
    requires v != [] && IsDigit(v[0])
    ensures ParseFloat(sign + v) == WithSign(sign == "-", ParseUnsigned(v))
  {
    if sign == "-" {
      ParseNegative(v);
    } else {
      assert sign + v == v;
      ParseNonNegative(v);
    }
  }

  lemma {:induction false} ParseNegative(v: string)
    ensures ParseFloat("-" + v) == WithSign(true, ParseUnsigned(v))
  {
    var s := "-" + v;
    assert s[0] == '-' && s[1..] == v;
    TrimStartNone(s);
  }

  lemma {:induction false} ParseNonNegative(v: string)
    requires v != [] && IsDigit(v[0])
    ensures ParseFloat(v) == WithSign(false, ParseUnsigned(v))
  {
    DigitNotSpace(v[0]);
    TrimStartNone(v);
  }

  lemma {:induction false} NormalizeCanonical(d: Dec)
    ensures Normalize(d.mantissa, d.scale) == d
  {
  }

  lemma {:induction false} ParseMagnitude(m: nat, k: nat, u: string)
    requires EndsLiteral(u)
    ensures ParseUnsigned(RenderMagnitude(m, k) + u) == Some((m, k))
  {
    if k == 0 {
      ParseWhole(m, u);
    } else {
      ParseFraction(m, k, u);
    }
  }

  lemma {:induction false} ParseWhole(m: nat, u: string)
    requires EndsLiteral(u)
    ensures ParseUnsigned(NatToDigits(m) + u) == Some((m, 0))
  {
    var v := NatToDigits(m) + u;
    DecimalPrefixOf(NatToDigits(m), u);
    assert v[..DecimalPrefix(v)] == NatToDigits(m);
    assert v[DecimalPrefix(v)..] == u;
    assert NatToDigits(m) + [] == NatToDigits(m);
  }

  lemma {:induction false} ParseFraction(m: nat, k: nat, u: string)
    requires k > 0
    requires EndsLiteral(u)
    ensures ParseUnsigned(RenderMagnitude(m, k) + u) == Some((m, k))
  {
    var whole := NatToDigits(IntegerPart(m, k));
    var frac := FixedDigits(m, k);
    assert RenderMagnitude(m, k) + u == whole + ("." + frac + u);
    ParsePointed(whole, frac, u);
    FractionValue(m, k);
  }

  /** Integer digits, a point and fraction digits read as one literal. */
  lemma {:induction false} ParsePointed(whole: string, frac: string, u: string)
    requires whole != [] && AllDigits(whole) && AllDigits(frac)
    requires u == [] || !IsDigit(u[0])
    ensures AllDigits(whole + frac)
    ensures ParseUnsigned(whole + ("." + frac + u)) == Some((DigitsValue(whole + frac), |frac|))
  {
    var v := whole + ("." + frac + u);
    DecimalPrefixOf(whole, "." + frac + u);
    assert v[..DecimalPrefix(v)] == whole;
    assert v[|whole|..] == "." + frac + u;
    FractionOf(frac, u);
  }

  /** The integer digits followed by the fraction digits spell the mantissa. */
  lemma {:induction false} FractionValue(m: nat, k: nat)
    ensures AllDigits(NatToDigits(IntegerPart(m, k)) + FixedDigits(m, k))
    ensures DigitsValue(NatToDigits(IntegerPart(m, k)) + FixedDigits(m, k)) == m
  {
    DigitsValueAppend(NatToDigits(IntegerPart(m, k)), FixedDigits(m, k));
    DivMod(m, Pow10(k));
  }

  lemma {:induction false} DivMod(m: nat, p: nat)
    requires p > 0
    ensures m / p * p + m % p == m
  {
  }

  lemma {:induction false} FractionOf(frac: string, u: string)
    requires AllDigits(frac)
    requires u == [] || !IsDigit(u[0])
    ensures FractionDigits("." + frac + u) == frac
  {
    assert ("." + frac + u)[1..] == frac + u;
    DecimalPrefixOf(frac, u);
    assert (frac + u)[..|frac|] == frac;
  }
}

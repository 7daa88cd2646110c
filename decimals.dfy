/** The `decimal` values the core reads and writes: parsing with
    `decimal.TryParse`, the one-decimal rendering `ToString("#.#")`,
    `Convert.ToDecimal` of such a rendering, and comparison. */
module Decimals {
  import opened Common

  /** mantissa / 10^scale, the exact value of a .NET `decimal`. */
  datatype Decimal = Decimal(mantissa: int, scale: nat)

  const Zero: Decimal := Decimal(0, 0)

  function Pow10(n: nat): (r: nat)
    ensures r >= 1
  {
    if n == 0 then 1 else 10 * Pow10(n - 1)
  }

  function Abs(x: int): nat { if x < 0 then -x else x }

  /** a > b as exact rationals. */
  predicate Greater(a: Decimal, b: Decimal)
  {
    a.mantissa * Pow10(b.scale) > b.mantissa * Pow10(a.scale)
  }

  /** A `decimal(5,3)` temperature, stored as thousandths, as a `decimal`. */
  function FromThousandths(milli: int): Decimal
  {
    Decimal(milli, 3)
  }

  // ---------------------------------------------------------------------------
  // decimal.TryParse

  predicate IsDigit(c: char) { '0' <= c <= '9' }

  predicate AllDigits(s: string) { forall i :: 0 <= i < |s| ==> IsDigit(s[i]) }

  function DigitsValue(s: string): (n: nat)
    requires AllDigits(s)
  {
    if s == [] then 0 else 10 * DigitsValue(s[..|s| - 1]) + (s[|s| - 1] - '0') as nat
  }

  /** The index of the first '.', or |s| when there is none. */
  function DotIndex(s: string): (k: nat)
    ensures k <= |s|
    ensures k < |s| ==> s[k] == '.'
    ensures forall i :: 0 <= i < k ==> s[i] != '.'
  {
    if s == [] then 0 else if s[0] == '.' then 0 else 1 + DotIndex(s[1..])
  }

  /** The text after an optional leading sign. */
  function Unsigned(s: string): string
  {
    if |s| > 0 && (s[0] == '-' || s[0] == '+') then s[1..] else s
  }

  /** Digits with at most one '.', and at least one digit. */
  predicate IsUnsignedText(u: string)
  {
    exists k :: 0 <= k <= |u| && AllDigits(u[..k]) &&
      (k == |u| || (u[k] == '.' && AllDigits(u[k + 1..]))) &&
      |u| - (if k < |u| then 1 else 0) > 0
  }

  /** The accepted grammar: an optional sign, then an unsigned decimal. */
  predicate IsDecimalSyntax(s: string)
  {
    IsUnsignedText(Unsigned(s))
  }

  /** The largest magnitude a .NET `decimal` holds, 2^96 - 1. */
  const MaxDecimalMagnitude: nat := 79228162514264337593543950335

  /** |d| does not exceed `decimal.MaxValue`. */
  predicate InDecimalRange(d: Decimal)
  {
    Abs(d.mantissa) <= MaxDecimalMagnitude * Pow10(d.scale)
  }

  /** The digits before the first '.'. */
  function WholeDigits(u: string): string
  {
    u[..DotIndex(u)]
  }

  /** The digits after the first '.', none when there is no '.'. */
  function FractionDigits(u: string): string
  {
    if DotIndex(u) < |u| then u[DotIndex(u) + 1..] else ""
  }

  /** n with k zeros appended. */
  function Shift(n: nat, k: nat): nat
  {
    n * Pow10(k)
  }

  /** The value the digits of an unsigned decimal text denote: the whole part scaled up
      by the fraction's length, plus the fraction. */
  function UnsignedValue(u: string): (d: Decimal)
    requires IsUnsignedText(u)
    ensures d.mantissa >= 0
  {
    UnsignedAccepts(u);
    var whole, frac := WholeDigits(u), FractionDigits(u);
    Decimal(Shift(DigitsValue(whole), |frac|) + DigitsValue(frac), |frac|)
  }

  /** The value a decimal text denotes, negated after a leading '-'. */
  function SyntaxValue(s: string): Decimal
    requires IsDecimalSyntax(s)
  {
    var d := UnsignedValue(Unsigned(s));
    if |s| > 0 && s[0] == '-' then Decimal(-d.mantissa, d.scale) else d
  }

  /** The texts `decimal.TryParse` accepts: the grammar, with a value in range. */
  predicate IsDecimalText(s: string)
  {
    IsDecimalSyntax(s) && InDecimalRange(SyntaxValue(s))
  }

  /** Reads the digits before the first '.' and after it as one run of digits. */
  function ParseUnsigned(u: string): (r: Option<Decimal>)
    ensures r.Some? ==> r.value.mantissa >= 0
  {
    var whole, frac := WholeDigits(u), FractionDigits(u);
    if AllDigits(whole) && AllDigits(frac) && |whole| + |frac| > 0
    then Some(Decimal(DigitsValue(whole + frac), |frac|))
    else None
  }

  /** `decimal.TryParse(s, out d)`: Some(d) when it returns true, false on a text outside
      the grammar and on a value beyond `decimal.MaxValue`. */
  function ParseDecimal(s: string): (r: Option<Decimal>)
    ensures r.Some? <==> IsDecimalText(s)
    ensures r.Some? ==> r.value == SyntaxValue(s)
  {
    UnsignedAccepts(Unsigned(s));
    match ParseUnsigned(Unsigned(s))
    case None => None
    case Some(d) =>
      ParseUnsignedValue(Unsigned(s));
      var v := if |s| > 0 && s[0] == '-' then Decimal(-d.mantissa, d.scale) else d;
      if InDecimalRange(v) then Some(v) else None
  }

  /** A split point of the grammar is the first '.', or the end when there is none. */
  lemma SplitIsFirstDot(u: string, k: nat)
    requires k <= |u| && AllDigits(u[..k]) && (k == |u| || u[k] == '.')
    ensures DotIndex(u) == k
  {
    assert forall i :: 0 <= i < k ==> u[..k][i] == u[i];
  }

  lemma UnsignedAccepts(u: string)
    ensures ParseUnsigned(u).Some? <==> IsUnsignedText(u)
    ensures IsUnsignedText(u) ==> AllDigits(WholeDigits(u)) && AllDigits(FractionDigits(u))
  {
    var d := DotIndex(u);
    if ParseUnsigned(u).Some? {
      assert 0 <= d <= |u| && AllDigits(u[..d]);
    }
    if IsUnsignedText(u) {
      var k :| 0 <= k <= |u| && AllDigits(u[..k]) &&
        (k == |u| || (u[k] == '.' && AllDigits(u[k + 1..]))) &&
        |u| - (if k < |u| then 1 else 0) > 0;
      SplitIsFirstDot(u, k);
      assert ParseUnsigned(u).Some?;
    }
  }

  lemma ConcatDigits(a: string, b: string)
    requires AllDigits(a) && AllDigits(b)
    ensures AllDigits(a + b)
  {
    assert forall i :: 0 <= i < |a + b| ==> (a + b)[i] == if i < |a| then a[i] else b[i - |a|];
  }

  /** The digits of a + b read as one number: a shifted left by |b| places, plus b. */
  lemma {:induction false} DigitsValueConcat(a: string, b: string)
    requires AllDigits(a) && AllDigits(b)
    ensures AllDigits(a + b)
    ensures DigitsValue(a + b) == Shift(DigitsValue(a), |b|) + DigitsValue(b)
  {
    ConcatDigits(a, b);
    if b == [] {
      assert a + b == a;
    } else {
      var b' := b[..|b| - 1];
      var c := (b[|b| - 1] - '0') as nat;
      assert AllDigits(b');
      ConcatDigits(a, b');
      assert DigitsValue(a + b) == 10 * DigitsValue(a + b') + c by {
        assert (a + b)[..|a + b| - 1] == a + b';
        assert (a + b)[|a + b| - 1] == b[|b| - 1];
      }
      DigitsValueConcat(a, b');
      ShiftStep(DigitsValue(a), |b|);
    }
  }

  lemma ShiftStep(n: nat, k: nat)
    requires k > 0
    ensures Shift(n, k) == 10 * Shift(n, k - 1)
  {
    assert n * (10 * Pow10(k - 1)) == 10 * (n * Pow10(k - 1));
  }

  /** Reading the digits as one run gives the value of the whole part and the fraction. */
  lemma ParseUnsignedValue(u: string)
    requires IsUnsignedText(u)
    ensures ParseUnsigned(u) == Some(UnsignedValue(u))
  {
    UnsignedAccepts(u);
    DigitsValueConcat(WholeDigits(u), FractionDigits(u));
  }

  /** The value of a text written as sign + whole + "." + fraction (the point and the
      fraction optional): the digits read as one number, scaled by the fraction's length,
      negated after '-', and refused beyond `decimal.MaxValue`. */
  lemma {:induction false} ParseDecimalValue(sign: string, whole: string, frac: string, point: bool)
    requires sign == "" || sign == "-" || sign == "+"
    requires AllDigits(whole) && AllDigits(frac) && |whole| + |frac| > 0
    requires point || frac == ""
    ensures var m := DigitsValue(whole) * Pow10(|frac|) + DigitsValue(frac);
            var v := Decimal(if sign == "-" then -m else m, |frac|);
            ParseDecimal(sign + whole + (if point then "." + frac else "")) ==
              if InDecimalRange(v) then Some(v) else None
  {
    var m := DigitsValue(whole) * Pow10(|frac|) + DigitsValue(frac);
    var v := Decimal(if sign == "-" then -m else m, |frac|);
    SyntaxOfParts(sign, whole, frac, point, v);
    ParseOfSyntax(sign + whole + (if point then "." + frac else ""), v);
  }

  lemma ParseOfSyntax(s: string, v: Decimal)
    requires IsDecimalSyntax(s) && SyntaxValue(s) == v
    ensures ParseDecimal(s) == if InDecimalRange(v) then Some(v) else None
  {
  }

  lemma SyntaxOfParts(sign: string, whole: string, frac: string, point: bool, v: Decimal)
    requires sign == "" || sign == "-" || sign == "+"
    requires AllDigits(whole) && AllDigits(frac) && |whole| + |frac| > 0
    requires point || frac == ""
    requires var m := DigitsValue(whole) * Pow10(|frac|) + DigitsValue(frac);
             v == Decimal(if sign == "-" then -m else m, |frac|)
    ensures var s := sign + whole + (if point then "." + frac else "");
            IsDecimalSyntax(s) && SyntaxValue(s) == v
  {
    var u := whole + (if point then "." + frac else "");
    var s := sign + whole + (if point then "." + frac else "");
    var negative := |s| > 0 && s[0] == '-';
    assert Unsigned(s) == u && IsUnsignedText(u) && (negative <==> sign == "-") by {
      Associative(sign, whole, if point then "." + frac else "");
      SplitParts(whole, frac, point);
      SignStripped(sign, u);
    }
    assert UnsignedValue(u) == Decimal(DigitsValue(whole) * Pow10(|frac|) + DigitsValue(frac), |frac|) by {
      SplitParts(whole, frac, point);
    }
  }

  lemma Associative(a: string, b: string, c: string)
    ensures a + b + c == a + (b + c)
  {
  }

  lemma SignStripped(sign: string, u: string)
    requires sign == "" || sign == "-" || sign == "+"
    requires |u| > 0 && u[0] != '-' && u[0] != '+'
    ensures Unsigned(sign + u) == u
    ensures var s := sign + u; (|s| > 0 && s[0] == '-') <==> sign == "-"
  {
    if sign == "" {
      assert sign + u == u;
    } else {
      assert (sign + u)[1..] == u;
    }
  }

  lemma SplitParts(whole: string, frac: string, point: bool)
    requires AllDigits(whole) && AllDigits(frac) && |whole| + |frac| > 0
    requires point || frac == ""
    ensures var u := whole + (if point then "." + frac else "");
            && |u| > 0 && u[0] != '-' && u[0] != '+'
            && IsUnsignedText(u) && WholeDigits(u) == whole && FractionDigits(u) == frac
  {
    var u := whole + (if point then "." + frac else "");
    assert u[..|whole|] == whole;
    if point {
      assert u[|whole|] == '.';
      assert u[|whole| + 1..] == frac;
    } else {
      assert u == whole;
    }
    assert u[0] != '-' && u[0] != '+' by {
      if |whole| > 0 { assert u[0] == whole[0]; } else { assert u[0] == '.'; }
    }
    SplitIsFirstDot(u, |whole|);
  }

  /** A run of digits parses to the number it spells, within the range of `decimal`. */
  lemma ParseDigitsOnly(s: string)
    requires AllDigits(s) && |s| > 0
    ensures ParseDecimal(s) ==
              if DigitsValue(s) <= MaxDecimalMagnitude then Some(Decimal(DigitsValue(s), 0)) else None
  {
    ParseDecimalValue("", s, "", false);
    assert "" + s + "" == s;
  }

  // ---------------------------------------------------------------------------
  // ToString("#.#") and Convert.ToDecimal

  /** The rendering `d.ToString("#.#")`: `Blank` is the empty string "#.#" prints for a
      value that rounds to zero tenths; `Shown(t)` prints t tenths. The empty string of
      outer-join rows without a temperature is the same `Blank`. */
  datatype OneDecimal = Blank | Shown(tenths: int)

  /** Rounds a / u to the nearest whole number, halves up. */
  function RoundHalfUp(a: nat, u: nat): (m: nat)
    requires u >= 1
    ensures 2 * Abs(m * u - a) <= u
    ensures 2 * Abs(m * u - a) == u ==> m * u > a
  {
    var q, rem := a / u, a % u;
    var m := if 2 * rem >= u then q + 1 else q;
    RoundingBound(a, u, q, rem, m);
    m
  }

  lemma RoundingBound(a: nat, u: nat, q: nat, rem: nat, m: nat)
    requires u >= 1 && q == a / u && rem == a % u
    requires m == if 2 * rem >= u then q + 1 else q
    ensures 2 * Abs(m * u - a) <= u
    ensures 2 * Abs(m * u - a) == u ==> m * u > a
  {
    assert a == q * u + rem;
    if 2 * rem >= u {
      assert m * u == q * u + u;
    } else {
      assert m * u == q * u;
    }
  }

  /** Rounds d to a whole number of tenths, halves away from zero. */
  function RoundToTenths(d: Decimal): (t: int)
    ensures d.scale == 0 ==> t == 10 * d.mantissa
    ensures d.scale > 0 ==> 2 * Abs(t * Pow10(d.scale - 1) - d.mantissa) <= Pow10(d.scale - 1)
    ensures d.scale > 0 && 2 * Abs(t * Pow10(d.scale - 1) - d.mantissa) == Pow10(d.scale - 1) ==>
              Abs(t * Pow10(d.scale - 1)) > Abs(d.mantissa)
  {
    if d.scale == 0 then 10 * d.mantissa
    else
      var u := Pow10(d.scale - 1);
      var m: int := RoundHalfUp(Abs(d.mantissa), u);
      NegatedProduct(m, u);
      if d.mantissa < 0 then -m else m
  }

  lemma NegatedProduct(m: int, u: int)
    ensures (-m) * u == -(m * u)
  {
  }

  function RenderOneDecimal(d: Decimal): (r: OneDecimal)
    ensures r.Blank? <==> RoundToTenths(d) == 0
    ensures r.Shown? ==> r.tenths == RoundToTenths(d)
  {
    var t := RoundToTenths(d);
    if t == 0 then Blank else Shown(t)
  }

  /** `Convert.ToDecimal(text)`: fails on the empty string. */
  function ToDecimal(text: OneDecimal): (r: Option<Decimal>)
    ensures r.None? <==> text.Blank?
    ensures r.Some? ==> r.value == Decimal(text.tenths, 1)
  {
    match text
    case Blank => None
    case Shown(t) => Some(Decimal(t, 1))
  }

  /** A non-zero value already given in tenths renders to itself and converts back. */
  lemma {:induction false} OneDecimalRoundTrip(d: Decimal)
    requires d.scale == 1 && d.mantissa != 0
    ensures ToDecimal(RenderOneDecimal(d)) == Some(d)
  {
    var t := RoundToTenths(d);
    assert Pow10(0) == 1;
    assert 2 * Abs(t - d.mantissa) <= 1;
  }
}

/**
 * The JavaScript number built-ins the clip tool relies on: `parseInt(s, 10)`,
 * `parseFloat(s)`, `Math.floor` and the `%` operator, over `real` instead of
 * IEEE doubles. `NaN` is `None`.
 *
 * Only the decimal forms are read: optional leading white space, an optional
 * sign, digits and (for `parseFloat`) an optional fraction. Exponents and
 * `Infinity` are not part of this model.
 */
module JsNumber {
  import opened Wrappers
  import opened Text

  /** Length of the run of decimal digits at the front of `s`. */
  function DigitPrefixLen(s: string): (n: nat)
    ensures n <= |s|
    ensures forall i :: 0 <= i < n ==> IsDigit(s[i])
    ensures n < |s| ==> !IsDigit(s[n])
    decreases |s|
  {
    if s != [] && IsDigit(s[0]) then 1 + DigitPrefixLen(s[1..]) else 0
  }

  function Pow10(n: nat): (r: nat)
    ensures r >= 1
  {
    if n == 0 then 1 else 10 * Pow10(n - 1)
  }

  /** The text after leading white space and an optional `+` or `-`. */
  function Unsigned(s: string): string {
    var t := TrimStart(s);
    if |t| > 0 && (t[0] == '-' || t[0] == '+') then t[1..] else t
  }

  predicate Negative(s: string) {
    var t := TrimStart(s);
    |t| > 0 && t[0] == '-'
  }

  /** `parseInt(s, 10)` */
  function ParseInt(s: string): Option<int> {
    var u := Unsigned(s);
    var n := DigitPrefixLen(u);
    var magnitude: int := DigitsValue(u[..n]);
    if n == 0 then None
    else if Negative(s) then Some(-magnitude)
    else Some(magnitude)
  }

  /** The digits after a leading `.` of `rest`, if it starts with one. */
  function Fraction(rest: string): (f: string)
    ensures forall i :: 0 <= i < |f| ==> IsDigit(f[i])
  {
    if |rest| > 0 && rest[0] == '.' then rest[1..][..DigitPrefixLen(rest[1..])] else []
  }

  /** The value of the digits after the decimal point. */
  function FractionValue(frac: string): real
    requires forall i :: 0 <= i < |frac| ==> IsDigit(frac[i])
  {
    if frac == [] then 0.0 else DigitsValue(frac) as real / Pow10(|frac|) as real
  }

  /** `parseFloat(s)` */
  function ParseFloat(s: string): Option<real> {
    var u := Unsigned(s);
    var n := DigitPrefixLen(u);
    var frac := Fraction(u[n..]);
    if n == 0 && frac == [] then None
    else
      var magnitude := DigitsValue(u[..n]) as real + FractionValue(frac);
      Some(if Negative(s) then -magnitude else magnitude)
  }

  /** `Math.floor(x)` */
  function Floor(x: real): int {
    x.Floor
  }

  /** `Math.trunc(x)`: rounds toward zero. */
  function Trunc(x: real): int {
    if x >= 0.0 then x.Floor else -((-x).Floor)
  }

  /** JavaScript's `x % y`: the remainder takes the sign of `x`. */
  function Rem(x: real, y: real): real
    requires y != 0.0
  {
    x - y * Trunc(x / y) as real
  }

  /** A string of digits has no sign or leading white space to skip. */
  lemma UnsignedDigits(s: string)
    requires s != [] && forall i :: 0 <= i < |s| ==> IsDigit(s[i])
    ensures Unsigned(s) == s && !Negative(s) && DigitPrefixLen(s) == |s|
  {
    assert !IsSpace(s[0]) && s[0] != '-' && s[0] != '+';
    assert TrimStart(s) == s;
  }

  /** A string of digits is read back by `parseInt` as its value. */
  lemma ParseIntOfDigits(s: string)
    requires s != [] && forall i :: 0 <= i < |s| ==> IsDigit(s[i])
    ensures ParseInt(s).Some? && ParseInt(s).value == DigitsValue(s)
  {
    UnsignedDigits(s);
    assert s[..|s|] == s;
  }

  /** A string of digits is read back by `parseFloat` as its value. */
  lemma ParseFloatOfDigits(s: string)
    requires s != [] && forall i :: 0 <= i < |s| ==> IsDigit(s[i])
    ensures ParseFloat(s).Some? && ParseFloat(s).value == DigitsValue(s) as real
  {
    UnsignedDigits(s);
    var u := Unsigned(s);
    assert u[..|s|] == s;
    assert u[|s|..] == [];
    var frac := Fraction(u[|s|..]);
    assert frac == [] && FractionValue(frac) == 0.0;
  }

  /** Flooring after subtracting a whole number subtracts it from the floor. */
  lemma FloorMinusInt(x: real, k: int)
    ensures (x - k as real).Floor == x.Floor - k
  {
  }

  /** For a non-negative `x`, `x % 60` is `x` less 60 times `Math.floor(x / 60)`. */
  lemma RemOfNonNegative(x: real)
    requires x >= 0.0
    ensures Rem(x, 60.0) == x - 60.0 * Floor(x / 60.0) as real
    ensures 0 <= Floor(Rem(x, 60.0)) < 60
    ensures Floor(Rem(x, 60.0)) == Floor(x) - 60 * Floor(x / 60.0)
  {
    var m := (x / 60.0).Floor;
    assert m as real <= x / 60.0 < m as real + 1.0;
    assert 60.0 * m as real <= x < 60.0 * m as real + 60.0;
    FloorMinusInt(x, 60 * m);
  }
}

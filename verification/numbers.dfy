/** The JavaScript numbers the progress parser produces: `parseFloat` of a
    run of digits and dots, `Math.round`, and multiplication, with NaN kept as
    a value of its own. */
module Numbers {
  import opened Text

  /** A JavaScript number: a finite value or NaN. */
  datatype JsNumber = Finite(value: real) | NaN

  function Pow10(k: nat): (r: nat)
    ensures r >= 1
  {
    if k == 0 then 1 else 10 * Pow10(k - 1)
  }

  predicate IsDigitOrDot(c: char) { IsDigit(c) || c == '.' }

  /** The value of a string of decimal digits. */
  function DecimalValue(s: string): nat
    requires forall c | c in s :: IsDigit(c)
  {
    RadixValue(s, 10)
  }

  lemma {:induction false} DecimalValueBound(s: string)
    requires forall c | c in s :: IsDigit(c)
    ensures DecimalValue(s) < Pow10(|s|)
  {
    if s != [] {
      DecimalValueBound(s[..|s| - 1]);
      assert DigitValue(s[|s| - 1]) < 10;
    }
  }

  /** `parseFloat(s)` for a string made of digits and dots, the only kind the
      regular expressions of the progress parser capture: the leading digits,
      then the digits after the first dot if there is one; everything from a
      second dot on is ignored, and no digit at all gives NaN. */
  function ParseDecimal(s: string): (r: JsNumber)
    requires forall c | c in s :: IsDigitOrDot(c)
    ensures r.Finite? <==> (|s| > 0 && IsDigit(s[0])) || (|s| > 1 && IsDigit(s[1]))
  {
    var whole := TakeWhile(s, IsDigit);
    var frac := if |whole| < |s| then TakeWhile(s[|whole| + 1..], IsDigit) else "";
    if whole == "" && frac == "" then NaN
    else Finite(DecimalValue(whole) as real + DecimalValue(frac) as real / Pow10(|frac|) as real)
  }

  /** `Math.round(x)`: the nearest integer, halves rounded up. */
  function Round(x: real): (n: int)
    ensures n as real - 0.5 <= x < n as real + 0.5
  {
    (x + 0.5).Floor
  }

  /** `a * k` for a finite integer factor. */
  function Times(a: JsNumber, k: nat): JsNumber {
    match a
    case Finite(v) => Finite(v * k as real)
    case NaN => NaN
  }

  /** Rounding is monotonic. */
  lemma RoundMonotonic(x: real, y: real)
    requires x <= y
    ensures Round(x) <= Round(y)
  {}

  /** A decimal rendering reads back as its number. */
  lemma {:induction false} ParseDecimalOfInteger(n: nat)
    ensures forall c | c in NatToString(n) :: IsDigitOrDot(c)
    ensures ParseDecimal(NatToString(n)) == Finite(n as real)
  {
    var s := NatToString(n);
    TakeWhileConcat(s, "", IsDigit);
    assert s + "" == s;
    NatToStringValue(n);
  }

  /** The value of a parsed decimal lies between its integer part and the next
      integer. */
  lemma ParseDecimalBounds(s: string)
    requires forall c | c in s :: IsDigitOrDot(c)
    requires ParseDecimal(s).Finite?
    ensures var whole := TakeWhile(s, IsDigit);
      DecimalValue(whole) as real <= ParseDecimal(s).value < DecimalValue(whole) as real + 1.0
  {
    var whole := TakeWhile(s, IsDigit);
    var frac := if |whole| < |s| then TakeWhile(s[|whole| + 1..], IsDigit) else "";
    DecimalValueBound(frac);
    FractionBelowOne(DecimalValue(frac) as real, Pow10(|frac|) as real);
  }

  lemma FractionBelowOne(a: real, b: real)
    requires 0.0 <= a < b
    ensures 0.0 <= a / b < 1.0
  {
    assert a / b * b == a;
  }
}

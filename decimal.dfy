/** Exact values of digit strings and of decimal numerals. The source reads
    amounts with `float(...)` and hours with `int(...)`; here a numeral has
    its exact value. */
module Decimal {
  import opened Text

  function DigitValue(c: char): (v: nat)
    requires IsDigit(c)
    ensures v <= 9
    ensures v == 0 <==> c == '0'
  {
    c as int - '0' as int
  }

  /** `int(ds)` for a string of ASCII digits. */
  function NatValue(ds: string): nat
    requires AllDigits(ds)
  {
    if ds == [] then 0
    else 10 * NatValue(ds[..|ds| - 1]) + DigitValue(ds[|ds| - 1])
  }

  function Pow10(n: nat): (r: nat)
    ensures r >= 1
  {
    if n == 0 then 1 else 10 * Pow10(n - 1)
  }

  /** Some character is a digit other than zero. */
  predicate HasNonZeroDigit(ds: string) {
    exists k :: 0 <= k < |ds| && IsDigit(ds[k]) && ds[k] != '0'
  }

  /** A digit string has a value below 10^|ds|, and a positive one exactly
      when some digit is not zero. */
  lemma {:induction false} NatValueBounds(ds: string)
    requires AllDigits(ds)
    ensures NatValue(ds) < Pow10(|ds|)
    ensures NatValue(ds) > 0 <==> HasNonZeroDigit(ds)
  {
    if ds != [] {
      var init := ds[..|ds| - 1];
      NatValueBounds(init);
      if HasNonZeroDigit(init) {
        var k :| 0 <= k < |init| && IsDigit(init[k]) && init[k] != '0';
        assert ds[k] == init[k];
      }
      if HasNonZeroDigit(ds) && !HasNonZeroDigit(init) {
        assert ds[|ds| - 1] != '0';
      }
    }
  }

  /** The exact value of the numeral `whole.frac`. */
  function DecimalValue(whole: string, frac: string): (r: real)
    requires AllDigits(whole) && AllDigits(frac)
    ensures r >= 0.0
  {
    NatValue(whole) as real + NatValue(frac) as real / Pow10(|frac|) as real
  }

  lemma FractionBelowOne(f: real, p: real)
    requires 0.0 <= f < p
    ensures 0.0 <= f / p < 1.0
    ensures f / p > 0.0 <==> f > 0.0
  {
    var q := f / p;
    assert q * p == f;
    assert q >= 1.0 ==> q * p >= p;
    assert q < 0.0 ==> q * p < 0.0;
  }

  /** The digits before the dot are the integer part; the value is positive
      exactly when some digit of the numeral is not zero. */
  lemma DecimalValueProperties(whole: string, frac: string)
    requires AllDigits(whole) && AllDigits(frac)
    ensures NatValue(whole) as real <= DecimalValue(whole, frac) < NatValue(whole) as real + 1.0
    ensures DecimalValue(whole, frac) > 0.0 <==> HasNonZeroDigit(whole) || HasNonZeroDigit(frac)
  {
    NatValueBounds(whole);
    NatValueBounds(frac);
    FractionBelowOne(NatValue(frac) as real, Pow10(|frac|) as real);
  }

  /** Digits written after others shift them by one place each. */
  lemma {:induction false} NatValueAppend(w: string, f: string)
    requires AllDigits(w) && AllDigits(f)
    ensures AllDigits(w + f) && NatValue(w + f) == NatValue(w) * Pow10(|f|) + NatValue(f)
  {
    assert forall k :: 0 <= k < |w + f| ==> (w + f)[k] == if k < |w| then w[k] else f[k - |w|];
    if f == [] {
      assert w + f == w;
    } else {
      var init, d := f[..|f| - 1], DigitValue(f[|f| - 1]);
      assert (w + f)[..|w + f| - 1] == w + init;
      NatValueAppend(w, init);
      assert NatValue(w + f) == 10 * NatValue(w + init) + d;
      assert NatValue(f) == 10 * NatValue(init) + d;
      assert Pow10(|f|) == 10 * Pow10(|init|);
      Shift(NatValue(w), Pow10(|init|), NatValue(init), d);
    }
  }

  lemma Shift(a: int, p: int, b: int, d: int)
    ensures 10 * (a * p + b) + d == a * (10 * p) + (10 * b + d)
  {
  }

  /** The numeral `whole.frac` is the value of its digits read without the
      dot, divided by 10^|frac|. */
  lemma DecimalValueDigits(whole: string, frac: string)
    requires AllDigits(whole) && AllDigits(frac)
    ensures AllDigits(whole + frac)
      && DecimalValue(whole, frac) == NatValue(whole + frac) as real / Pow10(|frac|) as real
  {
    NatValueAppend(whole, frac);
    Unscale(NatValue(whole), NatValue(frac), Pow10(|frac|), NatValue(whole + frac));
  }

  /** `a + b / n` is `(a * n + b) / n`. */
  lemma Unscale(a: int, b: int, n: int, c: int)
    requires n > 0 && c == a * n + b
    ensures a as real + b as real / n as real == c as real / n as real
  {
    assert (a * n) as real == a as real * n as real;
  }
}

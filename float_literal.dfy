/**
 * Python's `float()` applied to a token made only of digits and dots, which is
 * all the coordinate pattern ever hands it: `"46.00"`, `"7."` and `".5"` are
 * numbers, while `"."` and `"1.2.3"` make `float()` raise (here: `None`).
 * Values are exact `real`s; IEEE rounding is not modelled.
 */
module FloatLiteral {
  import opened Wrappers

  predicate IsDigit(c: char) {
    '0' <= c <= '9'
  }

  /** The regular-expression class `[0-9.]`. */
  predicate IsNumChar(c: char) {
    IsDigit(c) || c == '.'
  }

  predicate AllDigits(s: string) {
    forall k :: 0 <= k < |s| ==> IsDigit(s[k])
  }

  predicate AllNumChars(s: string) {
    forall k :: 0 <= k < |s| ==> IsNumChar(s[k])
  }

  /** What `float()` accepts among `[0-9.]` strings: at least one digit and at most one dot. */
  ghost predicate IsFloatLiteral(tok: string) {
    && (exists k :: 0 <= k < |tok| && IsDigit(tok[k]))
    && (forall i, j :: 0 <= i < j < |tok| && tok[i] == '.' ==> tok[j] != '.')
  }

  function DigitValue(c: char): (d: nat)
    requires IsDigit(c)
    ensures d < 10
  {
    (c as int) - ('0' as int)
  }

  /** The natural number a string of decimal digits denotes (0 for the empty string). */
  function DigitsValue(s: string): nat
    requires AllDigits(s)
  {
    if s == [] then 0 else 10 * DigitsValue(s[..|s| - 1]) + DigitValue(s[|s| - 1])
  }

  /** The value of the digits after a decimal point: `0.d1d2...` (0 for the empty string). */
  function FractionValue(s: string): (v: real)
    requires AllDigits(s)
    ensures 0.0 <= v <= 1.0
  {
    if s == [] then 0.0 else (DigitValue(s[0]) as real + FractionValue(s[1..])) / 10.0
  }

  /** v · 10^n on naturals: v followed by n zero digits. */
  function ShiftLeft(v: nat, n: nat): nat {
    if n == 0 then v else 10 * ShiftLeft(v, n - 1)
  }

  /** x · 10^n on reals. */
  function Scale(x: real, n: nat): real {
    if n == 0 then x else 10.0 * Scale(x, n - 1)
  }

  /** A leading digit contributes its value shifted past the rest. */
  lemma {:induction false} DigitsValueCons(c: char, s: string)
    requires IsDigit(c) && AllDigits(s)
    ensures AllDigits([c] + s)
    ensures DigitsValue([c] + s) == ShiftLeft(DigitValue(c), |s|) + DigitsValue(s)
  {
    var t := [c] + s;
    assert t[0] == c;
    if s == [] {
      assert t[..0] == [];
    } else {
      var front := s[..|s| - 1];
      assert t[..|t| - 1] == [c] + front;
      assert t[|t| - 1] == s[|s| - 1];
      DigitsValueCons(c, front);
    }
  }

  lemma {:induction false} ScaleFirst(x: real, n: nat)
    ensures Scale(x, n + 1) == Scale(10.0 * x, n)
  {
    if n > 0 {
      ScaleFirst(x, n - 1);
    }
  }

  lemma {:induction false} ScaleAdd(a: real, b: real, n: nat)
    ensures Scale(a + b, n) == Scale(a, n) + Scale(b, n)
  {
    if n > 0 {
      ScaleAdd(a, b, n - 1);
    }
  }

  lemma {:induction false} ScaleOfNat(v: nat, n: nat)
    ensures Scale(v as real, n) == ShiftLeft(v, n) as real
  {
    if n > 0 {
      ScaleOfNat(v, n - 1);
    }
  }

  /** The fraction `0.f` scaled by ten to the number of its digits is the number f denotes. */
  lemma {:induction false} FractionValueScaled(f: string)
    requires AllDigits(f)
    ensures Scale(FractionValue(f), |f|) == DigitsValue(f) as real
  {
    if f != [] {
      var rest := f[1..];
      var d := DigitValue(f[0]);
      FractionValueScaled(rest);
      DigitsValueCons(f[0], rest);
      assert [f[0]] + rest == f;
      ScaleFirst(FractionValue(f), |rest|);
      assert 10.0 * FractionValue(f) == d as real + FractionValue(rest);
      ScaleAdd(d as real, FractionValue(rest), |rest|);
      ScaleOfNat(d, |rest|);
    }
  }

  /** Index of the first dot, or |s| when there is none. */
  function DotIndex(s: string): (k: nat)
    ensures k <= |s|
    ensures forall j :: 0 <= j < k ==> s[j] != '.'
    ensures k < |s| ==> s[k] == '.'
  {
    if s == [] || s[0] == '.' then 0 else 1 + DotIndex(s[1..])
  }

  /** `float(tok)`: `None` where Python raises `ValueError`. */
  function ParseFloat(tok: string): (r: Option<real>)
    requires AllNumChars(tok)
    ensures r.Some? ==> r.value >= 0.0
  {
    var k := DotIndex(tok);
    var whole := tok[..k];
    var frac := if k < |tok| then tok[k + 1..] else [];
    assert AllDigits(whole);
    if '.' in frac || |whole| + |frac| == 0 then None
    else
      assert AllDigits(frac) by {
        forall j | 0 <= j < |frac| ensures IsDigit(frac[j]) {
          assert frac[j] in frac;
        }
      }
      Some(DigitsValue(whole) as real + FractionValue(frac))
  }

  /** `float()` succeeds exactly on the tokens with a digit and at most one dot. */
  lemma ParseFloatSomeIff(tok: string)
    requires AllNumChars(tok)
    ensures ParseFloat(tok).Some? <==> IsFloatLiteral(tok)
  {
    var k := DotIndex(tok);
    var whole := tok[..k];
    var frac := if k < |tok| then tok[k + 1..] else [];
    if '.' in frac {
      var j :| 0 <= j < |frac| && frac[j] == '.';
      assert tok[k] == '.' && tok[k + 1 + j] == '.';
    } else if |whole| + |frac| == 0 {
      assert tok == [] || tok == ['.'];
    } else {
      if |whole| > 0 {
        assert IsDigit(tok[0]);
      } else {
        assert IsDigit(tok[k + 1]);
      }
      forall i, j | 0 <= i < j < |tok| && tok[i] == '.' ensures tok[j] != '.' {
        assert i == k;
        assert tok[j] == frac[j - k - 1];
      }
    }
  }

  /** The decimal rendering of a natural number, without leading zeros. */
  function Digits(n: nat): (s: string)
    ensures |s| > 0 && AllDigits(s)
  {
    var last := ['0' + (n % 10) as char];
    if n < 10 then last else Digits(n / 10) + last
  }

  lemma {:induction false} DigitsValueOfDigits(n: nat)
    ensures DigitsValue(Digits(n)) == n
  {
    var s := Digits(n);
    if n >= 10 {
      DigitsValueOfDigits(n / 10);
      assert s[..|s| - 1] == Digits(n / 10);
    }
  }

  /** Round trip: `float(str(n)) == n` for every natural number n. */
  lemma ParseFloatOfDigits(n: nat)
    ensures ParseFloat(Digits(n)) == Some(n as real)
  {
    DigitsValueOfDigits(n);
    ParseFloatWhole(Digits(n));
  }

  /** `float()` of digits without a dot is their value. */
  lemma ParseFloatWhole(w: string)
    requires |w| > 0 && AllDigits(w)
    ensures AllNumChars(w) && ParseFloat(w) == Some(DigitsValue(w) as real)
  {
    DotIndexNone(w);
    DigitsAreNumChars(w);
    ParseFloatNoDot(w);
  }

  /** Digits are among `[0-9.]`. */
  lemma DigitsAreNumChars(s: string)
    requires AllDigits(s)
    ensures AllNumChars(s)
  {
  }

  /** ParseFloat on a dot-free token whose DotIndex is known. */
  lemma ParseFloatNoDot(tok: string)
    requires AllNumChars(tok) && AllDigits(tok) && DotIndex(tok) == |tok| > 0
    ensures ParseFloat(tok) == Some(DigitsValue(tok) as real)
  {
    assert tok[..|tok|] == tok;
  }

  /** `float()` of `w.f` is the value of w plus the fraction f. */
  lemma ParseFloatDecimal(w: string, f: string)
    requires AllDigits(w) && AllDigits(f) && |w| + |f| > 0
    ensures AllNumChars(w + "." + f)
    ensures ParseFloat(w + "." + f) == Some(DigitsValue(w) as real + FractionValue(f))
  {
    DecimalPieces(w, f);
    ParseFloatSplit(w + "." + f, w, f);
  }

  /** ParseFloat on a token whose split at its only dot is known. */
  lemma ParseFloatSplit(tok: string, w: string, f: string)
    requires SplitsAt(tok, w, f) && AllDigits(w) && AllDigits(f) && |w| + |f| > 0
    ensures ParseFloat(tok) == Some(DigitsValue(w) as real + FractionValue(f))
  {
  }

  /** How `w.f` splits at its only dot. */
  ghost predicate SplitsAt(tok: string, w: string, f: string) {
    && AllNumChars(tok)
    && DotIndex(tok) == |w| < |tok|
    && tok[..|w|] == w
    && tok[|w| + 1..] == f
    && '.' !in f
  }

  lemma DecimalPieces(w: string, f: string)
    requires AllDigits(w) && AllDigits(f)
    ensures SplitsAt(w + "." + f, w, f)
  {
    var tok := w + "." + f;
    assert tok[..|w|] == w;
    assert tok[|w| + 1..] == f;
    assert tok[|w|] == '.';
    DotIndexNone(w);
    DotIndexAt(tok, |w|);
    forall j | 0 <= j < |f| ensures f[j] != '.' {
      assert IsDigit(f[j]);
    }
  }

  /** Without a dot, DotIndex is the length. */
  lemma {:induction false} DotIndexNone(s: string)
    requires AllDigits(s)
    ensures DotIndex(s) == |s|
  {
    if s != [] {
      DotIndexNone(s[1..]);
    }
  }

  /** DotIndex finds the first dot. */
  lemma {:induction false} DotIndexAt(s: string, k: nat)
    requires k < |s| && s[k] == '.' && forall j :: 0 <= j < k ==> s[j] != '.'
    ensures DotIndex(s) == k
  {
    if k > 0 {
      DotIndexAt(s[1..], k - 1);
    }
  }
}

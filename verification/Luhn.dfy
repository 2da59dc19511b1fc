/** The Luhn check of card-like digit runs (packages/utils/src/piiMasking.ts). */
module Luhn {
  import opened Digits

  /** The contribution of one digit, as the loop computes it. */
  function Weigh(d: nat, double: bool): (w: nat)
    requires d < 10
    ensures w < 10
  {
    if !double then d else if 2 * d > 9 then 2 * d - 9 else 2 * d
  }

  /** The sum over the digits from the right, with `double` for the rightmost. */
  function Sum(s: string, double: bool): nat
    requires AllDigits(s)
  {
    if s == "" then 0
    else Weigh(DigitValue(s[|s| - 1]), double) + Sum(s[..|s| - 1], !double)
  }

  predicate Passes(s: string) {
    s != "" && AllDigits(s) && Sum(s, false) % 10 == 0
  }

  method PassesLuhn(digits: string) returns (ok: bool)
    ensures ok == Passes(digits)
  {
    if digits == "" || !AllDigits(digits) { return false; }
    assert digits[..|digits|] == digits;
    var sum, double := 0, false;
    var i := |digits| - 1;
    while i >= 0
      invariant -1 <= i < |digits|
      invariant sum + Sum(digits[..i + 1], double) == Sum(digits, false)
    {
      assert digits[..i + 1][..i] == digits[..i];
      var d := DigitValue(digits[i]);
      if double {
        d := d * 2;
        if d > 9 { d := d - 9; }
      }
      sum := sum + d;
      double := !double;
      i := i - 1;
    }
    return sum % 10 == 0;
  }

  // ---- The mod-10 formula (Annex B of ISO/IEC 7812-1) ----

  function DigitSum(n: nat): nat {
    if n < 10 then n else DigitSum(n / 10) + n % 10
  }

  /** Position `i` counted from the right, starting with the check digit at 0: every second digit is
      doubled and its product's digits are added up. */
  function FormulaTerm(s: string, i: nat): nat
    requires AllDigits(s) && i < |s|
  {
    var d := DigitValue(s[|s| - 1 - i]);
    if i % 2 == 1 then DigitSum(2 * d) else d
  }

  function FormulaSum(s: string, n: nat): nat
    requires AllDigits(s) && n <= |s|
  {
    if n == 0 then 0 else FormulaSum(s, n - 1) + FormulaTerm(s, n - 1)
  }

  lemma WeighIsDigitSum(d: nat)
    requires d < 10
    ensures Weigh(d, true) == DigitSum(2 * d)
  {
    if 2 * d > 9 {
      assert (2 * d) / 10 == 1;
      assert DigitSum(1) == 1;
    }
  }

  /** The first `n` formula terms are the loop's sum over the last `n` digits. */
  lemma {:induction false} FormulaPrefix(s: string, n: nat)
    requires AllDigits(s) && n <= |s|
    ensures FormulaSum(s, n) + Sum(s[..|s| - n], n % 2 == 1) == Sum(s, false)
  {
    if n == 0 {
      assert s[..|s|] == s;
    } else {
      FormulaPrefix(s, n - 1);
      var t := s[..|s| - (n - 1)];
      assert t[..|t| - 1] == s[..|s| - n];
      WeighIsDigitSum(DigitValue(s[|s| - n]));
    }
  }

  /** The loop decides the mod-10 formula. */
  lemma PassesIsFormula(s: string)
    requires AllDigits(s)
    ensures Passes(s) <==> s != "" && FormulaSum(s, |s|) % 10 == 0
  {
    FormulaPrefix(s, |s|);
    assert s[..0] == "";
  }

  // ---- What the check detects ----

  predicate Odd(n: nat) {
    n % 2 == 1
  }

  lemma {:induction false} SumOfConcat(a: string, b: string, double: bool)
    requires AllDigits(a) && AllDigits(b)
    ensures AllDigits(a + b) && Sum(a + b, double) == Sum(b, double) + Sum(a, double != Odd(|b|))
  {
    if b == "" {
      assert a + b == a;
    } else {
      var b' := b[..|b| - 1];
      SumOfConcat(a, b', !double);
      assert (a + b)[..|a + b| - 1] == a + b';
    }
  }

  lemma SumOfOne(c: char, double: bool)
    requires IsDigit(c)
    ensures Sum([c], double) == Weigh(DigitValue(c), double)
  {
    assert [c][..0] == "";
  }

  /** One digit's share of the whole sum. */
  lemma SumAround(a: string, c: char, b: string)
    requires AllDigits(a) && IsDigit(c) && AllDigits(b)
    ensures AllDigits(a + [c] + b)
    ensures Sum(a + [c] + b, false)
         == Sum(b, false) + Weigh(DigitValue(c), Odd(|b|)) + Sum(a, !Odd(|b|))
  {
    SumOfConcat(a + [c], b, false);
    SumOfConcat(a, [c], Odd(|b|));
    SumOfOne(c, Odd(|b|));
  }

  lemma WeighDistinct(x: nat, d: nat, e: nat, double: bool)
    requires d < 10 && e < 10 && d != e && (x + Weigh(d, double)) % 10 == 0
    ensures (x + Weigh(e, double)) % 10 != 0
  {
  }

  /** Changing any single digit of a passing string makes it fail. */
  lemma SingleErrorDetected(s: string, i: nat, c: char)
    requires Passes(s) && i < |s| && IsDigit(c) && c != s[i]
    ensures !Passes(s[i := c])
  {
    hide Sum, Weigh;
    var a, b := s[..i], s[i + 1..];
    assert s == a + [s[i]] + b;
    assert s[i := c] == a + [c] + b;
    SumAround(a, s[i], b);
    SumAround(a, c, b);
    WeighDistinct(Sum(b, false) + Sum(a, !Odd(|b|)), DigitValue(s[i]), DigitValue(c), Odd(|b|));
  }

  function SwapAt(s: string, i: nat): string
    requires i + 1 < |s|
  {
    s[i := s[i + 1]][i + 1 := s[i]]
  }

  predicate ZeroAndNine(c: char, d: char) {
    (c == '0' && d == '9') || (c == '9' && d == '0')
  }

  lemma PairSum(a: string, c: char, d: char, b: string)
    requires AllDigits(a) && IsDigit(c) && IsDigit(d) && AllDigits(b)
    ensures AllDigits(a + [c] + [d] + b)
    ensures Sum(a + [c] + [d] + b, false)
         == Sum(b, false) + Sum(a, Odd(|b|))
            + Weigh(DigitValue(d), Odd(|b|)) + Weigh(DigitValue(c), !Odd(|b|))
  {
    SumOfConcat(a + [c] + [d], b, false);
    SumOfConcat(a + [c], [d], Odd(|b|));
    SumOfConcat(a, [c], !Odd(|b|));
    SumOfOne(d, Odd(|b|));
    SumOfOne(c, !Odd(|b|));
  }

  lemma SwapDifference(x: nat, c: nat, d: nat, double: bool)
    requires c < 10 && d < 10 && (x + Weigh(d, double) + Weigh(c, !double)) % 10 == 0
    ensures (x + Weigh(c, double) + Weigh(d, !double)) % 10 == 0
       <==> c == d || (c == 0 && d == 9) || (c == 9 && d == 0)
  {
    var before := Weigh(d, double) + Weigh(c, !double);
    var after := Weigh(c, double) + Weigh(d, !double);
    assert -8 <= after - before <= 8;
  }

  lemma SwapShape(s: string, i: nat)
    requires i + 1 < |s|
    ensures s == s[..i] + [s[i]] + [s[i + 1]] + s[i + 2..]
    ensures SwapAt(s, i) == s[..i] + [s[i + 1]] + [s[i]] + s[i + 2..]
  {
  }

  /** Swapping two adjacent digits of a passing string goes unnoticed exactly when they are equal or a 0
      and a 9. */
  lemma TranspositionExact(s: string, i: nat)
    requires Passes(s) && i + 1 < |s|
    ensures Passes(SwapAt(s, i)) <==> s[i] == s[i + 1] || ZeroAndNine(s[i], s[i + 1])
  {
    var a, b := s[..i], s[i + 2..];
    var c, d := s[i], s[i + 1];
    hide Sum, Weigh;
    SwapShape(s, i);
    PairSum(a, c, d, b);
    PairSum(a, d, c, b);
    SwapDifference(Sum(b, false) + Sum(a, Odd(|b|)), DigitValue(c), DigitValue(d), Odd(|b|));
  }

  /** Two digits pass together with their check digit, without and with a carry in the doubling. */
  lemma CheckDigits()
    ensures Passes("18") && Passes("59") && !Passes("81") && !Passes("") && !Passes("1x")
  {
    assert "18"[..1] == "1" && "59"[..1] == "5" && "81"[..1] == "8";
    SumOfOne('1', true);
    SumOfOne('5', true);
    SumOfOne('8', true);
    assert "1x"[1] == 'x';
  }
}

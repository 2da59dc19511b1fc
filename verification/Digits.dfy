/** Decimal digit strings: the common ground of the money, member and path texts.
    A digit string is read most significant digit first. */
module Digits {

  function Pow10(k: nat): (p: nat)
    ensures p >= 1
  {
    if k == 0 then 1 else 10 * Pow10(k - 1)
  }

  lemma MulTen(n: int, p: int)
    ensures 10 * (n * p) == n * (10 * p) == (10 * n) * p
  {
  }

  lemma {:induction false} Pow10Sum(a: nat, b: nat)
    ensures Pow10(a + b) == Pow10(a) * Pow10(b)
  {
    if a > 0 {
      Pow10Sum(a - 1, b);
      MulTen(Pow10(a - 1), Pow10(b));
    }
  }

  predicate IsDigit(c: char) {
    '0' <= c <= '9'
  }

  predicate AllDigits(s: string) {
    forall i :: 0 <= i < |s| ==> IsDigit(s[i])
  }

  function DigitValue(c: char): (d: nat)
    requires IsDigit(c)
    ensures d < 10
  {
    (c - '0') as nat
  }

  function DigitChar(d: nat): (c: char)
    requires d < 10
    ensures IsDigit(c) && DigitValue(c) == d
  {
    '0' + d as char
  }

  /** The number a digit string denotes. */
  function NatOf(s: string): nat
    requires AllDigits(s)
  {
    if s == "" then 0 else 10 * NatOf(s[..|s| - 1]) + DigitValue(s[|s| - 1])
  }

  /** `n.toString()` for a natural number. */
  function Show(n: nat): (s: string)
    ensures AllDigits(s) && |s| >= 1
  {
    if n < 10 then [DigitChar(n)] else Show(n / 10) + [DigitChar(n % 10)]
  }

  lemma {:induction false} ShowRoundTrip(n: nat)
    ensures NatOf(Show(n)) == n
  {
    if n >= 10 {
      ShowRoundTrip(n / 10);
      assert Show(n)[..|Show(n)| - 1] == Show(n / 10);
    }
  }

  /** Digits are read from the left in base ten. */
  lemma DigitsExample()
    ensures NatOf("1203") == 1203 && Show(1203) == "1203"
  {
    var s := "1203";
    assert s[..3] == "120" && s[..3][..2] == "12" && s[..3][..2][..1] == "1";
    assert NatOf("12") == 12 && NatOf("120") == 120;
    ShowUnique(s);
  }

  lemma {:induction false} ShowLeadingDigit(n: nat)
    ensures |Show(n)| == 1 || Show(n)[0] != '0'
    ensures n > 0 ==> Show(n)[0] != '0'
  {
    if n >= 10 {
      ShowLeadingDigit(n / 10);
      assert n / 10 > 0;
    }
  }

  lemma NatOfLast(s: string)
    requires AllDigits(s) && s != ""
    ensures NatOf(s) == 10 * NatOf(s[..|s| - 1]) + DigitValue(s[|s| - 1])
    ensures NatOf(s) % 10 == DigitValue(s[|s| - 1])
  {
  }

  lemma Pow10Next(k: nat)
    ensures Pow10(k + 1) == 10 * Pow10(k)
  {
  }

  lemma Carry(x: nat, p: nat, y: nat, d: nat)
    ensures 10 * (x * p + y) + d == x * (10 * p) + (10 * y + d)
  {
    MulTen(x, p);
  }

  lemma {:induction false} NatOfConcat(a: string, b: string)
    requires AllDigits(a) && AllDigits(b)
    ensures AllDigits(a + b)
    ensures NatOf(a + b) == NatOf(a) * Pow10(|b|) + NatOf(b)
  {
    if b == "" {
      assert a + b == a;
      assert NatOf(b) == 0 && Pow10(0) == 1;
    } else {
      hide NatOf, Pow10;
      var b', c := b[..|b| - 1], a + b;
      NatOfConcat(a, b');
      assert c[..|c| - 1] == a + b' && c[|c| - 1] == b[|b| - 1];
      NatOfLast(c);
      NatOfLast(b);
      Pow10Next(|b'|);
      Carry(NatOf(a), Pow10(|b'|), NatOf(b'), DigitValue(b[|b| - 1]));
    }
  }

  lemma {:induction false} NatOfBound(s: string)
    requires AllDigits(s)
    ensures NatOf(s) < Pow10(|s|)
  {
    if s != "" {
      NatOfBound(s[..|s| - 1]);
    }
  }

  lemma {:induction false} FixedWidthUnique(a: string, b: string)
    requires AllDigits(a) && AllDigits(b) && |a| == |b|
    requires NatOf(a) == NatOf(b)
    ensures a == b
  {
    if a != "" {
      var a', b' := a[..|a| - 1], b[..|b| - 1];
      FixedWidthUnique(a', b');
      assert a == a' + [a[|a| - 1]] && b == b' + [b[|b| - 1]];
    }
  }

  /** A digit string without a superfluous leading zero is what `Show` prints for its value. */
  lemma {:induction false} ShowUnique(s: string)
    requires AllDigits(s) && |s| >= 1
    requires |s| == 1 || s[0] != '0'
    ensures s == Show(NatOf(s))
  {
    var s' := s[..|s| - 1];
    assert s == s' + [s[|s| - 1]];
    if |s| > 1 {
      ShowUnique(s');
      LeadingPositive(s');
    } else {
      assert NatOf(s') == 0;
    }
  }

  lemma {:induction false} LeadingPositive(s: string)
    requires AllDigits(s) && |s| >= 1 && s[0] != '0'
    ensures NatOf(s) > 0
  {
    if |s| > 1 {
      LeadingPositive(s[..|s| - 1]);
    }
  }

  /** A number below `10^k` prints in at most `k` digits. */
  lemma {:induction false} ShowLength(n: nat, k: nat)
    requires n < Pow10(k) && k >= 1
    ensures |Show(n)| <= k
  {
    if n >= 10 {
      assert Pow10(1) == 10;
      assert n / 10 < Pow10(k - 1);
      ShowLength(n / 10, k - 1);
    }
  }

  function Zeros(k: nat): (s: string)
    ensures |s| == k && AllDigits(s)
    ensures forall i :: 0 <= i < k ==> s[i] == '0'
  {
    seq(k, _ => '0')
  }

  lemma {:induction false} NatOfZeros(k: nat)
    ensures NatOf(Zeros(k)) == 0
  {
    if k > 0 {
      NatOfZeros(k - 1);
      assert Zeros(k)[..k - 1] == Zeros(k - 1);
    }
  }

  /** `padStart(width, "0")` */
  function PadStart(s: string, width: nat): (r: string)
    ensures |r| == if |s| >= width then |s| else width
    ensures AllDigits(s) ==> AllDigits(r)
  {
    if |s| >= width then s else Zeros(width - |s|) + s
  }

  lemma PadStartValue(s: string, width: nat)
    requires AllDigits(s)
    ensures NatOf(PadStart(s, width)) == NatOf(s)
  {
    hide NatOf, Pow10;
    if |s| < width {
      NatOfConcat(Zeros(width - |s|), s);
      NatOfZeros(width - |s|);
    }
  }

  /** `padEnd(width, "0")` */
  function PadEnd(s: string, width: nat): (r: string)
    ensures |r| == if |s| >= width then |s| else width
    ensures AllDigits(s) ==> AllDigits(r)
  {
    if |s| >= width then s else s + Zeros(width - |s|)
  }

  lemma PadEndValue(s: string, width: nat)
    requires AllDigits(s) && |s| <= width
    ensures NatOf(PadEnd(s, width)) == NatOf(s) * Pow10(width - |s|)
  {
    if |s| < width {
      hide NatOf, Pow10;
      NatOfConcat(s, Zeros(width - |s|));
      NatOfZeros(width - |s|);
    }
  }

  lemma MulAtLeast(k: int, m: nat)
    requires k >= 1
    ensures k * m >= m
  {
  }

  /** Splitting `a * m + b` with `b < m` is unique. */
  lemma QuotientUnique(a: nat, b: nat, c: nat, d: nat, m: nat)
    requires b < m && d < m && a * m + b == c * m + d
    ensures a == c && b == d
  {
    assert (a - c) * m == d - b by {
      assert (a - c) * m == a * m - c * m;
    }
    if a > c {
      MulAtLeast(a - c, m);
    } else if c > a {
      assert (c - a) * m == b - d;
      MulAtLeast(c - a, m);
    }
  }

  lemma Remainder(q: nat, r: nat, m: nat)
    requires r < m
    ensures (q * m + r) % m == r
  {
    var x := q * m + r;
    QuotientUnique(x / m, x % m, q, r, m);
  }
}

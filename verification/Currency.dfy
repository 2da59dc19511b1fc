/** Stroop amounts as display text and back (packages/utils/src/currency.ts). */
module Currency {
  import opened Digits
  import opened Text

  const DEFAULT_DECIMALS: nat := 7

  /** BigInt division and remainder truncate toward zero. */
  function TruncDiv(a: int): int {
    if a >= 0 then a / 10_000_000 else -((-a) / 10_000_000)
  }

  function TruncMod(a: int): int {
    a - TruncDiv(a) * 10_000_000
  }

  function Take(s: string, n: nat): string {
    if n <= |s| then s[..n] else s
  }

  function StroopsToDisplay(stroops: int, decimals: nat): string {
    ShowInt(TruncDiv(stroops)) + "." + Take(PadStart(ShowInt(TruncMod(stroops)), 7), decimals)
  }

  /** `const [whole, fraction] = amount.split(".")` */
  function Pieces(amount: string): (string, string) {
    var dot := IndexOf(amount, '.');
    if dot == |amount| then (amount, "")
    else
      var rest := amount[dot + 1..];
      (amount[..dot], rest[..IndexOf(rest, '.')])
  }

  /** The fraction filled up or cut to seven characters. */
  function Padded(fraction: string): string {
    Take(fraction + Zeros(7), 7)
  }

  function Combine(whole: Option<int>, fraction: Option<int>): Option<int> {
    if whole.Some? && fraction.Some? then Some(whole.value * 10_000_000 + fraction.value) else None
  }

  /** `None` is the SyntaxError of a piece that is no integer. */
  function DisplayToStroops(amount: string): Option<int> {
    var (whole, fraction) := Pieces(amount);
    Combine(BigIntOf(whole), BigIntOf(Padded(fraction)))
  }

  lemma ShowIntHasNoDot(n: int)
    ensures '.' !in ShowInt(n)
  {
    if n < 0 {
      assert forall i :: 0 <= i < |ShowInt(n)| ==> ShowInt(n)[i] == '-' || IsDigit(ShowInt(n)[i]);
    }
  }

  /** Splitting a printed amount at its dot. */
  lemma DisplaySplits(whole: string, fraction: string)
    requires '.' !in whole && '.' !in fraction
    ensures Pieces(whole + "." + fraction) == (whole, fraction)
  {
    var text, dot := whole + "." + fraction, |whole|;
    assert text[..dot] == whole && text[dot + 1..] == fraction;
    IndexIs(text, '.', dot);
    assert fraction[..|fraction|] == fraction;
  }

  /** Reading a printed whole part and some fraction text. */
  lemma ParsePrinted(whole: int, fraction: string, f: Option<int>)
    requires '.' !in fraction && BigIntOf(Padded(fraction)) == f
    ensures DisplayToStroops(ShowInt(whole) + "." + fraction) == Combine(Some(whole), f)
  {
    ShowIntHasNoDot(whole);
    DisplaySplits(ShowInt(whole), fraction);
    ShowIntRoundTrip(whole);
  }

  lemma SevenDigits(n: nat)
    requires n < 10_000_000
    ensures var s := PadStart(Show(n), 7); |s| == 7 && AllDigits(s) && NatOf(s) == n
  {
    assert Pow10(7) == 10_000_000;
    ShowLength(n, 7);
    PadStartValue(Show(n), 7);
    ShowRoundTrip(n);
  }

  /** A digit string with its last digits replaced by zeros is rounded down. */
  lemma RoundedDown(head: string, tail: string)
    requires AllDigits(head) && AllDigits(tail)
    ensures AllDigits(head + tail) && AllDigits(head + Zeros(|tail|))
    ensures NatOf(head + Zeros(|tail|)) == NatOf(head + tail) - NatOf(head + tail) % Pow10(|tail|)
  {
    var m := Pow10(|tail|);
    NatOfConcat(head, tail);
    NatOfConcat(head, Zeros(|tail|));
    NatOfZeros(|tail|);
    NatOfBound(tail);
    Remainder(NatOf(head), NatOf(tail), m);
  }

  /** Cutting a seven-digit fraction to `d` digits and refilling with zeros. */
  lemma CutAndRefill(s: string, d: nat)
    requires |s| == 7 && AllDigits(s) && d <= 7
    ensures var t := Padded(Take(s, d));
      |t| == 7 && AllDigits(t) && NatOf(t) == NatOf(s) - NatOf(s) % Pow10(7 - d)
  {
    var head, tail := s[..d], s[d..];
    RoundedDown(head, tail);
    assert Padded(Take(s, d)) == head + Zeros(|tail|);
    assert s == head + tail;
  }

  lemma RemainderOfWhole(s: nat, k: nat)
    requires k <= 7
    ensures s % Pow10(k) == (s % 10_000_000) % Pow10(k)
  {
    var p, q := Pow10(k), Pow10(7 - k);
    Pow10Sum(k, 7 - k);
    assert Pow10(7) == 10_000_000;
    NestedRemainder(s, p, q);
  }

  lemma NestedRemainder(s: nat, p: nat, q: nat)
    requires p >= 1 && q >= 1
    ensures p * q >= 1 && s % p == (s % (p * q)) % p
  {
    MulAtLeast(q, p);
    var m := p * q;
    var w, f := s / m, s % m;
    var a, r := f / p, f % p;
    assert s == w * m + f;
    assert f == a * p + r;
    Regroup(w, p, q, a);
    Remainder(w * q + a, r, p);
  }

  lemma Regroup(w: nat, p: nat, q: nat, a: nat)
    ensures (w * q + a) * p == w * (p * q) + a * p
  {
    assert (w * q + a) * p == (w * q) * p + a * p;
    assert (w * q) * p == w * (p * q);
  }

  /** A fraction below one XLM, shown with `d` digits and read back. */
  lemma FractionReadBack(f: nat, d: nat)
    requires f < 10_000_000 && d <= 7
    ensures var shown := Take(PadStart(Show(f), 7), d);
      '.' !in shown && BigIntOf(Padded(shown)) == Some(f - f % Pow10(7 - d))
  {
    SevenDigits(f);
    var digits := PadStart(Show(f), 7);
    var shown := Take(digits, d);
    assert AllDigits(shown);
    CutAndRefill(digits, d);
    BigIntOfDigits(Padded(shown));
  }

  lemma DisplayOfNat(s: nat, d: nat)
    ensures StroopsToDisplay(s, d)
         == ShowInt(s / 10_000_000) + "." + Take(PadStart(Show(s % 10_000_000), 7), d)
  {
    assert TruncMod(s) == s % 10_000_000;
  }

  lemma DisplayReadBack(s: nat, d: nat, w: nat, f: nat, kept: nat)
    requires d <= 7 && w == s / 10_000_000 && f == s % 10_000_000
    requires kept == f - f % Pow10(7 - d)
    ensures DisplayToStroops(StroopsToDisplay(s, d)) == Combine(Some(w), Some(kept))
  {
    DisplayOfNat(s, d);
    FractionReadBack(f, d);
    ParsePrinted(w, Take(PadStart(Show(f), 7), d), Some(kept));
  }

  lemma RemainderBelow(f: nat, p: nat)
    requires p >= 1
    ensures f % p <= f
  {
    var q := f / p;
    assert f == q * p + f % p;
    assert q * p >= 0;
  }

  lemma CombineWhole(s: nat, w: nat, f: nat, r: nat)
    requires w == s / 10_000_000 && f == s % 10_000_000 && r <= f
    ensures Combine(Some(w), Some(f - r)) == Some(s - r)
  {
  }

  /** Parsing what was displayed with `d` decimals gives the amount rounded down to that precision. */
  lemma DisplayRoundsDown(s: nat, d: nat, r: nat)
    requires d <= 7 && r == s % Pow10(7 - d)
    ensures DisplayToStroops(StroopsToDisplay(s, d)) == Some(s - r)
  {
    hide *;
    var w, f := s / 10_000_000, s % 10_000_000;
    RemainderOfWhole(s, 7 - d);
    RemainderBelow(f, Pow10(7 - d));
    CombineWhole(s, w, f, r);
    DisplayReadBack(s, d, w, f, f - r);
  }

  /** The displayed amount parses back to itself. */
  predicate ReadsBack(s: int, d: nat) {
    DisplayToStroops(StroopsToDisplay(s, d)) == Some(s)
  }

  /** The default display is read back exactly for every non-negative amount; for a negative one only
      if its fraction is zero or has exactly six digits, so that the sign falls on the first place. */
  lemma RoundTripExact(s: int, d: nat)
    requires d == DEFAULT_DECIMALS
    ensures ReadsBack(s, d) <==>
      s >= 0 || (-s) % 10_000_000 == 0 || 100_000 <= (-s) % 10_000_000 < 1_000_000
  {
    hide *;
    if s >= 0 {
      NonNegativeRoundTrip(s, d);
    } else {
      NegativeDisplay(-s, d);
    }
  }

  lemma NonNegativeRoundTrip(s: nat, d: nat)
    requires d == DEFAULT_DECIMALS
    ensures ReadsBack(s, d)
  {
    hide DisplayToStroops, StroopsToDisplay;
    var r := s % Pow10(7 - d);
    NothingBelowOne(s, 7 - d);
    DisplayRoundsDown(s, d, r);
  }

  lemma NothingBelowOne(s: nat, k: nat)
    requires k == 0
    ensures s % Pow10(k) == 0
  {
  }

  lemma DisplayOfNegative(n: nat, w: nat, f: nat, d: nat)
    requires n > 0 && w == n / 10_000_000 && f == n % 10_000_000
    ensures StroopsToDisplay(0 - n, d) == ShowInt(0 - w) + "." + Take(PadStart(ShowInt(0 - f), 7), d)
  {
    assert TruncDiv(0 - n) == 0 - w;
    assert TruncMod(0 - n) == 0 - f;
  }

  lemma CombineNegative(n: nat, w: nat, f: nat, x: Option<int>)
    requires n == w * 10_000_000 + f
    ensures Combine(Some(0 - w), x) == Some(0 - n) <==> x == Some(0 - f)
  {
  }

  lemma NegativeReads(n: nat, w: nat, f: nat, d: nat, shown: string)
    requires n > 0 && w == n / 10_000_000 && f == n % 10_000_000
    requires shown == Take(PadStart(ShowInt(0 - f), 7), d) && '.' !in shown
    ensures DisplayToStroops(StroopsToDisplay(0 - n, d)) == Combine(Some(0 - w), BigIntOf(Padded(shown)))
  {
    hide *;
    DisplayOfNegative(n, w, f, d);
    ParsePrinted(0 - w, shown, BigIntOf(Padded(shown)));
  }

  lemma NegativeDisplay(n: nat, d: nat)
    requires n > 0 && d == DEFAULT_DECIMALS
    ensures ReadsBack(0 - n, d) <==> n % 10_000_000 == 0 || 100_000 <= n % 10_000_000 < 1_000_000
  {
    var w, f := n / 10_000_000, n % 10_000_000;
    var shown := Take(PadStart(ShowInt(0 - f), 7), d);
    NegativeFraction(f, d, shown);
    NegativeReads(n, w, f, d, shown);
    CombineNegative(n, w, f, BigIntOf(Padded(shown)));
  }

  lemma NegativeFraction(f: nat, d: nat, shown: string)
    requires f < 10_000_000 && d == DEFAULT_DECIMALS && shown == Take(PadStart(ShowInt(0 - f), 7), d)
    ensures '.' !in shown
    ensures BigIntOf(Padded(shown)) == Some(0 - f) <==> f == 0 || 100_000 <= f < 1_000_000
  {
    ShowIntHasNoDot(0 - f);
    assert Padded(shown) == shown;
    if f == 0 {
      SevenDigits(0);
      assert shown == PadStart(Show(0), 7);
      BigIntOfDigits(shown);
    } else {
      MinusInside(f);
    }
  }

  /** The minus sign of the remainder ends up among the fraction digits: below six digits the piece is
      no integer, and seven digits lose their last one. */
  lemma MinusInside(f: nat)
    requires 0 < f < 10_000_000
    ensures BigIntOf(Take(PadStart(ShowInt(0 - f), 7), 7)) == Some(0 - f) <==> 100_000 <= f < 1_000_000
  {
    var digits := Show(f);
    DigitCount(f);
    if f < 100_000 {
      MinusInMiddle(digits);
    } else if f < 1_000_000 {
      assert Take(PadStart(ShowInt(0 - f), 7), 7) == ShowInt(0 - f);
      ShowIntRoundTrip(0 - f);
    } else {
      LastDigitLost(f);
    }
  }

  lemma DigitCount(f: nat)
    requires 0 < f < 10_000_000
    ensures f < 100_000 ==> |Show(f)| <= 5
    ensures 100_000 <= f < 1_000_000 ==> |Show(f)| == 6
    ensures 1_000_000 <= f ==> |Show(f)| == 7
  {
    assert Pow10(5) == 100_000 && Pow10(6) == 1_000_000 && Pow10(7) == 10_000_000;
    ShowRoundTrip(f);
    NatOfBound(Show(f));
    ShowLength(f, 7);
    if f < 1_000_000 { ShowLength(f, 6); }
    if f < 100_000 { ShowLength(f, 5); }
    Pow10Grows(|Show(f)|, 5);
    Pow10Grows(|Show(f)|, 6);
  }

  lemma {:induction false} Pow10Grows(a: nat, b: nat)
    ensures a <= b ==> Pow10(a) <= Pow10(b)
    decreases b
  {
    if a < b {
      Pow10Grows(a, b - 1);
    }
  }

  lemma MinusInMiddle(digits: string)
    requires 1 <= |digits| <= 5 && AllDigits(digits)
    ensures BigIntOf(Take(PadStart("-" + digits, 7), 7)) == None
  {
    var k := 6 - |digits|;
    var shown := Take(PadStart("-" + digits, 7), 7);
    assert shown == Zeros(k) + ("-" + digits);
    assert shown[0] == '0' && shown[k] == '-';
    assert shown[6] == digits[|digits| - 1] && IsDigit(shown[6]);
    NothingToTrim(shown);
    assert !IsDigit(shown[k]);
  }

  lemma LastDigitLost(f: nat)
    requires |Show(f)| == 7 && f > 0
    ensures BigIntOf(Take(PadStart("-" + Show(f), 7), 7)) != Some(0 - f)
  {
    var digits := Show(f);
    var head := digits[..6];
    assert Take(PadStart("-" + digits, 7), 7) == "-" + head;
    BigIntOfNegative(head);
    assert digits == head + [digits[6]];
    NatOfConcat(head, [digits[6]]);
    ShowRoundTrip(f);
    assert Pow10(1) == 10;
    ShowLeadingDigit(f);
    LeadingPositive(head);
  }

  lemma FractionLength(f: nat)
    requires f < 10_000_000
    ensures |PadStart(ShowInt(0 - f), 7)| == if f < 1_000_000 then 7 else 8
  {
    if f == 0 {
      SevenDigits(0);
    } else {
      DigitCount(f);
    }
  }

  /** More than seven decimals show the same as seven, except for a negative amount whose fraction has
      seven digits: they show the digit that the sign had pushed out. */
  lemma MoreDecimalsExact(s: int, d: nat)
    requires d > DEFAULT_DECIMALS
    ensures StroopsToDisplay(s, d) == StroopsToDisplay(s, DEFAULT_DECIMALS)
      <==> s >= 0 || (-s) % 10_000_000 < 1_000_000
  {
    if s >= 0 {
      SevenDigits(s % 10_000_000);
    } else {
      var n: nat := -s;
      var w, f := n / 10_000_000, n % 10_000_000;
      FractionLength(f);
      DisplayOfNegative(n, w, f, d);
      DisplayOfNegative(n, w, f, DEFAULT_DECIMALS);
    }
  }

  /** The default display: whole units, a dot and seven digits of stroops. */
  lemma DisplayExact(s: nat)
    ensures var w, f := s / 10_000_000, s % 10_000_000;
      exists digits :: |digits| == 7 && AllDigits(digits) && NatOf(digits) == f
        && StroopsToDisplay(s, DEFAULT_DECIMALS) == Show(w) + "." + digits
  {
    hide NatOf, Show;
    var w, f := s / 10_000_000, s % 10_000_000;
    var digits := PadStart(Show(f), 7);
    SevenDigits(f);
    DisplayOfNat(s, DEFAULT_DECIMALS);
    assert Take(digits, 7) == digits;
  }

  /** A display text denotes its units and its fraction of at most seven digits. */
  lemma ParseExact(w: string, f: string)
    requires AllDigits(w) && AllDigits(f) && w != "" && |f| <= 7
    ensures DisplayToStroops(w + "." + f) == Some(NatOf(w) * 10_000_000 + NatOf(f) * Pow10(7 - |f|))
    ensures DisplayToStroops(w) == Some(NatOf(w) * 10_000_000)
  {
    hide NatOf, Pow10, BigIntOf, Pieces;
    NoDots(w, f);
    DisplaySplits(w, f);
    BigIntOfDigits(w);
    PaddedDigits(f);
    PaddedDigits("");
    WholeOnly(w);
    NatOfNothing();
  }

  lemma NoDots(w: string, f: string)
    requires AllDigits(w) && AllDigits(f)
    ensures '.' !in w && '.' !in f
  {
  }

  lemma WholeOnly(w: string)
    requires '.' !in w
    ensures Pieces(w) == (w, "")
  {
  }

  lemma NatOfNothing()
    ensures NatOf("") == 0
  {
  }

  lemma PaddedDigits(f: string)
    requires AllDigits(f) && |f| <= 7
    ensures BigIntOf(Padded(f)) == Some(NatOf(f) * Pow10(7 - |f|))
  {
    hide NatOf, Pow10, BigIntOf;
    assert Padded(f) == PadEnd(f, 7) by {
      assert (f + Zeros(7))[..7] == f + Zeros(7 - |f|);
    }
    PadEndValue(f, 7);
    BigIntOfDigits(Padded(f));
  }
}

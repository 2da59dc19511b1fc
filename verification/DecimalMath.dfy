/** Exact decimal-string addition (packages/utils/src/decimalMath.ts).
    The meaning of a decimal string is a real number; the results below say that addition is
    exact for it, that the printed sum is the only canonical string of that number, and hence that
    sums do not depend on the order of their terms. */
module DecimalMath {
  import opened Digits
  import opened Text

  /** What `splitDecimal` returns: sign, integer digits, fraction digits. */
  datatype Parts = Parts(negative: bool, whole: string, fraction: string)

  /** The text is not a decimal amount; the offending value travels with the error. */
  datatype InvalidDecimal = InvalidDecimal(text: string)

  predicate WellFormed(p: Parts) {
    p.whole != "" && AllDigits(p.whole) && AllDigits(p.fraction)
  }

  /** `\d+(\.\d+)?` split at its dot. */
  function SplitUnsigned(unsigned: string): (r: Option<(string, string)>)
    ensures r.Some? ==> r.value.0 != "" && AllDigits(r.value.0) && AllDigits(r.value.1)
  {
    var dot := IndexOf(unsigned, '.');
    var whole := unsigned[..dot];
    if whole == "" || !AllDigits(whole) then None
    else if dot == |unsigned| then Some((whole, ""))
    else
      var fraction := unsigned[dot + 1..];
      if fraction == "" || !AllDigits(fraction) then None else Some((whole, fraction))
  }

  function SplitDecimal(value: string): (r: Result<Parts, InvalidDecimal>)
    ensures r.Ok? ==> WellFormed(r.value)
  {
    var trimmed := Trim(value);
    var negative := trimmed != "" && trimmed[0] == '-';
    var unsigned := if negative then trimmed[1..] else trimmed;
    match SplitUnsigned(unsigned)
    case Some((whole, fraction)) => Ok(Parts(negative, whole, fraction))
    case None => Err(InvalidDecimal(value))
  }

  function Signed(negative: bool, n: nat): int {
    if negative then 0 - n else n
  }

  /** `toScaledBigInt`: the amount as an integer multiple of `10^-scale`. */
  function Scaled(p: Parts, scale: nat): int
    requires WellFormed(p) && |p.fraction| <= scale
  {
    var digits := p.whole + PadEnd(p.fraction, scale);
    Signed(p.negative, NatOf(digits))
  }

  /** Drops trailing zeros: `replace(/0+$/, "")`. */
  function StripZeros(s: string): (r: string)
    ensures |r| <= |s| && r == s[..|r|]
    ensures r == "" || r[|r| - 1] != '0'
    ensures forall i :: |r| <= i < |s| ==> s[i] == '0'
  {
    if s != "" && s[|s| - 1] == '0' then StripZeros(s[..|s| - 1]) else s
  }

  function UnsignedText(p: Parts): string {
    p.whole + (if p.fraction == "" then "" else "." + p.fraction)
  }

  function UnscaleBigInt(scaled: int, scale: nat): string {
    if scale == 0 then ShowInt(scaled)
    else
      var negative := scaled < 0;
      var digits := PadStart(Show(if negative then -scaled else scaled), scale + 1);
      var whole := digits[..|digits| - scale];
      var fraction := StripZeros(digits[|digits| - scale..]);
      var unsigned := UnsignedText(Parts(negative, whole, fraction));
      if negative && unsigned != "0" then "-" + unsigned else unsigned
  }

  function AddDecimalStrings(a: string, b: string): Result<string, InvalidDecimal> {
    var left := SplitDecimal(a);
    var right := SplitDecimal(b);
    if left.Err? then Err(left.error)
    else if right.Err? then Err(right.error)
    else
      var scale := Max(|left.value.fraction|, |right.value.fraction|);
      Ok(UnscaleBigInt(Scaled(left.value, scale) + Scaled(right.value, scale), scale))
  }

  /** The loop of `sumDecimalStrings`, as a fold from the left. */
  function SumDecimalStrings(values: seq<string>): Result<string, InvalidDecimal> {
    if values == [] then Ok("0")
    else
      var total := SumDecimalStrings(values[..|values| - 1]);
      if total.Err? then total else AddDecimalStrings(total.value, values[|values| - 1])
  }

  method Sum(values: seq<string>) returns (total: Result<string, InvalidDecimal>)
    ensures total == SumDecimalStrings(values)
  {
    hide AddDecimalStrings;
    total := Ok("0");
    var i := 0;
    while i < |values|
      invariant 0 <= i <= |values|
      invariant total == SumDecimalStrings(values[..i])
      invariant total.Ok?
    {
      assert values[..i + 1][..i] == values[..i];
      total := AddDecimalStrings(total.value, values[i]);
      i := i + 1;
      if total.Err? {
        ErrorSticks(values, i);
        return;
      }
    }
    assert values[..i] == values;
  }

  lemma {:induction false} ErrorSticks(values: seq<string>, i: nat)
    requires i <= |values| && SumDecimalStrings(values[..i]).Err?
    ensures SumDecimalStrings(values) == SumDecimalStrings(values[..i])
    decreases |values| - i
  {
    if i == |values| {
      assert values[..i] == values;
    } else {
      assert values[..i + 1][..i] == values[..i];
      ErrorSticks(values, i + 1);
    }
  }

  // ---- Meaning ----

  predicate Valid(s: string) {
    SplitDecimal(s).Ok?
  }

  function PartsOf(s: string): Parts
    requires Valid(s)
  {
    SplitDecimal(s).value
  }

  /** `n / 10^scale` */
  function Quotient(n: int, scale: nat): real {
    if scale == 0 then n as real else Quotient(n, scale - 1) / 10.0
  }

  /** The number the parts denote. */
  function PartsValue(p: Parts): real
    requires WellFormed(p)
  {
    Quotient(Signed(p.negative, NatOf(p.whole)), 0)
    + Quotient(Signed(p.negative, NatOf(p.fraction)), |p.fraction|)
  }

  /** The number a decimal string denotes. */
  function Value(s: string): real
    requires Valid(s)
  {
    PartsValue(PartsOf(s))
  }

  function TextOf(p: Parts): string {
    (if p.negative then "-" else "") + UnsignedText(p)
  }

  /** No superfluous leading or trailing zero and no negative zero. */
  predicate CanonicalParts(p: Parts) {
    && WellFormed(p)
    && (|p.whole| == 1 || p.whole[0] != '0')
    && (p.fraction == "" || p.fraction[|p.fraction| - 1] != '0')
    && (p.negative ==> NatOf(p.whole) != 0 || NatOf(p.fraction) != 0)
  }

  predicate Canonical(s: string) {
    Valid(s) && s == TextOf(PartsOf(s)) && CanonicalParts(PartsOf(s))
  }

  // ---- Scaling ----

  lemma {:induction false} QuotientTen(n: int, scale: nat)
    ensures Quotient(10 * n, scale + 1) == Quotient(n, scale)
  {
    if scale > 0 {
      QuotientTen(n, scale - 1);
    }
  }

  lemma {:induction false} QuotientScale(n: int, scale: nat, more: nat)
    ensures Quotient(n * Pow10(more), scale + more) == Quotient(n, scale)
  {
    if more > 0 {
      QuotientScale(n, scale, more - 1);
      QuotientTen(n * Pow10(more - 1), scale + more - 1);
      assert 10 * (n * Pow10(more - 1)) == n * Pow10(more);
    }
  }

  lemma {:induction false} QuotientSum(m: int, n: int, scale: nat)
    ensures Quotient(m + n, scale) == Quotient(m, scale) + Quotient(n, scale)
  {
    if scale > 0 {
      QuotientSum(m, n, scale - 1);
    }
  }

  lemma {:induction false} QuotientInjective(m: int, n: int, scale: nat)
    requires Quotient(m, scale) == Quotient(n, scale)
    ensures m == n
  {
    if scale > 0 {
      QuotientInjective(m, n, scale - 1);
    }
  }

  lemma SignedLinear(negative: bool, w: nat, a: nat, f: nat, b: nat)
    ensures Signed(negative, w * a + f * b) == Signed(negative, w) * a + Signed(negative, f) * b
  {
    if negative {
      assert (0 - w) * a == 0 - w * a;
      assert (0 - f) * b == 0 - f * b;
    }
  }

  lemma ScaledSplits(p: Parts, scale: nat)
    requires WellFormed(p) && |p.fraction| <= scale
    ensures Scaled(p, scale) == Signed(p.negative, NatOf(p.whole)) * Pow10(scale)
                              + Signed(p.negative, NatOf(p.fraction)) * Pow10(scale - |p.fraction|)
  {
    var padded := PadEnd(p.fraction, scale);
    NatOfConcat(p.whole, padded);
    PadEndValue(p.fraction, scale);
    SignedLinear(p.negative, NatOf(p.whole), Pow10(scale), NatOf(p.fraction), Pow10(scale - |p.fraction|));
  }

  /** Scaling a decimal to any sufficient scale keeps its value. */
  lemma ScaledValue(p: Parts, scale: nat)
    requires WellFormed(p) && |p.fraction| <= scale
    ensures Quotient(Scaled(p, scale), scale) == PartsValue(p)
  {
    var more := scale - |p.fraction|;
    var w, f := Signed(p.negative, NatOf(p.whole)), Signed(p.negative, NatOf(p.fraction));
    ScaledSplits(p, scale);
    QuotientSum(w * Pow10(scale), f * Pow10(more), scale);
    QuotientScale(w, 0, scale);
    QuotientScale(f, |p.fraction|, more);
  }

  // ---- Printing ----

  lemma SplitUnsignedText(p: Parts)
    requires WellFormed(p)
    ensures SplitUnsigned(UnsignedText(p)) == Some((p.whole, p.fraction))
  {
    var u := UnsignedText(p);
    if p.fraction == "" {
      assert u == p.whole && '.' !in u;
      assert u[..|u|] == p.whole;
    } else {
      var dot := |p.whole|;
      assert u[..dot] == p.whole && u[dot + 1..] == p.fraction;
      IndexIs(u, '.', dot);
    }
  }

  lemma TextEnds(p: Parts)
    requires WellFormed(p)
    ensures var t := TextOf(p);
      && t != "" && IsDigit(t[|t| - 1])
      && if p.negative then t[0] == '-' && t[1..] == UnsignedText(p)
         else IsDigit(t[0]) && t == UnsignedText(p)
  {
    var u := UnsignedText(p);
    assert u[0] == p.whole[0];
    assert u[|u| - 1] == if p.fraction == "" then p.whole[|p.whole| - 1] else p.fraction[|p.fraction| - 1];
  }

  /** Reading back printed parts. */
  lemma SplitText(p: Parts)
    requires WellFormed(p)
    ensures SplitDecimal(TextOf(p)) == Ok(p)
  {
    TextEnds(p);
    NothingToTrim(TextOf(p));
    SplitUnsignedText(p);
  }

  /** The parts `unscaleBigInt` prints. */
  function UnscaledParts(scaled: int, scale: nat): (p: Parts)
    ensures WellFormed(p) && |p.fraction| <= scale
  {
    var negative := scaled < 0;
    var digits := PadStart(Show(if negative then -scaled else scaled), scale + 1);
    Parts(negative, digits[..|digits| - scale], StripZeros(digits[|digits| - scale..]))
  }

  lemma UnscalePrintsParts(scaled: int, scale: nat)
    ensures UnscaleBigInt(scaled, scale) == TextOf(UnscaledParts(scaled, scale))
  {
    var p := UnscaledParts(scaled, scale);
    if scale == 0 {
      var digits := Show(if scaled < 0 then 0 - scaled else scaled);
      assert digits[..|digits|] == digits && digits[|digits|..] == "";
    } else if scaled < 0 {
      UnscaledNotZero(scaled, scale);
    }
  }

  lemma ZeroText(p: Parts, scale: nat)
    requires WellFormed(p) && |p.fraction| <= scale && UnsignedText(p) == "0"
    ensures Scaled(p, scale) == 0
  {
    assert p.fraction == "" && p.whole == "0" by {
      assert |UnsignedText(p)| == 1 && |p.whole| >= 1;
    }
    assert p.whole + PadEnd("", scale) == Zeros(scale + 1);
    NatOfZeros(scale + 1);
  }

  lemma UnscaledNotZero(scaled: int, scale: nat)
    requires scaled != 0
    ensures UnsignedText(UnscaledParts(scaled, scale)) != "0"
  {
    hide Scaled, UnsignedText, UnscaledParts;
    UnscaledPartsScaled(scaled, scale);
    if UnsignedText(UnscaledParts(scaled, scale)) == "0" {
      ZeroText(UnscaledParts(scaled, scale), scale);
    }
  }

  /** Scaling the printed parts back gives the integer that was printed. */
  lemma UnscaledPartsScaled(scaled: int, scale: nat)
    ensures Scaled(UnscaledParts(scaled, scale), scale) == scaled
  {
    hide NatOf, Show, StripZeros;
    var p := UnscaledParts(scaled, scale);
    var n := if scaled < 0 then -scaled else scaled;
    var digits := PadStart(Show(n), scale + 1);
    var tail := digits[|digits| - scale..];
    assert PadEnd(p.fraction, scale) == tail;
    assert p.whole + tail == digits;
    PadStartValue(Show(n), scale + 1);
    ShowRoundTrip(n);
  }

  lemma UnscaledPartsCanonical(scaled: int, scale: nat)
    ensures CanonicalParts(UnscaledParts(scaled, scale))
  {
    hide NatOf, Show, StripZeros, Pow10;
    var p := UnscaledParts(scaled, scale);
    var n := if scaled < 0 then -scaled else scaled;
    ShowLeadingDigit(n);
    if scaled < 0 && NatOf(p.whole) == 0 && NatOf(p.fraction) == 0 {
      UnscaledPartsScaled(scaled, scale);
      NatOfConcat(p.whole, PadEnd(p.fraction, scale));
      PadEndValue(p.fraction, scale);
      assert false;
    }
  }

  lemma CanonicalText(p: Parts)
    requires CanonicalParts(p)
    ensures Canonical(TextOf(p)) && Value(TextOf(p)) == PartsValue(p)
  {
    SplitText(p);
  }

  lemma UnscaledCorrect(scaled: int, scale: nat)
    ensures Canonical(UnscaleBigInt(scaled, scale))
    ensures Value(UnscaleBigInt(scaled, scale)) == Quotient(scaled, scale)
  {
    var p := UnscaledParts(scaled, scale);
    UnscalePrintsParts(scaled, scale);
    UnscaledPartsCanonical(scaled, scale);
    CanonicalText(p);
    UnscaledPartsScaled(scaled, scale);
    ScaledValue(p, scale);
  }

  // ---- Main results ----

  lemma SumOfParts(p: Parts, q: Parts, scale: nat)
    requires WellFormed(p) && WellFormed(q) && |p.fraction| <= scale && |q.fraction| <= scale
    ensures var sum := UnscaleBigInt(Scaled(p, scale) + Scaled(q, scale), scale);
      Canonical(sum) && Value(sum) == PartsValue(p) + PartsValue(q)
  {
    var m, n := Scaled(p, scale), Scaled(q, scale);
    ScaledValue(p, scale);
    ScaledValue(q, scale);
    QuotientSum(m, n, scale);
    UnscaledCorrect(m + n, scale);
  }

  lemma ErrorNamesText(s: string)
    ensures !Valid(s) ==> SplitDecimal(s) == Err(InvalidDecimal(s))
  {
  }

  /** Addition is exact, and its output is canonical; an error names the first operand that is none. */
  lemma AddExact(a: string, b: string)
    ensures AddDecimalStrings(a, b).Ok? <==> Valid(a) && Valid(b)
    ensures Valid(a) && Valid(b) ==>
              var sum := AddDecimalStrings(a, b).value;
              Canonical(sum) && Value(sum) == Value(a) + Value(b)
    ensures !Valid(a) ==> AddDecimalStrings(a, b) == Err(InvalidDecimal(a))
    ensures Valid(a) && !Valid(b) ==> AddDecimalStrings(a, b) == Err(InvalidDecimal(b))
  {
    ErrorNamesText(a);
    ErrorNamesText(b);
    hide SplitDecimal, UnscaleBigInt, Scaled, PartsValue, CanonicalParts;
    if Valid(a) && Valid(b) {
      var p, q := PartsOf(a), PartsOf(b);
      SumOfParts(p, q, Max(|p.fraction|, |q.fraction|));
    }
  }

  lemma SignedMultiple(negative: bool, n: nat)
    ensures Signed(negative, n) % 10 == 0 <==> n % 10 == 0
  {
  }

  /** A decimal with a fraction padded by at least one zero is a multiple of ten. */
  lemma PaddedIsMultipleOfTen(p: Parts, scale: nat)
    requires WellFormed(p) && |p.fraction| < scale
    ensures Scaled(p, scale) % 10 == 0
  {
    var digits := p.whole + PadEnd(p.fraction, scale);
    assert digits[|digits| - 1] == '0';
    NatOfLast(digits);
    SignedMultiple(p.negative, NatOf(digits));
  }

  lemma CanonicalIsNotMultipleOfTen(p: Parts)
    requires CanonicalParts(p) && p.fraction != ""
    ensures Scaled(p, |p.fraction|) % 10 != 0
  {
    var digits := p.whole + p.fraction;
    assert digits[|digits| - 1] == p.fraction[|p.fraction| - 1];
    NatOfLast(digits);
    SignedMultiple(p.negative, NatOf(digits));
  }

  /** Each number has at most one canonical string. */
  lemma CanonicalUnique(s: string, t: string)
    requires Canonical(s) && Canonical(t) && Value(s) == Value(t)
    ensures s == t
  {
    var p, q := PartsOf(s), PartsOf(t);
    var scale := Max(|p.fraction|, |q.fraction|);
    ScaledValue(p, scale);
    ScaledValue(q, scale);
    QuotientInjective(Scaled(p, scale), Scaled(q, scale), scale);
    if |p.fraction| < scale {
      PaddedIsMultipleOfTen(p, scale);
      CanonicalIsNotMultipleOfTen(q);
      assert false;
    }
    if |q.fraction| < scale {
      PaddedIsMultipleOfTen(q, scale);
      CanonicalIsNotMultipleOfTen(p);
      assert false;
    }
    SameScaleUnique(p, q);
  }

  lemma SameScaleUnique(p: Parts, q: Parts)
    requires CanonicalParts(p) && CanonicalParts(q) && |p.fraction| == |q.fraction|
    requires Scaled(p, |p.fraction|) == Scaled(q, |p.fraction|)
    ensures p == q
  {
    var scale := |p.fraction|;
    NatOfConcat(p.whole, p.fraction);
    NatOfConcat(q.whole, q.fraction);
    NatOfBound(p.fraction);
    NatOfBound(q.fraction);
    if p.negative { MagnitudePositive(p); }
    if q.negative { MagnitudePositive(q); }
    QuotientUnique(NatOf(p.whole), NatOf(p.fraction), NatOf(q.whole), NatOf(q.fraction), Pow10(scale));
    ShowUnique(p.whole);
    ShowUnique(q.whole);
    FixedWidthUnique(p.fraction, q.fraction);
  }

  lemma MagnitudePositive(p: Parts)
    requires CanonicalParts(p) && p.negative
    ensures NatOf(p.whole) * Pow10(|p.fraction|) + NatOf(p.fraction) > 0
  {
    if NatOf(p.whole) > 0 {
      MulAtLeast(NatOf(p.whole), Pow10(|p.fraction|));
    }
  }

  lemma AddCommutes(a: string, b: string)
    requires Valid(a) && Valid(b)
    ensures AddDecimalStrings(a, b) == AddDecimalStrings(b, a)
  {
    hide SplitDecimal, AddDecimalStrings, PartsValue, CanonicalParts;
    AddExact(a, b);
    AddExact(b, a);
    CanonicalUnique(AddDecimalStrings(a, b).value, AddDecimalStrings(b, a).value);
  }

  lemma AddAssociates(a: string, b: string, c: string)
    requires Valid(a) && Valid(b) && Valid(c)
    ensures AddDecimalStrings(a, b).Ok? && AddDecimalStrings(b, c).Ok?
    ensures AddDecimalStrings(AddDecimalStrings(a, b).value, c)
         == AddDecimalStrings(a, AddDecimalStrings(b, c).value)
  {
    hide SplitDecimal, AddDecimalStrings, PartsValue, CanonicalParts;
    AddExact(a, b);
    AddExact(b, c);
    var ab, bc := AddDecimalStrings(a, b).value, AddDecimalStrings(b, c).value;
    AddExact(ab, c);
    AddExact(a, bc);
    CanonicalUnique(AddDecimalStrings(ab, c).value, AddDecimalStrings(a, bc).value);
  }

  // ---- Sums ----

  ghost predicate AllValid(values: seq<string>) {
    forall i :: 0 <= i < |values| ==> Valid(values[i])
  }

  /** The plain sum of `f` over a sequence. */
  ghost function Total<T>(values: seq<T>, f: T -> real): real {
    if values == [] then 0.0
    else Total(values[..|values| - 1], f) + f(values[|values| - 1])
  }

  ghost function ValueOrZero(s: string): real {
    if Valid(s) then Value(s) else 0.0
  }

  /** A sum succeeds exactly on valid terms, and is then the canonical string of their total. */
  lemma {:induction false} SumExact(values: seq<string>)
    ensures SumDecimalStrings(values).Ok? <==> AllValid(values)
    ensures AllValid(values) ==>
              var total := SumDecimalStrings(values).value;
              Canonical(total) && Value(total) == Total(values, ValueOrZero)
  {
    if values == [] {
      UnscaledCorrect(0, 0);
      assert UnscaleBigInt(0, 0) == "0";
    } else {
      var front, last := values[..|values| - 1], values[|values| - 1];
      SumExact(front);
      ValidSplits(values);
      if AllValid(front) {
        SumStep(SumDecimalStrings(front).value, last);
      }
    }
  }

  /** A failing sum names the first term that is no decimal. */
  lemma {:induction false} SumError(values: seq<string>, k: nat)
    requires k < |values| && AllValid(values[..k]) && !Valid(values[k])
    ensures SumDecimalStrings(values) == Err(InvalidDecimal(values[k]))
    decreases |values|
  {
    hide AddDecimalStrings, Valid;
    var front := values[..|values| - 1];
    if k < |front| {
      assert front[..k] == values[..k];
      SumError(front, k);
    } else {
      SumExact(front);
      SumIsCanonical(front);
      AddExact(SumDecimalStrings(front).value, values[k]);
    }
  }

  lemma SumIsCanonical(values: seq<string>)
    requires AllValid(values)
    ensures SumDecimalStrings(values).Ok? && Valid(SumDecimalStrings(values).value)
  {
    SumExact(values);
  }

  lemma ValidSplits(values: seq<string>)
    requires values != []
    ensures AllValid(values) <==> AllValid(values[..|values| - 1]) && Valid(values[|values| - 1])
  {
    var front := values[..|values| - 1];
    if AllValid(front) && Valid(values[|values| - 1]) {
      forall i | 0 <= i < |values| ensures Valid(values[i]) {
        if i < |front| {
          assert values[i] == front[i];
        }
      }
    }
  }

  lemma SumStep(total: string, last: string)
    requires Valid(total)
    ensures AddDecimalStrings(total, last).Ok? <==> Valid(last)
    ensures Valid(last) ==>
              var sum := AddDecimalStrings(total, last).value;
              Canonical(sum) && Value(sum) == Value(total) + ValueOrZero(last)
  {
    AddExact(total, last);
  }

  lemma {:induction false} TotalOfConcat<T>(a: seq<T>, b: seq<T>, f: T -> real)
    ensures Total(a + b, f) == Total(a, f) + Total(b, f)
  {
    if b == [] {
      assert a + b == a;
    } else {
      TotalOfConcat(a, b[..|b| - 1], f);
      assert (a + b)[..|a + b| - 1] == a + b[..|b| - 1];
    }
  }

  function Without<T>(s: seq<T>, k: nat): seq<T>
    requires k < |s|
  {
    s[..k] + s[k + 1..]
  }

  lemma TotalWithout<T>(s: seq<T>, k: nat, f: T -> real)
    requires k < |s|
    ensures Total(s, f) == Total(Without(s, k), f) + f(s[k])
  {
    hide Total;
    var l, r := s[..k], s[k + 1..];
    assert s == (l + [s[k]]) + r;
    TotalOfConcat(l + [s[k]], r, f);
    TotalOfConcat(l, [s[k]], f);
    TotalOfConcat(l, r, f);
    TotalOfOne(s[k], f);
  }

  lemma TotalOfOne<T>(x: T, f: T -> real)
    ensures Total([x], f) == f(x)
  {
    assert [x][..0] == [];
  }

  lemma MultisetWithout<T>(s: seq<T>, k: nat)
    requires k < |s|
    ensures multiset(Without(s, k)) == multiset(s) - multiset{s[k]}
  {
    var l, r := s[..k], s[k + 1..];
    assert s == l + [s[k]] + r;
    assert multiset(s) == multiset(l) + multiset{s[k]} + multiset(r);
  }

  lemma {:induction false} TotalOfPermutation<T>(a: seq<T>, b: seq<T>, f: T -> real)
    requires multiset(a) == multiset(b)
    ensures Total(a, f) == Total(b, f)
    decreases |a|
  {
    if a == [] {
      assert |multiset(b)| == 0;
      assert b == [];
    } else {
      assert a[0] in multiset(a);
      var k :| 0 <= k < |b| && b[k] == a[0];
      MultisetWithout(a, 0);
      MultisetWithout(b, k);
      TotalOfPermutation(Without(a, 0), Without(b, k), f);
      TotalWithout(a, 0, f);
      TotalWithout(b, k, f);
    }
  }

  lemma PermutationValid(a: seq<string>, b: seq<string>)
    requires multiset(a) == multiset(b) && AllValid(a)
    ensures AllValid(b)
  {
    forall i | 0 <= i < |b| ensures Valid(b[i]) {
      assert b[i] in multiset(a);
    }
  }

  /** Reordering the terms gives the identical string, or fails as well. */
  lemma SumPermutation(a: seq<string>, b: seq<string>)
    requires multiset(a) == multiset(b)
    ensures SumDecimalStrings(a).Ok? <==> SumDecimalStrings(b).Ok?
    ensures SumDecimalStrings(a).Ok? ==> SumDecimalStrings(a) == SumDecimalStrings(b)
  {
    SumExact(a);
    SumExact(b);
    if AllValid(a) || AllValid(b) {
      if AllValid(a) { PermutationValid(a, b); } else { PermutationValid(b, a); }
      TotalOfPermutation(a, b, ValueOrZero);
      CanonicalUnique(SumDecimalStrings(a).value, SumDecimalStrings(b).value);
    }
  }

  // ---- What a decimal text is ----

  /** The valid texts are exactly the printed forms of parts, in white space: an optional minus, digits,
      and optionally a dot and more digits. */
  lemma ValidExact(s: string)
    ensures Valid(s) <==> exists a, p, b ::
      WellFormed(p) && AllSpace(a) && AllSpace(b) && s == a + TextOf(p) + b
  {
    hide Trim, IsSpace;
    if Valid(s) {
      var a, b := TrimSplits(s);
      SplitIsText(s);
      assert s == a + TextOf(PartsOf(s)) + b;
    }
    if a, p, b :| WellFormed(p) && AllSpace(a) && AllSpace(b) && s == a + TextOf(p) + b {
      ReadsParts(a, p, b);
    }
  }

  /** The text of the parts, piece by piece. */
  lemma TextPieces(w: string, f: string)
    requires f != ""
    ensures TextOf(Parts(false, w, "")) == w && TextOf(Parts(true, w, "")) == "-" + w
    ensures TextOf(Parts(false, w, f)) == w + "." + f && TextOf(Parts(true, w, f)) == "-" + w + "." + f
  {
  }

  lemma UnsignedSplits(u: string, negative: bool)
    requires SplitUnsigned(u).Some?
    ensures var (whole, fraction) := SplitUnsigned(u).value;
      u == UnsignedText(Parts(negative, whole, fraction))
  {
    var dot := IndexOf(u, '.');
    if dot == |u| {
      assert u[..dot] == u;
    } else {
      assert u == u[..dot] + ("." + u[dot + 1..]);
    }
  }

  lemma SplitIsText(s: string)
    requires Valid(s)
    ensures Trim(s) == TextOf(PartsOf(s))
  {
    hide Trim, SplitUnsigned, UnsignedText;
    var t := Trim(s);
    var negative := t != "" && t[0] == '-';
    var u := if negative then t[1..] else t;
    UnsignedSplits(u, negative);
    assert negative ==> t == "-" + u;
    assert "" + u == u;
  }

  /** White space around a decimal is ignored. */
  lemma ReadsParts(a: string, p: Parts, b: string)
    requires WellFormed(p) && AllSpace(a) && AllSpace(b)
    ensures Valid(a + TextOf(p) + b) && PartsOf(a + TextOf(p) + b) == p
  {
    hide Trim, IsSpace, SplitUnsigned;
    var t := TextOf(p);
    TextEnds(p);
    EndsAreNoSpace(t);
    SplitText(p);
    TrimIs(a, t, b);
    TrimIs("", t, "");
    assert "" + t + "" == t;
  }

  lemma EndsAreNoSpace(t: string)
    requires t != "" && IsDigit(t[|t| - 1]) && (IsDigit(t[0]) || t[0] == '-')
    ensures Trimmed(t)
  {
  }

  /** What a decimal text denotes: the sign times the whole number and the fraction over a power of ten. */
  lemma ValueExact(p: Parts)
    requires WellFormed(p)
    ensures Valid(TextOf(p))
    ensures Value(TextOf(p)) * Pow10(|p.fraction|) as real
         == (if p.negative then -1.0 else 1.0) * (NatOf(p.whole) * Pow10(|p.fraction|) + NatOf(p.fraction)) as real
  {
    hide NatOf, Pow10, TextOf, SplitDecimal, PartsValue;
    SplitText(p);
    PartsExact(p);
  }

  lemma PartsExact(p: Parts)
    requires WellFormed(p)
    ensures PartsValue(p) * Pow10(|p.fraction|) as real
         == (if p.negative then -1.0 else 1.0) * (NatOf(p.whole) * Pow10(|p.fraction|) + NatOf(p.fraction)) as real
  {
    hide NatOf, Pow10, PartsValue, Scaled, Quotient;
    var n := |p.fraction|;
    ScaledValue(p, n);
    ScaledSplits(p, n);
    UnitPower();
    assert Pow10(n - n) == 1;
    QuotientPower(Scaled(p, n), n);
    SignedCast(p.negative, NatOf(p.whole), Pow10(n), NatOf(p.fraction));
  }

  lemma UnitPower()
    ensures Pow10(0) == 1
  {
  }

  lemma SignedCast(negative: bool, w: nat, m: nat, f: nat)
    ensures (Signed(negative, w) * m + Signed(negative, f)) as real
         == (if negative then -1.0 else 1.0) * (w * m + f) as real
  {
    if negative {
      assert (0 - w) * m == 0 - w * m;
    }
  }

  lemma {:induction false} QuotientPower(n: int, scale: nat)
    ensures Quotient(n, scale) * Pow10(scale) as real == n as real
  {
    if scale > 0 {
      QuotientPower(n, scale - 1);
      var p := Pow10(scale - 1) as real;
      assert Pow10(scale) as real == 10.0 * p;
      var q := Quotient(n, scale - 1);
      assert q / 10.0 * (10.0 * p) == q * p;
    }
  }
}

/** Human-written numeric text as the argument sanitizer reads it
    (agents/src/tools/sanitization.ts). Numbers are exact. */
module NumericText {
  import opened Digits
  import opened Text

  predicate Integral(n: real) {
    n == n.Floor as real
  }

  predicate IsCurrency(c: char) {
    c == '$' || c == '\U{20AC}' || c == '\U{00A3}' || c == '\U{00A5}'
  }

  /** Digit grouping and white space: `[,\s_]`. */
  predicate IsNoise(c: char) {
    c == ',' || c == '_' || IsSpace(c)
  }

  function DropNoise(s: string): (r: string)
    ensures (forall i :: 0 <= i < |s| ==> !IsNoise(s[i])) ==> r == s
  {
    if s == "" then "" else (if IsNoise(s[0]) then "" else [s[0]]) + DropNoise(s[1..])
  }

  /** `trim`, one leading currency sign, then the noise. */
  function Cleaned(raw: string): string {
    var t := Trim(raw);
    DropNoise(if t != "" && IsCurrency(t[0]) then t[1..] else t)
  }

  /** `x * 10^e` */
  function Shift(x: real, e: int): real
    decreases if e < 0 then -e else e
  {
    if e == 0 then x else if e > 0 then Shift(x * 10.0, e - 1) else Shift(x / 10.0, e + 1)
  }

  lemma {:induction false} ShiftLinear(x: real, e: int)
    ensures Shift(x * 10.0, e) == Shift(x, e) * 10.0
    decreases if e < 0 then -e else e
  {
    if e > 0 {
      ShiftLinear(x * 10.0, e - 1);
    } else if e < 0 {
      ShiftLinear(x / 10.0, e + 1);
      assert x * 10.0 / 10.0 == x / 10.0 * 10.0;
    }
  }

  /** Shifting down and back up again. */
  lemma {:induction false} ShiftUndone(x: real, n: nat)
    ensures Shift(Shift(x, -(n as int)), n) == x
  {
    if n > 0 {
      ShiftLinear(x / 10.0, 1 - n);
      ShiftUndone(x, n - 1);
    }
  }

  /** Shifting up multiplies by a power of ten, shifting down divides by it. */
  lemma {:induction false} ShiftIsPower(x: real, n: nat)
    ensures Shift(x, n) == x * Pow10(n) as real
    ensures Shift(x, -(n as int)) * Pow10(n) as real == x
    decreases n
  {
    if n > 0 {
      var p := Pow10(n - 1) as real;
      assert Pow10(n) as real == 10.0 * p;
      ShiftIsPower(x * 10.0, n - 1);
      assert x * 10.0 * p == x * (10.0 * p);
      ShiftIsPower(x / 10.0, n - 1);
      var y := Shift(x / 10.0, 1 - n);
      assert y * p == x / 10.0;
      assert y * (10.0 * p) == 10.0 * (y * p);
    }
  }

  predicate IsSign(c: char) {
    c == '-' || c == '+'
  }

  /** `[-+]?\d+` */
  function SignedDigits(s: string): Option<int> {
    var signed := s != "" && IsSign(s[0]);
    var digits := if signed then s[1..] else s;
    if digits == "" || !AllDigits(digits) then None
    else Some(if signed && s[0] == '-' then -(NatOf(digits) as int) else NatOf(digits))
  }

  /** `\d+(\.\d*)?|\.\d+` */
  function Mantissa(s: string): Option<real> {
    var dot := IndexOf(s, '.');
    var whole := s[..dot];
    var fraction := if dot < |s| then s[dot + 1..] else "";
    if (whole == "" && fraction == "") || !AllDigits(whole) || !AllDigits(fraction) then None
    else Some(Shift(NatOf(whole + fraction) as real, -|fraction|))
  }

  function ExponentAt(s: string): nat {
    Min(IndexOf(s, 'e'), IndexOf(s, 'E'))
  }

  /** `[-+]?(\d+(\.\d*)?|\.\d+)([eE][-+]?\d+)?` and its value. */
  function Literal(s: string): Option<real> {
    var signed := s != "" && IsSign(s[0]);
    var u := if signed then s[1..] else s;
    var e := ExponentAt(u);
    var mantissa := Mantissa(u[..e]);
    var exponent := if e == |u| then Some(0) else SignedDigits(u[e + 1..]);
    if mantissa.None? || exponent.None? then None
    else
      var magnitude := Shift(mantissa.value, exponent.value);
      Some(if signed && s[0] == '-' then -magnitude else magnitude)
  }

  /** `parseNumericLiteral`; `None` is the reported error. */
  function ParseNumericLiteral(raw: string): Option<real> {
    Literal(Cleaned(raw))
  }

  predicate HasFractionalPart(raw: string) {
    var n := ParseNumericLiteral(raw);
    n.Some? && !Integral(n.value)
  }

  lemma DigitsAreLiteral(s: string)
    requires AllDigits(s) && s != ""
    ensures ExponentAt(s) == |s| && Mantissa(s) == Some(NatOf(s) as real)
  {
    assert 'e' !in s && 'E' !in s && '.' !in s;
    assert s[..|s|] == s && s + "" == s;
  }

  lemma MinusDigits(digits: string)
    requires AllDigits(digits) && digits != ""
    ensures SignedDigits("-" + digits) == Some(-(NatOf(digits) as int))
  {
    assert ("-" + digits)[1..] == digits;
  }

  lemma NegativeExponentSplits(m: string, x: string)
    requires AllDigits(m) && m != "" && AllDigits(x)
    ensures var s := m + "e-" + x;
      ExponentAt(s) == |m| && s[..|m|] == m && s[|m| + 1..] == "-" + x
  {
    var s := m + "e-" + x;
    assert s[..|m|] == m && 'e' !in m && 'E' !in s;
    IndexIs(s, 'e', |m|);
  }

  /** `<digits>e-<digits>` */
  lemma NegativeExponent(m: string, x: string)
    requires AllDigits(m) && m != "" && AllDigits(x) && x != ""
    ensures Literal(m + "e-" + x) == Some(Shift(NatOf(m) as real, -(NatOf(x) as int)))
  {
    hide ExponentAt, Mantissa, SignedDigits, Shift;
    var s := m + "e-" + x;
    assert s[0] == m[0] && IsDigit(m[0]);
    NegativeExponentSplits(m, x);
    DigitsAreLiteral(m);
    MinusDigits(x);
  }

  lemma DropNoiseConcat(a: string, b: string)
    ensures DropNoise(a + b) == DropNoise(a) + DropNoise(b)
  {
    if a == "" {
      assert a + b == b;
    } else {
      assert (a + b)[1..] == a[1..] + b;
      DropNoiseConcat(a[1..], b);
    }
  }

  /** White space around a number is ignored. */
  lemma SpaceIgnored(a: string, t: string, b: string)
    requires AllSpace(a) && AllSpace(b) && Trimmed(t)
    ensures ParseNumericLiteral(a + t + b) == ParseNumericLiteral(t)
  {
    hide Literal, IsSpace;
    TrimIs(a, t, b);
    TrimIs("", t, "");
    assert "" + t + "" == t;
  }

  /** One currency sign in front of a number is ignored. */
  lemma CurrencyIgnored(c: char, t: string)
    requires c == '$' || c == '\U{20AC}' || c == '\U{00A3}' || c == '\U{00A5}'
    requires t != "" && Trimmed(t) && !IsCurrency(t[0])
    ensures ParseNumericLiteral([c] + t) == ParseNumericLiteral(t)
  {
    hide Literal;
    var s := [c] + t;
    assert s[0] == c && s[|s| - 1] == t[|t| - 1] && s[1..] == t;
    NothingToTrim(s);
    NothingToTrim(t);
  }

  /** Commas, underscores and white space inside a number are ignored. */
  lemma GroupingIgnored(x: string, c: char, y: string)
    requires c == ',' || c == '_' || IsSpace(c)
    requires x != "" && y != "" && !IsSpace(x[0]) && !IsSpace(y[|y| - 1])
    ensures ParseNumericLiteral(x + [c] + y) == ParseNumericLiteral(x + y)
  {
    hide Literal, IsSpace;
    var s, t := x + [c] + y, x + y;
    assert s[0] == t[0] == x[0] && s[|s| - 1] == t[|t| - 1] == y[|y| - 1];
    NothingToTrim(s);
    NothingToTrim(t);
    var x' := if IsCurrency(x[0]) then x[1..] else x;
    assert s[1..] == x[1..] + [c] + y && t[1..] == x[1..] + y;
    assert (if IsCurrency(s[0]) then s[1..] else s) == x' + [c] + y;
    assert (if IsCurrency(t[0]) then t[1..] else t) == x' + y;
    DropNoiseConcat(x' + [c], y);
    DropNoiseConcat(x', [c]);
    DropNoiseConcat(x', y);
    assert [c][1..] == "" && IsNoise(c);
    assert DropNoise([c]) == "";
    assert DropNoise(x') + "" == DropNoise(x');
  }

  /** A decimal text denotes its whole part and its fraction over a power of ten. */
  lemma DecimalLiteral(w: string, f: string)
    requires AllDigits(w) && AllDigits(f) && w + f != ""
    ensures var n := Literal(w + "." + f);
      n.Some? && n.value * Pow10(|f|) as real == (NatOf(w) * Pow10(|f|) + NatOf(f)) as real
  {
    hide *;
    LiteralOfDecimal(w, f);
    ValueOfDecimal(w, f);
  }

  lemma LiteralOfDecimal(w: string, f: string)
    requires AllDigits(w) && AllDigits(f) && w + f != ""
    ensures AllDigits(w + f) && Literal(w + "." + f) == Some(Shift(NatOf(w + f) as real, -|f|))
  {
    hide Shift, Mantissa, ExponentAt, NatOf, SignedDigits;
    var s := w + "." + f;
    NoExponent(w, f);
    assert s[0] == (if w == "" then '.' else w[0]) && s[..|s|] == s;
    assert w != "" ==> IsDigit(w[0]);
    DotMantissa(w, f);
    NoShift(Shift(NatOf(w + f) as real, -|f|));
  }

  lemma ValueOfDecimal(w: string, f: string)
    requires AllDigits(w) && AllDigits(f) && AllDigits(w + f)
    ensures Shift(NatOf(w + f) as real, -|f|) * Pow10(|f|) as real
         == (NatOf(w) * Pow10(|f|) + NatOf(f)) as real
  {
    hide Shift, NatOf, Pow10;
    NatOfConcat(w, f);
    ShiftIsPower(NatOf(w + f) as real, |f|);
  }

  lemma NoShift(x: real)
    ensures Shift(x, 0) == x
  {
  }

  lemma NoExponent(w: string, f: string)
    requires AllDigits(w) && AllDigits(f)
    ensures ExponentAt(w + "." + f) == |w + "." + f|
  {
    assert 'e' !in w + "." + f && 'E' !in w + "." + f;
  }

  lemma DotMantissa(w: string, f: string)
    requires AllDigits(w) && AllDigits(f) && w + f != ""
    ensures AllDigits(w + f) && Mantissa(w + "." + f) == Some(Shift(NatOf(w + f) as real, -|f|))
  {
    hide Shift;
    var s, dot := w + "." + f, |w|;
    assert s[..dot] == w && s[dot + 1..] == f;
    IndexIs(s, '.', dot);
  }

  /** An exponent shifts the number in front of it, up or, behind a minus, down. */
  lemma ExponentShifts(t: string, e: char, x: string)
    requires t != "" && !IsSign(t[0]) && 'e' !in t && 'E' !in t && (e == 'e' || e == 'E')
    requires AllDigits(x) && x != ""
    ensures var n, up, down := Literal(t), Literal(t + [e] + x), Literal(t + [e] + ("-" + x));
      && up == (if n.Some? then Some(Shift(n.value, NatOf(x))) else None)
      && down == (if n.Some? then Some(Shift(n.value, -(NatOf(x) as int))) else None)
  {
    hide Mantissa, ExponentAt, SignedDigits, Shift;
    assert t[..|t|] == t;
    PlainExponent(t);
    ExponentSplits(t, e, x);
    ExponentSplits(t, e, "-" + x);
    assert (t + [e] + x)[0] == t[0] && (t + [e] + ("-" + x))[0] == t[0];
    MinusDigits(x);
    PlusDigits(x);
    if Mantissa(t).Some? {
      NoShift(Mantissa(t).value);
    }
  }

  lemma PlainExponent(t: string)
    requires 'e' !in t && 'E' !in t
    ensures ExponentAt(t) == |t|
  {
  }

  lemma PlusDigits(x: string)
    requires AllDigits(x) && x != ""
    ensures SignedDigits(x) == Some(NatOf(x))
  {
    assert IsDigit(x[0]);
  }

  lemma ExponentSplits(t: string, e: char, x: string)
    requires 'e' !in t && 'E' !in t && (e == 'e' || e == 'E')
    ensures var s := t + [e] + x;
      ExponentAt(s) == |t| && s[..|t|] == t && s[|t| + 1..] == x
  {
    var s := t + [e] + x;
    assert s[..|t|] == t && s[|t|] == e;
    IndexIs(s, e, |t|);
    var other := if e == 'e' then 'E' else 'e';
    var i := IndexOf(s, other);
    assert i >= |t|;
  }

  /** A leading minus negates, a leading plus does nothing. */
  lemma SignedLiteral(t: string)
    requires t != "" && !IsSign(t[0])
    ensures Literal("+" + t) == Literal(t)
    ensures Literal("-" + t) == if Literal(t).Some? then Some(-Literal(t).value) else None
  {
    hide Shift, Mantissa, ExponentAt, SignedDigits;
    assert ("+" + t)[1..] == t && ("-" + t)[1..] == t;
  }

  lemma NothingToClean(s: string)
    requires s != "" && forall i :: 0 <= i < |s| ==> IsDigit(s[i]) || s[i] == '-' || s[i] == 'e'
    ensures Cleaned(s) == s
  {
    NothingToTrim(s);
  }

  lemma PrintedIsClean(n: int)
    ensures Cleaned(ShowInt(n)) == ShowInt(n)
  {
    var s, digits := ShowInt(n), Show(if n < 0 then -n else n);
    assert forall i :: 0 <= i < |s| ==> IsDigit(s[i]) || s[i] == '-';
    NothingToClean(s);
  }

  lemma PlainLiteral(digits: string)
    requires AllDigits(digits) && digits != ""
    ensures Literal(digits) == Some(NatOf(digits) as real)
  {
    assert digits[..|digits|] == digits && IsDigit(digits[0]);
    DigitsAreLiteral(digits);
  }

  lemma MinusLiteral(s: string, digits: string)
    requires AllDigits(digits) && digits != "" && s != "" && s[0] == '-' && s[1..] == digits
    ensures Literal(s) == Some(-(NatOf(digits) as real))
  {
    assert digits[..|digits|] == digits;
    DigitsAreLiteral(digits);
  }

  lemma PrintedLiteral(n: int)
    ensures Literal(ShowInt(n)) == Some(n as real)
  {
    hide Literal;
    var digits := Show(if n < 0 then -n else n);
    ShowRoundTrip(if n < 0 then -n else n);
    if n < 0 {
      MinusLiteral(ShowInt(n), digits);
    } else {
      PlainLiteral(digits);
    }
  }

  /** Integers print as integral literals. */
  lemma PrintedIntegerIsIntegral(n: int)
    ensures ParseNumericLiteral(ShowInt(n)) == Some(n as real)
    ensures !HasFractionalPart(ShowInt(n))
  {
    PrintedIsClean(n);
    PrintedLiteral(n);
  }
}

/** Result types and the few JavaScript string operations the other modules share. */
module Text {
  import opened Digits

  datatype Option<+T> = None | Some(value: T)

  datatype Result<+T, +E> = Ok(value: T) | Err(error: E)

  function Max(a: int, b: int): int {
    if a >= b then a else b
  }

  function Min(a: int, b: int): int {
    if a <= b then a else b
  }

  /** The characters `String.prototype.trim` removes. */
  predicate IsSpace(c: char) {
    || '\t' <= c <= '\r'
    || c == ' ' || c == '\U{00A0}' || c == '\U{1680}'
    || '\U{2000}' <= c <= '\U{200A}'
    || c == '\U{2028}' || c == '\U{2029}' || c == '\U{202F}'
    || c == '\U{205F}' || c == '\U{3000}' || c == '\U{FEFF}'
  }

  function Trim(s: string): (r: string)
    ensures |r| <= |s|
    decreases |s|
  {
    if s == "" then s
    else if IsSpace(s[0]) then Trim(s[1..])
    else if IsSpace(s[|s| - 1]) then Trim(s[..|s| - 1])
    else s
  }

  /** Trimming never removes a character that is not white space. */
  lemma {:induction false} TrimKeeps(s: string, c: char)
    requires c in s && !IsSpace(c)
    ensures c in Trim(s)
    decreases |s|
  {
    if IsSpace(s[0]) {
      assert c in s[1..];
      TrimKeeps(s[1..], c);
    } else if IsSpace(s[|s| - 1]) {
      assert c in s[..|s| - 1];
      TrimKeeps(s[..|s| - 1], c);
    }
  }

  predicate AllSpace(s: string) {
    forall i :: 0 <= i < |s| ==> IsSpace(s[i])
  }

  /** Nothing to trim at either end. */
  predicate Trimmed(s: string) {
    s == "" || (!IsSpace(s[0]) && !IsSpace(s[|s| - 1]))
  }

  /** Trimming takes white space off both ends and nothing else. */
  lemma {:induction false} TrimSplits(s: string) returns (a: string, b: string)
    ensures s == a + Trim(s) + b && AllSpace(a) && AllSpace(b) && Trimmed(Trim(s))
    decreases |s|
  {
    hide IsSpace;
    if s == "" {
      a, b := "", "";
    } else if IsSpace(s[0]) {
      var c, t := s[0], s[1..];
      a, b := TrimSplits(t);
      assert s == [c] + t;
      Regroup([c], a, Trim(t), b);
      a := [c] + a;
    } else if IsSpace(s[|s| - 1]) {
      var c, t := s[|s| - 1], s[..|s| - 1];
      a, b := TrimSplits(t);
      assert s == t + [c];
      assert s == a + Trim(t) + (b + [c]);
      b := b + [c];
    } else {
      a, b := "", "";
      assert s == "" + s + "";
    }
  }

  lemma Regroup(a: string, b: string, c: string, d: string)
    ensures a + (b + c + d) == (a + b) + c + d
  {
  }

  lemma {:induction false} TrimSpace(s: string)
    requires AllSpace(s)
    ensures Trim(s) == ""
    decreases |s|
  {
    if s != "" {
      TrimSpace(s[1..]);
    }
  }

  lemma {:induction false} TrimIs(a: string, w: string, b: string)
    requires AllSpace(a) && AllSpace(b) && Trimmed(w)
    ensures Trim(a + w + b) == w
    decreases |a| + |b|
  {
    hide IsSpace;
    var s := a + w + b;
    if w == "" {
      TrimSpace(s);
    } else if a != "" {
      assert s[0] == a[0] && s[1..] == a[1..] + w + b;
      TrimIs(a[1..], w, b);
    } else if b != "" {
      assert s[0] == w[0] && s[|s| - 1] == b[|b| - 1] && s[..|s| - 1] == a + w + b[..|b| - 1];
      TrimIs(a, w, b[..|b| - 1]);
    } else {
      assert s == w;
    }
  }

  /** Index of the first `c`, or the length when there is none. */
  function IndexOf(s: string, c: char): (i: nat)
    ensures i <= |s|
    ensures c !in s[..i]
    ensures i < |s| ==> s[i] == c
    ensures c !in s ==> i == |s|
  {
    if s == "" then 0
    else if s[0] == c then 0
    else
      var r := 1 + IndexOf(s[1..], c);
      assert forall j :: 1 <= j < r ==> s[j] == s[1..][j - 1];
      r
  }

  lemma {:induction false} IndexIs(s: string, c: char, i: nat)
    requires i < |s| && s[i] == c && c !in s[..i]
    ensures IndexOf(s, c) == i
  {
    if i > 0 {
      assert s[0] != c by { assert s[..i][0] == s[0]; }
      assert s[1..][..i - 1] == s[..i][1..];
      IndexIs(s[1..], c, i - 1);
    }
  }

  lemma IndexAtMost(s: string, c: char, i: nat)
    requires i < |s| && s[i] == c
    ensures IndexOf(s, c) <= i
  {
  }

  /** `text.replace(pattern, with)`: the first occurrence only. */
  function ReplaceFirst(text: string, pattern: string, with: string): string {
    if pattern <= text then with + text[|pattern|..]
    else if text == "" then ""
    else [text[0]] + ReplaceFirst(text[1..], pattern, with)
  }

  /** Nothing is replaced before the first occurrence. */
  lemma {:induction false} ReplaceFirstSkips(a: string, b: string, pattern: string, with: string)
    requires forall i :: 0 <= i < |a| ==> !(pattern <= (a + b)[i..])
    ensures ReplaceFirst(a + b, pattern, with) == a + ReplaceFirst(b, pattern, with)
  {
    if a == "" {
      assert a + b == b;
    } else {
      var t := a + b;
      assert t[1..] == a[1..] + b;
      assert t[0..] == t;
      forall i | 0 <= i < |a[1..]| ensures !(pattern <= (a[1..] + b)[i..]) {
        assert (a[1..] + b)[i..] == t[i + 1..];
      }
      ReplaceFirstSkips(a[1..], b, pattern, with);
    }
  }

  lemma NothingToTrim(s: string)
    requires s != "" && !IsSpace(s[0]) && !IsSpace(s[|s| - 1])
    ensures Trim(s) == s
  {
  }

  /** `BigInt(text)` for decimal text; `None` is the thrown SyntaxError. */
  function BigIntOf(s: string): Option<int> {
    var t := Trim(s);
    if t == "" then Some(0)
    else if t[0] == '-' then
      if |t| > 1 && AllDigits(t[1..]) then Some(-(NatOf(t[1..]) as int)) else None
    else
      var u := if t[0] == '+' then t[1..] else t;
      if u != "" && AllDigits(u) then Some(NatOf(u)) else None
  }

  /** Text holding a character that is neither space, sign nor digit is no BigInt. */
  lemma BigIntRejects(s: string, c: char)
    requires c in s && !IsSpace(c) && !IsDigit(c) && c != '-' && c != '+'
    ensures BigIntOf(s) == None
  {
    TrimKeeps(s, c);
    var t := Trim(s);
    var i :| 0 <= i < |t| && t[i] == c;
    assert i > 0 ==> t[1..][i - 1] == c;
  }

  lemma BigIntOfDigits(s: string)
    requires AllDigits(s) && s != ""
    ensures BigIntOf(s) == Some(NatOf(s))
  {
    assert IsDigit(s[0]) && IsDigit(s[|s| - 1]);
    assert Trim(s) == s;
  }

  lemma BigIntOfNegative(s: string)
    requires AllDigits(s) && s != ""
    ensures BigIntOf("-" + s) == Some(-(NatOf(s) as int))
  {
    var t := "-" + s;
    assert t[1..] == s && t[|t| - 1] == s[|s| - 1] && IsDigit(s[|s| - 1]);
    assert Trim(t) == t;
  }

  /** `n.toString()` for a BigInt or an integral Number. */
  function ShowInt(n: int): (s: string)
    ensures |s| >= 1
  {
    if n < 0 then "-" + Show(-n) else Show(n)
  }

  lemma ShowIntRoundTrip(n: int)
    ensures BigIntOf(ShowInt(n)) == Some(n)
  {
    var digits := Show(if n < 0 then -n else n);
    ShowRoundTrip(if n < 0 then -n else n);
    if n < 0 {
      BigIntOfNegative(digits);
    } else {
      BigIntOfDigits(digits);
    }
  }

  /** The decimal texts that are BigInts: blank, or digits with an optional sign, in white space. */
  lemma BigIntForms(a: string, digits: string, b: string)
    requires AllSpace(a) && AllSpace(b) && AllDigits(digits)
    ensures digits == "" ==> BigIntOf(a + digits + b) == Some(0)
    ensures digits != "" ==> BigIntOf(a + digits + b) == Some(NatOf(digits))
    ensures digits != "" ==> BigIntOf(a + ("+" + digits) + b) == Some(NatOf(digits))
    ensures digits != "" ==> BigIntOf(a + ("-" + digits) + b) == Some(-(NatOf(digits) as int))
  {
    TrimIs(a, digits, b);
    if digits != "" {
      assert IsDigit(digits[0]) && IsDigit(digits[|digits| - 1]);
      SignedForm(a, '+', digits, b);
      SignedForm(a, '-', digits, b);
    }
  }

  lemma SignedForm(a: string, sign: char, digits: string, b: string)
    requires AllSpace(a) && AllSpace(b) && AllDigits(digits) && digits != "" && (sign == '+' || sign == '-')
    ensures BigIntOf(a + ([sign] + digits) + b)
         == Some(if sign == '-' then -(NatOf(digits) as int) else NatOf(digits))
  {
    var t := [sign] + digits;
    assert t[1..] == digits && t[|t| - 1] == digits[|digits| - 1] && IsDigit(digits[|digits| - 1]);
    TrimIs(a, t, b);
  }
}

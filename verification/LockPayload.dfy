/** The text of a lock payload and the owner test of the Lua scripts
    (packages/cache/src/lock.ts). The scripts compare a prefix of the stored JSON with the raw
    owner; the results say for exactly which owners that is owner equality. */
module LockPayload {
  import opened Digits
  import opened Text

  datatype Payload = Payload(
    owner: string,
    acquiredAt: string,
    expiresAt: string,
    fence: int,
    metadata: string)  // already serialized

  const HEX := "0123456789abcdef"

  /** Characters that JSON text writes as an escape sequence. */
  predicate Escaped(c: char) {
    c == '"' || c == '\\' || c < ' '
  }

  function EscapeChar(c: char): (s: string)
    ensures Escaped(c) ==> |s| >= 2 && s[0] == '\\'
    ensures !Escaped(c) ==> s == [c]
  {
    if c == '"' then "\\\""
    else if c == '\\' then "\\\\"
    else if c == '\t' then "\\t"
    else if c == '\n' then "\\n"
    else if c == '\r' then "\\r"
    else if c == '\U{0008}' then "\\b"
    else if c == '\U{000C}' then "\\f"
    else if c < ' ' then "\\u00" + [HEX[c as int / 16], HEX[c as int % 16]]
    else [c]
  }

  function Escape(s: string): string {
    if s == "" then "" else EscapeChar(s[0]) + Escape(s[1..])
  }

  const OPENING := "{\"owner\":\""

  function Rest(p: Payload): string {
    ",\"acquiredAt\":\"" + Escape(p.acquiredAt)
    + "\",\"expiresAt\":\"" + Escape(p.expiresAt)
    + "\",\"fence\":" + ShowInt(p.fence)
    + ",\"metadata\":" + p.metadata + "}"
  }

  /** `serializeLockPayload` */
  function Serialize(p: Payload): string {
    OPENING + Escape(p.owner) + "\"" + Rest(p)
  }

  /** `string.sub(current, 1, #prefix) == prefix` */
  predicate PrefixMatches(text: string, owner: string) {
    OPENING + owner + "\"" <= text
  }

  predicate Clean(owner: string) {
    forall i :: 0 <= i < |owner| ==> !Escaped(owner[i])
  }

  /** The value of a hexadecimal digit, small letters only. */
  function HexValue(c: char): Option<nat> {
    if '0' <= c <= '9' then Some((c - '0') as nat)
    else if 'a' <= c <= 'f' then Some((c - 'a') as nat + 10)
    else None
  }

  function CharOf(n: nat): Option<char> {
    if n < 0xD800 then Some(n as char) else None
  }

  /** Reads one escape sequence of JSON text: the character and the length of the sequence. */
  function ReadEscape(s: string): Option<(char, nat)> {
    if |s| < 2 || s[0] != '\\' then None
    else match s[1]
      case '"' => Some(('"', 2))
      case '\\' => Some(('\\', 2))
      case 't' => Some(('\t', 2))
      case 'n' => Some(('\n', 2))
      case 'r' => Some(('\r', 2))
      case 'b' => Some(('\U{0008}', 2))
      case 'f' => Some(('\U{000C}', 2))
      case 'u' =>
        if |s| < 6 || s[2..4] != "00" || HexValue(s[4]).None? || HexValue(s[5]).None? then None
        else
          var c := CharOf(16 * HexValue(s[4]).value + HexValue(s[5]).value);
          if c.None? then None else Some((c.value, 6))
      case _ => None
  }

  /** Reads JSON string text back. */
  function Unescape(s: string): Option<string>
    decreases |s|
  {
    if s == "" then Some("")
    else if s[0] != '\\' then
      var rest := Unescape(s[1..]);
      if rest.None? then None else Some([s[0]] + rest.value)
    else
      var e := ReadEscape(s);
      if e.None? || e.value.1 > |s| || e.value.1 == 0 then None
      else
        var rest := Unescape(s[e.value.1..]);
        if rest.None? then None else Some([e.value.0] + rest.value)
  }

  lemma HexDigits(n: nat)
    requires n < 16
    ensures HexValue(HEX[n]) == Some(n)
  {
  }

  lemma ReadsEscapeBack(c: char, rest: string)
    requires Escaped(c)
    ensures ReadEscape(EscapeChar(c) + rest) == Some((c, |EscapeChar(c)|))
  {
    var s := EscapeChar(c) + rest;
    assert s[0] == EscapeChar(c)[0] && s[1] == EscapeChar(c)[1];
    if EscapeChar(c)[1] == 'u' {
      HexDigits(c as int / 16);
      HexDigits(c as int % 16);
      assert s[2..4] == "00" && s[4] == HEX[c as int / 16] && s[5] == HEX[c as int % 16];
      assert 16 * (c as int / 16) + c as int % 16 == c as int;
    }
  }

  /** Escaping loses nothing: JSON text reads back. */
  lemma {:induction false} UnescapeEscape(s: string)
    ensures Unescape(Escape(s)) == Some(s)
  {
    if s != "" {
      UnescapeEscape(s[1..]);
      var e, rest := EscapeChar(s[0]), Escape(s[1..]);
      var t := e + rest;
      assert t[|e|..] == rest && t[0] == e[0];
      assert s == [s[0]] + s[1..];
      if Escaped(s[0]) {
        ReadsEscapeBack(s[0], rest);
      }
    }
  }

  lemma {:induction false} CleanIsItsOwnEscape(s: string)
    requires Clean(s)
    ensures Escape(s) == s
  {
    if s != "" {
      CleanIsItsOwnEscape(s[1..]);
    }
  }

  /** A clean owner followed by a quote starts an escaped owner's text only if they are equal. */
  lemma {:induction false} CleanPrefixIsOwner(r: string, s: string, rest: string)
    requires Clean(r) && r + "\"" <= Escape(s) + "\"" + rest
    ensures r == s
  {
    var text := Escape(s) + "\"" + rest;
    assert text[0] == (r + "\"")[0];
    if s == "" {
      assert text[0] == '"';
    } else {
      var e := EscapeChar(s[0]);
      assert text[0] == e[0];
      assert r != "" && !Escaped(s[0]) && r[0] == s[0];
      var text' := Escape(s[1..]) + "\"" + rest;
      assert text == [s[0]] + text';
      assert r + "\"" == [r[0]] + (r[1..] + "\"");
      assert r[1..] + "\"" == (r + "\"")[1..] <= text[1..] == text';
      CleanPrefixIsOwner(r[1..], s[1..], rest);
    }
  }

  function Backslashes(n: nat): (s: string)
    ensures |s| == n && forall i :: 0 <= i < n ==> s[i] == '\\'
  {
    seq(n, _ => '\\')
  }

  lemma EscapeHead(r: string)
    requires r != "" && Escaped(r[0])
    ensures Escape(r) != "" && Escape(r)[0] == '\\'
  {
  }

  lemma EscapeBackslash(r: string)
    requires r != "" && r[0] == '\\'
    ensures Escape(r) == Backslashes(2) + Escape(r[1..])
  {
  }

  lemma DropBackslash(n: nat, m: nat, t: string)
    ensures (Backslashes(n + 1) + (Backslashes(m) + t))[1..] == Backslashes(n + m) + t
  {
  }

  /** Behind leading backslashes an owner never lines up with its own escape. */
  lemma {:induction false} BackslashesShift(q: string, n: nat, rest: string)
    requires n >= 1
    ensures !(q + "\"" <= Backslashes(n) + (Escape(q) + rest))
    decreases q
  {
    var text := Backslashes(n) + (Escape(q) + rest);
    if q + "\"" <= text {
      assert text[0] == '\\' == (q + "\"")[0];
      TailOfPrefix(q, text);
      BackslashTail(q, n, rest);
      BackslashesShift(q[1..], n + 1, rest);
    }
  }

  lemma BackslashTail(q: string, n: nat, rest: string)
    requires n >= 1 && q != "" && q[0] == '\\'
    ensures (Backslashes(n) + (Escape(q) + rest))[1..] == Backslashes(n + 1) + (Escape(q[1..]) + rest)
  {
    hide *;
    EscapeBackslash(q);
    DropBackslash(n - 1, 2, Escape(q[1..]) + rest);
    assert Escape(q) + rest == Backslashes(2) + (Escape(q[1..]) + rest);
  }

  lemma TailOfPrefix(r: string, text: string)
    requires r != "" && r + "\"" <= text
    ensures text[0] == r[0] && r[1..] + "\"" <= text[1..]
  {
    assert text[..|r| + 1] == r + "\"";
    assert (r + "\"")[1..] == r[1..] + "\"";
  }

  /** Comparing an owner with its own escape, character by character. */
  lemma EscapedStep(r: string, rest: string)
    requires r != "" && Escaped(r[0]) && r + "\"" <= Escape(r) + rest
    ensures r[1..] + "\"" <= Backslashes(1) + (Escape(r[1..]) + rest)
  {
    hide *;
    EscapeHead(r);
    TailOfPrefix(r, Escape(r) + rest);
    BackslashStart(r, rest);
  }

  lemma BackslashStart(r: string, rest: string)
    requires r != "" && r[0] == '\\'
    ensures (Escape(r) + rest)[1..] == Backslashes(1) + (Escape(r[1..]) + rest)
  {
    hide *;
    EscapeBackslash(r);
    var t := Escape(r[1..]) + rest;
    assert Escape(r) + rest == Backslashes(2) + t;
    DropBackslash(1, 0, t);
    assert Backslashes(0) + t == t;
  }

  lemma EscapePlain(r: string)
    requires r != "" && !Escaped(r[0])
    ensures Escape(r) == [r[0]] + Escape(r[1..])
  {
  }

  lemma PlainStep(r: string, rest: string)
    requires r != "" && !Escaped(r[0]) && r + "\"" <= Escape(r) + rest
    ensures r[1..] + "\"" <= Escape(r[1..]) + rest
  {
    hide *;
    EscapePlain(r);
    var text, tail := Escape(r) + rest, Escape(r[1..]) + rest;
    assert text == [r[0]] + tail;
    TailOfPrefix(r, text);
    assert text[1..] == tail;
  }

  /** An owner that needs escaping never matches its own payload. */
  lemma {:induction false} EscapedOwnerNeverMatches(r: string, rest: string)
    requires !Clean(r)
    ensures !(r + "\"" <= Escape(r) + rest)
  {
    if r + "\"" <= Escape(r) + rest {
      if Escaped(r[0]) {
        EscapedStep(r, rest);
        BackslashesShift(r[1..], 1, rest);
      } else {
        assert !Clean(r[1..]) by {
          var i :| 0 <= i < |r| && Escaped(r[i]);
          assert r[1..][i - 1] == r[i];
        }
        PlainStep(r, rest);
        EscapedOwnerNeverMatches(r[1..], rest);
      }
    }
  }

  lemma DropOpening(text: string, owner: string)
    ensures PrefixMatches(OPENING + text, owner) <==> owner + "\"" <= text
  {
    var whole, prefix := OPENING + text, OPENING + owner + "\"";
    assert prefix == OPENING + (owner + "\"");
    if prefix <= whole {
      assert owner + "\"" == prefix[|OPENING|..] <= whole[|OPENING|..] == text;
    }
    if owner + "\"" <= text {
      assert whole[..|prefix|] == OPENING + text[..|owner| + 1];
    }
  }

  /** Everything after the opening of a serialized payload. */
  function Body(p: Payload): string {
    Escape(p.owner) + "\"" + Rest(p)
  }

  lemma SerializeIsOpening(p: Payload)
    ensures Serialize(p) == OPENING + Body(p)
  {
  }

  lemma BodySplits(p: Payload)
    ensures Body(p) == Escape(p.owner) + ("\"" + Rest(p))
  {
  }

  lemma OwnBodyMatches(p: Payload)
    requires Clean(p.owner)
    ensures p.owner + "\"" <= Body(p)
  {
    CleanIsItsOwnEscape(p.owner);
  }

  /** For a clean owner the script's prefix test is owner equality, whatever is stored. */
  lemma PrefixIsOwner(p: Payload, owner: string)
    requires Clean(owner)
    ensures PrefixMatches(Serialize(p), owner) <==> p.owner == owner
  {
    SerializeIsOpening(p);
    DropOpening(Body(p), owner);
    if owner + "\"" <= Body(p) {
      CleanPrefixIsOwner(owner, p.owner, Rest(p));
    }
    if p.owner == owner {
      OwnBodyMatches(p);
    }
  }

  /** A stored payload is recognised as its own owner's exactly when that owner needs no escape. */
  lemma OwnMatchExact(p: Payload)
    ensures PrefixMatches(Serialize(p), p.owner) <==> Clean(p.owner)
  {
    hide *;
    if Clean(p.owner) {
      PrefixIsOwner(p, p.owner);
    } else {
      SerializeIsOpening(p);
      DropOpening(Body(p), p.owner);
      BodySplits(p);
      EscapedOwnerNeverMatches(p.owner, "\"" + Rest(p));
    }
  }

  /** On serialized payloads the test is owner equality exactly for the owners that need no escape: any
      other owner is not even recognised as the owner of its own payload. */
  lemma OwnerTestExact(owner: string)
    ensures Clean(owner) <==> forall p :: PrefixMatches(Serialize(p), owner) <==> p.owner == owner
  {
    hide *;
    if Clean(owner) {
      forall p ensures PrefixMatches(Serialize(p), owner) <==> p.owner == owner {
        PrefixIsOwner(p, owner);
      }
    } else {
      var p := Payload(owner, "", "", 0, "{}");
      OwnMatchExact(p);
      assert !PrefixMatches(Serialize(p), owner);
    }
  }

  // ---- Owners that pass for others ----

  /** The owner passes the test on a payload of somebody else. */
  ghost predicate Impostor(owner: string) {
    exists p: Payload :: p.owner != owner && PrefixMatches(Serialize(p), owner)
  }

  lemma CleanIsNoImpostor(owner: string)
    requires Clean(owner)
    ensures !Impostor(owner)
  {
    hide PrefixMatches, Serialize;
    forall p | PrefixMatches(Serialize(p), owner) ensures p.owner == owner {
      PrefixIsOwner(p, owner);
    }
  }

  /** An owner that passes for the given one: it spells the start of the next field as well. */
  function Thief(owner: string): string {
    Escape(owner) + "\",\"acquiredAt"
  }

  lemma ThiefMatches(p: Payload)
    ensures PrefixMatches(Serialize(p), Thief(p.owner))
    ensures Thief(p.owner) != p.owner && !Clean(Thief(p.owner))
  {
    hide Escape, ShowInt;
    var thief := Thief(p.owner);
    SerializeIsOpening(p);
    DropOpening(Body(p), thief);
    assert thief + "\"" == Escape(p.owner) + "\"" + ",\"acquiredAt\"";
    assert ",\"acquiredAt\"" <= Rest(p);
    assert thief[|Escape(p.owner)|] == '"';
    EscapeGrows(p.owner);
  }

  lemma {:induction false} EscapeGrows(s: string)
    ensures |Escape(s)| >= |s|
  {
    if s != "" {
      EscapeGrows(s[1..]);
    }
  }

  lemma {:induction false} EscapeAppend(a: string, b: string)
    ensures Escape(a + b) == Escape(a) + Escape(b)
  {
    if a == "" {
      assert a + b == b;
    } else {
      assert (a + b)[1..] == a[1..] + b;
      EscapeAppend(a[1..], b);
    }
  }

  /** The text goes on behind `start` and its closing quote into `rest`. */
  predicate GoesOn(x: string, start: string, rest: string) {
    start + "\"" <= x && x[|start| + 1..] + "\"" <= rest
  }

  /** The text runs into an escape that a quote behind it completes. */
  ghost predicate EndsInEscape(x: string) {
    exists r :: x == Escape(r) + "\\"
  }

  /** The ways to spell the beginning of a payload: the owner's text runs into an escape that its closing
      quote completes, or is the escaped text of an owner that needs it, or goes on behind an owner into
      the rest of the payload. */
  ghost predicate SpellsPayload(owner: string) {
    || EndsInEscape(owner)
    || (exists q :: owner == Escape(q) && !Clean(q))
    || (exists p: Payload :: GoesOn(owner, Escape(p.owner), Rest(p)))
  }

  ghost predicate Starts(x: string, q: string, rest: string) {
    EndsInEscape(x) || x == Escape(q) || GoesOn(x, Escape(q), rest)
  }

  /** A quoted text that starts an escaped one is of one of these forms. */
  lemma {:induction false} StartsEscaped(x: string, q: string, rest: string)
    requires x + "\"" <= Escape(q) + "\"" + rest
    ensures Starts(x, q, rest)
  {
    hide Starts;
    if q == "" {
      StartsNothing(x, rest);
    } else {
      var e := EscapeChar(q[0]);
      if |x| < |e| {
        StartsInside(x, q, rest);
      } else {
        DropEscape(x, q, rest);
        StartsEscaped(x[|e|..], q[1..], rest);
        PutBack(x, q, rest);
      }
    }
  }

  lemma StartsNothing(x: string, rest: string)
    requires x + "\"" <= "\"" + rest
    ensures Starts(x, "", rest)
  {
    if x != "" {
      TailOfPrefix(x, "\"" + rest);
      assert ("\"" + rest)[1..] == rest;
      assert "" + "\"" <= x;
    }
  }

  lemma StartsInside(x: string, q: string, rest: string)
    requires q != "" && |x| < |EscapeChar(q[0])| && x + "\"" <= Escape(q) + "\"" + rest
    ensures Starts(x, q, rest)
  {
    hide EscapeChar, Escape, GoesOn;
    var e, more := EscapeChar(q[0]), Escape(q[1..]);
    EscapeFirst(q);
    assert e + more + "\"" + rest == e + (more + "\"" + rest);
    QuoteWithin(x, e, more + "\"" + rest);
    QuoteInEscape(q[0], |x|);
    assert x == "\\";
    LoneBackslash();
  }

  lemma QuoteWithin(x: string, e: string, tail: string)
    requires |x| < |e| && x + "\"" <= e + tail
    ensures e[|x|] == '"' && x == e[..|x|]
  {
    assert (e + tail)[|x|] == (x + "\"")[|x|];
    assert x == (x + "\"")[..|x|] == (e + tail)[..|x|];
  }

  lemma LoneBackslash()
    ensures EndsInEscape("\\")
  {
    assert "\\" == Escape("") + "\\";
  }

  lemma DropEscape(x: string, q: string, rest: string)
    requires q != "" && |x| >= |EscapeChar(q[0])| && x + "\"" <= Escape(q) + "\"" + rest
    ensures x == EscapeChar(q[0]) + x[|EscapeChar(q[0])|..]
    ensures x[|EscapeChar(q[0])|..] + "\"" <= Escape(q[1..]) + "\"" + rest
  {
    hide EscapeChar, Escape;
    var e, more := EscapeChar(q[0]), Escape(q[1..]);
    EscapeFirst(q);
    assert e + more + "\"" + rest == e + (more + "\"" + rest);
    DropFront(x, e, more + "\"" + rest);
  }

  lemma EscapeFirst(q: string)
    requires q != ""
    ensures Escape(q) == EscapeChar(q[0]) + Escape(q[1..])
  {
  }

  lemma DropFront(x: string, e: string, tail: string)
    requires |x| >= |e| && x + "\"" <= e + tail
    ensures x == e + x[|e|..] && x[|e|..] + "\"" <= tail
  {
    var n := |e|;
    assert x[..n] == (x + "\"")[..n] == (e + tail)[..n] == e;
    assert x[n..] + "\"" == (x + "\"")[n..] <= (e + tail)[n..] == tail;
  }

  lemma QuoteInEscape(c: char, i: nat)
    requires i < |EscapeChar(c)| && EscapeChar(c)[i] == '"'
    ensures EscapeChar(c) == "\\\"" && i == 1
  {
    if c < ' ' {
      HexIsPlain(c);
    }
  }

  /** The same form, with one character more in front. */
  lemma PutBack(x: string, q: string, rest: string)
    requires q != "" && |x| >= |EscapeChar(q[0])| && x == EscapeChar(q[0]) + x[|EscapeChar(q[0])|..]
    requires Starts(x[|EscapeChar(q[0])|..], q[1..], rest)
    ensures Starts(x, q, rest)
  {
    hide EscapeChar, Escape, GoesOn;
    var e, q' := EscapeChar(q[0]), q[1..];
    var t := x[|e|..];
    EscapeFirst(q);
    if EndsInEscape(t) {
      var r :| t == Escape(r) + "\\";
      EscapeConcat(q[0], r);
      assert x == Escape([q[0]] + r) + "\\";
    } else if GoesOn(t, Escape(q'), rest) {
      GoesOnBehind(e, t, Escape(q'), rest);
    }
  }

  lemma GoesOnBehind(e: string, t: string, start: string, rest: string)
    requires GoesOn(t, start, rest)
    ensures GoesOn(e + t, e + start, rest)
  {
    assert (e + t)[|e + start| + 1..] == t[|start| + 1..];
    assert e + start + "\"" == e + (start + "\"");
    assert (e + t)[|e|..] == t;
  }

  /** Impostors are exactly the owners that spell the beginning of a payload. */
  lemma ImpostorExact(owner: string)
    ensures Impostor(owner) <==> SpellsPayload(owner)
  {
    hide PrefixMatches, Serialize, Escape;
    if Impostor(owner) {
      var p: Payload :| p.owner != owner && PrefixMatches(Serialize(p), owner);
      SerializeIsOpening(p);
      DropOpening(Body(p), owner);
      StartsEscaped(owner, p.owner, Rest(p));
      if owner == Escape(p.owner) && Clean(p.owner) {
        CleanIsItsOwnEscape(p.owner);
      }
    }
    if EndsInEscape(owner) {
      var q :| owner == Escape(q) + "\\";
      QuoteCompletes(owner, q);
    } else if q :| owner == Escape(q) && !Clean(q) {
      var p := Payload(q, "", "", 0, "{}");
      Spelling(p, owner);
      EscapedOwnerNeverMatches(q, "\"");
      assert owner != q;
    } else if p: Payload :| GoesOn(owner, Escape(p.owner), Rest(p)) {
      SpellingOn(p, owner);
      EscapeGrows(p.owner);
    }
  }

  lemma QuoteCompletes(owner: string, q: string)
    requires owner == Escape(q) + "\\"
    ensures Impostor(owner)
  {
    hide PrefixMatches, Serialize;
    var p := Payload(q + "\"", "", "", 0, "{}");
    EscapeAppend(q, "\"");
    EscapeConcat('"', "");
    assert Escape("\"") == "\\\"";
    SerializeIsOpening(p);
    DropOpening(Body(p), owner);
    assert owner + "\"" == Escape(p.owner);
    assert p.owner[|p.owner| - 1] != owner[|owner| - 1];
  }

  lemma Spelling(p: Payload, owner: string)
    requires owner == Escape(p.owner)
    ensures PrefixMatches(Serialize(p), owner)
  {
    hide Escape, PrefixMatches, Serialize;
    SerializeIsOpening(p);
    DropOpening(Body(p), owner);
  }

  lemma SpellingOn(p: Payload, owner: string)
    requires GoesOn(owner, Escape(p.owner), Rest(p))
    ensures PrefixMatches(Serialize(p), owner)
  {
    hide Escape, PrefixMatches, Serialize, Rest;
    SerializeIsOpening(p);
    DropOpening(Body(p), owner);
    var start := Escape(p.owner) + "\"";
    var y := owner[|start|..];
    assert owner + "\"" == start + (y + "\"");
  }

  // ---- The acquire template ----

  const FENCE_ZERO := "\"fence\":0"
  const FENCE_SLOT := "\"fence\":%d"

  /** `payloadTemplate`: the serialized payload with its zero fence turned into a format slot. */
  function Template(p: Payload): string {
    ReplaceFirst(Serialize(p.(fence := 0)), FENCE_ZERO, FENCE_SLOT)
  }

  /** An opening quote and the text behind it. */
  function Quoted(s: string): string {
    "\"" + Escape(s)
  }

  /** Everything before and after the fence field. */
  function Head(p: Payload): string {
    "{\"owner\":" + Quoted(p.owner) + ("\",\"acquiredAt\":" + Quoted(p.acquiredAt)
    + ("\",\"expiresAt\":" + Quoted(p.expiresAt) + "\","))
  }

  function Tail(p: Payload): string {
    ",\"metadata\":" + p.metadata + "}"
  }

  lemma SerializeSplits(p: Payload)
    ensures Serialize(p) == Head(p) + ("\"fence\":" + ShowInt(p.fence) + Tail(p))
  {
    hide Escape, ShowInt;
  }

  /** The payload text of clean fields, spelled out. */
  lemma SerializeExact(p: Payload)
    requires Clean(p.owner) && Clean(p.acquiredAt) && Clean(p.expiresAt)
    ensures Serialize(p)
         == "{\"owner\":\"" + p.owner + "\",\"acquiredAt\":\"" + p.acquiredAt + "\",\"expiresAt\":\""
            + p.expiresAt + "\",\"fence\":" + ShowInt(p.fence) + ",\"metadata\":" + p.metadata + "}"
  {
    hide Escape, ShowInt, Clean;
    CleanIsItsOwnEscape(p.owner);
    CleanIsItsOwnEscape(p.acquiredAt);
    CleanIsItsOwnEscape(p.expiresAt);
  }

  /** No occurrence of the zero fence starts in `a` when `b` follows. */
  predicate Skips(a: string, b: string) {
    forall i :: 0 <= i < |a| ==> !(FENCE_ZERO <= (a + b)[i..])
  }

  lemma SkipsBoth(a: string, b: string, c: string)
    requires Skips(a, b + c) && Skips(b, c)
    ensures Skips(a + b, c)
  {
    assert a + b + c == a + (b + c);
    forall i | 0 <= i < |a + b| ensures !(FENCE_ZERO <= (a + b + c)[i..]) {
      if i >= |a| {
        assert (a + b + c)[i..] == (b + c)[i - |a|..];
      }
    }
  }

  /** Quotes in a literal piece are never followed by the name of the fence. */
  lemma LiteralSkips(a: string, b: string)
    requires forall i :: 0 <= i < |a| && a[i] == '"' ==> i + 1 < |a| && a[i + 1] != 'f'
    ensures Skips(a, b)
  {
    forall i | 0 <= i < |a| ensures !(FENCE_ZERO <= (a + b)[i..]) {
      var t := (a + b)[i..];
      assert t[0] == a[i] && (i + 1 < |a| ==> t[1] == a[i + 1]);
    }
  }

  lemma {:induction false} EscapedQuotes(s: string)
    ensures forall i :: 0 <= i < |Escape(s)| && Escape(s)[i] == '"' ==> i > 0 && Escape(s)[i - 1] == '\\'
  {
    if s != "" {
      EscapedQuotes(s[1..]);
      var e, rest := EscapeChar(s[0]), Escape(s[1..]);
      forall i | 0 <= i < |e| && e[i] == '"' ensures i > 0 && e[i - 1] == '\\' {
        if s[0] < ' ' {
          HexIsPlain(s[0]);
        }
      }
      forall i | 0 <= i < |e + rest| && (e + rest)[i] == '"' ensures i > 0 && (e + rest)[i - 1] == '\\' {
        if i >= |e| {
          assert rest[i - |e|] == '"' && rest[i - |e| - 1] == '\\';
        }
      }
    }
  }

  lemma HexIsPlain(c: char)
    requires c < ' '
    ensures HEX[c as int / 16] != '"' && HEX[c as int % 16] != '"'
  {
    assert forall i :: 0 <= i < |HEX| ==> HEX[i] != '"';
  }

  /** A quoted text does not hold the zero fence: its inner quotes are escaped. */
  lemma QuotedSkips(s: string, b: string)
    requires |b| >= 2 && b[0] == '"' && b[1] != ':'
    ensures Skips(Quoted(s), b)
  {
    hide Escape;
    var a := Quoted(s);
    EscapedQuotes(s);
    forall i | 0 <= i < |a| ensures !(FENCE_ZERO <= (a + b)[i..]) {
      var t := (a + b)[i..];
      if i + 6 < |a| {
        assert t[6] == Escape(s)[i + 5] && t[5] == Escape(s)[i + 4];
      } else if i + 6 > |a| {
        assert t[|a| - i] == '"';
      } else {
        assert t[7] == b[1];
      }
    }
  }

  /** The template is the serialized payload with a slot in place of the fence. */
  lemma TemplateSplits(p: Payload)
    ensures Template(p) == Head(p) + (FENCE_SLOT + Tail(p))
  {
    hide Escape;
    var z := p.(fence := 0);
    SerializeSplits(z);
    assert ShowInt(0) == "0";
    var rest := FENCE_ZERO + Tail(p);
    assert "\"fence\":" + "0" + Tail(p) == rest;
    HeadSkips(p, rest);
    ReplaceFirstSkips(Head(p), rest, FENCE_ZERO, FENCE_SLOT);
    assert rest[|FENCE_ZERO|..] == Tail(p);
  }

  lemma HeadSkips(p: Payload, rest: string)
    ensures Skips(Head(p), rest)
  {
    hide Skips, Escape, Quoted;
    var close := "\",";
    var expires := "\",\"expiresAt\":" + Quoted(p.expiresAt) + close;
    var acquired := "\",\"acquiredAt\":" + Quoted(p.acquiredAt) + expires;
    LiteralSkips(close, rest);
    PieceSkips("\",\"expiresAt\":", p.expiresAt, close, rest);
    PieceSkips("\",\"acquiredAt\":", p.acquiredAt, expires, rest);
    PieceSkips("{\"owner\":", p.owner, acquired, rest);
  }

  /** A literal, a quoted text and what follows. */
  lemma PieceSkips(literal: string, s: string, more: string, rest: string)
    requires forall i :: 0 <= i < |literal| && literal[i] == '"' ==> i + 1 < |literal| && literal[i + 1] != 'f'
    requires |more| >= 2 && more[0] == '"' && more[1] != ':' && Skips(more, rest)
    ensures Skips(literal + Quoted(s) + more, rest)
  {
    hide Skips, Quoted;
    QuotedSkips(s, more + rest);
    SkipsBoth(Quoted(s), more, rest);
    LiteralSkips(literal, Quoted(s) + more + rest);
    SkipsBoth(literal, Quoted(s) + more, rest);
    assert literal + (Quoted(s) + more) == literal + Quoted(s) + more;
  }

  // ---- string.format ----

  /** Lua's `string.format` with one integer argument, or with none left. `%%` is a percent sign and `%d`
      takes the argument; any other use of `%` is refused. Conversions like `%x` are refused as well: each
      of them would take the argument that the template's own `%d` needs. */
  function Format(t: string, arg: Option<int>): Option<string> {
    if t == "" then Some("")
    else if t[0] != '%' then Prefixed([t[0]], Format(t[1..], arg))
    else if |t| == 1 then None
    else if t[1] == '%' then Prefixed("%", Format(t[2..], arg))
    else if t[1] == 'd' && arg.Some? then Prefixed(ShowInt(arg.value), Format(t[2..], None))
    else None
  }

  function Prefixed(a: string, r: Option<string>): Option<string> {
    if r.None? then None else Some(a + r.value)
  }

  function Join(a: Option<string>, b: Option<string>): Option<string> {
    if a.None? then None else Prefixed(a.value, b)
  }

  lemma JoinEmpty(b: Option<string>)
    ensures Join(Some(""), b) == b
  {
    if b.Some? {
      assert "" + b.value == b.value;
    }
  }

  lemma JoinPrefixed(a: string, b: Option<string>, c: Option<string>)
    ensures Join(Prefixed(a, b), c) == Prefixed(a, Join(b, c))
  {
    if b.Some? && c.Some? {
      assert (a + b.value) + c.value == a + (b.value + c.value);
    }
  }

  lemma {:induction false} PlainFormat(t: string, arg: Option<int>)
    requires '%' !in t
    ensures Format(t, arg) == Some(t)
  {
    if t != "" {
      assert '%' !in t[1..];
      PlainFormat(t[1..], arg);
      assert [t[0]] + t[1..] == t;
    }
  }

  /** A text that is fine on its own leaves the argument to what follows. */
  lemma {:induction false} FormatSkips(a: string, b: string, arg: Option<int>)
    requires Format(a, None).Some?
    ensures Format(a + b, arg) == Join(Format(a, None), Format(b, arg))
    decreases |a|
  {
    if a == "" {
      assert a + b == b;
      JoinEmpty(Format(b, arg));
    } else {
      var n := if a[0] == '%' then 2 else 1;
      assert (a + b)[n..] == a[n..] + b;
      FormatSkips(a[n..], b, arg);
      JoinPrefixed([a[0]], Format(a[n..], None), Format(b, arg));
    }
  }

  /** Without an argument, texts format one by one. */
  lemma {:induction false} FormatJoins(a: string, b: string)
    requires b == "" || b[0] != '%'
    ensures Format(a + b, None) == Join(Format(a, None), Format(b, None))
    decreases |a|
  {
    if a == "" {
      assert a + b == b;
      JoinEmpty(Format(b, None));
    } else if a[0] != '%' {
      assert (a + b)[1..] == a[1..] + b;
      FormatJoins(a[1..], b);
      JoinPrefixed([a[0]], Format(a[1..], None), Format(b, None));
    } else if |a| > 1 && a[1] == '%' {
      assert (a + b)[2..] == a[2..] + b;
      FormatJoins(a[2..], b);
      JoinPrefixed("%", Format(a[2..], None), Format(b, None));
    }
  }

  /** A text that misuses `%` fails in front of a slot: it is refused, or takes the slot's argument. */
  lemma {:induction false} FormatFails(a: string, b: string, n: int)
    requires Format(a, None).None? && Format(b, None).None?
    requires b != "" && b[0] != '%' && b[0] != 'd'
    ensures Format(a + b, Some(n)).None?
    decreases |a|
  {
    if a[0] != '%' {
      assert (a + b)[1..] == a[1..] + b;
      FormatFails(a[1..], b, n);
    } else if |a| > 1 {
      assert (a + b)[2..] == a[2..] + b;
      if a[1] == '%' {
        FormatFails(a[2..], b, n);
      } else {
        FormatJoins(a[2..], b);
      }
    }
  }

  /** Escaping leaves percent signs alone. */
  lemma {:induction false} FormatEscapes(s: string)
    ensures Format(Escape(s), None) == if Format(s, None).Some? then Some(Escape(Format(s, None).value)) else None
    decreases |s|
  {
    if s != "" {
      FormatEscapes(s[1..]);
      var e, rest := EscapeChar(s[0]), Escape(s[1..]);
      if s[0] != '%' {
        EscapeHasNoPercent(s[0]);
        PlainFormat(e, None);
        FormatSkips(e, rest, None);
        if Format(s, None).Some? {
          EscapeConcat(s[0], Format(s[1..], None).value);
        }
      } else if |s| > 1 {
        FormatEscapes(s[2..]);
        EscapePlain(s);
        if s[1] == '%' {
          EscapePlain(s[1..]);
          assert Escape(s)[2..] == Escape(s[2..]);
          if Format(s, None).Some? {
            EscapeConcat('%', Format(s[2..], None).value);
          }
        } else {
          EscapeHasNoPercent(s[1]);
          assert Escape(s[1..])[0] == EscapeChar(s[1])[0];
          assert Escape(s)[1] != '%';
        }
      }
    }
  }

  lemma EscapeHasNoPercent(c: char)
    requires c != '%'
    ensures '%' !in EscapeChar(c)
  {
    assert forall i :: 0 <= i < |HEX| ==> HEX[i] != '%';
  }

  lemma EscapeConcat(c: char, s: string)
    ensures Escape([c] + s) == EscapeChar(c) + Escape(s)
  {
    assert ([c] + s)[1..] == s;
  }

  // ---- What acquire stores ----

  /** Every percent sign comes doubled. */
  predicate Formats(t: string) {
    Format(t, None).Some?
  }

  /** The text with doubled percent signs halved. */
  function Halved(t: string): string
    requires Formats(t)
  {
    Format(t, None).value
  }

  predicate Formattable(p: Payload) {
    Formats(p.owner) && Formats(p.acquiredAt) && Formats(p.expiresAt) && Formats(p.metadata)
  }

  /** The payload that a formatted template spells. */
  function Spelled(p: Payload): Payload
    requires Formattable(p)
  {
    Payload(Halved(p.owner), Halved(p.acquiredAt), Halved(p.expiresAt), p.fence, Halved(p.metadata))
  }

  /** Formatting keeps exactly the texts without a percent sign. */
  lemma {:induction false} HalvedKeeps(t: string)
    requires Formats(t)
    ensures |Halved(t)| <= |t|
    ensures Halved(t) == t <==> '%' !in t
    ensures '%' in t ==> |Halved(t)| < |t|
    decreases |t|
  {
    if t != "" {
      var n := if t[0] == '%' then 2 else 1;
      HalvedKeeps(t[n..]);
      assert Halved(t) == [t[0]] + Halved(t[n..]);
      assert n == 1 ==> t == [t[0]] + t[1..];
    }
  }

  lemma PieceFormats(literal: string, s: string, more: string)
    requires '%' !in literal && more != "" && more[0] != '%'
    ensures Format(literal + Quoted(s) + more, None)
         == if Formats(s) then Prefixed(literal + Quoted(Halved(s)), Format(more, None)) else None
  {
    hide Format, Escape;
    var start := literal + "\"";
    assert literal + Quoted(s) + more == start + (Escape(s) + more);
    PlainFormat(start, None);
    FormatSkips(start, Escape(s) + more, None);
    FormatJoins(Escape(s), more);
    FormatEscapes(s);
    if Formats(s) && Format(more, None).Some? {
      assert start + (Escape(Halved(s)) + Format(more, None).value)
          == literal + Quoted(Halved(s)) + Format(more, None).value;
    }
  }

  lemma HeadFormats(p: Payload)
    ensures Format(Head(p), None)
         == if Formats(p.owner) && Formats(p.acquiredAt) && Formats(p.expiresAt)
            then Some(Head(Payload(Halved(p.owner), Halved(p.acquiredAt), Halved(p.expiresAt), p.fence, p.metadata)))
            else None
  {
    hide Format, Quoted;
    var close := "\",";
    var expires := "\",\"expiresAt\":" + Quoted(p.expiresAt) + close;
    var acquired := "\",\"acquiredAt\":" + Quoted(p.acquiredAt) + expires;
    PlainFormat(close, None);
    PieceFormats("\",\"expiresAt\":", p.expiresAt, close);
    PieceFormats("\",\"acquiredAt\":", p.acquiredAt, expires);
    PieceFormats("{\"owner\":", p.owner, acquired);
  }

  lemma TailFormats(p: Payload)
    ensures Format(Tail(p), None)
         == if Formats(p.metadata) then Some(Tail(p.(metadata := Halved(p.metadata)))) else None
  {
    hide Format;
    var start := ",\"metadata\":";
    assert Tail(p) == start + (p.metadata + "}");
    PlainFormat(start, None);
    PlainFormat("}", None);
    FormatSkips(start, p.metadata + "}", None);
    FormatJoins(p.metadata, "}");
    if Formats(p.metadata) {
      assert Tail(p.(metadata := Halved(p.metadata))) == start + (Halved(p.metadata) + "}");
    }
  }

  lemma SlotFormats(tail: string, arg: Option<int>)
    ensures Format(FENCE_SLOT + tail, arg)
         == if arg.Some? then Prefixed("\"fence\":" + ShowInt(arg.value), Format(tail, None)) else None
  {
    var start, slot := "\"fence\":", "%d" + tail;
    assert FENCE_SLOT + tail == start + slot;
    PlainFormat(start, None);
    FormatSkips(start, slot, arg);
    assert slot[2..] == tail;
    if arg.Some? && Format(tail, None).Some? {
      assert start + (ShowInt(arg.value) + Format(tail, None).value)
          == start + ShowInt(arg.value) + Format(tail, None).value;
    }
  }

  /** Formatting the template spells a payload exactly when all percent signs come doubled, and then it
      is the serialized payload with the fence filled in and each of those pairs halved. */
  lemma FormatTemplate(p: Payload)
    ensures Format(Template(p), Some(p.fence))
         == if Formattable(p) then Some(Serialize(Spelled(p))) else None
  {
    hide Format, Template, Serialize, Head, Tail;
    var slot := FENCE_SLOT + Tail(p);
    TemplateSplits(p);
    HeadFormats(p);
    TailFormats(p);
    SlotFormats(Tail(p), Some(p.fence));
    SlotFormats(Tail(p), None);
    if Format(Head(p), None).Some? {
      FormatSkips(Head(p), slot, Some(p.fence));
    } else {
      FormatFails(Head(p), slot, p.fence);
    }
    if Formattable(p) {
      SpelledSplits(p);
    }
  }

  lemma SpelledSplits(p: Payload)
    requires Formattable(p)
    ensures var q := Payload(Halved(p.owner), Halved(p.acquiredAt), Halved(p.expiresAt), p.fence, p.metadata);
      Serialize(Spelled(p))
      == Head(q) + ("\"fence\":" + ShowInt(p.fence) + Tail(p.(metadata := Halved(p.metadata))))
  {
    hide Format, Serialize;
    SerializeSplits(Spelled(p));
  }
}

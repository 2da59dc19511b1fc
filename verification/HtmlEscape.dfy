/** HTML escaping by five global replacements (packages/utils/src/inputValidation.ts). */
module HtmlEscape {

  /** `value.replace(/c/g, text)` */
  function ReplaceAll(s: string, c: char, text: string): string {
    if s == "" then "" else (if s[0] == c then text else [s[0]]) + ReplaceAll(s[1..], c, text)
  }

  /** The replacements of the angle brackets, and those of the quotes. */
  function Angles(s: string): string {
    ReplaceAll(ReplaceAll(s, '<', "&lt;"), '>', "&gt;")
  }

  function Quotes(s: string): string {
    ReplaceAll(ReplaceAll(s, '"', "&quot;"), '\'', "&#39;")
  }

  function EscapeHtml(value: string): string {
    Quotes(Angles(ReplaceAll(value, '&', "&amp;")))
  }

  predicate Special(c: char) {
    c == '&' || c == '<' || c == '>' || c == '"' || c == '\''
  }

  function Entity(c: char): (s: string)
    ensures s != ""
    ensures Special(c) ==> s[0] == '&' && |s| >= 4
  {
    if c == '&' then "&amp;"
    else if c == '<' then "&lt;"
    else if c == '>' then "&gt;"
    else if c == '"' then "&quot;"
    else if c == '\'' then "&#39;"
    else [c]
  }

  /** The escape a reader has in mind: each character on its own, in one pass. */
  function OnePass(s: string): string {
    if s == "" then "" else Entity(s[0]) + OnePass(s[1..])
  }

  lemma ReplaceNothing(c: char, text: string)
    ensures ReplaceAll("", c, text) == ""
  {
  }

  lemma ReplaceFirstChar(s: string, c: char, text: string)
    requires s != ""
    ensures ReplaceAll(s, c, text) == (if s[0] == c then text else [s[0]]) + ReplaceAll(s[1..], c, text)
  {
  }

  lemma {:induction false} ReplaceOfConcat(a: string, b: string, c: char, text: string)
    ensures ReplaceAll(a + b, c, text) == ReplaceAll(a, c, text) + ReplaceAll(b, c, text)
  {
    hide ReplaceAll;
    if a == "" {
      assert a + b == b;
      ReplaceNothing(c, text);
    } else {
      var head := if a[0] == c then text else [a[0]];
      var x, y := ReplaceAll(a[1..], c, text), ReplaceAll(b, c, text);
      assert (a + b)[1..] == a[1..] + b && (a + b)[0] == a[0];
      ReplaceOfConcat(a[1..], b, c, text);
      ReplaceFirstChar(a, c, text);
      ReplaceFirstChar(a + b, c, text);
      assert head + (x + y) == (head + x) + y;
    }
  }

  lemma {:induction false} NothingToReplace(s: string, c: char, text: string)
    requires c !in s
    ensures ReplaceAll(s, c, text) == s
  {
    if s != "" {
      NothingToReplace(s[1..], c, text);
    }
  }

  lemma AnglesOfConcat(a: string, b: string)
    ensures Angles(a + b) == Angles(a) + Angles(b)
  {
    ReplaceOfConcat(a, b, '<', "&lt;");
    ReplaceOfConcat(ReplaceAll(a, '<', "&lt;"), ReplaceAll(b, '<', "&lt;"), '>', "&gt;");
  }

  lemma QuotesOfConcat(a: string, b: string)
    ensures Quotes(a + b) == Quotes(a) + Quotes(b)
  {
    ReplaceOfConcat(a, b, '"', "&quot;");
    ReplaceOfConcat(ReplaceAll(a, '"', "&quot;"), ReplaceAll(b, '"', "&quot;"), '\'', "&#39;");
  }

  lemma EscapeOfConcat(a: string, b: string)
    ensures EscapeHtml(a + b) == EscapeHtml(a) + EscapeHtml(b)
  {
    ReplaceOfConcat(a, b, '&', "&amp;");
    var a', b' := ReplaceAll(a, '&', "&amp;"), ReplaceAll(b, '&', "&amp;");
    AnglesOfConcat(a', b');
    QuotesOfConcat(Angles(a'), Angles(b'));
  }

  lemma ReplaceOne(c: char, d: char, text: string)
    ensures ReplaceAll([c], d, text) == if c == d then text else [c]
  {
    assert [c][1..] == "";
  }

  lemma AnglesKeeps(s: string)
    requires '<' !in s && '>' !in s
    ensures Angles(s) == s
  {
    NothingToReplace(s, '<', "&lt;");
    NothingToReplace(s, '>', "&gt;");
  }

  lemma QuotesKeeps(s: string)
    requires '"' !in s && '\'' !in s
    ensures Quotes(s) == s
  {
    NothingToReplace(s, '"', "&quot;");
    NothingToReplace(s, '\'', "&#39;");
  }

  lemma AnglesOfOne(c: char)
    ensures Angles([c]) == if c == '<' || c == '>' then Entity(c) else [c]
  {
    ReplaceOne(c, '<', "&lt;");
    if c == '<' {
      NothingToReplace(Entity(c), '>', "&gt;");
    } else {
      ReplaceOne(c, '>', "&gt;");
    }
  }

  lemma QuotesOfOne(c: char)
    ensures Quotes([c]) == if c == '"' || c == '\'' then Entity(c) else [c]
  {
    ReplaceOne(c, '"', "&quot;");
    if c == '"' {
      NothingToReplace(Entity(c), '\'', "&#39;");
    } else {
      ReplaceOne(c, '\'', "&#39;");
    }
  }

  /** Later replacements leave the entities of earlier ones alone. */
  lemma EscapeOfOne(c: char)
    ensures EscapeHtml([c]) == Entity(c)
  {
    hide ReplaceAll, Angles, Quotes;
    ReplaceOne(c, '&', "&amp;");
    var e := Entity(c);
    if c == '&' {
      AnglesKeeps(e);
      QuotesKeeps(e);
    } else {
      AnglesOfOne(c);
      if c == '<' || c == '>' {
        QuotesKeeps(e);
      } else {
        QuotesOfOne(c);
      }
    }
  }

  /** The five sequential replacements are the one-pass escape. */
  lemma {:induction false} EscapeIsOnePass(s: string)
    ensures EscapeHtml(s) == OnePass(s)
  {
    if s != "" {
      EscapeIsOnePass(s[1..]);
      EscapeOfOne(s[0]);
      EscapeOfConcat([s[0]], s[1..]);
      assert s == [s[0]] + s[1..];
    }
  }

  lemma {:induction false} OnePassIsSafe(s: string)
    ensures forall c :: c in ['<', '>', '"', '\''] ==> c !in OnePass(s)
  {
    if s != "" {
      OnePassIsSafe(s[1..]);
    }
  }

  /** No angle bracket or quote survives. */
  lemma EscapedIsSafe(s: string)
    ensures '<' !in EscapeHtml(s) && '>' !in EscapeHtml(s) && '"' !in EscapeHtml(s) && '\'' !in EscapeHtml(s)
  {
    EscapeIsOnePass(s);
    OnePassIsSafe(s);
  }

  /** Reads the five entities back; anything else stands for itself. */
  function Decode(s: string): string {
    if s == "" then ""
    else if "&amp;" <= s then "&" + Decode(s[5..])
    else if "&lt;" <= s then "<" + Decode(s[4..])
    else if "&gt;" <= s then ">" + Decode(s[4..])
    else if "&quot;" <= s then "\"" + Decode(s[6..])
    else if "&#39;" <= s then "'" + Decode(s[5..])
    else [s[0]] + Decode(s[1..])
  }

  lemma DecodeEntity(c: char, rest: string)
    ensures Decode(Entity(c) + rest) == [c] + Decode(rest)
  {
    var s := Entity(c) + rest;
    assert s[|Entity(c)|..] == rest;
    assert s[0] == Entity(c)[0] && (Special(c) ==> s[1] == Entity(c)[1] && s[2] == Entity(c)[2]);
  }

  lemma {:induction false} DecodeOnePass(s: string)
    ensures Decode(OnePass(s)) == s
  {
    if s != "" {
      DecodeOnePass(s[1..]);
      DecodeEntity(s[0], OnePass(s[1..]));
    }
  }

  /** Decoding gives the original back, so escaping loses nothing. */
  lemma DecodeUndoesEscape(s: string)
    ensures Decode(EscapeHtml(s)) == s
  {
    EscapeIsOnePass(s);
    DecodeOnePass(s);
  }

  lemma EscapeInjective(s: string, t: string)
    requires EscapeHtml(s) == EscapeHtml(t)
    ensures s == t
  {
    DecodeUndoesEscape(s);
    DecodeUndoesEscape(t);
  }

  lemma {:induction false} OnePassGrows(s: string)
    ensures |OnePass(s)| >= |s|
    ensures |OnePass(s)| == |s| <==> forall i :: 0 <= i < |s| ==> !Special(s[i])
    ensures (forall i :: 0 <= i < |s| ==> !Special(s[i])) ==> OnePass(s) == s
  {
    if s != "" {
      OnePassGrows(s[1..]);
      assert forall i :: 1 <= i < |s| ==> s[i] == s[1..][i - 1];
    }
  }

  /** A text is left unchanged exactly when it has none of the five characters; so escaping twice is
      escaping once only for such texts. */
  lemma EscapeFixpoint(s: string)
    ensures EscapeHtml(s) == s <==> forall i :: 0 <= i < |s| ==> !Special(s[i])
    ensures EscapeHtml(EscapeHtml(s)) == EscapeHtml(s) <==> EscapeHtml(s) == s
  {
    EscapeIsOnePass(s);
    OnePassGrows(s);
    if EscapeHtml(EscapeHtml(s)) == EscapeHtml(s) {
      EscapeInjective(EscapeHtml(s), s);
    }
  }

  /** The five entities. */
  lemma Entities()
    ensures EscapeHtml("&") == "&amp;" && EscapeHtml("<") == "&lt;" && EscapeHtml(">") == "&gt;"
    ensures EscapeHtml("\"") == "&quot;" && EscapeHtml("'") == "&#39;"
  {
    EscapeOfOne('&');
    EscapeOfOne('<');
    EscapeOfOne('>');
    EscapeOfOne('"');
    EscapeOfOne('\'');
  }
}

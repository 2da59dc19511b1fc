/** What the argument sanitizer makes of a value (agents/src/tools/sanitization.ts), stated on the texts
    and numbers a model sends and on the arguments a tool receives. */
module CoercedValues {
  import opened Digits
  import opened Text
  import opened NumericText
  import opened Sanitizer

  // ---- Letters in either case ----

  /** The text reads `word`, with any of its letters in upper case. */
  predicate Reads(s: string, word: string) {
    |s| == |word| && forall i :: 0 <= i < |s| ==>
      s[i] == word[i] || ('a' <= word[i] <= 'z' && s[i] == word[i] - 'a' + 'A')
  }

  /** Small letters, digits and nothing else. */
  predicate Plain(word: string) {
    forall i :: 0 <= i < |word| ==> 'a' <= word[i] <= 'z' || IsDigit(word[i])
  }

  lemma LowerReads(s: string, word: string)
    requires Plain(word)
    ensures Lower(s) == word <==> Reads(s, word)
  {
    if Reads(s, word) {
      forall i | 0 <= i < |s| ensures LowerChar(s[i]) == word[i] {
      }
      assert Lower(s) == word;
    }
    if Lower(s) == word {
      forall i | 0 <= i < |s| ensures s[i] == word[i] || ('a' <= word[i] <= 'z' && s[i] == word[i] - 'a' + 'A') {
        assert Lower(s)[i] == LowerChar(s[i]);
      }
    }
  }

  /** The text reads `word` and has white space around it at most. */
  ghost predicate Says(s: string, word: string) {
    exists a, t, b :: s == a + t + b && AllSpace(a) && AllSpace(b) && Reads(t, word)
  }

  lemma SaysTrimmed(s: string, word: string)
    requires Plain(word) && word != ""
    ensures Says(s, word) <==> Reads(Trim(s), word)
  {
    hide Trim;
    if Says(s, word) {
      var a, t, b :| s == a + t + b && AllSpace(a) && AllSpace(b) && Reads(t, word);
      LettersAreNoSpace(t, word);
      TrimIs(a, t, b);
    }
    if Reads(Trim(s), word) {
      var a, b := TrimSplits(s);
    }
  }

  lemma LettersAreNoSpace(t: string, word: string)
    requires Plain(word) && Reads(t, word)
    ensures Trimmed(t)
  {
  }

  // ---- Booleans ----

  ghost predicate SaysYes(s: string) {
    Says(s, "true") || Says(s, "yes") || Says(s, "y") || Says(s, "1") || Says(s, "on")
  }

  ghost predicate SaysNo(s: string) {
    Says(s, "false") || Says(s, "no") || Says(s, "n") || Says(s, "0") || Says(s, "off")
  }

  lemma SaysLower(s: string, word: string)
    requires Plain(word) && word != ""
    ensures Says(s, word) <==> Lower(Trim(s)) == word
  {
    SaysTrimmed(s, word);
    LowerReads(Trim(s), word);
  }

  lemma YesAndNo(s: string)
    ensures SaysYes(s) <==> Lower(Trim(s)) in ["true", "yes", "y", "1", "on"]
    ensures SaysNo(s) <==> Lower(Trim(s)) in ["false", "no", "n", "0", "off"]
  {
    hide Says, Lower, Trim;
    SaysLower(s, "true");
    SaysLower(s, "yes");
    SaysLower(s, "y");
    SaysLower(s, "1");
    SaysLower(s, "on");
    SaysLower(s, "false");
    SaysLower(s, "no");
    SaysLower(s, "n");
    SaysLower(s, "0");
    SaysLower(s, "off");
  }

  lemma NotBoth(s: string)
    ensures !(SaysYes(s) && SaysNo(s))
  {
    hide SaysYes, SaysNo, Lower, Trim;
    YesAndNo(s);
  }

  /** A boolean field takes booleans as they are, the numbers 0 and 1, and five words each for true and
      false in any case and with white space around them. Everything else is an error. */
  lemma BooleanExact(v: Value, path: string, options: Options)
    ensures Coerce(BoolSchema, v, path, options) ==
      if v.Bool? then Some(v)
      else if v == Num(0.0) || (v.Str? && SaysNo(v.text)) then Some(Bool(false))
      else if v == Num(1.0) || (v.Str? && SaysYes(v.text)) then Some(Bool(true))
      else None
  {
    hide SaysYes, SaysNo, Lower, Trim;
    if v.Str? {
      YesAndNo(v.text);
    }
  }

  // ---- Numbers ----

  /** A number field takes numbers as they are, big integers by value, and texts by the number they
      denote. In a whole-number field a fraction is an error, unless it is a text for a stroop amount. */
  lemma NumberExact(v: Value, isInt: bool, ok: real -> bool, path: string, options: Options)
    ensures var c := Coerce(NumberSchema(isInt, ok), v, path, options);
      && (v.Num? ==> c == if isInt && !Integral(v.number) then None else Some(v))
      && (v.Big? ==> c == Some(Num(v.integer as real)))
      && (v.Bool? || v.Null? || v.Arr? || v.Obj? ==> c == None)
      && (v.Str? ==>
            var n := ParseNumericLiteral(v.text);
            && (n.None? ==> c == None)
            && (n.Some? && (!isInt || Integral(n.value)) ==> c == Some(Num(n.value)))
            && (n.Some? && isInt && !Integral(n.value) && !IsStroopField(At(path)) ==> c == None))
  {
    hide ParseNumericLiteral, IsStroopField, Shift;
  }

  /** A decimal text gives its decimal value. */
  lemma DecimalText(w: string, f: string, ok: real -> bool, path: string, options: Options)
    requires AllDigits(w) && AllDigits(f) && w + f != ""
    ensures var c := Coerce(NumberSchema(false, ok), Str(w + "." + f), path, options);
      c.Some? && c.value.Num? && c.value.number * Pow10(|f|) as real == (NatOf(w) * Pow10(|f|) + NatOf(f)) as real
  {
    hide Literal, ParseNumericLiteral, Pow10, NatOf, Coerce, Cleaned, Trim;
    PlainDecimal(w, f);
    DecimalLiteral(w, f);
    NumberExact(Str(w + "." + f), false, ok, path, options);
  }

  /** A decimal text is trimmed and clean. */
  lemma PlainDecimal(w: string, f: string)
    requires AllDigits(w) && AllDigits(f) && w + f != ""
    ensures var t := w + "." + f;
      Trim(t) == t && Cleaned(t) == t && ParseNumericLiteral(t) == Literal(t)
  {
    hide Literal;
    var t := w + "." + f;
    assert t[0] == if w == "" then '.' else w[0];
    assert t[|t| - 1] == if f == "" then '.' else f[|f| - 1];
    assert forall i :: 0 <= i < |t| ==> IsDigit(t[i]) || t[i] == '.';
    NothingToTrim(t);
  }

  // ---- Big integers ----

  /** An integer text: digits, perhaps behind a minus sign. */
  ghost predicate Denotes(t: string, n: int) {
    || (t != "" && AllDigits(t) && n == NatOf(t))
    || (|t| > 1 && t[0] == '-' && AllDigits(t[1..]) && n == -(NatOf(t[1..]) as int))
  }

  /** A big-integer field takes big integers as they are, safe whole numbers by value, and integer texts
      with white space around them. Everything else is an error. */
  lemma BigIntExact(v: Value, ok: int -> bool, path: string, options: Options, n: int)
    ensures var c := Coerce(BigSchema(ok), v, path, options);
      && (v.Big? ==> c == Some(v))
      && (v.Num? ==> c == if Integral(v.number) && -9007199254740991 <= v.number.Floor <= 9007199254740991
                          then Some(Big(v.number.Floor)) else None)
      && (v.Str? ==> (c == Some(Big(n)) <==> Denotes(Trim(v.text), n)))
      && (v.Str? && c.Some? ==> c.value.Big?)
      && (v.Bool? || v.Null? || v.Arr? || v.Obj? ==> c == None)
  {
    hide Trim, NatOf;
  }

  // ---- Texts ----

  /** A text field takes texts as they are and nothing else, except in a stroop field: there a number is
      printed as stroops and a text with a fraction is converted. */
  lemma TextExact(v: Value, ok: string -> bool, path: string, options: Options)
    ensures var c := Coerce(StringSchema(ok), v, path, options);
      && (v.Str? && (!IsStroopField(At(path)) || !HasFractionalPart(v.text)) ==> c == Some(v))
      && (!v.Str? && !IsStroopField(At(path)) ==> c == None)
      && (!v.Str? && !v.Num? ==> c == None)
      && (v.Num? && IsStroopField(At(path)) && Integral(v.number) ==> c == Some(Str(ShowInt(v.number.Floor))))
  {
    hide IsStroopField, HasFractionalPart, ShowInt;
  }

  /** Whole units and a fraction of at most `k` digits, in the smallest unit. */
  function Stroops(w: string, f: string, k: nat): nat
    requires AllDigits(w) && AllDigits(f) && |f| <= k
  {
    (NatOf(w) * Pow10(|f|) + NatOf(f)) * Pow10(k - |f|)
  }

  lemma IntegralUnique(x: real, n: int)
    requires x == n as real
    ensures Integral(x) && x.Floor == n && Rounded(x) == n
  {
  }

  lemma Multiplied(n: real, a: real, b: real, v: real)
    requires n * a == v
    ensures n * (a * b) == v * b
  {
  }

  lemma CastProduct(x: nat, y: nat)
    ensures (x * y) as real == x as real * y as real
  {
  }

  lemma PowerSplits(n: real, v: nat, f: nat, k: nat)
    requires f <= k && n * Pow10(f) as real == v as real
    ensures n * Pow10(k) as real == (v * Pow10(k - f)) as real
  {
    hide Pow10;
    Pow10Sum(f, k - f);
    CastProduct(Pow10(f), Pow10(k - f));
    CastProduct(v, Pow10(k - f));
    Multiplied(n, Pow10(f) as real, Pow10(k - f) as real, v as real);
  }

  lemma ScaledDecimal(w: string, f: string, k: nat)
    requires AllDigits(w) && AllDigits(f) && w + f != "" && |f| <= k
    ensures Literal(w + "." + f).Some?
    ensures Rounded(Shift(Literal(w + "." + f).value, k)) == Stroops(w, f, k)
  {
    hide Literal, Shift, Rounded, Pow10, NatOf, Integral;
    DecimalLiteral(w, f);
    var n, v := Literal(w + "." + f).value, NatOf(w) * Pow10(|f|) + NatOf(f);
    assert n * Pow10(|f|) as real == v as real;
    ShiftScaled(n, v, |f|, k);
  }

  lemma ShiftScaled(n: real, v: nat, f: nat, k: nat)
    requires f <= k && n * Pow10(f) as real == v as real
    ensures Rounded(Shift(n, k)) == v * Pow10(k - f)
  {
    hide Shift, Rounded, Pow10, Integral;
    PowerSplits(n, v, f, k);
    ShiftIsPower(n, k);
    IntegralUnique(Shift(n, k), v * Pow10(k - f));
  }

  /** The mistake the sanitizer is made for: units with a fraction, sent for a stroop amount, become the
      exact amount in stroops, as a text in a text field and as a number in a whole-number field. */
  lemma UnitsBecomeStroops(w: string, f: string, path: string, options: Options,
                           ok: string -> bool, ok': real -> bool)
    requires AllDigits(w) && AllDigits(f) && w + f != "" && |f| <= options.stroopsPerUnit
    requires HasFractionalPart(w + "." + f) && IsStroopField(At(path)) && options.coerceDecimalIntegers
    requires Stroops(w, f, options.stroopsPerUnit) <= 9007199254740991
    ensures var n, v := Stroops(w, f, options.stroopsPerUnit), Str(w + "." + f);
      && Coerce(StringSchema(ok), v, path, options) == Some(Str(Show(n)))
      && Coerce(NumberSchema(true, ok'), v, path, options) == Some(Num(n as real))
  {
    hide Literal, Shift, Rounded, IsStroopField, Stroops, Cleaned, Trim;
    PlainDecimal(w, f);
    ScaledDecimal(w, f, options.stroopsPerUnit);
  }

  // ---- Field names ----

  /** A name denotes a stroop amount exactly when it ends in "stroop" or "stroops", in any case. */
  lemma StroopNameExact(name: string)
    requires '.' !in name
    ensures IsStroopField(name) <==>
      exists x, y :: name == x + y && (Reads(y, "stroop") || Reads(y, "stroops"))
  {
    hide Lower, EndsWith, Reads;
    assert LastField(name) == name;
    if IsStroopField(name) {
      if EndsWith(Lower(name), "stroop") {
        EndsReads(name, "stroop");
      } else {
        EndsReads(name, "stroops");
      }
    }
    if x, y :| name == x + y && (Reads(y, "stroop") || Reads(y, "stroops")) {
      if Reads(y, "stroop") {
        ReadsEnds(x, y, "stroop");
      } else {
        ReadsEnds(x, y, "stroops");
      }
    }
  }

  lemma EndsReads(name: string, word: string)
    requires Plain(word) && EndsWith(Lower(name), word)
    ensures |word| <= |name| && Reads(name[|name| - |word|..], word)
    ensures name == name[..|name| - |word|] + name[|name| - |word|..]
  {
    var y := name[|name| - |word|..];
    assert Lower(y) == Lower(name)[|name| - |word|..];
    LowerReads(y, word);
  }

  lemma ReadsEnds(x: string, y: string, word: string)
    requires Plain(word) && Reads(y, word)
    ensures EndsWith(Lower(x + y), word)
  {
    LowerReads(y, word);
    assert Lower(x + y)[|x|..] == Lower(y);
  }

  /** Below the root it is the last name of the path that counts. */
  lemma {:induction false} LastName(path: string, k: string)
    requires '.' !in k
    ensures LastField(path + "." + k) == k
    decreases |path|
  {
    hide IndexOf;
    var s := path + "." + k;
    var i := IndexOf(s, '.');
    IndexAtMost(s, '.', |path|);
    if i < |path| {
      assert s[i + 1..] == path[i + 1..] + "." + k;
      LastName(path[i + 1..], k);
    } else {
      assert s[i + 1..] == k;
    }
  }

  /** A field is a stroop amount by its own name, wherever the object is. */
  lemma FieldNameCounts(path: string, k: string)
    requires '.' !in k && k != ""
    ensures IsStroopField(At(FieldPath(path, k))) == IsStroopField(k)
  {
    hide Lower, EndsWith;
    assert LastField(k) == k;
    if path != "" {
      LastName(path, k);
    }
  }

  /** The items of an array are never stroop amounts: their paths end in a bracket. */
  lemma ItemsAreNoStroopFields(path: string, i: nat)
    ensures !IsStroopField(At(ItemPath(path, i)))
  {
    hide IsStroopField;
    var p := ItemPath(path, i);
    assert p[|p| - 1] == ']';
    BracketIsNoStroop(p);
  }

  /** Nor is the whole argument object. */
  lemma RootIsNoStroopField()
    ensures !IsStroopField(At(""))
  {
    var root := "(root)";
    assert root[|root| - 1] == ')' && '.' !in root;
    var name := Lower(LastField(root));
    assert name[|name| - 1] == ')';
    assert "stroop"[5] == 'p' && "stroops"[6] == 's';
  }

  lemma LastFieldStep(s: string)
    ensures '.' !in s ==> LastField(s) == s
    ensures '.' in s ==> IndexOf(s, '.') < |s| && LastField(s) == LastField(s[IndexOf(s, '.') + 1..])
  {
    hide IndexOf;
    if k :| 0 <= k < |s| && s[k] == '.' {
      IndexAtMost(s, '.', k);
    }
  }

  lemma {:induction false} LastFieldEnds(s: string)
    requires s != "" && s[|s| - 1] != '.'
    ensures LastField(s) != "" && LastField(s)[|LastField(s)| - 1] == s[|s| - 1]
    decreases |s|
  {
    hide LastField, IndexOf;
    LastFieldStep(s);
    if '.' in s {
      var i := IndexOf(s, '.');
      var k :| 0 <= k < |s| && s[k] == '.';
      IndexAtMost(s, '.', k);
      var t := s[i + 1..];
      assert t[|t| - 1] == s[|s| - 1];
      LastFieldEnds(t);
    }
  }

  lemma BracketIsNoStroop(p: string)
    requires p != "" && p[|p| - 1] == ']'
    ensures !IsStroopField(p)
  {
    LastFieldEnds(p);
    var name := Lower(LastField(p));
    assert name[|name| - 1] == ']';
    assert "stroop"[5] == 'p' && "stroops"[6] == 's';
  }

  // ---- Whole calls ----

  /** The raw arguments that reach coercion: blank texts and null are no arguments, texts are read as JSON,
      a provider envelope is unwrapped, other objects are taken as they are, and everything else is
      refused. */
  lemma NormalizeExact(raw: Value, json: string -> Option<Value>)
    requires Shrinks(json)
    ensures var n := Normalize(raw, json);
      && (raw.Null? || (raw.Str? && AllSpace(raw.text)) ==> n == Some(Obj(map[])))
      && (raw.Bool? || raw.Num? || raw.Big? || raw.Arr? ==> n == None)
      && (raw.Str? && !AllSpace(raw.text) ==>
            var parsed := json(Trim(raw.text));
            n == if parsed.None? || parsed.value.Str? then None else Normalize(parsed.value, json))
      && (raw.Obj? && (forall k :: k in ["_raw", "__raw", "raw"] && k in raw.fields && raw.fields[k].Str? ==>
                         |raw.fields| > 2)
          ==> n == Some(raw))
  {
    hide IsSpace;
    if raw.Str? {
      BlankExact(raw.text);
    }
    if raw.Obj? {
      assert RAW_KEYS == ["_raw", "__raw", "raw"];
      var k := EnvelopeKey(raw.fields);
    }
  }

  lemma BlankExact(s: string)
    ensures Trim(s) == "" <==> AllSpace(s)
  {
    hide IsSpace, Trim;
    var a, b := TrimSplits(s);
    if AllSpace(s) {
      TrimSpace(s);
    }
  }

  predicate HasText(fields: map<string, Value>, k: string) {
    k in fields && fields[k].Str?
  }

  /** An object of at most two fields with a text under an envelope key is replaced by what the first such
      text says. */
  lemma EnvelopeUnwraps(fields: map<string, Value>, json: string -> Option<Value>)
    requires Shrinks(json) && |fields| <= 2
    ensures var n := Normalize(Obj(fields), json);
      && (HasText(fields, "_raw") ==> n == Normalize(fields["_raw"], json))
      && (!HasText(fields, "_raw") && HasText(fields, "__raw") ==> n == Normalize(fields["__raw"], json))
      && (!HasText(fields, "_raw") && !HasText(fields, "__raw") && HasText(fields, "raw") ==>
            n == Normalize(fields["raw"], json))
      && (!HasText(fields, "_raw") && !HasText(fields, "__raw") && !HasText(fields, "raw") ==>
            n == Some(Obj(fields)))
  {
    hide NormalizeText;
    assert forall i :: 0 <= i < |RAW_KEYS| ==> RAW_KEYS[i] == "_raw" || RAW_KEYS[i] == "__raw" || RAW_KEYS[i] == "raw";
    assert RAW_KEYS[0] == "_raw" && RAW_KEYS[1] == "__raw" && RAW_KEYS[2] == "raw";
  }

  // ---- Arrays, objects and unions ----

  /** An array is coerced item by item, and an error in one item is an error. */
  lemma ArrayExact(element: Schema, ok: nat -> bool, v: Value, path: string, options: Options)
    ensures var c := Coerce(ArraySchema(element, ok), v, path, options);
      && (c.Some? <==> v.Arr? && forall i :: 0 <= i < |v.items| ==>
            Coerce(element, v.items[i], ItemPath(path, i), options).Some?)
      && (c.Some? ==> c.value.Arr? && |c.value.items| == |v.items| && forall i :: 0 <= i < |v.items| ==>
            Coerce(element, v.items[i], ItemPath(path, i), options) == Some(c.value.items[i]))
  {
  }

  lemma {:induction false} FirstOf(members: seq<Schema>, v: Value)
    ensures ParseFirst(members, v).Some? <==> exists i :: 0 <= i < |members| && Parse(members[i], v).Some?
  {
    if members != [] && Parse(members[0], v).None? {
      FirstOf(members[1..], v);
      forall i | 0 < i < |members| ensures members[1..][i - 1] == members[i] {
      }
      if i :| 0 <= i < |members[1..]| && Parse(members[1..][i], v).Some? {
        assert Parse(members[i + 1], v).Some?;
      }
    }
  }

  /** A value that some member of a union accepts is left alone; any other is coerced for the first. */
  lemma UnionCoercion(members: seq<Schema>, v: Value, path: string, options: Options)
    requires members != []
    ensures Coerce(UnionSchema(members), v, path, options) ==
      if exists i :: 0 <= i < |members| && Parse(members[i], v).Some? then Some(v)
      else Coerce(members[0], v, path, options)
  {
    FirstOf(members, v);
  }

  /** Wrappers are coerced like what they wrap. */
  lemma WrapperCoercion(inner: Schema, fallback: Value, ok: Option<Value> -> bool, v: Value,
                        path: string, options: Options)
    ensures var c := Coerce(inner, v, path, options);
      && Coerce(OptionalSchema(inner), v, path, options) == c
      && Coerce(DefaultSchema(inner, fallback), v, path, options) == c
      && Coerce(RefinedSchema(inner, ok), v, path, options) == c
  {
  }

  /** An allowed call, field by field: every field of the schema that was sent is coerced and validated on
      its own, a missing one is left out or filled in, and no other field gets through. */
  lemma FieldsOfCall(fields: map<string, Value>, shape: map<string, Schema>, options: Options,
                     json: string -> Option<Value>, k: string)
    requires Shrinks(json) && ToolSchema(ObjectSchema(shape)) && EnvelopeKey(fields).None?
    requires Sanitize(Obj(fields), ObjectSchema(shape), options, json).Some?
    ensures var w := Sanitize(Obj(fields), ObjectSchema(shape), options, json).value;
      && w.Obj?
      && (k !in shape ==> k !in w.fields)
      && (k in shape && k in fields ==>
            && Coerce(shape[k], fields[k], FieldPath("", k), options).Some?
            && k in w.fields
            && Parse(shape[k], Coerce(shape[k], fields[k], FieldPath("", k), options).value) == Some(w.fields[k]))
      && (k in shape && k !in fields ==>
            && Missing(shape[k]).Some?
            && (k in w.fields <==> Missing(shape[k]).value.Some?)
            && (k in w.fields ==> Missing(shape[k]).value == Some(w.fields[k])))
  {
    var schema := ObjectSchema(shape);
    assert Normalize(Obj(fields), json) == Some(Obj(fields));
    var c := Coerce(schema, Obj(fields), "", options).value;
    assert k in shape ==> ParseField(shape[k], c.fields, k).Some?;
  }

  /** For instance a boolean field of an allowed call: the tool sees true exactly for a word or number that
      says so. */
  lemma BooleanField(fields: map<string, Value>, shape: map<string, Schema>, options: Options,
                     json: string -> Option<Value>, k: string)
    requires Shrinks(json) && ToolSchema(ObjectSchema(shape)) && EnvelopeKey(fields).None?
    requires Sanitize(Obj(fields), ObjectSchema(shape), options, json).Some?
    requires k in shape && shape[k] == BoolSchema && k in fields
    ensures var w, v := Sanitize(Obj(fields), ObjectSchema(shape), options, json).value, fields[k];
      && w.Obj? && k in w.fields && w.fields[k].Bool?
      && (w.fields[k].flag <==>
            v == Bool(true) || v == Num(1.0) || (v.Str? && SaysYes(v.text)))
  {
    hide Sanitize, SaysYes, SaysNo, Coerce;
    FieldsOfCall(fields, shape, options, json, k);
    BooleanExact(fields[k], FieldPath("", k), options);
    if fields[k].Str? {
      NotBoth(fields[k].text);
    }
  }

  // ---- Validation ----

  /** Validation of scalars is by kind, wholeness and the schema's own test, and changes nothing. */
  lemma ValidScalars(v: Value, isInt: bool, number: real -> bool, text: string -> bool, integer: int -> bool)
    ensures var n := Parse(NumberSchema(isInt, number), v);
      (n.None? || n == Some(v))
      && (n.Some? <==> v.Num? && (isInt ==> v.number == v.number.Floor as real) && number(v.number))
    ensures var t := Parse(StringSchema(text), v);
      (t.None? || t == Some(v)) && (t.Some? <==> v.Str? && text(v.text))
    ensures var b := Parse(BoolSchema, v); (b.None? || b == Some(v)) && (b.Some? <==> v.Bool?)
    ensures var i := Parse(BigSchema(integer), v);
      (i.None? || i == Some(v)) && (i.Some? <==> v.Big? && integer(v.integer))
  {
  }

  /** A missing field is an error, unless it is optional or has a default that the schema accepts. */
  lemma MissingFields(schema: Schema, fallback: Value)
    ensures Missing(OptionalSchema(schema)) == Some(None)
    ensures Missing(DefaultSchema(schema, fallback))
         == if Parse(schema, fallback).Some? then Some(Parse(schema, fallback)) else None
    ensures (|| schema.NumberSchema? || schema.StringSchema? || schema.BoolSchema? || schema.BigSchema?
             || schema.ArraySchema? || schema.ObjectSchema?) ==> Missing(schema) == None
  {
  }
}

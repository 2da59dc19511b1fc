/** Tool-argument sanitizing (agents/src/tools/sanitization.ts), which the tool registry runs twice
    on every call (agents/src/tools/registry.ts). */
module Sanitizer {
  import opened Digits
  import opened Text
  import opened NumericText

  /** A JavaScript value. `undefined` is the absence of a field. */
  datatype Value =
    | Null
    | Bool(flag: bool)
    | Num(number: real)
    | Big(integer: int)
    | Str(text: string)
    | Arr(items: seq<Value>)
    | Obj(fields: map<string, Value>)

  /** A Zod schema; the predicates stand for its refinement checks. `Untouched` are the kinds that
      coercion does not look into (any, enums, literals). */
  datatype Schema =
    | NumberSchema(isInt: bool, numberOk: real -> bool)
    | StringSchema(textOk: string -> bool)
    | BoolSchema
    | BigSchema(integerOk: int -> bool)
    | ArraySchema(element: Schema, lengthOk: nat -> bool)
    | ObjectSchema(shape: map<string, Schema>)
    | OptionalSchema(inner: Schema)
    | DefaultSchema(inner: Schema, fallback: Value)
    | RefinedSchema(inner: Schema, refinement: Option<Value> -> bool)
    | UnionSchema(members: seq<Schema>)
    | Untouched(accepts: Option<Value> -> bool)

  datatype Options = Options(stroopsPerUnit: nat, coerceDecimalIntegers: bool)

  // ---- Validation: safeParse ----

  /** `safeParse(v)` on a present value: unknown fields are stripped, defaults filled in. */
  function Parse(schema: Schema, v: Value): Option<Value>
    decreases schema, 1
  {
    match schema
    case NumberSchema(isInt, ok) =>
      if v.Num? && (isInt ==> Integral(v.number)) && ok(v.number) then Some(v) else None
    case StringSchema(ok) => if v.Str? && ok(v.text) then Some(v) else None
    case BoolSchema => if v.Bool? then Some(v) else None
    case BigSchema(ok) => if v.Big? && ok(v.integer) then Some(v) else None
    case ArraySchema(element, ok) =>
      if v.Arr? && ok(|v.items|) && forall i :: 0 <= i < |v.items| ==> Parse(element, v.items[i]).Some?
      then Some(Arr(seq(|v.items|, i requires 0 <= i < |v.items| => Parse(element, v.items[i]).value)))
      else None
    case ObjectSchema(shape) =>
      if v.Obj? && forall k :: k in shape ==> ParseField(shape[k], v.fields, k).Some?
      then Some(Obj(map k | k in shape && ParseField(shape[k], v.fields, k).value.Some? ::
                      ParseField(shape[k], v.fields, k).value.value))
      else None
    case OptionalSchema(inner) => Parse(inner, v)
    case DefaultSchema(inner, _) => Parse(inner, v)
    case RefinedSchema(inner, ok) =>
      var r := Parse(inner, v);
      if r.Some? && ok(r) then r else None
    case UnionSchema(members) => ParseFirst(members, v)
    case Untouched(ok) => if ok(Some(v)) then Some(v) else None
  }

  function ParseFirst(members: seq<Schema>, v: Value): Option<Value>
    decreases members, 0
  {
    if members == [] then None
    else
      var r := Parse(members[0], v);
      if r.Some? then r else ParseFirst(members[1..], v)
  }

  /** A field's outcome: failure, or a value, or left out. */
  function ParseField(schema: Schema, fields: map<string, Value>, k: string): Option<Option<Value>>
    decreases schema, 3
  {
    if k in fields then
      var r := Parse(schema, fields[k]);
      if r.Some? then Some(r) else None
    else Missing(schema)
  }

  /** `safeParse(undefined)` */
  function Missing(schema: Schema): Option<Option<Value>>
    decreases schema, 2
  {
    match schema
    case OptionalSchema(_) => Some(None)
    case DefaultSchema(inner, fallback) =>
      var r := Parse(inner, fallback);
      if r.Some? then Some(r) else None
    case RefinedSchema(inner, ok) =>
      var r := Missing(inner);
      if r.Some? && ok(r.value) then r else None
    case UnionSchema(members) => MissingFirst(members)
    case Untouched(ok) => if ok(None) then Some(None) else None
    case _ => None
  }

  function MissingFirst(members: seq<Schema>): Option<Option<Value>>
    decreases members, 0
  {
    if members == [] then None
    else
      var r := Missing(members[0]);
      if r.Some? then r else MissingFirst(members[1..])
  }

  // ---- Coercion ----

  const MAX_SAFE_INTEGER: int := 0x1F_FFFF_FFFF_FFFF

  function LowerChar(c: char): char {
    if 'A' <= c <= 'Z' then c - 'A' + 'a' else c
  }

  function Lower(s: string): string {
    seq(|s|, i requires 0 <= i < |s| => LowerChar(s[i]))
  }

  predicate EndsWith(s: string, suffix: string) {
    |suffix| <= |s| && s[|s| - |suffix|..] == suffix
  }

  function LastField(at: string): string
    decreases |at|
  {
    if '.' in at then LastField(at[IndexOf(at, '.') + 1..]) else at
  }

  predicate IsStroopField(at: string) {
    var name := Lower(LastField(at));
    EndsWith(name, "stroop") || EndsWith(name, "stroops")
  }

  /** `Number(x.toFixed(0))`: nearest integer, halves away from zero. */
  function Rounded(x: real): int {
    if x < 0.0 then -((-x + 0.5).Floor) else (x + 0.5).Floor
  }

  /** `scaleDecimalToInteger` for text input; `None` is a reported error. */
  function ScaleDecimal(n: real, at: string, options: Options): Option<int> {
    if Integral(n) then Some(n.Floor)
    else if !options.coerceDecimalIntegers || !IsStroopField(at) then None
    else
      var scaled := Rounded(Shift(n, options.stroopsPerUnit));
      if -MAX_SAFE_INTEGER <= scaled <= MAX_SAFE_INTEGER then Some(scaled) else None
  }

  function CoerceNumber(v: Value, isInt: bool, at: string, options: Options): Option<Value> {
    match v
    case Num(n) => if isInt && !Integral(n) then None else Some(v)
    case Big(i) => Some(Num(i as real))
    case Str(s) =>
      var n := ParseNumericLiteral(s);
      if n.None? then None
      else if isInt && !Integral(n.value) then
        var scaled := ScaleDecimal(n.value, at, options);
        if scaled.Some? then Some(Num(scaled.value as real)) else None
      else Some(Num(n.value))
    case _ => None
  }

  function CoerceString(v: Value, at: string, options: Options): Option<Value> {
    match v
    case Str(s) =>
      if IsStroopField(at) && HasFractionalPart(s) then
        // `Number(value.trim())` is NaN when cleaning had anything to remove.
        if Cleaned(s) != Trim(s) then None
        else
          var scaled := ScaleDecimal(ParseNumericLiteral(s).value, at, options);
          if scaled.Some? then Some(Str(ShowInt(scaled.value))) else None
      else Some(v)
    case Num(n) =>
      if !IsStroopField(at) then None
      else
        var scaled := ScaleDecimal(n, at, options);
        if scaled.Some? then Some(Str(ShowInt(scaled.value))) else None
    case _ => None
  }

  function CoerceBoolean(v: Value): Option<Value> {
    match v
    case Bool(_) => Some(v)
    case Num(n) => if n == 0.0 then Some(Bool(false)) else if n == 1.0 then Some(Bool(true)) else None
    case Str(s) =>
      var word := Lower(Trim(s));
      if word in ["true", "yes", "y", "1", "on"] then Some(Bool(true))
      else if word in ["false", "no", "n", "0", "off"] then Some(Bool(false))
      else None
    case _ => None
  }

  function CoerceBigInt(v: Value): Option<Value> {
    match v
    case Big(_) => Some(v)
    case Num(n) =>
      if Integral(n) && -MAX_SAFE_INTEGER <= n.Floor <= MAX_SAFE_INTEGER then Some(Big(n.Floor)) else None
    case Str(s) =>
      var t := Trim(s);
      if t != "" && t[0] != '+' && SignedDigits(t).Some? then Some(Big(SignedDigits(t).value)) else None
    case _ => None
  }

  function At(path: string): string {
    if path == "" then "(root)" else path
  }

  function ItemPath(path: string, i: nat): string {
    path + "[" + Show(i) + "]"
  }

  function FieldPath(path: string, k: string): string {
    if path == "" then k else path + "." + k
  }

  /** `coerceValue`; `None` when any error was reported on the way. */
  function Coerce(schema: Schema, v: Value, path: string, options: Options): Option<Value>
    decreases schema
  {
    match schema
    case NumberSchema(isInt, _) => CoerceNumber(v, isInt, At(path), options)
    case StringSchema(_) => CoerceString(v, At(path), options)
    case BoolSchema => CoerceBoolean(v)
    case BigSchema(_) => CoerceBigInt(v)
    case ArraySchema(element, _) =>
      if v.Arr? && forall i :: 0 <= i < |v.items| ==> Coerce(element, v.items[i], ItemPath(path, i), options).Some?
      then Some(Arr(seq(|v.items|, i requires 0 <= i < |v.items| =>
                          Coerce(element, v.items[i], ItemPath(path, i), options).value)))
      else None
    case ObjectSchema(shape) =>
      if v.Obj? && forall k :: k in shape && k in v.fields ==>
                     Coerce(shape[k], v.fields[k], FieldPath(path, k), options).Some?
      then Some(Obj(map k | k in shape && k in v.fields ::
                      Coerce(shape[k], v.fields[k], FieldPath(path, k), options).value))
      else None
    case OptionalSchema(inner) => Coerce(inner, v, path, options)
    case DefaultSchema(inner, _) => Coerce(inner, v, path, options)
    case RefinedSchema(inner, _) => Coerce(inner, v, path, options)
    case UnionSchema(members) =>
      if ParseFirst(members, v).Some? || members == [] then Some(v)
      else Coerce(members[0], v, path, options)
    case Untouched(_) => Some(v)
  }

  // ---- Stability ----

  /** Sanitizing the value again accepts it and changes nothing. */
  predicate Stable(schema: Schema, v: Value, path: string, options: Options) {
    Coerce(schema, v, path, options) == Some(v) && Parse(schema, v) == Some(v)
  }

  /** Revalidating what a union produced gives the same value: no earlier member claims and changes it. */
  ghost predicate UnionAgrees(members: seq<Schema>) {
    forall c :: ParseFirst(members, c).Some? ==>
      ParseFirst(members, ParseFirst(members, c).value) == ParseFirst(members, c)
  }

  /** The same for what the union fills in for a missing field. */
  predicate FillInAgrees(members: seq<Schema>) {
    var filled := MissingFirst(members);
    filled.Some? && filled.value.Some? ==> ParseFirst(members, filled.value.value) == filled.value
  }

  /** Defaults are stable where they are used, and unions agree with themselves. */
  ghost predicate WellBehaved(schema: Schema, path: string, options: Options)
    decreases schema
  {
    match schema
    case ArraySchema(element, _) => forall i: nat :: WellBehaved(element, ItemPath(path, i), options)
    case ObjectSchema(shape) => forall k :: k in shape ==> WellBehaved(shape[k], FieldPath(path, k), options)
    case OptionalSchema(inner) => WellBehaved(inner, path, options)
    case DefaultSchema(inner, fallback) =>
      WellBehaved(inner, path, options) && Stable(inner, fallback, path, options)
    case RefinedSchema(inner, _) => WellBehaved(inner, path, options)
    case UnionSchema(members) =>
      && UnionAgrees(members) && FillInAgrees(members)
      && forall i :: 0 <= i < |members| ==> WellBehaved(members[i], path, options)
    case _ => true
  }

  /** A decimal is converted exactly when conversion is on, the field is a stroop amount and the result
      is a safe integer. */
  lemma ScalingAccepted(n: real, at: string, options: Options)
    requires !Integral(n)
    ensures ScaleDecimal(n, at, options).Some? <==>
      && options.coerceDecimalIntegers && IsStroopField(at)
      && -9007199254740991 <= Rounded(Shift(n, options.stroopsPerUnit)) <= 9007199254740991
  {
  }

  /** A decimal is converted to stroops exactly when it has no digits below one stroop; any other
      decimal is rounded, not rejected. */
  lemma ScalingExact(n: real, at: string, options: Options)
    requires !Integral(n) && ScaleDecimal(n, at, options).Some?
    ensures var scaled := ScaleDecimal(n, at, options).value as real;
      var exact := Shift(n, options.stroopsPerUnit);
      && -0.5 <= scaled - exact <= 0.5
      && (scaled == exact <==> Integral(exact))
  {
    RoundedIsNearest(Shift(n, options.stroopsPerUnit));
  }

  /** The nearest integer, and of two the one further from zero. */
  lemma RoundedIsNearest(x: real)
    ensures -0.5 <= Rounded(x) as real - x <= 0.5
    ensures if x >= 0.0 then Rounded(x) as real - x > -0.5 else Rounded(x) as real - x < 0.5
    ensures Rounded(x) as real == x <==> Integral(x)
  {
    var y := if x < 0.0 then -x + 0.5 else x + 0.5;
    assert y.Floor as real <= y < y.Floor as real + 1.0;
    if Integral(x) {
      var k := x.Floor;
      assert y.Floor == if x < 0.0 then -k else k;
    }
  }

  lemma SixTenthsText()
    ensures ParseNumericLiteral("6e-8") == Some(Shift(6.0, -8))
  {
    hide Shift, Literal, Cleaned;
    NothingToClean("6e-8");
    NegativeExponent("6", "8");
    assert "6" + "e-" + "8" == "6e-8";
  }

  /** `6e-8` units are six tenths of a stroop. */
  lemma SixTenthsValue(n: real)
    requires n == Shift(6.0, -8)
    ensures Shift(n, 7) == 0.6 && 0.0 < n < 1.0
  {
    ShiftUndone(6.0, 8);
    ShiftLinear(n, 7);
    assert Shift(n, 8) == Shift(n * 10.0, 7);
  }

  /** A text with a fraction in a whole-number field becomes what scaling gives. */
  lemma FractionText(s: string, n: real, ok: real -> bool, path: string, options: Options, scaled: int)
    requires path != "" && ParseNumericLiteral(s) == Some(n) && !Integral(n)
    requires ScaleDecimal(n, path, options) == Some(scaled)
    ensures Coerce(NumberSchema(true, ok), Str(s), path, options) == Some(Num(scaled as real))
  {
    hide ParseNumericLiteral, ScaleDecimal;
  }

  lemma StroopsIsAField()
    ensures IsStroopField("stroops")
  {
    var at := "stroops";
    assert '.' !in at && Lower(at) == at && at[0..] == at;
  }

  lemma NearestToSixTenths()
    ensures Rounded(0.6) == 1
  {
    assert (0.6 + 0.5).Floor == 1;
  }

  /** The text `6e-8` in a whole-number stroop field is neither rejected nor kept exact: it becomes one
      stroop. */
  lemma RoundedTextExample(options: Options, ok: real -> bool)
    requires options.stroopsPerUnit == 7 && options.coerceDecimalIntegers
    ensures Coerce(NumberSchema(true, ok), Str("6e-8"), "stroops", options) == Some(Num(1.0))
    ensures Shift(ParseNumericLiteral("6e-8").value, 7) == 0.6
  {
    hide ParseNumericLiteral, Shift, IsStroopField, Rounded, Coerce;
    SixTenthsText();
    SixTenthsValue(Shift(6.0, -8));
    assert !Integral(Shift(6.0, -8));
    StroopsIsAField();
    NearestToSixTenths();
    assert ScaleDecimal(Shift(6.0, -8), "stroops", options) == Some(1);
    FractionText("6e-8", Shift(6.0, -8), ok, "stroops", options, 1);
  }

  /** Scalars: what a coercion produced is left alone by the same coercion. */
  lemma ScalarStable(schema: Schema, v: Value, path: string, options: Options)
    requires schema.NumberSchema? || schema.StringSchema? || schema.BoolSchema? || schema.BigSchema?
    ensures var c := Coerce(schema, v, path, options);
      c.Some? && Parse(schema, c.value).Some? ==> Coerce(schema, c.value, path, options) == c
  {
    hide IsStroopField, ParseNumericLiteral, Cleaned, Trim;
    var at := At(path);
    match schema
    case StringSchema(_) =>
      match v {
        case Str(s) =>
          if IsStroopField(at) && HasFractionalPart(s) && Cleaned(s) == Trim(s) {
            StroopTextStable(ParseNumericLiteral(s).value, at, options);
          }
        case Num(n) => StroopTextStable(n, at, options);
        case _ =>
      }
    case _ =>
  }

  lemma StroopTextStable(n: real, at: string, options: Options)
    ensures var scaled := ScaleDecimal(n, at, options);
      scaled.Some? ==> CoerceString(Str(ShowInt(scaled.value)), at, options) == Some(Str(ShowInt(scaled.value)))
  {
    hide ScaleDecimal, ParseNumericLiteral, Cleaned, Trim, IsStroopField;
    var scaled := ScaleDecimal(n, at, options);
    if scaled.Some? {
      PrintedIntegerIsIntegral(scaled.value);
    }
  }

  /** The fill-in for a missing field is stable. */
  lemma {:induction false} MissingStable(schema: Schema, path: string, options: Options)
    requires WellBehaved(schema, path, options)
    ensures Missing(schema).Some? && Missing(schema).value.Some? ==>
              Stable(schema, Missing(schema).value.value, path, options)
    decreases schema
  {
    match schema
    case RefinedSchema(inner, _) => MissingStable(inner, path, options);
    case UnionSchema(members) =>
    case _ =>
  }

  lemma {:induction false} ParseFirstIndex(members: seq<Schema>, v: Value) returns (j: nat)
    requires ParseFirst(members, v).Some?
    ensures j < |members| && Parse(members[j], v) == ParseFirst(members, v)
    ensures forall i :: 0 <= i < j ==> Parse(members[i], v).None?
  {
    if Parse(members[0], v).Some? {
      j := 0;
    } else {
      j := ParseFirstIndex(members[1..], v);
      j := j + 1;
    }
  }

  /** Sanitizing is idempotent on accepted values, by induction over the schema. */
  lemma {:induction false} SanitizedIsStable(schema: Schema, v: Value, path: string, options: Options)
    requires WellBehaved(schema, path, options)
    requires Coerce(schema, v, path, options).Some?
    requires Parse(schema, Coerce(schema, v, path, options).value).Some?
    ensures Stable(schema, Parse(schema, Coerce(schema, v, path, options).value).value, path, options)
    decreases schema
  {
    match schema
    case ArraySchema(_, _) => ArrayStable(schema, v, path, options);
    case ObjectSchema(_) => ObjectStable(schema, v, path, options);
    case OptionalSchema(inner) => SanitizedIsStable(inner, v, path, options);
    case DefaultSchema(inner, _) => SanitizedIsStable(inner, v, path, options);
    case RefinedSchema(inner, _) => SanitizedIsStable(inner, v, path, options);
    case UnionSchema(members) =>
    case Untouched(_) =>
    case _ => ScalarStable(schema, v, path, options);
  }

  lemma ArrayStable(schema: Schema, v: Value, path: string, options: Options)
    requires schema.ArraySchema? && WellBehaved(schema, path, options)
    requires Coerce(schema, v, path, options).Some?
    requires Parse(schema, Coerce(schema, v, path, options).value).Some?
    ensures Stable(schema, Parse(schema, Coerce(schema, v, path, options).value).value, path, options)
    decreases schema, 0
  {
    var c := Coerce(schema, v, path, options).value;
    var w := Parse(schema, c).value;
    forall i | 0 <= i < |w.items| ensures Stable(schema.element, w.items[i], ItemPath(path, i), options) {
      assert c.items[i] == Coerce(schema.element, v.items[i], ItemPath(path, i), options).value;
      assert Parse(schema.element, c.items[i]).Some?;
      SanitizedIsStable(schema.element, v.items[i], ItemPath(path, i), options);
    }
    assert Coerce(schema, w, path, options).Some?;
    assert Coerce(schema, w, path, options).value.items == w.items;
    assert Parse(schema, w).Some?;
    assert Parse(schema, w).value.items == w.items;
  }

  lemma ObjectStable(schema: Schema, v: Value, path: string, options: Options)
    requires schema.ObjectSchema? && WellBehaved(schema, path, options)
    requires Coerce(schema, v, path, options).Some?
    requires Parse(schema, Coerce(schema, v, path, options).value).Some?
    ensures Stable(schema, Parse(schema, Coerce(schema, v, path, options).value).value, path, options)
    decreases schema, 0
  {
    var shape := schema.shape;
    var c := Coerce(schema, v, path, options).value;
    var w := Parse(schema, c).value;
    forall k | k in w.fields ensures k in shape && Stable(shape[k], w.fields[k], FieldPath(path, k), options) {
      if k in c.fields {
        SanitizedIsStable(shape[k], v.fields[k], FieldPath(path, k), options);
      } else {
        MissingStable(shape[k], FieldPath(path, k), options);
      }
    }
    assert Coerce(schema, w, path, options).Some?;
    assert Coerce(schema, w, path, options).value.fields == w.fields;
    ReparsedFields(schema, c, w);
  }

  /** Parsing an object's own output keeps every field and adds none. */
  lemma ReparsedFields(schema: Schema, c: Value, w: Value)
    requires schema.ObjectSchema? && Parse(schema, c) == Some(w)
    requires forall k :: k in w.fields ==> k in schema.shape && Parse(schema.shape[k], w.fields[k]) == Some(w.fields[k])
    ensures Parse(schema, w) == Some(w)
  {
    forall k | k in schema.shape
      ensures ParseField(schema.shape[k], w.fields, k)
           == Some(if k in w.fields then Some(w.fields[k]) else None)
    {
      assert ParseField(schema.shape[k], c.fields, k).Some?;
    }
    assert Parse(schema, w).value.fields == w.fields;
  }

  // ---- Whole calls ----

  const RAW_KEYS := ["_raw", "__raw", "raw"]

  /** `JSON.parse`, of which only this matters: a string inside the result is shorter than the text. */
  ghost predicate Shrinks(json: string -> Option<Value>) {
    forall text, k ::
      (&& json(text).Some? && json(text).value.Obj?
       && k in json(text).value.fields && json(text).value.fields[k].Str?)
      ==> |json(text).value.fields[k].text| < |text|
  }

  predicate IsEnvelope(fields: map<string, Value>, k: string) {
    k in fields && fields[k].Str? && |fields| <= 2
  }

  /** The first envelope key, if the record is a provider fallback. */
  function EnvelopeKey(fields: map<string, Value>): (r: Option<string>)
    ensures r.Some? ==> IsEnvelope(fields, r.value)
    ensures r.None? <==> forall i :: 0 <= i < |RAW_KEYS| ==> !IsEnvelope(fields, RAW_KEYS[i])
  {
    if IsEnvelope(fields, "_raw") then assert RAW_KEYS[0] == "_raw"; Some("_raw")
    else if IsEnvelope(fields, "__raw") then assert RAW_KEYS[1] == "__raw"; Some("__raw")
    else if IsEnvelope(fields, "raw") then assert RAW_KEYS[2] == "raw"; Some("raw")
    else None
  }

  function NormalizeText(text: string, json: string -> Option<Value>): Option<Value>
    requires Shrinks(json)
    decreases |text|
  {
    var trimmed := Trim(text);
    if trimmed == "" then Some(Obj(map[]))
    else
      match json(trimmed)
      case None => None
      case Some(Null) => Some(Obj(map[]))
      case Some(Obj(fields)) =>
        var k := EnvelopeKey(fields);
        if k.Some? then NormalizeText(fields[k.value].text, json) else Some(Obj(fields))
      case Some(_) => None
  }

  /** `normalizeRawArguments`; `None` is the invalid sentinel. */
  function Normalize(raw: Value, json: string -> Option<Value>): Option<Value>
    requires Shrinks(json)
  {
    match raw
    case Str(text) => NormalizeText(text, json)
    case Null => Some(Obj(map[]))
    case Obj(fields) =>
      var k := EnvelopeKey(fields);
      if k.Some? then NormalizeText(fields[k.value].text, json) else Some(raw)
    case _ => None
  }

  /** `sanitizeToolCall`: the validated arguments of an allowed call, or `None`. */
  function Sanitize(raw: Value, schema: Schema, options: Options, json: string -> Option<Value>): Option<Value>
    requires Shrinks(json)
  {
    var normalized := Normalize(raw, json);
    if normalized.None? then None
    else
      var coerced := Coerce(schema, normalized.value, "", options);
      if coerced.None? then None else Parse(schema, coerced.value)
  }

  /** A tool schema describes objects, none of whose fields is named like an envelope key. */
  predicate ToolSchema(schema: Schema)
    decreases schema
  {
    match schema
    case ObjectSchema(shape) => forall i :: 0 <= i < |RAW_KEYS| ==> RAW_KEYS[i] !in shape
    case OptionalSchema(inner) => ToolSchema(inner)
    case DefaultSchema(inner, _) => ToolSchema(inner)
    case RefinedSchema(inner, _) => ToolSchema(inner)
    case UnionSchema(members) => forall i :: 0 <= i < |members| ==> ToolSchema(members[i])
    case _ => false
  }

  lemma {:induction false} ToolOutputIsNoEnvelope(schema: Schema, c: Value)
    requires ToolSchema(schema) && Parse(schema, c).Some?
    ensures Parse(schema, c).value.Obj?
    ensures EnvelopeKey(Parse(schema, c).value.fields).None?
    decreases schema
  {
    match schema
    case ObjectSchema(_) =>
    case OptionalSchema(inner) => ToolOutputIsNoEnvelope(inner, c);
    case DefaultSchema(inner, _) => ToolOutputIsNoEnvelope(inner, c);
    case RefinedSchema(inner, _) => ToolOutputIsNoEnvelope(inner, c);
    case UnionSchema(members) =>
      var j := ParseFirstIndex(members, c);
      ToolOutputIsNoEnvelope(members[j], c);
  }

  /** A stable value that is no envelope passes through a whole sanitization unchanged. */
  lemma StablePasses(w: Value, schema: Schema, options: Options, json: string -> Option<Value>)
    requires Shrinks(json) && w.Obj? && EnvelopeKey(w.fields).None? && Stable(schema, w, "", options)
    ensures Sanitize(w, schema, options, json) == Some(w)
  {
    assert Normalize(w, json) == Some(w);
  }

  /** The registry's second pass changes nothing: sanitizing the validated arguments of an allowed
      call is allowed again and returns the same arguments. */
  lemma SecondPassChangesNothing(raw: Value, schema: Schema, options: Options, json: string -> Option<Value>)
    requires Shrinks(json) && ToolSchema(schema) && WellBehaved(schema, "", options)
    requires Sanitize(raw, schema, options, json).Some?
    ensures Sanitize(Sanitize(raw, schema, options, json).value, schema, options, json)
         == Sanitize(raw, schema, options, json)
  {
    var n := Normalize(raw, json).value;
    var c := Coerce(schema, n, "", options).value;
    var w := Parse(schema, c).value;
    SanitizedIsStable(schema, n, "", options);
    ToolOutputIsNoEnvelope(schema, c);
    StablePasses(w, schema, options, json);
  }

  // ---- Valid calls ----

  /** No text field whose name denotes a stroop amount, outside of unions. */
  ghost predicate NoStroopText(schema: Schema, path: string)
    decreases schema
  {
    match schema
    case StringSchema(_) => !IsStroopField(At(path))
    case ArraySchema(element, _) => forall i: nat :: NoStroopText(element, ItemPath(path, i))
    case ObjectSchema(shape) => forall k :: k in shape ==> NoStroopText(shape[k], FieldPath(path, k))
    case OptionalSchema(inner) => NoStroopText(inner, path)
    case DefaultSchema(inner, _) => NoStroopText(inner, path)
    case RefinedSchema(inner, _) => NoStroopText(inner, path)
    case _ => true
  }

  /** Coercion never harms a value the schema accepts as it is: it validates to the same result. */
  lemma {:induction false} ValidIsUnharmed(schema: Schema, v: Value, path: string, options: Options)
    requires NoStroopText(schema, path) && Parse(schema, v).Some?
    ensures Coerce(schema, v, path, options).Some?
    ensures Parse(schema, Coerce(schema, v, path, options).value) == Parse(schema, v)
    decreases schema
  {
    match schema
    case ArraySchema(element, _) =>
      forall i | 0 <= i < |v.items|
        ensures Coerce(element, v.items[i], ItemPath(path, i), options).Some?
        ensures Parse(element, Coerce(element, v.items[i], ItemPath(path, i), options).value)
             == Parse(element, v.items[i])
      {
        ValidIsUnharmed(element, v.items[i], ItemPath(path, i), options);
      }
      var c := Coerce(schema, v, path, options).value;
      assert Parse(schema, c).Some?;
      assert Parse(schema, c).value.items == Parse(schema, v).value.items;
    case ObjectSchema(shape) =>
      forall k | k in shape && k in v.fields
        ensures Coerce(shape[k], v.fields[k], FieldPath(path, k), options).Some?
        ensures Parse(shape[k], Coerce(shape[k], v.fields[k], FieldPath(path, k), options).value)
             == Parse(shape[k], v.fields[k])
      {
        assert ParseField(shape[k], v.fields, k).Some?;
        ValidIsUnharmed(shape[k], v.fields[k], FieldPath(path, k), options);
      }
      SameFieldsSameParse(schema, v, Coerce(schema, v, path, options).value);
    case OptionalSchema(inner) => ValidIsUnharmed(inner, v, path, options);
    case DefaultSchema(inner, _) => ValidIsUnharmed(inner, v, path, options);
    case RefinedSchema(inner, _) => ValidIsUnharmed(inner, v, path, options);
    case _ =>
  }

  /** Objects that agree field by field, as far as the schema looks, validate alike. */
  lemma SameFieldsSameParse(schema: Schema, v: Value, c: Value)
    requires schema.ObjectSchema? && v.Obj? && c.Obj? && Parse(schema, v).Some?
    requires forall k :: k in schema.shape ==> (k in c.fields <==> k in v.fields)
    requires forall k :: k in schema.shape && k in v.fields ==>
      Parse(schema.shape[k], c.fields[k]) == Parse(schema.shape[k], v.fields[k])
    ensures Parse(schema, c) == Parse(schema, v)
  {
    forall k | k in schema.shape
      ensures ParseField(schema.shape[k], c.fields, k) == ParseField(schema.shape[k], v.fields, k)
    {
    }
    assert Parse(schema, c).Some?;
    assert Parse(schema, c).value.fields == Parse(schema, v).value.fields;
  }
}

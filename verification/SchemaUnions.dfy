/** Unions in tool schemas: when validating a union twice is validating it once
    (agents/src/tools/sanitization.ts, which leaves unions to Zod's safeParse). */
module SchemaUnions {
  import opened Text
  import opened Sanitizer

  /** Sanitizing at this schema is idempotent on accepted values. */
  ghost predicate Idempotent(schema: Schema, path: string, options: Options) {
    forall v ::
      var c := Coerce(schema, v, path, options);
      c.Some? && Parse(schema, c.value).Some? ==> Stable(schema, Parse(schema, c.value).value, path, options)
  }

  /** A union is sanitized idempotently exactly when its validation alone is idempotent. */
  lemma UnionExact(members: seq<Schema>, path: string, options: Options)
    ensures Idempotent(UnionSchema(members), path, options) <==> UnionAgrees(members)
  {
    var union := UnionSchema(members);
    if Idempotent(union, path, options) {
      forall c | ParseFirst(members, c).Some?
        ensures ParseFirst(members, ParseFirst(members, c).value) == ParseFirst(members, c)
      {
        assert Coerce(union, c, path, options) == Some(c);
        assert Stable(union, Parse(union, c).value, path, options);
      }
    }
    if UnionAgrees(members) {
      forall v | Coerce(union, v, path, options).Some? && Parse(union, Coerce(union, v, path, options).value).Some?
        ensures Stable(union, Parse(union, Coerce(union, v, path, options).value).value, path, options)
      {
        var c := Coerce(union, v, path, options).value;
        assert ParseFirst(members, ParseFirst(members, c).value) == ParseFirst(members, c);
      }
      assert Idempotent(union, path, options);
    }
  }

  /** Schemas whose validation never rewrites a value: no object, so nothing to strip or fill in. */
  predicate Rigid(schema: Schema)
    decreases schema
  {
    match schema
    case ArraySchema(element, _) => Rigid(element)
    case ObjectSchema(_) => false
    case OptionalSchema(inner) => Rigid(inner)
    case DefaultSchema(inner, _) => Rigid(inner)
    case RefinedSchema(inner, _) => Rigid(inner)
    case UnionSchema(members) => forall i :: 0 <= i < |members| ==> Rigid(members[i])
    case _ => true
  }

  lemma {:induction false} RigidKeeps(schema: Schema, v: Value)
    requires Rigid(schema) && Parse(schema, v).Some?
    ensures Parse(schema, v) == Some(v)
    decreases schema
  {
    match schema
    case ArraySchema(element, _) =>
      forall i | 0 <= i < |v.items| ensures Parse(element, v.items[i]) == Some(v.items[i]) {
        RigidKeeps(element, v.items[i]);
      }
      assert Parse(schema, v).value.items == v.items;
    case OptionalSchema(inner) => RigidKeeps(inner, v);
    case DefaultSchema(inner, _) => RigidKeeps(inner, v);
    case RefinedSchema(inner, _) => RigidKeeps(inner, v);
    case UnionSchema(members) =>
      var j := ParseFirstIndex(members, v);
      RigidKeeps(members[j], v);
    case _ =>
  }

  /** Unions of scalars and of arrays of them always agree. */
  lemma RigidUnionAgrees(members: seq<Schema>)
    requires forall i :: 0 <= i < |members| ==> Rigid(members[i])
    ensures UnionAgrees(members)
  {
    forall c | ParseFirst(members, c).Some?
      ensures ParseFirst(members, ParseFirst(members, c).value) == ParseFirst(members, c)
    {
      var j := ParseFirstIndex(members, c);
      RigidKeeps(members[j], c);
    }
  }

  lemma {:induction false} RigidMissing(schema: Schema, w: Value)
    requires Rigid(schema) && Missing(schema) == Some(Some(w))
    ensures Parse(schema, w) == Some(w)
    decreases schema
  {
    match schema
    case DefaultSchema(inner, fallback) => RigidKeeps(inner, fallback);
    case RefinedSchema(inner, _) => RigidMissing(inner, w);
    case UnionSchema(members) =>
      var j := MissingFirstIndex(members);
      RigidMissing(members[j], w);
      FirstAccepts(members, w, j);
      RigidKeeps(schema, w);
  }

  lemma {:induction false} MissingFirstIndex(members: seq<Schema>) returns (j: nat)
    requires MissingFirst(members).Some?
    ensures j < |members| && Missing(members[j]) == MissingFirst(members)
  {
    if Missing(members[0]).Some? {
      j := 0;
    } else {
      j := MissingFirstIndex(members[1..]);
      j := j + 1;
    }
  }

  lemma {:induction false} FirstAccepts(members: seq<Schema>, w: Value, j: nat)
    requires j < |members| && Parse(members[j], w).Some?
    ensures ParseFirst(members, w).Some?
  {
    if j > 0 {
      FirstAccepts(members[1..], w, j - 1);
    }
  }

  /** A value that the `j`-th member keeps and no earlier member rewrites is kept by the union. */
  lemma {:induction false} FirstKeeps(members: seq<Schema>, w: Value, j: nat)
    requires j < |members| && Parse(members[j], w) == Some(w)
    requires forall i :: 0 <= i < j ==> Parse(members[i], w).None? || Parse(members[i], w) == Some(w)
    ensures ParseFirst(members, w) == Some(w)
  {
    if j > 0 {
      forall i | 0 <= i < j - 1
        ensures Parse(members[1..][i], w).None? || Parse(members[1..][i], w) == Some(w)
      {
        assert members[1..][i] == members[i + 1];
      }
      FirstKeeps(members[1..], w, j - 1);
    }
  }

  // ---- Members that keep apart ----

  datatype Kind = NumberKind | TextKind | BoolKind | BigKind | ArrayKind | ObjectKind | AnyKind

  function KindOf(schema: Schema): Kind {
    match schema
    case NumberSchema(_, _) => NumberKind
    case StringSchema(_) => TextKind
    case BoolSchema => BoolKind
    case BigSchema(_) => BigKind
    case ArraySchema(_, _) => ArrayKind
    case ObjectSchema(_) => ObjectKind
    case _ => AnyKind
  }

  /** Validated values have the kind of their schema. */
  lemma ParsedKind(schema: Schema, v: Value)
    requires Parse(schema, v).Some?
    ensures var w := Parse(schema, v).value;
      match KindOf(schema)
      case NumberKind => v.Num? && w.Num?
      case TextKind => v.Str? && w.Str?
      case BoolKind => v.Bool? && w.Bool?
      case BigKind => v.Big? && w.Big?
      case ArrayKind => v.Arr? && w.Arr?
      case ObjectKind => v.Obj? && w.Obj?
      case AnyKind => true
  {
  }

  predicate KindsDiffer(a: Schema, b: Schema) {
    KindOf(a) != AnyKind && KindOf(b) != AnyKind && KindOf(a) != KindOf(b)
  }

  ghost predicate NoCommonValue(a: Schema, b: Schema) {
    forall v :: Parse(a, v).None? || Parse(b, v).None?
  }

  /** Schemas that pass on what their inner schema lets through. */
  predicate Wrapper(schema: Schema) {
    schema.OptionalSchema? || schema.DefaultSchema? || schema.RefinedSchema?
  }

  /** What `b` lets through, `a` rejects: they are of different kinds, or literals and scalars without a
      common value, or objects that share a field, always present in `b`, whose schemas keep apart. */
  ghost predicate Apart(a: Schema, b: Schema)
    decreases a, b
  {
    if Wrapper(a) then Apart(a.inner, b)
    else if Wrapper(b) then Apart(a, b.inner)
    else
      || KindsDiffer(a, b)
      || (Rigid(a) && Rigid(b) && NoCommonValue(a, b))
      || (&& a.ObjectSchema? && b.ObjectSchema?
          && exists k :: k in a.shape && k in b.shape && ApartAt(a, b, k))
  }

  ghost predicate ApartAt(a: Schema, b: Schema, k: string)
    requires a.ObjectSchema? && b.ObjectSchema? && k in a.shape && k in b.shape
    decreases a, b, 0
  {
    Missing(b.shape[k]) != Some(None) && Apart(a.shape[k], b.shape[k])
  }

  lemma KindsReject(a: Schema, b: Schema, v: Value)
    requires KindsDiffer(a, b) && Parse(b, v).Some?
    ensures Parse(a, Parse(b, v).value).None?
  {
    hide Parse;
    var w := Parse(b, v).value;
    ParsedKind(b, v);
    if Parse(a, w).Some? {
      ParsedKind(a, w);
    }
  }

  /** One field that is always present and never accepted is enough to reject an object. */
  lemma FieldRejects(a: Schema, b: Schema, v: Value, k: string)
    requires a.ObjectSchema? && b.ObjectSchema? && Parse(b, v).Some? && k in a.shape && k in b.shape
    requires Missing(b.shape[k]) != Some(None)
    requires v.Obj? && k in v.fields && Parse(b.shape[k], v.fields[k]).Some? ==>
      Parse(a.shape[k], Parse(b.shape[k], v.fields[k]).value).None?
    requires v.Obj? && k !in v.fields && Missing(b.shape[k]).Some? && Missing(b.shape[k]).value.Some? ==>
      Parse(a.shape[k], Missing(b.shape[k]).value.value).None?
    ensures Parse(a, Parse(b, v).value).None?
  {
    var w := Parse(b, v).value;
    assert ParseField(b.shape[k], v.fields, k).Some?;
    assert ParseField(a.shape[k], w.fields, k).None?;
  }

  lemma {:induction false} ApartRejects(a: Schema, b: Schema, v: Value)
    requires Apart(a, b) && Parse(b, v).Some?
    ensures Parse(a, Parse(b, v).value).None?
    decreases a, b, 1
  {
    if Wrapper(a) {
      ApartRejects(a.inner, b, v);
    } else if Wrapper(b) {
      ApartRejects(a, b.inner, v);
    } else if KindsDiffer(a, b) {
      KindsReject(a, b, v);
    } else if Rigid(a) && Rigid(b) && NoCommonValue(a, b) {
      RigidKeeps(b, v);
    } else {
      var k :| k in a.shape && k in b.shape && ApartAt(a, b, k);
      ApartFieldRejects(a, b, v, k);
    }
  }

  lemma {:induction false} ApartFieldRejects(a: Schema, b: Schema, v: Value, k: string)
    requires a.ObjectSchema? && b.ObjectSchema? && Parse(b, v).Some?
    requires k in a.shape && k in b.shape && ApartAt(a, b, k)
    ensures Parse(a, Parse(b, v).value).None?
    decreases a, b, 0
  {
    hide Parse;
    ParsedKind(b, v);
    if k in v.fields && Parse(b.shape[k], v.fields[k]).Some? {
      ApartRejects(a.shape[k], b.shape[k], v.fields[k]);
    }
    if Missing(b.shape[k]).Some? && Missing(b.shape[k]).value.Some? {
      ApartRejectsFillIn(a.shape[k], b.shape[k], Missing(b.shape[k]).value.value);
    }
    FieldRejects(a, b, v, k);
  }

  lemma {:induction false} ApartRejectsFillIn(a: Schema, b: Schema, w: Value)
    requires Apart(a, b) && Missing(b) == Some(Some(w))
    ensures Parse(a, w).None?
    decreases a, b, 2
  {
    if Wrapper(a) {
      ApartRejectsFillIn(a.inner, b, w);
    } else if b.DefaultSchema? {
      ApartRejects(a, b.inner, b.fallback);
    } else if b.RefinedSchema? {
      ApartRejectsFillIn(a, b.inner, w);
    } else {
      RigidMissing(b, w);
    }
  }

  // ---- Validation is idempotent ----

  /** Of two members of a union, the earlier one takes what the later one lets through only to keep it
      as it is, or not at all. */
  ghost predicate Separated(members: seq<Schema>) {
    forall i, j :: 0 <= i < j < |members| ==> Rigid(members[i]) || Apart(members[i], members[j])
  }

  /** The members of every union in the schema are separated. */
  ghost predicate Settled(schema: Schema)
    decreases schema
  {
    match schema
    case ArraySchema(element, _) => Settled(element)
    case ObjectSchema(shape) => forall k :: k in shape ==> Settled(shape[k])
    case OptionalSchema(inner) => Settled(inner)
    case DefaultSchema(inner, _) => Settled(inner)
    case RefinedSchema(inner, _) => Settled(inner)
    case UnionSchema(members) =>
      Separated(members) && forall i :: 0 <= i < |members| ==> Settled(members[i])
    case _ => true
  }

  /** Validating a validated value again changes nothing. */
  lemma {:induction false} ParseIdempotent(schema: Schema, v: Value)
    requires Settled(schema) && Parse(schema, v).Some?
    ensures Parse(schema, Parse(schema, v).value) == Parse(schema, v)
    decreases schema, 1
  {
    var w := Parse(schema, v).value;
    match schema
    case ArraySchema(element, _) =>
      forall i | 0 <= i < |w.items| ensures Parse(element, w.items[i]) == Some(w.items[i]) {
        ParseIdempotent(element, v.items[i]);
      }
      assert Parse(schema, w).value.items == w.items;
    case ObjectSchema(shape) =>
      forall k | k in w.fields ensures k in shape && Parse(shape[k], w.fields[k]) == Some(w.fields[k]) {
        if k in v.fields {
          ParseIdempotent(shape[k], v.fields[k]);
        } else {
          FillInIdempotent(shape[k], w.fields[k]);
        }
      }
      ReparsedFields(schema, v, w);
    case OptionalSchema(inner) => ParseIdempotent(inner, v);
    case DefaultSchema(inner, _) => ParseIdempotent(inner, v);
    case RefinedSchema(inner, _) => ParseIdempotent(inner, v);
    case UnionSchema(members) =>
      var j := ParseFirstIndex(members, v);
      ParseIdempotent(members[j], v);
      forall i | 0 <= i < j ensures Parse(members[i], w).None? || Parse(members[i], w) == Some(w) {
        if Rigid(members[i]) {
          if Parse(members[i], w).Some? {
            RigidKeeps(members[i], w);
          }
        } else {
          ApartRejects(members[i], members[j], v);
        }
      }
      FirstKeeps(members, w, j);
    case _ =>
  }

  /** So does validating what was filled in for a missing field. */
  lemma {:induction false} FillInIdempotent(schema: Schema, w: Value)
    requires Settled(schema) && Missing(schema) == Some(Some(w))
    ensures Parse(schema, w) == Some(w)
    decreases schema, 2
  {
    match schema
    case DefaultSchema(inner, fallback) => ParseIdempotent(inner, fallback);
    case RefinedSchema(inner, _) => FillInIdempotent(inner, w);
    case UnionSchema(members) =>
      var j := MissingFirstIndex(members);
      FillInIdempotent(members[j], w);
      forall i | 0 <= i < j ensures Parse(members[i], w).None? || Parse(members[i], w) == Some(w) {
        if Rigid(members[i]) {
          if Parse(members[i], w).Some? {
            RigidKeeps(members[i], w);
          }
        } else {
          ApartRejectsFillIn(members[i], members[j], w);
        }
      }
      FirstKeeps(members, w, j);
  }

  /** Separated members make a union that agrees with itself. */
  lemma SeparatedUnionAgrees(members: seq<Schema>)
    requires Settled(UnionSchema(members))
    ensures UnionAgrees(members) && FillInAgrees(members)
  {
    var union := UnionSchema(members);
    forall c | ParseFirst(members, c).Some?
      ensures ParseFirst(members, ParseFirst(members, c).value) == ParseFirst(members, c)
    {
      ParseIdempotent(union, c);
      assert Parse(union, c) == ParseFirst(members, c);
      assert Parse(union, Parse(union, c).value) == ParseFirst(members, Parse(union, c).value);
    }
    var filled := MissingFirst(members);
    if filled.Some? && filled.value.Some? {
      FillInIdempotent(union, filled.value.value);
    }
  }

  /** Defaults are stable where they are used. */
  ghost predicate DefaultsStable(schema: Schema, path: string, options: Options)
    decreases schema
  {
    match schema
    case ArraySchema(element, _) => forall i: nat :: DefaultsStable(element, ItemPath(path, i), options)
    case ObjectSchema(shape) => forall k :: k in shape ==> DefaultsStable(shape[k], FieldPath(path, k), options)
    case OptionalSchema(inner) => DefaultsStable(inner, path, options)
    case DefaultSchema(inner, fallback) =>
      DefaultsStable(inner, path, options) && Stable(inner, fallback, path, options)
    case RefinedSchema(inner, _) => DefaultsStable(inner, path, options)
    case UnionSchema(members) => forall i :: 0 <= i < |members| ==> DefaultsStable(members[i], path, options)
    case _ => true
  }

  lemma {:induction false} SettledIsWellBehaved(schema: Schema, path: string, options: Options)
    requires Settled(schema) && DefaultsStable(schema, path, options)
    ensures WellBehaved(schema, path, options)
    decreases schema
  {
    match schema
    case ArraySchema(element, _) =>
      forall i: nat ensures WellBehaved(element, ItemPath(path, i), options) {
        SettledIsWellBehaved(element, ItemPath(path, i), options);
      }
    case ObjectSchema(shape) =>
      forall k | k in shape ensures WellBehaved(shape[k], FieldPath(path, k), options) {
        SettledIsWellBehaved(shape[k], FieldPath(path, k), options);
      }
    case OptionalSchema(inner) => SettledIsWellBehaved(inner, path, options);
    case DefaultSchema(inner, _) => SettledIsWellBehaved(inner, path, options);
    case RefinedSchema(inner, _) => SettledIsWellBehaved(inner, path, options);
    case UnionSchema(members) =>
      SeparatedUnionAgrees(members);
      forall i | 0 <= i < |members| ensures WellBehaved(members[i], path, options) {
        SettledIsWellBehaved(members[i], path, options);
      }
    case _ =>
  }

  /** The registry's second pass changes nothing for a tool schema whose unions keep their members
      apart and whose defaults are stable. */
  lemma SettledSecondPass(raw: Value, schema: Schema, options: Options, json: string -> Option<Value>)
    requires Shrinks(json) && ToolSchema(schema) && Settled(schema) && DefaultsStable(schema, "", options)
    requires Sanitize(raw, schema, options, json).Some?
    ensures Sanitize(Sanitize(raw, schema, options, json).value, schema, options, json)
         == Sanitize(raw, schema, options, json)
  {
    SettledIsWellBehaved(schema, "", options);
    SecondPassChangesNothing(raw, schema, options, json);
  }

  /** Objects told apart by a literal field are separated, whatever their other fields are. */
  lemma TaggedObjectsSeparated(members: seq<Schema>, field: string, tags: seq<Value>)
    requires |tags| == |members| && forall i, j :: 0 <= i < j < |tags| ==> tags[i] != tags[j]
    requires forall i :: 0 <= i < |members| ==>
      && members[i].ObjectSchema? && field in members[i].shape && members[i].shape[field].Untouched?
      && forall x :: members[i].shape[field].accepts(x) <==> x == Some(tags[i])
    ensures Separated(members)
  {
    forall i, j | 0 <= i < j < |members| ensures Apart(members[i], members[j]) {
      var a, b := members[i], members[j];
      assert NoCommonValue(a.shape[field], b.shape[field]);
      assert ApartAt(a, b, field);
    }
  }

  // ---- Unions of flat objects, exactly ----

  /** Fields that validation keeps as they are and never fills in. */
  predicate Flat(shape: map<string, Schema>) {
    forall k :: k in shape ==>
      Rigid(shape[k]) && (Missing(shape[k]).None? || Missing(shape[k]) == Some(None))
  }

  predicate MayLack(schema: Schema) {
    Missing(schema) == Some(None)
  }

  /** A value that one schema, or both, accept. */
  ghost predicate Accepts(schema: Schema, v: Value) {
    Parse(schema, v).Some?
  }

  ghost predicate Inhabited(schema: Schema) {
    exists v :: Accepts(schema, v)
  }

  ghost predicate Agreeable(a: Schema, b: Schema) {
    exists v :: Accepts(a, v) && Accepts(b, v)
  }

  ghost predicate Rejecting(schema: Schema) {
    exists v :: !Accepts(schema, v)
  }

  /** The later object `b` can hand a value over to the earlier `a`, which strips it: `a` has a field of
      its own that can be wrong, may lack all of its own fields, agrees with `b` on the shared ones, and
      does not know some field of `b`. */
  ghost predicate HandsOver(a: map<string, Schema>, b: map<string, Schema>) {
    && (exists k :: k in a && k !in b && Rejecting(a[k]))
    && (forall k :: k in a && k !in b ==> MayLack(a[k]))
    && (forall k :: k in a && k in b ==> Agreeable(a[k], b[k]) || (MayLack(a[k]) && MayLack(b[k])))
    && (exists k :: k in b && k !in a && Inhabited(b[k]))
    && (forall k :: k in b && k !in a ==> Inhabited(b[k]) || MayLack(b[k]))
  }

  /** An object's validation, field by field. */
  lemma ParseObjectIs(shape: map<string, Schema>, fields: map<string, Value>, out: map<string, Value>)
    requires forall k :: k in out ==> k in shape
    requires forall k :: k in shape ==>
      ParseField(shape[k], fields, k) == Some(if k in out then Some(out[k]) else None)
    ensures Parse(ObjectSchema(shape), Obj(fields)) == Some(Obj(out))
  {
    var r := Parse(ObjectSchema(shape), Obj(fields));
    assert r.Some?;
    assert r.value.fields == out;
  }

  /** A flat object keeps exactly the fields it knows. */
  lemma FlatParse(shape: map<string, Schema>, fields: map<string, Value>)
    requires Flat(shape) && Parse(ObjectSchema(shape), Obj(fields)).Some?
    ensures Parse(ObjectSchema(shape), Obj(fields)) == Some(Obj(map k | k in shape && k in fields :: fields[k]))
    ensures forall k :: k in shape && k in fields ==> Accepts(shape[k], fields[k])
    ensures forall k :: k in shape && k !in fields ==> MayLack(shape[k])
  {
    var out := map k | k in shape && k in fields :: fields[k];
    forall k | k in shape
      ensures ParseField(shape[k], fields, k) == Some(if k in out then Some(out[k]) else None)
      ensures k in fields ==> Accepts(shape[k], fields[k])
      ensures k !in fields ==> MayLack(shape[k])
    {
      assert ParseField(shape[k], fields, k).Some?;
      if k in fields {
        RigidKeeps(shape[k], fields[k]);
      }
    }
    ParseObjectIs(shape, fields, out);
  }

  /** When an earlier object rewrites what a later one let through, the shapes are of that form. */
  lemma RewrittenMeansHandsOver(a: map<string, Schema>, b: map<string, Schema>, c: map<string, Value>)
    requires Flat(a) && Flat(b)
    requires Parse(ObjectSchema(a), Obj(c)).None? && Parse(ObjectSchema(b), Obj(c)).Some?
    requires var w := Parse(ObjectSchema(b), Obj(c)).value;
      Parse(ObjectSchema(a), w).Some? && Parse(ObjectSchema(a), w) != Some(w)
    ensures HandsOver(a, b)
  {
    FlatParse(b, c);
    var w := Parse(ObjectSchema(b), Obj(c)).value.fields;
    FlatParse(a, w);
    assert exists k :: k in a && k !in b && Rejecting(a[k]) by {
      var k :| k in a && ParseField(a[k], c, k).None?;
      assert k !in b && !Accepts(a[k], c[k]);
    }
    assert exists k :: k in b && k !in a && Inhabited(b[k]) by {
      assert Parse(ObjectSchema(a), Obj(w)).value.fields != w;
      var k :| k in w && k !in a;
      assert Accepts(b[k], c[k]);
    }
    forall k | k in a && k in b ensures Agreeable(a[k], b[k]) || (MayLack(a[k]) && MayLack(b[k])) {
      if k in c {
        assert Accepts(a[k], w[k]) && Accepts(b[k], w[k]);
      }
    }
    forall k | k in b && k !in a ensures Inhabited(b[k]) || MayLack(b[k]) {
      assert k in c ==> Accepts(b[k], c[k]);
    }
  }

  /** The value of a field that `b` lets through and, where it knows the field, `a` as well. */
  ghost function Shared(a: map<string, Schema>, b: map<string, Schema>, k: string): (r: Option<Value>)
    requires k in b
    ensures r.Some? ==> Accepts(b[k], r.value) && (k in a ==> Accepts(a[k], r.value))
    ensures r.None? ==> if k in a then !Agreeable(a[k], b[k]) else !Inhabited(b[k])
  {
    if k in a then
      if v :| Accepts(a[k], v) && Accepts(b[k], v) then Some(v) else None
    else
      if v :| Accepts(b[k], v) then Some(v) else None
  }

  lemma PairFirst(a: Schema, b: Schema, v: Value)
    ensures ParseFirst([a, b], v) == if Parse(a, v).Some? then Parse(a, v) else Parse(b, v)
  {
    assert [a, b][1..] == [b] && [b][1..] == [];
    assert ParseFirst([b], v) == Parse(b, v);
  }

  /** All fields that `b` can be given without upsetting `a`. */
  ghost function SharedFields(a: map<string, Schema>, b: map<string, Schema>): map<string, Value> {
    map k | k in b && Shared(a, b, k).Some? :: Shared(a, b, k).value
  }

  function Restrict(fields: map<string, Value>, shape: map<string, Schema>): map<string, Value> {
    map k | k in shape && k in fields :: fields[k]
  }

  lemma LaterLetsThrough(a: map<string, Schema>, b: map<string, Schema>, own: string, wrong: Value)
    requires Flat(b) && HandsOver(a, b) && own !in b
    ensures Parse(ObjectSchema(b), Obj(SharedFields(a, b)[own := wrong])) == Some(Obj(SharedFields(a, b)))
  {
    hide Parse;
    var fields := SharedFields(a, b);
    var given := fields[own := wrong];
    forall k | k in b ensures ParseField(b[k], given, k) == Some(if k in fields then Some(fields[k]) else None) {
      if k in fields {
        RigidKeeps(b[k], fields[k]);
      } else {
        assert MayLack(b[k]);
      }
    }
    ParseObjectIs(b, given, fields);
  }

  lemma EarlierStrips(a: map<string, Schema>, b: map<string, Schema>)
    requires Flat(a) && HandsOver(a, b)
    ensures Parse(ObjectSchema(a), Obj(SharedFields(a, b))) == Some(Obj(Restrict(SharedFields(a, b), a)))
  {
    hide Parse;
    var fields := SharedFields(a, b);
    var kept := Restrict(fields, a);
    forall k | k in a ensures ParseField(a[k], fields, k) == Some(if k in kept then Some(kept[k]) else None) {
      if k in fields {
        RigidKeeps(a[k], fields[k]);
      } else {
        assert MayLack(a[k]);
      }
    }
    ParseObjectIs(a, fields, kept);
  }

  lemma WrongFieldIsRejected(a: map<string, Schema>, fields: map<string, Value>, k: string)
    requires k in a && k in fields && !Accepts(a[k], fields[k])
    ensures Parse(ObjectSchema(a), Obj(fields)).None?
  {
    assert ParseField(a[k], fields, k).None?;
  }

  lemma SomeFieldIsUnknown(a: map<string, Schema>, b: map<string, Schema>)
    requires HandsOver(a, b)
    ensures Restrict(SharedFields(a, b), a) != SharedFields(a, b)
  {
    var k :| k in b && k !in a && Inhabited(b[k]);
    assert k in SharedFields(a, b) && k !in Restrict(SharedFields(a, b), a);
  }

  /** Shapes of that form have a value that the second pass strips further. */
  lemma HandedOverIsRewritten(a: map<string, Schema>, b: map<string, Schema>) returns (c: Value, w: Value)
    requires Flat(a) && Flat(b) && HandsOver(a, b)
    ensures ParseFirst([ObjectSchema(a), ObjectSchema(b)], c) == Some(w)
    ensures ParseFirst([ObjectSchema(a), ObjectSchema(b)], w) != Some(w)
  {
    hide Parse, ParseFirst, SharedFields, Flat;
    var own :| own in a && own !in b && Rejecting(a[own]);
    var wrong :| !Accepts(a[own], wrong);
    var fields := SharedFields(a, b);
    LaterLetsThrough(a, b, own, wrong);
    WrongFieldIsRejected(a, fields[own := wrong], own);
    EarlierStrips(a, b);
    SomeFieldIsUnknown(a, b);
    c, w := Obj(fields[own := wrong]), Obj(fields);
    PairFirst(ObjectSchema(a), ObjectSchema(b), c);
    PairFirst(ObjectSchema(a), ObjectSchema(b), w);
  }

  function Objects(shapes: seq<map<string, Schema>>): (members: seq<Schema>)
    ensures |members| == |shapes|
    ensures forall i :: 0 <= i < |shapes| ==> members[i] == ObjectSchema(shapes[i])
  {
    seq(|shapes|, i requires 0 <= i < |shapes| => ObjectSchema(shapes[i]))
  }

  /** Flat objects of which none can hand a value over to an earlier one make a union that agrees. */
  lemma FlatUnionAgrees(shapes: seq<map<string, Schema>>)
    requires forall i :: 0 <= i < |shapes| ==> Flat(shapes[i])
    requires forall i, j :: 0 <= i < j < |shapes| ==> !HandsOver(shapes[i], shapes[j])
    ensures UnionAgrees(Objects(shapes))
  {
    var members := Objects(shapes);
    forall c | ParseFirst(members, c).Some?
      ensures ParseFirst(members, ParseFirst(members, c).value) == ParseFirst(members, c)
    {
      var j := ParseFirstIndex(members, c);
      var w := Parse(members[j], c).value;
      FlatIsSettled(shapes[j]);
      ParseIdempotent(members[j], c);
      forall i | 0 <= i < j ensures Parse(members[i], w).None? || Parse(members[i], w) == Some(w) {
        if Parse(members[i], w).Some? && Parse(members[i], w) != Some(w) {
          RewrittenMeansHandsOver(shapes[i], shapes[j], c.fields);
        }
      }
      FirstKeeps(members, w, j);
    }
  }

  lemma FlatIsSettled(shape: map<string, Schema>)
    requires Flat(shape)
    ensures Settled(ObjectSchema(shape))
  {
    forall k | k in shape ensures Settled(shape[k]) {
      RigidIsSettled(shape[k]);
    }
  }

  lemma {:induction false} RigidIsSettled(schema: Schema)
    requires Rigid(schema)
    ensures Settled(schema)
    decreases schema
  {
    match schema
    case ArraySchema(element, _) => RigidIsSettled(element);
    case OptionalSchema(inner) => RigidIsSettled(inner);
    case DefaultSchema(inner, _) => RigidIsSettled(inner);
    case RefinedSchema(inner, _) => RigidIsSettled(inner);
    case UnionSchema(members) =>
      forall i | 0 <= i < |members| ensures Settled(members[i]) {
        RigidIsSettled(members[i]);
      }
    case _ =>
  }

  /** A union of two flat objects is sanitized idempotently exactly when the later one cannot hand a
      value over to the earlier one. */
  lemma FlatPairExact(a: map<string, Schema>, b: map<string, Schema>, path: string, options: Options)
    requires Flat(a) && Flat(b)
    ensures Idempotent(UnionSchema([ObjectSchema(a), ObjectSchema(b)]), path, options) <==> !HandsOver(a, b)
  {
    hide *;
    var members := [ObjectSchema(a), ObjectSchema(b)];
    UnionExact(members, path, options);
    if HandsOver(a, b) {
      var c, w := HandedOverIsRewritten(a, b);
      if UnionAgrees(members) {
        UseUnionAgrees(members, c);
      }
    } else {
      PairAgrees(a, b);
    }
  }

  lemma UseUnionAgrees(members: seq<Schema>, c: Value)
    requires UnionAgrees(members) && ParseFirst(members, c).Some?
    ensures ParseFirst(members, ParseFirst(members, c).value) == ParseFirst(members, c)
  {
  }

  lemma PairAgrees(a: map<string, Schema>, b: map<string, Schema>)
    requires Flat(a) && Flat(b) && !HandsOver(a, b)
    ensures UnionAgrees([ObjectSchema(a), ObjectSchema(b)])
  {
    hide Flat, HandsOver, UnionAgrees;
    FlatUnionAgrees([a, b]);
    assert Objects([a, b]) == [ObjectSchema(a), ObjectSchema(b)];
  }

  /** A union of two objects: the first wants an optional text `a`, the second a number `b`. */
  function NoteOrCount(): seq<Schema> {
    [ ObjectSchema(map["a" := OptionalSchema(StringSchema(_ => true))]),
      ObjectSchema(map["b" := NumberSchema(false, _ => true)]) ]
  }

  lemma CountTakesStripped(given: Value, once: Value)
    requires given == Obj(map["a" := Num(5.0), "b" := Num(1.0)]) && once == Obj(map["b" := Num(1.0)])
    ensures ParseFirst(NoteOrCount(), given) == Some(once)
  {
    hide ParseFirst;
    var note, count := NoteOrCount()[0], NoteOrCount()[1];
    assert !Accepts(note.shape["a"], given.fields["a"]);
    WrongFieldIsRejected(note.shape, given.fields, "a");
    assert ParseField(count.shape["b"], given.fields, "b") == Some(Some(Num(1.0)));
    ParseObjectIs(count.shape, given.fields, once.fields);
    PairFirst(note, count, given);
  }

  lemma NoteTakesRest(once: Value)
    requires once == Obj(map["b" := Num(1.0)])
    ensures ParseFirst(NoteOrCount(), once) == Some(Obj(map[]))
  {
    var note := NoteOrCount()[0];
    assert ParseField(note.shape["a"], once.fields, "a") == Some(None);
    assert Parse(note, once).value.fields == map[];
  }

  /** Stripping can hand a value from a later member to an earlier one, which strips it further: the
      first pass gives `{b: 1}`, the second `{}`. */
  lemma StrippingUnionDisagrees()
    ensures var given := Obj(map["a" := Num(5.0), "b" := Num(1.0)]);
      && ParseFirst(NoteOrCount(), given) == Some(Obj(map["b" := Num(1.0)]))
      && ParseFirst(NoteOrCount(), Obj(map["b" := Num(1.0)])) == Some(Obj(map[]))
      && !UnionAgrees(NoteOrCount())
  {
    hide ParseFirst, NoteOrCount;
    var given, once := Obj(map["a" := Num(5.0), "b" := Num(1.0)]), Obj(map["b" := Num(1.0)]);
    CountTakesStripped(given, once);
    NoteTakesRest(once);
    assert "b" in once.fields;
  }
}

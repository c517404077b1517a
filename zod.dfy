/**
 * The part of the zod validation library the forms use: string schemas with
 * `.min`/`.max` bounds and a normalising `.transform`, object schemas that
 * parse every field of a submitted form, an optional `.refine` that compares
 * two fields, and `error.flatten()`.
 *
 * A form is what `Object.fromEntries(formData.entries())` produces: a map from
 * field name to the submitted text. A field that was not submitted is absent.
 */
module Zod {
  import opened Wrappers
  import JsString

  type Form = map<string, string>

  /** The `.transform` applied after the bounds pass. */
  datatype Transform = Keep | TrimOnly | LowerTrim

  /** `z.string().min(min, tooShort).max(max, tooLong).transform(...)`; `max == None` means no upper bound. */
  datatype StringSchema = StringSchema(min: nat, max: Option<nat>, tooShort: string, tooLong: string, transform: Transform)

  datatype Field = Field(key: string, schema: StringSchema)

  /** `.refine(d => d[first] === d[second], { message, path: [second] })`. */
  datatype Confirm = Confirm(first: string, second: string, message: string)

  datatype ObjectSchema = ObjectSchema(fields: seq<Field>, refine: Option<Confirm>)

  /** What `error.flatten()` returns: whole-form messages and per-field messages. */
  datatype Flattened = Flattened(formErrors: seq<string>, fieldErrors: map<string, seq<string>>)

  /** zod's default message for a missing field. */
  const Required := "Required"

  /** zod's default messages for the string bounds. */
  function TooShortMessage(n: nat): string {
    "String must contain at least " + JsString.NatToString(n) + " character(s)"
  }

  function TooLongMessage(n: nat): string {
    "String must contain at most " + JsString.NatToString(n) + " character(s)"
  }

  /** `z.string().min(min).max(max)` with zod's default messages. */
  function Bounded(min: nat, max: Option<nat>, transform: Transform): StringSchema {
    StringSchema(min, max, TooShortMessage(min), if max.Some? then TooLongMessage(max.value) else "", transform)
  }

  /** `z.string()` without bounds. */
  const AnyString := Bounded(0, None, Keep)

  function ApplyTransform(t: Transform, s: string): string {
    match t
    case Keep => s
    case TrimOnly => JsString.Trim(s)
    case LowerTrim => JsString.Trim(JsString.ToLower(s))
  }

  predicate WithinBounds(schema: StringSchema, s: string) {
    schema.min <= |s| && (schema.max.None? || |s| <= schema.max.value)
  }

  function Lookup(form: Form, key: string): Option<string> {
    if key in form then Some(form[key]) else None
  }

  /**
   * One string field. Both bounds are checked on the RAW text and the
   * transform runs only when they pass, so a transformed value may be shorter
   * than the minimum.
   */
  function ParseString(schema: StringSchema, input: Option<string>): (r: Result<string, seq<string>>)
    ensures r.Success? <==> input.Some? && WithinBounds(schema, input.value)
    ensures r.Success? ==> r.value == ApplyTransform(schema.transform, input.value)
    ensures r.Failure? ==> r.error != []
    ensures input.None? ==> r == Failure([Required])
    ensures input.Some? && |input.value| < schema.min && (schema.max.None? || |input.value| <= schema.max.value) ==>
      r == Failure([schema.tooShort])
    ensures input.Some? && schema.min <= |input.value| && schema.max.Some? && |input.value| > schema.max.value ==>
      r == Failure([schema.tooLong])
  {
    match input
    case None => Failure([Required])
    case Some(s) =>
      var short := if |s| < schema.min then [schema.tooShort] else [];
      var long := if schema.max.Some? && |s| > schema.max.value then [schema.tooLong] else [];
      assert short == [] ==> short + long == long;
      assert long == [] ==> short + long == short;
      var issues := short + long;
      if issues == [] then Success(ApplyTransform(schema.transform, s)) else Failure(issues)
  }

  function KeysOf(fields: seq<Field>): set<string> {
    set f | f in fields :: f.key
  }

  predicate DistinctKeys(fields: seq<Field>) {
    forall i, j :: 0 <= i < j < |fields| ==> fields[i].key != fields[j].key
  }

  /** The parsed values and the per-field messages of every field of an object schema. */
  datatype Parsed = Parsed(data: map<string, string>, errors: map<string, seq<string>>)

  /** `r` holds exactly the outcome of field `f`: its value when it passes, its messages when it fails. */
  predicate Records(r: Parsed, f: Field, form: Form) {
    match ParseString(f.schema, Lookup(form, f.key))
    case Success(v) => f.key in r.data && r.data[f.key] == v && f.key !in r.errors
    case Failure(m) => f.key in r.errors && r.errors[f.key] == m && f.key !in r.data
  }

  /** Every field is parsed and every failing field contributes its messages; unknown keys are stripped. */
  function ParseFields(fields: seq<Field>, form: Form): (r: Parsed)
    ensures r.data.Keys <= KeysOf(fields) && r.errors.Keys <= KeysOf(fields)
    ensures DistinctKeys(fields) ==> forall i :: 0 <= i < |fields| ==> Records(r, fields[i], form)
  {
    if fields == [] then Parsed(map[], map[])
    else
      var rest := ParseFields(fields[1..], form);
      var r := ParseField(fields[0], form, rest);
      ExtendRecords(fields, form, rest, r);
      r
  }

  /** Adds the outcome of one field to what the later fields produced. */
  function ParseField(f: Field, form: Form, rest: Parsed): Parsed {
    match ParseString(f.schema, Lookup(form, f.key))
    case Success(v) => Parsed(rest.data[f.key := v], rest.errors)
    case Failure(m) => Parsed(rest.data, rest.errors[f.key := m])
  }

  lemma ExtendRecords(fields: seq<Field>, form: Form, rest: Parsed, r: Parsed)
    requires fields != [] && r == ParseField(fields[0], form, rest)
    requires rest.data.Keys <= KeysOf(fields[1..]) && rest.errors.Keys <= KeysOf(fields[1..])
    requires DistinctKeys(fields[1..]) ==> forall i :: 0 <= i < |fields| - 1 ==> Records(rest, fields[1..][i], form)
    ensures r.data.Keys <= KeysOf(fields) && r.errors.Keys <= KeysOf(fields)
    ensures DistinctKeys(fields) ==> forall i :: 0 <= i < |fields| ==> Records(r, fields[i], form)
  {
    var f := fields[0];
    KeysOfCons(fields);
    if DistinctKeys(fields) {
      FirstKeyFresh(fields);
      forall i | 0 <= i < |fields| ensures Records(r, fields[i], form) {
        if i > 0 {
          assert fields[1..][i - 1] == fields[i];
          assert Records(rest, fields[i], form);
          assert fields[i].key != f.key;
        }
      }
    }
  }

  lemma KeysOfCons(fields: seq<Field>)
    requires fields != []
    ensures KeysOf(fields) == {fields[0].key} + KeysOf(fields[1..])
  {
    assert fields == [fields[0]] + fields[1..];
  }

  /** With distinct keys, the first key is not among the others, and the others stay distinct. */
  lemma FirstKeyFresh(fields: seq<Field>)
    requires fields != [] && DistinctKeys(fields)
    ensures DistinctKeys(fields[1..]) && fields[0].key !in KeysOf(fields[1..])
  {
    assert DistinctKeys(fields[1..]) by {
      forall i, j | 0 <= i < j < |fields| - 1 ensures fields[1..][i].key != fields[1..][j].key {
        assert fields[1..][i] == fields[i + 1] && fields[1..][j] == fields[j + 1];
      }
    }
    forall g | g in fields[1..] ensures g.key != fields[0].key {
      var j :| 0 <= j < |fields[1..]| && fields[1..][j] == g;
      assert fields[j + 1] == g;
    }
  }

  predicate AllFieldsPass(fields: seq<Field>, form: Form) {
    forall i :: 0 <= i < |fields| ==> ParseString(fields[i].schema, Lookup(form, fields[i].key)).Success?
  }

  /** `schema.safeParse(form)`, with the failure already flattened. */
  function Parse(schema: ObjectSchema, form: Form): (r: Result<map<string, string>, Flattened>)
    ensures r.Failure? ==> r.error.formErrors == [] && r.error.fieldErrors != map[]
    ensures r.Success? ==> r.value.Keys <= KeysOf(schema.fields)
  {
    var p := ParseFields(schema.fields, form);
    if p.errors != map[] then Failure(Flattened([], p.errors))
    else match schema.refine
      case None => Success(p.data)
      case Some(c) =>
        if Lookup(p.data, c.first) == Lookup(p.data, c.second) then Success(p.data)
        else
          var errors := map[c.second := [c.message]];
          assert c.second in errors;
          Failure(Flattened([], errors))
  }

  /** A field passes or fails on its own: the field-level outcome of ParseFields is exactly "all fields pass". */
  lemma NoErrorsIffAllPass(fields: seq<Field>, form: Form)
    requires DistinctKeys(fields)
    ensures ParseFields(fields, form).errors == map[] <==> AllFieldsPass(fields, form)
  {
    var p := ParseFields(fields, form);
    if p.errors == map[] {
      forall i | 0 <= i < |fields|
        ensures ParseString(fields[i].schema, Lookup(form, fields[i].key)).Success?
      {
        assert Records(p, fields[i], form);
      }
    } else {
      var k :| k in p.errors;
      assert k in KeysOf(fields);
      var f :| f in fields && f.key == k;
      var i :| 0 <= i < |fields| && fields[i] == f;
      assert Records(p, fields[i], form);
    }
  }

  /**
   * The outcome of an object schema: it succeeds exactly when every field
   * passes and the refinement (if any) holds; on success every field holds
   * its transformed value.
   */
  lemma ParseAccepts(schema: ObjectSchema, form: Form)
    requires DistinctKeys(schema.fields)
    ensures var p := ParseFields(schema.fields, form);
      Parse(schema, form).Success? <==>
        AllFieldsPass(schema.fields, form) &&
        (schema.refine.Some? ==> Lookup(p.data, schema.refine.value.first) == Lookup(p.data, schema.refine.value.second))
    ensures Parse(schema, form).Success? ==> Parse(schema, form).value.Keys == KeysOf(schema.fields)
    ensures Parse(schema, form).Success? ==>
      forall i :: 0 <= i < |schema.fields| ==>
        var f := schema.fields[i];
        f.key in Parse(schema, form).value &&
        Parse(schema, form).value[f.key] == ApplyTransform(f.schema.transform, form[f.key])
  {
    NoErrorsIffAllPass(schema.fields, form);
    var p := ParseFields(schema.fields, form);
    if Parse(schema, form).Success? {
      forall i | 0 <= i < |schema.fields|
        ensures schema.fields[i].key in p.data
        ensures p.data[schema.fields[i].key] == ApplyTransform(schema.fields[i].schema.transform, form[schema.fields[i].key])
      {
        assert Records(p, schema.fields[i], form);
      }
      forall k | k in KeysOf(schema.fields) ensures k in p.data {
        var i :| 0 <= i < |schema.fields| && schema.fields[i].key == k;
        assert Records(p, schema.fields[i], form);
      }
    }
  }

  /** In an accepted form, one field's key is present and holds its transformed input. */
  lemma FieldValue(schema: ObjectSchema, form: Form, i: nat)
    requires DistinctKeys(schema.fields) && Parse(schema, form).Success? && i < |schema.fields|
    ensures var f := schema.fields[i];
      f.key in form && f.key in Parse(schema, form).value &&
      Parse(schema, form).value[f.key] == ApplyTransform(f.schema.transform, form[f.key])
  {
    ParseAccepts(schema, form);
    var f := schema.fields[i];
    assert ParseString(f.schema, Lookup(form, f.key)).Success?;
  }

  /**
   * When a field fails, the refinement is not consulted: the failure lists
   * exactly the failing fields, each with its own messages, and no form-level error.
   */
  lemma FieldFailure(schema: ObjectSchema, form: Form)
    requires DistinctKeys(schema.fields)
    requires !AllFieldsPass(schema.fields, form)
    ensures Parse(schema, form).Failure?
    ensures Parse(schema, form).error.formErrors == []
    ensures forall i :: 0 <= i < |schema.fields| ==>
      var f := schema.fields[i];
      var outcome := ParseString(f.schema, Lookup(form, f.key));
      (f.key in Parse(schema, form).error.fieldErrors <==> outcome.Failure?) &&
      (outcome.Failure? ==> Parse(schema, form).error.fieldErrors[f.key] == outcome.error)
    ensures Parse(schema, form).error.fieldErrors.Keys <= KeysOf(schema.fields)
  {
    NoErrorsIffAllPass(schema.fields, form);
    var p := ParseFields(schema.fields, form);
    forall i | 0 <= i < |schema.fields| ensures Records(p, schema.fields[i], form) { }
  }

  /**
   * When every field passes but the two confirmed fields differ after their
   * transforms, the failure carries exactly one message, on the second field.
   */
  lemma ConfirmOutcome(schema: ObjectSchema, form: Form, i: nat, j: nat)
    requires DistinctKeys(schema.fields) && AllFieldsPass(schema.fields, form)
    requires i < |schema.fields| && j < |schema.fields|
    requires schema.refine.Some? && schema.refine.value.first == schema.fields[i].key
    requires schema.refine.value.second == schema.fields[j].key
    ensures schema.fields[i].key in form && schema.fields[j].key in form
    ensures var vi := ApplyTransform(schema.fields[i].schema.transform, form[schema.fields[i].key]);
      var vj := ApplyTransform(schema.fields[j].schema.transform, form[schema.fields[j].key]);
      (Parse(schema, form).Success? <==> vi == vj) &&
      (vi != vj ==> Parse(schema, form) == Failure(Flattened([], map[schema.fields[j].key := [schema.refine.value.message]])))
  {
    assert ParseString(schema.fields[i].schema, Lookup(form, schema.fields[i].key)).Success?;
    assert ParseString(schema.fields[j].schema, Lookup(form, schema.fields[j].key)).Success?;
    NoErrorsIffAllPass(schema.fields, form);
    var p := ParseFields(schema.fields, form);
    assert Records(p, schema.fields[i], form) && Records(p, schema.fields[j], form);
  }
}

/** Schemas, and which values they accept. */
module Schemas {
  import opened Results
  import opened Values
  import Norm

  datatype Limits<+T> = Limits(minimum: Option<T>, maximum: Option<T>)

  datatype Schema = Schema(
    kind: Kind, required: bool, deprecated: bool, sensitive: bool, default: Option<Value>, fields: map<string, Schema>,
    signedLimits: Limits<int>, unsignedLimits: Limits<nat>, doubleLimits: Limits<Number>, sizeLimits: Limits<nat>)

  predicate Within(n: int, limits: Limits<int>) {
    && (limits.minimum.Some? ==> limits.minimum.value <= n)
    && (limits.maximum.Some? ==> n <= limits.maximum.value)
  }

  /** The order of doubles; NaN is below and above nothing. */
  predicate Less(a: Number, b: Number) {
    match (a, b)
    case (Finite(x), Finite(y)) => x < y
    case (Infinity(negative), Finite(_)) => negative
    case (Finite(_), Infinity(negative)) => !negative
    case (Infinity(m), Infinity(n)) => m && !n
    case _ => false
  }

  predicate DoubleWithin(x: Number, limits: Limits<Number>) {
    && !((limits.minimum.Some? || limits.maximum.Some?) && x.NotANumber?)
    && (limits.minimum.Some? ==> !Less(x, limits.minimum.value))
    && (limits.maximum.Some? ==> !Less(limits.maximum.value, x))
  }

  predicate SizeWithin(size: nat, schema: Schema) {
    Within(size, schema.sizeLimits)
  }

  /** The bounds of scalars, strings and lists; objects are measured after validation. */
  predicate InBounds(schema: Schema, value: Value) {
    match value
    case Signed(n) => Within(n, schema.signedLimits)
    case Unsigned(n) => Within(n, schema.unsignedLimits)
    case Double(x) => DoubleWithin(x, schema.doubleLimits)
    case Text(text) => SizeWithin(|text|, schema)
    case List(items) => SizeWithin(|items|, schema)
    case _ => true
  }

  // ----- Validation of values -----------------------------------------------

  datatype Field = Absent | Kept(value: Value) | Bad

  /** What becomes of one field of an object schema. */
  function ValidateField(field: Schema, key: string, input: map<string, Value>): Field
    decreases field, 2
  {
    if key in input then
      (match Validate(field, input[key]) case Some(value) => Kept(value) case None => Bad)
    else if field.default.Some? then
      (match Validate(field, field.default.value) case Some(value) => Kept(value) case None => Bad)
    else if field.required then Bad
    else Absent
  }

  /** The validated copy of a value, with defaults filled in, or nothing. */
  function Validate(schema: Schema, input: Value): Option<Value>
    decreases schema, 1
  {
    if KindOf(input) != schema.kind || !InBounds(schema, input) then None
    else if schema.kind != ObjectKind then Some(input)
    else if !(input.fields.Keys <= schema.fields.Keys) then None
    else if exists key :: key in schema.fields && ValidateField(schema.fields[key], key, input.fields).Bad? then None
    else
      var output := ValidatedFields(schema, input.fields);
      if SizeWithin(|output|, schema) then Some(Object(output)) else None
  }

  function ValidatedFields(schema: Schema, input: map<string, Value>): map<string, Value>
    decreases schema, 0
  {
    map key | key in schema.fields && ValidateField(schema.fields[key], key, input).Kept?
      :: ValidateField(schema.fields[key], key, input).value
  }

  /** Validating a validated value changes nothing. */
  lemma {:induction false} ValidateIsIdempotent(schema: Schema, input: Value)
    requires Validate(schema, input).Some?
    ensures Validate(schema, Validate(schema, input).value) == Validate(schema, input)
    decreases schema
  {
    if schema.kind == ObjectKind {
      var output := ValidatedFields(schema, input.fields);
      forall key | key in schema.fields
        ensures ValidateField(schema.fields[key], key, output) == ValidateField(schema.fields[key], key, input.fields)
      {
        FieldIsIdempotent(schema, key, input.fields, output);
      }
      SameFields(schema, input.fields, output);
    }
  }

  lemma {:induction false} FieldIsIdempotent(
      schema: Schema, key: string, input: map<string, Value>, output: map<string, Value>)
    requires key in schema.fields && output == ValidatedFields(schema, input)
    ensures ValidateField(schema.fields[key], key, input).Bad?
            || ValidateField(schema.fields[key], key, output) == ValidateField(schema.fields[key], key, input)
    decreases schema, 0
  {
    var field := schema.fields[key];
    if key in input {
      if Validate(field, input[key]).Some? {
        ValidateIsIdempotent(field, input[key]);
      }
    } else if field.default.Some? && Validate(field, field.default.value).Some? {
      ValidateIsIdempotent(field, field.default.value);
    }
  }

  lemma SameFields(schema: Schema, a: map<string, Value>, b: map<string, Value>)
    requires forall key :: key in schema.fields ==>
      ValidateField(schema.fields[key], key, a) == ValidateField(schema.fields[key], key, b)
    ensures ValidatedFields(schema, a) == ValidatedFields(schema, b)
  {
  }
}

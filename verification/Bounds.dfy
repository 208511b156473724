/**
 Validation told node by node: a value is valid exactly when every node that has
 a schema passes its own plain test, and what becomes of each node.
 */
module Bounds {
  import opened Results
  import opened Pointers
  import opened Values
  import opened Schemas
  import opened CommandOptions
  import Norm

  // ----- Bounds -------------------------------------------------------------

  /** The order of the extended reals; NaN is comparable with nothing. */
  predicate AtMost(a: Number, b: Number) {
    && !a.NotANumber? && !b.NotANumber?
    && (a == Norm.Infinity(true) || b == Norm.Infinity(false) || (a.Finite? && b.Finite? && a.value <= b.value))
  }

  /** Every bound that is present is kept: numbers compare, sizes are lengths. */
  ghost predicate Obeys(schema: Schema, value: Value) {
    match value
    case Signed(n) =>
      && (schema.signedLimits.minimum.Some? ==> schema.signedLimits.minimum.value <= n)
      && (schema.signedLimits.maximum.Some? ==> n <= schema.signedLimits.maximum.value)
    case Unsigned(n) =>
      && (schema.unsignedLimits.minimum.Some? ==> schema.unsignedLimits.minimum.value <= n)
      && (schema.unsignedLimits.maximum.Some? ==> n <= schema.unsignedLimits.maximum.value)
    case Double(x) =>
      var Limits(minimum, maximum) := schema.doubleLimits;
      && (minimum.Some? ==> x != Norm.NotANumber && (minimum.value == Norm.NotANumber || AtMost(minimum.value, x)))
      && (maximum.Some? ==> x != Norm.NotANumber && (maximum.value == Norm.NotANumber || AtMost(x, maximum.value)))
    case Text(text) => SizeObeys(schema, |text|)
    case List(items) => SizeObeys(schema, |items|)
    case _ => true
  }

  ghost predicate SizeObeys(schema: Schema, size: nat) {
    && (schema.sizeLimits.minimum.Some? ==> schema.sizeLimits.minimum.value <= size)
    && (schema.sizeLimits.maximum.Some? ==> size <= schema.sizeLimits.maximum.value)
  }

  /** The bounds test of validation is exactly that. */
  lemma BoundsAreObeyed(schema: Schema, value: Value)
    ensures InBounds(schema, value) <==> Obeys(schema, value)
  {
  }

  // ----- Nodes --------------------------------------------------------------

  /** The keys an object has once its defaults are filled in. */
  ghost function FilledKeys(schema: Schema, fields: map<string, Value>): set<string> {
    fields.Keys + set key | key in schema.fields && schema.fields[key].default.Some?
  }

  /** A key that the object lacks is optional or has a valid default. */
  ghost predicate MayLack(field: Schema) {
    if field.default.Some? then Validate(field, field.default.value).Some? else !field.required
  }

  /** What one node must satisfy, whatever lies below it. */
  ghost predicate Passes(schema: Schema, value: Value) {
    && KindOf(value) == schema.kind && Obeys(schema, value)
    && (value.Object? ==>
          && value.fields.Keys <= schema.fields.Keys
          && (forall key :: key in schema.fields && key !in value.fields ==> MayLack(schema.fields[key]))
          && SizeObeys(schema, |FilledKeys(schema, value.fields)|))
  }

  /** The node of a value at tokens that also lead to a schema. */
  ghost predicate HasSchema(schema: Schema, value: Value, tokens: Tokens) {
    IsNode(value, tokens) && SchemaAt(schema, tokens).Success?
  }

  ghost predicate AllPass(schema: Schema, value: Value) {
    forall tokens :: HasSchema(schema, value, tokens) ==>
      Passes(SchemaAt(schema, tokens).value, Node(value, tokens).value)
  }

  lemma BelowField(schema: Schema, value: Value, key: string, rest: Tokens)
    requires schema.kind == ObjectKind && key in schema.fields && value.Object? && key in value.fields
    ensures Node(value, [key] + rest) == Node(value.fields[key], rest)
    ensures SchemaAt(schema, [key] + rest) == SchemaAt(schema.fields[key], rest)
  {
    assert ([key] + rest)[0] == key && ([key] + rest)[1..] == rest;
  }

  /** All nodes pass when the root does and all nodes of every field do. */
  lemma {:induction false} AllPassUnfolds(schema: Schema, value: Value)
    ensures AllPass(schema, value) <==>
      && Passes(schema, value)
      && (value.Object? ==>
            forall key :: key in value.fields && key in schema.fields ==>
              AllPass(schema.fields[key], value.fields[key]))
  {
    hide Passes;
    if AllPass(schema, value) {
      assert HasSchema(schema, value, []);
      if value.Object? && Passes(schema, value) {
        PassedKind(schema, value);
        forall key, rest | key in value.fields && key in schema.fields
                           && HasSchema(schema.fields[key], value.fields[key], rest)
          ensures Passes(SchemaAt(schema.fields[key], rest).value, Node(value.fields[key], rest).value)
        {
          BelowField(schema, value, key, rest);
          assert HasSchema(schema, value, [key] + rest);
        }
      }
    } else {
      var tokens :|
        HasSchema(schema, value, tokens) && !Passes(SchemaAt(schema, tokens).value, Node(value, tokens).value);
      if tokens != [] && Passes(schema, value) {
        PassedKind(schema, value);
        var key, rest := tokens[0], tokens[1..];
        BelowField(schema, value, key, rest);
        assert tokens == [key] + rest;
        assert HasSchema(schema.fields[key], value.fields[key], rest);
      }
    }
  }

  lemma PassedKind(schema: Schema, value: Value)
    requires Passes(schema, value)
    ensures KindOf(value) == schema.kind
  {
  }

  // ----- Exactly when validation succeeds -----------------------------------

  lemma {:induction false} FieldFails(schema: Schema, fields: map<string, Value>, key: string)
    requires key in schema.fields
    ensures ValidateField(schema.fields[key], key, fields).Bad? <==>
            if key in fields then Validate(schema.fields[key], fields[key]).None? else !MayLack(schema.fields[key])
    ensures ValidateField(schema.fields[key], key, fields).Kept? ==>
              key in fields || schema.fields[key].default.Some?
    ensures ValidateField(schema.fields[key], key, fields).Absent? ==>
              key !in fields && schema.fields[key].default.None?
  {
    hide Validate;
  }

  lemma {:induction false} FieldsAreFilled(schema: Schema, fields: map<string, Value>)
    requires fields.Keys <= schema.fields.Keys
    requires forall key :: key in schema.fields ==> !ValidateField(schema.fields[key], key, fields).Bad?
    ensures ValidatedFields(schema, fields).Keys == FilledKeys(schema, fields)
  {
    hide ValidateField;
    forall key | key in schema.fields
      ensures key in ValidatedFields(schema, fields) <==> key in FilledKeys(schema, fields)
    {
      FieldFails(schema, fields, key);
    }
  }

  lemma SizesAgree(schema: Schema, size: nat)
    ensures SizeWithin(size, schema) <==> SizeObeys(schema, size)
  {
  }

  /** A value is valid exactly when every node that has a schema passes. */
  lemma {:induction false} ValidIff(schema: Schema, input: Value)
    ensures Validate(schema, input).Some? <==> AllPass(schema, input)
    decreases schema
  {
    BoundsAreObeyed(schema, input);
    AllPassUnfolds(schema, input);
    if KindOf(input) == schema.kind && input.Object? && input.fields.Keys <= schema.fields.Keys {
      var fields := input.fields;
      forall key | key in schema.fields
        ensures ValidateField(schema.fields[key], key, fields).Bad? <==>
                if key in fields then !AllPass(schema.fields[key], fields[key]) else !MayLack(schema.fields[key])
      {
        FieldFails(schema, fields, key);
        if key in fields {
          ValidIff(schema.fields[key], fields[key]);
        }
      }
      hide AllPass, ValidateField, InBounds, Obeys, MayLack;
      if forall key :: key in schema.fields ==> !ValidateField(schema.fields[key], key, fields).Bad? {
        FieldsAreFilled(schema, fields);
        SizesAgree(schema, |FilledKeys(schema, fields)|);
        assert |ValidatedFields(schema, fields)| == |ValidatedFields(schema, fields).Keys|;
      }
    }
  }

  /** A node outside a bound of its schema, of the wrong type, with an unknown
      key or without a required one makes the whole validation fail. */
  lemma OneBadNodeFails(schema: Schema, input: Value, tokens: Tokens)
    requires HasSchema(schema, input, tokens)
    requires !Passes(SchemaAt(schema, tokens).value, Node(input, tokens).value)
    ensures Validate(schema, input) == None
  {
    hide Passes, Validate;
    ValidIff(schema, input);
  }

  // ----- What validation returns --------------------------------------------

  /** What one node of the input becomes: itself, or an object with its missing defaults filled in. */
  ghost predicate Becomes(schema: Schema, input: Value, output: Value) {
    if input.Object? then
      && output.Object? && output.fields.Keys == FilledKeys(schema, input.fields)
      && forall key :: key in schema.fields && key !in input.fields && schema.fields[key].default.Some? ==>
           Some(output.fields[key]) == Validate(schema.fields[key], schema.fields[key].default.value)
    else output == input
  }

  lemma {:induction false} RootBecomes(schema: Schema, input: Value)
    requires Validate(schema, input).Some?
    ensures Becomes(schema, input, Validate(schema, input).value)
    ensures input.Object? ==>
              && schema.kind == ObjectKind && input.fields.Keys <= schema.fields.Keys
              && Validate(schema, input).value.Object?
              && forall key :: key in input.fields ==>
                   && key in Validate(schema, input).value.fields
                   && Validate(schema.fields[key], input.fields[key])
                      == Some(Validate(schema, input).value.fields[key])
  {
    if input.Object? {
      FieldsAreFilled(schema, input.fields);
    }
  }

  /** Every node of the input that has a schema is still there and has become what it should. */
  lemma {:induction false} NodeBecomes(schema: Schema, input: Value, tokens: Tokens)
    requires Validate(schema, input).Some? && HasSchema(schema, input, tokens)
    ensures IsNode(Validate(schema, input).value, tokens)
    ensures Becomes(SchemaAt(schema, tokens).value, Node(input, tokens).value,
                    Node(Validate(schema, input).value, tokens).value)
    decreases |tokens|
  {
    RootBecomes(schema, input);
    if |tokens| > 0 {
      hide Validate, Becomes;
      var key := tokens[0];
      NodeBecomes(schema.fields[key], input.fields[key], tokens[1..]);
    }
  }

  /** Every node of a validated value keeps the bounds of its schema, objects
      with their defaults filled in included. */
  lemma {:induction false} ValidatedObeys(schema: Schema, input: Value, tokens: Tokens)
    requires Validate(schema, input).Some? && HasSchema(schema, Validate(schema, input).value, tokens)
    ensures var s, node := SchemaAt(schema, tokens).value, Node(Validate(schema, input).value, tokens).value;
      && KindOf(node) == s.kind && Obeys(s, node)
      && (node.Object? ==> node.fields.Keys <= s.fields.Keys && SizeObeys(s, |node.fields|))
      && (node.Object? ==> forall key :: key in s.fields && s.fields[key].required ==> key in node.fields)
  {
    var output := Validate(schema, input).value;
    ValidateIsIdempotent(schema, input);
    ValidIff(schema, output);
    NodeBecomes(schema, output, tokens);
    hide Validate, SchemaAt, Node, Obeys;
    var s, node := SchemaAt(schema, tokens).value, Node(output, tokens).value;
    if node.Object? {
      assert |node.fields| == |node.fields.Keys|;
      forall key | key in s.fields && s.fields[key].required
        ensures key in node.fields
      {
        assert key in node.fields || MayLack(s.fields[key]);
      }
    }
  }
}

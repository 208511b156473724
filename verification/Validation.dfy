/** Recursive validation of a value against its schema, recording metadata on the way. */
module Validation {
  import opened Results
  import opened Pointers
  import opened Values
  import opened Schemas
  import opened Metadata

  /** The path-to-metadata table that validation fills. */
  class Table {
    var entries: Entries

    constructor ()
      ensures entries == map[]
    {
      entries := map[];
    }
  }

  // ----- Paths of children --------------------------------------------------

  lemma {:induction false} EscapeDecimal(n: nat)
    ensures Escape(Decimal(n)) == Decimal(n)
  {
    DecimalIsPlain(n);
    EscapePlain(Decimal(n));
  }

  lemma {:induction false} DecimalIsPlain(n: nat)
    ensures forall i :: 0 <= i < |Decimal(n)| ==> Decimal(n)[i] != '~' && Decimal(n)[i] != '/'
  {
    if n >= 10 {
      DecimalIsPlain(n / 10);
    }
  }

  lemma {:induction false} EscapePlain(s: string)
    requires forall i :: 0 <= i < |s| ==> s[i] != '~' && s[i] != '/'
    ensures Escape(s) == s
  {
    if |s| == 0 {
    } else {
      EscapePlain(s[1..]);
      assert s == [s[0]] + s[1..];
    }
  }

  lemma RenderChild(at: Tokens, token: string)
    ensures Render(at + [token]) == Render(at) + "/" + Escape(token)
  {
    assert (at + [token])[..|at|] == at;
  }

  method ChildPath(path: string, key: string, ghost at: Tokens) returns (child: string)
    requires path == Render(at)
    ensures child == Render(at + [key])
  {
    RenderChild(at, key);
    var escaped := EscapePathToken(key);
    child := path + "/" + escaped;
  }

  method ItemPath(path: string, index: nat, ghost at: Tokens) returns (child: string)
    requires path == Render(at)
    ensures child == Render(at + [Decimal(index)])
  {
    RenderChild(at, Decimal(index));
    EscapeDecimal(index);
    child := path + "/" + Decimal(index);
  }

  // ----- What a child should record -----------------------------------------

  lemma TailOf(token: string, rest: Tokens)
    ensures ([token] + rest)[0] == token && ([token] + rest)[1..] == rest
  {
  }

  /** Inherited metadata as it stands at a node, which may have an origin of its own. */
  ghost function EntryHere(at: Tokens, inherited: Entry, origins: Option<Origins>): Entry {
    inherited.(origin := OriginHere(origins, Render(at), inherited.origin))
  }

  lemma InheritedChild(
      value: Value, at: Tokens, inherited: Entry, origins: Option<Origins>, token: string, child: Value, rest: Tokens)
    requires Child(value, token) == Some(child)
    ensures Inherited(child, at + [token], EntryHere(at, inherited, origins), origins)(rest)
            == Inherited(value, at, inherited, origins)([token] + rest)
  {
    hide Render, Child;
    TailOf(token, rest);
  }

  lemma ExpectedItem(c: Context, input: Value, token: string, child: Value, rest: Tokens)
    requires c.schema.kind == ListKind && Child(input, token) == Some(child)
    ensures Inherited(child, c.at + [token], Expected(c, input)([]), c.origins)(rest)
            == Expected(c, input)([token] + rest)
  {
    hide Render, Child;
    TailOf(token, rest);
  }

  /** The context of a field that the input has. */
  function FieldContext(c: Context, key: string): Context
    requires key in c.schema.fields
  {
    Context(c.schema.fields[key], c.at + [key], OriginHere(c.origins, Render(c.at), c.inherited), c.origins,
            c.sensitive || c.schema.sensitive)
  }

  /** The context of a field filled in by default. */
  function DefaultContext(c: Context, key: string): Context
    requires key in c.schema.fields
  {
    FieldContext(c, key).(inherited := DEFAULT_ORIGIN, origins := None)
  }

  lemma ExpectedField(c: Context, input: Value, key: string, child: Value, rest: Tokens)
    requires c.schema.kind == ObjectKind && key in c.schema.fields && Child(input, key) == Some(child)
    ensures Expected(FieldContext(c, key), child)(rest) == Expected(c, input)([key] + rest)
  {
    hide Render, Child;
    TailOf(key, rest);
  }

  lemma ExpectedDefault(c: Context, input: Value, key: string, default: Value, rest: Tokens)
    requires c.schema.kind == ObjectKind && key in c.schema.fields && Child(input, key) == None
    ensures Expected(DefaultContext(c, key), default)(rest) == Expected(c, input)([key] + rest)
  {
    hide Render, Child;
    TailOf(key, rest);
    DefaultsAreDefault(default, c.at + [key], rest);
  }

  // ----- Descendants of list items ------------------------------------------

  /** Records a value and everything below it with inherited metadata. */
  method RecordDescendants(
      value: Value, path: string, ghost at: Tokens, inherited: Entry, origins: Option<Origins>, table: Table)
    requires path == Render(at)
    modifies table
    ensures Recorded(old(table.entries), table.entries, at, value, Inherited(value, at, inherited, origins))
    decreases value, 1
  {
    ghost var expected := Inherited(value, at, inherited, origins);
    ghost var before := table.entries;
    var metadata := inherited.(origin := OriginHere(origins, path, inherited.origin));
    RootRecorded(before, at, value, expected);
    table.entries := table.entries[path := metadata];
    hide Recorded, RecordedAmong, Inherited, Render;
    ghost var done: set<string> := {};
    match value
    case List(items) =>
      RecordItems(items, path, at, inherited, metadata, origins, table, before);
      done := DecimalsBelow(|items|);
      ItemsDone(items);
    case Object(fields) =>
      RecordFields(fields, path, at, inherited, metadata, origins, table, before);
      done := fields.Keys;
    case _ =>
    AllRecorded(before, table.entries, at, value, done, expected);
  }

  method RecordItems(
      items: seq<Value>, path: string, ghost at: Tokens, ghost inherited: Entry, metadata: Entry,
      origins: Option<Origins>,
      table: Table, ghost before: Entries)
    requires path == Render(at) && metadata == inherited.(origin := OriginHere(origins, path, inherited.origin))
    requires RecordedAmong(before, table.entries, at, List(items), {}, Inherited(List(items), at, inherited, origins))
    modifies table
    ensures RecordedAmong(before, table.entries, at, List(items), DecimalsBelow(|items|),
                          Inherited(List(items), at, inherited, origins))
    decreases List(items), 0
  {
    hide Recorded, RecordedAmong, Inherited, Render, Child, Decimal;
    ghost var value := List(items);
    for index := 0 to |items|
      invariant RecordedAmong(before, table.entries, at, value, DecimalsBelow(index),
                              Inherited(value, at, inherited, origins))
    {
      ghost var token, middle := Decimal(index), table.entries;
      ListChild(items, index);
      NewDecimal(index, index);
      var childPath := ItemPath(path, index, at);
      RecordDescendants(items[index], childPath, at + [token], metadata, origins, table);
      InheritedBelow(value, at, inherited, origins, token, items[index]);
      ChildRecorded(before, middle, table.entries, at, value, DecimalsBelow(index), token, items[index],
                    Inherited(value, at, inherited, origins), Inherited(items[index], at + [token], metadata, origins));
    }
  }

  method RecordFields(
      fields: map<string, Value>, path: string, ghost at: Tokens, ghost inherited: Entry, metadata: Entry,
      origins: Option<Origins>, table: Table, ghost before: Entries)
    requires path == Render(at) && metadata == inherited.(origin := OriginHere(origins, path, inherited.origin))
    requires RecordedAmong(before, table.entries, at, Object(fields), {},
                           Inherited(Object(fields), at, inherited, origins))
    modifies table
    ensures RecordedAmong(before, table.entries, at, Object(fields), fields.Keys,
                          Inherited(Object(fields), at, inherited, origins))
    decreases Object(fields), 0
  {
    hide Recorded, RecordedAmong, Inherited, Render;
    ghost var value, done: set<string> := Object(fields), {};
    var remaining := fields.Keys;
    while remaining != {}
      invariant remaining + done == fields.Keys && remaining !! done
      invariant RecordedAmong(before, table.entries, at, value, done, Inherited(value, at, inherited, origins))
      decreases |remaining|
    {
      var key :| key in remaining;
      ghost var middle := table.entries;
      var childPath := ChildPath(path, key, at);
      RecordDescendants(fields[key], childPath, at + [key], metadata, origins, table);
      InheritedBelow(value, at, inherited, origins, key, fields[key]);
      ChildRecorded(before, middle, table.entries, at, value, done, key, fields[key],
                    Inherited(value, at, inherited, origins), Inherited(fields[key], at + [key], metadata, origins));
      remaining := remaining - {key};
      done := done + {key};
    }
    assert done == fields.Keys;
  }

  lemma InheritedBelow(
      value: Value, at: Tokens, inherited: Entry, origins: Option<Origins>, token: string, child: Value)
    requires Child(value, token) == Some(child)
    ensures forall rest :: IsNode(child, rest) ==>
      Inherited(child, at + [token], EntryHere(at, inherited, origins), origins)(rest)
      == Inherited(value, at, inherited, origins)([token] + rest)
  {
    forall rest | IsNode(child, rest)
      ensures Inherited(child, at + [token], EntryHere(at, inherited, origins), origins)(rest)
              == Inherited(value, at, inherited, origins)([token] + rest)
    {
      InheritedChild(value, at, inherited, origins, token, child, rest);
    }
  }

  /** The tokens of the first `n` list items. */
  ghost function DecimalsBelow(n: nat): set<string> {
    if n == 0 then {} else DecimalsBelow(n - 1) + {Decimal(n - 1)}
  }

  lemma {:induction false} NewDecimal(n: nat, index: nat)
    requires n <= index
    ensures Decimal(index) !in DecimalsBelow(n)
  {
    if n == 0 {
    } else {
      NewDecimal(n - 1, index);
      if Decimal(n - 1) == Decimal(index) {
        DecimalInjective(n - 1, index);
      }
    }
  }

  lemma {:induction false} DecimalsInclude(n: nat, index: nat)
    requires index < n
    ensures Decimal(index) in DecimalsBelow(n)
  {
    if index < n - 1 {
      DecimalsInclude(n - 1, index);
    }
  }

  lemma ItemsDone(items: seq<Value>)
    ensures forall token :: Child(List(items), token).Some? ==> token in DecimalsBelow(|items|)
  {
    forall token | Child(List(items), token).Some?
      ensures token in DecimalsBelow(|items|)
    {
      var i :| 0 <= i < |items| && Decimal(i) == token;
      DecimalsInclude(|items|, i);
    }
  }

  // ----- Nodes with a schema ------------------------------------------------

  /** What validation does to one node: the validated value, and its entries recorded. */
  method ValidateNode(
      schema: Schema, input: Value, path: string, ghost at: Tokens, inherited: Origin, origins: Option<Origins>,
      sensitive: bool, table: Table)
    returns (result: Option<Value>)
    requires path == Render(at)
    modifies table
    ensures result == Validate(schema, input)
    ensures result.Some? ==>
      Recorded(old(table.entries), table.entries, at, result.value,
               Expected(Context(schema, at, inherited, origins, sensitive), input))
    decreases schema, 1
  {
    ghost var c := Context(schema, at, inherited, origins, sensitive);
    ghost var before := table.entries;
    var origin := OriginHere(origins, path, inherited);
    if KindOf(input) != schema.kind || !InBounds(schema, input) {
      return None;
    }
    var metadata := Entry(origin, sensitive || schema.sensitive, schema.deprecated);
    assert metadata == Expected(c, input)([]);
    table.entries := table.entries[path := metadata];
    RootRecorded(before, at, input, Expected(c, input));
    hide Recorded, RecordedAmong, Expected, Render;
    if schema.kind != ObjectKind {
      if schema.kind == ListKind {
        RecordListItems(input.items, path, at, metadata, origins, table, before, c);
      } else {
        AllRecorded(before, table.entries, at, input, {}, Expected(c, input));
      }
      return Some(input);
    }
    if !(input.fields.Keys <= schema.fields.Keys) {
      return None;
    }
    ghost var output := Object(ValidatedFields(schema, input.fields));
    RootRecorded(before, at, output, Expected(c, input));
    result := ValidateFields(schema, input.fields, path, at, origin, origins, metadata.sensitive, table, before, c);
  }

  /** The items of a list, recorded with the metadata of the list. */
  method RecordListItems(
      items: seq<Value>, path: string, ghost at: Tokens, metadata: Entry, origins: Option<Origins>, table: Table,
      ghost before: Entries, ghost c: Context)
    requires path == Render(at) && c.schema.kind == ListKind && c.at == at && c.origins == origins
    requires metadata == Expected(c, List(items))([])
    requires RecordedAmong(before, table.entries, at, List(items), {}, Expected(c, List(items)))
    modifies table
    ensures Recorded(before, table.entries, at, List(items), Expected(c, List(items)))
  {
    hide Recorded, RecordedAmong, Inherited, Expected, Render, Child, Decimal;
    ghost var value := List(items);
    for index := 0 to |items|
      invariant RecordedAmong(before, table.entries, at, value, DecimalsBelow(index), Expected(c, value))
    {
      ghost var token, middle := Decimal(index), table.entries;
      ListChild(items, index);
      NewDecimal(index, index);
      var childPath := ItemPath(path, index, at);
      RecordDescendants(items[index], childPath, at + [token], metadata, origins, table);
      forall rest | IsNode(items[index], rest)
        ensures Inherited(items[index], at + [token], metadata, origins)(rest) == Expected(c, value)([token] + rest)
      {
        ExpectedItem(c, value, token, items[index], rest);
      }
      ChildRecorded(before, middle, table.entries, at, value, DecimalsBelow(index), token, items[index],
                    Expected(c, value), Inherited(items[index], at + [token], metadata, origins));
    }
    ItemsDone(items);
    AllRecorded(before, table.entries, at, value, DecimalsBelow(|items|), Expected(c, value));
  }

  /** Validates the fields of an object and measures the result. */
  method ValidateFields(
      schema: Schema, fields: map<string, Value>, path: string, ghost at: Tokens, origin: Origin,
      origins: Option<Origins>,
      sensitive: bool, table: Table, ghost before: Entries, ghost c: Context)
    returns (result: Option<Value>)
    requires path == Render(at) && schema.kind == ObjectKind && fields.Keys <= schema.fields.Keys
    requires c.schema == schema && c.at == at && c.origins == origins
    requires origin == OriginHere(origins, path, c.inherited) && sensitive == (c.sensitive || schema.sensitive)
    requires RecordedAmong(before, table.entries, at, Object(ValidatedFields(schema, fields)), {},
                           Expected(c, Object(fields)))
    modifies table
    ensures result == Validate(schema, Object(fields))
    ensures result.Some? ==> Recorded(before, table.entries, at, result.value, Expected(c, Object(fields)))
    decreases schema, 0
  {
    ghost var output := ValidatedFields(schema, fields);
    ghost var expected := Expected(c, Object(fields));
    hide Recorded, RecordedAmong, Inherited, Expected, Render, ValidateField, Validate, ValidatedFields, FieldsSeen;
    hide Child;
    var kept: map<string, Value> := map[];
    ghost var done: set<string> := {};
    NoFieldsSeen(schema, fields);
    var remaining := schema.fields.Keys;
    while remaining != {}
      invariant remaining + done == schema.fields.Keys && remaining !! done
      invariant RecordedAmong(before, table.entries, at, Object(output), done, expected)
      invariant FieldsSeen(schema, fields, done, kept)
      decreases |remaining|
    {
      var key :| key in remaining;
      ghost var middle := table.entries;
      var outcome, below :=
        ValidateOneField(schema.fields[key], key, fields, path, at, origin, origins, sensitive, table, c);
      FieldSeen(schema, fields, done, kept, key);
      if outcome.Bad? {
        return None;
      }
      if outcome.Kept? {
        kept := kept[key := outcome.value];
        ChildRecorded(before, middle, table.entries, at, Object(output), done, key, outcome.value, expected, below);
      } else {
        NothingRecorded(before, table.entries, at, Object(output), done, key, expected);
      }
      remaining := remaining - {key};
      done := done + {key};
    }
    assert done == schema.fields.Keys;
    AllFieldsSeen(schema, fields, kept);
    AllRecorded(before, table.entries, at, Object(output), done, expected);
    if !SizeWithin(|kept|, schema) {
      return None;
    }
    return Some(Object(kept));
  }

  /** The fields `done` are all good, and `kept` holds those that remain present. */
  ghost predicate FieldsSeen(schema: Schema, fields: map<string, Value>, done: set<string>, kept: map<string, Value>) {
    && done <= schema.fields.Keys
    && (forall key :: key in done ==> !ValidateField(schema.fields[key], key, fields).Bad?)
    && kept == map key | key in done && key in ValidatedFields(schema, fields) :: ValidatedFields(schema, fields)[key]
  }

  lemma NoFieldsSeen(schema: Schema, fields: map<string, Value>)
    ensures FieldsSeen(schema, fields, {}, map[])
  {
  }

  lemma FieldSeen(schema: Schema, fields: map<string, Value>, done: set<string>, kept: map<string, Value>, key: string)
    requires key in schema.fields && key !in done && FieldsSeen(schema, fields, done, kept)
    ensures var outcome, output :=
      ValidateField(schema.fields[key], key, fields), Object(ValidatedFields(schema, fields));
      && (outcome.Bad? ==> schema.kind == ObjectKind ==> Validate(schema, Object(fields)) == None)
      && (outcome.Kept? ==>
            && Child(output, key) == Some(outcome.value)
            && FieldsSeen(schema, fields, done + {key}, kept[key := outcome.value]))
      && (outcome.Absent? ==> Child(output, key) == None && FieldsSeen(schema, fields, done + {key}, kept))
  {
  }

  lemma AllFieldsSeen(schema: Schema, fields: map<string, Value>, kept: map<string, Value>)
    requires FieldsSeen(schema, fields, schema.fields.Keys, kept)
    requires schema.kind == ObjectKind && fields.Keys <= schema.fields.Keys
    ensures kept == ValidatedFields(schema, fields)
    ensures Validate(schema, Object(fields)) == if SizeWithin(|kept|, schema) then Some(Object(kept)) else None
    ensures forall token :: Child(Object(kept), token).Some? ==> token in schema.fields.Keys
  {
    assert kept == ValidatedFields(schema, fields);
  }

  /** One field: validated where present, else its default, else absent or an error. */
  method ValidateOneField(
      field: Schema, key: string, fields: map<string, Value>, path: string, ghost at: Tokens, origin: Origin,
      origins: Option<Origins>, sensitive: bool, table: Table, ghost c: Context)
    returns (outcome: Field, ghost below: Tokens -> Entry)
    requires path == Render(at) && c.schema.kind == ObjectKind
    requires key in c.schema.fields && field == c.schema.fields[key]
    requires c.at == at && c.origins == origins && origin == OriginHere(origins, path, c.inherited)
    requires sensitive == (c.sensitive || c.schema.sensitive)
    modifies table
    ensures outcome == ValidateField(field, key, fields)
    ensures outcome.Kept? ==> Recorded(old(table.entries), table.entries, at + [key], outcome.value, below)
    ensures outcome.Kept? ==>
      forall rest :: IsNode(outcome.value, rest) ==> below(rest) == Expected(c, Object(fields))([key] + rest)
    ensures outcome.Absent? ==> table.entries == old(table.entries)
    decreases field, 2
  {
    hide Recorded, Expected, Render;
    var childPath := ChildPath(path, key, at);
    below := Expected(c, Object(fields));
    if key in fields {
      var validated := ValidateNode(field, fields[key], childPath, at + [key], origin, origins, sensitive, table);
      below := Expected(FieldContext(c, key), fields[key]);
      forall rest: Tokens
        ensures below(rest) == Expected(c, Object(fields))([key] + rest)
      {
        ExpectedField(c, Object(fields), key, fields[key], rest);
      }
      outcome := if validated.Some? then Kept(validated.value) else Bad;
    } else if field.default.Some? {
      var validated :=
        ValidateNode(field, field.default.value, childPath, at + [key], DEFAULT_ORIGIN, None, sensitive, table);
      below := Expected(DefaultContext(c, key), field.default.value);
      forall rest: Tokens
        ensures below(rest) == Expected(c, Object(fields))([key] + rest)
      {
        ExpectedDefault(c, Object(fields), key, field.default.value, rest);
      }
      outcome := if validated.Some? then Kept(validated.value) else Bad;
    } else {
      outcome := if field.required then Bad else Absent;
    }
  }
}

/** Validated configurations: lookup by path and the metadata of every node. */
module Configurations {
  import opened Results
  import opened Pointers
  import opened Values
  import opened Schemas
  import opened Metadata
  import opened Validation

  // ----- Lookup -------------------------------------------------------------

  /** What the lookup does with one unescaped token. */
  function Descend(value: Value, token: string): Result<Value> {
    match value
    case Object(fields) => if token in fields then Success(fields[token]) else Failure(Configuration)
    case List(items) =>
      if token == "" then Failure(InvalidArgument)
      else
        (match Spelled(token)
         case Failure(error) => Failure(error)
         case Success(index) => if index >= |items| then Failure(Index) else Success(items[index]))
    case _ => Failure(Configuration)
  }

  function Walk(value: Value, tokens: Tokens): Result<Value>
    decreases |tokens|
  {
    if |tokens| == 0 then Success(value)
    else
      match Descend(value, tokens[0])
      case Failure(error) => Failure(error)
      case Success(child) => Walk(child, tokens[1..])
  }

  /** The lookup from a position after a separator; tokens are unescaped only when they are reached. */
  function FindFrom(value: Value, path: string, start: nat): Result<Value>
    requires start <= |path|
    decreases |path| - start
  {
    var end := Separator(path, start);
    match Unescape(path[start..end])
    case Failure(error) => Failure(error)
    case Success(token) =>
      match Descend(value, token)
      case Failure(error) => Failure(error)
      case Success(child) => if end == |path| then Success(child) else FindFrom(child, path, end + 1)
  }

  function Found(value: Value, path: string): Result<Value> {
    if path == "" then Success(value)
    else if path[0] != '/' then Failure(InvalidArgument)
    else FindFrom(value, path, 1)
  }

  /** Reads a list index from the left, digit by digit. */
  method ParseIndex(token: string) returns (result: Result<nat>)
    ensures result == Spelled(token)
  {
    var index := 0;
    for position := 0 to |token|
      invariant Spelled(token[..position]) == Success(index)
    {
      assert token[..position + 1][..position] == token[..position];
      var character := token[position];
      if character < '0' || character > '9' {
        SpellingFails(token, position + 1);
        return Failure(InvalidArgument);
      }
      var digit := (character - '0') as int;
      if index > (SIZE_MAX - digit) / 10 {
        SpellingFails(token, position + 1);
        return Failure(Overflow);
      }
      index := index * 10 + digit;
    }
    assert token[..|token|] == token;
    return Success(index);
  }

  lemma {:induction false} SpellingFails(token: string, k: nat)
    requires k <= |token| && Spelled(token[..k]).Failure?
    ensures Spelled(token) == Spelled(token[..k])
    decreases |token| - k
  {
    if k == |token| {
      assert token[..k] == token;
    } else {
      assert token[..k + 1][..k] == token[..k];
      SpellingFails(token, k + 1);
    }
  }

  method FindSeparator(path: string, start: nat) returns (end: nat)
    requires start <= |path|
    ensures end == Separator(path, start)
  {
    end := start;
    while end < |path| && path[end] != '/'
      invariant start <= end <= |path| && Separator(path, end) == Separator(path, start)
    {
      end := end + 1;
    }
  }

  method Find(value: Value, path: string) returns (result: Result<Value>)
    ensures result == Found(value, path)
  {
    if path == "" {
      return Success(value);
    }
    if path[0] != '/' {
      return Failure(InvalidArgument);
    }
    var current := value;
    var start := 1;
    hide Separator, Unescape, Spelled;
    while true
      invariant 1 <= start <= |path|
      invariant FindFrom(current, path, start) == Found(value, path)
      decreases |path| - start
    {
      var end := FindSeparator(path, start);
      var token := UnescapePathToken(path[start..end]);
      if token.Failure? {
        return Failure(token.error);
      }
      if current.Object? {
        if token.value !in current.fields {
          return Failure(Configuration);
        }
        current := current.fields[token.value];
      } else if current.List? {
        if token.value == "" {
          return Failure(InvalidArgument);
        }
        var index := ParseIndex(token.value);
        if index.Failure? {
          return Failure(index.error);
        }
        if index.value >= |current.items| {
          return Failure(Index);
        }
        current := current.items[index.value];
      } else {
        return Failure(Configuration);
      }
      if end == |path| {
        return Success(current);
      }
      start := end + 1;
    }
  }

  /** A lookup succeeds exactly when its path parses and its tokens lead somewhere. */
  lemma {:induction false} FindFromIsWalk(value: Value, path: string, start: nat, node: Value)
    requires start <= |path|
    ensures FindFrom(value, path, start) == Success(node)
            <==> ParseFrom(path, start).Success? && Walk(value, ParseFrom(path, start).value) == Success(node)
    decreases |path| - start
  {
    hide Unescape, Separator, Descend;
    var end := Separator(path, start);
    var token := Unescape(path[start..end]);
    if token.Success? {
      var child := Descend(value, token.value);
      if end < |path| && child.Success? {
        FindFromIsWalk(child.value, path, end + 1, node);
      }
      WalkCons(value, token.value, []);
      if end < |path| && ParseFrom(path, end + 1).Success? {
        WalkCons(value, token.value, ParseFrom(path, end + 1).value);
      }
    }
  }

  lemma WalkCons(value: Value, token: string, rest: Tokens)
    ensures Walk(value, [token] + rest)
            == if Descend(value, token).Success? then Walk(Descend(value, token).value, rest) else Descend(value, token)
  {
    assert ([token] + rest)[1..] == rest;
  }

  /** A value whose lists are indexable by the machine's sizes. */
  predicate Addressable(value: Value) {
    match value
    case List(items) => |items| <= SIZE_MAX && forall i :: 0 <= i < |items| ==> Addressable(items[i])
    case Object(fields) => forall key :: key in fields ==> Addressable(fields[key])
    case _ => true
  }

  lemma {:induction false} DescendToChild(value: Value, token: string)
    requires Addressable(value) && Child(value, token).Some?
    ensures Descend(value, token) == Success(Child(value, token).value) && Addressable(Child(value, token).value)
  {
    if value.List? {
      var i :| 0 <= i < |value.items| && Decimal(i) == token;
      ListChild(value.items, i);
      SpelledDecimal(i);
    }
  }

  lemma {:induction false} WalkToNode(value: Value, tokens: Tokens)
    requires Addressable(value) && IsNode(value, tokens)
    ensures Walk(value, tokens) == Success(Node(value, tokens).value)
    decreases |tokens|
  {
    if |tokens| == 0 {
    } else {
      DescendToChild(value, tokens[0]);
      WalkToNode(Child(value, tokens[0]).value, tokens[1..]);
    }
  }

  /** The lookup of a node's canonical path returns that node. */
  lemma FindsNode(value: Value, tokens: Tokens)
    requires Addressable(value) && IsNode(value, tokens)
    ensures Found(value, Render(tokens)) == Success(Node(value, tokens).value)
  {
    var path := Render(tokens);
    ParseIffRender(path, tokens);
    WalkToNode(value, tokens);
    if path != "" {
      FindFromIsWalk(value, path, 1, Node(value, tokens).value);
    }
  }

  // ----- Validated configurations -------------------------------------------

  datatype Validated = Validated(value: Value, entries: Entries)

  /** The metadata of a configuration validated from `input`: one entry for each node and no other. */
  ghost predicate IsConfiguration(
      schema: Schema, input: Value, fallback: Origin, origins: Option<Origins>, configuration: Validated)
  {
    && Validate(schema, input) == Some(configuration.value)
    && Recorded(map[], configuration.entries, [], configuration.value,
                Expected(Context(schema, [], fallback, origins, false), input))
  }

  method ValidateConfiguration(schema: Schema, input: Value, origin: Origin) returns (result: Result<Validated>)
    ensures result.Success? <==> Validate(schema, input).Some?
    ensures result.Success? ==> IsConfiguration(schema, input, origin, None, result.value)
    ensures result.Failure? ==> result.error == Configuration
  {
    hide Validate, Recorded, Expected;
    var table := new Table();
    var validated := ValidateNode(schema, input, "", [], origin, None, false, table);
    if validated.None? {
      return Failure(Configuration);
    }
    return Success(Validated(validated.value, table.entries));
  }

  /** Succeeds exactly when the value is valid and every origin names a node of the validated value. */
  method ValidateWithOrigins(schema: Schema, input: Value, origins: Origins, fallback: Origin)
    returns (result: Result<Validated>)
    ensures result.Success? <==>
      && Validate(schema, input).Some?
      && forall path :: path in origins ==> IsPath(Validate(schema, input).value, [], path)
    ensures result.Success? ==> IsConfiguration(schema, input, fallback, Some(origins), result.value)
    ensures result.Failure? ==> result.error == Configuration
  {
    hide Validate, Expected;
    var table := new Table();
    var validated := ValidateNode(schema, input, "", [], fallback, Some(origins), false, table);
    if validated.None? {
      return Failure(Configuration);
    }
    KeysArePaths(table.entries, validated.value, Expected(Context(schema, [], fallback, Some(origins), false), input));
    if !(origins.Keys <= table.entries.Keys) {
      return Failure(Configuration);
    }
    return Success(Validated(validated.value, table.entries));
  }

  /** The keys of the metadata are exactly the canonical paths of the nodes. */
  lemma {:induction false} KeysArePaths(entries: Entries, value: Value, expected: Tokens -> Entry)
    requires Recorded(map[], entries, [], value, expected)
    ensures forall path :: path in entries <==> IsPath(value, [], path)
    ensures forall tokens :: IsNode(value, tokens) ==> EntryIs(entries, Render(tokens), expected(tokens))
  {
    hide Render;
    assert forall tokens: Tokens :: [] + tokens == tokens;
    forall path | path in entries
      ensures IsPath(value, [], path)
    {
      var nothing: Entries := map[];
      assert !EntryIs(nothing, path, entries[path]);
    }
  }

  /** `path` is the canonical path of this node, and looking it up returns the node. */
  ghost predicate FindsNodeAt(value: Value, path: string, tokens: Tokens) {
    IsNode(value, tokens) && path == Render(tokens) && Found(value, path) == Success(Node(value, tokens).value)
  }

  /** In a validated configuration the metadata keys are exactly the canonical
      paths of the nodes, and looking one up returns its node. */
  lemma {:induction false} EveryKeyFindsItsNode(
      schema: Schema, input: Value, fallback: Origin, origins: Option<Origins>, configuration: Validated, path: string)
    requires IsConfiguration(schema, input, fallback, origins, configuration) && Addressable(configuration.value)
    ensures path in configuration.entries <==> exists tokens :: FindsNodeAt(configuration.value, path, tokens)
  {
    hide *;
    var value := configuration.value;
    ConfigurationKeys(schema, input, fallback, origins, configuration);
    PathFindsNode(value, path);
  }

  lemma ConfigurationKeys(
      schema: Schema, input: Value, fallback: Origin, origins: Option<Origins>, configuration: Validated)
    requires IsConfiguration(schema, input, fallback, origins, configuration)
    ensures forall path :: path in configuration.entries <==> IsPath(configuration.value, [], path)
  {
    hide Expected, Recorded, IsPath, Validate;
    KeysArePaths(configuration.entries, configuration.value,
                 Expected(Context(schema, [], fallback, origins, false), input));
  }

  lemma PathFindsNode(value: Value, path: string)
    requires Addressable(value)
    ensures IsPath(value, [], path) <==> exists tokens :: FindsNodeAt(value, path, tokens)
  {
    hide Render, Found, Addressable, Node;
    if IsPath(value, [], path) {
      var tokens :| IsNode(value, tokens) && path == Render([] + tokens);
      assert [] + tokens == tokens;
      FindsNode(value, tokens);
      assert FindsNodeAt(value, path, tokens);
    }
    if exists tokens :: FindsNodeAt(value, path, tokens) {
      var tokens :| FindsNodeAt(value, path, tokens);
      assert [] + tokens == tokens;
    }
  }

  // ----- Sensitivity --------------------------------------------------------

  lemma {:induction false} SensitivityDescends(schema: Schema, inherited: bool, a: Tokens, b: Tokens)
    requires SensitiveAt(schema, inherited, a)
    ensures SensitiveAt(schema, inherited, a + b)
    decreases |a|, |b|
  {
    if |a| == 0 {
      SensitivityStays(schema, inherited, b);
      assert a + b == b;
    } else if schema.kind == ObjectKind && a[0] in schema.fields {
      assert (a + b)[1..] == a[1..] + b;
      SensitivityDescends(schema.fields[a[0]], inherited || schema.sensitive, a[1..], b);
    }
  }

  lemma {:induction false} SensitivityStays(schema: Schema, inherited: bool, b: Tokens)
    requires inherited || schema.sensitive
    ensures SensitiveAt(schema, inherited, b)
    decreases |b|
  {
    if |b| > 0 && schema.kind == ObjectKind && b[0] in schema.fields {
      SensitivityStays(schema.fields[b[0]], true, b[1..]);
    }
  }

  /** Everything below a sensitive node is sensitive. */
  lemma SensitiveIsClosed(
      schema: Schema, input: Value, fallback: Origin, origins: Option<Origins>, configuration: Validated, a: Tokens,
      b: Tokens)
    requires IsConfiguration(schema, input, fallback, origins, configuration)
    requires IsNode(configuration.value, a) && IsNode(configuration.value, a + b)
    ensures Render(a) in configuration.entries && Render(a + b) in configuration.entries
    ensures configuration.entries[Render(a)].sensitive ==> configuration.entries[Render(a + b)].sensitive
  {
    hide Render, Validate, OriginAt, DeprecatedAt, SensitiveAt, IsNode;
    KeysArePaths(configuration.entries, configuration.value,
                 Expected(Context(schema, [], fallback, origins, false), input));
    hide Recorded, IsConfiguration;
    if SensitiveAt(schema, false, a) {
      SensitivityDescends(schema, false, a, b);
    }
  }

  // ----- Origins ------------------------------------------------------------

  /** Origin of the deepest ancestor-or-self that has one, else the fallback. */
  function Deepest(origins: Origins, fallback: Origin, at: Tokens, tokens: Tokens): Origin
    decreases |tokens|
  {
    if Render(at + tokens) in origins then origins[Render(at + tokens)]
    else if |tokens| == 0 then fallback
    else Deepest(origins, fallback, at, tokens[..|tokens| - 1])
  }

  lemma {:induction false} DeepestFromTop(origins: Origins, fallback: Origin, at: Tokens, token: string, rest: Tokens)
    ensures Deepest(origins, fallback, at, [token] + rest)
            == Deepest(origins, OriginHere(Some(origins), Render(at), fallback), at + [token], rest)
    decreases |rest|
  {
    hide Render;
    var tokens := [token] + rest;
    assert at + tokens == (at + [token]) + rest;
    if |rest| == 0 {
      assert tokens[..0] == [] && at + [] == at;
    } else {
      var shorter := rest[..|rest| - 1];
      assert tokens[..|tokens| - 1] == [token] + shorter;
      DeepestFromTop(origins, fallback, at, token, shorter);
    }
  }

  /** A node of the input takes the origin of its deepest ancestor-or-self that
      has one; everything filled in by default has the default origin. */
  lemma {:induction false} OriginIsDeepest(input: Value, at: Tokens, fallback: Origin, origins: Origins, tokens: Tokens)
    ensures OriginAt(input, at, fallback, Some(origins), tokens)
            == if IsNode(input, tokens) then Deepest(origins, fallback, at, tokens) else DEFAULT_ORIGIN
    decreases |tokens|
  {
    hide Render, Child;
    assert at + [] == at;
    if |tokens| > 0 && Child(input, tokens[0]).Some? {
      var here := OriginHere(Some(origins), Render(at), fallback);
      OriginIsDeepest(Child(input, tokens[0]).value, at + [tokens[0]], here, origins, tokens[1..]);
      assert [tokens[0]] + tokens[1..] == tokens;
      DeepestFromTop(origins, fallback, at, tokens[0], tokens[1..]);
    }
  }

  /** The origin recorded for each node of a validated configuration. */
  lemma RecordedOrigin(
      schema: Schema, input: Value, fallback: Origin, origins: Origins, configuration: Validated, tokens: Tokens)
    requires IsConfiguration(schema, input, fallback, Some(origins), configuration)
    requires IsNode(configuration.value, tokens)
    ensures Render(tokens) in configuration.entries
    ensures configuration.entries[Render(tokens)].origin
            == if IsNode(input, tokens) then Deepest(origins, fallback, [], tokens) else DEFAULT_ORIGIN
  {
    hide Render, Validate, OriginAt, DeprecatedAt, SensitiveAt, IsNode;
    KeysArePaths(configuration.entries, configuration.value,
                 Expected(Context(schema, [], fallback, Some(origins), false), input));
    OriginIsDeepest(input, [], fallback, origins, tokens);
  }
}

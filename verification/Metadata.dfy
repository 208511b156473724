/** What is known about each node of a validated configuration, and the table that records it. */
module Metadata {
  import opened Results
  import opened Pointers
  import opened Values
  import opened Schemas

  datatype OriginKind = DefaultKind | ProgrammaticKind | CommandLineKind
  datatype Origin = Origin(kind: OriginKind, source: Option<string>, location: Option<string>)
  datatype Entry = Entry(origin: Origin, sensitive: bool, deprecated: bool)

  type Origins = map<string, Origin>
  type Entries = map<string, Entry>

  const DEFAULT_ORIGIN := Origin(DefaultKind, None, None)

  // ----- What each entry should be ------------------------------------------

  function OriginHere(origins: Option<Origins>, path: string, inherited: Origin): Origin {
    if origins.Some? && path in origins.value then origins.value[path] else inherited
  }

  /** Origin of the node `tokens` below an input at `at`: default for what the input lacks. */
  ghost function OriginAt(input: Value, at: Tokens, inherited: Origin, origins: Option<Origins>, tokens: Tokens): Origin
    decreases |tokens|
  {
    var here := OriginHere(origins, Render(at), inherited);
    if |tokens| == 0 then here
    else
      match Child(input, tokens[0])
      case None => DEFAULT_ORIGIN
      case Some(child) => OriginAt(child, at + [tokens[0]], here, origins, tokens[1..])
  }

  /** Whether the node or an ancestor is declared sensitive. */
  function SensitiveAt(schema: Schema, inherited: bool, tokens: Tokens): bool
    decreases |tokens|
  {
    var here := inherited || schema.sensitive;
    if |tokens| == 0 || schema.kind != ObjectKind || tokens[0] !in schema.fields then here
    else SensitiveAt(schema.fields[tokens[0]], here, tokens[1..])
  }

  /** Whether the schema of the node, or of the list that holds it, is deprecated. */
  function DeprecatedAt(schema: Schema, tokens: Tokens): bool
    decreases |tokens|
  {
    if |tokens| == 0 || schema.kind != ObjectKind || tokens[0] !in schema.fields then schema.deprecated
    else DeprecatedAt(schema.fields[tokens[0]], tokens[1..])
  }

  /** Where validation of a node stands. */
  datatype Context = Context(schema: Schema, at: Tokens, inherited: Origin, origins: Option<Origins>, sensitive: bool)

  ghost function Expected(c: Context, input: Value): Tokens -> Entry {
    (tokens: Tokens) =>
      Entry(OriginAt(input, c.at, c.inherited, c.origins, tokens),
            SensitiveAt(c.schema, c.sensitive, tokens),
            DeprecatedAt(c.schema, tokens))
  }

  /** The entries below a list, which has no schema for its items. */
  ghost function Inherited(value: Value, at: Tokens, inherited: Entry, origins: Option<Origins>): Tokens -> Entry {
    (tokens: Tokens) => inherited.(origin := OriginAt(value, at, inherited.origin, origins, tokens))
  }

  lemma {:induction false} DefaultsAreDefault(value: Value, at: Tokens, tokens: Tokens)
    ensures OriginAt(value, at, DEFAULT_ORIGIN, None, tokens) == DEFAULT_ORIGIN
    decreases |tokens|
  {
    if |tokens| > 0 && Child(value, tokens[0]).Some? {
      DefaultsAreDefault(Child(value, tokens[0]).value, at + [tokens[0]], tokens[1..]);
    }
  }

  // ----- Recording ----------------------------------------------------------

  /** The nodes at `value` itself or below one of the children `done`. */
  ghost predicate Among(value: Value, done: set<string>, tokens: Tokens) {
    IsNode(value, tokens) && (|tokens| == 0 || tokens[0] in done)
  }

  ghost predicate IsPathAmong(value: Value, done: set<string>, at: Tokens, path: string) {
    exists tokens :: Among(value, done, tokens) && path == Render(at + tokens)
  }

  /** `after` is `before` with exactly the entries of these nodes recorded. */
  ghost predicate RecordedAmong(
      before: Entries, after: Entries, at: Tokens, value: Value, done: set<string>, expected: Tokens -> Entry)
  {
    && before.Keys <= after.Keys
    && (forall tokens :: Among(value, done, tokens) ==> EntryIs(after, Render(at + tokens), expected(tokens)))
    && (forall path :: path in after && !IsPathAmong(value, done, at, path) ==> EntryIs(before, path, after[path]))
  }

  predicate EntryIs(entries: Entries, path: string, entry: Entry) {
    path in entries && entries[path] == entry
  }

  /** `after` is `before` with exactly the entries of the nodes of `value` recorded. */
  ghost predicate Recorded(before: Entries, after: Entries, at: Tokens, value: Value, expected: Tokens -> Entry) {
    && before.Keys <= after.Keys
    && (forall tokens :: IsNode(value, tokens) ==> EntryIs(after, Render(at + tokens), expected(tokens)))
    && (forall path :: path in after && !IsPath(value, at, path) ==> EntryIs(before, path, after[path]))
  }

  ghost predicate IsPath(value: Value, at: Tokens, path: string) {
    exists tokens :: IsNode(value, tokens) && path == Render(at + tokens)
  }

  lemma {:induction false} RootRecorded(before: Entries, at: Tokens, value: Value, expected: Tokens -> Entry)
    ensures RecordedAmong(before, before[Render(at) := expected([])], at, value, {}, expected)
  {
    assert at + [] == at;
    assert Among(value, {}, []);
    forall tokens | Among(value, {}, tokens)
      ensures tokens == []
    {
    }
  }

  /** Recording one more child. */
  lemma {:induction false} ChildRecorded(
      before: Entries, middle: Entries, after: Entries, at: Tokens, value: Value, done: set<string>, token: string,
      child: Value, expected: Tokens -> Entry, below: Tokens -> Entry)
    requires RecordedAmong(before, middle, at, value, done, expected)
    requires Child(value, token) == Some(child) && token !in done
    requires Recorded(middle, after, at + [token], child, below)
    requires forall tokens :: IsNode(child, tokens) ==> below(tokens) == expected([token] + tokens)
    ensures RecordedAmong(before, after, at, value, done + {token}, expected)
  {
    hide Render;
    forall tokens | Among(value, done + {token}, tokens)
      ensures EntryIs(after, Render(at + tokens), expected(tokens))
    {
      NewEntry(before, middle, after, at, value, done, token, child, expected, below, tokens);
    }
    forall path | path in after && !IsPathAmong(value, done + {token}, at, path)
      ensures EntryIs(before, path, after[path])
    {
      OldEntry(before, middle, after, at, value, done, token, child, expected, below, path);
    }
  }

  lemma {:induction false} NewEntry(
      before: Entries, middle: Entries, after: Entries, at: Tokens, value: Value, done: set<string>, token: string,
      child: Value, expected: Tokens -> Entry, below: Tokens -> Entry, tokens: Tokens)
    requires RecordedAmong(before, middle, at, value, done, expected)
    requires Child(value, token) == Some(child) && token !in done
    requires Recorded(middle, after, at + [token], child, below)
    requires forall rest :: IsNode(child, rest) ==> below(rest) == expected([token] + rest)
    requires Among(value, done + {token}, tokens)
    ensures EntryIs(after, Render(at + tokens), expected(tokens))
  {
    if |tokens| > 0 && tokens[0] == token {
      hide Render, Child, RecordedAmong;
      var rest := tokens[1..];
      assert tokens == [token] + rest;
      assert (at + [token]) + rest == at + tokens;
      assert IsNode(child, rest);
    } else {
      hide Render, Child, IsNode;
      assert Among(value, done, tokens);
      assert EntryIs(middle, Render(at + tokens), expected(tokens));
      OutsideChild(at, tokens, token, child);
      hide RecordedAmong, IsPath;
    }
  }

  /** Other children have other paths. */
  lemma OutsideChild(at: Tokens, tokens: Tokens, token: string, child: Value)
    requires |tokens| == 0 || tokens[0] != token
    ensures !IsPath(child, at + [token], Render(at + tokens))
  {
    if IsPath(child, at + [token], Render(at + tokens)) {
      var rest :| IsNode(child, rest) && Render(at + tokens) == Render((at + [token]) + rest);
      RenderInjective(at + tokens, (at + [token]) + rest);
      Unequal(at, tokens, token, rest);
    }
  }

  lemma Unequal(at: Tokens, tokens: Tokens, token: string, rest: Tokens)
    ensures at + tokens == (at + [token]) + rest ==> |tokens| > 0 && tokens[0] == token
  {
    if at + tokens == (at + [token]) + rest {
      assert (at + tokens)[|at|..] == tokens;
      assert ((at + [token]) + rest)[|at|..] == [token] + rest;
    }
  }

  lemma {:induction false} PathsAmong(
      value: Value, done: set<string>, at: Tokens, token: string, child: Value, path: string)
    requires Child(value, token) == Some(child)
    ensures IsPath(child, at + [token], path) ==> IsPathAmong(value, done + {token}, at, path)
    ensures IsPathAmong(value, done, at, path) ==> IsPathAmong(value, done + {token}, at, path)
  {
    hide Render, Child;
    if IsPath(child, at + [token], path) {
      var rest :| IsNode(child, rest) && path == Render((at + [token]) + rest);
      var tokens := [token] + rest;
      assert tokens[1..] == rest && at + tokens == (at + [token]) + rest;
      assert Among(value, done + {token}, tokens);
    }
    if IsPathAmong(value, done, at, path) {
      var tokens :| Among(value, done, tokens) && path == Render(at + tokens);
      assert Among(value, done + {token}, tokens);
    }
  }

  lemma {:induction false} OldEntry(
      before: Entries, middle: Entries, after: Entries, at: Tokens, value: Value, done: set<string>, token: string,
      child: Value, expected: Tokens -> Entry, below: Tokens -> Entry, path: string)
    requires RecordedAmong(before, middle, at, value, done, expected)
    requires Child(value, token) == Some(child)
    requires Recorded(middle, after, at + [token], child, below)
    requires path in after && !IsPathAmong(value, done + {token}, at, path)
    ensures EntryIs(before, path, after[path])
  {
    PathsAmong(value, done, at, token, child, path);
    hide Render, Child, IsPath, IsPathAmong;
  }

  /** A token without a child adds nothing. */
  lemma NothingRecorded(
      before: Entries, after: Entries, at: Tokens, value: Value, done: set<string>, token: string,
      expected: Tokens -> Entry)
    requires RecordedAmong(before, after, at, value, done, expected) && Child(value, token).None?
    ensures RecordedAmong(before, after, at, value, done + {token}, expected)
  {
    hide Render;
    SameNodes(value, done, done + {token}, at);
  }

  lemma {:induction false} SameNodes(value: Value, done: set<string>, more: set<string>, at: Tokens)
    requires done <= more && forall token :: token in more && token !in done ==> Child(value, token).None?
    ensures forall tokens :: Among(value, more, tokens) <==> Among(value, done, tokens)
    ensures forall path :: IsPathAmong(value, more, at, path) <==> IsPathAmong(value, done, at, path)
  {
    hide Render;
  }

  lemma AllRecorded(
      before: Entries, after: Entries, at: Tokens, value: Value, done: set<string>, expected: Tokens -> Entry)
    requires RecordedAmong(before, after, at, value, done, expected)
    requires forall token :: Child(value, token).Some? ==> token in done
    ensures Recorded(before, after, at, value, expected)
  {
    hide Render, Child;
    assert forall tokens :: Among(value, done, tokens) <==> IsNode(value, tokens);
    forall path | IsPathAmong(value, done, at, path)
      ensures IsPath(value, at, path)
    {
      var tokens :| Among(value, done, tokens) && path == Render(at + tokens);
    }
  }
}

/** Command-line options and what a parser over a schema accepts of them. */
module CommandOptions {
  import opened Results
  import opened Pointers
  import opened Values
  import opened Schemas

  datatype CommandOption = CommandOption(longName: string, shortName: Option<char>, destination: string)

  // ----- Destinations -------------------------------------------------------

  /** The schema at the end of a path of object fields. */
  function SchemaAt(schema: Schema, tokens: Tokens): Result<Schema>
    decreases |tokens|
  {
    if |tokens| == 0 then Success(schema)
    else if schema.kind != ObjectKind || tokens[0] !in schema.fields then Failure(InvalidArgument)
    else SchemaAt(schema.fields[tokens[0]], tokens[1..])
  }

  predicate IsSupportedLeaf(kind: Kind) {
    kind in {BooleanKind, SignedKind, UnsignedKind, DoubleKind, StringKind}
  }

  /** The type at the destination of an option. */
  function OptionKind(schema: Schema, option: CommandOption): Result<Kind> {
    match Parse(option.destination)
    case Failure(error) => Failure(error)
    case Success(tokens) =>
      match SchemaAt(schema, tokens)
      case Failure(error) => Failure(error)
      case Success(leaf) => Success(leaf.kind)
  }

  method FindSchema(schema: Schema, tokens: Tokens) returns (result: Result<Schema>)
    ensures result == SchemaAt(schema, tokens)
  {
    var current := schema;
    for index := 0 to |tokens|
      invariant SchemaAt(current, tokens[index..]) == SchemaAt(schema, tokens)
    {
      assert tokens[index..][1..] == tokens[index + 1..];
      if current.kind != ObjectKind {
        return Failure(InvalidArgument);
      }
      if tokens[index] !in current.fields {
        return Failure(InvalidArgument);
      }
      current := current.fields[tokens[index]];
    }
    return Success(current);
  }

  /** Splits and unescapes a destination, token by token. */
  method ParsePointer(path: string) returns (result: Result<Tokens>)
    ensures result == Parse(path)
  {
    if path == "" {
      return Success([]);
    }
    if path[0] != '/' {
      return Failure(InvalidArgument);
    }
    var tokens: Tokens := [];
    var begin := 1;
    hide Unescape;
    while true
      invariant 1 <= begin <= |path|
      invariant Appended(tokens, ParseFrom(path, begin)) == Appended([], ParseFrom(path, 1))
      decreases |path| - begin
    {
      var end := begin;
      while end < |path| && path[end] != '/'
        invariant begin <= end <= |path| && Separator(path, end) == Separator(path, begin)
      {
        end := end + 1;
      }
      var token := UnescapePathToken(path[begin..end]);
      if token.Failure? {
        UnescapeError(path[begin..end]);
        return Failure(InvalidArgument);
      }
      AppendedCons(tokens, token.value, if end == |path| then Success([]) else ParseFrom(path, end + 1));
      tokens := tokens + [token.value];
      if end == |path| {
        assert tokens + [] == tokens;
        AppendedNothing(ParseFrom(path, 1));
        return Success(tokens);
      }
      begin := end + 1;
    }
  }

  function Appended(prefix: Tokens, rest: Result<Tokens>): Result<Tokens> {
    match rest
    case Success(tokens) => Success(prefix + tokens)
    case Failure(error) => Failure(error)
  }

  lemma AppendedCons(prefix: Tokens, token: string, rest: Result<Tokens>)
    ensures Appended(prefix, Cons(token, rest)) == Appended(prefix + [token], rest)
  {
    if rest.Success? {
      assert prefix + ([token] + rest.value) == (prefix + [token]) + rest.value;
    }
  }

  lemma AppendedNothing(rest: Result<Tokens>)
    ensures Appended([], rest) == rest
  {
    if rest.Success? {
      assert [] + rest.value == rest.value;
    }
  }

  lemma {:induction false} UnescapeError(encoded: string)
    ensures Unescape(encoded).Failure? ==> Unescape(encoded).error == InvalidArgument
    decreases |encoded|
  {
    if |encoded| == 0 {
    } else {
      if encoded[0] != '~' {
        UnescapeError(encoded[1..]);
      } else if |encoded| > 1 {
        UnescapeError(encoded[2..]);
      }
    }
  }

  // ----- What a parser accepts ----------------------------------------------

  predicate IsAlphanumeric(c: char) {
    '0' <= c <= '9' || 'A' <= c <= 'Z' || 'a' <= c <= 'z'
  }

  predicate IsName(name: string) {
    && name != "" && name[0] != '-'
    && forall i :: 0 <= i < |name| ==> IsAlphanumeric(name[i]) || name[i] == '-' || name[i] == '_'
  }

  predicate OptionAccepted(schema: Schema, option: CommandOption) {
    && IsName(option.longName)
    && (option.shortName.Some? ==> IsAlphanumeric(option.shortName.value))
    && OptionKind(schema, option).Success? && IsSupportedLeaf(OptionKind(schema, option).value)
  }

  predicate Distinguished(a: CommandOption, b: CommandOption) {
    && a.longName != b.longName && a.destination != b.destination
    && (a.shortName.Some? ==> a.shortName != b.shortName)
  }

  /** An option whose negated name another option spells. */
  predicate Collides(schema: Schema, a: CommandOption, b: CommandOption) {
    b.longName == "no-" + a.longName && OptionKind(schema, a) == Success(BooleanKind)
  }

  predicate Accepted(schema: Schema, options: seq<CommandOption>) {
    && AllDistinguished(schema, options)
    && forall i, j :: 0 <= i < |options| && 0 <= j < |options| ==> !Collides(schema, options[i], options[j])
  }

  predicate AllDistinguished(schema: Schema, options: seq<CommandOption>) {
    && (forall i :: 0 <= i < |options| ==> OptionAccepted(schema, options[i]))
    && (forall i, j :: 0 <= i < j < |options| ==> Distinguished(options[i], options[j]))
  }

  function FindLongOption(options: seq<CommandOption>, name: string): (found: Option<CommandOption>)
    ensures found.None? <==> forall i :: 0 <= i < |options| ==> options[i].longName != name
    ensures found.Some? ==> found.value in options && found.value.longName == name
  {
    if |options| == 0 then None
    else if options[0].longName == name then Some(options[0])
    else FindLongOption(options[1..], name)
  }

  function FindShortOption(options: seq<CommandOption>, name: char): (found: Option<CommandOption>)
    ensures found.None? <==> forall i :: 0 <= i < |options| ==> options[i].shortName != Some(name)
    ensures found.Some? ==> found.value in options && found.value.shortName == Some(name)
  {
    if |options| == 0 then None
    else if options[0].shortName == Some(name) then Some(options[0])
    else FindShortOption(options[1..], name)
  }

  /** Whether an option repeats a name or a destination of an earlier one. */
  predicate Repeats(options: seq<CommandOption>, index: nat)
    requires index < |options|
  {
    exists i :: 0 <= i < index && !Distinguished(options[i], options[index])
  }

  /** The outcome of checking one option against those before it. */
  function OptionStatus(schema: Schema, options: seq<CommandOption>, index: nat): Status
    requires index < |options|
  {
    var option := options[index];
    if !IsName(option.longName) || (option.shortName.Some? && !IsAlphanumeric(option.shortName.value)) then
      Failed(InvalidArgument)
    else if Repeats(options, index) then Failed(InvalidArgument)
    else
      match OptionKind(schema, option)
      case Failure(error) => Failed(error)
      case Success(kind) => if IsSupportedLeaf(kind) then Ok else Failed(Unsupported)
  }

  /** The first failure among the first `count` options. */
  function OptionsStatus(schema: Schema, options: seq<CommandOption>, count: nat): Status
    requires count <= |options|
  {
    if count == 0 then Ok
    else if OptionsStatus(schema, options, count - 1) != Ok then OptionsStatus(schema, options, count - 1)
    else OptionStatus(schema, options, count - 1)
  }

  lemma {:induction false} FailedOption(schema: Schema, options: seq<CommandOption>, count: nat)
    requires count <= |options| && OptionsStatus(schema, options, count) != Ok
    ensures OptionsStatus(schema, options, |options|) == OptionsStatus(schema, options, count)
    decreases |options| - count
  {
    if count < |options| {
      FailedOption(schema, options, count + 1);
    }
  }

  /** What creating a parser reports: the first bad option, then any negation collision. */
  function CreateStatus(schema: Schema, options: seq<CommandOption>): Status {
    if OptionsStatus(schema, options, |options|) != Ok then OptionsStatus(schema, options, |options|)
    else if Accepted(schema, options) then Ok
    else Failed(InvalidArgument)
  }

  /** The checks of one option against those before it. */
  method CheckOption(schema: Schema, options: seq<CommandOption>, index: nat,
                     longNames: set<string>, shortNames: set<char>, destinations: set<string>)
    returns (status: Status)
    requires index < |options|
    requires longNames == set i | 0 <= i < index :: options[i].longName
    requires shortNames == set i | 0 <= i < index && options[i].shortName.Some? :: options[i].shortName.value
    requires destinations == set i | 0 <= i < index :: options[i].destination
    ensures status == Ok <==>
      && OptionAccepted(schema, options[index])
      && forall i :: 0 <= i < index ==> Distinguished(options[i], options[index])
    ensures status == OptionStatus(schema, options, index)
  {
    var option := options[index];
    if !IsName(option.longName) || option.longName in longNames {
      return Failed(InvalidArgument);
    }
    if option.shortName.Some? && (!IsAlphanumeric(option.shortName.value) || option.shortName.value in shortNames) {
      return Failed(InvalidArgument);
    }
    if option.destination in destinations {
      return Failed(InvalidArgument);
    }
    var path := ParsePointer(option.destination);
    if path.Failure? {
      ParseError(option.destination);
      return Failed(path.error);
    }
    var leaf := FindSchema(schema, path.value);
    if leaf.Failure? {
      SchemaError(schema, path.value);
      return Failed(leaf.error);
    }
    return if IsSupportedLeaf(leaf.value.kind) then Ok else Failed(Unsupported);
  }

  lemma {:induction false} ParseFromError(path: string, start: nat)
    requires start <= |path|
    ensures ParseFrom(path, start).Failure? ==> ParseFrom(path, start).error == InvalidArgument
    decreases |path| - start
  {
    var end := Separator(path, start);
    UnescapeError(path[start..end]);
    if end < |path| {
      ParseFromError(path, end + 1);
    }
  }

  lemma ParseError(path: string)
    ensures Parse(path).Failure? ==> Parse(path).error == InvalidArgument
  {
    if path != "" {
      ParseFromError(path, 1);
    }
  }

  lemma {:induction false} SchemaError(schema: Schema, tokens: Tokens)
    ensures SchemaAt(schema, tokens).Failure? ==> SchemaAt(schema, tokens).error == InvalidArgument
    decreases |tokens|
  {
    if |tokens| > 0 && schema.kind == ObjectKind && tokens[0] in schema.fields {
      SchemaError(schema.fields[tokens[0]], tokens[1..]);
    }
  }

  lemma AcceptedSoFar(schema: Schema, options: seq<CommandOption>, index: nat)
    requires index < |options| && AllDistinguished(schema, options[..index])
    requires OptionAccepted(schema, options[index])
    requires forall i :: 0 <= i < index ==> Distinguished(options[i], options[index])
    ensures AllDistinguished(schema, options[..index + 1])
  {
    hide OptionAccepted, Distinguished;
    var before, all := options[..index], options[..index + 1];
    forall i, j | 0 <= i < j < |all|
      ensures Distinguished(all[i], all[j])
    {
      if j < index {
        assert Distinguished(before[i], before[j]);
      }
    }
  }

  lemma BadOption(schema: Schema, options: seq<CommandOption>, index: nat)
    requires index < |options|
    requires !OptionAccepted(schema, options[index])
             || exists i :: 0 <= i < index && !Distinguished(options[i], options[index])
    ensures !Accepted(schema, options)
  {
    hide OptionAccepted, Distinguished;
  }

  lemma NoOptions(schema: Schema, options: seq<CommandOption>)
    ensures AllDistinguished(schema, options[..0])
  {
  }

  lemma AcceptedIf(schema: Schema, options: seq<CommandOption>)
    requires AllDistinguished(schema, options)
    ensures Accepted(schema, options) <==>
            forall i, j :: 0 <= i < |options| && 0 <= j < |options| ==> !Collides(schema, options[i], options[j])
  {
  }

  /** Succeeds exactly on option lists that are accepted. */
  method Create(schema: Schema, options: seq<CommandOption>) returns (status: Status)
    ensures status == Ok <==> Accepted(schema, options)
    ensures status == CreateStatus(schema, options)
  {
    var longNames: set<string>, shortNames: set<char>, destinations: set<string> := {}, {}, {};
    hide OptionAccepted, Distinguished, OptionKind, OptionStatus, AllDistinguished;
    NoOptions(schema, options);
    for index := 0 to |options|
      invariant longNames == set i | 0 <= i < index :: options[i].longName
      invariant shortNames == set i | 0 <= i < index && options[i].shortName.Some? :: options[i].shortName.value
      invariant destinations == set i | 0 <= i < index :: options[i].destination
      invariant AllDistinguished(schema, options[..index]) && OptionsStatus(schema, options, index) == Ok
    {
      status := CheckOption(schema, options, index, longNames, shortNames, destinations);
      if status != Ok {
        FailedOption(schema, options, index + 1);
        BadOption(schema, options, index);
        return;
      }
      AcceptedSoFar(schema, options, index);
      var option := options[index];
      longNames := longNames + {option.longName};
      shortNames := if option.shortName.Some? then shortNames + {option.shortName.value} else shortNames;
      destinations := destinations + {option.destination};
    }
    assert options[..|options|] == options;
    AcceptedIf(schema, options);
    for index := 0 to |options|
      invariant forall i, j :: 0 <= i < index && 0 <= j < |options| ==> !Collides(schema, options[i], options[j])
    {
      var negated := FindLongOption(options, "no-" + options[index].longName);
      if negated.Some? && OptionKind(schema, options[index]) == Success(BooleanKind) {
        return Failed(InvalidArgument);
      }
    }
    return Ok;
  }

  // ----- Destinations of accepted options -----------------------------------

  predicate IsPrefix(a: Tokens, b: Tokens) {
    |a| <= |b| && b[..|a|] == a
  }

  predicate Incomparable(a: Tokens, b: Tokens) {
    !IsPrefix(a, b) && !IsPrefix(b, a)
  }

  lemma {:induction false} LeavesHaveNothingBelow(schema: Schema, a: Tokens, b: Tokens)
    requires SchemaAt(schema, a).Success? && SchemaAt(schema, a).value.kind != ObjectKind
    requires SchemaAt(schema, b).Success? && IsPrefix(a, b)
    ensures a == b
    decreases |a|
  {
    if |a| == 0 {
    } else {
      assert b[..|a|][0] == b[0] && b[..|a|][1..] == b[1..][..|a| - 1];
      LeavesHaveNothingBelow(schema.fields[a[0]], a[1..], b[1..]);
      assert a == [a[0]] + a[1..] && b == [b[0]] + b[1..];
    }
  }

  function DestinationOf(schema: Schema, option: CommandOption): Tokens
    requires OptionAccepted(schema, option)
  {
    Parse(option.destination).value
  }

  /** Two options with different destinations write to incomparable paths. */
  lemma DestinationsAreIncomparable(schema: Schema, a: CommandOption, b: CommandOption)
    requires OptionAccepted(schema, a) && OptionAccepted(schema, b) && a.destination != b.destination
    ensures Incomparable(DestinationOf(schema, a), DestinationOf(schema, b))
  {
    var p, q := DestinationOf(schema, a), DestinationOf(schema, b);
    ParseIffRender(a.destination, p);
    ParseIffRender(b.destination, q);
    hide Parse, Render;
    if IsPrefix(p, q) {
      LeavesHaveNothingBelow(schema, p, q);
    }
    if IsPrefix(q, p) {
      LeavesHaveNothingBelow(schema, q, p);
    }
  }
}

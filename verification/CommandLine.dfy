/** Parsing an argument vector into a validated configuration. */
module CommandLine {
  import opened Results
  import opened Pointers
  import opened Values
  import opened Schemas
  import opened Metadata
  import opened Configurations
  import opened CommandOptions
  import opened CommandTrees
  import Utf8

  /** A parser; the conversion of decimal text to a double is the library's. */
  datatype Parser = Parser(schema: Schema, options: seq<CommandOption>, readDouble: string -> Option<Number>)

  // ----- Values -------------------------------------------------------------

  const SIGNED_MIN: int := -0x8000_0000_0000_0000
  const SIGNED_MAX: int := 0x7FFF_FFFF_FFFF_FFFF
  const UNSIGNED_MAX: int := 0xFFFF_FFFF_FFFF_FFFF

  function Bytes(text: string): seq<nat> {
    seq(|text|, i requires 0 <= i < |text| => text[i] as int)
  }

  /** The number a whole text of decimal digits spells. */
  function Digits(text: string): Option<nat>
    decreases |text|
  {
    if |text| == 0 then None
    else
      var c := text[|text| - 1];
      if c < '0' || c > '9' then None
      else if |text| == 1 then Some((c - '0') as int)
      else
        match Digits(text[..|text| - 1])
        case None => None
        case Some(high) => Some(10 * high + (c - '0') as int)
  }

  function SignedDigits(text: string): Option<int> {
    var negative := |text| > 0 && text[0] == '-';
    var digits := Digits(if negative then text[1..] else text);
    if digits.None? then None
    else
      var n: int := digits.value;
      if negative then Some(0 - n) else Some(n)
  }

  function ParseValue(text: string, kind: Kind, readDouble: string -> Option<Number>): Result<Value> {
    match kind
    case BooleanKind =>
      if text == "true" then Success(Boolean(true))
      else if text == "false" then Success(Boolean(false))
      else Failure(InvalidArgument)
    case SignedKind =>
      (match SignedDigits(text)
       case Some(n) => if SIGNED_MIN <= n <= SIGNED_MAX then Success(Signed(n)) else Failure(InvalidArgument)
       case None => Failure(InvalidArgument))
    case UnsignedKind =>
      (match Digits(text)
       case Some(n) => if n <= UNSIGNED_MAX then Success(Unsigned(n)) else Failure(InvalidArgument)
       case None => Failure(InvalidArgument))
    case DoubleKind =>
      (match readDouble(text) case Some(x) => Success(Double(x)) case None => Failure(InvalidArgument))
    case StringKind => if Utf8.Accepts(Bytes(text)) then Success(Text(text)) else Failure(Encoding)
    case _ => Failure(Unsupported)
  }

  // ----- One option ---------------------------------------------------------

  datatype Selected = Selected(option: CommandOption, inlineValue: Option<string>, negated: bool)

  function StartsWith(s: string, prefix: string): bool {
    |prefix| <= |s| && s[..|prefix|] == prefix
  }

  function EqualsSign(s: string): (k: nat)
    ensures k <= |s|
    ensures forall i :: 0 <= i < k ==> s[i] != '='
    ensures k < |s| ==> s[k] == '='
  {
    if |s| == 0 || s[0] == '=' then 0 else 1 + EqualsSign(s[1..])
  }

  /** The option of a long token, which starts with two dashes. */
  function SelectLong(p: Parser, token: string): Result<Selected>
    requires |token| >= 2
  {
    var body := token[2..];
    var equals := EqualsSign(body);
    var name := body[..equals];
    var inlineValue := if equals < |body| then Some(body[equals + 1..]) else None;
    if name == "" then Failure(InvalidArgument)
    else
      var option := FindLongOption(p.options, name);
      if option.Some? then Success(Selected(option.value, inlineValue, false))
      else if !StartsWith(name, "no-") then Failure(InvalidArgument)
      else SelectNegated(p, name[3..], inlineValue)
  }

  /** The boolean option that a negated name refers to. */
  function SelectNegated(p: Parser, name: string, inlineValue: Option<string>): Result<Selected> {
    var option := FindLongOption(p.options, name);
    if option.None? then Failure(InvalidArgument)
    else
      match OptionKind(p.schema, option.value)
      case Failure(error) => Failure(error)
      case Success(kind) =>
        if kind != BooleanKind || inlineValue.Some? then Failure(InvalidArgument)
        else Success(Selected(option.value, None, true))
  }

  function SelectShort(p: Parser, token: string): Result<Selected> {
    if |token| != 2 then Failure(Unsupported)
    else
      var option := FindShortOption(p.options, token[1]);
      if option.None? then Failure(InvalidArgument) else Success(Selected(option.value, None, false))
  }

  function Select(p: Parser, token: string): Result<Selected> {
    if StartsWith(token, "--") then SelectLong(p, token) else SelectShort(p, token)
  }

  datatype Reading = Reading(value: Value, usesNext: bool)

  function Read(p: Parser, text: string, kind: Kind, usesNext: bool): Result<Reading> {
    match ParseValue(text, kind, p.readDouble)
    case Failure(error) => Failure(error)
    case Success(value) => Success(Reading(value, usesNext))
  }

  /** The value of a selected option: attached, implied, or the next argument. */
  function ReadValue(p: Parser, selected: Selected, kind: Kind, isLong: bool, next: Option<string>): Result<Reading> {
    if kind == BooleanKind then
      if selected.negated then Success(Reading(Boolean(false), false))
      else if selected.inlineValue.Some? then Read(p, selected.inlineValue.value, kind, false)
      else if isLong && next.Some? && (next.value == "true" || next.value == "false") then
        Read(p, next.value, kind, true)
      else Success(Reading(Boolean(true), false))
    else if selected.inlineValue.Some? then Read(p, selected.inlineValue.value, kind, false)
    else if next.None? then Failure(InvalidArgument)
    else Read(p, next.value, kind, true)
  }

  // ----- The argument vector ------------------------------------------------

  /** An option supplied at an argument. */
  datatype Chosen = Chosen(option: CommandOption, value: Value, index: nat)

  datatype Scanned = Scanned(chosen: seq<Chosen>, positional: seq<string>)

  predicate IsPositional(token: string, recognize: bool) {
    !recognize || token == "" || token[0] != '-' || token == "-"
  }

  /** One option token, given the destinations supplied before it. */
  function Interpret(
      p: Parser, arguments: seq<string>, index: nat, supplied: set<string>): Result<(CommandOption, Reading)>
    requires index < |arguments|
  {
    var token := arguments[index];
    match Select(p, token)
    case Failure(error) => Failure(error)
    case Success(selected) =>
      if selected.option.destination in supplied then Failure(Configuration)
      else
        match OptionKind(p.schema, selected.option)
        case Failure(error) => Failure(error)
        case Success(kind) =>
          var next := if index + 1 < |arguments| then Some(arguments[index + 1]) else None;
          match ReadValue(p, selected, kind, StartsWith(token, "--"), next)
          case Failure(error) => Failure(error)
          case Success(reading) => Success((selected.option, reading))
  }

  /** What remains to be scanned from `index`, after `done`. */
  function ScanFrom(
      p: Parser, arguments: seq<string>, index: nat, recognize: bool, supplied: set<string>,
      done: Scanned): Result<Scanned>
    requires index <= |arguments|
    decreases |arguments| - index
  {
    if index == |arguments| then Success(done)
    else
      var token := arguments[index];
      if recognize && token == "--" then ScanFrom(p, arguments, index + 1, false, supplied, done)
      else if IsPositional(token, recognize) then
        ScanFrom(p, arguments, index + 1, recognize, supplied, done.(positional := done.positional + [token]))
      else
        match Interpret(p, arguments, index, supplied)
        case Failure(error) => Failure(error)
        case Success(found) =>
          var (option, reading) := found;
          var after := if reading.usesNext && index + 1 < |arguments| then index + 2 else index + 1;
          ScanFrom(p, arguments, after, recognize, supplied + {option.destination},
                   done.(chosen := done.chosen + [Chosen(option, reading.value, index)]))
  }

  function Scan(p: Parser, arguments: seq<string>): Result<Scanned> {
    ScanFrom(p, arguments, 0, true, {}, Scanned([], []))
  }

  /** After a double dash every argument is positional. */
  lemma {:induction false} RestIsPositional(
      p: Parser, arguments: seq<string>, index: nat, supplied: set<string>, done: Scanned)
    requires index <= |arguments|
    ensures ScanFrom(p, arguments, index, false, supplied, done)
            == Success(done.(positional := done.positional + arguments[index..]))
    decreases |arguments| - index
  {
    if index == |arguments| {
      assert done.positional + [] == done.positional;
    } else {
      var token := arguments[index];
      RestIsPositional(p, arguments, index + 1, supplied, done.(positional := done.positional + [token]));
      assert done.positional + [token] + arguments[index + 1..] == done.positional + arguments[index..];
    }
  }

  // ----- What scanning guarantees -------------------------------------------

  ghost predicate IsChosen(p: Parser, c: Chosen) {
    c.option in p.options && OptionKind(p.schema, c.option) == Success(KindOf(c.value))
  }

  ghost predicate Sound(p: Parser, chosen: seq<Chosen>, supplied: set<string>) {
    && (forall i :: 0 <= i < |chosen| ==> IsChosen(p, chosen[i]) && chosen[i].option.destination in supplied)
    && (forall i, j :: 0 <= i < j < |chosen| ==> chosen[i].option.destination != chosen[j].option.destination)
  }

  lemma ParsedKind(text: string, kind: Kind, readDouble: string -> Option<Number>)
    ensures ParseValue(text, kind, readDouble).Success? ==> KindOf(ParseValue(text, kind, readDouble).value) == kind
  {
  }

  lemma SelectedIsOption(p: Parser, token: string)
    ensures Select(p, token).Success? ==> Select(p, token).value.option in p.options
  {
  }

  lemma InterpretedIsChosen(p: Parser, arguments: seq<string>, index: nat, supplied: set<string>)
    requires index < |arguments|
    ensures Interpret(p, arguments, index, supplied).Success? ==>
      var (option, reading) := Interpret(p, arguments, index, supplied).value;
      IsChosen(p, Chosen(option, reading.value, index)) && option.destination !in supplied
  {
    hide Select, ParseValue, StartsWith;
    SelectedIsOption(p, arguments[index]);
    forall text, kind
      ensures ParseValue(text, kind, p.readDouble).Success? ==>
        KindOf(ParseValue(text, kind, p.readDouble).value) == kind
    {
      ParsedKind(text, kind, p.readDouble);
    }
  }

  /** A scan supplies options of the parser, each destination at most once, with values of its type. */
  lemma {:induction false} ScanIsSound(
      p: Parser, arguments: seq<string>, index: nat, recognize: bool, supplied: set<string>, done: Scanned)
    requires index <= |arguments| && Sound(p, done.chosen, supplied)
    ensures var r := ScanFrom(p, arguments, index, recognize, supplied, done);
      r.Success? ==> exists all :: Sound(p, r.value.chosen, all)
    decreases |arguments| - index
  {
    hide Interpret, Sound, IsChosen;
    if index < |arguments| {
      var token := arguments[index];
      if recognize && token == "--" {
        ScanIsSound(p, arguments, index + 1, false, supplied, done);
      } else if IsPositional(token, recognize) {
        ScanIsSound(p, arguments, index + 1, recognize, supplied, done.(positional := done.positional + [token]));
      } else if Interpret(p, arguments, index, supplied).Success? {
        var (option, reading) := Interpret(p, arguments, index, supplied).value;
        var c := Chosen(option, reading.value, index);
        InterpretedIsChosen(p, arguments, index, supplied);
        SoundGrows(p, done.chosen, supplied, c);
        var after := if reading.usesNext && index + 1 < |arguments| then index + 2 else index + 1;
        ScanIsSound(p, arguments, after, recognize, supplied + {option.destination},
                    done.(chosen := done.chosen + [c]));
      }
    }
  }

  lemma SoundGrows(p: Parser, chosen: seq<Chosen>, supplied: set<string>, c: Chosen)
    requires Sound(p, chosen, supplied) && IsChosen(p, c) && c.option.destination !in supplied
    ensures Sound(p, chosen + [c], supplied + {c.option.destination})
  {
    hide IsChosen;
  }

  // ----- The tree -----------------------------------------------------------

  function RootOf(schema: Schema): Value {
    if schema.kind == ObjectKind then Object(map[]) else Null
  }

  function PathOf(option: CommandOption): Tokens {
    if Parse(option.destination).Success? then Parse(option.destination).value else []
  }

  /** Chosen options as values at the paths of their destinations. */
  function SettingsOf(chosen: seq<Chosen>): (settings: seq<Setting>)
    ensures |settings| == |chosen|
  {
    seq(|chosen|, i requires 0 <= i < |chosen| =>
      Setting(PathOf(chosen[i].option), chosen[i].value))
  }

  function OriginsOf(chosen: seq<Chosen>): Origins {
    if |chosen| == 0 then map[]
    else
      var last := chosen[|chosen| - 1];
      OriginsOf(chosen[..|chosen| - 1])[last.option.destination :=
        Origin(CommandLineKind, Some("argv"), Some(Decimal(last.index)))]
  }

  const PROGRAMMATIC := Origin(ProgrammaticKind, None, None)

  lemma ChosenIsAccepted(p: Parser, c: Chosen)
    requires Accepted(p.schema, p.options) && IsChosen(p, c)
    ensures OptionAccepted(p.schema, c.option) && Parse(c.option.destination).Success?
    ensures c.option.destination == Render(Parse(c.option.destination).value)
  {
    hide OptionAccepted;
    var i :| 0 <= i < |p.options| && p.options[i] == c.option;
    assert OptionAccepted(p.schema, p.options[i]);
    ParseIffRender(c.option.destination, PathOf(c.option));
  }

  /** The destinations of a scan are pairwise incomparable. */
  lemma {:induction false} SettingsAreIncomparable(p: Parser, chosen: seq<Chosen>, supplied: set<string>)
    requires Accepted(p.schema, p.options) && Sound(p, chosen, supplied)
    ensures PairwiseIncomparable(SettingsOf(chosen))
  {
    hide Accepted, IsPrefix, OptionAccepted, Parse;
    var settings := SettingsOf(chosen);
    forall i, j | 0 <= i < j < |settings|
      ensures Incomparable(settings[i].path, settings[j].path)
    {
      ChosenIsAccepted(p, chosen[i]);
      ChosenIsAccepted(p, chosen[j]);
      DestinationsAreIncomparable(p.schema, chosen[i].option, chosen[j].option);
    }
  }

  /** Building never reports overlapping destinations. */
  lemma {:induction false} DestinationsNeverOverlap(p: Parser, chosen: seq<Chosen>, supplied: set<string>)
    requires Accepted(p.schema, p.options) && Sound(p, chosen, supplied)
    ensures Built(RootOf(p.schema), SettingsOf(chosen)).Success?
    ensures forall i :: 0 <= i < |chosen| ==>
      Node(Built(RootOf(p.schema), SettingsOf(chosen)).value, SettingsOf(chosen)[i].path) == Some(chosen[i].value)
  {
    hide Accepted, Sound, PairwiseIncomparable, Node, Built;
    var settings := SettingsOf(chosen);
    SettingsAreIncomparable(p, chosen, supplied);
    BuildingSucceeds(RootOf(p.schema), settings, []);
    forall i | 0 <= i < |chosen|
      ensures Node(Built(RootOf(p.schema), settings).value, settings[i].path) == Some(chosen[i].value)
    {
      SettingIsFound(RootOf(p.schema), settings, i);
    }
  }

  /** The tree has a node at every prefix of a supplied destination and nowhere else, values
      at the destinations and objects above them; under an object schema it is an object. */
  lemma {:induction false} TreeShape(p: Parser, chosen: seq<Chosen>, supplied: set<string>, tokens: Tokens)
    requires Accepted(p.schema, p.options) && Sound(p, chosen, supplied)
    ensures Built(RootOf(p.schema), SettingsOf(chosen)).Success?
    ensures var tree, paths := Built(RootOf(p.schema), SettingsOf(chosen)).value, SettingsOf(chosen);
      && (IsNode(tree, tokens) <==> tokens == [] || Leads(paths, tokens))
      && (LiesAbove(paths, tokens) ==> Node(tree, tokens).value.Object?)
      && (forall i :: 0 <= i < |paths| && tokens == paths[i].path ==> Node(tree, tokens) == Some(chosen[i].value))
      && (p.schema.kind == ObjectKind ==> tree.Object?)
  {
    SettingsAreIncomparable(p, chosen, supplied);
    DestinationsNeverOverlap(p, chosen, supplied);
    var settings := SettingsOf(chosen);
    forall i | 0 <= i < |chosen|
      ensures IsScalar(chosen[i].value) && (p.schema.kind == ObjectKind ==> settings[i].path != [])
    {
      ChosenIsScalar(p, chosen, supplied, i);
    }
    hide Accepted, Sound, PairwiseIncomparable, Node, Built, PathOf;
    BuiltShape(RootOf(p.schema), settings, tokens);
    BuiltShape(RootOf(p.schema), settings, []);
    NodeAtRoot(Built(RootOf(p.schema), settings).value);
    if |chosen| == 0 {
      EmptyTree(RootOf(p.schema), settings);
    } else {
      assert IsPrefix([], settings[0].path);
    }
  }

  lemma NodeAtRoot(tree: Value)
    ensures Node(tree, []) == Some(tree)
  {
  }

  lemma EmptyTree(root: Value, settings: seq<Setting>)
    requires |settings| == 0
    ensures Built(root, settings) == Success(root)
  {
  }

  lemma ChosenIsScalar(p: Parser, chosen: seq<Chosen>, supplied: set<string>, i: nat)
    requires Accepted(p.schema, p.options) && Sound(p, chosen, supplied) && i < |chosen|
    ensures IsScalar(chosen[i].value)
    ensures p.schema.kind == ObjectKind ==> SettingsOf(chosen)[i].path != []
  {
    hide Accepted, Parse, SchemaAt;
    ChosenIsAccepted(p, chosen[i]);
    RootSchema(p.schema);
  }

  lemma RootSchema(schema: Schema)
    ensures SchemaAt(schema, []) == Success(schema)
  {
  }

  /** A validated copy has every node of its input. */
  lemma {:induction false} ValidationKeepsNodes(schema: Schema, input: Value, tokens: Tokens)
    requires Validate(schema, input).Some? && IsNode(input, tokens)
    ensures IsNode(Validate(schema, input).value, tokens)
    decreases |tokens|
  {
    if |tokens| > 0 && schema.kind == ObjectKind {
      var key := tokens[0];
      ValidationKeepsNodes(schema.fields[key], input.fields[key], tokens[1..]);
    }
  }

  lemma {:induction false} OriginsAreDestinations(chosen: seq<Chosen>, path: string)
    requires path in OriginsOf(chosen)
    ensures exists i :: 0 <= i < |chosen| && chosen[i].option.destination == path
  {
    var n := |chosen| - 1;
    if path != chosen[n].option.destination {
      OriginsAreDestinations(chosen[..n], path);
    } else {
      assert chosen[n].option.destination == path;
    }
  }

  /** Every origin names a node of the validated tree. */
  lemma {:induction false} OriginsAlwaysExist(p: Parser, chosen: seq<Chosen>, supplied: set<string>)
    requires Accepted(p.schema, p.options) && Sound(p, chosen, supplied)
    ensures Built(RootOf(p.schema), SettingsOf(chosen)).Success?
    ensures var tree := Built(RootOf(p.schema), SettingsOf(chosen)).value;
      Validate(p.schema, tree).Some? ==>
        forall path :: path in OriginsOf(chosen) ==> IsPath(Validate(p.schema, tree).value, [], path)
  {
    DestinationsNeverOverlap(p, chosen, supplied);
    var tree := Built(RootOf(p.schema), SettingsOf(chosen)).value;
    hide Accepted, Built, Render, Parse, Validate;
    if Validate(p.schema, tree).Some? {
      forall path | path in OriginsOf(chosen)
        ensures IsPath(Validate(p.schema, tree).value, [], path)
      {
        OriginsAreDestinations(chosen, path);
        var i :| 0 <= i < |chosen| && chosen[i].option.destination == path;
        var tokens := SettingsOf(chosen)[i].path;
        ChosenIsAccepted(p, chosen[i]);
        ValidationKeepsNodes(p.schema, tree, tokens);
        assert [] + tokens == tokens;
      }
    }
  }

  /** Supplying the same options with the same values in another order builds the same tree. */
  lemma {:induction false} TreeIgnoresOrder(p: Parser, a: seq<Chosen>, b: seq<Chosen>, s: set<string>, t: set<string>)
    requires Accepted(p.schema, p.options) && Sound(p, a, s) && Sound(p, b, t)
    requires multiset(SettingsOf(a)) == multiset(SettingsOf(b))
    ensures Built(RootOf(p.schema), SettingsOf(a)) == Built(RootOf(p.schema), SettingsOf(b))
  {
    hide Accepted, Sound, PairwiseIncomparable, Built, SettingsOf;
    SettingsAreIncomparable(p, a, s);
    SettingsAreIncomparable(p, b, t);
    OrderDoesNotMatter(RootOf(p.schema), SettingsOf(a), SettingsOf(b));
  }

  // ----- The parser ---------------------------------------------------------

  datatype Parsed = Parsed(configuration: Validated, positional: seq<string>)

  method ScanArguments(p: Parser, arguments: seq<string>) returns (result: Result<Scanned>)
    ensures result == Scan(p, arguments)
  {
    var index := 0;
    var recognize := true;
    var supplied: set<string> := {};
    var done := Scanned([], []);
    hide Select, ReadValue, OptionKind;
    while index < |arguments|
      invariant index <= |arguments|
      invariant ScanFrom(p, arguments, index, recognize, supplied, done) == Scan(p, arguments)
    {
      var token := arguments[index];
      if recognize && token == "--" {
        recognize := false;
        index := index + 1;
        continue;
      }
      if !recognize || token == "" || token[0] != '-' || token == "-" {
        done := done.(positional := done.positional + [token]);
        index := index + 1;
        continue;
      }
      var selected := Select(p, token);
      if selected.Failure? {
        return Failure(selected.error);
      }
      var option := selected.value.option;
      if option.destination in supplied {
        return Failure(Configuration);
      }
      var kind := OptionKind(p.schema, option);
      if kind.Failure? {
        return Failure(kind.error);
      }
      var next := if index + 1 < |arguments| then Some(arguments[index + 1]) else None;
      var reading := ReadValue(p, selected.value, kind.value, StartsWith(token, "--"), next);
      if reading.Failure? {
        return Failure(reading.error);
      }
      supplied := supplied + {option.destination};
      done := done.(chosen := done.chosen + [Chosen(option, reading.value.value, index)]);
      index := if reading.value.usesNext && index + 1 < |arguments| then index + 2 else index + 1;
    }
    return Success(done);
  }

  /** Inserts every chosen value at its destination and notes its origin. */
  method BuildTree(p: Parser, chosen: seq<Chosen>, ghost supplied: set<string>) returns (tree: Value, origins: Origins)
    requires Accepted(p.schema, p.options) && Sound(p, chosen, supplied)
    ensures Built(RootOf(p.schema), SettingsOf(chosen)) == Success(tree) && origins == OriginsOf(chosen)
  {
    tree := RootOf(p.schema);
    origins := map[];
    hide Accepted, Sound, Parse, Built, Insert, OriginsOf;
    BuiltNothing(RootOf(p.schema), chosen);
    for index := 0 to |chosen|
      invariant Built(RootOf(p.schema), SettingsOf(chosen[..index])) == Success(tree)
      invariant origins == OriginsOf(chosen[..index])
    {
      var c := chosen[index];
      SoundPrefix(p, chosen, supplied, index + 1);
      DestinationsNeverOverlap(p, chosen[..index + 1], supplied);
      ChosenAt(p, chosen, supplied, index);
      ChosenIsAccepted(p, c);
      var path := ParsePointer(c.option.destination);
      BuiltStep(RootOf(p.schema), chosen, index);
      var inserted := Insert(tree, path.value, c.value);
      tree := inserted.value;
      origins := origins[c.option.destination := Origin(CommandLineKind, Some("argv"), Some(Decimal(c.index)))];
    }
    assert chosen[..|chosen|] == chosen;
  }

  lemma BuiltNothing(root: Value, chosen: seq<Chosen>)
    ensures Built(root, SettingsOf(chosen[..0])) == Success(root) && OriginsOf(chosen[..0]) == map[]
  {
  }

  lemma BuiltStep(root: Value, chosen: seq<Chosen>, index: nat)
    requires index < |chosen|
    ensures var c, before := chosen[index], chosen[..index];
      && Built(root, SettingsOf(chosen[..index + 1]))
         == (if Built(root, SettingsOf(before)).Success?
             then Insert(Built(root, SettingsOf(before)).value, PathOf(c.option), c.value)
             else Built(root, SettingsOf(before)))
      && OriginsOf(chosen[..index + 1])
         == OriginsOf(before)[c.option.destination := Origin(CommandLineKind, Some("argv"), Some(Decimal(c.index)))]
  {
    var c, before := chosen[index], chosen[..index];
    var all := chosen[..index + 1];
    assert SettingsOf(all) == SettingsOf(before) + [Setting(PathOf(c.option), c.value)];
    BuiltLast(root, SettingsOf(before), Setting(PathOf(c.option), c.value));
    assert all[..index] == before && all[index] == c;
  }

  lemma SoundPrefix(p: Parser, chosen: seq<Chosen>, supplied: set<string>, n: nat)
    requires Sound(p, chosen, supplied) && n <= |chosen|
    ensures Sound(p, chosen[..n], supplied)
  {
  }

  lemma ChosenAt(p: Parser, chosen: seq<Chosen>, supplied: set<string>, index: nat)
    requires Sound(p, chosen, supplied) && index < |chosen|
    ensures IsChosen(p, chosen[index])
  {
  }

  /** Parsing succeeds exactly when the arguments scan and the tree they build is
      valid: overlapping destinations and missing origins are never the reason. */
  method ParseArguments(p: Parser, arguments: seq<string>) returns (result: Result<Parsed>)
    requires Accepted(p.schema, p.options)
    ensures Scan(p, arguments).Failure? ==> result == Failure(Scan(p, arguments).error)
    ensures Scan(p, arguments).Success? ==>
      var chosen := Scan(p, arguments).value.chosen;
      && Built(RootOf(p.schema), SettingsOf(chosen)).Success?
      && var tree := Built(RootOf(p.schema), SettingsOf(chosen)).value;
      && (result.Success? <==> Validate(p.schema, tree).Some?)
      && (result.Failure? ==> result.error == Configuration)
      && (result.Success? ==>
            && IsConfiguration(p.schema, tree, PROGRAMMATIC, Some(OriginsOf(chosen)), result.value.configuration)
            && result.value.positional == Scan(p, arguments).value.positional)
  {
    var scanned := ScanArguments(p, arguments);
    if scanned.Failure? {
      return Failure(scanned.error);
    }
    ScanIsSound(p, arguments, 0, true, {}, Scanned([], []));
    hide Scan, Sound, Accepted, Built, Validate, IsConfiguration;
    var chosen := scanned.value.chosen;
    ghost var supplied :| Sound(p, chosen, supplied);
    OriginsAlwaysExist(p, chosen, supplied);
    var tree, origins := BuildTree(p, chosen, supplied);
    var validated := ValidateWithOrigins(p.schema, tree, origins, PROGRAMMATIC);
    if validated.Failure? {
      return Failure(Configuration);
    }
    return Success(Parsed(validated.value, scanned.value.positional));
  }
}

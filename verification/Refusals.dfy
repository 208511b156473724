/** What parsers accept and why scanning stops, in terms of how tokens are written. */
module Refusals {
  import opened Results
  import opened Pointers
  import opened Values
  import opened Schemas
  import opened CommandOptions
  import opened CommandLine
  import opened Arguments

  // ----- What a parser accepts ----------------------------------------------

  const DIGITS := "0123456789"
  const CAPITALS := "ABCDEFGHIJKLMNOPQRSTUVWXYZ"
  const SMALL := "abcdefghijklmnopqrstuvwxyz"
  const LETTERS := DIGITS + CAPITALS + SMALL

  lemma DigitsAre(c: char)
    ensures c in DIGITS <==> '0' <= c <= '9'
  {
    if '0' <= c <= '9' {
      assert DIGITS[c as int - '0' as int] == c;
    }
  }

  lemma CapitalsAre(c: char)
    ensures c in CAPITALS <==> 'A' <= c <= 'Z'
  {
    if 'A' <= c <= 'Z' {
      assert CAPITALS[c as int - 'A' as int] == c;
    }
  }

  lemma SmallAre(c: char)
    ensures c in SMALL <==> 'a' <= c <= 'z'
  {
    if 'a' <= c <= 'z' {
      assert SMALL[c as int - 'a' as int] == c;
    }
  }

  lemma LettersAre(c: char)
    ensures c in LETTERS <==> IsAlphanumeric(c)
  {
    hide DIGITS, CAPITALS, SMALL;
    DigitsAre(c);
    CapitalsAre(c);
    SmallAre(c);
    InEither(c, DIGITS + CAPITALS, SMALL);
    InEither(c, DIGITS, CAPITALS);
  }

  /** A name of letters, digits, dashes and underscores that does not begin with a dash. */
  predicate IsPlainName(name: string) {
    && |name| > 0 && name[0] in LETTERS + "_"
    && forall i :: 0 <= i < |name| ==> name[i] in LETTERS + "-_"
  }

  lemma NamesArePlain(name: string)
    ensures IsName(name) <==> IsPlainName(name)
  {
    forall c: char
      ensures c in LETTERS <==> IsAlphanumeric(c)
    {
      LettersAre(c);
    }
    hide IsAlphanumeric;
    assert LETTERS + "-_" == LETTERS + "-" + "_";
    forall i | 0 <= i < |name|
      ensures name[i] in LETTERS + "-_" <==> IsAlphanumeric(name[i]) || name[i] == '-' || name[i] == '_'
    {
      InEither(name[i], LETTERS, "-_");
      InEither(name[i], LETTERS, "_");
    }
    if |name| > 0 {
      InEither(name[0], LETTERS, "_");
      DashIsNoLetter();
    }
  }

  lemma InEither(c: char, a: string, b: string)
    ensures c in a + b <==> c in a || c in b
  {
  }

  lemma DashIsNoLetter()
    ensures !IsAlphanumeric('-') && !IsAlphanumeric('_')
  {
  }

  /** The destination is the path of a scalar of the schema. */
  ghost predicate IsDestination(schema: Schema, destination: string) {
    exists tokens ::
      && destination == Render(tokens) && SchemaAt(schema, tokens).Success?
      && SchemaAt(schema, tokens).value.kind in {BooleanKind, SignedKind, UnsignedKind, DoubleKind, StringKind}
  }

  lemma DestinationsArePaths(schema: Schema, option: CommandOption)
    ensures OptionKind(schema, option).Success? && IsSupportedLeaf(OptionKind(schema, option).value)
            <==> IsDestination(schema, option.destination)
  {
    hide Parse, Render, SchemaAt;
    forall tokens
      ensures Parse(option.destination) == Success(tokens) <==> option.destination == Render(tokens)
    {
      ParseIffRender(option.destination, tokens);
    }
  }

  /** A parser accepts exactly the options with plain names, destinations that are paths
      of scalars, no repetition and no ambiguous negation. */
  lemma AcceptedIff(schema: Schema, options: seq<CommandOption>)
    ensures Accepted(schema, options) <==>
      && (forall i :: 0 <= i < |options| ==>
            && IsPlainName(options[i].longName)
            && (options[i].shortName.Some? ==> options[i].shortName.value in LETTERS)
            && IsDestination(schema, options[i].destination))
      && (forall i, j :: 0 <= i < j < |options| ==>
            && options[i].longName != options[j].longName
            && options[i].destination != options[j].destination
            && (options[i].shortName.Some? && options[j].shortName.Some? ==>
                  options[i].shortName.value != options[j].shortName.value))
      && (forall i, j :: 0 <= i < |options| && 0 <= j < |options| ==>
            options[j].longName == "no-" + options[i].longName ==>
              OptionKind(schema, options[i]) != Success(BooleanKind))
  {
    hide IsName, IsPlainName, IsAlphanumeric, OptionKind, IsSupportedLeaf, IsDestination;
    forall i | 0 <= i < |options|
      ensures OptionAccepted(schema, options[i]) <==>
        && IsPlainName(options[i].longName)
        && (options[i].shortName.Some? ==> options[i].shortName.value in LETTERS)
        && IsDestination(schema, options[i].destination)
    {
      NamesArePlain(options[i].longName);
      DestinationsArePaths(schema, options[i]);
      if options[i].shortName.Some? {
        LettersAre(options[i].shortName.value);
      }
    }
    hide OptionAccepted;
  }

  // ----- Why scanning stops -------------------------------------------------

  /** The token gives the option a text. */
  ghost predicate Attaches(token: string, option: CommandOption) {
    exists text :: token == "--" + option.longName + "=" + text
  }

  /** The token is the option's name, its negation, its letter, or its name with a text. */
  ghost predicate Names(p: Parser, token: string, option: CommandOption) {
    && option in p.options
    && (|| token == "--" + option.longName
        || Attaches(token, option)
        || (IsBoolean(p, option) && token == "--no-" + option.longName)
        || (option.shortName.Some? && token == ShortName(option)))
  }

  /** A token selects exactly the option it names. */
  lemma SelectsIffNames(p: Parser, token: string, option: CommandOption)
    requires Accepted(p.schema, p.options) && !IsPositional(token, true)
    ensures (Select(p, token).Success? && Select(p, token).value.option == option) <==> Names(p, token, option)
    ensures Names(p, token, option) ==> (Select(p, token).value.inlineValue.Some? <==> Attaches(token, option))
  {
    hide Accepted, Select, IsPositional, StartsWith, IsBoolean;
    if Select(p, token).Success? {
      SelectedToken(p, token);
      var s := Select(p, token).value;
      assert s.inlineValue.Some? && !s.negated ==>
          token == "--" + s.option.longName + "=" + s.inlineValue.value;
    }
    if Names(p, token, option) {
      if token == "--" + option.longName {
        LongIsSelected(p, option);
      } else if Attaches(token, option) {
        var text :| token == "--" + option.longName + "=" + text;
        AttachedIsSelected(p, option, text);
      } else if IsBoolean(p, option) && token == "--no-" + option.longName {
        NegatedIsSelected(p, option);
      } else {
        ShortIsSelected(p, option);
      }
    }
  }

  /** Why a token that begins with a dash is refused, in the order of the checks. */
  ghost function Refusal(p: Parser, arguments: seq<string>, index: nat, supplied: set<string>): ErrorCode
    requires index < |arguments|
  {
    var token := arguments[index];
    if |token| > 2 && token[1] != '-' then Unsupported
    else if forall option :: !Names(p, token, option) then InvalidArgument
    else if exists option :: Names(p, token, option) && option.destination in supplied then Configuration
    else if exists option ::
      && Names(p, token, option) && OptionKind(p.schema, option) == Success(StringKind)
      && (Attaches(token, option) || index + 1 < |arguments|) then Encoding
    else InvalidArgument
  }

  lemma UnselectedToken(p: Parser, token: string)
    requires Accepted(p.schema, p.options) && !IsPositional(token, true)
    ensures Select(p, token).Failure? ==>
      Select(p, token).error == if |token| > 2 && token[1] != '-' then Unsupported else InvalidArgument
    ensures Select(p, token).Success? ==> !(|token| > 2 && token[1] != '-')
    ensures Select(p, token).Success? ==> OptionAccepted(p.schema, Select(p, token).value.option)
  {
    hide OptionKind, IsName, IsSupportedLeaf, EqualsSign;
    forall option | option in p.options
      ensures OptionAccepted(p.schema, option)
    {
      var i :| 0 <= i < |p.options| && p.options[i] == option;
      assert OptionAccepted(p.schema, p.options[i]);
    }
    SelectedIsOption(p, token);
    hide Accepted;
  }

  /** A value of a type that options have is refused with the error of its text, or for want of a text. */
  lemma RefusedValue(p: Parser, selected: Selected, kind: Kind, isLong: bool, next: Option<string>)
    requires IsSupportedLeaf(kind) && ReadValue(p, selected, kind, isLong, next).Failure?
    ensures ReadValue(p, selected, kind, isLong, next).error
            == if kind == StringKind && (selected.inlineValue.Some? || next.Some?) then Encoding else InvalidArgument
  {
  }

  lemma RefusedBySelection(p: Parser, arguments: seq<string>, index: nat, supplied: set<string>)
    requires Accepted(p.schema, p.options)
    requires index < |arguments| && !IsPositional(arguments[index], true) && arguments[index] != "--"
    requires Interpret(p, arguments, index, supplied).Failure?
    ensures var token, error := arguments[index], Interpret(p, arguments, index, supplied).error;
      error == if |token| > 2 && token[1] != '-' then Unsupported
               else if Select(p, token).Failure? then InvalidArgument
               else if Select(p, token).value.option.destination in supplied then Configuration
               else if OptionKind(p.schema, Select(p, token).value.option) == Success(StringKind)
                       && (Select(p, token).value.inlineValue.Some? || index + 1 < |arguments|) then Encoding
               else InvalidArgument
  {
    var token := arguments[index];
    UnselectedToken(p, token);
    hide Accepted, Select, IsPositional, StartsWith, IsName, ReadValue, OptionKind, IsSupportedLeaf;
    if Select(p, token).Success? {
      var selected := Select(p, token).value;
      var next := if index + 1 < |arguments| then Some(arguments[index + 1]) else None;
      var kind := OptionKind(p.schema, selected.option).value;
      if ReadValue(p, selected, kind, StartsWith(token, "--"), next).Failure? {
        RefusedValue(p, selected, kind, StartsWith(token, "--"), next);
      }
    }
  }

  /** Every refused token is refused for its reason. */
  lemma RefusedToken(p: Parser, arguments: seq<string>, index: nat, supplied: set<string>)
    requires Accepted(p.schema, p.options)
    requires index < |arguments| && !IsPositional(arguments[index], true) && arguments[index] != "--"
    requires Interpret(p, arguments, index, supplied).Failure?
    ensures Interpret(p, arguments, index, supplied).error == Refusal(p, arguments, index, supplied)
  {
    RefusedBySelection(p, arguments, index, supplied);
    var token := arguments[index];
    forall option
      ensures (Select(p, token).Success? && Select(p, token).value.option == option) <==> Names(p, token, option)
      ensures Names(p, token, option) ==> (Select(p, token).value.inlineValue.Some? <==> Attaches(token, option))
    {
      SelectsIffNames(p, token, option);
    }
    hide Interpret, Select, Names, Attaches, OptionKind, IsPositional, Accepted;
    if Select(p, token).Success? {
      assert Names(p, token, Select(p, token).value.option);
    }
  }

  /** A scan fails at a token that is refused, with its reason. */
  lemma {:induction false} ScanStops(
      p: Parser, arguments: seq<string>, index: nat, recognize: bool, supplied: set<string>, done: Scanned)
    returns (at: nat, before: set<string>)
    requires Accepted(p.schema, p.options) && index <= |arguments|
    requires ScanFrom(p, arguments, index, recognize, supplied, done).Failure?
    ensures index <= at < |arguments| && !IsPositional(arguments[at], true) && arguments[at] != "--"
    ensures Interpret(p, arguments, at, before).Failure?
    ensures ScanFrom(p, arguments, index, recognize, supplied, done) == Failure(Refusal(p, arguments, at, before))
    decreases |arguments| - index
  {
    hide Interpret, Refusal, Accepted;
    var token := arguments[index];
    if recognize && token == "--" {
      RestIsPositional(p, arguments, index + 1, supplied, done);
      assert false;
    } else if IsPositional(token, recognize) {
      at, before := ScanStops(p, arguments, index + 1, recognize, supplied,
                              done.(positional := done.positional + [token]));
    } else if Interpret(p, arguments, index, supplied).Failure? {
      RefusedToken(p, arguments, index, supplied);
      at, before := index, supplied;
    } else {
      var (option, reading) := Interpret(p, arguments, index, supplied).value;
      var after := if reading.usesNext && index + 1 < |arguments| then index + 2 else index + 1;
      at, before := ScanStops(p, arguments, after, recognize, supplied + {option.destination},
                              done.(chosen := done.chosen + [Chosen(option, reading.value, index)]));
    }
  }
}

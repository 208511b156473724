/**
 The grammar of the argument vector: every form an option may be written in, the
 operands between them, and what each stands for.  Scanning accepts exactly the
 vectors the grammar generates and returns what they stand for.
 */
module Arguments {
  import opened Results
  import opened Values
  import opened Schemas
  import opened CommandOptions
  import opened CommandLine
  import opened Denotations

  datatype Item =
    | Attached(option: CommandOption, text: string, value: Value)
    | Separated(option: CommandOption, text: string, value: Value)
    | Bare(option: CommandOption)
    | Negated(option: CommandOption)
    | ShortBare(option: CommandOption)
    | ShortSeparated(option: CommandOption, text: string, value: Value)
    | Operand(text: string)

  // ----- How items are written ----------------------------------------------

  function ShortName(option: CommandOption): string {
    match option.shortName case Some(c) => "-" + [c] case None => "-"
  }

  /** The arguments one item is written as. */
  function WrittenAs(item: Item): (arguments: seq<string>)
    ensures 1 <= |arguments| <= 2
  {
    match item
    case Attached(option, text, _) => ["--" + option.longName + "=" + text]
    case Separated(option, text, _) => ["--" + option.longName, text]
    case Bare(option) => ["--" + option.longName]
    case Negated(option) => ["--no-" + option.longName]
    case ShortBare(option) => [ShortName(option)]
    case ShortSeparated(option, text, _) => [ShortName(option), text]
    case Operand(text) => [text]
  }

  function AllWritten(items: seq<Item>): seq<string> {
    if |items| == 0 then [] else WrittenAs(items[0]) + AllWritten(items[1..])
  }

  /** A whole argument vector; after a double dash everything is an operand. */
  function Line(items: seq<Item>, tail: Option<seq<string>>): seq<string> {
    AllWritten(items) + match tail case Some(operands) => ["--"] + operands case None => []
  }

  // ----- What items stand for -----------------------------------------------

  /** The value of an option item. */
  function ValueOf(item: Item): Value
    requires !item.Operand?
  {
    match item
    case Attached(_, _, value) => value
    case Separated(_, _, value) => value
    case ShortSeparated(_, _, value) => value
    case Bare(_) => Boolean(true)
    case ShortBare(_) => Boolean(true)
    case Negated(_) => Boolean(false)
  }

  /** What the items stand for when the first is argument `index`. */
  function Meaning(items: seq<Item>, index: nat): Scanned {
    if |items| == 0 then Scanned([], [])
    else
      var rest := Meaning(items[1..], index + |WrittenAs(items[0])|);
      match items[0]
      case Operand(text) => rest.(positional := [text] + rest.positional)
      case item => rest.(chosen := [Chosen(item.option, ValueOf(item), index)] + rest.chosen)
  }

  function LineMeaning(items: seq<Item>, tail: Option<seq<string>>): Scanned {
    var meaning := Meaning(items, 0);
    match tail
    case Some(operands) => meaning.(positional := meaning.positional + operands)
    case None => meaning
  }

  // ----- Which items may be written -----------------------------------------

  ghost predicate TakesValue(p: Parser, option: CommandOption, text: string, value: Value) {
    OptionKind(p.schema, option).Success? && Denotes(text, OptionKind(p.schema, option).value, value, p.readDouble)
  }

  predicate IsBoolean(p: Parser, option: CommandOption) {
    OptionKind(p.schema, option) == Success(BooleanKind)
  }

  /** An item of the parser, in a form its type has. */
  ghost predicate IsItem(p: Parser, item: Item) {
    match item
    case Operand(text) => text == "" || text[0] != '-' || text == "-"
    case Attached(option, text, value) => option in p.options && TakesValue(p, option, text, value)
    case Separated(option, text, value) => option in p.options && TakesValue(p, option, text, value)
    case Bare(option) => option in p.options && IsBoolean(p, option)
    case Negated(option) => option in p.options && IsBoolean(p, option)
    case ShortBare(option) => option in p.options && option.shortName.Some? && IsBoolean(p, option)
    case ShortSeparated(option, text, value) =>
      && option in p.options && option.shortName.Some? && !IsBoolean(p, option)
      && TakesValue(p, option, text, value)
  }

  /** A bare option is not followed by an operand that would be read as its value. */
  predicate MayFollow(item: Item, items: seq<Item>) {
    item.Bare? && |items| > 0 ==> items[0] != Operand("true") && items[0] != Operand("false")
  }

  /** Items of the parser, each destination supplied at most once and none of those in `supplied`. */
  ghost predicate AreItems(p: Parser, items: seq<Item>, supplied: set<string>) {
    if |items| == 0 then true
    else
      && IsItem(p, items[0]) && MayFollow(items[0], items[1..])
      && (!items[0].Operand? ==> items[0].option.destination !in supplied)
      && AreItems(p, items[1..], if items[0].Operand? then supplied else supplied + {items[0].option.destination})
  }

  /** The items and the tail make up these arguments. */
  ghost predicate Explains(
      p: Parser, arguments: seq<string>, supplied: set<string>, items: seq<Item>, tail: Option<seq<string>>) {
    AreItems(p, items, supplied) && arguments == Line(items, tail)
  }

  // ----- Selecting options --------------------------------------------------

  lemma {:induction false} EqualsAfter(name: string, text: string)
    requires forall i :: 0 <= i < |name| ==> name[i] != '='
    ensures EqualsSign(name + ("=" + text)) == |name|
  {
    if |name| == 0 {
    } else {
      EqualsAfter(name[1..], text);
      assert (name + ("=" + text))[1..] == name[1..] + ("=" + text);
    }
  }

  lemma FoundByName(p: Parser, option: CommandOption)
    requires Accepted(p.schema, p.options) && option in p.options
    ensures FindLongOption(p.options, option.longName) == Some(option)
    ensures IsName(option.longName)
  {
    var i :| 0 <= i < |p.options| && p.options[i] == option;
    var found := FindLongOption(p.options, option.longName).value;
    var j :| 0 <= j < |p.options| && p.options[j] == found;
    assert OptionAccepted(p.schema, p.options[i]);
    if i != j {
      NamesDiffer(p, i, j);
    }
  }

  lemma NamesDiffer(p: Parser, i: nat, j: nat)
    requires Accepted(p.schema, p.options) && i < |p.options| && j < |p.options| && i != j
    ensures p.options[i].longName != p.options[j].longName
  {
    if i < j {
      assert Distinguished(p.options[i], p.options[j]);
    } else {
      assert Distinguished(p.options[j], p.options[i]);
    }
  }

  /** A long token with an attached value. */
  lemma AttachedIsSelected(p: Parser, option: CommandOption, text: string)
    requires Accepted(p.schema, p.options) && option in p.options
    ensures var token := "--" + option.longName + "=" + text;
      && Select(p, token) == Success(Selected(option, Some(text), false))
      && !IsPositional(token, true) && token != "--" && StartsWith(token, "--")
  {
    FoundByName(p, option);
    hide Accepted, FindLongOption;
    var name := option.longName;
    var body := name + ("=" + text);
    EqualsAfter(name, text);
    DashDash(body);
    assert "--" + name + "=" + text == "--" + body;
    assert body[..|name|] == name && body[|name| + 1..] == text;
  }

  lemma FoundByShortName(p: Parser, option: CommandOption)
    requires Accepted(p.schema, p.options) && option in p.options && option.shortName.Some?
    ensures FindShortOption(p.options, option.shortName.value) == Some(option)
    ensures option.shortName.value != '-'
  {
    var i :| 0 <= i < |p.options| && p.options[i] == option;
    var found := FindShortOption(p.options, option.shortName.value).value;
    var j :| 0 <= j < |p.options| && p.options[j] == found;
    assert OptionAccepted(p.schema, p.options[i]);
    if i != j {
      ShortNamesDiffer(p, i, j);
    }
  }

  lemma ShortNamesDiffer(p: Parser, i: nat, j: nat)
    requires Accepted(p.schema, p.options) && i < |p.options| && j < |p.options| && i != j
    ensures p.options[i].shortName.Some? ==> p.options[i].shortName != p.options[j].shortName
  {
    if i < j {
      assert Distinguished(p.options[i], p.options[j]);
    } else {
      assert Distinguished(p.options[j], p.options[i]);
    }
  }

  lemma NamesHaveNoEquals(name: string)
    requires IsName(name)
    ensures forall i :: 0 <= i < |name| ==> name[i] != '='
  {
  }

  lemma {:induction false} NoEquals(name: string)
    requires forall i :: 0 <= i < |name| ==> name[i] != '='
    ensures EqualsSign(name) == |name|
  {
    if |name| > 0 {
      NoEquals(name[1..]);
    }
  }

  /** A long token without an attached value. */
  lemma LongIsSelected(p: Parser, option: CommandOption)
    requires Accepted(p.schema, p.options) && option in p.options
    ensures var token := "--" + option.longName;
      && Select(p, token) == Success(Selected(option, None, false))
      && !IsPositional(token, true) && token != "--" && StartsWith(token, "--")
  {
    FoundByName(p, option);
    NamesHaveNoEquals(option.longName);
    assert option.longName != "";
    hide Accepted, FindLongOption, IsName, EqualsSign;
    NoEquals(option.longName);
    DashDash(option.longName);
    hide StartsWith, IsPositional;
    assert option.longName[..|option.longName|] == option.longName;
  }

  lemma NegationIsUnknown(p: Parser, option: CommandOption)
    requires Accepted(p.schema, p.options) && option in p.options && IsBoolean(p, option)
    ensures FindLongOption(p.options, "no-" + option.longName) == None
  {
    hide OptionKind;
    var i :| 0 <= i < |p.options| && p.options[i] == option;
    forall j | 0 <= j < |p.options|
      ensures p.options[j].longName != "no-" + option.longName
    {
      assert !Collides(p.schema, p.options[i], p.options[j]);
    }
  }

  /** A negated token. */
  lemma NegatedIsSelected(p: Parser, option: CommandOption)
    requires Accepted(p.schema, p.options) && option in p.options && IsBoolean(p, option)
    ensures var token := "--no-" + option.longName;
      && Select(p, token) == Success(Selected(option, None, true))
      && !IsPositional(token, true) && token != "--" && StartsWith(token, "--")
  {
    var name := "no-" + option.longName;
    FoundByName(p, option);
    NegationIsUnknown(p, option);
    NamesHaveNoEquals(option.longName);
    hide Accepted, FindLongOption, OptionKind, IsName;
    NoEquals(name);
    hide EqualsSign;
    DashDash(name);
    NegatedName(option.longName);
    assert "--no-" + option.longName == "--" + name;
    hide StartsWith, IsPositional;
    assert name[..|name|] == name;
  }

  lemma DashDash(name: string)
    requires name != ""
    ensures var token := "--" + name;
      !IsPositional(token, true) && token != "--" && StartsWith(token, "--") && token[2..] == name
  {
    assert ("--" + name)[..2] == "--";
  }

  lemma NegatedName(name: string)
    ensures StartsWith("no-" + name, "no-") && ("no-" + name)[3..] == name
  {
    assert ("no-" + name)[..3] == "no-";
  }

  /** A short token. */
  lemma ShortIsSelected(p: Parser, option: CommandOption)
    requires Accepted(p.schema, p.options) && option in p.options && option.shortName.Some?
    ensures var token := ShortName(option);
      && Select(p, token) == Success(Selected(option, None, false))
      && !IsPositional(token, true) && token != "--" && !StartsWith(token, "--")
  {
    FoundByShortName(p, option);
    hide Accepted, FindShortOption;
    var token := ShortName(option);
    assert |token| == 2 && token[0] == '-' && token[1] == option.shortName.value;
    assert token[..2][1] != "--"[1];
  }

  // ----- Reading back what was written --------------------------------------

  /** What follows an item in the arguments. */
  function Next(arguments: seq<string>, index: nat): Option<string> {
    if index + 1 < |arguments| then Some(arguments[index + 1]) else None
  }

  /** An option item at the head of the arguments is interpreted as itself. */
  lemma {:induction false} ItemIsInterpreted(
      p: Parser, arguments: seq<string>, index: nat, supplied: set<string>, item: Item)
    requires Accepted(p.schema, p.options) && IsItem(p, item) && !item.Operand?
    requires item.option.destination !in supplied
    requires index + |WrittenAs(item)| <= |arguments|
    requires arguments[index..index + |WrittenAs(item)|] == WrittenAs(item)
    requires item.Bare? ==> Next(arguments, index) != Some("true") && Next(arguments, index) != Some("false")
    ensures Interpret(p, arguments, index, supplied)
            == Success((item.option, Reading(ValueOf(item), |WrittenAs(item)| == 2)))
    ensures !IsPositional(arguments[index], true) && arguments[index] != "--"
  {
    var token, option := arguments[index], item.option;
    assert token == arguments[index..index + |WrittenAs(item)|][0] == WrittenAs(item)[0];
    if |WrittenAs(item)| == 2 {
      assert arguments[index + 1] == arguments[index..index + 2][1] == WrittenAs(item)[1];
    }
    match item
    case Attached(_, text, value) =>
      AttachedIsSelected(p, option, text);
      ParsesIff(text, OptionKind(p.schema, option).value, value, p.readDouble);
      hide Accepted, Select, OptionKind, Denotes, ParseValue, IsPositional, StartsWith;
    case Separated(_, text, value) =>
      LongIsSelected(p, option);
      ParsesIff(text, OptionKind(p.schema, option).value, value, p.readDouble);
      hide Accepted, Select, OptionKind, ParseValue, IsPositional, StartsWith, SpellsNatural, SpellsInteger;
      hide IsUnicode;
    case Bare(_) =>
      LongIsSelected(p, option);
      hide Accepted, Select, OptionKind, ParseValue, IsPositional, StartsWith;
    case Negated(_) =>
      NegatedIsSelected(p, option);
      hide Accepted, Select, OptionKind, ParseValue, IsPositional, StartsWith;
    case ShortBare(_) =>
      ShortIsSelected(p, option);
      hide Accepted, Select, OptionKind, ParseValue, IsPositional, StartsWith;
    case ShortSeparated(_, text, value) =>
      ShortIsSelected(p, option);
      ParsesIff(text, OptionKind(p.schema, option).value, value, p.readDouble);
      hide Accepted, Select, OptionKind, Denotes, ParseValue, IsPositional, StartsWith;
  }

  // ----- Scanning what was written ------------------------------------------

  /** A scan result put after another. */
  function Joined(a: Scanned, b: Scanned): Scanned {
    Scanned(a.chosen + b.chosen, a.positional + b.positional)
  }

  function TailMeaning(tail: Option<seq<string>>): Scanned {
    match tail case Some(operands) => Scanned([], operands) case None => Scanned([], [])
  }

  lemma LineUnfolds(items: seq<Item>, tail: Option<seq<string>>)
    requires |items| > 0
    ensures Line(items, tail) == WrittenAs(items[0]) + Line(items[1..], tail)
  {
  }

  lemma EmptyLine(tail: Option<seq<string>>)
    ensures |Line([], tail)| > 0 ==> Line([], tail)[0] == "--"
  {
  }

  /** The first argument a line begins with. */
  lemma LineBegins(p: Parser, items: seq<Item>, supplied: set<string>, tail: Option<seq<string>>, text: string)
    requires AreItems(p, items, supplied) && (text == "true" || text == "false")
    requires |Line(items, tail)| > 0 && Line(items, tail)[0] == text
    ensures |items| > 0 && items[0] == Operand(text)
  {
    EmptyLine(tail);
    if |items| > 0 {
      LineUnfolds(items, tail);
      assert WrittenAs(items[0])[0] == text;
      assert text[0] != '-';
      if !items[0].Operand? {
        DashedItem(items[0]);
      }
    }
  }

  lemma DashedItem(item: Item)
    requires !item.Operand?
    ensures |WrittenAs(item)[0]| > 0 && WrittenAs(item)[0][0] == '-'
  {
  }

  lemma AfterItem(arguments: seq<string>, index: nat, item: Item, rest: seq<string>)
    requires index <= |arguments| && arguments[index..] == WrittenAs(item) + rest
    ensures index + |WrittenAs(item)| <= |arguments|
    ensures arguments[index..index + |WrittenAs(item)|] == WrittenAs(item)
    ensures arguments[index + |WrittenAs(item)|..] == rest
    ensures arguments[index] == WrittenAs(item)[0]
    ensures item.Bare? ==> Next(arguments, index) == if |rest| > 0 then Some(rest[0]) else None
  {
    var n := |WrittenAs(item)|;
    assert |arguments[index..]| == n + |rest|;
    assert arguments[index..index + n] == arguments[index..][..n];
    assert arguments[index + n..] == arguments[index..][n..];
    assert arguments[index] == arguments[index..][0];
    if n == 1 && |rest| > 0 {
      assert arguments[index + 1] == arguments[index..][1];
    }
  }

  lemma JoinedOne(done: Scanned, items: seq<Item>, index: nat, tail: Option<seq<string>>)
    requires |items| > 0
    ensures var rest := Joined(Meaning(items[1..], index + |WrittenAs(items[0])|), TailMeaning(tail));
      Joined(done, Joined(Meaning(items, index), TailMeaning(tail)))
      == if items[0].Operand? then Joined(done.(positional := done.positional + [items[0].text]), rest)
         else Joined(done.(chosen := done.chosen + [Chosen(items[0].option, ValueOf(items[0]), index)]), rest)
  {
    var rest := Meaning(items[1..], index + |WrittenAs(items[0])|);
    var after := TailMeaning(tail);
    if items[0].Operand? {
      var text := items[0].text;
      assert done.positional + (([text] + rest.positional) + after.positional)
             == (done.positional + [text]) + (rest.positional + after.positional);
    } else {
      var c := Chosen(items[0].option, ValueOf(items[0]), index);
      assert done.chosen + (([c] + rest.chosen) + after.chosen)
             == (done.chosen + [c]) + (rest.chosen + after.chosen);
    }
  }

  lemma TailIsScanned(
      p: Parser, arguments: seq<string>, index: nat, supplied: set<string>, tail: Option<seq<string>>, done: Scanned)
    requires index <= |arguments| && arguments[index..] == Line([], tail)
    ensures ScanFrom(p, arguments, index, true, supplied, done)
            == Success(Joined(done, Joined(Meaning([], index), TailMeaning(tail))))
  {
    assert done.positional + [] == done.positional && done.chosen + [] == done.chosen;
    if tail.Some? {
      var operands := tail.value;
      assert arguments[index..] == ["--"] + operands;
      assert arguments[index] == arguments[index..][0] == "--";
      assert arguments[index + 1..] == arguments[index..][1..] == operands;
      RestIsPositional(p, arguments, index + 1, supplied, done);
      assert done.positional + operands == done.positional + ([] + operands);
      assert done.chosen + ([] + []) == done.chosen;
      assert ScanFrom(p, arguments, index, true, supplied, done)
             == ScanFrom(p, arguments, index + 1, false, supplied, done);
    } else {
      assert arguments[index..] == [];
    }
  }

  /** Scanning written items gives back what they stand for. */
  lemma {:induction false} WrittenItemsScan(
      p: Parser, arguments: seq<string>, index: nat, supplied: set<string>, items: seq<Item>,
      tail: Option<seq<string>>, done: Scanned)
    requires Accepted(p.schema, p.options) && index <= |arguments|
    requires Explains(p, arguments[index..], supplied, items, tail)
    ensures ScanFrom(p, arguments, index, true, supplied, done)
            == Success(Joined(done, Joined(Meaning(items, index), TailMeaning(tail))))
    decreases |items|
  {
    hide Accepted, Interpret, IsItem, TailMeaning, Joined, WrittenAs, Line, Meaning, IsPositional, ValueOf;
    if |items| == 0 {
      TailIsScanned(p, arguments, index, supplied, tail, done);
      assert items == [];
    } else {
      var item, rest := items[0], items[1..];
      LineUnfolds(items, tail);
      AfterItem(arguments, index, item, Line(rest, tail));
      var after := index + |WrittenAs(item)|;
      JoinedOne(done, items, index, tail);
      if item.Operand? {
        OperandIsPositional(p, item);
        WrittenItemsScan(p, arguments, after, supplied, rest, tail, done.(positional := done.positional + [item.text]));
      } else {
        var supplied' := supplied + {item.option.destination};
        if item.Bare? {
          NotItsValue(p, arguments, index, item, rest, supplied', tail);
        }
        ItemIsInterpreted(p, arguments, index, supplied, item);
        var c := Chosen(item.option, ValueOf(item), index);
        WrittenItemsScan(p, arguments, after, supplied', rest, tail, done.(chosen := done.chosen + [c]));
      }
    }
  }

  lemma OperandIsPositional(p: Parser, item: Item)
    requires item.Operand? && IsItem(p, item)
    ensures IsPositional(item.text, true) && item.text != "--" && WrittenAs(item) == [item.text]
  {
  }

  lemma NotItsValue(
      p: Parser, arguments: seq<string>, index: nat, item: Item, rest: seq<Item>, supplied: set<string>,
      tail: Option<seq<string>>)
    requires item.Bare? && MayFollow(item, rest) && AreItems(p, rest, supplied)
    requires Next(arguments, index) == if |Line(rest, tail)| > 0 then Some(Line(rest, tail)[0]) else None
    ensures Next(arguments, index) != Some("true") && Next(arguments, index) != Some("false")
  {
    hide AreItems, Line;
    if Next(arguments, index) == Some("true") {
      LineBegins(p, rest, supplied, tail, "true");
    } else if Next(arguments, index) == Some("false") {
      LineBegins(p, rest, supplied, tail, "false");
    }
  }

  // ----- Everything that scans was written ----------------------------------

  /** A long token is two dashes, a name and what is attached to it. */
  lemma TokenParts(token: string)
    requires StartsWith(token, "--")
    ensures var body, equals := token[2..], EqualsSign(token[2..]);
      token == if equals < |body| then "--" + body[..equals] + "=" + body[equals + 1..] else "--" + body[..equals]
  {
    var body, equals := token[2..], EqualsSign(token[2..]);
    assert token == "--" + body;
    assert equals < |body| ==> body == body[..equals] + "=" + body[equals + 1..];
    assert equals == |body| ==> body == body[..equals];
  }

  lemma NegatedParts(p: Parser, name: string, inlineValue: Option<string>)
    requires StartsWith(name, "no-") && SelectNegated(p, name[3..], inlineValue).Success?
    ensures var s := SelectNegated(p, name[3..], inlineValue).value;
      && s == Selected(s.option, None, true) && inlineValue.None? && s.option in p.options && IsBoolean(p, s.option)
      && "--" + name == "--no-" + s.option.longName
  {
    hide OptionKind;
    assert name == "no-" + name[3..];
  }

  lemma {:induction false} LongTokens(p: Parser, token: string)
    requires StartsWith(token, "--") && Select(p, token).Success?
    ensures var s := Select(p, token).value;
      && s.option in p.options
      && token == (if s.negated then "--no-" + s.option.longName
                   else if s.inlineValue.Some? then "--" + s.option.longName + "=" + s.inlineValue.value
                   else "--" + s.option.longName)
      && (s.negated ==> s.inlineValue.None? && IsBoolean(p, s.option))
  {
    TokenParts(token);
    hide IsBoolean, SelectNegated, EqualsSign;
    var body, equals := token[2..], EqualsSign(token[2..]);
    var name := body[..equals];
    var inlineValue := if equals < |body| then Some(body[equals + 1..]) else None;
    if FindLongOption(p.options, name).None? {
      NegatedParts(p, name, inlineValue);
    }
  }

  lemma {:induction false} ShortTokens(p: Parser, token: string)
    requires !StartsWith(token, "--") && !IsPositional(token, true) && Select(p, token).Success?
    ensures var s := Select(p, token).value;
      && s.option in p.options && s.option.shortName.Some? && token == ShortName(s.option)
      && !s.negated && s.inlineValue.None?
  {
    assert token == [token[0]] + [token[1]];
  }

  /** The token as the selected option writes it. */
  predicate IsToken(s: Selected, isLong: bool, token: string) {
    if s.negated then isLong && token == "--no-" + s.option.longName
    else if s.inlineValue.Some? then isLong && token == "--" + s.option.longName + "=" + s.inlineValue.value
    else if isLong then token == "--" + s.option.longName
    else s.option.shortName.Some? && token == ShortName(s.option)
  }

  /** What was read for a selected option was written as some item. */
  lemma {:induction false} ReadIsItem(
      p: Parser, arguments: seq<string>, index: nat, s: Selected, kind: Kind, isLong: bool, reading: Reading)
    returns (item: Item)
    requires index < |arguments| && s.option in p.options && OptionKind(p.schema, s.option) == Success(kind)
    requires ReadValue(p, s, kind, isLong, Next(arguments, index)) == Success(reading)
    requires IsToken(s, isLong, arguments[index]) && (s.negated ==> kind == BooleanKind)
    ensures !item.Operand? && item.option == s.option && IsItem(p, item)
    ensures |WrittenAs(item)| == (if reading.usesNext then 2 else 1) && index + |WrittenAs(item)| <= |arguments|
    ensures arguments[index..index + |WrittenAs(item)|] == WrittenAs(item)
    ensures item.Bare? ==> Next(arguments, index) != Some("true") && Next(arguments, index) != Some("false")
  {
    hide OptionKind, ParseValue, Denotes;
    if reading.usesNext {
      var text := arguments[index + 1];
      ParsesIff(text, kind, reading.value, p.readDouble);
      item := if isLong then Separated(s.option, text, reading.value)
              else ShortSeparated(s.option, text, reading.value);
      assert arguments[index..index + 2] == [arguments[index], text];
    } else {
      if s.negated {
        item := Negated(s.option);
      } else if s.inlineValue.Some? {
        ParsesIff(s.inlineValue.value, kind, reading.value, p.readDouble);
        item := Attached(s.option, s.inlineValue.value, reading.value);
      } else {
        item := if isLong then Bare(s.option) else ShortBare(s.option);
      }
      assert arguments[index..index + 1] == [arguments[index]];
    }
  }

  lemma SelectedToken(p: Parser, token: string)
    requires !IsPositional(token, true) && Select(p, token).Success?
    ensures var s := Select(p, token).value;
      && s.option in p.options && IsToken(s, StartsWith(token, "--"), token)
      && (s.negated ==> IsBoolean(p, s.option))
  {
    if StartsWith(token, "--") {
      LongTokens(p, token);
    } else {
      ShortTokens(p, token);
    }
    hide Select, StartsWith, IsPositional, IsBoolean;
  }

  /** Every interpreted option was written as some item. */
  lemma {:induction false} InterpretedIsItem(p: Parser, arguments: seq<string>, index: nat, supplied: set<string>)
    returns (item: Item)
    requires index < |arguments| && !IsPositional(arguments[index], true)
    requires Interpret(p, arguments, index, supplied).Success?
    ensures var (option, reading) := Interpret(p, arguments, index, supplied).value;
      && !item.Operand? && item.option == option && option.destination !in supplied
      && IsItem(p, item)
      && |WrittenAs(item)| == (if reading.usesNext then 2 else 1)
      && index + |WrittenAs(item)| <= |arguments|
      && arguments[index..index + |WrittenAs(item)|] == WrittenAs(item)
      && (item.Bare? ==> Next(arguments, index) != Some("true") && Next(arguments, index) != Some("false"))
  {
    hide Select, OptionKind, StartsWith, ReadValue, IsPositional, IsItem, WrittenAs, IsToken;
    var token := arguments[index];
    SelectedToken(p, token);
    var s := Select(p, token).value;
    item := ReadIsItem(p, arguments, index, s, OptionKind(p.schema, s.option).value, StartsWith(token, "--"),
                       Interpret(p, arguments, index, supplied).value.1);
  }

  lemma SuppliedItems(p: Parser, item: Item, rest: seq<Item>, supplied: set<string>)
    requires IsItem(p, item) && MayFollow(item, rest)
    requires !item.Operand? ==> item.option.destination !in supplied
    requires AreItems(p, rest, if item.Operand? then supplied else supplied + {item.option.destination})
    ensures AreItems(p, [item] + rest, supplied)
  {
    assert ([item] + rest)[1..] == rest;
  }

  lemma PrependItem(
      p: Parser, arguments: seq<string>, index: nat, supplied: set<string>, item: Item, rest: seq<Item>,
      tail: Option<seq<string>>)
    requires IsItem(p, item)
    requires !item.Operand? ==> item.option.destination !in supplied
    requires index + |WrittenAs(item)| <= |arguments|
    requires arguments[index..index + |WrittenAs(item)|] == WrittenAs(item)
    requires Explains(p, arguments[index + |WrittenAs(item)|..],
                      if item.Operand? then supplied else supplied + {item.option.destination}, rest, tail)
    requires item.Bare? ==> Next(arguments, index) != Some("true") && Next(arguments, index) != Some("false")
    ensures Explains(p, arguments[index..], supplied, [item] + rest, tail)
  {
    var n := |WrittenAs(item)|;
    assert arguments[index..] == arguments[index..index + n] + arguments[index + n..];
    var items := [item] + rest;
    assert items[0] == item && items[1..] == rest;
    LineUnfolds(items, tail);
    if item.Bare? && |rest| > 0 && rest[0].Operand? {
      LineUnfolds(rest, tail);
      assert Line(rest, tail)[0] == rest[0].text;
      assert arguments[index + 1] == arguments[index + n..][0];
    }
    SuppliedItems(p, item, rest, supplied);
  }

  /** Arguments that scan were written as items. */
  lemma {:induction false} ScannedWasWritten(
      p: Parser, arguments: seq<string>, index: nat, supplied: set<string>, done: Scanned)
    returns (items: seq<Item>, tail: Option<seq<string>>)
    requires index <= |arguments|
    requires ScanFrom(p, arguments, index, true, supplied, done).Success?
    ensures Explains(p, arguments[index..], supplied, items, tail)
    decreases |arguments| - index
  {
    hide Interpret, AreItems, IsItem;
    if index == |arguments| {
      items, tail := [], None;
      NoItems(p, supplied);
      assert arguments[index..] == Line([], None);
    } else {
      var token := arguments[index];
      if token == "--" {
        items, tail := [], Some(arguments[index + 1..]);
        NoItems(p, supplied);
        assert arguments[index..] == ["--"] + arguments[index + 1..];
      } else if IsPositional(token, true) {
        var rest;
        rest, tail := ScannedWasWritten(p, arguments, index + 1, supplied,
                                        done.(positional := done.positional + [token]));
        items := [Operand(token)] + rest;
        PositionalIsItem(p, token);
        PrependItem(p, arguments, index, supplied, Operand(token), rest, tail);
      } else {
        var item := InterpretedIsItem(p, arguments, index, supplied);
        var (option, reading) := Interpret(p, arguments, index, supplied).value;
        var rest;
        rest, tail := ScannedWasWritten(p, arguments, index + |WrittenAs(item)|, supplied + {option.destination},
                                        done.(chosen := done.chosen + [Chosen(option, reading.value, index)]));
        items := [item] + rest;
        PrependItem(p, arguments, index, supplied, item, rest, tail);
      }
    }
  }

  lemma NoItems(p: Parser, supplied: set<string>)
    ensures AreItems(p, [], supplied)
  {
  }

  lemma PositionalIsItem(p: Parser, token: string)
    requires IsPositional(token, true)
    ensures IsItem(p, Operand(token))
  {
  }

  // ----- The grammar --------------------------------------------------------

  lemma LineMeaningIs(items: seq<Item>, tail: Option<seq<string>>)
    ensures Joined(Scanned([], []), Joined(Meaning(items, 0), TailMeaning(tail))) == LineMeaning(items, tail)
  {
    var m, t := Meaning(items, 0), TailMeaning(tail);
    assert [] + (m.chosen + t.chosen) == m.chosen + t.chosen;
    assert [] + (m.positional + t.positional) == m.positional + t.positional;
    assert m.chosen + [] == m.chosen && m.positional + [] == m.positional;
  }

  /** Whatever way arguments are written, scanning them gives what was meant. */
  lemma {:induction false} WrittenScan(p: Parser, items: seq<Item>, tail: Option<seq<string>>)
    requires Accepted(p.schema, p.options) && AreItems(p, items, {})
    ensures Scan(p, Line(items, tail)) == Success(LineMeaning(items, tail))
  {
    hide Accepted, AreItems, Line, ScanFrom, Meaning;
    var arguments := Line(items, tail);
    assert arguments[0..] == arguments;
    WrittenItemsScan(p, arguments, 0, {}, items, tail, Scanned([], []));
    LineMeaningIs(items, tail);
  }

  ghost predicate Means(
      p: Parser, arguments: seq<string>, items: seq<Item>, tail: Option<seq<string>>, meaning: Scanned)
  {
    Explains(p, arguments, {}, items, tail) && meaning == LineMeaning(items, tail)
  }

  /** An argument vector scans to a result if and only if it is a way of writing what the result says. */
  lemma {:induction false} ScansIffWritten(p: Parser, arguments: seq<string>, meaning: Scanned)
    requires Accepted(p.schema, p.options)
    ensures Scan(p, arguments) == Success(meaning) <==> exists items, tail :: Means(p, arguments, items, tail, meaning)
  {
    hide Accepted, AreItems, Line, ScanFrom, LineMeaning;
    forall items, tail, m | Means(p, arguments, items, tail, m)
      ensures Scan(p, arguments) == Success(m)
    {
      WrittenScan(p, items, tail);
    }
    if Scan(p, arguments) == Success(meaning) {
      assert arguments[0..] == arguments;
      var items, tail := ScannedWasWritten(p, arguments, 0, {}, Scanned([], []));
      WrittenScan(p, items, tail);
      assert Means(p, arguments, items, tail, meaning);
    }
  }
}

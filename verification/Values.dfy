/** Configuration values, their nodes and the canonical paths that name them. */
module Values {
  import opened Results
  import opened Pointers
  import Norm

  /** Doubles stay abstract but for their order. */
  type Number = Norm.Extended

  datatype Kind = NullKind | BooleanKind | SignedKind | UnsignedKind | DoubleKind | StringKind | ListKind | ObjectKind

  datatype Value =
    | Null
    | Boolean(flag: bool)
    | Signed(signed: int)
    | Unsigned(unsigned: nat)
    | Double(number: Number)
    | Text(text: string)
    | List(items: seq<Value>)
    | Object(fields: map<string, Value>)

  function KindOf(value: Value): Kind {
    match value
    case Null => NullKind
    case Boolean(_) => BooleanKind
    case Signed(_) => SignedKind
    case Unsigned(_) => UnsignedKind
    case Double(_) => DoubleKind
    case Text(_) => StringKind
    case List(_) => ListKind
    case Object(_) => ObjectKind
  }

  // ----- List indices as tokens ---------------------------------------------

  const SIZE_MAX: nat := 0xFFFF_FFFF_FFFF_FFFF

  function Digit(d: nat): (c: char)
    requires d < 10
    ensures '0' <= c <= '9' && (c - '0') as int == d
  {
    '0' + d as char
  }

  function Decimal(n: nat): (s: string)
    ensures |s| >= 1
  {
    if n < 10 then [Digit(n)] else Decimal(n / 10) + [Digit(n % 10)]
  }

  /** The index a token spells, as the path lookup reads it from the left. */
  function Spelled(token: string): Result<nat> {
    if |token| == 0 then Success(0)
    else
      match Spelled(token[..|token| - 1])
      case Failure(error) => Failure(error)
      case Success(index) =>
        var c := token[|token| - 1];
        if c < '0' || c > '9' then Failure(InvalidArgument)
        else
          var digit := (c - '0') as int;
          if index > (SIZE_MAX - digit) / 10 then Failure(Overflow) else Success(index * 10 + digit)
  }

  /** Reading back the decimal form of an index. */
  lemma {:induction false} SpelledDecimal(n: nat)
    requires n <= SIZE_MAX
    ensures Spelled(Decimal(n)) == Success(n)
  {
    var s := Decimal(n);
    if n < 10 {
      assert s[..0] == "";
      assert Spelled("") == Success(0);
    } else {
      SpelledDecimal(n / 10);
      assert s[..|s| - 1] == Decimal(n / 10);
    }
  }

  lemma {:induction false} DecimalInjective(m: nat, n: nat)
    requires Decimal(m) == Decimal(n)
    ensures m == n
  {
    var s, t := Decimal(m), Decimal(n);
    assert s[|s| - 1] == t[|t| - 1];
    if m >= 10 && n >= 10 {
      assert s[..|s| - 1] == Decimal(m / 10) && t[..|t| - 1] == Decimal(n / 10);
      DecimalInjective(m / 10, n / 10);
    }
  }

  // ----- Nodes --------------------------------------------------------------

  /** The child a canonical token names. */
  ghost function Child(value: Value, token: string): Option<Value> {
    match value
    case List(items) =>
      if exists i :: 0 <= i < |items| && Decimal(i) == token
      then
        var i :| 0 <= i < |items| && Decimal(i) == token;
        Some(items[i])
      else None
    case Object(fields) => if token in fields then Some(fields[token]) else None
    case _ => None
  }

  lemma ListChild(items: seq<Value>, i: nat)
    requires i < |items|
    ensures Child(List(items), Decimal(i)) == Some(items[i])
  {
    assert Child(List(items), Decimal(i)).Some?;
    forall j | 0 <= j < |items| && Decimal(j) == Decimal(i)
      ensures j == i
    {
      DecimalInjective(i, j);
    }
  }

  /** The node below `value` at a list of canonical tokens. */
  ghost function Node(value: Value, tokens: Tokens): Option<Value> {
    if |tokens| == 0 then Some(value)
    else
      match Child(value, tokens[0])
      case None => None
      case Some(child) => Node(child, tokens[1..])
  }

  ghost predicate IsNode(value: Value, tokens: Tokens) {
    Node(value, tokens).Some?
  }
}

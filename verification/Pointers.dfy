/** JSON Pointer paths (RFC 6901, sections 3 and 4): escaping, rendering and parsing. */
module Pointers {
  import opened Results

  type Tokens = seq<string>

  // ----- Escaping one token -------------------------------------------------

  function EscapeChar(c: char): (e: string)
    ensures 1 <= |e| <= 2
  {
    if c == '~' then "~0" else if c == '/' then "~1" else [c]
  }

  function Escape(token: string): string {
    if |token| == 0 then "" else EscapeChar(token[0]) + Escape(token[1..])
  }

  function Unescape(encoded: string): Result<string> {
    if |encoded| == 0 then Success("")
    else if encoded[0] != '~' then Prepend(encoded[0], Unescape(encoded[1..]))
    else if |encoded| == 1 then Failure(InvalidArgument)
    else if encoded[1] == '0' then Prepend('~', Unescape(encoded[2..]))
    else if encoded[1] == '1' then Prepend('/', Unescape(encoded[2..]))
    else Failure(InvalidArgument)
  }

  function Prepend(c: char, rest: Result<string>): Result<string> {
    match rest
    case Success(token) => Success([c] + token)
    case Failure(error) => Failure(error)
  }

  /** A text without a separator. */
  predicate IsSegment(s: string) {
    '/' !in s
  }

  /** Exactly the escape of a token unescapes to it, among texts without a separator. */
  lemma {:induction false} UnescapeIffEscape(encoded: string, token: string)
    requires IsSegment(encoded)
    ensures Unescape(encoded) == Success(token) <==> encoded == Escape(token)
    decreases |encoded|
  {
    if |encoded| == 0 {
    } else {
      var width := if encoded[0] == '~' && |encoded| > 1 then 2 else 1;
      var rest := encoded[width..];
      assert encoded == encoded[..width] + rest;
      if |token| > 0 {
        UnescapeIffEscape(rest, token[1..]);
        assert token == [token[0]] + token[1..];
        EscapeStart(encoded, token);
      }
      UnescapeNonEmpty(encoded);
    }
  }

  lemma UnescapeNonEmpty(encoded: string)
    requires |encoded| > 0
    ensures Unescape(encoded) != Success("")
  {
  }

  lemma EscapeStart(encoded: string, token: string)
    requires |encoded| > 0 && |token| > 0
    ensures encoded == Escape(token) ==>
      var e := EscapeChar(token[0]);
      |e| <= |encoded| && encoded[..|e|] == e && encoded[|e|..] == Escape(token[1..])
  {
  }

  lemma {:induction false} EscapeIsSegment(token: string)
    ensures IsSegment(Escape(token))
  {
    if |token| == 0 {
    } else {
      EscapeIsSegment(token[1..]);
    }
  }

  method EscapePathToken(token: string) returns (escaped: string)
    ensures escaped == Escape(token)
  {
    escaped := "";
    hide Escape;
    EscapeEnds(token);
    for index := 0 to |token|
      invariant escaped + Escape(token[index..]) == Escape(token)
    {
      EscapeStep(token, index, escaped);
      if token[index] == '~' {
        escaped := escaped + "~0";
      } else if token[index] == '/' {
        escaped := escaped + "~1";
      } else {
        escaped := escaped + [token[index]];
      }
    }
  }

  lemma EscapeEnds(token: string)
    ensures token[0..] == token && Escape(token[|token|..]) == ""
    ensures "" + Escape(token) == Escape(token)
  {
  }

  lemma EscapeStep(token: string, index: nat, escaped: string)
    requires index < |token|
    ensures escaped + Escape(token[index..]) == (escaped + EscapeChar(token[index])) + Escape(token[index + 1..])
  {
    assert token[index..][1..] == token[index + 1..];
    var e, rest := EscapeChar(token[index]), Escape(token[index + 1..]);
    assert escaped + (e + rest) == (escaped + e) + rest;
  }

  /** Joins an unescaped prefix to the outcome of the rest. */
  function Joined(prefix: string, rest: Result<string>): Result<string> {
    match rest
    case Success(token) => Success(prefix + token)
    case Failure(error) => Failure(error)
  }

  lemma JoinedStep(prefix: string, c: char, rest: Result<string>)
    ensures Joined(prefix, Prepend(c, rest)) == Joined(prefix + [c], rest)
  {
    if rest.Success? {
      assert prefix + ([c] + rest.value) == (prefix + [c]) + rest.value;
    }
  }

  method UnescapePathToken(encoded: string) returns (result: Result<string>)
    ensures result == Unescape(encoded)
  {
    var unescaped := "";
    var index := 0;
    while index < |encoded|
      invariant index <= |encoded|
      invariant Joined(unescaped, Unescape(encoded[index..])) == Joined("", Unescape(encoded))
    {
      ghost var rest := encoded[index..];
      assert rest[1..] == encoded[index + 1..];
      if encoded[index] != '~' {
        JoinedStep(unescaped, encoded[index], Unescape(encoded[index + 1..]));
        unescaped := unescaped + [encoded[index]];
        index := index + 1;
        continue;
      }
      if index + 1 >= |encoded| {
        return Failure(InvalidArgument);
      }
      index := index + 1;
      assert rest[2..] == encoded[index + 1..];
      if encoded[index] == '0' {
        JoinedStep(unescaped, '~', Unescape(encoded[index + 1..]));
        unescaped := unescaped + "~";
      } else if encoded[index] == '1' {
        JoinedStep(unescaped, '/', Unescape(encoded[index + 1..]));
        unescaped := unescaped + "/";
      } else {
        return Failure(InvalidArgument);
      }
      index := index + 1;
    }
    assert unescaped + "" == unescaped;
    if Unescape(encoded).Success? {
      assert "" + Unescape(encoded).value == Unescape(encoded).value;
    }
    return Success(unescaped);
  }

  // ----- Whole paths --------------------------------------------------------

  /** The canonical path of a list of tokens. */
  function Render(tokens: Tokens): string {
    if |tokens| == 0 then "" else Render(tokens[..|tokens| - 1]) + "/" + Escape(tokens[|tokens| - 1])
  }

  /** Position of the first separator from `start`, or the length. */
  function Separator(path: string, start: nat): (k: nat)
    requires start <= |path|
    ensures start <= k <= |path|
    ensures forall i :: start <= i < k ==> path[i] != '/'
    ensures k < |path| ==> path[k] == '/'
    decreases |path| - start
  {
    if start == |path| || path[start] == '/' then start else Separator(path, start + 1)
  }

  /** The tokens from `start` on, which follows a separator. */
  function ParseFrom(path: string, start: nat): Result<Tokens>
    requires start <= |path|
    decreases |path| - start
  {
    var end := Separator(path, start);
    match Unescape(path[start..end])
    case Failure(error) => Failure(error)
    case Success(token) =>
      Cons(token, if end == |path| then Success([]) else ParseFrom(path, end + 1))
  }

  function Cons(token: string, rest: Result<Tokens>): Result<Tokens> {
    match rest
    case Success(tokens) => Success([token] + tokens)
    case Failure(error) => Failure(error)
  }

  lemma ConsIs(token: string, rest: Result<Tokens>, head: string, tail: Tokens)
    ensures Cons(token, rest) == Success([head] + tail) <==> token == head && rest == Success(tail)
  {
    if rest.Success? {
      var all, given := [token] + rest.value, [head] + tail;
      assert all[0] == token && all[1..] == rest.value && given[0] == head && given[1..] == tail;
    }
  }

  function Parse(path: string): Result<Tokens> {
    if |path| == 0 then Success([])
    else if path[0] != '/' then Failure(InvalidArgument)
    else ParseFrom(path, 1)
  }

  /** The path of a list of tokens, from the front. */
  function RenderFront(tokens: Tokens): string {
    if |tokens| == 0 then "" else "/" + Escape(tokens[0]) + RenderFront(tokens[1..])
  }

  lemma {:induction false} RenderFrontAppends(tokens: Tokens, token: string)
    ensures RenderFront(tokens + [token]) == RenderFront(tokens) + "/" + Escape(token)
  {
    hide Escape;
    if |tokens| == 0 {
      assert RenderFront([token]) == "/" + Escape(token) + RenderFront([]);
    } else {
      RenderFrontAppends(tokens[1..], token);
      assert (tokens + [token])[1..] == tokens[1..] + [token];
    }
  }

  lemma {:induction false} RendersAgree(tokens: Tokens)
    ensures Render(tokens) == RenderFront(tokens)
  {
    if |tokens| == 0 {
    } else {
      var n := |tokens| - 1;
      RendersAgree(tokens[..n]);
      RenderFrontAppends(tokens[..n], tokens[n]);
      assert tokens[..n] + [tokens[n]] == tokens;
    }
  }

  lemma ParseFromIs(path: string, start: nat, head: string, tail: Tokens)
    requires start <= |path|
    ensures ParseFrom(path, start) != Success([])
    ensures var end := Separator(path, start);
      ParseFrom(path, start) == Success([head] + tail)
      <==> Unescape(path[start..end]) == Success(head)
           && if end == |path| then tail == [] else ParseFrom(path, end + 1) == Success(tail)
  {
    var end := Separator(path, start);
    var segment := path[start..end];
    hide Separator, Unescape;
    if Unescape(segment).Success? {
      ConsIs(Unescape(segment).value, if end == |path| then Success([]) else ParseFrom(path, end + 1), head, tail);
    }
  }

  lemma RenderedTail(path: string, end: nat, tail: Tokens)
    requires end <= |path|
    ensures end == |path| ==> (path[end..] == RenderFront(tail) <==> tail == [])
    ensures end < |path| && path[end..] == RenderFront(tail) ==> |tail| > 0
  {
  }

  /** Parsing from a separator yields exactly the tokens whose rendering remains. */
  lemma {:induction false} ParseFromIffRender(path: string, start: nat, tokens: Tokens)
    requires 1 <= start <= |path| && path[start - 1] == '/'
    ensures ParseFrom(path, start) == Success(tokens) <==> |tokens| > 0 && path[start - 1..] == RenderFront(tokens)
    decreases |path| - start
  {
    hide ParseFrom, RenderFront, Separator, Unescape, Escape;
    var end := Separator(path, start);
    assert IsSegment(path[start..end]);
    if |tokens| == 0 {
      ParseFromIs(path, start, "", []);
    } else {
      var head, tail := tokens[0], tokens[1..];
      assert tokens == [head] + tail;
      ParseFromIs(path, start, head, tail);
      UnescapeIffEscape(path[start..end], head);
      FrontIffParts(path, start, end, tokens);
      RenderedTail(path, end, tail);
      if end < |path| {
        ParseFromIffRender(path, end + 1, tail);
      }
    }
  }

  /** A text splits at its first separator in one way only. */
  lemma SplitsOnce(s: string, k: nat, e: string, rest: string)
    requires k <= |s| && IsSegment(s[..k]) && (k < |s| ==> s[k] == '/')
    requires IsSegment(e) && (rest != "" ==> rest[0] == '/')
    ensures s == e + rest <==> s[..k] == e && s[k..] == rest
  {
    assert s == s[..k] + s[k..];
    if s == e + rest {
      if k < |e| {
        SegmentChar(e, k);
      } else if |e| < k {
        SegmentChar(s[..k], |e|);
      }
    }
  }

  lemma SegmentChar(e: string, i: nat)
    requires IsSegment(e) && i < |e|
    ensures e[i] != '/'
  {
  }

  lemma FrontIffParts(path: string, start: nat, end: nat, tokens: Tokens)
    requires 1 <= start <= end <= |path| && path[start - 1] == '/' && end == Separator(path, start) && |tokens| > 0
    ensures path[start - 1..] == RenderFront(tokens)
            <==> path[start..end] == Escape(tokens[0]) && path[end..] == RenderFront(tokens[1..])
  {
    var e, rest := Escape(tokens[0]), RenderFront(tokens[1..]);
    EscapeIsSegment(tokens[0]);
    RenderFrontIs(tokens);
    hide *;
    SegmentUpTo(path, start, end);
    SplitsOnce(path[start..], end - start, e, rest);
    AfterSlash(path, start, e + rest);
  }

  lemma RenderFrontIs(tokens: Tokens)
    requires |tokens| > 0
    ensures RenderFront(tokens) == "/" + (Escape(tokens[0]) + RenderFront(tokens[1..]))
    ensures RenderFront(tokens[1..]) != "" ==> RenderFront(tokens[1..])[0] == '/'
  {
  }

  lemma SegmentUpTo(path: string, start: nat, end: nat)
    requires start <= end <= |path| && end == Separator(path, start)
    ensures var s, k := path[start..], end - start;
      s[..k] == path[start..end] && s[k..] == path[end..] && IsSegment(s[..k]) && (k < |s| ==> s[k] == '/')
  {
    hide Separator;
  }

  lemma AfterSlash(path: string, start: nat, rest: string)
    requires 1 <= start <= |path| && path[start - 1] == '/'
    ensures path[start - 1..] == "/" + rest <==> path[start..] == rest
  {
    assert path[start - 1..] == "/" + path[start..];
    assert path[start - 1..][1..] == path[start..];
    assert ("/" + rest)[1..] == rest;
  }

  /** A path parses into `tokens` exactly when it is their canonical rendering. */
  lemma {:induction false} ParseIffRender(path: string, tokens: Tokens)
    ensures Parse(path) == Success(tokens) <==> path == Render(tokens)
  {
    RendersAgree(tokens);
    if |path| > 0 && path[0] == '/' {
      ParseFromIffRender(path, 1, tokens);
      assert path[0..] == path;
    }
  }

  /** Distinct token lists have distinct paths. */
  lemma RenderInjective(a: Tokens, b: Tokens)
    requires Render(a) == Render(b)
    ensures a == b
  {
    ParseIffRender(Render(a), a);
    ParseIffRender(Render(a), b);
  }
}

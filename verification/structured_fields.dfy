/**
 Structured Field Lists (RFC 9651): a tokenizer for the parts the rate-limit headers use, standing in
 for the sfparse crate, and the helpers that escape, unescape and skip.

 Lexers take the input that is left and return a value with what is left after it. Strings are
 handed out raw, with a flag that says whether they hold escapes.
 */
module StructuredFields {
  import opened Wrappers
  import opened Text

  datatype Value =
    | Integer(n: int)
    | Decimal(negative: bool, whole: string, part: string)
    | String(raw: string, escape: bool)
    | Token(text: string)
    | ByteSeq(text: string)
    | Boolean(b: bool)
    | Date(n: int)
    | InnerList

  datatype Param = Param(key: string, value: Value)

  datatype Member = Member(value: Value, params: seq<Param>)

  datatype Lexed<+T> = Lexed(value: T, rest: string)

  // ---------------------------------------------------------------- bare items (section 4.2.3.1)

  /** Section 4.2.4, past the digits before a point: at most 15, or 12 and 1 to 3 more after it. */
  function LexPastDigits(whole: string, u: string, negative: bool): (r: Result<Lexed<Value>>)
    requires All(IsDigit, whole)
    ensures r.Ok? ==> |r.value.rest| <= |u|
  {
    if u != "" && u[0] == '.' then
      var part := Split(IsDigit, u[1..]);
      if |whole| <= 12 && 1 <= |part.taken| <= 3
      then Ok(Lexed(Decimal(negative, whole, part.taken), part.rest)) else ParseError
    else if |whole| <= 15 then
      var magnitude: int := ToNat(whole);
      Ok(Lexed(Integer(if negative then -magnitude else magnitude), u))
    else ParseError
  }

  function LexDigits(s: string, negative: bool): (r: Result<Lexed<Value>>)
    ensures r.Ok? ==> |r.value.rest| < |s|
  {
    var whole := Split(IsDigit, s);
    if whole.taken == "" then ParseError else LexPastDigits(whole.taken, whole.rest, negative)
  }

  function LexNumber(s: string): (r: Result<Lexed<Value>>)
    ensures r.Ok? ==> |r.value.rest| < |s|
  {
    if s != "" && s[0] == '-' then LexDigits(s[1..], true) else LexDigits(s, false)
  }

  /** Section 4.2.5, past the opening quote: the raw text up to the closing one. */
  function LexString(s: string): (r: Result<Lexed<string>>)
    ensures r.Ok? ==> |r.value.rest| < |s|
  {
    if s == "" then ParseError
    else if s[0] == '"' then Ok(Lexed("", s[1..]))
    else if s[0] == '\\' then
      if |s| < 2 || s[1] !in "\"\\" then ParseError else
        match LexString(s[2..])
        case Ok(l) => Ok(Lexed(['\\', s[1]] + l.value, l.rest))
        case ParseError => ParseError
    else if !IsPrintable(s[0]) then ParseError
    else
      match LexString(s[1..])
      case Ok(l) => Ok(Lexed([s[0]] + l.value, l.rest))
      case ParseError => ParseError
  }

  function LexItem(s: string): (r: Result<Lexed<Value>>)
    ensures r.Ok? ==> |r.value.rest| < |s|
  {
    if s == "" then ParseError
    else if s[0] == '-' || IsDigit(s[0]) then LexNumber(s)
    else if s[0] == '"' then
      match LexString(s[1..])
      case Ok(l) => Ok(Lexed(String(l.value, '\\' in l.value), l.rest))
      case ParseError => ParseError
    else if IsTokenStart(s[0]) then
      var more := Split(IsTokenChar, s[1..]);
      Ok(Lexed(Token([s[0]] + more.taken), more.rest))
    else if s[0] == ':' then
      var text := Split(IsBase64, s[1..]);
      if text.rest != "" && text.rest[0] == ':' then Ok(Lexed(ByteSeq(text.taken), text.rest[1..])) else ParseError
    else if s[0] == '?' then
      var t := s[1..];
      if t != "" && t[0] in "01" then Ok(Lexed(Boolean(t[0] == '1'), t[1..])) else ParseError
    else if s[0] == '@' then
      match LexNumber(s[1..])
      case Ok(Lexed(Integer(n), rest)) => Ok(Lexed(Date(n), rest))
      case _ => ParseError
    else ParseError
  }

  // ---------------------------------------------------------------- parameters and inner lists

  /** Section 4.2.3.2, one parameter at a time. */
  function LexParam(s: string): (r: Result<Lexed<Option<Param>>>)
    ensures r.Ok? ==> if r.value.value.Some? then |r.value.rest| < |s| else r.value.rest == s
  {
    if s == "" || s[0] != ';' then Ok(Lexed(None, s)) else
      var t := Skip(IsSp, s[1..]);
      if t == "" || !IsKeyStart(t[0]) then ParseError else
        var more := Split(IsKeyChar, t[1..]);
        var key, u := [t[0]] + more.taken, more.rest;
        if u != "" && u[0] == '=' then
          match LexItem(u[1..])
          case Ok(Lexed(value, rest)) => Ok(Lexed(Some(Param(key, value)), rest))
          case ParseError => ParseError
        else Ok(Lexed(Some(Param(key, Boolean(true))), u))
  }

  function LexParams(s: string): (r: Result<Lexed<seq<Param>>>)
    ensures r.Ok? ==> |r.value.rest| <= |s|
    decreases |s|
  {
    match LexParam(s)
    case ParseError => ParseError
    case Ok(Lexed(None, rest)) => Ok(Lexed([], rest))
    case Ok(Lexed(Some(param), rest)) =>
      match LexParams(rest)
      case ParseError => ParseError
      case Ok(Lexed(params, rest')) => Ok(Lexed([param] + params, rest'))
  }

  /** Section 4.2.1.2, one member at a time, its own parameters dropped. */
  function LexInner(s: string): (r: Result<Lexed<Option<Value>>>)
    ensures r.Ok? ==> |r.value.rest| < |s|
  {
    var t := Skip(IsSp, s);
    if t == "" then ParseError
    else if t[0] == ')' then Ok(Lexed(None, t[1..]))
    else
      match LexItem(t)
      case ParseError => ParseError
      case Ok(Lexed(value, u)) =>
        match LexParams(u)
        case Ok(Lexed(_, rest)) =>
          if rest != "" && rest[0] in " )" then Ok(Lexed(Some(value), rest)) else ParseError
        case ParseError => ParseError
  }

  function LexInnerRest(s: string): (r: Result<Lexed<()>>)
    ensures r.Ok? ==> |r.value.rest| < |s|
    decreases |s|
  {
    match LexInner(s)
    case ParseError => ParseError
    case Ok(Lexed(None, rest)) => Ok(Lexed((), rest))
    case Ok(Lexed(Some(_), rest)) => LexInnerRest(rest)
  }

  // ---------------------------------------------------------------- lists (section 4.2.1)

  function LexOpening(s: string): (r: Result<Lexed<Option<Value>>>)
    requires s != ""
    ensures r.Ok? ==> r.value.value.Some? && |r.value.rest| < |s|
  {
    if s[0] == '(' then Ok(Lexed(Some(InnerList), s[1..])) else
      match LexItem(s)
      case Ok(Lexed(value, rest)) => Ok(Lexed(Some(value), rest))
      case ParseError => ParseError
  }

  /** The next list member's value, or none at the end; `started` once the first was asked for. */
  function LexValue(started: bool, s: string): (r: Result<Lexed<Option<Value>>>)
    ensures r.Ok? ==> |r.value.rest| <= |s|
    ensures r.Ok? && r.value.value.Some? ==> |r.value.rest| < |s|
  {
    if !started then
      var t := Skip(IsSp, s);
      if t == "" then Ok(Lexed(None, t)) else LexOpening(t)
    else
      var t := Skip(IsOws, s);
      if t == "" then Ok(Lexed(None, t))
      else if t[0] != ',' then ParseError
      else
        var u := Skip(IsOws, t[1..]);
        if u == "" then ParseError else LexOpening(u)
  }

  /** The rest of a member: an inner list's contents, dropped, then its parameters. */
  function LexTail(value: Value, s: string): (r: Result<Lexed<seq<Param>>>)
    ensures r.Ok? ==> |r.value.rest| <= |s|
  {
    if value != InnerList then LexParams(s) else
      match LexInnerRest(s)
      case Ok(Lexed(_, rest)) => LexParams(rest)
      case ParseError => ParseError
  }

  function LexMembers(started: bool, s: string): Result<seq<Member>>
    decreases |s|
  {
    match LexValue(started, s)
    case ParseError => ParseError
    case Ok(Lexed(None, _)) => Ok([])
    case Ok(Lexed(Some(value), t)) =>
      match LexTail(value, t)
      case ParseError => ParseError
      case Ok(Lexed(params, rest)) =>
        match LexMembers(true, rest)
        case ParseError => ParseError
        case Ok(members) => Ok([Member(value, params)] + members)
  }

  /** The members from here on, once the first one's value has been read. */
  function LexFrom(value: Value, s: string): Result<seq<Member>> {
    match LexTail(value, s)
    case ParseError => ParseError
    case Ok(Lexed(params, rest)) =>
      match LexMembers(true, rest)
      case ParseError => ParseError
      case Ok(members) => Ok([Member(value, params)] + members)
  }

  lemma MembersUnfold(started: bool, s: string)
    ensures LexMembers(started, s)
         == match LexValue(started, s)
            case ParseError => ParseError
            case Ok(Lexed(None, _)) => Ok([])
            case Ok(Lexed(Some(value), t)) => LexFrom(value, t)
  {
  }

  function Tokenize(s: string): Result<seq<Member>> {
    LexMembers(false, s)
  }

  // ---------------------------------------------------------------- escaping

  /** What is left of raw string text once backslashes have done their work. */
  function Unescaped(raw: string): string {
    if raw == "" then ""
    else if raw[0] != '\\' then [raw[0]] + Unescaped(raw[1..])
    else if |raw| == 1 then ""
    else [raw[1]] + Unescaped(raw[2..])
  }

  function Escaped(value: string): string {
    if value == "" then ""
    else (if value[0] in "\\\"" then ['\\', value[0]] else [value[0]]) + Escaped(value[1..])
  }

  function Quoted(value: string): string {
    "\"" + Escaped(value) + "\""
  }

  function StringValue(raw: string, escape: bool): string {
    if escape then Unescaped(raw) else raw
  }

  method Unescape(raw: string) returns (out: string)
    ensures out == Unescaped(raw)
  {
    out := "";
    var chars := raw;
    while chars != ""
      invariant out + Unescaped(chars) == Unescaped(raw)
      decreases |chars|
    {
      var c := chars[0];
      ghost var left := Unescaped(chars);
      chars := chars[1..];
      if c == '\\' {
        if chars != "" {
          assert left == [chars[0]] + Unescaped(chars[1..]);
          out := out + [chars[0]];
          chars := chars[1..];
        }
      } else {
        assert left == [c] + Unescaped(chars);
        out := out + [c];
      }
    }
  }

  /** The sink `Display` writes to. */
  class Formatter {
    var text: string

    constructor ()
      ensures text == ""
    {
      text := "";
    }

    method Write(s: string)
      modifies this
      ensures text == old(text) + s
    {
      text := text + s;
    }
  }

  method WriteSfString(f: Formatter, value: string)
    modifies f
    ensures f.text == old(f.text) + Quoted(value)
  {
    f.Write("\"");
    ghost var start := f.text;
    assert value[0..] == value;
    for i := 0 to |value|
      invariant f.text + Escaped(value[i..]) == start + Escaped(value)
    {
      var c := value[i];
      ghost var before := f.text;
      if c == '\\' || c == '"' {
        f.Write("\\");
      }
      f.Write([c]);
      assert value[i..][1..] == value[i + 1..];
      ghost var written := if c in "\\\"" then ['\\', c] else [c];
      assert f.text == before + written;
      assert before + (written + Escaped(value[i + 1..])) == f.text + Escaped(value[i + 1..]);
    }
    assert value[|value|..] == "";
    f.Write("\"");
    assert f.text == old(f.text) + "\"" + Escaped(value) + "\"";
  }

  lemma {:induction false} PlainIsUnescaped(value: string)
    requires All(c => c !in "\\\"", value)
    ensures Escaped(value) == value
  {
    if value != "" {
      PlainIsUnescaped(value[1..]);
      assert [value[0]] + value[1..] == value;
    }
  }

  /** Unescaping undoes escaping on every string, printable or not. */
  lemma {:induction false} UnescapeUndoesEscape(value: string)
    ensures Unescaped(Escaped(value)) == value
    ensures StringValue(Escaped(value), '\\' in Escaped(value)) == value
  {
    if value != "" {
      var head, tail := if value[0] in "\\\"" then ['\\', value[0]] else [value[0]], Escaped(value[1..]);
      UnescapeUndoesEscape(value[1..]);
      assert (head + tail)[|head|..] == tail;
      if '\\' !in Escaped(value) {
        assert '\\' !in head && '\\' !in tail by {
          assert forall c :: c in head || c in tail ==> c in head + tail;
        }
        assert '\\' in ['\\', value[0]];
      }
    }
  }

  /** Any way of escaping: a backslash before each marked character. */
  function EscapedAs(value: string, marks: seq<bool>): string
    requires |marks| == |value|
  {
    if value == "" then ""
    else (if marks[0] then ['\\', value[0]] else [value[0]]) + EscapedAs(value[1..], marks[1..])
  }

  /** Unescaping takes it off, as long as backslashes themselves are marked, and drops one left at the end. */
  lemma {:induction false} UnescapeUndoesAnyEscape(value: string, marks: seq<bool>)
    requires |marks| == |value| && forall i :: 0 <= i < |value| && value[i] == '\\' ==> marks[i]
    ensures Unescaped(EscapedAs(value, marks)) == value
    ensures Unescaped(EscapedAs(value, marks) + "\\") == value
  {
    if value != "" {
      UnescapeUndoesAnyEscape(value[1..], marks[1..]);
      var head, tail := if marks[0] then ['\\', value[0]] else [value[0]], EscapedAs(value[1..], marks[1..]);
      assert (head + tail)[|head|..] == tail;
      assert head + tail + "\\" == head + (tail + "\\");
      assert (head + (tail + "\\"))[|head|..] == tail + "\\";
    }
  }

  /** The quoted form delimits itself: the closing quote is the first one the lexer accepts. */
  lemma {:induction false} EscapedIsDelimited(value: string, rest: string)
    requires All(IsPrintable, value)
    ensures LexString(Escaped(value) + "\"" + rest) == Ok(Lexed(Escaped(value), rest))
  {
    var s := Escaped(value) + "\"" + rest;
    if value == "" {
      assert s[1..] == rest;
    } else {
      EscapedIsDelimited(value[1..], rest);
      var tail := Escaped(value[1..]) + "\"" + rest;
      if value[0] in "\\\"" {
        assert s == ['\\', value[0]] + tail && s[2..] == tail;
      } else {
        assert s == [value[0]] + tail && s[1..] == tail;
      }
    }
  }

  /** With a character that is not printable it is no string at all. */
  lemma {:induction false} UnprintableIsRejected(value: string, rest: string)
    requires !All(IsPrintable, value)
    ensures LexString(Escaped(value) + "\"" + rest) == ParseError
  {
    var s := Escaped(value) + "\"" + rest;
    var tail := Escaped(value[1..]) + "\"" + rest;
    if value[0] in "\\\"" {
      UnprintableIsRejected(value[1..], rest);
      assert s == ['\\', value[0]] + tail && s[2..] == tail;
    } else {
      assert s == [value[0]] + tail && s[1..] == tail;
      if IsPrintable(value[0]) {
        UnprintableIsRejected(value[1..], rest);
      }
    }
  }

  /** Conversely a string the lexer accepts holds printable characters only, once unescaped. */
  lemma {:induction false} AcceptedIsPrintable(s: string)
    requires LexString(s).Ok?
    ensures var raw := LexString(s).value.value; All(IsPrintable, Unescaped(raw)) && All(IsPrintable, raw)
  {
    var raw := LexString(s).value.value;
    if s[0] == '\\' {
      AcceptedIsPrintable(s[2..]);
      assert raw[2..] == LexString(s[2..]).value.value;
    } else if s[0] != '"' {
      AcceptedIsPrintable(s[1..]);
      assert raw[1..] == LexString(s[1..]).value.value;
    }
  }

  // ---------------------------------------------------------------- skipping

  /** A cursor over the input, as sfparse's parser is to its callers. */
  class Parser {
    var rest: string
    var started: bool

    constructor (input: string)
      ensures rest == input && !started
    {
      rest := input;
      started := false;
    }

    method ParseList() returns (r: Result<Option<Value>>)
      modifies this
      ensures match LexValue(old(started), old(rest))
              case ParseError => r == ParseError && rest == old(rest)
              case Ok(l) => r == Ok(l.value) && rest == l.rest && started
      ensures |rest| <= |old(rest)| && (r.Ok? && r.value.Some? ==> |rest| < |old(rest)|)
    {
      var l := LexValue(started, rest);
      if l.ParseError? {
        return ParseError;
      }
      rest, started := l.value.rest, true;
      return Ok(l.value.value);
    }

    method ParseParam() returns (r: Result<Option<Param>>)
      modifies this`rest
      ensures match LexParam(old(rest))
              case ParseError => r == ParseError && rest == old(rest)
              case Ok(l) => r == Ok(l.value) && rest == l.rest
    {
      var l := LexParam(rest);
      if l.ParseError? {
        return ParseError;
      }
      rest := l.value.rest;
      return Ok(l.value.value);
    }

    method ParseInnerList() returns (r: Result<Option<Value>>)
      modifies this`rest
      ensures match LexInner(old(rest))
              case ParseError => r == ParseError && rest == old(rest)
              case Ok(l) => r == Ok(l.value) && rest == l.rest
    {
      var l := LexInner(rest);
      if l.ParseError? {
        return ParseError;
      }
      rest := l.value.rest;
      return Ok(l.value.value);
    }
  }

  /** The input left after a lexer that succeeded. */
  predicate LeavesOff<T>(l: Result<Lexed<T>>, r: Result<()>, rest: string) {
    r.Ok? == l.Ok? && (l.Ok? ==> rest == l.value.rest)
  }

  predicate EndsAlike<T>(l: Result<Lexed<T>>, l': Result<Lexed<T>>) {
    l.Ok? == l'.Ok? && (l.Ok? ==> l.value.rest == l'.value.rest)
  }

  method DrainParams(parser: Parser) returns (r: Result<()>)
    modifies parser`rest
    ensures LeavesOff(LexParams(old(parser.rest)), r, parser.rest)
    ensures |parser.rest| <= |old(parser.rest)|
  {
    ghost var whole := LexParams(parser.rest);
    var param := parser.ParseParam();
    while param.Ok? && param.value.Some?
      invariant if param.ParseError? then whole.ParseError?
                else if param.value.None? then LeavesOff(whole, Ok(()), parser.rest)
                else EndsAlike(whole, LexParams(parser.rest))
      invariant |parser.rest| <= |old(parser.rest)|
      decreases |parser.rest|, if param.Ok? && param.value.Some? then 1 else 0
    {
      param := parser.ParseParam();
    }
    return if param.Ok? then Ok(()) else ParseError;
  }

  method SkipItem(parser: Parser, value: Value) returns (r: Result<()>)
    modifies parser`rest
    ensures LeavesOff(LexTail(value, old(parser.rest)), r, parser.rest)
    ensures |parser.rest| <= |old(parser.rest)|
  {
    if value == InnerList {
      ghost var whole := LexInnerRest(parser.rest);
      var inner := parser.ParseInnerList();
      while inner.Ok? && inner.value.Some?
        invariant if inner.ParseError? then whole.ParseError?
                  else if inner.value.None? then whole == Ok(Lexed((), parser.rest))
                  else whole == LexInnerRest(parser.rest)
        invariant |parser.rest| <= |old(parser.rest)|
        decreases |parser.rest|, if inner.Ok? && inner.value.Some? then 1 else 0
      {
        inner := parser.ParseInnerList();
      }
      if inner.ParseError? {
        return ParseError;
      }
    }
    r := DrainParams(parser);
  }
}

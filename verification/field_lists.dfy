/** How lists of members read back, and what joining two well-formed lists by a comma does. */
module FieldLists {
  import opened Wrappers
  import opened Text
  import opened StructuredFields

  // ---------------------------------------------------------------- appending what cannot be absorbed

  /** Text that ends whatever bare item comes before it. */
  predicate EndsItem(z: string) {
    z != "" ==> z[0] in ",; \t)"
  }

  /** Text that ends a whole member, parameters and all. */
  predicate EndsMember(z: string) {
    z != "" ==> z[0] in ", \t)"
  }

  function Before<T>(l: Lexed<T>, z: string): Lexed<T> {
    Lexed(l.value, l.rest + z)
  }

  lemma EndsItemBreaks(z: string)
    requires EndsItem(z)
    ensures Breaks(IsDigit, z) && (z != "" ==> z[0] != '.')
  {
  }

  lemma PastDigitsExtend(whole: string, u: string, negative: bool, z: string)
    requires All(IsDigit, whole) && EndsItem(z) && LexPastDigits(whole, u, negative).Ok?
    ensures LexPastDigits(whole, u + z, negative) == Ok(Before(LexPastDigits(whole, u, negative).value, z))
  {
    EndsItemBreaks(z);
    hide Split, ToNat, All, EndsItem;
    if u == "" {
      assert u + z == z;
    } else {
      Tail(u, z);
      SplitExtends(IsDigit, u[1..], z);
    }
  }

  lemma DigitsExtend(s: string, negative: bool, z: string)
    requires EndsItem(z) && LexDigits(s, negative).Ok?
    ensures LexDigits(s + z, negative) == Ok(Before(LexDigits(s, negative).value, z))
  {
    EndsItemBreaks(z);
    hide Split, ToNat, All, EndsItem, LexPastDigits;
    SplitExtends(IsDigit, s, z);
    var Cut(whole, u) := Split(IsDigit, s);
    PastDigitsExtend(whole, u, negative, z);
  }

  lemma NumberExtends(s: string, z: string)
    requires EndsItem(z) && LexNumber(s).Ok?
    ensures LexNumber(s + z) == Ok(Before(LexNumber(s).value, z))
  {
    hide LexDigits;
    Tail(s, z);
    DigitsExtend(if s[0] == '-' then s[1..] else s, s[0] == '-', z);
  }

  lemma {:induction false} StringExtends(s: string, z: string)
    requires LexString(s).Ok?
    ensures LexString(s + z) == Ok(Before(LexString(s).value, z))
  {
    Tail(s, z);
    if s[0] == '\\' {
      StringExtends(s[2..], z);
      assert (s + z)[2..] == s[2..] + z;
    } else if s[0] != '"' {
      StringExtends(s[1..], z);
    }
  }

  lemma ItemExtends(s: string, z: string)
    requires EndsItem(z) && LexItem(s).Ok?
    ensures LexItem(s + z) == Ok(Before(LexItem(s).value, z))
  {
    hide LexNumber, LexString, Split, All;
    var c, t := s[0], s[1..];
    Tail(s, z);
    if c == '-' || IsDigit(c) {
      NumberExtends(s, z);
    } else if c == '"' {
      StringExtends(t, z);
    } else if IsTokenStart(c) {
      SplitExtends(IsTokenChar, t, z);
    } else if c == ':' {
      SplitExtends(IsBase64, t, z);
      Tail(Split(IsBase64, t).rest, z);
    } else if c == '?' {
      Tail(t, z);
    } else {
      NumberExtends(t, z);
    }
  }

  lemma ParamExtends(s: string, z: string)
    requires EndsItem(z) && LexParam(s).Ok?
    requires LexParam(s).value.value.None? ==> EndsMember(z)
    ensures LexParam(s + z) == Ok(Before(LexParam(s).value, z))
  {
    hide LexItem, Split, All;
    if s == "" {
      assert s + z == z;
    } else {
      Tail(s, z);
      if s[0] == ';' {
        SplitExtends(IsSp, s[1..], z);
        var t := Skip(IsSp, s[1..]);
        Tail(t, z);
        SplitExtends(IsKeyChar, t[1..], z);
        var u := Split(IsKeyChar, t[1..]).rest;
        if u == "" {
          assert u + z == z;
        } else {
          Tail(u, z);
          if u[0] == '=' {
            ItemExtends(u[1..], z);
          }
        }
      }
    }
  }

  lemma {:induction false} ParamsExtend(s: string, z: string)
    requires EndsMember(z) && LexParams(s).Ok?
    ensures LexParams(s + z) == Ok(Before(LexParams(s).value, z))
    decreases |s|
  {
    hide LexParam;
    ParamExtends(s, z);
    if LexParam(s).value.value.Some? {
      ParamsExtend(LexParam(s).value.rest, z);
    }
  }

  lemma InnerExtends(s: string, z: string)
    requires EndsMember(z) && LexInner(s).Ok?
    ensures LexInner(s + z) == Ok(Before(LexInner(s).value, z))
  {
    hide LexItem, LexParams, Split;
    SplitExtends(IsSp, s, z);
    var t := Skip(IsSp, s);
    if t[0] == ')' {
      Tail(t, z);
    } else {
      ItemExtends(t, z);
      ParamsExtend(LexItem(t).value.rest, z);
    }
  }

  lemma {:induction false} InnerRestExtends(s: string, z: string)
    requires EndsMember(z) && LexInnerRest(s).Ok?
    ensures LexInnerRest(s + z) == Ok(Before(LexInnerRest(s).value, z))
    decreases |s|
  {
    hide LexInner;
    InnerExtends(s, z);
    if LexInner(s).value.value.Some? {
      InnerRestExtends(LexInner(s).value.rest, z);
    }
  }

  lemma OpeningExtends(s: string, z: string)
    requires s != "" && EndsItem(z) && LexOpening(s).Ok?
    ensures LexOpening(s + z) == Ok(Before(LexOpening(s).value, z))
  {
    hide LexItem;
    if s[0] == '(' {
      Tail(s, z);
    } else {
      ItemExtends(s, z);
    }
  }

  lemma ValueExtends(started: bool, s: string, z: string)
    requires EndsItem(z) && LexValue(started, s).Ok? && LexValue(started, s).value.value.Some?
    ensures LexValue(started, s + z) == Ok(Before(LexValue(started, s).value, z))
  {
    hide LexOpening, Split;
    if !started {
      SplitExtends(IsSp, s, z);
      OpeningExtends(Skip(IsSp, s), z);
    } else {
      SplitExtends(IsOws, s, z);
      var t := Skip(IsOws, s);
      SplitExtends(IsOws, t[1..], z);
      Tail(t, z);
      OpeningExtends(Skip(IsOws, t[1..]), z);
    }
  }

  lemma TailExtends(value: Value, s: string, z: string)
    requires EndsMember(z) && LexTail(value, s).Ok?
    ensures LexTail(value, s + z) == Ok(Before(LexTail(value, s).value, z))
  {
    hide LexParams, LexInnerRest;
    if value == InnerList {
      InnerRestExtends(s, z);
      ParamsExtend(LexInnerRest(s).value.rest, z);
    } else {
      ParamsExtend(s, z);
    }
  }

  /** Both lists, if the second is well formed. */
  function Followed(ms: seq<Member>, more: Result<seq<Member>>): Result<seq<Member>> {
    if more.Ok? then Ok(ms + more.value) else ParseError
  }

  /** A list read up to its end goes on with whatever follows. */
  lemma {:induction false} MembersExtend(started: bool, s: string, z: string)
    requires EndsMember(z) && LexMembers(started, s).Ok?
    requires started || LexMembers(started, s).value != []
    ensures LexMembers(started, s + z) == Followed(LexMembers(started, s).value, LexMembers(true, z))
    decreases |s|
  {
    hide LexTail, LexValue;
    var v := LexValue(started, s).value;
    if v.value.None? {
      EndExtends(s, z);
      NothingBefore(LexMembers(true, z));
    } else {
      ValueExtends(started, s, z);
      TailExtends(v.value.value, v.rest, z);
      var tail := LexTail(v.value.value, v.rest).value;
      MembersExtend(true, tail.rest, z);
      if LexMembers(true, z).Ok? {
        assert [Member(v.value.value, tail.value)] + (LexMembers(true, tail.rest).value + LexMembers(true, z).value)
            == LexMembers(started, s).value + LexMembers(true, z).value;
      }
    }
  }

  lemma NothingBefore(more: Result<seq<Member>>)
    ensures Followed([], more) == more
  {
    if more.Ok? {
      assert [] + more.value == more.value;
    }
  }

  lemma EndExtends(s: string, z: string)
    requires LexValue(true, s).Ok? && LexValue(true, s).value.value.None?
    ensures LexValue(true, s + z) == LexValue(true, z)
  {
    hide LexOpening, Split;
    SkipsThrough(IsOws, s, z);
  }

  /** What is skipped whole may as well not be there. */
  lemma {:induction false} SkipsThrough(p: char -> bool, s: string, z: string)
    requires Skip(p, s) == ""
    ensures Skip(p, s + z) == Skip(p, z)
  {
    if s == "" {
      assert s + z == z;
    } else {
      Tail(s, z);
      SkipsThrough(p, s[1..], z);
    }
  }

  lemma SkipsAll(p: char -> bool, s: string)
    requires All(p, s)
    ensures Skip(p, s) == ""
  {
    SplitWhole(p, s, "");
    assert s + "" == s;
  }

  lemma StopsAt(p: char -> bool, z: string)
    requires z != "" && !p(z[0])
    ensures Skip(p, z) == z
  {
  }

  // ---------------------------------------------------------------- field lines

  /** Skipping spaces and tabs is skipping spaces, unless a tab comes next. */
  lemma {:induction false} OwsAfterSp(s: string)
    ensures var t := Skip(IsSp, s); (t == "" || t[0] != '\t') ==> Skip(IsOws, s) == t
  {
    if s != "" && s[0] == ' ' {
      OwsAfterSp(s[1..]);
      assert Skip(IsSp, s) == Skip(IsSp, s[1..]) && Skip(IsOws, s) == Skip(IsOws, s[1..]);
    }
  }

  lemma OpeningIsNotBlank(s: string)
    requires s != "" && LexOpening(s).Ok?
    ensures s[0] != '\t' && s[0] != ','
  {
  }

  /** After a comma a non-empty list reads as it does alone; an empty one is an error. */
  lemma AfterComma(b: string)
    requires Tokenize(b).Ok?
    ensures LexMembers(true, "," + b) == if Tokenize(b).value == [] then ParseError else Tokenize(b)
  {
    hide LexTail, LexOpening;
    var z, t := "," + b, Skip(IsSp, b);
    StopsAt(IsOws, z);
    assert z[1..] == b;
    OwsAfterSp(b);
    if t != "" {
      OpeningIsNotBlank(t);
    }
  }

  /**
   Two well-formed field values parse to the concatenation of their lists when joined by a comma,
   exactly when neither is empty; otherwise the joined value is malformed.
   */
  lemma LinesCombineIffNonEmpty(a: string, b: string)
    requires Tokenize(a).Ok? && Tokenize(b).Ok?
    ensures Tokenize(a + "," + b)
         == if Tokenize(a).value != [] && Tokenize(b).value != [] then Ok(Tokenize(a).value + Tokenize(b).value)
            else ParseError
  {
    hide LexMembers;
    var z := "," + b;
    assert a + "," + b == a + z;
    AfterComma(b);
    if Tokenize(a).value != [] {
      MembersExtend(false, a, z);
    } else {
      NothingThenComma(a, z);
    }
  }

  lemma NothingThenComma(a: string, z: string)
    requires z != "" && z[0] == ',' && Tokenize(a) == Ok([])
    ensures Tokenize(a + z) == ParseError
  {
    hide LexTail, LexOpening, Split;
    SplitExtends(IsSp, a, z);
    StopsAt(IsSp, z);
    CommaDoesNotOpen(z);
  }

  lemma CommaDoesNotOpen(z: string)
    requires z != "" && z[0] == ','
    ensures LexOpening(z) == ParseError
  {
  }

  // ---------------------------------------------------------------- writing and reading back

  function IntegerText(n: int): string {
    if n < 0 then "-" + Digits(-n) else Digits(n)
  }

  /** The canonical form of every kind of bare item (section 4.1.3.1). */
  function WriteValue(v: Value): string
    requires v != InnerList
  {
    match v
    case Integer(n) => IntegerText(n)
    case Decimal(negative, whole, part) => (if negative then "-" else "") + whole + "." + part
    case String(raw, _) => "\"" + raw + "\""
    case Token(text) => text
    case ByteSeq(text) => ":" + text + ":"
    case Boolean(b) => if b then "?1" else "?0"
    case Date(n) => "@" + IntegerText(n)
  }

  const INTEGER_LIMIT := 1_000_000_000_000_000

  /** Bare items the grammar can express. */
  predicate Writable(v: Value) {
    match v
    case Integer(n) => -INTEGER_LIMIT < n < INTEGER_LIMIT
    case Decimal(_, whole, part) =>
      All(IsDigit, whole) && All(IsDigit, part) && 1 <= |whole| <= 12 && 1 <= |part| <= 3
    case String(raw, escape) => LexString(raw + "\"") == Ok(Lexed(raw, "")) && escape == ('\\' in raw)
    case Token(text) => text != "" && IsTokenStart(text[0]) && All(IsTokenChar, text[1..])
    case ByteSeq(text) => All(IsBase64, text)
    case Boolean(_) => true
    case Date(n) => -INTEGER_LIMIT < n < INTEGER_LIMIT
    case InnerList => false
  }

  lemma LimitIsPow10()
    ensures Pow10(15) == INTEGER_LIMIT
  {
    assert Pow10(5) == 100_000;
    assert Pow10(10) == 100_000 * Pow10(5);
  }

  lemma DigitsLex(n: nat, negative: bool)
    requires n < INTEGER_LIMIT
    ensures LexDigits(Digits(n), negative) == Ok(Lexed(Integer(if negative then 0 - n else n), ""))
  {
    hide Split, ToNat, Digits, Pow10;
    LimitIsPow10();
    DigitsFit(n, 15);
    DigitsReadBack(n);
    SplitWhole(IsDigit, Digits(n), "");
    assert Digits(n) + "" == Digits(n);
  }

  /** A sign before digits reads as the negative number. */
  lemma NumberReadsBack(n: int)
    requires -INTEGER_LIMIT < n < INTEGER_LIMIT
    ensures LexNumber(IntegerText(n)) == Ok(Lexed(Integer(n), ""))
    ensures IntegerText(n) != "" && (IntegerText(n)[0] == '-' || IsDigit(IntegerText(n)[0]))
  {
    hide LexDigits, Digits;
    if n < 0 {
      DigitsLex(-n, true);
      assert IntegerText(n)[1..] == Digits(-n);
    } else {
      DigitsLex(n, false);
      assert IsDigit(Digits(n)[0]);
    }
  }

  /** Digits either side of a point are a decimal exactly when there are not too many of them, nor too few. */
  lemma DecimalLexes(negative: bool, whole: string, part: string)
    requires All(IsDigit, whole) && All(IsDigit, part)
    ensures LexDigits(whole + "." + part, negative)
         == if Writable(Decimal(negative, whole, part)) then Ok(Lexed(Decimal(negative, whole, part), ""))
            else ParseError
  {
    hide Split, ToNat, All;
    var s := whole + "." + part;
    assert s == whole + ("." + part) && ("." + part)[0] == '.' && ("." + part)[1..] == part;
    SplitWhole(IsDigit, whole, "." + part);
    SplitWhole(IsDigit, part, "");
    assert part + "" == part;
  }

  lemma DecimalReadsBack(negative: bool, whole: string, part: string)
    requires Writable(Decimal(negative, whole, part))
    ensures LexItem(WriteValue(Decimal(negative, whole, part))) == Ok(Lexed(Decimal(negative, whole, part), ""))
  {
    hide LexDigits, All;
    var s := whole + "." + part;
    DecimalLexes(negative, whole, part);
    FirstOf(IsDigit, whole);
    var text := WriteValue(Decimal(negative, whole, part));
    if negative {
      assert text[0] == '-' && text[1..] == s;
    } else {
      assert text == s && s[0] == whole[0];
    }
  }

  lemma FirstOf(p: char -> bool, s: string)
    requires All(p, s) && s != ""
    ensures p(s[0])
  {
  }

  lemma TokenReadsBack(text: string)
    requires Writable(Token(text))
    ensures LexItem(text) == Ok(Lexed(Token(text), ""))
  {
    hide Split, All;
    SplitWhole(IsTokenChar, text[1..], "");
    assert text[1..] + "" == text[1..] && [text[0]] + text[1..] == text;
  }

  lemma DateReadsBack(n: int)
    requires -INTEGER_LIMIT < n < INTEGER_LIMIT
    ensures LexItem("@" + IntegerText(n)) == Ok(Lexed(Date(n), ""))
  {
    hide LexNumber, IntegerText;
    NumberReadsBack(n);
    assert ("@" + IntegerText(n))[1..] == IntegerText(n);
  }

  lemma StringReadsBack(raw: string, escape: bool)
    requires Writable(String(raw, escape))
    ensures LexItem("\"" + raw + "\"") == Ok(Lexed(String(raw, escape), ""))
  {
    hide LexString;
    assert ("\"" + raw + "\"")[1..] == raw + "\"";
  }

  lemma BytesReadBack(text: string)
    requires All(IsBase64, text)
    ensures LexItem(":" + text + ":") == Ok(Lexed(ByteSeq(text), ""))
  {
    hide Split, All;
    var s := ":" + text + ":";
    SplitWhole(IsBase64, text, ":");
    assert s[0] == ':' && s[1..] == text + ":";
  }

  lemma WrittenReadsBack(v: Value)
    requires Writable(v)
    ensures LexItem(WriteValue(v)) == Ok(Lexed(v, ""))
  {
    hide LexNumber, LexString, Split, IntegerText, All;
    match v {
      case Integer(n) => NumberReadsBack(n);
      case Decimal(negative, whole, part) => DecimalReadsBack(negative, whole, part);
      case String(raw, escape) => StringReadsBack(raw, escape);
      case Token(text) => TokenReadsBack(text);
      case ByteSeq(text) => BytesReadBack(text);
      case Boolean(_) =>
      case Date(n) => DateReadsBack(n);
    }
  }

  /** Every kind of bare item, written, reads back as it was and leaves what follows. */
  lemma ItemReadsBack(v: Value, z: string)
    requires Writable(v) && EndsItem(z)
    ensures LexItem(WriteValue(v) + z) == Ok(Lexed(v, z))
  {
    hide LexItem, WriteValue;
    assert v != InnerList;
    hide Writable;
    WrittenReadsBack(v);
    ItemExtends(WriteValue(v), z);
    assert "" + z == z;
  }

  /** No bare item starts like anything else a list may hold. */
  lemma ItemStarts(s: string)
    requires LexItem(s).Ok?
    ensures s != "" && s[0] !in " \t,;()"
  {
  }

  predicate WritableParams(ps: seq<Param>) {
    forall p :: p in ps ==>
      Writable(p.value) && p.key != "" && IsKeyStart(p.key[0]) && All(IsKeyChar, p.key)
  }

  function WriteParams(ps: seq<Param>): string
    requires WritableParams(ps)
  {
    if ps == [] then ""
    else ";" + ps[0].key + "=" + WriteValue(ps[0].value) + WriteParams(ps[1..])
  }

  lemma KeyReadsBack(key: string, z: string)
    requires key != "" && IsKeyStart(key[0]) && All(IsKeyChar, key) && Breaks(IsKeyChar, z)
    ensures var t := key + z;
      && t[0] == key[0] && Skip(IsSp, t) == t
      && Split(IsKeyChar, t[1..]) == Cut(key[1..], z)
      && [key[0]] + key[1..] == key
  {
    Tail(key, z);
    StopsAt(IsSp, key + z);
    SplitWhole(IsKeyChar, key[1..], z);
  }

  lemma KeyAndItemLex(key: string, w: string, value: Value, z: string)
    requires key != "" && IsKeyStart(key[0]) && All(IsKeyChar, key) && LexItem(w) == Ok(Lexed(value, z))
    ensures LexParam(";" + (key + ("=" + w))) == Ok(Lexed(Some(Param(key, value)), z))
  {
    hide LexItem, Split, All;
    var t := key + ("=" + w);
    assert (";" + t)[1..] == t && ("=" + w)[1..] == w;
    KeyReadsBack(key, "=" + w);
  }

  lemma ParamReadsBack(p: Param, z: string)
    requires WritableParams([p]) && EndsItem(z)
    ensures LexParam(";" + p.key + "=" + WriteValue(p.value) + z) == Ok(Lexed(Some(p), z))
  {
    hide LexItem, LexParam, WriteValue, All, EndsItem;
    assert p in [p] && p.value != InnerList;
    hide Writable;
    ItemReadsBack(p.value, z);
    KeyAndItemLex(p.key, WriteValue(p.value) + z, p.value, z);
    FiveParts(";", p.key, "=", WriteValue(p.value), z);
  }

  lemma FiveParts(a: string, b: string, c: string, d: string, e: string)
    ensures a + b + c + d + e == a + (b + (c + (d + e)))
  {
  }

  lemma {:induction false} ParamsReadBack(ps: seq<Param>)
    requires WritableParams(ps)
    ensures LexParams(WriteParams(ps)) == Ok(Lexed(ps, ""))
    ensures EndsItem(WriteParams(ps))
  {
    hide LexParam, WriteValue, Writable, All;
    if ps != [] {
      forall p | p in ps[1..]
        ensures p in ps
      {
      }
      assert ps[0] in ps;
      ParamsReadBack(ps[1..]);
      ParamReadsBack(ps[0], WriteParams(ps[1..]));
      assert [ps[0]] + ps[1..] == ps;
    } else {
      NoParam();
    }
  }

  lemma NoParam()
    ensures LexParam("") == Ok(Lexed(None, ""))
  {
  }

  lemma WritableTogether(ps: seq<Param>, more: seq<Param>)
    requires WritableParams(ps) && WritableParams(more)
    ensures WritableParams(ps + more)
    ensures ps != [] ==> WritableParams(ps[1..])
  {
    hide Writable, All;
    forall p | p in ps + more
      ensures p in ps || p in more
    {
    }
    forall p | ps != [] && p in ps[1..]
      ensures p in ps
    {
    }
  }

  lemma {:induction false} ParamsWriteInOrder(ps: seq<Param>, more: seq<Param>)
    requires WritableParams(ps) && WritableParams(more)
    ensures WritableParams(ps + more)
    ensures WriteParams(ps + more) == WriteParams(ps) + WriteParams(more)
  {
    hide WriteValue, WritableParams, WriteParams;
    WritableTogether(ps, more);
    if ps == [] {
      assert ps + more == more;
      NothingWrites();
    } else {
      FirstWrites(ps);
      ParamsWriteInOrder(ps[1..], more);
      assert (ps + more)[0] == ps[0] && (ps + more)[1..] == ps[1..] + more;
      FirstWrites(ps + more);
    }
  }

  lemma NothingWrites()
    ensures WritableParams([]) && WriteParams([]) == ""
  {
  }

  lemma FirstWrites(ps: seq<Param>)
    requires WritableParams(ps) && ps != []
    ensures WritableParams(ps[1..]) && ps[0] in ps
    ensures WriteParams(ps) == ";" + ps[0].key + "=" + WriteValue(ps[0].value) + WriteParams(ps[1..])
  {
    WritableTogether(ps, []);
  }

  lemma OneParamWrites(p: Param)
    requires WritableParams([p])
    ensures WriteParams([p]) == ";" + p.key + "=" + WriteValue(p.value)
  {
    hide WriteValue, Writable, All;
    assert p in [p];
    assert [p][1..] == [];
  }

  function NameValue(name: string): Value {
    String(Escaped(name), '\\' in Escaped(name))
  }

  lemma NameIsWritable(name: string)
    requires All(IsPrintable, name)
    ensures Writable(NameValue(name)) && WriteValue(NameValue(name)) == Quoted(name)
    ensures StringValue(NameValue(name).raw, NameValue(name).escape) == name
  {
    EscapedIsDelimited(name, "");
    assert Escaped(name) + "\"" + "" == Escaped(name) + "\"";
    UnescapeUndoesEscape(name);
  }

  lemma NameIsString(name: string)
    ensures NameValue(name).String?
  {
  }

  function KeyParam(partitionKey: Option<string>): seq<Param> {
    if partitionKey.Some? then [Param("pk", ByteSeq(partitionKey.value))] else []
  }

  function KeyText(partitionKey: Option<string>): string {
    if partitionKey.Some? then ";pk=:" + partitionKey.value + ":" else ""
  }

  lemma KeyWrites(partitionKey: Option<string>)
    requires partitionKey.Some? ==> All(IsBase64, partitionKey.value)
    ensures WritableParams(KeyParam(partitionKey)) && WriteParams(KeyParam(partitionKey)) == KeyText(partitionKey)
  {
    hide All;
    if partitionKey.Some? {
      var text := partitionKey.value;
      KeyNameIsWritable("pk");
      OneParamWrites(Param("pk", ByteSeq(text)));
      assert ";" + "pk" + "=" + (":" + text + ":") == ";pk=:" + text + ":";
    }
  }

  /** A parameter key this crate writes. */
  lemma KeyNameIsWritable(key: string)
    requires key in ["r", "t", "q", "qu", "w", "pk"]
    ensures key != "" && IsKeyStart(key[0]) && All(IsKeyChar, key)
  {
  }

  lemma IntegerWrites(key: string, n: nat)
    requires n < INTEGER_LIMIT && key in ["r", "t", "q", "qu", "w", "pk"]
    ensures var ps := [Param(key, Integer(n))];
      WritableParams(ps) && WriteParams(ps) == ";" + key + "=" + Digits(n)
  {
    hide All, Digits;
    KeyNameIsWritable(key);
    OneParamWrites(Param(key, Integer(n)));
  }

  /** A number of more than 15 digits is malformed, and so is the parameter that holds it. */
  lemma LongNumberIsRejected(n: nat, z: string)
    requires n >= INTEGER_LIMIT && EndsItem(z)
    ensures LexItem(Digits(n) + z) == ParseError
  {
    hide Split, ToNat, Digits, Pow10, All;
    var s := Digits(n) + z;
    LimitIsPow10();
    DigitsOverflow(n, 15);
    SplitWhole(IsDigit, Digits(n), z);
    FirstIsDigit(n, z);
    assert LexDigits(s, false) == ParseError;
  }

  lemma FirstIsDigit(n: nat, z: string)
    ensures Digits(n) + z != "" && IsDigit((Digits(n) + z)[0])
  {
    hide Digits;
    assert IsDigit(Digits(n)[0]);
  }

  lemma LongParamIsRejected(key: string, n: nat, z: string)
    requires n >= INTEGER_LIMIT && EndsItem(z) && key in ["r", "t", "q", "qu", "w", "pk"]
    ensures LexParam(";" + key + "=" + Digits(n) + z) == ParseError
  {
    hide LexItem, Split, Digits, All, EndsItem;
    var w := Digits(n) + z;
    var s, t := ";" + key + "=" + Digits(n) + z, key + ("=" + w);
    assert s[0] == ';' && s[1..] == t;
    KeyNameIsWritable(key);
    KeyReadsBack(key, "=" + w);
    assert ("=" + w)[1..] == w;
    LongNumberIsRejected(n, z);
  }

  /** A quoted name opens a member, or spoils the list when it is not printable. */
  lemma NameOpens(name: string, z: string)
    requires EndsItem(z)
    ensures LexValue(false, Quoted(name) + z)
         == if All(IsPrintable, name) then Ok(Lexed(Some(NameValue(name)), z)) else ParseError
  {
    hide LexString, Escaped, All, Split;
    var s := Quoted(name) + z;
    assert s[0] == '"' && s[1..] == Escaped(name) + "\"" + z;
    StopsAt(IsSp, s);
    if All(IsPrintable, name) {
      EscapedIsDelimited(name, z);
    } else {
      UnprintableIsRejected(name, z);
    }
  }

  predicate WritableMember(m: Member) {
    Writable(m.value) && WritableParams(m.params)
  }

  function WriteMember(m: Member): string
    requires WritableMember(m)
  {
    WriteValue(m.value) + WriteParams(m.params)
  }

  lemma MemberReadsBack(m: Member)
    requires WritableMember(m)
    ensures Tokenize(WriteMember(m)) == Ok([m])
  {
    hide LexItem, LexParams, WriteParams, Split;
    assert m.value != InnerList;
    hide Writable;
    var s := WriteMember(m);
    ParamsReadBack(m.params);
    ItemReadsBack(m.value, WriteParams(m.params));
    ItemStarts(s);
    StopsAt(IsSp, s);
    assert LexOpening(s) == Ok(Lexed(Some(m.value), WriteParams(m.params)));
    assert LexValue(false, s) == Ok(Lexed(Some(m.value), WriteParams(m.params)));
    assert LexTail(m.value, WriteParams(m.params)) == Ok(Lexed(m.params, ""));
    EmptyIsDone();
    assert [Member(m.value, m.params)] + [] == [m];
  }

  lemma EmptyIsDone()
    ensures LexMembers(true, "") == Ok([])
  {
  }

  function Join(items: seq<string>, separator: string): string {
    if items == [] then ""
    else if |items| == 1 then items[0]
    else items[0] + separator + Join(items[1..], separator)
  }

  function WriteMembers(ms: seq<Member>): (lines: seq<string>)
    requires forall m :: m in ms ==> WritableMember(m)
    ensures |lines| == |ms| && forall i :: 0 <= i < |ms| ==> lines[i] == WriteMember(ms[i])
  {
    seq(|ms|, i requires 0 <= i < |ms| => WriteMember(ms[i]))
  }

  lemma LeadingSpace(b: string)
    ensures Tokenize(" " + b) == Tokenize(b)
  {
    assert (" " + b)[1..] == b;
    assert Skip(IsSp, " " + b) == Skip(IsSp, b);
  }

  /** A list of members, written one by one and joined, reads back as it was. */
  lemma {:induction false} MembersReadBack(ms: seq<Member>)
    requires forall m :: m in ms ==> WritableMember(m)
    ensures Tokenize(Join(WriteMembers(ms), ", ")) == Ok(ms)
  {
    hide WritableMember, WriteMember, Tokenize;
    var lines := WriteMembers(ms);
    if ms == [] {
      NothingReadsBack();
    } else if |ms| == 1 {
      MemberReadsBack(ms[0]);
      assert [ms[0]] == ms;
    } else {
      MemberReadsBack(ms[0]);
      MembersReadBack(ms[1..]);
      assert lines[1..] == WriteMembers(ms[1..]);
      var others := Join(lines[1..], ", ");
      LeadingSpace(others);
      LinesCombineIffNonEmpty(lines[0], " " + others);
      assert lines[0] + ", " + others == lines[0] + "," + (" " + others);
      assert [ms[0]] + ms[1..] == ms;
    }
  }

  lemma NothingReadsBack()
    ensures Tokenize("") == Ok([])
  {
    assert Skip(IsSp, "") == "";
  }

  // ---------------------------------------------------------------- what the lexer can return

  /** What holds of every value read, whatever the input. */
  predicate Readable(v: Value) {
    match v
    case Integer(n) => -INTEGER_LIMIT < n < INTEGER_LIMIT
    case String(raw, escape) => All(IsPrintable, StringValue(raw, escape))
    case ByteSeq(text) => All(IsBase64, text)
    case _ => true
  }

  lemma ItemIsReadable(s: string)
    requires LexItem(s).Ok?
    ensures Readable(LexItem(s).value.value)
  {
    hide LexString, Split, Unescaped, Pow10;
    if s[0] == '-' || IsDigit(s[0]) {
      LimitIsPow10();
      var t := if s[0] == '-' then s[1..] else s;
      if |Split(IsDigit, t).taken| <= 15 {
        ToNatFits(Split(IsDigit, t).taken, 15);
      }
    } else if s[0] == '"' {
      AcceptedIsPrintable(s[1..]);
    }
  }

  lemma {:induction false} ParamsAreReadable(s: string)
    requires LexParams(s).Ok?
    ensures forall p :: p in LexParams(s).value.value ==> Readable(p.value)
    decreases |s|
  {
    hide LexItem, Split, Readable;
    var l := LexParam(s).value;
    if l.value.Some? {
      ParamIsReadable(s);
      ParamsAreReadable(l.rest);
    }
  }

  lemma ParamIsReadable(s: string)
    requires LexParam(s).Ok? && LexParam(s).value.value.Some?
    ensures Readable(LexParam(s).value.value.value.value)
  {
    hide LexItem, Split;
    var t := Skip(IsSp, s[1..]);
    var u := Split(IsKeyChar, t[1..]).rest;
    if u != "" && u[0] == '=' {
      ItemIsReadable(u[1..]);
    }
  }

  predicate ReadableMember(m: Member) {
    Readable(m.value) && forall p :: p in m.params ==> Readable(p.value)
  }

  lemma {:induction false} MembersAreReadable(started: bool, s: string)
    requires LexMembers(started, s).Ok?
    ensures forall m :: m in LexMembers(started, s).value ==> ReadableMember(m)
    decreases |s|
  {
    hide LexTail, Readable;
    var v := LexValue(started, s).value;
    if v.value.Some? {
      ValueIsReadable(started, s);
      TailIsReadable(v.value.value, v.rest);
      MembersAreReadable(true, LexTail(v.value.value, v.rest).value.rest);
    }
  }

  lemma ValueIsReadable(started: bool, s: string)
    requires LexValue(started, s).Ok? && LexValue(started, s).value.value.Some?
    ensures Readable(LexValue(started, s).value.value.value)
  {
    hide LexItem, Split;
    var t := if started then Skip(IsOws, Skip(IsOws, s)[1..]) else Skip(IsSp, s);
    if t[0] != '(' {
      ItemIsReadable(t);
    }
  }

  lemma TailIsReadable(value: Value, s: string)
    requires LexTail(value, s).Ok?
    ensures forall p :: p in LexTail(value, s).value.value ==> Readable(p.value)
  {
    hide LexParams, LexInnerRest, Readable;
    ParamsAreReadable(if value == InnerList then LexInnerRest(s).value.rest else s);
  }

  // ---------------------------------------------------------------- several lines at once

  predicate NonEmptyList(line: string) {
    Tokenize(line).Ok? && Tokenize(line).value != []
  }

  function AllMembers(lines: seq<string>): seq<Member> {
    if lines == [] then []
    else (if Tokenize(lines[0]).Ok? then Tokenize(lines[0]).value else []) + AllMembers(lines[1..])
  }

  /** Any number of non-empty well-formed lines read, comma-joined, as one list of all their members. */
  lemma {:induction false} JoinedLinesTokenize(lines: seq<string>)
    requires forall i :: 0 <= i < |lines| ==> NonEmptyList(lines[i])
    ensures Tokenize(Join(lines, ",")) == Ok(AllMembers(lines))
    ensures lines != [] ==> AllMembers(lines) != []
  {
    hide Tokenize;
    if lines == [] {
      NothingReadsBack();
    } else {
      assert NonEmptyList(lines[0]);
      JoinedLinesTokenize(lines[1..]);
      if |lines| == 1 {
        assert Tokenize(lines[0]).value + [] == Tokenize(lines[0]).value;
      } else {
        LinesCombineIffNonEmpty(lines[0], Join(lines[1..], ","));
      }
    }
  }
}

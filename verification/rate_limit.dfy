/** Service limits: the items of the `RateLimit` header field. */
module RateLimits {
  import opened Wrappers
  import opened Durations
  import opened Text
  import opened StructuredFields
  import opened FieldLists
  import opened FieldGrammar
  import opened ItemLists

  datatype RateLimit = RateLimit(name: string, remaining: nat, reset: Option<nat>, partitionKey: Option<string>)

  // ---------------------------------------------------------------- reading

  /** What the parameters read so far have set. */
  datatype Fields = Fields(remaining: Option<nat>, reset: Option<nat>, partitionKey: Option<string>)

  const UNSET := Fields(None, None, None)

  /** The parameter is one of ours and has the type it should. */
  predicate WellTyped(p: Param) {
    || (p.key in ["r", "t"] && p.value.Integer? && p.value.n >= 0)
    || (p.key == "pk" && p.value.ByteSeq?)
  }

  function SetField(f: Fields, p: Param): Fields {
    if !WellTyped(p) then f
    else if p.key == "r" then f.(remaining := Some(p.value.n))
    else if p.key == "t" then f.(reset := Some(p.value.n * NANOS_PER_SEC))
    else f.(partitionKey := Some(p.value.text))
  }

  function SetFields(f: Fields, ps: seq<Param>): Fields
    decreases ps
  {
    if ps == [] then f else SetFields(SetField(f, ps[0]), ps[1..])
  }

  /** A member's limit, if it is a named item that reports what remains. */
  function LimitOf(m: Member): seq<RateLimit> {
    if !m.value.String? then [] else
      var f := SetFields(UNSET, m.params);
      if f.remaining.None? then []
      else [RateLimit(StringValue(m.value.raw, m.value.escape), f.remaining.value, f.reset, f.partitionKey)]
  }

  function Parse(input: string): Result<seq<RateLimit>> {
    ParseWith(LimitOf, input)
  }

  /** The parameter loop of one item, from its first parameter on. */
  method ReadParams(parser: Parser) returns (r: Result<Fields>)
    modifies parser`rest
    ensures var ps := LexParams(old(parser.rest));
      && r == (if ps.Ok? then Ok(SetFields(UNSET, ps.value.value)) else ParseError)
      && (ps.Ok? ==> parser.rest == ps.value.rest)
    ensures |parser.rest| <= |old(parser.rest)|
  {
    ghost var whole := LexParams(parser.rest);
    var fields := UNSET;
    var param := parser.ParseParam();
    while param.Ok? && param.value.Some?
      invariant if param.ParseError? then whole.ParseError?
                else if param.value.None? then
                  whole.Ok? && whole.value.rest == parser.rest && SetFields(UNSET, whole.value.value) == fields
                else
                  && EndsAlike(whole, LexParams(parser.rest))
                  && (whole.Ok? ==>
                        SetFields(UNSET, whole.value.value)
                        == SetFields(fields, [param.value.value] + LexParams(parser.rest).value.value))
      invariant |parser.rest| <= |old(parser.rest)|
      decreases |parser.rest|, if param.Ok? && param.value.Some? then 1 else 0
    {
      var Param(key, value) := param.value.value;
      if key == "r" && value.Integer? && value.n >= 0 {
        fields := fields.(remaining := Some(value.n));
      } else if key == "t" && value.Integer? && value.n >= 0 {
        fields := fields.(reset := Some(value.n * NANOS_PER_SEC));
      } else if key == "pk" && value.ByteSeq? {
        fields := fields.(partitionKey := Some(value.text));
      }
      ghost var ps := LexParams(parser.rest);
      assert ps.Ok? ==> ([param.value.value] + ps.value.value)[1..] == ps.value.value;
      param := parser.ParseParam();
    }
    return if param.Ok? then Ok(fields) else ParseError;
  }

  method ParseList(input: string) returns (r: Result<seq<RateLimit>>)
    ensures r == Parse(input)
  {
    hide LexTail, LexParams, LexValue, LexMembers, LexFrom, Unescaped, LimitOf, SetFields, Appended, ParseWith;
    var parser := new Parser(input);
    var limits: seq<RateLimit> := [];
    ghost var whole := Parse(input);
    ParseBegins(LimitOf, input);
    ListUnfolds(LimitOf, limits, false, input);
    var value := parser.ParseList();
    while value.Ok? && value.value.Some?
      invariant if value.ParseError? then whole == ParseError
                else if value.value.None? then whole == Ok(limits)
                else whole == Appended(LimitOf, limits, LexFrom(value.value.value, parser.rest))
      invariant value.Ok? && value.value.Some? ==> parser.started
      decreases |parser.rest|, if value.Ok? && value.value.Some? then 1 else 0
    {
      MemberAppends(LimitOf, limits, value.value.value, parser.rest);
      LimitUnfolds(value.value.value, parser.rest);
      NothingAppends(LimitOf, limits);
      match value.value.value {
        case String(raw, escape) =>
          var name := raw;
          if escape {
            name := Unescape(raw);
          }
          var fields := ReadParams(parser);
          if fields.ParseError? {
            return ParseError;
          }
          if fields.value.remaining.Some? {
            limits := limits +
              [RateLimit(name, fields.value.remaining.value, fields.value.reset, fields.value.partitionKey)];
          }
        case other =>
          var skipped := SkipItem(parser, other);
          if skipped.ParseError? {
            return ParseError;
          }
      }
      ListUnfolds(LimitOf, limits, true, parser.rest);
      value := parser.ParseList();
    }
    return if value.Ok? then Ok(limits) else ParseError;
  }

  /** The item a member gives, spelt out for the two kinds of value. */
  lemma LimitUnfolds(value: Value, s: string)
    ensures value.String? ==> LexTail(value, s) == LexParams(s)
    ensures LexTail(value, s).Ok? ==>
              var params := LexTail(value, s).value.value;
              if !value.String? then LimitOf(Member(value, params)) == [] else
                var f := SetFields(UNSET, params);
                var name := if value.escape then Unescaped(value.raw) else value.raw;
                LimitOf(Member(value, params))
                == if f.remaining.None? then [] else [RateLimit(name, f.remaining.value, f.reset, f.partitionKey)]
  {
  }

  /**
   Of the values given for one parameter the last well-typed one is kept; ill-typed repeats, before
   or after it, are ignored.
   */
  lemma {:induction false} LastWellTypedIsKept(f: Fields, ps: seq<Param>, i: nat)
    requires i < |ps| && WellTyped(ps[i])
    requires forall j :: i < j < |ps| && ps[j].key == ps[i].key ==> !WellTyped(ps[j])
    ensures ps[i].key == "r" ==> SetFields(f, ps).remaining == Some(ps[i].value.n)
    ensures ps[i].key == "t" ==> SetFields(f, ps).reset == Some(ps[i].value.n * NANOS_PER_SEC)
    ensures ps[i].key == "pk" ==> SetFields(f, ps).partitionKey == Some(ps[i].value.text)
    decreases ps
  {
    if i > 0 {
      LastWellTypedIsKept(SetField(f, ps[0]), ps[1..], i - 1);
    } else {
      OthersKeep(SetField(f, ps[0]), ps[1..], ps[0].key);
    }
  }

  lemma {:induction false} OthersKeep(f: Fields, ps: seq<Param>, key: string)
    requires forall j :: 0 <= j < |ps| && ps[j].key == key ==> !WellTyped(ps[j])
    ensures key == "r" ==> SetFields(f, ps).remaining == f.remaining
    ensures key == "t" ==> SetFields(f, ps).reset == f.reset
    ensures key == "pk" ==> SetFields(f, ps).partitionKey == f.partitionKey
    decreases ps
  {
    if ps != [] {
      OthersKeep(SetField(f, ps[0]), ps[1..], key);
    }
  }

  /** A parameter of another name, or whose value is not of its type and range, might as well not be there. */
  lemma ForeignParamIsIgnored(f: Fields, before: seq<Param>, p: Param, after: seq<Param>)
    requires
      && (p.key in ["r", "t"] ==> !(p.value.Integer? && p.value.n >= 0))
      && (p.key == "pk" ==> !p.value.ByteSeq?)
    ensures SetFields(f, before + [p] + after) == SetFields(f, before + after)
  {
    hide SetFields;
    FieldsSetInOrder(f, before + [p], after);
    FieldsSetInOrder(f, before, [p]);
    FieldsSetInOrder(f, before, after);
    OneFieldSets(SetFields(f, before), p);
  }

  // ---------------------------------------------------------------- writing

  function ResetText(l: RateLimit): string {
    if l.reset.Some? then ";t=" + Digits(l.reset.value / NANOS_PER_SEC) else ""
  }

  function Print(l: RateLimit): string {
    Quoted(l.name) + (";r=" + Digits(l.remaining) + ResetText(l) + KeyText(l.partitionKey))
  }

  method Display(f: Formatter, l: RateLimit)
    modifies f
    ensures f.text == old(f.text) + Print(l)
  {
    hide Quoted, Digits;
    ghost var start := f.text;
    WriteSfString(f, l.name);
    f.Write(";r=" + Digits(l.remaining));
    if l.reset.Some? {
      f.Write(";t=" + Digits(l.reset.value / NANOS_PER_SEC));
    }
    if l.partitionKey.Some? {
      f.Write(";pk=:" + l.partitionKey.value + ":");
    }
    assert f.text == start + Quoted(l.name) + (";r=" + Digits(l.remaining)) + ResetText(l) + KeyText(l.partitionKey);
  }

  // ---------------------------------------------------------------- round trip

  /** Limits whose printed form the grammar accepts. */
  predicate Legible(l: RateLimit) {
    && All(IsPrintable, l.name)
    && l.remaining < INTEGER_LIMIT
    && (l.reset.Some? ==> l.reset.value / NANOS_PER_SEC < INTEGER_LIMIT)
    && (l.partitionKey.Some? ==> All(IsBase64, l.partitionKey.value))
  }

  /** What printing keeps: the reset in whole seconds. */
  function InWholeSeconds(l: RateLimit): RateLimit {
    if l.reset.None? then l else l.(reset := Some(l.reset.value / NANOS_PER_SEC * NANOS_PER_SEC))
  }

  /** Limits the field can express. */
  predicate Encodable(l: RateLimit) {
    Legible(l) && (l.reset.Some? ==> l.reset.value % NANOS_PER_SEC == 0)
  }

  function ResetParam(l: RateLimit): seq<Param> {
    if l.reset.Some? then [Param("t", Integer(l.reset.value / NANOS_PER_SEC))] else []
  }

  function ParamsOf(l: RateLimit): seq<Param> {
    [Param("r", Integer(l.remaining))] + ResetParam(l) + KeyParam(l.partitionKey)
  }

  function MemberOf(l: RateLimit): Member {
    Member(NameValue(l.name), ParamsOf(l))
  }

  lemma ResetWrites(l: RateLimit)
    requires Legible(l)
    ensures WritableParams(ResetParam(l)) && WriteParams(ResetParam(l)) == ResetText(l)
  {
    hide Digits;
    if l.reset.Some? {
      IntegerWrites("t", l.reset.value / NANOS_PER_SEC);
    }
  }

  lemma MemberOfIsWritable(l: RateLimit)
    requires Legible(l)
    ensures WritableMember(MemberOf(l)) && WriteMember(MemberOf(l)) == Print(l)
  {
    hide Quoted, Digits, Escaped, Writable, WritableParams, WriteParams, NameValue, ResetParam, KeyParam;
    NameIsWritable(l.name);
    NameIsString(l.name);
    IntegerWrites("r", l.remaining);
    ResetWrites(l);
    KeyWrites(l.partitionKey);
    var first := [Param("r", Integer(l.remaining))];
    ParamsWriteInOrder(first, ResetParam(l));
    ParamsWriteInOrder(first + ResetParam(l), KeyParam(l.partitionKey));
  }

  lemma {:induction false} FieldsSetInOrder(f: Fields, ps: seq<Param>, more: seq<Param>)
    ensures SetFields(f, ps + more) == SetFields(SetFields(f, ps), more)
    decreases ps
  {
    hide SetField;
    if ps == [] {
      assert ps + more == more;
    } else {
      FieldsSetInOrder(SetField(f, ps[0]), ps[1..], more);
      assert (ps + more)[1..] == ps[1..] + more;
    }
  }

  lemma OneFieldSets(f: Fields, p: Param)
    ensures SetFields(f, []) == f
    ensures SetFields(f, [p]) == SetField(f, p)
  {
  }

  lemma MemberOfHoldsLimit(l: RateLimit)
    requires Legible(l)
    ensures LimitOf(MemberOf(l)) == [InWholeSeconds(l)]
    ensures Encodable(l) ==> InWholeSeconds(l) == l
  {
    hide NameValue, StringValue, SetFields, All;
    NameIsWritable(l.name);
    NameIsString(l.name);
    var first, second, third := Param("r", Integer(l.remaining)), ResetParam(l), KeyParam(l.partitionKey);
    FieldsSetInOrder(UNSET, [first] + second, third);
    FieldsSetInOrder(UNSET, [first], second);
    OneFieldSets(UNSET, first);
    var f1, f2 := SetField(UNSET, first), SetFields(SetField(UNSET, first), second);
    OneFieldSets(f1, if second == [] then first else second[0]);
    OneFieldSets(f2, if third == [] then first else third[0]);
  }

  /** A printed limit reads back with its reset cut to whole seconds and nothing else changed. */
  lemma ReadsBackInWholeSeconds(l: RateLimit)
    requires Legible(l)
    ensures Parse(Print(l)) == Ok([InWholeSeconds(l)])
  {
    hide Legible, Print, LimitOf, MemberOf, WriteMember, Tokenize;
    MemberOfIsWritable(l);
    MemberOfHoldsLimit(l);
    MemberReadsBack(MemberOf(l));
    CollectOne(LimitOf, MemberOf(l));
  }

  /** What a printed limit holds after its name. */
  function AfterName(l: RateLimit): string {
    ";r=" + Digits(l.remaining) + ResetText(l) + KeyText(l.partitionKey)
  }

  lemma LongRemainingIsRejected(l: RateLimit)
    requires l.remaining >= INTEGER_LIMIT
    ensures LexParams(AfterName(l)) == ParseError
  {
    hide LexParam, Digits, KeyText, ResetText;
    var z := ResetText(l) + KeyText(l.partitionKey);
    FieldsEndItems(l);
    assert AfterName(l) == ";" + "r" + "=" + Digits(l.remaining) + z;
    LongParamIsRejected("r", l.remaining, z);
  }

  lemma FieldsEndItems(l: RateLimit)
    ensures EndsItem(KeyText(l.partitionKey)) && EndsItem(ResetText(l) + KeyText(l.partitionKey))
  {
  }

  lemma SecondParamSpoils(s: string, p: Param, z: string)
    requires LexParam(s) == Ok(Lexed(Some(p), z)) && LexParam(z) == ParseError
    ensures LexParams(s) == ParseError
  {
    hide LexParam;
  }

  lemma LongResetIsRejected(l: RateLimit)
    requires l.remaining < INTEGER_LIMIT && l.reset.Some? && l.reset.value / NANOS_PER_SEC >= INTEGER_LIMIT
    ensures LexParams(AfterName(l)) == ParseError
  {
    hide LexParam, LexParams, Digits, KeyText, All, Writable, EndsItem, WritableParams, WriteParams;
    var r, t := Param("r", Integer(l.remaining)), l.reset.value / NANOS_PER_SEC;
    var keyText := KeyText(l.partitionKey);
    FieldsEndItems(l);
    assert ResetText(l) + keyText == ";" + "t" + "=" + Digits(t) + keyText;
    LongParamIsRejected("t", t, keyText);
    IntegerWrites("r", l.remaining);
    ParamReadsBack(r, ResetText(l) + keyText);
    assert AfterName(l) == ";" + "r" + "=" + Digits(l.remaining) + (ResetText(l) + keyText) by {
      hide ResetText;
    }
    SecondParamSpoils(AfterName(l), r, ResetText(l) + keyText);
  }

  lemma LongFieldIsRejected(l: RateLimit)
    requires !Legible(l) && All(IsPrintable, l.name)
    requires l.partitionKey.Some? ==> All(IsBase64, l.partitionKey.value)
    ensures LexParams(AfterName(l)) == ParseError
  {
    hide LexParams, AfterName, All;
    if l.remaining >= INTEGER_LIMIT {
      LongRemainingIsRejected(l);
    } else {
      LongResetIsRejected(l);
    }
  }

  /**
   A limit with a base64 key reads back, cut to whole seconds, exactly when it is legible; otherwise
   its line is malformed, never read as something else.
   */
  lemma PrintedReadsIffLegible(l: RateLimit)
    requires l.partitionKey.Some? ==> All(IsBase64, l.partitionKey.value)
    ensures Parse(Print(l)) == if Legible(l) then Ok([InWholeSeconds(l)]) else ParseError
  {
    hide Legible, All, LexValue, LexParams, Quoted, NameValue, Digits;
    if Legible(l) {
      ReadsBackInWholeSeconds(l);
    } else {
      assert EndsItem(AfterName(l));
      NameOpens(l.name, AfterName(l));
      NameIsString(l.name);
      if All(IsPrintable, l.name) {
        LongFieldIsRejected(l);
      }
    }
  }

  predicate EncodableFields(f: Fields) {
    && (f.remaining.Some? ==> f.remaining.value < INTEGER_LIMIT)
    && (f.reset.Some? ==> f.reset.value % NANOS_PER_SEC == 0 && f.reset.value / NANOS_PER_SEC < INTEGER_LIMIT)
    && (f.partitionKey.Some? ==> All(IsBase64, f.partitionKey.value))
  }

  lemma {:induction false} FieldsStayEncodable(f: Fields, ps: seq<Param>)
    requires EncodableFields(f) && forall p :: p in ps ==> Readable(p.value)
    ensures EncodableFields(SetFields(f, ps))
    decreases ps
  {
    if ps != [] {
      assert ps[0] in ps;
      FieldsStayEncodable(SetField(f, ps[0]), ps[1..]);
    }
  }

  lemma ReadLimitsAreEncodable()
    ensures ReadsOnly(LimitOf, Encodable)
  {
    hide SetFields, StringValue;
    forall m, l | ReadableMember(m) && l in LimitOf(m)
      ensures Encodable(l)
    {
      FieldsStayEncodable(UNSET, m.params);
    }
  }

  /** Whatever the input, every limit parsed from it is one the field can express. */
  lemma ParsedAreEncodable(input: string)
    requires Parse(input).Ok?
    ensures forall l :: l in Parse(input).value ==> Encodable(l)
  {
    hide Encodable, ParseWith;
    ReadLimitsAreEncodable();
    ParsedSatisfy(LimitOf, Encodable, input);
  }

  lemma EncodableIsLegible(l: RateLimit)
    requires Encodable(l)
    ensures Legible(l)
  {
  }

  /** A list of limits survives printing, joining and parsing exactly when the field can express each. */
  lemma RoundTripsIffEncodable(ls: seq<RateLimit>)
    ensures Parse(Join(Each(Print, ls), ", ")) == Ok(ls) <==> forall l :: l in ls ==> Encodable(l)
  {
    hide Encodable, ParseWith, Join;
    if forall l :: l in ls ==> Encodable(l) {
      forall i | 0 <= i < |ls|
        ensures Faithful(LimitOf, MemberOf, Print, ls[i])
      {
        assert ls[i] in ls;
        EncodableIsLegible(ls[i]);
        MemberOfIsWritable(ls[i]);
        MemberOfHoldsLimit(ls[i]);
      }
      FaithfulReadBack(LimitOf, MemberOf, Print, ls);
    }
    if Parse(Join(Each(Print, ls), ", ")) == Ok(ls) {
      ParsedAreEncodable(Join(Each(Print, ls), ", "));
    }
  }

  /** The item is not named, or has no number as its `r`. */
  predicate LacksRemaining(m: Member) {
    m.value.String? ==>
      forall i :: 0 <= i < |m.params| && m.params[i].key == "r" ==>
        !(m.params[i].value.Integer? && m.params[i].value.n >= 0)
  }

  lemma LacksRemainingIsForeign(m: Member)
    requires LacksRemaining(m)
    ensures LimitOf(m) == []
  {
    hide SetFields;
    if m.value.String? {
      OthersKeep(UNSET, m.params, "r");
    }
  }

  /** Such an item is no limit, whatever else it carries. */
  lemma WithoutRemainingIsNothing(m: Member)
    requires WritableMember(m) && LacksRemaining(m)
    ensures Parse(WriteMember(m)) == Ok([])
  {
    hide Tokenize, WriteMember, WritableMember, Collect, LimitOf;
    LacksRemainingIsForeign(m);
    MemberReadsBack(m);
    CollectOne(LimitOf, m);
  }

  /** It is passed over between others. */
  lemma WithoutRemainingIsSkipped(a: string, m: Member, b: string)
    requires NonEmptyList(a) && NonEmptyList(b) && WritableMember(m) && LacksRemaining(m)
    ensures Parse(Join([a, WriteMember(m), b], ",")) == Parse(Join([a, b], ","))
  {
    hide Tokenize, ParseWith, WriteMember, WritableMember, Join, LimitOf;
    LacksRemainingIsForeign(m);
    MemberReadsBack(m);
    ForeignMembersAreSkipped(LimitOf, a, WriteMember(m), b);
  }

  /** So is an inner list, whatever it and its parameters hold, and however it is spaced. */
  lemma InnerListIsSkipped(a: string, items: seq<Member>, gap: string, pad: string, params: seq<Param>, b: string)
    requires NonEmptyList(a) && NonEmptyList(b)
    requires AllWritable(items) && Gaps(gap, pad) && WritableParams(params)
    ensures Parse(Join([a, WriteInnerList(items, gap, pad, params), b], ",")) == Parse(Join([a, b], ","))
  {
    hide Tokenize, ParseWith, WriteInnerList, Join;
    InnerListReadsBack(items, gap, pad, params);
    ForeignMembersAreSkipped(LimitOf, a, WriteInnerList(items, gap, pad, params), b);
  }

  /** The wire format, by example. */
  lemma WireFormat()
    ensures Print(RateLimit("default", 50, Some(30 * NANOS_PER_SEC), None)) == "\"default\";r=50;t=30"
  {
    hide Quoted, Digits;
    DefaultIsQuoted();
    SomeNumbers();
    assert ";r=" + "50" + ";t=30" + "" == ";r=50;t=30";
  }

  lemma KeyWireFormat()
    ensures Print(RateLimit("default", 0, None, Some("dHJpYWw="))) == "\"default\";r=0;pk=:dHJpYWw=:"
  {
    hide Quoted, Digits;
    DefaultIsQuoted();
    SomeNumbers();
    assert ";pk=:" + "dHJpYWw=" + ":" == ";pk=:dHJpYWw=:";
    assert ";r=" + "0" + "" + ";pk=:dHJpYWw=:" == ";r=0;pk=:dHJpYWw=:";
  }

  /** A negative number is no number of remaining requests. */
  lemma NegativeRemainingIsNothing()
    ensures Parse("\"default\";r=-5;t=30") == Ok([])
  {
    hide Parse, Quoted, NameValue, Writable, WriteParams, WriteValue, WritableParams, All;
    hide Digits, IntegerText, Tokenize;
    var r, t := Param("r", Integer(-5)), Param("t", Integer(30));
    DefaultIsQuoted();
    NameIsWritable("default");
    TwoIntegersWrite("r", -5, "t", 30);
    SomeNumbers();
    assert ";" + "r" + "=" + "-5" + (";" + "t" + "=" + "30") == ";r=-5;t=30";
    var m := Member(NameValue("default"), [r, t]);
    assert m.params[0] == r && m.params[1] == t;
    assert WriteMember(m) == "\"default\"" + ";r=-5;t=30";
    assert "\"default\"" + ";r=-5;t=30" == "\"default\";r=-5;t=30";
    WithoutRemainingIsNothing(m);
  }

  // ---------------------------------------------------------------- every field line

  method FromHeaders(lines: seq<Option<string>>) returns (r: Result<seq<RateLimit>>)
    ensures r == ParseLinesWith(LimitOf, lines)
  {
    hide ParseWith;
    var limits: seq<RateLimit> := [];
    assert lines[0..] == lines;
    ghost var whole := ParseLinesWith(LimitOf, lines);
    assert whole.Ok? ==> limits + whole.value == whole.value;
    for i := 0 to |lines|
      invariant var more := ParseLinesWith(LimitOf, lines[i..]);
        ParseLinesWith(LimitOf, lines) == if more.Ok? then Ok(limits + more.value) else ParseError
    {
      ghost var rest := lines[i..];
      assert rest[0] == lines[i] && rest[1..] == lines[i + 1..];
      if lines[i].Some? {
        var parsed := ParseList(lines[i].value);
        if parsed.ParseError? {
          return ParseError;
        }
        ghost var more := ParseLinesWith(LimitOf, lines[i + 1..]);
        assert more.Ok? ==> limits + (parsed.value + more.value) == limits + parsed.value + more.value;
        limits := limits + parsed.value;
      }
    }
    assert limits + [] == limits;
    return Ok(limits);
  }
}

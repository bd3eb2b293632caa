/** Quota policies: the items of the `RateLimit-Policy` header field. */
module RateLimitPolicies {
  import opened Wrappers
  import opened Durations
  import opened Quotas
  import opened Text
  import opened StructuredFields
  import opened FieldLists
  import opened FieldGrammar
  import opened ItemLists

  datatype RateLimitPolicy = RateLimitPolicy(
    name: string, quota: nat, unit: QuotaUnit, window: Option<nat>, partitionKey: Option<string>)

  // ---------------------------------------------------------------- reading

  /** What the parameters read so far have set. */
  datatype Fields = Fields(quota: Option<nat>, unit: QuotaUnit, window: Option<nat>, partitionKey: Option<string>)

  const UNSET := Fields(None, Requests, None, None)

  /** The parameter is one of ours and has the type it should. */
  predicate WellTyped(p: Param) {
    || (p.key == "q" && p.value.Integer? && p.value.n >= 0)
    || (p.key == "qu" && p.value.String?)
    || (p.key == "w" && p.value.Integer? && p.value.n > 0)
    || (p.key == "pk" && p.value.ByteSeq?)
  }

  function SetField(f: Fields, p: Param): Fields {
    if !WellTyped(p) then f
    else if p.key == "q" then f.(quota := Some(p.value.n))
    else if p.key == "qu" then f.(unit := UnitFromToken(StringValue(p.value.raw, p.value.escape)))
    else if p.key == "w" then f.(window := Some(p.value.n * NANOS_PER_SEC))
    else f.(partitionKey := Some(p.value.text))
  }

  function SetFields(f: Fields, ps: seq<Param>): Fields
    decreases ps
  {
    if ps == [] then f else SetFields(SetField(f, ps[0]), ps[1..])
  }

  /** A member's policy, if it is a named item that states its quota. */
  function PolicyOf(m: Member): seq<RateLimitPolicy> {
    if !m.value.String? then [] else
      var f := SetFields(UNSET, m.params);
      if f.quota.None? then []
      else [RateLimitPolicy(StringValue(m.value.raw, m.value.escape), f.quota.value, f.unit, f.window, f.partitionKey)]
  }

  function Parse(input: string): Result<seq<RateLimitPolicy>> {
    ParseWith(PolicyOf, input)
  }

  /** The parameter loop of one item, from its first parameter on. */
  method ReadParams(parser: Parser) returns (r: Result<Fields>)
    modifies parser`rest
    ensures var ps := LexParams(old(parser.rest));
      && r == (if ps.Ok? then Ok(SetFields(UNSET, ps.value.value)) else ParseError)
      && (ps.Ok? ==> parser.rest == ps.value.rest)
    ensures |parser.rest| <= |old(parser.rest)|
  {
    ghost var whole := LexParams(parser.rest);
    var fields := UNSET;
    var param := parser.ParseParam();
    while param.Ok? && param.value.Some?
      invariant if param.ParseError? then whole.ParseError?
                else if param.value.None? then
                  whole.Ok? && whole.value.rest == parser.rest && SetFields(UNSET, whole.value.value) == fields
                else
                  && EndsAlike(whole, LexParams(parser.rest))
                  && (whole.Ok? ==>
                        SetFields(UNSET, whole.value.value)
                        == SetFields(fields, [param.value.value] + LexParams(parser.rest).value.value))
      invariant |parser.rest| <= |old(parser.rest)|
      decreases |parser.rest|, if param.Ok? && param.value.Some? then 1 else 0
    {
      var Param(key, value) := param.value.value;
      if key == "q" && value.Integer? && value.n >= 0 {
        fields := fields.(quota := Some(value.n));
      } else if key == "qu" && value.String? {
        var token := value.raw;
        if value.escape {
          token := Unescape(value.raw);
        }
        fields := fields.(unit := UnitFromToken(token));
      } else if key == "w" && value.Integer? && value.n > 0 {
        fields := fields.(window := Some(value.n * NANOS_PER_SEC));
      } else if key == "pk" && value.ByteSeq? {
        fields := fields.(partitionKey := Some(value.text));
      }
      ghost var ps := LexParams(parser.rest);
      assert ps.Ok? ==> ([param.value.value] + ps.value.value)[1..] == ps.value.value;
      param := parser.ParseParam();
    }
    return if param.Ok? then Ok(fields) else ParseError;
  }

  method ParseList(input: string) returns (r: Result<seq<RateLimitPolicy>>)
    ensures r == Parse(input)
  {
    hide LexTail, LexParams, LexValue, LexMembers, LexFrom, Unescaped, PolicyOf, SetFields, Appended, ParseWith;
    var parser := new Parser(input);
    var policies: seq<RateLimitPolicy> := [];
    ghost var whole := Parse(input);
    ParseBegins(PolicyOf, input);
    ListUnfolds(PolicyOf, policies, false, input);
    var value := parser.ParseList();
    while value.Ok? && value.value.Some?
      invariant if value.ParseError? then whole == ParseError
                else if value.value.None? then whole == Ok(policies)
                else whole == Appended(PolicyOf, policies, LexFrom(value.value.value, parser.rest))
      invariant value.Ok? && value.value.Some? ==> parser.started
      decreases |parser.rest|, if value.Ok? && value.value.Some? then 1 else 0
    {
      MemberAppends(PolicyOf, policies, value.value.value, parser.rest);
      PolicyUnfolds(value.value.value, parser.rest);
      NothingAppends(PolicyOf, policies);
      match value.value.value {
        case String(raw, escape) =>
          var name := raw;
          if escape {
            name := Unescape(raw);
          }
          var fields := ReadParams(parser);
          if fields.ParseError? {
            return ParseError;
          }
          if fields.value.quota.Some? {
            var Fields(quota, unit, window, partitionKey) := fields.value;
            policies := policies + [RateLimitPolicy(name, quota.value, unit, window, partitionKey)];
          }
        case other =>
          var skipped := SkipItem(parser, other);
          if skipped.ParseError? {
            return ParseError;
          }
      }
      ListUnfolds(PolicyOf, policies, true, parser.rest);
      value := parser.ParseList();
    }
    return if value.Ok? then Ok(policies) else ParseError;
  }

  /** The item a member gives, spelt out for the two kinds of value. */
  lemma PolicyUnfolds(value: Value, s: string)
    ensures value.String? ==> LexTail(value, s) == LexParams(s)
    ensures LexTail(value, s).Ok? ==>
              var params := LexTail(value, s).value.value;
              if !value.String? then PolicyOf(Member(value, params)) == [] else
                var f := SetFields(UNSET, params);
                var name := if value.escape then Unescaped(value.raw) else value.raw;
                PolicyOf(Member(value, params))
                == if f.quota.None? then []
                   else [RateLimitPolicy(name, f.quota.value, f.unit, f.window, f.partitionKey)]
  {
  }

  /**
   Of the values given for one parameter the last well-typed one is kept; ill-typed repeats, before
   or after it, are ignored.
   */
  lemma {:induction false} LastWellTypedIsKept(f: Fields, ps: seq<Param>, i: nat)
    requires i < |ps| && WellTyped(ps[i])
    requires forall j :: i < j < |ps| && ps[j].key == ps[i].key ==> !WellTyped(ps[j])
    ensures ps[i].key == "q" ==> SetFields(f, ps).quota == Some(ps[i].value.n)
    ensures ps[i].key == "qu" ==>
              SetFields(f, ps).unit == UnitFromToken(StringValue(ps[i].value.raw, ps[i].value.escape))
    ensures ps[i].key == "w" ==> SetFields(f, ps).window == Some(ps[i].value.n * NANOS_PER_SEC)
    ensures ps[i].key == "pk" ==> SetFields(f, ps).partitionKey == Some(ps[i].value.text)
    decreases ps
  {
    if i > 0 {
      LastWellTypedIsKept(SetField(f, ps[0]), ps[1..], i - 1);
    } else {
      OthersKeep(SetField(f, ps[0]), ps[1..], ps[0].key);
    }
  }

  lemma {:induction false} OthersKeep(f: Fields, ps: seq<Param>, key: string)
    requires forall j :: 0 <= j < |ps| && ps[j].key == key ==> !WellTyped(ps[j])
    ensures key == "q" ==> SetFields(f, ps).quota == f.quota
    ensures key == "qu" ==> SetFields(f, ps).unit == f.unit
    ensures key == "w" ==> SetFields(f, ps).window == f.window
    ensures key == "pk" ==> SetFields(f, ps).partitionKey == f.partitionKey
    decreases ps
  {
    if ps != [] {
      OthersKeep(SetField(f, ps[0]), ps[1..], key);
    }
  }

  /** A parameter of another name, or whose value is not of its type and range, might as well not be there. */
  lemma ForeignParamIsIgnored(f: Fields, before: seq<Param>, p: Param, after: seq<Param>)
    requires
      && (p.key == "q" ==> !(p.value.Integer? && p.value.n >= 0))
      && (p.key == "qu" ==> !p.value.String?)
      && (p.key == "w" ==> !(p.value.Integer? && p.value.n > 0))
      && (p.key == "pk" ==> !p.value.ByteSeq?)
    ensures SetFields(f, before + [p] + after) == SetFields(f, before + after)
  {
    hide SetFields;
    FieldsSetInOrder(f, before + [p], after);
    FieldsSetInOrder(f, before, [p]);
    FieldsSetInOrder(f, before, after);
    OneFieldSets(SetFields(f, before), p);
  }

  // ---------------------------------------------------------------- writing

  function UnitText(policy: RateLimitPolicy): string {
    if policy.unit.Requests? then "" else ";qu=" + Quoted(policy.unit.AsStr())
  }

  function WindowText(policy: RateLimitPolicy): string {
    if policy.window.Some? then ";w=" + Digits(policy.window.value / NANOS_PER_SEC) else ""
  }

  function Print(policy: RateLimitPolicy): string {
    Quoted(policy.name)
    + (";q=" + Digits(policy.quota) + UnitText(policy) + WindowText(policy) + KeyText(policy.partitionKey))
  }

  method Display(f: Formatter, policy: RateLimitPolicy)
    modifies f
    ensures f.text == old(f.text) + Print(policy)
  {
    hide Quoted, Digits;
    ghost var start, quota := f.text, ";q=" + Digits(policy.quota);
    WriteSfString(f, policy.name);
    f.Write(";q=" + Digits(policy.quota));
    if !policy.unit.Requests? {
      f.Write(";qu=");
      WriteSfString(f, policy.unit.AsStr());
      assert f.text == start + Quoted(policy.name) + quota + (";qu=" + Quoted(policy.unit.AsStr()));
    }
    assert f.text == start + Quoted(policy.name) + quota + UnitText(policy);
    if policy.window.Some? {
      f.Write(";w=" + Digits(policy.window.value / NANOS_PER_SEC));
    }
    assert f.text == start + Quoted(policy.name) + quota + UnitText(policy) + WindowText(policy);
    if policy.partitionKey.Some? {
      f.Write(";pk=:" + policy.partitionKey.value + ":");
    }
    Regroup(start, Quoted(policy.name), quota, UnitText(policy), WindowText(policy), KeyText(policy.partitionKey));
  }

  // ---------------------------------------------------------------- round trip

  /** Policies whose printed form the grammar accepts. */
  predicate Legible(policy: RateLimitPolicy) {
    && All(IsPrintable, policy.name)
    && policy.quota < INTEGER_LIMIT
    && (policy.unit.Other? ==> All(IsPrintable, policy.unit.token) && UnitFromToken(policy.unit.token) == policy.unit)
    && (policy.window.Some? ==> policy.window.value / NANOS_PER_SEC < INTEGER_LIMIT)
    && (policy.partitionKey.Some? ==> All(IsBase64, policy.partitionKey.value))
  }

  /** What survives of a window: whole seconds, and nothing of one below a second. */
  function InWholeSeconds(policy: RateLimitPolicy): RateLimitPolicy {
    if policy.window.None? then policy
    else if policy.window.value < NANOS_PER_SEC then policy.(window := None)
    else policy.(window := Some(policy.window.value / NANOS_PER_SEC * NANOS_PER_SEC))
  }

  predicate EncodableWindow(window: nat) {
    window % NANOS_PER_SEC == 0 && 1 <= window / NANOS_PER_SEC < INTEGER_LIMIT
  }

  /** Policies the field can express. */
  predicate Encodable(policy: RateLimitPolicy) {
    Legible(policy) && (policy.window.Some? ==> EncodableWindow(policy.window.value))
  }

  function UnitParam(policy: RateLimitPolicy): seq<Param> {
    if policy.unit.Requests? then [] else [Param("qu", NameValue(policy.unit.AsStr()))]
  }

  function WindowParam(policy: RateLimitPolicy): seq<Param> {
    if policy.window.Some? then [Param("w", Integer(policy.window.value / NANOS_PER_SEC))] else []
  }

  function ParamsOf(policy: RateLimitPolicy): seq<Param> {
    [Param("q", Integer(policy.quota))] + UnitParam(policy) + WindowParam(policy) + KeyParam(policy.partitionKey)
  }

  function MemberOf(policy: RateLimitPolicy): Member {
    Member(NameValue(policy.name), ParamsOf(policy))
  }

  lemma UnitWrites(policy: RateLimitPolicy)
    requires Legible(policy)
    ensures WritableParams(UnitParam(policy)) && WriteParams(UnitParam(policy)) == UnitText(policy)
  {
    hide Quoted, Escaped, NameValue, All, Writable, WriteValue;
    if !policy.unit.Requests? {
      UnitIsPrintable(policy.unit);
      NameIsWritable(policy.unit.AsStr());
      KeyNameIsWritable("qu");
      OneParamWrites(UnitParam(policy)[0]);
    }
  }

  lemma WindowWrites(policy: RateLimitPolicy)
    requires Legible(policy)
    ensures WritableParams(WindowParam(policy)) && WriteParams(WindowParam(policy)) == WindowText(policy)
  {
    hide Digits;
    if policy.window.Some? {
      IntegerWrites("w", policy.window.value / NANOS_PER_SEC);
    }
  }

  lemma MemberOfIsWritable(policy: RateLimitPolicy)
    requires Legible(policy)
    ensures WritableMember(MemberOf(policy)) && WriteMember(MemberOf(policy)) == Print(policy)
  {
    hide Quoted, Digits, Escaped, Writable, WritableParams, WriteParams, NameValue, UnitParam, WindowParam, KeyParam;
    NameIsWritable(policy.name);
    NameIsString(policy.name);
    IntegerWrites("q", policy.quota);
    UnitWrites(policy);
    WindowWrites(policy);
    KeyWrites(policy.partitionKey);
    var first := [Param("q", Integer(policy.quota))];
    ParamsWriteInOrder(first, UnitParam(policy));
    ParamsWriteInOrder(first + UnitParam(policy), WindowParam(policy));
    ParamsWriteInOrder(first + UnitParam(policy) + WindowParam(policy), KeyParam(policy.partitionKey));
  }

  lemma {:induction false} FieldsSetInOrder(f: Fields, ps: seq<Param>, more: seq<Param>)
    ensures SetFields(f, ps + more) == SetFields(SetFields(f, ps), more)
    decreases ps
  {
    hide SetField;
    if ps == [] {
      assert ps + more == more;
    } else {
      FieldsSetInOrder(SetField(f, ps[0]), ps[1..], more);
      assert (ps + more)[1..] == ps[1..] + more;
    }
  }

  lemma OneFieldSets(f: Fields, p: Param)
    ensures SetFields(f, []) == f
    ensures SetFields(f, [p]) == SetField(f, p)
  {
  }

  lemma MemberOfHoldsPolicy(policy: RateLimitPolicy)
    requires Legible(policy)
    ensures PolicyOf(MemberOf(policy)) == [InWholeSeconds(policy)]
    ensures Encodable(policy) ==> InWholeSeconds(policy) == policy
  {
    hide NameValue, StringValue, SetFields, All;
    NameIsWritable(policy.name);
    NameIsString(policy.name);
    UnitIsSet(policy);
    var first, second, third, fourth :=
      Param("q", Integer(policy.quota)), UnitParam(policy), WindowParam(policy), KeyParam(policy.partitionKey);
    FieldsSetInOrder(UNSET, [first] + second + third, fourth);
    FieldsSetInOrder(UNSET, [first] + second, third);
    FieldsSetInOrder(UNSET, [first], second);
    OneFieldSets(UNSET, first);
    var f1 := SetField(UNSET, first);
    var f2 := f1.(unit := policy.unit);
    var f3 := SetFields(f2, third);
    OneFieldSets(f2, if third == [] then first else third[0]);
    OneFieldSets(f3, if fourth == [] then first else fourth[0]);
  }

  /**
   A printed policy reads back with its window cut to whole seconds, and with no window at all when
   that would be zero.
   */
  lemma ReadsBackInWholeSeconds(policy: RateLimitPolicy)
    requires Legible(policy)
    ensures Parse(Print(policy)) == Ok([InWholeSeconds(policy)])
  {
    hide Legible, Print, PolicyOf, MemberOf, WriteMember, Tokenize;
    MemberOfIsWritable(policy);
    MemberOfHoldsPolicy(policy);
    MemberReadsBack(MemberOf(policy));
    CollectOne(PolicyOf, MemberOf(policy));
  }

  lemma UnitIsSet(policy: RateLimitPolicy)
    requires Legible(policy)
    ensures var f := Fields(Some(policy.quota), Requests, None, None);
      SetFields(f, UnitParam(policy)) == f.(unit := policy.unit)
  {
    hide NameValue, StringValue, All;
    var f := Fields(Some(policy.quota), Requests, None, None);
    if policy.unit.Requests? {
      OneFieldSets(f, Param("q", Integer(0)));
    } else {
      var token := policy.unit.AsStr();
      assert All(IsPrintable, token) by {
        UnitIsPrintable(policy.unit);
      }
      NameIsWritable(token);
      NameIsString(token);
      OneFieldSets(f, UnitParam(policy)[0]);
    }
  }

  lemma UnitIsPrintable(u: QuotaUnit)
    ensures !u.Other? ==> All(IsPrintable, u.AsStr()) && UnitFromToken(u.AsStr()) == u
  {
  }

  predicate EncodableFields(f: Fields) {
    && (f.quota.Some? ==> f.quota.value < INTEGER_LIMIT)
    && (f.unit.Other? ==> All(IsPrintable, f.unit.token) && UnitFromToken(f.unit.token) == f.unit)
    && (f.window.Some? ==> EncodableWindow(f.window.value))
    && (f.partitionKey.Some? ==> All(IsBase64, f.partitionKey.value))
  }

  lemma {:induction false} FieldsStayEncodable(f: Fields, ps: seq<Param>)
    requires EncodableFields(f) && forall p :: p in ps ==> Readable(p.value)
    ensures EncodableFields(SetFields(f, ps))
    decreases ps
  {
    if ps != [] {
      assert ps[0] in ps;
      FieldsStayEncodable(SetField(f, ps[0]), ps[1..]);
    }
  }

  lemma ReadPoliciesAreEncodable()
    ensures ReadsOnly(PolicyOf, Encodable)
  {
    hide SetFields, StringValue;
    forall m, policy | ReadableMember(m) && policy in PolicyOf(m)
      ensures Encodable(policy)
    {
      FieldsStayEncodable(UNSET, m.params);
    }
  }

  /** Whatever the input, every policy parsed from it is one the field can express. */
  lemma ParsedAreEncodable(input: string)
    requires Parse(input).Ok?
    ensures forall policy :: policy in Parse(input).value ==> Encodable(policy)
  {
    hide Encodable, ParseWith;
    ReadPoliciesAreEncodable();
    ParsedSatisfy(PolicyOf, Encodable, input);
  }

  lemma EncodableIsLegible(policy: RateLimitPolicy)
    requires Encodable(policy)
    ensures Legible(policy)
  {
  }

  /** A list of policies survives printing, joining and parsing exactly when the field can express each. */
  lemma RoundTripsIffEncodable(policies: seq<RateLimitPolicy>)
    ensures Parse(Join(Each(Print, policies), ", ")) == Ok(policies)
       <==> forall policy :: policy in policies ==> Encodable(policy)
  {
    hide Encodable, ParseWith, Join;
    if forall policy :: policy in policies ==> Encodable(policy) {
      forall i | 0 <= i < |policies|
        ensures Faithful(PolicyOf, MemberOf, Print, policies[i])
      {
        assert policies[i] in policies;
        EncodableIsLegible(policies[i]);
        MemberOfIsWritable(policies[i]);
        MemberOfHoldsPolicy(policies[i]);
      }
      FaithfulReadBack(PolicyOf, MemberOf, Print, policies);
    }
    if Parse(Join(Each(Print, policies), ", ")) == Ok(policies) {
      ParsedAreEncodable(Join(Each(Print, policies), ", "));
    }
  }

  /** The item is not named, or has no number as its `q`. */
  predicate LacksQuota(m: Member) {
    m.value.String? ==>
      forall i :: 0 <= i < |m.params| && m.params[i].key == "q" ==>
        !(m.params[i].value.Integer? && m.params[i].value.n >= 0)
  }

  lemma LacksQuotaIsForeign(m: Member)
    requires LacksQuota(m)
    ensures PolicyOf(m) == []
  {
    hide SetFields;
    if m.value.String? {
      OthersKeep(UNSET, m.params, "q");
    }
  }

  /** Such an item is no policy, whatever else it carries. */
  lemma WithoutQuotaIsNothing(m: Member)
    requires WritableMember(m) && LacksQuota(m)
    ensures Parse(WriteMember(m)) == Ok([])
  {
    hide Tokenize, WriteMember, WritableMember, Collect, PolicyOf;
    LacksQuotaIsForeign(m);
    MemberReadsBack(m);
    CollectOne(PolicyOf, m);
  }

  /** It is passed over between others. */
  lemma WithoutQuotaIsSkipped(a: string, m: Member, b: string)
    requires NonEmptyList(a) && NonEmptyList(b) && WritableMember(m) && LacksQuota(m)
    ensures Parse(Join([a, WriteMember(m), b], ",")) == Parse(Join([a, b], ","))
  {
    hide Tokenize, ParseWith, WriteMember, WritableMember, Join, PolicyOf;
    LacksQuotaIsForeign(m);
    MemberReadsBack(m);
    ForeignMembersAreSkipped(PolicyOf, a, WriteMember(m), b);
  }

  /** So is an inner list, whatever it and its parameters hold, and however it is spaced. */
  lemma InnerListIsSkipped(a: string, items: seq<Member>, gap: string, pad: string, params: seq<Param>, b: string)
    requires NonEmptyList(a) && NonEmptyList(b)
    requires AllWritable(items) && Gaps(gap, pad) && WritableParams(params)
    ensures Parse(Join([a, WriteInnerList(items, gap, pad, params), b], ",")) == Parse(Join([a, b], ","))
  {
    hide Tokenize, ParseWith, WriteInnerList, Join;
    InnerListReadsBack(items, gap, pad, params);
    ForeignMembersAreSkipped(PolicyOf, a, WriteInnerList(items, gap, pad, params), b);
  }

  /** The wire format, by example. */
  lemma WireFormat()
    ensures Print(RateLimitPolicy("default", 100, Requests, Some(30 * NANOS_PER_SEC), None)) == "\"default\";q=100;w=30"
  {
    hide Quoted, Digits;
    DefaultIsQuoted();
    SomeNumbers();
    assert ";q=" + "100" + "" + ";w=30" + "" == ";q=100;w=30";
  }

  lemma UnitWireFormat()
    ensures Print(RateLimitPolicy("default", 50, ContentBytes, None, None)) == "\"default\";q=50;qu=\"content-bytes\""
  {
    hide Quoted, Digits;
    DefaultIsQuoted();
    UnitIsQuoted();
    SomeNumbers();
    assert ";q=" + "50" + ";qu=\"content-bytes\"" + "" + "" == ";q=50;qu=\"content-bytes\"";
  }

  lemma UnitIsQuoted()
    ensures ";qu=" + Quoted("content-bytes") == ";qu=\"content-bytes\""
  {
    hide Quoted;
    PlainIsQuoted("content-bytes");
  }

  /** A negative number is no quota. */
  lemma NegativeQuotaIsNothing()
    ensures Parse("\"default\";q=-5;w=30") == Ok([])
  {
    hide Parse, Quoted, NameValue, Writable, WriteParams, WriteValue, WritableParams, All;
    hide Digits, IntegerText, Tokenize;
    var q, w := Param("q", Integer(-5)), Param("w", Integer(30));
    DefaultIsQuoted();
    NameIsWritable("default");
    TwoIntegersWrite("q", -5, "w", 30);
    SomeNumbers();
    assert ";" + "q" + "=" + "-5" + (";" + "w" + "=" + "30") == ";q=-5;w=30";
    var m := Member(NameValue("default"), [q, w]);
    assert m.params[0] == q && m.params[1] == w;
    assert WriteMember(m) == "\"default\"" + ";q=-5;w=30";
    assert "\"default\"" + ";q=-5;w=30" == "\"default\";q=-5;w=30";
    WithoutQuotaIsNothing(m);
  }

  // ---------------------------------------------------------------- every field line

  method FromHeaders(lines: seq<Option<string>>) returns (r: Result<seq<RateLimitPolicy>>)
    ensures r == ParseLinesWith(PolicyOf, lines)
  {
    hide ParseWith;
    var policies: seq<RateLimitPolicy> := [];
    assert lines[0..] == lines;
    ghost var whole := ParseLinesWith(PolicyOf, lines);
    assert whole.Ok? ==> policies + whole.value == whole.value;
    for i := 0 to |lines|
      invariant var more := ParseLinesWith(PolicyOf, lines[i..]);
        ParseLinesWith(PolicyOf, lines) == if more.Ok? then Ok(policies + more.value) else ParseError
    {
      ghost var rest := lines[i..];
      assert rest[0] == lines[i] && rest[1..] == lines[i + 1..];
      if lines[i].Some? {
        var parsed := ParseList(lines[i].value);
        if parsed.ParseError? {
          return ParseError;
        }
        ghost var more := ParseLinesWith(PolicyOf, lines[i + 1..]);
        assert more.Ok? ==> policies + (parsed.value + more.value) == policies + parsed.value + more.value;
        policies := policies + parsed.value;
      }
    }
    assert policies + [] == policies;
    return Ok(policies);
  }
}

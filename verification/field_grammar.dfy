/**
 What the lexers read besides what this crate writes: optional whitespace, bare keys, inner lists, and
 what they refuse.
 */
module FieldGrammar {
  import opened Wrappers
  import opened Text
  import opened StructuredFields
  import opened FieldLists

  // ---------------------------------------------------------------- whitespace between members

  /** A non-empty list followed by other text reads as its members and then whatever the text holds. */
  lemma ListGoesOn(a: string, z: string)
    requires NonEmptyList(a) && EndsMember(z)
    ensures Tokenize(a + z) == Followed(Tokenize(a).value, LexMembers(true, z))
  {
    hide LexMembers;
    MembersExtend(false, a, z);
  }

  lemma OwsEndsMember(w: string, z: string)
    requires All(IsOws, w) && EndsMember(z)
    ensures EndsMember(w + z)
  {
    if w == "" {
      assert w + z == z;
    } else {
      assert IsOws(w[0]);
    }
  }

  lemma OwsIsSkipped(w: string, z: string)
    requires All(IsOws, w)
    ensures Skip(IsOws, w + z) == Skip(IsOws, z)
  {
    SkipsAll(IsOws, w);
    SkipsThrough(IsOws, w, z);
  }

  /** Optional whitespace after the last member means nothing. */
  lemma TrailingWhitespaceIsSkipped(a: string, w: string)
    requires NonEmptyList(a) && All(IsOws, w)
    ensures Tokenize(a + w) == Tokenize(a)
  {
    hide Tokenize, LexOpening, All;
    OwsEndsMember(w, "");
    assert w + "" == w;
    SkipsAll(IsOws, w);
    ListGoesOn(a, w);
    assert LexMembers(true, w) == Ok([]);
    assert Tokenize(a).value + [] == Tokenize(a).value;
  }

  /** Nor do spaces before the first. */
  lemma LeadingSpacesAreSkipped(sp: string, b: string)
    requires All(IsSp, sp)
    ensures Tokenize(sp + b) == Tokenize(b)
  {
    hide LexTail, LexOpening;
    SkipsAll(IsSp, sp);
    SkipsThrough(IsSp, sp, b);
  }

  lemma WhitespaceBeforeComma(w: string, z: string)
    requires All(IsOws, w)
    ensures LexMembers(true, w + z) == LexMembers(true, z)
  {
    hide LexTail, LexOpening;
    OwsIsSkipped(w, z);
  }

  lemma WhitespaceAfterComma(w: string, b: string)
    requires All(IsOws, w)
    ensures LexMembers(true, "," + w + b) == LexMembers(true, "," + b)
  {
    hide LexMembers, Skip, All;
    OwsIsSkipped(w, b);
    MembersAfterComma(w + b, b);
    assert "," + w + b == "," + (w + b);
  }

  lemma MembersAfterComma(s: string, t: string)
    requires Skip(IsOws, s) == Skip(IsOws, t)
    ensures LexMembers(true, "," + s) == LexMembers(true, "," + t)
  {
    hide LexTail, LexOpening, Split;
    StopsAt(IsOws, "," + s);
    StopsAt(IsOws, "," + t);
    assert ("," + s)[1..] == s && ("," + t)[1..] == t;
    hide Skip;
  }

  /** Commas may stand in any spaces and tabs. */
  lemma CommaMayBeSpaced(a: string, before: string, after: string, b: string)
    requires NonEmptyList(a) && NonEmptyList(b) && All(IsOws, before) && All(IsOws, after)
    ensures Tokenize(a + before + "," + after + b) == Ok(Tokenize(a).value + Tokenize(b).value)
  {
    hide Tokenize, LexMembers, All;
    var z := "," + after + b;
    OwsEndsMember(before, z);
    ListGoesOn(a, before + z);
    WhitespaceBeforeComma(before, z);
    WhitespaceAfterComma(after, b);
    AfterComma(b);
    assert a + before + "," + after + b == a + (before + z);
  }

  /** Two members with no comma between them are no list. */
  lemma MembersNeedComma(a: string, w: string, z: string)
    requires NonEmptyList(a) && All(IsOws, w) && w != "" && z != "" && z[0] !in ", \t;"
    ensures Tokenize(a + w + z) == ParseError
  {
    hide Tokenize, LexOpening, All;
    assert (w + z)[0] == w[0];
    FirstOf(IsOws, w);
    ListGoesOn(a, w + z);
    OwsIsSkipped(w, z);
    StopsAt(IsOws, z);
    assert LexMembers(true, w + z) == ParseError;
    assert a + w + z == a + (w + z);
  }

  /** A string that is not closed is malformed, whatever it holds. */
  lemma {:induction false} UnclosedIsRejected(value: string)
    ensures LexString(Escaped(value)) == ParseError
  {
    if value != "" {
      UnclosedIsRejected(value[1..]);
      var s, tail := Escaped(value), Escaped(value[1..]);
      if value[0] in "\\\"" {
        assert s == ['\\', value[0]] + tail && s[2..] == tail;
      } else {
        assert s == [value[0]] + tail && s[1..] == tail;
      }
    }
  }

  // ---------------------------------------------------------------- parameters

  /** Spaces may follow a semicolon. */
  lemma SemicolonMayBeSpaced(sp: string, z: string)
    requires All(IsSp, sp)
    ensures LexParam(";" + sp + z) == LexParam(";" + z)
  {
    SkipsAll(IsSp, sp);
    SkipsThrough(IsSp, sp, z);
    assert ";" + sp + z == ";" + (sp + z);
    ParamAfterSpaces(sp + z, z);
  }

  lemma ParamAfterSpaces(s: string, t: string)
    requires Skip(IsSp, s) == Skip(IsSp, t)
    ensures LexParam(";" + s) == LexParam(";" + t)
  {
    hide LexItem, Split, Skip, All;
    assert (";" + s)[1..] == s && (";" + t)[1..] == t;
  }

  /** A key alone is the boolean true. */
  lemma BareKeyIsTrue(key: string, z: string)
    requires key != "" && IsKeyStart(key[0]) && All(IsKeyChar, key) && EndsItem(z)
    ensures LexParam(";" + key + z) == Ok(Lexed(Some(Param(key, Boolean(true))), z))
  {
    hide LexItem, Split, All;
    assert (";" + key + z)[0] == ';' && (";" + key + z)[1..] == key + z;
    KeyReadsBack(key, z);
  }

  // ---------------------------------------------------------------- inner lists

  predicate AllWritable(items: seq<Member>) {
    forall m :: m in items ==> WritableMember(m)
  }

  /** Items with a gap between any two, padding after the last, and the closing parenthesis. */
  function WriteInner(items: seq<Member>, gap: string, pad: string): string
    requires AllWritable(items)
  {
    if items == [] then ")"
    else
      assert items[0] in items;
      WriteMember(items[0]) + (if |items| > 1 then gap else pad) + WriteInner(items[1..], gap, pad)
  }

  /** A whole inner list (section 4.2.1.2), its parameters last. */
  function WriteInnerList(items: seq<Member>, gap: string, pad: string, params: seq<Param>): string
    requires AllWritable(items) && WritableParams(params)
  {
    "(" + pad + WriteInner(items, gap, pad) + WriteParams(params)
  }

  /** Spaces, and at least one between items. */
  predicate Gaps(gap: string, pad: string) {
    All(IsSp, gap) && gap != "" && All(IsSp, pad)
  }

  lemma InnerStarts(items: seq<Member>, gap: string, pad: string)
    requires AllWritable(items)
    ensures WriteInner(items, gap, pad) != "" && WriteInner(items, gap, pad)[0] != ' '
    ensures items != [] ==> WriteInner(items, gap, pad)[0] != ')'
    ensures items != [] ==> WriteInner(items, gap, pad)[0] == WriteMember(items[0])[0]
  {
    hide LexItem, WriteValue, WriteParams;
    if items != [] {
      assert items[0] in items;
      WrittenReadsBack(items[0].value);
      ItemStarts(WriteValue(items[0].value));
    }
  }

  lemma WrittenLexes(m: Member, tail: string)
    requires WritableMember(m) && EndsMember(tail)
    ensures var s, u := WriteMember(m) + tail, WriteParams(m.params) + tail;
      && LexItem(s) == Ok(Lexed(m.value, u)) && LexParams(u) == Ok(Lexed(m.params, tail))
      && s != "" && s[0] !in " \t,;()"
  {
    hide LexItem, LexParams, Writable, WritableParams, WriteParams, All;
    var params, s := WriteParams(m.params), WriteMember(m) + tail;
    NotInner(m);
    hide WriteValue;
    ParamsReadBack(m.params);
    ParamsExtend(params, tail);
    assert "" + tail == tail;
    assert s == WriteValue(m.value) + (params + tail);
    assert EndsItem(params + tail) by {
      if params == "" {
        assert params + tail == tail;
      }
    }
    hide EndsItem, EndsMember;
    ItemReadsBack(m.value, params + tail);
    ItemStarts(s);
  }

  lemma InnerUnfolds(sp: string, s: string, value: Value, u: string, params: seq<Param>, tail: string)
    requires All(IsSp, sp) && s != "" && s[0] !in " )" && tail != "" && tail[0] in " )"
    requires LexItem(s) == Ok(Lexed(value, u)) && LexParams(u) == Ok(Lexed(params, tail))
    ensures LexInner(sp + s) == Ok(Lexed(Some(value), tail))
  {
    hide LexItem, LexParams, Split, All;
    SplitWhole(IsSp, sp, s);
  }

  /** One item of an inner list, with spaces before it, up to what separates it from the rest. */
  lemma InnerItemReadsBack(sp: string, m: Member, tail: string)
    requires All(IsSp, sp) && WritableMember(m) && tail != "" && tail[0] in " )"
    ensures LexInner(sp + (WriteMember(m) + tail)) == Ok(Lexed(Some(m.value), tail))
  {
    hide LexItem, LexParams, LexInner, Writable, WritableParams, WriteMember, WriteParams, All;
    WrittenLexes(m, tail);
    InnerUnfolds(sp, WriteMember(m) + tail, m.value, WriteParams(m.params) + tail, m.params, tail);
  }

  lemma NotInner(m: Member)
    requires WritableMember(m)
    ensures m.value != InnerList
  {
  }

  lemma ClosingReadsBack(sp: string, z: string)
    requires All(IsSp, sp)
    ensures LexInner(sp + (")" + z)) == Ok(Lexed(None, z))
  {
    hide Split, All;
    SplitWhole(IsSp, sp, ")" + z);
    assert (")" + z)[1..] == z;
  }

  lemma {:induction false} InnerReadsBack(sp: string, items: seq<Member>, gap: string, pad: string, z: string)
    requires AllWritable(items) && Gaps(gap, pad) && All(IsSp, sp)
    ensures LexInnerRest(sp + (WriteInner(items, gap, pad) + z)) == Ok(Lexed((), z))
    decreases items
  {
    hide LexInner, WritableMember, WriteMember, All;
    if items == [] {
      ClosingReadsBack(sp, z);
    } else {
      assert items[0] in items;
      assert AllWritable(items[1..]) by {
        assert forall m :: m in items[1..] ==> m in items;
      }
      var sep, more := if |items| > 1 then gap else pad, WriteInner(items[1..], gap, pad);
      InnerReadsBack(sep, items[1..], gap, pad, z);
      var tail := sep + (more + z);
      assert tail[0] in " )" by {
        if sep == "" {
          assert items[1..] == [] && tail[0] == more[0];
        } else {
          FirstOf(IsSp, sep);
        }
      }
      InnerItemReadsBack(sp, items[0], tail);
      assert WriteInner(items, gap, pad) + z == WriteMember(items[0]) + tail;
    }
  }

  /** An inner list reads as one member, its contents dropped and its parameters kept. */
  lemma InnerListReadsBack(items: seq<Member>, gap: string, pad: string, params: seq<Param>)
    requires AllWritable(items) && Gaps(gap, pad) && WritableParams(params)
    ensures Tokenize(WriteInnerList(items, gap, pad, params)) == Ok([Member(InnerList, params)])
  {
    hide LexInnerRest, LexParams, WriteInner, WriteParams, AllWritable, WritableParams, Split, All;
    var s := WriteInnerList(items, gap, pad, params);
    var t := pad + (WriteInner(items, gap, pad) + WriteParams(params));
    assert s[0] == '(' && s[1..] == t;
    StopsAt(IsSp, s);
    InnerReadsBack(pad, items, gap, pad, WriteParams(params));
    ParamsReadBack(params);
    assert LexValue(false, s) == Ok(Lexed(Some(InnerList), t));
    assert LexTail(InnerList, t) == Ok(Lexed(params, ""));
    EmptyIsDone();
    assert [Member(InnerList, params)] + [] == [Member(InnerList, params)];
  }

  // ---------------------------------------------------------------- for examples of the wire format

  lemma PlainIsQuoted(value: string)
    requires All(c => c !in "\\\"", value)
    ensures Quoted(value) == "\"" + value + "\""
  {
    PlainIsUnescaped(value);
  }

  lemma DefaultIsQuoted()
    ensures Quoted("default") == "\"default\"" && All(IsPrintable, "default")
  {
    hide Escaped;
    PlainIsQuoted("default");
  }

  lemma SomeNumbers()
    ensures Digits(0) == "0" && Digits(5) == "5" && Digits(10) == "10" && Digits(30) == "30" && Digits(50) == "50"
    ensures Digits(100) == "100" && IntegerText(-5) == "-5" && IntegerText(30) == "30"
  {
  }

  lemma TwoIntegersWrite(key: string, m: int, key': string, n: int)
    requires key in ["r", "t", "q", "qu", "w", "pk"] && key' in ["r", "t", "q", "qu", "w", "pk"]
    requires -INTEGER_LIMIT < m < INTEGER_LIMIT && -INTEGER_LIMIT < n < INTEGER_LIMIT
    ensures var ps := [Param(key, Integer(m)), Param(key', Integer(n))];
      && WritableParams(ps)
      && WriteParams(ps) == ";" + key + "=" + IntegerText(m) + (";" + key' + "=" + IntegerText(n))
  {
    hide WriteParams, IntegerText, All;
    KeyNameIsWritable(key);
    KeyNameIsWritable(key');
    var p, p' := Param(key, Integer(m)), Param(key', Integer(n));
    OneParamWrites(p);
    OneParamWrites(p');
    ParamsWriteInOrder([p], [p']);
    assert [p] + [p'] == [p, p'];
  }
}

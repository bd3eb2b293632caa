/**
 What the two header fields share: a list of items read off the members of a Structured Field List,
 from one line or from several, and written back.

 `of` reads the item a member stands for, or nothing when the member is not one of ours.
 */
module ItemLists {
  import opened Wrappers
  import opened StructuredFields
  import opened FieldLists

  function Collect<T>(of: Member -> seq<T>, ms: seq<Member>): seq<T> {
    if ms == [] then [] else of(ms[0]) + Collect(of, ms[1..])
  }

  function Appended<T>(of: Member -> seq<T>, items: seq<T>, more: Result<seq<Member>>): Result<seq<T>> {
    if more.Ok? then Ok(items + Collect(of, more.value)) else ParseError
  }

  function ParseWith<T>(of: Member -> seq<T>, input: string): Result<seq<T>> {
    Appended(of, [], Tokenize(input))
  }

  /** Reading one member appends its item to those already read, and its errors end the list. */
  lemma MemberAppends<T>(of: Member -> seq<T>, items: seq<T>, value: Value, s: string)
    ensures LexTail(value, s).ParseError? ==> Appended(of, items, LexFrom(value, s)) == ParseError
    ensures LexTail(value, s).Ok? ==>
              var Lexed(params, rest) := LexTail(value, s).value;
              Appended(of, items, LexFrom(value, s))
              == Appended(of, items + of(Member(value, params)), LexMembers(true, rest))
  {
    hide LexTail, LexMembers;
    if LexTail(value, s).Ok? {
      var Lexed(params, rest) := LexTail(value, s).value;
      var more := LexMembers(true, rest);
      if more.Ok? {
        var m := Member(value, params);
        assert ([m] + more.value)[1..] == more.value;
        assert items + (of(m) + Collect(of, more.value)) == items + of(m) + Collect(of, more.value);
      }
    }
  }

  lemma NothingAppends<T>(of: Member -> seq<T>, items: seq<T>)
    ensures Appended(of, items, Ok([])) == Ok(items)
    ensures Appended(of, items, ParseError) == ParseError
    ensures items + [] == items && [] + items == items
  {
    assert items + [] == items;
  }

  /** Asking for the next member either ends the list, spoils it, or goes on with that member. */
  lemma ListUnfolds<T>(of: Member -> seq<T>, items: seq<T>, started: bool, s: string)
    ensures Appended(of, items, LexMembers(started, s))
         == match LexValue(started, s)
            case ParseError => ParseError
            case Ok(Lexed(None, _)) => Ok(items)
            case Ok(Lexed(Some(value), t)) => Appended(of, items, LexFrom(value, t))
  {
    hide LexFrom, LexValue;
    MembersUnfold(started, s);
    NothingAppends(of, items);
  }

  lemma ParseBegins<T>(of: Member -> seq<T>, input: string)
    ensures ParseWith(of, input) == Appended(of, [], LexMembers(false, input))
  {
  }

  lemma CollectOne<T>(of: Member -> seq<T>, m: Member)
    ensures Appended(of, [], Ok([m])) == Ok(of(m))
  {
    assert [m][1..] == [];
    assert Collect(of, [m]) == of(m) + Collect(of, []);
    assert of(m) + [] == of(m);
    assert [] + of(m) == of(m);
  }

  // ---------------------------------------------------------------- several field lines

  /** Lines that are not text are passed over; the first malformed one spoils the result. */
  function ParseLinesWith<T>(of: Member -> seq<T>, lines: seq<Option<string>>): Result<seq<T>> {
    if lines == [] then Ok([])
    else if lines[0].None? then ParseLinesWith(of, lines[1..])
    else
      match ParseWith(of, lines[0].value)
      case ParseError => ParseError
      case Ok(items) =>
        match ParseLinesWith(of, lines[1..])
        case ParseError => ParseError
        case Ok(more) => Ok(items + more)
  }

  /** Two results one after the other, if both are. */
  function Both<T>(x: Result<seq<T>>, y: Result<seq<T>>): Result<seq<T>> {
    if x.Ok? && y.Ok? then Ok(x.value + y.value) else ParseError
  }

  /** Reading lines in two parts and then one after the other is reading them at once. */
  lemma {:induction false} LinesReadInParts<T>(of: Member -> seq<T>, xs: seq<Option<string>>, ys: seq<Option<string>>)
    ensures ParseLinesWith(of, xs + ys) == Both(ParseLinesWith(of, xs), ParseLinesWith(of, ys))
  {
    hide ParseWith;
    if xs == [] {
      assert xs + ys == ys;
      if ParseLinesWith(of, ys).Ok? {
        assert [] + ParseLinesWith(of, ys).value == ParseLinesWith(of, ys).value;
      }
    } else {
      assert (xs + ys)[0] == xs[0] && (xs + ys)[1..] == xs[1..] + ys;
      LinesReadInParts(of, xs[1..], ys);
      if xs[0].Some? && ParseWith(of, xs[0].value).Ok? && ParseLinesWith(of, xs + ys).Ok? {
        var x, y := ParseWith(of, xs[0].value).value, ParseLinesWith(of, xs[1..]).value;
        var z := ParseLinesWith(of, ys).value;
        assert x + (y + z) == (x + y) + z;
      }
    }
  }

  /** One line of text is parsed alone, and one that is not text holds nothing. */
  lemma OneLineReads<T>(of: Member -> seq<T>, line: Option<string>)
    ensures ParseLinesWith(of, [line]) == if line.Some? then ParseWith(of, line.value) else Ok([])
    ensures ParseLinesWith(of, []) == Ok([])
  {
    hide ParseWith;
    assert [line][1..] == [];
    if line.Some? && ParseWith(of, line.value).Ok? {
      assert ParseWith(of, line.value).value + [] == ParseWith(of, line.value).value;
    }
  }

  predicate Malformed(line: Option<string>) {
    line.Some? && Tokenize(line.value).ParseError?
  }

  /** What one line holds. */
  function Piece<T>(of: Member -> seq<T>, line: Option<string>): seq<T> {
    if line.None? || Malformed(line) then [] else ParseWith(of, line.value).value
  }

  function Flatten<T>(parts: seq<seq<T>>): seq<T> {
    if parts == [] then [] else Flatten(parts[..|parts| - 1]) + parts[|parts| - 1]
  }

  /**
   Lines are read exactly when none of them, at any position, is malformed, and then hold one after
   the other what each holds alone.
   */
  lemma {:induction false} LinesReadIff<T>(of: Member -> seq<T>, lines: seq<Option<string>>)
    ensures ParseLinesWith(of, lines).Ok? <==> forall i :: 0 <= i < |lines| ==> !Malformed(lines[i])
    ensures ParseLinesWith(of, lines).Ok? ==>
              ParseLinesWith(of, lines).value == Flatten(Each(line => Piece(of, line), lines))
  {
    hide Tokenize, ParseLinesWith, Collect;
    if lines == [] {
      OneLineReads(of, None);
    } else {
      var n := |lines| - 1;
      var before, last := lines[..n], lines[n];
      assert lines == before + [last];
      LinesReadIff(of, before);
      LinesReadInParts(of, before, [last]);
      OneLineReads(of, last);
      assert forall i :: 0 <= i < n ==> lines[i] == before[i];
      var f := line => Piece(of, line);
      assert Each(f, lines)[..n] == Each(f, before);
    }
  }

  /** A line that is not text may be left out anywhere. */
  lemma UnreadableLineIsSkipped<T>(of: Member -> seq<T>, xs: seq<Option<string>>, ys: seq<Option<string>>)
    ensures ParseLinesWith(of, xs + [None] + ys) == ParseLinesWith(of, xs + ys)
  {
    hide ParseLinesWith;
    LinesReadInParts(of, xs + [None], ys);
    LinesReadInParts(of, xs, [None]);
    LinesReadInParts(of, xs, ys);
    OneLineReads(of, None);
    if ParseLinesWith(of, xs).Ok? {
      assert ParseLinesWith(of, xs).value + [] == ParseLinesWith(of, xs).value;
    }
  }

  function Texts(lines: seq<string>): (os: seq<Option<string>>)
    ensures |os| == |lines| && forall i :: 0 <= i < |lines| ==> os[i] == Some(lines[i])
  {
    seq(|lines|, i requires 0 <= i < |lines| => Some(lines[i]))
  }

  lemma {:induction false} CollectInOrder<T>(of: Member -> seq<T>, ms: seq<Member>, more: seq<Member>)
    ensures Collect(of, ms + more) == Collect(of, ms) + Collect(of, more)
  {
    hide Tokenize;
    if ms == [] {
      assert ms + more == more;
    } else {
      CollectInOrder(of, ms[1..], more);
      assert (ms + more)[0] == ms[0] && (ms + more)[1..] == ms[1..] + more;
      var first, rest, last := of(ms[0]), Collect(of, ms[1..]), Collect(of, more);
      assert first + (rest + last) == (first + rest) + last;
    }
  }

  lemma {:induction false} LinesReadMembers<T>(of: Member -> seq<T>, lines: seq<string>)
    requires forall i :: 0 <= i < |lines| ==> NonEmptyList(lines[i])
    ensures ParseLinesWith(of, Texts(lines)) == Ok(Collect(of, AllMembers(lines)))
  {
    hide Tokenize;
    if lines != [] {
      assert NonEmptyList(lines[0]);
      LinesReadMembers(of, lines[1..]);
      assert Texts(lines)[1..] == Texts(lines[1..]);
      CollectInOrder(of, Tokenize(lines[0]).value, AllMembers(lines[1..]));
      NothingAppends(of, Collect(of, Tokenize(lines[0]).value));
    }
  }

  /** Non-empty well-formed lines mean the same sent apart or combined into one comma-joined value. */
  lemma LinesCombine<T>(of: Member -> seq<T>, lines: seq<string>)
    requires forall i :: 0 <= i < |lines| ==> NonEmptyList(lines[i])
    ensures ParseLinesWith(of, Texts(lines)) == ParseWith(of, Join(lines, ","))
  {
    hide Tokenize, ParseLinesWith, NonEmptyList;
    LinesReadMembers(of, lines);
    JoinedLinesTokenize(lines);
    NothingAppends(of, Collect(of, AllMembers(lines)));
  }

  lemma {:induction false} NothingCollected<T>(of: Member -> seq<T>, ms: seq<Member>)
    requires forall i :: 0 <= i < |ms| ==> of(ms[i]) == []
    ensures Collect(of, ms) == []
  {
    if ms != [] {
      NothingCollected(of, ms[1..]);
    }
  }

  /** Members that stand for no item may be put between the others without changing what is read. */
  lemma ForeignMembersAreSkipped<T>(of: Member -> seq<T>, a: string, foreign: string, b: string)
    requires NonEmptyList(a) && NonEmptyList(foreign) && NonEmptyList(b)
    requires forall i :: 0 <= i < |Tokenize(foreign).value| ==> of(Tokenize(foreign).value[i]) == []
    ensures ParseWith(of, Join([a, foreign, b], ",")) == ParseWith(of, Join([a, b], ","))
  {
    hide Tokenize, Collect;
    var x, y, z := Tokenize(a).value, Tokenize(foreign).value, Tokenize(b).value;
    ThreeLists(a, foreign, b);
    TwoLists(a, b);
    CollectInOrder(of, x, y + z);
    CollectInOrder(of, y, z);
    CollectInOrder(of, x, z);
    NothingCollected(of, y);
    assert [] + Collect(of, z) == Collect(of, z);
  }

  lemma TwoLists(a: string, b: string)
    requires NonEmptyList(a) && NonEmptyList(b)
    ensures NonEmptyList(Join([a, b], ","))
    ensures Tokenize(Join([a, b], ",")) == Ok(Tokenize(a).value + Tokenize(b).value)
  {
    hide Tokenize;
    assert [a, b][1..] == [b];
    LinesCombineIffNonEmpty(a, b);
  }

  lemma ThreeLists(a: string, b: string, c: string)
    requires NonEmptyList(a) && NonEmptyList(b) && NonEmptyList(c)
    ensures Tokenize(Join([a, b, c], ",")) == Ok(Tokenize(a).value + (Tokenize(b).value + Tokenize(c).value))
  {
    hide Tokenize;
    TwoLists(b, c);
    assert [a, b, c][1..] == [b, c];
    LinesCombineIffNonEmpty(a, Join([b, c], ","));
  }

  // ---------------------------------------------------------------- writing and reading back

  function Each<T, U>(f: T -> U, items: seq<T>): (us: seq<U>)
    ensures |us| == |items| && forall i :: 0 <= i < |items| ==> us[i] == f(items[i])
  {
    seq(|items|, i requires 0 <= i < |items| => f(items[i]))
  }

  /** The member written for an item is the item's printed form and reads back as that item. */
  predicate Faithful<T(==)>(of: Member -> seq<T>, asMember: T -> Member, written: T -> string, item: T) {
    WritableMember(asMember(item)) && WriteMember(asMember(item)) == written(item) && of(asMember(item)) == [item]
  }

  lemma {:induction false} CollectGivesBack<T>(
    of: Member -> seq<T>, asMember: T -> Member, written: T -> string, items: seq<T>)
    requires forall i :: 0 <= i < |items| ==> Faithful(of, asMember, written, items[i])
    ensures Collect(of, Each(asMember, items)) == items
  {
    hide WritableMember, WriteMember;
    if items != [] {
      assert Faithful(of, asMember, written, items[0]);
      CollectGivesBack(of, asMember, written, items[1..]);
      assert Each(asMember, items)[1..] == Each(asMember, items[1..]);
      assert [items[0]] + items[1..] == items;
    }
  }

  /** Printing items whose forms are faithful, joining and parsing gives back the same list. */
  lemma FaithfulReadBack<T>(of: Member -> seq<T>, asMember: T -> Member, written: T -> string, items: seq<T>)
    requires forall i :: 0 <= i < |items| ==> Faithful(of, asMember, written, items[i])
    ensures ParseWith(of, Join(Each(written, items), ", ")) == Ok(items)
  {
    hide Tokenize, WritableMember, WriteMember, Collect;
    var ms := Each(asMember, items);
    forall m | m in ms
      ensures WritableMember(m)
    {
      var i :| 0 <= i < |ms| && ms[i] == m;
      assert Faithful(of, asMember, written, items[i]);
    }
    forall i | 0 <= i < |items|
      ensures Each(written, items)[i] == WriteMembers(ms)[i]
    {
      assert Faithful(of, asMember, written, items[i]);
    }
    assert Each(written, items) == WriteMembers(ms);
    MembersReadBack(ms);
    CollectGivesBack(of, asMember, written, items);
    NothingAppends(of, items);
  }

  ghost predicate ReadsOnly<T(!new)>(of: Member -> seq<T>, p: T -> bool) {
    forall m, t :: ReadableMember(m) && t in of(m) ==> p(t)
  }

  lemma {:induction false} CollectedSatisfy<T(!new)>(of: Member -> seq<T>, p: T -> bool, ms: seq<Member>)
    requires ReadsOnly(of, p) && forall i :: 0 <= i < |ms| ==> ReadableMember(ms[i])
    ensures forall t :: t in Collect(of, ms) ==> p(t)
  {
    hide ReadableMember;
    if ms != [] {
      CollectedSatisfy(of, p, ms[1..]);
    }
  }

  /** What every readable member guarantees of its item holds of all parsed items, whatever the input. */
  lemma ParsedSatisfy<T(!new)>(of: Member -> seq<T>, p: T -> bool, input: string)
    requires ReadsOnly(of, p) && ParseWith(of, input).Ok?
    ensures forall t :: t in ParseWith(of, input).value ==> p(t)
  {
    hide LexMembers, ReadableMember;
    MembersAreReadable(false, input);
    CollectedSatisfy(of, p, Tokenize(input).value);
    NothingAppends(of, Collect(of, Tokenize(input).value));
  }
}

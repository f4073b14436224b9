/** The texts the parser accepts: a grammar, and the proof that it is the one. */
module JsonGrammar {
  import opened CTypes
  import opened Json
  import opened JsonPrint
  import opened JsonString
  import opened JsonParse
  import opened JsonTextRoundTrip

  // ---- The grammar ----

  /** White space is any octet up to 32. */
  predicate White(c: seq<byte>, o: nat, p: nat) {
    o <= p <= |c| && forall i :: o <= i < p ==> c[i] <= 32
  }

  predicate Sign(c: seq<byte>, o: nat, sign: char) {
    o < |c| && c[o] == sign as int
  }

  predicate Word(c: seq<byte>, o: nat, e: nat, literal: string) {
    o <= e <= |c| && Spelled(c[o..e], literal)
  }

  predicate InNumber(b: byte) {
    b as char in "0123456789+-eE."
  }

  /** The longest run of characters of a number, as far as 63 of them go. */
  predicate NumberRun(c: seq<byte>, o: nat, t: cstring) {
    && |t| <= 63 && o + |t| <= |c| && c[o..o + |t|] == t && (forall b <- t :: InNumber(b))
    && (|t| == 63 || o + |t| == |c| || !InNumber(c[o + |t|]))
  }

  ghost predicate IsNumber(c: seq<byte>, o: nat, n: cint, e: nat, lib: Library) {
    exists t :: NumberRun(c, o, t) && e > o && lib.strtod(t) == (n, e - o)
  }

  /** The text from o to e is a value. */
  ghost predicate IsValue(c: seq<byte>, o: nat, j: Json, e: nat, lib: Library)
    decreases j, 0
  {
    match j
    case Invalid => false
    case Null => Word(c, o, e, "null")
    case False => Word(c, o, e, "false")
    case True => Word(c, o, e, "true")
    case Number(n) => o < |c| && (c[o] == '-' as int || '0' as int <= c[o] <= '9' as int) && IsNumber(c, o, n, e, lib)
    case String(s) => ReadString(c, o) == Done(s, e)
    case Array(items) => e > o + 1 && Sign(c, o, '[') && IsItems(c, o + 1, items, e - 1, lib) && Sign(c, e - 1, ']')
    case Object(members) =>
      e > o + 1 && Sign(c, o, '{') && IsMembers(c, o + 1, members, e - 1, lib) && Sign(c, e - 1, '}')
  }

  /** Values between commas, with white space around them. */
  ghost predicate IsItems(c: seq<byte>, o: nat, items: seq<Json>, e: nat, lib: Library)
    decreases items, 2
  {
    if items == [] then White(c, o, e)
    else
      exists x: nat ::
        && IsItem(c, o, items[0], x, lib)
        && if |items| == 1 then x == e else Sign(c, x, ',') && IsItems(c, x + 1, items[1..], e, lib)
  }

  ghost predicate IsItem(c: seq<byte>, o: nat, j: Json, x: nat, lib: Library)
    decreases j, 1
  {
    exists v: nat, w: nat :: White(c, o, v) && IsValue(c, v, j, w, lib) && White(c, w, x)
  }

  /** Members between commas, with white space around them. */
  ghost predicate IsMembers(c: seq<byte>, o: nat, members: seq<Member>, e: nat, lib: Library)
    decreases members, 2
  {
    if members == [] then White(c, o, e)
    else
      exists x: nat ::
        && IsMember(c, o, members[0], x, lib)
        && if |members| == 1 then x == e else Sign(c, x, ',') && IsMembers(c, x + 1, members[1..], e, lib)
  }

  /** A name, a colon and a value. */
  ghost predicate IsMember(c: seq<byte>, o: nat, m: Member, x: nat, lib: Library)
    decreases m, 2
  {
    exists v: nat, k: nat, l: nat ::
      && White(c, o, v) && ReadString(c, v) == Done(m.name, k) && White(c, k, l) && Sign(c, l, ':')
      && IsItem(c, l + 1, m.value, x, lib)
  }

  // ---- White space, words and numbers ----

  lemma SkipTo(c: seq<byte>, o: nat, p: nat)
    requires White(c, o, p) && p < |c| && c[p] > 32
    ensures SkipSpace(c, o) == p
  {
    SkipsBlank(c, o, p);
  }

  lemma {:induction false} SpaceIsWhite(c: seq<byte>, o: nat)
    requires o <= |c|
    ensures White(c, o, SpaceEnd(c, o))
    decreases |c| - o
  {
    if o < |c| && c[o] <= 32 { SpaceIsWhite(c, o + 1); }
  }

  lemma SkipIsWhite(c: seq<byte>, o: nat)
    requires SkipSpace(c, o) < |c|
    ensures White(c, o, SkipSpace(c, o))
  {
    if o < |c| { SpaceIsWhite(c, o); }
  }

  lemma WordIs(c: seq<byte>, o: nat, text: cstring, literal: string)
    requires Spelled(text, literal)
    ensures Has(c, o, text) <==> Word(c, o, o + |literal|, literal)
    ensures forall e :: Word(c, o, e, literal) ==> e == o + |literal|
  {}

  lemma NumberCharIs(b: byte)
    ensures NumberChar(b) <==> InNumber(b)
  {}

  lemma {:induction false} NumberTextRuns(c: seq<byte>, o: nat, room: nat)
    requires o <= |c|
    ensures var t := NumberText(c, o, room);
            && o + |t| <= |c| && c[o..o + |t|] == t && (forall b <- t :: InNumber(b))
            && (|t| == room || o + |t| == |c| || !InNumber(c[o + |t|]))
    decreases room
  {
    if o < |c| { NumberCharIs(c[o]); }
    if room > 0 && o < |c| && NumberChar(c[o]) {
      NumberTextRuns(c, o + 1, room - 1);
      var t := NumberText(c, o + 1, room - 1);
      assert c[o..o + 1 + |t|] == [c[o]] + c[o + 1..o + 1 + |t|];
    }
  }

  lemma NumberRunOnce(c: seq<byte>, o: nat, t: cstring, u: cstring)
    requires NumberRun(c, o, t) && NumberRun(c, o, u)
    ensures t == u
  {
    RunShorter(c, o, t, u);
    RunShorter(c, o, u, t);
  }

  lemma RunShorter(c: seq<byte>, o: nat, t: cstring, u: cstring)
    requires NumberRun(c, o, t) && NumberRun(c, o, u)
    ensures |u| <= |t|
  {
    hide InNumber;
    forall i | o <= i < o + |u|
      ensures InNumber(c[i])
    {
      assert u[i - o] == c[o..o + |u|][i - o];
    }
  }

  lemma ReadNumberIs(c: seq<byte>, o: nat, n: cint, e: nat, lib: Library, t: cstring)
    requires t == NumberText(c, o, NUMBER_LIMIT)
    ensures ReadNumber(c, o, lib) == Done(Number(n), e) <==> e > o && lib.strtod(t) == (n, e - o)
  {
    hide NumberText;
  }

  lemma NumberIff(c: seq<byte>, o: nat, n: cint, e: nat, lib: Library)
    requires o <= |c|
    ensures ReadNumber(c, o, lib) == Done(Number(n), e) <==> IsNumber(c, o, n, e, lib)
  {
    NumberTextRuns(c, o, 63);
    hide InNumber, NumberText;
    var t := NumberText(c, o, NUMBER_LIMIT);
    assert NumberRun(c, o, t);
    hide NumberRun;
    forall u | NumberRun(c, o, u)
      ensures u == t
    {
      NumberRunOnce(c, o, t, u);
    }
    ReadNumberIs(c, o, n, e, lib, t);
  }

  // ---- What is read is in the grammar ----

  /** What parse_value goes by. */
  lemma ValueCases(c: seq<byte>, o: nat, depth: nat, j: Json, e: nat, lib: Library)
    requires ReadValue(c, o, depth, lib) == Done(j, e)
    ensures o < |c|
    ensures j.Array? ==> Sign(c, o, '[') && ReadArray(c, o, depth, lib) == Done(j, e)
    ensures j.Object? ==> Sign(c, o, '{') && ReadObject(c, o, depth, lib) == Done(j, e)
    ensures !j.Array? && !j.Object? ==> IsValue(c, o, j, e, lib) && Height(j) == 0
  {
    hide ReadString, ReadNumber, ReadItems, ReadMembers, SkipSpace, IsNumber, IsItems, IsMembers;
    WordIs(c, o, [110, 117, 108, 108], "null");
    WordIs(c, o, [102, 97, 108, 115, 101], "false");
    WordIs(c, o, [116, 114, 117, 101], "true");
    hide Word;
    NumberOnly(c, o, lib);
    if o < |c| && j.Number? { NumberIff(c, o, j.n, e, lib); }
  }

  lemma NumberOnly(c: seq<byte>, o: nat, lib: Library)
    ensures var r := ReadNumber(c, o, lib); r.Done? ==> r.value.Number?
  {}

  lemma {:induction false} ValueSound(c: seq<byte>, o: nat, depth: nat, j: Json, e: nat, lib: Library)
    requires ReadValue(c, o, depth, lib) == Done(j, e) && depth <= NESTING_LIMIT
    ensures o < e && IsValue(c, o, j, e, lib) && depth + Height(j) <= NESTING_LIMIT
    decreases |c| - o, 1
  {
    hide *;
    ValueCases(c, o, depth, j, e, lib);
    if j.Array? {
      ArraySound(c, o, depth, j.items, e, lib);
    } else if j.Object? {
      ObjectSound(c, o, depth, j.members, e, lib);
    }
  }

  lemma ArrayCases(c: seq<byte>, o: nat, depth: nat, items: seq<Json>, e: nat, lib: Library) returns (first: nat)
    requires o < |c| && ReadArray(c, o, depth, lib) == Done(Array(items), e)
    ensures depth < NESTING_LIMIT && first > o && White(c, o + 1, first)
    ensures (items == [] && Sign(c, first, ']') && e == first + 1) ||
            ReadItems(c, first, depth + 1, lib) == Done(items, e)
  {
    first := SkipSpace(c, o + 1);
    hide ReadItems, SkipSpace;
    SkipIsWhite(c, o + 1);
  }

  lemma {:induction false} ArraySound(c: seq<byte>, o: nat, depth: nat, items: seq<Json>, e: nat, lib: Library)
    requires Sign(c, o, '[') && o < |c| && ReadArray(c, o, depth, lib) == Done(Array(items), e)
    ensures o < e && IsValue(c, o, Array(items), e, lib) && depth + Height(Array(items)) <= NESTING_LIMIT
    decreases |c| - o, 0
  {
    hide *;
    var first := ArrayCases(c, o, depth, items, e, lib);
    if !(items == [] && Sign(c, first, ']') && e == first + 1) {
      ItemsSound(c, first, depth + 1, items, e, lib);
      WhiteBeforeItems(c, o + 1, first, items, e - 1, lib);
    } else {
      NoItemsAre(c, o + 1, first, lib);
    }
    ArrayValue(c, o, items, e, lib);
  }

  lemma ArrayValue(c: seq<byte>, o: nat, items: seq<Json>, e: nat, lib: Library)
    requires e > o + 1 && Sign(c, o, '[') && IsItems(c, o + 1, items, e - 1, lib) && Sign(c, e - 1, ']')
    ensures IsValue(c, o, Array(items), e, lib) && Height(Array(items)) == 1 + ItemsHeight(items)
  {
    hide IsItems, ItemsHeight, Sign;
  }

  lemma NoItemsAre(c: seq<byte>, o: nat, e: nat, lib: Library)
    requires White(c, o, e)
    ensures IsItems(c, o, [], e, lib) && IsMembers(c, o, [], e, lib) && ItemsHeight([]) == 0 == MembersHeight([])
  {}

  lemma WhiteBeforeItems(c: seq<byte>, o: nat, first: nat, items: seq<Json>, e: nat, lib: Library)
    requires items != [] && White(c, o, first) && IsItems(c, first, items, e, lib)
    ensures IsItems(c, o, items, e, lib)
  {
    hide White;
    var x: nat :| IsItem(c, first, items[0], x, lib) &&
      if |items| == 1 then x == e else Sign(c, x, ',') && IsItems(c, x + 1, items[1..], e, lib);
    WhiteBeforeItem(c, o, first, items[0], x, lib);
  }

  lemma WhiteBeforeItem(c: seq<byte>, o: nat, first: nat, j: Json, x: nat, lib: Library)
    requires White(c, o, first) && IsItem(c, first, j, x, lib)
    ensures IsItem(c, o, j, x, lib)
  {
    hide IsValue;
    var v: nat, w: nat :| White(c, first, v) && IsValue(c, v, j, w, lib) && White(c, w, x);
    assert White(c, o, v);
  }

  /** One turn of the loop of parse_array. */
  lemma {:induction false} ElementSound(c: seq<byte>, o: nat, depth: nat, j: Json, x: nat, lib: Library)
    requires ReadElement(c, o, depth, lib) == Done(j, x) && x < |c| && depth <= NESTING_LIMIT
    ensures IsItem(c, o, j, x, lib) && depth + Height(j) <= NESTING_LIMIT
    decreases |c| - o, 2
  {
    hide ReadValue, SkipSpace, White, IsValue;
    var v := SkipSpace(c, o);
    var w := ReadValue(c, v, depth, lib).end;
    ValueCases(c, v, depth, j, w, lib);
    SkipIsWhite(c, o);
    SkipIsWhite(c, w);
    ValueSound(c, v, depth, j, w, lib);
  }

  lemma SomeItems(c: seq<byte>, o: nat, depth: nat, lib: Library)
    ensures var r := ReadItems(c, o, depth, lib); r.Done? ==> r.value != []
  {
    hide ReadElement;
  }

  lemma ItemsCases(c: seq<byte>, o: nat, depth: nat, items: seq<Json>, e: nat, lib: Library) returns (x: nat)
    requires ReadItems(c, o, depth, lib) == Done(items, e)
    ensures items != [] && e > 0 && ReadElement(c, o, depth, lib) == Done(items[0], x) && x < |c| && x > o
    ensures (|items| == 1 && Sign(c, x, ']') && e == x + 1) ||
            (|items| > 1 && Sign(c, x, ',') && ReadItems(c, x + 1, depth, lib) == Done(items[1..], e))
  {
    x := ReadElement(c, o, depth, lib).end;
    if HasByte(c, x, COMMA) {
      var rest := ReadItems(c, x + 1, depth, lib);
      assert items == [items[0]] + rest.value && rest.value != [] by { SomeItems(c, x + 1, depth, lib); }
      assert items[1..] == rest.value;
    }
  }

  lemma {:induction false} ItemsSound(c: seq<byte>, o: nat, depth: nat, items: seq<Json>, e: nat, lib: Library)
    requires ReadItems(c, o, depth, lib) == Done(items, e) && depth <= NESTING_LIMIT
    ensures items != [] && e > o && Sign(c, e - 1, ']') && IsItems(c, o, items, e - 1, lib)
    ensures depth + ItemsHeight(items) <= NESTING_LIMIT
    decreases |c| - o, 3
  {
    hide *;
    var x := ItemsCases(c, o, depth, items, e, lib);
    ElementSound(c, o, depth, items[0], x, lib);
    if !(|items| == 1 && Sign(c, x, ']') && e == x + 1) {
      ItemsSound(c, x + 1, depth, items[1..], e, lib);
      MoreItems(c, o, items, x, e - 1, lib);
    } else {
      LastItem(c, o, items, x, lib);
    }
    HigherItems(items, depth);
  }

  lemma HigherItems(items: seq<Json>, depth: nat)
    requires items != [] && depth + Height(items[0]) <= NESTING_LIMIT
    requires |items| > 1 ==> depth + ItemsHeight(items[1..]) <= NESTING_LIMIT
    ensures depth + ItemsHeight(items) <= NESTING_LIMIT
  {
    hide Height;
    if |items| == 1 { assert items[1..] == []; }
  }

  lemma MoreItems(c: seq<byte>, o: nat, items: seq<Json>, x: nat, e: nat, lib: Library)
    requires |items| > 1 && IsItem(c, o, items[0], x, lib) && Sign(c, x, ',')
    requires IsItems(c, x + 1, items[1..], e, lib)
    ensures IsItems(c, o, items, e, lib)
  {
    hide IsItem;
  }

  lemma LastItem(c: seq<byte>, o: nat, items: seq<Json>, x: nat, lib: Library)
    requires |items| == 1 && IsItem(c, o, items[0], x, lib)
    ensures IsItems(c, o, items, x, lib)
  {
    hide IsItem;
  }

  lemma ObjectCases(c: seq<byte>, o: nat, depth: nat, members: seq<Member>, e: nat, lib: Library)
    returns (first: nat)
    requires o < |c| && ReadObject(c, o, depth, lib) == Done(Object(members), e)
    ensures depth < NESTING_LIMIT && first > o && White(c, o + 1, first)
    ensures (members == [] && Sign(c, first, '}') && e == first + 1) ||
            ReadMembers(c, first, depth + 1, lib) == Done(members, e)
  {
    first := SkipSpace(c, o + 1);
    hide ReadMembers, SkipSpace;
    SkipIsWhite(c, o + 1);
  }

  lemma {:induction false} ObjectSound(c: seq<byte>, o: nat, depth: nat, members: seq<Member>, e: nat, lib: Library)
    requires Sign(c, o, '{') && o < |c| && ReadObject(c, o, depth, lib) == Done(Object(members), e)
    ensures o < e && IsValue(c, o, Object(members), e, lib) && depth + Height(Object(members)) <= NESTING_LIMIT
    decreases |c| - o, 0
  {
    hide *;
    var first := ObjectCases(c, o, depth, members, e, lib);
    if !(members == [] && Sign(c, first, '}') && e == first + 1) {
      MembersSound(c, first, depth + 1, members, e, lib);
      WhiteBeforeMembers(c, o + 1, first, members, e - 1, lib);
    } else {
      NoItemsAre(c, o + 1, first, lib);
    }
    ObjectValue(c, o, members, e, lib);
  }

  lemma ObjectValue(c: seq<byte>, o: nat, members: seq<Member>, e: nat, lib: Library)
    requires e > o + 1 && Sign(c, o, '{') && IsMembers(c, o + 1, members, e - 1, lib) && Sign(c, e - 1, '}')
    ensures IsValue(c, o, Object(members), e, lib) && Height(Object(members)) == 1 + MembersHeight(members)
  {
    hide IsMembers, MembersHeight, Sign;
  }

  lemma WhiteBeforeMembers(c: seq<byte>, o: nat, first: nat, members: seq<Member>, e: nat, lib: Library)
    requires members != [] && White(c, o, first) && IsMembers(c, first, members, e, lib)
    ensures IsMembers(c, o, members, e, lib)
  {
    hide White;
    var x: nat :| IsMember(c, first, members[0], x, lib) &&
      if |members| == 1 then x == e else Sign(c, x, ',') && IsMembers(c, x + 1, members[1..], e, lib);
    WhiteBeforeMember(c, o, first, members[0], x, lib);
  }

  lemma WhiteBeforeMember(c: seq<byte>, o: nat, first: nat, m: Member, x: nat, lib: Library)
    requires White(c, o, first) && IsMember(c, first, m, x, lib)
    ensures IsMember(c, o, m, x, lib)
  {
    hide IsItem, ReadString;
    var v: nat, k: nat, l: nat :|
      White(c, first, v) && ReadString(c, v) == Done(m.name, k) && White(c, k, l) && Sign(c, l, ':') &&
      IsItem(c, l + 1, m.value, x, lib);
    assert White(c, o, v);
  }

  /** One turn of the loop of parse_object. */
  lemma {:induction false} MemberSound(c: seq<byte>, o: nat, depth: nat, m: Member, x: nat, lib: Library)
    requires ReadMember(c, o, depth, lib) == Done(m, x) && x < |c| && depth <= NESTING_LIMIT
    ensures IsMember(c, o, m, x, lib) && depth + Height(m.value) <= NESTING_LIMIT
    decreases |c| - o, 2
  {
    hide ReadValue, ReadString, SkipSpace, White, IsValue;
    var v := SkipSpace(c, o);
    var k := ReadString(c, v).end;
    var l := SkipSpace(c, k);
    var y := SkipSpace(c, l + 1);
    var w := ReadValue(c, y, depth, lib).end;
    StringStarts(c, v, m.name, k);
    ValueCases(c, y, depth, m.value, w, lib);
    SkipIsWhite(c, o);
    SkipIsWhite(c, k);
    SkipIsWhite(c, l + 1);
    SkipIsWhite(c, w);
    ValueSound(c, y, depth, m.value, w, lib);
    assert IsItem(c, l + 1, m.value, x, lib);
    hide IsItem;
  }

  lemma StringStarts(c: seq<byte>, o: nat, s: cstring, e: nat)
    requires ReadString(c, o) == Done(s, e)
    ensures o < e <= |c| && Sign(c, o, '"')
  {
    hide ClosingQuote, Unescape;
  }

  lemma SomeMembers(c: seq<byte>, o: nat, depth: nat, lib: Library)
    ensures var r := ReadMembers(c, o, depth, lib); r.Done? ==> r.value != []
  {
    hide ReadMember;
  }

  lemma MembersCases(c: seq<byte>, o: nat, depth: nat, members: seq<Member>, e: nat, lib: Library) returns (x: nat)
    requires ReadMembers(c, o, depth, lib) == Done(members, e)
    ensures members != [] && e > 0 && ReadMember(c, o, depth, lib) == Done(members[0], x) && x < |c| && x > o
    ensures (|members| == 1 && Sign(c, x, '}') && e == x + 1) ||
            (|members| > 1 && Sign(c, x, ',') && ReadMembers(c, x + 1, depth, lib) == Done(members[1..], e))
  {
    x := ReadMember(c, o, depth, lib).end;
    if HasByte(c, x, COMMA) {
      var rest := ReadMembers(c, x + 1, depth, lib);
      assert members == [members[0]] + rest.value && rest.value != [] by { SomeMembers(c, x + 1, depth, lib); }
      assert members[1..] == rest.value;
    }
  }

  lemma {:induction false} MembersSound(c: seq<byte>, o: nat, depth: nat, members: seq<Member>, e: nat, lib: Library)
    requires ReadMembers(c, o, depth, lib) == Done(members, e) && depth <= NESTING_LIMIT
    ensures members != [] && e > o && Sign(c, e - 1, '}') && IsMembers(c, o, members, e - 1, lib)
    ensures depth + MembersHeight(members) <= NESTING_LIMIT
    decreases |c| - o, 3
  {
    hide *;
    var x := MembersCases(c, o, depth, members, e, lib);
    MemberSound(c, o, depth, members[0], x, lib);
    if !(|members| == 1 && Sign(c, x, '}') && e == x + 1) {
      MembersSound(c, x + 1, depth, members[1..], e, lib);
      MoreMembers(c, o, members, x, e - 1, lib);
    } else {
      LastMember(c, o, members, x, lib);
    }
    HigherMembers(members, depth);
  }

  lemma HigherMembers(members: seq<Member>, depth: nat)
    requires members != [] && depth + Height(members[0].value) <= NESTING_LIMIT
    requires |members| > 1 ==> depth + MembersHeight(members[1..]) <= NESTING_LIMIT
    ensures depth + MembersHeight(members) <= NESTING_LIMIT
  {
    hide Height, MembersHeight;
    MembersHeightCons(members);
  }

  lemma MoreMembers(c: seq<byte>, o: nat, members: seq<Member>, x: nat, e: nat, lib: Library)
    requires |members| > 1 && IsMember(c, o, members[0], x, lib) && Sign(c, x, ',')
    requires IsMembers(c, x + 1, members[1..], e, lib)
    ensures IsMembers(c, o, members, e, lib)
  {
    hide IsMember;
  }

  lemma LastMember(c: seq<byte>, o: nat, members: seq<Member>, x: nat, lib: Library)
    requires |members| == 1 && IsMember(c, o, members[0], x, lib)
    ensures IsMembers(c, o, members, x, lib)
  {
    hide IsMember;
  }

  // ---- What is in the grammar is read ----

  /** A value starts with a character that is neither white space nor punctuation behind a value. */
  lemma ValueStarts(c: seq<byte>, o: nat, j: Json, e: nat, lib: Library)
    requires IsValue(c, o, j, e, lib)
    ensures o < |c| && c[o] > 32 && c[o] != ']' as int && c[o] != '}' as int
  {
    hide IsItems, IsMembers, IsNumber, ReadString;
    if j.String? { StringStarts(c, o, j.s, e); }
    if e <= |c| && o <= e && (j.Null? || j.True? || j.False?) {
      assert c[o..e][0] == c[o];
    }
  }

  lemma {:induction false} ValueComplete(c: seq<byte>, o: nat, depth: nat, j: Json, e: nat, lib: Library)
    requires IsValue(c, o, j, e, lib) && depth + Height(j) <= NESTING_LIMIT
    ensures ReadValue(c, o, depth, lib) == Done(j, e)
    decreases j, 0
  {
    ValueStarts(c, o, j, e, lib);
    hide IsItems, IsMembers, IsNumber, ReadString, ReadNumber, ReadArray, ReadObject;
    WordIs(c, o, [110, 117, 108, 108], "null");
    WordIs(c, o, [102, 97, 108, 115, 101], "false");
    WordIs(c, o, [116, 114, 117, 101], "true");
    FirstOctets(c, o);
    hide Word, Has;
    if j.Array? {
      ArrayComplete(c, o, depth, j.items, e, lib);
    } else if j.Object? {
      ObjectComplete(c, o, depth, j.members, e, lib);
    } else if j.Number? {
      NumberIff(c, o, j.n, e, lib);
    } else if j.String? {
      StringStarts(c, o, j.s, e);
    }
  }

  /** The words differ from everything else in their first octet. */
  lemma FirstOctets(c: seq<byte>, o: nat)
    requires o < |c|
    ensures Has(c, o, [110, 117, 108, 108]) ==> c[o] == 110
    ensures Has(c, o, [102, 97, 108, 115, 101]) ==> c[o] == 102
    ensures Has(c, o, [116, 114, 117, 101]) ==> c[o] == 116
  {
    if Has(c, o, [110, 117, 108, 108]) { HasAt(c, o, [110, 117, 108, 108], 0); }
    if Has(c, o, [102, 97, 108, 115, 101]) { HasAt(c, o, [102, 97, 108, 115, 101], 0); }
    if Has(c, o, [116, 114, 117, 101]) { HasAt(c, o, [116, 114, 117, 101], 0); }
  }

  lemma {:induction false} ArrayComplete(c: seq<byte>, o: nat, depth: nat, items: seq<Json>, e: nat, lib: Library)
    requires o < |c| && e > o + 1 && IsItems(c, o + 1, items, e - 1, lib) && Sign(c, e - 1, ']')
    requires depth + 1 + ItemsHeight(items) <= NESTING_LIMIT
    ensures ReadArray(c, o, depth, lib) == Done(Array(items), e)
    decreases items, 3
  {
    hide *;
    if items == [] {
      EmptyItems(c, o + 1, e - 1, lib);
    } else {
      ItemsStart(c, o + 1, items, e - 1, lib);
      ItemsComplete(c, o + 1, depth + 1, items, e - 1, lib);
      SameItems(c, o + 1, SkipSpace(c, o + 1), depth + 1, lib);
    }
    ArrayIs(c, o, depth, items, e, lib);
  }

  lemma EmptyItems(c: seq<byte>, o: nat, e: nat, lib: Library)
    requires IsItems(c, o, [], e, lib) && Sign(c, e, ']')
    ensures SkipSpace(c, o) == e < |c|
  {
    SkipTo(c, o, e);
  }

  lemma ArrayIs(c: seq<byte>, o: nat, depth: nat, items: seq<Json>, e: nat, lib: Library)
    requires o < |c| && depth < NESTING_LIMIT && e > 0 && SkipSpace(c, o + 1) < |c|
    requires if items == [] then SkipSpace(c, o + 1) == e - 1 && Sign(c, e - 1, ']')
             else c[SkipSpace(c, o + 1)] != ']' as int &&
                  ReadItems(c, SkipSpace(c, o + 1), depth + 1, lib) == Done(items, e)
    ensures ReadArray(c, o, depth, lib) == Done(Array(items), e)
  {
    hide ReadItems, SkipSpace;
  }

  lemma SameItems(c: seq<byte>, o: nat, o': nat, depth: nat, lib: Library)
    requires SkipSpace(c, o) == SkipSpace(c, o')
    ensures ReadItems(c, o, depth, lib) == ReadItems(c, o', depth, lib)
  {
    hide SkipSpace, ReadValue, ReadString;
  }

  /** What white space is skipped to in front of the first element. */
  lemma ItemsStart(c: seq<byte>, o: nat, items: seq<Json>, e: nat, lib: Library)
    requires items != [] && IsItems(c, o, items, e, lib)
    ensures var first := SkipSpace(c, o); first < |c| && SkipSpace(c, first) == first && c[first] != ']' as int
  {
    hide White, IsValue;
    var x: nat :| IsItem(c, o, items[0], x, lib) &&
      if |items| == 1 then x == e else Sign(c, x, ',') && IsItems(c, x + 1, items[1..], e, lib);
    var v, w := ItemParts(c, o, items[0], x, lib);
    ValueStarts(c, v, items[0], w, lib);
    SkipTo(c, o, v);
    Nothing(c, v);
    SkipTo(c, v, v);
  }

  lemma ItemParts(c: seq<byte>, o: nat, j: Json, x: nat, lib: Library) returns (v: nat, w: nat)
    requires IsItem(c, o, j, x, lib)
    ensures White(c, o, v) && IsValue(c, v, j, w, lib) && White(c, w, x)
  {
    hide White, IsValue;
    v, w :| White(c, o, v) && IsValue(c, v, j, w, lib) && White(c, w, x);
  }

  lemma Nothing(c: seq<byte>, v: nat)
    requires v <= |c|
    ensures White(c, v, v)
  {}

  lemma {:induction false} ElementComplete(c: seq<byte>, o: nat, depth: nat, j: Json, x: nat, lib: Library)
    requires IsItem(c, o, j, x, lib) && depth + Height(j) <= NESTING_LIMIT && x < |c| && c[x] > 32
    ensures ReadElement(c, o, depth, lib) == Done(j, x)
    decreases j, 1
  {
    hide White, IsValue, ReadValue, SkipSpace;
    var v, w := ItemParts(c, o, j, x, lib);
    ValueStarts(c, v, j, w, lib);
    ValueComplete(c, v, depth, j, w, lib);
    SkipTo(c, o, v);
    SkipTo(c, w, x);
  }

  lemma {:induction false} ItemsComplete(c: seq<byte>, o: nat, depth: nat, items: seq<Json>, e: nat, lib: Library)
    requires items != [] && IsItems(c, o, items, e, lib) && Sign(c, e, ']')
    requires depth + ItemsHeight(items) <= NESTING_LIMIT
    ensures ReadItems(c, o, depth, lib) == Done(items, e + 1)
    decreases items, 2
  {
    hide IsItem, ReadElement, Height;
    var x: nat :| IsItem(c, o, items[0], x, lib) &&
      if |items| == 1 then x == e else Sign(c, x, ',') && IsItems(c, x + 1, items[1..], e, lib);
    ElementComplete(c, o, depth, items[0], x, lib);
    assert items == [items[0]] + items[1..];
    if |items| > 1 {
      assert ItemsHeight(items[1..]) <= ItemsHeight(items);
      ItemsComplete(c, x + 1, depth, items[1..], e, lib);
    }
    hide ReadItems, IsItems;
    ReadsMore(c, o, depth, items, x, e, lib);
  }

  lemma ReadsMore(c: seq<byte>, o: nat, depth: nat, items: seq<Json>, x: nat, e: nat, lib: Library)
    requires items != [] && ReadElement(c, o, depth, lib) == Done(items[0], x)
    requires if |items| == 1 then x == e && Sign(c, e, ']')
             else Sign(c, x, ',') && ReadItems(c, x + 1, depth, lib) == Done(items[1..], e + 1)
    ensures ReadItems(c, o, depth, lib) == Done(items, e + 1)
  {
    hide ReadElement;
    assert items == [items[0]] + items[1..];
    assert |items| == 1 ==> items == [items[0]];
  }

  lemma {:induction false} ObjectComplete(c: seq<byte>, o: nat, depth: nat, members: seq<Member>, e: nat, lib: Library)
    requires o < |c| && e > o + 1 && IsMembers(c, o + 1, members, e - 1, lib) && Sign(c, e - 1, '}')
    requires depth + 1 + MembersHeight(members) <= NESTING_LIMIT
    ensures ReadObject(c, o, depth, lib) == Done(Object(members), e)
    decreases members, 3
  {
    hide *;
    if members == [] {
      EmptyMembers(c, o + 1, e - 1, lib);
    } else {
      MembersStart(c, o + 1, members, e - 1, lib);
      MembersComplete(c, o + 1, depth + 1, members, e - 1, lib);
      SameStart(c, o + 1, SkipSpace(c, o + 1), depth + 1, lib);
    }
    ObjectIs(c, o, depth, members, e, lib);
  }

  lemma EmptyMembers(c: seq<byte>, o: nat, e: nat, lib: Library)
    requires IsMembers(c, o, [], e, lib) && Sign(c, e, '}')
    ensures SkipSpace(c, o) == e < |c|
  {
    SkipTo(c, o, e);
  }

  lemma ObjectIs(c: seq<byte>, o: nat, depth: nat, members: seq<Member>, e: nat, lib: Library)
    requires o < |c| && depth < NESTING_LIMIT && e > 0 && SkipSpace(c, o + 1) < |c|
    requires if members == [] then SkipSpace(c, o + 1) == e - 1 && Sign(c, e - 1, '}')
             else c[SkipSpace(c, o + 1)] != '}' as int &&
                  ReadMembers(c, SkipSpace(c, o + 1), depth + 1, lib) == Done(members, e)
    ensures ReadObject(c, o, depth, lib) == Done(Object(members), e)
  {
    hide ReadMembers, SkipSpace;
  }

  lemma MembersStart(c: seq<byte>, o: nat, members: seq<Member>, e: nat, lib: Library)
    requires members != [] && IsMembers(c, o, members, e, lib)
    ensures var first := SkipSpace(c, o); first < |c| && SkipSpace(c, first) == first && c[first] != '}' as int
  {
    hide White, IsItem, ReadString;
    var x: nat :| IsMember(c, o, members[0], x, lib) &&
      if |members| == 1 then x == e else Sign(c, x, ',') && IsMembers(c, x + 1, members[1..], e, lib);
    var v: nat, k: nat, l: nat :|
      White(c, o, v) && ReadString(c, v) == Done(members[0].name, k) && White(c, k, l) && Sign(c, l, ':') &&
      IsItem(c, l + 1, members[0].value, x, lib);
    StringStarts(c, v, members[0].name, k);
    SkipTo(c, o, v);
    Nothing(c, v);
    SkipTo(c, v, v);
  }

  lemma {:induction false} MemberComplete(c: seq<byte>, o: nat, depth: nat, m: Member, x: nat, lib: Library)
    requires IsMember(c, o, m, x, lib) && depth + Height(m.value) <= NESTING_LIMIT && x < |c| && c[x] > 32
    ensures ReadMember(c, o, depth, lib) == Done(m, x)
    decreases m, 2
  {
    hide White, IsItem, IsValue, ReadValue, ReadString, SkipSpace;
    var v: nat, k: nat, l: nat :|
      White(c, o, v) && ReadString(c, v) == Done(m.name, k) && White(c, k, l) && Sign(c, l, ':') &&
      IsItem(c, l + 1, m.value, x, lib);
    StringStarts(c, v, m.name, k);
    SkipTo(c, o, v);
    SkipTo(c, k, l);
    var y, w := ItemParts(c, l + 1, m.value, x, lib);
    ValueStarts(c, y, m.value, w, lib);
    SkipTo(c, l + 1, y);
    ValueComplete(c, y, depth, m.value, w, lib);
    SkipTo(c, w, x);
  }

  lemma {:induction false} MembersComplete(c: seq<byte>, o: nat, depth: nat, members: seq<Member>, e: nat, lib: Library)
    requires members != [] && IsMembers(c, o, members, e, lib) && Sign(c, e, '}')
    requires depth + MembersHeight(members) <= NESTING_LIMIT
    ensures ReadMembers(c, o, depth, lib) == Done(members, e + 1)
    decreases members, 2
  {
    hide IsMember, ReadMember, Height;
    var x: nat :| IsMember(c, o, members[0], x, lib) &&
      if |members| == 1 then x == e else Sign(c, x, ',') && IsMembers(c, x + 1, members[1..], e, lib);
    MembersHeightCons(members);
    MemberComplete(c, o, depth, members[0], x, lib);
    if |members| > 1 {
      MembersComplete(c, x + 1, depth, members[1..], e, lib);
    }
    hide ReadMembers, IsMembers;
    ReadsMoreMembers(c, o, depth, members, x, e, lib);
  }

  lemma ReadsMoreMembers(c: seq<byte>, o: nat, depth: nat, members: seq<Member>, x: nat, e: nat, lib: Library)
    requires members != [] && ReadMember(c, o, depth, lib) == Done(members[0], x)
    requires if |members| == 1 then x == e && Sign(c, e, '}')
             else Sign(c, x, ',') && ReadMembers(c, x + 1, depth, lib) == Done(members[1..], e + 1)
    ensures ReadMembers(c, o, depth, lib) == Done(members, e + 1)
  {
    hide ReadMember;
    assert members == [members[0]] + members[1..];
    assert |members| == 1 ==> members == [members[0]];
  }

  // ---- The parser accepts the grammar, and nothing else ----

  /** parse_value reads a value exactly when one stands there and is not nested too deeply. */
  lemma ReadsIff(c: seq<byte>, o: nat, depth: nat, j: Json, e: nat, lib: Library)
    requires depth <= NESTING_LIMIT
    ensures ReadValue(c, o, depth, lib) == Done(j, e) <==>
            IsValue(c, o, j, e, lib) && depth + Height(j) <= 1000
  {
    hide ReadValue, IsValue, Height;
    if ReadValue(c, o, depth, lib) == Done(j, e) {
      ValueSound(c, o, depth, j, e, lib);
    }
    if IsValue(c, o, j, e, lib) && depth + Height(j) <= NESTING_LIMIT {
      ValueComplete(c, o, depth, j, e, lib);
    }
  }

  /** A text starts behind a byte order mark, if it has one and goes on for two octets or more. */
  function TextStart(c: seq<byte>): nat {
    if |c| >= 5 && c[..3] == [0xEF, 0xBB, 0xBF] then 3 else 0
  }

  /** A text is a value with white space before it; where a terminator is required, only white space and the NUL
      that ends the buffer may follow. */
  ghost predicate IsText(c: seq<byte>, terminated: bool, j: Json, at: nat, lib: Library) {
    exists v: nat, e: nat ::
      && White(c, TextStart(c), v) && IsValue(c, v, j, e, lib)
      && if terminated then e < |c| && White(c, e, |c|) && c[|c| - 1] == 0 && at == |c| - 1 else at == e
  }

  lemma StartIs(c: seq<byte>)
    ensures SkipBom(c) == TextStart(c) <= |c|
  {}

  /** At the end of the buffer white space is left on the last octet. */
  lemma SkipToEnd(c: seq<byte>, e: nat)
    requires e < |c|
    ensures HasByte(c, SkipSpace(c, e), 0) <==> White(c, e, |c|) && c[|c| - 1] == 0
    ensures White(c, e, |c|) ==> SkipSpace(c, e) == |c| - 1
  {
    SpaceIsWhite(c, e);
    SpaceStops(c, e);
  }

  lemma {:induction false} SpaceStops(c: seq<byte>, o: nat)
    requires o <= |c|
    ensures SpaceEnd(c, o) == |c| || c[SpaceEnd(c, o)] > 32
    decreases |c| - o
  {
    if o < |c| && c[o] <= 32 { SpaceStops(c, o + 1); }
  }

  /** cJSON_ParseWithLengthOpts accepts exactly the texts that are not nested more than 1000 deep. */
  lemma ParsesIff(c: seq<byte>, terminated: bool, j: Json, at: nat, lib: Library)
    ensures ReadText(c, terminated, lib) == Done(j, at) <==> IsText(c, terminated, j, at, lib) && Height(j) <= 1000
  {
    hide ReadValue, SkipSpace, SkipBom, TextStart, White, IsValue, Height;
    StartIs(c);
    var v := SkipSpace(c, SkipBom(c));
    if ReadText(c, terminated, lib) == Done(j, at) {
      var e := ReadValue(c, v, 0, lib).end;
      ReadsIff(c, v, 0, j, e, lib);
      ValueStarts(c, v, j, e, lib);
      SkipIsWhite(c, SkipBom(c));
      if terminated { Terminates(c, e); }
    }
    if IsText(c, terminated, j, at, lib) && Height(j) <= 1000 {
      var v': nat, e: nat :| White(c, TextStart(c), v') && IsValue(c, v', j, e, lib) &&
        if terminated then e < |c| && White(c, e, |c|) && c[|c| - 1] == 0 && at == |c| - 1 else at == e;
      ValueStarts(c, v', j, e, lib);
      SkipTo(c, TextStart(c), v');
      ReadsIff(c, v', 0, j, e, lib);
      if terminated { SkipToEnd(c, e); }
    }
  }

  lemma Terminates(c: seq<byte>, e: nat)
    requires HasByte(c, SkipSpace(c, e), 0)
    ensures e < |c| && White(c, e, |c|) && c[|c| - 1] == 0 && SkipSpace(c, e) == |c| - 1
  {
    if e < |c| { SkipToEnd(c, e); }
  }

  // ---- Where errors are reported ----

  /** Nothing that starts a value stands at o. */
  predicate NoStart(c: seq<byte>, o: nat) {
    || o >= |c|
    || (!Word(c, o, o + 4, "null") && !Word(c, o, o + 5, "false") && !Word(c, o, o + 4, "true") &&
        c[o] as char !in "-0123456789\"[{")
  }

  /** The first quote behind o that no backslash escapes is missing. */
  predicate Unclosed(c: seq<byte>, o: nat) {
    forall q :: o < q < |c| && c[q] == '"' as int ==> SecondHalf(c, o + 1, q)
  }

  lemma {:induction false} UnclosedFrom(c: seq<byte>, o: nat, p: nat)
    requires o < p <= |c| && Unclosed(c, o) && !SecondHalf(c, o + 1, p)
    ensures ClosingQuote(c, p).None?
    decreases |c| - p
  {
    if p < |c| {
      if c[p] != BACKSLASH {
        UnclosedFrom(c, o, p + 1);
      } else if p + 1 < |c| {
        UnclosedFrom(c, o, p + 2);
      }
    }
  }

  /** An error is reported where no value starts, where a bracket or a brace stands too deep, behind the quote of a
      string that has no end, and, where the buffer ends behind a bracket or a brace, at its last octet. */
  lemma ErrorsAt(c: seq<byte>, o: nat, depth: nat, lib: Library)
    ensures NoStart(c, o) ==> ReadValue(c, o, depth, lib) == Failed(o)
    ensures o < |c| && c[o] as char in "[{" && depth >= 1000 ==> ReadValue(c, o, depth, lib) == Failed(o)
    ensures o < |c| && c[o] == '"' as int && Unclosed(c, o) ==> ReadValue(c, o, depth, lib) == Failed(o + 1)
    ensures o + 1 == |c| && c[o] as char in "[{" ==> ReadValue(c, o, depth, lib) == Failed(o)
  {
    hide ReadItems, ReadMembers, ReadNumber, ClosingQuote, Unescape;
    WordIs(c, o, [110, 117, 108, 108], "null");
    WordIs(c, o, [102, 97, 108, 115, 101], "false");
    WordIs(c, o, [116, 114, 117, 101], "true");
    if o < |c| {
      FirstOctets(c, o);
      if Unclosed(c, o) { UnclosedFrom(c, o, o + 1); }
    }
    hide Word, Has, Unclosed;
  }
}

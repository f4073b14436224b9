/** What is printed parses back, up to the nesting limit. */
module JsonTextRoundTrip {
  import opened CTypes
  import opened Json
  import opened Numerals
  import opened JsonPrint
  import opened JsonString
  import opened JsonParse

  // ---- Strings ----

  lemma HasPrefix(c: seq<byte>, o: nat, a: cstring, b: cstring)
    requires Has(c, o, a + b)
    ensures Has(c, o, a) && Has(c, o + |a|, b)
  {
    assert c[o..o + |a + b|][..|a|] == a;
    assert c[o..o + |a + b|][|a|..] == b;
    assert c[o..o + |a|] == c[o..o + |a + b|][..|a|];
    assert c[o + |a|..o + |a + b|] == c[o..o + |a + b|][|a|..];
  }

  lemma HasThree(c: seq<byte>, o: nat, a: cstring, b: cstring, d: cstring)
    requires Has(c, o, a + b + d)
    ensures Has(c, o, a) && Has(c, o + |a|, b) && Has(c, o + |a| + |b|, d)
  {
    hide Has;
    HasPrefix(c, o, a + b, d);
    HasPrefix(c, o, a, b);
  }

  lemma HasAt(c: seq<byte>, o: nat, text: cstring, k: nat)
    requires Has(c, o, text) && k < |text|
    ensures o + k < |c| && c[o + k] == text[k]
  {
    assert c[o..o + |text|][k] == text[k];
  }

  /** One escaped character as both passes see it. */
  lemma EscapedChar(c: seq<byte>, p: nat, ch: cchar, end: nat)
    requires Has(c, p, Escape(ch)) && p + |Escape(ch)| <= end < |c|
    ensures ClosingQuote(c, p) == ClosingQuote(c, p + |Escape(ch)|)
    ensures Unescape(c, p, end) == Prepend([ch], Unescape(c, p + |Escape(ch)|, end))
  {
    var e := Escape(ch);
    HasAt(c, p, e, 0);
    if |e| >= 2 { HasAt(c, p, e, 1); }
    if |e| == 6 {
      HasAt(c, p, e, 2);
      HasAt(c, p, e, 3);
      HasAt(c, p, e, 4);
      HasAt(c, p, e, 5);
      ControlEscape(c, p, ch, end);
      PlainSkip(c, p + 2, 4);
    }
  }

  lemma {:induction false} PlainSkip(c: seq<byte>, p: nat, k: nat)
    requires p + k <= |c| && forall i :: p <= i < p + k ==> c[i] != QUOTE && c[i] != BACKSLASH
    ensures ClosingQuote(c, p) == ClosingQuote(c, p + k)
    decreases k
  {
    if k > 0 { PlainSkip(c, p + 1, k - 1); }
  }

  /** \u00XX for a control character. */
  lemma ControlEscape(c: seq<byte>, p: nat, ch: cchar, end: nat)
    requires ch < 32 && p + 6 <= end < |c|
    requires c[p + 2] == 48 && c[p + 3] == 48 && c[p + 4] == HexDigit(ch / 16) && c[p + 5] == HexDigit(ch % 16)
    ensures Utf16Escape(c, p, end) == Some(([ch], 6))
  {
    var s := c[p + 2..p + 6];
    assert s[0] == 48 && s[1] == 48 && s[2] == HexDigit(ch / 16) && s[3] == HexDigit(ch % 16);
    assert IsHex(s[2]) && HexValue(s[2]) == ch / 16;
    assert IsHex(s[3]) && HexValue(s[3]) == ch % 16;
    assert Hex4(s) == ch;
  }

  lemma {:induction false} EscapedString(c: seq<byte>, p: nat, s: cstring, end: nat)
    requires Has(c, p, EscapeAll(s)) && end == p + |EscapeAll(s)| < |c| && c[end] == QUOTE
    ensures ClosingQuote(c, p) == Some(end)
    ensures Unescape(c, p, end) == Done(s, end)
    decreases |s|
  {
    hide Escape, EscapeAt, Has;
    if s != [] {
      assert EscapeAll(s) == Escape(s[0]) + EscapeAll(s[1..]);
      HasPrefix(c, p, Escape(s[0]), EscapeAll(s[1..]));
      EscapedChar(c, p, s[0], end);
      EscapedString(c, p + |Escape(s[0])|, s[1..], end);
      assert [s[0]] + s[1..] == s;
    }
  }

  lemma {:induction false} CStringWhole(s: cstring)
    ensures CString(s) == s
    decreases |s|
  {
    if s != [] {
      CStringWhole(s[1..]);
      assert [s[0]] + s[1..] == s;
    }
  }

  /** A printed string reads back. */
  lemma StringReads(c: seq<byte>, o: nat, s: cstring)
    requires Has(c, o, Quoted(s))
    ensures ReadString(c, o) == Done(s, o + |Quoted(s)|)
  {
    hide EscapeAll, Has, ClosingQuote, Unescape, CString;
    var q: cstring := [QUOTE];
    HasAt(c, o, Quoted(s), 0);
    HasAt(c, o, Quoted(s), |Quoted(s)| - 1);
    assert Quoted(s) == q + (EscapeAll(s) + q);
    HasPrefix(c, o, q, EscapeAll(s) + q);
    HasPrefix(c, o + 1, EscapeAll(s), q);
    EscapedString(c, o + 1, s, o + 1 + |EscapeAll(s)|);
    CStringWhole(s);
  }

  // ---- Numbers ----

  /** What is assumed of the C library: strtod reads the decimal text of an int as that number. */
  ghost predicate ReadsIntegers(lib: Library) {
    forall n: cint :: lib.strtod(IntText(n)) == (n, |IntText(n)|)
  }

  /** No number goes on at p. */
  predicate Ends(c: seq<byte>, p: nat) {
    p < |c| ==> !NumberChar(c[p])
  }

  predicate AllNumberChars(t: cstring) {
    forall i :: 0 <= i < |t| ==> NumberChar(t[i])
  }

  lemma {:induction false} NumberTextIs(c: seq<byte>, o: nat, t: cstring, room: nat)
    requires Has(c, o, t) && AllNumberChars(t) && |t| <= room && Ends(c, o + |t|)
    ensures NumberText(c, o, room) == t
    decreases |t|
  {
    if t != [] {
      HasAt(c, o, t, 0);
      assert t == [t[0]] + t[1..];
      HasPrefix(c, o, [t[0]], t[1..]);
      NumberTextIs(c, o + 1, t[1..], room - 1);
    }
  }

  function Power10(k: nat): nat {
    if k == 0 then 1 else 10 * Power10(k - 1)
  }

  lemma {:induction false} DecimalShape(n: nat, k: nat)
    requires k > 0 && n < Power10(k)
    ensures |Decimal(n)| <= k && AllNumberChars(Decimal(n)) && 48 <= Decimal(n)[0] <= 57
    decreases k
  {
    if n >= 10 { DecimalShape(n / 10, k - 1); }
  }

  lemma IntTextShape(n: cint)
    ensures 1 <= |IntText(n)| <= 11 && AllNumberChars(IntText(n)) &&
            (IntText(n)[0] == MINUS || 48 <= IntText(n)[0] <= 57)
  {
    hide Decimal;
    var value: int := n;
    assert Power10(10) == 10_000_000_000 by {
      assert Power10(4) == 10_000;
      assert Power10(8) == 100_000_000;
    }
    DecimalShape(if value < 0 then -value else value, 10);
  }

  lemma NumberReads(c: seq<byte>, o: nat, n: cint, lib: Library)
    requires Has(c, o, IntText(n)) && Ends(c, o + |IntText(n)|) && ReadsIntegers(lib)
    ensures ReadNumber(c, o, lib) == Done(Number(n), o + |IntText(n)|)
  {
    hide IntText, Has;
    IntTextShape(n);
    NumberTextIs(c, o, IntText(n), NUMBER_LIMIT);
    assert lib.strtod(IntText(n)) == (n, |IntText(n)|);
  }

  // ---- White space ----

  predicate Blank(c: seq<byte>, o: nat, p: nat) {
    o <= p < |c| && c[p] > 32 && forall i :: o <= i < p ==> c[i] <= 32
  }

  lemma {:induction false} SkipsBlank(c: seq<byte>, o: nat, p: nat)
    requires Blank(c, o, p)
    ensures SkipSpace(c, o) == p
    decreases p - o
  {
    SpaceEndsAt(c, o, p);
  }

  lemma {:induction false} SpaceEndsAt(c: seq<byte>, o: nat, p: nat)
    requires Blank(c, o, p)
    ensures SpaceEnd(c, o) == p
    decreases p - o
  {
    if o < p { SpaceEndsAt(c, o + 1, p); }
  }

  // ---- Depth ----

  /** How deeply arrays and objects are nested. */
  function Height(j: Json): nat
    decreases j, 0
  {
    match j
    case Array(items) => 1 + ItemsHeight(items)
    case Object(members) => 1 + MembersHeight(members)
    case _ => 0
  }

  function ItemsHeight(items: seq<Json>): nat
    decreases items, 1
  {
    if items == [] then 0 else Max(Height(items[0]), ItemsHeight(items[1..]))
  }

  function MembersHeight(members: seq<Member>): nat
    decreases members, 1
  {
    if members == [] then 0 else Max(Height(members[0].value), MembersHeight(members[1..]))
  }

  function Max(a: nat, b: nat): nat {
    if a < b then b else a
  }

  /** What parsing a printed value comes to: the value itself, unless it is nested too deeply. */
  ghost predicate Reads<T>(r: Parsed<T>, value: T, end: nat, depth: nat) {
    if depth <= NESTING_LIMIT then r == Done(value, end) else r.Failed?
  }

  lemma FirstByte(j: Json, indent: nat, format: bool)
    requires Proper(j)
    ensures var t := Render(j, indent, format);
            t != [] && t[0] > 32 && t[0] != 93 && t[0] != 0xEF && (j.Number? ==> t[0] == MINUS || 48 <= t[0] <= 57)
            && t[0] == (match j case Null => 110 case False => 102 case True => 116 case String(_) => QUOTE
                        case Array(_) => 91 case Object(_) => 123 case _ => t[0])
  {
    hide RenderItems, RenderMembers, EscapeAll, IntText;
    if j.Number? { IntTextShape(j.n); }
  }

  /** A printed value reads back, in any surroundings in which no number goes on behind it. */
  lemma {:induction false} ValueReads(c: seq<byte>, o: nat, j: Json, indent: nat, format: bool, depth: nat,
                                      lib: Library)
    requires Proper(j) && ReadsIntegers(lib) && Has(c, o, Render(j, indent, format))
    requires Ends(c, o + |Render(j, indent, format)|) && depth <= NESTING_LIMIT
    ensures Reads(ReadValue(c, o, depth, lib), j, o + |Render(j, indent, format)|, depth + Height(j))
    decreases j, 3
  {
    hide *;
    RenderKinds(j, indent, format);
    FirstByte(j, indent, format);
    HasAt(c, o, Render(j, indent, format), 0);
    ValueByFirst(c, o, depth, lib);
    match j {
      case String(s) =>
        StringReads(c, o, s);
        LeafReads(c, o, j, o + |Quoted(s)|, depth, lib);
      case Number(n) =>
        NumberReads(c, o, n, lib);
        LeafReads(c, o, j, o + |IntText(n)|, depth, lib);
      case Array(items) => ArrayReads(c, o, items, indent, format, depth, lib);
      case Object(members) => ObjectReads(c, o, members, indent, format, depth, lib);
      case Null => LeafReads(c, o, j, o + 4, depth, lib);
      case True => LeafReads(c, o, j, o + 4, depth, lib);
      case False => LeafReads(c, o, j, o + 5, depth, lib);
    }
  }

  lemma RenderKinds(j: Json, indent: nat, format: bool)
    requires Proper(j)
    ensures !j.Invalid?
    ensures j.Null? ==> Render(j, indent, format) == [110, 117, 108, 108]
    ensures j.False? ==> Render(j, indent, format) == [102, 97, 108, 115, 101]
    ensures j.True? ==> Render(j, indent, format) == [116, 114, 117, 101]
    ensures j.Number? ==> Render(j, indent, format) == IntText(j.n)
    ensures j.String? ==> Render(j, indent, format) == Quoted(j.s)
    ensures j.Array? ==>
              && Render(j, indent, format) == ArrayText(j.items, indent, format) && ItemsProper(j.items)
              && Height(j) == 1 + ItemsHeight(j.items)
    ensures j.Object? ==>
              && Render(j, indent, format) == ObjectText(j.members, indent, format) && MembersProper(j.members)
              && Height(j) == 1 + MembersHeight(j.members)
  {
    hide Quoted, IntText, ArrayText, ObjectText, ItemsHeight, MembersHeight;
  }

  lemma LeafReads(c: seq<byte>, o: nat, j: Json, end: nat, depth: nat, lib: Library)
    requires !j.Array? && !j.Object? && depth <= NESTING_LIMIT && ReadValue(c, o, depth, lib) == Done(j, end)
    ensures Reads(ReadValue(c, o, depth, lib), j, end, depth + Height(j))
  {
    hide ReadValue;
  }

  /** parse_value goes by the first octet. */
  lemma ValueByFirst(c: seq<byte>, o: nat, depth: nat, lib: Library)
    requires o < |c|
    ensures Has(c, o, [110, 117, 108, 108]) ==> ReadValue(c, o, depth, lib) == Done(Null, o + 4)
    ensures Has(c, o, [102, 97, 108, 115, 101]) ==> ReadValue(c, o, depth, lib) == Done(False, o + 5)
    ensures Has(c, o, [116, 114, 117, 101]) ==> ReadValue(c, o, depth, lib) == Done(True, o + 4)
    ensures c[o] == QUOTE ==>
              ReadValue(c, o, depth, lib) ==
              match ReadString(c, o) { case Done(s, end) => Done(String(s), end) case Failed(at) => Failed(at) }
    ensures c[o] == MINUS || 48 <= c[o] <= 57 ==> ReadValue(c, o, depth, lib) == ReadNumber(c, o, lib)
    ensures c[o] == 91 ==> ReadValue(c, o, depth, lib) == ReadArray(c, o, depth, lib)
    ensures c[o] == 123 ==> ReadValue(c, o, depth, lib) == ReadObject(c, o, depth, lib)
  {
    hide ReadString, ReadNumber, ReadArray, ReadObject, Has;
    if Has(c, o, [110, 117, 108, 108]) { HasAt(c, o, [110, 117, 108, 108], 0); }
    if Has(c, o, [102, 97, 108, 115, 101]) { HasAt(c, o, [102, 97, 108, 115, 101], 0); }
    if Has(c, o, [116, 114, 117, 101]) { HasAt(c, o, [116, 114, 117, 101], 0); }
  }

  lemma {:induction false} ArrayReads(c: seq<byte>, o: nat, items: seq<Json>, indent: nat, format: bool, depth: nat,
                                      lib: Library)
    requires ItemsProper(items) && ReadsIntegers(lib) && depth <= NESTING_LIMIT &&
             Has(c, o, ArrayText(items, indent, format))
    ensures o < |c|
    ensures Reads(ReadArray(c, o, depth, lib), Array(items), o + |ArrayText(items, indent, format)|,
                  depth + 1 + ItemsHeight(items))
    decreases items, 2
  {
    hide *;
    var text := RenderItems(items, indent + 1, format);
    ArrayParts(c, o, items, indent, format);
    ByteInside(c, o, 91);
    if items == [] {
      BracketBlank(c, o + 1);
    } else {
      ItemsFirst(c, o + 1, items, indent + 1, format);
      BlankHere(c, o + 1);
      if depth < NESTING_LIMIT {
        ItemsRead(c, o + 1, o + 1, items, indent + 1, format, depth + 1, lib);
      }
    }
    ArrayCombine(c, o, items, o + 1 + |text|, depth, lib);
  }

  lemma BlankHere(c: seq<byte>, o: nat)
    requires o < |c| && c[o] > 32
    ensures Blank(c, o, o) && SkipSpace(c, o) == o && (c[o] != 93 ==> !HasByte(c, o, 93))
  {}

  lemma BracketBlank(c: seq<byte>, o: nat)
    requires HasByte(c, o, 93)
    ensures SkipSpace(c, o) == o && o < |c|
  {}

  /** parse_array on an array that ends at f. */
  lemma ArrayCombine(c: seq<byte>, o: nat, items: seq<Json>, f: nat, depth: nat, lib: Library)
    requires o + 1 < |c| && depth <= NESTING_LIMIT && SkipSpace(c, o + 1) == o + 1
    requires if items == [] then f == o + 1 && HasByte(c, f, 93)
             else !HasByte(c, o + 1, 93) &&
                  (depth < NESTING_LIMIT ==>
                     Reads(ReadItems(c, o + 1, depth + 1, lib), items, f + 1, depth + 1 + ItemsHeight(items)))
    ensures Reads(ReadArray(c, o, depth, lib), Array(items), f + 1, depth + 1 + ItemsHeight(items))
  {
    NoHeight();
    hide ReadItems, SkipSpace, ItemsHeight;
  }

  lemma NoHeight()
    ensures ItemsHeight([]) == 0 && MembersHeight([]) == 0
  {}

  lemma ArrayParts(c: seq<byte>, o: nat, items: seq<Json>, indent: nat, format: bool)
    requires Has(c, o, ArrayText(items, indent, format))
    ensures var text := RenderItems(items, indent + 1, format);
            && |ArrayText(items, indent, format)| == |text| + 2 && Has(c, o + 1, text)
            && HasByte(c, o, 91) && HasByte(c, o + 1 + |text|, 93) && (items == [] ==> text == [])
  {
    var text := RenderItems(items, indent + 1, format);
    assert [91] + text + [93] == [91] + (text + [93]);
    hide Has;
    HasPrefix(c, o, [91], text + [93]);
    HasPrefix(c, o + 1, text, [93]);
    HasAt(c, o, [91], 0);
    HasAt(c, o + 1 + |text|, [93], 0);
  }

  lemma NoItems(indent: nat, format: bool)
    ensures RenderItems([], indent, format) == [] && RenderMembers([], indent, format) == []
  {}

  lemma ItemsFirst(c: seq<byte>, p: nat, items: seq<Json>, indent: nat, format: bool)
    requires items != [] && ItemsProper(items) && Has(c, p, RenderItems(items, indent, format))
    ensures p < |c| && c[p] > 32 && c[p] != 93
  {
    hide Render, Has, ItemEnd, Proper;
    var t, v := RenderItems(items, indent, format), Render(items[0], indent, format);
    assert Proper(items[0]);
    hide RenderItems;
    ItemsStart(items, indent, format);
    FirstByte(items[0], indent, format);
    assert t[0] == v[0];
    HasAt(c, p, t, 0);
  }

  lemma ItemsStart(items: seq<Json>, indent: nat, format: bool)
    requires items != []
    ensures Render(items[0], indent, format) <= RenderItems(items, indent, format)
  {
    hide Render, ItemEnd;
  }

  lemma {:induction false} ElementReads(c: seq<byte>, o: nat, p: nat, j: Json, indent: nat, format: bool, depth: nat,
                                        lib: Library)
    requires Proper(j) && ReadsIntegers(lib) && depth <= NESTING_LIMIT
    requires Blank(c, o, p) && Has(c, p, Render(j, indent, format))
    requires var q := p + |Render(j, indent, format)|; HasByte(c, q, COMMA) || HasByte(c, q, 93)
    ensures Reads(ReadElement(c, o, depth, lib), j, p + |Render(j, indent, format)|, depth + Height(j))
    decreases j, 4
  {
    hide Render, Has, ReadValue, Height, SkipSpace;
    var q := p + |Render(j, indent, format)|;
    SkipsBlank(c, o, p);
    SkipsBlank(c, q, q);
    ValueReads(c, p, j, indent, format, depth, lib);
  }

  lemma ItemsParts(c: seq<byte>, p: nat, items: seq<Json>, indent: nat, format: bool)
    requires items != [] && Has(c, p, RenderItems(items, indent, format))
    ensures var v, e := Render(items[0], indent, format), ItemEnd(|items| > 1, format);
            var rest := RenderItems(items[1..], indent, format);
            && Has(c, p, v) && Has(c, p + |v|, e) && Has(c, p + |v| + |e|, rest)
            && |RenderItems(items, indent, format)| == |v| + |e| + |rest|
            && (|items| == 1 ==> e == rest == [])
  {
    hide Render, Has, ItemEnd;
    HasThree(c, p, Render(items[0], indent, format), ItemEnd(|items| > 1, format),
             RenderItems(items[1..], indent, format));
    assert |items| == 1 ==> items[1..] == [];
  }

  lemma ItemsSeparated(c: seq<byte>, q: nat, format: bool, items: seq<Json>, indent: nat)
    requires Has(c, q, ItemEnd(true, format)) && items != [] && ItemsProper(items)
    requires Has(c, q + |ItemEnd(true, format)|, RenderItems(items, indent, format))
    ensures HasByte(c, q, COMMA) && Blank(c, q + 1, q + |ItemEnd(true, format)|)
  {
    var e := ItemEnd(true, format);
    hide Has, RenderItems;
    HasAt(c, q, e, 0);
    if format { HasAt(c, q, e, 1); }
    ItemsFirst(c, q + |e|, items, indent, format);
  }

  lemma ItemsCombine(c: seq<byte>, o: nat, q: nat, item: Json, rest: seq<Json>, end: nat, depth: nat, h0: nat, h1: nat,
                     lib: Library)
    requires Reads(ReadElement(c, o, depth, lib), item, q, depth + h0) && HasByte(c, q, COMMA)
    requires Reads(ReadItems(c, q + 1, depth, lib), rest, end, depth + h1)
    ensures Reads(ReadItems(c, o, depth, lib), [item] + rest, end, depth + Max(h0, h1))
  {
    hide ReadElement;
  }

  lemma ItemsLast(c: seq<byte>, o: nat, q: nat, item: Json, depth: nat, h: nat, lib: Library)
    requires Reads(ReadElement(c, o, depth, lib), item, q, depth + h) && HasByte(c, q, 93)
    ensures Reads(ReadItems(c, o, depth, lib), [item], q + 1, depth + h)
  {
    hide ReadElement;
  }

  lemma {:induction false} ItemsRead(c: seq<byte>, o: nat, p: nat, items: seq<Json>, indent: nat, format: bool,
                                     depth: nat, lib: Library)
    requires items != [] && ItemsProper(items) && ReadsIntegers(lib) && depth <= NESTING_LIMIT
    requires Blank(c, o, p) && Has(c, p, RenderItems(items, indent, format))
    requires HasByte(c, p + |RenderItems(items, indent, format)|, 93)
    ensures Reads(ReadItems(c, o, depth, lib), items, p + |RenderItems(items, indent, format)| + 1,
                  depth + ItemsHeight(items))
    decreases items, 1
  {
    hide Proper, ReadsIntegers, HasByte, Render, Has, ReadElement, ReadItems, RenderItems, Height, ItemsHeight, Blank;
    hide Reads;
    var item, rest := items[0], items[1..];
    var q := p + |Render(item, indent, format)|;
    ItemsParts(c, p, items, indent, format);
    ItemsHeightCons(items);
    ElementFollowed(c, q, items, indent, format);
    ElementReads(c, o, p, item, indent, format, depth, lib);
    if |items| > 1 {
      ItemsSeparated(c, q, format, rest, indent);
      ItemsRead(c, q + 1, q + |ItemEnd(true, format)|, rest, indent, format, depth, lib);
      ItemsCombine(c, o, q, item, rest, p + |RenderItems(items, indent, format)| + 1, depth,
                   Height(item), ItemsHeight(rest), lib);
    } else {
      ItemsLast(c, o, q, item, depth, Height(item), lib);
    }
  }

  lemma ItemsHeightCons(items: seq<Json>)
    requires items != []
    ensures items == [items[0]] + items[1..]
    ensures ItemsHeight(items) == if |items| > 1
            then Max(Height(items[0]), ItemsHeight(items[1..])) else Height(items[0])
    ensures |items| == 1 ==> items == [items[0]]
  {}

  /** A comma or the closing bracket stands behind the first element. */
  lemma ElementFollowed(c: seq<byte>, q: nat, items: seq<Json>, indent: nat, format: bool)
    requires items != [] && (|items| == 1 ==> HasByte(c, q, 93)) && Has(c, q, ItemEnd(|items| > 1, format))
    ensures HasByte(c, q, 93) || HasByte(c, q, COMMA)
  {
    if |items| > 1 { HasAt(c, q, ItemEnd(true, format), 0); }
  }

  // ---- Objects ----

  predicate Spaces(c: seq<byte>, o: nat, p: nat) {
    o <= p <= |c| && forall i :: o <= i < p ==> c[i] <= 32
  }

  lemma SpacesThenBlank(c: seq<byte>, o: nat, p: nat, f: nat)
    requires Spaces(c, o, p) && Blank(c, p, f)
    ensures Blank(c, o, f)
  {}

  lemma HasSpaces(c: seq<byte>, p: nat, t: cstring)
    requires Has(c, p, t) && forall i :: 0 <= i < |t| ==> t[i] <= 32
    ensures Spaces(c, p, p + |t|)
  {
    forall i | p <= i < p + |t|
      ensures c[i] <= 32
    {
      HasAt(c, p, t, i - p);
    }
  }

  /** The indentation of a member, if any. */
  function Indent(indent: nat, format: bool): cstring {
    if format then Tabs(indent) else []
  }

  function Colon(format: bool): (r: cstring)
    ensures |r| >= 1 && r[0] == COLON
  {
    if format then [COLON, 9] else [COLON]
  }

  /** A printed name reads back, and the value stands behind the colon. */
  lemma NameReads(c: seq<byte>, o: nat, p: nat, name: cstring, indent: nat, format: bool)
    requires Spaces(c, o, p) && Has(c, p, MemberStart(name, indent, format))
    requires var v := p + |MemberStart(name, indent, format)|; v < |c| && c[v] > 32
    ensures var k := p + |Indent(indent, format)| + |Quoted(name)|;
            && ReadString(c, SkipSpace(c, o)) == Done(name, k)
            && HasByte(c, k, COLON) && Blank(c, k + 1, p + |MemberStart(name, indent, format)|)
  {
    hide *;
    var a, b, d := Indent(indent, format), Quoted(name), Colon(format);
    MemberStartParts(name, indent, format);
    HasThree(c, p, a, b, d);
    IndentSpaces(c, p, indent, format);
    QuotedFirst(c, p + |a|, name);
    ColonBlank(c, p + |a| + |b|, format);
    SpacesThenBlank(c, o, p, p + |a|);
    SkipsBlank(c, o, p + |a|);
    StringReads(c, p + |a|, name);
  }

  lemma MemberStartParts(name: cstring, indent: nat, format: bool)
    ensures MemberStart(name, indent, format) == Indent(indent, format) + Quoted(name) + Colon(format)
  {}

  lemma IndentSpaces(c: seq<byte>, p: nat, indent: nat, format: bool)
    requires Has(c, p, Indent(indent, format))
    ensures Spaces(c, p, p + |Indent(indent, format)|)
  {
    HasSpaces(c, p, Indent(indent, format));
  }

  lemma QuotedFirst(c: seq<byte>, p: nat, name: cstring)
    requires Has(c, p, Quoted(name))
    ensures HasByte(c, p, QUOTE) && Blank(c, p, p)
  {
    HasAt(c, p, Quoted(name), 0);
  }

  lemma ColonBlank(c: seq<byte>, k: nat, format: bool)
    requires Has(c, k, Colon(format)) && k + |Colon(format)| < |c| && c[k + |Colon(format)|] > 32
    ensures HasByte(c, k, COLON) && Blank(c, k + 1, k + |Colon(format)|)
  {
    HasAt(c, k, Colon(format), 0);
    if format { HasAt(c, k, Colon(format), 1); }
  }

  lemma {:induction false} MemberReads(c: seq<byte>, o: nat, p: nat, m: Member, indent: nat, format: bool, depth: nat,
                                       lib: Library, f: nat)
    requires Proper(m.value) && ReadsIntegers(lib) && depth <= NESTING_LIMIT
    requires Spaces(c, o, p) && Has(c, p, RenderMember(m, indent, format))
    requires Blank(c, p + |RenderMember(m, indent, format)|, f) && (HasByte(c, f, COMMA) || HasByte(c, f, 125))
    ensures Reads(ReadMember(c, o, depth, lib), m, f, depth + Height(m.value))
    decreases m, 4
  {
    hide *;
    var v := p + |MemberStart(m.name, indent, format)|;
    var q := p + |RenderMember(m, indent, format)|;
    MemberParts(c, p, m, indent, format);
    NameReads(c, o, p, m.name, indent, format);
    var k := p + |Indent(indent, format)| + |Quoted(m.name)|;
    ColonAlone(c, k);
    SkipsBlank(c, k, k);
    SkipsBlank(c, k + 1, v);
    SkipsBlank(c, q, f);
    BlankEnds(c, q, f);
    ValueReads(c, v, m.value, indent, format, depth, lib);
    MemberCombine(c, o, k, v, q, f, m, depth, Height(m.value), lib);
  }

  lemma MemberParts(c: seq<byte>, p: nat, m: Member, indent: nat, format: bool)
    requires Proper(m.value) && Has(c, p, RenderMember(m, indent, format))
    ensures var v := p + |MemberStart(m.name, indent, format)|;
            && Has(c, p, MemberStart(m.name, indent, format)) && Has(c, v, Render(m.value, indent, format))
            && |RenderMember(m, indent, format)| ==
            |MemberStart(m.name, indent, format)| + |Render(m.value, indent, format)|
            && v < |c| && c[v] > 32
  {
    hide Has, MemberStart, Render, Proper;
    HasPrefix(c, p, MemberStart(m.name, indent, format), Render(m.value, indent, format));
    FirstByte(m.value, indent, format);
    HasAt(c, p + |MemberStart(m.name, indent, format)|, Render(m.value, indent, format), 0);
  }

  lemma ColonAlone(c: seq<byte>, k: nat)
    requires HasByte(c, k, COLON)
    ensures Blank(c, k, k)
  {}

  lemma BlankEnds(c: seq<byte>, q: nat, f: nat)
    requires Blank(c, q, f) && (HasByte(c, f, COMMA) || HasByte(c, f, 125))
    ensures Ends(c, q)
  {}

  lemma MemberCombine(c: seq<byte>, o: nat, k: nat, v: nat, q: nat, f: nat, m: Member, depth: nat, h: nat, lib: Library)
    requires ReadString(c, SkipSpace(c, o)) == Done(m.name, k) && SkipSpace(c, k) == k && HasByte(c, k, COLON)
    requires SkipSpace(c, k + 1) == v && Reads(ReadValue(c, v, depth, lib), m.value, q, depth + h) &&
             SkipSpace(c, q) == f
    ensures Reads(ReadMember(c, o, depth, lib), m, f, depth + h)
  {
    hide ReadString, ReadValue, SkipSpace;
  }

  lemma MembersParts(c: seq<byte>, p: nat, members: seq<Member>, indent: nat, format: bool)
    requires members != [] && Has(c, p, RenderMembers(members, indent, format))
    ensures var v, e := RenderMember(members[0], indent, format), MemberEnd(|members| > 1, format);
            var rest := RenderMembers(members[1..], indent, format);
            && Has(c, p, v) && Has(c, p + |v|, e) && Has(c, p + |v| + |e|, rest)
            && |RenderMembers(members, indent, format)| == |v| + |e| + |rest|
            && (|members| == 1 ==> rest == [])
  {
    hide RenderMember, Has, MemberEnd;
    HasThree(c, p, RenderMember(members[0], indent, format), MemberEnd(|members| > 1, format),
             RenderMembers(members[1..], indent, format));
    assert |members| == 1 ==> members[1..] == [];
  }

  lemma MembersHeightCons(members: seq<Member>)
    requires members != []
    ensures members == [members[0]] + members[1..]
    ensures MembersHeight(members) == if |members| > 1
            then Max(Height(members[0].value), MembersHeight(members[1..])) else Height(members[0].value)
    ensures |members| == 1 ==> members == [members[0]]
  {}

  /** What stands behind a member that is not the last. */
  lemma MembersSeparated(c: seq<byte>, q: nat, format: bool)
    requires Has(c, q, MemberEnd(true, format))
    ensures HasByte(c, q, COMMA) && Blank(c, q, q) && Spaces(c, q + 1, q + |MemberEnd(true, format)|)
  {
    var e := MemberEnd(true, format);
    hide Has;
    HasAt(c, q, e, 0);
    if format { HasAt(c, q, e, 1); }
  }

  /** What stands behind the last member. */
  lemma MembersClosed(c: seq<byte>, q: nat, format: bool, f: nat)
    requires Has(c, q, MemberEnd(false, format)) && Blank(c, q + |MemberEnd(false, format)|, f)
    ensures Blank(c, q, f)
  {
    HasSpaces(c, q, MemberEnd(false, format));
    SpacesThenBlank(c, q, q + |MemberEnd(false, format)|, f);
  }

  lemma MembersCombine(c: seq<byte>, o: nat, q: nat, m: Member, rest: seq<Member>, end: nat, depth: nat, h0: nat,
                       h1: nat, lib: Library)
    requires Reads(ReadMember(c, o, depth, lib), m, q, depth + h0) && HasByte(c, q, COMMA)
    requires Reads(ReadMembers(c, q + 1, depth, lib), rest, end, depth + h1)
    ensures Reads(ReadMembers(c, o, depth, lib), [m] + rest, end, depth + Max(h0, h1))
  {
    hide ReadMember;
  }

  lemma MembersLast(c: seq<byte>, o: nat, q: nat, m: Member, depth: nat, h: nat, lib: Library)
    requires Reads(ReadMember(c, o, depth, lib), m, q, depth + h) && HasByte(c, q, 125)
    ensures Reads(ReadMembers(c, o, depth, lib), [m], q + 1, depth + h)
  {
    hide ReadMember;
  }

  lemma {:induction false} MembersRead(c: seq<byte>, o: nat, p: nat, members: seq<Member>, indent: nat, format: bool,
                                       depth: nat, lib: Library, f: nat)
    requires members != [] && MembersProper(members) && ReadsIntegers(lib) && depth <= NESTING_LIMIT
    requires Spaces(c, o, p) && Has(c, p, RenderMembers(members, indent, format))
    requires Blank(c, p + |RenderMembers(members, indent, format)|, f) && HasByte(c, f, 125)
    ensures Reads(ReadMembers(c, o, depth, lib), members, f + 1, depth + MembersHeight(members))
    decreases members, 1
  {
    hide Proper, ReadsIntegers, HasByte, RenderMember, Has, ReadMember, ReadMembers, RenderMembers, Height;
    hide MembersHeight, Blank, Spaces, Reads;
    var m, rest := members[0], members[1..];
    var q := p + |RenderMember(m, indent, format)|;
    MembersParts(c, p, members, indent, format);
    MembersHeightCons(members);
    if |members| > 1 {
      MembersSeparated(c, q, format);
      MemberReads(c, o, p, m, indent, format, depth, lib, q);
      MembersRead(c, q + 1, q + |MemberEnd(true, format)|, rest, indent, format, depth, lib, f);
      MembersCombine(c, o, q, m, rest, f + 1, depth, Height(m.value), MembersHeight(rest), lib);
    } else {
      MembersClosed(c, q, format, f);
      MemberReads(c, o, p, m, indent, format, depth, lib, f);
      MembersLast(c, o, f, m, depth, Height(m.value), lib);
    }
  }

  lemma ObjectStartBytes(c: seq<byte>, o: nat, format: bool)
    requires Has(c, o, ObjectStart(format))
    ensures HasByte(c, o, 123) && Spaces(c, o + 1, o + |ObjectStart(format)|)
  {
    HasAt(c, o, ObjectStart(format), 0);
    if format { HasAt(c, o, ObjectStart(format), 1); }
  }

  lemma ObjectEndBytes(c: seq<byte>, q: nat, indent: nat, format: bool)
    requires Has(c, q, ObjectEnd(indent, format))
    ensures var f := q + |Indent(indent, format)|;
            |ObjectEnd(indent, format)| == |Indent(indent, format)| + 1 && HasByte(c, f, 125) && Blank(c, q, f)
  {
    var a := Indent(indent, format);
    assert ObjectEnd(indent, format) == a + [125];
    hide Has;
    HasPrefix(c, q, a, [125]);
    HasSpaces(c, q, a);
    HasAt(c, q + |a|, [125], 0);
  }

  lemma ObjectParts(c: seq<byte>, o: nat, members: seq<Member>, indent: nat, format: bool)
    requires Has(c, o, ObjectText(members, indent, format))
    ensures var start, end := ObjectStart(format), ObjectEnd(indent, format);
            var text := RenderMembers(members, indent + 1, format);
            && Has(c, o, start) && Has(c, o + |start|, text) && Has(c, o + |start| + |text|, end)
            && |ObjectText(members, indent, format)| == |start| + |text| + |end| && (members == [] ==> text == [])
  {
    hide Has, ObjectStart, ObjectEnd, RenderMembers;
    HasThree(c, o, ObjectStart(format), RenderMembers(members, indent + 1, format), ObjectEnd(indent, format));
    NoItems(indent + 1, format);
  }

  lemma SameStart(c: seq<byte>, o: nat, o': nat, depth: nat, lib: Library)
    requires SkipSpace(c, o) == SkipSpace(c, o')
    ensures ReadMembers(c, o, depth, lib) == ReadMembers(c, o', depth, lib)
  {
    hide SkipSpace, ReadValue, ReadString;
  }

  /** parse_object on an object that ends at f. */
  lemma ObjectCombine(c: seq<byte>, o: nat, members: seq<Member>, f: nat, depth: nat, lib: Library)
    requires o < |c| && depth <= NESTING_LIMIT && SkipSpace(c, o + 1) < |c|
    requires if members == [] then SkipSpace(c, o + 1) == f && HasByte(c, f, 125)
             else !HasByte(c, SkipSpace(c, o + 1), 125) &&
                  (depth < NESTING_LIMIT ==>
                     Reads(ReadMembers(c, SkipSpace(c, o + 1), depth + 1, lib), members, f + 1,
                           depth + 1 + MembersHeight(members)))
    ensures Reads(ReadObject(c, o, depth, lib), Object(members), f + 1, depth + 1 + MembersHeight(members))
  {
    NoHeight();
    hide ReadMembers, SkipSpace, MembersHeight;
  }

  lemma {:induction false} ObjectReads(c: seq<byte>, o: nat, members: seq<Member>, indent: nat, format: bool,
                                       depth: nat, lib: Library)
    requires MembersProper(members) && ReadsIntegers(lib) && depth <= NESTING_LIMIT &&
             Has(c, o, ObjectText(members, indent, format))
    ensures o < |c|
    ensures Reads(ReadObject(c, o, depth, lib), Object(members), o + |ObjectText(members, indent, format)|,
                  depth + 1 + MembersHeight(members))
    decreases members, 2
  {
    hide *;
    var p := o + |ObjectStart(format)|;
    var q := p + |RenderMembers(members, indent + 1, format)|;
    var f := q + |Indent(indent, format)|;
    ObjectParts(c, o, members, indent, format);
    ObjectStartBytes(c, o, format);
    ObjectEndBytes(c, q, indent, format);
    ByteInside(c, o, 123);
    ByteInside(c, f, 125);
    if members == [] {
      SpacesThenBlank(c, o + 1, p, f);
      SkipsBlank(c, o + 1, f);
    } else {
      var first := SkipSpace(c, o + 1);
      MembersFirst(c, o + 1, p, members, indent + 1, format);
      ByteInside(c, first, QUOTE);
      if depth < NESTING_LIMIT {
        MembersRead(c, o + 1, p, members, indent + 1, format, depth + 1, lib, f);
        SameStart(c, o + 1, first, depth + 1, lib);
      }
    }
    ObjectCombine(c, o, members, f, depth, lib);
  }

  lemma ByteInside(c: seq<byte>, o: nat, b: byte)
    requires HasByte(c, o, b)
    ensures o < |c| && (b == QUOTE ==> !HasByte(c, o, 125))
  {}

  /** The first name is what white space is skipped to. */
  lemma MembersFirst(c: seq<byte>, o: nat, p: nat, members: seq<Member>, indent: nat, format: bool)
    requires members != [] && MembersProper(members) && Spaces(c, o, p) &&
             Has(c, p, RenderMembers(members, indent, format))
    ensures var first := SkipSpace(c, o); HasByte(c, first, QUOTE) && SkipSpace(c, first) == first
  {
    var m := members[0];
    assert Proper(m.value);
    hide *;
    MembersParts(c, p, members, indent, format);
    MemberParts(c, p, m, indent, format);
    MemberStartParts(m.name, indent, format);
    HasThree(c, p, Indent(indent, format), Quoted(m.name), Colon(format));
    IndentSpaces(c, p, indent, format);
    QuotedFirst(c, p + |Indent(indent, format)|, m.name);
    SpacesThenBlank(c, o, p, p + |Indent(indent, format)|);
    SpacesJoin(c, o, p, p + |Indent(indent, format)|);
    SkipsBlank(c, p + |Indent(indent, format)|, p + |Indent(indent, format)|);
  }

  lemma SpacesJoin(c: seq<byte>, o: nat, p: nat, q: nat)
    requires Spaces(c, o, p) && Spaces(c, p, q) && Blank(c, q, q)
    ensures SkipSpace(c, o) == q
  {
    SkipsBlank(c, o, q);
  }

  // ---- Whole texts ----

  /** Parsing a printed value gives it back, with the end of the text, exactly when it is nested at
      most NESTING_LIMIT deep: with and without a terminator, required or not. */
  lemma PrintParse(j: Json, format: bool, terminated: bool, lib: Library)
    requires Proper(j) && ReadsIntegers(lib)
    ensures var text := Render(j, 0, format);
            var r := ReadText(Terminated(text), terminated, lib);
            if Height(j) <= NESTING_LIMIT then r == Done(j, |text|) else r.Failed?
  {
    hide *;
    var text := Render(j, 0, format);
    var c := Terminated(text);
    FirstByte(j, 0, format);
    TerminatedText(text);
    ValueReads(c, 0, j, 0, format, 0, lib);
    LastStays(text);
    TextReads(c, terminated, lib);
    ReadsTop(ReadValue(c, 0, 0, lib), j, |text|, Height(j));
  }

  lemma TerminatedText(text: cstring)
    requires text != [] && text[0] > 32 && text[0] != 0xEF
    ensures var c := Terminated(text);
            && Has(c, 0, text) && SkipBom(c) == 0 && SkipSpace(c, 0) == 0 && Ends(c, |text|) && HasByte(c, |text|, 0)
    ensures Has(text, 0, text) && SkipBom(text) == 0 && SkipSpace(text, 0) == 0 && Ends(text, |text|)
  {
    SkipsBlank(Terminated(text), 0, 0);
    SkipsBlank(text, 0, 0);
  }

  /** The parser at the start of a buffer without a byte order mark and white space. */
  lemma TextReads(c: seq<byte>, terminated: bool, lib: Library)
    requires SkipBom(c) == 0 && SkipSpace(c, 0) == 0
    ensures var r := ReadValue(c, 0, 0, lib);
            match r
            case Failed(_) => ReadText(c, terminated, lib).Failed?
            case Done(j, end) =>
              (!terminated || (SkipSpace(c, end) == end && HasByte(c, end, 0)) ==> ReadText(c, terminated, lib) == r)
  {
    hide ReadValue, SkipSpace, SkipBom;
  }

  lemma ReadsTop(r: Parsed<Json>, j: Json, end: nat, height: nat)
    requires Reads(r, j, end, 0 + height)
    ensures if height <= NESTING_LIMIT then r == Done(j, end) else r.Failed?
  {}

  /** White space that runs into the end of the buffer leaves the offset on the last octet. */
  lemma LastStays(text: cstring)
    ensures SkipSpace(Terminated(text), |text|) == |text|
  {
    var c := Terminated(text);
    assert SpaceEnd(c, |text| + 1) == |text| + 1;
  }

  /** The same without the terminator in the buffer, as cJSON_ParseWithLength is called. */
  lemma PrintParseExact(j: Json, format: bool, lib: Library)
    requires Proper(j) && ReadsIntegers(lib)
    ensures var text := Render(j, 0, format);
            var r := ReadText(text, false, lib);
            if Height(j) <= NESTING_LIMIT then r == Done(j, |text|) else r.Failed?
  {
    hide *;
    var text := Render(j, 0, format);
    FirstByte(j, 0, format);
    TerminatedText(text);
    ValueReads(text, 0, j, 0, format, 0, lib);
    TextReads(text, false, lib);
    ReadsTop(ReadValue(text, 0, 0, lib), j, |text|, Height(j));
  }

  /** cJSON_Print or cJSON_PrintUnformatted, then cJSON_ParseWithOpts on the printed buffer. */
  method PrintThenParse(j: Json, format: bool, lib: Library) returns (back: Option<Json>)
    requires Proper(j) && ReadsIntegers(lib) && |Render(j, 0, format)| + 2 <= INT_MAX
    ensures back == if Height(j) <= NESTING_LIMIT then Some(j) else None
  {
    hide Render, Proper, Height, ReadText;
    PrintParse(j, format, true, lib);
    var printed := Print(j, format);
    assert printed != null;
    var item, end := ParseWithLength(printed[..], true, lib);
    back := item;
  }
}

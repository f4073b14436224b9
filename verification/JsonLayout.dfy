/** The characters of a printed text, and where it breaks into lines. */
module JsonLayout {
  import opened CTypes
  import opened Json
  import opened Numerals
  import opened JsonPrint

  /** A text holds no control characters; a formatted one may hold tabs and line ends. */
  predicate Clean(text: cstring, format: bool) {
    forall c <- text :: c >= ' ' as int || (format && (c == '\t' as int || c == '\n' as int))
  }

  lemma CleanJoin(a: cstring, b: cstring, format: bool)
    requires Clean(a, format) && Clean(b, format)
    ensures Clean(a + b, format)
  {}

  lemma {:induction false} DecimalClean(n: nat, format: bool)
    ensures Clean(Decimal(n), format)
    decreases n
  {
    if n >= 10 { DecimalClean(n / 10, format); }
  }

  lemma {:induction false} EscapedClean(s: cstring, format: bool)
    ensures Clean(EscapeAll(s), format)
    decreases |s|
  {
    if s != [] {
      EscapedClean(s[1..], format);
      EscapeClean(s[0], format);
      hide Clean, Escape;
      CleanJoin(Escape(s[0]), EscapeAll(s[1..]), format);
    }
  }

  lemma EscapeClean(c: cchar, format: bool)
    ensures Clean(Escape(c), format)
  {}

  lemma QuotedClean(s: cstring, format: bool)
    ensures Clean(Quoted(s), format)
  {
    EscapedClean(s, format);
    hide EscapeAll;
  }

  /** Control characters are escaped wherever they stand, and only formatting brings tabs and line ends. */
  lemma {:induction false} RenderClean(j: Json, depth: nat, format: bool)
    ensures Clean(Render(j, depth, format), format)
    decreases j, 1
  {
    hide RenderItems, RenderMembers, EscapeAll, Decimal;
    match j {
      case Number(n) =>
        var value: int := n;
        DecimalClean(if value < 0 then -value else value, format);
      case String(s) => QuotedClean(s, format);
      case Array(items) => ItemsClean(items, depth + 1, format);
      case Object(members) => MembersClean(members, depth + 1, format);
      case _ =>
    }
  }

  lemma {:induction false} ItemsClean(items: seq<Json>, depth: nat, format: bool)
    ensures Clean(RenderItems(items, depth, format), format)
    decreases items, 2
  {
    if items != [] {
      RenderClean(items[0], depth, format);
      ItemsClean(items[1..], depth, format);
      var value, end := Render(items[0], depth, format), ItemEnd(|items| > 1, format);
      assert Clean(end, format);
      hide Render, ItemEnd, Clean;
      CleanJoin(value, end, format);
      CleanJoin(value + end, RenderItems(items[1..], depth, format), format);
    }
  }

  lemma {:induction false} MembersClean(members: seq<Member>, depth: nat, format: bool)
    ensures Clean(RenderMembers(members, depth, format), format)
    decreases members, 2
  {
    if members != [] {
      var m := members[0];
      RenderClean(m.value, depth, format);
      MembersClean(members[1..], depth, format);
      var start, value, end := MemberStart(m.name, depth, format), Render(m.value, depth, format),
                               MemberEnd(|members| > 1, format);
      assert Clean(start, format) by { QuotedClean(m.name, format); hide EscapeAll, Quoted; }
      assert Clean(end, format);
      hide Render, MemberStart, MemberEnd, Clean;
      CleanJoin(start, value, format);
      CleanJoin(start + value, end, format);
      CleanJoin(start + value + end, RenderMembers(members[1..], depth, format), format);
    }
  }

  /** The text of an integer: its digits, behind a minus sign exactly when it is negative. */
  lemma IntegerText(n: int)
    requires -0x8000_0000 <= n < 0x8000_0000
    ensures n >= 0 ==> IntText(n) == Decimal(n)
    ensures n < 0 ==> Spelled(IntText(n)[..1], "-") && IntText(n)[1..] == Decimal(-n)
  {
    hide Decimal;
    if n < 0 { assert IntText(n) == [MINUS] + Decimal(-n); }
  }

  /** Lines of a formatted object: as many tabs as it is deep, a name, a colon and a tab, and the value. */
  lemma MemberLine(name: cstring, depth: nat)
    ensures var start := MemberStart(name, depth, true);
            && |start| == depth + |Quoted(name)| + 2
            && (forall k :: 0 <= k < depth ==> start[k] == '\t' as int)
            && start[depth..|start| - 2] == Quoted(name) && Spelled(start[|start| - 2..], ":\t")
    ensures MemberStart(name, depth, false)[..|Quoted(name)|] == Quoted(name)
    ensures Spelled(MemberStart(name, depth, false)[|Quoted(name)|..], ":")
  {
    hide Quoted;
  }

  /** What stands between members and elements, and around members. */
  lemma Separators(depth: nat)
    ensures Spelled(MemberEnd(true, true), ",\n") && Spelled(MemberEnd(false, true), "\n")
    ensures Spelled(MemberEnd(true, false), ",") && Spelled(MemberEnd(false, false), "")
    ensures Spelled(ItemEnd(true, true), ", ") && Spelled(ItemEnd(true, false), ",") && ItemEnd(false, true) == []
    ensures Spelled(ObjectStart(true), "{\n") && Spelled(ObjectStart(false), "{")
    ensures Spelled(ObjectEnd(depth, true)[depth..], "}") && Spelled(ObjectEnd(depth, false), "}")
    ensures forall k :: 0 <= k < depth ==> ObjectEnd(depth, true)[k] == '\t' as int
  {}
}

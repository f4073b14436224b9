/**
  Printing JSON: the text of a value, and the growing buffer it is printed into.
  
  `Render` says what is printed. The methods of `PrintBuffer` are the functions of the code; each is
  proved to add exactly the rendered text behind what has been printed, and to fail exactly when
  the buffer cannot hold it or the tree holds an invalid node.
*/
module JsonPrint {
  import opened CTypes
  import opened Json
  import opened Numerals

  const QUOTE: cchar := 34
  const COMMA: cchar := 44
  const COLON: cchar := 58
  const BACKSLASH: cchar := 92

  const MINUS: cchar := 45

  const INT_MAX: int := 0x7FFF_FFFF

  // ---- The text of a value ----

  /** One character of a string, escaped where RFC 8259 section 7 asks for it. */
  function Escape(c: cchar): (r: cstring)
    ensures |r| >= 1
  {
    if c == 34 || c == 92 then [BACKSLASH, c]
    else if c == 8 then [BACKSLASH, 98]
    else if c == 9 then [BACKSLASH, 116]
    else if c == 10 then [BACKSLASH, 110]
    else if c == 12 then [BACKSLASH, 102]
    else if c == 13 then [BACKSLASH, 114]
    else if c < 32 then [BACKSLASH, 117, 48, 48, HexDigit(c / 16), HexDigit(c % 16)]
    else [c]
  }

  function EscapeAll(s: cstring): cstring {
    if s == [] then [] else Escape(s[0]) + EscapeAll(s[1..])
  }

  function Quoted(s: cstring): cstring {
    [QUOTE] + EscapeAll(s) + [QUOTE]
  }

  /** sprintf("%d"). */
  function IntText(n: cint): cstring {
    var value: int := n;
    if value < 0 then [MINUS] + Decimal(-value) else Decimal(value)
  }

  function Tabs(n: nat): (r: cstring)
    ensures |r| == n
  {
    seq(n, _ => 9)
  }

  /** The text of a value at some nesting depth. */
  function Render(j: Json, depth: nat, format: bool): cstring
    decreases j, 0
  {
    match j
    case Invalid => []
    case Null => [110, 117, 108, 108]
    case False => [102, 97, 108, 115, 101]
    case True => [116, 114, 117, 101]
    case Number(n) => IntText(n)
    case String(s) => Quoted(s)
    case Array(items) => ArrayText(items, depth, format)
    case Object(members) => ObjectText(members, depth, format)
  }

  function ArrayText(items: seq<Json>, depth: nat, format: bool): cstring
    decreases items, 2
  {
    [91] + RenderItems(items, depth + 1, format) + [93]
  }

  function ObjectText(members: seq<Member>, depth: nat, format: bool): cstring
    decreases members, 2
  {
    ObjectStart(format) + RenderMembers(members, depth + 1, format) + ObjectEnd(depth, format)
  }

  function RenderItems(items: seq<Json>, depth: nat, format: bool): cstring
    decreases items, 1
  {
    if items == [] then []
    else Render(items[0], depth, format) + ItemEnd(|items| > 1, format) + RenderItems(items[1..], depth, format)
  }

  function ItemEnd(more: bool, format: bool): (r: cstring)
    ensures |r| == if !more then 0 else if format then 2 else 1
  {
    if !more then [] else if format then [COMMA, 32] else [COMMA]
  }

  function RenderMembers(members: seq<Member>, depth: nat, format: bool): cstring
    decreases members, 1
  {
    if members == [] then []
    else RenderMember(members[0], depth, format) + MemberEnd(|members| > 1, format) +
         RenderMembers(members[1..], depth, format)
  }

  function RenderMember(m: Member, depth: nat, format: bool): cstring
    decreases m, 1
  {
    MemberStart(m.name, depth, format) + Render(m.value, depth, format)
  }

  function MemberStart(name: cstring, depth: nat, format: bool): cstring {
    (if format then Tabs(depth) else []) + Quoted(name) + (if format then [COLON, 9] else [COLON])
  }

  function ObjectStart(format: bool): (r: cstring)
    ensures |r| == if format then 2 else 1
  {
    if format then [123, 10] else [123]
  }

  function ObjectEnd(depth: nat, format: bool): cstring {
    (if format then Tabs(depth) else []) + [125]
  }

  function MemberEnd(more: bool, format: bool): (r: cstring)
    ensures |r| == (if more then 1 else 0) + (if format then 1 else 0)
  {
    (if more then [COMMA] else []) + (if format then [10] else [])
  }

  lemma {:induction false} EscapeAllSnoc(s: cstring, c: cchar)
    ensures EscapeAll(s + [c]) == EscapeAll(s) + Escape(c)
    decreases |s|
  {
    hide Escape;
    if s != [] {
      assert (s + [c])[1..] == s[1..] + [c];
      EscapeAllSnoc(s[1..], c);
    } else {
      assert ([c])[1..] == [];
      assert EscapeAll([c]) == Escape(c) + EscapeAll([]);
    }
  }

  lemma {:induction false} EscapeAllAppend(s: cstring, t: cstring)
    ensures EscapeAll(s + t) == EscapeAll(s) + EscapeAll(t)
    decreases |s|
  {
    hide Escape;
    if s == [] {
      assert s + t == t;
    } else {
      assert (s + t)[1..] == s[1..] + t;
      EscapeAllAppend(s[1..], t);
    }
  }

  function Terminated(text: cstring): (r: seq<byte>)
    ensures |r| == |text| + 1
  {
    var octets: seq<byte> := text;
    octets + [0]
  }

  /** How many octets escaping adds. */
  function Extra(s: cstring): nat {
    if s == [] then 0 else |Escape(s[0])| - 1 + Extra(s[1..])
  }

  lemma {:induction false} ExtraCounts(s: cstring)
    ensures |EscapeAll(s)| == |s| + Extra(s)
    ensures Extra(s) == 0 ==> EscapeAll(s) == s
    decreases |s|
  {
    hide Escape;
    if s != [] {
      ExtraCounts(s[1..]);
      if |Escape(s[0])| == 1 { PlainEscape(s[0]); }
    }
  }

  lemma PlainEscape(c: cchar)
    requires |Escape(c)| == 1
    ensures Escape(c) == [c]
  {}

  // ---- The growing buffer ----

  class PrintBuffer {
    var buffer: array<byte>
    var offset: nat
    var depth: nat
    const noalloc: bool
    const format: bool
    /** How large the buffer can get. */
    ghost const capacity: int

    constructor (buffer: array<byte>, noalloc: bool, format: bool)
      requires buffer.Length <= INT_MAX
      ensures this.buffer == buffer && offset == 0 && depth == 0 && this.noalloc == noalloc && this.format == format
      ensures capacity == (if noalloc then buffer.Length else INT_MAX) && Valid()
    {
      this.capacity := if noalloc then buffer.Length else INT_MAX;
      this.buffer := buffer;
      offset, depth := 0, 0;
      this.noalloc := noalloc;
      this.format := format;
    }

    ghost predicate Valid()
      reads `buffer, `offset
    {
      && buffer.Length <= capacity <= INT_MAX && (offset < buffer.Length || offset == 0)
      && if noalloc then capacity == buffer.Length else capacity == INT_MAX
    }

    /** What has been printed so far. */
    ghost function Text(): seq<byte>
      reads `buffer, `offset, buffer
      requires Valid()
    {
      buffer[..offset]
    }

    /** After `before`, the terminated text stands in the buffer; `offset` may lag behind its end. */
    ghost predicate Printed(before: seq<byte>, text: cstring)
      reads `buffer, `offset, buffer
    {
      && Valid()
      && |before| + |text| < buffer.Length
      && buffer[..|before| + |text|] == before + text
      && buffer[|before| + |text|] == 0
      && |before| <= offset <= |before| + |text|
    }

    /** Behind `before`, `done` has been printed. */
    ghost predicate At(before: seq<byte>, done: cstring)
      reads `buffer, `offset, buffer
    {
      Valid() && Text() == before + done
    }

    /** ensure: room for `needed` octets and one more behind the offset. */
    method Ensure(needed: nat) returns (ok: bool)
      requires Valid()
      modifies `buffer
      ensures Valid() && (buffer == old(buffer) || (fresh(buffer) && !noalloc))
      ensures ok <==> offset + needed + 1 <= capacity
      ensures ok ==> offset + needed + 1 <= buffer.Length
      ensures Text() == old(Text())
    {
      if buffer.Length > 0 && offset >= buffer.Length {
        return false;
      }
      if needed > INT_MAX {
        return false;
      }
      var total := needed + offset + 1;
      if total <= buffer.Length {
        return true;
      }
      if noalloc {
        return false;
      }
      var newsize := total * 2;
      if total > INT_MAX / 2 {
        if total <= INT_MAX {
          newsize := INT_MAX;
        } else {
          return false;
        }
      }
      var newbuffer := new byte[newsize];
      forall i | 0 <= i < buffer.Length {
        newbuffer[i] := buffer[i];
      }
      buffer := newbuffer;
      ok := true;
    }

    /** Writes octets at the offset, which stays where it is. */
    method Write(text: seq<byte>)
      requires Valid() && offset + |text| <= buffer.Length
      modifies buffer
      ensures Text() == old(Text())
      ensures buffer[..offset + |text|] == Text() + text
      ensures forall k :: offset + |text| <= k < buffer.Length ==> buffer[k] == old(buffer[k])
    {
      var i := 0;
      while i < |text|
        invariant 0 <= i <= |text|
        invariant buffer[..offset] == old(buffer[..offset])
        invariant forall k :: 0 <= k < i ==> buffer[offset + k] == text[k]
        invariant forall k :: offset + |text| <= k < buffer.Length ==> buffer[k] == old(buffer[k])
      {
        buffer[offset + i] := text[i];
        i := i + 1;
      }
    }

    /** update_offset: strlen finds the end of the text just printed. */
    method UpdateOffset(ghost before: seq<byte>, ghost done: cstring, ghost text: cstring)
      requires Printed(before + done, text)
      modifies `offset
      ensures At(before, done + text) && offset < buffer.Length && buffer[offset] == 0
    {
      var length := 0;
      ghost var end, printed := |before| + |done| + |text|, before + done + text;
      assert printed == before + (done + text);
      while buffer[offset + length] != 0
        invariant offset + length <= end
        decreases end - offset - length
      {
        assert offset + length < end ==> buffer[..end][offset + length] == printed[offset + length];
        length := length + 1;
      }
      offset := offset + length;
    }

    /** Reserves room and writes a terminated text, as strcpy does. */
    method PrintWord(text: cstring) returns (ok: bool)
      requires Valid()
      modifies this, buffer
      ensures buffer == old(buffer) || fresh(buffer)
      ensures offset == old(offset) && depth == old(depth) && (noalloc ==> buffer == old(buffer))
      ensures ok <==> old(offset) + |text| + 2 <= capacity
      ensures ok ==> Printed(old(Text()), text)
    {
      ok := Ensure(|text| + 1);
      if ok {
        Write(Terminated(text));
      }
    }

    /** print_string_ptr: count what escaping adds, reserve exactly that, then write. */
    method PrintString(s: cstring) returns (ok: bool)
      requires Valid()
      modifies this, buffer
      ensures buffer == old(buffer) || fresh(buffer)
      ensures depth == old(depth) && (noalloc ==> buffer == old(buffer))
      ensures ok <==> old(offset) + |Quoted(s)| + 2 <= capacity
      ensures ok ==> Printed(old(Text()), Quoted(s))
    {
      var escapes := CountEscapes(s);
      ExtraCounts(s);
      var length := |s| + escapes;
      hide EscapeAll, Extra, Printed;
      ok := Ensure(length + 3);
      if !ok {
        return;
      }
      if escapes == 0 {
        WritePlain(s);
      } else {
        WriteEscaped(s, length);
      }
    }

    /** A string without escapes is copied as a whole. */
    method WritePlain(s: cstring)
      requires Valid() && EscapeAll(s) == s && offset + |s| + 3 <= buffer.Length
      modifies buffer
      ensures Printed(old(Text()), Quoted(s))
    {
      hide EscapeAll;
      assert [QUOTE] + s + [QUOTE] == Quoted(s);
      Write(Terminated(Quoted(s)));
    }

    /** Its writing pass. */
    method WriteEscaped(s: cstring, length: nat)
      requires Valid() && length == |EscapeAll(s)| && offset + length + 3 <= buffer.Length
      modifies buffer
      ensures Printed(old(Text()), Quoted(s))
    {
      hide EscapeAll;
      ghost var before := Text();
      buffer[offset] := QUOTE;
      WriteEscapes(s, offset + 1);
      buffer[offset + length + 1] := QUOTE;
      buffer[offset + length + 2] := 0;
      assert buffer[..offset + length + 2] == before + ([QUOTE] + EscapeAll(s)) + [QUOTE];
    }

    /** Its loop. */
    method WriteEscapes(s: cstring, start: nat)
      requires start + |EscapeAll(s)| < buffer.Length
      modifies buffer
      ensures buffer[..start + |EscapeAll(s)|] == old(buffer[..start]) + EscapeAll(s)
    {
      hide Escape, EscapeAll;
      var i, at := 0, start;
      EscapeAllPrefix(s, 0);
      while i < |s|
        invariant 0 <= i <= |s|
        invariant at == start + |EscapeAll(s[..i])| <= buffer.Length
        invariant buffer[..at] == old(buffer[..start]) + EscapeAll(s[..i])
      {
        EscapeAllPrefix(s, i);
        at := WriteEscape(at, s[i]);
        i := i + 1;
      }
      assert s[..i] == s;
    }

    method WriteEscape(start: nat, c: cchar) returns (at: nat)
      requires start + |Escape(c)| < buffer.Length
      modifies buffer
      ensures at == start + |Escape(c)| && buffer[..at] == old(buffer[..start]) + Escape(c)
    {
      at := start;
      if c > 31 && c != 34 && c != 92 {
        buffer[at] := c;
      } else {
        buffer[at] := BACKSLASH;
        at := at + 1;
        match c {
          case 92 => buffer[at] := 92;
          case 34 => buffer[at] := 34;
          case 8 => buffer[at] := 98;
          case 12 => buffer[at] := 102;
          case 10 => buffer[at] := 110;
          case 13 => buffer[at] := 114;
          case 9 => buffer[at] := 116;
          case _ => at := WriteHex(at, c);
        }
      }
      at := at + 1;
    }

    /** The repeated step of the printer: reserve, write, advance. */
    method Append(text: cstring, needed: nat, terminated: bool, ghost before: seq<byte>, ghost done: cstring)
      returns (ok: bool)
      requires At(before, done) && |text| + (if terminated then 1 else 0) <= needed + 1 && |text| <= needed
      modifies this, buffer
      ensures buffer == old(buffer) || fresh(buffer)
      ensures depth == old(depth) && (noalloc ==> buffer == old(buffer))
      ensures ok <==> |before| + |done| + needed + 1 <= capacity
      ensures ok ==> At(before, done + text)
    {
      ok := Ensure(needed);
      if !ok {
        return;
      }
      Write(if terminated then Terminated(text) else text);
      assert buffer[..offset + |text|] == Text() + text;
      assert before + done + text == before + (done + text);
      offset := offset + |text|;
    }

    /** print_value. */
    method PrintValue(j: Json) returns (ok: bool)
      requires Valid()
      modifies this, buffer
      ensures buffer == old(buffer) || fresh(buffer)
      ensures noalloc ==> buffer == old(buffer)
      ensures ok <==> Proper(j) && old(offset) + |Render(j, old(depth), format)| + 2 <= capacity
      ensures ok ==> depth == old(depth) && Printed(old(Text()), Render(j, old(depth), format))
      decreases j, 1
    {
      hide Printed;
      match j {
        case Invalid => ok := false;
        case Null => ok := PrintWord([110, 117, 108, 108]);
        case False => ok := PrintWord([102, 97, 108, 115, 101]);
        case True => ok := PrintWord([116, 114, 117, 101]);
        case Number(n) => ok := PrintNumber(n);
        case String(s) => ok := PrintString(s);
        case Array(items) => ok := PrintArray(items);
        case Object(members) => ok := PrintObject(members);
      }
    }

    /** Prints a value and moves the offset behind it. */
    method PrintAndAdvance(j: Json, ghost before: seq<byte>, ghost done: cstring) returns (ok: bool)
      requires At(before, done)
      modifies this, buffer
      ensures buffer == old(buffer) || fresh(buffer)
      ensures noalloc ==> buffer == old(buffer)
      ensures ok <==> Proper(j) && |before| + |done| + |Render(j, old(depth), format)| + 2 <= capacity
      ensures ok ==> depth == old(depth) && At(before, done + Render(j, old(depth), format))
      decreases j, 2
    {
      ghost var text := Render(j, depth, format);
      AtText(before, done);
      hide Render, Proper, At, Printed, Text, Valid;
      ok := PrintValue(j);
      if ok {
        UpdateOffset(before, done, text);
      }
    }

    /** Ends an array or object, behind what it holds. */
    method PrintEnd(text: cstring, ghost before: seq<byte>, ghost done: cstring) returns (ok: bool)
      requires At(before, done)
      modifies this, buffer
      ensures buffer == old(buffer) || fresh(buffer)
      ensures depth == old(depth) && (noalloc ==> buffer == old(buffer))
      ensures ok <==> |before| + |done| + |text| + 2 <= capacity
      ensures ok ==> Printed(before, done + text)
    {
      AtText(before, done);
      hide At, Printed, Text, Valid;
      ok := PrintWord(text);
      if ok { PrintedJoin(before, done, text); }
    }

    /** print_number. */
    method PrintNumber(n: cint) returns (ok: bool)
      requires Valid()
      modifies this, buffer
      ensures buffer == old(buffer) || fresh(buffer)
      ensures depth == old(depth) && (noalloc ==> buffer == old(buffer))
      ensures ok <==> old(offset) + |IntText(n)| + 2 <= capacity
      ensures ok ==> Printed(old(Text()), IntText(n))
    {
      hide IntText;
      var text := IntText(n);
      ok := PrintWord(text);
      if ok {
        offset := offset + |text|;
      }
    }

    lemma AtText(before: seq<byte>, done: cstring)
      requires At(before, done)
      ensures Valid() && Text() == before + done && offset == |before| + |done|
    {}

    /** One element of print_array. */
    method PrintItem(j: Json, more: bool, ghost before: seq<byte>, ghost done: cstring) returns (ok: bool)
      requires At(before, done)
      modifies this, buffer
      ensures buffer == old(buffer) || fresh(buffer)
      ensures noalloc ==> buffer == old(buffer)
      ensures var text := Render(j, old(depth), format) + ItemEnd(more, format);
              && (ok <==> Proper(j) && |before| + |done| + |text| + 2 <= capacity)
              && (ok ==> depth == old(depth) && At(before, done + text))
      decreases j, 3
    {
      ghost var text := Render(j, depth, format);
      hide Render, Proper, At, Printed, Text, Valid;
      ok := PrintAndAdvance(j, before, done);
      if !ok {
        return;
      }
      assert text + [] == text;
      if more {
        var length := if format then 2 else 1;
        ok := Append(if format then [COMMA, 32] else [COMMA], length + 1, true, before, done + text);
        assert done + text + ItemEnd(more, format) == done + (text + ItemEnd(more, format));
      }
    }

    /** The loop of print_array. */
    method PrintItems(items: seq<Json>, ghost before: seq<byte>, ghost done: cstring) returns (ok: bool)
      requires At(before, done)
      modifies this, buffer
      ensures buffer == old(buffer) || fresh(buffer)
      ensures noalloc ==> buffer == old(buffer)
      ensures var text := done + RenderItems(items, old(depth), format);
              && (ok ==> ItemsProper(items) && depth == old(depth) && At(before, text))
              && (!ok ==> !ItemsProper(items) || |before| + |text| + 2 > capacity)
      decreases items, 4
    {
      hide At, Render, Proper, Text, Valid;
      var i := 0;
      ghost var sofar, whole := done, done + RenderItems(items, depth, format);
      ok := true;
      assert items[0..] == items;
      while i < |items|
        invariant 0 <= i <= |items| && ok
        invariant buffer == old(buffer) || fresh(buffer)
        invariant noalloc ==> buffer == old(buffer)
        invariant depth == old(depth) && At(before, sofar)
        invariant sofar + RenderItems(items[i..], depth, format) == whole
        invariant forall k :: 0 <= k < i ==> Proper(items[k])
      {
        ghost var text := Render(items[i], depth, format) + ItemEnd(i + 1 < |items|, format);
        RenderItemsStep(items, i, depth, format);
        hide RenderItems, ItemEnd;
        ok := PrintItem(items[i], i + 1 < |items|, before, sofar);
        if !ok {
          return;
        }
        sofar := sofar + text;
        i := i + 1;
      }
      assert RenderItems(items[i..], depth, format) == [] && sofar + [] == sofar;
    }

    lemma PrintedJoin(before: seq<byte>, done: cstring, text: cstring)
      requires Printed(before + done, text)
      ensures Printed(before, done + text)
    {
      assert before + done + text == before + (done + text);
    }

    /** print_array. */
    method PrintArray(items: seq<Json>) returns (ok: bool)
      requires Valid()
      modifies this, buffer
      ensures buffer == old(buffer) || fresh(buffer)
      ensures noalloc ==> buffer == old(buffer)
      ensures ok <==> ItemsProper(items) && old(offset) + |ArrayText(items, old(depth), format)| + 2 <= capacity
      ensures ok ==> depth == old(depth) && Printed(old(Text()), ArrayText(items, old(depth), format))
      decreases items, 6
    {
      ghost var before := Text();
      assert At(before, []) && [] + [91] == [91];
      AtText(before, []);
      hide ArrayText, At, Printed, Text, Valid, ItemsProper;
      ok := Append([91], 1, false, before, []);
      ArrayTextSize(items, depth, format);
      if ok {
        depth := depth + 1;
        ok := PrintItemsAndEnd(items, before);
      }
    }

    /** What print_array prints behind the opening bracket. */
    method PrintItemsAndEnd(items: seq<Json>, ghost before: seq<byte>) returns (ok: bool)
      requires depth > 0 && At(before, [91])
      modifies this, buffer
      ensures buffer == old(buffer) || fresh(buffer)
      ensures noalloc ==> buffer == old(buffer)
      ensures ok <==> ItemsProper(items) && |before| + |ArrayText(items, old(depth) - 1, format)| + 2 <= capacity
      ensures ok ==> depth == old(depth) - 1 && Printed(before, ArrayText(items, old(depth) - 1, format))
      decreases items, 5
    {
      ghost var text := [91] + RenderItems(items, depth, format);
      assert ArrayText(items, depth - 1, format) == text + [93];
      hide RenderItems, At, Printed, Text, Valid, ItemsProper, ArrayText;
      ok := PrintItems(items, before, [91]);
      if ok {
        ok := PrintEnd([93], before, text);
        depth := depth - 1;
      }
    }

    /** One member of print_object up to its value. */
    method PrintName(name: cstring, ghost before: seq<byte>, ghost done: cstring) returns (ok: bool)
      requires At(before, done)
      modifies this, buffer
      ensures buffer == old(buffer) || fresh(buffer)
      ensures depth == old(depth) && (noalloc ==> buffer == old(buffer))
      ensures ok ==> At(before, done + MemberStart(name, depth, format))
      ensures !ok ==> |before| + |done| + |MemberStart(name, depth, format)| + 1 > capacity
    {
      hide At, Printed, Text, Valid, Quoted;
      var indent: cstring := if format then Tabs(depth) else [];
      ok := true;
      if format {
        ok := Append(Tabs(depth), depth, false, before, done);
        if !ok {
          return;
        }
      }
      assert done + [] == done;
      AtText(before, done + indent);
      ok := PrintString(name);
      if !ok {
        return;
      }
      UpdateOffset(before, done + indent, Quoted(name));
      var length := if format then 2 else 1;
      ok := Append(if format then [COLON, 9] else [COLON], length, false, before, done + indent + Quoted(name));
      assert done + indent + Quoted(name) + (if format then [COLON, 9] else [COLON]) ==
             done + MemberStart(name, depth, format);
    }

    /** One member of print_object. */
    method PrintMember(m: Member, more: bool, ghost before: seq<byte>, ghost done: cstring) returns (ok: bool)
      requires At(before, done)
      modifies this, buffer
      ensures buffer == old(buffer) || fresh(buffer)
      ensures noalloc ==> buffer == old(buffer)
      ensures var text := RenderMember(m, old(depth), format) + MemberEnd(more, format);
              && (ok <==> Proper(m.value) && |before| + |done| + |text| + 2 <= capacity)
              && (ok ==> depth == old(depth) && At(before, done + text))
      decreases m, 4
    {
      ghost var start := MemberStart(m.name, depth, format);
      ghost var rest := Render(m.value, depth, format) + MemberEnd(more, format);
      assert RenderMember(m, depth, format) + MemberEnd(more, format) == start + rest;
      assert done + start + rest == done + (start + rest);
      hide At, Printed, Text, Valid, Render, MemberStart, MemberEnd, RenderMember, Proper;
      ok := PrintName(m.name, before, done);
      if ok {
        ok := PrintMemberValue(m.value, more, before, done + start);
      }
    }

    /** The value of a member, and the comma and the line end behind it. */
    method PrintMemberValue(j: Json, more: bool, ghost before: seq<byte>, ghost done: cstring) returns (ok: bool)
      requires At(before, done)
      modifies this, buffer
      ensures buffer == old(buffer) || fresh(buffer)
      ensures noalloc ==> buffer == old(buffer)
      ensures var text := Render(j, old(depth), format) + MemberEnd(more, format);
              && (ok <==> Proper(j) && |before| + |done| + |text| + 2 <= capacity)
              && (ok ==> depth == old(depth) && At(before, done + text))
      decreases j, 3
    {
      ghost var text, end := Render(j, depth, format), MemberEnd(more, format);
      assert done + text + end == done + (text + end);
      hide At, Printed, Text, Valid, Render, MemberEnd, Proper;
      ok := PrintAndAdvance(j, before, done);
      if ok {
        var length := (if format then 1 else 0) + (if more then 1 else 0);
        ok := Append(MemberEnd(more, format), length + 1, true, before, done + text);
      }
    }

    /** The loop of print_object. */
    method PrintMembers(members: seq<Member>, ghost before: seq<byte>, ghost done: cstring) returns (ok: bool)
      requires At(before, done)
      modifies this, buffer
      ensures buffer == old(buffer) || fresh(buffer)
      ensures noalloc ==> buffer == old(buffer)
      ensures var text := done + RenderMembers(members, old(depth), format);
              && (ok ==> MembersProper(members) && depth == old(depth) && At(before, text))
              && (!ok ==> !MembersProper(members) || |before| + |text| + 2 > capacity)
      decreases members, 4
    {
      hide At, RenderMember, Proper, Text, Valid;
      var i := 0;
      ghost var sofar, whole := done, done + RenderMembers(members, depth, format);
      ok := true;
      assert members[0..] == members;
      while i < |members|
        invariant 0 <= i <= |members| && ok
        invariant buffer == old(buffer) || fresh(buffer)
        invariant noalloc ==> buffer == old(buffer)
        invariant depth == old(depth) && At(before, sofar)
        invariant sofar + RenderMembers(members[i..], depth, format) == whole
        invariant forall k :: 0 <= k < i ==> Proper(members[k].value)
      {
        ghost var text := RenderMember(members[i], depth, format) + MemberEnd(i + 1 < |members|, format);
        RenderMembersStep(members, i, depth, format);
        hide RenderMembers, MemberEnd;
        ok := PrintMember(members[i], i + 1 < |members|, before, sofar);
        if !ok {
          return;
        }
        sofar := sofar + text;
        i := i + 1;
      }
      assert RenderMembers(members[i..], depth, format) == [] && sofar + [] == sofar;
    }

    /** print_object. */
    method PrintObject(members: seq<Member>) returns (ok: bool)
      requires Valid()
      modifies this, buffer
      ensures buffer == old(buffer) || fresh(buffer)
      ensures noalloc ==> buffer == old(buffer)
      ensures ok <==> MembersProper(members) && old(offset) + |ObjectText(members, old(depth), format)| + 2 <= capacity
      ensures ok ==> depth == old(depth) && Printed(old(Text()), ObjectText(members, old(depth), format))
      decreases members, 7
    {
      ghost var before := Text();
      assert At(before, []) && [] + ObjectStart(format) == ObjectStart(format);
      AtText(before, []);
      hide ObjectText, At, Printed, Text, Valid, MembersProper, ObjectStart;
      var length := if format then 2 else 1;
      ok := Append(ObjectStart(format), length + 1, false, before, []);
      ObjectTextSize(members, depth, format);
      if ok {
        depth := depth + 1;
        ok := PrintMembersAndEnd(members, before);
      }
    }

    /** What print_object prints behind the opening brace. */
    method PrintMembersAndEnd(members: seq<Member>, ghost before: seq<byte>) returns (ok: bool)
      requires depth > 0 && At(before, ObjectStart(format))
      modifies this, buffer
      ensures buffer == old(buffer) || fresh(buffer)
      ensures noalloc ==> buffer == old(buffer)
      ensures ok <==> MembersProper(members) && |before| + |ObjectText(members, old(depth) - 1, format)| + 2 <= capacity
      ensures ok ==> depth == old(depth) - 1 && Printed(before, ObjectText(members, old(depth) - 1, format))
      decreases members, 6
    {
      ghost var inside := ObjectStart(format) + RenderMembers(members, depth, format);
      var end := ObjectEnd(depth - 1, format);
      assert ObjectText(members, depth - 1, format) == inside + end;
      hide RenderMembers, At, Printed, Text, Valid, MembersProper, ObjectStart, ObjectEnd, ObjectText;
      ok := PrintMembers(members, before, ObjectStart(format));
      if ok {
        ok := PrintEnd(end, before, inside);
        depth := depth - 1;
      }
    }

    /** sprintf("u%04x"), terminator included. */
    method WriteHex(start: nat, c: cchar) returns (at: nat)
      requires start + 6 <= buffer.Length && c < 32
      modifies buffer
      ensures at == start + 4
      ensures buffer[..start + 5] == old(buffer[..start]) + [117, 48, 48, HexDigit(c / 16), HexDigit(c % 16)]
    {
      buffer[start], buffer[start + 1], buffer[start + 2] := 117, 48, 48;
      buffer[start + 3], buffer[start + 4], buffer[start + 5] := HexDigit(c / 16), HexDigit(c % 16), 0;
      at := start + 4;
    }
  }

  predicate ItemsProper(items: seq<Json>) {
    forall i :: 0 <= i < |items| ==> Proper(items[i])
  }

  lemma ArrayTextSize(items: seq<Json>, depth: nat, format: bool)
    ensures |ArrayText(items, depth, format)| >= 2
  {}

  lemma ObjectTextSize(members: seq<Member>, depth: nat, format: bool)
    ensures |ObjectText(members, depth, format)| >= |ObjectStart(format)| + 1
  {}

  predicate MembersProper(members: seq<Member>) {
    forall i :: 0 <= i < |members| ==> Proper(members[i].value)
  }

  lemma RenderMembersStep(members: seq<Member>, i: nat, depth: nat, format: bool)
    requires i < |members|
    ensures RenderMembers(members[i..], depth, format) ==
            (RenderMember(members[i], depth, format) + MemberEnd(i + 1 < |members|, format))
            + RenderMembers(members[i + 1..], depth, format)
  {
    hide RenderMember;
    assert members[i..][1..] == members[i + 1..];
  }

  lemma RenderItemsStep(items: seq<Json>, i: nat, depth: nat, format: bool)
    requires i < |items|
    ensures RenderItems(items[i..], depth, format) ==
            (Render(items[i], depth, format) + ItemEnd(i + 1 < |items|, format)) +
            RenderItems(items[i + 1..], depth, format)
  {
    hide Render;
    assert items[i..][1..] == items[i + 1..];
  }

  /** The counting pass of print_string_ptr. */
  method CountEscapes(s: cstring) returns (escapes: nat)
    ensures escapes == Extra(s)
  {
    escapes := 0;
    var i := 0;
    assert s[0..] == s;
    while i < |s|
      invariant 0 <= i <= |s| && escapes + Extra(s[i..]) == Extra(s)
    {
      assert s[i..][1..] == s[i + 1..];
      if s[i] in [34, 92, 8, 12, 10, 13, 9] {
        escapes := escapes + 1;
      } else if s[i] < 32 {
        escapes := escapes + 5;
      }
      i := i + 1;
    }
  }

  lemma EscapeAllPrefix(s: cstring, i: nat)
    requires i <= |s|
    ensures |EscapeAll(s[..i])| <= |EscapeAll(s)| && EscapeAll(s[..0]) == []
    ensures i < |s| ==>
              && EscapeAll(s[..i + 1]) == EscapeAll(s[..i]) + Escape(s[i])
              && |EscapeAll(s[..i])| + |Escape(s[i])| <= |EscapeAll(s)|
  {
    hide Escape;
    assert s == s[..i] + s[i..];
    EscapeAllAppend(s[..i], s[i..]);
    if i < |s| {
      assert s[..i + 1] == s[..i] + [s[i]];
      EscapeAllSnoc(s[..i], s[i]);
      assert s == s[..i + 1] + s[i + 1..];
      EscapeAllAppend(s[..i + 1], s[i + 1..]);
    }
  }

  // ---- The entry points ----

  predicate HoldsText(octets: seq<byte>, text: cstring) {
    |text| < |octets| && octets[..|text|] == text && octets[|text|] == 0
  }

  /** cJSON_PrintPreallocated; the buffer has `length` octets. The text, its terminator and one
      octet more have to fit. */
  method PrintPreallocated(j: Json, buffer: array?<byte>, length: cint, format: bool) returns (ok: bool)
    requires buffer != null && length >= 0 ==> length == buffer.Length
    modifies buffer
    ensures ok <==> buffer != null && length >= 0 && Proper(j) && length >= |Render(j, 0, format)| + 2
    ensures ok ==> HoldsText(buffer[..], Render(j, 0, format))
  {
    hide Render, Proper;
    if length < 0 || buffer == null {
      return false;
    }
    var p := new PrintBuffer(buffer, true, format);
    ok := p.PrintValue(j);
  }

  /** cJSON_Print and cJSON_PrintUnformatted. */
  method Print(j: Json, format: bool) returns (printed: array?<byte>)
    ensures printed != null <==> Proper(j) && |Render(j, 0, format)| + 2 <= 0x7FFF_FFFF
    ensures printed != null ==> fresh(printed) && printed[..] == Terminated(Render(j, 0, format))
  {
    hide Render, Proper;
    var buffer := new byte[256];
    var p := new PrintBuffer(buffer, false, format);
    var ok := p.PrintValue(j);
    if !ok {
      return null;
    }
    ghost var text := Render(j, 0, format);
    p.UpdateOffset([], [], text);
    assert [] + text == text;
    printed := Shrink(p, text);
  }

  /** The text at its exact size. */
  method Shrink(p: PrintBuffer, ghost text: cstring) returns (copy: array<byte>)
    requires p.At([], text) && p.offset < p.buffer.Length && p.buffer[p.offset] == 0
    ensures fresh(copy) && copy[..] == Terminated(text)
  {
    p.AtText([], text);
    copy := new byte[p.offset + 1];
    forall i | 0 <= i < copy.Length {
      copy[i] := p.buffer[i];
    }
    assert p.buffer[..|text|] == text;
    assert p.buffer[..|text| + 1] == Terminated(text);
  }

  /** cJSON_PrintBuffered. */
  method PrintBuffered(j: Json, prebuffer: cint, format: bool) returns (printed: array?<byte>)
    ensures printed != null <==> prebuffer >= 0 && Proper(j) && |Render(j, 0, format)| + 2 <= 0x7FFF_FFFF
    ensures printed != null ==> fresh(printed) && HoldsText(printed[..], Render(j, 0, format))
  {
    hide Render, Proper;
    if prebuffer < 0 {
      return null;
    }
    var buffer := new byte[prebuffer];
    var p := new PrintBuffer(buffer, false, format);
    var ok := p.PrintValue(j);
    printed := if ok then p.buffer else null;
  }
}

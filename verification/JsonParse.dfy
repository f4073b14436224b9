/**
  Parsing JSON texts: the recursive descent of cJSON.c over a buffer with an offset and a depth.
  
  `ReadText` and the functions it uses say what a text means: each returns a value and the offset behind
  it, or the offset at which the code gives up. The methods of `ParseBuffer` are the functions of the
  code, loops included, and are proved to have exactly these outcomes.
*/
module JsonParse {
  import opened CTypes
  import opened Json
  import opened JsonPrint
  import opened JsonString

  const NESTING_LIMIT: nat := 1000

  /** The longest number text that is looked at. */
  const NUMBER_LIMIT: nat := 63

  /** The C library the parser runs on: lib, as far as valueint shows it, gives the number and
      how much of the text it took. */
  datatype Library = Library(strtod: cstring -> (cint, nat))

  // ---- The parser as a function of the buffer, the offset and the depth ----

  /** buffer_skip_whitespace: at the end of the buffer it stays on the last octet. */
  function SkipSpace(c: seq<byte>, o: nat): (r: nat)
    ensures o <= r && (o < |c| ==> r < |c|)
    ensures o < |c| && c[o] > 32 ==> r == o
    ensures o >= |c| ==> r == o
  {
    if o >= |c| then o
    else
      var r := SpaceEnd(c, o);
      if r == |c| then r - 1 else r
  }

  function SpaceEnd(c: seq<byte>, o: nat): (r: nat)
    requires o <= |c|
    ensures o <= r <= |c| && (o < |c| && c[o] <= 32 ==> r > o)
    decreases |c| - o
  {
    if o < |c| && c[o] <= 32 then SpaceEnd(c, o + 1) else o
  }

  predicate Has(c: seq<byte>, o: nat, text: cstring) {
    o + |text| <= |c| && c[o..o + |text|] == text
  }

  predicate HasByte(c: seq<byte>, o: nat, b: byte) {
    o < |c| && c[o] == b
  }

  predicate NumberChar(b: byte) {
    48 <= b <= 57 || b == 43 || b == 45 || b == 101 || b == 69 || b == 46
  }

  /** The characters of a number that are copied for strtod. */
  function NumberText(c: seq<byte>, o: nat, room: nat): (r: cstring)
    ensures |r| <= room && o + |r| <= if o <= |c| then |c| else o
    decreases room
  {
    if room > 0 && o < |c| && NumberChar(c[o]) then [c[o]] + NumberText(c, o + 1, room - 1) else []
  }

  function ReadNumber(c: seq<byte>, o: nat, lib: Library): Parsed<Json> {
    var r := lib.strtod(NumberText(c, o, NUMBER_LIMIT));
    if r.1 == 0 then Failed(o) else Done(Number(r.0), o + r.1)
  }

  function ReadValue(c: seq<byte>, o: nat, depth: nat, lib: Library): (r: Parsed<Json>)
    ensures r.Done? ==> r.end > o
    decreases |c| - o, 1
  {
    if Has(c, o, [110, 117, 108, 108]) then Done(Null, o + 4)
    else if Has(c, o, [102, 97, 108, 115, 101]) then Done(False, o + 5)
    else if Has(c, o, [116, 114, 117, 101]) then Done(True, o + 4)
    else if o >= |c| then Failed(o)
    else if c[o] == QUOTE then
      match ReadString(c, o)
      case Done(s, end) => Done(String(s), end)
      case Failed(at) => Failed(at)
    else if c[o] == MINUS || 48 <= c[o] <= 57 then ReadNumber(c, o, lib)
    else if c[o] == 91 then ReadArray(c, o, depth, lib)
    else if c[o] == 123 then ReadObject(c, o, depth, lib)
    else Failed(o)
  }

  /** parse_array at an opening bracket. */
  function ReadArray(c: seq<byte>, o: nat, depth: nat, lib: Library): (r: Parsed<Json>)
    requires o < |c|
    ensures r.Done? ==> r.end > o
    decreases |c| - o, 0
  {
    if depth >= NESTING_LIMIT then Failed(o)
    else
      var first := SkipSpace(c, o + 1);
      if HasByte(c, first, 93) then Done(Array([]), first + 1)
      else if first >= |c| then Failed(first - 1)
      else
        match ReadItems(c, first, depth + 1, lib)
        case Done(items, end) => Done(Array(items), end)
        case Failed(at) => Failed(at)
  }

  /** parse_object at an opening brace. */
  function ReadObject(c: seq<byte>, o: nat, depth: nat, lib: Library): (r: Parsed<Json>)
    requires o < |c|
    ensures r.Done? ==> r.end > o
    decreases |c| - o, 0
  {
    if depth >= NESTING_LIMIT then Failed(o)
    else
      var first := SkipSpace(c, o + 1);
      if HasByte(c, first, 125) then Done(Object([]), first + 1)
      else if first >= |c| then Failed(first - 1)
      else
        match ReadMembers(c, first, depth + 1, lib)
        case Done(members, end) => Done(Object(members), end)
        case Failed(at) => Failed(at)
  }

  /** One turn of the loop of parse_array: an element and the white space around it. */
  function ReadElement(c: seq<byte>, o: nat, depth: nat, lib: Library): (r: Parsed<Json>)
    ensures r.Done? ==> r.end > o
    decreases |c| - o, 2
  {
    match ReadValue(c, SkipSpace(c, o), depth, lib)
    case Failed(at) => Failed(at)
    case Done(item, end) => Done(item, SkipSpace(c, end))
  }

  /** The loop of parse_array, from one element to the closing bracket. */
  function ReadItems(c: seq<byte>, o: nat, depth: nat, lib: Library): (r: Parsed<seq<Json>>)
    ensures r.Done? ==> r.end > o
    decreases |c| - o, 3
  {
    match ReadElement(c, o, depth, lib)
    case Failed(at) => Failed(at)
    case Done(item, next) =>
      if HasByte(c, next, COMMA) then Continue([item], ReadItems(c, next + 1, depth, lib))
      else if HasByte(c, next, 93) then Done([item], next + 1)
      else Failed(next)
  }

  /** One turn of the loop of parse_object: a name, a colon, a value and the white space around them. */
  function ReadMember(c: seq<byte>, o: nat, depth: nat, lib: Library): (r: Parsed<Member>)
    ensures r.Done? ==> r.end > o
    decreases |c| - o, 2
  {
    match ReadString(c, SkipSpace(c, o))
    case Failed(at) => Failed(at)
    case Done(name, end) =>
      var colon := SkipSpace(c, end);
      if !HasByte(c, colon, COLON) then Failed(colon)
      else
        match ReadValue(c, SkipSpace(c, colon + 1), depth, lib)
        case Failed(at) => Failed(at)
        case Done(value, last) => Done(Member(name, value), SkipSpace(c, last))
  }

  /** The loop of parse_object, from one name to the closing brace. */
  function ReadMembers(c: seq<byte>, o: nat, depth: nat, lib: Library): (r: Parsed<seq<Member>>)
    ensures r.Done? ==> r.end > o
    decreases |c| - o, 3
  {
    match ReadMember(c, o, depth, lib)
    case Failed(at) => Failed(at)
    case Done(member, next) =>
      if HasByte(c, next, COMMA) then Continue([member], ReadMembers(c, next + 1, depth, lib))
      else if HasByte(c, next, 125) then Done([member], next + 1)
      else Failed(next)
  }

  /** Puts what has been read in front of the outcome for the rest. */
  function Continue<T>(done: seq<T>, rest: Parsed<seq<T>>): Parsed<seq<T>> {
    match rest
    case Done(value, end) => Done(done + value, end)
    case Failed(at) => Failed(at)
  }

  /** skip_utf8_bom. */
  function SkipBom(c: seq<byte>): nat {
    if |c| > 4 && c[0] == 0xEF && c[1] == 0xBB && c[2] == 0xBF then 3 else 0
  }

  /** cJSON_ParseWithLengthOpts. */
  function ReadText(c: seq<byte>, terminated: bool, lib: Library): Parsed<Json> {
    match ReadValue(c, SkipSpace(c, SkipBom(c)), 0, lib)
    case Failed(at) => Failed(at)
    case Done(j, end) =>
      if !terminated then Done(j, end)
      else
        var last := SkipSpace(c, end);
        if HasByte(c, last, 0) then Done(j, last) else Failed(last)
  }

  lemma NumberTextEnds(c: seq<byte>, o: nat, room: nat)
    requires !(room > 0 && o < |c| && NumberChar(c[o]))
    ensures NumberText(c, o, room) == []
  {}

  lemma NumberTextStep(c: seq<byte>, o: nat, room: nat, before: cstring)
    requires room > 0 && o < |c| && NumberChar(c[o])
    ensures before + NumberText(c, o, room) == (before + [c[o]]) + NumberText(c, o + 1, room - 1)
  {
    assert before + ([c[o]] + NumberText(c, o + 1, room - 1)) == (before + [c[o]]) + NumberText(c, o + 1, room - 1);
  }

  // ---- The parser as the code runs it ----

  /** What a parsing function makes of a parsed value, and of the offset it leaves. */
  ghost predicate Outcome<T>(item: Option<T>, offset: nat, r: Parsed<T>) {
    match r
    case Done(value, end) => item == Some(value) && offset == end
    case Failed(at) => item == None && offset == at
  }

  class ParseBuffer {
    const content: seq<byte>
    var offset: nat
    var depth: nat

    constructor (content: seq<byte>)
      ensures this.content == content && offset == 0 && depth == 0
    {
      this.content := content;
      offset, depth := 0, 0;
    }

    /** buffer_skip_whitespace. */
    method SkipWhitespace()
      modifies `offset
      ensures offset == SkipSpace(content, old(offset))
    {
      if offset >= |content| {
        return;
      }
      while offset < |content| && content[offset] <= 32
        invariant old(offset) <= offset <= |content|
        invariant SpaceEnd(content, offset) == SpaceEnd(content, old(offset))
      {
        offset := offset + 1;
      }
      if offset == |content| {
        offset := offset - 1;
      }
    }

    /** The first pass of parse_string. */
    method FindClosingQuote() returns (end: Option<nat>, skipped: nat)
      requires offset < |content|
      ensures end == ClosingQuote(content, offset + 1)
      ensures end.Some? ==> skipped == Escapes(content, offset + 1, end.value)
    {
      var i := offset + 1;
      skipped := 0;
      while i < |content| && content[i] != QUOTE
        invariant offset + 1 <= i <= |content|
        invariant ClosingQuote(content, i) == ClosingQuote(content, offset + 1)
        invariant skipped == Escapes(content, offset + 1, i) && !SecondHalf(content, offset + 1, i)
        decreases |content| - i
      {
        if content[i] == BACKSLASH {
          if i + 1 >= |content| {
            return None, skipped;
          }
          skipped := skipped + 1;
          i := i + 1;
        }
        i := i + 1;
      }
      end := if i >= |content| then None else Some(i);
    }

    /** One escape of the second pass; zero for an invalid one. */
    method WriteUnescaped(p: nat, end: nat, output: array<byte>, at: nat) returns (length: nat, next: nat)
      requires p < end < |content|
      requires var e := EscapeAt(content, p, end); e.Some? ==> at + |e.value.0| <= output.Length
      modifies output
      ensures var e := EscapeAt(content, p, end);
              && (e.None? ==> length == 0)
              && (e.Some? ==>
                    && length == e.value.1 && next == at + |e.value.0|
                    && output[..next] == old(output[..at]) + e.value.0)
    {
      hide Utf16Escape;
      length, next := 2, at + 1;
      match content[p + 1] {
        case 98 => output[at] := 8;
        case 102 => output[at] := 12;
        case 110 => output[at] := 10;
        case 114 => output[at] := 13;
        case 116 => output[at] := 9;
        case _ =>
          var e := content[p + 1];
          if e == 34 || e == 92 || e == 47 {
            output[at] := e;
          } else if e == LETTER_U {
            length, next := ParseUtf16(content, p, end, output, at);
          } else {
            length := 0;
          }
      }
    }

    /** The second pass of parse_string; the output never needs more room than the first pass
        allocated. */
    method UnescapeInto(end: nat, output: array<byte>) returns (out: Option<nat>, p: nat)
      requires offset + 1 <= end < |content| && content[end] == QUOTE
      requires output.Length == Allocation(content, offset + 1, end)
      modifies output
      ensures match Unescape(content, offset + 1, end)
              case Done(octets, last) => out == Some(|octets|) && p == last && |octets| < output.Length &&
                   output[..|octets|] == octets
              case Failed(at) => out == None && p == at
    {
      hide Reading, EscapeAt, Allocation, Unescape;
      ghost var start := offset + 1;
      p := offset + 1;
      var k: nat := 0;
      ReadingStarts(content, start, end);
      assert output[..0] == [];
      while p < end
        invariant start <= p <= end + 1 && 0 <= k < output.Length
        invariant Reading(content, start, p, end, output[..k])
      {
        var length, next := UnescapeNext(p, end, output, k, start);
        if length == 0 {
          return None, p;
        }
        p, k := p + length, next;
      }
      ReadingEnds(content, start, p, end, output[..k]);
      out := Some(k);
    }

    /** One turn of its loop; zero for an invalid escape. */
    method UnescapeNext(p: nat, end: nat, output: array<byte>, k: nat, ghost start: nat)
      returns (length: nat, next: nat)
      requires start <= p < end < |content| && k < output.Length && output.Length == Allocation(content, start, end)
      requires Reading(content, start, p, end, output[..k])
      modifies output
      ensures length == 0 ==> Unescape(content, start, end) == Failed(p)
      ensures length > 0 ==>
                && p + length <= end + 1 && next < output.Length
                && Reading(content, start, p + length, end, output[..next])
    {
      hide Reading, EscapeAt, Allocation, Unescape;
      ghost var before := output[..k];
      if content[p] != BACKSLASH {
        PlainStep(content, start, p, end, before);
        output[k] := content[p];
        length, next := 1, k + 1;
        assert output[..next] == before + [content[p]];
      } else {
        EscapeStep(content, start, p, end, before);
        length, next := WriteUnescaped(p, end, output, k);
      }
    }

    /** parse_string. */
    method ParseString() returns (item: Option<cstring>)
      modifies `offset
      ensures Outcome(item, offset, ReadString(content, old(offset)))
    {
      hide Unescape, ClosingQuote, Escapes, CString;
      if offset >= |content| || content[offset] != QUOTE {
        offset := offset + 1;
        return None;
      }
      var end, skipped := FindClosingQuote();
      if end.None? {
        offset := offset + 1;
        return None;
      }
      var output := new byte[end.value - offset - skipped + 1];
      var out, p := UnescapeInto(end.value, output);
      if out.None? {
        offset := p;
        return None;
      }
      item := Some(CString(output[..out.value]));
      offset := end.value + 1;
    }

    /** parse_number. */
    method ParseNumber(lib: Library) returns (item: Option<Json>)
      modifies `offset
      ensures Outcome(item, offset, ReadNumber(content, old(offset), lib))
    {
      var text := CopyNumber();
      var number, used := lib.strtod(text).0, lib.strtod(text).1;
      if used == 0 {
        return None;
      }
      offset := offset + used;
      item := Some(Number(number));
    }

    /** Its loop, which copies the characters of a number. */
    method CopyNumber() returns (text: cstring)
      ensures text == NumberText(content, offset, NUMBER_LIMIT)
    {
      hide NumberText;
      text := [];
      var i := 0;
      assert text + NumberText(content, offset, NUMBER_LIMIT) == NumberText(content, offset, NUMBER_LIMIT);
      while i < NUMBER_LIMIT && offset + i < |content| && NumberChar(content[offset + i])
        invariant 0 <= i <= NUMBER_LIMIT
        invariant text + NumberText(content, offset + i, NUMBER_LIMIT - i) == NumberText(content, offset, NUMBER_LIMIT)
      {
        NumberTextStep(content, offset + i, NUMBER_LIMIT - i, text);
        text := text + [content[offset + i]];
        i := i + 1;
      }
      NumberTextEnds(content, offset + i, NUMBER_LIMIT - i);
      assert text + [] == text;
    }

    /** parse_value. */
    method ParseValue(lib: Library) returns (item: Option<Json>)
      modifies this
      ensures Outcome(item, offset, ReadValue(content, old(offset), old(depth), lib))
      ensures item.Some? ==> depth == old(depth)
      decreases |content| - offset, 1
    {
      hide Has, ReadString, ReadNumber;
      if Has(content, offset, [110, 117, 108, 108]) {
        offset := offset + 4;
        return Some(Null);
      }
      if Has(content, offset, [102, 97, 108, 115, 101]) {
        offset := offset + 5;
        return Some(False);
      }
      if Has(content, offset, [116, 114, 117, 101]) {
        offset := offset + 4;
        return Some(True);
      }
      if offset >= |content| {
        return None;
      }
      if content[offset] == QUOTE {
        var s := ParseString();
        return if s.Some? then Some(String(s.value)) else None;
      }
      if content[offset] == MINUS || 48 <= content[offset] <= 57 {
        item := ParseNumber(lib);
        return;
      }
      if content[offset] == 91 {
        item := ParseArray(lib);
        return;
      }
      if content[offset] == 123 {
        item := ParseObject(lib);
        return;
      }
      item := None;
    }

    /** parse_array. */
    method ParseArray(lib: Library) returns (item: Option<Json>)
      requires offset < |content| && content[offset] == 91
      modifies this
      ensures Outcome(item, offset, ReadArray(content, old(offset), old(depth), lib))
      ensures item.Some? ==> depth == old(depth)
      decreases |content| - offset, 0
    {
      hide ReadItems;
      if depth >= NESTING_LIMIT {
        return None;
      }
      depth := depth + 1;
      offset := offset + 1;
      SkipWhitespace();
      if offset < |content| && content[offset] == 93 {
        depth := depth - 1;
        offset := offset + 1;
        return Some(Array([]));
      }
      if offset >= |content| {
        offset := offset - 1;
        return None;
      }
      offset := offset - 1;
      var items := ParseItems(lib);
      if items.None? {
        return None;
      }
      depth := depth - 1;
      item := Some(Array(items.value));
    }

    /** One turn of its loop. */
    method ParseElement(lib: Library) returns (item: Option<Json>)
      requires offset < |content|
      modifies this
      ensures Outcome(item, offset, ReadElement(content, old(offset) + 1, old(depth), lib))
      ensures item.Some? ==> depth == old(depth)
      decreases |content| - offset - 1, 2
    {
      hide ReadValue;
      offset := offset + 1;
      SkipWhitespace();
      item := ParseValue(lib);
      if item.None? {
        return;
      }
      SkipWhitespace();
    }

    /** Its loop, which starts in front of the first element. */
    method ParseItems(lib: Library) returns (items: Option<seq<Json>>)
      requires offset < |content|
      modifies this
      ensures Outcome(items, offset, ReadItems(content, old(offset) + 1, old(depth), lib))
      ensures items.Some? ==> depth == old(depth)
      decreases |content| - offset - 1, 3
    {
      var done: seq<Json> := [];
      ghost var whole := ReadItems(content, offset + 1, depth, lib);
      ContinueNothing(whole);
      var more := true;
      assert ItemsLeft(content, offset, depth, lib, done, more, whole);
      hide ReadItems, ReadElement, Continue, ItemsLeft, Outcome;
      while more
        invariant old(offset) <= offset && depth == old(depth) && (more ==> offset < |content|)
        invariant ItemsLeft(content, offset, depth, lib, done, more, whole)
        decreases more, |content| - offset
      {
        ghost var start, level := offset, depth;
        var item := ParseElement(lib);
        ItemsTurn(content, start, level, lib, done, whole, item, offset);
        if item.None? {
          return None;
        }
        done := done + [item.value];
        more := offset < |content| && content[offset] == COMMA;
      }
      ItemsEnd(content, offset, depth, lib, done, whole);
      if offset >= |content| || content[offset] != 93 {
        return None;
      }
      offset := offset + 1;
      items := Some(done);
    }

    /** parse_object. */
    method ParseObject(lib: Library) returns (item: Option<Json>)
      requires offset < |content| && content[offset] == 123
      modifies this
      ensures Outcome(item, offset, ReadObject(content, old(offset), old(depth), lib))
      ensures item.Some? ==> depth == old(depth)
      decreases |content| - offset, 0
    {
      hide ReadMembers;
      if depth >= NESTING_LIMIT {
        return None;
      }
      depth := depth + 1;
      offset := offset + 1;
      SkipWhitespace();
      if offset < |content| && content[offset] == 125 {
        depth := depth - 1;
        offset := offset + 1;
        return Some(Object([]));
      }
      if offset >= |content| {
        offset := offset - 1;
        return None;
      }
      offset := offset - 1;
      var members := ParseMembers(lib);
      if members.None? {
        return None;
      }
      depth := depth - 1;
      item := Some(Object(members.value));
    }

    /** One turn of its loop. */
    method ParseMember(lib: Library) returns (member: Option<Member>)
      requires offset < |content|
      modifies this
      ensures Outcome(member, offset, ReadMember(content, old(offset) + 1, old(depth), lib))
      ensures member.Some? ==> depth == old(depth)
      decreases |content| - offset - 1, 2
    {
      hide ReadValue, ReadString;
      member := None;
      offset := offset + 1;
      SkipWhitespace();
      var name := ParseString();
      if name.None? {
        return;
      }
      SkipWhitespace();
      if offset >= |content| || content[offset] != COLON {
        return;
      }
      offset := offset + 1;
      SkipWhitespace();
      var value := ParseValue(lib);
      if value.None? {
        return;
      }
      SkipWhitespace();
      member := Some(Member(name.value, value.value));
    }

    /** Its loop, which starts in front of the first name. */
    method ParseMembers(lib: Library) returns (members: Option<seq<Member>>)
      requires offset < |content|
      modifies this
      ensures Outcome(members, offset, ReadMembers(content, old(offset) + 1, old(depth), lib))
      ensures members.Some? ==> depth == old(depth)
      decreases |content| - offset - 1, 3
    {
      var done: seq<Member> := [];
      ghost var whole := ReadMembers(content, offset + 1, depth, lib);
      ContinueNothing(whole);
      var more := true;
      assert MembersLeft(content, offset, depth, lib, done, more, whole);
      hide ReadMembers, ReadMember, Continue, MembersLeft, Outcome;
      while more
        invariant old(offset) <= offset && depth == old(depth) && (more ==> offset < |content|)
        invariant MembersLeft(content, offset, depth, lib, done, more, whole)
        decreases more, |content| - offset
      {
        ghost var start, level := offset, depth;
        var member := ParseMember(lib);
        MembersTurn(content, start, level, lib, done, whole, member, offset);
        if member.None? {
          return None;
        }
        done := done + [member.value];
        more := offset < |content| && content[offset] == COMMA;
      }
      MembersEnd(content, offset, depth, lib, done, whole);
      if offset >= |content| || content[offset] != 125 {
        return None;
      }
      offset := offset + 1;
      members := Some(done);
    }
  }

  /** cJSON_ParseWithLengthOpts: the value, and where its text ends or where the error is. */
  method ParseWithLength(value: seq<byte>, terminated: bool, lib: Library) returns (item: Option<Json>, end: nat)
    ensures match ReadText(value, terminated, lib)
            case Done(j, last) => value != [] && item == Some(j) && end == last
            case Failed(at) =>
              item == None && end == if at < |value| then at else if value != [] then |value| - 1 else 0
  {
    hide ReadValue, SkipSpace;
    item := None;
    if value == [] {
      NothingRead(terminated, lib);
      return None, 0;
    }
    var buffer := new ParseBuffer(value);
    if |value| > 4 && value[0] == 0xEF && value[1] == 0xBB && value[2] == 0xBF {
      buffer.offset := 3;
    }
    buffer.SkipWhitespace();
    item := buffer.ParseValue(lib);
    var ok := item.Some?;
    if ok && terminated {
      buffer.SkipWhitespace();
      ok := buffer.offset < |value| && value[buffer.offset] == 0;
    }
    if ok {
      return item, buffer.offset;
    }
    item := None;
    end := if buffer.offset < |value| then buffer.offset else |value| - 1;
  }

  lemma NothingRead(terminated: bool, lib: Library)
    ensures ReadText([], terminated, lib) == Failed(0)
  {}

  /** What the loop has read, and what the outcome for the whole is. */
  ghost predicate MembersLeft(c: seq<byte>, offset: nat, depth: nat, lib: Library, done: seq<Member>, more: bool,
                              whole: Parsed<seq<Member>>)
  {
    if more then whole == Continue(done, ReadMembers(c, offset + 1, depth, lib))
    else whole == if HasByte(c, offset, 125) then Done(done, offset + 1) else Failed(offset)
  }

  lemma MembersTurn(c: seq<byte>, o: nat, depth: nat, lib: Library, done: seq<Member>, whole: Parsed<seq<Member>>,
                  member: Option<Member>, next: nat)
    requires MembersLeft(c, o, depth, lib, done, true, whole)
    requires Outcome(member, next, ReadMember(c, o + 1, depth, lib))
    ensures member.None? ==> Outcome<seq<Member>>(None, next, whole)
    ensures member.Some? ==>
              next > o && MembersLeft(c, next, depth, lib, done + [member.value], HasByte(c, next, COMMA), whole)
  {
    hide ReadMembers, ReadMember, Continue;
    ReadMembersStep(c, o + 1, depth, lib, done);
  }

  lemma MembersEnd(c: seq<byte>, offset: nat, depth: nat, lib: Library, done: seq<Member>, whole: Parsed<seq<Member>>)
    requires MembersLeft(c, offset, depth, lib, done, false, whole)
    ensures if HasByte(c, offset, 125)
            then Outcome(Some(done), offset + 1, whole) else Outcome<seq<Member>>(None, offset, whole)
  {}

  /** One turn of the loop of parse_object. */
  lemma ReadMembersStep(c: seq<byte>, o: nat, depth: nat, lib: Library, done: seq<Member>)
    ensures var whole := Continue(done, ReadMembers(c, o, depth, lib));
            match ReadMember(c, o, depth, lib)
            case Failed(at) => whole == Failed(at)
            case Done(member, next) =>
              if HasByte(c, next, COMMA) then whole == Continue(done + [member], ReadMembers(c, next + 1, depth, lib))
              else whole == if HasByte(c, next, 125) then Done(done + [member], next + 1) else Failed(next)
  {
    hide ReadMember;
    var r := ReadMember(c, o, depth, lib);
    if r.Done? && HasByte(c, r.end, COMMA) {
      ContinueTwice(done, [r.value], ReadMembers(c, r.end + 1, depth, lib));
    }
  }

  lemma ContinueNothing<T>(r: Parsed<seq<T>>)
    ensures Continue([], r) == r
  {
    if r.Done? { assert [] + r.value == r.value; }
  }

  lemma ContinueTwice<T>(a: seq<T>, b: seq<T>, r: Parsed<seq<T>>)
    ensures Continue(a, Continue(b, r)) == Continue(a + b, r)
  {
    if r.Done? { assert a + (b + r.value) == a + b + r.value; }
  }

  /** What the loop has read, and what the outcome for the whole is. */
  ghost predicate ItemsLeft(c: seq<byte>, offset: nat, depth: nat, lib: Library, done: seq<Json>, more: bool,
                            whole: Parsed<seq<Json>>)
  {
    if more then whole == Continue(done, ReadItems(c, offset + 1, depth, lib))
    else whole == if HasByte(c, offset, 93) then Done(done, offset + 1) else Failed(offset)
  }

  lemma ItemsTurn(c: seq<byte>, o: nat, depth: nat, lib: Library, done: seq<Json>, whole: Parsed<seq<Json>>,
                  item: Option<Json>, next: nat)
    requires ItemsLeft(c, o, depth, lib, done, true, whole)
    requires Outcome(item, next, ReadElement(c, o + 1, depth, lib))
    ensures item.None? ==> Outcome<seq<Json>>(None, next, whole)
    ensures item.Some? ==>
              next > o && ItemsLeft(c, next, depth, lib, done + [item.value], HasByte(c, next, COMMA), whole)
  {
    ReadItemsStep(c, o + 1, depth, lib, done);
    hide ReadItems, ReadElement, Continue;
  }

  lemma ItemsEnd(c: seq<byte>, offset: nat, depth: nat, lib: Library, done: seq<Json>, whole: Parsed<seq<Json>>)
    requires ItemsLeft(c, offset, depth, lib, done, false, whole)
    ensures if HasByte(c, offset, 93)
            then Outcome(Some(done), offset + 1, whole) else Outcome<seq<Json>>(None, offset, whole)
  {}

  /** One turn of the loop of parse_array. */
  lemma ReadItemsStep(c: seq<byte>, o: nat, depth: nat, lib: Library, done: seq<Json>)
    ensures var whole := Continue(done, ReadItems(c, o, depth, lib));
            match ReadElement(c, o, depth, lib)
            case Failed(at) => whole == Failed(at)
            case Done(item, next) =>
              if HasByte(c, next, COMMA) then whole == Continue(done + [item], ReadItems(c, next + 1, depth, lib))
              else whole == if HasByte(c, next, 93) then Done(done + [item], next + 1) else Failed(next)
  {
    hide ReadElement;
    var r := ReadElement(c, o, depth, lib);
    if r.Done? && HasByte(c, r.end, COMMA) {
      ContinueTwice(done, [r.value], ReadItems(c, r.end + 1, depth, lib));
    }
  }

  /** What the second pass has written when it reaches p, and what it still has to do. */
  ghost predicate Reading(c: seq<byte>, start: nat, p: nat, end: nat, written: seq<byte>) {
    && start <= p <= end + 1 && start <= end < |c| && c[end] == QUOTE
    && |written| + Escapes(c, start, p) <= p - start
    && |written| < Allocation(c, start, end)
    && Unescape(c, start, end) == Prepend(written, Unescape(c, p, end))
  }

  lemma ReadingStarts(c: seq<byte>, start: nat, end: nat)
    requires start <= end < |c| && c[end] == QUOTE
    ensures Reading(c, start, start, end, []) && Allocation(c, start, end) > 0
  {
    hide EscapeAt, Unescape;
    PrependNothing(Unescape(c, start, end));
  }

  lemma ReadingEnds(c: seq<byte>, start: nat, p: nat, end: nat, written: seq<byte>)
    requires Reading(c, start, p, end, written) && p >= end
    ensures Unescape(c, start, end) == Done(written, p)
  {
    assert written + [] == written;
  }

  lemma PrependNothing(r: Parsed<seq<byte>>)
    ensures Prepend([], r) == r
  {
    if r.Done? { assert [] + r.value == r.value; }
  }

  /** The room left when the second pass has reached p. */
  lemma RoomLeft(c: seq<byte>, start: nat, p: nat, end: nat, k: nat)
    requires start <= p <= end + 1 && start <= end < |c| && c[end] == QUOTE
    requires k + Escapes(c, start, p) <= p - start
    ensures k < Allocation(c, start, end)
  {
    if p <= end {
      EscapesGrow(c, start, p, end - p);
    } else {
      assert !SecondHalf(c, start, end + 1);
    }
  }

  lemma PlainStep(c: seq<byte>, start: nat, p: nat, end: nat, written: seq<byte>)
    requires Reading(c, start, p, end, written) && p < end && c[p] != BACKSLASH
    ensures Reading(c, start, p + 1, end, written + [c[p]]) && |written| + 1 < Allocation(c, start, end)
  {
    hide EscapeAt;
    assert !SecondHalf(c, start, p + 1);
    RoomLeft(c, start, p + 1, end, |written| + 1);
    if Unescape(c, p + 1, end).Done? {
      assert written + ([c[p]] + Unescape(c, p + 1, end).value) == written + [c[p]] + Unescape(c, p + 1, end).value;
    }
  }

  lemma EscapeStep(c: seq<byte>, start: nat, p: nat, end: nat, written: seq<byte>)
    requires Reading(c, start, p, end, written) && p < end && c[p] == BACKSLASH
    ensures EscapeAt(c, p, end) == None ==> Unescape(c, start, end) == Failed(p)
    ensures EscapeAt(c, p, end).Some? ==>
              var e := EscapeAt(c, p, end).value;
              Reading(c, start, p + e.1, end, written + e.0) && |written| + |e.0| < Allocation(c, start, end)
  {
    hide EscapeAt, Escapes;
    if EscapeAt(c, p, end).Some? {
      var e := EscapeAt(c, p, end).value;
      EscapesStep(c, start, p, e.1);
      RoomLeft(c, start, p + e.1, end, |written| + |e.0|);
      if Unescape(c, p + e.1, end).Done? {
        assert written + (e.0 + Unescape(c, p + e.1, end).value) == written + e.0 + Unescape(c, p + e.1, end).value;
      }
    }
  }
}

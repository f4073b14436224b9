/**
  Reading JSON strings: the two passes of parse_string, the UTF-16 escapes, and why what the second pass
  writes fits what the first pass allocates.
*/
module JsonString {
  import opened CTypes
  import opened JsonPrint

  /** A parser's outcome: a value and where its text ends, or where it gave up. */
  datatype Parsed<+T> = Done(value: T, end: nat) | Failed(at: nat)

  const LETTER_U: byte := 117

  // ---- UTF-16 escapes to UTF-8 ----

  predicate IsHex(b: byte) {
    48 <= b <= 57 || 65 <= b <= 70 || 97 <= b <= 102
  }

  function HexValue(b: byte): (v: int)
    requires IsHex(b)
    ensures 0 <= v < 16
  {
    if b <= 57 then b - 48 else if b <= 70 then b - 55 else b - 87
  }

  /** parse_hex4: zero stands for an invalid digit, too. */
  function Hex4(s: seq<byte>): (v: int)
    requires |s| == 4
    ensures 0 <= v < 0x10000
  {
    if forall i :: 0 <= i < 4 ==> IsHex(s[i])
    then HexValue(s[0]) * 0x1000 + HexValue(s[1]) * 0x100 + HexValue(s[2]) * 0x10 + HexValue(s[3])
    else 0
  }

  /** UTF-8, RFC 3629 section 3. */
  function Utf8(code: int): (r: seq<byte>)
    requires 0 <= code < 0x110000
    ensures 1 <= |r| <= 4
  {
    if code < 0x80 then [code]
    else if code < 0x800 then [0xC0 + code / 0x40, 0x80 + code % 0x40]
    else if code < 0x10000 then [0xE0 + code / 0x1000, 0x80 + code / 0x40 % 0x40, 0x80 + code % 0x40]
    else [0xF0 + code / 0x40000, 0x80 + code / 0x1000 % 0x40, 0x80 + code / 0x40 % 0x40, 0x80 + code % 0x40]
  }

  /** The low bits of an octet. */
  function Low(b: byte, size: int): (v: int)
    requires size > 0
    ensures 0 <= v < size
  {
    b % size
  }

  /** The code point a UTF-8 sequence stands for. */
  function Utf8Decode(s: seq<byte>): int
    requires 1 <= |s| <= 4
  {
    match |s|
    case 1 => s[0]
    case 2 => Low(s[0], 0x20) * 0x40 + Low(s[1], 0x40)
    case 3 => (Low(s[0], 0x10) * 0x40 + Low(s[1], 0x40)) * 0x40 + Low(s[2], 0x40)
    case _ => ((Low(s[0], 8) * 0x40 + Low(s[1], 0x40)) * 0x40 + Low(s[2], 0x40)) * 0x40 + Low(s[3], 0x40)
  }

  lemma Utf8RoundTrip(code: int)
    requires 0 <= code < 0x110000
    ensures Utf8Decode(Utf8(code)) == code
  {
    if code >= 0x80 {
      if code < 0x800 {
        TwoOctets(code);
      } else if code < 0x10000 {
        ThreeOctets(code);
      } else {
        FourOctets(code);
      }
      hide Utf8, Utf8Decode;
    }
  }

  lemma TwoOctets(code: int)
    requires 0x80 <= code < 0x800
    ensures Utf8Decode(Utf8(code)) == code
  {
    SixBits(code % 0x40);
    assert (0xC0 + code / 0x40) % 0x20 == code / 0x40;
  }

  lemma ThreeOctets(code: int)
    requires 0x800 <= code < 0x10000
    ensures Utf8Decode(Utf8(code)) == code
  {
    var a, b := code / 0x40, code / 0x1000;
    assert b == a / 0x40;
    SixBits(code % 0x40);
    SixBits(a % 0x40);
    assert (0xE0 + b) % 0x10 == b;
  }

  lemma FourOctets(code: int)
    requires 0x10000 <= code < 0x110000
    ensures Utf8Decode(Utf8(code)) == code
  {
    var a, b := code / 0x40, code / 0x1000;
    assert b == a / 0x40 && code / 0x40000 == b / 0x40;
    SixBits(code % 0x40);
    SixBits(a % 0x40);
    SixBits(b % 0x40);
    assert (0xF0 + b / 0x40) % 8 == b / 0x40;
  }

  /** The marks of RFC 3629 section 3: how many octets there are shows in the first one, the others are between
      0x80 and 0xBF, and no fewer octets would do. */
  lemma Utf8Marks(code: int)
    requires 0 <= code < 0x110000
    ensures var s := Utf8(code);
            && (|s| == 1 <==> s[0] < 0x80) && (|s| == 2 <==> 0xC2 <= s[0] < 0xE0)
            && (|s| == 3 <==> 0xE0 <= s[0] < 0xF0) && (|s| == 4 <==> 0xF0 <= s[0] < 0xF5)
            && (forall k :: 1 <= k < |s| ==> 0x80 <= s[k] < 0xC0)
            && (|s| == 1 <==> code < 0x80) && (|s| <= 2 <==> code < 0x800) && (|s| <= 3 <==> code < 0x10000)
  {}

  lemma SixBits(v: int)
    requires 0 <= v < 0x40
    ensures (0x80 + v) % 0x40 == v
  {}

  predicate IsHighSurrogate(code: int) { 0xD800 <= code <= 0xDBFF }

  predicate IsLowSurrogate(code: int) { 0xDC00 <= code <= 0xDFFF }

  function CodePoint(high: int, low: int): (code: int)
    requires IsHighSurrogate(high) && IsLowSurrogate(low)
    ensures 0x10000 <= code < 0x110000
  {
    0x10000 + high % 0x400 * 0x400 + low % 0x400
  }

  /** utf16_literal_to_utf8: the octets and the length of the escape, unless it is invalid. */
  function Utf16Escape(c: seq<byte>, p: nat, end: nat): (r: Option<(seq<byte>, nat)>)
    requires end <= |c|
    ensures r.Some? ==> p + r.value.1 <= end
    ensures r.Some? ==> (r.value.1 == 6 && 1 <= |r.value.0| <= 3) || (r.value.1 == 12 && |r.value.0| == 4)
  {
    if end - p < 6 then None
    else
      var first := Hex4(c[p + 2..p + 6]);
      if IsLowSurrogate(first) then None
      else if !IsHighSurrogate(first) then Some((Utf8(first), 6))
      else if end - p < 12 || c[p + 6] != BACKSLASH || c[p + 7] != LETTER_U then None
      else
        var second := Hex4(c[p + 8..p + 12]);
        if IsLowSurrogate(second) then Some((Utf8(CodePoint(first, second)), 12)) else None
  }

  // ---- What escapes stand for ----

  /** A hexadecimal digit of either case. */
  predicate DigitOf(b: byte, d: int) {
    0 <= d < 16 && (b == "0123456789abcdef"[d] as int || b == "0123456789ABCDEF"[d] as int)
  }

  lemma DigitReads(b: byte, d: int)
    requires DigitOf(b, d)
    ensures IsHex(b) && HexValue(b) == d
  {}

  /** Everything else is no digit. */
  lemma OtherIsNoDigit(b: byte)
    requires IsHex(b)
    ensures DigitOf(b, HexValue(b))
  {}

  /** The escape of a 16-bit number: a backslash, a u, and four hexadecimal digits, most significant first. */
  predicate EscapeOf(c: seq<byte>, p: nat, code: int) {
    && p + 6 <= |c| && c[p] == '\\' as int && c[p + 1] == 'u' as int && 0 <= code < 0x10000
    && DigitOf(c[p + 2], code / 0x1000) && DigitOf(c[p + 3], code / 0x100 % 0x10)
    && DigitOf(c[p + 4], code / 0x10 % 0x10) && DigitOf(c[p + 5], code % 0x10)
  }

  lemma DigitsRead(c: seq<byte>, p: nat, code: int)
    requires EscapeOf(c, p, code)
    ensures Hex4(c[p + 2..p + 6]) == code
  {
    var s := c[p + 2..p + 6];
    DigitReads(s[0], code / 0x1000);
    DigitReads(s[1], code / 0x100 % 0x10);
    DigitReads(s[2], code / 0x10 % 0x10);
    DigitReads(s[3], code % 0x10);
    hide DigitOf, IsHex, HexValue;
    var a, b := code / 0x10, code / 0x100;
    assert b == a / 0x10 && code / 0x1000 == b / 0x10;
  }

  /** The escape of any code point below 0x10000 that is no surrogate gives its UTF-8 octets. */
  lemma EscapeReads(c: seq<byte>, p: nat, end: nat, code: int)
    requires EscapeOf(c, p, code) && p + 6 <= end <= |c| && !(0xD800 <= code <= 0xDFFF)
    ensures var r := Utf16Escape(c, p, end); r.Some? && r.value.1 == 6 && Utf8Decode(r.value.0) == code
  {
    hide Utf8Decode, Utf8, EscapeOf;
    DigitsRead(c, p, code);
    Utf8RoundTrip(code);
  }

  /** The escapes of the two surrogates of any code point from 0x10000 on give its UTF-8 octets. */
  lemma PairReads(c: seq<byte>, p: nat, end: nat, code: int)
    requires 0x10000 <= code < 0x110000 && p + 12 <= end <= |c|
    requires EscapeOf(c, p, 0xD800 + (code - 0x10000) / 0x400) && EscapeOf(c, p + 6, 0xDC00 + (code - 0x10000) % 0x400)
    ensures var r := Utf16Escape(c, p, end); r.Some? && r.value.1 == 12 && Utf8Decode(r.value.0) == code
  {
    hide Utf8Decode, Utf8, EscapeOf, Hex4, CodePoint;
    var high, low := (code - 0x10000) / 0x400, (code - 0x10000) % 0x400;
    DigitsRead(c, p, 0xD800 + high);
    DigitsRead(c, p + 6, 0xDC00 + low);
    assert code == 0x10000 + high * 0x400 + low;
    Surrogates(high, low);
    Utf8RoundTrip(code);
    TwoEscapes(c, p, end, 0xD800 + high, 0xDC00 + low);
  }

  lemma TwoEscapes(c: seq<byte>, p: nat, end: nat, high: int, low: int)
    requires p + 12 <= end <= |c| && IsHighSurrogate(high) && IsLowSurrogate(low)
    requires EscapeOf(c, p, high) && EscapeOf(c, p + 6, low)
    ensures Utf16Escape(c, p, end) == Some((Utf8(CodePoint(high, low)), 12))
  {
    hide Utf8, Hex4, CodePoint, DigitOf;
    DigitsRead(c, p, high);
    DigitsRead(c, p + 6, low);
    assert c[p + 6 + 1] == c[p + 7];
    assert c[p + 6 + 2..p + 6 + 6] == c[p + 8..p + 12];
    hide EscapeOf;
  }

  lemma Surrogates(high: int, low: int)
    requires 0 <= high < 0x400 && 0 <= low < 0x400
    ensures CodePoint(0xD800 + high, 0xDC00 + low) == 0x10000 + high * 0x400 + low
  {}

  ghost predicate LowSurrogateAt(c: seq<byte>, p: nat) {
    exists low :: 0xDC00 <= low <= 0xDFFF && EscapeOf(c, p, low)
  }

  /** A surrogate that is not the first of a pair, or has no second one behind it, is an error. */
  lemma LoneSurrogateFails(c: seq<byte>, p: nat, end: nat, code: int)
    requires EscapeOf(c, p, code) && p + 6 <= end <= |c| && 0xD800 <= code <= 0xDFFF
    requires 0xD800 <= code <= 0xDBFF && p + 12 <= end ==> !LowSurrogateAt(c, p + 6)
    ensures Utf16Escape(c, p, end).None?
  {
    hide DigitOf;
    DigitsRead(c, p, code);
    if code <= 0xDBFF && p + 12 <= end && c[p + 6] == BACKSLASH && c[p + 7] == LETTER_U {
      EscapeRead(c, p + 6);
      hide EscapeOf;
    }
  }

  /** Four digits are the escape of some number. */
  lemma DigitsSpell(c: seq<byte>, p: nat)
    requires p + 6 <= |c| && c[p] == BACKSLASH && c[p + 1] == LETTER_U
    requires IsHex(c[p + 2]) && IsHex(c[p + 3]) && IsHex(c[p + 4]) && IsHex(c[p + 5])
    ensures EscapeOf(c, p, Hex4(c[p + 2..p + 6]))
  {
    hide DigitOf, IsHex, HexValue, Hex4, EscapeOf;
    var s := c[p + 2..p + 6];
    assert s[0] == c[p + 2] && s[1] == c[p + 3] && s[2] == c[p + 4] && s[3] == c[p + 5];
    Hex4Is(s);
    OtherIsNoDigit(s[0]);
    OtherIsNoDigit(s[1]);
    OtherIsNoDigit(s[2]);
    OtherIsNoDigit(s[3]);
    EscapeBy(c, p, HexValue(s[0]), HexValue(s[1]), HexValue(s[2]), HexValue(s[3]));
  }

  lemma EscapeBy(s: seq<byte>, p: nat, a: int, b: int, c: int, d: int)
    requires p + 6 <= |s| && s[p] == BACKSLASH && s[p + 1] == LETTER_U
    requires DigitOf(s[p + 2], a) && DigitOf(s[p + 3], b) && DigitOf(s[p + 4], c) && DigitOf(s[p + 5], d)
    ensures EscapeOf(s, p, a * 0x1000 + b * 0x100 + c * 0x10 + d)
  {
    DigitBounds(s[p + 2], a);
    DigitBounds(s[p + 3], b);
    DigitBounds(s[p + 4], c);
    DigitBounds(s[p + 5], d);
    hide DigitOf;
    FourDigits(a, b, c, d);
  }

  lemma DigitBounds(b: byte, d: int)
    requires DigitOf(b, d)
    ensures 0 <= d < 16
  {}

  lemma Hex4Is(s: seq<byte>)
    requires |s| == 4 && IsHex(s[0]) && IsHex(s[1]) && IsHex(s[2]) && IsHex(s[3])
    ensures Hex4(s) == HexValue(s[0]) * 0x1000 + HexValue(s[1]) * 0x100 + HexValue(s[2]) * 0x10 + HexValue(s[3])
  {}

  lemma NoDigitIsZero(s: seq<byte>)
    requires |s| == 4 && Hex4(s) != 0
    ensures IsHex(s[0]) && IsHex(s[1]) && IsHex(s[2]) && IsHex(s[3])
  {
    hide IsHex;
  }

  /** What is read as a number other than zero is the escape of that number. */
  lemma EscapeRead(c: seq<byte>, p: nat)
    requires p + 6 <= |c| && c[p] == BACKSLASH && c[p + 1] == LETTER_U
    ensures var code := Hex4(c[p + 2..p + 6]); code != 0 ==> EscapeOf(c, p, code)
  {
    hide IsHex, Hex4, EscapeOf;
    if Hex4(c[p + 2..p + 6]) != 0 {
      NoDigitIsZero(c[p + 2..p + 6]);
      DigitsSpell(c, p);
    }
  }

  lemma FourDigits(a: int, b: int, c: int, d: int)
    requires 0 <= a < 16 && 0 <= b < 16 && 0 <= c < 16 && 0 <= d < 16
    ensures var v := a * 0x1000 + b * 0x100 + c * 0x10 + d;
            v / 0x1000 == a && v / 0x100 % 0x10 == b && v / 0x10 % 0x10 == c && v % 0x10 == d
  {
    var v := a * 0x1000 + b * 0x100 + c * 0x10 + d;
    assert v / 0x10 == a * 0x100 + b * 0x10 + c;
    assert v / 0x100 == a * 0x10 + b;
    assert v / 0x1000 == a;
  }

  // ---- The two passes ----

  /** The first pass: the closing quote, stepping over every backslash and what follows it. */
  function ClosingQuote(c: seq<byte>, i: nat): (r: Option<nat>)
    requires i <= |c|
    ensures r.Some? ==> i <= r.value < |c| && c[r.value] == QUOTE
    decreases |c| - i
  {
    if i == |c| then None
    else if c[i] == QUOTE then Some(i)
    else if c[i] != BACKSLASH then ClosingQuote(c, i + 1)
    else if i + 1 == |c| then None
    else ClosingQuote(c, i + 2)
  }

  /** What a backslash and the octets behind it stand for in the second pass. */
  function EscapeAt(c: seq<byte>, p: nat, end: nat): (r: Option<(seq<byte>, nat)>)
    requires p < end < |c|
    ensures r.Some? ==> |r.value.0| >= 1 && r.value.1 >= 2 && p + r.value.1 <= end + 1
    ensures r.Some? ==>
              || (r.value.1 == 2 && |r.value.0| == 1)
              || (r.value.1 == 6 && |r.value.0| <= 3)
              || (r.value.1 == 12 && |r.value.0| == 4)
  {
    var e := c[p + 1];
    if e == 98 then Some(([8], 2))
    else if e == 102 then Some(([12], 2))
    else if e == 110 then Some(([10], 2))
    else if e == 114 then Some(([13], 2))
    else if e == 116 then Some(([9], 2))
    else if e == 34 || e == 92 || e == 47 then Some(([e], 2))
    else if e == LETTER_U then Utf16Escape(c, p, end)
    else None
  }

  /** The escapes of one letter, RFC 8259 section 7. */
  lemma LettersRead(c: seq<byte>, p: nat, end: nat)
    requires p < end < |c|
    ensures c[p + 1] == 'b' as int ==> EscapeAt(c, p, end) == Some(([0x08], 2))
    ensures c[p + 1] == 'f' as int ==> EscapeAt(c, p, end) == Some(([0x0C], 2))
    ensures c[p + 1] == 'n' as int ==> EscapeAt(c, p, end) == Some((['\n' as int], 2))
    ensures c[p + 1] == 'r' as int ==> EscapeAt(c, p, end) == Some((['\r' as int], 2))
    ensures c[p + 1] == 't' as int ==> EscapeAt(c, p, end) == Some((['\t' as int], 2))
    ensures c[p + 1] as char in "\"\\/" ==> EscapeAt(c, p, end) == Some(([c[p + 1]], 2))
    ensures c[p + 1] as char !in "bfnrt\"\\/u" ==> EscapeAt(c, p, end).None?
  {}

  /** The second pass, from p to the closing quote at `end`. */
  function Unescape(c: seq<byte>, p: nat, end: nat): (r: Parsed<seq<byte>>)
    requires p <= end + 1 && end < |c|
    ensures r.Done? ==> end <= r.end <= end + 1
    decreases end + 1 - p
  {
    if p >= end then Done([], p)
    else if c[p] != BACKSLASH then Prepend([c[p]], Unescape(c, p + 1, end))
    else
      match EscapeAt(c, p, end)
      case None => Failed(p)
      case Some(e) => Prepend(e.0, Unescape(c, p + e.1, end))
  }

  function Prepend(octets: seq<byte>, rest: Parsed<seq<byte>>): Parsed<seq<byte>> {
    match rest
    case Done(value, end) => Done(octets + value, end)
    case Failed(at) => Failed(at)
  }

  /** What C sees of a buffer: everything before the first NUL. */
  function CString(octets: seq<byte>): cstring {
    if octets == [] || octets[0] == 0 then [] else [octets[0]] + CString(octets[1..])
  }

  /** parse_string at o; the parser goes on behind the closing quote, even where the second pass
      ran over it. */
  function ReadString(c: seq<byte>, o: nat): (r: Parsed<cstring>)
    ensures r.Done? ==> o < r.end <= |c|
  {
    if o >= |c| || c[o] != QUOTE then Failed(o + 1)
    else
      match ClosingQuote(c, o + 1)
      case None => Failed(o + 1)
      case Some(end) =>
        match Unescape(c, o + 1, end)
        case Done(octets, _) => Done(CString(octets), end + 1)
        case Failed(at) => Failed(at)
  }

  // ---- Room for the output ----

  /** Whether the first pass, started at `start`, passes over p as the second half of an escape. */
  predicate SecondHalf(c: seq<byte>, start: nat, p: nat)
    requires start <= p <= |c|
    decreases p
  {
    p > start && c[p - 1] == BACKSLASH && !SecondHalf(c, start, p - 1)
  }

  /** How many escapes the first pass has counted when it reaches p. */
  function Escapes(c: seq<byte>, start: nat, p: nat): (r: nat)
    requires start <= p <= |c|
    ensures r <= p - start
    decreases p
  {
    if p == start then 0 else Escapes(c, start, p - 1) + (if SecondHalf(c, start, p) then 1 else 0)
  }

  /** Escapes of the first pass do not overlap, so k octets see at most half of k, rounded up. */
  lemma {:induction false} EscapesGrow(c: seq<byte>, start: nat, p: nat, k: nat)
    requires start <= p && p + k <= |c|
    ensures Escapes(c, start, p + k) <= Escapes(c, start, p) + (k + 1) / 2
    ensures SecondHalf(c, start, p + k) || k == 0 ||
            Escapes(c, start, p + k) <= Escapes(c, start, p) + k / 2
    decreases k
  {
    if k == 1 {
    } else if k > 1 {
      EscapesGrow(c, start, p, k - 1);
      EscapesGrow(c, start, p, k - 2);
    }
  }

  /** What the first pass allocates: one octet for each octet from the opening quote to the closing
      one, less the escapes, and one for the terminator. */
  function Allocation(c: seq<byte>, start: nat, end: nat): (r: nat)
    requires start <= end <= |c|
  {
    end - start + 1 - Escapes(c, start, end) + 1
  }

  lemma EscapesStep(c: seq<byte>, start: nat, p: nat, k: nat)
    requires start <= p && p + k <= |c| && p < |c|
    ensures c[p] != BACKSLASH && k == 1 ==> Escapes(c, start, p + k) <= Escapes(c, start, p) + 1
    ensures SecondHalf(c, start, p + 1) ==> c[p] == BACKSLASH
    ensures k % 2 == 0 ==> Escapes(c, start, p + k) <= Escapes(c, start, p) + k / 2
  {
    EscapesGrow(c, start, p, k);
    if k % 2 == 0 && k > 0 {
      EscapesGrow(c, start, p, k - 1);
      EscapesGrow(c, start, p, k - 2);
    }
  }

  /** Wherever the two passes see escapes start, the second pass stays within the octets it has
      consumed, less the escapes the first pass counted there. */
  lemma {:induction false} OutputFits(c: seq<byte>, start: nat, p: nat, end: nat, out: nat)
    requires start <= p <= end + 1 && start <= end < |c| && Unescape(c, p, end).Done?
    requires c[end] != BACKSLASH && out + Escapes(c, start, p) <= p - start
    ensures out + |Unescape(c, p, end).value| + 1 <= Allocation(c, start, end)
    decreases end + 1 - p
  {
    hide EscapeAt;
    if p >= end {
      assert Escapes(c, start, end + 1) == Escapes(c, start, end) + (if SecondHalf(c, start, end + 1) then 1 else 0);
    } else if c[p] != BACKSLASH {
      assert !SecondHalf(c, start, p + 1);
      OutputFits(c, start, p + 1, end, out + 1);
    } else {
      var e := EscapeAt(c, p, end).value;
      EscapesStep(c, start, p, e.1);
      OutputFits(c, start, p + e.1, end, out + |e.0|);
    }
  }

  // ---- parse_string with its buffers ----

  /** The number the first n digits stand for. */
  function HexPrefix(s: seq<byte>, n: nat): (v: int)
    requires n <= |s| && forall i :: 0 <= i < n ==> IsHex(s[i])
    ensures v >= 0
  {
    if n == 0 then 0 else HexPrefix(s, n - 1) * 0x10 + HexValue(s[n - 1])
  }

  lemma HexOfFour(s: seq<byte>)
    requires |s| == 4 && forall i :: 0 <= i < 4 ==> IsHex(s[i])
    ensures HexPrefix(s, 4) == Hex4(s)
  {
    assert HexPrefix(s, 1) == HexValue(s[0]);
    assert HexPrefix(s, 2) == HexValue(s[0]) * 0x10 + HexValue(s[1]);
    assert HexPrefix(s, 3) == HexPrefix(s, 2) * 0x10 + HexValue(s[2]);
  }

  /** parse_hex4. */
  method ParseHex4(c: seq<byte>, p: nat) returns (h: int)
    requires p + 4 <= |c|
    ensures h == Hex4(c[p..p + 4])
  {
    h := 0;
    ghost var s := c[p..p + 4];
    var i := 0;
    while i < 4
      invariant 0 <= i <= 4
      invariant forall k :: 0 <= k < i ==> IsHex(s[k])
      invariant h == HexPrefix(s, i) * if i < 4 then 0x10 else 1
    {
      var digit := c[p + i];
      assert digit == s[i];
      hide HexPrefix;
      if 48 <= digit <= 57 {
        h := h + digit - 48;
      } else if 65 <= digit <= 70 {
        h := h + 10 + digit - 65;
      } else if 97 <= digit <= 102 {
        h := h + 10 + digit - 97;
      } else {
        return 0;
      }
      assert h == HexPrefix(s, i + 1) by { HexStep(s, i); }
      if i < 3 {
        h := h * 0x10;
      }
      i := i + 1;
    }
    HexOfFour(s);
  }

  lemma HexStep(s: seq<byte>, n: nat)
    requires n < |s| && forall i :: 0 <= i <= n ==> IsHex(s[i])
    ensures HexPrefix(s, n + 1) == HexPrefix(s, n) * 0x10 + HexValue(s[n])
  {}

  function ShiftRight6(code: int, times: nat): int {
    if times == 0 then code else ShiftRight6(code, times - 1) / 0x40
  }

  function LeadMark(length: nat): int {
    if length == 1 then 0 else if length == 2 then 0xC0 else if length == 3 then 0xE0 else 0xF0
  }

  function Continuation(code: int): byte {
    0x80 + code % 0x40
  }

  /** The bit operations of the encoder, on the 32-bit words it works on. */
  lemma BitForms(x: bv32, y: bv32)
    ensures ((x | 0x80) & 0xBF) == 0x80 + x % 0x40
    ensures x >> 6 == x / 0x40
    ensures x < 0x20 ==> ((x | 0xC0) & 0xFF) == 0xC0 + x
    ensures x < 0x10 ==> ((x | 0xE0) & 0xFF) == 0xE0 + x
    ensures x < 8 ==> ((x | 0xF0) & 0xFF) == 0xF0 + x
    ensures x < 0x80 ==> x & 0x7F == x
    ensures (((x & 0x3FF) << 10) | (y & 0x3FF)) == x % 0x400 * 0x400 + y % 0x400
  {}

  /** How many octets there are to be, and the mark of the first one. */
  method Utf8Shape(codepoint: int) returns (length: nat, mark: int)
    requires 0 <= codepoint < 0x110000
    ensures length == |Utf8(codepoint)| && mark == LeadMark(length)
  {
    length, mark := 1, 0;
    if codepoint < 0x80 {
    } else if codepoint < 0x800 {
      length, mark := 2, 0xC0;
    } else if codepoint < 0x10000 {
      length, mark := 3, 0xE0;
    } else {
      length, mark := 4, 0xF0;
    }
  }

  /** The end of utf16_literal_to_utf8: the octets of a code point, last one first. */
  method WriteUtf8(codepoint: int, output: array<byte>, at: nat) returns (next: nat)
    requires 0 <= codepoint < 0x110000 && at + |Utf8(codepoint)| <= output.Length
    modifies output
    ensures next == at + |Utf8(codepoint)| && output[..next] == old(output[..at]) + Utf8(codepoint)
  {
    ghost var octets := Utf8(codepoint);
    assert ShiftRight6(codepoint, 0) == codepoint;
    Utf8Octets(codepoint);
    hide Utf8, ShiftRight6, Continuation, LeadMark;
    var code := codepoint;
    var length, mark := Utf8Shape(codepoint);
    var position := length - 1;
    while position > 0
      invariant 0 <= position < length == |octets|
      invariant code == ShiftRight6(codepoint, length - 1 - position) && code >= 0
      invariant output[..at] == old(output[..at])
      invariant forall k :: position < k < length ==> output[at + k] == octets[k]
    {
      output[at + position] := Continuation(code);
      Shifted(codepoint, length - 1 - position);
      code := code / 0x40;
      position := position - 1;
    }
    output[at] := mark + code;
    next := at + length;
  }

  lemma Shifted(code: int, times: nat)
    requires ShiftRight6(code, times) >= 0
    ensures ShiftRight6(code, times + 1) == ShiftRight6(code, times) / 0x40 >= 0
  {}

  lemma Utf8Octets(code: int)
    requires 0 <= code < 0x110000
    ensures var s := Utf8(code);
            && |s| == (if code < 0x80 then 1 else if code < 0x800 then 2 else if code < 0x10000 then 3 else 4)
            && s[0] == LeadMark(|s|) + ShiftRight6(code, |s| - 1)
            && forall k :: 1 <= k < |s| ==> s[k] == Continuation(ShiftRight6(code, |s| - 1 - k))
  {
    var a, b := code / 0x40, code / 0x1000;
    assert b == a / 0x40 && code / 0x40000 == b / 0x40;
    assert ShiftRight6(code, 1) == a;
    assert ShiftRight6(code, 2) == b;
    assert ShiftRight6(code, 3) == b / 0x40;
  }

  /** utf16_literal_to_utf8: zero for an invalid escape. */
  method ParseUtf16(c: seq<byte>, p: nat, end: nat, output: array<byte>, at: nat) returns (length: nat, next: nat)
    requires p + 1 < |c| && end <= |c|
    requires var e := Utf16Escape(c, p, end); e.Some? ==> at + |e.value.0| <= output.Length
    modifies output
    ensures var e := Utf16Escape(c, p, end);
            && (e.None? ==> length == 0 && next == at)
            && (e.Some? ==>
                  && length == e.value.1 && next == at + |e.value.0|
                  && output[..next] == old(output[..at]) + e.value.0)
  {
    hide Utf8, Hex4;
    length, next := 0, at;
    if end - p < 6 {
      return;
    }
    var first := ParseHex4(c, p + 2);
    if 0xDC00 <= first <= 0xDFFF {
      return;
    }
    var sequence, codepoint := 6, first;
    if 0xD800 <= first <= 0xDBFF {
      if end - (p + 6) < 6 {
        return;
      }
      if c[p + 6] != BACKSLASH || c[p + 7] != LETTER_U {
        return;
      }
      var second := ParseHex4(c, p + 8);
      if second < 0xDC00 || second > 0xDFFF {
        return;
      }
      sequence, codepoint := 12, 0x10000 + first % 0x400 * 0x400 + second % 0x400;
    }
    next := WriteUtf8(codepoint, output, at);
    length := sequence;
  }
}

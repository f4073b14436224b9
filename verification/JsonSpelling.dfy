/** The strings the parser accepts, piece by piece, and what they spell. */
module JsonSpelling {
  import opened CTypes
  import opened JsonPrint
  import opened JsonString
  import opened JsonTextRoundTrip

  /** The escapes of one letter, RFC 8259 section 7. */
  predicate Letter(letter: byte, meaning: byte) {
    || (letter as char in "\"\\/" && meaning == letter)
    || (letter == 'b' as int && meaning == 0x08) || (letter == 'f' as int && meaning == 0x0C)
    || (letter == 'n' as int && meaning == '\n' as int) || (letter == 'r' as int && meaning == '\r' as int)
    || (letter == 't' as int && meaning == '\t' as int)
  }

  predicate Surrogate(code: int) { 0xD800 <= code <= 0xDFFF }

  ghost predicate OneEscape(c: seq<byte>, p: nat, octets: seq<byte>) {
    exists code :: EscapeOf(c, p, code) && !Surrogate(code) && octets == Utf8(code)
  }

  ghost predicate PairEscape(c: seq<byte>, p: nat, octets: seq<byte>) {
    exists high, low ::
      SurrogatesAt(c, p, high, low) && octets == Utf8(0x10000 + (high - 0xD800) * 0x400 + (low - 0xDC00))
  }

  predicate SurrogatesAt(c: seq<byte>, p: nat, high: int, low: int) {
    EscapeOf(c, p, high) && EscapeOf(c, p + 6, low) && 0xD800 <= high <= 0xDBFF && 0xDC00 <= low <= 0xDFFF
  }

  /** The n octets at p stand for the octets given: one that is neither a quote nor a backslash for itself, or an
      escape for what it means. */
  ghost predicate Piece(c: seq<byte>, p: nat, n: nat, octets: seq<byte>) {
    && p + n <= |c|
    && match n
       case 1 => c[p] != '"' as int && c[p] != '\\' as int && octets == [c[p]]
       case 2 => c[p] == '\\' as int && |octets| == 1 && Letter(c[p + 1], octets[0])
       case 6 => OneEscape(c, p, octets)
       case 12 => PairEscape(c, p, octets)
       case _ => false
  }

  /** The text from p to end spells the octets. */
  ghost predicate Spells(c: seq<byte>, p: nat, end: nat, octets: seq<byte>)
    decreases end - p
  {
    if p >= end then p == end && octets == []
    else exists n: nat, k: nat :: SpellsBy(c, p, end, octets, n, k)
  }

  ghost predicate SpellsBy(c: seq<byte>, p: nat, end: nat, octets: seq<byte>, n: nat, k: nat)
    requires p < end
    decreases end - p, 0
  {
    && 1 <= n && p + n <= end && k <= |octets| && Piece(c, p, n, octets[..k])
    && Spells(c, p + n, end, octets[k..])
  }

  // ---- What is spelled is read ----

  /** The first pass steps over a backslash and what follows it, and then over four digits. */
  lemma EscapePassed(c: seq<byte>, p: nat, code: int)
    requires EscapeOf(c, p, code)
    ensures ClosingQuote(c, p) == ClosingQuote(c, p + 6)
  {
    DigitPlain(c[p + 2], code / 0x1000);
    DigitPlain(c[p + 3], code / 0x100 % 0x10);
    DigitPlain(c[p + 4], code / 0x10 % 0x10);
    DigitPlain(c[p + 5], code % 0x10);
    hide DigitOf;
    PlainSkip(c, p + 2, 4);
  }

  lemma DigitPlain(b: byte, d: int)
    requires DigitOf(b, d)
    ensures b != QUOTE && b != BACKSLASH
  {}

  lemma OneEscapeReads(c: seq<byte>, p: nat, octets: seq<byte>, end: nat)
    requires OneEscape(c, p, octets) && p + 6 <= end < |c|
    ensures ClosingQuote(c, p) == ClosingQuote(c, p + 6) && c[p] == BACKSLASH
    ensures EscapeAt(c, p, end) == Some((octets, 6))
  {
    hide Utf8, DigitOf, Hex4, ClosingQuote;
    var code :| EscapeOf(c, p, code) && !Surrogate(code) && octets == Utf8(code);
    EscapePassed(c, p, code);
    DigitsRead(c, p, code);
    hide EscapeOf;
  }

  lemma PairEscapeReads(c: seq<byte>, p: nat, octets: seq<byte>, end: nat)
    requires PairEscape(c, p, octets) && p + 12 <= end < |c|
    ensures ClosingQuote(c, p) == ClosingQuote(c, p + 12) && c[p] == BACKSLASH
    ensures EscapeAt(c, p, end) == Some((octets, 12))
  {
    hide Utf8, DigitOf, Utf16Escape;
    var high, low :|
      SurrogatesAt(c, p, high, low) && octets == Utf8(0x10000 + (high - 0xD800) * 0x400 + (low - 0xDC00));
    EscapePassed(c, p, high);
    EscapePassed(c, p + 6, low);
    TwoEscapes(c, p, end, high, low);
    Surrogates(high - 0xD800, low - 0xDC00);
    hide CodePoint;
  }

  lemma LetterReads(c: seq<byte>, p: nat, end: nat, meaning: byte)
    requires p + 2 <= end < |c| && c[p] == BACKSLASH && Letter(c[p + 1], meaning)
    ensures ClosingQuote(c, p) == ClosingQuote(c, p + 2) && EscapeAt(c, p, end) == Some(([meaning], 2))
  {
    LettersRead(c, p, end);
  }

  /** One piece as the two passes see it. */
  lemma PieceReads(c: seq<byte>, p: nat, n: nat, octets: seq<byte>, end: nat)
    requires n >= 1 && Piece(c, p, n, octets) && p + n <= end < |c|
    ensures ClosingQuote(c, p) == ClosingQuote(c, p + n)
    ensures Unescape(c, p, end) == Prepend(octets, Unescape(c, p + n, end))
  {
    hide EscapeAt, Letter, OneEscape, PairEscape;
    if n == 2 {
      LetterReads(c, p, end, octets[0]);
      assert octets == [octets[0]];
      hide ClosingQuote;
    } else if n == 6 {
      OneEscapeReads(c, p, octets, end);
      hide ClosingQuote;
    } else if n == 12 {
      PairEscapeReads(c, p, octets, end);
      hide ClosingQuote;
    }
  }

  lemma {:induction false} SpelledReads(c: seq<byte>, p: nat, end: nat, octets: seq<byte>)
    requires p <= end < |c| && c[end] == QUOTE && Spells(c, p, end, octets)
    ensures ClosingQuote(c, p) == Some(end) && Unescape(c, p, end) == Done(octets, end)
    decreases end - p
  {
    hide Piece;
    if p < end {
      var n: nat, k: nat :| SpellsBy(c, p, end, octets, n, k);
      PieceReads(c, p, n, octets[..k], end);
      SpelledReads(c, p + n, end, octets[k..]);
      assert octets == octets[..k] + octets[k..];
      hide ClosingQuote, Unescape, Spells;
    }
  }

  /** Whatever a string spells is read, up to the first NUL. */
  lemma StringComplete(c: seq<byte>, o: nat, end: nat, octets: seq<byte>)
    requires o < end < |c| && c[o] == '"' as int && c[end] == '"' as int && Spells(c, o + 1, end, octets)
    ensures ReadString(c, o) == Done(CString(octets), end + 1)
  {
    hide Spells, ClosingQuote, Unescape, CString;
    SpelledReads(c, o + 1, end, octets);
  }

  // ---- What is read is spelled ----

  /** An escape without its four digits. The parser takes it for a NUL, whatever its octets are. */
  predicate BadEscapeAt(c: seq<byte>, start: nat, p: nat) {
    && start <= p && p + 6 <= |c| && c[p] == '\\' as int && c[p + 1] == 'u' as int && !SecondHalf(c, start, p)
    && !(IsHex(c[p + 2]) && IsHex(c[p + 3]) && IsHex(c[p + 4]) && IsHex(c[p + 5]))
  }

  lemma BadEscapeIsNul(c: seq<byte>, start: nat, p: nat, end: nat)
    requires BadEscapeAt(c, start, p) && p + 6 <= end < |c|
    ensures EscapeAt(c, p, end) == Some(([0], 6))
  {
    var s := c[p + 2..p + 6];
    assert s[0] == c[p + 2] && s[1] == c[p + 3] && s[2] == c[p + 4] && s[3] == c[p + 5];
    hide IsHex, SecondHalf;
    assert Hex4(s) == 0;
  }

  predicate WellEscaped(c: seq<byte>, start: nat, end: nat) {
    forall p: nat :: start <= p && p + 6 <= end ==> !BadEscapeAt(c, start, p)
  }

  lemma Utf16Cases(c: seq<byte>, p: nat, end: nat)
    requires end <= |c| && Utf16Escape(c, p, end).Some? && p + 6 <= end
    ensures var r, first := Utf16Escape(c, p, end).value, Hex4(c[p + 2..p + 6]);
            if r.1 == 6 then !Surrogate(first) && r.0 == Utf8(first)
            else
              && r.1 == 12 && p + 12 <= end && c[p + 6] == BACKSLASH && c[p + 7] == LETTER_U
              && var second := Hex4(c[p + 8..p + 12]);
              && IsHighSurrogate(first) && IsLowSurrogate(second) && r.0 == Utf8(CodePoint(first, second))
  {
    hide Utf8, Hex4, CodePoint;
  }

  /** Whatever stands behind a backslash and a u with four digits is read as it is spelled. */
  lemma Utf16Sound(c: seq<byte>, p: nat, end: nat)
    requires p + 6 <= end < |c| && c[p] == BACKSLASH && c[p + 1] == LETTER_U && Utf16Escape(c, p, end).Some?
    requires IsHex(c[p + 2]) && IsHex(c[p + 3]) && IsHex(c[p + 4]) && IsHex(c[p + 5])
    ensures var r := Utf16Escape(c, p, end).value;
            && Piece(c, p, r.1, r.0) && p + r.1 <= end
            && c[p + r.1 - 1] != BACKSLASH
  {
    hide Utf8, Hex4, CodePoint, DigitOf, Utf16Escape, EscapeOf;
    Utf16Cases(c, p, end);
    DigitsSpell(c, p);
    var r, first := Utf16Escape(c, p, end).value, Hex4(c[p + 2..p + 6]);
    if r.1 == 12 {
      var second := Hex4(c[p + 8..p + 12]);
      assert c[p + 6 + 2..p + 6 + 6] == c[p + 8..p + 12];
      EscapeRead(c, p + 6);
      EscapeEnds(c, p + 6, second);
      Surrogates(first - 0xD800, second - 0xDC00);
      assert SurrogatesAt(c, p, first, second);
    }
  }

  lemma EscapeEnds(c: seq<byte>, p: nat, code: int)
    requires EscapeOf(c, p, code)
    ensures c[p + 5] != BACKSLASH
  {
    DigitPlain(c[p + 5], code % 0x10);
  }

  /** An escape of one letter that is read is one of those there are. */
  lemma LetterSound(c: seq<byte>, p: nat, end: nat)
    requires p + 2 <= end < |c| && c[p] == BACKSLASH && c[p + 1] != LETTER_U && EscapeAt(c, p, end).Some?
    ensures var e := EscapeAt(c, p, end).value; e.1 == 2 && Piece(c, p, 2, e.0)
  {
    LettersRead(c, p, end);
  }

  lemma HalvesStep(c: seq<byte>, start: nat, p: nat)
    requires start <= p < |c| && !SecondHalf(c, start, p)
    ensures c[p] != BACKSLASH ==> !SecondHalf(c, start, p + 1)
    ensures p + 2 <= |c| && c[p] == BACKSLASH ==> !SecondHalf(c, start, p + 2)
    ensures forall q :: p < q <= |c| && c[q - 1] != BACKSLASH ==> !SecondHalf(c, start, q)
  {}

  lemma PlainStep(c: seq<byte>, p: nat, end: nat)
    requires p < end < |c| && c[p] != BACKSLASH && ClosingQuote(c, p) == Some(end)
    ensures Piece(c, p, 1, [c[p]]) && ClosingQuote(c, p + 1) == Some(end)
    ensures Unescape(c, p, end) == Prepend([c[p]], Unescape(c, p + 1, end))
  {
    hide EscapeAt;
  }

  /** What follows a backslash that starts an escape. */
  lemma EscapeStep(c: seq<byte>, start: nat, p: nat, end: nat)
    requires start <= p < end < |c| && c[p] == BACKSLASH && ClosingQuote(c, p) == Some(end) && c[end] == QUOTE
    requires !SecondHalf(c, start, p) && WellEscaped(c, start, end) && Unescape(c, p, end).Done?
    ensures var e := EscapeAt(c, p, end);
            && e.Some? && p + e.value.1 <= end && Piece(c, p, e.value.1, e.value.0)
            && ClosingQuote(c, p + e.value.1) == Some(end) && !SecondHalf(c, start, p + e.value.1)
            && Unescape(c, p, end) == Prepend(e.value.0, Unescape(c, p + e.value.1, end))
  {
    hide EscapeAt, Piece, Prepend;
    assert EscapeAt(c, p, end).Some?;
    HalvesStep(c, start, p);
    var e := EscapeAt(c, p, end).value;
    EscapeIs(c, start, p, end);
    PieceReads(c, p, e.1, e.0, end);
    hide ClosingQuote, Unescape, SecondHalf;
  }

  lemma EscapeIs(c: seq<byte>, start: nat, p: nat, end: nat)
    requires start <= p < end < |c| && c[p] == BACKSLASH && ClosingQuote(c, p) == Some(end)
    requires !SecondHalf(c, start, p) && WellEscaped(c, start, end) && EscapeAt(c, p, end).Some?
    ensures var e := EscapeAt(c, p, end).value;
            && p + e.1 <= end && e.1 >= 2 && Piece(c, p, e.1, e.0)
            && (e.1 == 2 || c[p + e.1 - 1] != BACKSLASH)
  {
    hide Piece, Utf16Escape;
    assert p + 2 <= end;
    if c[p + 1] == LETTER_U {
      assert EscapeAt(c, p, end) == Utf16Escape(c, p, end);
      LongEnough(c, p, end);
      assert !BadEscapeAt(c, start, p);
      Utf16Sound(c, p, end);
    } else {
      LetterSound(c, p, end);
    }
  }

  lemma LongEnough(c: seq<byte>, p: nat, end: nat)
    requires end <= |c| && Utf16Escape(c, p, end).Some?
    ensures p + 6 <= end
  {}

  lemma {:induction false} UnescapeSound(c: seq<byte>, start: nat, p: nat, end: nat)
    requires start <= p <= end < |c| && c[end] == QUOTE && ClosingQuote(c, p) == Some(end)
    requires !SecondHalf(c, start, p) && WellEscaped(c, start, end) && Unescape(c, p, end).Done?
    ensures Spells(c, p, end, Unescape(c, p, end).value)
    decreases end - p
  {
    hide Piece, WellEscaped, EscapeAt;
    if p < end {
      if c[p] != BACKSLASH {
        PlainStep(c, p, end);
        HalvesStep(c, start, p);
        UnescapeSound(c, start, p + 1, end);
        SpellsMore(c, p, end, 1, [c[p]], Unescape(c, p + 1, end).value);
      } else {
        EscapeStep(c, start, p, end);
        var e := EscapeAt(c, p, end).value;
        UnescapeSound(c, start, p + e.1, end);
        SpellsMore(c, p, end, e.1, e.0, Unescape(c, p + e.1, end).value);
      }
    }
  }

  lemma SpellsMore(c: seq<byte>, p: nat, end: nat, n: nat, octets: seq<byte>, rest: seq<byte>)
    requires 1 <= n && p + n <= end && Piece(c, p, n, octets) && Spells(c, p + n, end, rest)
    ensures Spells(c, p, end, octets + rest)
  {
    hide Piece;
    assert (octets + rest)[..|octets|] == octets && (octets + rest)[|octets|..] == rest;
    assert SpellsBy(c, p, end, octets + rest, n, |octets|);
  }

  /** A string between quotes, up to the first NUL. */
  ghost predicate IsString(c: seq<byte>, o: nat, s: cstring, e: nat) {
    && o + 1 < e <= |c| && c[o] == '"' as int && c[e - 1] == '"' as int
    && exists octets :: Spells(c, o + 1, e - 1, octets) && s == CString(octets)
  }

  /** parse_string reads exactly the strings that are spelled right, as long as every escape of a number has its
      four digits. */
  lemma StringIff(c: seq<byte>, o: nat, s: cstring, e: nat)
    requires e > 0 && WellEscaped(c, o + 1, e - 1)
    ensures ReadString(c, o) == Done(s, e) <==> IsString(c, o, s, e)
  {
    hide Spells, Unescape, CString, WellEscaped;
    if ReadString(c, o) == Done(s, e) {
      assert c[o] == QUOTE && ClosingQuote(c, o + 1) == Some(e - 1);
      UnescapeSound(c, o + 1, o + 1, e - 1);
    }
    if IsString(c, o, s, e) {
      var octets :| Spells(c, o + 1, e - 1, octets) && s == CString(octets);
      StringComplete(c, o, e - 1, octets);
    }
  }
}

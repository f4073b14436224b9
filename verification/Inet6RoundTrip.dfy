/** Every IPv6 address survives printing and parsing. */
module Inet6RoundTrip {
  import opened CTypes
  import opened Inet4
  import opened Inet6
  import opened Inet6Parse
  import opened Numerals

  // ---- Reading the pieces of a text ----

  /** The digits of a word, read from zero. */
  lemma {:induction false} HexReads(n: word, rest: cstring, tmp: Octets, colon: Option<nat>, saw: bool, tok: cstring)
    requires |tmp| <= 16 && (colon.Some? ==> colon.value <= |tmp|)
    ensures Parse6(Hex(n) + rest, tmp, colon, saw, 0, tok) == Parse6(rest, tmp, colon, true, n, tok)
    decreases n
  {
    var value: int := n;
    var last := [HexDigit(value % 16)];
    HexDigitReads(value % 16);
    if value < 16 {
      assert Hex(value) == last;
      assert (last + rest)[1..] == rest;
    } else {
      assert Hex(value) + rest == Hex(value / 16) + (last + rest);
      HexReads(value / 16, last + rest, tmp, colon, saw, tok);
      assert (last + rest)[1..] == rest;
    }
  }

  lemma HexDigitReads(d: int)
    requires 0 <= d < 16
    ensures IsHexDigit(HexDigit(d)) && HexDigitValue(HexDigit(d)) == d
  {}

  /** The decimal digits of an octet read as some hexadecimal word. */
  lemma {:induction false} DecimalReads(n: byte, rest: cstring, tmp: Octets, colon: Option<nat>, tok: cstring)
    returns (v: word)
    requires |tmp| <= 16 && (colon.Some? ==> colon.value <= |tmp|)
    ensures Parse6(Decimal(n) + rest, tmp, colon, false, 0, tok) == Parse6(rest, tmp, colon, true, v, tok)
    ensures n < 10 ==> v < 10
    ensures n < 100 ==> v < 0xA0
    ensures v < 0xA00
    decreases n
  {
    var value: int := n;
    var last := [ZERO + value % 10];
    if value < 10 {
      assert Decimal(value) == last;
      assert (last + rest)[1..] == rest;
      v := value;
    } else {
      assert Decimal(value) + rest == Decimal(value / 10) + (last + rest);
      var front := DecimalReads(value / 10, last + rest, tmp, colon, tok);
      assert (last + rest)[1..] == rest;
      var f: int := front;
      v := f * 16 + value % 10;
    }
  }

  lemma ColonReads(rest: cstring, tmp: Octets, colon: Option<nat>, saw: bool, val: word, tok: cstring)
    requires |tmp| <= 16 && (colon.Some? ==> colon.value <= |tmp|)
    ensures saw && |tmp| <= 14 ==>
              Parse6([COLON] + rest, tmp, colon, saw, val, tok) ==
              Parse6(rest, tmp + WordOctets(val), colon, false, 0, rest)
    ensures !saw && colon == None ==>
              Parse6([COLON] + rest, tmp, colon, saw, val, tok) == Parse6(rest, tmp, Some(|tmp|), false, val, rest)
  {
    assert ([COLON] + rest)[1..] == rest;
  }

  /** An IPv4 address at the end of the text. */
  lemma QuadReads(a: Octets, tmp: Octets, colon: Option<nat>)
    requires |a| == 4 && |tmp| <= 12 && (colon.Some? ==> colon.value <= |tmp|)
    ensures Parse6(Text4(a), tmp, colon, false, 0, Text4(a)) == Finish(tmp + a, colon)
  {
    hide *;
    Text4RoundTrip(a);
    var rest := [DOT] + Decimal(a[1]) + [DOT] + Decimal(a[2]) + [DOT] + Decimal(a[3]);
    QuadParts(a, rest);
    var v := DecimalReads(a[0], rest, tmp, colon, Text4(a));
    DotEnds(rest, tmp, colon, v, Text4(a), a);
  }

  lemma QuadParts(a: Octets, rest: cstring)
    requires |a| == 4 && rest == [DOT] + Decimal(a[1]) + [DOT] + Decimal(a[2]) + [DOT] + Decimal(a[3])
    ensures Text4(a) == Decimal(a[0]) + rest
  {
    hide Decimal;
  }

  lemma DotEnds(rest: cstring, tmp: Octets, colon: Option<nat>, v: word, tok: cstring, quad: Octets)
    requires rest != [] && rest[0] == DOT && |tmp| <= 12 && (colon.Some? ==> colon.value <= |tmp|)
    requires |quad| == 4 && Pton4(tok) == Some(quad)
    ensures Parse6(rest, tmp, colon, true, v, tok) == Finish(tmp + quad, colon)
  {
    hide Pton4, Finish;
  }

  /** From this state on, the rest of a text gives the address. */
  ghost predicate Yields(s: cstring, tmp: Octets, colon: Option<nat>, saw: bool, val: word, tok: cstring, a: Octets) {
    |tmp| <= 16 && (colon.Some? ==> colon.value <= |tmp|) && Parse6(s, tmp, colon, saw, val, tok) == Some(a)
  }

  lemma YieldsColon(rest: cstring, tmp: Octets, colon: Option<nat>, val: word, tok: cstring, a: Octets)
    requires |tmp| <= 14 && (colon.Some? ==> colon.value <= |tmp|)
    requires Yields(rest, tmp + WordOctets(val), colon, false, 0, rest, a)
    ensures Yields([COLON] + rest, tmp, colon, true, val, tok, a)
  {
    hide Parse6;
    ColonReads(rest, tmp, colon, true, val, tok);
  }

  lemma YieldsTwoColons(rest: cstring, tmp: Octets, tok: cstring, a: Octets)
    requires Yields(rest, tmp, Some(|tmp|), false, 0, rest, a)
    ensures Yields([COLON] + rest, tmp, None, false, 0, tok, a)
  {
    hide Parse6;
    ColonReads(rest, tmp, None, false, 0, tok);
  }

  lemma YieldsHex(n: word, rest: cstring, tmp: Octets, colon: Option<nat>, tok: cstring, a: Octets)
    requires Yields(rest, tmp, colon, true, n, tok, a)
    ensures Yields(Hex(n) + rest, tmp, colon, false, 0, tok, a)
  {
    hide Parse6;
    HexReads(n, rest, tmp, colon, false, tok);
  }

  lemma YieldsQuad(quad: Octets, tmp: Octets, colon: Option<nat>, a: Octets)
    requires |quad| == 4 && |tmp| <= 12 && (colon.Some? ==> colon.value <= |tmp|) &&
             Finish(tmp + quad, colon) == Some(a)
    ensures Yields(Text4(quad), tmp, colon, false, 0, Text4(quad), a)
  {
    hide Parse6, Finish;
    QuadReads(quad, tmp, colon);
  }

  lemma YieldsEnd(tmp: Octets, colon: Option<nat>, val: word, tok: cstring, a: Octets)
    requires |tmp| <= 14 && (colon.Some? ==> colon.value <= |tmp|) && Finish(tmp + WordOctets(val), colon) == Some(a)
    ensures Yields([], tmp, colon, true, val, tok, a)
  {
    hide WordOctets, Finish;
  }

  lemma YieldsNothing(tmp: Octets, colon: Option<nat>, tok: cstring, a: Octets)
    requires |tmp| <= 16 && (colon.Some? ==> colon.value <= |tmp|) && Finish(tmp, colon) == Some(a)
    ensures Yields([], tmp, colon, false, 0, tok, a)
  {
    hide Finish;
  }

  // ---- The address word by word ----

  /** The octets that are stored before word i is read: those before it, without the run. */
  function Stored(a: Octets, run: Option<Run>, i: nat): (r: Octets)
    requires |a| == 16 && i <= 8 && (run.Some? ==> run.value.base >= 0 && run.value.len >= 2)
    ensures |r| <= 2 * i
  {
    if run.None? || i <= run.value.base then a[..2 * i]
    else if i <= run.value.base + run.value.len then a[..2 * run.value.base]
    else a[..2 * run.value.base] + a[2 * (run.value.base + run.value.len)..2 * i]
  }

  ghost predicate Fits(a: Octets, run: Option<Run>) {
    && |a| == 16 && Compressed(WordsOf(a), run)
    && (run.Some? ==> 0 <= run.value.base < run.value.base + run.value.len <= 8)
  }

  lemma WordOctetsAt(a: Octets, i: nat)
    requires |a| == 16 && i < 8
    ensures WordOctets(WordAt(a, i)) == a[2 * i..2 * i + 2]
  {
    var high: int, low: int := a[2 * i], a[2 * i + 1];
    assert (high * 0x100 + low) / 0x100 == high && (high * 0x100 + low) % 0x100 == low;
  }

  /** Storing a word outside the run. */
  lemma StoredNext(a: Octets, run: Option<Run>, i: nat)
    requires |a| == 16 && i < 8 && (run.Some? ==> run.value.base >= 0 && run.value.len >= 2) && !Covers(run, i)
    ensures Stored(a, run, i) + WordOctets(WordAt(a, i)) == Stored(a, run, i + 1)
  {
    WordOctetsAt(a, i);
  }

  /** Where the two colons stand, once word i has been read. */
  function ColonAfter(run: Option<Run>, i: nat): Option<nat>
    requires run.Some? ==> run.value.base >= 0
  {
    if run.Some? && i >= run.value.base + run.value.len then Some(2 * run.value.base) else None
  }

  lemma ZeroOctets(a: Octets, run: Option<Run>)
    requires Fits(a, run) && run.Some?
    ensures a[2 * run.value.base..2 * (run.value.base + run.value.len)] == Zeros(2 * run.value.len)
  {
    var b, l := run.value.base, run.value.len;
    forall k | 2 * b <= k < 2 * (b + l)
      ensures a[k] == 0
    {
      assert WordsOf(a)[k / 2] == 0;
      var high: int, low: int := a[2 * (k / 2)], a[2 * (k / 2) + 1];
      assert high * 0x100 + low == 0;
    }
  }

  /** All octets outside the run, with the run put back, are the address. */
  lemma FinishesWith(a: Octets, run: Option<Run>)
    requires Fits(a, run)
    ensures Finish(Stored(a, run, 8), ColonAfter(run, 8)) == Some(a)
  {
    if run.Some? {
      var b, e := 2 * run.value.base, 2 * (run.value.base + run.value.len);
      ZeroOctets(a, run);
      var tmp := Stored(a, run, 8);
      assert tmp == a[..b] + a[e..] by { assert a[e..16] == a[e..]; }
      assert tmp[..b] == a[..b] && tmp[b..] == a[e..];
      assert a == a[..b] + a[b..e] + a[e..];
    } else {
      assert a[..16] == a;
    }
  }

  /** The text from word i on, without the colon in front of it. */
  function WordText(a: Octets, run: Option<Run>, i: nat): cstring
    requires |a| == 16 && i < 8
  {
    if Ends4(a, run, i) then Text4(a[12..]) else Hex(WordAt(a, i)) + TextFrom(a, run, i + 1)
  }

  lemma TextCovered(a: Octets, run: Option<Run>, i: nat)
    requires |a| == 16 && i < 8 && Covers(run, i)
    ensures TextFrom(a, run, i) ==
            if i == run.value.base then [COLON] + TextFrom(a, run, i + 1) else TextFrom(a, run, i + 1)
  {
    hide Ends4;
    assert [] + TextFrom(a, run, i + 1) == TextFrom(a, run, i + 1);
  }

  lemma TextUncovered(a: Octets, run: Option<Run>, i: nat)
    requires |a| == 16 && i < 8 && !Covers(run, i)
    ensures TextFrom(a, run, i) == if i > 0 then [COLON] + WordText(a, run, i) else WordText(a, run, i)
  {
    hide Ends4, Hex, Text4, WordAt;
    if Ends4(a, run, i) {
      SeparateWord(i, Text4(a[12..]), []);
      assert Text4(a[12..]) + [] == Text4(a[12..]);
    } else {
      SeparateWord(i, Hex(WordAt(a, i)), TextFrom(a, run, i + 1));
    }
  }

  lemma SeparateWord(i: nat, t: cstring, rest: cstring)
    ensures (if i != 0 then [COLON] else []) + t + rest == if i > 0 then [COLON] + (t + rest) else t + rest
  {}

  lemma TextEnds(a: Octets, run: Option<Run>)
    requires |a| == 16
    ensures TextFrom(a, run, 8) == if run.Some? && run.value.base + run.value.len == 8 then [COLON] + [] else []
  {}

  lemma StoredBounds(a: Octets, run: Option<Run>, i: nat)
    requires Fits(a, run) && 1 <= i <= 8
    ensures !Covers(run, i - 1) ==>
              && |Stored(a, run, i - 1)| <= 14
              && (ColonAfter(run, i - 1).Some? ==> ColonAfter(run, i - 1).value <= |Stored(a, run, i - 1)|)
    ensures i < 8 && Covers(run, i) && !Covers(run, i - 1) ==> i == run.value.base && ColonAfter(run, i - 1) == None
    ensures i < 8 && Covers(run, i) && !Covers(run, i - 1) ==> Stored(a, run, i) == Stored(a, run, i + 1)
    ensures i < 8 && !Covers(run, i) && !Covers(run, i - 1) ==> ColonAfter(run, i) == ColonAfter(run, i - 1)
  {}

  lemma AfterLastWord(a: Octets, run: Option<Run>)
    requires Fits(a, run) && !Covers(run, 7)
    ensures TextFrom(a, run, 8) == [] && ColonAfter(run, 7) == ColonAfter(run, 8)
  {}

  lemma FitsMeans(a: Octets, run: Option<Run>)
    requires Fits(a, run)
    ensures |a| == 16 && (run.Some? ==>
                            run.value.base >= 0 && run.value.len >= 2 && run.value.base + run.value.len <= 8)
  {}

  /** From behind a word on, the rest of the text gives the address. */
  lemma {:induction false} ReadsAfterWord(a: Octets, run: Option<Run>, i: nat, tok: cstring)
    requires Fits(a, run) && 1 <= i <= 8 && !Covers(run, i - 1)
    ensures Yields(TextFrom(a, run, i), Stored(a, run, i - 1), ColonAfter(run, i - 1), true, WordAt(a, i - 1), tok, a)
    decreases 8 - i, 1
  {
    hide *;
    FitsMeans(a, run);
    StoredBounds(a, run, i);
    StoredNext(a, run, i - 1);
    var tmp, colon := Stored(a, run, i - 1), ColonAfter(run, i - 1);
    if i == 8 {
      AfterLastWord(a, run);
      FinishesWith(a, run);
      YieldsEnd(tmp, colon, WordAt(a, 7), tok, a);
    } else if Covers(run, i) {
      TextCovered(a, run, i);
      RunStarts(run, i);
      ReadsInRun(a, run, i + 1, TextFrom(a, run, i + 1));
      YieldsColon(TextFrom(a, run, i + 1), tmp, colon, WordAt(a, i - 1), tok, a);
    } else {
      TextUncovered(a, run, i);
      ReadsWord(a, run, i, colon);
      YieldsColon(WordText(a, run, i), tmp, colon, WordAt(a, i - 1), tok, a);
    }
  }

  lemma RunStarts(run: Option<Run>, i: nat)
    requires Covers(run, i)
    ensures run.Some? && run.value.base < i + 1 <= run.value.base + run.value.len
  {}

  /** A word, or the IPv4 address at the end. */
  lemma {:induction false} ReadsWord(a: Octets, run: Option<Run>, i: nat, colon: Option<nat>)
    requires Fits(a, run) && i < 8 && !Covers(run, i) && colon == ColonAfter(run, i)
    ensures Yields(WordText(a, run, i), Stored(a, run, i), colon, false, 0, WordText(a, run, i), a)
    decreases 8 - i, 0
  {
    hide *;
    FitsMeans(a, run);
    WordTextIs(a, run, i);
    if Ends4(a, run, i) {
      QuadStored(a, run, i);
      FinishesWith(a, run);
      YieldsQuad(a[12..], Stored(a, run, i), colon, a);
    } else {
      ReadsAfterWord(a, run, i + 1, WordText(a, run, i));
      YieldsHex(WordAt(a, i), TextFrom(a, run, i + 1), Stored(a, run, i), colon, WordText(a, run, i), a);
    }
  }

  lemma WordTextIs(a: Octets, run: Option<Run>, i: nat)
    requires |a| == 16 && i < 8
    ensures WordText(a, run, i) ==
            if Ends4(a, run, i) then Text4(a[12..]) else Hex(WordAt(a, i)) + TextFrom(a, run, i + 1)
  {}

  lemma QuadStored(a: Octets, run: Option<Run>, i: nat)
    requires Fits(a, run) && Ends4(a, run, i) && !Covers(run, i)
    ensures i == 6 && |Stored(a, run, i)| <= 12 && Stored(a, run, i) + a[12..] == Stored(a, run, 8)
    ensures ColonAfter(run, i) == ColonAfter(run, 8) == Some(0)
  {}

  lemma RunBounds(a: Octets, run: Option<Run>, i: nat)
    requires Fits(a, run) && run.Some? && run.value.base < i <= run.value.base + run.value.len
    ensures 0 < i <= 8 && |Stored(a, run, i)| <= 14
    ensures i < 8 && Covers(run, i) ==>
              && i != run.value.base && i + 1 <= run.value.base + run.value.len
              && Stored(a, run, i + 1) == Stored(a, run, i)
    ensures i < 8 && !Covers(run, i) ==> ColonAfter(run, i) == Some(|Stored(a, run, i)|)
    ensures i == 8 ==> ColonAfter(run, 8) == Some(|Stored(a, run, i)|) && run.value.base + run.value.len == 8
  {}

  /** From within the run on, the rest of the text gives the address. */
  lemma {:induction false} ReadsInRun(a: Octets, run: Option<Run>, i: nat, tok: cstring)
    requires Fits(a, run) && run.Some? && run.value.base < i <= run.value.base + run.value.len
    ensures i <= 8 && TextFrom(a, run, i) != [] && TextFrom(a, run, i)[0] == COLON
    ensures Yields(TextFrom(a, run, i), Stored(a, run, i), None, false, 0, tok, a)
    decreases 8 - i, 1
  {
    hide *;
    FitsMeans(a, run);
    RunBounds(a, run, i);
    var tmp := Stored(a, run, i);
    if i == 8 {
      TextEnds(a, run);
      FinishesWith(a, run);
      YieldsNothing(tmp, Some(|tmp|), [], a);
      YieldsTwoColons([], tmp, tok, a);
    } else if Covers(run, i) {
      TextCovered(a, run, i);
      ReadsInRun(a, run, i + 1, tok);
    } else {
      TextUncovered(a, run, i);
      ReadsWord(a, run, i, Some(|tmp|));
      YieldsTwoColons(WordText(a, run, i), tmp, tok, a);
    }
  }

  /** Every IPv6 address reads back from its text. */
  lemma RoundTrip(a: Octets, run: Option<Run>)
    requires |a| == 16 && Compressed(WordsOf(a), run)
    ensures Pton6(TextFrom(a, run, 0)) == Some(a)
  {
    hide *;
    var s := TextFrom(a, run, 0);
    CompressedFits(a, run);
    StartBounds(a, run);
    if Covers(run, 0) {
      var rest := TextFrom(a, run, 1);
      TextCovered(a, run, 0);
      ReadsInRun(a, run, 1, rest);
      StartsWithColons(rest, a);
    } else {
      TextUncovered(a, run, 0);
      ReadsWord(a, run, 0, None);
      StartsWithDigit(a, run);
      StartsPlain(WordText(a, run, 0), a);
    }
  }

  lemma CompressedFits(a: Octets, run: Option<Run>)
    requires |a| == 16 && Compressed(WordsOf(a), run)
    ensures Fits(a, run) && (run.Some? ==> run.value.base >= 0 && run.value.len >= 2)
    ensures Covers(run, 0) ==> run.Some? && run.value.base == 0 && 1 <= run.value.len
  {
    if run.Some? { assert ZeroRun(WordsOf(a), run.value.base, run.value.len); }
  }

  lemma StartsWithColons(rest: cstring, a: Octets)
    requires rest != [] && rest[0] == COLON && Yields(rest, [], None, false, 0, rest, a)
    ensures Pton6([COLON] + rest) == Some(a)
  {
    hide Parse6;
    assert ([COLON] + rest)[1..] == rest;
  }

  lemma StartsPlain(s: cstring, a: Octets)
    requires s != [] && s[0] != COLON && Yields(s, [], None, false, 0, s, a)
    ensures Pton6(s) == Some(a)
  {
    hide Parse6;
  }

  lemma StartBounds(a: Octets, run: Option<Run>)
    requires |a| == 16 && (run.Some? ==> run.value.base >= 0 && run.value.len >= 2)
    ensures Stored(a, run, 0) == [] && (run.Some? && run.value.base == 0 ==> Stored(a, run, 1) == [])
    ensures !Covers(run, 0) ==> ColonAfter(run, 0) == None
  {}

  lemma StartsWithDigit(a: Octets, run: Option<Run>)
    requires |a| == 16
    ensures WordText(a, run, 0) != [] && WordText(a, run, 0)[0] != COLON
  {
    FirstDigit(WordAt(a, 0));
  }

  lemma {:induction false} FirstDigit(n: nat)
    ensures Hex(n)[0] != COLON
    decreases n
  {
    if n >= 16 { FirstDigit(n / 16); }
  }

  // ---- Room for the text ----

  lemma {:induction false} HexLength(n: nat)
    ensures n < 0x10 ==> |Hex(n)| == 1
    ensures n < 0x100 ==> |Hex(n)| <= 2
    ensures n < 0x1000 ==> |Hex(n)| <= 3
    ensures n < 0x1_0000 ==> |Hex(n)| <= 4
    decreases n
  {
    if n >= 16 { HexLength(n / 16); }
  }

  lemma {:induction false} DecimalLength(n: nat)
    ensures n < 10 ==> |Decimal(n)| == 1
    ensures n < 100 ==> |Decimal(n)| <= 2
    ensures n < 1000 ==> |Decimal(n)| <= 3
    decreases n
  {
    if n >= 10 { DecimalLength(n / 10); }
  }

  lemma Text4Length(a: Octets)
    requires |a| == 4
    ensures |Text4(a)| <= 15
  {
    DecimalLength(a[0]);
    DecimalLength(a[1]);
    DecimalLength(a[2]);
    DecimalLength(a[3]);
  }

  lemma {:induction false} TextLength(a: Octets, run: Option<Run>, i: nat)
    requires |a| == 16 && i <= 8
    ensures |TextFrom(a, run, i)| <= 5 * (8 - i) + 6 - if i == 0 then 1 else 0
    decreases 8 - i
  {
    hide Hex, Text4, WordAt, Embeds4;
    if i < 8 {
      HexLength(WordAt(a, i));
      Text4Length(a[12..]);
      TextLength(a, run, i + 1);
    }
  }

  /** The text and its terminator fit the 46 octets of the buffer it is printed into, and it reads
      back. */
  method PrintThenParse(a: Octets) returns (back: Option<Octets>)
    requires |a| == 16
    ensures back == Some(a)
  {
    hide TextFrom, Pton6, Compressed;
    var text, run := Ntop6(a, 46);
    TextLength(a, run, 0);
    RoundTrip(a, run);
    back := ParseAddress(text.value);
  }

  // ---- Texts no address is printed as ----

  function JoinWords(w: seq<word>): cstring
    requires w != []
  {
    if |w| == 1 then Hex(w[0]) else Hex(w[0]) + [COLON] + JoinWords(w[1..])
  }

  function OctetsOf(w: seq<word>): (r: Octets)
    ensures |r| == 2 * |w|
  {
    if w == [] then [] else WordOctets(w[0]) + OctetsOf(w[1..])
  }

  /** Words with single colons between them; the last one is still to be stored. */
  lemma {:induction false} YieldsJoin(w: seq<word>, rest: cstring, tmp: Octets, colon: Option<nat>, tok: cstring,
                                      a: Octets)
    requires w != [] && |tmp| + 2 * |w| <= 16 && (colon.Some? ==> colon.value <= |tmp|)
    requires var last := |w| - 1;
             Yields(rest, tmp + OctetsOf(w[..last]), colon, true, w[last],
                    if last == 0 then tok else Hex(w[last]) + rest, a)
    ensures Yields(JoinWords(w) + rest, tmp, colon, false, 0, tok, a)
    decreases |w|
  {
    hide Hex, Yields, WordOctets;
    if |w| == 1 {
      assert tmp + OctetsOf(w[..0]) == tmp;
      YieldsHex(w[0], rest, tmp, colon, tok, a);
    } else {
      var next := JoinWords(w[1..]) + rest;
      assert JoinWords(w) + rest == Hex(w[0]) + ([COLON] + next);
      OctetsFront(w, tmp);
      assert |w| == 2 ==> JoinWords(w[1..]) == Hex(w[1]);
      YieldsJoin(w[1..], rest, tmp + WordOctets(w[0]), colon, next, a);
      YieldsColon(next, tmp, colon, w[0], tok, a);
      YieldsHex(w[0], [COLON] + next, tmp, colon, tok, a);
    }
  }

  lemma OctetsFront(w: seq<word>, tmp: Octets)
    requires |w| > 1
    ensures tmp + WordOctets(w[0]) + OctetsOf(w[1..][..|w| - 2]) == tmp + OctetsOf(w[..|w| - 1])
  {
    hide WordOctets;
    assert w[1..][..|w| - 2] == w[..|w| - 1][1..];
  }

  lemma {:induction false} OctetsSnoc(w: seq<word>)
    requires w != []
    ensures OctetsOf(w[..|w| - 1]) + WordOctets(w[|w| - 1]) == OctetsOf(w)
    decreases |w|
  {
    hide WordOctets;
    if |w| > 1 {
      OctetsSnoc(w[1..]);
      assert w[1..][..|w| - 2] == w[..|w| - 1][1..];
      assert WordOctets(w[0]) + (OctetsOf(w[1..][..|w| - 2]) + WordOctets(w[|w| - 1])) ==
             WordOctets(w[0]) + OctetsOf(w[1..][..|w| - 2]) + WordOctets(w[|w| - 1]);
    }
  }

  lemma JoinStarts(w: seq<word>, rest: cstring)
    requires w != []
    ensures JoinWords(w) + rest != [] && (JoinWords(w) + rest)[0] != COLON
  {
    FirstDigit(w[0]);
  }

  lemma WordsBehindCleared(back: seq<word>, tmp: Octets, tok: cstring)
    requires back != [] && |tmp| + 2 * |back| == 16
    ensures Yields(JoinWords(back), tmp, Some(|tmp|), false, 0, tok, tmp + Zeros(2 * |back|))
  {
    hide *;
    var m, a := |back| - 1, tmp + Zeros(2 * |back|);
    ClearedBehind(tmp, back);
    YieldsEnd(tmp + OctetsOf(back[..m]), Some(|tmp|), back[m], if m == 0 then tok else Hex(back[m]) + [], a);
    YieldsJoin(back, [], tmp, Some(|tmp|), tok, a);
    assert JoinWords(back) + [] == JoinWords(back);
  }

  lemma ClearedBehind(tmp: Octets, back: seq<word>)
    requires back != [] && |tmp| + 2 * |back| == 16
    ensures Finish(tmp + OctetsOf(back[..|back| - 1]) + WordOctets(back[|back| - 1]), Some(|tmp|)) ==
            Some(tmp + Zeros(2 * |back|))
  {
    hide OctetsOf, WordOctets, Finish;
    var m := |back| - 1;
    OctetsSnoc(back);
    assert tmp + OctetsOf(back[..m]) + WordOctets(back[m]) == tmp + OctetsOf(back);
    ColonsInFullAddress(tmp + OctetsOf(back), |tmp|);
    assert (tmp + OctetsOf(back))[..|tmp|] == tmp;
  }

  /** Two colons in a full address are not ignored: the words behind them are cleared. */
  lemma ColonsClearWords(front: seq<word>, back: seq<word>)
    requires front != [] && back != [] && |front| + |back| == 8
    ensures Pton6(JoinWords(front) + ([COLON] + ([COLON] + JoinWords(back)))) ==
            Some(OctetsOf(front) + Zeros(2 * |back|))
  {
    hide *;
    var n, tmp, behind := |front| - 1, OctetsOf(front), JoinWords(back);
    var a, rest := tmp + Zeros(2 * |back|), [COLON] + ([COLON] + behind);
    var s := JoinWords(front) + rest;
    var tok := if n == 0 then s else Hex(front[n]) + rest;
    OctetsSnoc(front);
    assert [] + OctetsOf(front[..n]) == OctetsOf(front[..n]);
    WordsBehindCleared(back, tmp, behind);
    YieldsTwoColons(behind, tmp, [COLON] + behind, a);
    YieldsColon([COLON] + behind, OctetsOf(front[..n]), None, front[n], tok, a);
    YieldsJoin(front, rest, [], None, s, a);
    JoinStarts(front, rest);
    StartsPlain(s, a);
  }

  // ---- A colon behind an address ----

  /** No IPv4 address ends in a colon. */
  lemma {:induction false} NoColonIn4(s: cstring, done: seq<byte>, current: byte, sawDigit: bool)
    requires |done| <= 3
    ensures Parse4(s + [COLON], done, current, sawDigit) == None
    decreases |s|
  {
    if s != [] {
      assert (s + [COLON])[1..] == s[1..] + [COLON];
      if IsDigit(s[0]) {
        var v: int := current;
        if v * 10 + DigitValue(s[0]) <= 255 { NoColonIn4(s[1..], done, v * 10 + DigitValue(s[0]), true); }
      } else if s[0] == DOT && sawDigit && |done| < 3 {
        NoColonIn4(s[1..], done + [current], 0, false);
      }
    }
  }

  lemma {:induction false} TrailingColonParses(s: cstring, tmp: Octets, colon: Option<nat>, saw: bool, val: word,
                                               tok: cstring)
    requires |tmp| <= 16 && (colon.Some? ==> colon.value <= |tmp|)
    requires if s == [] then saw else DOT in s || IsHexDigit(s[|s| - 1])
    ensures Parse6(s + [COLON], tmp, colon, saw, val, tok + [COLON]) ==
            if DOT in s then None else Parse6(s, tmp, colon, saw, val, tok)
    decreases |s|
  {
    if s == [] {
      assert [COLON][1..] == [];
    } else {
      var rest := s[1..];
      assert (s + [COLON])[1..] == rest + [COLON] && s == [s[0]] + rest;
      NoColonIn4(tok, [], 0, false);
      if IsHexDigit(s[0]) {
        var v: int := val;
        if v * 16 + HexDigitValue(s[0]) <= 0xFFFF {
          TrailingColonParses(rest, tmp, colon, true, v * 16 + HexDigitValue(s[0]), tok);
        }
      } else if s[0] == COLON {
        if !saw && colon.None? {
          TrailingColonParses(rest, tmp, Some(|tmp|), false, val, rest);
        } else if saw && |tmp| + 2 <= 16 {
          TrailingColonParses(rest, tmp + WordOctets(val), colon, false, 0, rest);
        }
      }
    }
  }

  /** A colon behind a text that ends in a hexadecimal digit makes no difference, whether the text is
      an address or not; behind a text with a dot in it, it makes the text no address. */
  lemma TrailingColonAccepted(s: cstring)
    requires s != [] && (DOT in s || IsHexDigit(s[|s| - 1]))
    ensures Pton6(s + [COLON]) == if DOT in s then None else Pton6(s)
  {
    hide Parse6;
    if s[0] != COLON {
      TrailingColonParses(s, [], None, false, 0, s);
    } else if |s| > 1 {
      assert (s + [COLON])[1..] == s[1..] + [COLON] && s == [s[0]] + s[1..];
      TrailingColonParses(s[1..], [], None, false, 0, s[1..]);
    }
  }

  // ---- Two colons in a full address ----

  /** Nothing is silently ignored: what stands behind the two colons is cleared, so the address is
      right exactly when that is zero anyway. */
  lemma ColonsInFullAddress(tmp: Octets, colon: nat)
    requires |tmp| == 16 && colon <= 16
    ensures Finish(tmp, Some(colon)) == Some(tmp[..colon] + Zeros(16 - colon))
    ensures Finish(tmp, Some(colon)) == Some(tmp) <==> forall k :: colon <= k < 16 ==> tmp[k] == 0
  {
    var r := tmp[..colon] + Zeros(16 - colon);
    if r == tmp {
      forall k | colon <= k < 16 ensures tmp[k] == 0 { assert r[k] == 0; }
    }
    if forall k :: colon <= k < 16 ==> tmp[k] == 0 {
      assert forall k :: 0 <= k < 16 ==> r[k] == tmp[k];
      assert r == tmp;
    }
  }
}

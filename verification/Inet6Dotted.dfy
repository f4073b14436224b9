/** Which IPv6 addresses are printed with an IPv4 address at their end. */
module Inet6Dotted {
  import opened CTypes
  import opened Numerals
  import opened Inet4
  import opened Inet6

  /** Ten octets are zero, and then two are 255. */
  predicate Mapped(a: seq<byte>)
    requires |a| == 16
  {
    (forall i :: 0 <= i < 10 ==> a[i] == 0) && a[10] == 255 && a[11] == 255
  }

  /** Twelve octets are zero, and the next two are not. */
  predicate Compatible(a: seq<byte>)
    requires |a| == 16
  {
    (forall i :: 0 <= i < 12 ==> a[i] == 0) && !(a[12] == 0 && a[13] == 0)
  }

  lemma ZeroWord(a: seq<byte>, i: nat)
    requires |a| == 16 && i < 8
    ensures WordsOf(a)[i] == 0 <==> a[2 * i] == 0 && a[2 * i + 1] == 0
    ensures WordsOf(a)[i] == 0xFFFF <==> a[2 * i] == 255 && a[2 * i + 1] == 255
  {}

  lemma Words(a: seq<byte>)
    requires |a| == 16
    ensures Mapped(a) <==> (forall i :: 0 <= i < 5 ==> WordsOf(a)[i] == 0) && WordsOf(a)[5] == 0xFFFF
    ensures Compatible(a) <==> (forall i :: 0 <= i < 6 ==> WordsOf(a)[i] == 0) && WordsOf(a)[6] != 0
  {
    ZeroWord(a, 0);
    ZeroWord(a, 1);
    ZeroWord(a, 2);
    ZeroWord(a, 3);
    ZeroWord(a, 4);
    ZeroWord(a, 5);
    ZeroWord(a, 6);
    hide WordsOf;
  }

  lemma RunAvoids(words: seq<word>, b: nat, l: nat, k: nat)
    requires ZeroRun(words, b, l) && k < |words| && words[k] != 0
    ensures k < b || b + l <= k
  {}

  /** A run at the start that is longer than what is left behind it is the one to compress. */
  lemma FrontRun(words: seq<word>, len: nat, run: Option<Run>)
    requires |words| == 8 && 5 <= len < 8 && ZeroRun(words, 0, len) && words[len] != 0
    requires Compressed(words, run)
    ensures run == Some(Run(0, len))
  {
    forall b: nat, l: nat | ZeroRun(words, b, l)
      ensures l <= len
    {
      RunAvoids(words, b, l, len);
    }
    CompressedUnique(words, run, Some(Run(0, len)));
  }

  lemma Runs(a: seq<byte>, run: Option<Run>)
    requires |a| == 16 && Compressed(WordsOf(a), run)
    ensures Mapped(a) ==> run == Some(Run(0, 5))
    ensures Compatible(a) ==> run == Some(Run(0, 6))
    ensures Embeds4(WordsOf(a), run) <==> Mapped(a) || Compatible(a)
  {
    Words(a);
    hide WordsOf, Mapped, Compatible;
    var words := WordsOf(a);
    if Mapped(a) { FrontRun(words, 5, run); }
    if Compatible(a) { FrontRun(words, 6, run); }
    if Embeds4(words, run) {
      assert ZeroRun(words, 0, run.value.len);
      assert run.value.len == 6 ==> !ZeroRun(words, 0, 7);
    }
  }

  // ---- The text ----

  lemma OneTurn(a: seq<byte>, run: Option<Run>, i: nat)
    requires |a| == 16 && i < 8
    ensures TextFrom(a, run, i) == Piece(a, run, i) + if Ends4(a, run, i) && !Covers(run, i) then []
                                                      else TextFrom(a, run, i + 1)
  {}

  lemma CoveredTurn(a: seq<byte>, run: Option<Run>, i: nat)
    requires |a| == 16 && i < 8 && Covers(run, i)
    ensures TextFrom(a, run, i) == (if i == run.value.base then [COLON] else []) + TextFrom(a, run, i + 1)
  {
    hide Ends4;
    OneTurn(a, run, i);
  }

  lemma Nothing(s: cstring)
    ensures [] + s == s
  {}

  /** The covered words at the start print as one colon. */
  lemma CoveredStart(a: seq<byte>, len: nat)
    requires |a| == 16 && 5 <= len <= 6
    ensures TextFrom(a, Some(Run(0, len)), 0) == [COLON] + TextFrom(a, Some(Run(0, len)), len)
  {
    var run := Some(Run(0, len));
    hide TextFrom;
    CoveredTurn(a, run, 0);
    CoveredTurn(a, run, 1);
    CoveredTurn(a, run, 2);
    CoveredTurn(a, run, 3);
    CoveredTurn(a, run, 4);
    if len == 6 { CoveredTurn(a, run, 5); }
    hide Covers;
    Nothing(TextFrom(a, run, 2));
    Nothing(TextFrom(a, run, 3));
    Nothing(TextFrom(a, run, 4));
    Nothing(TextFrom(a, run, 5));
    Nothing(TextFrom(a, run, 6));
  }

  /** An address with an IPv4 address behind zeros is printed as two colons and the IPv4 address. */
  lemma CompatibleText(a: seq<byte>, run: Option<Run>)
    requires |a| == 16 && Compressed(WordsOf(a), run) && Compatible(a)
    ensures var text := TextFrom(a, run, 0);
            |text| >= 2 && Spelled(text[..2], "::") && text[2..] == Text4(a[12..])
  {
    hide *;
    Runs(a, run);
    SeventhPiece(a, run);
    CoveredStart(a, 6);
    OneTurn(a, run, 6);
    assert TextFrom(a, run, 0) == [COLON] + ([COLON] + Text4(a[12..]));
    TwoColons(Text4(a[12..]));
  }

  lemma SeventhPiece(a: seq<byte>, run: Option<Run>)
    requires |a| == 16 && run == Some(Run(0, 6)) && Embeds4(WordsOf(a), run)
    ensures Piece(a, run, 6) == [COLON] + Text4(a[12..]) && Ends4(a, run, 6) && !Covers(run, 6)
  {
    hide Text4, Hex, Embeds4, WordsOf;
  }

  lemma TwoColons(quad: cstring)
    ensures var text := [COLON] + ([COLON] + quad);
            |text| >= 2 && Spelled(text[..2], "::") && text[2..] == quad
  {}

  lemma AllOnes()
    ensures Spelled(Hex(0xFFFF), "ffff")
  {
    assert Hex(0xF) == [102];
    assert Hex(0xFF) == [102, 102];
    assert Hex(0xFFF) == [102, 102, 102];
  }

  lemma SixthPiece(a: seq<byte>, run: Option<Run>)
    requires |a| == 16 && Mapped(a) && run == Some(Run(0, 5)) && Embeds4(WordsOf(a), run)
    ensures Piece(a, run, 5) == [COLON] + Hex(0xFFFF) && Piece(a, run, 6) == [COLON] + Text4(a[12..])
    ensures !Ends4(a, run, 5) && Ends4(a, run, 6) && !Covers(run, 6)
  {
    Words(a);
    assert WordAt(a, 5) == WordsOf(a)[5];
    hide Text4, Hex, Mapped, Compatible, Embeds4, WordsOf;
  }

  /** An IPv4-mapped address, RFC 4291 section 2.5.5.2, is printed as "::ffff:" and the IPv4 address. */
  lemma MappedText(a: seq<byte>, run: Option<Run>)
    requires |a| == 16 && Compressed(WordsOf(a), run) && Mapped(a)
    ensures var text := TextFrom(a, run, 0);
            |text| >= 7 && Spelled(text[..7], "::ffff:") && text[7..] == Text4(a[12..])
  {
    hide *;
    Runs(a, run);
    SixthPiece(a, run);
    CoveredStart(a, 5);
    OneTurn(a, run, 5);
    OneTurn(a, run, 6);
    AllOnes();
    var ones, quad := Hex(0xFFFF), Text4(a[12..]);
    assert TextFrom(a, run, 0) == [COLON] + ([COLON] + ones + ([COLON] + quad));
    ColonsAround(ones, quad);
  }

  lemma ColonsAround(ones: cstring, quad: cstring)
    requires Spelled(ones, "ffff")
    ensures var text := [COLON] + ([COLON] + ones + ([COLON] + quad));
            |text| >= 7 && Spelled(text[..7], "::ffff:") && text[7..] == quad
  {}

  // ---- The dots ----

  predicate Dotted(text: cstring) {
    exists i :: 0 <= i < |text| && text[i] == '.' as int
  }

  lemma DottedJoin(s: cstring, t: cstring)
    ensures Dotted(s + t) <==> Dotted(s) || Dotted(t)
  {
    if Dotted(s) {
      var i :| 0 <= i < |s| && s[i] == '.' as int;
      assert (s + t)[i] == '.' as int;
    }
    if Dotted(t) {
      var i :| 0 <= i < |t| && t[i] == '.' as int;
      assert (s + t)[|s| + i] == '.' as int;
    }
  }

  lemma DottedTail(s: cstring, k: nat)
    requires k <= |s| && Dotted(s[k..])
    ensures Dotted(s)
  {
    assert s == s[..k] + s[k..];
    DottedJoin(s[..k], s[k..]);
  }

  lemma {:induction false} HexUndotted(n: nat)
    ensures !Dotted(Hex(n))
    decreases n
  {
    if n >= 16 {
      HexUndotted(n / 16);
      DottedJoin(Hex(n / 16), [HexDigit(n % 16)]);
    }
  }

  lemma Text4Dotted(a: seq<byte>)
    requires |a| == 4
    ensures Dotted(Text4(a))
  {
    hide Decimal;
    assert Text4(a)[|Decimal(a[0])|] == '.' as int;
  }

  lemma PieceUndotted(a: seq<byte>, run: Option<Run>, i: nat)
    requires |a| == 16 && i < 8 && !Ends4(a, run, i)
    ensures !Dotted(Piece(a, run, i))
  {
    var w: nat := WordAt(a, i);
    HexUndotted(w);
    hide Hex, Ends4;
    DottedJoin([COLON], Hex(w));
    assert [] + Hex(w) == Hex(w);
  }

  lemma {:induction false} Undotted(a: seq<byte>, run: Option<Run>, i: nat)
    requires |a| == 16 && i <= 8 && !Embeds4(WordsOf(a), run)
    ensures !Dotted(TextFrom(a, run, i))
    decreases 8 - i
  {
    hide Piece, Embeds4, WordsOf;
    if i < 8 {
      assert !Ends4(a, run, i);
      PieceUndotted(a, run, i);
      Undotted(a, run, i + 1);
      DottedJoin(Piece(a, run, i), TextFrom(a, run, i + 1));
    }
  }

  /** The text holds a dot for these two kinds of addresses and for no others. */
  lemma DottedIff(a: seq<byte>, run: Option<Run>)
    requires |a| == 16 && Compressed(WordsOf(a), run)
    ensures Dotted(TextFrom(a, run, 0)) <==> Mapped(a) || Compatible(a)
  {
    Runs(a, run);
    hide *;
    var text := TextFrom(a, run, 0);
    Text4Dotted(a[12..]);
    if Mapped(a) {
      MappedText(a, run);
      DottedTail(text, 7);
    } else if Compatible(a) {
      CompatibleText(a, run);
      DottedTail(text, 2);
    } else {
      Undotted(a, run, 0);
    }
  }
}

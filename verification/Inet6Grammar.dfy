/** The texts of IPv6 addresses that are accepted, and the address each stands for. */
module Inet6Grammar {
  import opened CTypes
  import opened Numerals
  import opened Inet4
  import opened Inet6
  import opened Inet6Parse

  // ---- Pieces between colons ----

  predicate Colonless(s: cstring) {
    forall i :: 0 <= i < |s| ==> s[i] != ':' as int
  }

  /** What stands between the colons of a text. */
  function Pieces(s: cstring): (r: seq<cstring>)
    ensures r != []
    decreases |s|
  {
    if Colonless(s) then [s]
    else
      var k := FirstColon(s);
      [s[..k]] + Pieces(s[k + 1..])
  }

  function FirstColon(s: cstring): (k: nat)
    requires !Colonless(s)
    ensures k < |s| && s[k] == ':' as int && Colonless(s[..k])
    decreases |s|
  {
    if s[0] == ':' as int then 0
    else
      assert s == [s[0]] + s[1..];
      FirstColon(s[1..]) + 1
  }

  /** Hexadecimal digits of either case. */
  predicate HexDigits(s: cstring) {
    forall i :: 0 <= i < |s| ==> IsHexDigit(s[i])
  }

  function HexNumber(s: cstring): nat
    requires HexDigits(s)
  {
    if s == [] then 0 else HexNumber(s[..|s| - 1]) * 16 + HexDigitValue(s[|s| - 1])
  }

  /** One digit or more that come to a word; zeros may stand in front. */
  predicate IsWord(s: cstring) {
    s != [] && HexDigits(s) && HexNumber(s) < 0x1_0000
  }

  /** The octets a piece stands for: none, a word, or an IPv4 address. */
  function PieceOctets(p: cstring): (r: Octets)
    ensures |r| <= 4
  {
    if IsWord(p) then WordOctets(HexNumber(p)) else if Pton4(p).Some? then Pton4(p).value else []
  }

  function AllOctets(pieces: seq<cstring>): Octets {
    if pieces == [] then [] else PieceOctets(pieces[0]) + AllOctets(pieces[1..])
  }

  /** The parser on pieces: the octets so far and where the two colons were. */
  function Gather(pieces: seq<cstring>, tmp: Octets, colon: Option<nat>): Option<Octets>
    requires pieces != [] && |tmp| <= 16 && (colon.Some? ==> colon.value <= |tmp|)
    decreases |pieces|
  {
    var p := pieces[0];
    if |pieces| == 1 then
      if p != [] && !IsWord(p) && Pton4(p).None? then None
      else if |tmp + PieceOctets(p)| > 16 then None
      else Finish(tmp + PieceOctets(p), colon)
    else if p == [] then
      if colon.Some? then None else Gather(pieces[1..], tmp, Some(|tmp|))
    else if IsWord(p) && |tmp| + 2 <= 16 then Gather(pieces[1..], tmp + PieceOctets(p), colon)
    else None
  }

  // ---- The loop on characters is the loop on pieces ----

  lemma {:induction false} FirstColonIs(t: cstring, rest: cstring)
    requires Colonless(t)
    ensures !Colonless(t + [COLON] + rest) && FirstColon(t + [COLON] + rest) == |t|
    decreases |t|
  {
    var s := t + [COLON] + rest;
    assert s[|t|] == ':' as int;
    if t != [] {
      assert s[1..] == t[1..] + [COLON] + rest;
      FirstColonIs(t[1..], rest);
    }
  }

  lemma PiecesCons(t: cstring, rest: cstring)
    requires Colonless(t)
    ensures Pieces(t + [COLON] + rest) == [t] + Pieces(rest)
  {
    FirstColonIs(t, rest);
    var s := t + [COLON] + rest;
    assert s[..|t|] == t && s[|t| + 1..] == rest;
  }

  lemma HexSnoc(t: cstring, c: cchar)
    requires HexDigits(t) && IsHexDigit(c)
    ensures HexDigits(t + [c]) && HexNumber(t + [c]) == HexNumber(t) * 16 + HexDigitValue(c)
  {
    assert (t + [c])[..|t|] == t;
  }

  lemma HexColonless(t: cstring)
    requires HexDigits(t)
    ensures Colonless(t)
  {}

  /** A number only grows with more digits. */
  lemma {:induction false} HexGrows(s: cstring, n: nat)
    requires HexDigits(s) && n <= |s|
    ensures HexDigits(s[..n]) && HexNumber(s[..n]) <= HexNumber(s)
    decreases |s|
  {
    if n == |s| {
      assert s[..n] == s;
    } else {
      var front := s[..|s| - 1];
      HexGrows(front, n);
      assert front[..n] == s[..n];
    }
  }

  /** Decimal digits of an octet are no large word. */
  lemma {:induction false} OctetDigits(d: cstring)
    requires Digits(d) && DecimalValue(d) <= 255
    ensures HexDigits(d)
    ensures DecimalValue(d) < 10 ==> HexNumber(d) < 10
    ensures DecimalValue(d) < 100 ==> HexNumber(d) < 0xA0
    ensures HexNumber(d) < 0xA00
    decreases |d|
  {
    if d != [] {
      var front, last := d[..|d| - 1], d[|d| - 1];
      assert Digits(front) && IsHexDigit(last) && HexDigitValue(last) == last - '0' as int;
      OctetDigits(front);
    }
  }

  // ---- IPv4 addresses among the pieces ----

  /** An accepted IPv4 address starts with the digits of an octet and a dot. */
  lemma QuadStarts(p: cstring) returns (d: cstring)
    requires Pton4(p).Some?
    ensures Digits(d) && DecimalValue(d) <= 255 && PointBehind(p, d)
  {
    hide Pton4;
    var a := Pton4(p).value;
    Pton4Iff(p, a);
    d :| OctetText(d, a[0]) && PointBehind(p, d) && DottedOctets(p[|d| + 1..], a[1..]);
  }

  predicate DigitOrDot(c: cchar) {
    IsDigit(c) || c == '.' as int
  }

  lemma {:induction false} DottedChars(s: cstring, vs: seq<byte>)
    requires DottedOctets(s, vs)
    ensures forall i :: 0 <= i < |s| ==> DigitOrDot(s[i])
    decreases |vs|
  {
    if |vs| > 1 {
      var d :| OctetText(d, vs[0]) && PointBehind(s, d) && DottedOctets(s[|d| + 1..], vs[1..]);
      var rest := s[|d| + 1..];
      DottedChars(rest, vs[1..]);
      forall i | 0 <= i < |s|
        ensures DigitOrDot(s[i])
      {
        if i < |d| {
          assert s[i] == s[..|d|][i];
        } else if i > |d| {
          assert s[i] == rest[i - |d| - 1];
        }
      }
    }
  }

  lemma QuadChars(p: cstring)
    requires Pton4(p).Some?
    ensures forall i :: 0 <= i < |p| ==> DigitOrDot(p[i])
    ensures Colonless(p) && !IsWord(p) && p != []
  {
    hide Pton4, DottedOctets, DecimalValue, HexNumber;
    Pton4Iff(p, Pton4(p).value);
    DottedChars(p, Pton4(p).value);
    var d := QuadStarts(p);
    assert !IsHexDigit(p[|d|]);
  }

  /** Digits that come to too much start no piece. */
  lemma TooLarge(p: cstring, t: cstring)
    requires HexDigits(t) && |t| <= |p| && p[..|t|] == t && HexNumber(t) >= 0x1_0000
    ensures !IsWord(p) && Pton4(p).None?
  {
    hide Pton4, DecimalValue;
    if HexDigits(p) { HexGrows(p, |t|); }
    if Pton4(p).Some? {
      var d := QuadStarts(p);
      OctetDigits(d);
      DotBehindDigits(p, t, d);
      HexGrows(d, |t|);
      hide HexNumber;
    }
  }

  lemma DotBehindDigits(p: cstring, t: cstring, d: cstring)
    requires HexDigits(t) && |t| <= |p| && p[..|t|] == t && PointBehind(p, d)
    ensures |t| <= |d| && d[..|t|] == t
  {
    forall i | 0 <= i < |t|
      ensures IsHexDigit(p[i])
    {
      assert p[i] == p[..|t|][i];
    }
  }

  // ---- One character at a time ----

  /** Whatever a text begins with, its first piece does, up to a colon. */
  lemma FirstPiece(u: cstring, t: cstring)
    requires |t| <= |u| && u[..|t|] == t && Colonless(t)
    ensures var p := Pieces(u)[0]; |t| <= |p| && p[..|t|] == t
    ensures |Pieces(u)| == 1 <==> Colonless(u)
    ensures Colonless(u) ==> Pieces(u) == [u]
  {
    if !Colonless(u) {
      var k := FirstColon(u);
      forall i | 0 <= i < |t|
        ensures u[i] != ':' as int
      {
        assert u[i] == u[..|t|][i];
      }
      assert u[..k][..|t|] == u[..|t|];
    }
  }

  /** A first piece that is neither empty nor a word nor an IPv4 address is refused. */
  lemma Refused(pieces: seq<cstring>, tmp: Octets, colon: Option<nat>)
    requires pieces != [] && |tmp| <= 16 && (colon.Some? ==> colon.value <= |tmp|)
    requires pieces[0] != [] && !IsWord(pieces[0]) && (|pieces| == 1 ==> Pton4(pieces[0]).None?)
    ensures Gather(pieces, tmp, colon) == None
  {
    hide Pton4, IsWord, PieceOctets;
  }

  lemma {:induction false} ParsesPieces(s: cstring, tmp: Octets, colon: Option<nat>, t: cstring)
    requires |tmp| <= 16 && (colon.Some? ==> colon.value <= |tmp|)
    requires HexDigits(t) && HexNumber(t) < 0x1_0000
    ensures Parse6(s, tmp, colon, t != [], HexNumber(t), t + s) == Gather(Pieces(t + s), tmp, colon)
    decreases |s|
  {
    hide Gather, Pieces, HexNumber, Pton4, HexDigitValue, Finish;
    HexColonless(t);
    if s == [] {
      EndIs(tmp, colon, t);
    } else if IsHexDigit(s[0]) {
      HexSnoc(t, s[0]);
      assert t + [s[0]] + s[1..] == t + s;
      if HexNumber(t + [s[0]]) >= 0x1_0000 {
        OverflowIs(s, tmp, colon, t);
      } else {
        ParsesPieces(s[1..], tmp, colon, t + [s[0]]);
      }
    } else if s[0] == COLON {
      NoNumber();
      assert [] + s[1..] == s[1..];
      ColonIs(s, tmp, colon, t);
      if t == [] && colon.None? {
        ParsesPieces(s[1..], tmp, Some(|tmp|), []);
      } else if t != [] && |tmp| + 2 <= 16 {
        ParsesPieces(s[1..], tmp + WordOctets(HexNumber(t)), colon, []);
      }
    } else {
      OtherIs(s, tmp, colon, t);
    }
  }

  lemma NoNumber()
    ensures HexDigits([]) && HexNumber([]) == 0
  {}

  lemma EndIs(tmp: Octets, colon: Option<nat>, t: cstring)
    requires |tmp| <= 16 && (colon.Some? ==> colon.value <= |tmp|)
    requires HexDigits(t) && HexNumber(t) < 0x1_0000
    ensures Ended(tmp, colon, t != [], HexNumber(t)) == Gather(Pieces(t + []), tmp, colon)
  {
    hide Finish, HexNumber, Pieces, Pton4;
    HexColonless(t);
    assert t + [] == t;
    FirstPiece(t, t);
    QuadNone();
    assert tmp + [] == tmp;
  }

  lemma QuadNone()
    ensures Pton4([]).None?
  {}

  lemma OverflowIs(s: cstring, tmp: Octets, colon: Option<nat>, t: cstring)
    requires |tmp| <= 16 && (colon.Some? ==> colon.value <= |tmp|)
    requires s != [] && HexDigits(t + [s[0]]) && HexNumber(t + [s[0]]) >= 0x1_0000
    ensures Gather(Pieces(t + s), tmp, colon) == None
  {
    hide Gather, Pieces, HexNumber, Pton4;
    var u := t + [s[0]];
    HexColonless(u);
    assert (t + s)[..|u|] == u;
    FirstPiece(t + s, u);
    TooLarge(Pieces(t + s)[0], u);
    Refused(Pieces(t + s), tmp, colon);
  }

  lemma ColonIs(s: cstring, tmp: Octets, colon: Option<nat>, t: cstring)
    requires |tmp| <= 16 && (colon.Some? ==> colon.value <= |tmp|)
    requires s != [] && s[0] == COLON && HexDigits(t) && HexNumber(t) < 0x1_0000
    ensures Gather(Pieces(t + s), tmp, colon) ==
            if t == [] then (if colon.Some? then None else Gather(Pieces(s[1..]), tmp, Some(|tmp|)))
            else if |tmp| + 2 > 16 then None
            else Gather(Pieces(s[1..]), tmp + WordOctets(HexNumber(t)), colon)
  {
    hide HexNumber, Pieces, Pton4;
    HexColonless(t);
    assert t + s == t + [COLON] + s[1..];
    PiecesCons(t, s[1..]);
    assert ([t] + Pieces(s[1..]))[1..] == Pieces(s[1..]);
  }

  /** A dot, or a character that belongs in no address. */
  lemma OtherIs(s: cstring, tmp: Octets, colon: Option<nat>, t: cstring)
    requires |tmp| <= 16 && (colon.Some? ==> colon.value <= |tmp|)
    requires s != [] && s[0] != COLON && !IsHexDigit(s[0]) && HexDigits(t) && HexNumber(t) < 0x1_0000
    ensures Gather(Pieces(t + s), tmp, colon) ==
            if s[0] == DOT && |tmp| + 4 <= 16 && Pton4(t + s).Some? then Finish(tmp + Pton4(t + s).value, colon)
            else None
  {
    hide HexNumber, Pieces, Pton4, Finish;
    var u, v := t + s, t + [s[0]];
    HexColonless(t);
    assert u[..|v|] == v && u[|t|] == s[0];
    FirstPiece(u, v);
    var p := Pieces(u)[0];
    assert p[|t|] == p[..|v|][|t|] == s[0];
    assert p != [] && !IsWord(p);
    if Pton4(u).Some? {
      QuadChars(u);
    }
    if |Pieces(u)| == 1 && Pton4(u).Some? {
      hide IsWord;
    } else {
      hide Gather;
      Refused(Pieces(u), tmp, colon);
    }
  }

  // ---- The addresses of pieces ----

  predicate Inner(p: cstring) { p == [] || IsWord(p) }

  predicate Last(p: cstring) { Inner(p) || Pton4(p).Some? }

  /** Words between colons, or nothing; at the end there may be an IPv4 address. */
  predicate WellFormed(pieces: seq<cstring>)
    requires pieces != []
  {
    (forall i :: 0 <= i < |pieces| - 1 ==> Inner(pieces[i])) && Last(pieces[|pieces| - 1])
  }

  /** There are no two colons. */
  predicate NoGap(pieces: seq<cstring>) {
    forall i :: 0 <= i < |pieces| - 1 ==> pieces[i] != []
  }

  /** There are two colons behind the first m pieces, and nowhere else. */
  predicate Gap(pieces: seq<cstring>, m: nat) {
    m + 1 < |pieces| && pieces[m] == [] && forall i :: 0 <= i < |pieces| - 1 && i != m ==> pieces[i] != []
  }

  /** The zeros two colons stand for take up what is missing; where nothing is, they clear all behind them. */
  predicate Filled(front: Octets, back: Octets, a: Octets) {
    if |front| + |back| < 16 then a == front + Zeros(16 - |front| - |back|) + back
    else |front| + |back| == 16 && a == front + Zeros(|back|)
  }

  /** What two colons behind the first m pieces make of all of them, behind the octets in tmp. */
  predicate GapFilled(pieces: seq<cstring>, m: nat, tmp: Octets, a: Octets) {
    Gap(pieces, m) && Filled(tmp + AllOctets(pieces[..m]), AllOctets(pieces[m + 1..]), a)
  }

  /** The address pieces stand for, behind the octets in tmp. */
  ghost predicate StandFor(pieces: seq<cstring>, tmp: Octets, a: Octets)
    requires pieces != []
  {
    && WellFormed(pieces)
    && ((NoGap(pieces) && |a| == 16 && a == tmp + AllOctets(pieces)) ||
        exists m: nat :: GapFilled(pieces, m, tmp, a))
  }

  lemma WellFormedCons(pieces: seq<cstring>)
    requires |pieces| > 1
    ensures WellFormed(pieces) <==> Inner(pieces[0]) && WellFormed(pieces[1..])
    ensures NoGap(pieces) <==> pieces[0] != [] && NoGap(pieces[1..])
    ensures AllOctets(pieces) == PieceOctets(pieces[0]) + AllOctets(pieces[1..])
  {
    hide Inner, Last;
    var rest := pieces[1..];
    assert rest[|rest| - 1] == pieces[|pieces| - 1];
    assert forall i :: 0 < i < |pieces| ==> pieces[i] == rest[i - 1];
  }

  lemma EmptyPiece()
    ensures PieceOctets([]) == [] && AllOctets([]) == []
  {}

  lemma OnePiece(p: cstring)
    ensures AllOctets([p]) == PieceOctets(p)
  {
    hide PieceOctets;
    assert ([p])[1..] == [];
  }

  lemma WordPiece(p: cstring)
    requires IsWord(p)
    ensures |PieceOctets(p)| == 2 && p != []
  {}

  /** Behind the two colons there may be no more of them. */
  lemma {:induction false} GatherBehind(pieces: seq<cstring>, tmp: Octets, colon: nat)
    requires pieces != [] && colon <= |tmp| <= 16
    ensures var octets := tmp + AllOctets(pieces);
            Gather(pieces, tmp, Some(colon)) ==
            if WellFormed(pieces) && NoGap(pieces) && |octets| <= 16 then Finish(octets, Some(colon)) else None
    decreases |pieces|
  {
    var p := pieces[0];
    EmptyPiece();
    if |pieces| == 1 {
      OnePiece(p);
      assert pieces == [p];
      hide IsWord, PieceOctets, Pton4, AllOctets, Finish;
    } else {
      WellFormedCons(pieces);
      if IsWord(p) { WordPiece(p); }
      var next := tmp + PieceOctets(p);
      assert tmp + (PieceOctets(p) + AllOctets(pieces[1..])) == next + AllOctets(pieces[1..]);
      if p != [] && IsWord(p) && |next| <= 16 {
        GatherBehind(pieces[1..], next, colon);
      }
      hide IsWord, PieceOctets, Pton4, AllOctets, Finish, WellFormed, NoGap;
    }
  }

  lemma FinishFills(front: Octets, back: Octets)
    requires |front + back| <= 16
    ensures Finish(front + back, Some(|front|)).Some?
    ensures forall a :: Finish(front + back, Some(|front|)) == Some(a) <==> Filled(front, back, a)
  {
    assert (front + back)[..|front|] == front && (front + back)[|front|..] == back;
  }

  lemma GapCons(pieces: seq<cstring>, m: nat)
    requires |pieces| > 1
    ensures pieces[0] == [] ==> (Gap(pieces, m) <==> m == 0 && NoGap(pieces[1..]))
    ensures pieces[0] != [] ==> (Gap(pieces, m) <==> m > 0 && Gap(pieces[1..], m - 1))
  {
    var rest := pieces[1..];
    assert forall i :: 0 < i < |pieces| ==> pieces[i] == rest[i - 1];
    assert forall i :: 0 <= i < |rest| ==> rest[i] == pieces[i + 1];
  }

  /** A word in front becomes part of the octets. */
  lemma StandCons(pieces: seq<cstring>, tmp: Octets, a: Octets)
    requires |pieces| > 1 && IsWord(pieces[0])
    ensures StandFor(pieces, tmp, a) <==> StandFor(pieces[1..], tmp + PieceOctets(pieces[0]), a)
  {
    WellFormedCons(pieces);
    WordPiece(pieces[0]);
    hide IsWord, PieceOctets, AllOctets, WellFormed, NoGap, Gap, Filled;
    var rest, next := pieces[1..], tmp + PieceOctets(pieces[0]);
    assert tmp + AllOctets(pieces) == next + AllOctets(rest);
    forall m: nat
      ensures GapFilled(pieces, m, tmp, a) <==> m > 0 && GapFilled(rest, m - 1, next, a)
    {
      GapCons(pieces, m);
      if m > 0 && m < |pieces| { FrontCons(pieces, m, tmp); }
      if Gap(pieces, m) { GapInside(pieces, m); }
    }
    forall m: nat | GapFilled(rest, m, next, a)
      ensures GapFilled(pieces, m + 1, tmp, a)
    {
    }
  }

  lemma GapInside(pieces: seq<cstring>, m: nat)
    requires Gap(pieces, m)
    ensures m + 1 < |pieces|
  {}

  lemma FrontCons(pieces: seq<cstring>, m: nat, tmp: Octets)
    requires 0 < m < |pieces|
    ensures tmp + AllOctets(pieces[..m]) == tmp + PieceOctets(pieces[0]) + AllOctets(pieces[1..][..m - 1])
    ensures pieces[m + 1..] == pieces[1..][m..]
  {
    hide PieceOctets;
    assert pieces[..m][1..] == pieces[1..][..m - 1];
  }

  /** The octets behind the two colons at the front. */
  lemma StandGap(pieces: seq<cstring>, tmp: Octets, a: Octets)
    requires |pieces| > 1 && pieces[0] == []
    ensures StandFor(pieces, tmp, a) <==>
            WellFormed(pieces[1..]) && NoGap(pieces[1..]) && Filled(tmp, AllOctets(pieces[1..]), a)
  {
    WellFormedCons(pieces);
    EmptyPiece();
    assert AllOctets(pieces[..0]) == [] && tmp + [] == tmp;
    hide PieceOctets, AllOctets, WellFormed, NoGap, Gap, Filled;
    forall m: nat
      ensures GapFilled(pieces, m, tmp, a) <==>
              m == 0 && NoGap(pieces[1..]) && Filled(tmp, AllOctets(pieces[1..]), a)
    {
      GapCons(pieces, m);
    }
    assert GapFilled(pieces, 0, tmp, a) <==> NoGap(pieces[1..]) && Filled(tmp, AllOctets(pieces[1..]), a);
  }

  lemma {:induction false} GatherStands(pieces: seq<cstring>, tmp: Octets, a: Octets)
    requires pieces != [] && |tmp| <= 16
    ensures Gather(pieces, tmp, None) == Some(a) <==> StandFor(pieces, tmp, a)
    decreases |pieces|
  {
    var p := pieces[0];
    EmptyPiece();
    if |pieces| == 1 {
      OnePiece(p);
      assert pieces == [p] && NoGap(pieces);
      hide IsWord, PieceOctets, Pton4, AllOctets;
    } else if p == [] {
      StandGap(pieces, tmp, a);
      GatherBehind(pieces[1..], tmp, |tmp|);
      hide StandFor, IsWord, PieceOctets, Pton4, WellFormed, NoGap;
      if |tmp + AllOctets(pieces[1..])| <= 16 {
        FinishFills(tmp, AllOctets(pieces[1..]));
        hide Finish, AllOctets;
      }
    } else if IsWord(p) && |tmp| + 2 <= 16 {
      StandCons(pieces, tmp, a);
      WordPiece(p);
      GatherStands(pieces[1..], tmp + PieceOctets(p), a);
      hide StandFor, IsWord, PieceOctets, AllOctets;
    } else {
      if IsWord(p) { TooLong(pieces, tmp, a); }
      WellFormedCons(pieces);
      hide IsWord, PieceOctets, AllOctets;
    }
  }

  /** Seventeen octets are no address. */
  lemma TooLong(pieces: seq<cstring>, tmp: Octets, a: Octets)
    requires |pieces| > 1 && IsWord(pieces[0]) && |tmp| > 14
    ensures !StandFor(pieces, tmp, a)
  {
    StandCons(pieces, tmp, a);
    WordPiece(pieces[0]);
    hide PieceOctets, AllOctets, IsWord;
  }

  /** xxx_inet_pton6 accepts exactly the texts whose pieces stand for an address; one colon at the start is not
      accepted, and of two colons there the first is no more than a mark. */
  lemma Pton6Iff(s: cstring, a: Octets)
    ensures var colon := s != [] && s[0] == ':' as int;
            Pton6(s) == Some(a) <==>
            && (colon ==> |s| > 1 && s[1] == ':' as int)
            && StandFor(Pieces(if colon then s[1..] else s), [], a)
  {
    var u := if s != [] && s[0] == COLON then s[1..] else s;
    NoNumber();
    assert [] + u == u;
    ParsesPieces(u, [], None, []);
    GatherStands(Pieces(u), [], a);
    hide Parse6, Gather, StandFor, Pieces;
  }
}

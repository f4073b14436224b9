/**
  IPv4 addresses as text.
*/
module Inet4 {
  import opened CTypes
  import opened Numerals

  const DOT: cchar := 46

  /** xxx_inet_ntop4: "%u.%u.%u.%u". */
  function Text4(a: seq<byte>): cstring
    requires |a| == 4
  {
    Decimal(a[0]) + [DOT] + Decimal(a[1]) + [DOT] + Decimal(a[2]) + [DOT] + Decimal(a[3])
  }

  predicate IsDigit(c: cchar) { 48 <= c <= 57 }

  function DigitValue(c: cchar): (v: int)
    requires IsDigit(c)
    ensures 0 <= v < 10
  {
    c - 48
  }

  /** xxx_inet_pton4, from some point in the text on: the octets before the current one, the current
      one, and whether it has a digit. */
  function Parse4(s: cstring, done: seq<byte>, current: byte, sawDigit: bool): (r: Option<seq<byte>>)
    requires |done| <= 3
    ensures r.Some? ==> |r.value| == 4
    decreases |s|
  {
    if s == [] then (if |done| == 3 && sawDigit then Some(done + [current]) else None)
    else if IsDigit(s[0]) then
      var value: int := current;
      if value * 10 + DigitValue(s[0]) > 255 then None
      else Parse4(s[1..], done, value * 10 + DigitValue(s[0]), true)
    else if s[0] == DOT && sawDigit then
      if |done| == 3 then None else Parse4(s[1..], done + [current], 0, false)
    else None
  }

  function Pton4(s: cstring): (r: Option<seq<byte>>)
    ensures r.Some? ==> |r.value| == 4
  {
    Parse4(s, [], 0, false)
  }

  /** The digits of an octet, read from zero. */
  lemma {:induction false} ReadsDecimal(n: byte, rest: cstring, done: seq<byte>, saw: bool)
    requires |done| <= 3
    ensures Parse4(Decimal(n) + rest, done, 0, saw) == Parse4(rest, done, n, true)
    decreases n
  {
    var value: int := n;
    if value < 10 {
      assert Decimal(value) == [ZERO + value];
      assert ([ZERO + value] + rest)[1..] == rest;
    } else {
      var last := [ZERO + value % 10];
      assert Decimal(value) + rest == Decimal(value / 10) + (last + rest);
      ReadsDecimal(value / 10, last + rest, done, saw);
      assert (last + rest)[1..] == rest;
    }
  }

  lemma ReadsDot(n: byte, rest: cstring, done: seq<byte>)
    requires |done| < 3
    ensures Parse4([DOT] + rest, done, n, true) == Parse4(rest, done + [n], 0, false)
  {
    assert ([DOT] + rest)[1..] == rest;
  }

  /** The text of an address reads back. */
  lemma Text4RoundTrip(a: seq<byte>)
    requires |a| == 4
    ensures Pton4(Text4(a)) == Some(a)
  {
    hide Parse4, Decimal;
    var t3 := Decimal(a[3]);
    var t2 := Decimal(a[2]) + ([DOT] + t3);
    var t1 := Decimal(a[1]) + ([DOT] + t2);
    assert Text4(a) == Decimal(a[0]) + ([DOT] + t1);
    ReadsDecimal(a[0], [DOT] + t1, [], false);
    ReadsDot(a[0], t1, []);
    ReadsDecimal(a[1], [DOT] + t2, [a[0]], false);
    ReadsDot(a[1], t2, [a[0]]);
    ReadsDecimal(a[2], [DOT] + t3, [a[0], a[1]], false);
    ReadsDot(a[2], t3, [a[0], a[1]]);
    assert t3 + [] == t3;
    ReadsDecimal(a[3], [], [a[0], a[1], a[2]], false);
    assert [] + [a[0]] == [a[0]] && [a[0]] + [a[1]] == [a[0], a[1]] && [a[0], a[1]] + [a[2]] == [a[0], a[1], a[2]];
    Finished(a);
  }

  lemma Finished(a: seq<byte>)
    requires |a| == 4
    ensures Parse4([], [a[0], a[1], a[2]], a[3], true) == Some(a)
  {
    assert [a[0], a[1], a[2]] + [a[3]] == a;
  }

  // ---- The texts that are accepted ----

  predicate Digits(s: cstring) {
    forall i :: 0 <= i < |s| ==> '0' as int <= s[i] <= '9' as int
  }

  function DecimalValue(s: cstring): nat
    requires Digits(s)
  {
    if s == [] then 0 else DecimalValue(s[..|s| - 1]) * 10 + (s[|s| - 1] - '0' as int)
  }

  /** One digit or more that come to v; zeros may stand in front. */
  predicate OctetText(s: cstring, v: byte) {
    s != [] && Digits(s) && DecimalValue(s) == v
  }

  /** Texts of octets, with dots between them. */
  ghost predicate DottedOctets(s: cstring, vs: seq<byte>)
    decreases |vs|
  {
    if |vs| <= 1 then |vs| == 1 && OctetText(s, vs[0])
    else exists d :: OctetText(d, vs[0]) && PointBehind(s, d) && DottedOctets(s[|d| + 1..], vs[1..])
  }

  predicate PointBehind(s: cstring, d: cstring) {
    |d| < |s| && s[..|d|] == d && s[|d|] == '.' as int
  }

  lemma DigitsSnoc(t: cstring, c: cchar)
    requires Digits(t) && IsDigit(c)
    ensures Digits(t + [c]) && DecimalValue(t + [c]) == DecimalValue(t) * 10 + DigitValue(c)
  {
    assert (t + [c])[..|t|] == t;
  }

  /** A text is accepted only as octets with dots between them; t holds the digits of the current octet. */
  lemma {:induction false} Parse4Sound(s: cstring, done: seq<byte>, t: cstring)
    requires |done| <= 3 && Digits(t) && DecimalValue(t) <= 255
    requires Parse4(s, done, DecimalValue(t), t != []).Some?
    ensures var r := Parse4(s, done, DecimalValue(t), t != []).value;
            r[..|done|] == done && DottedOctets(t + s, r[|done|..])
    decreases |s|
  {
    hide DottedOctets, DecimalValue;
    var current: byte := DecimalValue(t);
    var r := Parse4(s, done, current, t != []).value;
    if s == [] {
      assert t + s == t && r[3..] == [current];
      OneOctet(t, current);
    } else if IsDigit(s[0]) {
      DigitsSnoc(t, s[0]);
      Parse4Sound(s[1..], done, t + [s[0]]);
      assert t + [s[0]] + s[1..] == t + s;
    } else {
      NoDigits();
      Parse4Sound(s[1..], done + [current], []);
      PointPassed(s, done, t, current, r);
    }
  }

  lemma PointPassed(s: cstring, done: seq<byte>, t: cstring, v: byte, r: seq<byte>)
    requires s != [] && s[0] == DOT && |r| == 4 && |done| < 3 && r[..|done| + 1] == done + [v]
    requires OctetText(t, v) && DottedOctets([] + s[1..], r[|done| + 1..])
    ensures r[..|done|] == done && DottedOctets(t + s, r[|done|..])
  {
    hide DottedOctets, OctetText;
    assert [] + s[1..] == s[1..];
    assert r[..|done| + 1][..|done|] == r[..|done|] && r[|done|] == r[..|done| + 1][|done|];
    MoreOctets(t, s[1..], v, r[|done| + 1..]);
    assert s == [DOT] + s[1..] && t + s == t + [DOT] + s[1..];
    assert r[|done|..] == [v] + r[|done| + 1..];
  }

  lemma NoDigits()
    ensures Digits([]) && DecimalValue([]) == 0
  {}

  lemma OneOctet(t: cstring, v: byte)
    requires OctetText(t, v)
    ensures DottedOctets(t, [v])
  {}

  lemma MoreOctets(d: cstring, rest: cstring, v: byte, vs: seq<byte>)
    requires OctetText(d, v) && vs != [] && DottedOctets(rest, vs)
    ensures DottedOctets(d + [DOT] + rest, [v] + vs)
  {
    hide OctetText;
    var s := d + [DOT] + rest;
    assert s[|d| + 1..] == rest && ([v] + vs)[1..] == vs && s[..|d|] == d && s[|d|] == '.' as int;
    assert PointBehind(s, d);
  }

  /** The digits of an octet are read to the last one. */
  lemma {:induction false} ReadsDigits(d: cstring, rest: cstring, done: seq<byte>)
    requires |done| <= 3 && d != [] && Digits(d) && DecimalValue(d) <= 255
    ensures Parse4(d + rest, done, 0, false) == Parse4(rest, done, DecimalValue(d), true)
    decreases |d|
  {
    var n := |d| - 1;
    var last := d[n];
    assert d == d[..n] + [last] && ([last] + rest)[1..] == rest;
    assert IsDigit(last) && Digits(d[..n]);
    assert DecimalValue(d) == DecimalValue(d[..n]) * 10 + DigitValue(last);
    if n == 0 {
      assert d + rest == [last] + rest && DecimalValue(d[..0]) == 0;
    } else {
      assert d + rest == d[..n] + ([last] + rest);
      ReadsDigits(d[..n], [last] + rest, done);
    }
    hide DecimalValue;
  }

  lemma {:induction false} Parse4Complete(s: cstring, done: seq<byte>, vs: seq<byte>)
    requires |done| + |vs| == 4 && vs != [] && DottedOctets(s, vs)
    ensures Parse4(s, done, 0, false) == Some(done + vs)
    decreases |vs|
  {
    hide OctetText, Parse4;
    if |vs| == 1 {
      LastOctetRead(s, done, vs[0]);
      assert vs == [vs[0]];
    } else {
      var d :| OctetText(d, vs[0]) && PointBehind(s, d) && DottedOctets(s[|d| + 1..], vs[1..]);
      hide DottedOctets;
      OctetRead(s, d, done, vs[0]);
      Parse4Complete(s[|d| + 1..], done + [vs[0]], vs[1..]);
      assert done + [vs[0]] + vs[1..] == done + vs;
    }
  }

  lemma LastOctetRead(s: cstring, done: seq<byte>, v: byte)
    requires |done| == 3 && OctetText(s, v)
    ensures Parse4(s, done, 0, false) == Some(done + [v])
  {
    hide DecimalValue, Parse4;
    ReadsDigits(s, [], done);
    assert s + [] == s;
    LastRead(done, v);
  }

  lemma OctetRead(s: cstring, d: cstring, done: seq<byte>, v: byte)
    requires |done| < 3 && OctetText(d, v) && PointBehind(s, d)
    ensures Parse4(s, done, 0, false) == Parse4(s[|d| + 1..], done + [v], 0, false)
  {
    hide DecimalValue, Parse4;
    var rest := s[|d| + 1..];
    assert s == d + ([DOT] + rest);
    ReadsDigits(d, [DOT] + rest, done);
    ReadsDot(v, rest, done);
  }

  lemma LastRead(done: seq<byte>, v: byte)
    requires |done| == 3
    ensures Parse4([], done, v, true) == Some(done + [v])
  {}

  /** xxx_inet_pton4 accepts exactly four texts of octets with dots between them. */
  lemma Pton4Iff(s: cstring, a: seq<byte>)
    ensures Pton4(s) == Some(a) <==> |a| == 4 && DottedOctets(s, a)
  {
    hide Parse4, DottedOctets;
    NoDigits();
    assert [] + s == s && [] + a == a;
    if Pton4(s).Some? { Parse4Sound(s, [], []); }
    if |a| == 4 && DottedOctets(s, a) { Parse4Complete(s, [], a); }
  }

  // ---- The loop ----

  /** xxx_inet_pton4 on the rest of a text; the octets go into `tmp`. */
  method ParseInto(s: cstring) returns (a: Option<seq<byte>>)
    ensures a == Pton4(s)
  {
    var tmp := new byte[4];
    tmp[0] := 0;
    var tp, octets, sawDigit, i := 0, 0, false, 0;
    assert s[0..] == s && tmp[..0] == [];
    while i < |s|
      invariant 0 <= i <= |s| && 0 <= tp <= 3 && octets == tp + if sawDigit then 1 else 0
      invariant Parse4(s[i..], tmp[..tp], tmp[tp], sawDigit) == Pton4(s)
    {
      var ch := s[i];
      assert s[i..][1..] == s[i + 1..];
      i := i + 1;
      if IsDigit(ch) {
        var value: int := tmp[tp];
        var newVal := value * 10 + DigitValue(ch);
        if newVal > 255 {
          return None;
        }
        tmp[tp] := newVal;
        if !sawDigit {
          octets := octets + 1;
          if octets > 4 {
            return None;
          }
          sawDigit := true;
        }
      } else if ch == DOT && sawDigit {
        if octets == 4 {
          return None;
        }
        tp := tp + 1;
        assert tmp[..tp] == tmp[..tp - 1] + [tmp[tp - 1]];
        tmp[tp] := 0;
        sawDigit := false;
      } else {
        return None;
      }
    }
    if octets < 4 {
      return None;
    }
    assert tmp[..] == tmp[..tp] + [tmp[tp]];
    a := Some(tmp[..]);
  }
}

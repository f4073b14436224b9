/**
  Parsing IPv6 addresses: the loop over the characters, the shift that makes room for the zeros two colons
  stand for, and the rule for a leading colon.
*/
module Inet6Parse {
  import opened CTypes
  import opened Inet4
  import opened Inet6
  import opened Numerals

  type Octets = seq<byte>

  predicate IsHexDigit(c: cchar) {
    48 <= c <= 57 || 97 <= c <= 102 || 65 <= c <= 70
  }

  function HexDigitValue(c: cchar): (v: int)
    requires IsHexDigit(c)
    ensures 0 <= v < 16
  {
    if c <= 57 then c - 48 else if c <= 70 then c - 55 else c - 87
  }

  /** The digits of either case, and nothing else. */
  lemma HexDigitReads(c: cchar, d: int)
    requires 0 <= d < 16
    ensures c == "0123456789abcdef"[d] as int || c == "0123456789ABCDEF"[d] as int <==>
            IsHexDigit(c) && HexDigitValue(c) == d
  {}

  function WordOctets(w: word): (r: Octets)
    ensures |r| == 2
  {
    var n: int := w;
    [n / 0x100, n % 0x100]
  }

  lemma OctetOrder(w: word)
    ensures WordOctets(w)[0] as int * 0x100 + WordOctets(w)[1] as int == w
  {}

  function Zeros(n: nat): (r: Octets)
    ensures |r| == n
  {
    seq(n, _ => 0)
  }

  /** The end of xxx_inet_pton6: what stands behind the two colons moves to the end of the address,
      and zeros take its place. */
  function Finish(tmp: Octets, colon: Option<nat>): (r: Option<Octets>)
    requires |tmp| <= 16 && (colon.Some? ==> colon.value <= |tmp|)
    ensures r.Some? ==> |r.value| == 16
  {
    match colon
    case None => if |tmp| == 16 then Some(tmp) else None
    case Some(c) =>
      if |tmp| < 16 then Some(tmp[..c] + Zeros(16 - |tmp|) + tmp[c..])
      else Some(tmp[..c] + Zeros(16 - c))
  }

  /** The end of the text, where a word may be left to store. */
  function Ended(tmp: Octets, colon: Option<nat>, saw: bool, val: word): (r: Option<Octets>)
    requires |tmp| <= 16 && (colon.Some? ==> colon.value <= |tmp|)
    ensures r.Some? ==> |r.value| == 16
  {
    if !saw then Finish(tmp, colon)
    else if |tmp| + 2 > 16 then None
    else Finish(tmp + WordOctets(val), colon)
  }

  /** The loop of xxx_inet_pton6 on the rest of a text: the octets so far, where the two colons were,
      the word being read, and the text from its first character on. */
  function Parse6(s: cstring, tmp: Octets, colon: Option<nat>, saw: bool, val: word, tok: cstring): (r: Option<Octets>)
    requires |tmp| <= 16 && (colon.Some? ==> colon.value <= |tmp|)
    ensures r.Some? ==> |r.value| == 16
    decreases |s|
  {
    if s == [] then Ended(tmp, colon, saw, val)
    else if IsHexDigit(s[0]) then
      var v: int := val;
      if v * 16 + HexDigitValue(s[0]) > 0xFFFF then None
      else Parse6(s[1..], tmp, colon, true, v * 16 + HexDigitValue(s[0]), tok)
    else if s[0] == COLON then
      if !saw then (if colon.Some? then None else Parse6(s[1..], tmp, Some(|tmp|), false, val, s[1..]))
      else if |tmp| + 2 > 16 then None
      else Parse6(s[1..], tmp + WordOctets(val), colon, false, 0, s[1..])
    else if s[0] == DOT && |tmp| + 4 <= 16 && Pton4(tok).Some? then Finish(tmp + Pton4(tok).value, colon)
    else None
  }

  /** xxx_inet_pton6: one colon at the start must be followed by another. */
  function Pton6(s: cstring): (r: Option<Octets>)
    ensures r.Some? ==> |r.value| == 16
  {
    if s != [] && s[0] == COLON then
      if |s| > 1 && s[1] == COLON then Parse6(s[1..], [], None, false, 0, s[1..]) else None
    else Parse6(s, [], None, false, 0, s)
  }

  // ---- The parser as it is written ----

  /** The shift by hand: it clears every octet it has moved, even one that has not moved at all. */
  method Shift(tmp: array<byte>, tp: nat, colon: nat)
    requires tmp.Length == 16 && colon <= tp <= 16 && forall k :: tp <= k < 16 ==> tmp[k] == 0
    modifies tmp
    ensures Some(tmp[..]) == Finish(old(tmp[..tp]), Some(colon))
  {
    hide Finish;
    var n := tp - colon;
    ghost var before := tmp[..tp];
    var i := 1;
    while i <= n
      invariant 1 <= i <= n + 1
      invariant forall k :: 0 <= k < 16 - i + 1 && k < tp - i + 1 ==> tmp[k] == old(tmp[k])
      invariant tp < 16 ==> forall k :: 16 - i < k < 16 ==> tmp[k] == old(tmp[k - (16 - tp)])
      invariant tp < 16 ==> forall k :: tp - i < k <= 16 - i ==> tmp[k] == 0
      invariant tp == 16 ==> forall k :: 16 - i < k < 16 ==> tmp[k] == 0
    {
      tmp[16 - i] := tmp[colon + n - i];
      tmp[colon + n - i] := 0;
      i := i + 1;
    }
    Shifted(tmp[..], before, colon);
  }

  /** What the shift comes to. */
  lemma Shifted(after: Octets, before: Octets, colon: nat)
    requires |after| == 16 && colon <= |before| <= 16
    requires forall k :: 0 <= k < colon ==> after[k] == before[k]
    requires |before| < 16 ==> forall k :: 16 - |before| + colon <= k < 16 ==> after[k] == before[k - (16 - |before|)]
    requires |before| < 16 ==> forall k :: colon <= k < 16 - |before| + colon ==> after[k] == 0
    requires |before| == 16 ==> forall k :: colon <= k < 16 ==> after[k] == 0
    ensures Some(after) == Finish(before, Some(colon))
  {
    if |before| < 16 {
      var r := before[..colon] + Zeros(16 - |before|) + before[colon..];
      assert forall k :: 0 <= k < 16 ==> after[k] == r[k];
      assert after == r;
    } else {
      assert after == before[..colon] + Zeros(16 - colon);
    }
  }

  /** xxx_inet_pton6. */
  method ParseAddress(src: cstring) returns (dst: Option<Octets>)
    ensures dst == Pton6(src)
  {
    hide Parse6, Finish;
    dst := None;
    var s := 0;
    if |src| > 0 && src[0] == COLON {
      s := 1;
      if |src| == 1 || src[1] != COLON {
        return;
      }
    } else {
      assert src[0..] == src;
    }
    dst := ParseWords(src, s);
  }

  /** Stores a word. */
  method Store(tmp: array<byte>, tp: nat, val: word) returns (next: nat)
    requires tmp.Length == 16 && tp + 2 <= 16
    modifies tmp
    ensures next == tp + 2 && tmp[..next] == old(tmp[..tp]) + WordOctets(val)
    ensures forall k :: next <= k < 16 ==> tmp[k] == old(tmp[k])
  {
    var n: int := val;
    tmp[tp], tmp[tp + 1] := n / 0x100, n % 0x100;
    next := tp + 2;
  }

  /** What follows the loop. */
  method FinishInto(tmp: array<byte>, start: nat, colonp: Option<nat>, saw: bool, val: word)
    returns (dst: Option<Octets>)
    requires tmp.Length == 16 && start <= 16 && (colonp.Some? ==> colonp.value <= start)
    requires forall k :: start <= k < 16 ==> tmp[k] == 0
    modifies tmp
    ensures dst == Ended(old(tmp[..start]), colonp, saw, val)
  {
    var tp := start;
    if saw {
      if tp + 2 > 16 {
        return None;
      }
      tp := Store(tmp, tp, val);
    }
    if colonp.Some? {
      Shift(tmp, tp, colonp.value);
      tp := 16;
    }
    if tp != 16 {
      return None;
    }
    assert tmp[..16] == tmp[..];
    dst := Some(tmp[..]);
  }

  /** Its loop and what follows it. */
  method ParseWords(src: cstring, start: nat) returns (dst: Option<Octets>)
    requires start <= |src|
    ensures dst == Parse6(src[start..], [], None, false, 0, src[start..])
  {
    hide Ended, Pton4, WordOctets, IsHexDigit;
    var tmp := new byte[16](_ => 0);
    var tp: nat, colonp: Option<nat> := 0, None;
    var s, curtok, saw, stopped := start, start, false, false;
    var val: word := 0;
    ghost var whole := Parse6(src[start..], [], None, false, 0, src[start..]);
    assert tmp[..0] == [];
    while s < |src| && !stopped
      invariant start <= s <= |src| && 0 <= curtok <= |src| && 0 <= tp <= 16 && (colonp.Some? ==> colonp.value <= tp)
      invariant forall k :: tp <= k < 16 ==> tmp[k] == 0
      invariant whole == if stopped then Ended(tmp[..tp], colonp, saw, val)
                         else Parse6(src[s..], tmp[..tp], colonp, saw, val, src[curtok..])
      decreases !stopped, |src| - s
    {
      var ch := src[s];
      assert src[s..][1..] == src[s + 1..];
      s := s + 1;
      if IsHexDigit(ch) {
        var v: int := val;
        v := v * 16 + HexDigitValue(ch);
        if v > 0xFFFF {
          return None;
        }
        saw, val := true, v;
      } else if ch == COLON {
        curtok := s;
        if !saw {
          if colonp.Some? {
            return None;
          }
          colonp := Some(tp);
        } else {
          if tp + 2 > 16 {
            return None;
          }
          tp := Store(tmp, tp, val);
          saw, val := false, 0;
        }
      } else {
        if ch != DOT || tp + 4 > 16 {
          return None;
        }
        var quad := ParseInto(src[curtok..]);
        if quad.None? {
          return None;
        }
        StoppedIs(tmp[..tp] + quad.value, colonp, val);
        tp := StoreQuad(tmp, tp, quad.value);
        saw, stopped := false, true;
      }
    }
    dst := FinishInto(tmp, tp, colonp, saw, val);
  }

  lemma StoppedIs(tmp: Octets, colon: Option<nat>, val: word)
    requires |tmp| <= 16 && (colon.Some? ==> colon.value <= |tmp|)
    ensures Ended(tmp, colon, false, val) == Finish(tmp, colon)
  {}

  /** Stores the octets of an IPv4 address. */
  method StoreQuad(tmp: array<byte>, tp: nat, quad: Octets) returns (next: nat)
    requires tmp.Length == 16 && tp + 4 <= 16 && |quad| == 4
    modifies tmp
    ensures next == tp + 4 && tmp[..next] == old(tmp[..tp]) + quad
    ensures forall k :: next <= k < 16 ==> tmp[k] == old(tmp[k])
  {
    tmp[tp], tmp[tp + 1], tmp[tp + 2], tmp[tp + 3] := quad[0], quad[1], quad[2], quad[3];
    next := tp + 4;
  }
}

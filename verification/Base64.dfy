/**
  Base64, RFC 4648 section 4.
*/
module Base64 {
  import opened CTypes

  type Octets = seq<bv8>

  const PAD: bv8 := 61

  /** b64_table. */
  function Letter(x: bv32): bv8
    requires x < 64
  {
    if x < 26 then 65 + (x as bv8)
    else if x < 52 then 71 + (x as bv8)
    else if x < 62 then (x as bv8) - 4
    else if x == 62 then 43
    else 47
  }

  /** b64val: `=` is a bit outside the six bits of a letter, and anything unknown counts as zero. */
  function Value(c: bv8): bv32 {
    if 65 <= c <= 90 then (c - 65) as bv32
    else if 97 <= c <= 122 then (c - 97) as bv32 + 26
    else if 48 <= c <= 57 then (c - 48) as bv32 + 52
    else if c == 43 || c == 45 then 62
    else if c == 47 || c == 95 then 63
    else if c == PAD then 0x100_0000
    else 0
  }

  lemma LetterValue(x: bv32)
    requires x < 64
    ensures Value(Letter(x)) == x && Letter(x) != PAD
  {}

  /** The alphabet of RFC 4648 section 4: upper-case letters, lower-case letters, digits, a plus and a slash. */
  lemma Alphabet(x: bv32)
    requires x < 64
    ensures x <= 25 ==> Letter(x) == 65 + (x as bv8) && 65 == 'A' as bv8
    ensures 26 <= x <= 51 ==> Letter(x) == 97 + (x - 26) as bv8 && 97 == 'a' as bv8
    ensures 52 <= x <= 61 ==> Letter(x) == 48 + (x - 52) as bv8 && 48 == '0' as bv8
    ensures Letter(62) == '+' as bv8 && Letter(63) == '/' as bv8 && PAD == '=' as bv8
  {}

  /** The letters of section 5, a hyphen and an underscore, stand for the same as a plus and a slash. */
  lemma OtherAlphabet()
    ensures Value('-' as bv8) == Value('+' as bv8) == 62 && Value('_' as bv8) == Value('/' as bv8) == 63
  {}

  /** The 24 bits of a group of octets; those that are missing count as zero. */
  function Group(a: bv8, b: bv8, c: bv8): bv32 {
    ((a as bv32) << 16) | ((b as bv32) << 8) | (c as bv32)
  }

  function Sextet(v: bv32, k: nat): (x: bv32)
    requires k < 4
    ensures x < 64
  {
    if k == 0 then (v >> 18) & 0x3f
    else if k == 1 then (v >> 12) & 0x3f
    else if k == 2 then (v >> 6) & 0x3f
    else v & 0x3f
  }

  function EncodeGroup(a: bv8, b: bv8, c: bv8, pad: nat): (r: Octets)
    ensures |r| == 4
  {
    var v := Group(a, b, c);
    [Letter(Sextet(v, 0)), Letter(Sextet(v, 1)),
     if pad >= 2 then PAD else Letter(Sextet(v, 2)), if pad >= 1 then PAD else Letter(Sextet(v, 3))]
  }

  function Encode(s: Octets): (r: Octets)
    ensures |r| == 4 * ((|s| + 2) / 3)
    decreases |s|
  {
    if |s| == 0 then []
    else if |s| == 1 then EncodeGroup(s[0], 0, 0, 2)
    else if |s| == 2 then EncodeGroup(s[0], s[1], 0, 1)
    else EncodeGroup(s[0], s[1], s[2], 0) + Encode(s[3..])
  }

  function Bits(c0: bv8, c1: bv8, c2: bv8, c3: bv8): bv32 {
    Join(Value(c0), Value(c1), Value(c2), Value(c3))
  }

  function Join(x: bv32, y: bv32, z: bv32, w: bv32): bv32 {
    (x << 18) | (y << 12) | (z << 6) | w
  }

  /** The marks `=` leaves in third and fourth place. */
  predicate ThirdMarked(v: bv32) { v & 0x4000_0000 != 0 }

  predicate FourthMarked(v: bv32) { v & 0x100_0000 != 0 }

  function Byte(v: bv32, k: nat): bv8
    requires k < 3
  {
    if k == 0 then ((v >> 16) & 0xff) as bv8 else if k == 1 then ((v >> 8) & 0xff) as bv8 else (v & 0xff) as bv8
  }

  /** The octets of a group of letters: the marks in bits 30 and 24 leave out the second and the third. */
  function DecodeGroup(v: bv32): (r: Octets)
    ensures 1 <= |r| <= 3
  {
    [Byte(v, 0)] + (if ThirdMarked(v) then [] else [Byte(v, 1)]) + (if FourthMarked(v) then [] else [Byte(v, 2)])
  }

  function Decode(t: Octets): (r: Octets)
    ensures |r| <= 3 * (|t| / 4)
    decreases |t|
  {
    if |t| < 4 then [] else DecodeGroup(Bits(t[0], t[1], t[2], t[3])) + Decode(t[4..])
  }

  /** The bits of a group with the marks of its padding. */
  function Tagged(a: bv8, b: bv8, c: bv8, pad: nat): bv32 {
    if pad == 0 then Group(a, b, c) else if pad == 1 then Group(a, b, 0) | 0x100_0000 else Group(a, 0, 0) | 0x4100_0000
  }

  lemma FirstByte(a: bv8, b: bv8, c: bv8)
    ensures Byte(Tagged(a, b, c, 0), 0) == a && Byte(Tagged(a, b, c, 1), 0) == a && Byte(Tagged(a, b, c, 2), 0) == a
  {}

  lemma SecondByte(a: bv8, b: bv8, c: bv8)
    ensures Byte(Tagged(a, b, c, 0), 1) == b && Byte(Tagged(a, b, c, 1), 1) == b
  {}

  lemma ThirdByte(a: bv8, b: bv8, c: bv8)
    ensures Byte(Tagged(a, b, c, 0), 2) == c
  {}

  lemma TaggedMarks(a: bv8, b: bv8, c: bv8)
    ensures !ThirdMarked(Tagged(a, b, c, 0)) && !FourthMarked(Tagged(a, b, c, 0))
    ensures !ThirdMarked(Tagged(a, b, c, 1)) && FourthMarked(Tagged(a, b, c, 1))
    ensures ThirdMarked(Tagged(a, b, c, 2)) && FourthMarked(Tagged(a, b, c, 2))
  {}

  /** A group with the marks of its padding decodes to the octets that are there. */
  lemma GroupRoundTrip(a: bv8, b: bv8, c: bv8, pad: nat)
    requires pad <= 2
    ensures DecodeGroup(Tagged(a, b, c, pad)) == [a, b, c][..3 - pad]
  {
    hide Tagged, Byte, ThirdMarked, FourthMarked;
    FirstByte(a, b, c);
    SecondByte(a, b, c);
    ThirdByte(a, b, c);
    TaggedMarks(a, b, c);
  }

  lemma JoinPlain(a: bv8, b: bv8, c: bv8)
    ensures var v := Group(a, b, c);
            Join(Sextet(v, 0), Sextet(v, 1), Sextet(v, 2), Sextet(v, 3)) == Tagged(a, b, c, 0)
  {}

  lemma JoinPadded(a: bv8, b: bv8, c: bv8)
    ensures var v := Group(a, b, 0);
            Join(Sextet(v, 0), Sextet(v, 1), Sextet(v, 2), 0x100_0000) == Tagged(a, b, c, 1)
  {}

  lemma JoinTwicePadded(a: bv8, b: bv8, c: bv8)
    ensures var v := Group(a, 0, 0);
            Join(Sextet(v, 0), Sextet(v, 1), 0x100_0000, 0x100_0000) == Tagged(a, b, c, 2)
  {}

  lemma PadValue()
    ensures Value(PAD) == 0x100_0000
  {}

  /** The bits a decoder collects from an encoded group. */
  lemma GroupBits(a: bv8, b: bv8, c: bv8, pad: nat)
    requires pad <= 2 && (pad >= 1 ==> c == 0) && (pad == 2 ==> b == 0)
    ensures var e := EncodeGroup(a, b, c, pad); Bits(e[0], e[1], e[2], e[3]) == Tagged(a, b, c, pad)
  {
    hide Group, Sextet, Letter, Value, Join, Tagged;
    var v := Group(a, b, c);
    LetterValue(Sextet(v, 0));
    LetterValue(Sextet(v, 1));
    LetterValue(Sextet(v, 2));
    LetterValue(Sextet(v, 3));
    PadValue();
    JoinPlain(a, b, c);
    JoinPadded(a, b, c);
    JoinTwicePadded(a, b, c);
  }

  /** Decoding what was encoded gives it back. */
  lemma {:induction false} RoundTrip(s: Octets)
    ensures Decode(Encode(s)) == s
    decreases |s|
  {
    hide Group, EncodeGroup, Bits, DecodeGroup, Tagged;
    if |s| == 1 {
      GroupBits(s[0], 0, 0, 2);
      GroupRoundTrip(s[0], 0, 0, 2);
    } else if |s| == 2 {
      GroupBits(s[0], s[1], 0, 1);
      GroupRoundTrip(s[0], s[1], 0, 1);
    } else if |s| >= 3 {
      var e := EncodeGroup(s[0], s[1], s[2], 0);
      GroupBits(s[0], s[1], s[2], 0);
      GroupRoundTrip(s[0], s[1], s[2], 0);
      RoundTrip(s[3..]);
      assert (e + Encode(s[3..]))[4..] == Encode(s[3..]);
      assert s == [s[0], s[1], s[2]] + s[3..];
    }
  }

  /** The examples of RFC 4648 section 10. */
  lemma Examples()
    ensures Encode([]) == []
    ensures Letters(Encode([102]), "Zg==") && Letters(Encode([102, 111]), "Zm8=")
    ensures Letters(Encode([102, 111, 111]), "Zm9v") && Letters(Encode([102, 111, 111, 98]), "Zm9vYg==")
    ensures Letters(Encode([102, 111, 111, 98, 97]), "Zm9vYmE=")
    ensures Letters(Encode([102, 111, 111, 98, 97, 114]), "Zm9vYmFy")
  {
    Groups();
    hide EncodeGroup;
    EncodeGroups([102, 111, 111]);
    EncodeGroups([102, 111, 111, 98]);
    EncodeGroups([102, 111, 111, 98, 97]);
    EncodeGroups([102, 111, 111, 98, 97, 114]);
    EncodeGroups([98, 97, 114]);
  }

  lemma Groups()
    ensures EncodeGroup(102, 0, 0, 2) == [90, 103, 61, 61] && EncodeGroup(102, 111, 0, 1) == [90, 109, 56, 61]
    ensures EncodeGroup(102, 111, 111, 0) == [90, 109, 57, 118] && EncodeGroup(98, 0, 0, 2) == [89, 103, 61, 61]
    ensures EncodeGroup(98, 97, 0, 1) == [89, 109, 69, 61] && EncodeGroup(98, 97, 114, 0) == [89, 109, 70, 121]
  {}

  predicate Letters(t: Octets, literal: string) {
    |t| == |literal| && forall i :: 0 <= i < |t| ==> t[i] as int == literal[i] as int
  }

  lemma EncodeGroups(s: Octets)
    requires 3 <= |s|
    ensures Encode(s) == EncodeGroup(s[0], s[1], s[2], 0) + Encode(s[3..])
  {
    hide EncodeGroup;
  }

  // ---- The loops, on buffers of the sizes the callers allocate ----

  lemma EncodeStep(s: Octets, i: nat)
    requires i < |s|
    ensures var n := if |s| - i < 3 then |s| - i else 3;
            Encode(s[i..]) == EncodeGroup(s[i], if n > 1 then s[i + 1] else 0, if n > 2 then s[i + 2] else 0, 3 - n) +
            Encode(s[i + n..])
  {
    hide EncodeGroup;
    if |s| - i >= 3 { assert s[i..][3..] == s[i + 3..]; }
  }

  /** wstk_base64_encode; a buffer that is too small is refused. */
  method EncodeInto(s: Octets, out: array<bv8>) returns (olen: Option<nat>)
    modifies out
    ensures olen == if out.Length < 4 * ((|s| + 2) / 3) then None else Some(|Encode(s)|)
    ensures olen.Some? ==> olen.value <= out.Length && out[..olen.value] == Encode(s)
    ensures olen.None? ==> out[..] == old(out[..])
  {
    hide EncodeGroup, Encode;
    if out.Length < 4 * ((|s| + 2) / 3) {
      return None;
    }
    var i, o := 0, 0;
    assert s[0..] == s && out[..0] == [];
    while i < |s|
      invariant 0 <= i <= |s| && o + |Encode(s[i..])| == |Encode(s)|
      invariant o <= out.Length && out[..o] + Encode(s[i..]) == Encode(s)
    {
      EncodeStep(s, i);
      var a := s[i];
      i := i + 1;
      var b, c, pad := 0, 0, 0;
      if i < |s| {
        b, i := s[i], i + 1;
      } else {
        pad := pad + 1;
      }
      if i < |s| {
        c, i := s[i], i + 1;
      } else {
        pad := pad + 1;
      }
      WriteGroup(a, b, c, pad, out, o, Encode(s), Encode(s[i..]));
      o := o + 4;
    }
    EncodeNothing(s[i..]);
    assert out[..o] + [] == out[..o];
    olen := Some(o);
  }

  lemma EncodeNothing(s: Octets)
    requires s == []
    ensures Encode(s) == []
  {}

  /** The four letters of a group. */
  method WriteGroup(a: bv8, b: bv8, c: bv8, pad: nat, out: array<bv8>, o: nat, ghost whole: Octets, ghost rest: Octets)
    requires o + 4 <= out.Length && out[..o] + (EncodeGroup(a, b, c, pad) + rest) == whole
    modifies out
    ensures out[..o + 4] + rest == whole
  {
    var v := Group(a, b, c);
    ghost var before := out[..o];
    out[o] := Letter(Sextet(v, 0));
    out[o + 1] := Letter(Sextet(v, 1));
    out[o + 2] := if pad >= 2 then PAD else Letter(Sextet(v, 2));
    out[o + 3] := if pad >= 1 then PAD else Letter(Sextet(v, 3));
    hide Group, Letter, Sextet;
    assert out[..o + 4] == before + EncodeGroup(a, b, c, pad);
    assert before + EncodeGroup(a, b, c, pad) + rest == before + (EncodeGroup(a, b, c, pad) + rest);
  }

  lemma DecodeStep(t: Octets, i: nat)
    requires i + 4 <= |t|
    ensures Decode(t[i..]) == DecodeGroup(Bits(t[i], t[i + 1], t[i + 2], t[i + 3])) + Decode(t[i + 4..])
    ensures |Decode(t[i + 4..])| <= 3 * ((|t| - i - 4) / 4)
  {
    hide DecodeGroup, Bits;
    assert t[i..][4..] == t[i + 4..];
  }

  /** wstk_base64_decode; letters short of a group are ignored. */
  method DecodeInto(t: Octets, out: array<bv8>) returns (olen: Option<nat>)
    modifies out
    ensures olen == if out.Length < 3 * (|t| / 4) then None else Some(|Decode(t)|)
    ensures olen.Some? ==> olen.value <= out.Length && out[..olen.value] == Decode(t)
    ensures olen.None? ==> out[..] == old(out[..])
  {
    if out.Length < 3 * (|t| / 4) {
      return None;
    }
    var i, o := 0, 0;
    assert t[0..] == t && out[..0] == [];
    while i + 3 < |t|
      invariant 0 <= i <= |t| && o + 3 * ((|t| - i) / 4) <= out.Length
      invariant 0 <= o && out[..o] + Decode(t[i..]) == Decode(t)
    {
      hide DecodeGroup, Decode, Bits;
      DecodeStep(t, i);
      o := WriteOctets(Bits(t[i], t[i + 1], t[i + 2], t[i + 3]), out, o, Decode(t), Decode(t[i + 4..]));
      i := i + 4;
    }
    assert out[..o] + [] == out[..o];
    olen := Some(o);
  }

  /** The octets of a group. */
  method WriteOctets(v: bv32, out: array<bv8>, o: nat, ghost whole: Octets, ghost rest: Octets) returns (next: nat)
    requires o + 3 <= out.Length && out[..o] + (DecodeGroup(v) + rest) == whole
    modifies out
    ensures o <= next <= o + 3 && out[..next] + rest == whole
  {
    hide Byte, ThirdMarked, FourthMarked;
    ghost var before := out[..o];
    out[o] := Byte(v, 0);
    next := o + 1;
    if !ThirdMarked(v) {
      out[next] := Byte(v, 1);
      next := next + 1;
    }
    if !FourthMarked(v) {
      out[next] := Byte(v, 2);
      next := next + 1;
    }
    assert out[..next] == before + DecodeGroup(v);
    assert before + DecodeGroup(v) + rest == before + (DecodeGroup(v) + rest);
  }

  /** Encoding into a buffer and decoding from it gives the input back, whatever its length. */
  method EncodeThenDecode(s: Octets) returns (back: Octets)
    ensures back == s
  {
    RoundTrip(s);
    hide Encode, Decode;
    var text := new bv8[4 * ((|s| + 2) / 3)];
    var n := EncodeInto(s, text);
    var octets := new bv8[3 * (n.value / 4)];
    var m := DecodeInto(text[..n.value], octets);
    back := octets[..m.value];
  }
}

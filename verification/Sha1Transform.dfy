/**
  The SHA-1 compression function: the 16-word circular schedule and the rotating register names of
  the code against the 80-word schedule of RFC 3174 section 6.1.
*/
module Sha1Transform {
  datatype Words = Words(a: bv32, b: bv32, c: bv32, d: bv32, e: bv32)

  function Rol1(x: bv32): bv32 { (x << 1) | (x >> 31) }

  function Rol5(x: bv32): bv32 { (x << 5) | (x >> 27) }

  function Rol8(x: bv32): bv32 { (x << 8) | (x >> 24) }

  function Rol24(x: bv32): bv32 { (x << 24) | (x >> 8) }

  function Rol30(x: bv32): bv32 { (x << 30) | (x >> 2) }

  /** Four octets, the most significant one first. */
  function WordOf(b0: bv8, b1: bv8, b2: bv8, b3: bv8): bv32 {
    ((b0 as bv32) << 24) | ((b1 as bv32) << 16) | ((b2 as bv32) << 8) | (b3 as bv32)
  }

  // ---- RFC 3174 section 6.1 ----

  /** The big-endian word at an octet position. */
  function BigEndian(s: seq<bv8>, i: nat): bv32
    requires i + 4 <= |s|
  {
    WordOf(s[i], s[i + 1], s[i + 2], s[i + 3])
  }

  /** W(t). */
  function Schedule(block: seq<bv8>, t: nat): bv32
    requires |block| == 64
  {
    if t < 16 then BigEndian(block, 4 * t)
    else Rol1(Schedule(block, t - 3) ^ Schedule(block, t - 8) ^ Schedule(block, t - 14) ^ Schedule(block, t - 16))
  }

  /** f(t;B,C,D). */
  function Mix(t: nat, b: bv32, c: bv32, d: bv32): bv32 {
    if t < 20 then (b & c) | (!b & d)
    else if 40 <= t < 60 then (b & c) | (b & d) | (c & d)
    else b ^ c ^ d
  }

  /** K(t). */
  function Constant(t: nat): bv32 {
    if t < 20 then 0x5A827999 else if t < 40 then 0x6ED9EBA1 else if t < 60 then 0x8F1BBCDC else 0xCA62C1D6
  }

  /** The constants are the square roots of 2, 3, 5 and 10, times 2^30. */
  lemma ConstantsAreRoots(t: nat)
    requires t < 80
    ensures var n := if t < 20 then 2 else if t < 40 then 3 else if t < 60 then 5 else 10;
            var k := Constant(t) as int;
            k * k <= n * 0x1000_0000_0000_0000 < (k + 1) * (k + 1)
  {}

  /** S^5(A) + f(t;B,C,D) + E + W(t) + K(t), modulo 2^32. */
  function Sum(r: bv32, m: bv32, z: bv32, w: bv32, k: bv32): bv32 {
    r + m + z + w + k
  }

  function Step(w: Words, t: nat, word: bv32): Words {
    Words(Sum(Rol5(w.a), Mix(t, w.b, w.c, w.d), w.e, word, Constant(t)), w.a, Rol30(w.b), w.c, w.d)
  }

  /** The registers after t rounds. */
  function Rounds(h: Words, block: seq<bv8>, t: nat): Words
    requires |block| == 64
  {
    if t == 0 then h else Step(Rounds(h, block, t - 1), t - 1, Schedule(block, t - 1))
  }

  function AddWords(h: Words, r: Words): Words {
    Words(h.a + r.a, h.b + r.b, h.c + r.c, h.d + r.d, h.e + r.e)
  }

  function Compress(h: Words, block: seq<bv8>): Words
    requires |block| == 64
  {
    var r := Rounds(h, block, 80);
    AddWords(h, r)
  }

  // ---- SHA1_Transform ----

  /** How a little-endian machine reads a word. */
  function LittleEndian(s: seq<bv8>, i: nat): bv32
    requires i + 4 <= |s|
  {
    WordOf(s[i + 3], s[i + 2], s[i + 1], s[i])
  }

  function Swap(x: bv32): bv32 {
    (Rol24(x) & 0xff00ff00) | (Rol8(x) & 0x00ff00ff)
  }

  lemma SwapReverses(b0: bv8, b1: bv8, b2: bv8, b3: bv8)
    ensures Swap(WordOf(b3, b2, b1, b0)) == WordOf(b0, b1, b2, b3)
  {}

  lemma SwapIsBigEndian(s: seq<bv8>, i: nat)
    requires i + 4 <= |s|
    ensures Swap(LittleEndian(s, i)) == BigEndian(s, i)
  {
    hide Swap, WordOf;
    SwapReverses(s[i], s[i + 1], s[i + 2], s[i + 3]);
  }

  lemma MixForms(x: bv32, y: bv32, z: bv32)
    ensures (x & (y ^ z)) ^ z == (x & y) | (!x & z)
    ensures ((x | y) & z) | (x & y) == (x & y) | (x & z) | (y & z)
  {}

  /** The words of the block before round t: the last sixteen that have been used, and the rest as
      they were read. */
  ghost predicate ScheduleHeld(workspace: seq<bv32>, block: seq<bv8>, t: nat)
    requires |block| == 64
  {
    && |workspace| == 16
    && (forall i :: t <= i < 16 ==> workspace[i] == LittleEndian(block, 4 * i))
    && (forall s :: 0 <= s < t <= s + 16 ==> workspace[s % 16] == Schedule(block, s))
  }

  lemma Behind(t: nat)
    requires t >= 16
    ensures (t + 13) % 16 == (t - 3) % 16 && (t + 8) % 16 == (t - 8) % 16
    ensures (t + 2) % 16 == (t - 14) % 16 && t % 16 == (t - 16) % 16
  {
    Wraps(t - 3);
    Wraps(t - 8);
    Wraps(t - 14);
    Wraps(t - 16);
  }

  lemma Wraps(s: nat)
    ensures (s + 16) % 16 == s % 16
  {}

  lemma ScheduleKept(workspace: seq<bv32>, block: seq<bv8>, t: nat, word: bv32)
    requires |block| == 64 && ScheduleHeld(workspace, block, t) && word == Schedule(block, t)
    ensures ScheduleHeld(workspace[t % 16 := word], block, t + 1)
  {
    hide Schedule, LittleEndian;
    forall s | 0 <= s < t + 1 <= s + 16
      ensures workspace[t % 16 := word][s % 16] == Schedule(block, s)
    {
      if s < t { assert s % 16 != t % 16; }
    }
  }

  /** blk0 and blk: the word of round t takes the place of the one sixteen rounds back. */
  method NextWord(workspace: array<bv32>, t: nat, ghost block: seq<bv8>) returns (word: bv32)
    requires |block| == 64 && workspace.Length == 16 && ScheduleHeld(workspace[..], block, t)
    modifies workspace
    ensures word == Schedule(block, t) && ScheduleHeld(workspace[..], block, t + 1)
  {
    hide LittleEndian, BigEndian, Swap, Rol1;
    ghost var before := workspace[..];
    if t < 16 {
      SwapIsBigEndian(block, 4 * t);
      word := Swap(workspace[t]);
    } else {
      Behind(t);
      word := Rol1(workspace[(t + 13) % 16] ^ workspace[(t + 8) % 16] ^ workspace[(t + 2) % 16] ^ workspace[t % 16]);
    }
    ScheduleKept(before, block, t, word);
    workspace[t % 16] := word;
    assert workspace[..] == before[t % 16 := word];
  }

  /** The mixing of the macros R0 to R4. */
  function MacroMix(t: nat, w: bv32, x: bv32, y: bv32): bv32 {
    if t < 20 then (w & (x ^ y)) ^ y
    else if 40 <= t < 60 then ((w | x) & y) | (w & x)
    else w ^ x ^ y
  }

  lemma MacroMixIsMix(t: nat, w: bv32, x: bv32, y: bv32)
    ensures MacroMix(t, w, x, y) == Mix(t, w, x, y)
  {
    MixForms(w, x, y);
  }

  /** The sum as the macros write it. */
  function MacroSum(z: bv32, m: bv32, w: bv32, k: bv32, r: bv32): bv32 {
    z + (m + w + k + r)
  }

  lemma SumOrder(z: bv32, m: bv32, w: bv32, k: bv32, r: bv32)
    ensures z + (m + w + k + r) == r + m + z + w + k
  {}

  lemma SumIs(z: bv32, m: bv32, w: bv32, k: bv32, r: bv32)
    ensures Sum(r, m, z, w, k) == r + m + z + w + k
  {}

  lemma MacroSumIs(z: bv32, m: bv32, w: bv32, k: bv32, r: bv32)
    ensures MacroSum(z, m, w, k, r) == z + (m + w + k + r)
  {}

  lemma MacroSumIsSum(z: bv32, m: bv32, w: bv32, k: bv32, r: bv32)
    ensures MacroSum(z, m, w, k, r) == Sum(r, m, z, w, k)
  {
    hide *;
    SumIs(z, m, w, k, r);
    MacroSumIs(z, m, w, k, r);
    SumOrder(z, m, w, k, r);
  }

  /** R0 to R4: only z and w change. */
  method Round(v: bv32, w: bv32, x: bv32, y: bv32, z: bv32, t: nat, word: bv32) returns (w': bv32, z': bv32)
    ensures Words(z', v, w', x, y) == Step(Words(v, w, x, y, z), t, word)
  {
    hide Mix, MacroMix, Rol5, Rol30, Sum, MacroSum;
    var k := if t < 20 then 0x5a827999 else if t < 40 then 0x6ed9eba1 else if t < 60 then 0x8f1bbcdc else 0xca62c1d6;
    MacroMixIsMix(t, w, x, y);
    MacroSumIsSum(z, MacroMix(t, w, x, y), word, k, Rol5(v));
    z' := MacroSum(z, MacroMix(t, w, x, y), word, k, Rol5(v));
    w' := Rol30(w);
  }

  /** Five rounds, each with the registers rotated by one. */
  method FiveRounds(workspace: array<bv32>, state: Words, t: nat, ghost h: Words, ghost block: seq<bv8>)
    returns (state': Words)
    requires |block| == 64 && workspace.Length == 16 && ScheduleHeld(workspace[..], block, t)
    requires state == Rounds(h, block, t)
    modifies workspace
    ensures ScheduleHeld(workspace[..], block, t + 5) && state' == Rounds(h, block, t + 5)
  {
    hide Step, Schedule, Rounds, ScheduleHeld;
    RoundsNext(h, block, t);
    RoundsNext(h, block, t + 1);
    RoundsNext(h, block, t + 2);
    RoundsNext(h, block, t + 3);
    RoundsNext(h, block, t + 4);
    var a, b, c, d, e := state.a, state.b, state.c, state.d, state.e;
    var word := NextWord(workspace, t, block);
    b, e := Round(a, b, c, d, e, t, word);
    word := NextWord(workspace, t + 1, block);
    a, d := Round(e, a, b, c, d, t + 1, word);
    word := NextWord(workspace, t + 2, block);
    e, c := Round(d, e, a, b, c, t + 2, word);
    word := NextWord(workspace, t + 3, block);
    d, b := Round(c, d, e, a, b, t + 3, word);
    word := NextWord(workspace, t + 4, block);
    c, a := Round(b, c, d, e, a, t + 4, word);
    state' := Words(a, b, c, d, e);
  }

  /** SHA1_Transform. */
  method Transform(state: Words, buffer: seq<bv8>) returns (state': Words)
    requires |buffer| == 64
    ensures state' == Compress(state, buffer)
  {
    hide Schedule, LittleEndian, Rounds, AddWords;
    var workspace := new bv32[16](i requires 0 <= i < 16 => LittleEndian(buffer, 4 * i));
    assert ScheduleHeld(workspace[..], buffer, 0);
    hide ScheduleHeld;
    RoundsStart(state, buffer);
    var r, t := state, 0;
    while t < 80
      invariant 0 <= t <= 80 && t % 5 == 0
      invariant ScheduleHeld(workspace[..], buffer, t) && r == Rounds(state, buffer, t)
    {
      r := FiveRounds(workspace, r, t, state, buffer);
      t := t + 5;
    }
    state' := AddWords(state, r);
  }

  lemma RoundsStart(h: Words, block: seq<bv8>)
    requires |block| == 64
    ensures Rounds(h, block, 0) == h
  {}

  lemma RoundsNext(h: Words, block: seq<bv8>, t: nat)
    requires |block| == 64
    ensures Rounds(h, block, t + 1) == Step(Rounds(h, block, t), t, Schedule(block, t))
  {}
}

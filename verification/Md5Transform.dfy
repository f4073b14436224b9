/** The MD5 compression function: 64 operations with rotated register names against RFC 1321 section 3.4. */
module Md5Transform {
  import opened Digest

  datatype Abcd = Abcd(a: bv32, b: bv32, c: bv32, d: bv32)

  // ---- RFC 1321 section 3.4 ----

  /** The functions F, G, H and I of the four rounds. */
  function Mix(t: nat, x: bv32, y: bv32, z: bv32): bv32 {
    if t < 16 then F(x, y, z) else if t < 32 then G(x, y, z) else if t < 48 then H(x, y, z) else I(x, y, z)
  }

  function F(x: bv32, y: bv32, z: bv32): bv32 { (x & y) | (!x & z) }

  function G(x: bv32, y: bv32, z: bv32): bv32 { (x & z) | (y & !z) }

  function H(x: bv32, y: bv32, z: bv32): bv32 { x ^ y ^ z }

  function I(x: bv32, y: bv32, z: bv32): bv32 { y ^ (x | !z) }

  /** Which word of the block an operation takes. */
  function WordIndex(t: nat): (k: nat)
    ensures k < 16
  {
    if t < 16 then t else if t < 32 then (5 * t + 1) % 16 else if t < 48 then (3 * t + 5) % 16 else 7 * t % 16
  }

  /** A round begins with word 0, 1, 5 or 0, and goes on in steps of 1, 5, 3 or 7. */
  lemma WordOrder(t: nat)
    requires t < 64
    ensures WordIndex(0) == 0 && WordIndex(16) == 1 && WordIndex(32) == 5 && WordIndex(48) == 0
    ensures var step := if t < 16 then 1 else if t < 32 then 5 else if t < 48 then 3 else 7;
            t !in {15, 31, 47, 63} ==> WordIndex(t + 1) == (WordIndex(t) + step) % 16
  {
    if 16 <= t < 31 {
      Wraps(5 * t + 1, 5);
    } else if 32 <= t < 47 {
      Wraps(3 * t + 5, 3);
    } else if 48 <= t < 63 {
      Wraps(7 * t, 7);
    }
  }

  lemma Wraps(v: nat, d: nat)
    ensures (v + d) % 16 == (v % 16 + d) % 16
  {}

  /** How far an operation rotates. */
  function Shift(t: nat): nat {
    if t < 16 then Choose(t, 7, 12, 17, 22) else if t < 32 then Choose(t, 5, 9, 14, 20)
    else if t < 48 then Choose(t, 4, 11, 16, 23) else Choose(t, 6, 10, 15, 21)
  }

  function Choose<X>(t: nat, x0: X, x1: X, x2: X, x3: X): X {
    if t % 4 == 0 then x0 else if t % 4 == 1 then x1 else if t % 4 == 2 then x2 else x3
  }

  /** The table T: the integer parts of 2^32 times the sines of 1 to 64, without their signs. */
  function T(t: nat): bv32
    requires t < 64
  {
    if t < 16 then T1(t) else if t < 32 then T2(t) else if t < 48 then T3(t) else T4(t)
  }

  function T1(t: nat): bv32 {
    if t < 4 then Choose(t, 0xd76aa478, 0xe8c7b756, 0x242070db, 0xc1bdceee)
    else if t < 8 then Choose(t, 0xf57c0faf, 0x4787c62a, 0xa8304613, 0xfd469501)
    else if t < 12 then Choose(t, 0x698098d8, 0x8b44f7af, 0xffff5bb1, 0x895cd7be)
    else Choose(t, 0x6b901122, 0xfd987193, 0xa679438e, 0x49b40821)
  }

  function T2(t: nat): bv32 {
    if t < 20 then Choose(t, 0xf61e2562, 0xc040b340, 0x265e5a51, 0xe9b6c7aa)
    else if t < 24 then Choose(t, 0xd62f105d, 0x02441453, 0xd8a1e681, 0xe7d3fbc8)
    else if t < 28 then Choose(t, 0x21e1cde6, 0xc33707d6, 0xf4d50d87, 0x455a14ed)
    else Choose(t, 0xa9e3e905, 0xfcefa3f8, 0x676f02d9, 0x8d2a4c8a)
  }

  function T3(t: nat): bv32 {
    if t < 36 then Choose(t, 0xfffa3942, 0x8771f681, 0x6d9d6122, 0xfde5380c)
    else if t < 40 then Choose(t, 0xa4beea44, 0x4bdecfa9, 0xf6bb4b60, 0xbebfbc70)
    else if t < 44 then Choose(t, 0x289b7ec6, 0xeaa127fa, 0xd4ef3085, 0x04881d05)
    else Choose(t, 0xd9d4d039, 0xe6db99e5, 0x1fa27cf8, 0xc4ac5665)
  }

  function T4(t: nat): bv32 {
    if t < 52 then Choose(t, 0xf4292244, 0x432aff97, 0xab9423a7, 0xfc93a039)
    else if t < 56 then Choose(t, 0x655b59c3, 0x8f0ccc92, 0xffeff47d, 0x85845dd1)
    else if t < 60 then Choose(t, 0x6fa87e4f, 0xfe2ce6e0, 0xa3014314, 0x4e0811a1)
    else Choose(t, 0xf7537e82, 0xbd3af235, 0x2ad7d2bb, 0xeb86d391)
  }

  /** ROTATE_LEFT, by the distances there are. */
  function Rotated(x: bv32, s: nat): bv32 {
    match s
    case 4 => (x << 4) | (x >> 28) case 5 => (x << 5) | (x >> 27)
    case 6 => (x << 6) | (x >> 26) case 7 => (x << 7) | (x >> 25)
    case 9 => (x << 9) | (x >> 23) case 10 => (x << 10) | (x >> 22)
    case 11 => (x << 11) | (x >> 21) case 12 => (x << 12) | (x >> 20)
    case 14 => (x << 14) | (x >> 18) case 15 => (x << 15) | (x >> 17)
    case 16 => (x << 16) | (x >> 16) case 17 => (x << 17) | (x >> 15)
    case 20 => (x << 20) | (x >> 12) case 21 => (x << 21) | (x >> 11)
    case 22 => (x << 22) | (x >> 10) case _ => (x << 23) | (x >> 9)
  }

  /** One operation: a becomes b + ((a + mix(b, c, d) + X[k] + T[t]) <<< s), and the names move on by one. */
  function Step(r: Abcd, t: nat, x: seq<bv32>): Abcd
    requires t < 64 && |x| == 16
  {
    Abcd(r.d, Sum(r.a, Mix(t, r.b, r.c, r.d), x[WordIndex(t)], T(t), Shift(t), r.b), r.b, r.c)
  }

  function Sum(a: bv32, mixed: bv32, word: bv32, ti: bv32, s: nat, b: bv32): bv32 {
    Rotated(a + mixed + word + ti, s) + b
  }

  /** The registers after t operations. */
  function Rounds(h: Abcd, x: seq<bv32>, t: nat): Abcd
    requires t <= 64 && |x| == 16
  {
    if t == 0 then h else Step(Rounds(h, x, t - 1), t - 1, x)
  }

  /** Four octets, the least significant one first. */
  function LittleEndian(b0: bv8, b1: bv8, b2: bv8, b3: bv8): bv32 {
    (b0 as bv32) | ((b1 as bv32) << 8) | ((b2 as bv32) << 16) | ((b3 as bv32) << 24)
  }

  function WordAt(d: Octets, i: nat): bv32
    requires i + 4 <= |d|
  {
    LittleEndian(d[i], d[i + 1], d[i + 2], d[i + 3])
  }

  function WordsOf(block: Octets): (r: seq<bv32>)
    requires |block| == 64
    ensures |r| == 16
  {
    seq(16, i requires 0 <= i < 16 => WordAt(block, 4 * i))
  }

  function Compress(h: Abcd, block: Octets): Abcd
    requires |block| == 64
  {
    Added(h, Rounds(h, WordsOf(block), 64))
  }

  function Added(h: Abcd, r: Abcd): Abcd {
    Abcd(h.a + r.a, h.b + r.b, h.c + r.c, h.d + r.d)
  }

  // ---- md5_process ----

  const T_MASK: bv32 := 0xffffffff

  /** The macro SET of round 1: only its first register changes. */
  method SetF(a: bv32, b: bv32, c: bv32, d: bv32, k: nat, s: nat, ti: bv32, x: seq<bv32>, ghost t: nat, ghost h: Abcd)
    returns (a': bv32)
    requires |x| == 16 && 0 <= t < 16 && k == WordIndex(t) && s == Shift(t) && ti == T(t)
    requires Abcd(a, b, c, d) == Rounds(h, x, t)
    ensures Abcd(d, a', b, c) == Rounds(h, x, t + 1)
  {
    hide F, Sum, WordIndex, Shift, T, Rounds;
    RoundsNext(h, x, t);
    a' := Sum(a, F(b, c, d), x[k], ti, s, b);
  }

  /** The macro SET of round 2: only its first register changes. */
  method SetG(a: bv32, b: bv32, c: bv32, d: bv32, k: nat, s: nat, ti: bv32, x: seq<bv32>, ghost t: nat, ghost h: Abcd)
    returns (a': bv32)
    requires |x| == 16 && 16 <= t < 32 && k == WordIndex(t) && s == Shift(t) && ti == T(t)
    requires Abcd(a, b, c, d) == Rounds(h, x, t)
    ensures Abcd(d, a', b, c) == Rounds(h, x, t + 1)
  {
    hide G, Sum, WordIndex, Shift, T, Rounds;
    RoundsNext(h, x, t);
    a' := Sum(a, G(b, c, d), x[k], ti, s, b);
  }

  /** The macro SET of round 3: only its first register changes. */
  method SetH(a: bv32, b: bv32, c: bv32, d: bv32, k: nat, s: nat, ti: bv32, x: seq<bv32>, ghost t: nat, ghost h: Abcd)
    returns (a': bv32)
    requires |x| == 16 && 32 <= t < 48 && k == WordIndex(t) && s == Shift(t) && ti == T(t)
    requires Abcd(a, b, c, d) == Rounds(h, x, t)
    ensures Abcd(d, a', b, c) == Rounds(h, x, t + 1)
  {
    hide H, Sum, WordIndex, Shift, T, Rounds;
    RoundsNext(h, x, t);
    a' := Sum(a, H(b, c, d), x[k], ti, s, b);
  }

  /** The macro SET of round 4: only its first register changes. */
  method SetI(a: bv32, b: bv32, c: bv32, d: bv32, k: nat, s: nat, ti: bv32, x: seq<bv32>, ghost t: nat, ghost h: Abcd)
    returns (a': bv32)
    requires |x| == 16 && 48 <= t < 64 && k == WordIndex(t) && s == Shift(t) && ti == T(t)
    requires Abcd(a, b, c, d) == Rounds(h, x, t)
    ensures Abcd(d, a', b, c) == Rounds(h, x, t + 1)
  {
    hide I, Sum, WordIndex, Shift, T, Rounds;
    RoundsNext(h, x, t);
    a' := Sum(a, I(b, c, d), x[k], ti, s, b);
  }

  lemma RoundsNext(h: Abcd, x: seq<bv32>, t: nat)
    requires t < 64 && |x| == 16
    ensures Rounds(h, x, t + 1) == Step(Rounds(h, x, t), t, x)
  {}

  /** Round 1, its first eight operations. */
  method RoundOneStart(r: Abcd, x: seq<bv32>, ghost h: Abcd) returns (r': Abcd)
    requires |x| == 16 && r == Rounds(h, x, 0)
    ensures r' == Rounds(h, x, 8)
  {
    hide Rounds, Step, Sum, Mix, Rotated, T2, T3, T4;
    var a, b, c, d := r.a, r.b, r.c, r.d;
    a := SetF(a, b, c, d, 0, 7, T_MASK ^ 0x28955b87, x, 0, h);
    d := SetF(d, a, b, c, 1, 12, T_MASK ^ 0x173848a9, x, 1, h);
    c := SetF(c, d, a, b, 2, 17, 0x242070db, x, 2, h);
    b := SetF(b, c, d, a, 3, 22, T_MASK ^ 0x3e423111, x, 3, h);
    a := SetF(a, b, c, d, 4, 7, T_MASK ^ 0x0a83f050, x, 4, h);
    d := SetF(d, a, b, c, 5, 12, 0x4787c62a, x, 5, h);
    c := SetF(c, d, a, b, 6, 17, T_MASK ^ 0x57cfb9ec, x, 6, h);
    b := SetF(b, c, d, a, 7, 22, T_MASK ^ 0x02b96afe, x, 7, h);
    r' := Abcd(a, b, c, d);
  }

  /** Round 1, its last eight operations. */
  method RoundOneEnd(r: Abcd, x: seq<bv32>, ghost h: Abcd) returns (r': Abcd)
    requires |x| == 16 && r == Rounds(h, x, 8)
    ensures r' == Rounds(h, x, 16)
  {
    hide Rounds, Step, Sum, Mix, Rotated, T2, T3, T4;
    var a, b, c, d := r.a, r.b, r.c, r.d;
    a := SetF(a, b, c, d, 8, 7, 0x698098d8, x, 8, h);
    d := SetF(d, a, b, c, 9, 12, T_MASK ^ 0x74bb0850, x, 9, h);
    c := SetF(c, d, a, b, 10, 17, T_MASK ^ 0x0000a44e, x, 10, h);
    b := SetF(b, c, d, a, 11, 22, T_MASK ^ 0x76a32841, x, 11, h);
    a := SetF(a, b, c, d, 12, 7, 0x6b901122, x, 12, h);
    d := SetF(d, a, b, c, 13, 12, T_MASK ^ 0x02678e6c, x, 13, h);
    c := SetF(c, d, a, b, 14, 17, T_MASK ^ 0x5986bc71, x, 14, h);
    b := SetF(b, c, d, a, 15, 22, 0x49b40821, x, 15, h);
    r' := Abcd(a, b, c, d);
  }

  /** Round 2, its first eight operations. */
  method RoundTwoStart(r: Abcd, x: seq<bv32>, ghost h: Abcd) returns (r': Abcd)
    requires |x| == 16 && r == Rounds(h, x, 16)
    ensures r' == Rounds(h, x, 24)
  {
    hide Rounds, Step, Sum, Mix, Rotated, T1, T3, T4;
    var a, b, c, d := r.a, r.b, r.c, r.d;
    a := SetG(a, b, c, d, 1, 5, T_MASK ^ 0x09e1da9d, x, 16, h);
    d := SetG(d, a, b, c, 6, 9, T_MASK ^ 0x3fbf4cbf, x, 17, h);
    c := SetG(c, d, a, b, 11, 14, 0x265e5a51, x, 18, h);
    b := SetG(b, c, d, a, 0, 20, T_MASK ^ 0x16493855, x, 19, h);
    a := SetG(a, b, c, d, 5, 5, T_MASK ^ 0x29d0efa2, x, 20, h);
    d := SetG(d, a, b, c, 10, 9, 0x02441453, x, 21, h);
    c := SetG(c, d, a, b, 15, 14, T_MASK ^ 0x275e197e, x, 22, h);
    b := SetG(b, c, d, a, 4, 20, T_MASK ^ 0x182c0437, x, 23, h);
    r' := Abcd(a, b, c, d);
  }

  /** Round 2, its last eight operations. */
  method RoundTwoEnd(r: Abcd, x: seq<bv32>, ghost h: Abcd) returns (r': Abcd)
    requires |x| == 16 && r == Rounds(h, x, 24)
    ensures r' == Rounds(h, x, 32)
  {
    hide Rounds, Step, Sum, Mix, Rotated, T1, T3, T4;
    var a, b, c, d := r.a, r.b, r.c, r.d;
    a := SetG(a, b, c, d, 9, 5, 0x21e1cde6, x, 24, h);
    d := SetG(d, a, b, c, 14, 9, T_MASK ^ 0x3cc8f829, x, 25, h);
    c := SetG(c, d, a, b, 3, 14, T_MASK ^ 0x0b2af278, x, 26, h);
    b := SetG(b, c, d, a, 8, 20, 0x455a14ed, x, 27, h);
    a := SetG(a, b, c, d, 13, 5, T_MASK ^ 0x561c16fa, x, 28, h);
    d := SetG(d, a, b, c, 2, 9, T_MASK ^ 0x03105c07, x, 29, h);
    c := SetG(c, d, a, b, 7, 14, 0x676f02d9, x, 30, h);
    b := SetG(b, c, d, a, 12, 20, T_MASK ^ 0x72d5b375, x, 31, h);
    r' := Abcd(a, b, c, d);
  }

  /** Round 3, its first eight operations. */
  method RoundThreeStart(r: Abcd, x: seq<bv32>, ghost h: Abcd) returns (r': Abcd)
    requires |x| == 16 && r == Rounds(h, x, 32)
    ensures r' == Rounds(h, x, 40)
  {
    hide Rounds, Step, Sum, Mix, Rotated, T1, T2, T4;
    var a, b, c, d := r.a, r.b, r.c, r.d;
    a := SetH(a, b, c, d, 5, 4, T_MASK ^ 0x0005c6bd, x, 32, h);
    d := SetH(d, a, b, c, 8, 11, T_MASK ^ 0x788e097e, x, 33, h);
    c := SetH(c, d, a, b, 11, 16, 0x6d9d6122, x, 34, h);
    b := SetH(b, c, d, a, 14, 23, T_MASK ^ 0x021ac7f3, x, 35, h);
    a := SetH(a, b, c, d, 1, 4, T_MASK ^ 0x5b4115bb, x, 36, h);
    d := SetH(d, a, b, c, 4, 11, 0x4bdecfa9, x, 37, h);
    c := SetH(c, d, a, b, 7, 16, T_MASK ^ 0x0944b49f, x, 38, h);
    b := SetH(b, c, d, a, 10, 23, T_MASK ^ 0x4140438f, x, 39, h);
    r' := Abcd(a, b, c, d);
  }

  /** Round 3, its last eight operations. */
  method RoundThreeEnd(r: Abcd, x: seq<bv32>, ghost h: Abcd) returns (r': Abcd)
    requires |x| == 16 && r == Rounds(h, x, 40)
    ensures r' == Rounds(h, x, 48)
  {
    hide Rounds, Step, Sum, Mix, Rotated, T1, T2, T4;
    var a, b, c, d := r.a, r.b, r.c, r.d;
    a := SetH(a, b, c, d, 13, 4, 0x289b7ec6, x, 40, h);
    d := SetH(d, a, b, c, 0, 11, T_MASK ^ 0x155ed805, x, 41, h);
    c := SetH(c, d, a, b, 3, 16, T_MASK ^ 0x2b10cf7a, x, 42, h);
    b := SetH(b, c, d, a, 6, 23, 0x04881d05, x, 43, h);
    a := SetH(a, b, c, d, 9, 4, T_MASK ^ 0x262b2fc6, x, 44, h);
    d := SetH(d, a, b, c, 12, 11, T_MASK ^ 0x1924661a, x, 45, h);
    c := SetH(c, d, a, b, 15, 16, 0x1fa27cf8, x, 46, h);
    b := SetH(b, c, d, a, 2, 23, T_MASK ^ 0x3b53a99a, x, 47, h);
    r' := Abcd(a, b, c, d);
  }

  /** Round 4, its first eight operations. */
  method RoundFourStart(r: Abcd, x: seq<bv32>, ghost h: Abcd) returns (r': Abcd)
    requires |x| == 16 && r == Rounds(h, x, 48)
    ensures r' == Rounds(h, x, 56)
  {
    hide Rounds, Step, Sum, Mix, Rotated, T1, T2, T3;
    var a, b, c, d := r.a, r.b, r.c, r.d;
    a := SetI(a, b, c, d, 0, 6, T_MASK ^ 0x0bd6ddbb, x, 48, h);
    d := SetI(d, a, b, c, 7, 10, 0x432aff97, x, 49, h);
    c := SetI(c, d, a, b, 14, 15, T_MASK ^ 0x546bdc58, x, 50, h);
    b := SetI(b, c, d, a, 5, 21, T_MASK ^ 0x036c5fc6, x, 51, h);
    a := SetI(a, b, c, d, 12, 6, 0x655b59c3, x, 52, h);
    d := SetI(d, a, b, c, 3, 10, T_MASK ^ 0x70f3336d, x, 53, h);
    c := SetI(c, d, a, b, 10, 15, T_MASK ^ 0x00100b82, x, 54, h);
    b := SetI(b, c, d, a, 1, 21, T_MASK ^ 0x7a7ba22e, x, 55, h);
    r' := Abcd(a, b, c, d);
  }

  /** Round 4, its last eight operations. */
  method RoundFourEnd(r: Abcd, x: seq<bv32>, ghost h: Abcd) returns (r': Abcd)
    requires |x| == 16 && r == Rounds(h, x, 56)
    ensures r' == Rounds(h, x, 64)
  {
    hide Rounds, Step, Sum, Mix, Rotated, T1, T2, T3;
    var a, b, c, d := r.a, r.b, r.c, r.d;
    a := SetI(a, b, c, d, 8, 6, 0x6fa87e4f, x, 56, h);
    d := SetI(d, a, b, c, 15, 10, T_MASK ^ 0x01d3191f, x, 57, h);
    c := SetI(c, d, a, b, 6, 15, T_MASK ^ 0x5cfebceb, x, 58, h);
    b := SetI(b, c, d, a, 13, 21, 0x4e0811a1, x, 59, h);
    a := SetI(a, b, c, d, 4, 6, T_MASK ^ 0x08ac817d, x, 60, h);
    d := SetI(d, a, b, c, 11, 10, T_MASK ^ 0x42c50dca, x, 61, h);
    c := SetI(c, d, a, b, 2, 15, 0x2ad7d2bb, x, 62, h);
    b := SetI(b, c, d, a, 9, 21, T_MASK ^ 0x14792c6e, x, 63, h);
    r' := Abcd(a, b, c, d);
  }

  lemma RoundsStart(h: Abcd, x: seq<bv32>)
    requires |x| == 16
    ensures Rounds(h, x, 0) == h
  {}

  /** md5_process, on a machine that reads words in little-endian order. */
  method Process(state: Abcd, block: Octets) returns (state': Abcd)
    requires |block| == 64
    ensures state' == Compress(state, block)
  {
    hide Rounds, Added;
    var x := WordsOf(block);
    RoundsStart(state, x);
    var r := RoundOneStart(state, x, state);
    r := RoundOneEnd(r, x, state);
    r := RoundTwoStart(r, x, state);
    r := RoundTwoEnd(r, x, state);
    r := RoundThreeStart(r, x, state);
    r := RoundThreeEnd(r, x, state);
    r := RoundFourStart(r, x, state);
    r := RoundFourEnd(r, x, state);
    state' := Added(state, r);
  }
}

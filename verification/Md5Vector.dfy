/** The MD5 digest of "abc", worked out through all 64 operations: one of the examples of RFC 1321 appendix A.5. */
module Md5Vector {
  import opened BitCounter
  import opened CTypes
  import opened Digest
  import opened Md5Transform
  import opened Md5

  const ABC: Octets := [0x61, 0x62, 0x63]

  // ---- The message ----

  /** The words of its one block: the message and a one bit, zeros, and the number of its bits. */
  predicate IsBlock(x: seq<bv32>) {
    |x| == 16 && x[0] == 0x80636261 && x[14] == 24 && forall i :: 0 <= i < 16 && i != 0 && i != 14 ==> x[i] == 0
  }

  lemma BitsOfAbc()
    ensures LengthOctets(24, 0) == [24, 0, 0, 0, 0, 0, 0, 0]
  {}

  lemma Block(b: Octets)
    requires b == Padded(ABC, LengthOctets(24, 0))
    ensures |b| == 64 && b[0] == 0x61 && b[1] == 0x62 && b[2] == 0x63 && b[3] == 0x80 && b[56] == 24
    ensures forall i :: 4 <= i < 64 && i != 56 ==> b[i] == 0
  {
    hide LengthOctets;
    BitsOfAbc();
    assert b == ABC + [0x80] + Zeros(52) + [24, 0, 0, 0, 0, 0, 0, 0];
  }

  lemma ThreeWords()
    ensures LittleEndian(0, 0, 0, 0) == 0
    ensures LittleEndian(0x61, 0x62, 0x63, 0x80) == 0x80636261 && LittleEndian(24, 0, 0, 0) == 24
  {}

  lemma BlockWords(b: Octets)
    requires b == Padded(ABC, LengthOctets(24, 0))
    ensures |b| == 64 && IsBlock(WordsOf(b))
  {
    Block(b);
    ThreeWords();
    hide LittleEndian, Padded, LengthOctets;
  }

  // ---- The digest ----

  lemma Sums4()
    ensures Sum(0x67452301, Mix(0, 0xefcdab89, 0x98badcfe, 0x10325476), 0x80636261, 0xd76aa478, 7, 0xefcdab89) ==
            0xd6d117b4
    ensures Sum(0x10325476, Mix(1, 0xd6d117b4, 0xefcdab89, 0x98badcfe), 0, 0xe8c7b756, 12, 0xd6d117b4) ==
            0x344a8432
    ensures Sum(0x98badcfe, Mix(2, 0x344a8432, 0xd6d117b4, 0xefcdab89), 0, 0x242070db, 17, 0x344a8432) ==
            0x2f6fbd72
    ensures Sum(0xefcdab89, Mix(3, 0x2f6fbd72, 0x344a8432, 0xd6d117b4), 0, 0xc1bdceee, 22, 0x2f6fbd72) ==
            0x7ad956f2
  {}

  lemma After4(x: seq<bv32>)
    requires IsBlock(x) && Rounds(IV, x, 0) == Abcd(0x67452301, 0xefcdab89, 0x98badcfe, 0x10325476)
    ensures Rounds(IV, x, 4) == Abcd(0xd6d117b4, 0x7ad956f2, 0x2f6fbd72, 0x344a8432)
  {
    hide Sum, Mix, Rounds;
    Sums4();
    RoundsNext(IV, x, 0);
    RoundsNext(IV, x, 1);
    RoundsNext(IV, x, 2);
    RoundsNext(IV, x, 3);
  }

  lemma Sums8()
    ensures Sum(0xd6d117b4, Mix(4, 0x7ad956f2, 0x2f6fbd72, 0x344a8432), 0, 0xf57c0faf, 7, 0x7ad956f2) ==
            0xc73741ef
    ensures Sum(0x344a8432, Mix(5, 0xc73741ef, 0x7ad956f2, 0x2f6fbd72), 0, 0x4787c62a, 12, 0xc73741ef) ==
            0x8bac3051
    ensures Sum(0x2f6fbd72, Mix(6, 0x8bac3051, 0xc73741ef, 0x7ad956f2), 0, 0xa8304613, 17, 0x8bac3051) ==
            0x207dc67b
    ensures Sum(0x7ad956f2, Mix(7, 0x207dc67b, 0x8bac3051, 0xc73741ef), 0, 0xfd469501, 22, 0x207dc67b) ==
            0x928d99f6
  {}

  lemma After8(x: seq<bv32>)
    requires IsBlock(x) && Rounds(IV, x, 4) == Abcd(0xd6d117b4, 0x7ad956f2, 0x2f6fbd72, 0x344a8432)
    ensures Rounds(IV, x, 8) == Abcd(0xc73741ef, 0x928d99f6, 0x207dc67b, 0x8bac3051)
  {
    hide Sum, Mix, Rounds;
    Sums8();
    RoundsNext(IV, x, 4);
    RoundsNext(IV, x, 5);
    RoundsNext(IV, x, 6);
    RoundsNext(IV, x, 7);
  }

  lemma Sums12()
    ensures Sum(0xc73741ef, Mix(8, 0x928d99f6, 0x207dc67b, 0x8bac3051), 0, 0x698098d8, 7, 0x928d99f6) ==
            0x854b3712
    ensures Sum(0x8bac3051, Mix(9, 0x854b3712, 0x928d99f6, 0x207dc67b), 0, 0x8b44f7af, 12, 0x854b3712) ==
            0x74e2f284
    ensures Sum(0x207dc67b, Mix(10, 0x74e2f284, 0x854b3712, 0x928d99f6), 0, 0xffff5bb1, 17, 0x74e2f284) ==
            0x3020401c
    ensures Sum(0x928d99f6, Mix(11, 0x3020401c, 0x74e2f284, 0x854b3712), 0, 0x895cd7be, 22, 0x3020401c) ==
            0x5ed49596
  {}

  lemma After12(x: seq<bv32>)
    requires IsBlock(x) && Rounds(IV, x, 8) == Abcd(0xc73741ef, 0x928d99f6, 0x207dc67b, 0x8bac3051)
    ensures Rounds(IV, x, 12) == Abcd(0x854b3712, 0x5ed49596, 0x3020401c, 0x74e2f284)
  {
    hide Sum, Mix, Rounds;
    Sums12();
    RoundsNext(IV, x, 8);
    RoundsNext(IV, x, 9);
    RoundsNext(IV, x, 10);
    RoundsNext(IV, x, 11);
  }

  lemma Sums16()
    ensures Sum(0x854b3712, Mix(12, 0x5ed49596, 0x3020401c, 0x74e2f284), 0, 0x6b901122, 7, 0x5ed49596) ==
            0xdda9b9a6
    ensures Sum(0x74e2f284, Mix(13, 0xdda9b9a6, 0x5ed49596, 0x3020401c), 0, 0xfd987193, 12, 0xdda9b9a6) ==
            0xa1051895
    ensures Sum(0x3020401c, Mix(14, 0xa1051895, 0xdda9b9a6, 0x5ed49596), 24, 0xa679438e, 17, 0xa1051895) ==
            0xe396856b
    ensures Sum(0x5ed49596, Mix(15, 0xe396856b, 0xa1051895, 0xdda9b9a6), 0, 0x49b40821, 22, 0xe396856b) ==
            0x72aff2e0
  {}

  lemma After16(x: seq<bv32>)
    requires IsBlock(x) && Rounds(IV, x, 12) == Abcd(0x854b3712, 0x5ed49596, 0x3020401c, 0x74e2f284)
    ensures Rounds(IV, x, 16) == Abcd(0xdda9b9a6, 0x72aff2e0, 0xe396856b, 0xa1051895)
  {
    hide Sum, Mix, Rounds;
    Sums16();
    RoundsNext(IV, x, 12);
    RoundsNext(IV, x, 13);
    RoundsNext(IV, x, 14);
    RoundsNext(IV, x, 15);
  }

  lemma Sums20()
    ensures Sum(0xdda9b9a6, Mix(16, 0x72aff2e0, 0xe396856b, 0xa1051895), 0, 0xf61e2562, 5, 0x72aff2e0) ==
            0x3e9e9126
    ensures Sum(0xa1051895, Mix(17, 0x3e9e9126, 0x72aff2e0, 0xe396856b), 0, 0xc040b340, 9, 0x3e9e9126) ==
            0x4a1d804e
    ensures Sum(0xe396856b, Mix(18, 0x4a1d804e, 0x3e9e9126, 0x72aff2e0), 0, 0x265e5a51, 14, 0x4a1d804e) ==
            0xe25e1652
    ensures Sum(0x72aff2e0, Mix(19, 0xe25e1652, 0x4a1d804e, 0x3e9e9126), 0x80636261, 0xe9b6c7aa, 20, 0xe25e1652) ==
            0xb5b204e4
  {}

  lemma After20(x: seq<bv32>)
    requires IsBlock(x) && Rounds(IV, x, 16) == Abcd(0xdda9b9a6, 0x72aff2e0, 0xe396856b, 0xa1051895)
    ensures Rounds(IV, x, 20) == Abcd(0x3e9e9126, 0xb5b204e4, 0xe25e1652, 0x4a1d804e)
  {
    hide Sum, Mix, Rounds;
    Sums20();
    RoundsNext(IV, x, 16);
    RoundsNext(IV, x, 17);
    RoundsNext(IV, x, 18);
    RoundsNext(IV, x, 19);
  }

  lemma Sums24()
    ensures Sum(0x3e9e9126, Mix(20, 0xb5b204e4, 0xe25e1652, 0x4a1d804e), 0, 0xd62f105d, 5, 0xb5b204e4) ==
            0x59a8ffda
    ensures Sum(0x4a1d804e, Mix(21, 0x59a8ffda, 0xb5b204e4, 0xe25e1652), 0, 0x02441453, 9, 0x59a8ffda) ==
            0x6d002f1e
    ensures Sum(0xe25e1652, Mix(22, 0x6d002f1e, 0x59a8ffda, 0xb5b204e4), 0, 0xd8a1e681, 14, 0x6d002f1e) ==
            0xabfc7920
    ensures Sum(0xb5b204e4, Mix(23, 0xabfc7920, 0x6d002f1e, 0x59a8ffda), 0, 0xe7d3fbc8, 20, 0xabfc7920) ==
            0x47092c07
  {}

  lemma After24(x: seq<bv32>)
    requires IsBlock(x) && Rounds(IV, x, 20) == Abcd(0x3e9e9126, 0xb5b204e4, 0xe25e1652, 0x4a1d804e)
    ensures Rounds(IV, x, 24) == Abcd(0x59a8ffda, 0x47092c07, 0xabfc7920, 0x6d002f1e)
  {
    hide Sum, Mix, Rounds;
    Sums24();
    RoundsNext(IV, x, 20);
    RoundsNext(IV, x, 21);
    RoundsNext(IV, x, 22);
    RoundsNext(IV, x, 23);
  }

  lemma Sums28()
    ensures Sum(0x59a8ffda, Mix(24, 0x47092c07, 0xabfc7920, 0x6d002f1e), 0, 0x21e1cde6, 5, 0x47092c07) ==
            0xb7f268cf
    ensures Sum(0x6d002f1e, Mix(25, 0xb7f268cf, 0x47092c07, 0xabfc7920), 24, 0xc33707d6, 9, 0xb7f268cf) ==
            0x09388eff
    ensures Sum(0xabfc7920, Mix(26, 0x09388eff, 0xb7f268cf, 0x47092c07), 0, 0xf4d50d87, 14, 0x09388eff) ==
            0xfe1623b1
    ensures Sum(0x47092c07, Mix(27, 0xfe1623b1, 0x09388eff, 0xb7f268cf), 0, 0x455a14ed, 20, 0xfe1623b1) ==
            0x786acb8f
  {}

  lemma After28(x: seq<bv32>)
    requires IsBlock(x) && Rounds(IV, x, 24) == Abcd(0x59a8ffda, 0x47092c07, 0xabfc7920, 0x6d002f1e)
    ensures Rounds(IV, x, 28) == Abcd(0xb7f268cf, 0x786acb8f, 0xfe1623b1, 0x09388eff)
  {
    hide Sum, Mix, Rounds;
    Sums28();
    RoundsNext(IV, x, 24);
    RoundsNext(IV, x, 25);
    RoundsNext(IV, x, 26);
    RoundsNext(IV, x, 27);
  }

  lemma Sums32()
    ensures Sum(0xb7f268cf, Mix(28, 0x786acb8f, 0xfe1623b1, 0x09388eff), 0, 0xa9e3e905, 5, 0x786acb8f) ==
            0x790a77fb
    ensures Sum(0x09388eff, Mix(29, 0x790a77fb, 0x786acb8f, 0xfe1623b1), 0, 0xfcefa3f8, 9, 0x790a77fb) ==
            0x9f47e4f8
    ensures Sum(0xfe1623b1, Mix(30, 0x9f47e4f8, 0x790a77fb, 0x786acb8f), 0, 0x676f02d9, 14, 0x9f47e4f8) ==
            0xa62884aa
    ensures Sum(0x786acb8f, Mix(31, 0xa62884aa, 0x9f47e4f8, 0x790a77fb), 0, 0x8d2a4c8a, 20, 0xa62884aa) ==
            0x726342d3
  {}

  lemma After32(x: seq<bv32>)
    requires IsBlock(x) && Rounds(IV, x, 28) == Abcd(0xb7f268cf, 0x786acb8f, 0xfe1623b1, 0x09388eff)
    ensures Rounds(IV, x, 32) == Abcd(0x790a77fb, 0x726342d3, 0xa62884aa, 0x9f47e4f8)
  {
    hide Sum, Mix, Rounds;
    Sums32();
    RoundsNext(IV, x, 28);
    RoundsNext(IV, x, 29);
    RoundsNext(IV, x, 30);
    RoundsNext(IV, x, 31);
  }

  lemma Sums36()
    ensures Sum(0x790a77fb, Mix(32, 0x726342d3, 0xa62884aa, 0x9f47e4f8), 0, 0xfffa3942, 4, 0x726342d3) ==
            0xb3707ebf
    ensures Sum(0x9f47e4f8, Mix(33, 0xb3707ebf, 0x726342d3, 0xa62884aa), 0, 0x8771f681, 11, 0xb3707ebf) ==
            0x60127b2e
    ensures Sum(0xa62884aa, Mix(34, 0x60127b2e, 0xb3707ebf, 0x726342d3), 0, 0x6d9d6122, 16, 0x60127b2e) ==
            0x8d212ff5
    ensures Sum(0x726342d3, Mix(35, 0x8d212ff5, 0x60127b2e, 0xb3707ebf), 24, 0xfde5380c, 23, 0x8d212ff5) ==
            0x3b0875c7
  {}

  lemma After36(x: seq<bv32>)
    requires IsBlock(x) && Rounds(IV, x, 32) == Abcd(0x790a77fb, 0x726342d3, 0xa62884aa, 0x9f47e4f8)
    ensures Rounds(IV, x, 36) == Abcd(0xb3707ebf, 0x3b0875c7, 0x8d212ff5, 0x60127b2e)
  {
    hide Sum, Mix, Rounds;
    Sums36();
    RoundsNext(IV, x, 32);
    RoundsNext(IV, x, 33);
    RoundsNext(IV, x, 34);
    RoundsNext(IV, x, 35);
  }

  lemma Sums40()
    ensures Sum(0xb3707ebf, Mix(36, 0x3b0875c7, 0x8d212ff5, 0x60127b2e), 0, 0xa4beea44, 4, 0x3b0875c7) ==
            0x21b117b9
    ensures Sum(0x60127b2e, Mix(37, 0x21b117b9, 0x3b0875c7, 0x8d212ff5), 0, 0x4bdecfa9, 11, 0x21b117b9) ==
            0x6e7429d5
    ensures Sum(0x8d212ff5, Mix(38, 0x6e7429d5, 0x21b117b9, 0x3b0875c7), 0, 0xf6bb4b60, 16, 0x6e7429d5) ==
            0x3575227e
    ensures Sum(0x3b0875c7, Mix(39, 0x3575227e, 0x6e7429d5, 0x21b117b9), 0, 0xbebfbc70, 23, 0x3575227e) ==
            0x5a2f5ea5
  {}

  lemma After40(x: seq<bv32>)
    requires IsBlock(x) && Rounds(IV, x, 36) == Abcd(0xb3707ebf, 0x3b0875c7, 0x8d212ff5, 0x60127b2e)
    ensures Rounds(IV, x, 40) == Abcd(0x21b117b9, 0x5a2f5ea5, 0x3575227e, 0x6e7429d5)
  {
    hide Sum, Mix, Rounds;
    Sums40();
    RoundsNext(IV, x, 36);
    RoundsNext(IV, x, 37);
    RoundsNext(IV, x, 38);
    RoundsNext(IV, x, 39);
  }

  lemma Sums44()
    ensures Sum(0x21b117b9, Mix(40, 0x5a2f5ea5, 0x3575227e, 0x6e7429d5), 0, 0x289b7ec6, 4, 0x5a2f5ea5) ==
            0x11de1779
    ensures Sum(0x6e7429d5, Mix(41, 0x11de1779, 0x5a2f5ea5, 0x3575227e), 0x80636261, 0xeaa127fa, 11, 0x11de1779) ==
            0xfadcaa38
    ensures Sum(0x3575227e, Mix(42, 0xfadcaa38, 0x11de1779, 0x5a2f5ea5), 0, 0xd4ef3085, 16, 0xfadcaa38) ==
            0x31c465ca
    ensures Sum(0x5a2f5ea5, Mix(43, 0x31c465ca, 0xfadcaa38, 0x11de1779), 0, 0x04881d05, 23, 0x31c465ca) ==
            0x4c6124f4
  {}

  lemma After44(x: seq<bv32>)
    requires IsBlock(x) && Rounds(IV, x, 40) == Abcd(0x21b117b9, 0x5a2f5ea5, 0x3575227e, 0x6e7429d5)
    ensures Rounds(IV, x, 44) == Abcd(0x11de1779, 0x4c6124f4, 0x31c465ca, 0xfadcaa38)
  {
    hide Sum, Mix, Rounds;
    Sums44();
    RoundsNext(IV, x, 40);
    RoundsNext(IV, x, 41);
    RoundsNext(IV, x, 42);
    RoundsNext(IV, x, 43);
  }

  lemma Sums48()
    ensures Sum(0x11de1779, Mix(44, 0x4c6124f4, 0x31c465ca, 0xfadcaa38), 0, 0xd9d4d039, 4, 0x4c6124f4) ==
            0x7f2e507b
    ensures Sum(0xfadcaa38, Mix(45, 0x7f2e507b, 0x4c6124f4, 0x31c465ca), 0, 0xe6db99e5, 11, 0x7f2e507b) ==
            0x99d9679d
    ensures Sum(0x31c465ca, Mix(46, 0x99d9679d, 0x7f2e507b, 0x4c6124f4), 0, 0x1fa27cf8, 16, 0x99d9679d) ==
            0x8fae6399
    ensures Sum(0x4c6124f4, Mix(47, 0x8fae6399, 0x99d9679d, 0x7f2e507b), 0, 0xc4ac5665, 23, 0x8fae6399) ==
            0x7beb9700
  {}

  lemma After48(x: seq<bv32>)
    requires IsBlock(x) && Rounds(IV, x, 44) == Abcd(0x11de1779, 0x4c6124f4, 0x31c465ca, 0xfadcaa38)
    ensures Rounds(IV, x, 48) == Abcd(0x7f2e507b, 0x7beb9700, 0x8fae6399, 0x99d9679d)
  {
    hide Sum, Mix, Rounds;
    Sums48();
    RoundsNext(IV, x, 44);
    RoundsNext(IV, x, 45);
    RoundsNext(IV, x, 46);
    RoundsNext(IV, x, 47);
  }

  lemma Sums52()
    ensures Sum(0x7f2e507b, Mix(48, 0x7beb9700, 0x8fae6399, 0x99d9679d), 0x80636261, 0xf4292244, 6, 0x7beb9700) ==
            0x7b201df8
    ensures Sum(0x99d9679d, Mix(49, 0x7b201df8, 0x7beb9700, 0x8fae6399), 0, 0x432aff97, 10, 0x7b201df8) ==
            0xf4e8e96e
    ensures Sum(0x8fae6399, Mix(50, 0xf4e8e96e, 0x7b201df8, 0x7beb9700), 24, 0xab9423a7, 15, 0xf4e8e96e) ==
            0xb298cefd
    ensures Sum(0x7beb9700, Mix(51, 0xb298cefd, 0xf4e8e96e, 0x7b201df8), 0, 0xfc93a039, 21, 0xb298cefd) ==
            0x8bf025c4
  {}

  lemma After52(x: seq<bv32>)
    requires IsBlock(x) && Rounds(IV, x, 48) == Abcd(0x7f2e507b, 0x7beb9700, 0x8fae6399, 0x99d9679d)
    ensures Rounds(IV, x, 52) == Abcd(0x7b201df8, 0x8bf025c4, 0xb298cefd, 0xf4e8e96e)
  {
    hide Sum, Mix, Rounds;
    Sums52();
    RoundsNext(IV, x, 48);
    RoundsNext(IV, x, 49);
    RoundsNext(IV, x, 50);
    RoundsNext(IV, x, 51);
  }

  lemma Sums56()
    ensures Sum(0x7b201df8, Mix(52, 0x8bf025c4, 0xb298cefd, 0xf4e8e96e), 0, 0x655b59c3, 6, 0x8bf025c4) ==
            0x06cc5e8a
    ensures Sum(0xf4e8e96e, Mix(53, 0x06cc5e8a, 0x8bf025c4, 0xb298cefd), 0, 0x8f0ccc92, 10, 0x06cc5e8a) ==
            0x5b0d97aa
    ensures Sum(0xb298cefd, Mix(54, 0x5b0d97aa, 0x06cc5e8a, 0x8bf025c4), 0, 0xffeff47d, 15, 0x5b0d97aa) ==
            0x7d632dd0
    ensures Sum(0x8bf025c4, Mix(55, 0x7d632dd0, 0x5b0d97aa, 0x06cc5e8a), 0, 0x85845dd1, 21, 0x7d632dd0) ==
            0x3bfa2c27
  {}

  lemma After56(x: seq<bv32>)
    requires IsBlock(x) && Rounds(IV, x, 52) == Abcd(0x7b201df8, 0x8bf025c4, 0xb298cefd, 0xf4e8e96e)
    ensures Rounds(IV, x, 56) == Abcd(0x06cc5e8a, 0x3bfa2c27, 0x7d632dd0, 0x5b0d97aa)
  {
    hide Sum, Mix, Rounds;
    Sums56();
    RoundsNext(IV, x, 52);
    RoundsNext(IV, x, 53);
    RoundsNext(IV, x, 54);
    RoundsNext(IV, x, 55);
  }

  lemma Sums60()
    ensures Sum(0x06cc5e8a, Mix(56, 0x3bfa2c27, 0x7d632dd0, 0x5b0d97aa), 0, 0x6fa87e4f, 6, 0x3bfa2c27) ==
            0x7f81cc35
    ensures Sum(0x5b0d97aa, Mix(57, 0x7f81cc35, 0x3bfa2c27, 0x7d632dd0), 0, 0xfe2ce6e0, 10, 0x7f81cc35) ==
            0x094454ab
    ensures Sum(0x7d632dd0, Mix(58, 0x094454ab, 0x7f81cc35, 0x3bfa2c27), 0, 0xa3014314, 15, 0x094454ab) ==
            0x4f9dbe3f
    ensures Sum(0x3bfa2c27, Mix(59, 0x4f9dbe3f, 0x094454ab, 0x7f81cc35), 0, 0x4e0811a1, 21, 0x4f9dbe3f) ==
            0x7327d604
  {}

  lemma After60(x: seq<bv32>)
    requires IsBlock(x) && Rounds(IV, x, 56) == Abcd(0x06cc5e8a, 0x3bfa2c27, 0x7d632dd0, 0x5b0d97aa)
    ensures Rounds(IV, x, 60) == Abcd(0x7f81cc35, 0x7327d604, 0x4f9dbe3f, 0x094454ab)
  {
    hide Sum, Mix, Rounds;
    Sums60();
    RoundsNext(IV, x, 56);
    RoundsNext(IV, x, 57);
    RoundsNext(IV, x, 58);
    RoundsNext(IV, x, 59);
  }

  lemma Sums64()
    ensures Sum(0x7f81cc35, Mix(60, 0x7327d604, 0x4f9dbe3f, 0x094454ab), 0, 0xf7537e82, 6, 0x7327d604) ==
            0x310ade8f
    ensures Sum(0x094454ab, Mix(61, 0x310ade8f, 0x7327d604, 0x4f9dbe3f), 0, 0xbd3af235, 10, 0x310ade8f) ==
            0x624d8cb2
    ensures Sum(0x4f9dbe3f, Mix(62, 0x624d8cb2, 0x310ade8f, 0x7327d604), 0, 0x2ad7d2bb, 15, 0x624d8cb2) ==
            0xe484b9d8
    ensures Sum(0x7327d604, Mix(63, 0xe484b9d8, 0x624d8cb2, 0x310ade8f), 0, 0xeb86d391, 21, 0xe484b9d8) ==
            0xc08226b3
  {}

  lemma After64(x: seq<bv32>)
    requires IsBlock(x) && Rounds(IV, x, 60) == Abcd(0x7f81cc35, 0x7327d604, 0x4f9dbe3f, 0x094454ab)
    ensures Rounds(IV, x, 64) == Abcd(0x310ade8f, 0xc08226b3, 0xe484b9d8, 0x624d8cb2)
  {
    hide Sum, Mix, Rounds;
    Sums64();
    RoundsNext(IV, x, 60);
    RoundsNext(IV, x, 61);
    RoundsNext(IV, x, 62);
    RoundsNext(IV, x, 63);
  }

  lemma Compressed(b: Octets)
    requires |b| == 64 && IsBlock(WordsOf(b))
    ensures Compress(IV, b) == Abcd(0x98500190, 0xb04fd23c, 0x7d3f96d6, 0x727fe128)
  {
    hide Rounds, WordsOf, IsBlock;
    var x := WordsOf(b);
    RoundsStart(IV, x);
    After4(x);
    After8(x);
    After12(x);
    After16(x);
    After20(x);
    After24(x);
    After28(x);
    After32(x);
    After36(x);
    After40(x);
    After44(x);
    After48(x);
    After52(x);
    After56(x);
    After60(x);
    After64(x);
  }

  lemma StandardOfAbc()
    ensures var p := Padded(ABC, LengthOctets(24, 0)); Standard(ABC) == Fold(Md5Core(), IV, p, |p| / 64)
  {
    hide Padded, LengthOctets, Fold, Md5Core;
    assert BitLength(|ABC|) == 24;
  }

  /** The digest of "abc". */
  lemma AbcDigest()
    ensures Standard(ABC) == Abcd(0x98500190, 0xb04fd23c, 0x7d3f96d6, 0x727fe128)
  {
    var b := Padded(ABC, LengthOctets(24, 0));
    hide *;
    StandardOfAbc();
    BlockWords(b);
    Compressed(b);
    OneBlock(b);
  }

  lemma OneBlock(b: Octets)
    requires |b| == 64
    ensures Fold(Md5Core(), IV, b, 1) == Compress(IV, b)
  {
    hide Compress;
    assert b[0..64] == b;
    assert Fold(Md5Core(), IV, b, 0) == IV;
  }
}

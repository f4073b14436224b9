/** The SHA-1 digest of "abc", worked out through all eighty rounds: the example of RFC 3174 section 7.3. */
module Sha1Vector {
  import opened BitCounter
  import opened CTypes
  import opened Digest
  import opened Sha1Transform
  import opened Sha1

  const ABC: Octets := [0x61, 0x62, 0x63]

  // ---- The schedule, sixteen words at a time ----

  const W0: seq<bv32> := [
    0x61626380, 0x00000000, 0x00000000, 0x00000000, 0x00000000, 0x00000000, 0x00000000, 0x00000000,
    0x00000000, 0x00000000, 0x00000000, 0x00000000, 0x00000000, 0x00000000, 0x00000000, 0x00000018]
  const W1: seq<bv32> := [
    0xc2c4c700, 0x00000000, 0x00000030, 0x85898e01, 0x00000000, 0x00000060, 0x0b131c03, 0x00000030,
    0x85898ec1, 0x16263806, 0x00000000, 0x00000180, 0x2c4c700c, 0x000000f0, 0x93afb507, 0x5898e048]
  const W2: seq<bv32> := [
    0x8e9a9202, 0x00000600, 0xb131c0f0, 0x16263bc6, 0x4ebed41e, 0x626380a1, 0x16263806, 0x000018c0,
    0xd2e138c4, 0x00000f00, 0x3afb5079, 0x898e04e5, 0xe2ba3c2b, 0x000060c0, 0x053a37cd, 0x74458547]
  const W3: seq<bv32> := [
    0xda9415ed, 0x26380a16, 0x626383a1, 0x4ebf54de, 0x3835b44b, 0x0000f600, 0x1e84c7a3, 0x98e04d98,
    0x651d16a0, 0x62658ca1, 0x458544d6, 0x44584cb7, 0x7ba06619, 0x6380aea2, 0x0ae55269, 0x627b49a1]
  const W4: seq<bv32> := [
    0x7cd45c9d, 0x000f0000, 0xfb50753a, 0xec6765e8, 0xba3c2be2, 0x0060c000, 0x3a37cd05, 0x458546f4,
    0xb8599dd6, 0x380a1a26, 0x01e02203, 0xe7cc3456, 0xe6e60b69, 0x00f60a00, 0x5795ef4f, 0x822e0879]

  /** The words of a block from t on. */
  predicate Sixteen(b: Octets, t: nat, ws: seq<bv32>)
    requires |b| == 64
  {
    && |ws| == 16
    && Schedule(b, t) == ws[0] && Schedule(b, t + 1) == ws[1] && Schedule(b, t + 2) == ws[2]
    && Schedule(b, t + 3) == ws[3] && Schedule(b, t + 4) == ws[4] && Schedule(b, t + 5) == ws[5]
    && Schedule(b, t + 6) == ws[6] && Schedule(b, t + 7) == ws[7] && Schedule(b, t + 8) == ws[8]
    && Schedule(b, t + 9) == ws[9] && Schedule(b, t + 10) == ws[10] && Schedule(b, t + 11) == ws[11]
    && Schedule(b, t + 12) == ws[12] && Schedule(b, t + 13) == ws[13] && Schedule(b, t + 14) == ws[14]
    && Schedule(b, t + 15) == ws[15]
  }

  /** A word made of those 3, 8, 14 and 16 places back. */
  predicate Made(w: bv32, a: bv32, b: bv32, c: bv32, d: bv32) {
    w == Rol1(a ^ b ^ c ^ d)
  }

  /** How the next sixteen words arise from sixteen. */
  predicate Follows(ws: seq<bv32>, vs: seq<bv32>)
    requires |ws| == |vs| == 16
  {
    && Made(vs[0], ws[13], ws[8], ws[2], ws[0]) && Made(vs[1], ws[14], ws[9], ws[3], ws[1])
    && Made(vs[2], ws[15], ws[10], ws[4], ws[2]) && Made(vs[3], vs[0], ws[11], ws[5], ws[3])
    && Made(vs[4], vs[1], ws[12], ws[6], ws[4]) && Made(vs[5], vs[2], ws[13], ws[7], ws[5])
    && Made(vs[6], vs[3], ws[14], ws[8], ws[6]) && Made(vs[7], vs[4], ws[15], ws[9], ws[7])
    && Made(vs[8], vs[5], vs[0], ws[10], ws[8]) && Made(vs[9], vs[6], vs[1], ws[11], ws[9])
    && Made(vs[10], vs[7], vs[2], ws[12], ws[10]) && Made(vs[11], vs[8], vs[3], ws[13], ws[11])
    && Made(vs[12], vs[9], vs[4], ws[14], ws[12]) && Made(vs[13], vs[10], vs[5], ws[15], ws[13])
    && Made(vs[14], vs[11], vs[6], vs[0], ws[14]) && Made(vs[15], vs[12], vs[7], vs[1], ws[15])
  }

  lemma ScheduleNext(b: Octets, t: nat)
    requires |b| == 64 && t >= 16
    ensures Made(Schedule(b, t), Schedule(b, t - 3), Schedule(b, t - 8), Schedule(b, t - 14), Schedule(b, t - 16))
  {
    hide Rol1;
  }

  lemma OneWord(b: Octets, t: nat, w: bv32)
    requires |b| == 64 && t >= 16
    requires Made(w, Schedule(b, t - 3), Schedule(b, t - 8), Schedule(b, t - 14), Schedule(b, t - 16))
    ensures Schedule(b, t) == w
  {
    hide Rol1, Schedule;
    ScheduleNext(b, t);
  }

  lemma NextEight(b: Octets, t: nat, ws: seq<bv32>, vs: seq<bv32>)
    requires |b| == 64 && |ws| == |vs| == 16 && Sixteen(b, t, ws) && Follows(ws, vs)
    ensures Schedule(b, t + 16) == vs[0] && Schedule(b, t + 17) == vs[1] && Schedule(b, t + 18) == vs[2]
    ensures Schedule(b, t + 19) == vs[3] && Schedule(b, t + 20) == vs[4] && Schedule(b, t + 21) == vs[5]
    ensures Schedule(b, t + 22) == vs[6] && Schedule(b, t + 23) == vs[7]
  {
    hide Schedule, Made;
    OneWord(b, t + 16, vs[0]);
    OneWord(b, t + 17, vs[1]);
    OneWord(b, t + 18, vs[2]);
    OneWord(b, t + 19, vs[3]);
    OneWord(b, t + 20, vs[4]);
    OneWord(b, t + 21, vs[5]);
    OneWord(b, t + 22, vs[6]);
    OneWord(b, t + 23, vs[7]);
  }

  lemma NextWords(b: Octets, t: nat, ws: seq<bv32>, vs: seq<bv32>)
    requires |b| == 64 && |ws| == |vs| == 16 && Sixteen(b, t, ws) && Follows(ws, vs)
    ensures Sixteen(b, t + 16, vs)
  {
    hide Schedule, Made;
    NextEight(b, t, ws, vs);
    OneWord(b, t + 24, vs[8]);
    OneWord(b, t + 25, vs[9]);
    OneWord(b, t + 26, vs[10]);
    OneWord(b, t + 27, vs[11]);
    OneWord(b, t + 28, vs[12]);
    OneWord(b, t + 29, vs[13]);
    OneWord(b, t + 30, vs[14]);
    OneWord(b, t + 31, vs[15]);
  }

  lemma Words1()
    ensures Follows(W0, W1)
  {}

  lemma Words2()
    ensures Follows(W1, W2)
  {}

  lemma Words3()
    ensures Follows(W2, W3)
  {}

  lemma Words4()
    ensures Follows(W3, W4)
  {}

  // ---- The rounds, five at a time ----

  function Five(r: Words, t: nat, w0: bv32, w1: bv32, w2: bv32, w3: bv32, w4: bv32): Words {
    Step(Step(Step(Step(Step(r, t, w0), t + 1, w1), t + 2, w2), t + 3, w3), t + 4, w4)
  }

  lemma FiveMore(b: Octets, t: nat)
    requires |b| == 64
    ensures Rounds(IV, b, t + 5) ==
            Five(Rounds(IV, b, t), t, Schedule(b, t), Schedule(b, t + 1), Schedule(b, t + 2), Schedule(b, t + 3),
                 Schedule(b, t + 4))
  {
    hide Step, Schedule, Rounds;
    RoundsNext(IV, b, t);
    RoundsNext(IV, b, t + 1);
    RoundsNext(IV, b, t + 2);
    RoundsNext(IV, b, t + 3);
    RoundsNext(IV, b, t + 4);
  }

  lemma Rounds20()
    ensures Five(Words(0x67452301, 0xefcdab89, 0x98badcfe, 0x10325476, 0xc3d2e1f0),
                 0, 0x61626380, 0x00000000, 0x00000000, 0x00000000, 0x00000000) ==
            Words(0xcfd499de, 0xcdd8e11b, 0x284e43c2, 0x626414db, 0xc045bf0c)
    ensures Five(Words(0xcfd499de, 0xcdd8e11b, 0x284e43c2, 0x626414db, 0xc045bf0c),
                 5, 0x00000000, 0x00000000, 0x00000000, 0x00000000, 0x00000000) ==
            Words(0x8351f929, 0x4b6ae328, 0x27a301f5, 0x664f8c30, 0x0ff1f290)
    ensures Five(Words(0x8351f929, 0x4b6ae328, 0x27a301f5, 0x664f8c30, 0x0ff1f290),
                 10, 0x00000000, 0x00000000, 0x00000000, 0x00000000, 0x00000000) ==
            Words(0x196bee77, 0x9128f695, 0x1181ed99, 0x18c623f9, 0x7ef6a7a2)
    ensures Five(Words(0x196bee77, 0x9128f695, 0x1181ed99, 0x18c623f9, 0x7ef6a7a2),
                 15, 0x00000018, 0xc2c4c700, 0x00000000, 0x00000030, 0x85898e01) ==
            Words(0xfd9e1d7d, 0xdc64901d, 0x20aa99ca, 0xd3a49608, 0xc82f758b)
  {
  }

  lemma Rounds40()
    ensures Five(Words(0xfd9e1d7d, 0xdc64901d, 0x20aa99ca, 0xd3a49608, 0xc82f758b),
                 20, 0x00000000, 0x00000060, 0x0b131c03, 0x00000030, 0x85898ec1) ==
            Words(0xc7567dc6, 0xd541f12d, 0x884a0d21, 0x0ce88eff, 0x868dec32)
    ensures Five(Words(0xc7567dc6, 0xd541f12d, 0x884a0d21, 0x0ce88eff, 0x868dec32),
                 25, 0x16263806, 0x00000000, 0x00000180, 0x2c4c700c, 0x000000f0) ==
            Words(0xc5fbaf5d, 0x8370b52e, 0xd2aa1365, 0x6f8d7ef5, 0x12104ee9)
    ensures Five(Words(0xc5fbaf5d, 0x8370b52e, 0xd2aa1365, 0x6f8d7ef5, 0x12104ee9),
                 30, 0x93afb507, 0x5898e048, 0x8e9a9202, 0x00000600, 0xb131c0f0) ==
            Words(0x21796ad4, 0x2c0ebc11, 0x811bea82, 0xcee1174c, 0xc499ed01)
    ensures Five(Words(0x21796ad4, 0x2c0ebc11, 0x811bea82, 0xcee1174c, 0xc499ed01),
                 35, 0x16263bc6, 0x4ebed41e, 0x626380a1, 0x16263806, 0x000018c0) ==
            Words(0x32de1cba, 0x4c986405, 0xf718e5cf, 0x03d447f6, 0xf72eec32)
  {
  }

  lemma Rounds60()
    ensures Five(Words(0x32de1cba, 0x4c986405, 0xf718e5cf, 0x03d447f6, 0xf72eec32),
                 40, 0xd2e138c4, 0x00000f00, 0x3afb5079, 0x898e04e5, 0xe2ba3c2b) ==
            Words(0x40f28e09, 0xee1b1aaf, 0x5fc64f71, 0x25c28357, 0xff21f7b7)
    ensures Five(Words(0x40f28e09, 0xee1b1aaf, 0x5fc64f71, 0x25c28357, 0xff21f7b7),
                 45, 0x000060c0, 0x053a37cd, 0x74458547, 0xda9415ed, 0x26380a16) ==
            Words(0x120731c5, 0xbaf39337, 0xafab40b2, 0x2806e11b, 0x8714787c)
    ensures Five(Words(0x120731c5, 0xbaf39337, 0xafab40b2, 0x2806e11b, 0x8714787c),
                 50, 0x626383a1, 0x4ebf54de, 0x3835b44b, 0x0000f600, 0x1e84c7a3) ==
            Words(0x7b71f76d, 0x27e9f1d8, 0x792410db, 0x8e11eb59, 0x99076cb3)
    ensures Five(Words(0x7b71f76d, 0x27e9f1d8, 0x792410db, 0x8e11eb59, 0x99076cb3),
                 55, 0x98e04d98, 0x651d16a0, 0x62658ca1, 0x458544d6, 0x44584cb7) ==
            Words(0x3f52de5a, 0x09d785fd, 0x3498bfd4, 0xf211824f, 0xd79915ab)
  {
  }

  lemma Rounds80()
    ensures Five(Words(0x3f52de5a, 0x09d785fd, 0x3498bfd4, 0xf211824f, 0xd79915ab),
                 60, 0x7ba06619, 0x6380aea2, 0x0ae55269, 0x627b49a1, 0x7cd45c9d) ==
            Words(0x19dfa7ac, 0x6b61c9e1, 0xed9b0082, 0x9523272c, 0xf5d5b051)
    ensures Five(Words(0x19dfa7ac, 0x6b61c9e1, 0xed9b0082, 0x9523272c, 0xf5d5b051),
                 65, 0x000f0000, 0xfb50753a, 0xec6765e8, 0xba3c2be2, 0x0060c000) ==
            Words(0x3f2588c2, 0x497093c0, 0xde37534a, 0x030f7cad, 0x4405957e)
    ensures Five(Words(0x3f2588c2, 0x497093c0, 0xde37534a, 0x030f7cad, 0x4405957e),
                 70, 0x3a37cd05, 0x458546f4, 0xb8599dd6, 0x380a1a26, 0x01e02203) ==
            Words(0x5ee76897, 0x11793f6f, 0x3b6d0b79, 0xce616779, 0xf0667e31)
    ensures Five(Words(0x5ee76897, 0x11793f6f, 0x3b6d0b79, 0xce616779, 0xf0667e31),
                 75, 0xe7cc3456, 0xe6e60b69, 0x00f60a00, 0x5795ef4f, 0x822e0879) ==
            Words(0x42541b35, 0x5738d5e1, 0x21834873, 0x681e6df6, 0xd8fdf6ad)
  {
  }

  // ---- The message ----

  /** Its one block: a one bit behind the message, zeros, and the number of its bits, 24. */
  lemma Block(b: Octets)
    requires b == Padded(ABC, LengthOctets(24, 0))
    ensures |b| == 64 && b[0] == 0x61 && b[1] == 0x62 && b[2] == 0x63 && b[3] == 0x80 && b[63] == 24
    ensures forall i :: 4 <= i < 63 ==> b[i] == 0
  {
    hide LengthOctets;
    BitsOfAbc();
    assert b == ABC + [0x80] + Zeros(52) + [0, 0, 0, 0, 0, 0, 0, 24];
  }

  lemma BitsOfAbc()
    ensures LengthOctets(24, 0) == [0, 0, 0, 0, 0, 0, 0, 24]
  {}

  lemma FirstWord(b: Octets, t: nat)
    requires |b| == 64 && t < 16
    ensures Schedule(b, t) == WordOf(b[4 * t], b[4 * t + 1], b[4 * t + 2], b[4 * t + 3])
  {}

  lemma FirstWords(b: Octets)
    requires b == Padded(ABC, LengthOctets(24, 0))
    ensures |b| == 64 && Sixteen(b, 0, W0)
  {
    Block(b);
    hide Schedule, Padded, LengthOctets;
    FirstWord(b, 0);
    FirstWord(b, 1);
    FirstWord(b, 2);
    FirstWord(b, 3);
    FirstWord(b, 4);
    FirstWord(b, 5);
    FirstWord(b, 6);
    FirstWord(b, 7);
    FirstWord(b, 8);
    FirstWord(b, 9);
    FirstWord(b, 10);
    FirstWord(b, 11);
    FirstWord(b, 12);
    FirstWord(b, 13);
    FirstWord(b, 14);
    FirstWord(b, 15);
  }

  lemma AllWords(b: Octets)
    requires |b| == 64 && Sixteen(b, 0, W0)
    ensures Sixteen(b, 16, W1) && Sixteen(b, 32, W2) && Sixteen(b, 48, W3) && Sixteen(b, 64, W4)
  {
    hide Sixteen, Follows;
    Words1();
    Words2();
    Words3();
    Words4();
    NextWords(b, 0, W0, W1);
    NextWords(b, 16, W1, W2);
    NextWords(b, 32, W2, W3);
    NextWords(b, 48, W3, W4);
  }

  lemma After20(b: Octets)
    requires |b| == 64 && Sixteen(b, 0, W0) && Sixteen(b, 16, W1)
    requires Rounds(IV, b, 0) == Words(0x67452301, 0xefcdab89, 0x98badcfe, 0x10325476, 0xc3d2e1f0)
    ensures Rounds(IV, b, 20) ==
            Words(0xfd9e1d7d, 0xdc64901d, 0x20aa99ca, 0xd3a49608, 0xc82f758b)
  {
    hide Five, Schedule, Rounds;
    Rounds20();
    FiveMore(b, 0);
    FiveMore(b, 5);
    FiveMore(b, 10);
    FiveMore(b, 15);
  }

  lemma After40(b: Octets)
    requires |b| == 64 && Sixteen(b, 16, W1) && Sixteen(b, 32, W2)
    requires Rounds(IV, b, 20) == Words(0xfd9e1d7d, 0xdc64901d, 0x20aa99ca, 0xd3a49608, 0xc82f758b)
    ensures Rounds(IV, b, 40) ==
            Words(0x32de1cba, 0x4c986405, 0xf718e5cf, 0x03d447f6, 0xf72eec32)
  {
    hide Five, Schedule, Rounds;
    Rounds40();
    FiveMore(b, 20);
    FiveMore(b, 25);
    FiveMore(b, 30);
    FiveMore(b, 35);
  }

  lemma After60(b: Octets)
    requires |b| == 64 && Sixteen(b, 32, W2) && Sixteen(b, 48, W3)
    requires Rounds(IV, b, 40) == Words(0x32de1cba, 0x4c986405, 0xf718e5cf, 0x03d447f6, 0xf72eec32)
    ensures Rounds(IV, b, 60) ==
            Words(0x3f52de5a, 0x09d785fd, 0x3498bfd4, 0xf211824f, 0xd79915ab)
  {
    hide Five, Schedule, Rounds;
    Rounds60();
    FiveMore(b, 40);
    FiveMore(b, 45);
    FiveMore(b, 50);
    FiveMore(b, 55);
  }

  lemma After80(b: Octets)
    requires |b| == 64 && Sixteen(b, 48, W3) && Sixteen(b, 64, W4)
    requires Rounds(IV, b, 60) == Words(0x3f52de5a, 0x09d785fd, 0x3498bfd4, 0xf211824f, 0xd79915ab)
    ensures Rounds(IV, b, 80) ==
            Words(0x42541b35, 0x5738d5e1, 0x21834873, 0x681e6df6, 0xd8fdf6ad)
  {
    hide Five, Schedule, Rounds;
    Rounds80();
    FiveMore(b, 60);
    FiveMore(b, 65);
    FiveMore(b, 70);
    FiveMore(b, 75);
  }

  lemma Compressed(b: Octets)
    requires |b| == 64 && Sixteen(b, 0, W0)
    ensures Compress(IV, b) == Words(0xa9993e36, 0x4706816a, 0xba3e2571, 0x7850c26c, 0x9cd0d89d)
  {
    hide Sixteen, Rounds;
    AllWords(b);
    RoundsStart(IV, b);
    After20(b);
    After40(b);
    After60(b);
    After80(b);
  }

  lemma StandardOfAbc()
    ensures var p := Padded(ABC, LengthOctets(24, 0)); Standard(ABC) == Fold(Sha1Core(), IV, p, |p| / 64)
  {
    hide Padded, LengthOctets, Fold, Sha1Core;
    assert BitLength(|ABC|) == 24;
  }

  /** The digest of "abc". */
  lemma AbcDigest()
    ensures Standard(ABC) == Words(0xa9993e36, 0x4706816a, 0xba3e2571, 0x7850c26c, 0x9cd0d89d)
  {
    var b := Padded(ABC, LengthOctets(24, 0));
    hide *;
    StandardOfAbc();
    FirstWords(b);
    Compressed(b);
    HoldsBlock(b);
  }

  lemma HoldsBlock(b: Octets)
    requires |b| == 64
    ensures Fold(Sha1Core(), IV, b, 1) == Compress(IV, b)
  {
    hide Compress;
    assert b[0..64] == b;
    assert Fold(Sha1Core(), IV, b, 0) == IV;
  }
}

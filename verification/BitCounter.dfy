/**
  The 64-bit counters of SHA-1 and MD5: two 32-bit words that count the bits of the message.
  
  Both digests add the low and the high part of a chunk separately and carry by a comparison; the lemmas
  say what the two words are for a message of a given length, modulo 2^64, and what the position in a
  block has to do with the low word.
*/
module BitCounter {
  import opened CTypes

  /** The number of bits a message has, as far as 64 bits hold it. */
  function BitLength(octets: nat): (r: nat)
    ensures r < TWO_64
  {
    8 * octets % TWO_64
  }

  /** The two words of a counter as one number. */
  function Joined(low: nat, high: nat): nat {
    high * TWO_32 + low
  }

  /** The two words of a bit length. */
  lemma BitWords(octets: nat)
    ensures BitLength(octets) == Joined(8 * (octets % 0x2000_0000), octets / 0x2000_0000 % TWO_32)
    ensures 8 * (octets % 0x2000_0000) < TWO_32
  {
    var q, r := octets / 0x2000_0000, octets % 0x2000_0000;
    assert 8 * octets == q * TWO_32 + 8 * r;
    assert q == q / TWO_32 * TWO_32 + q % TWO_32;
    assert 8 * octets == q / TWO_32 * TWO_64 + (q % TWO_32 * TWO_32 + 8 * r);
    ModUnique(8 * octets, TWO_64, q / TWO_32, q % TWO_32 * TWO_32 + 8 * r);
  }

  lemma {:induction false} MulOrder(m: nat, a: nat, b: nat)
    requires a < b
    ensures m * b >= m * a + m
    decreases b
  {
    assert m * b == m * (b - 1) + m;
    if a < b - 1 { MulOrder(m, a, b - 1); }
  }

  lemma ModUnique(n: nat, m: nat, q: nat, r: nat)
    requires m > 0 && n == q * m + r && r < m
    ensures n % m == r && n / m == q
  {
    var k := n / m;
    assert n == m * k + n % m;
    if k < q { MulOrder(m, k, q); }
    if q < k { MulOrder(m, q, k); }
  }

  lemma BitLengthAdds(a: nat, b: nat)
    ensures BitLength(a + b) == (BitLength(a) + BitLength(b)) % TWO_64
  {
    var qa, qb := 8 * a / TWO_64, 8 * b / TWO_64;
    var s := BitLength(a) + BitLength(b);
    assert 8 * (a + b) == (qa + qb + s / TWO_64) * TWO_64 + s % TWO_64;
    ModUnique(8 * (a + b), TWO_64, qa + qb + s / TWO_64, s % TWO_64);
  }

  /** The low word tells the position in the block. */
  lemma Position(octets: nat)
    ensures BitLength(octets) % TWO_32 / 8 % 64 == octets % 64
  {
    var q, r := octets / 0x2000_0000, octets % 0x2000_0000;
    BitWords(octets);
    ModUnique(BitLength(octets), TWO_32, q % TWO_32, 8 * r);
    hide BitLength;
    assert 8 * r / 8 == r;
    assert octets == (q * 0x80_0000 + r / 64) * 64 + r % 64;
    ModUnique(octets, 64, q * 0x80_0000 + r / 64, r % 64);
  }

  /** The low word is right whatever the high word is. */
  lemma LowRight(octets: nat, before: nat)
    ensures (BitLength(before) % TWO_32 + BitLength(octets) % TWO_32) % TWO_32 == BitLength(before + octets) % TWO_32
  {
    LowWord(octets);
    LowWord(before);
    LowWord(before + octets);
    hide BitLength;
    var qa, qb := 8 * before / TWO_32, 8 * octets / TWO_32;
    var s := 8 * before % TWO_32 + 8 * octets % TWO_32;
    assert 8 * (before + octets) == (qa + qb + s / TWO_32) * TWO_32 + s % TWO_32;
    ModUnique(8 * (before + octets), TWO_32, qa + qb + s / TWO_32, s % TWO_32);
  }

  lemma LowWord(octets: nat)
    ensures BitLength(octets) % TWO_32 == 8 * octets % TWO_32
  {
    var q, r := octets / 0x2000_0000, octets % 0x2000_0000;
    BitWords(octets);
    ModUnique(BitLength(octets), TWO_32, q % TWO_32, 8 * r);
    ModUnique(8 * octets, TWO_32, q, 8 * r);
  }

  lemma JoinedParts(low: nat, high: nat)
    requires low < TWO_32
    ensures Joined(low, high) % TWO_32 == low && Joined(low, high) / TWO_32 == high
    ensures Joined(low, high) < TWO_32 <==> high == 0
  {
    ModUnique(Joined(low, high), TWO_32, high, low);
  }

  /** Adding two-word numbers, with a carry. */
  lemma JoinedAdds(low: nat, high: nat, l: nat, h: nat)
    requires low < TWO_32 && high < TWO_32 && l < TWO_32 && h < TWO_32
    ensures (Joined(low, high) + Joined(l, h)) % TWO_64 ==
            Joined((low + l) % TWO_32, (high + h + if low + l >= TWO_32 then 1 else 0) % TWO_32)
  {
    var c := if low + l >= TWO_32 then 1 else 0;
    var low', high' := low + l - c * TWO_32, high + h + c;
    var d := if high' >= TWO_32 then 1 else 0;
    assert Joined(low, high) + Joined(l, h) == d * TWO_64 + Joined(low', high' - d * TWO_32);
    ModUnique(Joined(low, high) + Joined(l, h), TWO_64, d, Joined(low', high' - d * TWO_32));
  }
}

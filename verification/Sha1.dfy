/** Incremental SHA-1: its split bit counter and its padding. */
module Sha1 {
  import opened BitCounter
  import opened CTypes
  import opened Digest
  import opened Sha1Transform

  const IV := Words(0x67452301, 0xefcdab89, 0x98badcfe, 0x10325476, 0xc3d2e1f0)

  /** The compression function as a core. */
  function Sha1Core(): Core<Words> {
    Core((h, block) => if |block| == 64 then Compress(h, block) else h)
  }

  // ---- The bit counter ----

  /** How SHA1_Update counts: the carry test compares a 32-bit sum with the 64-bit number of new bits. */
  function Counted(low: nat, high: nat, octets: nat): (r: (nat, nat))
    requires low < TWO_32 && high < TWO_32
    ensures r.0 < TWO_32 && r.1 < TWO_32
  {
    var bits := BitLength(octets);
    var low' := (low + bits % TWO_32) % TWO_32;
    var carried := if low' < bits then (high + 1) % TWO_32 else high;
    (low', (carried + octets / 0x2000_0000 % TWO_32) % TWO_32)
  }

  /** Whether the carry test tells the truth: the chunk is below 2^29 octets, modulo 2^61, or its bits
      do carry. */
  predicate CarryTold(low: nat, octets: nat) {
    BitLength(octets) < TWO_32 || low + BitLength(octets) % TWO_32 >= TWO_32
  }

  /** The counter stays right exactly when the carry test tells the truth. */
  lemma CountedRight(low: nat, high: nat, octets: nat, before: nat)
    requires low < TWO_32 && high < TWO_32 && Joined(low, high) == BitLength(before)
    ensures var r := Counted(low, high, octets);
            && r.0 == BitLength(before + octets) % TWO_32
            && (Joined(r.0, r.1) == BitLength(before + octets) <==> CarryTold(low, octets))
  {
    BitWords(octets);
    BitLengthAdds(before, octets);
    var l, h := 8 * (octets % 0x2000_0000), octets / 0x2000_0000 % TWO_32;
    var carry := if low + l >= TWO_32 then 1 else 0;
    var counted := if (low + l) % TWO_32 < Joined(l, h) then 1 else 0;
    hide BitLength, Joined;
    JoinedAdds(low, high, l, h);
    JoinedParts(l, h);
    HighWord(high, h, counted, carry);
    var low', right := (low + l) % TWO_32, (high + h + carry) % TWO_32;
    JoinedParts(low', right);
    JoinedParts(low', ((high + counted) % TWO_32 + h) % TWO_32);
    assert counted == carry <==> CarryTold(low, octets) by { CarryTest(low, l, h); }
  }

  lemma HighWord(high: nat, h: nat, counted: nat, carry: nat)
    requires high < TWO_32 && h < TWO_32 && counted <= 1 && carry <= 1
    ensures ((high + counted) % TWO_32 + h) % TWO_32 == (high + h + carry) % TWO_32 <==> counted == carry
  {}

  /** The test of SHA1_Update on the words of the new bits. */
  lemma CarryTest(low: nat, l: nat, h: nat)
    requires low < TWO_32 && l < TWO_32
    ensures ((low + l) % TWO_32 < Joined(l, h) <==> low + l >= TWO_32) <==> (h == 0 || low + l >= TWO_32)
  {}

  /** A single chunk of 2^29 octets is counted as 2^33 bits, twice what it has. */
  lemma LargeChunkMiscounted()
    ensures !CarryTold(0, 0x2000_0000)
    ensures Joined(Counted(0, 0, 0x2000_0000).0, Counted(0, 0, 0x2000_0000).1) == 0x2_0000_0000
    ensures BitLength(0x2000_0000) == 0x1_0000_0000
  {}

  // ---- The digest ----

  /** The five words of a digest, each with its most significant octet first. */
  function DigestWords(d: Octets): Words
    requires |d| == 20
  {
    Words(BigEndian(d, 0), BigEndian(d, 4), BigEndian(d, 8), BigEndian(d, 12), BigEndian(d, 16))
  }

  function Nth(w: Words, i: nat): bv32
    requires i < 5
  {
    if i == 0 then w.a else if i == 1 then w.b else if i == 2 then w.c else if i == 3 then w.d else w.e
  }

  /** An octet of a word, the most significant one being the first. */
  function OctetOf(x: bv32, k: nat): bv8
    requires k < 4
  {
    if k == 0 then (x >> 24) as bv8 else if k == 1 then ((x >> 16) & 255) as bv8
    else if k == 2 then ((x >> 8) & 255) as bv8 else (x & 255) as bv8
  }

  lemma OctetsOf(x: bv32)
    ensures WordOf(OctetOf(x, 0), OctetOf(x, 1), OctetOf(x, 2), OctetOf(x, 3)) == x
  {}

  lemma WordRead(d: Octets, i: nat, x: bv32)
    requires i + 4 <= |d| && forall k :: 0 <= k < 4 ==> d[i + k] == OctetOf(x, k)
    ensures BigEndian(d, i) == x
  {
    OctetsOf(x);
    hide OctetOf, WordOf;
  }

  lemma NthReads(d: Octets, state: Words, j: nat)
    requires |d| == 20 && j < 5 && forall k :: 0 <= k < 20 ==> d[k] == OctetOf(Nth(state, k / 4), k % 4)
    ensures BigEndian(d, 4 * j) == Nth(state, j)
  {
    hide OctetOf, BigEndian, Nth;
    forall k | 0 <= k < 4
      ensures d[4 * j + k] == OctetOf(Nth(state, j), k)
    {
      assert (4 * j + k) / 4 == j && (4 * j + k) % 4 == k;
    }
    WordRead(d, 4 * j, Nth(state, j));
  }

  lemma DigestReads(d: Octets, state: Words)
    requires |d| == 20 && forall k :: 0 <= k < 20 ==> d[k] == OctetOf(Nth(state, k / 4), k % 4)
    ensures DigestWords(d) == state
  {
    hide OctetOf, BigEndian;
    NthReads(d, state, 0);
    NthReads(d, state, 1);
    NthReads(d, state, 2);
    NthReads(d, state, 3);
    NthReads(d, state, 4);
  }

  /** The end of SHA1_Final. */
  method WriteDigest(state: Words) returns (digest: array<bv8>)
    ensures fresh(digest) && digest.Length == 20 && DigestWords(digest[..]) == state
  {
    hide OctetOf, DigestWords, Nth;
    digest := new bv8[20];
    var i := 0;
    while i < 20
      invariant 0 <= i <= 20
      invariant forall k :: 0 <= k < i ==> digest[k] == OctetOf(Nth(state, k / 4), k % 4)
    {
      digest[i] := OctetOf(Nth(state, i / 4), i % 4);
      i := i + 1;
    }
    assert digest[..] == digest[..i];
    DigestReads(digest[..], state);
  }

  // ---- The context ----

  /** The octets of the counter, most significant first. */
  function LengthOctets(low: nat, high: nat): (r: Octets)
    requires low < TWO_32 && high < TWO_32
    ensures |r| == 8
  {
    WordOctets(high) + WordOctets(low)
  }

  function WordOctets(w: nat): (r: Octets)
    requires w < TWO_32
    ensures |r| == 4
  {
    [(w / 0x100_0000) as bv8, (w / 0x1_0000 % 0x100) as bv8, (w / 0x100 % 0x100) as bv8, (w % 0x100) as bv8]
  }

  /** Read most significant first, they are the count. */
  lemma LengthReads(low: nat, high: nat)
    requires low < TWO_32 && high < TWO_32
    ensures MostFirst(LengthOctets(low, high)) == Joined(low, high)
  {
    assert MostFirst([]) == 0;
    hide WordOctets, MostFirst;
    WordBehind([], high);
    WordBehind(WordOctets(high), low);
    assert [] + WordOctets(high) == WordOctets(high);
  }

  lemma WordReads(w: nat)
    requires w < TWO_32
    ensures var s := WordOctets(w);
            w == ((s[0] as nat * 0x100 + s[1] as nat) * 0x100 + s[2] as nat) * 0x100 + s[3] as nat
  {
    var a, b, c := w / 0x100, w / 0x1_0000, w / 0x100_0000;
    Octet(w % 0x100);
    Octet(a % 0x100);
    Octet(b % 0x100);
    Octet(c);
    Bytes(w);
  }

  lemma WordBehind(s: Octets, n: nat)
    requires n < TWO_32
    ensures MostFirst(s + WordOctets(n)) == MostFirst(s) * TWO_32 + n
  {
    WordReads(n);
    hide MostFirst, WordOctets;
    FourMore(s, WordOctets(n));
  }

  lemma FourMore(s: Octets, w: Octets)
    requires |w| == 4
    ensures MostFirst(s + w) == MostFirst(s) * 0x1_0000_0000 +
                                (((w[0] as nat * 0x100 + w[1] as nat) * 0x100 + w[2] as nat) * 0x100 + w[3] as nat)
  {
    hide MostFirst;
    OneMore(s, w[0]);
    OneMore(s + [w[0]], w[1]);
    OneMore(s + [w[0]] + [w[1]], w[2]);
    OneMore(s + [w[0]] + [w[1]] + [w[2]], w[3]);
    assert s + [w[0]] + [w[1]] + [w[2]] + [w[3]] == s + w;
  }

  /** The digest of RFC 3174, for the given length field. */
  function DigestOf(m: Octets, length: Octets): Words
    requires |length| == 8
  {
    var p := Padded(m, length);
    Fold(Sha1Core(), IV, p, |p| / 64)
  }

  /** The digest RFC 3174 defines. */
  function Standard(m: Octets): Words {
    var bits := BitLength(|m|);
    DigestOf(m, LengthOctets(bits % TWO_32, bits / TWO_32))
  }

  /** The digest is the fold over the one message that is padded as section 4 of RFC 3174 asks: its last eight
      octets, most significant first, are the number of bits. */
  lemma StandardPadding(m: Octets, p: Octets)
    requires PadsTo(m, p) && MostFirst(p[|p| - 8..]) == BitLength(|m|)
    ensures Standard(m) == Fold(Sha1Core(), IV, p, |p| / 64)
  {
    hide Fold, Sha1Core, LengthOctets, Padding, MostFirst;
    var bits, length := BitLength(|m|), p[|p| - 8..];
    var octets := LengthOctets(bits % TWO_32, bits / TWO_32);
    PaddedOnce(m, p);
    LengthReads(bits % TWO_32, bits / TWO_32);
    MostFirstOnce(length, octets);
  }

  lemma HoldsSplit(core: Core<Words>, start: Words, m: Octets, state: Words, buffer: Octets)
    requires Holds(core, start, m, state, buffer)
    ensures |buffer| == 64
  {}

  lemma ContextStarts(buffer: Octets)
    requires |buffer| == 64
    ensures Holds(Sha1Core(), IV, [], IV, buffer) && BitLength(0) == 0 == Joined(0, 0)
  {
    hide Fold, Compress;
    HoldsNothing(Sha1Core(), IV, buffer);
  }

  lemma AbsorbFirst(m: Octets, data: Octets, state: Words, buffer: Octets, filled: Octets)
    requires Holds(Sha1Core(), IV, m, state, buffer) && |m| % 64 + |data| >= 64
    requires |filled| == 64 && filled[..|m| % 64] == buffer[..|m| % 64] && filled[|m| % 64..] == data[..64 - |m| % 64]
    ensures Fold(Sha1Core(), IV, m + data, |m| / 64 + 1) == Compress(state, filled)
  {
    hide Holds, Fold, Compress;
    FirstBlock(Sha1Core(), IV, m, data, state, buffer, filled);
  }

  lemma AbsorbNext(m: Octets, data: Octets, state: Words, n: nat, i: nat)
    requires 64 * n == |m| + i && i + 64 <= |data| && state == Fold(Sha1Core(), IV, m + data, n)
    ensures Fold(Sha1Core(), IV, m + data, n + 1) == Compress(state, data[i..i + 64])
  {
    hide Fold, Compress;
    DataBlock(Sha1Core(), IV, m, data, n, i);
  }

  class Context {
    var state: Words
    var low: nat
    var high: nat
    const buffer: array<bv8>
    /** Everything that has been hashed. */
    ghost var message: Octets

    /** SHA1_Init. */
    constructor ()
      ensures Valid() && fresh(buffer) && message == [] && CountExact()
    {
      hide Holds, Fold, Compress, Sha1Core, BitLength, Joined;
      state := IV;
      low, high := 0, 0;
      buffer := new bv8[64];
      message := [];
      new;
      ContextStarts(buffer[..]);
      assert message == [] && state == IV && low == 0 && high == 0;
    }

    ghost predicate Valid()
      reads this, buffer
    {
      && low < TWO_32 && high < TWO_32 && low == BitLength(|message|) % TWO_32
      && Holds(Sha1Core(), IV, message, state, buffer[..])
    }

    /** The counter is the number of bits hashed, modulo 2^64. */
    ghost predicate CountExact()
      reads this
    {
      Joined(low, high) == BitLength(|message|)
    }

    /** SHA1_Update. */
    method Update(data: Octets)
      requires Valid() && |data| < TWO_64 / 2
      modifies this, buffer
      ensures Valid() && message == old(message) + data
      ensures (low, high) == Counted(old(low), old(high), |data|)
      ensures old(CountExact()) ==> (CountExact() <==> CarryTold(old(low), |data|))
    {
      var j := low / 8 % 64;
      Position(|message|);
      if old(CountExact()) { CountedRight(low, high, |data|, |message|); }
      LowRight(|data|, |message|);
      Count(|data|);
      Absorb(data, j);
    }

    /** The counting of SHA1_Update. */
    method Count(len: nat)
      requires low < TWO_32 && high < TWO_32 && len < TWO_64 / 2
      modifies `low, `high
      ensures (low, high) == Counted(old(low), old(high), len)
    {
      var bits := 8 * len % TWO_64;
      low := (low + bits % TWO_32) % TWO_32;
      if low < bits {
        high := (high + 1) % TWO_32;
      }
      high := (high + len / 0x2000_0000 % TWO_32) % TWO_32;
    }

    /** The copying and transforming of SHA1_Update. */
    method Absorb(data: Octets, j: nat)
      requires j == |message| % 64 && Holds(Sha1Core(), IV, message, state, buffer[..])
      modifies `state, `message, buffer
      ensures message == old(message) + data && Holds(Sha1Core(), IV, message, state, buffer[..])
    {
      hide Fold, Compress, Holds, Sha1Core;
      ghost var core, before := Sha1Core(), buffer[..];
      HoldsSplit(core, IV, message, state, before);
      if j + |data| > 63 {
        var i := 64 - j;
        CopyIn(buffer, j, data[..i]);
        AbsorbFirst(message, data, state, before, buffer[..]);
        state := Transform(state, buffer[..]);
        i := FullBlocks(data, i);
        CopyIn(buffer, 0, data[i..]);
        LastPart(core, IV, message, data, (|message| + i) / 64, i, state, buffer[..]);
      } else {
        CopyIn(buffer, j, data);
        NoBlock(core, IV, message, data, state, before, buffer[..]);
      }
      message := message + data;
    }

    /** The loop over the blocks within the data. */
    method FullBlocks(data: Octets, start: nat) returns (i: nat)
      requires start <= |data| && (|message| + start) % 64 == 0
      requires state == Fold(Sha1Core(), IV, message + data, (|message| + start) / 64)
      modifies `state
      ensures start <= i <= |data| < i + 64 && (|message| + i) % 64 == 0
      ensures state == Fold(Sha1Core(), IV, message + data, (|message| + i) / 64)
    {
      hide Fold, Compress, Sha1Core;
      i := start;
      ghost var n := (|message| + start) / 64;
      while i + 63 < |data|
        invariant start <= i <= |data| && 64 * n == |message| + i
        invariant state == Fold(Sha1Core(), IV, message + data, n)
      {
        AbsorbNext(message, data, state, n, i);
        state := Transform(state, data[i..i + 64]);
        i, n := i + 64, n + 1;
      }
    }

    /** SHA1_Final: the counter is taken before the padding changes it. */
    method Final() returns (digest: array<bv8>)
      requires Valid()
      modifies this, buffer
      ensures fresh(digest) && digest.Length == 20
      ensures DigestWords(digest[..]) == DigestOf(old(message), LengthOctets(old(low), old(high)))
      ensures old(CountExact()) ==> DigestWords(digest[..]) == Standard(old(message))
    {
      hide DigestOf, LengthOctets, BitLength, Joined, Fold, Holds, Padding, Sha1Core, Counted;
      ghost var m := message;
      if CountExact() { CountedStandard(low, high, m); }
      var finalcount := LengthOctets(low, high);
      Update([0x80]);
      ghost var k := 0;
      assert message == m + [0x80] + Zeros(0);
      Position(|message|);
      while low / 8 % 64 != 56
        invariant Valid() && k <= (119 - |m| % 64) % 64
        invariant message == m + [0x80] + Zeros(k) && low / 8 % 64 == |message| % 64
        decreases 64 - k
      {
        PaddingMore(m, k);
        Update([0]);
        k := k + 1;
        Position(|message|);
      }
      PaddingReached(m, k);
      Update(finalcount);
      HoldsWhole(Sha1Core(), IV, message, state, buffer[..]);
      assert message == Padded(m, finalcount);
      DigestIs(m, finalcount);
      digest := WriteDigest(state);
    }
  }

  lemma DigestIs(m: Octets, length: Octets)
    requires |length| == 8
    ensures DigestOf(m, length) == Fold(Sha1Core(), IV, Padded(m, length), |Padded(m, length)| / 64)
  {}

  /** An exact counter gives the standard length field. */
  lemma CountedStandard(low: nat, high: nat, m: Octets)
    requires low < TWO_32 && high < TWO_32 && Joined(low, high) == BitLength(|m|)
    ensures Standard(m) == DigestOf(m, LengthOctets(low, high))
  {
    hide DigestOf, LengthOctets;
    JoinedParts(low, high);
  }

  function Concat(chunks: seq<Octets>): Octets {
    if chunks == [] then [] else Concat(chunks[..|chunks| - 1]) + chunks[|chunks| - 1]
  }

  /** However a message is split into chunks below 2^29 octets, its digest is the one RFC 3174 defines. */
  method HashChunks(chunks: seq<Octets>) returns (digest: array<bv8>)
    requires forall i :: 0 <= i < |chunks| ==> |chunks[i]| < 0x2000_0000
    ensures digest.Length == 20 && DigestWords(digest[..]) == Standard(Concat(chunks))
  {
    hide Standard, Counted, CarryTold, Holds, Fold, Compress, BitLength, Sha1Core, DigestOf, LengthOctets;
    var context := new Context();
    var i := 0;
    while i < |chunks|
      invariant 0 <= i <= |chunks| && context.Valid() && context.CountExact() && fresh(context) && fresh(context.buffer)
      invariant context.message == Concat(chunks[..i])
    {
      SmallChunk(context.low, |chunks[i]|);
      assert chunks[..i + 1][..i] == chunks[..i];
      context.Update(chunks[i]);
      i := i + 1;
    }
    assert chunks[..i] == chunks;
    digest := context.Final();
  }

  lemma SmallChunk(low: nat, octets: nat)
    requires octets < 0x2000_0000
    ensures CarryTold(low, octets)
  {}
}

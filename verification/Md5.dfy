/** Incremental MD5, RFC 1321. */
module Md5 {
  import opened BitCounter
  import opened CTypes
  import opened Digest
  import opened Md5Transform

  const IV := Abcd(0x67452301, 0xefcdab89, 0x98badcfe, 0x10325476)

  const INT_MAX: int := 0x7FFF_FFFF

  /** The compression function as a core. */
  function Md5Core(): Core<Abcd> {
    Core((h, block) => if |block| == 64 then Compress(h, block) else h)
  }

  // ---- The bit counter ----

  /** How md5_append counts. */
  function Counted(low: nat, high: nat, octets: nat): (r: (nat, nat))
    requires low < TWO_32 && high < TWO_32
    ensures r.0 < TWO_32 && r.1 < TWO_32
  {
    var bits := 8 * octets % TWO_32;
    var high' := (high + octets / 0x2000_0000) % TWO_32;
    var low' := (low + bits) % TWO_32;
    (low', if low' < bits then (high' + 1) % TWO_32 else high')
  }

  /** It is right for every chunk an int can count. */
  lemma CountedRight(low: nat, high: nat, octets: nat, before: nat)
    requires low < TWO_32 && high < TWO_32 && Joined(low, high) == BitLength(before) && octets <= INT_MAX
    ensures var r := Counted(low, high, octets); Joined(r.0, r.1) == BitLength(before + octets)
  {
    hide BitLength, Joined;
    var l, h := 8 * (octets % 0x2000_0000), octets / 0x2000_0000;
    var carry := if low + l >= TWO_32 then 1 else 0;
    IntBits(octets);
    BitLengthAdds(before, octets);
    JoinedAdds(low, high, l, h);
    HighWord(high, h, carry);
  }

  lemma IntBits(octets: nat)
    requires octets <= INT_MAX
    ensures var l, h := 8 * (octets % 0x2000_0000), octets / 0x2000_0000;
            && l < TWO_32 && h < TWO_32 && BitLength(octets) == Joined(l, h) && 8 * octets % TWO_32 == l
  {
    BitWords(octets);
    ModUnique(8 * octets, TWO_32, octets / 0x2000_0000, 8 * (octets % 0x2000_0000));
  }

  lemma HighWord(high: nat, h: nat, carry: nat)
    requires high < TWO_32 && h < TWO_32 && carry <= 1
    ensures ((high + h) % TWO_32 + carry) % TWO_32 == (high + h + carry) % TWO_32
  {}

  // ---- Padding ----

  /** The octets of the counter, least significant first. */
  function LengthOctets(low: nat, high: nat): (r: Octets)
    requires low < TWO_32 && high < TWO_32
    ensures |r| == 8
  {
    WordOctets(low) + WordOctets(high)
  }

  function WordOctets(w: nat): (r: Octets)
    requires w < TWO_32
    ensures |r| == 4
  {
    [(w % 0x100) as bv8, (w / 0x100 % 0x100) as bv8, (w / 0x1_0000 % 0x100) as bv8, (w / 0x100_0000) as bv8]
  }

  /** Read least significant first, they are the count. */
  lemma LengthReads(low: nat, high: nat)
    requires low < TWO_32 && high < TWO_32
    ensures LeastFirst(LengthOctets(low, high)) == Joined(low, high)
  {
    assert LeastFirst([]) == 0;
    hide WordOctets, LeastFirst;
    WordBefore(low, WordOctets(high));
    WordBefore(high, []);
    assert WordOctets(high) + [] == WordOctets(high);
  }

  lemma WordReads(w: nat)
    requires w < TWO_32
    ensures var s := WordOctets(w);
            w == ((s[3] as nat * 0x100 + s[2] as nat) * 0x100 + s[1] as nat) * 0x100 + s[0] as nat
  {
    var a, b, c := w / 0x100, w / 0x1_0000, w / 0x100_0000;
    Octet(w % 0x100);
    Octet(a % 0x100);
    Octet(b % 0x100);
    Octet(c);
    Bytes(w);
  }

  lemma WordBefore(n: nat, s: Octets)
    requires n < TWO_32
    ensures LeastFirst(WordOctets(n) + s) == n + LeastFirst(s) * TWO_32
  {
    var w := WordOctets(n);
    WordReads(n);
    hide LeastFirst, WordOctets;
    OneBefore(w[3], s);
    OneBefore(w[2], [w[3]] + s);
    OneBefore(w[1], [w[2]] + ([w[3]] + s));
    OneBefore(w[0], [w[1]] + ([w[2]] + ([w[3]] + s)));
    assert [w[0]] + ([w[1]] + ([w[2]] + ([w[3]] + s))) == w + s;
  }

  /** The 64 octets of which the padding is a prefix. */
  function Pad(): (r: Octets)
    ensures |r| == 64
  {
    [0x80] + Zeros(63)
  }

  /** How much of them is taken: the subtraction wraps around in unsigned arithmetic. */
  function PadLength(low: nat): nat {
    (55 - low / 8) % 64 + 1
  }

  lemma PadIsPadding(octets: nat, low: nat)
    requires low == BitLength(octets) % TWO_32
    ensures 1 <= PadLength(low) <= 64 && Pad()[..PadLength(low)] == Padding(octets)
  {
    Position(octets);
    assert low / 8 % 64 == octets % 64;
    assert Pad()[..PadLength(low)] == [0x80] + Zeros(PadLength(low) - 1);
  }

  /** The digest of RFC 1321. */
  function Standard(m: Octets): Abcd {
    var bits := BitLength(|m|);
    var p := Padded(m, LengthOctets(bits % TWO_32, bits / TWO_32));
    Fold(Md5Core(), IV, p, |p| / 64)
  }

  /** The digest is the fold over the one message that is padded as sections 3.1 and 3.2 of RFC 1321 ask: its last
      eight octets, least significant first, are the number of bits. */
  lemma StandardPadding(m: Octets, p: Octets)
    requires PadsTo(m, p) && LeastFirst(p[|p| - 8..]) == BitLength(|m|)
    ensures Standard(m) == Fold(Md5Core(), IV, p, |p| / 64)
  {
    hide Fold, LengthOctets, Padding, LeastFirst;
    var bits, length := BitLength(|m|), p[|p| - 8..];
    var octets := LengthOctets(bits % TWO_32, bits / TWO_32);
    PaddedOnce(m, p);
    LengthReads(bits % TWO_32, bits / TWO_32);
    LeastFirstOnce(length, octets);
  }

  /** The registers start with the octets 01 to ef and fe to 10, least significant first. */
  lemma RegistersStart()
    ensures [IV.a, IV.b, IV.c, IV.d] == [
              LittleEndian(0x01, 0x23, 0x45, 0x67), LittleEndian(0x89, 0xab, 0xcd, 0xef),
              LittleEndian(0xfe, 0xdc, 0xba, 0x98), LittleEndian(0x76, 0x54, 0x32, 0x10)]
  {}

  /** It keeps the low 32 bits, and takes them for a signed number. */
  lemma AsIntIs(len: nat)
    ensures -0x8000_0000 <= AsInt(len) <= 0x7FFF_FFFF && (len - AsInt(len)) % TWO_32 == 0
  {}

  // ---- The digest ----

  /** The registers a digest holds, each with its least significant octet first. */
  function DigestWords(d: Octets): Abcd
    requires |d| == 16
  {
    Abcd(WordAt(d, 0), WordAt(d, 4), WordAt(d, 8), WordAt(d, 12))
  }

  function Nth(w: Abcd, i: nat): bv32
    requires i < 4
  {
    if i == 0 then w.a else if i == 1 then w.b else if i == 2 then w.c else w.d
  }

  /** An octet of a register, the least significant one being the first. */
  function OctetOf(x: bv32, k: nat): bv8
    requires k < 4
  {
    if k == 0 then (x & 255) as bv8 else if k == 1 then ((x >> 8) & 255) as bv8
    else if k == 2 then ((x >> 16) & 255) as bv8 else (x >> 24) as bv8
  }

  lemma OctetsOf(x: bv32)
    ensures LittleEndian(OctetOf(x, 0), OctetOf(x, 1), OctetOf(x, 2), OctetOf(x, 3)) == x
  {}

  lemma WordRead(d: Octets, i: nat, x: bv32)
    requires i + 4 <= |d| && forall k :: 0 <= k < 4 ==> d[i + k] == OctetOf(x, k)
    ensures WordAt(d, i) == x
  {
    OctetsOf(x);
    hide OctetOf, LittleEndian;
  }

  lemma NthReads(d: Octets, state: Abcd, j: nat)
    requires |d| == 16 && j < 4 && forall k :: 0 <= k < 16 ==> d[k] == OctetOf(Nth(state, k / 4), k % 4)
    ensures WordAt(d, 4 * j) == Nth(state, j)
  {
    hide OctetOf, WordAt, Nth;
    forall k | 0 <= k < 4
      ensures d[4 * j + k] == OctetOf(Nth(state, j), k)
    {
      assert (4 * j + k) / 4 == j && (4 * j + k) % 4 == k;
    }
    WordRead(d, 4 * j, Nth(state, j));
  }

  lemma DigestReads(d: Octets, state: Abcd)
    requires |d| == 16 && forall k :: 0 <= k < 16 ==> d[k] == OctetOf(Nth(state, k / 4), k % 4)
    ensures DigestWords(d) == state
  {
    hide OctetOf, WordAt;
    NthReads(d, state, 0);
    NthReads(d, state, 1);
    NthReads(d, state, 2);
    NthReads(d, state, 3);
  }

  /** The end of md5_finish. */
  method WriteDigest(state: Abcd) returns (digest: array<bv8>)
    ensures fresh(digest) && digest.Length == 16 && DigestWords(digest[..]) == state
  {
    hide OctetOf, DigestWords, Nth;
    digest := new bv8[16];
    var i := 0;
    while i < 16
      invariant 0 <= i <= 16
      invariant forall k :: 0 <= k < i ==> digest[k] == OctetOf(Nth(state, k / 4), k % 4)
    {
      digest[i] := OctetOf(Nth(state, i / 4), i % 4);
      i := i + 1;
    }
    assert digest[..] == digest[..i];
    DigestReads(digest[..], state);
  }

  /** What an int makes of a size_t. */
  function AsInt(len: nat): int {
    var r := len % TWO_32;
    if r > INT_MAX then r - TWO_32 else r
  }

  /** How many octets of so many are appended. */
  function Kept(len: nat): (r: nat)
    ensures r <= len
  {
    if AsInt(len) > 0 then AsInt(len) else 0
  }

  lemma AbsorbFirst(m: Octets, data: Octets, state: Abcd, buffer: Octets, filled: Octets)
    requires Holds(Md5Core(), IV, m, state, buffer) && |m| % 64 + |data| >= 64
    requires |filled| == 64 && filled[..|m| % 64] == buffer[..|m| % 64] && filled[|m| % 64..] == data[..64 - |m| % 64]
    ensures Fold(Md5Core(), IV, m + data, |m| / 64 + 1) == Compress(state, filled)
  {
    hide Holds, Fold, Compress;
    FirstBlock(Md5Core(), IV, m, data, state, buffer, filled);
  }

  lemma AbsorbNext(m: Octets, data: Octets, state: Abcd, n: nat, i: nat)
    requires 64 * n == |m| + i && i + 64 <= |data| && state == Fold(Md5Core(), IV, m + data, n)
    ensures Fold(Md5Core(), IV, m + data, n + 1) == Compress(state, data[i..i + 64])
  {
    hide Fold, Compress;
    DataBlock(Md5Core(), IV, m, data, n, i);
  }

  class Context {
    var state: Abcd
    var low: nat
    var high: nat
    const buffer: array<bv8>
    ghost var message: Octets

    /** md5_init. */
    constructor ()
      ensures Valid() && fresh(buffer) && message == []
    {
      hide Holds, Fold, BitLength, Joined, Md5Core, Compress;
      state := IV;
      low, high := 0, 0;
      var b := new bv8[64];
      buffer := b;
      message := [];
      ContextStarts(b[..]);
    }

    ghost predicate Valid()
      reads this, buffer
    {
      && low < TWO_32 && high < TWO_32 && Joined(low, high) == BitLength(|message|)
      && Holds(Md5Core(), IV, message, state, buffer[..])
    }

    /** wstk_md5_update: the length is narrowed to an int, which drops all of it when negative. */
    method Update(data: Octets)
      requires Valid() && AsInt(|data|) <= INT_MAX - 63
      modifies this, buffer
      ensures Valid() && message == old(message) + data[..Kept(|data|)]
    {
      hide Holds, Fold, BitLength, Joined, Md5Core, Compress, AsInt;
      if AsInt(|data|) > 0 {
        Append(data[..Kept(|data|)]);
      }
      assert data[..0] == [] && message + [] == message;
    }

    /** md5_append; more octets than this overflow the int that adds the offset. */
    method Append(data: Octets)
      requires Valid() && |data| <= INT_MAX - 63
      modifies this, buffer
      ensures Valid() && message == old(message) + data
    {
      hide Holds, Fold, BitLength, Joined, Md5Core, Compress;
      if |data| == 0 {
        assert message + data == message;
        return;
      }
      var offset := low / 8 % 64;
      LowPosition(low, high, |message|);
      CountedRight(low, high, |data|, |message|);
      Count(|data|);
      Absorb(data, offset);
    }

    /** The counting of md5_append. */
    method Count(nbytes: nat)
      requires low < TWO_32 && high < TWO_32 && nbytes <= INT_MAX
      modifies `low, `high
      ensures (low, high) == Counted(old(low), old(high), nbytes)
    {
      var nbits := 8 * nbytes % TWO_32;
      high := (high + nbytes / 0x2000_0000) % TWO_32;
      low := (low + nbits) % TWO_32;
      if low < nbits {
        high := (high + 1) % TWO_32;
      }
    }

    /** The copying and processing of md5_append. */
    method Absorb(data: Octets, offset: nat)
      requires offset == |message| % 64 && Holds(Md5Core(), IV, message, state, buffer[..]) && data != []
      modifies `state, `message, buffer
      ensures message == old(message) + data && Holds(Md5Core(), IV, message, state, buffer[..])
    {
      hide Holds, Fold, Md5Core, Compress;
      ghost var before := buffer[..];
      HoldsSize(IV, message, state, before);
      var i := 0;
      if offset != 0 {
        var copy := if offset + |data| > 64 then 64 - offset else |data|;
        CopyIn(buffer, offset, data[..copy]);
        if offset + copy < 64 {
          assert data[..copy] == data;
          NoBlock(Md5Core(), IV, message, data, state, before, buffer[..]);
          message := message + data;
          return;
        }
        i := copy;
        AbsorbFirst(message, data, state, before, buffer[..]);
        state := Process(state, buffer[..]);
      } else {
        HoldsWhole(Md5Core(), IV, message, state, before);
        FoldPrefix(Md5Core(), IV, message, data, |message| / 64);
      }
      i := FullBlocks(data, i);
      if i < |data| {
        CopyIn(buffer, 0, data[i..]);
      }
      LastPart(Md5Core(), IV, message, data, (|message| + i) / 64, i, state, buffer[..]);
      message := message + data;
    }

    /** The loop over the blocks within the data. */
    method FullBlocks(data: Octets, start: nat) returns (i: nat)
      requires start <= |data| && (|message| + start) % 64 == 0
      requires state == Fold(Md5Core(), IV, message + data, (|message| + start) / 64)
      modifies `state
      ensures start <= i <= |data| < i + 64 && (|message| + i) % 64 == 0
      ensures state == Fold(Md5Core(), IV, message + data, (|message| + i) / 64)
    {
      hide Fold, Md5Core, Compress;
      i := start;
      ghost var n := (|message| + start) / 64;
      while |data| - i >= 64
        invariant start <= i <= |data| && 64 * n == |message| + i
        invariant state == Fold(Md5Core(), IV, message + data, n)
      {
        AbsorbNext(message, data, state, n, i);
        state := Process(state, data[i..i + 64]);
        i, n := i + 64, n + 1;
      }
    }

    /** md5_finish. */
    method Final() returns (digest: array<bv8>)
      requires Valid()
      modifies this, buffer
      ensures fresh(digest) && digest.Length == 16 && DigestWords(digest[..]) == Standard(old(message))
    {
      hide LengthOctets, Pad, PadLength, Padding, Fold, Holds, Standard, Md5Core, Compress;
      ghost var m := message;
      LowIs(low, high, |m|);
      PadIsPadding(|m|, low);
      StandardIs(m, low, high);
      hide BitLength, Joined;
      var length := LengthOctets(low, high);
      Append(Pad()[..PadLength(low)]);
      Append(length);
      assert message == Padded(m, length);
      HoldsWhole(Md5Core(), IV, message, state, buffer[..]);
      digest := WriteDigest(state);
    }
  }

  lemma HoldsSize(start: Abcd, m: Octets, state: Abcd, buffer: Octets)
    requires Holds(Md5Core(), start, m, state, buffer)
    ensures |buffer| == 64
  {}

  lemma ContextStarts(buffer: Octets)
    requires |buffer| == 64
    ensures Holds(Md5Core(), IV, [], IV, buffer) && BitLength(0) == 0 == Joined(0, 0)
  {
    HoldsNothing(Md5Core(), IV, buffer);
  }

  lemma LowIs(low: nat, high: nat, octets: nat)
    requires low < TWO_32 && Joined(low, high) == BitLength(octets)
    ensures low == BitLength(octets) % TWO_32 && high == BitLength(octets) / TWO_32
  {
    JoinedParts(low, high);
  }

  lemma LowPosition(low: nat, high: nat, octets: nat)
    requires low < TWO_32 && Joined(low, high) == BitLength(octets)
    ensures low / 8 % 64 == octets % 64
  {
    LowIs(low, high, octets);
    Position(octets);
  }

  lemma StandardIs(m: Octets, low: nat, high: nat)
    requires low < TWO_32 && high < TWO_32 && Joined(low, high) == BitLength(|m|)
    ensures var p := Padded(m, LengthOctets(low, high)); Standard(m) == Fold(Md5Core(), IV, p, |p| / 64)
  {
    hide LengthOctets, Padding, Fold, Md5Core, Compress;
    LowIs(low, high, |m|);
  }

  function Concat(chunks: seq<Octets>): Octets {
    if chunks == [] then [] else Concat(chunks[..|chunks| - 1]) + chunks[|chunks| - 1]
  }

  /** However a message is split into chunks an int can count, its digest is the one RFC 1321 defines. */
  method HashChunks(chunks: seq<Octets>) returns (digest: array<bv8>)
    requires forall i :: 0 <= i < |chunks| ==> |chunks[i]| <= INT_MAX - 63
    ensures digest.Length == 16 && DigestWords(digest[..]) == Standard(Concat(chunks))
  {
    hide Standard, Holds, Fold, BitLength, Joined, Md5Core, Compress;
    var context := new Context();
    var i := 0;
    while i < |chunks|
      invariant 0 <= i <= |chunks| && context.Valid() && fresh(context) && fresh(context.buffer)
      invariant context.message == Concat(chunks[..i])
    {
      assert chunks[..i + 1][..i] == chunks[..i];
      assert chunks[i][..|chunks[i]|] == chunks[i];
      context.Update(chunks[i]);
      i := i + 1;
    }
    assert chunks[..i] == chunks;
    digest := context.Final();
  }

  /** A chunk of 2^31 octets or more is dropped, or cut to what the low 32 bits of its length say. */
  lemma LongChunkCut(len: nat)
    requires len < TWO_64
    ensures Kept(len) == len <==> len <= INT_MAX
  {}
}

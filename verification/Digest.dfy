/**
  What the SHA-1 and MD5 streams share: the fold of a compression function over 64-octet blocks, the
  incomplete block that waits in a buffer, and the padding. The compression function is a parameter, so
  that nothing here depends on what it computes.
  
  `Holds` is the invariant of a stream; the lemmas say how the blocks of a longer message arise.
*/
module Digest {
  type Octets = seq<bv8>

  /** A compression function; only blocks of 64 octets reach it. */
  datatype Core<!S> = Core(process: (S, Octets) -> S)

  /** The state after the first n blocks of a message. */
  function Fold<S>(core: Core<S>, start: S, m: Octets, n: nat): S
    requires 64 * n <= |m|
  {
    if n == 0 then start else core.process(Fold(core, start, m, n - 1), m[64 * (n - 1)..64 * n])
  }

  /** Only the blocks themselves matter. */
  lemma {:induction false} FoldPrefix<S>(core: Core<S>, start: S, m: Octets, more: Octets, n: nat)
    requires 64 * n <= |m|
    ensures Fold(core, start, m + more, n) == Fold(core, start, m, n)
    decreases n
  {
    if n > 0 {
      FoldPrefix(core, start, m, more, n - 1);
      assert (m + more)[64 * (n - 1)..64 * n] == m[64 * (n - 1)..64 * n];
    }
  }

  lemma FoldNext<S>(core: Core<S>, start: S, m: Octets, n: nat)
    requires 64 * n + 64 <= |m|
    ensures Fold(core, start, m, n + 1) == core.process(Fold(core, start, m, n), m[64 * n..64 * n + 64])
  {}

  /** The blocks and the incomplete block a stream holds for a message. */
  ghost predicate Holds<S>(core: Core<S>, start: S, m: Octets, state: S, buffer: Octets) {
    && |buffer| == 64
    && state == Fold(core, start, m, |m| / 64)
    && buffer[..|m| % 64] == m[|m| / 64 * 64..]
  }

  lemma HoldsNothing<S>(core: Core<S>, start: S, buffer: Octets)
    requires |buffer| == 64
    ensures Holds(core, start, [], start, buffer)
  {}

  /** A whole number of blocks has gone into the state. */
  lemma HoldsWhole<S>(core: Core<S>, start: S, m: Octets, state: S, buffer: Octets)
    requires Holds(core, start, m, state, buffer)
    ensures state == Fold(core, start, m, |m| / 64)
  {}

  /** A block that is completed from the buffer. */
  lemma FirstBlock<S>(core: Core<S>, start: S, m: Octets, data: Octets, state: S, buffer: Octets, filled: Octets)
    requires Holds(core, start, m, state, buffer) && |m| % 64 + |data| >= 64
    requires |filled| == 64 && filled[..|m| % 64] == buffer[..|m| % 64] && filled[|m| % 64..] == data[..64 - |m| % 64]
    ensures Fold(core, start, m + data, |m| / 64 + 1) == core.process(state, filled)
  {
    hide Fold;
    FoldPrefix(core, start, m, data, |m| / 64);
    FoldNext(core, start, m + data, |m| / 64);
    FilledBlock(m, data, buffer, filled);
  }

  lemma FilledBlock(m: Octets, data: Octets, buffer: Octets, filled: Octets)
    requires |buffer| == 64 && buffer[..|m| % 64] == m[|m| / 64 * 64..] && |m| % 64 + |data| >= 64
    requires |filled| == 64 && filled[..|m| % 64] == buffer[..|m| % 64] && filled[|m| % 64..] == data[..64 - |m| % 64]
    ensures (m + data)[64 * (|m| / 64)..64 * (|m| / 64) + 64] == filled
  {
    var j := |m| % 64;
    assert filled == filled[..j] + filled[j..];
    BlockAcross(m, data, |m| / 64);
  }

  lemma BlockAcross(m: Octets, data: Octets, n: nat)
    requires 64 * n <= |m| < 64 * n + 64 <= |m| + |data|
    ensures (m + data)[64 * n..64 * n + 64] == m[64 * n..] + data[..64 * n + 64 - |m|]
  {}

  /** A block that is taken from the data. */
  lemma DataBlock<S>(core: Core<S>, start: S, m: Octets, data: Octets, n: nat, i: nat)
    requires 64 * n == |m| + i && i + 64 <= |data|
    ensures Fold(core, start, m + data, n + 1) == core.process(Fold(core, start, m + data, n), data[i..i + 64])
  {
    FoldNext(core, start, m + data, n);
    assert (m + data)[64 * n..64 * n + 64] == data[i..i + 64];
  }

  /** What is left over when all blocks are done. */
  lemma LastPart<S>(core: Core<S>, start: S, m: Octets, data: Octets, n: nat, i: nat, state: S, buffer: Octets)
    requires 64 * n == |m| + i && i <= |data| < i + 64 && state == Fold(core, start, m + data, n)
    requires |buffer| == 64 && buffer[..|data| - i] == data[i..]
    ensures Holds(core, start, m + data, state, buffer)
  {
    assert (m + data)[64 * n..] == data[i..];
  }

  /** Data that completes no block. */
  lemma NoBlock<S>(core: Core<S>, start: S, m: Octets, data: Octets, state: S, buffer: Octets, filled: Octets)
    requires Holds(core, start, m, state, buffer) && |m| % 64 + |data| < 64
    requires |filled| == 64 && filled[..|m| % 64] == buffer[..|m| % 64]
    requires filled[|m| % 64..|m| % 64 + |data|] == data
    ensures Holds(core, start, m + data, state, filled)
  {
    var n := |m| / 64;
    FoldPrefix(core, start, m, data, n);
    assert |m + data| / 64 == n;
    assert (m + data)[64 * n..] == m[64 * n..] + data;
    assert filled[..|m + data| % 64] == filled[..|m| % 64] + filled[|m| % 64..|m| % 64 + |data|];
  }

  // ---- Padding ----

  function Zeros(n: nat): (r: Octets)
    ensures |r| == n
  {
    seq(n, _ => 0)
  }

  /** The octets between a message and its length: a one bit, and zeros up to 56 octets modulo 64. */
  function Padding(length: nat): (r: Octets)
    ensures |r| >= 1 && (length + |r|) % 64 == 56
    ensures |r| <= 64
  {
    [0x80] + Zeros((119 - length % 64) % 64)
  }

  /** The padded message of RFC 3174 section 4 and RFC 1321 sections 3.1 and 3.2. */
  function Padded(m: Octets, length: Octets): (r: Octets)
    requires |length| == 8
    ensures |r| % 64 == 0
  {
    m + Padding(|m|) + length
  }

  /** The number octets stand for, the most significant one first. */
  function MostFirst(s: Octets): nat {
    if s == [] then 0 else MostFirst(s[..|s| - 1]) * 0x100 + s[|s| - 1] as nat
  }

  lemma OneMore(s: Octets, b: bv8)
    ensures MostFirst(s + [b]) == MostFirst(s) * 0x100 + b as nat
  {
    assert (s + [b])[..|s|] == s;
  }

  lemma {:induction false} MostFirstOnce(s: Octets, t: Octets)
    requires |s| == |t| && MostFirst(s) == MostFirst(t)
    ensures s == t
    decreases |s|
  {
    if s != [] {
      var n := |s| - 1;
      LastOctet(MostFirst(s[..n]), MostFirst(t[..n]), s[n], t[n]);
      MostFirstOnce(s[..n], t[..n]);
      assert s == s[..n] + [s[n]] && t == t[..n] + [t[n]];
    }
  }

  lemma LastOctet(x: nat, y: nat, b: bv8, c: bv8)
    requires x * 0x100 + b as nat == y * 0x100 + c as nat
    ensures x == y && b == c
  {
    assert (b as nat) as bv8 == b && (c as nat) as bv8 == c;
  }

  /** The number octets stand for, the least significant one first. */
  function LeastFirst(s: Octets): nat {
    if s == [] then 0 else s[0] as nat + LeastFirst(s[1..]) * 0x100
  }

  lemma OneBefore(b: bv8, s: Octets)
    ensures LeastFirst([b] + s) == b as nat + LeastFirst(s) * 0x100
  {
    assert ([b] + s)[1..] == s;
  }

  lemma {:induction false} LeastFirstOnce(s: Octets, t: Octets)
    requires |s| == |t| && LeastFirst(s) == LeastFirst(t)
    ensures s == t
    decreases |s|
  {
    if s != [] {
      LastOctet(LeastFirst(s[1..]), LeastFirst(t[1..]), s[0], t[0]);
      LeastFirstOnce(s[1..], t[1..]);
      assert s == [s[0]] + s[1..] && t == [t[0]] + t[1..];
    }
  }

  lemma Octet(x: nat)
    requires x < 0x100
    ensures (x as bv8) as nat == x
  {
    match x / 16
    case 0 => case 1 => case 2 => case 3 => case 4 => case 5 => case 6 => case 7 =>
    case 8 => case 9 => case 10 => case 11 => case 12 => case 13 => case 14 => case _ =>
  }

  lemma Bytes(w: nat)
    ensures w == ((w / 0x100_0000 * 0x100 + w / 0x1_0000 % 0x100) * 0x100 + w / 0x100 % 0x100) * 0x100 + w % 0x100
  {
    var a, b, c := w / 0x100, w / 0x1_0000, w / 0x100_0000;
    assert b == a / 0x100 && c == b / 0x100;
  }

  /** A message padded as both standards ask: a one bit, as few zeros as make the length 56 octets modulo 64, and
      eight octets more. */
  predicate PadsTo(m: Octets, p: Octets) {
    var zeros := |p| - |m| - 9;
    && 0 <= zeros < 64 && |p| % 64 == 0 && p[..|m|] == m && p[|m|] == 0x80
    && forall i :: |m| < i <= |m| + zeros ==> p[i] == 0
  }

  /** There is one way to pad, which Padded takes. */
  lemma PaddedOnce(m: Octets, p: Octets)
    requires PadsTo(m, p)
    ensures p == Padded(m, p[|p| - 8..])
  {
    var zeros := |p| - |m| - 9;
    assert zeros == (119 - |m| % 64) % 64;
    var q := Padded(m, p[|p| - 8..]);
    assert |q| == |p|;
    forall i | 0 <= i < |p|
      ensures p[i] == q[i]
    {
      if i < |m| {
        assert p[i] == p[..|m|][i];
      } else if i >= |p| - 8 {
        assert p[i] == p[|p| - 8..][i - (|p| - 8)];
      }
    }
  }

  lemma PaddedPads(m: Octets, length: Octets)
    requires |length| == 8
    ensures var p := Padded(m, length); PadsTo(m, p) && p[|p| - 8..] == length
  {}

  /** Zeros appended one by one make up the padding when 56 octets modulo 64 are reached. */
  lemma PaddingReached(m: Octets, k: nat)
    requires k <= (119 - |m| % 64) % 64 && (|m| + 1 + k) % 64 == 56
    ensures m + [0x80] + Zeros(k) == m + Padding(|m|)
  {}

  lemma PaddingMore(m: Octets, k: nat)
    requires k <= (119 - |m| % 64) % 64 && (|m| + 1 + k) % 64 != 56
    ensures k + 1 <= (119 - |m| % 64) % 64
    ensures m + [0x80] + Zeros(k) + [0] == m + [0x80] + Zeros(k + 1)
  {
    assert Zeros(k) + [0] == Zeros(k + 1);
    assert m + [0x80] + Zeros(k) + [0] == m + [0x80] + (Zeros(k) + [0]);
  }

  /** memcpy. */
  method CopyIn(buffer: array<bv8>, at: nat, data: Octets)
    requires at + |data| <= buffer.Length
    modifies buffer
    ensures buffer[..] == old(buffer[..at]) + data + old(buffer[at + |data|..])
  {
    forall k | 0 <= k < |data| {
      buffer[at + k] := data[k];
    }
  }
}

/**
  What becomes of member names that do not survive decoding in place: which characters change, and why
  decoding again and again comes to an end.
*/
module JsonPatchDecode {
  import opened CTypes
  import opened Names
  import opened Numerals
  import opened JsonPointer
  import opened JsonPatch
  import opened JsonPatchLaws

  /** Character i of a name that has been encoded and decoded in place. */
  function DecodedChar(name: cstring, i: nat): cchar
    requires i < |name| <= |Encode(name)|
  {
    if name[i] == TILDE then TILDE
    else if i > 0 && name[i - 1] == SLASH then SLASH
    else Encode(name)[i]
  }

  /** What the buffer holds from position d on while decoding is there. */
  predicate Decoding(name: cstring, buf: cstring, d: nat) {
    && d <= |name| <= |Encode(name)| == |buf|
    && (forall i :: d < i < |buf| ==> buf[i] == Encode(name)[i])
    && (d < |buf| ==> buf[d] == if d > 0 && name[d - 1] == SLASH then SLASH else Encode(name)[d])
  }

  lemma {:induction false} DecodedFrom(name: cstring, buf: cstring, d: nat, s: nat)
    requires d <= s <= |buf| && d <= |name| && buf[s..] == Encode(name[d..]) && Decoding(name, buf, d)
    ensures |DecodeFrom(buf, d, s)| == |name|
    ensures forall i :: d <= i < |name| ==> DecodeFrom(buf, d, s)[i] == DecodedChar(name, i)
    decreases |name| - d
  {
    DecodeKeepsPrefix(buf, d, s, name);
    if d < |name| {
      var buf', s' := DecodeStep(buf, d, s, name);
      hide Encode, DecodeFrom;
      DecodedFrom(name, buf', d + 1, s');
    }
  }

  lemma DecodedAt(name: cstring)
    ensures |Decoded(name)| == |name| <= |Encode(name)|
    ensures forall i :: 0 <= i < |name| ==> Decoded(name)[i] == DecodedChar(name, i)
  {
    hide DecodeFrom;
    EncodeLonger(name);
    var e := Encode(name);
    assert e[0..] == e && name[0..] == name;
    DecodedFrom(name, e, 0, 0);
  }

  lemma {:induction false} EncodeAppend(x: cstring, y: cstring)
    ensures Encode(x + y) == Encode(x) + Encode(y)
    decreases |x|
  {
    if x == [] {
      assert x + y == y;
    } else {
      assert (x + y)[1..] == x[1..] + y;
      EncodeAppend(x[1..], y);
    }
  }

  predicate Special(c: cchar) { c == SLASH || c == TILDE }

  lemma {:induction false} EncodeShifts(x: cstring, k: nat)
    requires k < |x| && Special(x[k])
    ensures |Encode(x)| > |x|
    decreases |x|
  {
    EncodeLonger(x[1..]);
    if !Special(x[0]) { EncodeShifts(x[1..], k - 1); }
  }

  /** Behind a special character, what a character decodes to is either a tilde, if it is one, or
      depends only on what stands before it. */
  lemma DecodedByPrefix(n: cstring, m: cstring, p: nat, k: nat)
    requires k < p < |n| && p < |m| && n[..p] == m[..p] && Special(n[k]) && n[p] != TILDE && m[p] != TILDE
    ensures |n| <= |Encode(n)| && |m| <= |Encode(m)| && DecodedChar(n, p) == DecodedChar(m, p)
  {
    hide Encode;
    EncodeLonger(n);
    EncodeLonger(m);
    assert n == n[..p] + n[p..] && m == m[..p] + m[p..];
    EncodeAppend(n[..p], n[p..]);
    EncodeAppend(m[..p], m[p..]);
    EncodeShifts(n[..p], k);
    assert n[p - 1] == n[..p][p - 1] == m[..p][p - 1] == m[p - 1];
  }

  /** What a character decodes to depends on the name up to it. */
  lemma DecodedByStart(n: cstring, m: cstring, p: nat)
    requires p < |n| && p < |m| && n[..p + 1] == m[..p + 1]
    ensures |n| <= |Encode(n)| && |m| <= |Encode(m)| && DecodedChar(n, p) == DecodedChar(m, p)
  {
    hide Encode;
    EncodeLonger(n);
    EncodeLonger(m);
    assert n == n[..p + 1] + n[p + 1..] && m == m[..p + 1] + m[p + 1..];
    EncodeAppend(n[..p + 1], n[p + 1..]);
    EncodeAppend(m[..p + 1], m[p + 1..]);
    EncodeLonger(n[..p + 1]);
    assert n[p] == n[..p + 1][p] == m[..p + 1][p] == m[p];
    assert p > 0 ==> n[p - 1] == n[..p + 1][p - 1] == m[..p + 1][p - 1] == m[p - 1];
  }

  /** Up to the first special character nothing changes; a slash there becomes a tilde. */
  lemma DecodedPlainStart(n: cstring, p: nat)
    requires p < |n| && forall i :: 0 <= i < p ==> !Special(n[i])
    ensures |n| <= |Encode(n)| && DecodedChar(n, p) == if n[p] == SLASH then TILDE else n[p]
  {
    EncodeLonger(n);
    var x := n[..p];
    assert n == x + n[p..];
    EncodeAppend(x, n[p..]);
    assert SLASH !in x && TILDE !in x;
    PlainEncodesToItself(x);
    assert Encode(n[p..])[0] == if Special(n[p]) then TILDE else n[p];
    assert p > 0 ==> !Special(n[p - 1]);
  }

  // ---- Decoding again and again ends ----

  /** The first character from i on that is not decoded to itself. */
  function FirstChange(n: cstring, i: nat): (r: nat)
    requires i <= |n| <= |Encode(n)|
    ensures i <= r <= |n| && (r < |n| ==> DecodedChar(n, r) != n[r]) && forall k :: i <= k < r ==>
              DecodedChar(n, k) == n[k]
    decreases |n| - i
  {
    if i == |n| || DecodedChar(n, i) != n[i] then i else FirstChange(n, i + 1)
  }

  function Unstable(n: cstring): (r: nat)
    ensures r <= |n|
  {
    EncodeLonger(n);
    FirstChange(n, 0)
  }

  lemma UnsafeUnstable(n: cstring)
    ensures Unstable(n) < |n| <==> !DecodeSafe(n)
  {
    hide DecodeFrom, Encode, DecodeSafe;
    DecodedAt(n);
    DecodeUndoesEncodeIff(n);
    assert Decoded(n) == n <==> forall i :: 0 <= i < |n| ==> Decoded(n)[i] == n[i];
  }

  /** A name that does not survive decodes to one that is stable further on: no name comes back. */
  lemma DecodingAdvances(n: cstring)
    requires !DecodeSafe(n)
    ensures Unstable(Decoded(n)) > Unstable(n)
  {
    hide DecodeFrom, Encode, DecodeSafe, DecodedChar;
    var m, p := Decoded(n), Unstable(n);
    UnsafeUnstable(n);
    DecodedAt(n);
    DecodedAt(m);
    forall i | 0 <= i <= p
      ensures DecodedChar(m, i) == m[i]
    {
      if i < p {
        assert n[..i + 1] == m[..i + 1];
        DecodedByStart(n, m, i);
      } else {
        assert n[..p] == m[..p];
        ChangedStays(n, m, p);
      }
    }
  }

  lemma ChangedStays(n: cstring, m: cstring, p: nat)
    requires p < |n| == |m| && n[..p] == m[..p] && |n| <= |Encode(n)| && |m| <= |Encode(m)|
    requires m[p] == DecodedChar(n, p) != n[p]
    ensures DecodedChar(m, p) == m[p]
  {
    hide Encode;
    if m[p] != TILDE {
      if k :| 0 <= k < p && Special(n[k]) {
        DecodedByPrefix(n, m, p, k);
      } else {
        DecodedPlainStart(n, p);
      }
    }
  }

  // ---- Case ----

  lemma {:induction false} EncodeFold(n: cstring)
    ensures Encode(Fold(n)) == Fold(Encode(n))
    decreases |n|
  {
    if n != [] {
      EncodeFold(n[1..]);
      assert Fold(n)[1..] == Fold(n[1..]);
      var head := if n[0] == SLASH then [TILDE, ONE] else if n[0] == TILDE then [TILDE, ZERO] else [n[0]];
      FoldAppend(head, Encode(n[1..]));
      assert Fold([TILDE, ONE]) == [TILDE, ONE] && Fold([TILDE, ZERO]) == [TILDE, ZERO] &&
             Fold([n[0]]) == [ToLower(n[0])];
    }
  }

  lemma FoldAppend(x: cstring, y: cstring)
    ensures Fold(x + y) == Fold(x) + Fold(y)
  {}

  lemma DecodedFold(n: cstring)
    ensures Decoded(Fold(n)) == Fold(Decoded(n))
  {
    hide DecodeFrom, Encode;
    DecodedAt(n);
    DecodedAt(Fold(n));
    EncodeFold(n);
    assert ToLower(TILDE) == TILDE && ToLower(SLASH) == SLASH;
    assert forall i :: 0 <= i < |n| ==> DecodedChar(Fold(n), i) == ToLower(DecodedChar(n, i));
  }

  /** Behind the first special character of a name that survives there are tildes and zeros only. */
  lemma {:induction false} SafeTail(n: cstring, k: nat, i: nat)
    requires DecodeSafe(n) && k < i < |n| && Special(n[k]) && forall l :: 0 <= l < k ==> !Special(n[l])
    ensures n[i] == TILDE || n[i] == ZERO
    decreases i
  {
    hide Encode;
    if n[i] != TILDE {
      var x := n[k..i];
      forall l | 0 <= l < |x|
        ensures x[l] == TILDE || x[l] == ZERO
      {
        if l > 0 { SafeTail(n, k, k + l); }
      }
      var y := n[..k];
      assert n == y + x + n[i..];
      EncodeAppend(y, x);
      EncodeAppend(y + x, n[i..]);
      assert SLASH !in y && TILDE !in y;
      PlainEncodesToItself(y);
      EncodeShifts(x, 0);
      assert n[i] == Encode(n)[i] == (y + Encode(x))[i];
      EncodeTildes(x);
    }
  }

  lemma {:induction false} EncodeTildes(x: cstring)
    requires forall l :: 0 <= l < |x| ==> x[l] == TILDE || x[l] == ZERO
    ensures forall l :: 0 <= l < |Encode(x)| ==> Encode(x)[l] == TILDE || Encode(x)[l] == ZERO
  {
    if x != [] { EncodeTildes(x[1..]); }
  }

  /** Whether a name survives does not depend on case. */
  lemma SafeFold(n: cstring)
    ensures DecodeSafe(Fold(n)) <==> DecodeSafe(n)
  {
    hide Encode;
    EncodeFold(n);
    EncodeLonger(n);
    assert ToLower(TILDE) == TILDE && ToLower(SLASH) == SLASH && ToLower(ZERO) == ZERO;
    assert SLASH !in n <==> SLASH !in Fold(n) by {
      assert forall i :: 0 <= i < |n| ==> (n[i] == SLASH <==> Fold(n)[i] == SLASH);
    }
    if DecodeSafe(Fold(n)) {
      forall i | 0 <= i < |n| && n[i] != TILDE
        ensures Encode(n)[i] == n[i]
      {
        if l :| 0 <= l < i && Special(n[l]) {
          var k := FirstSpecial(n, i);
          SafeTail(Fold(n), k, i);
        } else {
          DecodedPlainStart(n, i);
        }
      }
    }
  }

  lemma {:induction false} FirstSpecial(n: cstring, i: nat) returns (k: nat)
    requires i <= |n| && exists l :: 0 <= l < i && Special(n[l])
    ensures k < i && Special(n[k]) && forall l :: 0 <= l < k ==> !Special(n[l])
    decreases i
  {
    if exists l :: 0 <= l < i - 1 && Special(n[l]) {
      k := FirstSpecial(n, i - 1);
    } else {
      k := i - 1;
    }
  }
}

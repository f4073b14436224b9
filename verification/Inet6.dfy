/**
  Printing IPv6 addresses: the longest run of zero words and the text around it.
  
  The run is found by the search of the code and shown to be the one RFC 5952 section 4.2 asks for;
  the text is given by a recursive function, word by word, which the loop is proved to compute.
*/
module Inet6 {
  import opened CTypes
  import opened Inet4
  import opened Numerals

  const COLON: cchar := 58

  type word = w: int | 0 <= w < 0x1_0000

  function WordAt(a: seq<byte>, i: nat): (w: word)
    requires |a| == 16 && i < 8
  {
    var high: int, low: int := a[2 * i], a[2 * i + 1];
    high * 0x100 + low
  }

  /** The first octet of a word is the more significant one. */
  lemma WordOrder(a: seq<byte>, i: nat)
    requires |a| == 16 && i < 8
    ensures WordAt(a, i) / 0x100 == a[2 * i] && WordAt(a, i) % 0x100 == a[2 * i + 1]
  {}

  /** The words of an address. */
  function WordsOf(a: seq<byte>): (r: seq<word>)
    requires |a| == 16
    ensures |r| == 8
  {
    seq(8, i requires 0 <= i < 8 => WordAt(a, i))
  }

  // ---- The longest run of zeros ----

  predicate ZeroRun(words: seq<word>, base: nat, len: nat) {
    base + len <= |words| && forall i :: base <= i < base + len ==> words[i] == 0
  }

  /** No run is longer, and none of the same length starts earlier. */
  ghost predicate FirstLongest(words: seq<word>, base: nat, len: nat) {
    && ZeroRun(words, base, len)
    && forall b: nat, l: nat :: ZeroRun(words, b, l) ==> l < len || (l == len && b >= base)
  }

  /** A run as the search keeps it; its base is -1 when there is none. */
  datatype Run = Run(base: int, len: int)

  /** The first longest run of the words, if they have a zero. */
  ghost predicate BestOf(words: seq<word>, best: Run) {
    if best.base == -1 then forall b: nat, l: nat :: ZeroRun(words, b, l) ==> l == 0
    else best.base >= 0 && best.len >= 1 && FirstLongest(words, best.base, best.len)
  }

  /** What the search knows of the words it has seen: `cur` is the run that reaches their end, if there
      is one, and `best` the first longest run before it. */
  ghost predicate Searched(seen: seq<word>, best: Run, cur: Run) {
    if cur.base == -1 then BestOf(seen, best)
    else
      && 0 <= cur.base < cur.base + cur.len == |seen|
      && ZeroRun(seen, cur.base, cur.len) && (cur.base > 0 ==> seen[cur.base - 1] != 0)
      && BestOf(seen[..cur.base], best)
  }

  /** What becomes of the best run when the current one ends. */
  function Better(best: Run, cur: Run): Run {
    if cur.base != -1 && (best.base == -1 || cur.len > best.len) then cur else best
  }

  lemma RunCloses(seen: seq<word>, best: Run, cur: Run)
    requires Searched(seen, best, cur)
    ensures BestOf(seen, Better(best, cur))
  {
    if cur.base != -1 {
      var front := seen[..cur.base];
      forall b: nat, l: nat | ZeroRun(seen, b, l)
        ensures b + l <= cur.base ==> ZeroRun(front, b, l)
        ensures b + l > cur.base && l > 0 ==> b >= cur.base
      {}
      if best.base != -1 { assert ZeroRun(seen, best.base, best.len); }
    }
  }

  lemma NonzeroAdds(seen: seq<word>, w: word, best: Run)
    requires BestOf(seen, best) && w != 0
    ensures BestOf(seen + [w], best)
  {
    var more := seen + [w];
    assert more[|seen|] == w;
    forall b: nat, l: nat | ZeroRun(more, b, l)
      ensures l > 0 ==> ZeroRun(seen, b, l)
    {
      assert forall i :: b <= i < b + l && i < |seen| ==> seen[i] == more[i];
    }
    if best.base != -1 { assert ZeroRun(more, best.base, best.len); }
  }

  lemma ZeroAdds(seen: seq<word>, best: Run, cur: Run)
    requires Searched(seen, best, cur)
    ensures cur.base == -1 ==> Searched(seen + [0], best, Run(|seen|, 1)) || (seen != [] && seen[|seen| - 1] == 0)
    ensures cur.base != -1 ==> Searched(seen + [0], best, Run(cur.base, cur.len + 1))
  {
    var more := seen + [0];
    if cur.base == -1 {
      assert more[..|seen|] == seen;
    } else {
      assert more[..cur.base] == seen[..cur.base];
    }
  }

  /** The search of xxx_inet_ntop6: None unless some run has at least two words. */
  method FindRun(words: seq<word>) returns (run: Option<Run>)
    ensures run.Some? ==>
              run.value.base >= 0 && run.value.len >= 2 && FirstLongest(words, run.value.base, run.value.len)
    ensures run.None? ==> forall b: nat, l: nat :: ZeroRun(words, b, l) ==> l < 2
  {
    var best, cur := Run(-1, 0), Run(-1, 0);
    var i := 0;
    while i < |words|
      invariant 0 <= i <= |words|
      invariant Searched(words[..i], best, cur)
      invariant cur.base == -1 ==> i == 0 || words[i - 1] != 0
    {
      hide BestOf, ZeroRun;
      assert words[..i + 1] == words[..i] + [words[i]];
      if words[i] == 0 {
        ZeroAdds(words[..i], best, cur);
        cur := if cur.base == -1 then Run(i, 1) else Run(cur.base, cur.len + 1);
      } else {
        RunCloses(words[..i], best, cur);
        NonzeroAdds(words[..i], words[i], Better(best, cur));
        if cur.base != -1 {
          if best.base == -1 || cur.len > best.len {
            best := cur;
          }
          cur := Run(-1, cur.len);
        }
      }
      i := i + 1;
    }
    assert words[..i] == words;
    RunCloses(words, best, cur);
    if cur.base != -1 {
      if best.base == -1 || cur.len > best.len {
        best := cur;
      }
    }
    run := if best.base == -1 || best.len < 2 then None else Some(best);
  }

  // ---- The text ----

  predicate Covers(run: Option<Run>, i: nat) {
    run.Some? && run.value.base <= i < run.value.base + run.value.len
  }

  /** An address whose last words are printed as an IPv4 address. */
  predicate Embeds4(words: seq<word>, run: Option<Run>)
    requires |words| == 8
  {
    run.Some? && run.value.base == 0 && (run.value.len == 6 || (run.value.len == 5 && words[5] == 0xFFFF))
  }

  /** What xxx_inet_ntop6 prints for word i: in a run, a colon at its start only. */
  function Piece(a: seq<byte>, run: Option<Run>, i: nat): cstring
    requires |a| == 16 && i < 8
  {
    if Covers(run, i) then (if i == run.value.base then [COLON] else [])
    else (if i != 0 then [COLON] else []) + (if Ends4(a, run, i) then Text4(a[12..]) else Hex(WordAt(a, i)))
  }

  /** Whether word i is printed as an IPv4 address, which ends the text. */
  predicate Ends4(a: seq<byte>, run: Option<Run>, i: nat)
    requires |a| == 16
  {
    i == 6 && Embeds4(WordsOf(a), run)
  }

  function Trailer(run: Option<Run>): cstring {
    if run.Some? && run.value.base + run.value.len == 8 then [COLON] else []
  }

  /** What it prints from word i on. */
  function TextFrom(a: seq<byte>, run: Option<Run>, i: nat): cstring
    requires |a| == 16 && i <= 8
    decreases 8 - i
  {
    if i == 8 then Trailer(run)
    else Piece(a, run, i) + if Ends4(a, run, i) && !Covers(run, i) then [] else TextFrom(a, run, i + 1)
  }

  /** One turn of the loop that formats the result. */
  method PrintWord(a: seq<byte>, run: Option<Run>, i: nat) returns (piece: cstring, stop: bool)
    requires |a| == 16 && i < 8
    ensures piece == Piece(a, run, i) && stop == (Ends4(a, run, i) && !Covers(run, i))
  {
    hide Hex, Text4, Embeds4;
    piece, stop := [], false;
    if run.Some? && i >= run.value.base && i < run.value.base + run.value.len {
      if i == run.value.base {
        piece := piece + [COLON];
      }
      return;
    }
    if i != 0 {
      piece := piece + [COLON];
    }
    if i == 6 && Embeds4(WordsOf(a), run) {
      piece := piece + Text4(a[12..]);
      stop := true;
    } else {
      piece := piece + Hex(WordAt(a, i));
    }
  }

  /** The loop of xxx_inet_ntop6 that formats the result. */
  method Print6(a: seq<byte>, run: Option<Run>) returns (text: cstring)
    requires |a| == 16
    ensures text == TextFrom(a, run, 0)
  {
    hide *;
    text := [];
    var i := 0;
    assert text + TextFrom(a, run, 0) == TextFrom(a, run, 0);
    while i < 8
      invariant 0 <= i <= 8
      invariant text + TextFrom(a, run, i) == TextFrom(a, run, 0)
    {
      var piece, stop := PrintWord(a, run, i);
      TextStep(a, run, i, text);
      text := text + piece;
      if stop {
        return;
      }
      i := i + 1;
    }
    TextEnd(a, run);
    if run.Some? && run.value.base + run.value.len == 8 {
      text := text + [COLON];
    } else {
      assert text + [] == text;
    }
  }

  lemma TextStep(a: seq<byte>, run: Option<Run>, i: nat, before: cstring)
    requires |a| == 16 && i < 8
    ensures if Ends4(a, run, i) && !Covers(run, i) then before + TextFrom(a, run, i) == before + Piece(a, run, i)
            else before + TextFrom(a, run, i) == (before + Piece(a, run, i)) + TextFrom(a, run, i + 1)
  {
    hide Piece, Ends4, Covers;
    assert Piece(a, run, i) + [] == Piece(a, run, i);
    assert before + (Piece(a, run, i) + TextFrom(a, run, i + 1)) ==
           (before + Piece(a, run, i)) + TextFrom(a, run, i + 1);
  }

  lemma TextEnd(a: seq<byte>, run: Option<Run>)
    requires |a| == 16
    ensures TextFrom(a, run, 8) == if run.Some? && run.value.base + run.value.len == 8 then [COLON] else []
  {}

  /** xxx_inet_ntop6: the text and its terminator have to fit. */
  method Ntop6(a: seq<byte>, size: nat) returns (text: Option<cstring>, run: Option<Run>)
    requires |a| == 16
    ensures Compressed(WordsOf(a), run)
    ensures text == if |TextFrom(a, run, 0)| + 1 <= size then Some(TextFrom(a, run, 0)) else None
  {
    hide TextFrom;
    run := FindRun(WordsOf(a));
    var t := Print6(a, run);
    text := if |t| + 1 > size then None else Some(t);
  }

  /** The run that is printed as two colons: the first longest of two words or more, RFC 5952 section
      4.2. */
  ghost predicate Compressed(words: seq<word>, run: Option<Run>) {
    match run
    case Some(r) => r.base >= 0 && r.len >= 2 && FirstLongest(words, r.base, r.len)
    case None => forall b: nat, l: nat :: ZeroRun(words, b, l) ==> l < 2
  }

  /** There is only one such run. */
  lemma CompressedUnique(words: seq<word>, run: Option<Run>, other: Option<Run>)
    requires Compressed(words, run) && Compressed(words, other)
    ensures run == other
  {
    if run.Some? { assert ZeroRun(words, run.value.base, run.value.len); }
    if other.Some? { assert ZeroRun(words, other.value.base, other.value.len); }
  }
}
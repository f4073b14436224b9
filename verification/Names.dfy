/**
  Member names: how the JSON code compares them, with and without regard to case.
*/
module Names {
  import opened CTypes

  /** tolower in the C locale. */
  function ToLower(c: cchar): cchar {
    if 65 <= c <= 90 then c + 32 else c
  }

  /** The letters of either case, in order. */
  const UPPER := "ABCDEFGHIJKLMNOPQRSTUVWXYZ"
  const LOWER := "abcdefghijklmnopqrstuvwxyz"

  /** Each capital letter has the small letter of the same place, and everything else stays as it is. */
  lemma LettersFold(c: cchar, k: nat)
    requires k < 26
    ensures ToLower(UPPER[k] as int) == LOWER[k] as int
    ensures c as char !in UPPER ==> ToLower(c) == c
  {}

  function Fold(s: cstring): (r: cstring)
    ensures |r| == |s|
  {
    seq(|s|, i requires 0 <= i < |s| => ToLower(s[i]))
  }

  /** strcmp: negative, zero or positive. */
  function StrCmp(a: cstring, b: cstring): int {
    if a == [] then (if b == [] then 0 else -(b[0] as int))
    else if b == [] then a[0] as int
    else if a[0] != b[0] then a[0] as int - b[0] as int
    else StrCmp(a[1..], b[1..])
  }

  /** What a comparison looks at: the name itself, or the name with case folded away. */
  function Key(name: cstring, cs: bool): cstring {
    if cs then name else Fold(name)
  }

  /** compare_strings. */
  function Compare(a: cstring, b: cstring, cs: bool): int {
    StrCmp(Key(a, cs), Key(b, cs))
  }

  predicate SameKey(a: cstring, b: cstring, cs: bool) {
    Key(a, cs) == Key(b, cs)
  }

  lemma {:induction false} StrCmpZero(a: cstring, b: cstring)
    ensures StrCmp(a, b) == 0 <==> a == b
    decreases |a|
  {
    if a != [] && b != [] && a[0] == b[0] {
      StrCmpZero(a[1..], b[1..]);
      assert a == [a[0]] + a[1..] && b == [b[0]] + b[1..];
    }
  }

  /** strcmp orders strings like words: by the first character that differs, a string before what it begins. */
  lemma {:induction false} StrCmpIsLexicographic(a: cstring, b: cstring)
    ensures StrCmp(a, b) < 0 <==> exists k :: DiffersAt(a, b, k)
    decreases |a|
  {
    if a != [] && b != [] && a[0] == b[0] {
      StrCmpIsLexicographic(a[1..], b[1..]);
      forall k: nat
        ensures DiffersAt(a, b, k) <==> k > 0 && DiffersAt(a[1..], b[1..], k - 1)
      {
        DiffersBehind(a, b, k);
      }
      forall k: nat | DiffersAt(a[1..], b[1..], k)
        ensures DiffersAt(a, b, k + 1)
      {
        DiffersBehind(a, b, k + 1);
      }
    } else if b != [] && (a == [] || a[0] < b[0]) {
      assert DiffersAt(a, b, 0);
    }
  }

  /** The first k characters are the same, and then the first string ends or has the smaller one. */
  predicate DiffersAt(a: cstring, b: cstring, k: nat) {
    k <= |a| && k < |b| && a[..k] == b[..k] && (k == |a| || a[k] < b[k])
  }

  lemma DiffersBehind(a: cstring, b: cstring, k: nat)
    requires a != [] && b != [] && a[0] == b[0]
    ensures DiffersAt(a, b, k) <==> k > 0 && DiffersAt(a[1..], b[1..], k - 1)
  {
    if 0 < k <= |a| && k < |b| {
      assert a[..k] == [a[0]] + a[1..][..k - 1] && b[..k] == [b[0]] + b[1..][..k - 1];
      assert a[1..][..k - 1] == a[..k][1..] && b[1..][..k - 1] == b[..k][1..];
    }
  }

  lemma {:induction false} StrCmpAntisymmetric(a: cstring, b: cstring)
    ensures StrCmp(a, b) == -StrCmp(b, a)
    decreases |a|
  {
    if a != [] && b != [] && a[0] == b[0] {
      StrCmpAntisymmetric(a[1..], b[1..]);
    }
  }

  lemma {:induction false} StrCmpTransitive(a: cstring, b: cstring, c: cstring)
    requires StrCmp(a, b) <= 0 && StrCmp(b, c) <= 0
    ensures StrCmp(a, c) <= 0
    ensures StrCmp(a, b) < 0 || StrCmp(b, c) < 0 ==> StrCmp(a, c) < 0
    decreases |a|
  {
    if a != [] && b != [] && c != [] && a[0] == b[0] == c[0] {
      StrCmpTransitive(a[1..], b[1..], c[1..]);
    }
  }

  lemma CompareOrder(a: cstring, b: cstring, c: cstring, cs: bool)
    ensures Compare(a, b, cs) == 0 <==> SameKey(a, b, cs)
    ensures Compare(a, b, cs) == -Compare(b, a, cs)
    ensures Compare(a, b, cs) <= 0 && Compare(b, c, cs) <= 0 ==>
            Compare(a, c, cs) <= 0 && (Compare(a, b, cs) < 0 || Compare(b, c, cs) < 0 ==> Compare(a, c, cs) < 0)
  {
    hide StrCmp, Key;
    StrCmpZero(Key(a, cs), Key(b, cs));
    StrCmpAntisymmetric(Key(a, cs), Key(b, cs));
    if Compare(a, b, cs) <= 0 && Compare(b, c, cs) <= 0 {
      StrCmpTransitive(Key(a, cs), Key(b, cs), Key(c, cs));
    }
  }
}

/**
  Keys of the hash table: the three ways wstk_hash_init_case and wstk_inthash_init compare and hash
  them.
  
  Two keys are the same for a table when their canonical forms are; the hash functions are those of the
  code, bit by bit, and agree on keys that are the same.
*/
module HashKeys {
  /** The octets of a C string, without its terminator. */
  type octet = b: bv8 | b != 0 witness 1

  datatype HashKey = Text(s: seq<octet>) | Word(n: bv32)

  /** Which pair of a hash and an equality function a table was created with. */
  datatype Mode = CaseSensitive | IgnoreCase | Integers

  /** tolower in the C locale. */
  function LowerOctet(b: octet): octet {
    if 65 <= b <= 90 then b + 32 else b
  }

  function Lower(s: seq<octet>): (r: seq<octet>)
    ensures |r| == |s|
  {
    if s == [] then [] else Lower(s[..|s| - 1]) + [LowerOctet(s[|s| - 1])]
  }

  /** c_tolower: the branch-free lower case of four octets at once. */
  function CToLower(eax: bv32): bv32 {
    var x := (0x7f7f7f7f & eax) + 0x25252525;
    var y := (0x7f7f7f7f & x) + 0x1a1a1a1a;
    var z := ((y & !eax) >> 2) & 0x20202020;
    eax + z
  }

  /** It is tolower on every octet, and only a NUL becomes one. */
  lemma CToLowerIsToLower(b: bv8)
    ensures CToLower(b as bv32) == if 65 <= b <= 90 then (b + 32) as bv32 else b as bv32
    ensures CToLower(b as bv32) == 0 <==> b == 0
  {}

  /** What one octet does to the running hash. */
  function HashOctet(hash: bv32, c: bv32): bv32 {
    c + (hash << 6) + (hash << 16) - hash
  }

  /** wstk_hash_default. */
  function HashText(s: seq<octet>): bv32 {
    if s == [] then 0 else HashOctet(HashText(s[..|s| - 1]), s[|s| - 1] as bv32)
  }

  /** wstk_hash_default_ci. */
  function HashTextNoCase(s: seq<octet>): bv32 {
    if s == [] then 0 else HashOctet(HashTextNoCase(s[..|s| - 1]), CToLower(s[|s| - 1] as bv32))
  }

  /** wstk_hash_default_int. */
  function HashWord(x: bv32): bv32 {
    var a := ((x >> 16) ^ x) * 0x45d9f3b;
    var b := ((a >> 16) ^ a) * 0x45d9f3b;
    (b >> 16) ^ b
  }

  /** The scrambling of `hash`. */
  function Scramble(h: bv32): bv32 {
    var a := h + !(h << 9);
    var b := a ^ ((a >> 14) | (a << 18));
    var c := b + (b << 4);
    c ^ ((c >> 10) | (c << 22))
  }

  function HashOf(mode: Mode, k: HashKey): bv32 {
    Scramble(match k
             case Text(s) => if mode == IgnoreCase then HashTextNoCase(s) else HashText(s)
             case Word(n) => HashWord(n))
  }

  /** The hashes of "abc" and of an integer, worked out octet by octet and shift by shift. */
  lemma Samples()
    ensures HashText([97, 98, 99]) == 0x3025f862 && HashTextNoCase([65, 66, 67]) == 0x3025f862
    ensures HashWord(0x1234_5678) == 0x055ccace
    ensures HashOf(CaseSensitive, Text([97, 98, 99])) == 0x91b8c739
    ensures HashOf(Integers, Word(0x1234_5678)) == 0xb8521a66
  {
    HashIgnoresCase([65, 66, 67]);
    assert Lower([65, 66, 67]) == [97, 98, 99];
    Abc();
    hide HashText, HashTextNoCase;
  }

  lemma Abc()
    ensures HashText([97, 98, 99]) == 0x3025f862
  {
    var s: seq<octet> := [97, 98, 99];
    assert s[..2][..1] == s[..1] && s[..1][..0] == s[..0];
    assert HashText(s[..0]) == 0;
    assert HashText(s[..1]) == HashOctet(0, 97);
    assert HashText(s[..2]) == HashOctet(97, 98);
  }

  /** The representative of all keys the equality function takes for the same. */
  function Canonical(mode: Mode, k: HashKey): HashKey {
    if k.Text? && mode == IgnoreCase then Text(Lower(k.s)) else k
  }

  /** Ignoring case, the hash sees the lower-case key. */
  lemma {:induction false} HashIgnoresCase(s: seq<octet>)
    ensures HashTextNoCase(s) == HashText(Lower(s))
    decreases |s|
  {
    hide HashOctet, CToLower;
    if s != [] {
      HashIgnoresCase(s[..|s| - 1]);
      CToLowerIsToLower(s[|s| - 1]);
      assert Lower(s)[..|s| - 1] == Lower(s[..|s| - 1]);
    }
  }

  /** Equal keys hash alike, in every mode. */
  lemma EqualKeysHashAlike(mode: Mode, a: HashKey, b: HashKey)
    requires Canonical(mode, a) == Canonical(mode, b)
    ensures HashOf(mode, a) == HashOf(mode, b)
  {
    hide HashText, HashTextNoCase, Scramble, HashWord;
    if a.Text? && mode == IgnoreCase {
      HashIgnoresCase(a.s);
      HashIgnoresCase(b.s);
    }
  }

  /** wstk_hash_default and wstk_hash_default_ci. */
  method ComputeHash(s: seq<octet>, ignoreCase: bool) returns (hash: bv32)
    ensures hash == if ignoreCase then HashTextNoCase(s) else HashText(s)
  {
    hash := 0;
    var i := 0;
    while i < |s|
      invariant 0 <= i <= |s|
      invariant hash == if ignoreCase then HashTextNoCase(s[..i]) else HashText(s[..i])
    {
      hide CToLower, HashOctet;
      assert s[..i + 1][..i] == s[..i];
      var c := if ignoreCase then CToLower(s[i] as bv32) else s[i] as bv32;
      hash := HashOctet(hash, c);
      i := i + 1;
    }
    assert s[..i] == s;
  }
}

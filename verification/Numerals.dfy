/** Numbers as text: what sprintf makes of unsigned integers. */
module Numerals {
  import opened CTypes

  const ZERO: cchar := 48

  /** "%lu". */
  function Decimal(n: nat): (r: cstring)
    ensures r != []
  {
    if n < 10 then [ZERO + n] else Decimal(n / 10) + [ZERO + n % 10]
  }

  /** The number decimal digits stand for. */
  function NumberOf(s: cstring): int {
    if s == [] then 0 else NumberOf(s[..|s| - 1]) * 10 + (s[|s| - 1] - '0' as int)
  }

  /** The text of a number is decimal digits that stand for it, with no zero in front. */
  lemma {:induction false} DecimalIs(n: nat)
    ensures forall i :: 0 <= i < |Decimal(n)| ==> '0' as int <= Decimal(n)[i] <= '9' as int
    ensures NumberOf(Decimal(n)) == n && (Decimal(n)[0] == '0' as int ==> |Decimal(n)| == 1)
    decreases n
  {
    var s := Decimal(n);
    if n >= 10 {
      DecimalIs(n / 10);
      assert s[..|s| - 1] == Decimal(n / 10);
      if Decimal(n / 10)[0] == '0' as int { assert NumberOf(Decimal(n / 10)) == 0 by { LoneZero(Decimal(n / 10)); } }
    } else {
      assert s[..0] == [];
    }
  }

  lemma LoneZero(s: cstring)
    requires |s| == 1 && s[0] == '0' as int
    ensures NumberOf(s) == 0
  {
    assert s[..0] == [];
  }

  /** A hexadecimal digit in lower case. */
  function HexDigit(d: int): cchar
    requires 0 <= d < 16
  {
    if d < 10 then ZERO + d else 87 + d
  }

  lemma HexDigitSpelled(d: int)
    requires 0 <= d < 16
    ensures HexDigit(d) == "0123456789abcdef"[d] as int
  {}

  /** "%x". */
  function Hex(n: nat): (r: cstring)
    ensures r != []
  {
    if n < 16 then [HexDigit(n)] else Hex(n / 16) + [HexDigit(n % 16)]
  }
}

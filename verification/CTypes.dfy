/** The machine-level types the C sources share: octets and NUL-terminated strings. */
module CTypes {
  type byte = b: int | 0 <= b < 256

  /** An octet that can occur inside a C string: anything but the terminating NUL. */
  type cchar = b: int | 1 <= b < 256 witness 1

  /** The values of int. */
  type cint = n: int | -0x8000_0000 <= n < 0x8000_0000

  /** The content of a C string, without its terminator. */
  type cstring = seq<cchar>

  /** A C string written as a literal. */
  predicate Spelled(s: seq<int>, literal: string) {
    |s| == |literal| && forall i :: 0 <= i < |s| ==> s[i] == literal[i] as int
  }

  const TWO_32: int := 0x1_0000_0000
  const TWO_64: int := 0x1_0000_0000_0000_0000

  datatype Option<+T> = None | Some(value: T)
}

/** Fixed-width integers and byte strings, as the Noqeri packages and the Go
    registry use them.  Slices that are only read are sequences here; slices
    that are written are arrays. */
module Bytes {

  const U64_MAX: int := 0xFFFF_FFFF_FFFF_FFFF
  const I64_MAX: int := 0x7FFF_FFFF_FFFF_FFFF
  const I64_MIN: int := -0x8000_0000_0000_0000

  type Byte = b: int | 0 <= b < 256
  type U64 = n: int | 0 <= n <= U64_MAX
  type I64 = n: int | I64_MIN <= n <= I64_MAX

  type Text = seq<Byte>

  const TAB: Byte := 9
  const LF: Byte := 10
  const CR: Byte := 13
  const QUOTE: Byte := 34
  const STAR: Byte := 42
  const PLUS: Byte := 43
  const COMMA: Byte := 44
  const HYPHEN: Byte := 45
  const DOT: Byte := 46
  const SLASH: Byte := 47
  const ZERO: Byte := 48
  const COLON: Byte := 58
  const SEMICOLON: Byte := 59
  const QUESTION: Byte := 63
  const BACKSLASH: Byte := 92
  const BAR: Byte := 124

  /** The bytes of a text in ASCII. */
  function Ascii(s: string): (t: Text)
    requires forall i :: 0 <= i < |s| ==> s[i] < 128 as char
    ensures |t| == |s| && forall i :: 0 <= i < |s| ==> t[i] == s[i] as int
  {
    seq(|s|, i requires 0 <= i < |s| => s[i] as int)
  }

  predicate IsDigit(c: Byte) {
    48 <= c <= 57
  }

  predicate AllDigits(s: Text) {
    forall i :: 0 <= i < |s| ==> IsDigit(s[i])
  }
}

/** Bytes and the ASCII character classes that the byte-string regular
    expressions of the gateway are built from.  A byte-string pattern in
    Python is ASCII-only: `\w` is `[a-zA-Z0-9_]` and every byte at or above
    0x80 is a non-word byte. */
module Bytes {

  newtype byte = x: int | 0 <= x < 256

  const DOT: byte := 0x2E
  const AT: byte := 0x40

  predicate IsAscii(c: byte) {
    c < 0x80
  }

  predicate AllAscii(s: seq<byte>) {
    forall i :: 0 <= i < |s| ==> IsAscii(s[i])
  }

  predicate IsDigit(c: byte) {
    0x30 <= c <= 0x39
  }

  /** `[a-zA-Z]` */
  predicate IsAlpha(c: byte) {
    0x41 <= c <= 0x5A || 0x61 <= c <= 0x7A
  }

  /** `[a-zA-Z0-9]` */
  predicate IsAlnum(c: byte) {
    IsAlpha(c) || IsDigit(c)
  }

  /** `\w` of a byte pattern: `[a-zA-Z0-9_]` */
  predicate IsWordByte(c: byte) {
    IsAlnum(c) || c == 0x5F
  }

  /** True when the byte `c` equals the ASCII character `ch`. */
  predicate IsChar(c: byte, ch: char) {
    c as int == ch as int
  }

  /** True when `lit` occurs in `b` at position `p`. */
  predicate LiteralAt(b: seq<byte>, p: nat, lit: string) {
    p + |lit| <= |b| && forall k :: 0 <= k < |lit| ==> IsChar(b[p + k], lit[k])
  }

  /** `bytes.decode("UTF-8")` of pure ASCII: one character per byte. */
  function AsciiDecode(s: seq<byte>): (r: string)
    requires AllAscii(s)
    ensures |r| == |s|
    ensures forall i :: 0 <= i < |s| ==> r[i] as int == s[i] as int
  {
    seq(|s|, i requires 0 <= i < |s| => s[i] as int as char)
  }
}

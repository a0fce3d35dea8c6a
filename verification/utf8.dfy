/** The UTF-8 encoding of RFC 3629 (section 3), as performed by
    `text.encode("UTF-8")` before the span scanners run.  A Dafny `char` is a
    Unicode scalar value, so every character has an encoding. */
module Utf8 {
  import opened Bytes

  predicate IsContinuation(c: byte) {
    0x80 <= c <= 0xBF
  }

  /** The one to four bytes of a single character.  The contract is the
      decoding direction of the table in section 3 of RFC 3629: the length
      is fixed by the code point's range, the lead and continuation bytes
      lie in their ranges, and the bits reassemble to the code point. */
  function EncodeChar(ch: char): (r: seq<byte>)
    ensures 1 <= |r| <= 4
    ensures |r| == 1 <==> ch as int < 0x80
    ensures |r| == 1 ==> r[0] as int == ch as int
    ensures |r| == 2 ==>
              && 0x80 <= ch as int < 0x800
              && 0xC2 <= r[0] <= 0xDF && IsContinuation(r[1])
              && ch as int == (r[0] as int - 0xC0) * 64 + (r[1] as int - 0x80)
    ensures |r| == 3 ==>
              && 0x800 <= ch as int < 0x10000
              && 0xE0 <= r[0] <= 0xEF && IsContinuation(r[1]) && IsContinuation(r[2])
              && ch as int == (r[0] as int - 0xE0) * 4096 + (r[1] as int - 0x80) * 64 + (r[2] as int - 0x80)
    ensures |r| == 4 ==>
              && 0x10000 <= ch as int
              && 0xF0 <= r[0] <= 0xF4 && IsContinuation(r[1]) && IsContinuation(r[2]) && IsContinuation(r[3])
              && ch as int == (r[0] as int - 0xF0) * 262144 + (r[1] as int - 0x80) * 4096
                              + (r[2] as int - 0x80) * 64 + (r[3] as int - 0x80)
    ensures |r| > 1 ==> forall k :: 0 <= k < |r| ==> !IsAscii(r[k])
  {
    var n := ch as int;
    if n < 0x80 then
      [n as byte]
    else if n < 0x800 then
      var m := n % 64;
      assert n == (n / 64) * 64 + m;
      [(0xC0 + n / 64) as byte, (0x80 + m) as byte]
    else if n < 0x10000 then
      var m1 := n % 4096;
      var m2 := m1 % 64;
      assert n == (n / 4096) * 4096 + m1;
      assert m1 == (m1 / 64) * 64 + m2;
      [(0xE0 + n / 4096) as byte, (0x80 + m1 / 64) as byte, (0x80 + m2) as byte]
    else
      var m1 := n % 262144;
      var m2 := m1 % 4096;
      var m3 := m2 % 64;
      assert n == (n / 262144) * 262144 + m1;
      assert m1 == (m1 / 4096) * 4096 + m2;
      assert m2 == (m2 / 64) * 64 + m3;
      [(0xF0 + n / 262144) as byte, (0x80 + m1 / 4096) as byte,
       (0x80 + m2 / 64) as byte, (0x80 + m3) as byte]
  }

  /** `s.encode("UTF-8")`: the characters' encodings one after another, so
      one to four bytes per character, and one exactly for an ASCII
      character. */
  function Encode(s: string): (r: seq<byte>)
    ensures |s| <= |r| <= 4 * |s|
    ensures |s| > 0 ==> |r| > 0 && (s[0] as int < 0x80 <==> r[0] as int == s[0] as int && IsAscii(r[0]))
  {
    if |s| == 0 then [] else EncodeChar(s[0]) + Encode(s[1..])
  }

  lemma {:induction false} EncodeAppend(x: string, y: string)
    ensures Encode(x + y) == Encode(x) + Encode(y)
  {
    if |x| == 0 {
      assert x + y == y;
    } else {
      assert (x + y)[1..] == x[1..] + y;
      EncodeAppend(x[1..], y);
    }
  }

  /** Decoding ASCII bytes and encoding the result again gives the bytes back. */
  lemma {:induction false} AsciiRoundTrip(b: seq<byte>)
    requires AllAscii(b)
    ensures Encode(AsciiDecode(b)) == b
  {
    if |b| > 0 {
      var s := AsciiDecode(b);
      assert s[1..] == AsciiDecode(b[1..]);
      AsciiRoundTrip(b[1..]);
      assert EncodeChar(s[0]) == [b[0]];
      assert b == [b[0]] + b[1..];
    }
  }

  /** An ASCII byte of an encoded text is always the whole encoding of one
      character: it starts at a character boundary `j`, and that character
      is the byte itself. */
  lemma {:induction false} AsciiByteIsCharacter(s: string, p: nat) returns (j: nat)
    requires p < |Encode(s)| && IsAscii(Encode(s)[p])
    ensures j < |s| && |Encode(s[..j])| == p && s[j] as int == Encode(s)[p] as int
  {
    var head := EncodeChar(s[0]);
    assert Encode(s) == head + Encode(s[1..]);
    if p < |head| {
      assert |head| == 1;
      assert s[..0] == [];
      j := 0;
    } else {
      var i := AsciiByteIsCharacter(s[1..], p - |head|);
      EncodePrefixCons(s, i);
      j := i + 1;
    }
  }

  /** The encoding of the first `i + 1` characters is that of the first
      character followed by that of the next `i`. */
  lemma EncodePrefixCons(s: string, i: nat)
    requires i < |s| - 1
    ensures Encode(s[..i + 1]) == EncodeChar(s[0]) + Encode(s[1..][..i])
    ensures s[i + 1] == s[1..][i]
  {
    assert s[..i + 1][1..] == s[1..][..i];
  }
}

/** Bytes, and the UTF-8 encoding (`str.encode()`) that turns the text the
    WebSocket layer sends or hashes into bytes. */
module Bytes {
  type byte = b: int | 0 <= b < 256
}

module Utf8 {
  import opened Bytes

  predicate IsAscii(c: char) { (c as int) < 128 }

  predicate AllAscii(s: string) { forall i :: 0 <= i < |s| ==> IsAscii(s[i]) }

  /** The UTF-8 bytes of one code point (section 3 of RFC 3629). */
  function EncodeChar(c: char): (r: seq<byte>)
    ensures 1 <= |r| <= 4
    ensures |r| == 1 <==> IsAscii(c)
    ensures IsAscii(c) ==> r == [c as int]
  {
    var n := c as int;
    if n < 0x80 then [n]
    else if n < 0x800 then [0xC0 + n / 64, 0x80 + n % 64]
    else if n < 0x10000 then [0xE0 + n / 4096, 0x80 + (n / 64) % 64, 0x80 + n % 64]
    else [0xF0 + n / 262144, 0x80 + (n / 4096) % 64, 0x80 + (n / 64) % 64, 0x80 + n % 64]
  }

  /** `s.encode("utf-8")` */
  function Encode(s: string): (r: seq<byte>)
    ensures |r| >= |s|
  {
    if s == [] then [] else EncodeChar(s[0]) + Encode(s[1..])
  }

  /** ASCII text encodes to one byte per character, each its code. */
  lemma {:induction false} AsciiEncoding(s: string)
    requires AllAscii(s)
    ensures |Encode(s)| == |s|
    ensures forall i :: 0 <= i < |s| ==> Encode(s)[i] == s[i] as int
  {
    if s != [] {
      AsciiEncoding(s[1..]);
      assert Encode(s) == [s[0] as int] + Encode(s[1..]);
    }
  }

  /** Text with a character outside ASCII encodes to more bytes than it has
      characters. */
  lemma {:induction false} NonAsciiIsLonger(s: string, k: nat)
    requires k < |s| && !IsAscii(s[k])
    ensures |Encode(s)| > |s|
  {
    if k > 0 {
      NonAsciiIsLonger(s[1..], k - 1);
    }
  }
}

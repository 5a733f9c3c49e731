/** The base64 encoding of section 4 of RFC 4648 (alphabet A-Z a-z 0-9 + /,
    "=" padding), as `ubinascii.b2a_base64` produces it, and the decoder that
    inverts it. */
module Base64 {
  import opened Wrappers
  import opened Bytes
  import opened Text

  /** The character for a 6-bit value. */
  function IndexChar(i: nat): char
    requires i < 64
  {
    if i < 26 then ('A' as int + i) as char
    else if i < 52 then ('a' as int + i - 26) as char
    else if i < 62 then ('0' as int + i - 52) as char
    else if i == 62 then '+'
    else '/'
  }

  /** The 6-bit value of an alphabet character; `None` for anything else. */
  function CharIndex(c: char): (r: Option<nat>)
    ensures r.Some? ==> r.value < 64
  {
    if 'A' <= c <= 'Z' then Some(c as int - 'A' as int)
    else if 'a' <= c <= 'z' then Some(c as int - 'a' as int + 26)
    else if '0' <= c <= '9' then Some(c as int - '0' as int + 52)
    else if c == '+' then Some(62)
    else if c == '/' then Some(63)
    else None
  }

  predicate IsAlphabet(c: char) { CharIndex(c).Some? }

  lemma IndexCharInverse(i: nat)
    requires i < 64
    ensures CharIndex(IndexChar(i)) == Some(i)
  {
  }

  /** Four characters for three bytes. */
  function Quad(b0: byte, b1: byte, b2: byte): string {
    [IndexChar(b0 / 4), IndexChar((b0 % 4) * 16 + b1 / 16), IndexChar((b1 % 16) * 4 + b2 / 64), IndexChar(b2 % 64)]
  }

  function Encode(d: seq<byte>): (r: string)
    ensures |r| == 4 * ((|d| + 2) / 3)
    decreases |d|
  {
    if |d| == 0 then ""
    else if |d| == 1 then [IndexChar(d[0] / 4), IndexChar((d[0] % 4) * 16), '=', '=']
    else if |d| == 2 then [IndexChar(d[0] / 4), IndexChar((d[0] % 4) * 16 + d[1] / 16), IndexChar((d[1] % 16) * 4), '=']
    else Quad(d[0], d[1], d[2]) + Encode(d[3..])
  }

  /** Reads base64 text back into bytes; `None` for text that is not the
      canonical encoding of any bytes. */
  function Decode(s: string): Option<seq<byte>>
    decreases |s|
  {
    if |s| == 0 then Some([])
    else if |s| < 4 || !IsAlphabet(s[0]) || !IsAlphabet(s[1]) then None
    else
      var a := CharIndex(s[0]).value;
      var b := CharIndex(s[1]).value;
      if |s| == 4 && s[2] == '=' && s[3] == '=' then
        if b % 16 == 0 then Some([a * 4 + b / 16]) else None
      else if !IsAlphabet(s[2]) then None
      else
        var c := CharIndex(s[2]).value;
        if |s| == 4 && s[3] == '=' then
          if c % 4 == 0 then Some([a * 4 + b / 16, (b % 16) * 16 + c / 4]) else None
        else if !IsAlphabet(s[3]) then None
        else
          var e := CharIndex(s[3]).value;
          match Decode(s[4..])
          case None => None
          case Some(rest) => Some([a * 4 + b / 16, (b % 16) * 16 + c / 4, (c % 4) * 64 + e] + rest)
  }

  /** The bit arithmetic of one group undoes itself. */
  lemma QuadBits(b0: byte, b1: byte, b2: byte)
    ensures var a, b, c, e := b0 / 4, (b0 % 4) * 16 + b1 / 16, (b1 % 16) * 4 + b2 / 64, b2 % 64;
      a * 4 + b / 16 == b0 && (b % 16) * 16 + c / 4 == b1 && (c % 4) * 64 + e == b2
  {
    var b := (b0 % 4) * 16 + b1 / 16;
    assert b / 16 == b0 % 4 && b % 16 == b1 / 16;
    var c := (b1 % 16) * 4 + b2 / 64;
    assert c / 4 == b1 % 16 && c % 4 == b2 / 64;
  }

  lemma DecodeTail1(b0: byte)
    ensures Decode(Encode([b0])) == Some([b0])
  {
    IndexCharInverse(b0 / 4);
    IndexCharInverse((b0 % 4) * 16);
  }

  lemma DecodeTail2(b0: byte, b1: byte)
    ensures Decode(Encode([b0, b1])) == Some([b0, b1])
  {
    var a, b, c := b0 / 4, (b0 % 4) * 16 + b1 / 16, (b1 % 16) * 4;
    IndexCharInverse(a);
    IndexCharInverse(b);
    IndexCharInverse(c);
    QuadBits(b0, b1, 0);
    var s := Encode([b0, b1]);
    assert s == [IndexChar(a), IndexChar(b), IndexChar(c), '='];
    assert s[2] != '=' by { assert CharIndex('=').None?; }
    assert c % 4 == 0 && c / 4 == b1 % 16;
  }

  /** One group of four characters decodes to its three bytes. */
  lemma DecodeQuad(b0: byte, b1: byte, b2: byte, rest: string)
    ensures Decode(Quad(b0, b1, b2) + rest) ==
      match Decode(rest) case None => None case Some(r) => Some([b0, b1, b2] + r)
  {
    var a, b, c, e := b0 / 4, (b0 % 4) * 16 + b1 / 16, (b1 % 16) * 4 + b2 / 64, b2 % 64;
    IndexCharInverse(a);
    IndexCharInverse(b);
    IndexCharInverse(c);
    IndexCharInverse(e);
    QuadBits(b0, b1, b2);
    QuadThenRest(Quad(b0, b1, b2), rest);
    DecodeFullGroup(Quad(b0, b1, b2) + rest, a, b, c, e);
  }

  lemma QuadThenRest(q: string, rest: string)
    requires |q| == 4
    ensures (q + rest)[..4] == q && (q + rest)[4..] == rest && |q + rest| >= 4
  {
  }

  /** Text that starts with four alphabet characters decodes as their three
      bytes, then the rest. */
  lemma DecodeFullGroup(s: string, a: nat, b: nat, c: nat, e: nat)
    requires |s| >= 4
    requires CharIndex(s[0]) == Some(a) && CharIndex(s[1]) == Some(b)
    requires CharIndex(s[2]) == Some(c) && CharIndex(s[3]) == Some(e)
    ensures Decode(s) == match Decode(s[4..]) case None => None
      case Some(r) => Some([a * 4 + b / 16, (b % 16) * 16 + c / 4, (c % 4) * 64 + e] + r)
  {
    assert CharIndex('=').None?;
  }

  /** Decoding the encoding of any bytes gives them back. */
  lemma {:induction false} DecodeEncode(d: seq<byte>)
    ensures Decode(Encode(d)) == Some(d)
    decreases |d|
  {
    if |d| >= 3 {
      DecodeEncode(d[3..]);
      DecodeLonger(d);
    } else {
      DecodeShort(d);
    }
  }

  lemma DecodeShort(d: seq<byte>)
    requires |d| < 3
    ensures Decode(Encode(d)) == Some(d)
  {
    if |d| == 1 {
      assert d == [d[0]];
      DecodeTail1(d[0]);
    } else if |d| == 2 {
      assert d == [d[0], d[1]];
      DecodeTail2(d[0], d[1]);
    }
  }

  lemma DecodeLonger(d: seq<byte>)
    requires |d| >= 3 && Decode(Encode(d[3..])) == Some(d[3..])
    ensures Decode(Encode(d)) == Some(d)
  {
    SplitThree(d);
    DecodeGroupThenRest(d[0], d[1], d[2], d[3..]);
  }

  lemma SplitThree(d: seq<byte>)
    requires |d| >= 3
    ensures d == [d[0], d[1], d[2]] + d[3..]
  {
  }

  /** One full group, then bytes whose encoding decodes back. */
  lemma DecodeGroupThenRest(b0: byte, b1: byte, b2: byte, rest: seq<byte>)
    requires Decode(Encode(rest)) == Some(rest)
    ensures Decode(Encode([b0, b1, b2] + rest)) == Some([b0, b1, b2] + rest)
  {
    EncodeGroup(b0, b1, b2, rest);
    DecodeQuad(b0, b1, b2, Encode(rest));
  }

  /** Three bytes then the rest: the encoding is the group's four
      characters then the rest's. */
  lemma EncodeGroup(b0: byte, b1: byte, b2: byte, rest: seq<byte>)
    ensures Encode([b0, b1, b2] + rest) == Quad(b0, b1, b2) + Encode(rest)
  {
    assert ([b0, b1, b2] + rest)[3..] == rest;
  }

  /** An alphabet character or the padding character. */
  predicate IsEncodingChar(c: char) { IsAlphabet(c) || c == '=' }

  /** Every character of an encoding is an alphabet character or "=". */
  lemma {:induction false} EncodeAlphabet(d: seq<byte>)
    ensures forall i :: 0 <= i < |Encode(d)| ==> IsEncodingChar(Encode(d)[i])
    ensures |d| > 0 ==> IsAlphabet(Encode(d)[0])
    decreases |d|
  {
    if |d| >= 3 {
      EncodeAlphabet(d[3..]);
      SplitThree(d);
      EncodeGroup(d[0], d[1], d[2], d[3..]);
      QuadAlphabet(d[0], d[1], d[2]);
      EncodingConcat(Quad(d[0], d[1], d[2]), Encode(d[3..]));
    } else {
      ShortAlphabet(d);
    }
  }

  lemma QuadAlphabet(b0: byte, b1: byte, b2: byte)
    ensures forall i :: 0 <= i < 4 ==> IsAlphabet(Quad(b0, b1, b2)[i])
  {
    IndexCharInverse(b0 / 4);
    IndexCharInverse((b0 % 4) * 16 + b1 / 16);
    IndexCharInverse((b1 % 16) * 4 + b2 / 64);
    IndexCharInverse(b2 % 64);
  }

  lemma EncodingConcat(q: string, r: string)
    requires |q| == 4 && forall i :: 0 <= i < 4 ==> IsAlphabet(q[i])
    requires forall i :: 0 <= i < |r| ==> IsEncodingChar(r[i])
    ensures forall i :: 0 <= i < |q + r| ==> IsEncodingChar((q + r)[i])
    ensures IsAlphabet((q + r)[0])
  {
  }

  lemma ShortAlphabet(d: seq<byte>)
    requires |d| < 3
    ensures forall i :: 0 <= i < |Encode(d)| ==> IsEncodingChar(Encode(d)[i])
    ensures |d| > 0 ==> IsAlphabet(Encode(d)[0])
  {
    if |d| == 1 {
      IndexCharInverse(d[0] / 4);
      IndexCharInverse((d[0] % 4) * 16);
    } else if |d| == 2 {
      IndexCharInverse(d[0] / 4);
      IndexCharInverse((d[0] % 4) * 16 + d[1] / 16);
      IndexCharInverse((d[1] % 16) * 4);
    }
  }

  /** No whitespace and no colon in an encoding: it survives `strip()` and
      cannot be cut by a header parser's split at ":". */
  lemma EncodeIsPlain(d: seq<byte>)
    ensures NoSpaceAtEnds(Encode(d))
    ensures ':' !in Encode(d)
  {
    EncodeAlphabet(d);
    var s := Encode(d);
    if s != [] {
      assert IsEncodingChar(s[|s| - 1]);
    }
  }

  /** `ubinascii.b2a_base64(d)`: the encoding followed by a newline. */
  function B2aBase64(d: seq<byte>): string {
    Encode(d) + "\n"
  }

  /** `b2a_base64(d).decode().strip()` is exactly the encoding. */
  lemma StrippedB2a(d: seq<byte>)
    ensures Strip(B2aBase64(d)) == Encode(d)
  {
    EncodeIsPlain(d);
    StripPadded("", Encode(d), "\n");
    assert "" + Encode(d) + "\n" == B2aBase64(d);
  }
}

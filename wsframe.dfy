/** The server-to-client WebSocket text frame of `send_ws_message`
    (section 5.2 of RFC 6455): FIN + text opcode, an unmasked 7-bit or
    16-bit payload length, then the payload. */
module WsFrame {
  import opened Wrappers
  import opened Bytes
  import Utf8

  /** FIN bit set, opcode 1 (text). */
  const FIN_TEXT: byte := 0x81
  /** The 7-bit length value announcing a 16-bit extended length. */
  const EXTENDED_16: byte := 126
  const MAX_16: nat := 65535

  /** A payload too long for the 16-bit length field the encoder writes. */
  datatype FrameError = UnsupportedFrameSize(length: nat)

  /** The length bytes after the first header byte. */
  function LengthField(n: nat): Result<seq<byte>, FrameError> {
    if n < 126 then Ok([n])
    else if n <= MAX_16 then Ok([EXTENDED_16, n / 256, n % 256])
    else Err(UnsupportedFrameSize(n))
  }

  /** The frame for a payload of bytes, or the error for one too long. */
  function TextFrame(payload: seq<byte>): Result<seq<byte>, FrameError> {
    var field :- LengthField(|payload|);
    Ok([FIN_TEXT] + field + payload)
  }

  /** The frame fields a receiver reads. */
  datatype Frame = Frame(fin: bool, opcode: nat, masked: bool, payload: seq<byte>)

  /** A receiver's reading of one complete unmasked frame with a 7-bit or
      16-bit length; `None` when the bytes present disagree with the length
      the header announces. */
  function ParseFrame(f: seq<byte>): Option<Frame> {
    if |f| < 2 || f[1] >= 128 then None
    else
      var fin, opcode, len7 := f[0] >= 128, f[0] % 16, f[1] % 128;
      if len7 < 126 then
        if |f| == 2 + len7 then Some(Frame(fin, opcode, false, f[2..])) else None
      else if len7 == 126 && |f| >= 4 then
        var n := f[2] as int * 256 + f[3] as int;
        if |f| == 4 + n then Some(Frame(fin, opcode, false, f[4..])) else None
      else None
  }

  /** A receiver reads back a final, unmasked text frame carrying exactly the
      payload; only an oversized payload is refused. */
  lemma ParseTextFrame(payload: seq<byte>)
    ensures TextFrame(payload).Err? <==> |payload| > MAX_16
    ensures TextFrame(payload).Ok? ==>
      ParseFrame(TextFrame(payload).value) == Some(Frame(true, 1, false, payload))
  {
    var n := |payload|;
    FrameLayout(payload);
    if n < 126 {
      var f := [FIN_TEXT, n] + payload;
      assert f[2..] == payload;
    } else if n <= MAX_16 {
      var f := [FIN_TEXT, EXTENDED_16, n / 256, n % 256] + payload;
      assert f[2] as int * 256 + f[3] as int == n;
      assert f[4..] == payload;
    }
  }

  /** The byte layout of both length forms. */
  lemma FrameLayout(payload: seq<byte>)
    ensures |payload| < 126 ==>
      TextFrame(payload) == Ok([0x81, |payload|] + payload)
    ensures 126 <= |payload| <= MAX_16 ==>
      TextFrame(payload) == Ok([0x81, 126, |payload| / 256, |payload| % 256] + payload)
    ensures TextFrame(payload).Ok? ==>
      var f := TextFrame(payload).value;
      |f| == |payload| + (if |payload| < 126 then 2 else 4) && f[1] < 128
  {
    var n := |payload|;
    if n < 126 {
      assert [FIN_TEXT] + [n] + payload == [0x81, n] + payload;
    } else if n <= MAX_16 {
      assert [FIN_TEXT] + [EXTENDED_16, n / 256, n % 256] + payload == [0x81, 126, n / 256, n % 256] + payload;
    }
  }

  /** Big-endian order of the 16-bit length: 200 bytes give 00 C8, 300 give 01 2C. */
  lemma ExtendedLengthIsBigEndian(payload: seq<byte>)
    requires 126 <= |payload| <= MAX_16
    ensures TextFrame(payload).value[2] as int * 256 + TextFrame(payload).value[3] as int == |payload|
    ensures |payload| == 200 ==> TextFrame(payload).value[..4] == [0x81, 0x7E, 0x00, 0xC8]
    ensures |payload| == 300 ==> TextFrame(payload).value[..4] == [0x81, 0x7E, 0x01, 0x2C]
  {
    FrameLayout(payload);
  }

  /** The `bytearray` frame buffer: appended to and extended in place. */
  class ByteArray {
    var bytes: seq<byte>

    constructor()
      ensures bytes == []
    {
      bytes := [];
    }

    method Append(b: byte)
      modifies this
      ensures bytes == old(bytes) + [b]
    {
      bytes := bytes + [b];
    }

    method Extend(bs: seq<byte>)
      modifies this
      ensures bytes == old(bytes) + bs
    {
      bytes := bytes + bs;
    }
  }

  /** `ustruct.pack(">H", n)` */
  function PackU16(n: nat): (r: seq<byte>)
    requires n <= MAX_16
    ensures |r| == 2 && r[0] as int * 256 + r[1] as int == n
  {
    [n / 256, n % 256]
  }

  /** `send_ws_message` with the length taken from the UTF-8 payload, so the
      announced length is the number of bytes sent. A payload over 65535
      bytes is refused instead of framed: the code writes no 64-bit length,
      and its 16-bit field would wrap. */
  method SendWsMessage(message: string) returns (r: Result<seq<byte>, FrameError>)
    ensures r == TextFrame(Utf8.Encode(message))
    ensures r.Ok? ==> ParseFrame(r.value) == Some(Frame(true, 1, false, Utf8.Encode(message)))
  {
    var payload := Utf8.Encode(message);
    var frame := new ByteArray();
    frame.Append(FIN_TEXT);
    assert frame.bytes == [FIN_TEXT];
    var length := |payload|;
    if length < 126 {
      frame.Append(length);
    } else if length <= MAX_16 {
      frame.Append(EXTENDED_16);
      frame.Extend(PackU16(length));
      assert frame.bytes == [FIN_TEXT] + [EXTENDED_16, length / 256, length % 256];
    } else {
      return Err(UnsupportedFrameSize(length));
    }
    frame.Extend(payload);
    r := Ok(frame.bytes);
    ParseTextFrame(payload);
  }

  /** `ustruct.pack(">H", n)` as MicroPython runs it: the low 16 bits of
      `n`, big-endian, and no error for a larger `n`. */
  function PackU16Wrapping(n: nat): (r: seq<byte>)
    ensures |r| == 2 && r[0] as int * 256 + r[1] as int == n % 65536
    ensures n <= MAX_16 ==> r == PackU16(n)
  {
    var low := n % 65536;
    [low / 256, low % 256]
  }

  /** The length bytes the code as written puts after the first header
      byte for a length of `n`. */
  function LengthFieldAsWritten(n: nat): seq<byte> {
    if n < 126 then [n] else [EXTENDED_16] + PackU16Wrapping(n)
  }

  /** `send_ws_message` as written: the length field holds `len(message)`,
      the number of characters, while the payload is the UTF-8 bytes; a
      length over 65535 wraps around. */
  function FrameAsWritten(message: string): (r: seq<byte>)
    ensures |r| >= 2 && r[0] == FIN_TEXT && r[1] < 128
  {
    [FIN_TEXT] + LengthFieldAsWritten(|message|) + Utf8.Encode(message)
  }

  /** For ASCII text characters and bytes coincide, and the written code
      frames correctly whenever a correct frame exists. */
  lemma AsWrittenAgreesOnAscii(message: string)
    requires Utf8.AllAscii(message)
    ensures TextFrame(Utf8.Encode(message)).Ok? ==>
      TextFrame(Utf8.Encode(message)).value == FrameAsWritten(message)
  {
    Utf8.AsciiEncoding(message);
  }

  /** With any character outside ASCII the announced length is short of the
      bytes sent, and no receiver can read the frame. */
  lemma AsWrittenBreaksOnNonAscii(message: string, k: nat)
    requires k < |message| && !Utf8.IsAscii(message[k])
    ensures ParseFrame(FrameAsWritten(message)) == None
  {
    Utf8.NonAsciiIsLonger(message, k);
    AnnouncedLengthMismatch(|message|, Utf8.Encode(message));
  }

  /** A message of more than 65535 characters has its length wrapped to
      16 bits, and no receiver can read the frame. */
  lemma AsWrittenBreaksWhenLong(message: string)
    requires |message| > MAX_16
    ensures ParseFrame(FrameAsWritten(message)) == None
  {
    AnnouncedLengthMismatch(|message|, Utf8.Encode(message));
  }

  /** A frame whose length field as written announces `n % 65536` bytes but
      carries a payload of another length is refused by every receiver. */
  lemma AnnouncedLengthMismatch(n: nat, payload: seq<byte>)
    requires |payload| != n % 65536
    ensures ParseFrame([FIN_TEXT] + LengthFieldAsWritten(n) + payload) == None
  {
    var f := [FIN_TEXT] + LengthFieldAsWritten(n) + payload;
    if n < 126 {
      assert f[1] == n && |f| == 2 + |payload|;
    } else {
      assert f[1] == EXTENDED_16 && |f| == 4 + |payload|;
      assert f[2] as int * 256 + f[3] as int == n % 65536;
    }
  }

  /** "é" (U+00E9) is one character but two bytes C3 A9: the written code
      announces one byte and sends two. */
  lemma AsWrittenExample()
    ensures FrameAsWritten("\U{E9}") == [0x81, 1, 0xC3, 0xA9]
    ensures TextFrame(Utf8.Encode("\U{E9}")) == Ok([0x81, 2, 0xC3, 0xA9])
  {
    var m := "\U{E9}";
    assert |m| == 1 && m[0] as int == 0xE9;
    assert Utf8.EncodeChar(m[0]) == [0xC3, 0xA9];
    assert Utf8.Encode(m) == [0xC3, 0xA9] by {
      assert m[1..] == [];
    }
    assert [FIN_TEXT] + [1] + [0xC3, 0xA9] == [0x81, 1, 0xC3, 0xA9];
    assert [FIN_TEXT] + [2] + [0xC3, 0xA9] == [0x81, 2, 0xC3, 0xA9];
  }
}

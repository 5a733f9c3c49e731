/** `serve_client` of the WebSocket server: reading the request's header
    block, the upgrade test, the `Sec-WebSocket-Accept` value of section 4.2.2
    of RFC 6455, and the reply it writes. */
module Handshake {
  import opened Wrappers
  import opened Bytes
  import opened Text
  import Utf8
  import Base64

  /** The line that ends the header block. */
  const BLANK: string := "\r\n"
  /** The fixed GUID of section 1.3 of RFC 6455. */
  const GUID: string := "258EAFA5-E914-47DA-95CA-C5AB0DC85B11"

  type Headers = map<string, string>

  /** One header line split at its first ":", both halves stripped; `None`
      for a line without a colon. */
  function HeaderEntry(line: string): (r: Option<(string, string)>)
    ensures r.None? <==> ':' !in line
  {
    match IndexOf(line, ':')
    case None => None
    case Some(i) => Some((Strip(line[..i]), Strip(line[i + 1..])))
  }

  /** A line is split at its first colon: the key is the stripped text
      before it, the value the stripped rest, which may itself hold colons. */
  lemma SplitAtFirstColon(name: string, rest: string)
    requires ':' !in name
    ensures HeaderEntry(name + ":" + rest) == Some((Strip(name), Strip(rest)))
  {
    var line := name + ":" + rest;
    assert line[..|name|] == name;
    assert line[|name| + 1..] == rest;
    FirstColonAt(line, |name|);
  }

  /** The entry of a line whose first colon is at `i`. */
  lemma FirstColonAt(line: string, i: nat)
    requires i < |line| && line[i] == ':' && ':' !in line[..i]
    ensures HeaderEntry(line) == Some((Strip(line[..i]), Strip(line[i + 1..])))
  {
    assert forall j :: 0 <= j < i ==> line[..i][j] == line[j];
    IndexFromIs(line, ':', 0, i);
  }

  /** The headers set by the first `n` lines of a block: each line with a
      colon sets its key, a later line overwriting an earlier one. */
  function HeadersOf(lines: seq<string>, n: nat): Headers
    requires n <= |lines|
    decreases n
  {
    if n == 0 then map[] else AddHeader(HeadersOf(lines, n - 1), lines[n - 1])
  }

  /** `headers[key.strip()] = value.strip()` for a line with a colon. */
  function AddHeader(h: Headers, line: string): (r: Headers)
    ensures h.Keys <= r.Keys
    ensures ':' !in line ==> r == h
  {
    match HeaderEntry(line)
    case None => h
    case Some(kv) => h[kv.0 := kv.1]
  }

  predicate DefinesKey(line: string, key: string) {
    HeaderEntry(line).Some? && HeaderEntry(line).value.0 == key
  }

  /** One line's effect on one key. */
  lemma AddHeaderLookup(h: Headers, line: string, key: string)
    ensures key in AddHeader(h, line) <==> key in h || DefinesKey(line, key)
    ensures DefinesKey(line, key) ==> AddHeader(h, line)[key] == HeaderEntry(line).value.1
    ensures !DefinesKey(line, key) && key in h ==> AddHeader(h, line)[key] == h[key]
  {
  }

  /** Line `i` is the last of the first `n` lines that sets `key`. */
  predicate LastDefinition(lines: seq<string>, n: nat, key: string, i: int) {
    0 <= i < n <= |lines| && DefinesKey(lines[i], key) &&
    forall j :: i < j < n ==> !DefinesKey(lines[j], key)
  }

  /** A key that some line defines is present; lines without a colon define
      nothing. With `HeadersOfLastWins` for the converse, a key is present
      exactly when some line defines it. */
  lemma {:induction false} DefinedKeyIsPresent(lines: seq<string>, n: nat, key: string, i: nat)
    requires i < n <= |lines| && DefinesKey(lines[i], key)
    ensures key in HeadersOf(lines, n)
    decreases n
  {
    AddHeaderLookup(HeadersOf(lines, n - 1), lines[n - 1], key);
    if i < n - 1 {
      DefinedKeyIsPresent(lines, n - 1, key, i);
    }
  }

  /** A present key holds the value of the last line that defines it; `i`
      is that line. */
  lemma {:induction false} HeadersOfLastWins(lines: seq<string>, n: nat, key: string) returns (i: nat)
    requires n <= |lines| && key in HeadersOf(lines, n)
    ensures LastDefinition(lines, n, key, i)
    ensures HeaderEntry(lines[i]).value.1 == HeadersOf(lines, n)[key]
    decreases n
  {
    AddHeaderLookup(HeadersOf(lines, n - 1), lines[n - 1], key);
    if DefinesKey(lines[n - 1], key) {
      i := n - 1;
    } else {
      i := HeadersOfLastWins(lines, n - 1, key);
      LastDefinitionExtends(lines, n, key, i);
    }
  }

  lemma LastDefinitionExtends(lines: seq<string>, n: nat, key: string, i: nat)
    requires 0 < n <= |lines| && LastDefinition(lines, n - 1, key, i) && !DefinesKey(lines[n - 1], key)
    ensures LastDefinition(lines, n, key, i)
  {
    forall j | i < j < n
      ensures !DefinesKey(lines[j], key)
    {
      if j < n - 1 {
        assert i < j < n - 1;
      }
    }
  }

  /** The index of the first "\r\n" line, if any. */
  function FirstBlank(stream: seq<string>): (r: Option<nat>)
    ensures r.None? <==> BLANK !in stream
    ensures r.Some? ==> r.value < |stream| && stream[r.value] == BLANK && BLANK !in stream[..r.value]
  {
    if stream == [] then None
    else if stream[0] == BLANK then Some(0)
    else match FirstBlank(stream[1..])
      case None => None
      case Some(k) =>
        assert stream[..k + 1] == [stream[0]] + stream[1..][..k];
        Some(k + 1)
  }

  /** The header loop of `serve_client`, stopping at end of stream as well as
      at the blank line: `complete` tells which, and the headers are those of
      the lines before the blank line. */
  method ReadHeaders(stream: seq<string>) returns (complete: bool, headers: Headers)
    ensures complete <==> FirstBlank(stream).Some?
    ensures complete ==> headers == HeadersOf(stream, FirstBlank(stream).value)
  {
    headers := map[];
    var pos := 0;
    while pos < |stream|
      invariant 0 <= pos <= |stream|
      invariant BLANK !in stream[..pos]
      invariant headers == HeadersOf(stream, pos)
    {
      var line := stream[pos];
      if line == BLANK {
        assert FirstBlank(stream) == Some(pos) by {
          FirstBlankAt(stream, pos);
        }
        return true, headers;
      }
      headers := AddHeader(headers, line);
      assert stream[..pos + 1] == stream[..pos] + [line];
      pos := pos + 1;
    }
    assert stream[..pos] == stream;
    return false, headers;
  }

  /** The first blank line is the one with no blank line before it. */
  lemma {:induction false} FirstBlankAt(stream: seq<string>, k: nat)
    requires k < |stream| && stream[k] == BLANK && BLANK !in stream[..k]
    ensures FirstBlank(stream) == Some(k)
  {
    if k > 0 {
      assert stream[1..][..k - 1] == stream[1..k];
      assert forall x :: x in stream[1..k] ==> x in stream[..k];
      FirstBlankAt(stream[1..], k - 1);
    }
  }

  /** The loop as written, one `readline()` per step; at end of stream
      `readline()` keeps returning the empty line. */
  datatype Loop = Loop(pos: nat, headers: Headers, done: bool)

  function ReadLine(stream: seq<string>, pos: nat): string {
    if pos < |stream| then stream[pos] else ""
  }

  function StepAsWritten(stream: seq<string>, st: Loop): Loop {
    if st.done then st
    else
      var line := ReadLine(stream, st.pos);
      if line == BLANK then st.(done := true)
      else Loop(st.pos + 1, AddHeader(st.headers, line), false)
  }

  function RunAsWritten(stream: seq<string>, st: Loop, steps: nat): Loop
    decreases steps
  {
    if steps == 0 then st else RunAsWritten(stream, StepAsWritten(stream, st), steps - 1)
  }

  lemma StepKeepsRunning(stream: seq<string>, st: Loop)
    requires BLANK !in stream && !st.done
    ensures !StepAsWritten(stream, st).done
  {
    var line := ReadLine(stream, st.pos);
    if st.pos < |stream| {
      assert line in stream;
    } else {
      assert line == "";
    }
    assert line != BLANK;
  }

  /** Without a blank line the loop as written never leaves, however many
      lines it reads: a client that closes early keeps its task spinning. */
  lemma {:induction false} AsWrittenNeverStops(stream: seq<string>, st: Loop, steps: nat)
    requires BLANK !in stream && !st.done
    ensures !RunAsWritten(stream, st, steps).done
    decreases steps
  {
    if steps > 0 {
      StepKeepsRunning(stream, st);
      AsWrittenNeverStops(stream, StepAsWritten(stream, st), steps - 1);
    }
  }

  /** When the blank line comes, the loop as written stops there with the
      headers `ReadHeaders` returns. */
  lemma {:induction false} AsWrittenReachesBlank(stream: seq<string>, k: nat, p: nat)
    requires FirstBlank(stream) == Some(k) && p <= k
    ensures RunAsWritten(stream, Loop(p, HeadersOf(stream, p), false), k + 1 - p) ==
      Loop(k, HeadersOf(stream, k), true)
    decreases k - p
  {
    if p < k {
      assert stream[p] in stream[..k];
      assert StepAsWritten(stream, Loop(p, HeadersOf(stream, p), false)) ==
        Loop(p + 1, HeadersOf(stream, p + 1), false);
      AsWrittenReachesBlank(stream, k, p + 1);
    }
  }

  /** `headers.get("Upgrade", "").lower() == "websocket"` */
  predicate WantsUpgrade(h: Headers)
    ensures WantsUpgrade(h) ==> "Upgrade" in h
  {
    Lower(if "Upgrade" in h then h["Upgrade"] else "") == "websocket"
  }

  /** The value is compared ignoring case, the header name exactly. */
  lemma UpgradeCases(h: Headers)
    ensures WantsUpgrade(h) ==> "Upgrade" in h
    ensures WantsUpgrade(h["Upgrade" := "WebSocket"])
    ensures !WantsUpgrade(map["upgrade" := "websocket"])
    ensures !WantsUpgrade(h["Upgrade" := "websocket, h2c"])
  {
    assert |"websocket"| == 9;
    var w := Lower("WebSocket");
    assert w[0] == 'w' && w[3] == 's';
    assert w == "websocket";
  }

  /** The `Sec-WebSocket-Accept` value: base64 of the SHA-1 digest of the
      key's UTF-8 bytes followed by the GUID, newline stripped. The digest
      function is a parameter. */
  function Accept(key: string, sha1: seq<byte> -> seq<byte>): string {
    Strip(Base64.B2aBase64(sha1(Utf8.Encode(key + GUID))))
  }

  /** The accept value is exactly the base64 of the digest, and decodes back
      to it. */
  lemma AcceptIsDigest(key: string, sha1: seq<byte> -> seq<byte>)
    ensures Accept(key, sha1) == Base64.Encode(sha1(Utf8.Encode(key + GUID)))
    ensures Base64.Decode(Accept(key, sha1)) == Some(sha1(Utf8.Encode(key + GUID)))
    ensures |sha1(Utf8.Encode(key + GUID))| == 20 ==> |Accept(key, sha1)| == 28
  {
    var digest := sha1(Utf8.Encode(key + GUID));
    DigestText(digest);
  }

  /** The stripped `b2a_base64` text of a digest is its encoding, which
      decodes back to it; 20 bytes take 28 characters. */
  lemma DigestText(digest: seq<byte>)
    ensures Strip(Base64.B2aBase64(digest)) == Base64.Encode(digest)
    ensures Base64.Decode(Base64.Encode(digest)) == Some(digest)
    ensures |digest| == 20 ==> |Base64.Encode(digest)| == 28
  {
    Base64.StrippedB2a(digest);
    Base64.DecodeEncode(digest);
    if |digest| == 20 {
      assert |Base64.Encode(digest)| == 4 * ((20 + 2) / 3);
    }
  }

  const SAMPLE_KEY: string := "dGhlIHNhbXBsZSBub25jZQ=="
  /** SHA-1 of the sample key and the GUID, from section 1.3 of RFC 6455. */
  const SAMPLE_DIGEST: seq<byte> :=
    [0xb3, 0x7a, 0x4f] + ([0x2c, 0xc0, 0x62] + ([0x4f, 0x16, 0x90] + ([0xf6, 0x46, 0x06] +
    ([0xcf, 0x38, 0x59] + ([0x45, 0xb2, 0xbe] + [0xc4, 0xea])))))
  /** "s3pPLMBiTxaQ9kYGzzhZRbK+xOo=", written in groups of four. */
  const SAMPLE_ACCEPT: string :=
    "s3pP" + ("LMBi" + ("TxaQ" + ("9kYG" + ("zzhZ" + ("RbK+" + "xOo=")))))

  lemma SampleGroups()
    ensures Base64.Quad(0xb3, 0x7a, 0x4f) == "s3pP"
    ensures Base64.Quad(0x2c, 0xc0, 0x62) == "LMBi"
    ensures Base64.Quad(0x4f, 0x16, 0x90) == "TxaQ"
  {
  }

  lemma SampleGroups2()
    ensures Base64.Quad(0xf6, 0x46, 0x06) == "9kYG"
    ensures Base64.Quad(0xcf, 0x38, 0x59) == "zzhZ"
    ensures Base64.Quad(0x45, 0xb2, 0xbe) == "RbK+"
    ensures Base64.Encode([0xc4, 0xea]) == "xOo="
  {
  }

  /** The base64 text of the sample digest, one group at a time. */
  lemma SampleDigestBase64()
    ensures Base64.Encode(SAMPLE_DIGEST) == SAMPLE_ACCEPT
  {
    SampleGroups();
    SampleGroups2();
    var t5: seq<byte> := [0x45, 0xb2, 0xbe] + [0xc4, 0xea];
    Base64.EncodeGroup(0x45, 0xb2, 0xbe, [0xc4, 0xea]);
    var t4 := [0xcf, 0x38, 0x59] + t5;
    Base64.EncodeGroup(0xcf, 0x38, 0x59, t5);
    var t3 := [0xf6, 0x46, 0x06] + t4;
    Base64.EncodeGroup(0xf6, 0x46, 0x06, t4);
    var t2 := [0x4f, 0x16, 0x90] + t3;
    Base64.EncodeGroup(0x4f, 0x16, 0x90, t3);
    var t1 := [0x2c, 0xc0, 0x62] + t2;
    Base64.EncodeGroup(0x2c, 0xc0, 0x62, t2);
    Base64.EncodeGroup(0xb3, 0x7a, 0x4f, t1);
  }

  /** The worked example of section 1.3 of RFC 6455. */
  lemma SampleAccept(sha1: seq<byte> -> seq<byte>)
    requires sha1(Utf8.Encode(SAMPLE_KEY + GUID)) == SAMPLE_DIGEST
    ensures Accept(SAMPLE_KEY, sha1) == SAMPLE_ACCEPT
  {
    AcceptIsDigest(SAMPLE_KEY, sha1);
    SampleDigestBase64();
  }

  const STATUS_101: string := "HTTP/1.1 101 Switching Protocols\r\n"

  /** A header line as the server writes it: name, ": ", value, "\r\n". */
  function HeaderLine(name: string, value: string): string {
    name + ":" + (" " + value + "\r\n")
  }

  /** A line the server writes reads back as its name and value. */
  lemma HeaderLineReadsBack(name: string, value: string)
    requires ':' !in name && NoSpaceAtEnds(name) && NoSpaceAtEnds(value)
    ensures HeaderEntry(HeaderLine(name, value)) == Some((name, value))
  {
    SplitAtFirstColon(name, " " + value + "\r\n");
    StripWrittenValue(value);
    StripClean(name);
  }

  /** The value as written, after ": " and before "\r\n", strips to itself. */
  lemma StripWrittenValue(value: string)
    requires NoSpaceAtEnds(value)
    ensures Strip(" " + value + "\r\n") == value
  {
    StripPadded(" ", value, "\r\n");
  }

  /** A header the server can write so that it reads back unchanged. */
  predicate Writable(name: string, value: string) {
    ':' !in name && NoSpaceAtEnds(name) && NoSpaceAtEnds(value)
  }

  /** The first `n` pairs of a list are all writable. */
  predicate AllWritable(pairs: seq<(string, string)>, n: nat)
    requires n <= |pairs|
    decreases n
  {
    n == 0 || (AllWritable(pairs, n - 1) && Writable(pairs[n - 1].0, pairs[n - 1].1))
  }

  /** The lines of a list of headers, in order. */
  function WrittenLines(pairs: seq<(string, string)>): (r: seq<string>)
    ensures |r| == |pairs|
    ensures forall i :: 0 <= i < |pairs| ==> r[i] == HeaderLine(pairs[i].0, pairs[i].1)
  {
    seq(|pairs|, i requires 0 <= i < |pairs| => HeaderLine(pairs[i].0, pairs[i].1))
  }

  /** The map of the first `n` pairs of a list, a later pair overwriting an
      earlier one. */
  function PairsMap(pairs: seq<(string, string)>, n: nat): Headers
    requires n <= |pairs|
    decreases n
  {
    if n == 0 then map[] else PairsMap(pairs, n - 1)[pairs[n - 1].0 := pairs[n - 1].1]
  }

  /** The first `n` lines parse to the first `n` pairs. */
  predicate ParsesTo(lines: seq<string>, pairs: seq<(string, string)>, n: nat)
    requires n <= |lines| && n <= |pairs|
    decreases n
  {
    n == 0 || (ParsesTo(lines, pairs, n - 1) && HeaderEntry(lines[n - 1]) == Some(pairs[n - 1]))
  }

  /** Lines that parse to a list of pairs give the map of those pairs. */
  lemma {:induction false} HeadersOfParsed(lines: seq<string>, pairs: seq<(string, string)>, n: nat)
    requires n <= |lines| && n <= |pairs| && ParsesTo(lines, pairs, n)
    ensures HeadersOf(lines, n) == PairsMap(pairs, n)
    decreases n
  {
    if n > 0 {
      HeadersOfParsed(lines, pairs, n - 1);
      ParsedLineSets(HeadersOf(lines, n - 1), lines[n - 1], pairs[n - 1]);
    }
  }

  /** A line that parses to a pair sets that pair's key to its value. */
  lemma ParsedLineSets(h: Headers, line: string, kv: (string, string))
    requires HeaderEntry(line) == Some(kv)
    ensures AddHeader(h, line) == h[kv.0 := kv.1]
  {
  }

  lemma WrittenLineParses(line: string, kv: (string, string))
    requires Writable(kv.0, kv.1) && line == HeaderLine(kv.0, kv.1)
    ensures HeaderEntry(line) == Some(kv)
  {
    HeaderLineReadsBack(kv.0, kv.1);
  }

  /** Written lines parse back to their pairs. */
  lemma {:induction false} WrittenLinesParse(pairs: seq<(string, string)>, n: nat)
    requires n <= |pairs| && AllWritable(pairs, n)
    ensures ParsesTo(WrittenLines(pairs), pairs, n)
    decreases n
  {
    if n > 0 {
      WrittenLinesParse(pairs, n - 1);
      WrittenLineParses(WrittenLines(pairs)[n - 1], pairs[n - 1]);
    }
  }

  /** Written headers read back as the map they describe. */
  lemma WrittenReadsBack(pairs: seq<(string, string)>, n: nat)
    requires n <= |pairs| && AllWritable(pairs, n)
    ensures HeadersOf(WrittenLines(pairs), n) == PairsMap(pairs, n)
  {
    WrittenLinesParse(pairs, n);
    HeadersOfParsed(WrittenLines(pairs), pairs, n);
  }

  /** The headers of the 101 reply. */
  function ReplyHeaders(accept: string): seq<(string, string)> {
    [("Upgrade", "websocket"), ("Connection", "Upgrade"), ("Sec-WebSocket-Accept", accept)]
  }

  /** Lines joined into one text. */
  function Concat(lines: seq<string>): string {
    if lines == [] then "" else lines[0] + Concat(lines[1..])
  }

  /** The reply to an upgrade request: the status line, the three header
      lines, the blank line. */
  function SwitchingReply(accept: string): string {
    STATUS_101 + Concat(WrittenLines(ReplyHeaders(accept))) + BLANK
  }

  /** The reply in full, as one text: the four literals of the source,
      the accept value, and the blank line. */
  lemma SwitchingReplyText(accept: string)
    ensures SwitchingReply(accept) ==
      "HTTP/1.1 101 Switching Protocols\r\n" + "Upgrade: websocket\r\n" + "Connection: Upgrade\r\n" +
      "Sec-WebSocket-Accept: " + accept + "\r\n\r\n"
  {
    var l0, l1 := "Upgrade: websocket\r\n", "Connection: Upgrade\r\n";
    var l2 := "Sec-WebSocket-Accept: " + accept + "\r\n";
    ReplyLines(accept);
    ConcatOfThree(l0, l1, l2);
    assert "\r\n\r\n" == "\r\n" + BLANK;
  }

  /** The three header lines of the reply. */
  lemma ReplyLines(accept: string)
    ensures WrittenLines(ReplyHeaders(accept)) ==
      ["Upgrade: websocket\r\n", "Connection: Upgrade\r\n", "Sec-WebSocket-Accept: " + accept + "\r\n"]
  {
    var ws := WrittenLines(ReplyHeaders(accept));
    assert ws == [HeaderLine("Upgrade", "websocket"), HeaderLine("Connection", "Upgrade"),
      HeaderLine("Sec-WebSocket-Accept", accept)];
    FixedReplyLines();
    HeaderLineText("Sec-WebSocket-Accept", accept);
  }

  /** The two header lines of the reply that do not depend on the key, and
      the name part of the third. */
  lemma FixedReplyLines()
    ensures HeaderLine("Upgrade", "websocket") == "Upgrade: websocket\r\n"
    ensures HeaderLine("Connection", "Upgrade") == "Connection: Upgrade\r\n"
    ensures "Sec-WebSocket-Accept" + ": " == "Sec-WebSocket-Accept: "
  {
    HeaderLineText("Upgrade", "websocket");
    assert "Upgrade" + ": " + "websocket" + "\r\n" == "Upgrade: websocket\r\n";
    HeaderLineText("Connection", "Upgrade");
    assert "Connection" + ": " + "Upgrade" + "\r\n" == "Connection: Upgrade\r\n";
  }

  lemma HeaderLineText(name: string, value: string)
    ensures HeaderLine(name, value) == name + ": " + value + "\r\n"
  {
    assert ": " == ":" + " ";
  }

  lemma ConcatOfThree(a: string, b: string, c: string)
    ensures Concat([a, b, c]) == a + b + c
  {
    assert Concat([c]) == c by {
      assert [c][1..] == [];
    }
    assert Concat([b, c]) == b + c by {
      assert [b, c][1..] == [c];
    }
    assert [a, b, c][1..] == [b, c];
  }

  /** The reply's header block ends at its blank line: no header line is
      blank. */
  lemma SwitchingReplyBlockEnds(accept: string)
    ensures FirstBlank(WrittenLines(ReplyHeaders(accept)) + [BLANK]) == Some(3)
  {
    var ws := WrittenLines(ReplyHeaders(accept));
    var ls := ws + [BLANK];
    assert |ws[0]| > 2 && |ws[1]| > 2 && |ws[2]| > 2;
    assert ls[..3] == ws;
    FirstBlankAt(ls, 3);
  }

  /** Reading the reply's header lines back yields the three headers it
      sends. */
  lemma SwitchingReplyReadsBack(accept: string)
    requires NoSpaceAtEnds(accept)
    ensures HeadersOf(WrittenLines(ReplyHeaders(accept)), 3) ==
      map["Upgrade" := "websocket", "Connection" := "Upgrade", "Sec-WebSocket-Accept" := accept]
  {
    var ps := ReplyHeaders(accept);
    assert Writable("Upgrade", "websocket") && Writable("Connection", "Upgrade");
    assert Writable("Sec-WebSocket-Accept", accept);
    WrittenReadsBack(ps, 3);
    assert PairsMap(ps, 1) == map["Upgrade" := "websocket"];
    assert PairsMap(ps, 2) == map["Upgrade" := "websocket", "Connection" := "Upgrade"];
  }

  /** `'HTTP/1.0 200 OK\r\nContent-Type: text/html\r\n\r\n'` */
  const PAGE_HEAD: string := "HTTP/1.0 200 OK\r\nContent-Type: text/html\r\n\r\n"

  /** What the server writes on one connection: the 101 reply, the page, or
      nothing but closing the connection. */
  datatype Served = Upgraded(reply: string) | Page(reply: string) | Closed

  /** The reply to a complete header block. An upgrade without a
      `Sec-WebSocket-Key` raises `KeyError`, and the handler closes the
      connection. */
  function Respond(h: Headers, html: string, sha1: seq<byte> -> seq<byte>): (r: Served)
    ensures r.Page? <==> !WantsUpgrade(h)
    ensures r.Closed? <==> WantsUpgrade(h) && "Sec-WebSocket-Key" !in h
  {
    if WantsUpgrade(h) then
      if "Sec-WebSocket-Key" in h then Upgraded(SwitchingReply(Accept(h["Sec-WebSocket-Key"], sha1)))
      else Closed
    else Page(PAGE_HEAD + html)
  }

  /** The lines left after the request line. */
  function HeaderStream(stream: seq<string>): seq<string> {
    if stream == [] then [] else stream[1..]
  }

  /** `serve_client` up to its reply: the request line, then the header
      block, then the reply. A stream that ends before the blank line is
      closed without a reply. */
  method ServeClient(stream: seq<string>, html: string, sha1: seq<byte> -> seq<byte>) returns (s: Served)
    ensures FirstBlank(HeaderStream(stream)).None? ==> s == Closed
    ensures FirstBlank(HeaderStream(stream)).Some? ==>
      s == Respond(HeadersOf(HeaderStream(stream), FirstBlank(HeaderStream(stream)).value), html, sha1)
  {
    var complete, headers := ReadHeaders(HeaderStream(stream));
    if !complete {
      return Closed;
    }
    if WantsUpgrade(headers) {
      if "Sec-WebSocket-Key" !in headers {
        return Closed;
      }
      var accept := Accept(headers["Sec-WebSocket-Key"], sha1);
      s := Upgraded(SwitchingReply(accept));
    } else {
      s := Page(PAGE_HEAD + html);
    }
  }

  /** The header lines of the sample request of section 1.3 of RFC 6455
      that the server looks at. */
  const SAMPLE_REQUEST: seq<(string, string)> := [("Upgrade", "websocket"), ("Sec-WebSocket-Key", SAMPLE_KEY)]

  /** The sample request's lines read back as its two headers. */
  lemma SampleRequestHeaders()
    ensures HeadersOf(WrittenLines(SAMPLE_REQUEST), 2) ==
      map["Upgrade" := "websocket", "Sec-WebSocket-Key" := SAMPLE_KEY]
  {
    var ps := SAMPLE_REQUEST;
    assert AllWritable(ps, 2) by {
      assert Writable("Upgrade", "websocket") && Writable("Sec-WebSocket-Key", SAMPLE_KEY);
    }
    WrittenReadsBack(ps, 2);
    assert PairsMap(ps, 1) == map["Upgrade" := "websocket"];
  }

  /** An upgrade request carrying a key, whatever the case of its
      `Upgrade` value ("websocket", "WebSocket", ...), gets the 101 reply
      with that key's accept value. */
  lemma UpgradeGetsSwitchingReply(h: Headers, html: string, sha1: seq<byte> -> seq<byte>)
    requires WantsUpgrade(h) && "Sec-WebSocket-Key" in h
    ensures Respond(h, html, sha1) == Upgraded(SwitchingReply(Accept(h["Sec-WebSocket-Key"], sha1)))
  {
  }

  /** The lower-case value "websocket" asks for an upgrade. */
  lemma LowerCaseUpgrade(h: Headers)
    requires "Upgrade" in h && h["Upgrade"] == "websocket"
    ensures WantsUpgrade(h)
  {
    LowerKeepsLower("websocket");
  }

  /** The handshake of section 1.3 of RFC 6455, end to end. */
  lemma SampleHandshake(html: string, sha1: seq<byte> -> seq<byte>)
    requires sha1(Utf8.Encode(SAMPLE_KEY + GUID)) == SAMPLE_DIGEST
    ensures Respond(HeadersOf(WrittenLines(SAMPLE_REQUEST), 2), html, sha1) ==
      Upgraded(SwitchingReply(SAMPLE_ACCEPT))
  {
    SampleRequestHeaders();
    var h := map["Upgrade" := "websocket", "Sec-WebSocket-Key" := SAMPLE_KEY];
    LowerCaseUpgrade(h);
    UpgradeGetsSwitchingReply(h, html, sha1);
    SampleAccept(sha1);
  }

  /** Every request that does not ask for an upgrade gets the page: one
      without an `Upgrade` header, and one whose value does not lower-case
      to "websocket", such as "h2c". */
  lemma PlainRequestGetsPage(h: Headers, html: string, sha1: seq<byte> -> seq<byte>)
    requires !WantsUpgrade(h)
    ensures Respond(h, html, sha1) == Page(PAGE_HEAD + html)
  {
  }

  /** A value other than "websocket" in any case, "h2c" here, gets the
      page. */
  lemma OtherUpgradeGetsPage(h: Headers, html: string, sha1: seq<byte> -> seq<byte>)
    ensures Respond(h["Upgrade" := "h2c"], html, sha1) == Page(PAGE_HEAD + html)
  {
    var l := Lower("h2c");
    assert |l| == 3;
  }

  /** A request without an `Upgrade` header line gets the page. */
  lemma NoUpgradeLineGetsPage(lines: seq<string>, n: nat, html: string, sha1: seq<byte> -> seq<byte>)
    requires n <= |lines|
    requires forall i :: 0 <= i < n ==> !DefinesKey(lines[i], "Upgrade")
    ensures Respond(HeadersOf(lines, n), html, sha1) == Page(PAGE_HEAD + html)
  {
    if "Upgrade" in HeadersOf(lines, n) {
      var i := HeadersOfLastWins(lines, n, "Upgrade");
    }
    PlainRequestGetsPage(HeadersOf(lines, n), html, sha1);
  }
}

# Irrigation workshop firmware, modelled in Dafny

The irrigation workshop firmware is MicroPython for a Raspberry Pi Pico. It
reads a soil-moisture sensor, runs a pump when the soil is too dry and serves
a small web interface. This project models two pieces of its logic, with the
hardware and the sockets stripped away.

1. **The web-interface system** (`code/full_system_w_webinterface/main.py`):
   - the two ten-entry history lists (`history`, `pump_history`), each
     appended and then trimmed with `pop(0)` (module `Fifo`);
   - the pump and its one-hour cooldown guard (`activate_pump`,
     `check_watering`, `last_pump_time`);
   - the three scheduler modes of the main loop (`test`, `interval`,
     `daily`) with `last_measure`;
   - the daily-time matcher `should_run_now`, which compares the local
     `HH:MM` at UTC+2 with the `daily_times` entries (module `LocalTime`);
   - the HTTP handler of `start_webserver`: first-match substring routing,
     the `/data` reply, the `Content-Length` read, the `config.update`
     merge of `/update`, and the unguarded pump of `/pump` (module
     `WebInterface`).

   The module-level globals are the fields of the class `Irrigation.Device`.
   Every function that updates them in place is a method with a `modifies`
   clause. The clock is an input: every `utime.time()` reading the source
   takes is its own parameter.

2. **The WebSocket server** (root `main.py`):
   - the `serve_client` header loop, which reads lines into a dict until a
     bare `"\r\n"` (module `Handshake`);
   - the upgrade test;
   - the `Sec-WebSocket-Accept` value, the base64 of the SHA-1 of the key
     followed by the GUID (section 4.2.2 of RFC 6455), with base64 as in
     section 4 of RFC 4648 (module `Base64`);
   - the exact 101 reply and the plain page reply;
   - the `send_ws_message` text-frame encoder of section 5.2 of RFC 6455
     (module `WsFrame`).

   SHA-1 is a function parameter. The reader is the sequence of lines it
   would return.

Supporting modules:
- `Wrappers` holds `Option` and `Result`.
- `Text` models the `str` operations used: `strip`, `lower`, `in`,
  `startswith`, `split(":")`, `split("\r\n")` and `int`.
- `Json` holds the JSON values of the configuration.
- `Bytes` and `Utf8` model `str.encode()`.

Two behaviours of the code that the model keeps as they are:
- Routing is by substring anywhere in the request (`"GET /data" in req`), not
  by method and path.
- `/update` merges what it is sent without validating the thresholds.

## Model

| member | source | states |
|---|---|---|
| Fifo.Push | code/full_system_w_webinterface/main.py:104-106 | append then drop the oldest entry: at most ten entries, the new value is last, and the result is the last entries of the old list plus the new value |
| Fifo.PushAllKeepsLast | code/full_system_w_webinterface/main.py:131-133 | starting from at most ten entries, any run of appends leaves exactly the last ten of everything seen, in insertion order |
| Fifo.HistoryFromBoot | code/full_system_w_webinterface/main.py:131-133 | from the empty list at boot, the history is the last min(N,10) samples appended, in order; never more than ten entries; the newest is last |
| Irrigation.Device.constructor | code/full_system_w_webinterface/main.py:14-28 | boot state: empty histories, no pump time, the loaded config, `mode = config.get("mode", "interval")`, `last_measure = 0` |
| Irrigation.Device.ActivatePump | code/full_system_w_webinterface/main.py:101-113 | the START time goes into the pump history (bounded push); `last_pump_time` ends as the time after the run, or stays at the start time when the run raises (a missing or non-numeric `pump_duration`) |
| Irrigation.WaterDecision | code/full_system_w_webinterface/main.py:117-122 | the decision raises exactly when `moisture_threshold` is missing or not a number, and never pumps while the cooldown guard refuses |
| Irrigation.Device.CheckWatering | code/full_system_w_webinterface/main.py:117-122 | pumps exactly when `WaterDecision` is true; otherwise nothing changes; a missing or non-numeric threshold is reported as a fault |
| Irrigation.Device.MeasureAndAct | code/full_system_w_webinterface/main.py:125-134 | the sample is pushed onto the bounded history, then the watering check runs on its percentage |
| Irrigation.Device.Tick | code/full_system_w_webinterface/main.py:220-241 | a cycle runs exactly when `Decide` says so; a tick where `Decide` says no raises nothing and leaves every field unchanged; a fault of `Decide` is reported; `last_measure` becomes `now` after a cycle that did not raise |
| Irrigation.Decide | code/full_system_w_webinterface/main.py:220-241 | only the `interval` and `daily` modes can raise; outside the interval mode a cycle runs only when at least ten seconds have passed since the last |
| Irrigation.IntervalSeconds | code/full_system_w_webinterface/main.py:228-229 | `int(config.get("interval_hours", 1) * 3600)`: 3600 by default; a number is multiplied and truncated; a string is repeated 3600 times and read by `int`; every fault names `interval_hours` |
| Irrigation.IntervalZeroString | code/full_system_w_webinterface/main.py:228-230 | an `interval_hours` string of zeros such as "0" repeats to a zero wait, so the interval mode runs on every tick |
| Irrigation.IntervalDigitString | code/full_system_w_webinterface/main.py:228-229 | a digit string naming a positive number, such as "1", repeats to a wait of at least 10^3599 seconds, so the interval mode never runs again |
| Irrigation.IntervalOtherString | code/full_system_w_webinterface/main.py:228-229 | an empty or non-digit string such as "0.5" makes `int` raise `ValueError` |
| Irrigation.ShouldRunNow | code/full_system_w_webinterface/main.py:137-141 | `hhmm in config["daily_times"]` raises exactly when the key is missing or its value is not a list, string or object |
| Irrigation.PumpDurationFault | code/full_system_w_webinterface/main.py:107-110 | the pump run raises exactly when `pump_duration` is missing or not a number |
| Irrigation.CooldownFromPumpEnd | code/full_system_w_webinterface/main.py:117-122 | after a run that ended at `end`, dry soil pumps again iff `now > end + 3600` (strict, measured from the end of the run) |
| Irrigation.WetSoilNeverPumps | code/full_system_w_webinterface/main.py:117-118 | soil at or above `moisture_threshold` never starts the pump |
| Irrigation.ZeroPumpTimeIsNever | code/full_system_w_webinterface/main.py:121 | `not last_pump_time`: a pump time of 0 is treated like `None` |
| Irrigation.Trunc | code/full_system_w_webinterface/main.py:229 | `int(x)` truncates toward zero, for negative values too |
| Irrigation.ShouldRunNowInList | code/full_system_w_webinterface/main.py:137-141 | with a list of times, `should_run_now` is true iff some entry is a zero-padded `HH:MM` naming the current local minute |
| Irrigation.DefaultDailyTimes | code/full_system_w_webinterface/config.py:12 | with the default config, the daily check fires only at 16:35 local time; "5:00", "6:00" and "8:00" can never match |
| Irrigation.IntervalDefaultsToOneHour | code/full_system_w_webinterface/main.py:228-230 | `interval` mode without `interval_hours` runs iff at least 3600 s have passed |
| Irrigation.IntervalHalfHour | code/full_system_w_webinterface/main.py:229-230 | `interval_hours` of 0.5 waits `int(0.5*3600)` = 1800 s |
| Irrigation.UnknownModeNeverRuns | code/full_system_w_webinterface/main.py:223-239 | any mode other than test, interval and daily never runs a cycle |
| Irrigation.NoCycleWithinTenSeconds | code/full_system_w_webinterface/main.py:220-239 | once a cycle ran at `now`, no mode runs another within ten seconds (in the interval mode, when the interval is at least ten seconds) |
| Irrigation.DailyRunsOncePerMinute | code/full_system_w_webinterface/main.py:234-239 | daily mode at local 08:00 runs once, and the tick one second later does not, because of the 60 s guard |
| LocalTime.LocalHour | code/full_system_w_webinterface/main.py:138 | the hour of `localtime(t + 7200)` is below 24 |
| LocalTime.LocalMinute | code/full_system_w_webinterface/main.py:138 | the minute of `localtime(t + 7200)` is below 60 |
| LocalTime.TwoDigits | code/full_system_w_webinterface/main.py:139 | `"{:02}"` gives exactly two digits |
| LocalTime.Hhmm | code/full_system_w_webinterface/main.py:139 | the formatted time is always five characters: two digits, ':', two digits |
| LocalTime.ClockTextParses | code/full_system_w_webinterface/main.py:139 | the zero-padded text of h:m reads back as h*60+m |
| LocalTime.MinuteOfDaySplits | code/full_system_w_webinterface/main.py:138 | the minute of the local day equals hour*60 + minute of the local time |
| LocalTime.HhmmParses | code/full_system_w_webinterface/main.py:138-139 | the formatted time reads back as the minute of the local day |
| LocalTime.HhmmMatches | code/full_system_w_webinterface/main.py:138-141 | the formatted time equals the padded text of h:m iff t falls in that local minute |
| LocalTime.UnpaddedNeverMatches | code/full_system_w_webinterface/main.py:141 | an entry that is not five characters long never equals the formatted time |
| LocalTime.EntryMatches | code/full_system_w_webinterface/main.py:139-141 | an entry equals the formatted time iff it is a well-formed `HH:MM` naming the current local minute |
| WebInterface.IndexAlternativeIsRedundant | code/full_system_w_webinterface/main.py:185 | the `or "GET /index.html" in req` alternative never changes the route |
| WebInterface.DataShadowsAllRoutes | code/full_system_w_webinterface/main.py:158 | any request containing "GET /data" anywhere gets the data reply, ahead of every other route |
| WebInterface.NotFoundIff | code/full_system_w_webinterface/main.py:158-196 | 404 iff the request contains none of "GET /", "POST /update" and "POST /pump" |
| WebInterface.RouteOf | code/full_system_w_webinterface/main.py:158-196 | the data reply exactly when "GET /data" occurs anywhere; the update and pump routes only when their pattern occurs |
| WebInterface.SecondField | code/full_system_w_webinterface/main.py:172 | `line.split(":")[1]` holds no colon |
| WebInterface.NoContentLengthIsZero | code/full_system_w_webinterface/main.py:169-173 | no "Content-Length:" line means length 0 |
| WebInterface.ContentLengthLine | code/full_system_w_webinterface/main.py:171-172 | a line "Content-Length: n" reads as n |
| WebInterface.FirstContentLengthWins | code/full_system_w_webinterface/main.py:169-173 | the first line starting with "Content-Length:" decides the length, whatever later lines say |
| WebInterface.ContentLengthOfRequest | code/full_system_w_webinterface/main.py:170-173 | the same, read off the CRLF-joined request text through `split("\r\n")` |
| WebInterface.PairsOf | code/full_system_w_webinterface/main.py:176 | `dict.update` on a list applies the pairs of the longest prefix whose elements are all pairs, and completes exactly when every element is a pair |
| WebInterface.PairsToMapLastWins | code/full_system_w_webinterface/main.py:176 | a pair sets its key unless a later pair sets the same key |
| WebInterface.PairsToMapKeys | code/full_system_w_webinterface/main.py:176 | every key set by a list of pairs is the key of one of them |
| WebInterface.EmptyListUpdate | code/full_system_w_webinterface/main.py:175-179 | the body `[]` changes nothing and the update completes |
| WebInterface.PairListUpdate | code/full_system_w_webinterface/main.py:175-179 | the body `[["pump_duration", 10]]` sets `pump_duration` to 10 and nothing else |
| WebInterface.PartialUpdate | code/full_system_w_webinterface/main.py:175-176 | the body `[["name", "x"], 5]` applies the first pair and then raises on 5 |
| WebInterface.Merge | code/full_system_w_webinterface/main.py:176 | `config.update`: every key of the body takes its new value, every other key is unchanged, no key is lost or invented |
| WebInterface.MergeIdempotent | code/full_system_w_webinterface/main.py:176 | posting the same update twice equals posting it once |
| WebInterface.DataBody | code/full_system_w_webinterface/main.py:159-164 | the `/data` object has exactly the keys history, last_pump, pump_history and mode |
| WebInterface.SamplesRoundTrip | code/full_system_w_webinterface/main.py:160 | a client reads the serialised history back exactly |
| WebInterface.TimesRoundTrip | code/full_system_w_webinterface/main.py:162 | a client reads the serialised pump history back exactly |
| WebInterface.DataRoundTrip | code/full_system_w_webinterface/main.py:159-165 | a client reading the `/data` reply gets both histories, the last pump time (or null) and the mode back exactly |
| WebInterface.HandleRequest | code/full_system_w_webinterface/main.py:158-196 | the reply and the state change of each route; only `/update` changes the config, only `/pump` changes the pump state (with no cooldown check), and nothing changes `mode`, `history` or `last_measure` |
| WebInterface.ServeUpdate | code/full_system_w_webinterface/main.py:168-179 | the keys and values of an object or of a list of pairs are merged into config, pair by pair; "OK" is sent when the update completes; a body that raised sends nothing, and leaves config as the pairs before the fault made it |
| WebInterface.ServePump | code/full_system_w_webinterface/main.py:181-183 | `/pump` calls `activate_pump` directly: the start time is pushed, the pump time updated, "Pump started" sent unless the run raised |
| WebInterface.UpdateKeepsMode | code/full_system_w_webinterface/main.py:168-176 | an update that sets "mode" changes the config entry but not the scheduler's `mode` |
| Text.Strip | main.py:30 | `strip()` leaves no whitespace at either end and never lengthens the text |
| Text.StripPadded | main.py:30 | stripping whitespace padding gives back text that has none at its ends |
| Text.IndexOf | main.py:29 | the first occurrence of a character, or none exactly when it is absent |
| Text.Lower | main.py:33 | `lower()` keeps the length and lowers each ASCII capital |
| Text.ParseDecimal | code/full_system_w_webinterface/main.py:172 | `int(str(n))` gives n back |
| Text.Repeat | code/full_system_w_webinterface/main.py:229 | `s * n` for a string keeps the text all digits and is at least as long as the string |
| Text.DigitsValueConcat | code/full_system_w_webinterface/main.py:229 | the value of two digit strings joined is the first shifted by the length of the second, plus the second |
| Text.RepeatZero | code/full_system_w_webinterface/main.py:229 | a string of zeros repeated reads as 0 |
| Text.RepeatGrows | code/full_system_w_webinterface/main.py:229 | a digit string with a positive value repeated n times reads as at least 10^(n-1) |
| Text.SplitJoin | code/full_system_w_webinterface/main.py:170 | joining the pieces of `split("\r\n")` with "\r\n" gives the text back |
| Text.SplitPiecesHaveNoCrlf | code/full_system_w_webinterface/main.py:170 | no piece of `split("\r\n")` holds "\r\n" |
| Text.JoinSplit | code/full_system_w_webinterface/main.py:170 | lines without "\r\n" are recovered by splitting their join |
| Handshake.HeaderEntry | main.py:28-30 | a line yields an entry exactly when it contains ':' |
| Handshake.SplitAtFirstColon | main.py:29-30 | the line is split at its FIRST colon; the key and the value are the stripped halves, and the value may hold further colons |
| Handshake.AddHeader | main.py:28-30 | a header line never removes a key, and a line without a colon changes nothing |
| Handshake.AddHeaderLookup | main.py:28-30 | one line's effect on one key: it sets the key iff it defines it, and leaves every other key alone |
| Handshake.DefinedKeyIsPresent | main.py:28-30 | a key that some line defines is in the headers |
| Handshake.HeadersOfLastWins | main.py:28-30 | a present key has the value of the LAST line that defines it, so a later duplicate overwrites an earlier one |
| Handshake.FirstBlank | main.py:24-27 | the position of the first bare "\r\n" line, with none before it |
| Handshake.ReadHeaders | main.py:23-30 | the loop reads lines until the first bare "\r\n"; the headers are those of the lines before it; a stream without one is reported incomplete |
| Handshake.AsWrittenNeverStops | main.py:24-27 | the loop as written never leaves when the stream ends before a blank line |
| Handshake.AsWrittenReachesBlank | main.py:24-30 | when the blank line comes, the loop as written stops there with the headers `ReadHeaders` returns |
| Handshake.WantsUpgrade | main.py:33 | an upgrade is asked for only when an `Upgrade` header is present |
| Handshake.UpgradeCases | main.py:33 | the value is compared ignoring case and the header name exactly: "WebSocket" upgrades, a lower-case "upgrade" key does not, "websocket, h2c" does not |
| Handshake.AcceptIsDigest | main.py:35-37 | the accept value is exactly base64(SHA1(key + GUID)), decodes back to the digest, and is 28 characters for a 20-byte digest |
| Handshake.DigestText | main.py:37 | `b2a_base64(d).decode().strip()` is the encoding of d, which decodes back to d |
| Handshake.SampleAccept | main.py:35-37 | the key "dGhlIHNhbXBsZSBub25jZQ==" gives "s3pPLMBiTxaQ9kYGzzhZRbK+xOo=" (section 1.3 of RFC 6455) |
| Handshake.HeaderLineReadsBack | main.py:39-44 | a header line as the server writes it parses back to its name and value |
| Handshake.WrittenReadsBack | main.py:23-30 | written header lines are read back by the header parser as the map they describe |
| Handshake.SwitchingReplyBlockEnds | main.py:39-44 | the 101 reply's header block ends at its blank line, after exactly three header lines |
| Handshake.SwitchingReplyReadsBack | main.py:39-44 | the 101 reply's lines parse back to Upgrade: websocket, Connection: Upgrade and Sec-WebSocket-Accept: accept |
| Handshake.SwitchingReplyText | main.py:39-44 | the reply is exactly "HTTP/1.1 101 Switching Protocols\r\nUpgrade: websocket\r\nConnection: Upgrade\r\nSec-WebSocket-Accept: " + accept + "\r\n\r\n" |
| Handshake.ReplyLines | main.py:40-43 | the three header lines of the reply, in order, each in the form "name: value\r\n" |
| Handshake.Respond | main.py:32-57 | the page goes out iff no upgrade is asked for; the connection is closed without reply iff an upgrade lacks a key |
| Handshake.ServeClient | main.py:18-61 | the request line is skipped, the header block read, then the reply sent; a stream that ends early is closed (corrected header loop; see Findings) |
| Handshake.UpgradeGetsSwitchingReply | main.py:33-44 | every request asking for an upgrade (an `Upgrade` value lower-casing to "websocket", in any case) that carries a key gets the 101 reply with that key's accept value |
| Handshake.LowerCaseUpgrade | main.py:33 | the value "websocket" asks for an upgrade |
| Handshake.SampleRequestHeaders | main.py:23-30 | the sample request's lines read back as its Upgrade and key headers |
| Handshake.SampleHandshake | main.py:18-44 | the sample handshake end to end: the sample request gets the 101 reply with "s3pPLMBiTxaQ9kYGzzhZRbK+xOo=" |
| Handshake.PlainRequestGetsPage | main.py:33-57 | every request that does not ask for an upgrade gets exactly "HTTP/1.0 200 OK\r\nContent-Type: text/html\r\n\r\n" plus the page, whether it has no `Upgrade` header or another value |
| Handshake.OtherUpgradeGetsPage | main.py:33-57 | a request with `Upgrade: h2c` gets the page |
| Handshake.NoUpgradeLineGetsPage | main.py:23-57 | a header block with no line defining `Upgrade` gets the page |
| Base64.Encode | main.py:37 | four characters for every started group of three bytes |
| Base64.DecodeEncode | main.py:37 | decoding the encoding of any bytes gives them back |
| Base64.EncodeAlphabet | main.py:37 | every character of an encoding is an alphabet character or '=' |
| Base64.EncodeIsPlain | main.py:37 | an encoding has no whitespace at its ends and no colon |
| Base64.StrippedB2a | main.py:37 | stripping the output of `b2a_base64` leaves exactly the encoding |
| Utf8.EncodeChar | main.py:72 | one to four bytes per character, one byte exactly for ASCII |
| Utf8.AsciiEncoding | main.py:72 | ASCII text encodes to one byte per character, each its code |
| Utf8.NonAsciiIsLonger | main.py:66-72 | text with a non-ASCII character encodes to more bytes than it has characters |
| WsFrame.ParseTextFrame | main.py:63-72 | a receiver reads the frame back as final, text, unmasked, carrying exactly the payload; only a payload over 65535 bytes is refused |
| WsFrame.FrameLayout | main.py:65-72 | `[0x81, n] + payload` for n < 126 and `[0x81, 126, n / 256, n % 256] + payload` up to 65535; length n+2 or n+4; mask bit clear |
| WsFrame.ExtendedLengthIsBigEndian | main.py:69-71 | bytes 2 and 3 read big-endian give back n, e.g. 200 gives 00 C8 |
| WsFrame.PackU16 | main.py:71 | `ustruct.pack(">H", n)` is two bytes that read back big-endian as n |
| WsFrame.ByteArray.Append | main.py:65 | `bytearray.append` adds one byte at the end |
| WsFrame.ByteArray.Extend | main.py:71-72 | `bytearray.extend` adds the bytes at the end |
| WsFrame.SendWsMessage | main.py:63-73 | the frame built in the byte array with the length of the UTF-8 payload is the text frame, and a receiver reads it back exactly |
| WsFrame.PackU16Wrapping | main.py:71 | MicroPython's `ustruct.pack(">H", n)`: two bytes reading back big-endian as n mod 65536, the same as `PackU16` up to 65535 |
| WsFrame.FrameAsWritten | main.py:63-73 | the frame as written starts with 0x81 and has the mask bit clear |
| WsFrame.AsWrittenAgreesOnAscii | main.py:66-72 | for ASCII messages the code as written sends the correct frame whenever one exists |
| WsFrame.AsWrittenBreaksOnNonAscii | main.py:66-72 | with any non-ASCII character, the frame as written announces fewer bytes than it sends and no receiver can read it |
| WsFrame.AsWrittenBreaksWhenLong | main.py:66-71 | a message over 65535 characters has its length wrapped to 16 bits, and no receiver can read the frame |
| WsFrame.AnnouncedLengthMismatch | main.py:66-72 | a frame whose length field as written disagrees with its payload is refused |
| WsFrame.AsWrittenExample | main.py:66-72 | for "é" the code as written sends 81 01 C3 A9; the correct frame is 81 02 C3 A9 |

## Left out

- Hardware and floating point: ADC reads, `read_moisture` and its voltage
  mapping, `round`, LED rendering (`update_leds` and the colour functions),
  the pump pin and `utime.sleep`. The sample's percentage and voltage are
  inputs.
- Network I/O with no logic to model: Wi-Fi, NTP, `send_data`,
  `notify_pump`, `socket`/`uasyncio` setup, and `cl.send`/`writer.awrite`.
  Replies are returned as values instead.
- File I/O: `load_config` reading config.json, the `json.dump` persistence
  after `/update`, and `load_html` / the `index.html` streaming. The
  loaded config and the page are parameters.
- JSON text: `json.loads` is a function parameter and `json.dumps` is not
  modelled. The `/data` reply is the value it would serialise.
- Concurrency: the `_thread` web server running beside the main loop, and
  `uasyncio` tasks. Each handler and each loop turn is one sequential
  method call on the shared `Device`.
- The WebSocket push loop after the upgrade (the sensor read, the `%.2f`
  message and `asyncio.sleep(2)`). `send_ws_message` is modelled for any
  message.
- SHA-1 is a function parameter, not an implementation.
- Byte decoding: the socket's bytes are taken to be already-decoded text.
  `recv(1024)` truncating a longer request is not modelled; the request
  text is a parameter. `readline` returns text lines.
- `print` calls, and the request line, which the server reads and only prints.
- Text.Strip: removes ASCII whitespace only, as MicroPython does, not the
  Unicode spaces CPython's `strip()` also removes.
- Text.Lower: lowers ASCII capitals only, as MicroPython does.
- Text.ParseInt: rejects the `_` digit separators CPython's `int()`
  accepts.
- Irrigation.IntervalSeconds: a string whose 3600-fold repetition `int`
  reads only through `_` separators (such as "1_2") is treated as raising
  `ValueError`.
- WsFrame.SendWsMessage: refusing a payload over 65535 bytes is the model's
  choice. The source writes no 64-bit length (section 5.2 of RFC 6455), and
  MicroPython's `ustruct.pack(">H", n)` keeps the low 16 bits without
  raising; `FrameAsWritten` models that wrap-around.
- Irrigation.Device.ActivatePump: the pump pin is not modelled. A
  non-numeric `pump_duration` raises in `utime.sleep` after `PUMP_PIN.on()`
  and before `PUMP_PIN.off()`, so the real pump is left running; the model
  shows only that `last_pump_time` keeps the start time.
- Irrigation.Device.MeasureAndAct: faults of `read_moisture` and
  `update_leds` are dropped. In the source a missing or non-numeric
  `min_voltage`/`max_voltage` (`KeyError`, `TypeError`), equal voltages
  (`ZeroDivisionError`) or a bad `low_threshold`/`medium_threshold` raise
  before `history.append` (code/full_system_w_webinterface/main.py:127-131); in the model every cycle that
  runs appends its sample.
- WebInterface.UpdateOf: an element of a pairs list that is a two-key
  object, or a key that is a number, boolean or null (a valid non-string
  dict key), is treated as raising.
- Json.Value: numbers are reals. The integer/float distinction of Python
  is visible only where the source truncates (`Irrigation.Trunc`).
- LocalTime.LocalHour: takes the device's epoch to start at midnight, which
  holds for both MicroPython epochs (1970 and 2000).

## Findings

| source | as written | input that shows it | evidently intended | confidence | as-written member | corrected member |
|---|---|---|---|---|---|---|
| main.py:66 | the frame's length field is `len(message)`, the number of characters, while the payload is `message.encode('utf-8')` | message "é": the header announces 1 byte and 2 are sent (81 01 C3 A9) | the length of the encoded payload | not executed; the sensor messages the server sends are ASCII, for which both agree | WsFrame.AsWrittenBreaksOnNonAscii | WsFrame.SendWsMessage |
| main.py:24-27 | the header loop leaves only on a bare "\r\n"; at end of stream `readline()` returns an empty line forever | a client that sends "GET / HTTP/1.1\r\n" and closes: the loop spins on empty lines | stop reading at end of stream and close the connection | not executed | Handshake.AsWrittenNeverStops | Handshake.ReadHeaders |

/** The request handler of `start_webserver` in
    code/full_system_w_webinterface/main.py: first-match substring routing,
    the `/data` reply, the `Content-Length` read and the configuration merge
    of `/update`, and the unguarded manual pump of `/pump`. Each accepted
    connection is one call of `HandleRequest` on the shared `Device`. */
module WebInterface {
  import opened Wrappers
  import opened Text
  import opened Fifo
  import opened Json
  import opened Irrigation

  datatype Route = Data | Update | Pump | Index | NotFound

  /** The `if`/`elif` chain of the handler: the first pattern that occurs
      anywhere in the request text wins. */
  function RouteOf(req: string): (r: Route)
    ensures r == Data <==> Contains(req, "GET /data")
    ensures r == Update ==> Contains(req, "POST /update")
    ensures r == Pump ==> Contains(req, "POST /pump")
  {
    if Contains(req, "GET /data") then Data
    else if Contains(req, "POST /update") then Update
    else if Contains(req, "POST /pump") then Pump
    else if Contains(req, "GET /") || Contains(req, "GET /index.html") then Index
    else NotFound
  }

  /** The `or "GET /index.html" in req` alternative never changes the
      route: a request containing it already contains "GET /". */
  lemma IndexAlternativeIsRedundant(req: string)
    ensures (Contains(req, "GET /") || Contains(req, "GET /index.html")) == Contains(req, "GET /")
  {
    if Contains(req, "GET /index.html") {
      ContainsPrefixOf(req, "GET /index.html", "GET /");
    }
  }

  /** Every request that mentions "GET /data" anywhere (another path such as
      "/data2" or "/database", or a header line) gets the data reply, ahead
      of every other route. */
  lemma DataShadowsAllRoutes(pre: string, post: string)
    ensures RouteOf(pre + "GET /data" + post) == Data
  {
    var req := pre + "GET /data" + post;
    assert req == pre + ("GET /data" + post);
    PrefixIsContained("GET /data" + post, "GET /data");
    ContainedInSuffix(pre, "GET /data" + post, "GET /data");
  }

  /** A request falls through to 404 exactly when it contains none of
      "GET /", "POST /update" and "POST /pump". */
  lemma NotFoundIff(req: string)
    ensures RouteOf(req) == NotFound <==>
      !Contains(req, "GET /") && !Contains(req, "POST /update") && !Contains(req, "POST /pump")
  {
    IndexAlternativeIsRedundant(req);
    if Contains(req, "GET /data") {
      ContainsPrefixOf(req, "GET /data", "GET /");
    }
  }

  // ---------------------------------------------------------------------
  // Content-Length

  const CONTENT_LENGTH: string := "Content-Length:"

  /** `line.split(":")[1]`: the text between the first and the second colon
      (or the end of the line). */
  function SecondField(line: string): (r: string)
    requires ':' in line
    ensures ':' !in r
  {
    var i := IndexOf(line, ':').value;
    var rest := line[i + 1..];
    match IndexOf(rest, ':')
    case None => rest
    case Some(j) => rest[..j]
  }

  /** The loop over the request lines: the first line starting with
      "Content-Length:" decides, through `int(...strip())`; no such line
      means 0. `None` is the `ValueError` of a value `int` cannot read. */
  function ContentLengthOfLines(lines: seq<string>): Option<int> {
    if lines == [] then Some(0)
    else if IsPrefix(CONTENT_LENGTH, lines[0]) then
      assert lines[0][14] == ':';
      ParseInt(Strip(SecondField(lines[0])))
    else ContentLengthOfLines(lines[1..])
  }

  function ContentLength(req: string): Option<int> {
    ContentLengthOfLines(SplitCrlf(req))
  }

  /** A request without any "Content-Length:" line has length 0. */
  lemma {:induction false} NoContentLengthIsZero(lines: seq<string>)
    requires forall k :: 0 <= k < |lines| ==> !IsPrefix(CONTENT_LENGTH, lines[k])
    ensures ContentLengthOfLines(lines) == Some(0)
  {
    if lines != [] {
      NoContentLengthIsZero(lines[1..]);
    }
  }

  /** `line.split(":")[1]` of a "Content-Length:" line is everything after
      the colon when the value holds no further colon. */
  lemma SecondFieldOfHeader(v: string)
    requires ':' !in v
    ensures SecondField(CONTENT_LENGTH + v) == v
  {
    var line := CONTENT_LENGTH + v;
    var r := IndexOf(line, ':');
    assert line[14] == ':';
    assert line[..14] == "Content-Length";
    assert r.value == 14;
    assert line[15..] == v;
  }

  /** The header as a client writes it, "Content-Length: <n>", is read as n. */
  lemma ContentLengthLine(n: nat)
    ensures ContentLengthOfLines(["Content-Length: " + Decimal(n)]) == Some(n)
  {
    var digits := Decimal(n);
    HeaderText(digits);
    SpacedDigits(digits);
    SecondFieldOfHeader(" " + digits);
    ParseDecimal(n);
    ContentLengthHead(CONTENT_LENGTH + (" " + digits));
  }

  lemma HeaderText(v: string)
    ensures "Content-Length: " + v == CONTENT_LENGTH + (" " + v)
  {
  }

  /** A single space before digits: no colon, and `strip()` removes the
      space. */
  lemma SpacedDigits(digits: string)
    requires AllDigits(digits) && digits != []
    ensures ':' !in " " + digits
    ensures Strip(" " + digits) == digits
  {
    assert forall i :: 1 <= i < |" " + digits| ==> (" " + digits)[i] == digits[i - 1];
    StripPadded(" ", digits, "");
    assert " " + digits + "" == " " + digits;
  }

  /** A first line starting with "Content-Length:" decides the length. */
  lemma ContentLengthHead(line: string)
    requires IsPrefix(CONTENT_LENGTH, line)
    ensures ':' in line
    ensures ContentLengthOfLines([line]) == ParseInt(Strip(SecondField(line)))
  {
    assert line[14] == ':';
  }

  /** In a request made of CRLF-separated lines, the first line starting with
      "Content-Length:" gives the length, whatever the lines after it say. */
  lemma {:induction false} FirstContentLengthWins(lines: seq<string>, i: nat, n: nat)
    requires i < |lines|
    requires lines[i] == "Content-Length: " + Decimal(n)
    requires forall k :: 0 <= k < i ==> !IsPrefix(CONTENT_LENGTH, lines[k])
    ensures ContentLengthOfLines(lines) == Some(n)
  {
    if i == 0 {
      ContentLengthLine(n);
      assert IsPrefix(CONTENT_LENGTH, lines[0]);
    } else {
      FirstContentLengthWins(lines[1..], i - 1, n);
    }
  }

  /** The same, read off the request text the socket delivers. */
  lemma ContentLengthOfRequest(lines: seq<string>, i: nat, n: nat)
    requires i < |lines|
    requires forall k, j :: 0 <= k < |lines| ==> !CrlfAt(lines[k], j)
    requires lines[i] == "Content-Length: " + Decimal(n)
    requires forall k :: 0 <= k < i ==> !IsPrefix(CONTENT_LENGTH, lines[k])
    ensures ContentLength(JoinCrlf(lines)) == Some(n)
  {
    JoinSplit(lines);
    FirstContentLengthWins(lines, i, n);
  }

  // ---------------------------------------------------------------------
  // The configuration merge

  /** `config.update(updates)`: a shallow merge in which the body's values win. */
  function Merge(config: map<string, Value>, updates: map<string, Value>): (r: map<string, Value>)
    ensures r.Keys == config.Keys + updates.Keys
    ensures forall k :: k in updates ==> r[k] == updates[k]
    ensures forall k :: k in config && k !in updates ==> r[k] == config[k]
  {
    config + updates
  }

  /** Posting the same update twice has the effect of posting it once. */
  lemma MergeIdempotent(config: map<string, Value>, updates: map<string, Value>)
    ensures Merge(Merge(config, updates), updates) == Merge(config, updates)
  {
  }

  /** What `config.update(updates)` is handed: an object, merged at once,
      or an iterable of key/value pairs, applied one at a time. `complete`
      is false when an element that is not a pair raised part way, after
      the pairs before it were applied. */
  datatype Update = Fields(fields: map<string, Value>) | Pairs(pairs: seq<(string, Value)>, complete: bool)

  /** One element of a pairs iterable: a two-element list with a string
      key, or a two-character string, whose characters are key and value.
      Anything else raises (`ValueError` for the wrong length, `TypeError`
      for a value that cannot be iterated or hashed). */
  function PairOf(v: Value): Option<(string, Value)> {
    match v
    case Arr(items) => if |items| == 2 && items[0].Str? then Some((items[0].s, items[1])) else None
    case Str(t) => if |t| == 2 then Some(([t[0]], Str([t[1]]))) else None
    case _ => None
  }

  /** The pairs `dict.update` applies from a list: those of the longest
      prefix whose elements are all pairs. */
  function PairsOf(items: seq<Value>): (u: Update)
    ensures u.Pairs? && |u.pairs| <= |items|
    ensures forall i :: 0 <= i < |u.pairs| ==> PairOf(items[i]) == Some(u.pairs[i])
    ensures u.complete <==> |u.pairs| == |items|
    ensures !u.complete ==> PairOf(items[|u.pairs|]).None?
  {
    if items == [] then Pairs([], true)
    else match PairOf(items[0])
      case None => Pairs([], false)
      case Some(p) =>
        var r := PairsOf(items[1..]);
        assert forall i :: 1 <= i < 1 + |r.pairs| ==> items[i] == items[1..][i - 1];
        Pairs([p] + r.pairs, r.complete)
  }

  /** What `config.update` does with a parsed body; `None` when it raises
      before changing anything (a number, boolean, null or non-empty string
      is not an iterable of pairs). */
  function UpdateFromJson(v: Value): Option<Update> {
    match v
    case Obj(fields) => Some(Fields(fields))
    case Arr(items) => Some(PairsOf(items))
    case Str(t) => if t == [] then Some(Pairs([], true)) else None
    case _ => None
  }

  /** The map of a list of pairs, a later pair overwriting an earlier one. */
  function PairsToMap(ps: seq<(string, Value)>): map<string, Value>
    decreases |ps|
  {
    if ps == [] then map[] else PairsToMap(ps[..|ps| - 1])[ps[|ps| - 1].0 := ps[|ps| - 1].1]
  }

  /** The keys and values an update sets. */
  function UpdateMap(u: Update): map<string, Value> {
    match u
    case Fields(fields) => fields
    case Pairs(ps, _) => PairsToMap(ps)
  }

  /** Whether `config.update` returns normally. */
  predicate Completes(u: Update) {
    u.Fields? || u.complete
  }

  /** A pair sets its key unless a later pair sets the same key. */
  lemma {:induction false} PairsToMapLastWins(ps: seq<(string, Value)>, i: nat)
    requires i < |ps| && forall j :: i < j < |ps| ==> ps[j].0 != ps[i].0
    ensures ps[i].0 in PairsToMap(ps) && PairsToMap(ps)[ps[i].0] == ps[i].1
    decreases |ps|
  {
    if i < |ps| - 1 {
      PairsToMapLastWins(ps[..|ps| - 1], i);
    }
  }

  /** Every key of the map is the key of some pair. */
  lemma {:induction false} PairsToMapKeys(ps: seq<(string, Value)>, k: string) returns (i: nat)
    requires k in PairsToMap(ps)
    ensures i < |ps| && ps[i].0 == k
    decreases |ps|
  {
    if ps[|ps| - 1].0 == k {
      i := |ps| - 1;
    } else {
      i := PairsToMapKeys(ps[..|ps| - 1], k);
    }
  }

  /** The body `[]` is an empty iterable: nothing changes, and the update
      completes. */
  lemma EmptyListUpdate(config: map<string, Value>)
    ensures UpdateFromJson(Arr([])) == Some(Pairs([], true))
    ensures Merge(config, UpdateMap(Pairs([], true))) == config
  {
  }

  /** The body `[["pump_duration", 10]]` sets that one key. */
  lemma PairListUpdate(config: map<string, Value>)
    ensures UpdateFromJson(Arr([Arr([Str("pump_duration"), Num(10.0)])])) ==
      Some(Pairs([("pump_duration", Num(10.0))], true))
    ensures Merge(config, UpdateMap(Pairs([("pump_duration", Num(10.0))], true))) ==
      config["pump_duration" := Num(10.0)]
  {
    var items := [Arr([Str("pump_duration"), Num(10.0)])];
    assert PairOf(items[0]) == Some(("pump_duration", Num(10.0)));
    assert items[1..] == [];
    assert PairsOf(items[1..]) == Pairs([], true);
    var ps := [("pump_duration", Num(10.0))];
    assert [("pump_duration", Num(10.0))] + [] == ps;
    assert PairsOf(items) == Pairs(ps, true);
    assert UpdateFromJson(Arr(items)) == Some(Pairs(ps, true));
    assert ps[..0] == [];
  }

  /** The body `[["name", "x"], 5]` sets "name", then raises on 5: the
      change stays in memory although the update does not complete. */
  lemma PartialUpdate()
    ensures UpdateFromJson(Arr([Arr([Str("name"), Str("x")]), Num(5.0)])) ==
      Some(Pairs([("name", Str("x"))], false))
  {
    var items := [Arr([Str("name"), Str("x")]), Num(5.0)];
    assert PairOf(items[0]) == Some(("name", Str("x")));
    assert items[1..] == [Num(5.0)];
    assert PairOf(Num(5.0)).None?;
    assert PairsOf([Num(5.0)]) == Pairs([], false);
    var ps := [("name", Str("x"))];
    assert ps + [] == ps;
    assert PairsOf(items) == Pairs(ps, false);
    assert UpdateFromJson(Arr(items)) == Some(Pairs(ps, false));
  }

  /** The configuration change `/update` makes: the length read from the
      headers, at most that many characters of what follows the first
      `recv`, parsed as JSON (`parseJson` stands for `json.loads`), and
      handed to `config.update`. `None` is any of the exceptions raised
      before the configuration changes. */
  function UpdateOf(req: string, incoming: string, parseJson: string -> Option<Value>): Option<Update> {
    match ContentLength(req)
    case None => None
    case Some(n) =>
      if n < 0 then None
      else
        var body := incoming[..Min(n, |incoming|)];
        match parseJson(body)
        case Some(v) => UpdateFromJson(v)
        case None => None
  }

  // ---------------------------------------------------------------------
  // The `/data` reply

  function SampleJson(s: Sample): Value {
    Arr([Num(s.percent), Num(s.voltage), Num(s.timestamp as real)])
  }

  function SamplesJson(h: seq<Sample>): seq<Value> {
    if h == [] then [] else [SampleJson(h[0])] + SamplesJson(h[1..])
  }

  function TimesJson(ts: seq<nat>): seq<Value> {
    if ts == [] then [] else [Num(ts[0] as real)] + TimesJson(ts[1..])
  }

  /** The dict `GET /data` serialises. */
  function DataBody(history: seq<Sample>, lastPump: Option<int>, pumpHistory: seq<nat>, mode: Value): (r: Value)
    ensures r.Obj? && r.fields.Keys == {"history", "last_pump", "pump_history", "mode"}
  {
    Obj(map[
      "history" := Arr(SamplesJson(history)),
      "last_pump" := (match lastPump case None => Null case Some(t) => Num(t as real)),
      "pump_history" := Arr(TimesJson(pumpHistory)),
      "mode" := mode])
  }

  /** A client's reading of a whole number. */
  function ReadNat(v: Value): Option<nat> {
    if v.Num? && v.n >= 0.0 && v.n.Floor as real == v.n then Some(v.n.Floor) else None
  }

  function ReadSample(v: Value): Option<Sample> {
    if v.Arr? && |v.items| == 3 && v.items[0].Num? && v.items[1].Num? then
      match ReadNat(v.items[2])
      case Some(ts) => Some(Sample(v.items[0].n, v.items[1].n, ts))
      case None => None
    else None
  }

  function ReadSamples(items: seq<Value>): Option<seq<Sample>> {
    if items == [] then Some([])
    else match (ReadSample(items[0]), ReadSamples(items[1..]))
      case (Some(s), Some(rest)) => Some([s] + rest)
      case _ => None
  }

  function ReadTimes(items: seq<Value>): Option<seq<nat>> {
    if items == [] then Some([])
    else match (ReadNat(items[0]), ReadTimes(items[1..]))
      case (Some(t), Some(rest)) => Some([t] + rest)
      case _ => None
  }

  lemma {:induction false} SamplesRoundTrip(h: seq<Sample>)
    ensures ReadSamples(SamplesJson(h)) == Some(h)
  {
    if h != [] {
      SamplesRoundTrip(h[1..]);
      assert (h[0].timestamp as real).Floor == h[0].timestamp;
      assert [h[0]] + h[1..] == h;
    }
  }

  lemma {:induction false} TimesRoundTrip(ts: seq<nat>)
    ensures ReadTimes(TimesJson(ts)) == Some(ts)
  {
    if ts != [] {
      TimesRoundTrip(ts[1..]);
      assert (ts[0] as real).Floor == ts[0];
      assert [ts[0]] + ts[1..] == ts;
    }
  }

  /** A client reading the `/data` reply gets back both histories, the last
      pump time and the mode exactly. */
  lemma DataRoundTrip(history: seq<Sample>, lastPump: Option<nat>, pumpHistory: seq<nat>, mode: Value)
    ensures var body := DataBody(history, if lastPump.None? then None else Some(lastPump.value), pumpHistory, mode).fields;
      && ReadSamples(body["history"].items) == Some(history)
      && ReadTimes(body["pump_history"].items) == Some(pumpHistory)
      && (lastPump.None? <==> body["last_pump"] == Null)
      && (lastPump.Some? ==> ReadNat(body["last_pump"]) == lastPump)
      && body["mode"] == mode
  {
    SamplesRoundTrip(history);
    TimesRoundTrip(pumpHistory);
    if lastPump.Some? {
      assert (lastPump.value as real).Floor == lastPump.value;
    }
  }

  // ---------------------------------------------------------------------
  // Handling one connection

  /** What the handler sends: a text, a status-and-headers text followed by
      the JSON serialisation of a value, or nothing (an exception was raised
      and the connection is just closed). */
  datatype Reply = Sent(text: string) | SentJson(head: string, body: Value) | NoReply

  const JSON_HEAD: string := "HTTP/1.0 200 OK\r\nContent-Type: application/json\r\n\r\n"
  const HTML_HEAD: string := "HTTP/1.0 200 OK\r\nContent-Type: text/html\r\n\r\n"
  const UPDATE_OK: string := "HTTP/1.0 200 OK\r\n\r\nOK"
  const PUMP_OK: string := "HTTP/1.0 200 OK\r\n\r\nPump started"
  const NOT_FOUND: string := "HTTP/1.0 404 Not Found\r\n\r\nNot found"
  const PAGE_ERROR: string := "Error loading page."

  /** One turn of the web server loop. `req` is the text of the first
      `recv`, `incoming` what a second `recv` can deliver, `page` the
      contents of index.html (`None` when it cannot be read), and
      `start`/`end` the clock readings of a manual pump run. */
  method HandleRequest(d: Device, req: string, incoming: string, parseJson: string -> Option<Value>,
                       page: Option<string>, start: nat, end: nat) returns (reply: Reply)
    requires d.Valid()
    modifies d`config, d`pumpHistory, d`lastPumpTime
    ensures d.Valid()
    ensures d.mode == old(d.mode) && d.history == old(d.history) && d.lastMeasure == old(d.lastMeasure)
    ensures RouteOf(req) != Update ==> d.config == old(d.config)
    ensures RouteOf(req) != Pump ==> d.pumpHistory == old(d.pumpHistory) && d.lastPumpTime == old(d.lastPumpTime)
    ensures RouteOf(req) == Data ==>
      reply == SentJson(JSON_HEAD, DataBody(d.history, d.lastPumpTime, d.pumpHistory, d.mode))
    ensures RouteOf(req) == Update ==>
      match UpdateOf(req, incoming, parseJson)
      case Some(u) => d.config == Merge(old(d.config), UpdateMap(u)) &&
        reply == (if Completes(u) then Sent(UPDATE_OK) else NoReply)
      case None => d.config == old(d.config) && reply == NoReply
    ensures RouteOf(req) == Pump ==>
      // no cooldown check: the pump runs whatever `last_pump_time` says
      && d.pumpHistory == Push(old(d.pumpHistory), start)
      && d.lastPumpTime == Some(if PumpDurationFault(d.config).None? then end else start)
      && reply == (if PumpDurationFault(d.config).None? then Sent(PUMP_OK) else NoReply)
    ensures RouteOf(req) == Index ==>
      reply == Sent(HTML_HEAD + (if page.Some? then page.value else PAGE_ERROR))
    ensures RouteOf(req) == NotFound ==> reply == Sent(NOT_FOUND)
  {
    match RouteOf(req)
    case Data =>
      reply := SentJson(JSON_HEAD, DataBody(d.history, d.lastPumpTime, d.pumpHistory, d.mode));
    case Update =>
      reply := ServeUpdate(d, UpdateOf(req, incoming, parseJson));
    case Pump =>
      reply := ServePump(d, start, end);
    case Index =>
      reply := Sent(HTML_HEAD + (if page.Some? then page.value else PAGE_ERROR));
    case NotFound =>
      reply := Sent(NOT_FOUND);
  }

  /** The `/update` branch: `config.update` on the parsed body, then the
      reply; the new configuration is also written to config.json, which is
      not modelled. When anything raised, no reply is sent, but pairs
      applied before the exception stay applied. */
  method ServeUpdate(d: Device, u: Option<Update>) returns (reply: Reply)
    requires d.Valid()
    modifies d`config
    ensures d.Valid()
    ensures u.Some? ==> d.config == Merge(old(d.config), UpdateMap(u.value))
    ensures u.Some? ==> reply == (if Completes(u.value) then Sent(UPDATE_OK) else NoReply)
    ensures u.None? ==> d.config == old(d.config) && reply == NoReply
  {
    if u.None? {
      return NoReply;
    }
    match u.value {
      case Fields(fields) =>
        d.config := Merge(d.config, fields);
      case Pairs(ps, _) =>
        var i := 0;
        while i < |ps|
          invariant 0 <= i <= |ps|
          invariant d.config == Merge(old(d.config), PairsToMap(ps[..i]))
        {
          MergeOnePair(old(d.config), ps[..i + 1]);
          assert ps[..i + 1][..i] == ps[..i];
          d.config := d.config[ps[i].0 := ps[i].1];
          i := i + 1;
        }
        assert ps[..|ps|] == ps;
    }
    reply := if Completes(u.value) then Sent(UPDATE_OK) else NoReply;
  }

  /** Applying one more pair to the merged configuration. */
  lemma MergeOnePair(config: map<string, Value>, ps: seq<(string, Value)>)
    requires ps != []
    ensures Merge(config, PairsToMap(ps)) ==
      Merge(config, PairsToMap(ps[..|ps| - 1]))[ps[|ps| - 1].0 := ps[|ps| - 1].1]
  {
  }

  /** The `/pump` branch: `activate_pump()` with no cooldown check. */
  method ServePump(d: Device, start: nat, end: nat) returns (reply: Reply)
    requires d.Valid()
    modifies d`pumpHistory, d`lastPumpTime
    ensures d.Valid()
    ensures d.pumpHistory == Push(old(d.pumpHistory), start)
    ensures d.lastPumpTime == Some(if PumpDurationFault(d.config).None? then end else start)
    ensures reply == (if PumpDurationFault(d.config).None? then Sent(PUMP_OK) else NoReply)
  {
    var fault := d.ActivatePump(start, end);
    reply := if fault.None? then Sent(PUMP_OK) else NoReply;
  }

  /** A client of the handler: an update whose body sets "mode" changes the
      configuration entry, but not the mode the scheduler and `/data` use,
      which only `load_config` assigns. */
  method UpdateKeepsMode(d: Device, req: string, incoming: string, parseJson: string -> Option<Value>, m: Value)
    requires d.Valid()
    requires RouteOf(req) == Update
    requires UpdateOf(req, incoming, parseJson).Some?
    requires "mode" in UpdateMap(UpdateOf(req, incoming, parseJson).value)
    requires UpdateMap(UpdateOf(req, incoming, parseJson).value)["mode"] == m
    modifies d
    ensures "mode" in d.config && d.config["mode"] == m
    ensures d.mode == old(d.mode)
  {
    var reply := HandleRequest(d, req, incoming, parseJson, None, 0, 0);
  }
}

/** The state store and scheduler of the web-interface firmware
    (code/full_system_w_webinterface/main.py): the two ten-entry histories,
    the pump cooldown guard, the live configuration, and the main loop's
    decision whether a measure-and-act cycle runs now.

    Sensor values, sleeping and the clock are inputs: every call to
    `utime.time()` the source makes is a separate parameter. */
module Irrigation {
  import opened Wrappers
  import opened Text
  import opened Fifo
  import opened Json
  import opened LocalTime

  /** One entry of `history`: the tuple `(percent, voltage, utime.time())`. */
  datatype Sample = Sample(percent: real, voltage: real, timestamp: nat)

  /** The exceptions a configuration lookup can raise. The scheduler loop
      has no handler, so one of these ends the scheduler; in the web thread
      it ends the request without a reply. */
  datatype Fault = KeyError(key: string) | TypeError(key: string) | ValueError(key: string)

  /** Minimum seconds between automatic pump runs, as `check_watering` has it. */
  const COOLDOWN: nat := 3600
  /** Cycle period of the "test" mode. */
  const TEST_PERIOD: nat := 10
  /** Minimum seconds between two "daily" cycles. */
  const DAILY_GUARD: nat := 60

  /** `default_config` of config.py, the configuration when no config.json
      can be loaded. */
  const DEFAULT_CONFIG: map<string, Value> := map[
    "name" := Str("Alex test plant"),
    "moisture_threshold" := Num(30.0),
    "pump_duration" := Num(5.0),
    "led_brightness" := Num(0.5),
    "min_voltage" := Num(0.5),
    "max_voltage" := Num(2.5),
    "low_threshold" := Num(30.0),
    "medium_threshold" := Num(50.0),
    "mode" := Str("daily"),
    "interval_hours" := Num(1.0),
    "daily_times" := Arr([Str("16:35"), Str("5:00"), Str("6:00"), Str("8:00")])
  ]

  /** `config[key]` */
  function Lookup(config: map<string, Value>, key: string): (r: Result<Value, Fault>)
    ensures r.Ok? <==> key in config
  {
    if key in config then Ok(config[key]) else Err(KeyError(key))
  }

  /** `config[key]` used as a number. */
  function NumberAt(config: map<string, Value>, key: string): (r: Result<real, Fault>)
    ensures r.Ok? <==> key in config && AsNumber(config[key]).Some?
  {
    var v :- Lookup(config, key);
    match AsNumber(v)
    case Some(x) => Ok(x)
    case None => Err(TypeError(key))
  }

  /** The global `mode`, as `load_config` sets it: `config.get("mode", "interval")`. */
  function ModeOf(config: map<string, Value>): Value {
    if "mode" in config then config["mode"] else Str("interval")
  }

  // ---------------------------------------------------------------------
  // The pump guard

  /** `not last_pump_time`: Python treats both `None` and `0` as false. */
  predicate Falsy(last: Option<int>) {
    last.None? || last == Some(0)
  }

  /** The guard of `check_watering`: never pumped (or pumped at time 0), or
      strictly more than an hour since the last pump run. */
  predicate PumpAllowed(last: Option<int>, now: int) {
    Falsy(last) || now - last.value > COOLDOWN
  }

  /** Whether `check_watering(percent)` starts the pump; an error when the
      threshold is missing or not a number. */
  function WaterDecision(config: map<string, Value>, last: Option<int>, percent: real, now: int): (r: Result<bool, Fault>)
    ensures r.Err? <==> NumberAt(config, "moisture_threshold").Err?
    ensures r == Ok(true) ==> PumpAllowed(last, now)
  {
    var threshold :- NumberAt(config, "moisture_threshold");
    Ok(percent < threshold && PumpAllowed(last, now))
  }

  /** The fault `activate_pump` raises when it reads `config["pump_duration"]`
      and hands it to `utime.sleep`. */
  function PumpDurationFault(config: map<string, Value>): (r: Option<Fault>)
    ensures r.None? <==> NumberAt(config, "pump_duration").Ok?
  {
    match NumberAt(config, "pump_duration")
    case Ok(_) => None
    case Err(f) => Some(f)
  }

  /** After a completed pump run that ended at `end` (non-zero), dry soil
      starts the pump again exactly when more than an hour has passed since
      `end`: the cooldown is measured from the end of the run. */
  lemma CooldownFromPumpEnd(config: map<string, Value>, end: nat, percent: real, now: int)
    requires NumberAt(config, "moisture_threshold").Ok?
    requires percent < NumberAt(config, "moisture_threshold").value
    requires end != 0
    ensures WaterDecision(config, Some(end), percent, now) == Ok(now > end + COOLDOWN)
  {
  }

  /** Soil at or above the threshold never starts the pump. */
  lemma WetSoilNeverPumps(config: map<string, Value>, last: Option<int>, percent: real, now: int)
    requires NumberAt(config, "moisture_threshold").Ok?
    requires percent >= NumberAt(config, "moisture_threshold").value
    ensures WaterDecision(config, last, percent, now) == Ok(false)
  {
  }

  /** A pump time of 0 counts as "never pumped". */
  lemma ZeroPumpTimeIsNever(config: map<string, Value>, percent: real, now: int)
    ensures WaterDecision(config, Some(0), percent, now) == WaterDecision(config, None, percent, now)
  {
  }

  // ---------------------------------------------------------------------
  // The scheduler decision of the main loop

  /** Python's `int(x)` on a float: truncation toward zero. */
  function Trunc(x: real): (r: int)
    ensures x >= 0.0 ==> r as real <= x < r as real + 1.0
    ensures x < 0.0 ==> r as real - 1.0 < x <= r as real
  {
    if x >= 0.0 then x.Floor else -((-x).Floor)
  }

  /** How many copies of an `interval_hours` string `* 3600` makes. */
  const SECONDS_PER_HOUR: nat := 3600

  /** `int(config.get("interval_hours", 1) * 3600)`. A number (or a boolean)
      is multiplied and truncated. A string is repeated 3600 times, and
      `int` reads the repetition when the string is all digits; any other
      string raises `ValueError`. Every other value raises `TypeError`. */
  function IntervalSeconds(config: map<string, Value>): (r: Result<int, Fault>)
    ensures "interval_hours" !in config ==> r == Ok(SECONDS_PER_HOUR)
    ensures r.Err? ==> r.error.key == "interval_hours"
  {
    if "interval_hours" !in config then Ok(SECONDS_PER_HOUR)
    else match config["interval_hours"]
      case Str(s) =>
        if s != [] && AllDigits(s) then Ok(DigitsValue(Repeat(s, SECONDS_PER_HOUR)))
        else Err(ValueError("interval_hours"))
      case v =>
        match AsNumber(v)
        case Some(x) => Ok(Trunc(x * 3600.0))
        case None => Err(TypeError("interval_hours"))
  }

  /** `should_run_now()` with the clock reading `t`: the local "HH:MM" is
      looked up in `config["daily_times"]` with Python's `in`, which for a
      list is element equality, for a string a substring test and for an
      object a key test, and raises `TypeError` for anything else. */
  function ShouldRunNow(config: map<string, Value>, t: nat): (r: Result<bool, Fault>)
    ensures r.Err? <==>
      ("daily_times" !in config ||
       !(config["daily_times"].Arr? || config["daily_times"].Str? || config["daily_times"].Obj?))
  {
    var times :- Lookup(config, "daily_times");
    var hhmm := Hhmm(t);
    match times
    case Arr(items) => Ok(Str(hhmm) in items)
    case Str(s) => Ok(Contains(s, hhmm))
    case Obj(m) => Ok(hhmm in m)
    case _ => Err(TypeError("daily_times"))
  }

  /** Whether the loop body runs `measure_and_act()` at clock reading `now`
      (with `dailyNow` the reading `should_run_now` takes). */
  function Decide(mode: Value, config: map<string, Value>, lastMeasure: int, now: nat, dailyNow: nat): (r: Result<bool, Fault>)
    ensures r.Err? ==> mode == Str("interval") || mode == Str("daily")
    ensures r == Ok(true) && mode != Str("interval") ==> now - lastMeasure >= TEST_PERIOD
  {
    if mode == Str("test") then Ok(now - lastMeasure >= TEST_PERIOD)
    else if mode == Str("interval") then
      var seconds :- IntervalSeconds(config);
      Ok(now - lastMeasure >= seconds)
    else if mode == Str("daily") then
      var matches :- ShouldRunNow(config, dailyNow);
      Ok(matches && now - lastMeasure >= DAILY_GUARD)
    else Ok(false)
  }

  /** With a list of times, the daily check matches exactly when one of the
      entries is a well-formed zero-padded "HH:MM" naming the current local
      minute. */
  lemma ShouldRunNowInList(config: map<string, Value>, t: nat)
    requires "daily_times" in config && config["daily_times"].Arr?
    ensures var items := config["daily_times"].items;
      ShouldRunNow(config, t) == Ok(exists i :: 0 <= i < |items| && items[i].Str? && ParseClock(items[i].s) == Some(MinuteOfDay(t)))
  {
    var items := config["daily_times"].items;
    forall i | 0 <= i < |items| && items[i].Str?
      ensures items[i] == Str(Hhmm(t)) <==> ParseClock(items[i].s) == Some(MinuteOfDay(t))
    {
      EntryMatches(t, items[i].s);
    }
    if Str(Hhmm(t)) in items {
      var i :| 0 <= i < |items| && items[i] == Str(Hhmm(t));
    }
  }

  /** With the built-in default configuration the daily check fires only in
      the minute 16:35 local time: "5:00", "6:00" and "8:00" are not zero
      padded and never equal the formatted time. */
  lemma DefaultDailyTimes(t: nat)
    ensures ShouldRunNow(DEFAULT_CONFIG, t) == Ok(MinuteOfDay(t) == 16 * 60 + 35)
  {
    var hhmm := Hhmm(t);
    HhmmMatches(t, 16, 35);
    assert ClockText(16, 35) == "16:35";
    UnpaddedNeverMatches(t, "5:00");
    UnpaddedNeverMatches(t, "6:00");
    UnpaddedNeverMatches(t, "8:00");
    var items := [Str("16:35"), Str("5:00"), Str("6:00"), Str("8:00")];
    assert DEFAULT_CONFIG["daily_times"] == Arr(items);
    assert (Str(hhmm) in items) <==> hhmm == "16:35";
  }

  /** "interval" mode without an `interval_hours` entry waits one hour. */
  lemma IntervalDefaultsToOneHour(config: map<string, Value>, lastMeasure: int, now: nat, dailyNow: nat)
    requires "interval_hours" !in config
    ensures Decide(Str("interval"), config, lastMeasure, now, dailyNow) == Ok(now - lastMeasure >= 3600)
  {
  }

  /** A numeric `interval_hours` of `x` waits `int(x * 3600)` seconds, which
      for a fractional hour count truncates: e.g. 0.5 hours is 1800 seconds. */
  lemma IntervalHalfHour(config: map<string, Value>, lastMeasure: int, now: nat, dailyNow: nat)
    requires "interval_hours" in config && config["interval_hours"] == Num(0.5)
    ensures Decide(Str("interval"), config, lastMeasure, now, dailyNow) == Ok(now - lastMeasure >= 1800)
  {
  }

  /** An `interval_hours` of "0" (or "00", ...) repeats to a string of zeros,
      which `int` reads as 0: "interval" mode then runs a cycle on every
      tick. */
  lemma IntervalZeroString(config: map<string, Value>, s: string, lastMeasure: int, now: nat, dailyNow: nat)
    requires "interval_hours" in config && config["interval_hours"] == Str(s)
    requires s != [] && AllDigits(s) && DigitsValue(s) == 0
    requires lastMeasure <= now
    ensures Decide(Str("interval"), config, lastMeasure, now, dailyNow) == Ok(true)
  {
    RepeatZero(s, SECONDS_PER_HOUR);
  }

  /** Any other digit string, such as "1", repeats to a number of at least
      3600 digits: the interval is at least 10^3599 seconds. */
  lemma IntervalDigitString(config: map<string, Value>, s: string)
    requires "interval_hours" in config && config["interval_hours"] == Str(s)
    requires s != [] && AllDigits(s) && DigitsValue(s) > 0
    ensures IntervalSeconds(config).Ok? && IntervalSeconds(config).value >= Pow10(3599)
  {
    RepeatGrows(s, SECONDS_PER_HOUR);
  }

  /** A string that is not all digits (or is empty) makes "interval" mode
      raise `ValueError`. */
  lemma IntervalOtherString(config: map<string, Value>, s: string, lastMeasure: int, now: nat, dailyNow: nat)
    requires "interval_hours" in config && config["interval_hours"] == Str(s)
    requires s == [] || !AllDigits(s)
    ensures Decide(Str("interval"), config, lastMeasure, now, dailyNow) == Err(ValueError("interval_hours"))
  {
  }

  /** A mode other than "test", "interval" and "daily" never runs a cycle
      and never fails. */
  lemma UnknownModeNeverRuns(mode: Value, config: map<string, Value>, lastMeasure: int, now: nat, dailyNow: nat)
    requires mode != Str("test") && mode != Str("interval") && mode != Str("daily")
    ensures Decide(mode, config, lastMeasure, now, dailyNow) == Ok(false)
  {
  }

  /** Once a cycle has run at `now` in any mode, a tick less than ten seconds
      later runs none, whatever the configuration. */
  lemma NoCycleWithinTenSeconds(mode: Value, config: map<string, Value>, now: nat, later: nat, dailyNow: nat)
    requires now <= later < now + TEST_PERIOD
    requires mode == Str("interval") ==> IntervalSeconds(config).Ok? && IntervalSeconds(config).value >= TEST_PERIOD
    ensures Decide(mode, config, now, later, dailyNow).Ok? ==> Decide(mode, config, now, later, dailyNow) == Ok(false)
  {
  }

  /** Daily mode with `daily_times == ["08:00"]`: a tick at local 08:00 with
      the last cycle at least a minute ago runs a cycle, and the next tick,
      one second later and with `last_measure` set to that tick, does not. */
  lemma DailyRunsOncePerMinute(t: nat, lastMeasure: int)
    requires (t + UTC_OFFSET) % SECONDS_PER_DAY == 8 * 3600
    requires t - lastMeasure >= DAILY_GUARD
    ensures var config := map["daily_times" := Arr([Str("08:00")])];
      Decide(Str("daily"), config, lastMeasure, t, t) == Ok(true) &&
      Decide(Str("daily"), config, t, t + 1, t + 1) == Ok(false)
  {
    HhmmMatches(t, 8, 0);
    assert ClockText(8, 0) == "08:00";
    assert Hhmm(t) == "08:00";
  }

  /** The clock readings of one turn of the main loop, in the order the
      source takes them: the loop's `now`, `should_run_now`'s own reading,
      the sample (with the timestamp `measure_and_act` stores),
      `check_watering`'s `now`, and `activate_pump`'s readings before and
      after the pump runs. */
  datatype Clock = Clock(now: nat, dailyNow: nat, sample: Sample, wateringNow: nat, pumpStart: nat, pumpEnd: nat)

  /** The module-level state of the firmware. */
  class Device {
    var history: seq<Sample>
    var pumpHistory: seq<nat>
    var lastPumpTime: Option<int>
    var config: map<string, Value>
    var mode: Value
    var lastMeasure: int

    ghost predicate Valid()
      reads this
    {
      |history| <= CAPACITY && |pumpHistory| <= CAPACITY
    }

    /** The state at boot, after `load_config()` has produced `loaded` and
        before the first tick (`last_measure = 0`). */
    constructor (loaded: map<string, Value>)
      ensures Valid()
      ensures history == [] && pumpHistory == [] && lastPumpTime == None
      ensures config == loaded && mode == ModeOf(loaded) && lastMeasure == 0
    {
      history := [];
      pumpHistory := [];
      lastPumpTime := None;
      config := loaded;
      mode := ModeOf(loaded);
      lastMeasure := 0;
    }

    /** `activate_pump()`: the start time goes into `last_pump_time` and the
        pump history, the pump runs for `config["pump_duration"]` seconds,
        and `last_pump_time` is then replaced by the clock reading after the
        run. A missing duration raises `KeyError` after the first two
        updates, before the pump is switched on; a non-numeric one raises
        `TypeError` in the sleep, after the pump is switched on and before it
        is switched off. Either way `last_pump_time` keeps the start time. */
    method ActivatePump(start: nat, end: nat) returns (fault: Option<Fault>)
      requires Valid()
      modifies this`pumpHistory, this`lastPumpTime
      ensures Valid()
      ensures pumpHistory == Push(old(pumpHistory), start)
      ensures fault == PumpDurationFault(config)
      ensures lastPumpTime == Some(if fault.None? then end else start)
    {
      lastPumpTime := Some(start);
      pumpHistory := Push(pumpHistory, start);
      var duration := NumberAt(config, "pump_duration");
      if duration.Err? {
        return Some(duration.error);
      }
      // the pump runs here for `duration` seconds; the pin is not modelled
      lastPumpTime := Some(end);
      fault := None;
    }

    /** `check_watering(percent)` with `now` its clock reading and
        `start`/`end` those of `activate_pump`. The pump runs exactly when
        the soil is drier than the threshold and the guard allows it;
        otherwise nothing changes. */
    method CheckWatering(percent: real, now: nat, start: nat, end: nat) returns (pumped: bool, fault: Option<Fault>)
      requires Valid()
      modifies this`pumpHistory, this`lastPumpTime
      ensures Valid()
      ensures var w := WaterDecision(config, old(lastPumpTime), percent, now);
        && pumped == (w == Ok(true))
        && (pumped ==> pumpHistory == Push(old(pumpHistory), start)
                       && fault == PumpDurationFault(config)
                       && lastPumpTime == Some(if fault.None? then end else start))
        && (!pumped ==> pumpHistory == old(pumpHistory) && lastPumpTime == old(lastPumpTime)
                        && fault == (if w.Err? then Some(w.error) else None))
    {
      var w := WaterDecision(config, lastPumpTime, percent, now);
      if w.Err? {
        return false, Some(w.error);
      }
      pumped := w.value;
      fault := None;
      if pumped {
        fault := ActivatePump(start, end);
      }
    }

    /** `measure_and_act()` once the sensor has produced `sample`: the
        sample is appended to the ten-entry history, then the watering
        check runs on its percentage. */
    method MeasureAndAct(sample: Sample, now: nat, start: nat, end: nat) returns (pumped: bool, fault: Option<Fault>)
      requires Valid()
      modifies this`history, this`pumpHistory, this`lastPumpTime
      ensures Valid()
      ensures history == Push(old(history), sample)
      ensures var w := WaterDecision(config, old(lastPumpTime), sample.percent, now);
        && pumped == (w == Ok(true))
        && (pumped ==> pumpHistory == Push(old(pumpHistory), start)
                       && fault == PumpDurationFault(config)
                       && lastPumpTime == Some(if fault.None? then end else start))
        && (!pumped ==> pumpHistory == old(pumpHistory) && lastPumpTime == old(lastPumpTime)
                        && fault == (if w.Err? then Some(w.error) else None))
    {
      history := Push(history, sample);
      pumped, fault := CheckWatering(sample.percent, now, start, end);
    }

    /** One turn of the main loop (without the five-second sleep). A cycle
        runs exactly when `Decide` says so; `last_measure` becomes the
        loop's `now` after a cycle that finished, and nothing changes when
        no cycle runs. */
    method Tick(c: Clock) returns (ran: bool, pumped: bool, fault: Option<Fault>)
      requires Valid()
      modifies this`history, this`pumpHistory, this`lastPumpTime, this`lastMeasure
      ensures Valid()
      ensures var d := Decide(mode, config, old(lastMeasure), c.now, c.dailyNow);
        && ran == (d == Ok(true))
        && (d.Err? ==> fault == Some(d.error))
        && (d == Ok(false) ==> fault.None?)
      ensures !ran ==> && !pumped
                       && history == old(history) && pumpHistory == old(pumpHistory)
                       && lastPumpTime == old(lastPumpTime) && lastMeasure == old(lastMeasure)
      ensures ran ==> var w := WaterDecision(config, old(lastPumpTime), c.sample.percent, c.wateringNow);
        && history == Push(old(history), c.sample)
        && pumped == (w == Ok(true))
        && (pumped ==> pumpHistory == Push(old(pumpHistory), c.pumpStart)
                       && fault == PumpDurationFault(config)
                       && lastPumpTime == Some(if fault.None? then c.pumpEnd else c.pumpStart))
        && (!pumped ==> pumpHistory == old(pumpHistory) && lastPumpTime == old(lastPumpTime)
                        && fault == (if w.Err? then Some(w.error) else None))
        && lastMeasure == (if fault.None? then c.now else old(lastMeasure))
    {
      var d := Decide(mode, config, lastMeasure, c.now, c.dailyNow);
      if d.Err? {
        return false, false, Some(d.error);
      }
      ran := d.value;
      pumped, fault := false, None;
      if ran {
        pumped, fault := MeasureAndAct(c.sample, c.wateringNow, c.pumpStart, c.pumpEnd);
        if fault.None? {
          lastMeasure := c.now;
        }
      }
    }
  }

  /** A client of the class: right after a completed pump run, dry soil does
      not start the pump again within the hour, and does once the hour has
      passed, measured from the end of the run. */
  method PumpCooldownScenario(d: Device, start: nat, end: nat, percent: real)
    requires d.Valid() && end != 0 && start <= end
    requires NumberAt(d.config, "moisture_threshold").Ok? && percent < NumberAt(d.config, "moisture_threshold").value
    requires NumberAt(d.config, "pump_duration").Ok?
    modifies d
    ensures d.lastPumpTime == Some(end + COOLDOWN + 1)
    ensures |d.pumpHistory| >= 1 && d.pumpHistory[|d.pumpHistory| - 1] == end + COOLDOWN + 1
  {
    var f := d.ActivatePump(start, end);
    assert d.lastPumpTime == Some(end);
    var p, g := d.CheckWatering(percent, end + COOLDOWN, end + COOLDOWN, end + COOLDOWN);
    assert !p && d.lastPumpTime == Some(end);
    p, g := d.CheckWatering(percent, end + COOLDOWN + 1, end + COOLDOWN + 1, end + COOLDOWN + 1);
    assert p;
  }
}

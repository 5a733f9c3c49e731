/** The time of day `should_run_now` compares against `daily_times`:
    `utime.localtime(t + 2 * 3600)` formatted as `"{:02}:{:02}"`. */
module LocalTime {
  import opened Wrappers
  import opened Text

  /** The fixed offset the firmware adds to the clock (UTC+2). */
  const UTC_OFFSET: nat := 2 * 3600
  const SECONDS_PER_DAY: nat := 86400

  /** `"{:02}".format(n)` for `n < 100`. */
  function TwoDigits(n: nat): (r: string)
    requires n < 100
    ensures |r| == 2 && AllDigits(r)
  {
    [DigitChar(n / 10), DigitChar(n % 10)]
  }

  /** The "HH:MM" text of an hour and a minute. */
  function ClockText(h: nat, m: nat): string
    requires h < 24 && m < 60
  {
    TwoDigits(h) + ":" + TwoDigits(m)
  }

  /** Hour and minute of `localtime(t + 7200)`. The device's epoch (1970 or
      2000, depending on the port) starts at midnight, so both are read off the
      seconds within the day. */
  function LocalHour(t: nat): (h: nat)
    ensures h < 24
  {
    ((t + UTC_OFFSET) % SECONDS_PER_DAY) / 3600
  }

  function LocalMinute(t: nat): (m: nat)
    ensures m < 60
  {
    ((t + UTC_OFFSET) % 3600) / 60
  }

  /** The minute of the local day `t` falls in, 0 .. 1439. */
  function MinuteOfDay(t: nat): nat {
    ((t + UTC_OFFSET) % SECONDS_PER_DAY) / 60
  }

  /** `hhmm` in `should_run_now`. */
  function Hhmm(t: nat): (r: string)
    ensures |r| == 5 && r[2] == ':'
    ensures IsDigit(r[0]) && IsDigit(r[1]) && IsDigit(r[3]) && IsDigit(r[4])
  {
    ClockText(LocalHour(t), LocalMinute(t))
  }

  /** Reads an "HH:MM" text back into a minute of the day; anything not of
      that exact shape is `None`. */
  function ParseClock(s: string): Option<nat> {
    if |s| == 5 && s[2] == ':' && IsDigit(s[0]) && IsDigit(s[1]) && IsDigit(s[3]) && IsDigit(s[4]) then
      var h := DigitValue(s[0]) * 10 + DigitValue(s[1]);
      var m := DigitValue(s[3]) * 10 + DigitValue(s[4]);
      if h < 24 && m < 60 then Some(h * 60 + m) else None
    else None
  }

  lemma ClockTextParses(h: nat, m: nat)
    requires h < 24 && m < 60
    ensures ParseClock(ClockText(h, m)) == Some(h * 60 + m)
  {
    var s := ClockText(h, m);
    assert s[0] == DigitChar(h / 10) && s[1] == DigitChar(h % 10);
    assert s[3] == DigitChar(m / 10) && s[4] == DigitChar(m % 10);
  }

  /** The minute of the day splits into the formatted hour and minute. */
  lemma MinuteOfDaySplits(t: nat)
    ensures MinuteOfDay(t) == LocalHour(t) * 60 + LocalMinute(t)
  {
    var x := t + UTC_OFFSET;
    DayKeepsHour(x);
    MinutesSplit(x % SECONDS_PER_DAY);
  }

  /** Whole days are whole hours: the seconds into the hour are the same
      counted from the day's start. */
  lemma DayKeepsHour(x: nat)
    ensures (x % 86400) % 3600 == x % 3600
  {
    var d, y := x / 86400, x % 86400;
    assert x == (d * 24) * 3600 + y;
    var h, r := y / 3600, y % 3600;
    assert x == (d * 24 + h) * 3600 + r;
  }

  /** The minutes of a span are its whole hours' minutes plus the minutes of
      what is left. */
  lemma MinutesSplit(y: nat)
    ensures y / 60 == (y / 3600) * 60 + (y % 3600) / 60
  {
    var h, r := y / 3600, y % 3600;
    assert y == (h * 60 + r / 60) * 60 + r % 60;
  }

  /** Reading the formatted time back yields the minute of the day. */
  lemma HhmmParses(t: nat)
    ensures ParseClock(Hhmm(t)) == Some(MinuteOfDay(t))
  {
    ClockTextParses(LocalHour(t), LocalMinute(t));
    MinuteOfDaySplits(t);
  }

  /** `Hhmm(t)` equals the zero-padded text of `h:m` exactly when `t` falls
      in that minute of the local day. */
  lemma HhmmMatches(t: nat, h: nat, m: nat)
    requires h < 24 && m < 60
    ensures Hhmm(t) == ClockText(h, m) <==> MinuteOfDay(t) == h * 60 + m
  {
    HhmmParses(t);
    ClockTextParses(h, m);
    MinuteOfDaySplits(t);
    if MinuteOfDay(t) == h * 60 + m {
      assert LocalHour(t) == h && LocalMinute(t) == m;
    }
  }

  /** A time entry that is not five characters long (such as "5:00") is
      never equal to the formatted time, whatever the clock says. */
  lemma UnpaddedNeverMatches(t: nat, entry: string)
    requires |entry| != 5
    ensures Hhmm(t) != entry
  {
  }

  lemma DigitCharOfValue(c: char)
    requires IsDigit(c)
    ensures DigitChar(DigitValue(c)) == c
  {
  }

  /** An entry of `daily_times` equals the formatted time exactly when it is
      a well-formed zero-padded "HH:MM" naming the current local minute. */
  lemma {:induction false} EntryMatches(t: nat, entry: string)
    ensures Hhmm(t) == entry <==> ParseClock(entry) == Some(MinuteOfDay(t))
  {
    HhmmParses(t);
    if ParseClock(entry) == Some(MinuteOfDay(t)) {
      MinuteOfDaySplits(t);
      var h := DigitValue(entry[0]) * 10 + DigitValue(entry[1]);
      var m := DigitValue(entry[3]) * 10 + DigitValue(entry[4]);
      assert h * 60 + m == LocalHour(t) * 60 + LocalMinute(t);
      assert h == LocalHour(t) && m == LocalMinute(t);
      DigitCharOfValue(entry[0]);
      DigitCharOfValue(entry[1]);
      DigitCharOfValue(entry[3]);
      DigitCharOfValue(entry[4]);
      assert h / 10 == DigitValue(entry[0]) && h % 10 == DigitValue(entry[1]);
      assert m / 10 == DigitValue(entry[3]) && m % 10 == DigitValue(entry[4]);
      assert Hhmm(t) == [entry[0], entry[1], ':', entry[3], entry[4]];
      assert entry == [entry[0], entry[1], ':', entry[3], entry[4]];
    }
  }
}

/** The time stamp of a signed AWS request. */
module RequestDates {
  import opened Calendar
  import opened Decimal
  import opened ModularPower

  const DAY := 86400

  /** `YYYYMMDDTHHMMSSZ` */
  function AmzDate(unix: nat): string {
    MatchesCounting(unix / DAY, unix);
    YearsGrow(unix / DAY);
    var c, secs := AmzCivil(unix), unix % DAY;
    Stamp(c.year, c.month, c.day, secs / 3600, secs % 3600 / 60, secs % 60)
  }

  function Stamp(y: nat, m: nat, d: nat, hours: nat, minutes: nat, seconds: nat): string {
    ZeroPadded(y, 4) + ZeroPadded(m, 2) + ZeroPadded(d, 2) + "T"
    + ZeroPadded(hours, 2) + ZeroPadded(minutes, 2) + ZeroPadded(seconds, 2) + "Z"
  }

  /** Some digits of a stamp are this number. */
  predicate Spells(s: string, from: nat, to: nat, n: nat) {
    from <= to <= |s| && Digits(s[from..to]) && ValueOf(s[from..to]) == n
  }

  function ValueOf(s: string): nat
    requires Digits(s)
  {
    DigitsAll(s);
    Value(s)
  }

  /** A stamp spells all its fields; only the year can take more digits than its place has. */
  ghost predicate IsStamp(s: string, y: nat, m: nat, d: nat, hours: nat, minutes: nat, seconds: nat) {
    && |s| >= 16 && (|s| == 16 <==> y < 10000)
    && var t := |s| - 8;
    && Spells(s, 0, t - 4, y) && Spells(s, t - 4, t - 2, m) && Spells(s, t - 2, t, d) && s[t] == 'T'
    && Spells(s, t + 1, t + 3, hours) && Spells(s, t + 3, t + 5, minutes) && Spells(s, t + 5, t + 7, seconds)
    && s[t + 7] == 'Z'
  }

  lemma StampFields(y: nat, m: nat, d: nat, hours: nat, minutes: nat, seconds: nat)
    requires m < 100 && d < 100 && hours < 100 && minutes < 100 && seconds < 100
    ensures IsStamp(Stamp(y, m, d, hours, minutes, seconds), y, m, d, hours, minutes, seconds)
  {
    hide ZeroPadded, Value, Digits;
    var s := Stamp(y, m, d, hours, minutes, seconds);
    Padded(y, 4);
    Padded(m, 2);
    Padded(d, 2);
    Padded(hours, 2);
    Padded(minutes, 2);
    Padded(seconds, 2);
    var t := |s| - 8;
    assert s[0..t - 4] == ZeroPadded(y, 4) && s[t - 4..t - 2] == ZeroPadded(m, 2) && s[t - 2..t] == ZeroPadded(d, 2);
    assert s[t + 1..t + 3] == ZeroPadded(hours, 2) && s[t + 3..t + 5] == ZeroPadded(minutes, 2);
    assert s[t + 5..t + 7] == ZeroPadded(seconds, 2);
  }

  lemma Padded(n: nat, width: nat)
    requires width == 2 || width == 4
    ensures var s := ZeroPadded(n, width);
            && |s| >= width && (|s| == width <==> n < if width == 2 then 100 else 10000)
            && Digits(s) && ValueOf(s) == n
  {
    hide ZeroPadded;
    assert Pow(10, 2) == 100 && Pow(10, 4) == 10000;
    PaddedValue(n, width);
    DigitsAll(ZeroPadded(n, width));
  }

  lemma DateInRange(unix: nat)
    ensures 1 <= DaysAfterEpoch(unix / DAY).month <= 12 && 1 <= DaysAfterEpoch(unix / DAY).day <= 31
  {
    hide DaysAfterEpoch, AmzCivil, KitCivil;
    MatchesCounting(unix / DAY, unix);
  }

  /** The time of day of a Unix time. */
  predicate IsTimeOfDay(unix: nat, hours: nat, minutes: nat, seconds: nat) {
    hours < 24 && minutes < 60 && seconds < 60 && unix % DAY == 3600 * hours + 60 * minutes + seconds
  }

  /** Every stamp spells its day, counted from the epoch, and its time; it has sixteen characters until year 10000. */
  lemma StampIsTheTime(unix: nat)
    ensures var c := DaysAfterEpoch(unix / DAY);
            && c.year >= 0 && c.month >= 0 && c.day >= 0
            && exists h: nat, m: nat, s: nat ::
                 IsTimeOfDay(unix, h, m, s) && IsStamp(AmzDate(unix), c.year, c.month, c.day, h, m, s)
  {
    hide Stamp, IsStamp, AmzCivil, DaysAfterEpoch, KitCivil, IsDate;
    DateInRange(unix);
    MatchesCounting(unix / DAY, unix);
    YearsGrow(unix / DAY);
    var c, secs := AmzCivil(unix), unix % DAY;
    StampFields(c.year, c.month, c.day, secs / 3600, secs % 3600 / 60, secs % 60);
    assert IsTimeOfDay(unix, secs / 3600, secs % 3600 / 60, secs % 60);
  }
}

/**
 Turning a day number into a Gregorian date: the arithmetic of the Emergency Kit
 and of the AWS request signer, against counting days one at a time.

 The arithmetic cuts the days since the first of March of the year 0 into eras of
 400 years, and these into years that start in March, so that the leap day is the
 last of its year. Counting starts at 1 January 1970 and knows only how long each
 month is. That the two agree is proved by taking one day more: the next day
 number is the next calendar day inside a month, at the end of a month, at the
 end of a year, and at the end of an era.
 */
module Calendar {
  import opened ModularPower

  datatype Civil = Civil(year: int, month: int, day: int)

  // ---------------------------------------------------------------- the calendar

  predicate IsLeap(year: int) {
    year % 4 == 0 && (year % 100 != 0 || year % 400 == 0)
  }

  function DaysIn(year: int, month: int): int {
    if month == 2 then (if IsLeap(year) then 29 else 28)
    else if month == 4 || month == 6 || month == 9 || month == 11 then 30
    else 31
  }

  predicate IsDate(c: Civil) {
    1 <= c.month <= 12 && 1 <= c.day <= DaysIn(c.year, c.month)
  }

  function NextDay(c: Civil): Civil {
    if c.day < DaysIn(c.year, c.month) then c.(day := c.day + 1)
    else if c.month < 12 then Civil(c.year, c.month + 1, 1)
    else Civil(c.year + 1, 1, 1)
  }

  /** The date n days after 1 January 1970, counted one day at a time. */
  function DaysAfterEpoch(n: nat): Civil {
    if n == 0 then Civil(1970, 1, 1) else NextDay(DaysAfterEpoch(n - 1))
  }

  // ---------------------------------------------------------------- the arithmetic

  function YearOfEra(doe: int): int {
    (doe - doe / 1460 + doe / 36524 - doe / 146096) / 365
  }

  /** Days of an era that precede year yoe of it, years starting in March. */
  function YearStart(yoe: int): int {
    365 * yoe + yoe / 4 - yoe / 100
  }

  /** The month, counted from March, of a day of such a year. */
  function MonthFromMarch(doy: int): int {
    (5 * doy + 2) / 153
  }

  function MonthStart(mp: int): int {
    (153 * mp + 2) / 5
  }

  function MonthNumber(mp: int): int {
    if mp < 10 then mp + 3 else mp - 9
  }

  function FromMarch(era: int, yoe: int, doy: int): Civil {
    var mp := MonthFromMarch(doy);
    var day := doy - MonthStart(mp) + 1;
    var month := MonthNumber(mp);
    Civil(yoe + era * 400 + (if month <= 2 then 1 else 0), month, day)
  }

  function FromEra(era: int, doe: int): Civil {
    var yoe := YearOfEra(doe);
    FromMarch(era, yoe, doe - YearStart(yoe))
  }

  const EPOCH_SHIFT := 719468
  const ERA_DAYS := 146097

  /** The Emergency Kit's copy, before it is narrowed to machine integers. */
  function KitCivil(days: int): Civil {
    var z := days + EPOCH_SHIFT;
    FromEra(z / ERA_DAYS, z % ERA_DAYS)
  }

  /** The request signer's copy. */
  function AmzCivil(unix: nat): Civil {
    var z := unix / 86400 + EPOCH_SHIFT;
    var era := z / ERA_DAYS;
    FromEra(era, z - era * ERA_DAYS)
  }

  datatype Date = Date(year: nat, month: nat, day: nat)

  /** `from_unix_days`: a year past 65535 saturates, an impossible month or day would become 1. */
  function FromUnixDays(days: int): Date {
    var c := KitCivil(days);
    Date(
      if 0 <= c.year < 0x1_0000 then c.year else 0xFFFF,
      if 0 <= c.month < 0x100 then c.month else 1,
      if 0 <= c.day < 0x100 then c.day else 1)
  }

  // ---------------------------------------------------------------- correctness

  function YearLength(yoe: int): int {
    365 + (if (yoe + 1) % 4 == 0 && ((yoe + 1) % 100 != 0 || yoe == 399) then 1 else 0)
  }

  lemma YearStarts(yoe: int)
    requires 0 <= yoe < 400
    ensures YearStart(yoe) + YearLength(yoe) == if yoe == 399 then ERA_DAYS else YearStart(yoe + 1)
  {
    assert (yoe + 1) / 4 == yoe / 4 + (if (yoe + 1) % 4 == 0 then 1 else 0);
    assert (yoe + 1) / 100 == yoe / 100 + (if (yoe + 1) % 100 == 0 then 1 else 0);
  }

  lemma CenturyParts(c: int, r: int)
    requires 0 <= c <= 3 && 0 <= r < 36524 + (if c == 3 then 1 else 0)
    ensures YearOfEra(36524 * c + r) == 100 * c + (r - (24 * c + r) / 1460) / 365
  {
    var doe := 36524 * c + r;
    assert doe / 1460 == 25 * c + (24 * c + r) / 1460;
    assert doe / 36524 - doe / 146096 == c;
  }

  lemma YearStartInCentury(c: int, y: int)
    requires 0 <= c <= 3 && 0 <= y < 100
    ensures YearStart(100 * c + y) == 36524 * c + 365 * y + y / 4
    ensures y % 4 == 3 && (y < 99 || c == 3) ==> YearLength(100 * c + y) == 366
  {
    assert (100 * c + y) / 100 == c;
    assert (100 * c + y) / 4 == 25 * c + y / 4;
  }

  /** The year formula names the year whose days contain doe. */
  lemma YearOfEraBrackets(doe: int)
    requires 0 <= doe < ERA_DAYS
    ensures var yoe := YearOfEra(doe);
            0 <= yoe < 400 && 0 <= doe - YearStart(yoe) < YearLength(yoe)
  {
    var c := if doe == 146096 then 3 else doe / 36524;
    var r := doe - 36524 * c;
    var y := (r - (24 * c + r) / 1460) / 365;
    CenturyParts(c, r);
    YearStartInCentury(c, y);
  }

  lemma {:induction false} YearStartsGrow(a: int, b: int)
    requires 0 <= a <= b < 400
    ensures YearStart(a) + 365 * (b - a) <= YearStart(b)
    decreases b - a
  {
    if a < b {
      YearStarts(a);
      YearStartsGrow(a + 1, b);
    }
  }

  /** No other year of the era contains doe. */
  lemma YearOfEraUnique(doe: int, yoe: int)
    requires 0 <= doe < ERA_DAYS && 0 <= yoe < 400
    requires 0 <= doe - YearStart(yoe) < YearLength(yoe)
    ensures YearOfEra(doe) == yoe
  {
    var y := YearOfEra(doe);
    YearOfEraBrackets(doe);
    YearStarts(y);
    YearStarts(yoe);
    if y < yoe {
      YearStartsGrow(y + 1, yoe);
    } else if yoe < y {
      YearStartsGrow(yoe + 1, y);
    }
  }

  /** Month lengths counted from March, and the month formula inverts their sums. */
  lemma MonthBrackets(doy: int)
    requires 0 <= doy <= 365
    ensures var mp := MonthFromMarch(doy);
            0 <= mp < 12 && MonthStart(mp) <= doy < MonthStart(mp + 1)
  {
  }

  lemma LeapFebruary(era: int, yoe: int)
    requires 0 <= yoe < 400
    ensures DaysIn(yoe + era * 400 + 1, 2) == YearLength(yoe) - MonthStart(11)
  {
    var year := yoe + era * 400 + 1;
    ModAddMultiple(yoe + 1, 100 * era, 4);
    ModAddMultiple(yoe + 1, 4 * era, 100);
    ModAddMultiple(yoe + 1, era, 400);
  }

  lemma MonthLengths(year: int, mp: int)
    requires 0 <= mp < 11
    ensures MonthStart(mp + 1) - MonthStart(mp) == DaysIn(year, MonthNumber(mp))
  {
  }

  lemma NextInYear(era: int, yoe: int, doy: int)
    requires 0 <= yoe < 400 && 0 <= doy && doy + 1 < YearLength(yoe)
    ensures FromMarch(era, yoe, doy + 1) == NextDay(FromMarch(era, yoe, doy))
    ensures IsDate(FromMarch(era, yoe, doy))
  {
    var mp := MonthFromMarch(doy);
    MonthBrackets(doy);
    LeapFebruary(era, yoe);
    if mp < 11 {
      MonthLengths(FromMarch(era, yoe, doy).year, mp);
    }
    hide MonthStart, MonthFromMarch, IsLeap, YearLength;
  }

  lemma LastDayMonth()
    ensures MonthFromMarch(364) == MonthFromMarch(365) == 11 && MonthFromMarch(0) == 0
  {
  }

  lemma NextAcrossYears(era: int, yoe: int, doy: int)
    requires 364 <= doy <= 365 && MonthFromMarch(doy) == 11 && MonthFromMarch(0) == 0
    requires DaysIn(yoe + era * 400 + 1, 2) == doy - 336
    ensures FromMarch(era, yoe + 1, 0) == NextDay(FromMarch(era, yoe, doy))
    ensures IsDate(FromMarch(era, yoe, doy))
  {
    hide IsLeap, MonthFromMarch;
  }

  lemma NextInEra(era: int, doe: int)
    requires 0 <= doe && doe + 1 < ERA_DAYS
    ensures IsDate(FromEra(era, doe)) && FromEra(era, doe + 1) == NextDay(FromEra(era, doe))
  {
    hide FromMarch, NextDay, IsDate, YearOfEra;
    var yoe := YearOfEra(doe);
    YearOfEraBrackets(doe);
    YearStarts(yoe);
    var doy := doe - YearStart(yoe);
    if doy + 1 < YearLength(yoe) {
      NextInYear(era, yoe, doy);
      YearOfEraUnique(doe + 1, yoe);
    } else {
      assert yoe < 399;
      LeapFebruary(era, yoe);
      LastDayMonth();
      NextAcrossYears(era, yoe, doy);
      YearOfEraUnique(doe + 1, yoe + 1);
    }
  }

  lemma EraBoundary(era: int)
    ensures FromMarch(era, 400, 0) == FromMarch(era + 1, 0, 0)
  {
  }

  lemma NextEra(era: int)
    requires DaysIn(era * 400 + 400, 2) == 29
    ensures var last := FromEra(era, ERA_DAYS - 1);
            IsDate(last) && FromEra(era + 1, 0) == NextDay(last)
  {
    hide FromMarch, NextDay, IsDate, YearOfEra, MonthFromMarch, DaysIn;
    YearOfEraUnique(ERA_DAYS - 1, 399);
    YearOfEraUnique(0, 0);
    LastDayMonth();
    NextAcrossYears(era, 399, 365);
    EraBoundary(era);
  }

  /** Adding a day to the day number moves to the next calendar day, from every day number. */
  lemma NextDayNumber(days: int)
    ensures IsDate(KitCivil(days))
    ensures KitCivil(days + 1) == NextDay(KitCivil(days))
  {
    hide FromEra, NextDay, IsDate;
    var z := days + EPOCH_SHIFT;
    var era, doe := z / ERA_DAYS, z % ERA_DAYS;
    if doe + 1 < ERA_DAYS {
      NextInEra(era, doe);
      assert (z + 1) / ERA_DAYS == era && (z + 1) % ERA_DAYS == doe + 1;
    } else {
      LeapFebruary(era, 399);
      NextEra(era);
      assert (z + 1) / ERA_DAYS == era + 1 && (z + 1) % ERA_DAYS == 0;
    }
  }

  lemma EpochIsDayZero()
    ensures KitCivil(0) == Civil(1970, 1, 1)
  {
  }

  lemma {:induction false} CountingMatches(n: nat)
    ensures KitCivil(n) == DaysAfterEpoch(n)
  {
    hide KitCivil, NextDay;
    if n == 0 {
      EpochIsDayZero();
    } else {
      CountingMatches(n - 1);
      NextDayNumber(n - 1);
    }
  }

  /** Both copies give the date reached by counting days from 1 January 1970. */
  lemma MatchesCounting(n: nat, unix: nat)
    requires unix / 86400 == n
    ensures KitCivil(n) == DaysAfterEpoch(n) == AmzCivil(unix)
    ensures IsDate(DaysAfterEpoch(n))
  {
    hide FromEra, DaysAfterEpoch, IsDate, NextDay;
    CountingMatches(n);
    NextDayNumber(n);
    var z := n + EPOCH_SHIFT;
    assert z - z / ERA_DAYS * ERA_DAYS == z % ERA_DAYS;
  }

  /** The printed date is the counted one exactly while its year fits sixteen bits. */
  lemma KitDateExact(n: nat)
    ensures var d, c := FromUnixDays(n), DaysAfterEpoch(n);
            && d.month == c.month && d.day == c.day
            && (d.year == c.year <==> c.year < 0x1_0000)
  {
    CountingMatches(n);
    NextDayNumber(n);
    YearsGrow(n);
  }

  /** The first day whose year is printed wrongly: 1 January 65536. */
  lemma YearOverflows(n: nat)
    requires n == 23_217_004
    ensures DaysAfterEpoch(n) == Civil(65536, 1, 1) && FromUnixDays(n) == Date(65535, 1, 1)
    ensures DaysAfterEpoch(n - 1) == Civil(65535, 12, 31) && FromUnixDays(n - 1) == Date(65535, 12, 31)
  {
    hide DaysAfterEpoch, FromEra;
    CountingMatches(n);
    CountingMatches(n - 1);
    DivModUnique(n + EPOCH_SHIFT, 163, 122_661, ERA_DAYS);
    DivModUnique(n - 1 + EPOCH_SHIFT, 163, 122_660, ERA_DAYS);
    NewYear65536();
  }

  lemma NewYear65536()
    ensures FromEra(163, 122_661) == Civil(65536, 1, 1) && FromEra(163, 122_660) == Civil(65535, 12, 31)
  {
    assert YearOfEra(122_661) == YearOfEra(122_660) == 335 && YearStart(335) == 122_355;
    assert MonthFromMarch(306) == 10 && MonthFromMarch(305) == 9;
  }

  lemma {:induction false} YearsGrow(n: nat)
    ensures DaysAfterEpoch(n).year >= 1970
  {
    if n > 0 {
      YearsGrow(n - 1);
    }
  }
}

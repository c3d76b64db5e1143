/** The controller's clock: UTC calendar time from the epoch counter
    (MicroPython's `utime.localtime`), the United Kingdom daylight-saving rule
    (`is_bst`) and the local time the rest of the controller reads
    (`get_local_time`). Time is a count of seconds since 2000-01-01 00:00 UTC,
    the epoch of MicroPython on the ESP32. */
module Clock {

  const SECONDS_PER_DAY := 86400
  const SECONDS_PER_HOUR := 3600
  /** Days from 0000-03-01 to 2000-01-01 in the proleptic Gregorian calendar. */
  const EPOCH_SHIFT := 730425
  /** The weekday of 2000-01-01, a Saturday (Monday is 0). */
  const EPOCH_WEEKDAY := 5
  const SUNDAY := 6
  const TIMEZONE := "Europe/London"

  /** The 7-tuple `utime.localtime` returns, without its unused day-of-year. */
  datatype DateTime = DateTime(year: int, month: int, day: int,
                               hour: int, minute: int, second: int, weekday: int)

  /** The day count `utime.mktime` gives a calendar date: days since 2000-01-01. */
  function DaysFromCivil(year: int, month: int, day: int): int {
    var y := if month <= 2 then year - 1 else year;
    var mp := if month > 2 then month - 3 else month + 9;
    DaysOfYear(y, (153 * mp + 2) / 5 + day - 1)
  }

  /** The day count of day `doy` of the year `y` counted from 1 March. */
  function DaysOfYear(y: int, doy: int): int {
    var era := y / 400;
    var yoe := y - era * 400;
    era * 146097 + yoe * 365 + yoe / 4 - yoe / 100 + doy - EPOCH_SHIFT
  }

  /** The calendar date of a day count (the date part of `utime.localtime`). */
  function CivilFromDays(days: int): (int, int, int) {
    var z := days + EPOCH_SHIFT;
    var era := z / 146097;
    CivilOfEra(era, z - era * 146097)
  }

  /** The date of day `doe` of the 400-year era `era`, both counted from 1 March. */
  function CivilOfEra(era: int, doe: int): (int, int, int) {
    var yoe := (doe - doe / 1460 + doe / 36524 - doe / 146096) / 365;
    CivilOfYear(yoe + era * 400, doe - (365 * yoe + yoe / 4 - yoe / 100))
  }

  /** The date of day `doy` of the year `y` counted from 1 March. */
  function CivilOfYear(y: int, doy: int): (int, int, int) {
    var mp := (5 * doy + 2) / 153;
    var d := doy - (153 * mp + 2) / 5 + 1;
    var m := if mp < 10 then mp + 3 else mp - 9;
    (if m <= 2 then y + 1 else y, m, d)
  }

  /** A day count names a real month and day, whose day count is the same
      number again. */
  lemma DaysRoundTrip(days: int)
    ensures var (y, m, d) := CivilFromDays(days);
            1 <= m <= 12 && 1 <= d <= 31 && DaysFromCivil(y, m, d) == days
  {
    var z := days + EPOCH_SHIFT;
    var era := z / 146097;
    EraRoundTrip(era, z - era * 146097);
  }

  /** Within an era, the date of a day is a real month and day, whose day
      count is that day's again. */
  lemma EraRoundTrip(era: int, doe: int)
    requires 0 <= doe < 146097
    ensures var (y, m, d) := CivilOfEra(era, doe);
            1 <= m <= 12 && 1 <= d <= 31 && DaysFromCivil(y, m, d) == era * 146097 + doe - EPOCH_SHIFT
  {
    var yoe := (doe - doe / 1460 + doe / 36524 - doe / 146096) / 365;
    var y := yoe + era * 400;
    var doy := doe - (365 * yoe + yoe / 4 - yoe / 100);
    assert CivilOfEra(era, doe) == CivilOfYear(y, doy);
    YearOfEra(doe);
    MonthRoundTrip(y, doy);
    assert y / 400 == era && y - era * 400 == yoe;
    assert DaysOfYear(y, doy) == era * 146097 + doe - EPOCH_SHIFT;
  }

  /** Within a year, the date of a day is a real month and day, whose day
      count is that day's again. */
  lemma MonthRoundTrip(y: int, doy: int)
    requires 0 <= doy <= 365
    ensures var (year, m, d) := CivilOfYear(y, doy);
            1 <= m <= 12 && 1 <= d <= 31 && DaysFromCivil(year, m, d) == DaysOfYear(y, doy)
  {
    MonthOfYear(doy);
  }

  /** Within a 400-year era, the year estimate is a year of the era and the
      day of the year it leaves is 0..365. */
  lemma YearOfEra(doe: int)
    requires 0 <= doe < 146097
    ensures var yoe := (doe - doe / 1460 + doe / 36524 - doe / 146096) / 365;
            0 <= yoe < 400 && 0 <= doe - (365 * yoe + yoe / 4 - yoe / 100) <= 365
  {
    if doe == 146096 {
      assert doe / 1460 == 100 && doe / 36524 == 4 && doe / 146096 == 1;
    } else {
      // centuries of 36524 days, four-year cycles of 1461 days, years of 365
      var c := doe / 36524;
      var r := doe % 36524;
      var k := r / 1461;
      var s := r % 1461;
      assert doe == 36524 * c + 1461 * k + s;
      assert 0 <= c <= 3 && 0 <= k <= 24;
      var f := (24 * c + k + s) / 1460;
      assert doe == 1460 * (25 * c + k) + (24 * c + k + s);
      assert doe / 1460 == 25 * c + k + f;
      assert doe / 146096 == 0;
      var n := doe - doe / 1460 + doe / 36524 - doe / 146096;
      assert n == 365 * (100 * c + 4 * k) + (s - f);
      var j := (s - f) / 365;
      assert 0 <= j <= 3;
      assert n / 365 == 100 * c + 4 * k + j;
      var yoe := 100 * c + 4 * k + j;
      assert yoe / 4 == 25 * c + k;
      assert yoe / 100 == c;
    }
  }

  /** A day of the (March-based) year falls in a month 0..11 on a day 1..31,
      and the month's first day plus that day gives it back. */
  lemma MonthOfYear(doy: int)
    requires 0 <= doy <= 365
    ensures var mp := (5 * doy + 2) / 153;
            0 <= mp <= 11 && 1 <= doy - (153 * mp + 2) / 5 + 1 <= 31 &&
            (153 * mp + 2) / 5 + (doy - (153 * mp + 2) / 5 + 1) - 1 == doy
  {
  }

  function WeekdayOfDays(days: int): (w: int)
    ensures 0 <= w < 7
  {
    (days + EPOCH_WEEKDAY) % 7
  }

  /** The weekday (Monday = 0) of a calendar date: `localtime(mktime(date))[6]`. */
  function WeekdayOf(year: int, month: int, day: int): (w: int)
    ensures 0 <= w < 7
  {
    WeekdayOfDays(DaysFromCivil(year, month, day))
  }

  /** `utime.localtime(t)`: the UTC calendar time of epoch second `t`. */
  function Civil(t: int): (dt: DateTime)
    ensures 0 <= dt.hour < 24 && 0 <= dt.minute < 60 && 0 <= dt.second < 60
    ensures 0 <= dt.weekday < 7
    ensures dt.hour == t % SECONDS_PER_DAY / 3600 && dt.minute == t % SECONDS_PER_DAY % 3600 / 60
    ensures dt.second == t % SECONDS_PER_DAY % 60 && dt.weekday == WeekdayOfDays(t / SECONDS_PER_DAY)
    ensures 1 <= dt.month <= 12 && 1 <= dt.day <= 31
    ensures DaysFromCivil(dt.year, dt.month, dt.day) == t / SECONDS_PER_DAY
    ensures WeekdayOf(dt.year, dt.month, dt.day) == dt.weekday
  {
    var days := t / SECONDS_PER_DAY;
    var secs := t % SECONDS_PER_DAY;
    var (y, m, d) := CivilFromDays(days);
    DaysRoundTrip(days);
    DateTime(y, m, d, secs / 3600, secs % 3600 / 60, secs % 60, WeekdayOfDays(days))
  }

  /** The epoch is 2000-01-01 00:00:00, a Saturday. */
  lemma EpochAnchor()
    ensures Civil(0) == DateTime(2000, 1, 1, 0, 0, 0, 5)
  {
    EpochDate();
  }

  /** Day 0 is 2000-01-01, one layer of the calendar at a time. */
  lemma EpochDate()
    ensures CivilFromDays(0) == (2000, 1, 1)
  {
    EpochEra();
    EpochYear();
    EpochDay();
  }

  /** Day 0 is day 146037 of the era starting 1600-03-01. */
  lemma EpochEra()
    ensures CivilFromDays(0) == CivilOfEra(4, 146037)
  {
    assert EPOCH_SHIFT / 146097 == 4 && EPOCH_SHIFT - 4 * 146097 == 146037;
  }

  /** Day 146037 of that era is day 306 of the year starting 1999-03-01. */
  lemma EpochYear()
    ensures CivilOfEra(4, 146037) == CivilOfYear(1999, 306)
  {
    assert 146037 / 1460 == 100 && 146037 / 36524 == 3 && 146037 / 146096 == 0;
    assert (146037 - 100 + 3 - 0) / 365 == 399;
    assert 146037 - (365 * 399 + 399 / 4 - 399 / 100) == 306;
  }

  /** Day 306 of that year is 1 January. */
  lemma EpochDay()
    ensures CivilOfYear(1999, 306) == (2000, 1, 1)
  {
    assert (5 * 306 + 2) / 153 == 10 && (153 * 10 + 2) / 5 == 306;
  }

  /** 2024-03-31, the spring changeover day of 2024, is a Sunday. */
  lemma SpringChangeover2024()
    ensures WeekdayOf(2024, 3, 31) == SUNDAY
  {
  }

  /** 2024-10-27, the autumn changeover day of 2024, is a Sunday. */
  lemma AutumnChangeover2024()
    ensures WeekdayOf(2024, 10, 27) == SUNDAY
  {
  }

  /** The day of the month of the last Sunday of a 31-day month, computed as
      the controller does from the weekday of the 31st. */
  function LastSunday(year: int, month: int): int {
    31 - (WeekdayOf(year, month, 31) + 1) % 7
  }

  /** `is_bst`: whether British Summer Time is in force at UTC time `dt`. */
  function IsBst(dt: DateTime): bool {
    if dt.month < 3 || dt.month > 10 then false
    else if dt.month > 3 && dt.month < 10 then true
    else
      var lastSunday := LastSunday(dt.year, dt.month);
      if dt.month == 3 then dt.day > lastSunday || (dt.day == lastSunday && dt.hour >= 1)
      else if dt.month == 10 then dt.day < lastSunday || (dt.day == lastSunday && dt.hour < 1)
      else false
  }

  /** `get_local_time`: UTC, moved forward by exactly one hour while BST is in force. */
  function LocalTime(t: int): (dt: DateTime)
    ensures 0 <= dt.hour < 24 && 0 <= dt.minute < 60 && 0 <= dt.second < 60 && 0 <= dt.weekday < 7
  {
    var utc := Civil(t);
    if TIMEZONE == "Europe/London" && IsBst(utc) then Civil(t + SECONDS_PER_HOUR) else utc
  }

  /** Every field of a local-time reading within its range. */
  predicate InRange(dt: DateTime) {
    0 <= dt.hour < 24 && 0 <= dt.minute < 60 && 0 <= dt.second < 60 && 0 <= dt.weekday < 7
  }

  /** A source of local time: the reading at each UTC second. */
  type LocalClock = f: int -> DateTime | forall s :: InRange(f(s))
    witness (s: int) => DateTime(2000, 1, 1, 0, 0, 0, 5)

  /** `LocalTime` is such a source. */
  lemma LocalTimeIsClock()
    ensures forall s :: InRange(LocalTime(s))
  {
    forall s
      ensures InRange(LocalTime(s))
    {
      var dt := LocalTime(s);
    }
  }

  /** `get_local_time`: the device's clock. */
  const LOCAL_CLOCK: LocalClock := (LocalTimeIsClock(); LocalTime)

  // ---------------------------------------------------------------------------
  // The last Sunday of a month, characterised without the formula

  /** `d` is a Sunday, and no later day up to the 31st is one. */
  ghost predicate IsLastSundayOf(year: int, month: int, d: int) {
    1 <= d <= 31 && WeekdayOf(year, month, d) == SUNDAY &&
    forall d' :: d < d' <= 31 ==> WeekdayOf(year, month, d') != SUNDAY
  }

  /** Within a month, consecutive days have consecutive day counts. */
  lemma DaysStepByOne(year: int, month: int, d: int)
    ensures DaysFromCivil(year, month, d) == DaysFromCivil(year, month, 31) - (31 - d)
  {
  }

  /** Counting back from the 31st: `31 - d` days earlier is `31 - d` weekdays
      earlier. */
  lemma WeekdayBackFrom31(year: int, month: int, d: int)
    ensures WeekdayOf(year, month, d) == (WeekdayOf(year, month, 31) - (31 - d)) % 7
  {
    var n := DaysFromCivil(year, month, 31);
    DaysStepByOne(year, month, d);
    WeekBack(n + EPOCH_WEEKDAY, 31 - d);
  }

  lemma WeekBack(n: int, j: int)
    ensures (n - j) % 7 == (n % 7 - j) % 7
  {
    assert n - j == (n % 7 - j) + n / 7 * 7;
  }

  /** The controller's formula `31 - (weekday(31st) + 1) % 7` picks a Sunday
      between the 25th and the 31st, and no later day up to the 31st is a Sunday. */
  lemma LastSundayCorrect(year: int, month: int)
    ensures 25 <= LastSunday(year, month) <= 31
    ensures IsLastSundayOf(year, month, LastSunday(year, month))
  {
    var w := WeekdayOf(year, month, 31);
    var ls := 31 - (w + 1) % 7;
    WeekdayBackFrom31(year, month, ls);
    forall d' | ls < d' <= 31 ensures WeekdayOf(year, month, d') != SUNDAY {
      WeekdayBackFrom31(year, month, d');
    }
  }

  /** There is only one last Sunday in a month. */
  lemma LastSundayUnique(year: int, month: int, d1: int, d2: int)
    requires IsLastSundayOf(year, month, d1) && IsLastSundayOf(year, month, d2)
    ensures d1 == d2
  {
  }

  /** (month, day, hour) of `dt` is at or after (month, day, hour) in the year. */
  predicate AtOrAfter(dt: DateTime, month: int, day: int, hour: int) {
    dt.month > month || (dt.month == month && (dt.day > day || (dt.day == day && dt.hour >= hour)))
  }

  /** BST is in force exactly from 01:00 UTC on the last Sunday of March until,
      not including, 01:00 UTC on the last Sunday of October, whatever the
      weekday arithmetic used to find those Sundays. */
  lemma BstWindow(dt: DateTime, march: int, october: int)
    requires IsLastSundayOf(dt.year, 3, march) && IsLastSundayOf(dt.year, 10, october)
    ensures IsBst(dt) <==> AtOrAfter(dt, 3, march, 1) && !AtOrAfter(dt, 10, october, 1)
  {
    LastSundayCorrect(dt.year, 3);
    LastSundayUnique(dt.year, 3, march, LastSunday(dt.year, 3));
    LastSundayCorrect(dt.year, 10);
    LastSundayUnique(dt.year, 10, october, LastSunday(dt.year, 10));
  }

  /** The summer-time shift moves the clock by one whole hour: minutes and
      seconds are never changed, the hour advances by one modulo 24, and before
      23:00 UTC the date and weekday stay the same. */
  lemma LocalTimeShift(t: int)
    ensures LocalTime(t).minute == Civil(t).minute
    ensures LocalTime(t).second == Civil(t).second
    ensures LocalTime(t).hour == (Civil(t).hour + (if IsBst(Civil(t)) then 1 else 0)) % 24
    ensures Civil(t).hour < 23 ==> LocalTime(t).weekday == Civil(t).weekday
    ensures Civil(t).hour < 23 ==> LocalTime(t).year == Civil(t).year &&
                                   LocalTime(t).month == Civil(t).month && LocalTime(t).day == Civil(t).day
  {
    if IsBst(Civil(t)) {
      assert LocalTime(t) == Civil(t + SECONDS_PER_HOUR);
      HourLater(t);
      SecondOfDayHourLater(t % SECONDS_PER_DAY);
    } else {
      assert LocalTime(t) == Civil(t);
    }
  }

  /** One hour after `t`, in terms of the day count and the second of the day. */
  lemma HourLater(t: int)
    ensures var s := t % SECONDS_PER_DAY;
            (t + SECONDS_PER_HOUR) % SECONDS_PER_DAY == (s + SECONDS_PER_HOUR) % SECONDS_PER_DAY &&
            (s / 3600 < 23 ==> (t + SECONDS_PER_HOUR) / SECONDS_PER_DAY == t / SECONDS_PER_DAY)
  {
    var s := t % SECONDS_PER_DAY;
    var q := t / SECONDS_PER_DAY;
    assert t == q * SECONDS_PER_DAY + s;
    if s + SECONDS_PER_HOUR < SECONDS_PER_DAY {
      assert t + SECONDS_PER_HOUR == q * SECONDS_PER_DAY + (s + SECONDS_PER_HOUR);
    } else {
      assert t + SECONDS_PER_HOUR == (q + 1) * SECONDS_PER_DAY + (s + SECONDS_PER_HOUR - SECONDS_PER_DAY);
    }
  }

  /** On the 24-hour dial, an hour later keeps minutes and seconds. */
  lemma SecondOfDayHourLater(s: int)
    requires 0 <= s < SECONDS_PER_DAY
    ensures var s' := (s + SECONDS_PER_HOUR) % SECONDS_PER_DAY;
            s' % 3600 == s % 3600 && s' % 60 == s % 60 && s' / 3600 == (s / 3600 + 1) % 24
  {
    var q := s / 3600;
    var r := s % 3600;
    assert s == q * 3600 + r;
    assert s % 60 == r % 60;
    if s + SECONDS_PER_HOUR < SECONDS_PER_DAY {
      assert (s + SECONDS_PER_HOUR) % SECONDS_PER_DAY == (q + 1) * 3600 + r;
    } else {
      assert (s + SECONDS_PER_HOUR) % SECONDS_PER_DAY == r;
    }
  }
}

/** Instants and calendar arithmetic shared by the availability core.
  *
  * An instant is a whole number of seconds since 1970-01-01T00:00:00Z. The
  * host process is taken to run in UTC, so the JavaScript local-time getters
  * and setters (getDay, getHours, setHours, setDate, ...) read and write the
  * UTC fields of an instant. Dafny's `/` and `%` with a positive divisor are
  * floor division and a non-negative remainder, which is what the Date
  * arithmetic does for instants before 1970 as well.
  */
module Calendar {

  /** Seconds since the Unix epoch. */
  type Instant = int

  /** Day of the week as Date.prototype.getDay numbers it: 0 is Sunday. */
  type Weekday = d: int | 0 <= d < 7

  /** Number of whole days since 1970-01-01. */
  function DayNumber(t: Instant): (n: int)
  {
    t / 86400
  }

  /** Seconds elapsed since midnight of the instant's day. */
  function SecondOfDay(t: Instant): (s: int)
    ensures 0 <= s < 86400
    ensures t == DayNumber(t) * 86400 + s
  {
    t % 86400
  }

  /** getDay(): 1970-01-01 was a Thursday (4). */
  function DayOfWeek(t: Instant): (d: Weekday)
  {
    (DayNumber(t) + 4) % 7
  }

  /** The weekday advances by one, Saturday wrapping to Sunday, from one day
    * to the next. */
  lemma DayOfWeekNextDay(t: Instant)
    ensures DayOfWeek(t + 86400) == (DayOfWeek(t) + 1) % 7
  {
    assert DayNumber(t + 86400) == DayNumber(t) + 1;
  }

  /** A week later is the same weekday. */
  lemma {:induction false} DayOfWeekWeekLater(t: Instant)
    ensures DayOfWeek(t + 7 * 86400) == DayOfWeek(t)
  {
    assert DayNumber(t + 7 * 86400) == DayNumber(t) + 7;
  }

  /** getHours(). */
  function Hours(t: Instant): (h: int)
    ensures 0 <= h < 24
    ensures h * 3600 <= SecondOfDay(t) < h * 3600 + 3600
  {
    SecondOfDay(t) / 3600
  }

  /** getMinutes(). */
  function Minutes(t: Instant): (m: int)
    ensures 0 <= m < 60
    ensures Hours(t) * 3600 + m * 60 <= SecondOfDay(t) < Hours(t) * 3600 + m * 60 + 60
  {
    SecondOfDay(t) % 3600 / 60
  }

  /** The midnight that starts day number n. */
  lemma MidnightOfDay(n: int)
    ensures DayNumber(n * 86400) == n
    ensures SecondOfDay(n * 86400) == 0
  {
    var t := n * 86400;
    assert t == DayNumber(t) * 86400 + SecondOfDay(t);
    assert (DayNumber(t) - n) * 86400 == -SecondOfDay(t);
  }

  /** Second s of day n lies on day n. */
  lemma InstantOfDay(n: int, s: int)
    requires 0 <= s < 86400
    ensures DayNumber(n * 86400 + s) == n
    ensures SecondOfDay(n * 86400 + s) == s
  {
    var t := n * 86400 + s;
    assert t == DayNumber(t) * 86400 + SecondOfDay(t);
    assert (DayNumber(t) - n) * 86400 == s - SecondOfDay(t);
  }

  /** Six days after a Monday is a Sunday. */
  lemma SixDaysAfterMonday(n: int)
    requires (n + 4) % 7 == 1
    ensures (n + 6 + 4) % 7 == 0
  {
    var q := (n + 4) / 7;
    assert n + 4 == 7 * q + 1;
    assert n + 6 + 4 == 7 * (q + 1);
  }

  /** A local wall-clock instant moved to the storage instant by adding an
    * offset in minutes (`setMinutes(getMinutes() + offset)`). */
  function ToStorage(local: Instant, offsetMinutes: int): (instant: Instant)
    ensures instant % 60 == local % 60
  {
    local + offsetMinutes * 60
  }

  /** The inverse shift (`setUTCMinutes(getUTCMinutes() - offset)`): a stored
    * instant seen in the viewer's wall-clock time. */
  function ToLocal(instant: Instant, offsetMinutes: int): (local: Instant)
    ensures ToStorage(local, offsetMinutes) == instant
  {
    instant - offsetMinutes * 60
  }

  /** Shifting to local time and back to storage time is the identity. */
  lemma LocalStorageRoundTrip(local: Instant, offsetMinutes: int)
    ensures ToLocal(ToStorage(local, offsetMinutes), offsetMinutes) == local
  {
  }

  /** Days from 1970-01-01 to the proleptic Gregorian date (y, m, d), for a
    * month 1..12 and any day number (days past the month's end roll over). */
  function DaysFromCivil(y: int, m: int, d: int): (n: int)
    requires 1 <= m <= 12
  {
    var y' := if m <= 2 then y - 1 else y;
    var era := y' / 400;
    var yoe := y' - era * 400;                // year of era, 0..399
    var mp := if m > 2 then m - 3 else m + 9;  // months since March, 0..11
    var doy := (153 * mp + 2) / 5 + d - 1;     // day of the March-based year
    var doe := yoe * 365 + yoe / 4 - yoe / 100 + doy;
    era * 146097 + doe - 719468
  }

  /** The Gregorian leap-year rule. */
  predicate Leap(y: int)
  {
    y % 4 == 0 && (y % 100 != 0 || y % 400 == 0)
  }

  /** Number of days in month m (1..12) of year y: the calendar table that
    * DaysFromCivil is checked against. */
  function DaysInMonth(y: int, m: int): (n: int)
    requires 1 <= m <= 12
    ensures 28 <= n <= 31
  {
    if m == 2 then (if Leap(y) then 29 else 28)
    else if m == 4 || m == 6 || m == 9 || m == 11 then 30
    else 31
  }

  /** Days before the 1st of March of the March-based year y, counted from
    * the 1st of March of year 0. */
  function MarchYearStart(y: int): (days: int)
  {
    var era := y / 400;
    var yoe := y - era * 400;
    era * 146097 + yoe * 365 + yoe / 4 - yoe / 100
  }

  /** Within an era, year k + 1 of the era starts 365 days after year k,
    * plus the day of a 29 February every fourth year but not the hundredth. */
  lemma YearOfEraStep(k: int)
    requires 0 <= k < 399
    ensures (k + 1) * 365 + (k + 1) / 4 - (k + 1) / 100
         == k * 365 + k / 4 - k / 100 + (if (k + 1) % 4 == 0 && (k + 1) % 100 != 0 then 366 else 365)
  {
  }

  /** Year r of an era is the year's remainder modulo 400. */
  lemma YearOfEraIsRemainder(y: int, era: int, r: int)
    requires y == era * 400 + r && 0 <= r < 400
    ensures y % 400 == r
  {
    var q := y / 400;
    assert y == q * 400 + y % 400;
    assert (q - era) * 400 == r - y % 400;
  }

  /** Year y agrees modulo 4 with its year of era r. */
  lemma YearOfEraModFour(y: int, era: int, r: int)
    requires y == era * 400 + r
    ensures y % 4 == r % 4
  {
    var q := y / 4;
    assert y == q * 4 + y % 4;
    assert (q - era * 100 - r / 4) * 4 == r % 4 - y % 4;
  }

  /** Year y agrees modulo 100 with its year of era r. */
  lemma YearOfEraModHundred(y: int, era: int, r: int)
    requires y == era * 400 + r
    ensures y % 100 == r % 100
  {
    var q := y / 100;
    assert y == q * 100 + y % 100;
    assert (q - era * 4 - r / 100) * 100 == r % 100 - y % 100;
  }

  /** Year y agrees modulo 4, 100 and 400 with its year of era r. */
  lemma YearOfEraResidues(y: int, era: int, r: int)
    requires y == era * 400 + r && 0 <= r < 400
    ensures y % 4 == r % 4
    ensures y % 100 == r % 100
    ensures y % 400 == r
  {
    YearOfEraIsRemainder(y, era, r);
    YearOfEraModFour(y, era, r);
    YearOfEraModHundred(y, era, r);
  }

  /** Year y, with year of era r in 1..399, is a leap year exactly when r is
    * a multiple of 4 but not of 100. */
  lemma LeapOfYearOfEra(y: int, era: int, r: int)
    requires y == era * 400 + r && 0 < r < 400
    ensures Leap(y) <==> r % 4 == 0 && r % 100 != 0
  {
    YearOfEraResidues(y, era, r);
  }

  /** A March-based year y - 1 runs into February of year y, so it has 366
    * days exactly when y is a leap year. */
  lemma MarchYearLength(y: int)
    ensures MarchYearStart(y) == MarchYearStart(y - 1) + (if Leap(y) then 366 else 365)
  {
    var era := (y - 1) / 400;
    var k := (y - 1) - era * 400;
    assert MarchYearStart(y - 1) == era * 146097 + k * 365 + k / 4 - k / 100;
    if k == 399 {
      YearOfEraResidues(y, era + 1, 0);
      assert y / 400 == era + 1;
      assert MarchYearStart(y) == (era + 1) * 146097;
    } else {
      YearOfEraResidues(y, era, k + 1);
      assert y / 400 == era;
      assert MarchYearStart(y) == era * 146097 + (k + 1) * 365 + (k + 1) / 4 - (k + 1) / 100;
      YearOfEraStep(k);
      LeapOfYearOfEra(y, era, k + 1);
    }
  }

  /** DaysFromCivil splits into the start of the March-based year and the
    * offset of the month within it. */
  lemma CivilFromMarch(y: int, m: int, d: int, y': int, mp: int)
    requires 1 <= m <= 12
    requires y' == (if m <= 2 then y - 1 else y) && mp == (if m > 2 then m - 3 else m + 9)
    ensures DaysFromCivil(y, m, d) == MarchYearStart(y') + (153 * mp + 2) / 5 + d - 1 - 719468
  {
  }

  /** Day d of a month is d - 1 days after its first day. */
  lemma CivilDayOfMonth(y: int, m: int, d: int)
    requires 1 <= m <= 12
    ensures DaysFromCivil(y, m, d) == DaysFromCivil(y, m, 1) + d - 1
  {
    var y', mp := if m <= 2 then y - 1 else y, if m > 2 then m - 3 else m + 9;
    CivilFromMarch(y, m, d, y', mp);
    CivilFromMarch(y, m, 1, y', mp);
  }

  /** The 1st of the next month comes DaysInMonth days after the 1st of this
    * one, within a year. */
  lemma {:induction false} CivilNextMonth(y: int, m: int)
    requires 1 <= m < 12
    ensures DaysFromCivil(y, m + 1, 1) == DaysFromCivil(y, m, 1) + DaysInMonth(y, m)
  {
    if m == 1 {
      CivilFebruaryFirst(y);
    } else if m == 2 {
      CivilMarchFirst(y);
    } else {
      CivilLaterMonth(y, m);
    }
  }

  /** From March on, both firsts lie in the same March-based year. */
  lemma CivilLaterMonth(y: int, m: int)
    requires 3 <= m < 12
    ensures DaysFromCivil(y, m + 1, 1) == DaysFromCivil(y, m, 1) + DaysInMonth(y, m)
  {
    CivilFromMarch(y, m, 1, y, m - 3);
    CivilFromMarch(y, m + 1, 1, y, m - 2);
    MonthWithinMarchYear(y, m);
  }

  /** 1 February is 31 days after 1 January. */
  lemma CivilFebruaryFirst(y: int)
    ensures DaysFromCivil(y, 2, 1) == DaysFromCivil(y, 1, 1) + 31
  {
    CivilFromMarch(y, 1, 1, y - 1, 10);
    CivilFromMarch(y, 2, 1, y - 1, 11);
  }

  /** 1 March is 28 days after 1 February, or 29 in a leap year. */
  lemma CivilMarchFirst(y: int)
    ensures DaysFromCivil(y, 3, 1) == DaysFromCivil(y, 2, 1) + (if Leap(y) then 29 else 28)
  {
    CivilFromMarch(y, 2, 1, y - 1, 11);
    CivilFromMarch(y, 3, 1, y, 0);
    MarchYearLength(y);
  }

  /** From March on, the 1st of month m + 1 lies DaysInMonth days after the
    * 1st of month m in the March-based count. */
  lemma MonthWithinMarchYear(y: int, m: int)
    requires 3 <= m < 12
    ensures (153 * (m - 2) + 2) / 5 == (153 * (m - 3) + 2) / 5 + DaysInMonth(y, m)
  {
    if m == 3 || m == 5 || m == 7 || m == 8 || m == 10 {
      assert DaysInMonth(y, m) == 31;
    } else {
      assert DaysInMonth(y, m) == 30;
    }
  }

  /** The 1st of January follows the 1st of December by 31 days. */
  lemma CivilNextYear(y: int)
    ensures DaysFromCivil(y + 1, 1, 1) == DaysFromCivil(y, 12, 1) + DaysInMonth(y, 12)
  {
    CivilFromMarch(y + 1, 1, 1, y, 10);
    CivilFromMarch(y, 12, 1, y, 9);
  }

  /** Day 0 is 1 January 1970. */
  lemma CivilEpoch()
    ensures DaysFromCivil(1970, 1, 1) == 0
  {
    CivilFromMarch(1970, 1, 1, 1969, 10);
    assert MarchYearStart(1969) == 719468 - 306;
  }

  /** `new Date(year, monthIndex, day)` on a UTC host: a two-digit year
    * 0..99 means 1900 + year, a month index outside 0..11 carries into the
    * year, and the day counts on from the first of the month. */
  function LocalMidnight(year: int, monthIndex: int, day: int): (t: Instant)
    ensures SecondOfDay(t) == 0
  {
    var ym := FullYear(year) + monthIndex / 12;
    var mn := monthIndex % 12;
    var n := DaysFromCivil(ym, mn + 1, 1) + day - 1;
    MidnightOfDay(n);
    n * 86400
  }

  /** The Date constructor's two-digit year rule. */
  function FullYear(year: int): (full: int)
    ensures full == year || 1900 <= full <= 1999
  {
    if 0 <= year <= 99 then 1900 + year else year
  }

  /** Consecutive years stay consecutive, except across the edges of the
    * two-digit range (-1 to 0 and 99 to 100). */
  lemma FullYearNext(year: int)
    ensures FullYear(year + 1) == FullYear(year) + 1 <==> year != -1 && year != 99
  {
  }

  /** The next day is exactly 86400 seconds later, whatever the month. */
  lemma LocalMidnightNextDay(year: int, monthIndex: int, day: int)
    ensures LocalMidnight(year, monthIndex, day + 1) == LocalMidnight(year, monthIndex, day) + 86400
  {
    var a := LocalMidnight(year, monthIndex, day);
    var b := LocalMidnight(year, monthIndex, day + 1);
    assert DayNumber(b) == DayNumber(a) + 1;
    assert a == DayNumber(a) * 86400 + SecondOfDay(a);
    assert b == DayNumber(b) * 86400 + SecondOfDay(b);
  }

  /** A month index past December is the same month of the following year. */
  lemma LocalMidnightMonthCarry(year: int, monthIndex: int, day: int)
    requires year != -1 && year != 99
    ensures LocalMidnight(year, monthIndex + 12, day) == LocalMidnight(year + 1, monthIndex, day)
  {
    FullYearNext(year);
    assert (monthIndex + 12) / 12 == monthIndex / 12 + 1;
    assert (monthIndex + 12) % 12 == monthIndex % 12;
    var a := LocalMidnight(year, monthIndex + 12, day);
    var b := LocalMidnight(year + 1, monthIndex, day);
    assert a == DayNumber(a) * 86400 + SecondOfDay(a);
    assert b == DayNumber(b) * 86400 + SecondOfDay(b);
  }

  /** The day after the last day of a month is the first of the next month,
    * December rolling over into January of the following year. */
  lemma LocalMidnightMonthEnd(year: int, monthIndex: int)
    ensures LocalMidnight(year, monthIndex, DaysInMonth(FullYear(year) + monthIndex / 12, monthIndex % 12 + 1) + 1)
         == LocalMidnight(year, monthIndex + 1, 1)
  {
    var y, m := FullYear(year) + monthIndex / 12, monthIndex % 12 + 1;
    var y', m' := FullYear(year) + (monthIndex + 1) / 12, (monthIndex + 1) % 12 + 1;
    MonthIndexNext(monthIndex);
    var n := DaysFromCivil(y, m, 1) + DaysInMonth(y, m);
    CivilMonthEnd(y, m, y', m');
    LocalMidnightOfCivilDay(year, monthIndex, DaysInMonth(y, m) + 1, y, m, n);
    LocalMidnightOfCivilDay(year, monthIndex + 1, 1, y', m', n);
  }

  /** Moving to the next month index carries into the year after December. */
  lemma MonthIndexNext(monthIndex: int)
    ensures (monthIndex + 1) / 12 == monthIndex / 12 + (monthIndex % 12 + 1) / 12
    ensures (monthIndex + 1) % 12 == (monthIndex % 12 + 1) % 12
  {
  }

  /** The 1st of the month after month m (1..12), which is month m' of year
    * y', is DaysInMonth days later. */
  lemma CivilMonthEnd(y: int, m: int, y': int, m': int)
    requires 1 <= m <= 12 && y' == y + m / 12 && m' == m % 12 + 1
    ensures DaysFromCivil(y, m, 1) + DaysInMonth(y, m) == DaysFromCivil(y', m', 1)
  {
    if m < 12 {
      assert y' == y && m' == m + 1;
      CivilNextMonth(y, m);
    } else {
      assert y' == y + 1 && m' == 1;
      CivilNextYear(y);
    }
  }

  /** The midnight of a date is n * 86400 for the date's day number n. */
  lemma LocalMidnightOfCivilDay(year: int, monthIndex: int, day: int, y: int, m: int, n: int)
    requires y == FullYear(year) + monthIndex / 12 && m == monthIndex % 12 + 1
    requires DaysFromCivil(y, m, 1) + day - 1 == n
    ensures LocalMidnight(year, monthIndex, day) == n * 86400
  {
    var t := LocalMidnight(year, monthIndex, day);
    assert t == DayNumber(t) * 86400 + SecondOfDay(t);
  }

  /** `new Date(1970, 0, 1)` and its two-digit form `new Date(70, 0, 1)` are
    * both the epoch. */
  lemma LocalMidnightEpoch()
    ensures LocalMidnight(1970, 0, 1) == 0
    ensures LocalMidnight(70, 0, 1) == 0
  {
    var y, m := FullYear(1970) + 0 / 12, 0 % 12 + 1;
    assert y == FullYear(70) + 0 / 12 == 1970 && m == 1;
    CivilEpoch();
    LocalMidnightIsDay(1970, 0, 1, 0);
    LocalMidnightIsDay(70, 0, 1, 0);
  }

  /** A midnight on day n is the instant n * 86400. */
  lemma LocalMidnightIsDay(year: int, monthIndex: int, day: int, n: int)
    requires DayNumber(LocalMidnight(year, monthIndex, day)) == n
    ensures LocalMidnight(year, monthIndex, day) == n * 86400
  {
    var t := LocalMidnight(year, monthIndex, day);
    assert t == DayNumber(t) * 86400 + SecondOfDay(t);
  }

  /** 1 January 2024 is 19723 days after 1 January 1970, and 3 January is
    * day 19725. */
  lemma NewYear2024()
    ensures DayNumber(LocalMidnight(2024, 0, 1)) == 19723
    ensures DayNumber(LocalMidnight(2024, 0, 3)) == 19725
  {
    var y, m := FullYear(2024) + 0 / 12, 0 % 12 + 1;
    assert y == 2024 && m == 1;
    assert DaysFromCivil(y, m, 1) == 19723;
  }

  /** Day 19723 is a Monday and day 19725 a Wednesday. */
  lemma WeekdaysOfJanuary2024()
    ensures DayOfWeek(1704067200) == 1
    ensures DayOfWeek(1704240000) == 3
  {
    MidnightOfDay(19723);
    MidnightOfDay(19725);
  }

  /** 2024-01-01 is day 19723 and a Monday; 2024-01-03 is a Wednesday. */
  lemma January2024()
    ensures LocalMidnight(2024, 0, 1) == 1704067200
    ensures LocalMidnight(2024, 0, 3) == 1704240000
    ensures DayOfWeek(1704067200) == 1
    ensures DayOfWeek(1704240000) == 3
  {
    NewYear2024();
    LocalMidnightIsDay(2024, 0, 1, 19723);
    LocalMidnightIsDay(2024, 0, 3, 19725);
    WeekdaysOfJanuary2024();
  }
}

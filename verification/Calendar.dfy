/** The proleptic Gregorian calendar and the parts of JavaScript's `Date` the cron engine uses.
    Instants are integers: milliseconds, minutes or days since 1970-01-01T00:00Z. */
module Calendar {

  const MS_PER_MINUTE := 60000
  const MINUTES_PER_DAY := 1440

  datatype Civil = Civil(year: int, month: int, day: int, hour: int, minute: int)

  predicate IsLeap(y: int) {
    (y % 4 == 0 && y % 100 != 0) || y % 400 == 0
  }

  function MonthLength(y: int, m: int): (n: int)
    requires 1 <= m <= 12
    ensures 28 <= n <= 31
  {
    if m == 2 then (if IsLeap(y) then 29 else 28)
    else if m == 4 || m == 6 || m == 9 || m == 11 then 30
    else 31
  }

  predicate ValidCivil(c: Civil) {
    && 1 <= c.month <= 12
    && 1 <= c.day <= MonthLength(c.year, c.month)
    && 0 <= c.hour < 24
    && 0 <= c.minute < 60
  }

  /** Days from 1970-01-01 to the first of January of year `y`
      (`DayFromYear` of the ECMAScript specification). */
  function DayFromYear(y: int): int {
    365 * (y - 1970) + (y - 1969) / 4 - (y - 1901) / 100 + (y - 1601) / 400
  }

  /** Days from the first of January to the first of month `m`. */
  function MonthStart(y: int, m: int): int
    requires 1 <= m <= 12
  {
    var leap := if IsLeap(y) then 1 else 0;
    if m == 1 then 0 else if m == 2 then 31
    else leap + (if m == 3 then 59 else if m == 4 then 90 else if m == 5 then 120
                 else if m == 6 then 151 else if m == 7 then 181 else if m == 8 then 212
                 else if m == 9 then 243 else if m == 10 then 273 else if m == 11 then 304 else 334)
  }

  function DayNumber(y: int, m: int, d: int): int
    requires 1 <= m <= 12
  {
    DayFromYear(y) + MonthStart(y, m) + d - 1
  }

  /** Minutes from the epoch to a wall-clock minute, read as UTC. */
  function MinuteOf(c: Civil): int
    requires 1 <= c.month <= 12
  {
    DayNumber(c.year, c.month, c.day) * MINUTES_PER_DAY + c.hour * 60 + c.minute
  }

  /** Sunday is 0; 1970-01-01 was a Thursday. */
  function DayOfWeek(day: int): (w: int)
    ensures 0 <= w < 7
  {
    (day + 4) % 7
  }

  // ---- the length of a year ----

  lemma QuarterStep(y: int)
    ensures (y + 1 - 1969) / 4 - (y - 1969) / 4 == if y % 4 == 0 then 1 else 0
  {
  }

  lemma CenturyStep(y: int)
    ensures (y + 1 - 1901) / 100 - (y - 1901) / 100 == if y % 100 == 0 then 1 else 0
  {
  }

  lemma FourCenturyStep(y: int)
    ensures (y + 1 - 1601) / 400 - (y - 1601) / 400 == if y % 400 == 0 then 1 else 0
  {
  }

  lemma YearLength(y: int)
    ensures DayFromYear(y + 1) - DayFromYear(y) == if IsLeap(y) then 366 else 365
  {
    QuarterStep(y);
    CenturyStep(y);
    FourCenturyStep(y);
  }

  lemma MonthStartStep(y: int, m: int)
    requires 1 <= m <= 12
    ensures MonthStart(y, m) >= 0
    ensures MonthStart(y, m) + MonthLength(y, m) ==
            if m < 12 then MonthStart(y, m + 1) else DayFromYear(y + 1) - DayFromYear(y)
  {
    YearLength(y);
  }

  lemma {:induction false} YearsAscend(y: int, y': int)
    requires y <= y'
    ensures DayFromYear(y) + 365 * (y' - y) <= DayFromYear(y')
    decreases y' - y
  {
    if y < y' {
      YearLength(y);
      YearsAscend(y + 1, y');
    }
  }

  lemma {:induction false} MonthsAscend(y: int, m: int, m': int)
    requires 1 <= m < m' <= 12
    ensures MonthStart(y, m) + MonthLength(y, m) <= MonthStart(y, m')
    decreases m' - m
  {
    MonthStartStep(y, m);
    if m + 1 < m' {
      MonthsAscend(y, m + 1, m');
    }
  }

  /** Where a month lies inside its year. */
  lemma {:induction false} MonthInYear(y: int, m: int)
    requires 1 <= m <= 12
    ensures 0 <= MonthStart(y, m)
    ensures MonthStart(y, m) + MonthLength(y, m) <= DayFromYear(y + 1) - DayFromYear(y)
  {
    MonthStartStep(y, m);
    if m < 12 {
      MonthsAscend(y, m, 12);
      MonthStartStep(y, 12);
    }
  }

  // ---- order ----

  /** The fields in significance order; one day slot more than the longest month, so that the
      position just past a month's last day still sorts before the next month. */
  function Rank(c: Civil): int {
    ((c.year * 12 + c.month) * 33 + c.day) * MINUTES_PER_DAY + c.hour * 60 + c.minute
  }

  predicate Before(a: Civil, b: Civil) {
    || a.year < b.year
    || (a.year == b.year && a.month < b.month)
    || (a.year == b.year && a.month == b.month && a.day < b.day)
    || (a.year == b.year && a.month == b.month && a.day == b.day
        && a.hour * 60 + a.minute < b.hour * 60 + b.minute)
  }

  /** Field ranges of a search position: a valid minute, or one day past the month's end. */
  predicate NearCivil(c: Civil) {
    1 <= c.month <= 12 && 1 <= c.day <= 32 && 0 <= c.hour < 24 && 0 <= c.minute < 60
  }

  lemma BeforeRank(a: Civil, b: Civil)
    requires NearCivil(a) && NearCivil(b)
    ensures Before(a, b) <==> Rank(a) < Rank(b)
    ensures Rank(a) == Rank(b) <==> a == b
  {
    var ma, mb := a.year * 12 + a.month, b.year * 12 + b.month;
    var da, db := ma * 33 + a.day, mb * 33 + b.day;
    assert ma < mb <==> a.year < b.year || (a.year == b.year && a.month < b.month);
    assert ma == mb <==> a.year == b.year && a.month == b.month;
    assert da < db <==> ma < mb || (ma == mb && a.day < b.day);
    assert da == db <==> ma == mb && a.day == b.day;
  }

  lemma DaysAscend(a: Civil, b: Civil)
    requires ValidCivil(a) && ValidCivil(b)
    requires a.year < b.year || (a.year == b.year && (a.month < b.month || (a.month == b.month && a.day < b.day)))
    ensures DayNumber(a.year, a.month, a.day) < DayNumber(b.year, b.month, b.day)
  {
    MonthInYear(a.year, a.month);
    MonthInYear(b.year, b.month);
    if a.year < b.year {
      YearsAscend(a.year + 1, b.year);
    } else if a.month < b.month {
      MonthsAscend(a.year, a.month, b.month);
    }
  }

  /** Wall-clock order is time order. */
  lemma RankIsTimeOrder(a: Civil, b: Civil)
    requires ValidCivil(a) && ValidCivil(b)
    ensures MinuteOf(a) < MinuteOf(b) <==> Rank(a) < Rank(b)
    ensures MinuteOf(a) == MinuteOf(b) <==> a == b
  {
    BeforeRank(a, b);
    BeforeRank(b, a);
    if Before(a, b) { BeforeIsEarlier(a, b); }
    if Before(b, a) { BeforeIsEarlier(b, a); }
  }

  lemma BeforeIsEarlier(a: Civil, b: Civil)
    requires ValidCivil(a) && ValidCivil(b) && Before(a, b)
    ensures MinuteOf(a) < MinuteOf(b)
  {
    if !(a.year == b.year && a.month == b.month && a.day == b.day) {
      DaysAscend(a, b);
    }
  }

  // ---- from instants back to dates ----

  function YearUp(day: int, y: int): (r: int)
    requires DayFromYear(y) <= day
    ensures DayFromYear(r) <= day < DayFromYear(r + 1)
    decreases day - DayFromYear(y)
  {
    YearLength(y);
    if day < DayFromYear(y + 1) then y else YearUp(day, y + 1)
  }

  function YearDown(day: int, y: int): (r: int)
    requires day < DayFromYear(y)
    ensures DayFromYear(r) <= day < DayFromYear(r + 1)
    decreases DayFromYear(y) - day
  {
    YearLength(y - 1);
    if DayFromYear(y - 1) <= day then y - 1 else YearDown(day, y - 1)
  }

  function YearOfDay(day: int): (y: int)
    ensures DayFromYear(y) <= day < DayFromYear(y + 1)
  {
    if 0 <= day then YearUp(day, 1970) else YearDown(day, 1970)
  }

  function MonthFrom(y: int, dayInYear: int, m: int): (r: int)
    requires 1 <= m <= 12
    requires MonthStart(y, m) <= dayInYear < DayFromYear(y + 1) - DayFromYear(y)
    ensures 1 <= r <= 12
    ensures MonthStart(y, r) <= dayInYear < MonthStart(y, r) + MonthLength(y, r)
    decreases 12 - m
  {
    MonthStartStep(y, m);
    if dayInYear < MonthStart(y, m) + MonthLength(y, m) then m else MonthFrom(y, dayInYear, m + 1)
  }

  /** The wall-clock minute of an instant, in UTC. */
  function CivilOf(minute: int): (c: Civil)
    ensures ValidCivil(c)
    ensures MinuteOf(c) == minute
  {
    var day, rest := minute / MINUTES_PER_DAY, minute % MINUTES_PER_DAY;
    var y := YearOfDay(day);
    var inYear := day - DayFromYear(y);
    var m := MonthFrom(y, inYear, 1);
    Civil(y, m, inYear - MonthStart(y, m) + 1, rest / 60, rest % 60)
  }

  /** `CivilOf` and `MinuteOf` are inverse bijections between minutes and valid wall clocks. */
  lemma CivilOfMinuteOf(c: Civil)
    requires ValidCivil(c)
    ensures CivilOf(MinuteOf(c)) == c
  {
    RankIsTimeOrder(c, CivilOf(MinuteOf(c)));
  }

  // ---- JavaScript's Date ----

  /** `Date.UTC(year, month0, day, hour, minute)`: months and days overflow into the neighbouring
      ones, and a two-digit year means the twentieth century. */
  function DateUtc(year: int, month0: int, day: int, hour: int, minute: int): int {
    var full := if 0 <= year <= 99 then 1900 + year else year;
    var y, m := full + month0 / 12, month0 % 12 + 1;
    ((DayNumber(y, m, day)) * MINUTES_PER_DAY + hour * 60 + minute) * MS_PER_MINUTE
  }

  /** `daysInMonth` of src/extensions/cron.ts: the date of day zero of the next month. */
  function DaysInMonth(year: int, month1: int): int {
    CivilOf(DateUtc(year, month1, 0, 0, 0) / MS_PER_MINUTE).day
  }

  /** Reading a two-digit year as nineteen hundred and something keeps leap years leap. */
  lemma CenturyShiftKeepsLeap(y: int)
    requires 1 <= y <= 99
    ensures IsLeap(1900 + y) == IsLeap(y)
  {
    assert (1900 + y) % 4 == y % 4;
    assert (1900 + y) % 100 == y % 100 == y;
    assert (1900 + y) % 400 != 0;
  }

  lemma DayZeroIsMonthEnd(full: int, m: int)
    requires 1 <= m <= 12
    ensures DayNumber(full + m / 12, m % 12 + 1, 0) == DayNumber(full, m, MonthLength(full, m))
  {
    MonthStartStep(full, m);
    if m == 12 {
      assert m / 12 == 1 && m % 12 == 0;
    } else {
      assert m / 12 == 0 && m % 12 == m;
    }
  }

  lemma CenturyShiftKeepsMonth(year: int, m: int)
    requires 1 <= year <= 99 && 1 <= m <= 12
    ensures MonthLength(1900 + year, m) == MonthLength(year, m)
  {
    CenturyShiftKeepsLeap(year);
  }

  /** Day zero of the next month, as an instant, is midnight of this month's last day. */
  lemma DayZeroMidnight(full: int, m: int)
    requires 1 <= m <= 12
    ensures var last := Civil(full, m, MonthLength(full, m), 0, 0);
            ValidCivil(last) && DayNumber(full + m / 12, m % 12 + 1, 0) * MINUTES_PER_DAY == MinuteOf(last)
  {
    DayZeroIsMonthEnd(full, m);
  }

  lemma DaysInMonthIsMonthLength(year: int, m: int)
    requires 1 <= year && 1 <= m <= 12
    ensures DaysInMonth(year, m) == MonthLength(year, m)
  {
    hide IsLeap, DayNumber, CivilOf, MonthLength, MinuteOf, ValidCivil;
    var full := if year <= 99 then 1900 + year else year;
    if year <= 99 { CenturyShiftKeepsMonth(year, m); }
    var last := Civil(full, m, MonthLength(full, m), 0, 0);
    DayZeroMidnight(full, m);
    assert DateUtc(year, m, 0, 0, 0) == MinuteOf(last) * MS_PER_MINUTE;
    CivilOfMinuteOf(last);
  }
}

/** `next(from)` in UTC and every other whole-minute fixed offset: the least fire after `from`, found for
    every expression that some calendar date satisfies. */
module CronNext {
  import opened Wrappers
  import opened Calendar
  import opened CronParser
  import opened CronSearch

  function Fixed(offset: int): Zone { (ms: int) => offset }

  const UTC := 0

  /** From here on `Date.UTC` reads a year as itself. */
  const FIRST_YEAR := 100

  predicate WholeMinuteOffset(offset: int) { offset % MS_PER_MINUTE == 0 }

  /** `Date.UTC` reads the wall-clock minute as itself, and so it does the first guess at its instant. */
  predicate ReadsAsItself(minute: int, offset: int) {
    FIRST_YEAR <= CivilOf(minute).year && FIRST_YEAR <= CivilOf(minute + offset / MS_PER_MINUTE).year
  }

  lemma LaterReadsAsItself(minute: int, later: int, offset: int)
    requires ReadsAsItself(minute, offset) && minute <= later
    ensures ReadsAsItself(later, offset)
  {
    hide CivilOf, MinuteOf;
    var k := offset / MS_PER_MINUTE;
    YearFloor(minute, FIRST_YEAR);
    YearFloor(later, FIRST_YEAR);
    YearFloor(minute + k, FIRST_YEAR);
    YearFloor(later + k, FIRST_YEAR);
  }

  function Local(minute: int): WallClock {
    var c := CivilOf(minute);
    WallClock(c, DayOfWeek(DayNumber(c.year, c.month, c.day)))
  }

  /** The cron matches the local minute `minute`. */
  predicate FiresAt(parsed: ParsedCron, minute: int) { Matches(parsed, Local(minute)) }

  /** The cron fires at the instant `ms` in the zone at `offset` from UTC. */
  predicate Fires(parsed: ParsedCron, offset: int, ms: int) {
    (ms + offset) % MS_PER_MINUTE == 0 && FiresAt(parsed, (ms + offset) / MS_PER_MINUTE)
  }

  /** The least fire strictly after `from`. */
  ghost predicate IsNextFire(parsed: ParsedCron, offset: int, from: int, r: int) {
    && from < r && Fires(parsed, offset, r)
    && forall t :: from < t && Fires(parsed, offset, t) ==> r <= t
  }

  // ---- wall clocks and instants under a fixed offset ----

  lemma WallMsIsMinute(w: Civil)
    requires ValidCivil(w) && 100 <= w.year
    ensures WallMs(w) == MinuteOf(w) * MS_PER_MINUTE
  {
    hide CivilOf;
    assert (w.month - 1) / 12 == 0 && (w.month - 1) % 12 == w.month - 1;
  }

  /** A year's start, in minutes, bounds the year of every later minute. */
  lemma YearFloor(minute: int, y: int)
    ensures MinuteOf(Civil(y, 1, 1, 0, 0)) <= minute <==> y <= CivilOf(minute).year
  {
    RankIsTimeOrder(Civil(y, 1, 1, 0, 0), CivilOf(minute));
    BeforeRank(CivilOf(minute), Civil(y, 1, 1, 0, 0));
    hide CivilOf, Rank;
  }

  lemma PartsOfFixed(utc: int, offset: int, minute: int)
    requires utc + offset == minute * MS_PER_MINUTE && 1 <= CivilOf(minute).year
    ensures DateToParts(utc, Fixed(offset)) == Local(minute)
  {
    hide CivilOf;
    assert (minute * MS_PER_MINUTE) / MS_PER_MINUTE == minute;
  }

  /** Under a fixed offset every wall-clock minute happens, exactly once. */
  lemma FixedOffsetRoundTrip(w: Civil, offset: int)
    requires ValidCivil(w) && WholeMinuteOffset(offset) && ReadsAsItself(MinuteOf(w), offset)
    ensures ToUtc(w, Fixed(offset)) == MinuteOf(w) * MS_PER_MINUTE - offset
    ensures DateToParts(ToUtc(w, Fixed(offset)), Fixed(offset)) == Local(MinuteOf(w))
    ensures Local(MinuteOf(w)).at == w
  {
    hide CivilOf, DateToParts, WallMs, Resolve, MinuteOf;
    var zone, m, k := Fixed(offset), MinuteOf(w), offset / MS_PER_MINUTE;
    CivilOfMinuteOf(w);
    WallMsIsMinute(w);
    PartsOfFixed(WallMs(w), offset, m + k);
    WallMsIsMinute(CivilOf(m + k));
    assert Drift(w, zone, WallMs(w)) == -offset;
    PartsOfFixed(m * MS_PER_MINUTE - offset, offset, m);
    assert Drift(w, zone, m * MS_PER_MINUTE - offset) == 0;
    ResolveInOne(w, zone, WallMs(w));
  }

  lemma ResolveInOne(w: Civil, zone: Zone, utc: int)
    requires Drift(w, zone, utc + Drift(w, zone, utc)) == 0
    ensures Resolve(w, zone, utc, 3) == utc + Drift(w, zone, utc)
  {
    hide Drift;
    assert Resolve(w, zone, utc, 3) ==
           if Drift(w, zone, utc) == 0 then utc else Resolve(w, zone, utc + Drift(w, zone, utc), 2);
  }

  lemma TwoDigitYearWallMs(w: Civil)
    requires ValidCivil(w) && 0 <= w.year <= 99
    ensures WallMs(w) == MinuteOf(w.(year := 1900 + w.year)) * MS_PER_MINUTE
  {
    hide CivilOf, DayNumber;
    assert (w.month - 1) / 12 == 0 && (w.month - 1) % 12 == w.month - 1;
  }

  lemma TwentiethCentury(w: Civil)
    requires ValidCivil(w) && 0 <= w.year <= 99
    ensures 1900 <= CivilOf(MinuteOf(w.(year := 1900 + w.year))).year
  {
    hide CivilOf, DayFromYear;
    MonthInYear(1900 + w.year, w.month);
    YearsAscend(1900, 1900 + w.year);
    YearFloor(MinuteOf(w.(year := 1900 + w.year)), 1900);
  }

  /** Years 0 to 99 never happen: `Date.UTC` reads them as 1900 to 1999, so the search skips them. */
  lemma TwoDigitYearsNeverHappen(w: Civil)
    requires ValidCivil(w) && 0 <= w.year <= 99
    ensures DateToParts(ToUtc(w, Fixed(UTC)), Fixed(UTC)).at != w
  {
    hide CivilOf, DateToParts, WallMs, MinuteOf;
    TwoDigitYearWallMs(w);
    TwentiethCentury(w);
    var m := MinuteOf(w.(year := 1900 + w.year));
    PartsOfFixed(WallMs(w), UTC, m);
    WallMsIsMinute(CivilOf(m));
    assert Drift(w, Fixed(UTC), WallMs(w)) == 0;
  }

  /** In UTC a wall clock comes back from its own instant exactly from the year 100 on. */
  lemma ComesBackIff(w: Civil)
    requires ValidCivil(w)
    ensures DateToParts(ToUtc(w, Fixed(UTC)), Fixed(UTC)).at == w <==> FIRST_YEAR <= w.year
  {
    hide DateToParts, ToUtc, CivilOf;
    if FIRST_YEAR <= w.year {
      CivilOfMinuteOf(w);
      FixedOffsetRoundTrip(w, UTC);
    } else if 0 <= w.year {
      TwoDigitYearsNeverHappen(w);
    }
  }

  // ---- satisfiable expressions ----

  function LongestMonth(m: int): int
    requires 1 <= m <= 12
  {
    if m == 2 then 29 else MonthLength(2000, m)
  }

  /** Some calendar date satisfies the expression: only a day of the month can be impossible. */
  predicate Satisfiable(parsed: ParsedCron)
    requires ValidCron(parsed)
  {
    parsed.domWild || !parsed.dowWild
    || exists m, d :: m in parsed.month && d in parsed.dayOfMonth && d <= LongestMonth(m)
  }

  /** The day rule alone. */
  predicate DayMatches(parsed: ParsedCron, y: int, m: int, d: int)
    requires 1 <= m <= 12
  {
    var domOk, dowOk := d in parsed.dayOfMonth, DayOfWeek(DayNumber(y, m, d)) in parsed.dayOfWeek;
    if !parsed.domWild && !parsed.dowWild then domOk || dowOk
    else if !parsed.domWild then domOk
    else if !parsed.dowWild then dowOk
    else true
  }

  lemma LongestMonthIsReached(y: int, m: int)
    requires 1 <= m <= 12
    ensures MonthLength(y, m) <= LongestMonth(m)
    ensures m != 2 || IsLeap(y) ==> MonthLength(y, m) == LongestMonth(m)
  {
  }

  lemma LeapYearWithinEight(y: int) returns (r: int)
    ensures y < r <= y + 8 && IsLeap(r)
  {
    r := 4 * (y / 4 + 1);
    assert r % 4 == 0;
    if r % 100 == 0 {
      CenturyPlusFour(r / 100);
      r := r + 4;
    }
  }

  lemma CenturyPlusFour(c: int)
    ensures IsLeap(100 * c + 4)
  {
    var q := 25 * c + 1;
    assert (4 * q) % 4 == 0;
    RemainderFour(c);
  }

  lemma RemainderFour(c: int)
    ensures (100 * c + 4) % 100 == 4
  {
  }

  lemma WeekdayShift(n: int, dow: int)
    requires 0 <= dow <= 6
    ensures DayOfWeek(n + (dow - DayOfWeek(n) + 7) % 7) == dow
  {
    var k, q := (dow - DayOfWeek(n) + 7) % 7, (n + 4) / 7;
    assert n + 4 == 7 * q + DayOfWeek(n);
    assert k == (if DayOfWeek(n) <= dow then dow - DayOfWeek(n) else dow - DayOfWeek(n) + 7);
  }

  /** One of the seven first days of any month falls on the wanted weekday. */
  lemma WeekdayInFirstWeek(y: int, m: int, dow: int) returns (d: int)
    requires 1 <= m <= 12 && 0 <= dow <= 6
    ensures 1 <= d <= 7 && DayOfWeek(DayNumber(y, m, d)) == dow
  {
    hide DayOfWeek, MonthStart, DayFromYear;
    var first := DayNumber(y, m, 1);
    d := 1 + (dow - DayOfWeek(first) + 7) % 7;
    WeekdayShift(first, dow);
    assert DayNumber(y, m, d) == first + (d - 1);
  }

  /** A matching day: in the year after `y` in every case but the twenty-ninth of February alone. */
  lemma MatchingDay(parsed: ParsedCron, y: int) returns (y': int, m: int, d: int)
    requires ValidCron(parsed) && Satisfiable(parsed)
    ensures m in parsed.month && 1 <= m <= 12 && 1 <= d <= MonthLength(y', m) && DayMatches(parsed, y', m, d)
    ensures y' == y + 1 || (parsed.month == [2] && y < y' <= y + 8)
  {
    hide DayNumber, DayOfWeek;
    y', m := y + 1, parsed.month[0];
    FieldHead(parsed.month, 1, 12);
    assert m in parsed.month;
    if !parsed.dowWild {
      FieldHead(parsed.dayOfWeek, 0, 6);
      var dow := parsed.dayOfWeek[0];
      assert dow in parsed.dayOfWeek;
      d := WeekdayInFirstWeek(y', m, dow);
    } else if parsed.domWild {
      d := 1;
    } else {
      var m0, d0 :| m0 in parsed.month && d0 in parsed.dayOfMonth && d0 <= LongestMonth(m0);
      d := d0;
      if m0 != 2 {
        m := m0;
      } else if m1 :| m1 in parsed.month && m1 != 2 {
        m := m1;
      } else {
        OnlyTwo(parsed.month);
        m := 2;
        y' := LeapYearWithinEight(y);
      }
      LongestMonthIsReached(y', m);
    }
  }

  lemma AllTwo(values: seq<int>, k: nat)
    requires k < |values| && forall v :: v in values ==> v == 2
    ensures values[k] == 2
  {
    var v := values[k];
    assert v in values;
  }

  lemma OnlyTwo(values: seq<int>)
    requires Ascending(values) && values != [] && forall v :: v in values ==> v == 2
    ensures values == [2]
  {
    AllTwo(values, 0);
    if 1 < |values| {
      AllTwo(values, 1);
    }
  }

  lemma FiresAtCivil(parsed: ParsedCron, w: Civil)
    requires ValidCivil(w)
    ensures FiresAt(parsed, MinuteOf(w)) <==>
            w.minute in parsed.minute && w.hour in parsed.hour && w.month in parsed.month
            && DayMatches(parsed, w.year, w.month, w.day)
  {
    CivilOfMinuteOf(w);
    hide CivilOf;
  }

  /** A fire close enough after any wall clock for the search to reach it under its cap. */
  lemma FireWithinCap(parsed: ParsedCron, start: Civil) returns (w: Civil)
    requires ValidCron(parsed) && Satisfiable(parsed) && ValidCivil(start)
    ensures ValidCivil(w) && start.year < w.year && FiresAt(parsed, MinuteOf(w))
    ensures !Advanced(parsed, start, w, MAX_ITER)
  {
    hide DayMatches, DayNumber, FiresAt;
    var y, m, d := MatchingDay(parsed, start.year);
    var hour, minute := parsed.hour[0], parsed.minute[0];
    FieldHead(parsed.hour, 0, 23);
    FieldHead(parsed.minute, 0, 59);
    assert hour in parsed.hour && minute in parsed.minute;
    w := Civil(y, m, d, hour, minute);
    FiresAtCivil(parsed, w);
    CapIsFar(start, w);
  }

  /** The cap is more than two calendar years of minutes, and more than nine years of Februaries. */
  lemma CapIsFar(a: Civil, b: Civil)
    requires ValidCivil(a) && ValidCivil(b) && a.year < b.year
    ensures b.year == a.year + 1 ==> Rank(b) - Rank(a) < MAX_ITER
    ensures b.year <= a.year + 8 ==> FebRank(b) - FebRank(a) < MAX_ITER
  {
    hide MonthLength;
    var inA, inB := FebRank(a) - a.year * FEB_SPAN, FebRank(b) - b.year * FEB_SPAN;
    assert 0 <= inA < FEB_SPAN && 0 <= inB < FEB_SPAN;
  }

  /** Satisfiable, read off the fields, means that some minute fires at all. */
  lemma SatisfiableIffSomeFire(parsed: ParsedCron)
    requires ValidCron(parsed)
    ensures Satisfiable(parsed) <==> exists minute :: FiresAt(parsed, minute)
  {
    if Satisfiable(parsed) {
      var w := FireWithinCap(parsed, Civil(2000, 1, 1, 0, 0));
    }
    if minute :| FiresAt(parsed, minute) {
      var c := CivilOf(minute);
      LongestMonthIsReached(c.year, c.month);
    }
  }

  // ---- the search under a fixed offset ----

  lemma EligibleIffFires(parsed: ParsedCron, offset: int, w: Civil)
    requires ValidCivil(w) && WholeMinuteOffset(offset) && ReadsAsItself(MinuteOf(w), offset)
    ensures Eligible(parsed, Fixed(offset), w) <==> FiresAt(parsed, MinuteOf(w))
  {
    hide CivilOf, DateToParts, ToUtc, Matches;
    FixedOffsetRoundTrip(w, offset);
  }

  /** The search starts at the minute after the one `from` lies in. */
  lemma StartIsNextMinute(from: int, offset: int)
    requires 1 <= CivilOf((from + 60_000 + offset) / MS_PER_MINUTE).year
    ensures DateToParts(from + 60_000, Fixed(offset)).at == CivilOf((from + 60_000 + offset) / MS_PER_MINUTE)
  {
    hide CivilOf, DayOfWeek, DayNumber, MinuteOf, ValidCivil;
  }

  /** Which is the least whole minute strictly after `from`. */
  lemma NextWholeMinute(from: int, offset: int, t: int)
    requires (t + offset) % MS_PER_MINUTE == 0
    ensures from < t <==> (from + 60_000 + offset) / MS_PER_MINUTE <= (t + offset) / MS_PER_MINUTE
  {
    var m, f := (t + offset) / MS_PER_MINUTE, (from + 60_000 + offset) / MS_PER_MINUTE;
    assert t + offset == m * MS_PER_MINUTE;
    assert f * MS_PER_MINUTE <= from + 60_000 + offset < (f + 1) * MS_PER_MINUTE;
  }

  /** The earliest wall clock that is eligible is the least fire after `from`. */
  lemma FirstEligibleIsNextFire(parsed: ParsedCron, offset: int, from: int, w: Civil)
    requires ValidCron(parsed) && WholeMinuteOffset(offset)
    requires ReadsAsItself((from + 60_000 + offset) / MS_PER_MINUTE, offset)
    requires FirstEligible(parsed, Fixed(offset), CivilOf((from + 60_000 + offset) / MS_PER_MINUTE), w)
    ensures IsNextFire(parsed, offset, from, ToUtc(w, Fixed(offset)))
  {
    hide DateToParts, ToUtc, FiresAt, MinuteOf, CivilOf;
    var first := (from + 60_000 + offset) / MS_PER_MINUTE;
    var start := CivilOf(first);
    NotBeforeIsNotEarlier(start, w);
    LaterReadsAsItself(first, MinuteOf(w), offset);
    EligibleIffFires(parsed, offset, w);
    FixedOffsetRoundTrip(w, offset);
    NextWholeMinute(from, offset, ToUtc(w, Fixed(offset)));
    forall t | from < t && Fires(parsed, offset, t) ensures ToUtc(w, Fixed(offset)) <= t {
      var m := (t + offset) / MS_PER_MINUTE;
      var v := CivilOf(m);
      NextWholeMinute(from, offset, t);
      NotBeforeIsNotEarlier(start, v);
      LaterReadsAsItself(first, m, offset);
      EligibleIffFires(parsed, offset, v);
      NotBeforeIsNotEarlier(w, v);
    }
  }

  lemma NotBeforeIsNotEarlier(a: Civil, b: Civil)
    requires ValidCivil(a) && ValidCivil(b)
    ensures !Before(b, a) <==> MinuteOf(a) <= MinuteOf(b)
  {
    RankIsTimeOrder(b, a);
    BeforeRank(b, a);
    hide Rank, MinuteOf;
  }

  /** `parseCron(expr, tz).next(from)` for a zone at a fixed whole-minute offset. */
  method Next(parsed: ParsedCron, from: int, offset: int) returns (r: Option<int>)
    requires ValidCron(parsed) && WholeMinuteOffset(offset)
    requires ReadsAsItself((from + 60_000 + offset) / MS_PER_MINUTE, offset)
    ensures r.None? <==> !Satisfiable(parsed)
    ensures r.Some? ==> IsNextFire(parsed, offset, from, r.value)
  {
    hide DateToParts, ToUtc, Eligible, Matches, CivilOf, FiresAt;
    StartIsNextMinute(from, offset);
    ghost var start := CivilOf((from + 60_000 + offset) / MS_PER_MINUTE);
    r := FindNextWallClock(parsed, from, Fixed(offset));
    if r.Some? {
      ghost var w :| FirstEligible(parsed, Fixed(offset), start, w) && r.value == ToUtc(w, Fixed(offset));
      FirstEligibleIsNextFire(parsed, offset, from, w);
      assert Fires(parsed, offset, r.value);
      SatisfiableIffSomeFire(parsed);
    } else if Satisfiable(parsed) {
      ghost var w := FireWithinCap(parsed, start);
      RankIsTimeOrder(start, w);
      LaterReadsAsItself(MinuteOf(start), MinuteOf(w), offset);
      EligibleIffFires(parsed, offset, w);
      assert false;
    }
  }
}

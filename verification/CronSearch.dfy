/** `findNextWallClock` of src/extensions/cron.ts: the calendar search for the next fire.

    A time zone is an arbitrary function from an instant to its offset from UTC, so every result about
    the search itself holds in every zone, gaps and overlaps included. */
module CronSearch {
  import opened Wrappers
  import opened Calendar
  import opened CronParser

  const MAX_ITER := 4 * 366 * 24 * 60

  /** Offset from UTC, in milliseconds, at an instant given in milliseconds. */
  type Zone = int -> int

  datatype WallClock = WallClock(at: Civil, dow: int)

  /** `Intl` shows years before 1 as years of the BC era, without the era. */
  function DisplayedYear(y: int): (r: int)
    ensures 1 <= r
  {
    if 1 <= y then y else 1 - y
  }

  function DateToParts(ms: int, zone: Zone): (p: WallClock)
    ensures 1 <= p.at.year && NearCivil(p.at)
  {
    var local := CivilOf((ms + zone(ms)) / MS_PER_MINUTE);
    WallClock(local.(year := DisplayedYear(local.year)), DayOfWeek(DayNumber(local.year, local.month, local.day)))
  }

  /** A wall clock's fields read as if they were UTC. */
  function WallMs(c: Civil): int {
    DateUtc(c.year, c.month - 1, c.day, c.hour, c.minute)
  }

  /** How far the instant `utcMs` shows from the wanted wall clock. */
  function Drift(w: Civil, zone: Zone, utcMs: int): int {
    WallMs(w) - WallMs(DateToParts(utcMs, zone).at)
  }

  /** The offset iteration: at most `n` corrections from the guess `utcMs`. */
  function Resolve(w: Civil, zone: Zone, utcMs: int, n: nat): int
    decreases n
  {
    if n == 0 || Drift(w, zone, utcMs) == 0 then utcMs
    else Resolve(w, zone, utcMs + Drift(w, zone, utcMs), n - 1)
  }

  function ToUtc(w: Civil, zone: Zone): int { Resolve(w, zone, WallMs(w), 3) }

  method WallClockToUtc(w: Civil, zone: Zone) returns (utcMs: int)
    ensures utcMs == ToUtc(w, zone)
  {
    hide Drift, WallMs;
    utcMs := WallMs(w);
    for i := 0 to 3
      invariant ToUtc(w, zone) == Resolve(w, zone, utcMs, 3 - i)
    {
      var delta := Drift(w, zone, utcMs);
      if delta == 0 { return; }
      utcMs := utcMs + delta;
    }
  }

  /** The Vixie rule: with both days restricted either may match; the month always has to. */
  predicate Matches(parsed: ParsedCron, p: WallClock) {
    && p.at.minute in parsed.minute
    && p.at.hour in parsed.hour
    && p.at.month in parsed.month
    && (var domOk, dowOk := p.at.day in parsed.dayOfMonth, p.dow in parsed.dayOfWeek;
        if !parsed.domWild && !parsed.dowWild then domOk || dowOk
        else if !parsed.domWild then domOk
        else if !parsed.dowWild then dowOk
        else true)
  }

  /** The minute `w` is on the calendar, happens in the zone, and the cron fires at it. */
  predicate Eligible(parsed: ParsedCron, zone: Zone, w: Civil) {
    && ValidCivil(w)
    && (var p := DateToParts(ToUtc(w, zone), zone); p.at == w && Matches(parsed, p))
  }

  ghost predicate NoneBetween(parsed: ParsedCron, zone: Zone, start: Civil, c: Civil) {
    forall w :: Eligible(parsed, zone, w) && !Before(w, start) ==> !Before(w, c)
  }

  /** `w` is the first eligible minute that is not before `start`. */
  ghost predicate FirstEligible(parsed: ParsedCron, zone: Zone, start: Civil, w: Civil) {
    Eligible(parsed, zone, w) && !Before(w, start) && NoneBetween(parsed, zone, start, w)
  }

  /** `values.find((v) => v > x)`: in a sorted list, the least value above `x`. */
  function FirstAbove(values: seq<int>, x: int): (r: Option<int>)
    ensures r.Some? ==> r.value in values && x < r.value
    ensures r.Some? && Ascending(values) ==> forall v :: v in values && x < v ==> r.value <= v
    ensures r.None? ==> forall v :: v in values ==> v <= x
  {
    if values == [] then None
    else
      var first := values[0];
      assert forall v :: v in values ==> v == first || v in values[1..];
      if x < first then
        assert first in values;
        Some(first)
      else FirstAbove(values[1..], x)
  }

  lemma FieldHead(values: seq<int>, min: int, max: int)
    requires ValidField(values, min, max)
    ensures min <= values[0] <= max
  {
    var first := values[0];
    assert first in values;
  }

  lemma FirstIsLeast(values: seq<int>, v: int)
    requires Ascending(values) && v in values
    ensures values[0] <= v
  {
  }

  // ---- progress, counted in minutes ----

  const FEB_SPAN := 33 * MINUTES_PER_DAY + 2

  /** Position counted in the minutes of February alone, the rest of a year being two points. */
  function FebRank(c: Civil): int {
    c.year * FEB_SPAN + (if c.month < 2 then 0
                         else if c.month == 2 then 1 + c.day * MINUTES_PER_DAY + c.hour * 60 + c.minute
                         else FEB_SPAN - 1)
  }

  lemma FebRankOrder(a: Civil, b: Civil)
    requires NearCivil(a) && NearCivil(b) && Before(a, b)
    ensures FebRank(a) <= FebRank(b)
    ensures a.month == 2 || b.month == 2 ==> FebRank(a) < FebRank(b)
  {
    var inA, inB := FebRank(a) - a.year * FEB_SPAN, FebRank(b) - b.year * FEB_SPAN;
    assert 0 <= inA < FEB_SPAN && 0 <= inB < FEB_SPAN;
    if a.year < b.year {
      assert (a.year + 1) * FEB_SPAN <= b.year * FEB_SPAN;
      if a.month == 2 { assert inA < FEB_SPAN - 1; }
      if b.month == 2 { assert 0 < inB; }
    }
  }

  /** How far a position lies past the start, at least. */
  predicate Advanced(parsed: ParsedCron, start: Civil, c: Civil, n: int) {
    && n <= Rank(c) - Rank(start)
    && (parsed.month == [2] ==> n <= FebRank(c) - FebRank(start))
  }

  lemma AdvanceOne(parsed: ParsedCron, start: Civil, c: Civil, c': Civil, n: int)
    requires NearCivil(c) && NearCivil(c') && Before(c, c') && Advanced(parsed, start, c, n)
    requires parsed.month == [2] ==> c.month == 2 || c'.month == 2
    ensures Advanced(parsed, start, c', n + 1)
  {
    BeforeRank(c, c');
    FebRankOrder(c, c');
  }

  // ---- every skip passes over no eligible minute ----

  /** The position after a month the cron does not name. */
  function NextMonthSlot(parsed: ParsedCron, c: Civil): Civil
    requires parsed.month != []
  {
    match FirstAbove(parsed.month, c.month)
    case Some(m) => Civil(c.year, m, 1, 0, 0)
    case None => Civil(c.year + 1, parsed.month[0], 1, 0, 0)
  }

  lemma SkipMonth(parsed: ParsedCron, zone: Zone, start: Civil, c: Civil)
    requires ValidCron(parsed) && NearCivil(c)
    requires NoneBetween(parsed, zone, start, c) && c.month !in parsed.month
    ensures NoneBetween(parsed, zone, start, NextMonthSlot(parsed, c))
    ensures NearCivil(NextMonthSlot(parsed, c)) && Before(c, NextMonthSlot(parsed, c))
    ensures NextMonthSlot(parsed, c).month in parsed.month
  {
    hide DateToParts, ToUtc;
    FieldHead(parsed.month, 1, 12);
    forall w | Eligible(parsed, zone, w) && !Before(w, start) ensures !Before(w, NextMonthSlot(parsed, c)) {
      FirstIsLeast(parsed.month, w.month);
    }
  }

  function NextMonthStart(c: Civil): Civil {
    if c.month == 12 then Civil(c.year + 1, 1, 1, 0, 0) else Civil(c.year, c.month + 1, 1, 0, 0)
  }

  lemma SkipOverflow(parsed: ParsedCron, zone: Zone, start: Civil, c: Civil)
    requires NearCivil(c) && MonthLength(c.year, c.month) < c.day
    requires NoneBetween(parsed, zone, start, c)
    ensures NoneBetween(parsed, zone, start, NextMonthStart(c))
    ensures NearCivil(NextMonthStart(c)) && Before(c, NextMonthStart(c))
  {
    hide DateToParts, ToUtc;
  }

  function NextMinute(c: Civil): Civil {
    if c.minute < 59 then c.(minute := c.minute + 1)
    else if c.hour < 23 then c.(hour := c.hour + 1, minute := 0)
    else c.(day := c.day + 1, hour := 0, minute := 0)
  }

  lemma SkipOne(parsed: ParsedCron, zone: Zone, start: Civil, c: Civil)
    requires NearCivil(c) && c.day < 32 && !Eligible(parsed, zone, c)
    requires NoneBetween(parsed, zone, start, c)
    ensures NoneBetween(parsed, zone, start, NextMinute(c))
    ensures NearCivil(NextMinute(c)) && Before(c, NextMinute(c))
  {
    hide DateToParts, ToUtc;
  }

  /** The fields the search jumps to when nothing is left in the current hour. */
  function NextHourSlot(parsed: ParsedCron, c: Civil): Civil
    requires parsed.minute != [] && parsed.hour != []
  {
    match FirstAbove(parsed.hour, c.hour)
    case Some(h) => c.(hour := h, minute := parsed.minute[0])
    case None => c.(day := c.day + 1, hour := parsed.hour[0], minute := parsed.minute[0])
  }

  /** The position after a minute that does not match. */
  function NextSlot(parsed: ParsedCron, c: Civil): Civil
    requires parsed.minute != [] && parsed.hour != []
  {
    var nextMin := FirstAbove(parsed.minute, c.minute);
    if c.hour in parsed.hour && nextMin.Some? then c.(minute := nextMin.value) else NextHourSlot(parsed, c)
  }

  lemma SkipMinutes(parsed: ParsedCron, zone: Zone, start: Civil, c: Civil)
    requires ValidCron(parsed) && NearCivil(c) && c.day < 32 && !Eligible(parsed, zone, c)
    requires NoneBetween(parsed, zone, start, c)
    ensures NoneBetween(parsed, zone, start, NextSlot(parsed, c))
    ensures NearCivil(NextSlot(parsed, c)) && Before(c, NextSlot(parsed, c))
    ensures NextSlot(parsed, c).month == c.month
  {
    hide DateToParts, ToUtc;
    FieldHead(parsed.hour, 0, 23);
    FieldHead(parsed.minute, 0, 59);
    forall w | Eligible(parsed, zone, w) && !Before(w, start) ensures !Before(w, NextSlot(parsed, c)) {
      FirstIsLeast(parsed.minute, w.minute);
      FirstIsLeast(parsed.hour, w.hour);
    }
  }

  lemma FebruaryOnly(parsed: ParsedCron, month: int)
    requires month in parsed.month
    ensures parsed.month == [2] ==> month == 2
  {
  }

  /** The next fire after `from`, or None where the original throws. */
  method FindNextWallClock(parsed: ParsedCron, from: int, zone: Zone) returns (r: Option<int>)
    requires ValidCron(parsed)
    ensures r.Some? ==> exists w ::
              FirstEligible(parsed, zone, DateToParts(from + 60_000, zone).at, w) && r.value == ToUtc(w, zone)
    ensures r.None? ==> forall w ::
              Eligible(parsed, zone, w) && !Before(w, DateToParts(from + 60_000, zone).at)
              ==> Advanced(parsed, DateToParts(from + 60_000, zone).at, w, MAX_ITER)
  {
    hide DateToParts, ToUtc, DaysInMonth;
    var start := DateToParts(from + 60_000, zone).at;
    var c := start;
    for i := 0 to MAX_ITER
      invariant 1 <= c.year && NearCivil(c)
      invariant Advanced(parsed, start, c, i)
      invariant NoneBetween(parsed, zone, start, c)
    {
      ghost var c0 := c;
      if c.month !in parsed.month {
        SkipMonth(parsed, zone, start, c);
        var nextMonth := FirstAbove(parsed.month, c.month);
        if nextMonth.None? {
          c := Civil(c.year + 1, parsed.month[0], 1, 0, 0);
        } else {
          c := Civil(c.year, nextMonth.value, 1, 0, 0);
        }
        FebruaryOnly(parsed, c.month);
        AdvanceOne(parsed, start, c0, c, i);
        continue;
      }
      FebruaryOnly(parsed, c.month);
      DaysInMonthIsMonthLength(c.year, c.month);
      if c.day > DaysInMonth(c.year, c.month) {
        SkipOverflow(parsed, zone, start, c);
        c := if c.month == 12 then Civil(c.year + 1, 1, 1, 0, 0) else Civil(c.year, c.month + 1, 1, 0, 0);
        AdvanceOne(parsed, start, c0, c, i);
        continue;
      }
      var utc := WallClockToUtc(c, zone);
      var parts := DateToParts(utc, zone);
      if parts.at != c {
        // The candidate minute does not happen in this zone: try the next one.
        SkipOne(parsed, zone, start, c);
        if c.minute < 59 {
          c := c.(minute := c.minute + 1);
        } else if c.hour < 23 {
          c := c.(hour := c.hour + 1, minute := 0);
        } else {
          c := c.(day := c.day + 1, hour := 0, minute := 0);
        }
        AdvanceOne(parsed, start, c0, c, i);
        continue;
      }
      if Matches(parsed, parts) {
        assert FirstEligible(parsed, zone, start, c);
        return Some(utc);
      }
      SkipMinutes(parsed, zone, start, c);
      c := NextSlot(parsed, c);
      AdvanceOne(parsed, start, c0, c, i);
    }
    forall w | Eligible(parsed, zone, w) && !Before(w, start) ensures Advanced(parsed, start, w, MAX_ITER) {
      AdvancedFurther(parsed, start, c, w, MAX_ITER);
    }
    return None;
  }

  lemma AdvancedFurther(parsed: ParsedCron, start: Civil, c: Civil, w: Civil, n: int)
    requires NearCivil(c) && NearCivil(w) && !Before(w, c) && Advanced(parsed, start, c, n)
    ensures Advanced(parsed, start, w, n)
  {
    BeforeRank(c, w);
    if c != w {
      FebRankOrder(c, w);
    }
  }
}

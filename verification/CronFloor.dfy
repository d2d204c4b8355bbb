/** What the sampled gate does not promise: a five-minute floor between any two fires. Exactly which
    schedules keep that floor, and one that the gate accepts and that breaks it. */
module CronFloor {
  import opened Calendar
  import opened CronParser
  import opened CronSearch
  import opened CronNext
  import opened CronGate

  /** Any two distinct fires lie at least five minutes apart. */
  ghost predicate FloorHolds(parsed: ParsedCron) {
    forall a, b :: FiresAt(parsed, a) && FiresAt(parsed, b) && a < b ==> b - a >= 5
  }

  /** The day numbered `day` satisfies the month field and the day rule. */
  predicate DayOpen(parsed: ParsedCron, day: int) {
    var c := CivilOf(day * MINUTES_PER_DAY);
    c.month in parsed.month && DayMatches(parsed, c.year, c.month, c.day)
  }

  /** Days in four hundred years, after which dates and weekdays repeat. */
  const ERA_DAYS := 146097

  /** Two hours in a row can be due: listed next to each other, or across midnight on two days in a row. One
      cycle of the calendar is enough to tell. */
  predicate HoursInARow(parsed: ParsedCron) {
    || (exists x :: x in parsed.hour && x + 1 in parsed.hour)
    || (23 in parsed.hour && 0 in parsed.hour
        && exists d :: 0 <= d < ERA_DAYS && DayOpen(parsed, d) && DayOpen(parsed, d + 1))
  }

  function Last(values: seq<int>): int
    requires values != []
  {
    values[|values| - 1]
  }

  /** Decidable on the parsed fields: the minutes are spaced, and so is the turn of an hour if it matters. */
  predicate FloorCondition(parsed: ParsedCron)
    requires ValidCron(parsed)
  {
    Satisfiable(parsed) ==>
      Spaced(parsed.minute) && (parsed.minute[0] + 60 - Last(parsed.minute) >= 5 || !HoursInARow(parsed))
  }

  // ---- the calendar repeats ----

  lemma QuartersRepeat(z: int, k: int)
    ensures (z + 400 * k) / 4 == z / 4 + 100 * k && (z + 400 * k) % 4 == z % 4
  {
  }

  lemma CenturiesRepeat(z: int, k: int)
    ensures (z + 400 * k) / 100 == z / 100 + 4 * k && (z + 400 * k) % 100 == z % 100
  {
  }

  lemma FourCenturiesRepeat(z: int, k: int)
    ensures (z + 400 * k) / 400 == z / 400 + k && (z + 400 * k) % 400 == z % 400
  {
  }

  lemma DaysRepeat(y: int, k: int)
    ensures DayFromYear(y + 400 * k) == DayFromYear(y) + ERA_DAYS * k
  {
    QuartersRepeat(y - 1969, k);
    CenturiesRepeat(y - 1901, k);
    FourCenturiesRepeat(y - 1601, k);
  }

  lemma ErasRepeat(y: int, k: int)
    ensures DayFromYear(y + 400 * k) == DayFromYear(y) + ERA_DAYS * k
    ensures IsLeap(y + 400 * k) == IsLeap(y)
  {
    hide DayFromYear;
    DaysRepeat(y, k);
    QuartersRepeat(y, k);
    CenturiesRepeat(y, k);
    FourCenturiesRepeat(y, k);
  }

  lemma CivilRepeats(day: int, k: int)
    ensures var c := CivilOf(day * MINUTES_PER_DAY);
            CivilOf((day + ERA_DAYS * k) * MINUTES_PER_DAY) == c.(year := c.year + 400 * k)
  {
    hide CivilOf, DayFromYear, IsLeap;
    var c := CivilOf(day * MINUTES_PER_DAY);
    ErasRepeat(c.year, k);
    CivilOfMinuteOf(c.(year := c.year + 400 * k));
  }

  lemma DayOpenRepeats(parsed: ParsedCron, day: int, k: int)
    ensures DayOpen(parsed, day + ERA_DAYS * k) <==> DayOpen(parsed, day)
  {
    hide CivilOf, DayFromYear, IsLeap;
    var c := CivilOf(day * MINUTES_PER_DAY);
    ErasRepeat(c.year, k);
    CivilRepeats(day, k);
    var n := DayNumber(c.year, c.month, c.day);
    assert DayOfWeek(n + ERA_DAYS * k) == DayOfWeek(n) by {
      assert n + ERA_DAYS * k + 4 == n + 4 + 7 * (20871 * k);
    }
  }

  /** Two open days in a row anywhere leave two in the first cycle. */
  lemma RowOfDays(parsed: ParsedCron, day: int)
    requires DayOpen(parsed, day) && DayOpen(parsed, day + 1)
    ensures exists d :: 0 <= d < ERA_DAYS && DayOpen(parsed, d) && DayOpen(parsed, d + 1)
  {
    hide DayOpen;
    var d, k := day % ERA_DAYS, day / ERA_DAYS;
    DayOpenRepeats(parsed, d, k);
    DayOpenRepeats(parsed, d + 1, k);
    assert d + ERA_DAYS * k == day;
    assert 0 <= d < ERA_DAYS && DayOpen(parsed, d) && DayOpen(parsed, d + 1);
  }

  // ---- when the floor holds ----

  lemma HourOpenIff(parsed: ParsedCron, h: int)
    ensures HourOpen(parsed, h) <==> h % 24 in parsed.hour && DayOpen(parsed, h / 24)
  {
    hide CivilOf, DayNumber, DayMatches;
    var c := CivilOf((h / 24) * MINUTES_PER_DAY);
    var n := DayNumber(c.year, c.month, c.day);
    assert MinuteOf(c) == (h / 24) * MINUTES_PER_DAY;
    assert c.minute == 60 * (24 * (h / 24 - n) - c.hour) + 60 * c.hour - 60 * c.hour;
    assert c.minute == 0 && c.hour == 0;
    var at := c.(hour := h % 24);
    assert MinuteOf(at) == 60 * h;
    CivilOfMinuteOf(at);
  }

  lemma SomeOpenHour(parsed: ParsedCron) returns (h: int)
    requires ValidCron(parsed) && Satisfiable(parsed)
    ensures HourOpen(parsed, h)
  {
    hide FiresAt, HourOpen;
    SatisfiableIffSomeFire(parsed);
    var t :| FiresAt(parsed, t);
    h := t / 60;
    FiresInHour(parsed, h, t % 60);
  }

  lemma RowOfHours(parsed: ParsedCron) returns (h: int)
    requires ValidCron(parsed) && Satisfiable(parsed) && HoursInARow(parsed)
    ensures HourOpen(parsed, h) && HourOpen(parsed, h + 1)
  {
    hide HourOpen, DayOpen, FiresAt, Satisfiable;
    if x :| x in parsed.hour && x + 1 in parsed.hour {
      var some := SomeOpenHour(parsed);
      HourOpenIff(parsed, some);
      h := 24 * (some / 24) + x;
      HourOfDayOpen(parsed, some / 24, x);
      HourOfDayOpen(parsed, some / 24, x + 1);
    } else {
      var d :| DayOpen(parsed, d) && DayOpen(parsed, d + 1);
      h := 24 * d + 23;
      HourOfDayOpen(parsed, d, 23);
      HourOfDayOpen(parsed, d + 1, 0);
    }
  }

  lemma HourOfDayOpen(parsed: ParsedCron, d: int, x: int)
    requires ValidCron(parsed) && DayOpen(parsed, d) && x in parsed.hour
    ensures HourOpen(parsed, 24 * d + x) && 0 <= x < 24
  {
    hide HourOpen, DayOpen;
    assert 0 <= x < 24;
    assert (24 * d + x) / 24 == d && (24 * d + x) % 24 == x;
    HourOpenIff(parsed, 24 * d + x);
  }

  lemma HoursOfRow(parsed: ParsedCron, h: int)
    requires HourOpen(parsed, h) && HourOpen(parsed, h + 1)
    ensures HoursInARow(parsed)
  {
    hide HourOpen, DayOpen;
    HourOpenIff(parsed, h);
    HourOpenIff(parsed, h + 1);
    if h % 24 == 23 {
      assert (h + 1) / 24 == h / 24 + 1 && (h + 1) % 24 == 0;
      RowOfDays(parsed, h / 24);
    } else {
      assert (h + 1) % 24 == h % 24 + 1;
    }
  }

  lemma {:induction false} SpacedPairs(values: seq<int>, i: nat, j: nat)
    requires Spaced(values) && i < j < |values|
    ensures values[j] - values[i] >= 5
  {
    if i + 1 < j {
      SpacedPairs(values, i, j - 1);
    }
  }

  lemma LastIsGreatest(values: seq<int>, v: int)
    requires Ascending(values) && v in values
    ensures v <= Last(values)
  {
  }

  lemma FloorNeedsCondition(parsed: ParsedCron)
    requires ValidCron(parsed) && FloorHolds(parsed)
    ensures FloorCondition(parsed)
  {
    hide HourOpen, FiresAt, HoursInARow, Satisfiable;
    if Satisfiable(parsed) {
      var h := SomeOpenHour(parsed);
      forall i | 0 < i < |parsed.minute| ensures parsed.minute[i] - parsed.minute[i - 1] >= 5 {
        MinuteFires(parsed, h, i - 1);
        MinuteFires(parsed, h, i);
      }
      if HoursInARow(parsed) {
        var g := RowOfHours(parsed);
        MinuteFires(parsed, g, |parsed.minute| - 1);
        MinuteFires(parsed, g + 1, 0);
      }
    }
  }

  lemma MinuteFires(parsed: ParsedCron, h: int, i: nat)
    requires ValidCron(parsed) && HourOpen(parsed, h) && i < |parsed.minute|
    ensures FiresAt(parsed, 60 * h + parsed.minute[i]) && 0 <= parsed.minute[i] < 60
  {
    hide HourOpen, FiresAt;
    var x := parsed.minute[i];
    assert x in parsed.minute;
    FiresInHour(parsed, h, x);
  }

  lemma ConditionKeepsFloor(parsed: ParsedCron, a: int, b: int)
    requires ValidCron(parsed) && FloorCondition(parsed)
    requires FiresAt(parsed, a) && FiresAt(parsed, b) && a < b
    ensures b - a >= 5
  {
    hide HourOpen, FiresAt, HoursInARow, Satisfiable;
    SatisfiableIffSomeFire(parsed);
    var h, g := a / 60, b / 60;
    FiresInHour(parsed, h, a % 60);
    FiresInHour(parsed, g, b % 60);
    if h == g {
      var i :| 0 <= i < |parsed.minute| && parsed.minute[i] == a % 60;
      var j :| 0 <= j < |parsed.minute| && parsed.minute[j] == b % 60;
      SpacedPairs(parsed.minute, i, j);
    } else if g == h + 1 {
      HoursOfRow(parsed, h);
      LastIsGreatest(parsed.minute, a % 60);
      FirstIsLeast(parsed.minute, b % 60);
    }
  }

  /** Exactly the schedules meeting the condition keep five minutes between any two fires. */
  lemma FloorIff(parsed: ParsedCron)
    requires ValidCron(parsed)
    ensures FloorHolds(parsed) <==> FloorCondition(parsed)
  {
    hide FiresAt, FloorCondition;
    if FloorHolds(parsed) { FloorNeedsCondition(parsed); }
    if FloorCondition(parsed) {
      forall a, b | FiresAt(parsed, a) && FiresAt(parsed, b) && a < b ensures b - a >= 5 {
        ConditionKeepsFloor(parsed, a, b);
      }
    }
  }

  /** The gate refuses no schedule that keeps the floor. */
  lemma FloorIsAccepted(parsed: ParsedCron)
    requires ValidCron(parsed) && FloorHolds(parsed)
    ensures Accepted(parsed)
  {
    hide FiresAt, FiresWithin, ValidCron;
    RefusedIff(parsed);
  }

  // ---- an accepted schedule that breaks the floor ----

  const LATE_MINUTES: seq<int> := [0, 10, 20, 30, 40, 56]
  const LATE_HOURS: seq<int> := [0, 2, 4, 6, 8, 10, 12, 14, 16, 18, 20, 22, 23]

  function UpTo(lo: int, n: nat): (s: seq<int>)
    ensures |s| == n && forall i :: 0 <= i < n ==> s[i] == lo + i
    ensures forall v :: v in s <==> lo <= v < lo + n
  {
    if n == 0 then []
    else
      var s := UpTo(lo, n - 1);
      assert forall v :: v in s + [lo + n - 1] <==> v in s || v == lo + n - 1;
      s + [lo + n - 1]
  }

  // The reading of `0-40/10,56 */2,23 * * *`, as LateExpression shows.
  const LATE: ParsedCron :=
    ParsedCron(LATE_MINUTES, LATE_HOURS, UpTo(1, 31), UpTo(1, 12), UpTo(0, 7), true, true)

  /** 2024-01-01T00:00Z in hours. */
  const FIRST_HOUR: int := 19723 * 24

  lemma ReferenceIsFirstHour()
    ensures MIN_INTERVAL_REFERENCE == FIRST_HOUR * 60 * MS_PER_MINUTE
  {
  }

  lemma {:induction false} StepwiseAscending(s: seq<int>)
    requires forall i :: 0 < i < |s| ==> s[i - 1] < s[i]
    ensures Ascending(s)
  {
    if 1 < |s| {
      var init := s[..|s| - 1];
      StepwiseAscending(init);
      forall i, j | 0 <= i < j < |s| ensures s[i] < s[j] {
        if j == |s| - 1 && i < j - 1 { assert init[i] < init[j - 1]; }
        if j < |s| - 1 { assert init[i] < init[j]; }
      }
    }
  }

  lemma LateIsValid()
    ensures ValidCron(LATE) && Satisfiable(LATE)
  {
    hide Ascending, UpTo;
    StepwiseAscending(LATE_MINUTES);
    StepwiseAscending(LATE_HOURS);
    StepwiseAscending(UpTo(1, 31));
    StepwiseAscending(UpTo(1, 12));
    StepwiseAscending(UpTo(0, 7));
  }

  lemma LateHours(x: int)
    requires 0 <= x < 24
    ensures HourOpen(LATE, FIRST_HOUR + x) <==> (x % 2 == 0 || x == 23)
  {
    hide HourOpen, DayOpen, UpTo;
    LateDayOpen((FIRST_HOUR + x) / 24);
    HourOpenIff(LATE, FIRST_HOUR + x);
    assert (FIRST_HOUR + x) % 24 == x;
    InLateHours(x);
  }

  lemma InLateHours(x: int)
    requires 0 <= x < 24
    ensures x in LATE.hour <==> (x % 2 == 0 || x == 23)
  {
    hide UpTo;
    var hours: seq<int> := LATE_HOURS;
    if x in hours {
      var i :| 0 <= i < |hours| && hours[i] == x;
      LateHourAt(i);
    }
    LateHourAt(if x % 2 == 0 then x / 2 else 12);
  }

  lemma LateHourAt(i: nat)
    requires i < 13
    ensures |LATE_HOURS| == 13 && LATE_HOURS[i] == if i == 12 then 23 else 2 * i
  {
  }

  lemma LateDayOpen(day: int)
    ensures DayOpen(LATE, day)
  {
    hide CivilOf, UpTo;
  }

  lemma {:induction false} AcrossClosedHour(parsed: ParsedCron, h: int)
    requires ValidCron(parsed) && HourOpen(parsed, h) && !HourOpen(parsed, h + 1) && HourOpen(parsed, h + 2)
    ensures NextFireMinute(parsed, 60 * h + Last(parsed.minute), 60 * (h + 2) + parsed.minute[0])
  {
    hide HourOpen, FiresAt;
    var a, b := 60 * h + Last(parsed.minute), 60 * (h + 2) + parsed.minute[0];
    MinuteFires(parsed, h, |parsed.minute| - 1);
    MinuteFires(parsed, h + 2, 0);
    forall t | a < t && FiresAt(parsed, t) ensures b <= t {
      if t < b {
        FiresInHour(parsed, t / 60, t % 60);
        if t / 60 == h { LastIsGreatest(parsed.minute, t % 60); }
        if t / 60 == h + 2 { FirstIsLeast(parsed.minute, t % 60); }
      }
    }
  }

  /** The `n`-th fire minute of the first sampled day, counted from midnight. */
  function LateFire(n: nat): int {
    60 * (FIRST_HOUR + 2 * (n / 6)) + LATE_MINUTES[n % 6]
  }

  lemma LateFireNext(n: nat)
    requires n < 49
    ensures NextFireMinute(LATE, LateFire(n), LateFire(n + 1)) && LateFire(n + 1) - LateFire(n) >= 5
  {
    hide HourOpen, FiresAt, NextFireMinute, FIRST_HOUR, UpTo, ValidCron, Satisfiable;
    LateIsValid();
    var h, x := FIRST_HOUR + 2 * (n / 6), 2 * (n / 6);
    assert x <= 16;
    LateHours(x);
    LateHours(x + 1);
    LateHours(x + 2);
    if n % 6 < 5 {
      assert (n + 1) / 6 == n / 6 && (n + 1) % 6 == n % 6 + 1;
      NextInHour(LATE, h, n % 6);
    } else {
      assert (n + 1) / 6 == n / 6 + 1 && (n + 1) % 6 == 0;
      AcrossClosedHour(LATE, h);
    }
  }

  lemma LateAccepted()
    ensures ValidCron(LATE) && Accepted(LATE)
  {
    hide FiresAt, NextFireMinute, IsNextFire, FIRST_HOUR, UpTo, ValidCron, Satisfiable, LateFire, DateUtc, Accepted;
    LateIsValid();
    ReferenceIsFirstHour();
    LateFireStart();
    var fires := seq(MIN_INTERVAL_SAMPLES + 1, k requires 0 <= k => LateFire(k + 1) * MS_PER_MINUTE);
    forall k | 0 <= k < |fires|
      ensures IsNextFire(LATE, UTC, LateFire(k) * MS_PER_MINUTE, fires[k])
      ensures fires[k] - LateFire(k) * MS_PER_MINUTE >= MIN_INTERVAL_MS
    {
      LateFireNext(k);
      InMinutes(LATE, LateFire(k), fires[k]);
    }
    forall k | 0 < k < |fires|
      ensures IsNextFire(LATE, UTC, fires[k - 1], fires[k]) && fires[k] - fires[k - 1] >= MIN_INTERVAL_MS
    {
      assert fires[k - 1] == LateFire(k) * MS_PER_MINUTE;
    }
    AcceptedByChain(LATE, fires);
  }

  lemma LateFireStart()
    ensures LateFire(0) == FIRST_HOUR * 60
  {
  }

  lemma LateBreaksFloor()
    ensures !FloorHolds(LATE)
  {
    hide HourOpen, FiresAt, FIRST_HOUR, UpTo, ValidCron, Satisfiable;
    LateIsValid();
    LateHours(22);
    LateHours(23);
    MinuteFires(LATE, FIRST_HOUR + 22, 5);
    MinuteFires(LATE, FIRST_HOUR + 23, 0);
    var a, b := 60 * (FIRST_HOUR + 22) + 56, 60 * (FIRST_HOUR + 23);
    assert FiresAt(LATE, a) && FiresAt(LATE, b) && b - a == 4;
  }

  /** Accepted, although 22:56 and 23:00 are four minutes apart: forty-eight gaps end at 16:10. */
  lemma AcceptedBreaksFloor()
    ensures ValidCron(LATE) && Accepted(LATE) && !FloorHolds(LATE)
  {
    hide Accepted, FloorHolds, ValidCron;
    LateAccepted();
    LateBreaksFloor();
  }
}

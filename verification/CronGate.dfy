/** `passesMinIntervalGate` of src/extensions/clamp-permissions.ts: the five-minute floor, enforced by
    sampling fires, and what an accepted schedule can still do. */
module CronGate {
  import opened Wrappers
  import opened Calendar
  import opened CronParser
  import opened CronSearch
  import opened CronNext

  const MIN_INTERVAL_MS := 5 * 60_000
  const MIN_INTERVAL_SAMPLES: nat := 48
  const MIN_INTERVAL_REFERENCE := DateUtc(2024, 0, 1, 0, 0)

  /** Consecutive fires, the first of them the least one after `from`. */
  ghost predicate FireChain(parsed: ParsedCron, from: int, fires: seq<int>) {
    && (fires != [] ==> IsNextFire(parsed, UTC, from, fires[0]))
    && forall k :: 0 < k < |fires| ==> IsNextFire(parsed, UTC, fires[k - 1], fires[k])
  }

  predicate GapsKeepFloor(fires: seq<int>) {
    forall k :: 0 < k < |fires| ==> fires[k] - fires[k - 1] >= MIN_INTERVAL_MS
  }

  /** Either nothing ever fires, or none of the sampled gaps is too short. */
  ghost predicate Accepted(parsed: ParsedCron)
    requires ValidCron(parsed)
  {
    Satisfiable(parsed) ==>
      exists fires ::
        |fires| == MIN_INTERVAL_SAMPLES + 1 && FireChain(parsed, MIN_INTERVAL_REFERENCE, fires) && GapsKeepFloor(fires)
  }

  lemma {:induction false} ChainUnique(parsed: ParsedCron, from: int, a: seq<int>, b: seq<int>, k: nat)
    requires FireChain(parsed, from, a) && FireChain(parsed, from, b)
    requires k < |a| && k < |b|
    ensures a[k] == b[k]
  {
    hide Fires;
    if 0 < k {
      ChainUnique(parsed, from, a, b, k - 1);
    }
  }

  lemma ReferenceYear(from: int)
    requires MIN_INTERVAL_REFERENCE <= from
    ensures ReadsAsItself((from + 60_000 + UTC) / MS_PER_MINUTE, UTC)
  {
    hide CivilOf;
    YearFloor((from + 60_000) / MS_PER_MINUTE, FIRST_YEAR);
    assert MinuteOf(Civil(FIRST_YEAR, 1, 1, 0, 0)) < 0;
  }

  lemma RefusedByChain(parsed: ParsedCron, fires: seq<int>)
    requires ValidCron(parsed) && Satisfiable(parsed)
    requires |fires| <= MIN_INTERVAL_SAMPLES + 1
    requires FireChain(parsed, MIN_INTERVAL_REFERENCE, fires) && !GapsKeepFloor(fires)
    ensures !Accepted(parsed)
  {
    hide IsNextFire, Satisfiable;
    if all :|
        && |all| == MIN_INTERVAL_SAMPLES + 1
        && FireChain(parsed, MIN_INTERVAL_REFERENCE, all)
        && GapsKeepFloor(all)
    {
      forall k | 0 <= k < |fires| ensures fires[k] == all[k] {
        ChainUnique(parsed, MIN_INTERVAL_REFERENCE, fires, all, k);
      }
    }
  }

  lemma UnsatisfiableAccepted(parsed: ParsedCron)
    requires ValidCron(parsed) && !Satisfiable(parsed)
    ensures Accepted(parsed)
  {
  }

  lemma AcceptedByChain(parsed: ParsedCron, fires: seq<int>)
    requires ValidCron(parsed) && |fires| == MIN_INTERVAL_SAMPLES + 1
    requires FireChain(parsed, MIN_INTERVAL_REFERENCE, fires) && GapsKeepFloor(fires)
    ensures Accepted(parsed)
  {
  }

  /** `cron.next` in UTC, for instants from the reference on. */
  method NextUtc(parsed: ParsedCron, from: int) returns (r: Option<int>)
    requires ValidCron(parsed) && MIN_INTERVAL_REFERENCE <= from
    ensures r.None? <==> !Satisfiable(parsed)
    ensures r.Some? ==> from < r.value && IsNextFire(parsed, UTC, from, r.value)
  {
    hide Fires, CivilOf, DateUtc, Satisfiable;
    ReferenceYear(from);
    r := Next(parsed, from, UTC);
  }

  /** The walk over the sampled fires. */
  method WalkFires(parsed: ParsedCron) returns (ok: bool)
    requires ValidCron(parsed)
    ensures ok <==> Accepted(parsed)
    ensures ok <==> !exists a, b :: EarlyCluster(parsed, a, b)
  {
    hide IsNextFire, Satisfiable, DateUtc, Accepted, EarlyCluster;
    RefusedIff(parsed);
    var first := NextUtc(parsed, MIN_INTERVAL_REFERENCE);
    if first.None? {
      UnsatisfiableAccepted(parsed);
      return true;
    }
    var prev := first.value;
    ghost var fires := [prev];
    for i := 0 to MIN_INTERVAL_SAMPLES
      invariant |fires| == i + 1 && fires[i] == prev && MIN_INTERVAL_REFERENCE <= prev
      invariant FireChain(parsed, MIN_INTERVAL_REFERENCE, fires) && GapsKeepFloor(fires)
    {
      var next := NextUtc(parsed, prev);
      if next.None? { return true; }
      fires := fires + [next.value];
      if next.value - prev < MIN_INTERVAL_MS {
        assert fires[i + 1] - fires[i] < MIN_INTERVAL_MS;
        RefusedByChain(parsed, fires);
        return false;
      }
      prev := next.value;
    }
    AcceptedByChain(parsed, fires);
    return true;
  }

  method PassesMinIntervalGate(expr: string) returns (ok: bool)
    ensures ok <==> Refusal(expr).None? && forall p :: Reads(expr, p) && ValidCron(p) ==> Accepted(p)
    ensures ok ==> forall p, a, b :: Reads(expr, p) ==> !EarlyCluster(p, a, b)
    ensures !ok && Refusal(expr).None? ==> exists p, a, b :: Reads(expr, p) && ValidCron(p) && EarlyCluster(p, a, b)
  {
    hide Refusal, Reads, ValidCron, Accepted, EarlyCluster;
    var cron := ParseCron(expr);
    match cron
    case Err(_) => return false;
    case Ok(parsed) =>
      forall p | Reads(expr, p) ensures p == parsed { ReadingUnique(expr, p, parsed); }
      ok := WalkFires(parsed);
  }

  // ---- what the walk samples, in numbers ----

  /** Two fires less than five minutes apart, both among the first forty-nine after minute 28401120,
      2024-01-01T00:00Z. */
  ghost predicate EarlyCluster(parsed: ParsedCron, a: int, b: int) {
    && 28_401_120 < a < b < a + 5
    && FiresAt(parsed, a) && FiresAt(parsed, b)
    && |FiresWithin(parsed, 28_401_121, b - 28_401_120)| <= 49
  }

  lemma {:induction false} LeastFire(parsed: ParsedCron, a: int, z: int) returns (b: int)
    requires a < z && FiresAt(parsed, z)
    ensures NextFireMinute(parsed, a, b)
    decreases z - a
  {
    hide FiresAt;
    if FiresAt(parsed, a + 1) {
      b := a + 1;
    } else {
      b := LeastFire(parsed, a + 1, z);
    }
  }

  lemma NextFireExists(parsed: ParsedCron, a: int) returns (b: int)
    requires ValidCron(parsed) && Satisfiable(parsed)
    ensures NextFireMinute(parsed, a, b)
  {
    hide FiresAt, CivilOf, MinuteOf, Satisfiable, Advanced;
    var c := CivilOf(a);
    var w := FireWithinCap(parsed, c);
    BeforeIsEarlier(c, w);
    b := LeastFire(parsed, a, MinuteOf(w));
  }

  /** Consecutive fires in whole minutes. */
  ghost predicate MinuteChain(parsed: ParsedCron, from: int, m: seq<int>) {
    && (m != [] ==> NextFireMinute(parsed, from, m[0]))
    && forall k :: 0 < k < |m| ==> NextFireMinute(parsed, m[k - 1], m[k])
  }

  lemma {:induction false} MinuteChainExists(parsed: ParsedCron, from: int, n: nat) returns (m: seq<int>)
    requires ValidCron(parsed) && Satisfiable(parsed)
    ensures |m| == n && MinuteChain(parsed, from, m)
  {
    hide NextFireMinute, Satisfiable, ValidCron;
    m := [];
    if 0 < n {
      m := MinuteChainExists(parsed, from, n - 1);
      var b := NextFireExists(parsed, if m == [] then from else m[|m| - 1]);
      m := m + [b];
    }
  }

  /** The chain lists the fires without a gap: element `k` is the fire number `k + 1`. */
  lemma {:induction false} ChainCounts(parsed: ParsedCron, from: int, m: seq<int>, k: nat)
    requires MinuteChain(parsed, from, m) && k < |m|
    ensures from < m[k] && |FiresWithin(parsed, from + 1, m[k] - from)| == k + 1
  {
    hide FiresAt;
    if k == 0 {
      assert FiresWithin(parsed, from + 1, m[0] - from) == {m[0]};
    } else {
      ChainCounts(parsed, from, m, k - 1);
      var before := FiresWithin(parsed, from + 1, m[k - 1] - from);
      assert FiresWithin(parsed, from + 1, m[k] - from) == before + {m[k]};
    }
  }

  /** A fire counted among the first is an element of the chain. */
  lemma {:induction false} FireIsSampled(parsed: ParsedCron, from: int, m: seq<int>, t: int, n: nat) returns (k: nat)
    requires MinuteChain(parsed, from, m) && n <= |m| && FiresAt(parsed, t) && from < t
    requires 0 < n && t <= m[n - 1]
    ensures k < n && m[k] == t
  {
    hide FiresAt;
    if 1 < n && t <= m[n - 2] {
      k := FireIsSampled(parsed, from, m, t, n - 1);
    } else {
      k := n - 1;
    }
  }

  lemma CountGrows(parsed: ParsedCron, from: int, b: int, c: int)
    requires from < b < c && FiresAt(parsed, c)
    ensures |FiresWithin(parsed, from + 1, b - from)| < |FiresWithin(parsed, from + 1, c - from)|
  {
    hide FiresAt;
    var early, late := FiresWithin(parsed, from + 1, b - from), FiresWithin(parsed, from + 1, c - from);
    assert c in late && c !in early;
    SubsetSize(early + {c}, late);
  }

  /** The cluster is two neighbours in the chain. */
  lemma ClusterInChain(parsed: ParsedCron, m: seq<int>)
    requires MinuteChain(parsed, 28_401_120, m) && |m| == 49
    ensures (exists a, b :: EarlyCluster(parsed, a, b)) <==> exists k :: 0 < k < |m| && m[k] - m[k - 1] < 5
  {
    hide FiresAt, FiresWithin;
    if k :| 0 < k < |m| && m[k] - m[k - 1] < 5 {
      ChainCounts(parsed, 28_401_120, m, k - 1);
      ChainCounts(parsed, 28_401_120, m, k);
      ChainFires(parsed, 28_401_120, m, k - 1);
      assert EarlyCluster(parsed, m[k - 1], m[k]);
    }
    if a, b :| EarlyCluster(parsed, a, b) {
      ChainCounts(parsed, 28_401_120, m, 48);
      ChainFires(parsed, 28_401_120, m, 48);
      if m[48] < b {
        CountGrows(parsed, 28_401_120, m[48], b);
      }
      var j := FireIsSampled(parsed, 28_401_120, m, b, 49);
      var i := FireIsSampled(parsed, 28_401_120, m, a, 49);
      ChainAscends(parsed, 28_401_120, m, j, i);
      assert NextFireMinute(parsed, m[j - 1], m[j]);
    }
  }

  lemma ChainFires(parsed: ParsedCron, from: int, m: seq<int>, k: nat)
    requires MinuteChain(parsed, from, m) && k < |m|
    ensures FiresAt(parsed, m[k])
  {
    hide FiresAt;
    if 0 < k { assert NextFireMinute(parsed, m[k - 1], m[k]); }
  }

  /** Elements in time order are in list order. */
  lemma {:induction false} ChainAscends(parsed: ParsedCron, from: int, m: seq<int>, j: nat, i: nat)
    requires MinuteChain(parsed, from, m) && i < |m| && j < |m| && m[i] < m[j]
    ensures i < j && m[i] <= m[j - 1]
    decreases i + j
  {
    hide FiresAt;
    if j < i {
      assert NextFireMinute(parsed, m[i - 1], m[i]);
      if j < i - 1 { ChainAscends(parsed, from, m, j, i - 1); }
    } else if i < j - 1 {
      assert NextFireMinute(parsed, m[j - 2], m[j - 1]);
      ChainUpward(parsed, from, m, i, j - 1);
    }
  }

  lemma {:induction false} ChainUpward(parsed: ParsedCron, from: int, m: seq<int>, i: nat, j: nat)
    requires MinuteChain(parsed, from, m) && i <= j < |m|
    ensures m[i] <= m[j]
    decreases j - i
  {
    hide FiresAt;
    if i < j {
      assert NextFireMinute(parsed, m[j - 1], m[j]);
      ChainUpward(parsed, from, m, i, j - 1);
    }
  }

  /** A schedule is refused exactly when two of its first forty-nine fires from the start of 2024 on are less than
      five minutes apart. */
  lemma RefusedIff(parsed: ParsedCron)
    requires ValidCron(parsed)
    ensures Accepted(parsed) <==> !exists a, b :: EarlyCluster(parsed, a, b)
  {
    hide FiresAt, FiresWithin, DateUtc, Satisfiable;
    if Satisfiable(parsed) {
      var m := MinuteChainExists(parsed, 28_401_120, 49);
      ClusterInChain(parsed, m);
      var fires := seq(49, k requires 0 <= k < 49 => m[k] * MS_PER_MINUTE);
      ChainInMs(parsed, m, fires);
      hide Accepted, FireChain, EarlyCluster;
      if GapsKeepFloor(fires) { AcceptedByChain(parsed, fires); } else { RefusedByChain(parsed, fires); }
    } else {
      SatisfiableIffSomeFire(parsed);
      UnsatisfiableAccepted(parsed);
    }
  }

  lemma ChainInMs(parsed: ParsedCron, m: seq<int>, fires: seq<int>)
    requires MinuteChain(parsed, 28_401_120, m) && |m| == |fires| == 49
    requires forall k :: 0 <= k < 49 ==> fires[k] == m[k] * MS_PER_MINUTE
    ensures FireChain(parsed, MIN_INTERVAL_REFERENCE, fires)
    ensures GapsKeepFloor(fires) <==> !exists k :: 0 < k < |m| && m[k] - m[k - 1] < 5
  {
    hide NextFireMinute, IsNextFire, DateUtc;
    ReferenceMinute();
    InMinutes(parsed, 28_401_120, fires[0]);
    forall k | 0 < k < |fires|
      ensures IsNextFire(parsed, UTC, fires[k - 1], fires[k])
      ensures fires[k] - fires[k - 1] >= MIN_INTERVAL_MS <==> m[k] - m[k - 1] >= 5
    {
      InMinutes(parsed, m[k - 1], fires[k]);
    }
  }

  lemma ReferenceMinute()
    ensures MIN_INTERVAL_REFERENCE == 28_401_120 * MS_PER_MINUTE
  {
  }

  // ---- the fires of one hour ----

  /** The least fire after minute `a`, in whole minutes. */
  ghost predicate NextFireMinute(parsed: ParsedCron, a: int, b: int) {
    a < b && FiresAt(parsed, b) && forall t :: a < t && FiresAt(parsed, t) ==> b <= t
  }

  lemma InMinutes(parsed: ParsedCron, from: int, r: int)
    ensures IsNextFire(parsed, UTC, from * MS_PER_MINUTE, r) <==>
            r % MS_PER_MINUTE == 0 && NextFireMinute(parsed, from, r / MS_PER_MINUTE)
  {
    hide FiresAt;
    if IsNextFire(parsed, UTC, from * MS_PER_MINUTE, r) {
      assert r == (r / MS_PER_MINUTE) * MS_PER_MINUTE;
      forall t | from < t && FiresAt(parsed, t) ensures r / MS_PER_MINUTE <= t {
        assert Fires(parsed, UTC, t * MS_PER_MINUTE) by { assert (t * MS_PER_MINUTE) / MS_PER_MINUTE == t; }
      }
    }
    if r % MS_PER_MINUTE == 0 && NextFireMinute(parsed, from, r / MS_PER_MINUTE) {
      forall t | from * MS_PER_MINUTE < t && Fires(parsed, UTC, t) ensures r <= t {
        assert t == (t / MS_PER_MINUTE) * MS_PER_MINUTE;
      }
    }
  }

  /** Hour, day and month of the hour starting at minute `60 * h` match. */
  predicate HourOpen(parsed: ParsedCron, h: int) {
    var c := CivilOf(60 * h);
    c.hour in parsed.hour && c.month in parsed.month && DayMatches(parsed, c.year, c.month, c.day)
  }

  lemma WithinHour(h: int, x: int)
    requires 0 <= x < 60
    ensures CivilOf(60 * h).minute == 0
    ensures CivilOf(60 * h + x) == CivilOf(60 * h).(minute := x)
  {
    hide CivilOf, DayNumber;
    var c := CivilOf(60 * h);
    assert MinuteOf(c) == 60 * h;
    assert c.minute == 0 by {
      assert c.minute == 60 * (h - 24 * DayNumber(c.year, c.month, c.day) - c.hour);
    }
    CivilOfMinuteOf(c.(minute := x));
  }

  /** All minutes of an hour share its hour, day and month. */
  lemma FiresInHour(parsed: ParsedCron, h: int, x: int)
    requires 0 <= x < 60
    ensures FiresAt(parsed, 60 * h + x) <==> HourOpen(parsed, h) && x in parsed.minute
  {
    hide CivilOf, DayMatches;
    WithinHour(h, x);
    FiresAtCivil(parsed, CivilOf(60 * h + x));
  }

  predicate Spaced(values: seq<int>) {
    forall i :: 0 < i < |values| ==> values[i] - values[i - 1] >= 5
  }

  lemma NothingBetween(values: seq<int>, j: nat, x: int)
    requires Ascending(values) && j + 1 < |values| && values[j] < x < values[j + 1]
    ensures x !in values
  {
  }

  /** Inside an open hour the fires follow the minute list. */
  lemma NextInHour(parsed: ParsedCron, h: int, j: nat)
    requires ValidCron(parsed) && j + 1 < |parsed.minute| && HourOpen(parsed, h)
    ensures NextFireMinute(parsed, 60 * h + parsed.minute[j], 60 * h + parsed.minute[j + 1])
  {
    hide FiresAt, HourOpen;
    var a, b := parsed.minute[j], parsed.minute[j + 1];
    assert a in parsed.minute && b in parsed.minute;
    FiresInHour(parsed, h, b);
    forall t | 60 * h + a < t && FiresAt(parsed, t) ensures 60 * h + b <= t {
      if t < 60 * h + b {
        FiresInHour(parsed, h, t - 60 * h);
        NothingBetween(parsed.minute, j, t - 60 * h);
      }
    }
  }

  /** The first fire after minute `a` in a later hour is at that hour's first minute. */
  lemma EntersHourAtStart(parsed: ParsedCron, a: int, b: int)
    requires ValidCron(parsed) && NextFireMinute(parsed, a, b) && a / 60 < b / 60
    ensures HourOpen(parsed, b / 60) && b == 60 * (b / 60) + parsed.minute[0]
  {
    hide FiresAt, HourOpen;
    var h, x := b / 60, b % 60;
    FiresInHour(parsed, h, x);
    FieldHead(parsed.minute, 0, 59);
    var first := parsed.minute[0];
    assert first in parsed.minute;
    FiresInHour(parsed, h, first);
    FirstIsLeast(parsed.minute, x);
  }

  /** A chain of fires in whole minutes, no gap under five. */
  ghost predicate SpacedChain(parsed: ParsedCron, m: seq<int>) {
    forall k :: 0 < k < |m| ==> NextFireMinute(parsed, m[k - 1], m[k]) && m[k] - m[k - 1] >= 5
  }

  /** From the hour's first fire on, the chain runs through the whole minute list. */
  lemma {:induction false} ChainWalksHour(parsed: ParsedCron, m: seq<int>, k: nat, h: int, j: nat)
    requires ValidCron(parsed) && SpacedChain(parsed, m) && HourOpen(parsed, h)
    requires k + 12 < |m| && m[k] == 60 * h + parsed.minute[0]
    requires j < |parsed.minute|
    ensures k + j < |m| && m[k + j] == 60 * h + parsed.minute[j]
    ensures parsed.minute[j] >= 5 * j
    ensures 0 < j ==> parsed.minute[j] - parsed.minute[j - 1] >= 5
  {
    hide FiresAt, HourOpen;
    FieldElement(parsed.minute, 0, 59, j);
    if 0 < j {
      ChainWalksHour(parsed, m, k, h, j - 1);
      NextInHour(parsed, h, j - 1);
      assert NextFireMinute(parsed, m[k + j - 1], m[k + j]);
    } else {
      FieldHead(parsed.minute, 0, 59);
    }
  }

  lemma FieldElement(values: seq<int>, min: int, max: int, k: nat)
    requires ValidField(values, min, max) && k < |values|
    ensures min <= values[k] <= max
  {
    var v := values[k];
    assert v in values;
  }

  /** Within twelve gaps the chain leaves the hour it starts in. */
  lemma {:induction false} ChainLeavesHour(parsed: ParsedCron, m: seq<int>, k: nat) returns (r: nat)
    requires SpacedChain(parsed, m) && 12 < |m| && 0 < k <= 12
    requires forall i :: 0 <= i < k ==> m[i] / 60 == m[0] / 60 && m[i] >= m[0] + 5 * i
    ensures 0 < r <= 12 && m[r - 1] / 60 < m[r] / 60
    decreases 12 - k
  {
    hide NextFireMinute;
    assert m[k] - m[k - 1] >= 5;
    if m[k] / 60 == m[0] / 60 {
      assert k < 12;
      r := ChainLeavesHour(parsed, m, k + 1);
    } else {
      r := k;
    }
  }

  /** A schedule that passes the gate lists no two minutes less than five apart. */
  lemma AcceptedIsSpaced(parsed: ParsedCron)
    requires ValidCron(parsed) && Satisfiable(parsed) && Accepted(parsed)
    ensures Spaced(parsed.minute)
  {
    hide FiresAt, HourOpen, IsNextFire, DateUtc, Satisfiable;
    var fires :| |fires| == MIN_INTERVAL_SAMPLES + 1
      && FireChain(parsed, MIN_INTERVAL_REFERENCE, fires) && GapsKeepFloor(fires);
    var m := seq(|fires|, k requires 0 <= k < |fires| => fires[k] / MS_PER_MINUTE);
    ReferenceIsMinute();
    InMinutes(parsed, MIN_INTERVAL_REFERENCE / MS_PER_MINUTE, fires[0]);
    forall k | 0 < k < |m|
      ensures NextFireMinute(parsed, m[k - 1], m[k]) && m[k] - m[k - 1] >= 5
    {
      ChainInMinutes(parsed, fires, k - 1);
      ChainInMinutes(parsed, fires, k);
    }
    assert SpacedChain(parsed, m);
    var k := ChainLeavesHour(parsed, m, 1);
    EntersHourAtStart(parsed, m[k - 1], m[k]);
    forall j | 0 < j < |parsed.minute| ensures parsed.minute[j] - parsed.minute[j - 1] >= 5 {
      ChainWalksHour(parsed, m, k, m[k] / 60, j);
    }
  }

  lemma ReferenceIsMinute()
    ensures MIN_INTERVAL_REFERENCE % MS_PER_MINUTE == 0
  {
  }

  lemma {:induction false} ChainInMinutes(parsed: ParsedCron, fires: seq<int>, k: nat)
    requires FireChain(parsed, MIN_INTERVAL_REFERENCE, fires) && k < |fires|
    ensures fires[k] % MS_PER_MINUTE == 0
    ensures 0 < k ==> NextFireMinute(parsed, fires[k - 1] / MS_PER_MINUTE, fires[k] / MS_PER_MINUTE)
  {
    hide NextFireMinute, IsNextFire, DateUtc;
    if k == 0 {
      ReferenceIsMinute();
      InMinutes(parsed, MIN_INTERVAL_REFERENCE / MS_PER_MINUTE, fires[0]);
    } else {
      ChainInMinutes(parsed, fires, k - 1);
      InMinutes(parsed, fires[k - 1] / MS_PER_MINUTE, fires[k]);
    }
  }

  // ---- how often an accepted schedule fires ----

  /** The minutes in [a, a + n) at which the cron fires. */
  function FiresWithin(parsed: ParsedCron, a: int, n: nat): set<int> {
    set t | a <= t < a + n && FiresAt(parsed, t)
  }

  function Shifted(values: seq<int>, base: int): (s: set<int>)
    ensures |s| <= |values|
    ensures forall v :: v in values ==> base + v in s
  {
    if values == [] then {}
    else
      var last := values[|values| - 1];
      assert forall v :: v in values ==> v == last || v in values[..|values| - 1];
      Shifted(values[..|values| - 1], base) + {base + last}
  }

  lemma SubsetSize(a: set<int>, b: set<int>)
    requires a <= b
    ensures |a| <= |b|
  {
    var rest := b - a;
    assert b == a + rest;
  }

  lemma HourlyFires(parsed: ParsedCron, h: int)
    requires ValidCron(parsed)
    ensures |FiresWithin(parsed, 60 * h, 60)| <= |parsed.minute|
  {
    hide FiresAt, HourOpen;
    forall t | t in FiresWithin(parsed, 60 * h, 60) ensures t in Shifted(parsed.minute, 60 * h) {
      FiresInHour(parsed, h, t - 60 * h);
      assert t == 60 * h + (t - 60 * h);
    }
    SubsetSize(FiresWithin(parsed, 60 * h, 60), Shifted(parsed.minute, 60 * h));
  }

  lemma {:induction false} SpacedGrows(values: seq<int>, k: nat)
    requires ValidField(values, 0, 59) && Spaced(values) && k < |values|
    ensures values[k] >= 5 * k
  {
    FieldElement(values, 0, 59, k);
    if 0 < k {
      SpacedGrows(values, k - 1);
    }
  }

  /** An accepted schedule fires at most twelve times in any hour. */
  lemma AcceptedHourlyRate(parsed: ParsedCron, h: int)
    requires ValidCron(parsed) && Accepted(parsed)
    ensures |FiresWithin(parsed, 60 * h, 60)| <= 12
  {
    hide FiresAt;
    if Satisfiable(parsed) {
      AcceptedIsSpaced(parsed);
      SpacedGrows(parsed.minute, |parsed.minute| - 1);
      FieldElement(parsed.minute, 0, 59, |parsed.minute| - 1);
      HourlyFires(parsed, h);
    } else {
      SatisfiableIffSomeFire(parsed);
      assert FiresWithin(parsed, 60 * h, 60) == {};
    }
  }

  lemma {:induction false} AcceptedRate(parsed: ParsedCron, h: int, hours: nat)
    requires ValidCron(parsed) && Accepted(parsed)
    ensures |FiresWithin(parsed, 60 * h, 60 * hours)| <= 12 * hours
  {
    hide FiresAt, Accepted, ValidCron;
    if hours == 0 {
      assert FiresWithin(parsed, 60 * h, 0) == {};
    } else {
      AcceptedRate(parsed, h, hours - 1);
      AcceptedHourlyRate(parsed, h + hours - 1);
      var before, last := FiresWithin(parsed, 60 * h, 60 * (hours - 1)), FiresWithin(parsed, 60 * (h + hours - 1), 60);
      assert FiresWithin(parsed, 60 * h, 60 * hours) == before + last;
    }
  }

  /** And at most 288 times in any UTC day. */
  lemma AcceptedDailyRate(parsed: ParsedCron, day: int)
    requires ValidCron(parsed) && Accepted(parsed)
    ensures |FiresWithin(parsed, day * MINUTES_PER_DAY, MINUTES_PER_DAY)| <= 288
  {
    hide FiresAt, Accepted, ValidCron;
    AcceptedRate(parsed, 24 * day, 24);
  }
}

/** The schedule grant of src/extensions/clamp-permissions.ts: which crons survive the clamp, and how often what
    survives can run. */
module ClampSchedule {
  import opened Wrappers
  import opened Calendar
  import opened JsText
  import opened CronParser
  import opened CronNext
  import opened CronGate
  import Permissions

  type MissedRunPolicy = Permissions.MissedRunPolicy

  const MAX_CRONS: nat := 8

  /** A number that is missing, not a number or infinite is `None`. */
  datatype Schedule = Schedule(
    crons: seq<string>, maxRunsPerDay: Option<real>, maxRunDurationMs: Option<real>,
    missedRunPolicy: Option<MissedRunPolicy>, maxRetries: Option<real>)

  datatype Granted = Granted(
    crons: seq<string>, maxRunsPerDay: int, maxRunDurationMs: int, missedRunPolicy: MissedRunPolicy, maxRetries: int)

  function ClampNumber(value: Option<real>, min: int, max: int, fallback: int): (n: int)
    requires min <= fallback <= max
    ensures min <= n <= max
    ensures value.Some? && min as real <= value.value <= max as real ==> n == value.value.Floor
  {
    if value.None? then fallback
    else if value.value.Floor < min then min
    else if max < value.value.Floor then max
    else value.value.Floor
  }

  function Min(a: int, b: int): int { if a < b then a else b }

  function PolicyOf(m: Schedule): MissedRunPolicy {
    if m.missedRunPolicy.Some? then m.missedRunPolicy.value else Permissions.FireOnce
  }

  predicate IsFiveFieldCron(expr: string) {
    !("@" <= Trim(expr)) && |SplitSpaces(Trim(expr))| == 5
  }

  function FiveField(crons: seq<string>): seq<string> {
    if crons == [] then []
    else if IsFiveFieldCron(crons[0]) then [crons[0]] + FiveField(crons[1..])
    else FiveField(crons[1..])
  }

  /** The first eight well-shaped crons of the manifest: the only candidates. */
  function Candidates(crons: seq<string>): (r: seq<string>)
    ensures |r| <= MAX_CRONS
  {
    var shaped := FiveField(crons);
    if |shaped| <= MAX_CRONS then shaped else shaped[..MAX_CRONS]
  }

  /** The expression is valid, and the schedule it reads as keeps its sampled gaps. */
  ghost predicate PassesGate(expr: string) {
    Refusal(expr).None? && forall p :: Reads(expr, p) && ValidCron(p) ==> Accepted(p)
  }

  ghost function Passing(crons: seq<string>): (r: seq<string>)
    ensures forall c :: c in r <==> c in crons && PassesGate(c)
    ensures |r| <= |crons|
  {
    if crons == [] then []
    else
      var init, last := crons[..|crons| - 1], crons[|crons| - 1];
      assert forall c :: c in crons <==> c in init || c == last;
      if PassesGate(last) then Passing(init) + [last] else Passing(init)
  }

  lemma {:induction false} FiveFieldFromManifest(crons: seq<string>)
    ensures forall c :: c in FiveField(crons) <==> c in crons && IsFiveFieldCron(c)
  {
    hide IsFiveFieldCron;
    if crons != [] {
      FiveFieldFromManifest(crons[1..]);
      assert forall c :: c in crons <==> c == crons[0] || c in crons[1..];
    }
  }

  method FilterPassing(crons: seq<string>) returns (kept: seq<string>)
    ensures kept == Passing(crons)
  {
    hide PassesGate;
    kept := [];
    for i := 0 to |crons|
      invariant kept == Passing(crons[..i])
    {
      var ok := PassesMinIntervalGate(crons[i]);
      GateIs(crons[i], ok);
      assert crons[..i + 1][..i] == crons[..i];
      if ok { kept := kept + [crons[i]]; }
    }
    assert crons[..|crons|] == crons;
  }

  /** How many expressions of five fields come before position `i`. */
  function ShapedBefore(crons: seq<string>, i: nat): nat
    requires i <= |crons|
  {
    if i == 0 then 0 else ShapedBefore(crons, i - 1) + if IsFiveFieldCron(crons[i - 1]) then 1 else 0
  }

  lemma {:induction false} ShapedTail(crons: seq<string>, i: nat)
    requires 0 < i <= |crons|
    ensures ShapedBefore(crons, i) == ShapedBefore(crons[1..], i - 1) + if IsFiveFieldCron(crons[0]) then 1 else 0
  {
    hide IsFiveFieldCron;
    if 1 < i {
      ShapedTail(crons, i - 1);
      assert crons[1..][i - 2] == crons[i - 1];
    }
  }

  lemma {:induction false} ShapedIndex(crons: seq<string>, i: nat)
    requires i < |crons| && IsFiveFieldCron(crons[i])
    ensures ShapedBefore(crons, i) < |FiveField(crons)| && FiveField(crons)[ShapedBefore(crons, i)] == crons[i]
  {
    hide IsFiveFieldCron;
    if 0 < i {
      ShapedTail(crons, i);
      ShapedIndex(crons[1..], i - 1);
    }
  }

  lemma {:induction false} ShapedSource(crons: seq<string>, k: nat) returns (i: nat)
    requires k < |FiveField(crons)|
    ensures i < |crons| && IsFiveFieldCron(crons[i]) && ShapedBefore(crons, i) == k && crons[i] == FiveField(crons)[k]
  {
    hide IsFiveFieldCron;
    if IsFiveFieldCron(crons[0]) && k == 0 {
      i := 0;
    } else {
      var j := ShapedSource(crons[1..], if IsFiveFieldCron(crons[0]) then k - 1 else k);
      i := j + 1;
      ShapedTail(crons, i);
    }
  }

  /** An expression is considered exactly if the manifest lists it with five fields and fewer than eight such before
      it. */
  lemma CandidateIff(crons: seq<string>, expr: string)
    ensures expr in Candidates(crons) <==>
            exists i: nat ::
              i < |crons| && crons[i] == expr && IsFiveFieldCron(expr) && ShapedBefore(crons, i) < 8
  {
    hide IsFiveFieldCron, FiveField, ShapedBefore;
    if expr in Candidates(crons) {
      var k :| 0 <= k < |Candidates(crons)| && Candidates(crons)[k] == expr;
      var i := ShapedSource(crons, k);
    }
    if i: nat :| i < |crons| && crons[i] == expr && IsFiveFieldCron(expr) && ShapedBefore(crons, i) < 8 {
      ShapedIndex(crons, i);
      assert Candidates(crons)[ShapedBefore(crons, i)] == expr;
    }
  }

  /** What the manifest must list for an expression to be granted: five fields, among the first eight such, valid, and
      no two of its first forty-nine fires from the start of 2024 on less than five minutes apart. */
  lemma GrantedIff(crons: seq<string>, expr: string)
    ensures expr in Passing(Candidates(crons)) <==>
            && (exists i: nat :: i < |crons| && crons[i] == expr && IsFiveFieldCron(expr) && ShapedBefore(crons, i) < 8)
            && Refusal(expr).None?
            && !exists p, a, b :: Reads(expr, p) && ValidCron(p) && EarlyCluster(p, a, b)
  {
    hide IsFiveFieldCron, Candidates, Refusal, Reads, ValidCron, Accepted, EarlyCluster;
    CandidateIff(crons, expr);
    forall p | ValidCron(p) ensures Accepted(p) <==> !exists a, b :: EarlyCluster(p, a, b) { RefusedIff(p); }
  }

  lemma GateIs(expr: string, ok: bool)
    requires ok <==> Refusal(expr).None? && forall p :: Reads(expr, p) && ValidCron(p) ==> Accepted(p)
    ensures ok <==> PassesGate(expr)
  {
  }

  function Distance(a: int, b: int): nat { if a < b then b - a else a - b }

  /** A submitted number becomes the allowed integer nearest to its floor. */
  lemma ClampIsNearest(value: real, min: int, max: int, fallback: int, k: int)
    requires min <= fallback <= max && min <= k <= max
    ensures var n := ClampNumber(Some(value), min, max, fallback);
            min <= n <= max && Distance(n, value.Floor) <= Distance(k, value.Floor)
    ensures ClampNumber(None, min, max, fallback) == fallback
  {
  }

  /** The manifest alone decides which crons and which policy; the submitted grant can only lower the quotas, each of
      which is one side's. */
  method ClampSchedulePermission(submitted: Option<Schedule>, manifest: Option<Schedule>) returns (r: Option<Granted>)
    ensures r.Some? <==> manifest.Some? && Passing(Candidates(manifest.value.crons)) != []
    ensures r.Some? ==> r.value.crons == Passing(Candidates(manifest.value.crons))
    ensures r.Some? ==> 1 <= r.value.maxRunsPerDay <= ClampNumber(manifest.value.maxRunsPerDay, 1, 288, 24)
    ensures r.Some? && submitted.Some? ==>
            r.value.maxRunsPerDay <= ClampNumber(submitted.value.maxRunsPerDay, 1, 288, 24)
    ensures r.Some? ==>
            1000 <= r.value.maxRunDurationMs <= ClampNumber(manifest.value.maxRunDurationMs, 1000, 1_800_000, 300_000)
    ensures r.Some? && submitted.Some? ==>
              r.value.maxRunDurationMs <= ClampNumber(submitted.value.maxRunDurationMs, 1000, 1_800_000, 300_000)
    ensures r.Some? ==>
              var sub := if submitted.Some? then submitted.value else manifest.value;
              && r.value.maxRunsPerDay in
                   {ClampNumber(sub.maxRunsPerDay, 1, 288, 24), ClampNumber(manifest.value.maxRunsPerDay, 1, 288, 24)}
              && r.value.maxRunDurationMs in
                   {ClampNumber(sub.maxRunDurationMs, 1000, 1_800_000, 300_000),
                    ClampNumber(manifest.value.maxRunDurationMs, 1000, 1_800_000, 300_000)}
    ensures r.Some? ==> r.value.missedRunPolicy == PolicyOf(manifest.value)
    ensures r.Some? ==> r.value.maxRetries == ClampNumber(manifest.value.maxRetries, 0, 10, 0)
  {
    hide Passing, Candidates;
    if manifest.None? { return None; }
    var m := manifest.value;
    var sub := if submitted.Some? then submitted.value else m;
    var crons := FilterPassing(Candidates(m.crons));
    if |crons| == 0 { return None; }
    return Some(Granted(
      crons,
      Min(ClampNumber(sub.maxRunsPerDay, 1, 288, 24), ClampNumber(m.maxRunsPerDay, 1, 288, 24)),
      Min(ClampNumber(sub.maxRunDurationMs, 1000, 1_800_000, 300_000),
          ClampNumber(m.maxRunDurationMs, 1000, 1_800_000, 300_000)),
      PolicyOf(m),
      ClampNumber(m.maxRetries, 0, 10, 0)));
  }

  /** Every granted cron is the manifest's, reads as one schedule, and that one fires at most twelve times an hour
      and 288 times a UTC day. */
  lemma GrantedCronsAreSlow(crons: seq<string>, expr: string, p: ParsedCron, h: int)
    requires expr in Passing(Candidates(crons)) && Reads(expr, p) && ValidCron(p)
    ensures expr in crons && Refusal(expr).None?
    ensures |FiresWithin(p, 60 * h, 60)| <= 12 && |FiresWithin(p, h * MINUTES_PER_DAY, MINUTES_PER_DAY)| <= 288
  {
    hide FiresAt, Accepted, ValidCron, Reads, Refusal, IsFiveFieldCron;
    FiveFieldFromManifest(crons);
    assert expr in FiveField(crons);
    AcceptedHourlyRate(p, h);
    AcceptedDailyRate(p, h);
  }
}

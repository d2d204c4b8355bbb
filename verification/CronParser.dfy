/** The five-field cron grammar of src/extensions/cron.ts. */
module CronParser {
  import opened Wrappers
  import opened JsText

  datatype FieldError =
    | EmptySegment
    | InvalidStep
    | InvalidRange
    | InvalidValue
    | OutOfRange

  /** One comma-separated part of a field: lo, lo + step, ... up to hi. */
  datatype Segment = Segment(lo: int, hi: int, step: int)

  /** `d` is a non-negative multiple of `step`. */
  predicate OnStep(d: int, step: int)
    requires 0 < step
    decreases d
  {
    d == 0 || (step <= d && OnStep(d - step, step))
  }

  predicate Denotes(g: Segment, v: int)
    requires 0 < g.step
  {
    v <= g.hi && OnStep(v - g.lo, g.step)
  }

  datatype ParsedCron = ParsedCron(
    minute: seq<int>, hour: seq<int>, dayOfMonth: seq<int>, month: seq<int>, dayOfWeek: seq<int>,
    domWild: bool, dowWild: bool)

  predicate Ascending(values: seq<int>) {
    forall i, j :: 0 <= i < j < |values| ==> values[i] < values[j]
  }

  /** What the search relies on: sorted, duplicate-free, in range and not empty. */
  predicate ValidField(values: seq<int>, min: int, max: int) {
    && values != []
    && Ascending(values)
    && forall v :: v in values ==> min <= v <= max
  }

  predicate ValidCron(p: ParsedCron) {
    && ValidField(p.minute, 0, 59)
    && ValidField(p.hour, 0, 23)
    && ValidField(p.dayOfMonth, 1, 31)
    && ValidField(p.month, 1, 12)
    && ValidField(p.dayOfWeek, 0, 6)
  }

  /** The bounds named by a segment without its step. */
  function ParseBody(body: string, min: int, max: int): Result<(int, int), FieldError> {
    if body == "*" then Ok((min, max))
    else if '-' in body then
      var ends := Split(body, '-');
      match (ParseInt(ends[0]), if |ends| < 2 then None else ParseInt(ends[1]))
      case (Some(lo), Some(hi)) => if lo > hi then Err(InvalidRange) else Ok((lo, hi))
      case _ => Err(InvalidRange)
    else match ParseInt(body)
      case Some(v) => Ok((v, v))
      case None => Err(InvalidValue)
  }

  function ParseSegment(part: string, min: int, max: int): (r: Result<Segment, FieldError>)
    requires min <= max
    ensures r.Ok? ==> 0 < r.value.step && min <= r.value.lo <= r.value.hi <= max
  {
    var trimmed := Trim(part);
    if trimmed == "" then Err(EmptySegment)
    else
      var slash := IndexOf(trimmed, '/');
      var body := if slash.Some? then trimmed[..slash.value] else trimmed;
      var step := if slash.Some? then ParseInt(trimmed[slash.value + 1..]) else Some(1);
      if step.None? || step.value <= 0 then Err(InvalidStep)
      else
        var (lo, hi) :- ParseBody(body, min, max);
        if lo < min || hi > max then Err(OutOfRange) else Ok(Segment(lo, hi, step.value))
  }

  // ---- sorting ----

  lemma InFrontAscends(first: int, rest: seq<int>)
    requires Ascending(rest) && forall x :: x in rest ==> first < x
    ensures Ascending([first] + rest)
  {
    var r := [first] + rest;
    forall i, j | 0 <= i < j < |r| ensures r[i] < r[j] {
      assert r[j] == rest[j - 1] && rest[j - 1] in rest;
      if 0 < i { assert r[i] == rest[i - 1]; }
    }
  }

  function Insert(sorted: seq<int>, v: int): (r: seq<int>)
    requires Ascending(sorted) && v !in sorted
    ensures Ascending(r)
    ensures forall x :: x in r <==> x == v || x in sorted
  {
    if sorted == [] then [v]
    else if v < sorted[0] then [v] + sorted
    else
      var rest := Insert(sorted[1..], v);
      assert forall x :: x in rest ==> sorted[0] < x by {
        assert forall x :: x in sorted[1..] ==> x in sorted;
      }
      InFrontAscends(sorted[0], rest);
      [sorted[0]] + rest
  }

  predicate Distinct(values: seq<int>) {
    forall i, j :: 0 <= i < j < |values| ==> values[i] != values[j]
  }

  function Sort(values: seq<int>): (r: seq<int>)
    requires Distinct(values)
    ensures Ascending(r)
    ensures forall x :: x in r <==> x in values
  {
    if values == [] then []
    else
      var last := values[|values| - 1];
      assert last !in values[..|values| - 1];
      Insert(Sort(values[..|values| - 1]), last)
  }

  // ---- one field ----

  lemma {:induction false} NothingBetweenSteps(d: int, e: int, step: int)
    requires 0 < step && OnStep(d, step) && 0 < e < step
    ensures !OnStep(d + e, step)
    decreases d
  {
    if d != 0 {
      NothingBetweenSteps(d - step, e, step);
    }
  }

  /** Adds lo, lo + step, ... to an insertion-ordered set of values. */
  method AddSegment(values: seq<int>, g: Segment) returns (r: seq<int>)
    requires 0 < g.step && Distinct(values)
    ensures Distinct(r)
    ensures forall x :: x in r <==> x in values || Denotes(g, x)
  {
    r := values;
    var v := g.lo;
    while v <= g.hi
      invariant g.lo <= v && OnStep(v - g.lo, g.step)
      invariant Distinct(r)
      invariant forall x :: x in r <==> x in values || (Denotes(g, x) && x < v)
      decreases g.hi - v
    {
      forall x: int | v < x < v + g.step ensures !Denotes(g, x) {
        NothingBetweenSteps(v - g.lo, x - v, g.step);
      }
      if v !in r {
        r := r + [v];
      }
      v := v + g.step;
    }
  }

  type Outcome = Result<Segment, FieldError>

  /** The outcome of every comma-separated part, in order. */
  function Outcomes(raw: string, min: int, max: int): (os: seq<Outcome>)
    requires min <= max
    ensures os != []
    ensures forall k :: 0 <= k < |os| && os[k].Ok? ==> InBounds(os[k].value, min, max)
  {
    var parts := Split(raw, ',');
    seq(|parts|, k requires 0 <= k < |parts| => ParseSegment(parts[k], min, max))
  }

  predicate InBounds(g: Segment, min: int, max: int) {
    0 < g.step && min <= g.lo <= g.hi <= max
  }

  /** Some part lists the value `v`. */
  predicate Lists(os: seq<Outcome>, v: int) {
    exists k :: 0 <= k < |os| && os[k].Ok? && 0 < os[k].value.step && Denotes(os[k].value, v)
  }

  /** The error of a field text: that of its first bad part. */
  function FirstError(os: seq<Outcome>): (e: Option<FieldError>)
    ensures e.None? <==> forall k :: 0 <= k < |os| ==> os[k].Ok?
  {
    if os == [] then None
    else if os[0].Err? then Some(os[0].error)
    else FirstError(os[1..])
  }

  lemma FirstErrorStep(os: seq<Outcome>, i: nat)
    requires i < |os| && FirstError(os[..i]).None?
    ensures os[i].Ok? ==> FirstError(os[..i + 1]).None?
    ensures os[i].Err? ==> FirstError(os) == Some(os[i].error)
  {
    forall k | 0 <= k < i ensures os[k].Ok? {
      assert os[..i][k] == os[k];
    }
    if os[i].Err? {
      FirstErrorAt(os, i);
    }
  }

  lemma {:induction false} FirstErrorAt(os: seq<Outcome>, k: nat)
    requires k < |os| && os[k].Err?
    requires forall i :: 0 <= i < k ==> os[i].Ok?
    ensures FirstError(os) == Some(os[k].error)
  {
    if 0 < k {
      FirstErrorAt(os[1..], k - 1);
    }
  }

  lemma ListsStep(os: seq<Outcome>, i: nat, v: int)
    requires i < |os| && os[i].Ok? && 0 < os[i].value.step
    ensures Lists(os[..i + 1], v) <==> Lists(os[..i], v) || Denotes(os[i].value, v)
  {
    if Denotes(os[i].value, v) {
      assert os[..i + 1][i] == os[i];
    }
    if k :| 0 <= k < i && os[k].Ok? && 0 < os[k].value.step && Denotes(os[k].value, v) {
      assert os[..i][k] == os[..i + 1][k] == os[k];
    }
  }

  lemma OnStepNonNegative(d: int, step: int)
    requires 0 < step && OnStep(d, step)
    ensures 0 <= d
  {
  }

  /** A field without bad parts lists at least one value, and only values in range. */
  lemma ListsInRange(os: seq<Outcome>, min: int, max: int)
    requires os != []
    requires forall k :: 0 <= k < |os| ==> os[k].Ok? && InBounds(os[k].value, min, max)
    ensures Lists(os, os[0].value.lo)
    ensures forall v :: Lists(os, v) ==> min <= v <= max
  {
    assert Denotes(os[0].value, os[0].value.lo);
    forall v | Lists(os, v) ensures min <= v <= max {
      var k :| 0 <= k < |os| && os[k].Ok? && 0 < os[k].value.step && Denotes(os[k].value, v);
      OnStepNonNegative(v - os[k].value.lo, os[k].value.step);
    }
  }

  method ParseField(raw: string, min: int, max: int) returns (r: Result<seq<int>, FieldError>)
    requires min <= max
    ensures r.Err? <==> FirstError(Outcomes(raw, min, max)).Some?
    ensures r.Err? ==> FirstError(Outcomes(raw, min, max)) == Some(r.error)
    ensures r.Ok? ==> ValidField(r.value, min, max)
    ensures r.Ok? ==> forall v :: v in r.value <==> Lists(Outcomes(raw, min, max), v)
  {
    var parts := Split(raw, ',');
    ghost var os := Outcomes(raw, min, max);
    var values: seq<int> := [];
    for i := 0 to |parts|
      invariant Distinct(values)
      invariant FirstError(os[..i]).None?
      invariant forall v :: v in values <==> Lists(os[..i], v)
    {
      var g := ParseSegment(parts[i], min, max);
      assert g == os[i];
      FirstErrorStep(os, i);
      if g.Err? {
        return Err(g.error);
      }
      values := AddSegment(values, g.value);
      forall v { ListsStep(os, i, v); }
    }
    assert os[..|parts|] == os;
    ListsInRange(os, min, max);
    return Ok(Sort(values));
  }

  // ---- the whole expression ----

  datatype CronError =
    | Empty
    | ShorthandNotSupported
    | FieldCount(n: nat)
    | MinIntervalRequired
    | BadField(error: FieldError)

  /** Minute, hour, day of month, month, day of week. */
  function FieldLimits(k: nat): (r: (int, int))
    requires k < 5
    ensures r.0 <= r.1
  {
    if k == 0 then (0, 59) else if k == 1 then (0, 23) else if k == 2 then (1, 31)
    else if k == 3 then (1, 12) else (0, 6)
  }

  function FieldOutcomes(parts: seq<string>, k: nat): seq<Outcome>
    requires |parts| == 5 && k < 5
  {
    Outcomes(parts[k], FieldLimits(k).0, FieldLimits(k).1)
  }

  function Fields(expr: string): seq<string> { SplitSpaces(Trim(expr)) }

  /** The two textual patterns refused outright: every minute, and every one to four minutes. */
  predicate SubFiveMinutePattern(parts: seq<string>) {
    && |parts| == 5
    && parts[0] in {"*", "*/1", "*/2", "*/3", "*/4"}
    && forall k :: 1 <= k < 5 ==> parts[k] == "*"
  }

  function FieldErrorAt(parts: seq<string>, k: nat): Option<FieldError>
    requires |parts| == 5 && k < 5
  {
    FirstError(FieldOutcomes(parts, k))
  }

  /** The first error, in the order of the fields. */
  function FirstBadField(parts: seq<string>): Option<FieldError>
    requires |parts| == 5
  {
    if FieldErrorAt(parts, 0).Some? then FieldErrorAt(parts, 0)
    else if FieldErrorAt(parts, 1).Some? then FieldErrorAt(parts, 1)
    else if FieldErrorAt(parts, 2).Some? then FieldErrorAt(parts, 2)
    else if FieldErrorAt(parts, 3).Some? then FieldErrorAt(parts, 3)
    else FieldErrorAt(parts, 4)
  }

  /** Why `validateCron` refuses an expression, if it does. */
  function Refusal(expr: string): Option<CronError> {
    var parts := Fields(expr);
    if Trim(expr) == "" then Some(Empty)
    else if Trim(expr)[0] == '@' then Some(ShorthandNotSupported)
    else if |parts| != 5 then Some(FieldCount(|parts|))
    else if SubFiveMinutePattern(parts) then Some(MinIntervalRequired)
    else match FirstBadField(parts)
      case Some(e) => Some(BadField(e))
      case None => None
  }

  /** `values` is exactly what field `k` of the expression lists. */
  ghost predicate IsField(parts: seq<string>, k: nat, values: seq<int>)
    requires |parts| == 5 && k < 5
  {
    && ValidField(values, FieldLimits(k).0, FieldLimits(k).1)
    && forall v :: v in values <==> Lists(FieldOutcomes(parts, k), v)
  }

  /** `p` is the reading of the expression `expr`. */
  ghost predicate Reads(expr: string, p: ParsedCron) {
    var parts := Fields(expr);
    && |parts| == 5
    && IsField(parts, 0, p.minute) && IsField(parts, 1, p.hour) && IsField(parts, 2, p.dayOfMonth)
    && IsField(parts, 3, p.month) && IsField(parts, 4, p.dayOfWeek)
    && p.domWild == (parts[2] == "*") && p.dowWild == (parts[4] == "*")
  }

  method ParseFieldAt(parts: seq<string>, k: nat) returns (r: Result<seq<int>, CronError>)
    requires |parts| == 5 && k < 5
    ensures r.Ok? ==> IsField(parts, k, r.value) && FieldErrorAt(parts, k).None?
    ensures r.Err? ==> FieldErrorAt(parts, k).Some? && r.error == BadField(FieldErrorAt(parts, k).value)
  {
    var f := ParseField(parts[k], FieldLimits(k).0, FieldLimits(k).1);
    match f
    case Ok(values) => r := Ok(values);
    case Err(e) => r := Err(BadField(e));
  }

  method ParseExpression(expr: string) returns (r: Result<ParsedCron, CronError>)
    ensures r.Ok? ==> Reads(expr, r.value) && FirstBadField(Fields(expr)).None?
    ensures r.Err? && |Fields(expr)| != 5 ==> r.error == FieldCount(|Fields(expr)|)
    ensures r.Err? && |Fields(expr)| == 5 ==>
              FirstBadField(Fields(expr)).Some? && r.error == BadField(FirstBadField(Fields(expr)).value)
  {
    var parts := Fields(expr);
    if |parts| != 5 { return Err(FieldCount(|parts|)); }
    var minute :- ParseFieldAt(parts, 0);
    var hour :- ParseFieldAt(parts, 1);
    var dayOfMonth :- ParseFieldAt(parts, 2);
    var month :- ParseFieldAt(parts, 3);
    var dayOfWeek :- ParseFieldAt(parts, 4);
    return Ok(ParsedCron(minute, hour, dayOfMonth, month, dayOfWeek, parts[2] == "*", parts[4] == "*"));
  }

  method ValidateCron(expr: string) returns (r: Option<CronError>)
    ensures r == Refusal(expr)
  {
    if Trim(expr) == "" { return Some(Empty); }
    if Trim(expr)[0] == '@' { return Some(ShorthandNotSupported); }
    var parts := Fields(expr);
    if |parts| != 5 { return Some(FieldCount(|parts|)); }
    if SubFiveMinutePattern(parts) { return Some(MinIntervalRequired); }
    var p := ParseExpression(expr);
    return if p.Err? then Some(p.error) else None;
  }

  /** Parses or refuses; an accepted expression is read field by field. */
  method ParseCron(expr: string) returns (r: Result<ParsedCron, CronError>)
    ensures r.Ok? <==> Refusal(expr).None?
    ensures r.Ok? ==> Reads(expr, r.value) && ValidCron(r.value)
    ensures r.Err? ==> Refusal(expr) == Some(r.error)
  {
    var v := ValidateCron(expr);
    if v.Some? { return Err(v.value); }
    r := ParseExpression(expr);
  }

  // ---- a field is read uniquely ----

  lemma SameEmptiness(a: seq<int>, b: seq<int>)
    requires forall v :: v in a <==> v in b
    ensures a == [] <==> b == []
  {
    if a != [] { var x := a[0]; assert x in a; }
    if b != [] { var x := b[0]; assert x in b; }
  }

  lemma {:induction false} AscendingUnique(a: seq<int>, b: seq<int>)
    requires Ascending(a) && Ascending(b)
    requires forall v :: v in a <==> v in b
    ensures a == b
  {
    SameEmptiness(a, b);
    if a != [] {
      assert a[0] in b && b[0] in a;
      assert a[0] == b[0];
      forall v ensures v in a[1..] <==> v in b[1..] {
        if v in a[1..] { assert v in a && v != a[0]; assert v in b; }
        if v in b[1..] { assert v in b && v != b[0]; assert v in a; }
      }
      AscendingUnique(a[1..], b[1..]);
    }
  }

  /** An expression has one reading. */
  lemma ReadingUnique(expr: string, p: ParsedCron, q: ParsedCron)
    requires Reads(expr, p) && Reads(expr, q)
    ensures p == q
  {
    AscendingUnique(p.minute, q.minute);
    AscendingUnique(p.hour, q.hour);
    AscendingUnique(p.dayOfMonth, q.dayOfMonth);
    AscendingUnique(p.month, q.month);
    AscendingUnique(p.dayOfWeek, q.dayOfWeek);
  }
}

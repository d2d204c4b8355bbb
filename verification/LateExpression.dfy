/** The schedule that breaks the five-minute floor, as the text the gate receives. */
module LateExpression {
  import opened Wrappers
  import opened JsText
  import opened CronParser
  import opened CronNext
  import opened CronGate
  import opened CronFloor

  const LATE_EXPRESSION := "0-40/10,56 */2,23 * * *"

  // ---- splitting ----

  predicate NoSpace(w: string) { forall i :: 0 <= i < |w| ==> !IsSpace(w[i]) }

  lemma {:induction false} WordRun(w: string, rest: string)
    requires NoSpace(w) && (rest == [] || IsSpace(rest[0]))
    ensures SpaceRun(w + rest, false) == |w|
  {
    hide IsSpace;
    if w != [] {
      assert (w + rest)[1..] == w[1..] + rest;
      WordRun(w[1..], rest);
    } else {
      assert w + rest == rest;
    }
  }

  lemma OneSpace(rest: string)
    requires rest != [] && !IsSpace(rest[0])
    ensures SpaceRun([' '] + rest, true) == 1
  {
    assert ([' '] + rest)[1..] == rest;
  }

  lemma WordThenRest(w: string, rest: string)
    requires NoSpace(w) && rest != [] && !IsSpace(rest[0])
    ensures SplitSpaces(w + [' '] + rest) == [w] + SplitSpaces(rest)
  {
    var s := w + [' '] + rest;
    assert s == w + ([' '] + rest);
    WordRun(w, [' '] + rest);
    assert s[|w|..] == [' '] + rest && s[..|w|] == w && s[|w| + 1..] == rest;
    OneSpace(rest);
  }

  lemma LastWord(w: string)
    requires NoSpace(w)
    ensures SplitSpaces(w) == [w]
  {
    assert w + [] == w;
    WordRun(w, []);
  }

  lemma {:induction false} FirstIndex(w: string, c: char, rest: string)
    requires c !in w
    ensures IndexOf(w + [c] + rest, c) == Some(|w|)
  {
    if w == [] {
      assert w + [c] + rest == [c] + rest;
    } else {
      assert (w + [c] + rest)[1..] == w[1..] + [c] + rest;
      FirstIndex(w[1..], c, rest);
    }
  }

  lemma SplitFirst(w: string, c: char, rest: string)
    requires c !in w
    ensures Split(w + [c] + rest, c) == [w] + Split(rest, c)
  {
    var s := w + [c] + rest;
    FirstIndex(w, c, rest);
    assert s[..|w|] == w && s[|w| + 1..] == rest;
  }

  lemma TrimPlain(w: string)
    requires w != [] && !IsSpace(w[0]) && !IsSpace(w[|w| - 1])
    ensures Trim(w) == w && TrimStart(w) == w
  {
  }

  // ---- numbers ----

  lemma {:induction false} Pow2Ascends(a: nat, b: nat)
    requires a <= b
    ensures Pow2(a) <= Pow2(b)
    decreases b
  {
    if a < b { Pow2Ascends(a, b - 1); }
  }

  lemma PowersApart(a: nat, b: nat, n: nat)
    requires b < a && 7 < a && n < 128
    ensures n < Pow2(a) - Pow2(b)
  {
    Pow2Ascends(b, a - 1);
    Pow2Ascends(7, a - 1);
    assert Pow2(7) == 128;
  }

  lemma SmallFits(n: nat)
    requires n < 128
    ensures !Overflows(n)
  {
    hide Pow2;
    PowersApart(1024, 970, n);
  }

  lemma {:induction false} DigitRunAll(s: string)
    requires forall i :: 0 <= i < |s| ==> IsDigit(s[i])
    ensures DigitRun(s) == |s|
  {
    if s != [] { DigitRunAll(s[1..]); }
  }

  function DigitValue(c: char): int
    requires IsDigit(c)
  {
    c as int - '0' as int
  }

  lemma DecimalOne(s: string)
    requires |s| == 1 && IsDigit(s[0])
    ensures Decimal(s) == DigitValue(s[0])
  {
    assert s[..0] == [];
  }

  lemma DecimalTwo(s: string)
    requires |s| == 2 && IsDigit(s[0]) && IsDigit(s[1])
    ensures Decimal(s) == 10 * DigitValue(s[0]) + DigitValue(s[1])
  {
    DecimalOne(s[..1]);
  }

  /** One or two digits read as the number they are. */
  lemma ReadsNumber(s: string)
    requires 1 <= |s| <= 2 && forall i :: 0 <= i < |s| ==> IsDigit(s[i])
    ensures ParseInt(s) ==
            Some(if |s| == 1 then DigitValue(s[0]) else 10 * DigitValue(s[0]) + DigitValue(s[1]))
  {
    DigitRunAll(s);
    if |s| == 1 { DecimalOne(s); } else { DecimalTwo(s); }
    assert TrimStart(s) == s by { assert !IsSpace(s[0]); }
    SmallFits(Decimal(s));
    hide Overflows, Decimal, DigitRun, TrimStart, IsSpace;
    assert s[..|s|] == s;
  }

  // ---- segments ----

  lemma StarSegment(min: int, max: int)
    requires min <= max
    ensures ParseSegment("*", min, max) == Ok(Segment(min, max, 1))
  {
    TrimPlain("*");
    hide IsSpace, Trim;
  }

  lemma NumberSegment(s: string, v: int, min: int, max: int)
    requires 1 <= |s| <= 2 && (forall i :: 0 <= i < |s| ==> IsDigit(s[i])) && ParseInt(s) == Some(v)
    requires min <= v <= max
    ensures ParseSegment(s, min, max) == Ok(Segment(v, v, 1))
  {
    DigitsOnly(s);
    TrimPlain(s);
    hide IsSpace, Trim, ParseInt, IsDigit, IndexOf;
  }

  lemma DigitsOnly(s: string)
    requires 1 <= |s| && forall i :: 0 <= i < |s| ==> IsDigit(s[i])
    ensures '/' !in s && '-' !in s && s != "*" && !IsSpace(s[0]) && !IsSpace(s[|s| - 1])
  {
    assert IsDigit(s[0]) && IsDigit(s[|s| - 1]);
  }

  lemma SlashedText(body: string, step: string)
    requires '/' !in body && body != [] && step != [] && !IsSpace(body[0]) && !IsSpace(step[|step| - 1])
    ensures var s := body + ['/'] + step;
            Trim(s) == s && IndexOf(s, '/') == Some(|body|) && s[..|body|] == body && s[|body| + 1..] == step
  {
    var s := body + ['/'] + step;
    FirstIndex(body, '/', step);
    assert s[0] == body[0] && s[|s| - 1] == step[|step| - 1];
    hide IsSpace, IndexOf;
    TrimPlain(s);
  }

  lemma SteppedSegment(body: string, step: string, lo: int, hi: int, k: int, min: int, max: int)
    requires '/' !in body && body != [] && step != [] && !IsSpace(body[0]) && !IsSpace(step[|step| - 1])
    requires min <= max && ParseBody(body, min, max) == Ok((lo, hi)) && min <= lo && hi <= max
    requires ParseInt(step) == Some(k) && 0 < k
    ensures ParseSegment(body + ['/'] + step, min, max) == Ok(Segment(lo, hi, k))
  {
    hide IsSpace, Trim, ParseInt, IndexOf, ParseBody;
    SlashedText(body, step);
  }

  lemma RangeBody(a: string, b: string, lo: int, hi: int, min: int, max: int)
    requires '-' !in a && '-' !in b && ParseInt(a) == Some(lo) && ParseInt(b) == Some(hi) && lo <= hi
    ensures ParseBody(a + ['-'] + b, min, max) == Ok((lo, hi))
  {
    SplitFirst(a, '-', b);
    assert Split(b, '-') == [b];
    hide ParseInt, Split;
    var body := a + ['-'] + b;
    assert body[|a|] == '-';
    assert body != "*";
  }

  // ---- what the fields list ----

  lemma {:induction false} OnStepIs(d: int, step: int)
    requires step in {1, 2, 10}
    ensures OnStep(d, step) <==> 0 <= d && d % step == 0
    decreases d
  {
    if step <= d { OnStepIs(d - step, step); }
  }

  lemma TwoParts(a: string, b: string, raw: string, g: Segment, h: Segment, min: int, max: int)
    requires min <= max && ',' !in a && ',' !in b && raw == a + [','] + b
    requires ParseSegment(a, min, max) == Ok(g) && ParseSegment(b, min, max) == Ok(h)
    ensures Outcomes(raw, min, max) == [Ok(g), Ok(h)] && FirstError(Outcomes(raw, min, max)).None?
    ensures forall v :: Lists(Outcomes(raw, min, max), v) <==> Denotes(g, v) || Denotes(h, v)
  {
    hide ParseSegment, Split, Denotes;
    SplitFirst(a, ',', b);
    OnePartText(b);
    var os := Outcomes(raw, min, max);
    assert os == [Ok(g), Ok(h)];
    assert os[0] == Ok(g) && os[1] == Ok(h);
  }

  lemma OnePartText(b: string)
    requires ',' !in b
    ensures Split(b, ',') == [b]
  {
  }

  lemma StarField(min: int, max: int)
    requires min <= max
    ensures Outcomes("*", min, max) == [Ok(Segment(min, max, 1))] && FirstError(Outcomes("*", min, max)).None?
    ensures forall v :: Lists(Outcomes("*", min, max), v) <==> min <= v <= max
  {
    StarSegment(min, max);
    OnePartText("*");
    hide ParseSegment, Split, OnStep;
    var os := Outcomes("*", min, max);
    assert os == [Ok(Segment(min, max, 1))];
    forall v ensures Lists(os, v) <==> min <= v <= max {
      OnStepIs(v - min, 1);
      assert os[0] == Ok(Segment(min, max, 1));
    }
  }

  lemma MinuteNumbers()
    ensures ParseInt("0") == Some(0) && ParseInt("40") == Some(40)
    ensures ParseInt("10") == Some(10) && ParseInt("56") == Some(56)
  {
    hide ParseInt;
    ReadsNumber("0");
    ReadsNumber("40");
    ReadsNumber("10");
    ReadsNumber("56");
  }

  lemma HourNumbers()
    ensures ParseInt("2") == Some(2) && ParseInt("23") == Some(23)
  {
    hide ParseInt;
    ReadsNumber("2");
    ReadsNumber("23");
  }

  lemma MinuteStep()
    ensures ParseSegment("0-40/10", 0, 59) == Ok(Segment(0, 40, 10))
  {
    hide ParseInt, ParseBody, ParseSegment;
    MinuteNumbers();
    assert "0" + ['-'] + "40" == "0-40";
    RangeBody("0", "40", 0, 40, 0, 59);
    assert "0-40" + ['/'] + "10" == "0-40/10";
    SteppedSegment("0-40", "10", 0, 40, 10, 0, 59);
  }

  lemma MinuteSingle()
    ensures ParseSegment("56", 0, 59) == Ok(Segment(56, 56, 1))
  {
    hide ParseInt, ParseSegment;
    MinuteNumbers();
    NumberSegment("56", 56, 0, 59);
  }

  lemma MinuteParts()
    ensures var os := Outcomes("0-40/10,56", 0, 59);
            && FirstError(os).None?
            && forall v :: Lists(os, v) <==> Denotes(Segment(0, 40, 10), v) || Denotes(Segment(56, 56, 1), v)
  {
    hide ParseSegment, Outcomes, Lists, FirstError, Denotes;
    MinuteStep();
    MinuteSingle();
    assert "0-40/10" + [','] + "56" == "0-40/10,56";
    TwoParts("0-40/10", "56", "0-40/10,56", Segment(0, 40, 10), Segment(56, 56, 1), 0, 59);
  }

  lemma LateMinuteListed(v: int)
    ensures v in LATE_MINUTES <==> Denotes(Segment(0, 40, 10), v) || Denotes(Segment(56, 56, 1), v)
  {
    hide OnStep;
    OnStepIs(v, 10);
    OnStepIs(v - 56, 1);
  }

  lemma MinuteField()
    ensures var os := Outcomes("0-40/10,56", 0, 59);
            FirstError(os).None? && forall v :: v in LATE_MINUTES <==> Lists(os, v)
  {
    hide Outcomes, Lists, FirstError, Denotes;
    MinuteParts();
    forall v { LateMinuteListed(v); }
  }

  lemma HourStep()
    ensures ParseSegment("*/2", 0, 23) == Ok(Segment(0, 23, 2))
  {
    hide ParseInt, ParseSegment;
    HourNumbers();
    assert "*" + ['/'] + "2" == "*/2";
    SteppedSegment("*", "2", 0, 23, 2, 0, 23);
  }

  lemma HourSingle()
    ensures ParseSegment("23", 0, 23) == Ok(Segment(23, 23, 1))
  {
    hide ParseInt, ParseSegment;
    HourNumbers();
    NumberSegment("23", 23, 0, 23);
  }

  lemma HourParts()
    ensures var os := Outcomes("*/2,23", 0, 23);
            && FirstError(os).None?
            && forall v :: Lists(os, v) <==> Denotes(Segment(0, 23, 2), v) || Denotes(Segment(23, 23, 1), v)
  {
    hide ParseSegment, Outcomes, Lists, FirstError, Denotes;
    HourStep();
    HourSingle();
    assert "*/2" + [','] + "23" == "*/2,23";
    TwoParts("*/2", "23", "*/2,23", Segment(0, 23, 2), Segment(23, 23, 1), 0, 23);
  }

  lemma LateHourDenoted(v: int)
    ensures v in LATE_HOURS <==> Denotes(Segment(0, 23, 2), v) || Denotes(Segment(23, 23, 1), v)
  {
    hide OnStep;
    OnStepIs(v, 2);
    OnStepIs(v - 23, 1);
    if 0 <= v < 24 {
      LateHourListed(v);
    } else if v in LATE_HOURS {
      LateHoursInDay(v);
    }
  }

  lemma HourField()
    ensures var os := Outcomes("*/2,23", 0, 23);
            FirstError(os).None? && forall v :: v in LATE_HOURS <==> Lists(os, v)
  {
    hide Outcomes, Lists, FirstError, Denotes;
    HourParts();
    forall v { LateHourDenoted(v); }
  }

  lemma LateHourListed(v: int)
    requires 0 <= v < 24
    ensures v in LATE_HOURS <==> v % 2 == 0 || v == 23
  {
    InLateHours(v);
  }

  lemma LateHoursInDay(v: int)
    requires v in LATE_HOURS
    ensures 0 <= v < 24
  {
    var hours: seq<int> := LATE_HOURS;
    var i :| 0 <= i < |hours| && hours[i] == v;
    LateHourAt(i);
  }

  // ---- the expression ----

  lemma StarsOnly()
    ensures SplitSpaces("* * *") == ["*", "*", "*"]
  {
    hide SplitSpaces;
    LastWord("*");
    assert "*" + [' '] + "*" == "* *";
    WordThenRest("*", "*");
    assert "*" + [' '] + "* *" == "* * *";
    WordThenRest("*", "* *");
  }

  lemma HourOnwards()
    ensures SplitSpaces("*/2,23 * * *") == ["*/2,23", "*", "*", "*"]
  {
    hide SplitSpaces;
    StarsOnly();
    assert "*/2,23" + [' '] + "* * *" == "*/2,23 * * *";
    WordThenRest("*/2,23", "* * *");
  }

  lemma LateTrims()
    ensures Trim(LATE_EXPRESSION) == LATE_EXPRESSION
  {
    hide Trim, TrimStart;
    TrimPlain(LATE_EXPRESSION);
  }

  lemma FirstWord()
    ensures SplitSpaces(LATE_EXPRESSION) == ["0-40/10,56"] + SplitSpaces("*/2,23 * * *")
  {
    hide SplitSpaces;
    assert "0-40/10,56" + [' '] + "*/2,23 * * *" == LATE_EXPRESSION;
    WordThenRest("0-40/10,56", "*/2,23 * * *");
  }

  lemma LateFields()
    ensures Fields(LATE_EXPRESSION) == ["0-40/10,56", "*/2,23", "*", "*", "*"]
  {
    hide SplitSpaces, Trim, IsSpace;
    LateTrims();
    HourOnwards();
    FirstWord();
  }

  lemma StarIsField(parts: seq<string>, k: nat, lo: int, n: nat)
    requires |parts| == 5 && k < 5 && parts[k] == "*" && 0 < n && FieldLimits(k) == (lo, lo + n - 1)
    ensures IsField(parts, k, UpTo(lo, n)) && FieldErrorAt(parts, k).None?
  {
    hide Outcomes, Lists, FirstError;
    StarField(lo, lo + n - 1);
  }

  /** The expression is valid and reads as the schedule that breaks the floor. */
  lemma LateReads()
    ensures Refusal(LATE_EXPRESSION).None? && Reads(LATE_EXPRESSION, LATE)
  {
    hide Outcomes, Lists, FirstError, Fields, Trim, UpTo;
    var parts := ["0-40/10,56", "*/2,23", "*", "*", "*"];
    LateFields();
    LateTrims();
    MinuteField();
    HourField();
    StarIsField(parts, 2, 1, 31);
    StarIsField(parts, 3, 1, 12);
    StarIsField(parts, 4, 0, 7);
    LateIsValid();
  }

  /** The gate lets the expression through, and the schedule it reads as fires twice within five minutes. */
  lemma AcceptedExpressionBreaksFloor()
    ensures Refusal(LATE_EXPRESSION).None?
    ensures forall p :: Reads(LATE_EXPRESSION, p) && ValidCron(p) ==> Accepted(p) && !FloorHolds(p)
    ensures Reads(LATE_EXPRESSION, LATE) && ValidCron(LATE)
  {
    hide Reads, Refusal, Accepted, ValidCron, FloorHolds;
    LateReads();
    AcceptedBreaksFloor();
    forall p | Reads(LATE_EXPRESSION, p) && ValidCron(p) ensures p == LATE {
      ReadingUnique(LATE_EXPRESSION, p, LATE);
    }
  }
}

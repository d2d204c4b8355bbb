/** Expressions as texts: every schedule can be written down and is read back, and what the two textual patterns refuse
    breaks the floor they stand for. */
module CronText {
  import opened Wrappers
  import opened JsText
  import opened Calendar
  import opened CronParser
  import opened CronNext
  import opened CronFloor
  import opened LateExpression

  // ---- numbers ----

  function Digit(n: nat): char
    requires n < 10
  {
    ('0' as int + n) as char
  }

  /** The decimal digits of `n`. */
  function Show(n: nat): string { if n < 10 then [Digit(n)] else Show(n / 10) + [Digit(n % 10)] }

  predicate AllDigits(s: string) { forall i :: 0 <= i < |s| ==> IsDigit(s[i]) }

  lemma {:induction false} ShowIs(n: nat)
    ensures Show(n) != [] && AllDigits(Show(n)) && Decimal(Show(n)) == n
  {
    if n < 10 {
      DecimalOne(Show(n));
    } else {
      ShowIs(n / 10);
      var s := Show(n);
      assert s[..|s| - 1] == Show(n / 10);
    }
  }

  lemma ShowReads(n: nat)
    requires !Overflows(n)
    ensures ParseInt(Show(n)) == Some(n)
  {
    hide Overflows;
    ShowIs(n);
    var s := Show(n);
    DigitRunAll(s);
    assert TrimStart(s) == s by { assert IsDigit(s[0]) && !IsSpace(s[0]); }
    hide Decimal, DigitRun, TrimStart, IsSpace, Show;
    assert s[..|s|] == s && IsDigit(s[0]);
  }

  // ---- one field ----

  function Texts(values: seq<int>): (r: seq<string>)
    requires forall v :: v in values ==> 0 <= v
    ensures |r| == |values|
  {
    seq(|values|, i requires 0 <= i < |values| => assert values[i] in values; Show(values[i]))
  }

  function WriteField(values: seq<int>): string
    requires values != [] && forall v :: v in values ==> 0 <= v
  {
    Join(Texts(values), ',')
  }

  /** Joining what holds no separator is undone by splitting. */
  lemma {:induction false} SplitJoin(parts: seq<string>, sep: char)
    requires parts != [] && forall i :: 0 <= i < |parts| ==> sep !in parts[i]
    ensures Split(Join(parts, sep), sep) == parts
  {
    hide Split, IndexOf;
    if |parts| == 1 {
      SplitNone(parts[0], sep);
    } else {
      SplitJoin(parts[1..], sep);
      SplitFirst(parts[0], sep, Join(parts[1..], sep));
    }
  }

  lemma SplitNone(s: string, sep: char)
    requires sep !in s
    ensures Split(s, sep) == [s]
  {
  }

  lemma DigitsHold(s: string)
    requires AllDigits(s)
    ensures ',' !in s && '-' !in s && '/' !in s && NoSpace(s)
  {
  }

  lemma ValueSegment(v: int, min: int, max: int)
    requires 0 <= min <= v <= max < 128
    ensures ParseSegment(Show(v), min, max) == Ok(Segment(v, v, 1))
  {
    hide Show, ParseInt, Overflows, Trim, IndexOf, IsSpace;
    ShowIs(v);
    SmallFits(v);
    ShowReads(v);
    DigitsOnly(Show(v));
    TrimPlain(Show(v));
  }

  lemma SingleDenotes(x: int, v: int)
    ensures Denotes(Segment(x, x, 1), v) <==> v == x
  {
    OnStepIs(v - x, 1);
  }

  /** A written field lists exactly its values. */
  lemma FieldReads(values: seq<int>, min: int, max: int)
    requires ValidField(values, min, max) && 0 <= min <= max < 128
    ensures FirstError(Outcomes(WriteField(values), min, max)).None?
    ensures forall v :: v in values <==> Lists(Outcomes(WriteField(values), min, max), v)
  {
    hide Show, ParseSegment, Split, Join, OnStep;
    var os := Outcomes(WriteField(values), min, max);
    forall i | 0 <= i < |values| ensures ',' !in Texts(values)[i] && values[i] in values {
      assert values[i] in values;
      ShowIs(values[i]);
      DigitsHold(Show(values[i]));
    }
    SplitJoin(Texts(values), ',');
    forall i | 0 <= i < |values| ensures os[i] == Ok(Segment(values[i], values[i], 1)) {
      assert values[i] in values;
      ValueSegment(values[i], min, max);
    }
    forall v ensures v in values <==> Lists(os, v) {
      forall i | 0 <= i < |values| ensures Denotes(os[i].value, v) <==> v == values[i] {
        SingleDenotes(values[i], v);
      }
      if v in values {
        var i :| 0 <= i < |values| && values[i] == v;
        assert os[i].Ok? && 0 < os[i].value.step && Denotes(os[i].value, v);
      }
    }
  }

  // ---- the whole expression ----

  predicate Full(values: seq<int>, min: int, max: int) { forall v :: min <= v <= max ==> v in values }

  /** A schedule whose wildcards stand for all days, as every reading's do. */
  predicate Writable(p: ParsedCron) {
    ValidCron(p) && (p.domWild ==> Full(p.dayOfMonth, 1, 31)) && (p.dowWild ==> Full(p.dayOfWeek, 0, 6))
  }

  /** The five texts of a schedule. */
  function Words(p: ParsedCron): (r: seq<string>)
    requires ValidCron(p)
    ensures |r| == 5
  {
    [WriteField(p.minute), WriteField(p.hour), if p.domWild then "*" else WriteField(p.dayOfMonth),
     WriteField(p.month), if p.dowWild then "*" else WriteField(p.dayOfWeek)]
  }

  function Write(p: ParsedCron): string
    requires ValidCron(p)
  {
    Join(Words(p), ' ')
  }

  predicate Word(w: string) { w != [] && NoSpace(w) }

  lemma {:induction false} JoinedDigits(parts: seq<string>)
    requires parts != [] && forall i :: 0 <= i < |parts| ==> parts[i] != [] && AllDigits(parts[i])
    ensures Word(Join(parts, ',')) && Join(parts, ',')[0] != '*' && Join(parts, ',')[0] != '@'
  {
    if 1 < |parts| { JoinedDigits(parts[1..]); }
    DigitsHold(parts[0]);
    assert IsDigit(parts[0][0]);
  }

  lemma FieldIsWord(values: seq<int>)
    requires values != [] && forall v :: v in values ==> 0 <= v
    ensures Word(WriteField(values)) && WriteField(values)[0] != '*' && WriteField(values)[0] != '@'
  {
    hide Show, Join;
    forall i | 0 <= i < |values| ensures Texts(values)[i] != [] && AllDigits(Texts(values)[i]) {
      assert values[i] in values;
      ShowIs(values[i]);
    }
    JoinedDigits(Texts(values));
  }

  lemma {:induction false} SplitWords(parts: seq<string>)
    requires parts != [] && Word(parts[0]) && forall i :: 0 <= i < |parts| ==> Word(parts[i])
    ensures SplitSpaces(Join(parts, ' ')) == parts
    ensures var s := Join(parts, ' '); s != [] && s[0] == parts[0][0] && !IsSpace(s[0]) && !IsSpace(s[|s| - 1])
  {
    hide SplitSpaces, IsSpace;
    if |parts| == 1 {
      LastWord(parts[0]);
    } else {
      SplitWords(parts[1..]);
      WordThenRest(parts[0], Join(parts[1..], ' '));
      assert parts == [parts[0]] + parts[1..];
    }
  }

  lemma WordsAre(p: ParsedCron)
    requires ValidCron(p)
    ensures forall i :: 0 <= i < 5 ==> Word(Words(p)[i])
    ensures Words(p)[0][0] != '*' && Words(p)[0][0] != '@'
  {
    hide WriteField;
    FieldIsWord(p.minute);
    FieldIsWord(p.hour);
    FieldIsWord(p.dayOfMonth);
    FieldIsWord(p.month);
    FieldIsWord(p.dayOfWeek);
  }

  lemma WrittenFields(p: ParsedCron)
    requires ValidCron(p)
    ensures Fields(Write(p)) == Words(p) && Trim(Write(p)) == Write(p) && Write(p) != [] && Write(p)[0] != '@'
  {
    hide SplitSpaces, IsSpace, Trim, Join, Words;
    WordsAre(p);
    SplitWords(Words(p));
    TrimPlain(Write(p));
  }

  /** Field `k` of the expression is read back. */
  lemma FieldIs(parts: seq<string>, k: nat, values: seq<int>)
    requires |parts| == 5 && k < 5 && ValidField(values, FieldLimits(k).0, FieldLimits(k).1)
    requires parts[k] == WriteField(values) || (parts[k] == "*" && Full(values, FieldLimits(k).0, FieldLimits(k).1))
    ensures IsField(parts, k, values) && FieldErrorAt(parts, k).None?
  {
    hide Outcomes, Lists, FirstError, WriteField;
    var (min, max) := FieldLimits(k);
    if parts[k] == "*" && Full(values, min, max) {
      StarField(min, max);
    } else {
      FieldReads(values, min, max);
    }
  }

  /** Every schedule can be written as an expression that is accepted by the parser and read back as that schedule and
      no other. */
  lemma WrittenIsRead(p: ParsedCron)
    requires Writable(p)
    ensures Refusal(Write(p)).None? && Reads(Write(p), p)
    ensures forall q :: Reads(Write(p), q) ==> q == p
  {
    hide WriteField, Write, Fields, Trim, IsField, FieldErrorAt, SubFiveMinutePattern;
    WrittenFields(p);
    WordsAre(p);
    WildIsStar(p);
    NoPattern(Words(p));
    FieldIs(Words(p), 0, p.minute);
    FieldIs(Words(p), 1, p.hour);
    FieldIs(Words(p), 2, p.dayOfMonth);
    FieldIs(Words(p), 3, p.month);
    FieldIs(Words(p), 4, p.dayOfWeek);
    hide Words;
    forall q | Reads(Write(p), q) ensures q == p { ReadingUnique(Write(p), p, q); }
  }

  /** What is read from an expression can be written, and reads the same again. */
  lemma ReadIsWritable(expr: string, p: ParsedCron)
    requires Reads(expr, p) && ValidCron(p)
    ensures Writable(p) && Reads(Write(p), p)
  {
    hide Outcomes, Lists, Fields, Write, WriteField;
    StarField(1, 31);
    StarField(0, 6);
    WrittenIsRead(p);
  }

  lemma WildIsStar(p: ParsedCron)
    requires ValidCron(p)
    ensures p.domWild == (Words(p)[2] == "*") && p.dowWild == (Words(p)[4] == "*")
  {
    hide WriteField;
    FieldIsWord(p.dayOfMonth);
    FieldIsWord(p.dayOfWeek);
  }

  lemma NoPattern(parts: seq<string>)
    requires |parts| == 5 && parts[0] != [] && parts[0][0] != '*'
    ensures !SubFiveMinutePattern(parts)
  {
  }

  // ---- the refused patterns ----

  lemma StepsListed(k: int)
    requires 1 <= k <= 4
    ensures var os := Outcomes("*/" + Show(k), 0, 59); Lists(os, 0) && Lists(os, k)
  {
    hide Show, ParseInt, ParseSegment, Split, Overflows, OnStep;
    ShowIs(k);
    SmallFits(k);
    ShowReads(k);
    DigitsOnly(Show(k));
    assert "*" + ['/'] + Show(k) == "*/" + Show(k);
    SteppedSegment("*", Show(k), 0, 59, k, 0, 59);
    DigitsHold(Show(k));
    SplitNone("*/" + Show(k), ',');
    var os := Outcomes("*/" + Show(k), 0, 59);
    assert os == [Ok(Segment(0, 59, k))];
    StepTwice(k);
    assert os[0].Ok? && 0 < os[0].value.step && Denotes(os[0].value, 0) && Denotes(os[0].value, k);
  }

  lemma StepTwice(k: int)
    requires 1 <= k <= 4
    ensures OnStep(0, k) && OnStep(k, k)
  {
  }

  /** The step of a refused minute field; `*` and a step of one mean the same. */
  function StepOf(minute: string): int
    requires minute in {"*", "*/1", "*/2", "*/3", "*/4"}
  {
    if minute == "*" || minute == "*/1" then 1
    else if minute == "*/2" then 2 else if minute == "*/3" then 3 else 4
  }

  lemma PatternMinutes(minute: string)
    requires minute in {"*", "*/1", "*/2", "*/3", "*/4"}
    ensures var os := Outcomes(minute, 0, 59); Lists(os, 0) && Lists(os, StepOf(minute))
  {
    hide Outcomes, Lists;
    if minute == "*" {
      StarField(0, 59);
    } else {
      assert Show(1) == "1" && Show(2) == "2" && Show(3) == "3" && Show(4) == "4";
      assert "*/" + Show(StepOf(minute)) == minute;
      StepsListed(StepOf(minute));
    }
  }

  /** What is refused for its text alone fires twice within five minutes: the patterns refuse no schedule that keeps
      the floor. */
  lemma PatternBreaksFloor(expr: string, p: ParsedCron)
    requires Reads(expr, p) && ValidCron(p) && SubFiveMinutePattern(Fields(expr))
    ensures !FloorHolds(p)
  {
    hide Outcomes, Lists, Fields, FiresAt, CivilOf;
    var parts := Fields(expr);
    PatternMinutes(parts[0]);
    StarField(0, 23);
    StarField(1, 12);
    var k := StepOf(parts[0]);
    assert 0 in p.minute && k in p.minute && 0 in p.hour && 1 in p.month && p.domWild && p.dowWild;
    FiresAtCivil(p, Civil(1970, 1, 1, 0, 0));
    FiresAtCivil(p, Civil(1970, 1, 1, 0, k));
    EpochMinutes(k);
    assert FiresAt(p, 0) && FiresAt(p, k);
  }

  lemma EpochMinutes(k: int)
    requires 0 <= k < 60
    ensures MinuteOf(Civil(1970, 1, 1, 0, k)) == k
  {
  }
}

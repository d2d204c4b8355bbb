/** Extension grants, their intersection and their capabilities: `intersectPermissions` and
    `grantsToCapabilitySet` of src/extensions/capability-types.ts. */
module Permissions {
  import opened Wrappers
  import opened Capability

  datatype SpawnAgents = SpawnAgents(maxPerHour: int, maxConcurrent: Option<int>)

  datatype Access = Read | Write
  datatype Visibility = User | Project
  datatype MissedRunPolicy = Skip | FireOnce | FireAll

  datatype Llm = Llm(
    providers: seq<string>, maxCallsPerHour: int, maxCallsPerDay: int,
    maxTokensPerCall: Option<int>, maxTokensPerDay: Option<int>, maxTimeoutMs: Option<int>,
    allowedModels: Option<map<string, seq<string>>>, maxCostCentsPerDay: Option<int>)

  datatype Memory = Memory(access: Access, maxWritesPerDay: int, categories: Option<seq<string>>, selfOnly: bool)

  datatype Lessons = Lessons(access: Access, maxWritesPerDay: int, maxVisibility: Visibility)

  datatype Schedule = Schedule(
    crons: seq<string>, maxRunsPerDay: int, maxRunDurationMs: int, missedRunPolicy: MissedRunPolicy, maxRetries: int)

  /** `drafts` is the list of kinds; `other` holds the unregistered keys. */
  datatype Custom = Custom(drafts: Option<seq<string>>, other: map<string, string>)

  /** A grant. Absent fields are None; `agentConfig` and `appendMessages` hold their single payload. */
  datatype Grant = Grant(
    network: Option<seq<string>>, filesystem: Option<seq<string>>, shell: Option<bool>, env: Option<seq<string>>,
    storage: Option<bool>, taskEvents: Option<bool>, spawnAgents: Option<SpawnAgents>, agentConfig: Option<Access>,
    eventSubscriptions: Option<seq<string>>, appendMessages: Option<bool>,
    acceptsCallerCaps: Option<bool>, escalateChildCaps: Option<bool>,
    llm: Option<Llm>, memory: Option<Memory>, lessons: Option<Lessons>, schedule: Option<Schedule>,
    custom: Option<Custom>, grantedAt: map<string, int>)

  const NOTHING := Grant(None, None, None, None, None, None, None, None, None, None, None, None,
                         None, None, None, None, None, map[])

  // ---- lists ----

  function LowerChar(c: char): char { if 'A' <= c <= 'Z' then c + ('a' - 'A') else c }

  /** `toLowerCase`, on the ASCII letters host names are made of. */
  function Lower(s: string): (r: string)
    ensures |r| == |s| && forall i :: 0 <= i < |s| ==> r[i] == LowerChar(s[i])
  {
    seq(|s|, i requires 0 <= i < |s| => LowerChar(s[i]))
  }

  function LowerAll(xs: seq<string>): (r: seq<string>)
    ensures |r| == |xs| && forall i :: 0 <= i < |xs| ==> r[i] == Lower(xs[i])
  {
    seq(|xs|, i requires 0 <= i < |xs| => Lower(xs[i]))
  }

  lemma LowerTwice(s: string)
    ensures Lower(Lower(s)) == Lower(s)
  {
  }

  /** Two texts have one lower-case form exactly if they differ at most in the case of ASCII letters. */
  lemma SameLowerIff(s: string, t: string)
    ensures Lower(s) == Lower(t) <==>
            |s| == |t| && forall i :: 0 <= i < |s| ==>
              || s[i] == t[i]
              || ('A' <= s[i] <= 'Z' && t[i] as int == s[i] as int + 32)
              || ('A' <= t[i] <= 'Z' && s[i] as int == t[i] as int + 32)
  {
    if |s| == |t| {
      forall i | 0 <= i < |s|
        ensures Lower(s)[i] == Lower(t)[i] <==>
                || s[i] == t[i]
                || ('A' <= s[i] <= 'Z' && t[i] as int == s[i] as int + 32)
                || ('A' <= t[i] <= 'Z' && s[i] as int == t[i] as int + 32)
      {
      }
    }
  }

  /** Elements of `a` that are in `b`, first occurrences only, in the order of `a`. */
  function CommonOf(a: seq<string>, b: seq<string>): (r: seq<string>)
    ensures forall x :: x in r <==> x in a && x in b
  {
    if a == [] then []
    else
      var init, last := CommonOf(a[..|a| - 1], b), a[|a| - 1];
      assert forall x :: x in a <==> x in a[..|a| - 1] || x == last;
      if last in b && last !in init then init + [last] else init
  }

  /** `a.filter((x) => b.includes(x))`. */
  function FilterIn(a: seq<string>, b: seq<string>): (r: seq<string>)
    ensures forall x :: x in r <==> x in a && x in b
  {
    if a == [] then []
    else
      var init, last := FilterIn(a[..|a| - 1], b), a[|a| - 1];
      assert forall x :: x in a <==> x in a[..|a| - 1] || x == last;
      if last in b then init + [last] else init
  }

  function AddOnce(s: seq<string>, x: string): (r: seq<string>)
    ensures forall y :: y in r <==> y in s || y == x
  {
    if x in s then s else s + [x]
  }

  /** What the pair (pa, pb) adds to the survivors: the narrower of two nested paths. */
  function Narrower(pa: string, pb: string): Option<string> {
    if PathCovers(pa, pb) then Some(pb) else if PathCovers(pb, pa) then Some(pa) else None
  }

  function SurvivorsOf(pa: string, b: seq<string>, init: seq<string>): (r: seq<string>)
    ensures forall x :: x in r <==> x in init || exists pb :: pb in b && Narrower(pa, pb) == Some(x)
  {
    if b == [] then init
    else
      var rest, last := SurvivorsOf(pa, b[..|b| - 1], init), b[|b| - 1];
      assert forall x :: x in b <==> x in b[..|b| - 1] || x == last;
      match Narrower(pa, last)
      case Some(x) => AddOnce(rest, x)
      case None => rest
  }

  /** The path-prefix intersection of two lists. */
  function Survivors(a: seq<string>, b: seq<string>): (r: seq<string>)
    ensures forall x :: x in r <==> exists pa, pb :: pa in a && pb in b && Narrower(pa, pb) == Some(x)
  {
    if a == [] then []
    else
      var rest, last := Survivors(a[..|a| - 1], b), a[|a| - 1];
      assert forall x :: x in a <==> x in a[..|a| - 1] || x == last;
      SurvivorsOf(last, b, rest)
  }

  // ---- the intersection ----

  function Min(a: int, b: int): int { if a <= b then a else b }

  function MinOption(a: Option<int>, b: Option<int>): Option<int> {
    if a.Some? && b.Some? then Some(Min(a.value, b.value)) else if a.Some? then a else b
  }

  function NonEmpty(s: seq<string>): Option<seq<string>> { if s == [] then None else Some(s) }

  function Both(a: Option<bool>, b: Option<bool>): Option<bool> {
    if a == Some(true) && b == Some(true) then Some(true) else None
  }

  function Common(a: Option<seq<string>>, b: Option<seq<string>>): Option<seq<string>> {
    if a.Some? && b.Some? then NonEmpty(CommonOf(a.value, b.value)) else None
  }

  function CommonHosts(a: Option<seq<string>>, b: Option<seq<string>>): Option<seq<string>> {
    if a.Some? && b.Some? then NonEmpty(CommonOf(LowerAll(a.value), LowerAll(b.value))) else None
  }

  function CommonPaths(a: Option<seq<string>>, b: Option<seq<string>>): Option<seq<string>> {
    if a.Some? && b.Some? then NonEmpty(Survivors(a.value, b.value)) else None
  }

  function TighterSpawn(a: Option<SpawnAgents>, b: Option<SpawnAgents>): Option<SpawnAgents> {
    if a.Some? && b.Some? && 0 < Min(a.value.maxPerHour, b.value.maxPerHour)
    then Some(SpawnAgents(Min(a.value.maxPerHour, b.value.maxPerHour),
                          MinOption(a.value.maxConcurrent, b.value.maxConcurrent)))
    else None
  }

  function NarrowerAccess(a: Access, b: Access): Access { if a.Write? && b.Write? then Write else Read }

  function PolicyRank(p: MissedRunPolicy): int {
    match p
    case Skip => 0
    case FireOnce => 1
    case FireAll => 2
  }

  /** `skip` before `fire-once` before `fire-all`. */
  function TighterMissedRunPolicy(a: MissedRunPolicy, b: MissedRunPolicy): MissedRunPolicy {
    if PolicyRank(a) <= PolicyRank(b) then a else b
  }

  function AllowedBoth(a: map<string, seq<string>>, b: map<string, seq<string>>): map<string, seq<string>> {
    map p | p in a && p in b && FilterIn(a[p], b[p]) != [] :: FilterIn(a[p], b[p])
  }

  function IntersectAllowedModels(a: Option<map<string, seq<string>>>, b: Option<map<string, seq<string>>>)
    : Option<map<string, seq<string>>>
  {
    if a.Some? && b.Some? then Some(AllowedBoth(a.value, b.value)) else if a.Some? then a else b
  }

  /** The daily token, timeout and cost ceilings are not carried over. */
  function IntersectLlm(a: Llm, b: Llm): Llm {
    Llm(FilterIn(b.providers, a.providers),
        Min(a.maxCallsPerHour, b.maxCallsPerHour), Min(a.maxCallsPerDay, b.maxCallsPerDay),
        MinOption(a.maxTokensPerCall, b.maxTokensPerCall), None, None,
        IntersectAllowedModels(a.allowedModels, b.allowedModels), None)
  }

  function IntersectMemory(a: Memory, b: Memory): Memory {
    Memory(NarrowerAccess(a.access, b.access), Min(a.maxWritesPerDay, b.maxWritesPerDay),
           if a.categories.Some? && b.categories.Some? then Some(FilterIn(a.categories.value, b.categories.value))
           else if a.categories.Some? then a.categories else b.categories,
           a.selfOnly || b.selfOnly)
  }

  function IntersectLessons(a: Lessons, b: Lessons): Lessons {
    Lessons(NarrowerAccess(a.access, b.access), Min(a.maxWritesPerDay, b.maxWritesPerDay),
            if a.maxVisibility.Project? && b.maxVisibility.Project? then Project else User)
  }

  function IntersectSchedule(a: Schedule, b: Schedule): Schedule {
    Schedule(FilterIn(a.crons, b.crons), Min(a.maxRunsPerDay, b.maxRunsPerDay),
             Min(a.maxRunDurationMs, b.maxRunDurationMs),
             TighterMissedRunPolicy(a.missedRunPolicy, b.missedRunPolicy), Min(a.maxRetries, b.maxRetries))
  }

  function IntersectCustom(a: Option<Custom>, b: Option<Custom>): Option<Custom> {
    if a.Some? && b.Some? && a.value.drafts.Some? && b.value.drafts.Some?
       && FilterIn(b.value.drafts.value, a.value.drafts.value) != []
    then Some(Custom(Some(FilterIn(b.value.drafts.value, a.value.drafts.value)), map[]))
    else None
  }

  function ReadBoth(a: Option<Access>, b: Option<Access>): Option<Access> {
    if a == Some(Read) && b == Some(Read) then Some(Read) else None
  }

  /** Either side excluding by default excludes. */
  function ExcludeEither(a: Option<bool>, b: Option<bool>): Option<bool> {
    if a.Some? && b.Some? then Some(a.value || b.value) else None
  }

  function LlmBoth(a: Option<Llm>, b: Option<Llm>): Option<Llm> {
    if a.Some? && b.Some? then Some(IntersectLlm(a.value, b.value)) else None
  }

  function MemoryBoth(a: Option<Memory>, b: Option<Memory>): Option<Memory> {
    if a.Some? && b.Some? then Some(IntersectMemory(a.value, b.value)) else None
  }

  function LessonsBoth(a: Option<Lessons>, b: Option<Lessons>): Option<Lessons> {
    if a.Some? && b.Some? then Some(IntersectLessons(a.value, b.value)) else None
  }

  function ScheduleBoth(a: Option<Schedule>, b: Option<Schedule>): Option<Schedule> {
    if a.Some? && b.Some? then Some(IntersectSchedule(a.value, b.value)) else None
  }

  /** The fields computed without a loop. */
  function IntersectScalars(a: Grant, b: Grant): Grant {
    Grant(
      None, None, Both(a.shell, b.shell), None, Both(a.storage, b.storage), Both(a.taskEvents, b.taskEvents),
      TighterSpawn(a.spawnAgents, b.spawnAgents), ReadBoth(a.agentConfig, b.agentConfig), None,
      ExcludeEither(a.appendMessages, b.appendMessages), None, None,
      LlmBoth(a.llm, b.llm), MemoryBoth(a.memory, b.memory), LessonsBoth(a.lessons, b.lessons),
      ScheduleBoth(a.schedule, b.schedule), IntersectCustom(a.custom, b.custom), map[])
  }

  /** Every field but the timestamps. */
  function IntersectFields(a: Grant, b: Grant): Grant {
    IntersectScalars(a, b).(
      network := CommonHosts(a.network, b.network),
      filesystem := CommonPaths(a.filesystem, b.filesystem),
      env := Common(a.env, b.env),
      eventSubscriptions := Common(a.eventSubscriptions, b.eventSubscriptions))
  }

  /** The permission named `key` is present after intersection. */
  predicate Survived(out: Grant, key: string) {
    match key
    case "network" => out.network.Some?
    case "filesystem" => out.filesystem.Some?
    case "shell" => out.shell.Some?
    case "env" => out.env.Some?
    case "storage" => out.storage.Some?
    case "taskEvents" => out.taskEvents.Some?
    case "agentConfig" => out.agentConfig.Some?
    case "spawnAgents" => out.spawnAgents.Some?
    case "appendMessages" => out.appendMessages.Some?
    case "eventSubscriptions" => out.eventSubscriptions.Some?
    case "llm" => out.llm.Some?
    case "memory" => out.memory.Some?
    case "lessons" => out.lessons.Some?
    case "schedule" => out.schedule.Some?
    case "custom" => out.custom.Some?
    case _ => false
  }

  function OlderStamp(key: string, a: map<string, int>, b: map<string, int>): int
    requires key in a || key in b
  {
    if key in a && key in b then Min(a[key], b[key]) else if key in a then a[key] else b[key]
  }

  /** Timestamps of the surviving permissions, the older of two. */
  function MergedStamps(out: Grant, a: map<string, int>, b: map<string, int>): map<string, int> {
    map key | key in a.Keys + b.Keys && Survived(out, key) :: OlderStamp(key, a, b)
  }

  function Intersect(a: Grant, b: Grant): Grant {
    var out := IntersectFields(a, b);
    out.(grantedAt := MergedStamps(out, a.grantedAt, b.grantedAt))
  }

  // ---- the loops of `intersectPermissions` ----

  method IntersectList(a: seq<string>, b: seq<string>) returns (list: seq<string>)
    ensures list == CommonOf(a, b)
  {
    var seen: set<string> := {};
    list := [];
    for i := 0 to |a|
      invariant list == CommonOf(a[..i], b)
      invariant forall x :: x in seen <==> x in list
    {
      assert a[..i + 1][..i] == a[..i];
      if a[i] in b && a[i] !in seen {
        seen := seen + {a[i]};
        list := list + [a[i]];
      }
    }
    assert a[..|a|] == a;
  }

  method IntersectHosts(a: seq<string>, b: seq<string>) returns (list: seq<string>)
    ensures list == CommonOf(LowerAll(a), LowerAll(b))
  {
    var bSet := LowerAll(b);
    var seen: set<string> := {};
    list := [];
    for i := 0 to |a|
      invariant list == CommonOf(LowerAll(a)[..i], bSet)
      invariant forall x :: x in seen <==> x in list
    {
      var k := Lower(a[i]);
      assert LowerAll(a)[..i + 1][..i] == LowerAll(a)[..i];
      if k in bSet && k !in seen {
        seen := seen + {k};
        list := list + [k];
      }
    }
    assert LowerAll(a)[..|a|] == LowerAll(a);
  }

  method IntersectPaths(a: seq<string>, b: seq<string>) returns (survivors: seq<string>)
    ensures survivors == Survivors(a, b)
  {
    survivors := [];
    for i := 0 to |a|
      invariant survivors == Survivors(a[..i], b)
    {
      assert a[..i + 1][..i] == a[..i];
      for j := 0 to |b|
        invariant survivors == SurvivorsOf(a[i], b[..j], Survivors(a[..i], b))
      {
        assert b[..j + 1][..j] == b[..j];
        if PathCovers(a[i], b[j]) {
          survivors := AddOnce(survivors, b[j]);
        } else if PathCovers(b[j], a[i]) {
          survivors := AddOnce(survivors, a[i]);
        }
      }
      assert b[..|b|] == b;
    }
    assert a[..|a|] == a;
  }

  method MergeStamps(out: Grant, a: map<string, int>, b: map<string, int>) returns (stamps: map<string, int>)
    ensures stamps == MergedStamps(out, a, b)
  {
    stamps := map[];
    var keys := a.Keys + b.Keys;
    while keys != {}
      invariant keys <= a.Keys + b.Keys
      invariant stamps == map key | key in (a.Keys + b.Keys) - keys && Survived(out, key) :: OlderStamp(key, a, b)
    {
      var key :| key in keys;
      keys := keys - {key};
      if Survived(out, key) {
        stamps := stamps[key := OlderStamp(key, a, b)];
      }
    }
  }

  method IntersectPermissions(a: Grant, b: Grant) returns (out: Grant)
    ensures out == Intersect(a, b)
  {
    out := IntersectScalars(a, b);
    if a.network.Some? && b.network.Some? {
      var list := IntersectHosts(a.network.value, b.network.value);
      out := out.(network := NonEmpty(list));
    }
    if a.filesystem.Some? && b.filesystem.Some? {
      var survivors := IntersectPaths(a.filesystem.value, b.filesystem.value);
      out := out.(filesystem := NonEmpty(survivors));
    }
    if a.env.Some? && b.env.Some? {
      var list := IntersectList(a.env.value, b.env.value);
      out := out.(env := NonEmpty(list));
    }
    if a.eventSubscriptions.Some? && b.eventSubscriptions.Some? {
      var list := IntersectList(a.eventSubscriptions.value, b.eventSubscriptions.value);
      out := out.(eventSubscriptions := NonEmpty(list));
    }
    var stamps := MergeStamps(out, a.grantedAt, b.grantedAt);
    out := out.(grantedAt := stamps);
  }

  /** Intersected host lists are lower case already. */
  lemma CommonHostsAreLower(a: seq<string>, b: seq<string>)
    ensures LowerAll(CommonOf(LowerAll(a), LowerAll(b))) == CommonOf(LowerAll(a), LowerAll(b))
  {
    var common := CommonOf(LowerAll(a), LowerAll(b));
    forall i | 0 <= i < |common| ensures Lower(common[i]) == common[i] {
      var x := common[i];
      assert x in common;
      var k :| 0 <= k < |a| && LowerAll(a)[k] == x;
      LowerTwice(a[k]);
    }
  }
}

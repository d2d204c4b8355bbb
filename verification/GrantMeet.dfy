/** The intersection of two grants, field by field, as what it is meant to be: the widest grant that neither side is
    narrower than. And the two places where the llm branch of src/extensions/capability-types.ts is not. */
module GrantMeet {
  import opened Wrappers
  import opened Capability
  import opened Permissions
  import opened PermissionMeet
  import opened Reconcile

  // ---- the order ----

  predicate Among(r: Option<seq<string>>, c: Option<seq<string>>) { forall x :: x in ListOf(r) ==> x in ListOf(c) }

  predicate HostsAmong(r: Option<seq<string>>, c: Option<seq<string>>) {
    forall i :: 0 <= i < |ListOf(r)| ==> Lower(ListOf(r)[i]) in LowerAll(ListOf(c))
  }

  predicate PathsBelow(r: Option<seq<string>>, c: Option<seq<string>>) {
    forall x :: x in ListOf(r) ==> exists q :: q in ListOf(c) && PathCovers(q, x)
  }

  predicate SpawnBelow(r: Option<SpawnAgents>, c: Option<SpawnAgents>) {
    r.Some? && 0 < r.value.maxPerHour ==> SpawnWithin(r, c)
  }

  predicate AppendBelow(r: Option<bool>, c: Option<bool>) { r.Some? ==> c.Some? && (c.value ==> r.value) }

  function Drafts(c: Option<Custom>): seq<string> {
    if c.Some? && c.value.drafts.Some? then c.value.drafts.value else []
  }

  /** `r` grants nothing that `c` does not, field by field, paths as written. */
  predicate Below(r: Grant, c: Grant) {
    && HostsAmong(r.network, c.network) && PathsBelow(r.filesystem, c.filesystem)
    && Among(r.env, c.env) && Among(r.eventSubscriptions, c.eventSubscriptions)
    && (r.shell == Some(true) ==> c.shell == Some(true))
    && (r.storage == Some(true) ==> c.storage == Some(true))
    && (r.taskEvents == Some(true) ==> c.taskEvents == Some(true))
    && SpawnBelow(r.spawnAgents, c.spawnAgents)
    && (r.agentConfig == Some(Read) ==> c.agentConfig == Some(Read))
    && AppendBelow(r.appendMessages, c.appendMessages)
    && LlmWithin(r.llm, c.llm) && MemoryWithin(r.memory, c.memory) && LessonsWithin(r.lessons, c.lessons)
    && ScheduleWithin(r.schedule, c.schedule)
    && (forall k :: k in Drafts(r.custom) ==> k in Drafts(c.custom))
  }

  // ---- below both sides ----

  lemma PathsBelowBoth(a: Option<seq<string>>, b: Option<seq<string>>)
    ensures PathsBelow(CommonPaths(a, b), a) && PathsBelow(CommonPaths(a, b), b)
  {
    hide PathCovers;
    forall x | x in ListOf(CommonPaths(a, b))
      ensures (exists q :: q in ListOf(a) && PathCovers(q, x)) && (exists q :: q in ListOf(b) && PathCovers(q, x))
    {
      var pa, pb :| pa in a.value && pb in b.value && Narrower(pa, pb) == Some(x);
      NarrowerWithCeiling(pa, pb, x);
    }
  }

  lemma HostsBelowBoth(a: Option<seq<string>>, b: Option<seq<string>>)
    ensures HostsAmong(CommonHosts(a, b), a) && HostsAmong(CommonHosts(a, b), b)
  {
    hide Lower, LowerAll, CommonOf;
    if a.Some? && b.Some? {
      HostsInBoth(a.value, b.value);
      assert ListOf(CommonHosts(a, b)) == CommonOf(LowerAll(a.value), LowerAll(b.value));
    }
  }

  lemma CommonBelowBoth(a: Option<seq<string>>, b: Option<seq<string>>)
    ensures Among(Common(a, b), a) && Among(Common(a, b), b)
  {
  }

  lemma ListsBelow(a: Grant, b: Grant)
    ensures var r := Intersect(a, b);
            && HostsAmong(r.network, a.network) && HostsAmong(r.network, b.network)
            && PathsBelow(r.filesystem, a.filesystem) && PathsBelow(r.filesystem, b.filesystem)
            && Among(r.env, a.env) && Among(r.env, b.env)
            && Among(r.eventSubscriptions, a.eventSubscriptions) && Among(r.eventSubscriptions, b.eventSubscriptions)
  {
    hide PathsBelow, CommonPaths, HostsAmong, CommonHosts, Among, Common, MergedStamps, IntersectScalars;
    HostsBelowBoth(a.network, b.network);
    PathsBelowBoth(a.filesystem, b.filesystem);
    CommonBelowBoth(a.env, b.env);
    CommonBelowBoth(a.eventSubscriptions, b.eventSubscriptions);
  }

  lemma HostsInBoth(a: seq<string>, b: seq<string>)
    ensures var r := CommonOf(LowerAll(a), LowerAll(b));
            forall i :: 0 <= i < |r| ==> Lower(r[i]) in LowerAll(a) && Lower(r[i]) in LowerAll(b)
  {
    CommonHostsAreLower(a, b);
    var r := CommonOf(LowerAll(a), LowerAll(b));
    forall i | 0 <= i < |r| ensures Lower(r[i]) == r[i] && r[i] in r {
      assert LowerAll(r)[i] == Lower(r[i]);
    }
  }

  lemma StructuresBelow(a: Grant, b: Grant)
    ensures var r := Intersect(a, b);
            && LlmWithin(r.llm, a.llm) && MemoryWithin(r.memory, a.memory) && LessonsWithin(r.lessons, a.lessons)
            && ScheduleWithin(r.schedule, a.schedule) && SpawnBelow(r.spawnAgents, a.spawnAgents)
    ensures var r := Intersect(a, b);
            && LlmWithin(r.llm, b.llm) && MemoryWithin(r.memory, b.memory) && LessonsWithin(r.lessons, b.lessons)
            && ScheduleWithin(r.schedule, b.schedule) && SpawnBelow(r.spawnAgents, b.spawnAgents)
  {
    hide MergedStamps, CommonHosts, CommonPaths, Common;
  }

  /** The intersection is below both sides. */
  lemma BelowBoth(a: Grant, b: Grant)
    ensures Below(Intersect(a, b), a) && Below(Intersect(a, b), b)
  {
    ListsBelow(a, b);
    StructuresBelow(a, b);
    hide MergedStamps, CommonHosts, CommonPaths, Common, LlmBoth, MemoryBoth, LessonsBoth, ScheduleBoth, TighterSpawn,
         HostsAmong, PathsBelow, Among, LlmWithin, MemoryWithin, LessonsWithin, ScheduleWithin, SpawnBelow;
  }

  // ---- and nothing below both is missing ----

  lemma ListsGreatest(x: Grant, a: Grant, b: Grant)
    requires HostsAmong(x.network, a.network) && HostsAmong(x.network, b.network)
    requires PathsBelow(x.filesystem, a.filesystem) && PathsBelow(x.filesystem, b.filesystem)
    requires Among(x.env, a.env) && Among(x.env, b.env)
    requires Among(x.eventSubscriptions, a.eventSubscriptions) && Among(x.eventSubscriptions, b.eventSubscriptions)
    ensures var r := Intersect(a, b);
            && HostsAmong(x.network, r.network) && PathsBelow(x.filesystem, r.filesystem)
            && Among(x.env, r.env) && Among(x.eventSubscriptions, r.eventSubscriptions)
  {
    hide PathCovers, MergedStamps, IntersectScalars;
    if a.network.Some? && b.network.Some? {
      CommonHostsAreLower(a.network.value, b.network.value);
    }
    forall p | p in ListOf(x.filesystem)
      ensures exists q :: q in ListOf(CommonPaths(a.filesystem, b.filesystem)) && PathCovers(q, p)
    {
      var pa :| pa in ListOf(a.filesystem) && PathCovers(pa, p);
      var pb :| pb in ListOf(b.filesystem) && PathCovers(pb, p);
      PathCoversLinear(pa, pb, p);
      assert Narrower(pa, pb).Some?;
      var q := Narrower(pa, pb).value;
      assert q in Survivors(ListOf(a.filesystem), ListOf(b.filesystem));
    }
  }

  lemma StructuresGreatest(x: Grant, a: Grant, b: Grant)
    requires LlmWithin(x.llm, a.llm) && LlmWithin(x.llm, b.llm)
    requires MemoryWithin(x.memory, a.memory) && MemoryWithin(x.memory, b.memory)
    requires LessonsWithin(x.lessons, a.lessons) && LessonsWithin(x.lessons, b.lessons)
    requires ScheduleWithin(x.schedule, a.schedule) && ScheduleWithin(x.schedule, b.schedule)
    requires SpawnBelow(x.spawnAgents, a.spawnAgents) && SpawnBelow(x.spawnAgents, b.spawnAgents)
    ensures var r := Intersect(a, b);
            && LlmWithin(x.llm, r.llm) && MemoryWithin(x.memory, r.memory) && LessonsWithin(x.lessons, r.lessons)
            && ScheduleWithin(x.schedule, r.schedule) && SpawnBelow(x.spawnAgents, r.spawnAgents)
  {
    hide MergedStamps, CommonHosts, CommonPaths, Common;
  }

  /** The intersection is the meet: what is below both sides, and only that, is below it. */
  lemma IntersectIsMeet(x: Grant, a: Grant, b: Grant)
    ensures Below(x, a) && Below(x, b) ==> Below(x, Intersect(a, b))
    ensures Below(Intersect(a, b), a) && Below(Intersect(a, b), b)
  {
    BelowBoth(a, b);
    if Below(x, a) && Below(x, b) {
      ListsGreatest(x, a, b);
      StructuresGreatest(x, a, b);
      hide MergedStamps, CommonHosts, CommonPaths, Common, LlmBoth, MemoryBoth, LessonsBoth, ScheduleBoth,
           TighterSpawn, HostsAmong, PathsBelow, Among, LlmWithin, MemoryWithin, LessonsWithin, ScheduleWithin,
           SpawnBelow;
    }
  }

  // ---- what the order leaves out ----

  /** Both sides' word on calling for others is dropped. */
  lemma CallerCapsDropped(a: Grant, b: Grant)
    ensures Intersect(a, b).acceptsCallerCaps.None? && Intersect(a, b).escalateChildCaps.None?
  {
  }

  /** Timestamps are the older of those there are, for exactly the permissions that survive. */
  lemma StampsAreOldest(a: Grant, b: Grant, key: string)
    ensures var r := Intersect(a, b);
            key in r.grantedAt <==> (key in a.grantedAt || key in b.grantedAt) && Present(r, key)
    ensures var r := Intersect(a, b);
            key in r.grantedAt ==>
              && (key in a.grantedAt ==> r.grantedAt[key] <= a.grantedAt[key])
              && (key in b.grantedAt ==> r.grantedAt[key] <= b.grantedAt[key])
              && ((key in a.grantedAt && r.grantedAt[key] == a.grantedAt[key])
                  || (key in b.grantedAt && r.grantedAt[key] == b.grantedAt[key]))
  {
    hide IntersectFields;
    var out := IntersectFields(a, b);
    PresentIff(out, Intersect(a, b), key);
  }

  lemma PresentIff(out: Grant, r: Grant, key: string)
    requires r == out.(grantedAt := r.grantedAt)
    ensures Survived(out, key) <==> Present(r, key)
  {
  }

  /** The grant has a field of that name. */
  predicate Present(g: Grant, key: string) {
    || (key == "network" && g.network.Some?) || (key == "filesystem" && g.filesystem.Some?)
    || (key == "shell" && g.shell.Some?) || (key == "env" && g.env.Some?)
    || (key == "storage" && g.storage.Some?) || (key == "taskEvents" && g.taskEvents.Some?)
    || (key == "spawnAgents" && g.spawnAgents.Some?) || (key == "agentConfig" && g.agentConfig.Some?)
    || (key == "eventSubscriptions" && g.eventSubscriptions.Some?)
    || (key == "appendMessages" && g.appendMessages.Some?)
    || (key == "llm" && g.llm.Some?) || (key == "memory" && g.memory.Some?)
    || (key == "lessons" && g.lessons.Some?) || (key == "schedule" && g.schedule.Some?)
    || (key == "custom" && g.custom.Some?)
  }

  // ---- where the llm branch widens ----

  /** The ceilings on tokens a day, time and cost hold for the result exactly where neither side set one: they are not
      carried over. */
  lemma DailyCeilingsIff(a: Llm, b: Llm)
    ensures var r := IntersectLlm(a, b);
            && (AtMost(r.maxTokensPerDay, a.maxTokensPerDay) && AtMost(r.maxTokensPerDay, b.maxTokensPerDay) <==>
                  a.maxTokensPerDay.None? && b.maxTokensPerDay.None?)
            && (AtMost(r.maxTimeoutMs, a.maxTimeoutMs) && AtMost(r.maxTimeoutMs, b.maxTimeoutMs) <==>
                  a.maxTimeoutMs.None? && b.maxTimeoutMs.None?)
            && (AtMost(r.maxCostCentsPerDay, a.maxCostCentsPerDay)
                && AtMost(r.maxCostCentsPerDay, b.maxCostCentsPerDay) <==>
                  a.maxCostCentsPerDay.None? && b.maxCostCentsPerDay.None?)
  {
  }

  /** Whether a glob of the list matches the model. */
  type Globs = (string, string) -> bool

  predicate Matches(globs: Globs, list: seq<string>, model: string) { exists g :: g in list && globs(g, model) }

  /** The model gate of src/extensions/llm-handler.ts: a provider without a list of models allows any. */
  predicate ModelAllowed(globs: Globs, l: Llm, provider: string, model: string) {
    && provider in l.providers
    && (l.allowedModels.Some? && provider in l.allowedModels.value ==>
          Matches(globs, l.allowedModels.value[provider], model))
  }

  /** The two lists for a provider have no glob in common, or one side has none. */
  predicate NothingShared(a: map<string, seq<string>>, b: map<string, seq<string>>, provider: string) {
    provider in a && provider in b ==> forall g :: g in a[provider] ==> g !in b[provider]
  }

  /** The side lists globs for the provider that let every model through, or lists none for it. */
  ghost predicate LetsAllThrough(globs: Globs, a: map<string, seq<string>>, provider: string) {
    provider in a ==> forall model :: Matches(globs, a[provider], model)
  }

  /** The intersected grant allows only models that both sides allow if and only if, for every provider of both whose
      lists of globs share nothing, the lists let every model through anyway: a list that comes out empty is dropped,
      and a dropped list allows everything. */
  lemma ModelsInsideIff(globs: Globs, a: Llm, b: Llm)
    ensures (forall p, m :: ModelAllowed(globs, IntersectLlm(a, b), p, m) ==>
               ModelAllowed(globs, a, p, m) && ModelAllowed(globs, b, p, m)) <==>
            (a.allowedModels.Some? && b.allowedModels.Some? ==>
               forall p | p in a.providers && p in b.providers
                          && NothingShared(a.allowedModels.value, b.allowedModels.value, p) ::
                 LetsAllThrough(globs, a.allowedModels.value, p) && LetsAllThrough(globs, b.allowedModels.value, p))
  {
    var r := IntersectLlm(a, b);
    if a.allowedModels.Some? && b.allowedModels.Some? {
      var ma, mb := a.allowedModels.value, b.allowedModels.value;
      forall p ensures p in AllowedBoth(ma, mb) <==> p in ma && p in mb && !NothingShared(ma, mb, p) {
        SharedSurvives(ma, mb, p);
      }
      if p :| p in a.providers && p in b.providers && NothingShared(ma, mb, p)
              && !(LetsAllThrough(globs, ma, p) && LetsAllThrough(globs, mb, p))
      {
        var m :| (p in ma && !Matches(globs, ma[p], m)) || (p in mb && !Matches(globs, mb[p], m));
        assert ModelAllowed(globs, r, p, m);
      } else {
        forall p, m | ModelAllowed(globs, r, p, m)
          ensures ModelAllowed(globs, a, p, m) && ModelAllowed(globs, b, p, m)
        {
          if p in AllowedBoth(ma, mb) {
            var g :| g in FilterIn(ma[p], mb[p]) && globs(g, m);
          } else if NothingShared(ma, mb, p) {
            assert LetsAllThrough(globs, ma, p) && LetsAllThrough(globs, mb, p);
          }
        }
      }
    }
  }

  lemma SharedSurvives(a: map<string, seq<string>>, b: map<string, seq<string>>, p: string)
    ensures p in AllowedBoth(a, b) <==> p in a && p in b && !NothingShared(a, b, p)
  {
    if p in a && p in b && FilterIn(a[p], b[p]) != [] {
      var g := FilterIn(a[p], b[p])[0];
      assert g in FilterIn(a[p], b[p]);
    }
  }

  const LITE := Llm(["google"], 1, 1, None, None, None, Some(map["google" := ["gemini-lite"]]), None)
  const PRO := Llm(["google"], 1, 1, None, None, None, Some(map["google" := ["gemini-pro"]]), None)

  /** One model on one side and another on the other: the intersection allows every model of the provider. */
  lemma DisjointModelsAllowAll(globs: Globs, model: string)
    requires !globs("gemini-lite", model) && !globs("gemini-pro", model)
    ensures ModelAllowed(globs, IntersectLlm(LITE, PRO), "google", model)
    ensures !ModelAllowed(globs, LITE, "google", model) && !ModelAllowed(globs, PRO, "google", model)
  {
    var ma, mb := LITE.allowedModels.value, PRO.allowedModels.value;
    SharedSurvives(ma, mb, "google");
    assert "google" in LITE.providers && "google" in PRO.providers;
  }
}

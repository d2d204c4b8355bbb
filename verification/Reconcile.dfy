/** Boot-time reconciliation of a bundled grant: `clampToBundledCeiling` of
    src/extensions/bundled-ceiling.ts, `canonicalGrant` and `reconcileBundledGrant` of
    src/extensions/bundled.ts. */
module Reconcile {
  import opened Wrappers
  import opened Capability
  import opened Permissions

  // ---- merge and clamp ----

  /** Spreading `declared` over `stored`: a declared field wins. */
  function Pick<T>(stored: Option<T>, declared: Option<T>): Option<T> {
    if declared.Some? then declared else stored
  }

  function MergeCustom(stored: Option<Custom>, declared: Option<Custom>): Option<Custom> {
    if stored.Some? && declared.Some?
    then Some(Custom(Pick(stored.value.drafts, declared.value.drafts), stored.value.other + declared.value.other))
    else Pick(stored, declared)
  }

  /** Declared fields over stored ones, stored timestamps over declared ones. */
  function Merge(s: Grant, d: Grant): Grant {
    Grant(
      Pick(s.network, d.network), Pick(s.filesystem, d.filesystem), Pick(s.shell, d.shell), Pick(s.env, d.env),
      Pick(s.storage, d.storage), Pick(s.taskEvents, d.taskEvents), Pick(s.spawnAgents, d.spawnAgents),
      Pick(s.agentConfig, d.agentConfig), Pick(s.eventSubscriptions, d.eventSubscriptions),
      Pick(s.appendMessages, d.appendMessages), Pick(s.acceptsCallerCaps, d.acceptsCallerCaps),
      Pick(s.escalateChildCaps, d.escalateChildCaps), Pick(s.llm, d.llm), Pick(s.memory, d.memory),
      Pick(s.lessons, d.lessons), Pick(s.schedule, d.schedule), MergeCustom(s.custom, d.custom),
      d.grantedAt + s.grantedAt)
  }

  /** A name without a ceiling passes through. */
  function Clamp(ceiling: Option<Grant>, requested: Grant): Grant {
    if ceiling.Some? then Intersect(requested, ceiling.value) else requested
  }

  function Reconciled(ceiling: Option<Grant>, s: Grant, d: Grant): Grant { Clamp(ceiling, Merge(s, d)) }

  // ---- the idempotency gate ----

  /** String arrays are sorted, empty ones dropped. */
  function CanonList(o: Option<seq<string>>): Option<multiset<string>> {
    if o.Some? && o.value != [] then Some(multiset(o.value)) else None
  }

  function CanonModels(o: Option<map<string, seq<string>>>): Option<map<string, multiset<string>>> {
    if o.Some? && o.value != map[] then Some(map p | p in o.value && o.value[p] != [] :: multiset(o.value[p])) else None
  }

  datatype CanonLlm = CanonLlm(
    providers: Option<multiset<string>>, rest: Llm, models: Option<map<string, multiset<string>>>)
  datatype CanonMemory = CanonMemory(categories: Option<multiset<string>>, rest: Memory)
  datatype CanonSchedule = CanonSchedule(crons: Option<multiset<string>>, rest: Schedule)
  datatype CanonCustom = CanonCustom(drafts: Option<multiset<string>>, other: map<string, string>)

  function CanonLlmOf(o: Option<Llm>): Option<CanonLlm> {
    match o
    case None => None
    case Some(l) =>
      var rest := l.(providers := [], allowedModels := None);
      Some(CanonLlm(CanonList(Some(l.providers)), rest, CanonModels(l.allowedModels)))
  }

  function CanonMemoryOf(o: Option<Memory>): Option<CanonMemory> {
    match o
    case None => None
    case Some(m) => Some(CanonMemory(CanonList(m.categories), m.(categories := None)))
  }

  function CanonScheduleOf(o: Option<Schedule>): Option<CanonSchedule> {
    match o
    case None => None
    case Some(s) => Some(CanonSchedule(CanonList(Some(s.crons)), s.(crons := [])))
  }

  /** An empty bag is dropped; `drafts` keeps its place even when its list of kinds is empty. */
  function CanonCustomOf(o: Option<Custom>): Option<CanonCustom> {
    match o
    case None => None
    case Some(c) =>
      if c.drafts.None? && c.other == map[] then None
      else Some(CanonCustom(if c.drafts.Some? then Some(multiset(c.drafts.value)) else None, c.other))
  }

  datatype CanonGrant = CanonGrant(
    network: Option<multiset<string>>, filesystem: Option<multiset<string>>, env: Option<multiset<string>>,
    eventSubscriptions: Option<multiset<string>>,
    flags: seq<bool>, spawnAgents: Option<SpawnAgents>, agentConfig: Option<Access>, appendMessages: Option<bool>,
    llm: Option<CanonLlm>, memory: Option<CanonMemory>, lessons: Option<Lessons>, schedule: Option<CanonSchedule>,
    custom: Option<CanonCustom>, grantedAt: map<string, int>)

  /** Order-independent form; a flag that is false counts as absent. */
  function Canon(g: Grant): CanonGrant {
    CanonGrant(
      CanonList(g.network), CanonList(g.filesystem), CanonList(g.env), CanonList(g.eventSubscriptions),
      [g.shell == Some(true), g.storage == Some(true), g.taskEvents == Some(true),
       g.acceptsCallerCaps == Some(true), g.escalateChildCaps == Some(true)],
      g.spawnAgents, g.agentConfig, g.appendMessages,
      CanonLlmOf(g.llm), CanonMemoryOf(g.memory), g.lessons, CanonScheduleOf(g.schedule), CanonCustomOf(g.custom),
      g.grantedAt)
  }

  // ---- intersecting twice with the same ceiling ----

  predicate Distinct(xs: seq<string>) {
    forall i, j :: 0 <= i < j < |xs| ==> xs[i] != xs[j]
  }

  lemma {:induction false} CommonOfDistinct(a: seq<string>, b: seq<string>)
    ensures Distinct(CommonOf(a, b))
  {
    if a != [] { CommonOfDistinct(a[..|a| - 1], b); }
  }

  lemma {:induction false} CommonOfFixed(a: seq<string>, b: seq<string>)
    requires Distinct(a) && forall x :: x in a ==> x in b
    ensures CommonOf(a, b) == a
  {
    if a != [] {
      var init, last := a[..|a| - 1], a[|a| - 1];
      CommonOfFixed(init, b);
      assert last in a;
      assert last !in init;
    }
  }

  lemma {:induction false} FilterFixed(a: seq<string>, b: seq<string>)
    requires forall x :: x in a ==> x in b
    ensures FilterIn(a, b) == a
  {
    if a != [] {
      FilterFixed(a[..|a| - 1], b);
      assert a[|a| - 1] in a;
    }
  }

  lemma {:induction false} FilterSame(a: seq<string>, b: seq<string>, c: seq<string>)
    requires forall x :: x in a ==> (x in b <==> x in c)
    ensures FilterIn(a, b) == FilterIn(a, c)
  {
    if a != [] {
      FilterSame(a[..|a| - 1], b, c);
      assert a[|a| - 1] in a;
    }
  }

  lemma {:induction false} SurvivorsOfDistinct(pa: string, b: seq<string>, init: seq<string>)
    requires Distinct(init)
    ensures Distinct(SurvivorsOf(pa, b, init))
  {
    if b != [] { SurvivorsOfDistinct(pa, b[..|b| - 1], init); }
  }

  lemma {:induction false} SurvivorsDistinct(a: seq<string>, b: seq<string>)
    ensures Distinct(Survivors(a, b))
  {
    if a != [] {
      SurvivorsDistinct(a[..|a| - 1], b);
      SurvivorsOfDistinct(a[|a| - 1], b, Survivors(a[..|a| - 1], b));
    }
  }

  lemma {:induction false} DistinctCount(xs: seq<string>, x: string)
    requires Distinct(xs)
    ensures multiset(xs)[x] == if x in xs then 1 else 0
  {
    if xs != [] {
      var init, last := xs[..|xs| - 1], xs[|xs| - 1];
      DistinctCount(init, x);
      assert xs == init + [last];
      assert last !in init;
    }
  }

  lemma SameElementsSameBag(a: seq<string>, b: seq<string>)
    requires Distinct(a) && Distinct(b) && forall x :: x in a <==> x in b
    ensures multiset(a) == multiset(b)
  {
    forall x ensures multiset(a)[x] == multiset(b)[x] {
      DistinctCount(a, x);
      DistinctCount(b, x);
    }
  }

  /** What survived once against `c` survives again, and nothing else appears. */
  lemma SurvivorsAgain(s: seq<string>, c: seq<string>, x: string)
    ensures x in Survivors(Survivors(s, c), c) <==> x in Survivors(s, c)
  {
    hide Survivors, PathCovers;
    var kept := Survivors(s, c);
    if x in kept {
      var pa, pb :| pa in s && pb in c && Narrower(pa, pb) == Some(x);
      NarrowerWithCeiling(pa, pb, x);
      assert Narrower(x, pb) == Some(x);
    }
    if x in Survivors(kept, c) {
      var y, pc :| y in kept && pc in c && Narrower(y, pc) == Some(x);
      var pa, pb :| pa in s && pb in c && Narrower(pa, pb) == Some(y);
      NarrowerWithCeiling(pa, pb, y);
      if x != y {
        PathCoversTransitive(pa, y, pc);
        assert Narrower(pa, pc) == Some(pc);
      }
    }
  }

  lemma NarrowerWithCeiling(pa: string, pb: string, x: string)
    requires Narrower(pa, pb) == Some(x)
    ensures PathCovers(pa, x) && PathCovers(pb, x) && Narrower(x, pb) == Some(x)
  {
    assert PathCovers(x, x);
    if PathCovers(x, pb) {
      PathCoversAntisymmetric(x, pb);
    }
  }

  lemma HostsAgain(s: Option<seq<string>>, c: Option<seq<string>>)
    ensures CommonHosts(CommonHosts(s, c), c) == CommonHosts(s, c)
  {
    if s.Some? && c.Some? {
      CommonHostsAreLower(s.value, c.value);
      CommonOfDistinct(LowerAll(s.value), LowerAll(c.value));
      CommonOfFixed(CommonOf(LowerAll(s.value), LowerAll(c.value)), LowerAll(c.value));
    }
  }

  lemma PathsAgain(s: Option<seq<string>>, c: Option<seq<string>>)
    ensures CanonList(CommonPaths(CommonPaths(s, c), c)) == CanonList(CommonPaths(s, c))
  {
    hide Survivors;
    if s.Some? && c.Some? {
      var once := Survivors(s.value, c.value);
      var twice := Survivors(once, c.value);
      forall x ensures x in twice <==> x in once { SurvivorsAgain(s.value, c.value, x); }
      SurvivorsDistinct(s.value, c.value);
      SurvivorsDistinct(once, c.value);
      SameElementsSameBag(once, twice);
      assert multiset(once) == multiset(twice);
      assert |once| == |multiset(once)| == |multiset(twice)| == |twice|;
    }
  }

  lemma ListAgain(s: Option<seq<string>>, c: Option<seq<string>>)
    ensures Common(Common(s, c), c) == Common(s, c)
  {
    if s.Some? && c.Some? {
      CommonOfDistinct(s.value, c.value);
      CommonOfFixed(CommonOf(s.value, c.value), c.value);
    }
  }

  lemma ModelsAgain(s: Option<map<string, seq<string>>>, c: Option<map<string, seq<string>>>)
    requires c.Some? ==> forall p :: p in c.value ==> c.value[p] != []
    ensures IntersectAllowedModels(IntersectAllowedModels(s, c), c) == IntersectAllowedModels(s, c)
  {
    if c.Some? {
      var once := IntersectAllowedModels(s, c).value;
      forall p | p in once ensures p in c.value && FilterIn(once[p], c.value[p]) == once[p] {
        FilterFixed(once[p], c.value[p]);
      }
      assert AllowedBoth(once, c.value) == once;
    }
  }

  lemma LlmAgain(s: Llm, c: Llm)
    requires c.allowedModels.Some? ==> forall p :: p in c.allowedModels.value ==> c.allowedModels.value[p] != []
    ensures IntersectLlm(IntersectLlm(s, c), c) == IntersectLlm(s, c)
  {
    ModelsAgain(s.allowedModels, c.allowedModels);
    FilterSame(c.providers, FilterIn(c.providers, s.providers), s.providers);
  }

  lemma MemoryAgain(s: Memory, c: Memory)
    ensures IntersectMemory(IntersectMemory(s, c), c) == IntersectMemory(s, c)
  {
    if c.categories.Some? {
      if s.categories.Some? {
        FilterFixed(FilterIn(s.categories.value, c.categories.value), c.categories.value);
      } else {
        FilterFixed(c.categories.value, c.categories.value);
      }
    }
  }

  lemma ScheduleAgain(s: Schedule, c: Schedule)
    ensures IntersectSchedule(IntersectSchedule(s, c), c) == IntersectSchedule(s, c)
  {
    FilterFixed(FilterIn(s.crons, c.crons), c.crons);
  }

  lemma CustomAgain(s: Option<Custom>, c: Option<Custom>)
    ensures IntersectCustom(IntersectCustom(s, c), c) == IntersectCustom(s, c)
  {
    if IntersectCustom(s, c).Some? {
      var kinds, kept := c.value.drafts.value, s.value.drafts.value;
      FilterSame(kinds, FilterIn(kinds, kept), kept);
    }
  }

  /** A ceiling whose model lists are not empty. */
  predicate ModelsListed(c: Grant) {
    c.llm.Some? && c.llm.value.allowedModels.Some? ==>
      forall p :: p in c.llm.value.allowedModels.value ==> c.llm.value.allowedModels.value[p] != []
  }

  // ---- one step reaches the fixpoint ----

  /** The same declaration with timestamps taken later. */
  predicate Restamped(d: Grant, d': Grant) {
    d' == d.(grantedAt := d'.grantedAt) && d'.grantedAt.Keys == d.grantedAt.Keys
  }

  // One lemma a field: intersecting, merging the declaration back in and intersecting again.

  lemma HostsSettle(s: Option<seq<string>>, d: Option<seq<string>>, c: Option<seq<string>>)
    ensures CommonHosts(Pick(CommonHosts(Pick(s, d), c), d), c) == CommonHosts(Pick(s, d), c)
  {
    hide CommonHosts;
    HostsAgain(Pick(s, d), c);
  }

  lemma PathsSettle(s: Option<seq<string>>, d: Option<seq<string>>, c: Option<seq<string>>)
    ensures CanonList(CommonPaths(Pick(CommonPaths(Pick(s, d), c), d), c)) == CanonList(CommonPaths(Pick(s, d), c))
  {
    hide CommonPaths;
    PathsAgain(Pick(s, d), c);
  }

  lemma ListSettles(s: Option<seq<string>>, d: Option<seq<string>>, c: Option<seq<string>>)
    ensures Common(Pick(Common(Pick(s, d), c), d), c) == Common(Pick(s, d), c)
  {
    hide Common;
    ListAgain(Pick(s, d), c);
  }

  lemma FlagSettles(s: Option<bool>, d: Option<bool>, c: Option<bool>)
    ensures Both(Pick(Both(Pick(s, d), c), d), c) == Both(Pick(s, d), c)
    ensures ExcludeEither(Pick(ExcludeEither(Pick(s, d), c), d), c) == ExcludeEither(Pick(s, d), c)
  {
  }

  lemma SpawnSettles(s: Option<SpawnAgents>, d: Option<SpawnAgents>, c: Option<SpawnAgents>)
    ensures TighterSpawn(Pick(TighterSpawn(Pick(s, d), c), d), c) == TighterSpawn(Pick(s, d), c)
  {
  }

  lemma ReadSettles(s: Option<Access>, d: Option<Access>, c: Option<Access>)
    ensures ReadBoth(Pick(ReadBoth(Pick(s, d), c), d), c) == ReadBoth(Pick(s, d), c)
  {
  }

  lemma LlmSettles(s: Option<Llm>, d: Option<Llm>, c: Option<Llm>)
    requires c.Some? && c.value.allowedModels.Some? ==>
               forall p :: p in c.value.allowedModels.value ==> c.value.allowedModels.value[p] != []
    ensures LlmBoth(Pick(LlmBoth(Pick(s, d), c), d), c) == LlmBoth(Pick(s, d), c)
  {
    hide IntersectLlm;
    if Pick(s, d).Some? && c.Some? { LlmAgain(Pick(s, d).value, c.value); }
  }

  lemma MemorySettles(s: Option<Memory>, d: Option<Memory>, c: Option<Memory>)
    ensures MemoryBoth(Pick(MemoryBoth(Pick(s, d), c), d), c) == MemoryBoth(Pick(s, d), c)
  {
    hide IntersectMemory;
    if Pick(s, d).Some? && c.Some? { MemoryAgain(Pick(s, d).value, c.value); }
  }

  lemma LessonsSettle(s: Option<Lessons>, d: Option<Lessons>, c: Option<Lessons>)
    ensures LessonsBoth(Pick(LessonsBoth(Pick(s, d), c), d), c) == LessonsBoth(Pick(s, d), c)
  {
  }

  lemma ScheduleSettles(s: Option<Schedule>, d: Option<Schedule>, c: Option<Schedule>)
    ensures ScheduleBoth(Pick(ScheduleBoth(Pick(s, d), c), d), c) == ScheduleBoth(Pick(s, d), c)
  {
    hide IntersectSchedule;
    if Pick(s, d).Some? && c.Some? { ScheduleAgain(Pick(s, d).value, c.value); }
  }

  lemma CustomSettles(s: Option<Custom>, d: Option<Custom>, c: Option<Custom>)
    ensures IntersectCustom(MergeCustom(IntersectCustom(MergeCustom(s, d), c), d), c) ==
            IntersectCustom(MergeCustom(s, d), c)
  {
    CustomAgain(MergeCustom(s, d), c);
  }

  /** Equal but for the order of the paths and for the timestamps. */
  predicate SameFields(a: Grant, b: Grant) {
    a == b.(filesystem := a.filesystem, grantedAt := a.grantedAt)
    && CanonList(a.filesystem) == CanonList(b.filesystem) && (a.filesystem.Some? <==> b.filesystem.Some?)
  }

  lemma PathsPresence(a: Option<seq<string>>, b: Option<seq<string>>)
    ensures CommonPaths(a, b).Some? <==> CanonList(CommonPaths(a, b)).Some?
  {
  }

  lemma FieldsSettle(c: Grant, s: Grant, d: Grant, d': Grant)
    requires ModelsListed(c) && Restamped(d, d')
    ensures SameFields(IntersectFields(Merge(Intersect(Merge(s, d), c), d'), c), IntersectFields(Merge(s, d), c))
  {
    hide Pick, MergeCustom, CommonHosts, CommonPaths, Common, Both, ExcludeEither, TighterSpawn, ReadBoth,
      LlmBoth, MemoryBoth, LessonsBoth, ScheduleBoth, IntersectCustom, CanonList, MergedStamps;
    HostsSettle(s.network, d.network, c.network);
    PathsSettle(s.filesystem, d.filesystem, c.filesystem);
    PathsPresence(Pick(s.filesystem, d.filesystem), c.filesystem);
    PathsPresence(Pick(CommonPaths(Pick(s.filesystem, d.filesystem), c.filesystem), d.filesystem), c.filesystem);
    ListSettles(s.env, d.env, c.env);
    ListSettles(s.eventSubscriptions, d.eventSubscriptions, c.eventSubscriptions);
    FlagSettles(s.shell, d.shell, c.shell);
    FlagSettles(s.storage, d.storage, c.storage);
    FlagSettles(s.taskEvents, d.taskEvents, c.taskEvents);
    FlagSettles(s.appendMessages, d.appendMessages, c.appendMessages);
    SpawnSettles(s.spawnAgents, d.spawnAgents, c.spawnAgents);
    ReadSettles(s.agentConfig, d.agentConfig, c.agentConfig);
    LlmSettles(s.llm, d.llm, c.llm);
    MemorySettles(s.memory, d.memory, c.memory);
    LessonsSettle(s.lessons, d.lessons, c.lessons);
    ScheduleSettles(s.schedule, d.schedule, c.schedule);
    CustomSettles(s.custom, d.custom, c.custom);
  }

  lemma SameSurvivors(a: Grant, b: Grant, key: string)
    requires SameFields(a, b)
    ensures Survived(a, key) <==> Survived(b, key)
  {
    hide CanonList;
  }

  /** Timestamps of surviving permissions stay: declared ones only fill keys that were missing. */
  lemma StampsSettle(
    out: Grant, out2: Grant, sAt: map<string, int>, dAt: map<string, int>, dAt': map<string, int>,
    cAt: map<string, int>)
    requires forall key :: Survived(out2, key) <==> Survived(out, key)
    requires dAt'.Keys == dAt.Keys
    ensures var r := MergedStamps(out, dAt + sAt, cAt); MergedStamps(out2, dAt' + r, cAt) == r
  {
    hide Survived;
  }

  lemma SameFieldsCanon(a: Grant, b: Grant)
    requires SameFields(a, b) && a.grantedAt == b.grantedAt
    ensures Canon(a) == Canon(b)
  {
    hide CanonList, CanonLlmOf, CanonMemoryOf, CanonScheduleOf, CanonCustomOf;
  }

  lemma MergeTwice(s: Grant, d: Grant, d': Grant)
    requires Restamped(d, d')
    ensures Merge(Merge(s, d), d') == Merge(s, d)
  {
    assert d'.grantedAt + (d.grantedAt + s.grantedAt) == d.grantedAt + s.grantedAt;
    if s.custom.Some? && d.custom.Some? {
      assert (s.custom.value.other + d.custom.value.other) + d.custom.value.other ==
          s.custom.value.other + d.custom.value.other;
    }
    if d.custom.Some? {
      assert d.custom.value.other + d.custom.value.other == d.custom.value.other;
    }
  }

  /** Reconciling the reconciled grant, under later declared timestamps, changes nothing the gate sees. */
  lemma ReconcileSettles(ceiling: Option<Grant>, s: Grant, d: Grant, d': Grant)
    requires ceiling.Some? ==> ModelsListed(ceiling.value)
    requires Restamped(d, d')
    ensures Canon(Reconciled(ceiling, Reconciled(ceiling, s, d), d')) == Canon(Reconciled(ceiling, s, d))
  {
    hide Canon, IntersectFields, MergedStamps, SameFields, ModelsListed;
    if ceiling.Some? {
      var c := ceiling.value;
      var r := Intersect(Merge(s, d), c);
      var out, out2 := IntersectFields(Merge(s, d), c), IntersectFields(Merge(r, d'), c);
      FieldsSettle(c, s, d, d');
      forall key ensures Survived(out2, key) <==> Survived(out, key) { SameSurvivors(out2, out, key); }
      StampsSettle(out, out2, s.grantedAt, d.grantedAt, d'.grantedAt, c.grantedAt);
      StampedSame(out2, out, r.grantedAt);
      SameFieldsCanon(Intersect(Merge(r, d'), c), r);
    } else {
      MergeTwice(s, d, d');
    }
  }

  lemma StampedSame(a: Grant, b: Grant, at: map<string, int>)
    requires SameFields(a, b)
    ensures SameFields(a.(grantedAt := at), b.(grantedAt := at))
  {
    hide CanonList;
  }

  /** Once a boot finds nothing to write, the declared timestamps play no part any more. */
  lemma StampsDoNotMatter(ceiling: Option<Grant>, s: Grant, d: Grant, d': Grant)
    requires Restamped(d, d') && Canon(Reconciled(ceiling, s, d)) == Canon(s)
    ensures Reconciled(ceiling, s, d') == Reconciled(ceiling, s, d)
  {
    hide CanonList, CanonLlmOf, CanonMemoryOf, CanonScheduleOf, CanonCustomOf, Survived, IntersectFields;
    var at := Reconciled(ceiling, s, d).grantedAt;
    assert at == s.grantedAt;
    if ceiling.Some? {
      var out := IntersectFields(Merge(s, d), ceiling.value);
      SameFieldsMerge(s, d, d', ceiling.value);
      assert MergedStamps(out, d'.grantedAt + s.grantedAt, ceiling.value.grantedAt)
             == MergedStamps(out, d.grantedAt + s.grantedAt, ceiling.value.grantedAt) by {
        forall key | key in d.grantedAt && Survived(out, key) ensures key in s.grantedAt {
          assert key in at;
        }
      }
    } else {
      assert d.grantedAt.Keys <= s.grantedAt.Keys by {
        forall key | key in d.grantedAt ensures key in s.grantedAt { assert key in at; }
      }
      assert d'.grantedAt + s.grantedAt == s.grantedAt == d.grantedAt + s.grantedAt;
    }
  }

  lemma SameFieldsMerge(s: Grant, d: Grant, d': Grant, c: Grant)
    requires Restamped(d, d')
    ensures IntersectFields(Merge(s, d'), c) == IntersectFields(Merge(s, d), c)
  {
    hide Pick, MergeCustom, CommonHosts, CommonPaths, Common, Both, ExcludeEither, TighterSpawn, ReadBoth,
      LlmBoth, MemoryBoth, LessonsBoth, ScheduleBoth, IntersectCustom;
  }

  // ---- bounds ----

  predicate ListWithin(r: Option<seq<string>>, c: Option<seq<string>>) {
    r.Some? ==> c.Some? && forall x :: x in r.value ==> x in c.value
  }

  predicate AtMost(r: Option<int>, c: Option<int>) {
    c.Some? ==> r.Some? && r.value <= c.value
  }

  predicate AccessWithin(r: Access, c: Access) { r.Write? ==> c.Write? }

  predicate PathsWithin(r: Option<seq<string>>, c: Option<seq<string>>) {
    r.Some? ==> c.Some? && forall x :: x in r.value ==> exists q :: q in c.value && PathCovers(q, x)
  }

  predicate SpawnWithin(r: Option<SpawnAgents>, c: Option<SpawnAgents>) {
    r.Some? ==>
      && c.Some?
      && r.value.maxPerHour <= c.value.maxPerHour
      && AtMost(r.value.maxConcurrent, c.value.maxConcurrent)
  }

  predicate LlmWithin(r: Option<Llm>, c: Option<Llm>) {
    r.Some? ==>
      && c.Some?
      && (forall p :: p in r.value.providers ==> p in c.value.providers)
      && r.value.maxCallsPerHour <= c.value.maxCallsPerHour
      && r.value.maxCallsPerDay <= c.value.maxCallsPerDay
      && AtMost(r.value.maxTokensPerCall, c.value.maxTokensPerCall)
      && (c.value.allowedModels.Some? ==>
            r.value.allowedModels.Some?
            && forall p, m :: p in r.value.allowedModels.value && m in r.value.allowedModels.value[p] ==>
                 p in c.value.allowedModels.value && m in c.value.allowedModels.value[p])
  }

  predicate MemoryWithin(r: Option<Memory>, c: Option<Memory>) {
    r.Some? ==>
      && c.Some? && AccessWithin(r.value.access, c.value.access)
      && r.value.maxWritesPerDay <= c.value.maxWritesPerDay
      && (c.value.categories.Some? ==> r.value.categories.Some? && ListWithin(r.value.categories, c.value.categories))
      && (c.value.selfOnly ==> r.value.selfOnly)
  }

  predicate LessonsWithin(r: Option<Lessons>, c: Option<Lessons>) {
    r.Some? ==>
      && c.Some? && AccessWithin(r.value.access, c.value.access)
      && r.value.maxWritesPerDay <= c.value.maxWritesPerDay
      && (r.value.maxVisibility.Project? ==> c.value.maxVisibility.Project?)
  }

  predicate PolicyWithin(r: MissedRunPolicy, c: MissedRunPolicy) {
    r == Skip || c == FireAll || r == c
  }

  predicate ScheduleWithin(r: Option<Schedule>, c: Option<Schedule>) {
    r.Some? ==>
      && c.Some?
      && (forall x :: x in r.value.crons ==> x in c.value.crons)
      && r.value.maxRunsPerDay <= c.value.maxRunsPerDay
      && r.value.maxRunDurationMs <= c.value.maxRunDurationMs
      && PolicyWithin(r.value.missedRunPolicy, c.value.missedRunPolicy)
      && r.value.maxRetries <= c.value.maxRetries
  }

  predicate CustomWithin(r: Option<Custom>, c: Option<Custom>) {
    r.Some? ==> c.Some? && r.value.other == map[] && ListWithin(r.value.drafts, c.value.drafts)
  }

  /** No field of `r` is wider than the ceiling's, paths being compared as they are written. What the decision makes of
      the paths once they are expanded is the subject of CeilingDecision. */
  predicate WithinCeiling(r: Grant, c: Grant) {
    && (r.network.Some? ==> c.network.Some? && forall h :: h in r.network.value ==> h in LowerAll(c.network.value))
    && PathsWithin(r.filesystem, c.filesystem)
    && (r.shell == Some(true) ==> c.shell == Some(true))
    && ListWithin(r.env, c.env)
    && (r.storage == Some(true) ==> c.storage == Some(true))
    && (r.taskEvents == Some(true) ==> c.taskEvents == Some(true))
    && SpawnWithin(r.spawnAgents, c.spawnAgents)
    && (r.agentConfig.Some? ==> r.agentConfig == c.agentConfig)
    && ListWithin(r.eventSubscriptions, c.eventSubscriptions)
    && (r.appendMessages.Some? ==> c.appendMessages.Some? && (c.appendMessages.value ==> r.appendMessages.value))
    && r.acceptsCallerCaps.None? && r.escalateChildCaps.None?
    && LlmWithin(r.llm, c.llm) && MemoryWithin(r.memory, c.memory) && LessonsWithin(r.lessons, c.lessons)
    && ScheduleWithin(r.schedule, c.schedule) && CustomWithin(r.custom, c.custom)
  }

  lemma ListsWithin(a: Grant, c: Grant)
    ensures PathsWithin(CommonPaths(a.filesystem, c.filesystem), c.filesystem)
    ensures ListWithin(Common(a.env, c.env), c.env)
    ensures ListWithin(Common(a.eventSubscriptions, c.eventSubscriptions), c.eventSubscriptions)
  {
    hide PathCovers;
    if a.filesystem.Some? && c.filesystem.Some? {
      forall x | x in Survivors(a.filesystem.value, c.filesystem.value)
        ensures exists q :: q in c.filesystem.value && PathCovers(q, x)
      {
        var pa, pb :| pa in a.filesystem.value && pb in c.filesystem.value && Narrower(pa, pb) == Some(x);
        NarrowerWithCeiling(pa, pb, x);
      }
    }
  }

  lemma StructuresWithin(a: Grant, c: Grant)
    ensures SpawnWithin(TighterSpawn(a.spawnAgents, c.spawnAgents), c.spawnAgents)
    ensures LlmWithin(LlmBoth(a.llm, c.llm), c.llm)
    ensures MemoryWithin(MemoryBoth(a.memory, c.memory), c.memory)
    ensures LessonsWithin(LessonsBoth(a.lessons, c.lessons), c.lessons)
    ensures ScheduleWithin(ScheduleBoth(a.schedule, c.schedule), c.schedule)
    ensures CustomWithin(IntersectCustom(a.custom, c.custom), c.custom)
  {
  }

  /** Field by field, with paths as written, reconciliation never leaves the ceiling, whatever the stored row
      carried. */
  lemma ReconciledWithinCeiling(c: Grant, s: Grant, d: Grant)
    ensures WithinCeiling(Reconciled(Some(c), s, d), c)
  {
    hide Merge, MergedStamps, PathsWithin, ListWithin, SpawnWithin, LlmWithin, MemoryWithin, LessonsWithin,
      ScheduleWithin, CustomWithin, CommonPaths, Common, TighterSpawn, LlmBoth, MemoryBoth, LessonsBoth,
      ScheduleBoth, IntersectCustom;
    ListsWithin(Merge(s, d), c);
    StructuresWithin(Merge(s, d), c);
  }

  /** Every declared field is granted as clamped, whatever was stored; a field not declared keeps the
      clamped stored value. */
  predicate FieldwiseClamped(r: Grant, s: Grant, d: Grant, c: Grant) {
    var dc, sc := IntersectFields(d, c), IntersectFields(s, c);
    && r.network == (if d.network.Some? then dc.network else sc.network)
    && r.filesystem == (if d.filesystem.Some? then dc.filesystem else sc.filesystem)
    && r.shell == (if d.shell.Some? then dc.shell else sc.shell)
    && r.env == (if d.env.Some? then dc.env else sc.env)
    && r.storage == (if d.storage.Some? then dc.storage else sc.storage)
    && r.taskEvents == (if d.taskEvents.Some? then dc.taskEvents else sc.taskEvents)
    && r.spawnAgents == (if d.spawnAgents.Some? then dc.spawnAgents else sc.spawnAgents)
    && r.agentConfig == (if d.agentConfig.Some? then dc.agentConfig else sc.agentConfig)
    && r.eventSubscriptions == (if d.eventSubscriptions.Some? then dc.eventSubscriptions else sc.eventSubscriptions)
    && r.appendMessages == (if d.appendMessages.Some? then dc.appendMessages else sc.appendMessages)
    && r.llm == (if d.llm.Some? then dc.llm else sc.llm)
    && r.memory == (if d.memory.Some? then dc.memory else sc.memory)
    && r.lessons == (if d.lessons.Some? then dc.lessons else sc.lessons)
    && r.schedule == (if d.schedule.Some? then dc.schedule else sc.schedule)
    && r.custom == (if d.custom.Some? && d.custom.value.drafts.Some? then dc.custom else sc.custom)
  }

  lemma ReconciledFieldwise(c: Grant, s: Grant, d: Grant)
    ensures FieldwiseClamped(Reconciled(Some(c), s, d), s, d, c)
  {
    hide CommonHosts, CommonPaths, Common, Both, ExcludeEither, TighterSpawn, ReadBoth,
      LlmBoth, MemoryBoth, LessonsBoth, ScheduleBoth, MergedStamps;
  }

  /** Without a ceiling the declared fields stand, and the stored ones where nothing is declared; of two timestamps
      the stored one. */
  lemma UnclampedFieldwise(s: Grant, d: Grant, key: string)
    ensures var r := Reconciled(None, s, d);
            && r.network == (if d.network.Some? then d.network else s.network)
            && r.filesystem == (if d.filesystem.Some? then d.filesystem else s.filesystem)
            && r.shell == (if d.shell.Some? then d.shell else s.shell)
            && r.env == (if d.env.Some? then d.env else s.env)
            && r.storage == (if d.storage.Some? then d.storage else s.storage)
            && r.taskEvents == (if d.taskEvents.Some? then d.taskEvents else s.taskEvents)
            && r.spawnAgents == (if d.spawnAgents.Some? then d.spawnAgents else s.spawnAgents)
            && r.agentConfig == (if d.agentConfig.Some? then d.agentConfig else s.agentConfig)
            && r.eventSubscriptions ==
               (if d.eventSubscriptions.Some? then d.eventSubscriptions else s.eventSubscriptions)
            && r.appendMessages == (if d.appendMessages.Some? then d.appendMessages else s.appendMessages)
            && r.acceptsCallerCaps == (if d.acceptsCallerCaps.Some? then d.acceptsCallerCaps else s.acceptsCallerCaps)
            && r.escalateChildCaps == (if d.escalateChildCaps.Some? then d.escalateChildCaps else s.escalateChildCaps)
            && r.llm == (if d.llm.Some? then d.llm else s.llm)
            && r.memory == (if d.memory.Some? then d.memory else s.memory)
            && r.lessons == (if d.lessons.Some? then d.lessons else s.lessons)
            && r.schedule == (if d.schedule.Some? then d.schedule else s.schedule)
    ensures var r := Reconciled(None, s, d);
            && (key in r.grantedAt <==> key in s.grantedAt || key in d.grantedAt)
            && (key in s.grantedAt ==> r.grantedAt[key] == s.grantedAt[key])
            && (key in d.grantedAt && key !in s.grantedAt ==> r.grantedAt[key] == d.grantedAt[key])
  {
  }

  /** A surviving permission's first timestamp is never moved later. */
  lemma StampsOnlyAge(c: Grant, s: Grant, d: Grant, key: string)
    requires key in s.grantedAt && Survived(Reconciled(Some(c), s, d), key)
    ensures key in Reconciled(Some(c), s, d).grantedAt
    ensures Reconciled(Some(c), s, d).grantedAt[key] <= s.grantedAt[key]
  {
    hide IntersectFields;
    var out := IntersectFields(Merge(s, d), c);
    assert Survived(out, key);
  }

  // ---- the row ----

  /** A bundled extension's row, as far as reconciliation touches it. */
  class BundledRow {
    var granted: Option<Grant>
    var writes: nat

    constructor (granted: Option<Grant>)
      ensures this.granted == granted && writes == 0
    {
      this.granted, this.writes := granted, 0;
    }

    function Stored(): Grant
      reads this
    {
      if granted.Some? then granted.value else NOTHING
    }

    method ReconcileBundledGrant(ceiling: Option<Grant>, declared: Grant)
      modifies this
      ensures Canon(Reconciled(ceiling, old(Stored()), declared)) == Canon(old(Stored())) ==>
                granted == old(granted) && writes == old(writes)
      ensures Canon(Reconciled(ceiling, old(Stored()), declared)) != Canon(old(Stored())) ==>
                granted == Some(Reconciled(ceiling, old(Stored()), declared)) && writes == old(writes) + 1
    {
      hide Canon, Merge, Intersect;
      var stored := Stored();
      var merged := Merge(stored, declared);
      var reconciled := merged;
      if ceiling.Some? {
        reconciled := IntersectPermissions(merged, ceiling.value);
      }
      if Canon(reconciled) == Canon(stored) { return; }
      granted := Some(reconciled);
      writes := writes + 1;
    }

    /** Any number of boots under the same declaration, each with timestamps of its own: at most the first
        one writes. */
    method Boots(ceiling: Option<Grant>, declared: Grant, stamps: seq<map<string, int>>)
      requires ceiling.Some? ==> ModelsListed(ceiling.value)
      requires forall i :: 0 <= i < |stamps| ==> stamps[i].Keys == declared.grantedAt.Keys
      modifies this
      ensures writes <= old(writes) + 1
      ensures stamps != [] ==>
              Canon(Stored()) == Canon(Reconciled(ceiling, old(Stored()), declared.(grantedAt := stamps[0])))
    {
      hide Canon, Merge, Intersect, ModelsListed, Reconciled;
      if stamps == [] { return; }
      ghost var s := Stored();
      var d := declared.(grantedAt := stamps[0]);
      ReconcileBundledGrant(ceiling, d);
      ReconcileSettles(ceiling, s, d, d);
      ghost var first := Stored();
      ghost var after := writes;
      for i := 1 to |stamps|
        invariant Stored() == first && writes == after
      {
        var d' := declared.(grantedAt := stamps[i]);
        Settled(ceiling, s, first, d, d');
        ReconcileBundledGrant(ceiling, d');
      }
    }
  }

  lemma Settled(ceiling: Option<Grant>, s: Grant, first: Grant, d: Grant, d': Grant)
    requires ceiling.Some? ==> ModelsListed(ceiling.value)
    requires Restamped(d, d')
    requires first == Reconciled(ceiling, s, d) || (first == s && Canon(Reconciled(ceiling, s, d)) == Canon(s))
    ensures Canon(Reconciled(ceiling, first, d')) == Canon(first)
  {
    hide Canon, Reconciled, ModelsListed;
    if first == Reconciled(ceiling, s, d) {
      ReconcileSettles(ceiling, s, d, d');
    } else {
      StampsDoNotMatter(ceiling, s, d, d');
    }
  }
}

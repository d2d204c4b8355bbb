/** When reconciliation takes two grants for the same: what `canonicalGrant` of src/extensions/bundled.ts identifies,
    field by field. */
module GrantForm {
  import opened Wrappers
  import opened Permissions
  import opened PermissionMeet
  import opened Reconcile

  /** The same elements, each as often; a missing list is an empty one. */
  ghost predicate SameList(a: Option<seq<string>>, b: Option<seq<string>>) {
    multiset(ListOf(a)) == multiset(ListOf(b))
  }

  function ModelsFor(o: Option<map<string, seq<string>>>, p: string): seq<string> {
    if o.Some? && p in o.value then o.value[p] else []
  }

  /** Both have some list of models or neither; the same models for each provider. */
  ghost predicate SameModels(a: Option<map<string, seq<string>>>, b: Option<map<string, seq<string>>>) {
    && (a.None? || a.value == map[] <==> b.None? || b.value == map[])
    && forall p :: multiset(ModelsFor(a, p)) == multiset(ModelsFor(b, p))
  }

  ghost predicate SameLlm(a: Option<Llm>, b: Option<Llm>) {
    && (a.Some? <==> b.Some?)
    && (a.Some? ==>
          var l, m := a.value, b.value;
          && multiset(l.providers) == multiset(m.providers) && SameModels(l.allowedModels, m.allowedModels)
          && l.maxCallsPerHour == m.maxCallsPerHour && l.maxCallsPerDay == m.maxCallsPerDay
          && l.maxTokensPerCall == m.maxTokensPerCall && l.maxTokensPerDay == m.maxTokensPerDay
          && l.maxTimeoutMs == m.maxTimeoutMs && l.maxCostCentsPerDay == m.maxCostCentsPerDay)
  }

  ghost predicate SameMemory(a: Option<Memory>, b: Option<Memory>) {
    && (a.Some? <==> b.Some?)
    && (a.Some? ==>
          && SameList(a.value.categories, b.value.categories)
          && a.value.access == b.value.access && a.value.maxWritesPerDay == b.value.maxWritesPerDay
          && a.value.selfOnly == b.value.selfOnly)
  }

  ghost predicate SameSchedule(a: Option<Schedule>, b: Option<Schedule>) {
    && (a.Some? <==> b.Some?)
    && (a.Some? ==>
          && multiset(a.value.crons) == multiset(b.value.crons)
          && a.value.maxRunsPerDay == b.value.maxRunsPerDay
          && a.value.maxRunDurationMs == b.value.maxRunDurationMs
          && a.value.missedRunPolicy == b.value.missedRunPolicy && a.value.maxRetries == b.value.maxRetries)
  }

  predicate EmptyBag(c: Option<Custom>) { c.None? || (c.value.drafts.None? && c.value.other == map[]) }

  /** An empty bag is no bag; draft kinds count as present even when there are none. */
  ghost predicate SameCustom(a: Option<Custom>, b: Option<Custom>) {
    && (EmptyBag(a) <==> EmptyBag(b))
    && (!EmptyBag(a) ==>
          && a.value.other == b.value.other
          && (a.value.drafts.Some? <==> b.value.drafts.Some?)
          && SameList(a.value.drafts, b.value.drafts))
  }

  lemma ListFormIff(a: Option<seq<string>>, b: Option<seq<string>>)
    ensures CanonList(a) == CanonList(b) <==> SameList(a, b)
  {
    assert forall o: Option<seq<string>> :: o.Some? && o.value != [] ==> |multiset(ListOf(o))| > 0;
  }

  lemma ModelsAt(o: Option<map<string, seq<string>>>, p: string)
    ensures CanonModels(o).Some? <==> o.Some? && o.value != map[]
    ensures CanonModels(o).Some? ==>
              (p in CanonModels(o).value <==> multiset(ModelsFor(o, p)) != multiset{})
              && (p in CanonModels(o).value ==> CanonModels(o).value[p] == multiset(ModelsFor(o, p)))
    ensures CanonModels(o).None? ==> ModelsFor(o, p) == []
  {
    NoneWhenEmpty(ModelsFor(o, p));
  }

  lemma ModelsFormIff(a: Option<map<string, seq<string>>>, b: Option<map<string, seq<string>>>)
    ensures CanonModels(a) == CanonModels(b) <==> SameModels(a, b)
  {
    hide CanonModels, ModelsFor;
    var ca, cb := CanonModels(a), CanonModels(b);
    ModelsAt(a, "");
    ModelsAt(b, "");
    if SameModels(a, b) && ca.Some? {
      forall p ensures (p in ca.value <==> p in cb.value) && (p in ca.value ==> ca.value[p] == cb.value[p]) {
        ModelsAt(a, p);
        ModelsAt(b, p);
      }
      assert ca.value == cb.value;
    }
    if ca == cb {
      forall p ensures multiset(ModelsFor(a, p)) == multiset(ModelsFor(b, p)) {
        ModelsAt(a, p);
        ModelsAt(b, p);
      }
    }
  }

  lemma NoneWhenEmpty(s: seq<string>)
    ensures multiset(s) == multiset{} <==> s == []
  {
    if s != [] { assert s[0] in multiset(s); }
  }

  lemma LlmFormIff(a: Option<Llm>, b: Option<Llm>)
    ensures CanonLlmOf(a) == CanonLlmOf(b) <==> SameLlm(a, b)
  {
    hide CanonModels, SameModels, CanonList;
    if a.Some? && b.Some? {
      ListFormIff(Some(a.value.providers), Some(b.value.providers));
      ModelsFormIff(a.value.allowedModels, b.value.allowedModels);
    }
  }

  lemma MemoryFormIff(a: Option<Memory>, b: Option<Memory>)
    ensures CanonMemoryOf(a) == CanonMemoryOf(b) <==> SameMemory(a, b)
  {
    hide CanonList, SameList;
    if a.Some? && b.Some? { ListFormIff(a.value.categories, b.value.categories); }
  }

  lemma ScheduleFormIff(a: Option<Schedule>, b: Option<Schedule>)
    ensures CanonScheduleOf(a) == CanonScheduleOf(b) <==> SameSchedule(a, b)
  {
    hide CanonList;
    if a.Some? && b.Some? { ListFormIff(Some(a.value.crons), Some(b.value.crons)); }
  }

  lemma CustomFormIff(a: Option<Custom>, b: Option<Custom>)
    ensures CanonCustomOf(a) == CanonCustomOf(b) <==> SameCustom(a, b)
  {
  }

  /** Two grants have one canonical form, so that reconciliation writes nothing, exactly when they agree field by
      field: lists up to order, absent as empty, false as absent. */
  lemma SameFormIff(a: Grant, b: Grant)
    ensures Canon(a) == Canon(b) <==>
            && SameList(a.network, b.network) && SameList(a.filesystem, b.filesystem)
            && SameList(a.env, b.env) && SameList(a.eventSubscriptions, b.eventSubscriptions)
            && (a.shell == Some(true) <==> b.shell == Some(true))
            && (a.storage == Some(true) <==> b.storage == Some(true))
            && (a.taskEvents == Some(true) <==> b.taskEvents == Some(true))
            && (a.acceptsCallerCaps == Some(true) <==> b.acceptsCallerCaps == Some(true))
            && (a.escalateChildCaps == Some(true) <==> b.escalateChildCaps == Some(true))
            && a.spawnAgents == b.spawnAgents && a.agentConfig == b.agentConfig
            && a.appendMessages == b.appendMessages && a.lessons == b.lessons
            && SameLlm(a.llm, b.llm) && SameMemory(a.memory, b.memory)
            && SameSchedule(a.schedule, b.schedule) && SameCustom(a.custom, b.custom)
            && a.grantedAt == b.grantedAt
  {
    hide CanonList, SameList, CanonLlmOf, SameLlm, CanonMemoryOf, SameMemory, CanonScheduleOf, SameSchedule,
         CanonCustomOf, SameCustom;
    ListFormIff(a.network, b.network);
    ListFormIff(a.filesystem, b.filesystem);
    ListFormIff(a.env, b.env);
    ListFormIff(a.eventSubscriptions, b.eventSubscriptions);
    LlmFormIff(a.llm, b.llm);
    MemoryFormIff(a.memory, b.memory);
    ScheduleFormIff(a.schedule, b.schedule);
    CustomFormIff(a.custom, b.custom);
    FlagsIff(a, b);
  }

  lemma FlagsIff(a: Grant, b: Grant)
    ensures Canon(a).flags == Canon(b).flags <==>
            && (a.shell == Some(true) <==> b.shell == Some(true))
            && (a.storage == Some(true) <==> b.storage == Some(true))
            && (a.taskEvents == Some(true) <==> b.taskEvents == Some(true))
            && (a.acceptsCallerCaps == Some(true) <==> b.acceptsCallerCaps == Some(true))
            && (a.escalateChildCaps == Some(true) <==> b.escalateChildCaps == Some(true))
  {
    hide CanonList, CanonLlmOf, CanonMemoryOf, CanonScheduleOf, CanonCustomOf;
    var f, g := Canon(a).flags, Canon(b).flags;
    assert f == g <==> f[0] == g[0] && f[1] == g[1] && f[2] == g[2] && f[3] == g[3] && f[4] == g[4];
  }
}

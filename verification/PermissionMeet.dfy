/** The intersection of two grants is, for the decision function, their greatest lower bound. */
module PermissionMeet {
  import opened Wrappers
  import opened Capability
  import opened Permissions

  /** `expandGrantPrefix` of src/extensions/permissions.ts; path resolution against the working directory
      is a parameter. */
  datatype Env = Env(cwd: string, resolve: string -> string)

  function Expand(env: Env, prefix: string): string {
    if prefix == "$CWD" then env.cwd
    else if "$CWD/" <= prefix then env.resolve(prefix[5..])
    else prefix
  }

  // ---- from a grant to capabilities ----

  function ValueCaps(kind: Kind, values: seq<string>): seq<Cap> {
    seq(|values|, i requires 0 <= i < |values| => Cap(kind, Some(values[i])))
  }

  function PathCaps(path: string): seq<Cap> {
    [Cap(FsRead, Some(path)), Cap(FsList, Some(path)), Cap(FsStat, Some(path)), Cap(FsWrite, Some(path))]
  }

  function PathsCaps(env: Env, paths: seq<string>): seq<Cap> {
    if paths == [] then []
    else PathsCaps(env, paths[..|paths| - 1]) + PathCaps(Expand(env, paths[|paths| - 1]))
  }

  function FlagCaps(present: bool, kind: Kind): seq<Cap> { if present then [Cap(kind, None)] else [] }

  function ListOf(o: Option<seq<string>>): seq<string> { if o.Some? then o.value else [] }

  predicate MayAuthor(g: Grant) {
    g.custom.Some? && g.custom.value.drafts.Some? && "extension" in g.custom.value.drafts.value
  }

  /** The capabilities of a grant, in the order they are pushed. */
  function Caps(env: Env, g: Grant): seq<Cap> {
    ValueCaps(Network, LowerAll(ListOf(g.network)))
    + PathsCaps(env, ListOf(g.filesystem))
    + FlagCaps(g.shell == Some(true), Shell)
    + ValueCaps(Kind.Env, ListOf(g.env))
    + FlagCaps(g.storage == Some(true), Storage)
    + FlagCaps(g.taskEvents == Some(true), TasksEmit)
    + FlagCaps(g.agentConfig == Some(Read), Kind.AgentConfig)
    + FlagCaps(g.spawnAgents.Some?, AgentSpawn)
    + ValueCaps(EventsSubscribe, ListOf(g.eventSubscriptions))
    + FlagCaps(g.appendMessages.Some?, ChatAppend)
    + FlagCaps(MayAuthor(g), ExtensionInstall)
    + FlagCaps(MayAuthor(g), ExtensionModify)
  }

  method PushValues(caps: seq<Cap>, kind: Kind, values: seq<string>) returns (r: seq<Cap>)
    ensures r == caps + ValueCaps(kind, values)
  {
    r := caps;
    for i := 0 to |values|
      invariant r == caps + ValueCaps(kind, values)[..i]
    {
      r := r + [Cap(kind, Some(values[i]))];
    }
    assert ValueCaps(kind, values)[..|values|] == ValueCaps(kind, values);
  }

  method PushPaths(env: Env, caps: seq<Cap>, paths: seq<string>) returns (r: seq<Cap>)
    ensures r == caps + PathsCaps(env, paths)
  {
    r := caps;
    for i := 0 to |paths|
      invariant r == caps + PathsCaps(env, paths[..i])
    {
      assert paths[..i + 1][..i] == paths[..i];
      r := r + PathCaps(Expand(env, paths[i]));
    }
    assert paths[..|paths|] == paths;
  }

  lemma CapsAre(env: Env, g: Grant)
    ensures Caps(env, g) ==
            [] + ValueCaps(Network, LowerAll(ListOf(g.network))) + PathsCaps(env, ListOf(g.filesystem))
            + FlagCaps(g.shell == Some(true), Shell) + ValueCaps(Kind.Env, ListOf(g.env))
            + FlagCaps(g.storage == Some(true), Storage) + FlagCaps(g.taskEvents == Some(true), TasksEmit)
            + FlagCaps(g.agentConfig == Some(Read), Kind.AgentConfig) + FlagCaps(g.spawnAgents.Some?, AgentSpawn)
            + ValueCaps(EventsSubscribe, ListOf(g.eventSubscriptions)) + FlagCaps(g.appendMessages.Some?, ChatAppend)
            + FlagCaps(MayAuthor(g), ExtensionInstall) + FlagCaps(MayAuthor(g), ExtensionModify)
  {
    hide ValueCaps, PathsCaps, FlagCaps, MayAuthor, LowerAll, ListOf;
    assert [] + ValueCaps(Network, LowerAll(ListOf(g.network))) == ValueCaps(Network, LowerAll(ListOf(g.network)));
  }

  method GrantsToCapabilitySet(env: Env, grants: Option<Grant>) returns (caps: seq<Cap>)
    ensures caps == if grants.Some? then Caps(env, grants.value) else []
  {
    hide *;
    caps := [];
    if grants.None? { return; }
    var g := grants.value;
    CapsAre(env, g);
    caps := PushValues(caps, Network, LowerAll(ListOf(g.network)));
    caps := PushPaths(env, caps, ListOf(g.filesystem));
    caps := caps + FlagCaps(g.shell == Some(true), Shell);
    caps := PushValues(caps, Kind.Env, ListOf(g.env));
    caps := caps + FlagCaps(g.storage == Some(true), Storage);
    caps := caps + FlagCaps(g.taskEvents == Some(true), TasksEmit);
    caps := caps + FlagCaps(g.agentConfig == Some(Read), Kind.AgentConfig);
    caps := caps + FlagCaps(g.spawnAgents.Some?, AgentSpawn);
    caps := PushValues(caps, EventsSubscribe, ListOf(g.eventSubscriptions));
    caps := caps + FlagCaps(g.appendMessages.Some?, ChatAppend);
    caps := caps + FlagCaps(MayAuthor(g), ExtensionInstall) + FlagCaps(MayAuthor(g), ExtensionModify);
  }

  // ---- the decision, read off the grant ----

  ghost predicate AnyCovers(env: Env, paths: seq<string>, v: string) {
    exists p :: p in paths && PathCovers(Expand(env, p), v)
  }

  /** When a grant allows a needed capability, kind by kind. */
  ghost predicate Allows(env: Env, g: Grant, n: Cap) {
    match n.kind
    case Network => n.value.Some? && n.value.value in LowerAll(ListOf(g.network))
    case FsRead => n.value.Some? && AnyCovers(env, ListOf(g.filesystem), n.value.value)
    case FsWrite => n.value.Some? && AnyCovers(env, ListOf(g.filesystem), n.value.value)
    case FsList => n.value.Some? && AnyCovers(env, ListOf(g.filesystem), n.value.value)
    case FsStat => n.value.Some? && AnyCovers(env, ListOf(g.filesystem), n.value.value)
    case Shell => n.value.None? && g.shell == Some(true)
    case Env => n.value.Some? && n.value.value in ListOf(g.env)
    case Storage => n.value.None? && g.storage == Some(true)
    case ChatAppend => n.value.None? && g.appendMessages.Some?
    case AgentConfig => n.value.None? && g.agentConfig == Some(Read)
    case AgentSpawn => n.value.None? && g.spawnAgents.Some?
    case TasksEmit => n.value.None? && g.taskEvents == Some(true)
    case EventsSubscribe => n.value.Some? && n.value.value in ListOf(g.eventSubscriptions)
    case ExtensionInstall => n.value.None? && MayAuthor(g)
    case ExtensionModify => n.value.None? && MayAuthor(g)
  }

  lemma CoveredSplit(a: seq<Cap>, b: seq<Cap>, n: Cap)
    ensures Covered(a + b, n) <==> Covered(a, n) || Covered(b, n)
  {
    if g :| g in a && CapabilityCovers(g, n) { assert g in a + b; }
    if g :| g in b && CapabilityCovers(g, n) { assert g in a + b; }
  }

  lemma CoveredSplit4(a: seq<Cap>, b: seq<Cap>, c: seq<Cap>, d: seq<Cap>, n: Cap)
    ensures Covered(a + b + c + d, n) <==> Covered(a, n) || Covered(b, n) || Covered(c, n) || Covered(d, n)
  {
    hide Covered;
    CoveredSplit(a, b, n);
    CoveredSplit(a + b, c, n);
    CoveredSplit(a + b + c, d, n);
  }

  lemma ValueCapsCover(kind: Kind, values: seq<string>, n: Cap)
    requires !IsFs(kind)
    ensures Covered(ValueCaps(kind, values), n) <==> n.kind == kind && n.value.Some? && n.value.value in values
  {
    if n.kind == kind && n.value.Some? && n.value.value in values {
      var i :| 0 <= i < |values| && values[i] == n.value.value;
      assert ValueCaps(kind, values)[i] == n;
      assert n in ValueCaps(kind, values);
    }
  }

  lemma FlagCapsCover(present: bool, kind: Kind, n: Cap)
    ensures Covered(FlagCaps(present, kind), n) <==> present && n.kind == kind && n.value.None?
  {
    if present { assert Cap(kind, None) in FlagCaps(present, kind); }
  }

  lemma PathCapsCover(path: string, n: Cap)
    ensures Covered(PathCaps(path), n) <==> IsFs(n.kind) && n.value.Some? && PathCovers(path, n.value.value)
  {
    assert Cap(n.kind, Some(path)) in PathCaps(path) <==> IsFs(n.kind);
    assert forall g :: g in PathCaps(path) ==> IsFs(g.kind) && g.value == Some(path);
  }

  lemma {:induction false} PathsCapsCover(env: Env, paths: seq<string>, n: Cap)
    ensures Covered(PathsCaps(env, paths), n) <==>
            IsFs(n.kind) && n.value.Some? && AnyCovers(env, paths, n.value.value)
  {
    hide PathCovers, Expand, PathCaps;
    if paths != [] {
      var init, last := paths[..|paths| - 1], paths[|paths| - 1];
      PathsCapsCover(env, init, n);
      PathCapsCover(Expand(env, last), n);
      CoveredSplit(PathsCaps(env, init), PathCaps(Expand(env, last)), n);
      if n.value.Some? {
        var v := n.value.value;
        assert AnyCovers(env, paths, v) <==> AnyCovers(env, init, v) || PathCovers(Expand(env, last), v) by {
          assert forall p :: p in paths <==> p in init || p == last;
        }
      }
    }
  }

  /** `Allows`, as the pushes of `grantsToCapabilitySet` list it. */
  ghost predicate SomePushAllows(env: Env, g: Grant, n: Cap) {
    || (n.kind == Network && n.value.Some? && n.value.value in LowerAll(ListOf(g.network)))
    || (IsFs(n.kind) && n.value.Some? && AnyCovers(env, ListOf(g.filesystem), n.value.value))
    || (g.shell == Some(true) && n.kind == Shell && n.value.None?)
    || (n.kind == Kind.Env && n.value.Some? && n.value.value in ListOf(g.env))
    || (g.storage == Some(true) && n.kind == Storage && n.value.None?)
    || (g.taskEvents == Some(true) && n.kind == TasksEmit && n.value.None?)
    || (g.agentConfig == Some(Read) && n.kind == Kind.AgentConfig && n.value.None?)
    || (g.spawnAgents.Some? && n.kind == AgentSpawn && n.value.None?)
    || (n.kind == EventsSubscribe && n.value.Some? && n.value.value in ListOf(g.eventSubscriptions))
    || (g.appendMessages.Some? && n.kind == ChatAppend && n.value.None?)
    || (MayAuthor(g) && n.kind == ExtensionInstall && n.value.None?)
    || (MayAuthor(g) && n.kind == ExtensionModify && n.value.None?)
  }

  lemma PushesAllow(env: Env, g: Grant, n: Cap)
    ensures SomePushAllows(env, g, n) <==> Allows(env, g, n)
  {
    hide AnyCovers, MayAuthor, LowerAll, ListOf;
  }

  /** A capability set covers exactly what the grant allows. */
  lemma CapsDecide(env: Env, g: Grant, n: Cap)
    ensures Covered(Caps(env, g), n) <==> Allows(env, g, n)
  {
    hide Covered, ValueCaps, PathsCaps, FlagCaps, AnyCovers, MayAuthor, LowerAll, ListOf, Allows;
    PushesAllow(env, g, n);
    var c1 := ValueCaps(Network, LowerAll(ListOf(g.network)));
    var c2 := PathsCaps(env, ListOf(g.filesystem));
    var c3 := FlagCaps(g.shell == Some(true), Shell);
    var c4 := ValueCaps(Kind.Env, ListOf(g.env));
    var c5 := FlagCaps(g.storage == Some(true), Storage);
    var c6 := FlagCaps(g.taskEvents == Some(true), TasksEmit);
    var c7 := FlagCaps(g.agentConfig == Some(Read), Kind.AgentConfig);
    var c8 := FlagCaps(g.spawnAgents.Some?, AgentSpawn);
    var c9 := ValueCaps(EventsSubscribe, ListOf(g.eventSubscriptions));
    var c10 := FlagCaps(g.appendMessages.Some?, ChatAppend);
    var c11 := FlagCaps(MayAuthor(g), ExtensionInstall);
    var c12 := FlagCaps(MayAuthor(g), ExtensionModify);
    CoveredSplit(c1, c2, n);
    CoveredSplit4(c1 + c2, c3, c4, c5, n);
    CoveredSplit4(c1 + c2 + c3 + c4 + c5, c6, c7, c8, n);
    CoveredSplit4(c1 + c2 + c3 + c4 + c5 + c6 + c7 + c8, c9, c10, c11, n);
    CoveredSplit(c1 + c2 + c3 + c4 + c5 + c6 + c7 + c8 + c9 + c10 + c11, c12, n);
    ValueCapsCover(Network, LowerAll(ListOf(g.network)), n);
    PathsCapsCover(env, ListOf(g.filesystem), n);
    FlagCapsCover(g.shell == Some(true), Shell, n);
    ValueCapsCover(Kind.Env, ListOf(g.env), n);
    FlagCapsCover(g.storage == Some(true), Storage, n);
    FlagCapsCover(g.taskEvents == Some(true), TasksEmit, n);
    FlagCapsCover(g.agentConfig == Some(Read), Kind.AgentConfig, n);
    FlagCapsCover(g.spawnAgents.Some?, AgentSpawn, n);
    ValueCapsCover(EventsSubscribe, ListOf(g.eventSubscriptions), n);
    FlagCapsCover(g.appendMessages.Some?, ChatAppend, n);
    FlagCapsCover(MayAuthor(g), ExtensionInstall, n);
    FlagCapsCover(MayAuthor(g), ExtensionModify, n);
  }

  // ---- the meet, one kind of field at a time ----

  lemma CommonHostsMeet(a: Option<seq<string>>, b: Option<seq<string>>, v: string)
    ensures v in LowerAll(ListOf(CommonHosts(a, b))) <==> v in LowerAll(ListOf(a)) && v in LowerAll(ListOf(b))
  {
    if a.Some? && b.Some? {
      CommonHostsAreLower(a.value, b.value);
    }
  }

  lemma CommonMeet(a: Option<seq<string>>, b: Option<seq<string>>, v: string)
    ensures v in ListOf(Common(a, b)) <==> v in ListOf(a) && v in ListOf(b)
  {
  }

  lemma CustomMeet(a: Grant, b: Grant, at: map<string, int>)
    ensures MayAuthor(IntersectFields(a, b).(grantedAt := at)) <==> MayAuthor(a) && MayAuthor(b)
  {
    hide CommonHosts, CommonPaths, Common;
    if MayAuthor(a) && MayAuthor(b) {
      var kinds := FilterIn(b.custom.value.drafts.value, a.custom.value.drafts.value);
      assert "extension" in kinds;
    }
  }

  /** Both hourly quotas of two spawn grants leave something. */
  predicate SpawnSurvives(a: Grant, b: Grant) {
    a.spawnAgents.Some? && b.spawnAgents.Some? ==>
      0 < a.spawnAgents.value.maxPerHour && 0 < b.spawnAgents.value.maxPerHour
  }

  /** Paths nested as written are nested once expanded, as far as the side that wrote the wider one goes. */
  ghost predicate NestedStaysInside(env: Env, a: seq<string>, b: seq<string>) {
    forall pa, pb :: pa in a && pb in b && PathCovers(pa, pb) ==> AnyCovers(env, a, Expand(env, pb))
  }

  /** Some two listed paths, nested as written, have a narrower one that expands above `v`. */
  ghost predicate NestedAbove(env: Env, a: seq<string>, b: seq<string>, v: string) {
    exists pa, pb :: pa in a && pb in b && NarrowerAbove(env, pa, pb, v)
  }

  predicate NarrowerAbove(env: Env, pa: string, pb: string, v: string) {
    (PathCovers(pa, pb) && PathCovers(Expand(env, pb), v)) || (PathCovers(pb, pa) && PathCovers(Expand(env, pa), v))
  }

  /** Where two expanded paths are nested, the narrower is below a pair nested as written. */
  ghost predicate ExpandedNestingWritten(env: Env, a: seq<string>, b: seq<string>) {
    forall pa, pb :: pa in a && pb in b ==>
      (PathCovers(Expand(env, pa), Expand(env, pb)) ==> NestedAbove(env, a, b, Expand(env, pb)))
      && (PathCovers(Expand(env, pb), Expand(env, pa)) ==> NestedAbove(env, a, b, Expand(env, pa)))
  }

  /** A check over the listed paths, before and after expansion. */
  ghost predicate PathsMeet(env: Env, a: seq<string>, b: seq<string>) {
    NestedStaysInside(env, a, b) && NestedStaysInside(env, b, a) && ExpandedNestingWritten(env, a, b)
  }

  /** What the surviving paths cover. */
  lemma SurvivorsCover(env: Env, a: seq<string>, b: seq<string>, v: string)
    ensures AnyCovers(env, Survivors(a, b), v) <==> NestedAbove(env, a, b, v)
  {
    hide Expand, PathCovers;
    if s :| s in Survivors(a, b) && PathCovers(Expand(env, s), v) {
      var pa, pb :| pa in a && pb in b && Narrower(pa, pb) == Some(s);
      assert NarrowerAbove(env, pa, pb, v);
    }
    if pa, pb :| pa in a && pb in b && NarrowerAbove(env, pa, pb, v) {
      NarrowerIsNarrower(pa, pb);
      var s := Narrower(pa, pb).value;
      assert s in Survivors(a, b);
      if PathCovers(pa, pb) && PathCovers(pb, pa) { PathCoversAntisymmetric(pa, pb); }
    }
  }

  lemma CoversDown(env: Env, paths: seq<string>, u: string, v: string)
    requires AnyCovers(env, paths, u) && PathCovers(u, v)
    ensures AnyCovers(env, paths, v)
  {
    var p :| p in paths && PathCovers(Expand(env, p), u);
    PathCoversTransitive(Expand(env, p), u, v);
  }

  /** The surviving paths allow nothing that `a` does not if and only if `a`'s nesting survives expansion. */
  lemma SurvivorsInsideIff(env: Env, a: seq<string>, b: seq<string>)
    ensures (forall v :: AnyCovers(env, Survivors(a, b), v) ==> AnyCovers(env, a, v)) <==> NestedStaysInside(env, a, b)
  {
    hide Expand, PathCovers, Survivors;
    if NestedStaysInside(env, a, b) {
      forall v | AnyCovers(env, Survivors(a, b), v) ensures AnyCovers(env, a, v) {
        SurvivorsCover(env, a, b, v);
        var pa, pb :| pa in a && pb in b && NarrowerAbove(env, pa, pb, v);
        if PathCovers(pa, pb) && PathCovers(Expand(env, pb), v) { CoversDown(env, a, Expand(env, pb), v); }
      }
    }
    if forall v :: AnyCovers(env, Survivors(a, b), v) ==> AnyCovers(env, a, v) {
      forall pa, pb | pa in a && pb in b && PathCovers(pa, pb) ensures AnyCovers(env, a, Expand(env, pb)) {
        var v := Expand(env, pb);
        PathCoversItself(v);
        assert NarrowerAbove(env, pa, pb, v);
        SurvivorsCover(env, a, b, v);
      }
    }
  }

  lemma NestedAboveSwaps(env: Env, a: seq<string>, b: seq<string>, v: string)
    ensures NestedAbove(env, a, b, v) <==> NestedAbove(env, b, a, v)
  {
    hide Expand, PathCovers;
    if pa, pb :| pa in a && pb in b && NarrowerAbove(env, pa, pb, v) { assert NarrowerAbove(env, pb, pa, v); }
    if pa, pb :| pa in b && pb in a && NarrowerAbove(env, pa, pb, v) { assert NarrowerAbove(env, pb, pa, v); }
  }

  /** The order of the two lists does not matter to what survives. */
  lemma SurvivorsSwap(env: Env, a: seq<string>, b: seq<string>, v: string)
    ensures AnyCovers(env, Survivors(a, b), v) <==> AnyCovers(env, Survivors(b, a), v)
  {
    hide *;
    SurvivorsCover(env, a, b, v);
    SurvivorsCover(env, b, a, v);
    NestedAboveSwaps(env, a, b, v);
  }

  lemma SurvivorsInside(env: Env, a: seq<string>, b: seq<string>, v: string)
    requires NestedStaysInside(env, a, b) && NestedStaysInside(env, b, a) && AnyCovers(env, Survivors(a, b), v)
    ensures AnyCovers(env, a, v) && AnyCovers(env, b, v)
  {
    hide *;
    SurvivorsInsideIff(env, a, b);
    SurvivorsInsideIff(env, b, a);
    SurvivorsSwap(env, a, b, v);
  }

  lemma SurvivorsMeet(env: Env, a: seq<string>, b: seq<string>, v: string)
    requires PathsMeet(env, a, b)
    ensures AnyCovers(env, Survivors(a, b), v) <==> AnyCovers(env, a, v) && AnyCovers(env, b, v)
  {
    hide Expand, PathCovers, Survivors, NestedStaysInside;
    SurvivorsCover(env, a, b, v);
    if AnyCovers(env, Survivors(a, b), v) { SurvivorsInside(env, a, b, v); }
    if pa, pb :| pa in a && pb in b && PathCovers(Expand(env, pa), v) && PathCovers(Expand(env, pb), v) {
      var ea, eb := Expand(env, pa), Expand(env, pb);
      PathCoversLinear(ea, eb, v);
      NestedAboveDown(env, a, b, if PathCovers(ea, eb) then eb else ea, v);
    }
  }

  lemma NestedAboveDown(env: Env, a: seq<string>, b: seq<string>, u: string, v: string)
    requires NestedAbove(env, a, b, u) && PathCovers(u, v)
    ensures NestedAbove(env, a, b, v)
  {
    hide Expand, PathCovers;
    var pa, pb :| pa in a && pb in b && NarrowerAbove(env, pa, pb, u);
    if PathCovers(pa, pb) && PathCovers(Expand(env, pb), u) { PathCoversTransitive(Expand(env, pb), u, v); }
    if PathCovers(pb, pa) && PathCovers(Expand(env, pa), u) { PathCoversTransitive(Expand(env, pa), u, v); }
    assert NarrowerAbove(env, pa, pb, v);
  }

  lemma PathsMeetNeeded(env: Env, a: seq<string>, b: seq<string>)
    requires forall v :: AnyCovers(env, Survivors(a, b), v) <==> AnyCovers(env, a, v) && AnyCovers(env, b, v)
    ensures PathsMeet(env, a, b)
  {
    hide Expand, Survivors, NestedStaysInside, PathCovers;
    forall v ensures AnyCovers(env, Survivors(b, a), v) ==> AnyCovers(env, b, v) { SurvivorsSwap(env, a, b, v); }
    SurvivorsInsideIff(env, a, b);
    SurvivorsInsideIff(env, b, a);
    forall pa, pb | pa in a && pb in b
      ensures PathCovers(Expand(env, pa), Expand(env, pb)) ==> NestedAbove(env, a, b, Expand(env, pb))
      ensures PathCovers(Expand(env, pb), Expand(env, pa)) ==> NestedAbove(env, a, b, Expand(env, pa))
    {
      PathCoversItself(Expand(env, pa));
      PathCoversItself(Expand(env, pb));
      SurvivorsCover(env, a, b, Expand(env, pa));
      SurvivorsCover(env, a, b, Expand(env, pb));
    }
  }

  /** Two written paths nest exactly as they do once expanded. */
  predicate NestAlike(env: Env, p: string, q: string) {
    PathCovers(p, q) <==> PathCovers(Expand(env, p), Expand(env, q))
  }

  predicate AllNestAlike(env: Env, ps: seq<string>, qs: seq<string>) {
    forall p, q :: p in ps && q in qs ==> NestAlike(env, p, q) && NestAlike(env, q, p)
  }

  /** Paths that nest alike before and after expansion always pass the check. */
  lemma AlikePathsMeet(env: Env, a: seq<string>, b: seq<string>)
    requires AllNestAlike(env, a, b)
    ensures PathsMeet(env, a, b)
  {
    hide Expand, PathCovers;
    forall pa, pb | pa in a && pb in b
      ensures PathCovers(Expand(env, pa), Expand(env, pb)) ==> NestedAbove(env, a, b, Expand(env, pb))
      ensures PathCovers(Expand(env, pb), Expand(env, pa)) ==> NestedAbove(env, a, b, Expand(env, pa))
    {
      assert NestAlike(env, pa, pb) && NestAlike(env, pb, pa);
      PathCoversItself(Expand(env, pa));
      PathCoversItself(Expand(env, pb));
      if PathCovers(pa, pb) { assert NarrowerAbove(env, pa, pb, Expand(env, pb)); }
      if PathCovers(pb, pa) { assert NarrowerAbove(env, pa, pb, Expand(env, pa)); }
    }
    forall pa, pb | pa in a && pb in b && PathCovers(pa, pb) ensures AnyCovers(env, a, Expand(env, pb)) {
      assert NestAlike(env, pa, pb);
    }
    forall pa, pb | pa in a && pb in b && PathCovers(pb, pa) ensures AnyCovers(env, b, Expand(env, pa)) {
      assert NestAlike(env, pb, pa);
    }
  }

  /** Paths without `$CWD` nest alike. */
  lemma AbsolutePathsAlike(env: Env, p: string, q: string)
    requires Expand(env, p) == p && Expand(env, q) == q
    ensures NestAlike(env, p, q)
  {
  }

  /** `$CWD`, or a `$CWD/…` that resolves straight below the working directory. */
  predicate Rooted(env: Env, p: string) {
    p == "$CWD" || ("$CWD/" <= p && env.resolve(p[5..]) == env.cwd + p[4..])
  }

  /** So do paths all written below `$CWD`. */
  lemma RootedPathsAlike(env: Env, p: string, q: string)
    requires Rooted(env, p) && Rooted(env, q)
    ensures NestAlike(env, p, q)
  {
    RootedExpands(env, p);
    RootedExpands(env, q);
    PrefixNesting("$CWD", p[4..], q[4..]);
    PrefixNesting(env.cwd, p[4..], q[4..]);
  }

  lemma RootedExpands(env: Env, p: string)
    requires Rooted(env, p)
    ensures |p| >= 4 && p == "$CWD" + p[4..] && Expand(env, p) == env.cwd + p[4..]
  {
    if p == "$CWD" {
      assert env.cwd + p[4..] == env.cwd;
    } else {
      assert p[..5] == "$CWD/" && "$CWD/"[..4] == "$CWD" && p[..4] == p[..5][..4];
      assert p != "$CWD";
    }
  }

  lemma PrefixNesting(root: string, u: string, w: string)
    ensures PathCovers(root + u, root + w) <==> PathCovers(u, w)
  {
    if PathCovers(root + u, root + w) {
      assert (root + w)[|root|..] == w && (root + u)[|root|..] == u;
      if root + w != root + u {
        assert (root + w)[..|root| + |u| + 1] == root + u + "/";
        assert w[..|u| + 1] == (root + w)[|root|..|root| + |u| + 1] == u + "/";
      }
    }
    if PathCovers(u, w) && w != u {
      assert w == u + "/" + w[|u| + 1..];
      assert root + w == (root + u + "/") + w[|u| + 1..];
    }
  }

  lemma PathCoversItself(p: string)
    ensures PathCovers(p, p)
  {
  }

  lemma NarrowerIsNarrower(pa: string, pb: string)
    ensures PathCovers(pa, pb) ==> Narrower(pa, pb) == Some(pb)
    ensures PathCovers(pb, pa) ==> Narrower(pa, pb) == Some(pa)
  {
    if PathCovers(pa, pb) && PathCovers(pb, pa) {
      PathCoversAntisymmetric(pa, pb);
    }
  }

  // ---- the theorem ----

  /** Needed capabilities are allowed by the intersection exactly when both sides allow them. */
  ghost predicate MeetExact(env: Env, a: Grant, b: Grant) {
    forall n :: Allows(env, Intersect(a, b), n) <==> Allows(env, a, n) && Allows(env, b, n)
  }

  ghost predicate MeetCondition(env: Env, a: Grant, b: Grant) {
    SpawnSurvives(a, b) && PathsMeet(env, ListOf(a.filesystem), ListOf(b.filesystem))
  }

  lemma CommonPathsMeet(env: Env, a: Option<seq<string>>, b: Option<seq<string>>, v: string)
    requires PathsMeet(env, ListOf(a), ListOf(b))
    ensures AnyCovers(env, ListOf(CommonPaths(a, b)), v) <==>
            AnyCovers(env, ListOf(a), v) && AnyCovers(env, ListOf(b), v)
  {
    hide PathsMeet, PathCovers, Expand;
    if a.Some? && b.Some? {
      SurvivorsMeet(env, a.value, b.value, v);
    }
  }

  lemma MeetOfAllowed(env: Env, a: Grant, b: Grant, n: Cap)
    requires MeetCondition(env, a, b)
    ensures Allows(env, Intersect(a, b), n) <==> Allows(env, a, n) && Allows(env, b, n)
  {
    hide AnyCovers, PathsMeet, Common, CommonHosts, CommonPaths, MayAuthor, MergedStamps, LowerAll, ListOf;
    if n.value.Some? {
      CommonHostsMeet(a.network, b.network, n.value.value);
      CommonPathsMeet(env, a.filesystem, b.filesystem, n.value.value);
      CommonMeet(a.env, b.env, n.value.value);
      CommonMeet(a.eventSubscriptions, b.eventSubscriptions, n.value.value);
    }
    CustomMeet(a, b, Intersect(a, b).grantedAt);
  }

  /** The intersection is the exact meet if and only if the hourly spawn quotas are positive and the listed paths
      nest before expansion as far as they do after it. */
  lemma MeetExactIff(env: Env, a: Grant, b: Grant)
    ensures MeetExact(env, a, b) <==> MeetCondition(env, a, b)
  {
    hide Intersect, Allows, PathsMeet;
    if MeetCondition(env, a, b) {
      forall n ensures Allows(env, Intersect(a, b), n) <==> Allows(env, a, n) && Allows(env, b, n) {
        MeetOfAllowed(env, a, b, n);
      }
    }
    if MeetExact(env, a, b) {
      ExactNeedsSpawn(env, a, b);
      ExactNeedsPaths(env, a, b);
    }
  }

  lemma ExactNeedsSpawn(env: Env, a: Grant, b: Grant)
    requires MeetExact(env, a, b)
    ensures SpawnSurvives(a, b)
  {
    hide AnyCovers, CommonHosts, CommonPaths, Common, MergedStamps;
    var n := Cap(AgentSpawn, None);
    assert Allows(env, Intersect(a, b), n) <==> Allows(env, a, n) && Allows(env, b, n);
  }

  lemma ExactNeedsPaths(env: Env, a: Grant, b: Grant)
    requires MeetExact(env, a, b)
    ensures PathsMeet(env, ListOf(a.filesystem), ListOf(b.filesystem))
  {
    hide AnyCovers, Survivors, PathsMeet, CommonHosts, Common, MergedStamps;
    var pa, pb := ListOf(a.filesystem), ListOf(b.filesystem);
    forall v ensures AnyCovers(env, Survivors(pa, pb), v) <==> AnyCovers(env, pa, v) && AnyCovers(env, pb, v) {
      var n := Cap(FsRead, Some(v));
      assert Allows(env, Intersect(a, b), n) <==> Allows(env, a, n) && Allows(env, b, n);
      EmptySurvivors(pa, pb);
    }
    PathsMeetNeeded(env, pa, pb);
  }

  lemma EmptySurvivors(a: seq<string>, b: seq<string>)
    ensures a == [] || b == [] ==> Survivors(a, b) == []
    decreases |a|
  {
    if b == [] && a != [] {
      EmptySurvivors(a[..|a| - 1], b);
    }
  }

  /** The same about the decision the engine takes: a needed set against capability sets. */
  lemma NeededSetMeet(env: Env, a: Grant, b: Grant, needed: seq<Cap>)
    requires MeetCondition(env, a, b)
    ensures (forall n :: n in needed ==> Covered(Caps(env, Intersect(a, b)), n)) <==>
            (forall n :: n in needed ==> Covered(Caps(env, a), n)) &&
              (forall n :: n in needed ==> Covered(Caps(env, b), n))
  {
    hide Caps, Intersect, MeetCondition, Covered, Allows;
    forall n | n in needed
      ensures Covered(Caps(env, Intersect(a, b)), n) <==> Covered(Caps(env, a), n) && Covered(Caps(env, b), n)
    {
      MeetOfAllowed(env, a, b, n);
      CapsDecide(env, a, n);
      CapsDecide(env, b, n);
      CapsDecide(env, Intersect(a, b), n);
    }
  }

  // ---- nested clipping ----

  ghost predicate PositiveQuota(g: Grant) { g.spawnAgents.Some? ==> 0 < g.spawnAgents.value.maxPerHour }

  /** The grants' paths, taken together, nest before expansion as they do after it: all absolute, all below `$CWD`,
      or any other consistent spelling. */
  ghost predicate Consistent(env: Env, a: Grant, b: Grant) {
    && PositiveQuota(a) && PositiveQuota(b)
    && AllNestAlike(env, ListOf(a.filesystem), ListOf(b.filesystem))
  }

  lemma ConsistentMeets(env: Env, a: Grant, b: Grant)
    requires Consistent(env, a, b)
    ensures MeetCondition(env, a, b)
  {
    hide Expand, PathCovers, PathsMeet, AllNestAlike;
    AlikePathsMeet(env, ListOf(a.filesystem), ListOf(b.filesystem));
  }

  /** Intersecting brings in no new spelling. */
  lemma ConsistentAfter(env: Env, a: Grant, b: Grant, c: Grant)
    requires Consistent(env, a, c) && Consistent(env, b, c)
    ensures Consistent(env, Intersect(a, b), c) && Consistent(env, c, Intersect(a, b))
  {
    hide Expand, PathCovers, MergedStamps, CommonHosts, Common, NestAlike;
    var i := Intersect(a, b);
    assert ListOf(i.filesystem) == ListOf(CommonPaths(a.filesystem, b.filesystem));
    SurvivorsListed(a.filesystem, b.filesystem);
    assert PositiveQuota(i);
  }

  lemma SurvivorsListed(a: Option<seq<string>>, b: Option<seq<string>>)
    ensures forall p :: p in ListOf(CommonPaths(a, b)) ==> p in ListOf(a) || p in ListOf(b)
  {
    hide PathCovers;
    if a.Some? && b.Some? {
      forall p | p in Survivors(a.value, b.value) ensures p in a.value || p in b.value {
        var pa, pb :| pa in a.value && pb in b.value && Narrower(pa, pb) == Some(p);
      }
    }
  }

  /** Clipping a chain of grants allows exactly what every one of them allows, whatever the order and
      nesting; in particular it only ever shrinks. */
  lemma NestedClipping(env: Env, a: Grant, b: Grant, c: Grant, n: Cap)
    requires Consistent(env, a, b) && Consistent(env, a, c) && Consistent(env, b, c)
    ensures Allows(env, Intersect(Intersect(a, b), c), n) <==>
            Allows(env, a, n) && Allows(env, b, n) && Allows(env, c, n)
    ensures Allows(env, Intersect(a, Intersect(b, c)), n) <==>
            Allows(env, a, n) && Allows(env, b, n) && Allows(env, c, n)
    ensures Allows(env, Intersect(b, a), n) <==> Allows(env, Intersect(a, b), n)
  {
    hide Allows, Intersect, MeetCondition, PathCovers, Expand;
    ConsistentAfter(env, a, b, c);
    ConsistentAfter(env, b, c, a);
    ConsistentMeets(env, a, b);
    ConsistentMeets(env, b, c);
    ConsistentMeets(env, b, a);
    ConsistentMeets(env, Intersect(a, b), c);
    ConsistentMeets(env, a, Intersect(b, c));
    MeetOfAllowed(env, a, b, n);
    MeetOfAllowed(env, b, a, n);
    MeetOfAllowed(env, b, c, n);
    MeetOfAllowed(env, Intersect(a, b), c, n);
    MeetOfAllowed(env, a, Intersect(b, c), n);
  }

  /** Grants whose paths are all absolute are consistent, and so are grants whose paths are all below `$CWD`. */
  lemma SpelledAlikeConsistent(env: Env, a: Grant, b: Grant)
    requires PositiveQuota(a) && PositiveQuota(b)
    requires var all := ListOf(a.filesystem) + ListOf(b.filesystem);
             (forall p :: p in all ==> Expand(env, p) == p) || (forall p :: p in all ==> Rooted(env, p))
    ensures Consistent(env, a, b)
  {
    hide Expand, Rooted, NestAlike;
    var all := ListOf(a.filesystem) + ListOf(b.filesystem);
    forall p, q | p in all && q in all ensures NestAlike(env, p, q) {
      if forall x :: x in all ==> Expand(env, x) == x {
        AbsolutePathsAlike(env, p, q);
      } else {
        RootedPathsAlike(env, p, q);
      }
    }
  }

  /** Mixed spellings lose a grant: `$CWD` on one side, the same directory spelled out on the other. */
  lemma MixedRootsLoseAccess(env: Env)
    requires env.cwd == "/work"
    ensures !MeetExact(env, NOTHING.(filesystem := Some(["$CWD"])), NOTHING.(filesystem := Some(["/work"])))
  {
    var a, b := NOTHING.(filesystem := Some(["$CWD"])), NOTHING.(filesystem := Some(["/work"]));
    MeetExactIff(env, a, b);
    hide Intersect, MeetExact;
    assert ("$CWD" + "/")[0] == '$' && "/work"[0] == '/';
    assert !PathCovers("$CWD", "/work") && !PathCovers("/work", "$CWD");
    assert forall x :: x !in Survivors(["$CWD"], ["/work"]);
    assert Expand(env, "$CWD") == "/work" && Expand(env, "/work") == "/work";
    assert "$CWD" in ["$CWD"] && "/work" in ["/work"];
  }
}

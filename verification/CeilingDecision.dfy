/** What clamping to a ceiling means for the decision: paths are compared as written when grants are intersected
    (src/extensions/capability-types.ts, src/extensions/bundled-ceiling.ts) and expanded when capabilities are
    checked. */
module CeilingDecision {
  import opened Wrappers
  import opened Capability
  import opened Permissions
  import opened PermissionMeet
  import opened Reconcile

  /** Apart from paths, an intersection allows nothing that either side does not. */
  lemma OtherKindsInside(env: Env, a: Grant, c: Grant, n: Cap)
    requires !IsFs(n.kind) && Allows(env, Intersect(a, c), n)
    ensures Allows(env, a, n) && Allows(env, c, n)
  {
    hide AnyCovers, Common, CommonHosts, CommonPaths, MayAuthor, MergedStamps, LowerAll, ListOf;
    if n.value.Some? {
      CommonHostsMeet(a.network, c.network, n.value.value);
      CommonMeet(a.env, c.env, n.value.value);
      CommonMeet(a.eventSubscriptions, c.eventSubscriptions, n.value.value);
    }
    CustomMeet(a, c, Intersect(a, c).grantedAt);
  }

  lemma PathsAllowed(env: Env, a: Grant, c: Grant, n: Cap)
    requires IsFs(n.kind)
    ensures Allows(env, c, n) <==> n.value.Some? && AnyCovers(env, ListOf(c.filesystem), n.value.value)
    ensures Allows(env, Intersect(a, c), n) <==>
            n.value.Some? && AnyCovers(env, Survivors(ListOf(a.filesystem), ListOf(c.filesystem)), n.value.value)
  {
    hide AnyCovers, Survivors, MergedStamps, CommonHosts, Common;
    EmptySurvivors(ListOf(a.filesystem), ListOf(c.filesystem));
  }

  /** Each path that lies below a ceiling path as written still lies below one once expanded. */
  ghost predicate PathsStayInside(env: Env, requested: Grant, ceiling: Grant) {
    NestedStaysInside(env, ListOf(ceiling.filesystem), ListOf(requested.filesystem))
  }

  /** An intersection allows nothing beyond its second side if and only if the first side's paths stay inside it. */
  lemma InsideIff(env: Env, a: Grant, c: Grant)
    ensures (forall n :: Allows(env, Intersect(a, c), n) ==> Allows(env, c, n)) <==> PathsStayInside(env, a, c)
  {
    hide Intersect, Allows, AnyCovers, Survivors, NestedStaysInside;
    var pa, pc := ListOf(a.filesystem), ListOf(c.filesystem);
    SurvivorsInsideIff(env, pc, pa);
    if PathsStayInside(env, a, c) {
      forall n | Allows(env, Intersect(a, c), n) ensures Allows(env, c, n) {
        if IsFs(n.kind) {
          PathsAllowed(env, a, c, n);
          SurvivorsSwap(env, pa, pc, n.value.value);
        } else {
          OtherKindsInside(env, a, c, n);
        }
      }
    }
    if forall n :: Allows(env, Intersect(a, c), n) ==> Allows(env, c, n) {
      forall v | AnyCovers(env, Survivors(pc, pa), v) ensures AnyCovers(env, pc, v) {
        SurvivorsSwap(env, pa, pc, v);
        PathsAllowed(env, a, c, Cap(FsRead, Some(v)));
      }
    }
  }

  /** A reconciled grant allows only what its ceiling allows if and only if the paths it was merged from, those
      declared or else those stored, stay inside the ceiling once expanded. */
  lemma ReconciledInsideIff(env: Env, c: Grant, s: Grant, d: Grant)
    ensures (forall n :: Allows(env, Reconciled(Some(c), s, d), n) ==> Allows(env, c, n)) <==>
            NestedStaysInside(env, ListOf(c.filesystem), ListOf(Pick(s.filesystem, d.filesystem)))
  {
    hide Intersect, Allows, NestedStaysInside;
    InsideIff(env, Merge(s, d), c);
  }

  /** They do when the two lists are spelled alike, all absolute or all straight below `$CWD`. */
  lemma SpelledAlikeStaysInside(env: Env, c: Grant, s: Grant, d: Grant, n: Cap)
    requires var all := ListOf(c.filesystem) + ListOf(Pick(s.filesystem, d.filesystem));
             (forall p :: p in all ==> Expand(env, p) == p) || (forall p :: p in all ==> Rooted(env, p))
    requires Allows(env, Reconciled(Some(c), s, d), n)
    ensures Allows(env, c, n)
  {
    hide Expand, Rooted, NestAlike, Intersect, Allows, PathCovers;
    var pc, pm := ListOf(c.filesystem), ListOf(Pick(s.filesystem, d.filesystem));
    forall p, q | p in pc && q in pm && PathCovers(p, q) ensures AnyCovers(env, pc, Expand(env, q)) {
      if forall x :: x in pc + pm ==> Expand(env, x) == x {
        AbsolutePathsAlike(env, p, q);
      } else {
        RootedPathsAlike(env, p, q);
      }
      NestedExpanded(env, pc, p, q);
    }
    ReconciledInsideIff(env, c, s, d);
  }

  lemma NestedExpanded(env: Env, pc: seq<string>, p: string, q: string)
    requires p in pc && PathCovers(p, q) && NestAlike(env, p, q)
    ensures AnyCovers(env, pc, Expand(env, q))
  {
  }

  const DOTTED := "$CWD/../keys"
  const ROOT := "$CWD"

  lemma DottedPathExpandsOutside(env: Env)
    requires env.cwd == "/srv/app" && env.resolve("../keys") == "/srv/keys"
    ensures PathCovers(ROOT, DOTTED) && Expand(env, DOTTED) == "/srv/keys" && Expand(env, ROOT) == "/srv/app"
    ensures PathCovers(Expand(env, DOTTED), "/srv/keys") && !PathCovers(Expand(env, ROOT), "/srv/keys")
  {
    assert ROOT + "/" <= DOTTED && DOTTED[5..] == "../keys";
    assert "/srv/keys"[5] != ("/srv/app" + "/")[5];
  }

  /** `$CWD/../keys` lies below `$CWD` as written and outside it once expanded: the reconciled grant is within the
      ceiling field by field, and allows a read the ceiling does not. */
  lemma DottedPathLeavesCeiling(env: Env)
    requires env.cwd == "/srv/app" && env.resolve("../keys") == "/srv/keys"
    ensures var c, s := NOTHING.(filesystem := Some([ROOT])), NOTHING.(filesystem := Some([DOTTED]));
            var n := Cap(FsRead, Some("/srv/keys"));
            && WithinCeiling(Reconciled(Some(c), s, NOTHING), c)
            && Allows(env, Reconciled(Some(c), s, NOTHING), n) && !Allows(env, c, n)
  {
    hide Intersect, WithinCeiling, Allows, ROOT, DOTTED, Expand, PathCovers, Survivors;
    var c, s := NOTHING.(filesystem := Some([ROOT])), NOTHING.(filesystem := Some([DOTTED]));
    ReconciledWithinCeiling(c, s, NOTHING);
    PathsAllowed(env, Merge(s, NOTHING), c, Cap(FsRead, Some("/srv/keys")));
    DottedPathExpandsOutside(env);
    SurvivorsCover(env, [DOTTED], [ROOT], "/srv/keys");
    assert DOTTED in [DOTTED] && ROOT in [ROOT];
    assert NarrowerAbove(env, DOTTED, ROOT, "/srv/keys");
  }
}

/** Capabilities and the policy decision of src/extensions/capability-types.ts. */
module Capability {
  import opened Wrappers

  datatype Kind =
    | Network | FsRead | FsWrite | FsList | FsStat | Shell | Env | Storage
    | ChatAppend | AgentConfig | AgentSpawn | TasksEmit | EventsSubscribe | ExtensionInstall | ExtensionModify

  datatype Cap = Cap(kind: Kind, value: Option<string>)

  predicate IsFs(k: Kind) { k in {FsRead, FsWrite, FsList, FsStat} }

  /** `/foo` covers `/foo` and `/foo/bar`, not `/foobar`. */
  predicate PathCovers(g: string, n: string) { n == g || g + "/" <= n }

  predicate CapabilityCovers(g: Cap, n: Cap) {
    && g.kind == n.kind
    && match (g.value, n.value)
       case (None, None) => true
       case (Some(gv), Some(nv)) => if IsFs(g.kind) then PathCovers(gv, nv) else gv == nv
       case _ => false
  }

  ghost predicate Covered(granted: seq<Cap>, n: Cap) {
    exists g :: g in granted && CapabilityCovers(g, n)
  }

  /** `granted.some((g) => capabilityCovers(g, n))`. */
  predicate HasCover(granted: seq<Cap>, n: Cap)
    ensures HasCover(granted, n) <==> Covered(granted, n)
  {
    if granted == [] then false
    else
      assert forall g :: g in granted <==> g == granted[0] || g in granted[1..];
      CapabilityCovers(granted[0], n) || HasCover(granted[1..], n)
  }

  /** The decision: every needed capability is covered by some granted one. */
  method IsSubset(needed: seq<Cap>, granted: seq<Cap>) returns (ok: bool)
    ensures ok <==> forall n :: n in needed ==> Covered(granted, n)
  {
    for i := 0 to |needed|
      invariant forall k :: 0 <= k < i ==> Covered(granted, needed[k])
    {
      if !HasCover(granted, needed[i]) {
        var missing := needed[i];
        assert missing in needed;
        return false;
      }
    }
    return true;
  }

  // ---- paths ----

  lemma PathCoversTransitive(a: string, b: string, c: string)
    requires PathCovers(a, b) && PathCovers(b, c)
    ensures PathCovers(a, c)
  {
  }

  lemma PathCoversAntisymmetric(a: string, b: string)
    requires PathCovers(a, b) && PathCovers(b, a)
    ensures a == b
  {
  }

  /** Two paths above the same path are comparable. */
  lemma PathCoversLinear(a: string, b: string, n: string)
    requires PathCovers(a, n) && PathCovers(b, n)
    ensures PathCovers(a, b) || PathCovers(b, a)
  {
    if n != a && n != b {
      assert n[..|a|] == a && n[..|b|] == b && n[|a|] == '/' && n[|b|] == '/';
      if |a| < |b| {
        assert b == n[..|b|] && b[..|a|] == a && b[|a|] == '/';
        assert a + "/" <= b;
      } else if |b| < |a| {
        assert a == n[..|a|] && a[..|b|] == b && a[|b|] == '/';
        assert b + "/" <= a;
      } else {
        assert a == b;
      }
    }
  }
}

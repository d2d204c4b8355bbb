/** `intersect` of src/extensions/capability-types.ts, which clips a callee to its caller's capabilities, measured
    against the decision `isSubset` takes. */
module CapabilityIntersect {
  import opened Wrappers
  import opened Capability

  /** `keyOf`: a missing value and an empty one share a key. */
  datatype Key = Key(kind: Kind, value: string)

  function KeyOf(c: Cap): Key { Key(c.kind, if c.value.Some? then c.value.value else "") }

  ghost predicate HasKeyIn(caps: seq<Cap>, k: Key) { exists c :: c in caps && KeyOf(c) == k }

  /** The first capability of `a` under each key that `b` has too. */
  method Intersect(a: seq<Cap>, b: seq<Cap>) returns (out: seq<Cap>)
    ensures Clipped(a, b, out)
  {
    var seen := set i | 0 <= i < |b| :: KeyOf(b[i]);
    out := [];
    var dedup: set<Key> := {};
    for i := 0 to |a|
      invariant forall k :: k in dedup <==> HasKeyIn(out, k)
      invariant forall c :: c in out ==> FirstOfKey(a, c) && KeyOf(c) in seen
      invariant forall j :: 0 <= j < i && KeyOf(a[j]) in seen ==> KeyOf(a[j]) in dedup
      invariant forall x, y :: 0 <= x < y < |out| ==> KeyOf(out[x]) != KeyOf(out[y])
    {
      var k := KeyOf(a[i]);
      if k in seen && k !in dedup {
        forall x | 0 <= x < |out| ensures KeyOf(out[x]) != k { assert out[x] in out; }
        KeysPush(out, a[i]);
        assert FirstOfKey(a, a[i]);
        dedup := dedup + {k};
        out := out + [a[i]];
      }
    }
    forall c | c in a && HasKeyIn(b, KeyOf(c)) ensures HasKeyIn(out, KeyOf(c)) {
      var i :| 0 <= i < |a| && a[i] == c;
    }
  }

  lemma KeysPush(out: seq<Cap>, c: Cap)
    ensures forall k :: HasKeyIn(out + [c], k) <==> HasKeyIn(out, k) || KeyOf(c) == k
  {
    forall k ensures HasKeyIn(out + [c], k) <==> HasKeyIn(out, k) || KeyOf(c) == k {
      if x :| x in out && KeyOf(x) == k { assert x in out + [c]; }
      assert c in out + [c];
    }
  }

  /** `c` is the first capability of `a` under its key. */
  ghost predicate FirstOfKey(a: seq<Cap>, c: Cap) {
    exists i :: 0 <= i < |a| && a[i] == c && forall j :: 0 <= j < i ==> KeyOf(a[j]) != KeyOf(c)
  }

  /** `out` has the first capability of `a` under every key of both, and no other. */
  ghost predicate Clipped(a: seq<Cap>, b: seq<Cap>, out: seq<Cap>) {
    && (forall c :: c in out ==> FirstOfKey(a, c) && HasKeyIn(b, KeyOf(c)))
    && (forall c :: c in a && HasKeyIn(b, KeyOf(c)) ==> HasKeyIn(out, KeyOf(c)))
    && forall x, y :: 0 <= x < y < |out| ==> KeyOf(out[x]) != KeyOf(out[y])
  }

  // ---- against the decision ----

  lemma CoversItself(c: Cap)
    ensures CapabilityCovers(c, c)
  {
  }

  lemma CoversTransitive(x: Cap, y: Cap, z: Cap)
    requires CapabilityCovers(x, y) && CapabilityCovers(y, z)
    ensures CapabilityCovers(x, z)
  {
    if IsFs(x.kind) && x.value.Some? && y.value.Some? && z.value.Some? {
      PathCoversTransitive(x.value.value, y.value.value, z.value.value);
    }
  }

  lemma CoversLinear(x: Cap, y: Cap, n: Cap)
    requires CapabilityCovers(x, n) && CapabilityCovers(y, n)
    ensures CapabilityCovers(x, y) || CapabilityCovers(y, x)
  {
    if IsFs(n.kind) && x.value.Some? && y.value.Some? && n.value.Some? {
      PathCoversLinear(x.value.value, y.value.value, n.value.value);
    }
  }

  /** What is clipped decides exactly as both sets together. */
  ghost predicate Meets(a: seq<Cap>, b: seq<Cap>, out: seq<Cap>) {
    forall n :: Covered(out, n) <==> Covered(a, n) && Covered(b, n)
  }

  lemma FirstsAgree(a: seq<Cap>, c: Cap, d: Cap)
    requires FirstOfKey(a, c) && FirstOfKey(a, d) && KeyOf(c) == KeyOf(d)
    ensures c == d
  {
    var i :| 0 <= i < |a| && a[i] == c && forall j :: 0 <= j < i ==> KeyOf(a[j]) != KeyOf(c);
    var k :| 0 <= k < |a| && a[k] == d && forall j :: 0 <= j < k ==> KeyOf(a[j]) != KeyOf(d);
  }

  /** The capability is the one `a` lists first under its key, and `b` has the key. */
  ghost predicate KeyShared(a: seq<Cap>, b: seq<Cap>, z: Cap) { FirstOfKey(a, z) && HasKeyIn(b, KeyOf(z)) }

  lemma ClippedIs(a: seq<Cap>, b: seq<Cap>, out: seq<Cap>, z: Cap)
    requires Clipped(a, b, out)
    ensures z in out <==> KeyShared(a, b, z)
  {
    if KeyShared(a, b, z) {
      FirstListed(a, z);
      assert HasKeyIn(out, KeyOf(z));
      var c :| c in out && KeyOf(c) == KeyOf(z);
      FirstsAgree(a, c, z);
    }
  }

  lemma FirstListed(a: seq<Cap>, z: Cap)
    requires FirstOfKey(a, z)
    ensures z in a
  {
  }

  /** A missing and an empty value share a key: what is shared by key must be shared outright. */
  ghost predicate SharedOutright(a: seq<Cap>, b: seq<Cap>) { forall z :: KeyShared(a, b, z) ==> z in b }

  ghost predicate SharedAbove(a: seq<Cap>, b: seq<Cap>, n: Cap) {
    exists z :: KeyShared(a, b, z) && CapabilityCovers(z, n)
  }

  /** Whenever one side's grant covers the other side's, a shared one covers the narrower of the two. */
  ghost predicate NarrowerShared(a: seq<Cap>, b: seq<Cap>) {
    forall x, y :: x in a && y in b ==>
      (CapabilityCovers(x, y) ==> SharedAbove(a, b, y)) && (CapabilityCovers(y, x) ==> SharedAbove(a, b, x))
  }

  lemma SharedCovers(a: seq<Cap>, b: seq<Cap>, out: seq<Cap>, n: Cap)
    requires Clipped(a, b, out)
    ensures Covered(out, n) <==> SharedAbove(a, b, n)
  {
    hide CapabilityCovers, Clipped, KeyShared;
    if c :| c in out && CapabilityCovers(c, n) { ClippedIs(a, b, out, c); }
    if z :| KeyShared(a, b, z) && CapabilityCovers(z, n) { ClippedIs(a, b, out, z); }
  }

  /** A capability that shares its key with one of `b` is covered by `b` only if it is one of `b`. */
  lemma CoveredShared(a: seq<Cap>, b: seq<Cap>, z: Cap)
    requires KeyShared(a, b, z)
    ensures Covered(b, z) <==> z in b
  {
    var d :| d in b && KeyOf(d) == KeyOf(z);
    if z in b { CoversItself(z); }
  }

  /** The exact-match intersection is the meet of the two decisions if and only if what is shared by key is shared
      outright and, of any two nested grants, the narrower is below a shared one. */
  lemma MeetsIff(a: seq<Cap>, b: seq<Cap>, out: seq<Cap>)
    requires Clipped(a, b, out)
    ensures Meets(a, b, out) <==> SharedOutright(a, b) && NarrowerShared(a, b)
  {
    if SharedOutright(a, b) && NarrowerShared(a, b) { SharedMeets(a, b, out); }
    if Meets(a, b, out) { MeetsNeedsShared(a, b, out); }
  }

  lemma SharedMeets(a: seq<Cap>, b: seq<Cap>, out: seq<Cap>)
    requires Clipped(a, b, out) && SharedOutright(a, b) && NarrowerShared(a, b)
    ensures Meets(a, b, out)
  {
    hide CapabilityCovers, Clipped, KeyShared;
    forall n ensures Covered(out, n) <==> Covered(a, n) && Covered(b, n) {
      SharedCovers(a, b, out, n);
      if z :| KeyShared(a, b, z) && CapabilityCovers(z, n) { KeyListed(a, b, z); }
      if Covered(a, n) && Covered(b, n) {
        var x :| x in a && CapabilityCovers(x, n);
        var y :| y in b && CapabilityCovers(y, n);
        CoversLinear(x, y, n);
        SharedAboveDown(a, b, if CapabilityCovers(x, y) then y else x, n);
      }
    }
  }

  lemma KeyListed(a: seq<Cap>, b: seq<Cap>, z: Cap)
    requires KeyShared(a, b, z)
    ensures z in a
  {
  }

  lemma SharedAboveDown(a: seq<Cap>, b: seq<Cap>, y: Cap, n: Cap)
    requires SharedAbove(a, b, y) && CapabilityCovers(y, n)
    ensures SharedAbove(a, b, n)
  {
    hide CapabilityCovers, KeyShared;
    var z :| KeyShared(a, b, z) && CapabilityCovers(z, y);
    CoversTransitive(z, y, n);
  }

  lemma MeetsNeedsShared(a: seq<Cap>, b: seq<Cap>, out: seq<Cap>)
    requires Clipped(a, b, out) && Meets(a, b, out)
    ensures SharedOutright(a, b) && NarrowerShared(a, b)
  {
    hide CapabilityCovers, Clipped, KeyShared;
    forall z | KeyShared(a, b, z) ensures z in b {
      ClippedIs(a, b, out, z);
      CoversItself(z);
      assert Covered(out, z);
      CoveredShared(a, b, z);
    }
    forall x, y | x in a && y in b
      ensures CapabilityCovers(x, y) ==> SharedAbove(a, b, y)
      ensures CapabilityCovers(y, x) ==> SharedAbove(a, b, x)
    {
      CoversItself(x);
      CoversItself(y);
      SharedCovers(a, b, out, x);
      SharedCovers(a, b, out, y);
    }
  }

  predicate NoEmptyValues(caps: seq<Cap>) { forall c :: c in caps ==> c.value != Some("") }

  /** Without empty values, a capability is shared by key exactly when both sides list it. */
  lemma SharedIsListed(a: seq<Cap>, b: seq<Cap>, z: Cap)
    requires NoEmptyValues(a) && NoEmptyValues(b)
    ensures KeyShared(a, b, z) <==> z in a && z in b
  {
    if z in a && z in b { FirstIfListed(a, z); }
  }

  lemma {:induction false} FirstIfListed(a: seq<Cap>, z: Cap)
    requires NoEmptyValues(a) && z in a
    ensures FirstOfKey(a, z)
  {
    if a[0] == z {
      assert a[0] == z;
    } else {
      assert z in a[1..];
      FirstIfListed(a[1..], z);
      var i :| 0 <= i < |a[1..]| && a[1..][i] == z && forall j :: 0 <= j < i ==> KeyOf(a[1..][j]) != KeyOf(z);
      assert a[i + 1] == z && a[0] in a;
      forall j | 0 <= j < i + 1 ensures KeyOf(a[j]) != KeyOf(z) {
        if 0 < j { assert a[j] == a[1..][j - 1]; }
      }
    }
  }

  ghost predicate ListedAbove(a: seq<Cap>, b: seq<Cap>, n: Cap) {
    exists z :: z in a && z in b && CapabilityCovers(z, n)
  }

  /** So without empty values the condition is about the listed capabilities only: whenever one side's grant covers
      the other side's, one listed on both sides covers the narrower. */
  lemma MeetsWithoutEmptyIff(a: seq<Cap>, b: seq<Cap>, out: seq<Cap>)
    requires Clipped(a, b, out) && NoEmptyValues(a) && NoEmptyValues(b)
    ensures Meets(a, b, out) <==>
            forall x, y :: x in a && y in b ==>
              (CapabilityCovers(x, y) ==> ListedAbove(a, b, y)) && (CapabilityCovers(y, x) ==> ListedAbove(a, b, x))
  {
    hide CapabilityCovers, Clipped, KeyShared, Meets, NoEmptyValues;
    MeetsIff(a, b, out);
    forall z ensures KeyShared(a, b, z) <==> z in a && z in b { SharedIsListed(a, b, z); }
    assert SharedOutright(a, b);
    forall n ensures SharedAbove(a, b, n) <==> ListedAbove(a, b, n) {
      if z :| KeyShared(a, b, z) && CapabilityCovers(z, n) {}
      if z :| z in a && z in b && CapabilityCovers(z, n) { assert KeyShared(a, b, z); }
    }
  }

  /** Without empty values, clipping never widens either side. */
  lemma NeverWider(a: seq<Cap>, b: seq<Cap>, out: seq<Cap>, n: Cap)
    requires Clipped(a, b, out) && NoEmptyValues(a) && NoEmptyValues(b) && Covered(out, n)
    ensures Covered(a, n) && Covered(b, n)
  {
    hide CapabilityCovers;
    var c :| c in out && CapabilityCovers(c, n);
    var d :| d in b && KeyOf(d) == KeyOf(c);
    assert d == c;
  }

  /** Without empty values and without one path strictly inside another, it is exact. */
  lemma FlatPathsMeet(a: seq<Cap>, b: seq<Cap>, out: seq<Cap>)
    requires Clipped(a, b, out) && NoEmptyValues(a) && NoEmptyValues(b)
    requires forall x, y :: x in a && y in b && (CapabilityCovers(x, y) || CapabilityCovers(y, x)) ==> x == y
    ensures Meets(a, b, out)
  {
    hide CapabilityCovers;
    forall x, y | x in a && y in b
      ensures CapabilityCovers(x, y) ==> ListedAbove(a, b, y)
      ensures CapabilityCovers(y, x) ==> ListedAbove(a, b, x)
    {
      CoversItself(x);
    }
    MeetsWithoutEmptyIff(a, b, out);
  }

  lemma NothingIn(caps: seq<Cap>)
    ensures (forall c :: c !in caps) ==> caps == []
  {
    if caps != [] { assert caps[0] in caps; }
  }

  /** A caller's wide directory and a callee's narrow one: both allow the file, the intersection is empty. */
  lemma NestedPathsAreLost(out: seq<Cap>)
    requires Clipped([Cap(FsRead, Some("/work"))], [Cap(FsRead, Some("/work/src"))], out)
    ensures out == [] && !Meets([Cap(FsRead, Some("/work"))], [Cap(FsRead, Some("/work/src"))], out)
  {
    var a, b := [Cap(FsRead, Some("/work"))], [Cap(FsRead, Some("/work/src"))];
    assert |"/work/src"| != |"/work"|;
    NothingIn(out);
    assert "/work" + "/" <= "/work/src";
    assert CapabilityCovers(a[0], b[0]) && a[0] in a && b[0] in b;
    CoversItself(b[0]);
    assert Covered(a, b[0]) && Covered(b, b[0]) && !Covered(out, b[0]);
  }
}

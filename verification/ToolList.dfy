/** `canonicalizeAndHash` over a whole tool list, and `verifyManifestAgainstLock`, of
    src/extensions/bundled-lock.ts. */
module ToolList {
  import opened Wrappers
  import opened ManifestLock

  type Tool = Fields

  /** A tool definition: an object with a string name. */
  predicate Named(t: Tool) {
    UniqueKeys(t) && ProperFields(t) && Get(t, "name").Some? && Get(t, "name").value.Str?
  }

  predicate AllNamed(ts: seq<Tool>) { forall t :: t in ts ==> Named(t) }

  function NameOf(t: Tool): string {
    if Get(t, "name").Some? && Get(t, "name").value.Str? then Get(t, "name").value.s else ""
  }

  /** `a.name.localeCompare(b.name) <= 0`: a total preorder on names. */
  type Collation = (string, string) -> bool

  ghost predicate Orders(le: Collation) {
    && (forall a, b :: le(a, b) || le(b, a))
    && forall a, b, c :: le(a, b) && le(b, c) ==> le(a, c)
  }

  // ---- the stable sort by name ----

  function InsertTool(t: Tool, ts: seq<Tool>, le: Collation): seq<Tool> {
    if ts == [] || le(NameOf(t), NameOf(ts[0])) then [t] + ts else [ts[0]] + InsertTool(t, ts[1..], le)
  }

  function SortTools(ts: seq<Tool>, le: Collation): seq<Tool> {
    if ts == [] then [] else InsertTool(ts[0], SortTools(ts[1..], le), le)
  }

  predicate SortedTools(ts: seq<Tool>, le: Collation) {
    ts == [] || (SortedTools(ts[1..], le) && forall u :: u in ts[1..] ==> le(NameOf(ts[0]), NameOf(u)))
  }

  lemma {:induction false} InsertToolSorted(t: Tool, ts: seq<Tool>, le: Collation)
    requires Orders(le) && SortedTools(ts, le)
    ensures SortedTools(InsertTool(t, ts, le), le)
    ensures forall u :: u in InsertTool(t, ts, le) <==> u == t || u in ts
  {
    hide NameOf;
    if ts == [] || le(NameOf(t), NameOf(ts[0])) {
      assert ([t] + ts)[1..] == ts;
      forall u | u in ts ensures le(NameOf(t), NameOf(u)) {
        if u != ts[0] { assert u in ts[1..]; }
      }
    } else {
      InsertToolSorted(t, ts[1..], le);
      var rest := InsertTool(t, ts[1..], le);
      assert ([ts[0]] + rest)[1..] == rest;
    }
  }

  lemma {:induction false} SortToolsSorted(ts: seq<Tool>, le: Collation)
    requires Orders(le)
    ensures SortedTools(SortTools(ts, le), le)
    ensures forall u :: u in SortTools(ts, le) <==> u in ts
  {
    if ts != [] {
      SortToolsSorted(ts[1..], le);
      InsertToolSorted(ts[0], SortTools(ts[1..], le), le);
      assert ts == [ts[0]] + ts[1..];
    }
  }

  lemma {:induction false} SortedIsFixed(ts: seq<Tool>, le: Collation)
    requires SortedTools(ts, le)
    ensures SortTools(ts, le) == ts
  {
    if ts != [] {
      SortedIsFixed(ts[1..], le);
      if |ts| > 1 { assert ts[1..][0] == ts[1]; }
      assert ts == [ts[0]] + ts[1..];
    }
  }

  // ---- canonical lists ----

  function CanonTools(ts: seq<Tool>): (r: seq<Tool>)
    ensures |r| == |ts| && forall i :: 0 <= i < |ts| ==> r[i] == CanonFields(ts[i])
  {
    if ts == [] then [] else [CanonFields(ts[0])] + CanonTools(ts[1..])
  }

  function CanonicalList(ts: seq<Tool>, le: Collation): seq<Tool> { CanonTools(SortTools(ts, le)) }

  /** A tool as the hash sees it. */
  function ToolKey(t: Tool): Tool { ImageFields(CanonFields(t)) }

  /** The list as the hash sees it. */
  function Serialized(ts: seq<Tool>): (r: seq<Tool>)
    ensures |r| == |ts| && forall i :: 0 <= i < |ts| ==> r[i] == ImageFields(ts[i])
  {
    if ts == [] then [] else [ImageFields(ts[0])] + Serialized(ts[1..])
  }

  function ToolKeys(ts: seq<Tool>): (r: seq<Tool>)
    ensures |r| == |ts| && forall i :: 0 <= i < |ts| ==> r[i] == ToolKey(ts[i])
  {
    if ts == [] then [] else [ToolKey(ts[0])] + ToolKeys(ts[1..])
  }

  /** What is hashed. */
  function HashInput(ts: seq<Tool>, le: Collation): seq<Tool> { Serialized(CanonicalList(ts, le)) }

  lemma KeepsName(t: Tool)
    requires Named(t)
    ensures NameOf(CanonFields(t)) == NameOf(t) == NameOf(ToolKey(t))
    ensures Named(CanonFields(t))
  {
    CanonFieldsIs(t);
    ImageFieldsIs(CanonFields(t));
    CanonKeepsProper(Obj(t));
  }

  // ---- the same list of tools ----

  function Without(us: seq<Tool>, j: nat): seq<Tool>
    requires j < |us|
  {
    us[..j] + us[j + 1..]
  }

  /** The two lists can be paired off, each pair equal up to the order of object members. */
  ghost predicate SameTools(ts: seq<Tool>, us: seq<Tool>)
    decreases |ts|, 1
  {
    if ts == [] then us == []
    else exists j: nat :: j < |us| && PairsOff(ts, us, j)
  }

  ghost predicate PairsOff(ts: seq<Tool>, us: seq<Tool>, j: nat)
    requires ts != [] && j < |us|
    decreases |ts|, 0
  {
    SameFields(ts[0], us[j]) && SameTools(ts[1..], Without(us, j))
  }

  /** Tools whose names the collation cannot tell apart are the same tool. */
  predicate TiesAlike(ts: seq<Tool>, le: Collation) {
    forall t, u :: t in ts && u in ts && le(NameOf(t), NameOf(u)) && le(NameOf(u), NameOf(t)) ==>
      ToolKey(t) == ToolKey(u)
  }

  lemma SameToolIff(t: Tool, u: Tool)
    requires Named(t) && Named(u)
    ensures SameFields(t, u) <==> ToolKey(t) == ToolKey(u)
  {
    FieldsIff(t, u);
    KeyFields(t);
    KeyFields(u);
  }

  lemma KeysJoin(a: seq<Tool>, b: seq<Tool>)
    ensures ToolKeys(a + b) == ToolKeys(a) + ToolKeys(b)
  {
    hide *;
  }

  lemma MultisetMiddle(a: seq<Tool>, k: Tool, b: seq<Tool>)
    ensures multiset(a + ([k] + b)) == multiset{k} + multiset(a + b)
  {
    hide *;
  }

  lemma SplitAt(us: seq<Tool>, j: nat)
    requires j < |us|
    ensures us == us[..j] + ([us[j]] + us[j + 1..])
  {
    hide *;
  }

  lemma KeysWithout(us: seq<Tool>, j: nat)
    requires j < |us|
    ensures multiset(ToolKeys(us)) == multiset{ToolKey(us[j])} + multiset(ToolKeys(Without(us, j)))
  {
    hide ToolKeys, ToolKey;
    var before, after := us[..j], us[j + 1..];
    SplitAt(us, j);
    KeysJoin(before, [us[j]] + after);
    KeysJoin([us[j]], after);
    KeysJoin(before, after);
    OneKey(us[j]);
    MultisetMiddle(ToolKeys(before), ToolKey(us[j]), ToolKeys(after));
  }

  lemma OneKey(t: Tool)
    ensures ToolKeys([t]) == [ToolKey(t)]
  {
    hide *;
  }

  lemma KeyInKeys(us: seq<Tool>, k: Tool) returns (j: nat)
    requires k in multiset(ToolKeys(us))
    ensures j < |us| && ToolKey(us[j]) == k
  {
    hide *;
    var keys := ToolKeys(us);
    assert k in keys;
    j :| 0 <= j < |keys| && keys[j] == k;
  }

  lemma {:induction false} SameToolsIff(ts: seq<Tool>, us: seq<Tool>)
    requires AllNamed(ts) && AllNamed(us)
    ensures SameTools(ts, us) <==> multiset(ToolKeys(ts)) == multiset(ToolKeys(us))
    decreases |ts|, 1
  {
    hide ToolKeys, ToolKey, SameFields, Named;
    if ts == [] {
      assert ToolKeys(ts) == [];
      assert |multiset(ToolKeys(us))| == |us|;
    } else {
      forall j: nat | j < |us|
        ensures PairsOff(ts, us, j) <==>
                ToolKey(us[j]) == ToolKey(ts[0]) && multiset(ToolKeys(us)) == multiset(ToolKeys(ts))
      {
        PairIff(ts, us, j);
      }
      if multiset(ToolKeys(ts)) == multiset(ToolKeys(us)) {
        KeysWithout(ts, 0);
        assert ToolKey(ts[0]) in multiset(ToolKeys(us));
        var j := KeyInKeys(us, ToolKey(ts[0]));
        assert PairsOff(ts, us, j);
      }
    }
  }

  lemma {:induction false} PairIff(ts: seq<Tool>, us: seq<Tool>, j: nat)
    requires AllNamed(ts) && AllNamed(us) && ts != [] && j < |us|
    ensures PairsOff(ts, us, j) <==>
            ToolKey(us[j]) == ToolKey(ts[0]) && multiset(ToolKeys(us)) == multiset(ToolKeys(ts))
    decreases |ts|, 0
  {
    hide ToolKeys, ToolKey, SameFields, Named;
    assert ts[0] in ts && us[j] in us;
    SameToolIff(ts[0], us[j]);
    KeysWithout(ts, 0);
    assert Without(ts, 0) == ts[1..];
    KeysWithout(us, j);
    SameToolsIff(ts[1..], Without(us, j));
    var one, a, b := multiset{ToolKey(ts[0])}, multiset(ToolKeys(ts[1..])), multiset(ToolKeys(Without(us, j)));
    if one + a == one + b {
      assert a == one + a - one && b == one + b - one;
    }
  }

  // ---- the sort does not show in the hash input ----

  lemma {:induction false} KeysOfInsert(t: Tool, ts: seq<Tool>, le: Collation)
    ensures multiset(ToolKeys(InsertTool(t, ts, le))) == multiset{ToolKey(t)} + multiset(ToolKeys(ts))
  {
    hide NameOf, ToolKeys, ToolKey;
    if ts == [] || le(NameOf(t), NameOf(ts[0])) {
      KeysJoin([t], ts);
      OneKey(t);
    } else {
      KeysOfInsert(t, ts[1..], le);
      KeysJoin([ts[0]], InsertTool(t, ts[1..], le));
      KeysJoin([ts[0]], ts[1..]);
      assert ts == [ts[0]] + ts[1..];
    }
  }

  lemma {:induction false} KeysOfSort(ts: seq<Tool>, le: Collation)
    ensures multiset(ToolKeys(SortTools(ts, le))) == multiset(ToolKeys(ts))
  {
    if ts != [] {
      KeysOfSort(ts[1..], le);
      KeysOfInsert(ts[0], SortTools(ts[1..], le), le);
      assert ToolKeys(ts) == [ToolKey(ts[0])] + ToolKeys(ts[1..]);
    }
  }

  lemma HashInputIs(ts: seq<Tool>, le: Collation)
    ensures HashInput(ts, le) == ToolKeys(SortTools(ts, le))
  {
  }

  /** Two name-sorted lists of keys with the same elements are equal if ties are alike. */
  lemma {:induction false} SortedKeysUnique(xs: seq<Tool>, ys: seq<Tool>, le: Collation)
    requires SortedTools(xs, le) && SortedTools(ys, le) && multiset(xs) == multiset(ys)
    requires forall x, y :: x in xs && y in xs && le(NameOf(x), NameOf(y)) && le(NameOf(y), NameOf(x)) ==> x == y
    ensures xs == ys
  {
    hide NameOf;
    assert |ys| == |multiset(ys)| == |multiset(xs)| == |xs|;
    if xs != [] {
      assert xs[0] in multiset(ys) && ys[0] in multiset(xs);
      assert xs[0] in ys && ys[0] in xs;
      assert xs[0] == ys[0];
      TailMultiset(xs);
      TailMultiset(ys);
      assert forall x :: x in xs[1..] ==> x in xs;
      SortedKeysUnique(xs[1..], ys[1..], le);
    }
  }

  lemma TailMultiset(xs: seq<Tool>)
    requires xs != []
    ensures multiset(xs[1..]) == multiset(xs) - multiset{xs[0]} && xs == [xs[0]] + xs[1..]
  {
    hide *;
    assert xs == [xs[0]] + xs[1..];
  }

  // ---- the canonical list ----

  lemma {:induction false} KeysNames(ts: seq<Tool>)
    requires AllNamed(ts)
    ensures forall i :: 0 <= i < |ts| ==> NameOf(ToolKeys(ts)[i]) == NameOf(ts[i])
  {
    hide NameOf, ToolKey, Named;
    forall i | 0 <= i < |ts| ensures NameOf(ToolKeys(ts)[i]) == NameOf(ts[i]) {
      assert ts[i] in ts;
      KeepsName(ts[i]);
    }
  }

  lemma {:induction false} SortedByNames(ts: seq<Tool>, us: seq<Tool>, le: Collation)
    requires |ts| == |us| && SortedTools(ts, le) && forall i :: 0 <= i < |ts| ==> NameOf(us[i]) == NameOf(ts[i])
    ensures SortedTools(us, le)
  {
    if ts != [] {
      hide NameOf;
      forall i | 0 <= i < |ts| - 1 ensures NameOf(us[1..][i]) == NameOf(ts[1..][i]) {
        assert us[1..][i] == us[i + 1] && ts[1..][i] == ts[i + 1];
      }
      SortedByNames(ts[1..], us[1..], le);
      forall u | u in us[1..] ensures le(NameOf(us[0]), NameOf(u)) {
        var i :| 0 <= i < |us[1..]| && us[1..][i] == u;
        assert ts[1..][i] in ts[1..];
      }
    }
  }

  lemma HashInputSorted(ts: seq<Tool>, le: Collation)
    requires Orders(le) && AllNamed(ts)
    ensures SortedTools(HashInput(ts, le), le) && multiset(HashInput(ts, le)) == multiset(ToolKeys(ts))
  {
    hide NameOf, ToolKey, Named, SortTools, SortedTools, ToolKeys;
    SortToolsSorted(ts, le);
    HashInputIs(ts, le);
    KeysOfSort(ts, le);
    KeysNames(SortTools(ts, le));
    SortedByNames(SortTools(ts, le), ToolKeys(SortTools(ts, le)), le);
  }

  lemma KeyOf(ts: seq<Tool>, k: Tool) returns (t: Tool)
    requires AllNamed(ts) && k in ToolKeys(ts)
    ensures t in ts && ToolKey(t) == k && NameOf(t) == NameOf(k)
  {
    hide *;
    var i :| 0 <= i < |ToolKeys(ts)| && ToolKeys(ts)[i] == k;
    t := ts[i];
    KeysNames(ts);
  }

  /** When tools that tie by name are alike, two lists hash alike exactly when they are the same tools, in any
      order, with their members in any order. */
  lemma HashInputIff(ts: seq<Tool>, us: seq<Tool>, le: Collation)
    requires Orders(le) && AllNamed(ts) && AllNamed(us) && TiesAlike(ts, le)
    ensures HashInput(ts, le) == HashInput(us, le) <==> SameTools(ts, us)
  {
    hide NameOf, ToolKey, Named, SortTools, SortedTools, ToolKeys, HashInput, SameTools;
    SameToolsIff(ts, us);
    HashInputSorted(ts, le);
    HashInputSorted(us, le);
    var hs, hu := HashInput(ts, le), HashInput(us, le);
    if multiset(ToolKeys(ts)) == multiset(ToolKeys(us)) {
      forall x, y | x in hs && y in hs && le(NameOf(x), NameOf(y)) && le(NameOf(y), NameOf(x)) ensures x == y {
        assert x in multiset(hs) && y in multiset(hs);
        var t := KeyOf(ts, x);
        var u := KeyOf(ts, y);
      }
      SortedKeysUnique(hs, hu, le);
    }
  }

  // ---- when the order of the manifest does not show ----

  /** Tied tools land next to each other in the order they are inserted. */
  lemma {:induction false} TiedInsertsDiffer(t: Tool, u: Tool, ts: seq<Tool>, le: Collation)
    requires Orders(le) && ToolKey(t) != ToolKey(u)
    requires le(NameOf(t), NameOf(u)) && le(NameOf(u), NameOf(t))
    ensures ToolKeys(InsertTool(t, InsertTool(u, ts, le), le)) != ToolKeys(InsertTool(u, InsertTool(t, ts, le), le))
  {
    hide NameOf, ToolKey;
    var x, y := InsertTool(t, InsertTool(u, ts, le), le), InsertTool(u, InsertTool(t, ts, le), le);
    if ts == [] || le(NameOf(t), NameOf(ts[0])) {
      assert x == [t] + ([u] + ts) && y == [u] + ([t] + ts);
      assert ToolKeys(x)[0] != ToolKeys(y)[0];
    } else {
      TiedInsertsDiffer(t, u, ts[1..], le);
      var x', y' :=
        InsertTool(t, InsertTool(u, ts[1..], le), le), InsertTool(u, InsertTool(t, ts[1..], le), le);
      assert x == [ts[0]] + x' && y == [ts[0]] + y';
      assert ToolKeys(x)[1..] == ToolKeys(x') && ToolKeys(y)[1..] == ToolKeys(y');
    }
  }

  lemma MoveToFront(ts: seq<Tool>, t: Tool) returns (rest: seq<Tool>)
    requires t in ts
    ensures multiset([t] + rest) == multiset(ts)
  {
    var i :| 0 <= i < |ts| && ts[i] == t;
    rest := Without(ts, i);
    SplitAt(ts, i);
    MultisetMiddle(ts[..i], t, ts[i + 1..]);
    assert ts[..i] + ts[i + 1..] == rest;
    hide *;
  }

  /** The two orders of a tied pair that differs, the pair in front. */
  lemma TiedPairOrders(ts: seq<Tool>, t: Tool, u: Tool, le: Collation) returns (us: seq<Tool>, vs: seq<Tool>)
    requires Orders(le) && t in ts && u in ts && ToolKey(t) != ToolKey(u)
    requires le(NameOf(t), NameOf(u)) && le(NameOf(u), NameOf(t))
    ensures multiset(us) == multiset(ts) && multiset(vs) == multiset(ts)
    ensures HashInput(us, le) != HashInput(vs, le)
  {
    hide NameOf, ToolKey, ToolKeys, HashInput, InsertTool, Orders;
    var others := MoveToFront(ts, t);
    assert u in multiset([t] + others) && u in others;
    var rest := MoveToFront(others, u);
    us, vs := [t] + ([u] + rest), [u] + ([t] + rest);
    assert multiset(vs) == multiset(us);
    SortOfPair(t, u, rest, le);
    SortOfPair(u, t, rest, le);
    HashInputIs(us, le);
    HashInputIs(vs, le);
    TiedInsertsDiffer(t, u, SortTools(rest, le), le);
  }

  lemma SortOfPair(t: Tool, u: Tool, rest: seq<Tool>, le: Collation)
    ensures SortTools([t] + ([u] + rest), le) == InsertTool(t, InsertTool(u, SortTools(rest, le), le), le)
  {
    hide InsertTool;
    assert ([t] + ([u] + rest))[1..] == [u] + rest;
    assert ([u] + rest)[1..] == rest;
  }

  lemma WithoutOne(us: seq<Tool>, j: nat)
    requires j < |us|
    ensures multiset(Without(us, j)) == multiset(us) - multiset{us[j]}
  {
    SplitAt(us, j);
    MultisetMiddle(us[..j], us[j], us[j + 1..]);
    hide *;
  }

  lemma {:induction false} ReorderedKeys(ts: seq<Tool>, us: seq<Tool>)
    requires multiset(us) == multiset(ts)
    ensures multiset(ToolKeys(us)) == multiset(ToolKeys(ts))
    decreases |ts|
  {
    hide ToolKey, ToolKeys, Without;
    assert |us| == |multiset(us)| == |multiset(ts)| == |ts|;
    if ts == [] {
      assert us == ts;
    } else {
      assert ts[0] in multiset(us);
      var j :| 0 <= j < |us| && us[j] == ts[0];
      WithoutOne(us, j);
      WithoutOne(ts, 0);
      ReorderedKeys(Without(ts, 0), Without(us, j));
      KeysWithout(us, j);
      KeysWithout(ts, 0);
    }
  }

  /** Every reordering of a named list hashes alike exactly when tools that tie by name are alike: what
      `HashInputIff` asks for is needed by every list. */
  lemma OrderIrrelevantIff(ts: seq<Tool>, le: Collation)
    requires Orders(le) && AllNamed(ts)
    ensures (forall us :: multiset(us) == multiset(ts) ==> HashInput(us, le) == HashInput(ts, le)) <==>
            TiesAlike(ts, le)
  {
    hide NameOf, ToolKey, ToolKeys, HashInput, SameTools, Orders, Named;
    if TiesAlike(ts, le) {
      forall us | multiset(us) == multiset(ts) ensures HashInput(us, le) == HashInput(ts, le) {
        ReorderedNamed(ts, us);
        ReorderedKeys(ts, us);
        SameToolsIff(ts, us);
        HashInputIff(ts, us, le);
      }
    } else {
      var t, u :| t in ts && u in ts && le(NameOf(t), NameOf(u)) && le(NameOf(u), NameOf(t)) &&
          ToolKey(t) != ToolKey(u);
      var us, vs := TiedPairOrders(ts, t, u, le);
      assert HashInput(us, le) != HashInput(ts, le) || HashInput(vs, le) != HashInput(ts, le);
    }
  }

  lemma ReorderedNamed(ts: seq<Tool>, us: seq<Tool>)
    requires AllNamed(ts) && multiset(us) == multiset(ts)
    ensures AllNamed(us)
  {
    hide Named;
    forall t | t in us ensures Named(t) {
      assert t in multiset(us);
      assert t in ts;
    }
  }

  /** Canonicalising a canonical list changes nothing. */
  lemma CanonicalListIdempotent(ts: seq<Tool>, le: Collation)
    requires Orders(le) && AllNamed(ts)
    ensures CanonicalList(CanonicalList(ts, le), le) == CanonicalList(ts, le)
  {
    hide NameOf, Named, SortTools, SortedTools;
    SortToolsSorted(ts, le);
    var sorted := SortTools(ts, le);
    var canon := CanonTools(sorted);
    forall i | 0 <= i < |sorted|
      ensures NameOf(canon[i]) == NameOf(sorted[i]) && CanonFields(canon[i]) == canon[i]
    {
      assert sorted[i] in sorted && sorted[i] in ts;
      KeepsName(sorted[i]);
      FieldsIdempotent(sorted[i]);
    }
    SortedByNames(sorted, canon, le);
    SortedIsFixed(canon, le);
    assert CanonTools(canon) == canon;
  }

  lemma FieldsIdempotent(t: Tool)
    requires Named(t)
    ensures CanonFields(CanonFields(t)) == CanonFields(t)
  {
    CanonIdempotent(Obj(t));
  }

  // ---- the lockfile check ----

  datatype LockEntry = LockEntry(version: string, entrypoint: string, toolsHash: string)

  datatype Manifest = Manifest(version: string, entrypoint: Option<string>, tools: Option<seq<Tool>>)

  datatype Verdict =
    | Verified
    | NoLockfile
    | NoEntry
    | VersionDrift(expected: string, actual: string)
    | EntrypointDrift(expected: string, actual: string)
    | ToolListDrift(expected: string, actual: string)

  type Hash = seq<Tool> -> string

  ghost predicate Injective(hash: Hash) { forall x, y :: hash(x) == hash(y) ==> x == y }

  function ToolsOf(m: Manifest): seq<Tool> { if m.tools.Some? then m.tools.value else [] }

  function EntrypointOf(m: Manifest): string { if m.entrypoint.Some? then m.entrypoint.value else "" }

  function CanonicalizeAndHash(ts: seq<Tool>, le: Collation, hash: Hash): string { "sha256-" + hash(HashInput(ts, le)) }

  function VerifyManifest(
    lock: Option<map<string, LockEntry>>, name: string, m: Manifest, le: Collation, hash: Hash): Verdict {
    if lock.None? then NoLockfile
    else if name !in lock.value then NoEntry
    else
      var entry := lock.value[name];
      if m.version != entry.version then VersionDrift(entry.version, m.version)
      else if EntrypointOf(m) != entry.entrypoint then EntrypointDrift(entry.entrypoint, EntrypointOf(m))
      else
        var computed := CanonicalizeAndHash(ToolsOf(m), le, hash);
        if computed != entry.toolsHash then ToolListDrift(entry.toolsHash, computed) else Verified
  }

  /** The entry the lockfile records for a manifest. */
  function Locked(m: Manifest, le: Collation, hash: Hash): LockEntry {
    LockEntry(m.version, EntrypointOf(m), CanonicalizeAndHash(ToolsOf(m), le, hash))
  }

  /** A manifest passes against the entry recorded for another exactly when the version and entrypoint agree and the
      tools are the same. */
  lemma VerifiedIff(
    lock: map<string, LockEntry>, name: string, recorded: Manifest, m: Manifest, le: Collation, hash: Hash)
    requires Orders(le) && Injective(hash) && name in lock && lock[name] == Locked(recorded, le, hash)
    requires AllNamed(ToolsOf(recorded)) && AllNamed(ToolsOf(m)) && TiesAlike(ToolsOf(recorded), le)
    ensures VerifyManifest(Some(lock), name, m, le, hash) == Verified <==>
              && m.version == recorded.version && EntrypointOf(m) == EntrypointOf(recorded)
              && SameTools(ToolsOf(recorded), ToolsOf(m))
  {
    hide HashInput, SameTools, TiesAlike, AllNamed, ToolsOf, EntrypointOf;
    HashInputIff(ToolsOf(recorded), ToolsOf(m), le);
    var a, b := hash(HashInput(ToolsOf(recorded), le)), hash(HashInput(ToolsOf(m), le));
    assert ("sha256-" + a)[7..] == a && ("sha256-" + b)[7..] == b;
  }

  /** What a refused manifest is told, in the order of the checks, expected value first. */
  lemma VerdictIs(lock: Option<map<string, LockEntry>>, name: string, m: Manifest, le: Collation, hash: Hash)
    ensures var v := VerifyManifest(lock, name, m, le, hash);
            && (v == NoLockfile <==> lock.None?)
            && (v == NoEntry <==> lock.Some? && name !in lock.value)
            && (lock.Some? && name in lock.value ==>
                  var e := lock.value[name];
                  && (v.VersionDrift? <==> m.version != e.version)
                  && (v.VersionDrift? ==> v.expected == e.version && v.actual == m.version)
                  && (v.EntrypointDrift? <==> m.version == e.version && EntrypointOf(m) != e.entrypoint)
                  && (v.EntrypointDrift? ==> v.expected == e.entrypoint && v.actual == EntrypointOf(m))
                  && (v.ToolListDrift? ==> v.expected == e.toolsHash && v.actual != v.expected))
  {
    hide HashInput, EntrypointOf;
  }
}

/** The per-call provenance registry of src/extensions/call-provenance.ts. */
module CallProvenance {
  import opened Wrappers

  datatype Kind = Tool | Schedule | Event

  datatype Provenance = Provenance(
    onBehalfOf: Option<string>, conversationId: Option<string>, runId: Option<string>, parentCallId: Option<string>,
    actorExtensionId: string, kind: Kind, ownerless: bool)

  /** One entry of the Map, which iterates in insertion order. */
  datatype Slot = Slot(id: string, prov: Provenance, createdAt: int)

  const CALL_PROVENANCE_TTL_MS := 6 * 60 * 60_000
  const FIRE_TOKEN_TTL_MS := 10 * 60_000

  function TtlForKind(k: Kind): int { if k.Tool? then CALL_PROVENANCE_TTL_MS else FIRE_TOKEN_TTL_MS }

  predicate Expired(s: Slot, now: int) { now - s.createdAt > TtlForKind(s.prov.kind) }

  predicate DistinctIds(slots: seq<Slot>) {
    forall i, j :: 0 <= i < j < |slots| ==> slots[i].id != slots[j].id
  }

  predicate HasId(slots: seq<Slot>, id: string) {
    exists i :: 0 <= i < |slots| && slots[i].id == id
  }

  // ---- the operations as functions of the entries ----

  function Swept(slots: seq<Slot>, now: int): (r: seq<Slot>)
    ensures forall s :: s in r <==> s in slots && !Expired(s, now)
    ensures |r| <= |slots|
  {
    if slots == [] then []
    else
      var init, last := Swept(slots[..|slots| - 1], now), slots[|slots| - 1];
      assert forall s :: s in slots <==> s in slots[..|slots| - 1] || s == last;
      if Expired(last, now) then init else init + [last]
  }

  function Deleted(slots: seq<Slot>, id: string): (r: seq<Slot>)
    ensures forall s :: s in r <==> s in slots && s.id != id
    ensures |r| <= |slots|
  {
    if slots == [] then []
    else
      var init, last := Deleted(slots[..|slots| - 1], id), slots[|slots| - 1];
      assert forall s :: s in slots <==> s in slots[..|slots| - 1] || s == last;
      if last.id == id then init else init + [last]
  }

  /** The first of the entries with the least creation time. */
  function OldestIndex(slots: seq<Slot>): (k: nat)
    requires slots != []
    ensures k < |slots|
    ensures forall j :: 0 <= j < |slots| ==> slots[k].createdAt <= slots[j].createdAt
    ensures forall j :: 0 <= j < k ==> slots[k].createdAt < slots[j].createdAt
  {
    if |slots| == 1 then 0
    else
      var k := OldestIndex(slots[..|slots| - 1]);
      if slots[|slots| - 1].createdAt < slots[k].createdAt then |slots| - 1 else k
  }

  function EvictOldest(slots: seq<Slot>, cap: nat): seq<Slot> {
    if cap <= |slots| && slots != [] then Deleted(slots, slots[OldestIndex(slots)].id) else slots
  }

  function Registered(slots: seq<Slot>, cap: nat, now: int, id: string, prov: Provenance): seq<Slot> {
    EvictOldest(Swept(slots, now), cap) + [Slot(id, prov, now)]
  }

  function Resolved(slots: seq<Slot>, id: string): (r: Option<Provenance>)
    ensures r.Some? ==> exists s :: s in slots && s.id == id && s.prov == r.value
    ensures r.None? <==> !HasId(slots, id)
  {
    if slots == [] then None
    else if slots[0].id == id then Some(slots[0].prov)
    else
      assert HasId(slots[1..], id) ==> HasId(slots, id) by {
        if HasId(slots[1..], id) {
          var i :| 0 <= i < |slots[1..]| && slots[1..][i].id == id;
          assert slots[i + 1].id == id;
        }
      }
      assert HasId(slots, id) ==> HasId(slots[1..], id) by {
        if HasId(slots, id) {
          var i :| 0 <= i < |slots| && slots[i].id == id;
          assert slots[1..][i - 1].id == id;
        }
      }
      Resolved(slots[1..], id)
  }

  lemma SweptNothing(now: int)
    ensures Swept([], now) == []
  {
  }

  lemma {:induction false} SweptDistinct(slots: seq<Slot>, now: int)
    requires DistinctIds(slots)
    ensures DistinctIds(Swept(slots, now))
  {
    if slots != [] {
      var init := Swept(slots[..|slots| - 1], now);
      SweptDistinct(slots[..|slots| - 1], now);
      forall i | 0 <= i < |init| ensures init[i].id != slots[|slots| - 1].id {
        assert init[i] in slots[..|slots| - 1];
      }
    }
  }

  lemma {:induction false} DeletedDistinct(slots: seq<Slot>, id: string)
    requires DistinctIds(slots)
    ensures DistinctIds(Deleted(slots, id))
  {
    if slots != [] {
      var init := Deleted(slots[..|slots| - 1], id);
      DeletedDistinct(slots[..|slots| - 1], id);
      forall i | 0 <= i < |init| ensures init[i].id != slots[|slots| - 1].id {
        assert init[i] in slots[..|slots| - 1];
      }
    }
  }

  // ---- the module's state ----

  class Registry {
    var slots: seq<Slot>
    var maxEntries: nat

    constructor (cap: nat)
      ensures slots == [] && maxEntries == cap
    {
      slots, maxEntries := [], cap;
    }

    method Sweep(now: int)
      requires DistinctIds(slots)
      modifies this`slots
      ensures slots == Swept(old(slots), now) && DistinctIds(slots)
    {
      hide Swept, Deleted, Expired;
      var entries := slots;
      SweptDistinct(entries, now);
      SweptNothing(now);
      for i := 0 to |entries|
        invariant slots == Swept(entries[..i], now) + entries[i..]
      {
        SweepStep(entries, i, now);
        if Expired(entries[i], now) {
          slots := Deleted(slots, entries[i].id);
        }
      }
      assert entries[..|entries|] == entries;
    }

    /** The new token. `id` is the UUID drawn for it. */
    method Register(prov: Provenance, now: int, id: string) returns (token: string)
      requires DistinctIds(slots)
      modifies this`slots
      ensures token == id && slots == Registered(old(slots), maxEntries, now, id, prov)
      ensures !HasId(old(slots), id) ==> DistinctIds(slots)
    {
      hide Swept, Deleted, DistinctIds, HasId;
      FreshKeepsDistinct(slots, maxEntries, now, id, prov);
      Sweep(now);
      if |slots| >= maxEntries {
        var oldest := FindOldest(slots);
        if oldest.Some? {
          slots := Deleted(slots, oldest.value);
        }
      }
      slots := slots + [Slot(id, prov, now)];
      token := id;
    }

    /** The snapshot of the one entry held under the token; nothing for a missing, empty or unknown token. */
    method Resolve(id: Option<string>) returns (r: Option<Provenance>)
      requires DistinctIds(slots)
      ensures forall s :: s in slots && id == Some(s.id) && s.id != "" ==> r == Some(s.prov)
      ensures r.Some? ==> exists s :: s in slots && id == Some(s.id) && s.id != "" && s.prov == r.value
    {
      if id.None? || id.value == "" { return None; }
      r := Resolved(slots, id.value);
      forall s | s in slots && s.id == id.value ensures r == Some(s.prov) {
        ResolvesHeld(slots, s);
      }
    }

    /** The token's entry is cut out and every other entry keeps its place; an unknown token changes nothing. */
    method Release(id: Option<string>)
      requires DistinctIds(slots)
      modifies this`slots
      ensures forall i :: 0 <= i < |old(slots)| && id == Some(old(slots)[i].id) && old(slots)[i].id != "" ==>
                slots == old(slots)[..i] + old(slots)[i + 1..]
      ensures id.None? || id.value == "" || !HasId(old(slots), id.value) ==> slots == old(slots)
      ensures id.Some? ==> slots == Apply(old(slots), maxEntries, ReleaseOp(id.value))
      ensures DistinctIds(slots)
    {
      hide Deleted;
      if id.None? || id.value == "" { return; }
      DeletedDistinct(slots, id.value);
      if !HasId(slots, id.value) {
        DeletedNothing(slots, id.value);
      } else {
        var i :| 0 <= i < |slots| && slots[i].id == id.value;
        DeletedCuts(slots, i);
      }
      slots := Deleted(slots, id.value);
    }
  }

  lemma FreshKeepsDistinct(slots: seq<Slot>, cap: nat, now: int, id: string, prov: Provenance)
    requires DistinctIds(slots)
    ensures !HasId(slots, id) ==> DistinctIds(Registered(slots, cap, now, id, prov))
  {
    hide Swept, Deleted, OldestIndex;
    SweptDistinct(slots, now);
    if Swept(slots, now) != [] {
      DeletedDistinct(Swept(slots, now), Swept(slots, now)[OldestIndex(Swept(slots, now))].id);
    }
    if !HasId(slots, id) {
      var kept := EvictOldest(Swept(slots, now), cap);
      forall i | 0 <= i < |kept| ensures kept[i].id != id {
        var s := kept[i];
        assert s in kept;
        assert s in slots;
      }
    }
  }

  lemma {:induction false} ResolvesHeld(slots: seq<Slot>, s: Slot)
    requires DistinctIds(slots) && s in slots
    ensures Resolved(slots, s.id) == Some(s.prov)
  {
    if slots[0] != s {
      assert s in slots[1..];
      ResolvesHeld(slots[1..], s);
    }
  }

  method FindOldest(slots: seq<Slot>) returns (id: Option<string>)
    ensures slots == [] ==> id.None?
    ensures slots != [] ==> id == Some(slots[OldestIndex(slots)].id)
  {
    id := None;
    var oldestAt: Option<int> := None;
    for i := 0 to |slots|
      invariant i == 0 ==> id.None? && oldestAt.None?
      invariant 0 < i ==> id == Some(slots[OldestIndex(slots[..i])].id)
      invariant 0 < i ==> oldestAt == Some(slots[OldestIndex(slots[..i])].createdAt)
    {
      assert slots[..i + 1][..i] == slots[..i];
      if oldestAt.None? || slots[i].createdAt < oldestAt.value {
        oldestAt, id := Some(slots[i].createdAt), Some(slots[i].id);
      }
    }
    assert slots[..|slots|] == slots;
  }

  lemma DeletedEmpty(id: string)
    ensures Deleted([], id) == []
  {
  }

  lemma DeletedLast(a: seq<Slot>, s: Slot, id: string)
    ensures Deleted(a + [s], id) == Deleted(a, id) + if s.id == id then [] else [s]
  {
    assert (a + [s])[..|a|] == a;
  }

  lemma {:induction false} DeletedAppend(a: seq<Slot>, b: seq<Slot>, id: string)
    ensures Deleted(a + b, id) == Deleted(a, id) + Deleted(b, id)
    decreases |b|
  {
    hide *;
    if b == [] {
      DeletedEmpty(id);
      assert a + b == a && Deleted(a, id) + [] == Deleted(a, id);
    } else {
      var init, last := b[..|b| - 1], b[|b| - 1];
      DeletedAppend(a, init, id);
      DeletedPushed(a, init, last, id);
      assert b == init + [last];
    }
  }

  lemma DeletedPushed(a: seq<Slot>, b: seq<Slot>, s: Slot, id: string)
    requires Deleted(a + b, id) == Deleted(a, id) + Deleted(b, id)
    ensures Deleted(a + (b + [s]), id) == Deleted(a, id) + Deleted(b + [s], id)
  {
    DeletedLast(a + b, s, id);
    DeletedLast(b, s, id);
    hide *;
    assert a + (b + [s]) == (a + b) + [s];
  }

  lemma {:induction false} DeletedNothing(a: seq<Slot>, id: string)
    requires forall s :: s in a ==> s.id != id
    ensures Deleted(a, id) == a
  {
    if a != [] {
      assert a[|a| - 1] in a;
      DeletedNothing(a[..|a| - 1], id);
    }
  }

  lemma OthersDiffer(entries: seq<Slot>, i: nat)
    requires DistinctIds(entries) && i < |entries|
    ensures forall x :: x in entries[..i] ==> x.id != entries[i].id
    ensures forall x :: x in entries[i + 1..] ==> x.id != entries[i].id
  {
  }

  /** Deleting a key of the map takes out its one entry and leaves the others in order. */
  lemma DeletedCuts(slots: seq<Slot>, i: nat)
    requires DistinctIds(slots) && i < |slots|
    ensures Deleted(slots, slots[i].id) == slots[..i] + slots[i + 1..]
  {
    var before, e, rest := slots[..i], slots[i], slots[i + 1..];
    assert slots == before + [e] + rest;
    OthersDiffer(slots, i);
    hide *;
    DeletedAppend(before + [e], rest, e.id);
    DeletedNothing(before, e.id);
    DeletedLast(before, e, e.id);
    DeletedNothing(rest, e.id);
  }

  lemma CutsMiddle(kept: seq<Slot>, e: Slot, rest: seq<Slot>)
    requires forall x :: x in kept ==> x.id != e.id
    requires forall x :: x in rest ==> x.id != e.id
    ensures Deleted(kept + ([e] + rest), e.id) == kept + rest
  {
    DeletedNothing(kept, e.id);
    DeletedNothing(rest, e.id);
    hide *;
    assert kept + ([e] + rest) == kept + [e] + rest;
    DeletedAppend(kept + [e], rest, e.id);
    DeletedLast(kept, e, e.id);
  }

  lemma SweptLast(front: seq<Slot>, e: Slot, now: int)
    ensures Swept(front + [e], now) == Swept(front, now) + if Expired(e, now) then [] else [e]
  {
    hide Expired;
    assert (front + [e])[..|front|] == front;
  }

  lemma SweepStepIn(front: seq<Slot>, e: Slot, rest: seq<Slot>, now: int)
    requires forall x :: x in front ==> x.id != e.id
    requires forall x :: x in rest ==> x.id != e.id
    ensures var before := Swept(front, now) + ([e] + rest);
            Swept(front + [e], now) + rest == if Expired(e, now) then Deleted(before, e.id) else before
  {
    hide *;
    var kept := Swept(front, now);
    SweptLast(front, e, now);
    if Expired(e, now) {
      CutsMiddle(kept, e, rest);
      assert kept + [] == kept;
    } else {
      assert kept + [e] + rest == kept + ([e] + rest);
    }
  }

  /** Deleting the entry the sweep stands at leaves the others in place. */
  lemma SweepStep(entries: seq<Slot>, i: nat, now: int)
    requires DistinctIds(entries) && i < |entries|
    ensures var e, before := entries[i], Swept(entries[..i], now) + entries[i..];
            Swept(entries[..i + 1], now) + entries[i + 1..] == if Expired(e, now) then Deleted(before, e.id) else before
  {
    OthersDiffer(entries, i);
    SweepStepIn(entries[..i], entries[i], entries[i + 1..], now);
    hide *;
    assert entries[..i + 1] == entries[..i] + [entries[i]];
    assert entries[i..] == [entries[i]] + entries[i + 1..];
  }

  // ---- every trace ----

  datatype Op =
    | RegisterOp(prov: Provenance, now: int, id: string)
    | ReleaseOp(id: string)
    | SweepOp(now: int)
    | ResolveOp(id: string)

  function Apply(slots: seq<Slot>, cap: nat, op: Op): seq<Slot> {
    match op
    case RegisterOp(prov, now, id) => Registered(slots, cap, now, id, prov)
    case ReleaseOp(id) => if id == "" then slots else Deleted(slots, id)
    case SweepOp(now) => Swept(slots, now)
    case ResolveOp(_) => slots
  }

  function Trace(cap: nat, ops: seq<Op>): seq<Slot> {
    if ops == [] then [] else Apply(Trace(cap, ops[..|ops| - 1]), cap, ops[|ops| - 1])
  }

  /** UUIDs never repeat. */
  predicate FreshTokens(ops: seq<Op>) {
    forall i, j :: 0 <= i < j < |ops| && ops[i].RegisterOp? && ops[j].RegisterOp? ==> ops[i].id != ops[j].id
  }

  /** The entry was put there by a registration in the trace. */
  predicate FromRegister(ops: seq<Op>, s: Slot) {
    exists i :: 0 <= i < |ops| && ops[i] == RegisterOp(s.prov, s.createdAt, s.id)
  }

  lemma EvictionMakesRoom(slots: seq<Slot>, cap: nat)
    ensures |slots| <= cap || |slots| <= 1 ==> |EvictOldest(slots, cap)| < cap || EvictOldest(slots, cap) == []
    ensures forall s :: s in EvictOldest(slots, cap) ==> s in slots
  {
    if cap <= |slots| && slots != [] {
      var s := slots[OldestIndex(slots)];
      assert s in slots;
      DeleteShrinks(slots, s);
    }
  }

  lemma {:induction false} DeleteShrinks(slots: seq<Slot>, s: Slot)
    requires s in slots
    ensures |Deleted(slots, s.id)| < |slots|
  {
    var last := slots[|slots| - 1];
    if last.id != s.id {
      assert s in slots[..|slots| - 1];
      DeleteShrinks(slots[..|slots| - 1], s);
    }
  }

  /** The registry never holds more than the cap, or one entry if the cap is zero. */
  lemma {:induction false} NeverAboveCap(cap: nat, ops: seq<Op>)
    ensures |Trace(cap, ops)| <= if cap == 0 then 1 else cap
  {
    if ops != [] {
      var before, op := Trace(cap, ops[..|ops| - 1]), ops[|ops| - 1];
      NeverAboveCap(cap, ops[..|ops| - 1]);
      if op.RegisterOp? {
        EvictionMakesRoom(Swept(before, op.now), cap);
      }
    }
  }

  lemma {:induction false} EntriesAreRegistered(cap: nat, ops: seq<Op>, s: Slot)
    requires s in Trace(cap, ops)
    ensures FromRegister(ops, s)
  {
    var init, op := ops[..|ops| - 1], ops[|ops| - 1];
    var before := Trace(cap, init);
    if s in before {
      EntriesAreRegistered(cap, init, s);
      var i :| 0 <= i < |init| && init[i] == RegisterOp(s.prov, s.createdAt, s.id);
      assert ops[i] == init[i];
    } else {
      if op.RegisterOp? { EvictionMakesRoom(Swept(before, op.now), cap); }
      assert ops[|ops| - 1] == RegisterOp(s.prov, s.createdAt, s.id);
    }
  }

  /** Live tokens stay distinct, which is what the methods above rely on. */
  lemma {:induction false} TokensStayDistinct(cap: nat, ops: seq<Op>)
    requires FreshTokens(ops)
    ensures DistinctIds(Trace(cap, ops))
  {
    if ops != [] {
      var init, op := ops[..|ops| - 1], ops[|ops| - 1];
      var before := Trace(cap, init);
      TokensStayDistinct(cap, init);
      if op.RegisterOp? {
        if HasId(before, op.id) {
          var i :| 0 <= i < |before| && before[i].id == op.id;
          EntriesAreRegistered(cap, init, before[i]);
        }
        FreshKeepsDistinct(before, cap, op.now, op.id, op.prov);
      } else if op.SweepOp? {
        SweptDistinct(before, op.now);
      } else if op.ReleaseOp? {
        DeletedDistinct(before, op.id);
      }
    }
  }

  /** A token resolves to the snapshot registered under it, or to nothing. */
  lemma ResolvesToRegistered(cap: nat, ops: seq<Op>, i: nat)
    requires FreshTokens(ops) && i < |ops| && ops[i].RegisterOp?
    ensures Resolved(Trace(cap, ops), ops[i].id) in {None, Some(ops[i].prov)}
  {
    hide Trace;
    var r := Resolved(Trace(cap, ops), ops[i].id);
    if r.Some? {
      var s :| s in Trace(cap, ops) && s.id == ops[i].id && s.prov == r.value;
      EntriesAreRegistered(cap, ops, s);
      var k :| 0 <= k < |ops| && ops[k] == RegisterOp(s.prov, s.createdAt, s.id);
      assert k == i;
    }
  }

  /** Once released, a token never resolves again. */
  lemma {:induction false} ReleasedNeverResolves(cap: nat, ops: seq<Op>, i: nat, k: nat)
    requires FreshTokens(ops) && i < k < |ops| && ops[i].RegisterOp?
    requires ops[k] == ReleaseOp(ops[i].id) && ops[i].id != ""
    ensures Resolved(Trace(cap, ops), ops[i].id).None?
    decreases |ops|
  {
    hide Apply, Resolved, HasId;
    var id, init, op := ops[i].id, ops[..|ops| - 1], ops[|ops| - 1];
    var before := Trace(cap, init);
    if k < |init| {
      ReleasedNeverResolves(cap, init, i, k);
      StaysAbsent(before, cap, op, id);
    } else {
      ReleaseLeavesNone(before, cap, id);
    }
  }

  lemma StaysAbsent(slots: seq<Slot>, cap: nat, op: Op, id: string)
    requires !HasId(slots, id) && !(op.RegisterOp? && op.id == id)
    ensures !HasId(Apply(slots, cap, op), id)
  {
    hide Swept, Deleted, EvictOldest;
    forall s | s in slots ensures s.id != id {
      var i :| 0 <= i < |slots| && slots[i] == s;
    }
    if op.RegisterOp? { EvictionMakesRoom(Swept(slots, op.now), cap); }
    var after := Apply(slots, cap, op);
    forall i | 0 <= i < |after| ensures after[i].id != id {
      assert after[i] in after;
    }
  }

  lemma ReleaseLeavesNone(slots: seq<Slot>, cap: nat, id: string)
    requires id != ""
    ensures !HasId(Apply(slots, cap, ReleaseOp(id)), id)
  {
    hide Deleted;
    var after := Deleted(slots, id);
    forall i | 0 <= i < |after| ensures after[i].id != id {
      assert after[i] in after;
    }
  }

  /** Why an operation may take the entry `s` away. */
  predicate Removes(slots: seq<Slot>, cap: nat, op: Op, s: Slot) {
    match op
    case ReleaseOp(id) => id == s.id
    case SweepOp(now) => Expired(s, now)
    case RegisterOp(_, now, _) =>
      Expired(s, now)
      || (var live := Swept(slots, now); cap <= |live| && live != [] && live[OldestIndex(live)].id == s.id)
    case ResolveOp(_) => false
  }

  lemma StaysOneStep(slots: seq<Slot>, cap: nat, op: Op, s: Slot)
    requires s in slots && !Removes(slots, cap, op, s)
    ensures s in Apply(slots, cap, op)
  {
    hide Expired;
    if op.RegisterOp? {
      var live := Swept(slots, op.now);
      assert s in live;
      assert s in EvictOldest(live, cap);
    }
  }

  /** An entry stays through every operation but its release, a sweep past its TTL, and an eviction as the
      oldest live entry at the cap. */
  lemma {:induction false} StaysUntilRemoved(cap: nat, ops: seq<Op>, from: nat, s: Slot)
    requires from <= |ops| && s in Trace(cap, ops[..from])
    requires forall k :: from <= k < |ops| ==> !Removes(Trace(cap, ops[..k]), cap, ops[k], s)
    ensures s in Trace(cap, ops)
    decreases |ops|
  {
    hide Removes, Apply;
    if from == |ops| {
      assert ops[..from] == ops;
    } else {
      var init, op := ops[..|ops| - 1], ops[|ops| - 1];
      assert init[..from] == ops[..from];
      forall k | from <= k < |init| ensures !Removes(Trace(cap, init[..k]), cap, init[k], s) {
        assert init[..k] == ops[..k];
      }
      StaysUntilRemoved(cap, init, from, s);
      StaysOneStep(Trace(cap, init), cap, op, s);
    }
  }

  // ---- how long a token lives, in numbers ----

  /** Six hours for a tool call, ten minutes for a fire, in milliseconds. */
  function Lifetime(kind: Kind): int {
    match kind
    case Tool => 21_600_000
    case Schedule => 600_000
    case Event => 600_000
  }

  /** The operation sweeps at an instant past the entry's lifetime. */
  predicate SweepsPast(op: Op, s: Slot) {
    && (op.SweepOp? || op.RegisterOp?)
    && s.createdAt + Lifetime(s.prov.kind) < op.now
  }

  /** The registry is full when a token is registered, and the entry is the first of the oldest left by the sweep. */
  predicate EvictedAt(slots: seq<Slot>, cap: nat, op: Op, s: Slot) {
    && op.RegisterOp?
    && var live := Swept(slots, op.now); cap <= |live| && live != [] && live[OldestIndex(live)].id == s.id
  }

  lemma RemovesIff(slots: seq<Slot>, cap: nat, op: Op, s: Slot)
    ensures Removes(slots, cap, op, s) <==>
            op == ReleaseOp(s.id) || SweepsPast(op, s) || EvictedAt(slots, cap, op, s)
  {
  }

  /** A token resolves to its snapshot as long as it is not released, no sweep comes more than its lifetime after it was
      registered, and it is not evicted. */
  lemma ResolvesWithinLifetime(cap: nat, ops: seq<Op>, i: nat)
    requires FreshTokens(ops) && i < |ops| && ops[i].RegisterOp?
    requires var s := Slot(ops[i].id, ops[i].prov, ops[i].now);
             forall k :: i < k < |ops| ==>
               ops[k] != ReleaseOp(s.id) && !SweepsPast(ops[k], s) && !EvictedAt(Trace(cap, ops[..k]), cap, ops[k], s)
    ensures Resolved(Trace(cap, ops), ops[i].id) == Some(ops[i].prov)
  {
    hide Trace, Removes, SweepsPast, EvictedAt, FreshTokens, Resolved;
    var s := Slot(ops[i].id, ops[i].prov, ops[i].now);
    RegisteredIsHeld(cap, ops, i);
    forall k | i + 1 <= k < |ops| ensures !Removes(Trace(cap, ops[..k]), cap, ops[k], s) {
      RemovesIff(Trace(cap, ops[..k]), cap, ops[k], s);
    }
    StaysUntilRemoved(cap, ops, i + 1, s);
    TokensStayDistinct(cap, ops);
    ResolvesHeld(Trace(cap, ops), s);
  }

  lemma RegisteredIsHeld(cap: nat, ops: seq<Op>, i: nat)
    requires i < |ops| && ops[i].RegisterOp?
    ensures Slot(ops[i].id, ops[i].prov, ops[i].now) in Trace(cap, ops[..i + 1])
  {
    hide EvictOldest, Swept;
    assert ops[..i + 1][..i] == ops[..i];
  }

  /** A sweep more than its lifetime after it was registered removes a token for good. */
  lemma {:induction false} GoneAfterLifetime(cap: nat, ops: seq<Op>, i: nat, k: nat)
    requires FreshTokens(ops) && i < k < |ops| && ops[i].RegisterOp?
    requires SweepsPast(ops[k], Slot(ops[i].id, ops[i].prov, ops[i].now))
    ensures Resolved(Trace(cap, ops), ops[i].id).None?
    decreases |ops|
  {
    hide Apply, Resolved, HasId, SweepsPast;
    var id, init, op := ops[i].id, ops[..|ops| - 1], ops[|ops| - 1];
    var before := Trace(cap, init);
    if k < |init| {
      GoneAfterLifetime(cap, init, i, k);
      StaysAbsent(before, cap, op, id);
    } else {
      SweepLeavesNone(cap, init, op, i);
    }
  }

  lemma SweepLeavesNone(cap: nat, ops: seq<Op>, op: Op, i: nat)
    requires FreshTokens(ops + [op]) && i < |ops| && ops[i].RegisterOp?
    requires SweepsPast(op, Slot(ops[i].id, ops[i].prov, ops[i].now))
    ensures !HasId(Apply(Trace(cap, ops), cap, op), ops[i].id)
  {
    hide Trace, EvictOldest;
    var slots, id := Trace(cap, ops), ops[i].id;
    assert (ops + [op])[i] == ops[i] && (ops + [op])[|ops|] == op;
    forall s | s in slots && s.id == id ensures Expired(s, op.now) {
      EntriesAreRegistered(cap, ops, s);
      var j :| 0 <= j < |ops| && ops[j] == RegisterOp(s.prov, s.createdAt, s.id);
      assert (ops + [op])[j] == ops[j];
    }
    var after := Apply(slots, cap, op);
    if op.RegisterOp? { EvictionMakesRoom(Swept(slots, op.now), cap); }
    forall j | 0 <= j < |after| ensures after[j].id != id {
      assert after[j] in after;
    }
  }
}

/** What one tick of src/extensions/embed-worker.ts leaves for each job, in terms of the statement that throws: retries
    and their times, exhaustion, chunks, tallies, and the jobs the tick does not touch. */
module EmbedTick {
  import opened Wrappers
  import opened EmbedOutbox
  import opened EmbedWorker

  // ---- the statements of a row ----

  /** Reading and embedding, deleting, one insert a chunk, marking done; a row with nothing to index is only read. */
  function Statements(c: Config, db: Db, id: Id): nat {
    if Indexable(c, db, id) then |c.chunk(db.messages[id].content)| + 3 else 1
  }

  /** Statement `s` is the first of the row's to throw. */
  predicate ThrowsFirstAt(c: Config, db: Db, id: Id, faults: FaultPlan, s: nat) {
    s < Statements(c, db, id) && faults(id, s).Some? && forall i: nat :: i < s ==> faults(id, i).None?
  }

  predicate Throws(c: Config, db: Db, id: Id, faults: FaultPlan) {
    exists s: nat :: s < Statements(c, db, id) && faults(id, s).Some?
  }

  lemma {:induction false} SomeFirst(id: Id, faults: FaultPlan, s: nat) returns (r: nat)
    requires faults(id, s).Some?
    ensures r <= s && faults(id, r).Some? && forall i: nat :: i < r ==> faults(id, i).None?
  {
    if i: nat :| i < s && faults(id, i).Some? {
      r := SomeFirst(id, faults, i);
    } else {
      r := s;
    }
  }

  // ---- what a claim is settled to ----

  /** The job as the failure handler leaves it: one attempt more, and claimable from the backoff's end on, or never
      if the attempts are used up. */
  ghost predicate Retried(c: Config, after: Db, claim: Claim, f: Fault) {
    && claim.id in after.outbox
    && after.outbox[claim.id].attempts == claim.attempts + 1
    && forall u :: Claimable(after, claim.id, u) <==>
         claim.attempts + 1 < c.maxAttempts && NextAttemptAfter(claim.attempts + 1, f) <= u
  }

  /** The chunks that statements before `s` leave. */
  function ChunksBefore(c: Config, db: Db, id: Id, s: nat): seq<ChunkRow>
    requires 2 <= s < Statements(c, db, id)
  {
    Rows(c, db.messages[id].content)[..s - 2]
  }

  ghost predicate SettledTo(c: Config, db: Db, after: Db, claim: Claim, faults: FaultPlan) {
    var id := claim.id;
    && (forall s: nat :: ThrowsFirstAt(c, db, id, faults, s) ==>
          && Retried(c, after, claim, faults(id, s).value)
          && ChunksOf(after, id) == if s < 2 then ChunksOf(db, id) else ChunksBefore(c, db, id, s))
    && (!Throws(c, db, id, faults) ==>
          && id !in after.outbox
          && ChunksOf(after, id) == if Indexable(c, db, id) then Target(c, db, id) else ChunksOf(db, id))
  }

  /** Nothing about the message changed. */
  predicate SameRow(a: Db, b: Db, id: Id) {
    && (id in a.outbox <==> id in b.outbox) && (id in a.outbox ==> b.outbox[id] == a.outbox[id])
    && ChunksOf(b, id) == ChunksOf(a, id)
  }

  ghost predicate OthersSame(a: Db, b: Db, id: Id) {
    b.messages == a.messages && forall x :: x != id ==> SameRow(a, b, x)
  }

  // ---- one row ----

  lemma OthersChain(x: Db, y: Db, z: Db, id: Id)
    requires OthersSame(x, y, id) && OthersSame(y, z, id)
    ensures OthersSame(x, z, id)
  {
    forall o | o != id ensures SameRow(x, z, o) {
      assert SameRow(x, y, o) && SameRow(y, z, o);
    }
  }

  lemma ChunkStatements(db: Db, id: Id, row: ChunkRow)
    ensures OthersSame(db, InsertChunk(db, id, row), id) && OthersSame(db, DeleteChunks(db, id), id)
    ensures ChunksOf(InsertChunk(db, id, row), id) == ChunksOf(db, id) + [row]
    ensures ChunksOf(DeleteChunks(db, id), id) == []
    ensures InsertChunk(db, id, row).outbox == db.outbox && DeleteChunks(db, id).outbox == db.outbox
  {
  }

  lemma FailingSettles(c: Config, db: Db, claim: Claim, f: Fault)
    requires claim.id in db.outbox
    ensures var after := Failing(c, db, claim, f);
            Retried(c, after, claim, f) && OthersSame(db, after, claim.id) && after.chunks == db.chunks
  {
    hide NextAttemptAfter;
  }

  lemma {:induction false} InsertsThrow(
    c: Config, db: Db, claim: Claim, text: string, i: nat, s: nat, faults: FaultPlan)
    requires claim.id in db.outbox && i <= |c.chunk(text)| && 2 + i <= s <= 2 + |c.chunk(text)|
    requires faults(claim.id, s).Some? && forall k: nat :: 2 + i <= k < s ==> faults(claim.id, k).None?
    ensures var after := AfterInserts(c, db, claim, text, i, faults);
            && Retried(c, after, claim, faults(claim.id, s).value) && OthersSame(db, after, claim.id)
            && ChunksOf(after, claim.id) == ChunksOf(db, claim.id) + Rows(c, text)[i..s - 2]
    ensures InsertsFail(c, claim.id, text, i, faults)
    decreases s - i
  {
    hide Failing, Retried, OthersSame, InsertChunk;
    if s == 2 + i {
      FailingSettles(c, db, claim, faults(claim.id, s).value);
      assert Rows(c, text)[i..i] == [];
    } else {
      var next := InsertChunk(db, claim.id, ChunkRow(i, c.chunk(text)[i]));
      ChunkStatements(db, claim.id, ChunkRow(i, c.chunk(text)[i]));
      InsertsThrow(c, next, claim, text, i + 1, s, faults);
      OthersChain(db, next, AfterInserts(c, next, claim, text, i + 1, faults), claim.id);
      assert Rows(c, text)[i..s - 2] == [ChunkRow(i, c.chunk(text)[i])] + Rows(c, text)[i + 1..s - 2];
    }
  }

  lemma {:induction false} InsertsPass(c: Config, db: Db, claim: Claim, text: string, i: nat, faults: FaultPlan)
    requires i <= |c.chunk(text)|
    requires forall k: nat :: 2 + i <= k <= 2 + |c.chunk(text)| ==> faults(claim.id, k).None?
    ensures var after := AfterInserts(c, db, claim, text, i, faults);
            && claim.id !in after.outbox && OthersSame(db, after, claim.id)
            && ChunksOf(after, claim.id) == ChunksOf(db, claim.id) + Rows(c, text)[i..]
    ensures !InsertsFail(c, claim.id, text, i, faults)
    decreases |c.chunk(text)| - i
  {
    hide Failing, InsertChunk;
    if i == |c.chunk(text)| {
      assert Rows(c, text)[i..] == [];
    } else {
      hide OthersSame;
      var next := InsertChunk(db, claim.id, ChunkRow(i, c.chunk(text)[i]));
      ChunkStatements(db, claim.id, ChunkRow(i, c.chunk(text)[i]));
      InsertsPass(c, next, claim, text, i + 1, faults);
      OthersChain(db, next, AfterInserts(c, next, claim, text, i + 1, faults), claim.id);
      assert Rows(c, text)[i..] == [ChunkRow(i, c.chunk(text)[i])] + Rows(c, text)[i + 1..];
    }
  }

  lemma ThrownRow(c: Config, db: Db, claim: Claim, faults: FaultPlan, s: nat)
    requires claim.id in db.outbox && ThrowsFirstAt(c, db, claim.id, faults, s)
    ensures var after := AfterRowOf(c, db, claim, faults);
            && Retried(c, after, claim, faults(claim.id, s).value) && OthersSame(db, after, claim.id)
            && ChunksOf(after, claim.id) == if s < 2 then ChunksOf(db, claim.id) else ChunksBefore(c, db, claim.id, s)
    ensures RowFails(c, db, claim.id, faults)
  {
    hide Failing, Retried, AfterInserts, InsertsFail, OthersSame, DeleteChunks;
    if s < 2 {
      FailingSettles(c, db, claim, faults(claim.id, s).value);
    } else {
      var text := db.messages[claim.id].content;
      ChunkStatements(db, claim.id, ChunkRow(0, ""));
      InsertsThrow(c, DeleteChunks(db, claim.id), claim, text, 0, s, faults);
      OthersChain(db, DeleteChunks(db, claim.id), AfterRowOf(c, db, claim, faults), claim.id);
      assert [] + Rows(c, text)[0..s - 2] == Rows(c, text)[..s - 2];
    }
  }

  lemma PassedRow(c: Config, db: Db, claim: Claim, faults: FaultPlan)
    requires !Throws(c, db, claim.id, faults)
    ensures var after := AfterRowOf(c, db, claim, faults);
            && claim.id !in after.outbox && OthersSame(db, after, claim.id)
            && ChunksOf(after, claim.id) ==
               if Indexable(c, db, claim.id) then Target(c, db, claim.id) else ChunksOf(db, claim.id)
    ensures !RowFails(c, db, claim.id, faults)
  {
    hide Failing, AfterInserts, InsertsFail;
    if Indexable(c, db, claim.id) {
      hide OthersSame, DeleteChunks;
      var text := db.messages[claim.id].content;
      ChunkStatements(db, claim.id, ChunkRow(0, ""));
      InsertsPass(c, DeleteChunks(db, claim.id), claim, text, 0, faults);
      OthersChain(db, DeleteChunks(db, claim.id), AfterRowOf(c, db, claim, faults), claim.id);
      assert [] + Rows(c, text)[0..] == Rows(c, text);
    }
  }

  /** A row is settled by its own claim and disturbs no other; it fails exactly if one of its statements throws. */
  lemma RowSettles(c: Config, db: Db, claim: Claim, faults: FaultPlan)
    requires claim.id in db.outbox
    ensures var after := AfterRowOf(c, db, claim, faults);
            SettledTo(c, db, after, claim, faults) && OthersSame(db, after, claim.id)
    ensures RowFails(c, db, claim.id, faults) <==> Throws(c, db, claim.id, faults)
  {
    hide Retried, AfterRowOf, RowFails, Indexable, OthersSame;
    if Throws(c, db, claim.id, faults) {
      var s: nat :| s < Statements(c, db, claim.id) && faults(claim.id, s).Some?;
      var r := SomeFirst(claim.id, faults, s);
      ThrownRow(c, db, claim, faults, r);
    } else {
      PassedRow(c, db, claim, faults);
    }
  }

  // ---- a batch ----

  /** Settling looks at the claim's own message alone, before and after. */
  lemma SettledElsewhere(c: Config, db: Db, after: Db, db': Db, after': Db, claim: Claim, faults: FaultPlan)
    requires SettledTo(c, db, after, claim, faults)
    requires db'.messages == db.messages && ChunksOf(db', claim.id) == ChunksOf(db, claim.id)
    requires SameRow(after, after', claim.id)
    ensures SettledTo(c, db', after', claim, faults)
  {
    hide NextAttemptAfter;
    assert Statements(c, db', claim.id) == Statements(c, db, claim.id);
    forall s: nat | ThrowsFirstAt(c, db', claim.id, faults, s) ensures ThrowsFirstAt(c, db, claim.id, faults, s) {}
    assert Throws(c, db', claim.id, faults) == Throws(c, db, claim.id, faults);
    assert forall u :: Claimable(after', claim.id, u) == Claimable(after, claim.id, u);
  }

  predicate DistinctRows(claims: seq<Claim>) {
    forall i, j :: 0 <= i < j < |claims| ==> claims[i].id != claims[j].id
  }

  ghost predicate AmongClaims(claims: seq<Claim>, id: Id) { exists j :: 0 <= j < |claims| && claims[j].id == id }

  ghost predicate BatchSettled(c: Config, db: Db, after: Db, claims: seq<Claim>, faults: FaultPlan) {
    && after.messages == db.messages
    && (forall j :: 0 <= j < |claims| ==> SettledTo(c, db, after, claims[j], faults))
    && forall id :: !AmongClaims(claims, id) ==> SameRow(db, after, id)
  }

  lemma {:induction false} BatchSettles(c: Config, db: Db, claims: seq<Claim>, faults: FaultPlan)
    requires DistinctRows(claims) && forall j :: 0 <= j < |claims| ==> claims[j].id in db.outbox
    ensures BatchSettled(c, db, AfterRows(c, db, claims, faults), claims, faults)
  {
    hide SettledTo, AfterRowOf, SameRow;
    if claims == [] {
      forall id ensures SameRow(db, db, id) { SameRowItself(db, id); }
    } else {
      var init, last := claims[..|claims| - 1], claims[|claims| - 1];
      BatchSettles(c, db, init, faults);
      BatchStep(c, db, AfterRows(c, db, init, faults), claims, faults);
    }
  }

  lemma SameRowItself(db: Db, id: Id)
    ensures SameRow(db, db, id)
  {
  }

  lemma SameRowChain(x: Db, y: Db, z: Db, id: Id)
    requires SameRow(x, y, id) && SameRow(y, z, id)
    ensures SameRow(x, z, id)
  {
  }

  lemma SameRowJob(x: Db, y: Db, id: Id)
    requires SameRow(x, y, id)
    ensures (id in x.outbox <==> id in y.outbox) && ChunksOf(x, id) == ChunksOf(y, id)
  {
  }

  lemma BatchStep(c: Config, db: Db, before: Db, claims: seq<Claim>, faults: FaultPlan)
    requires claims != [] && DistinctRows(claims) && claims[|claims| - 1].id in db.outbox
    requires BatchSettled(c, db, before, claims[..|claims| - 1], faults)
    ensures BatchSettled(c, db, AfterRowOf(c, before, claims[|claims| - 1], faults), claims, faults)
  {
    hide SettledTo, AfterRowOf, SameRow;
    var init, last := claims[..|claims| - 1], claims[|claims| - 1];
    var after := AfterRowOf(c, before, last, faults);
    assert !AmongClaims(init, last.id);
    SameRowJob(db, before, last.id);
    RowSettles(c, before, last, faults);
    SameRowItself(after, last.id);
    SettledElsewhere(c, before, after, db, after, last, faults);
    forall j | 0 <= j < |init| ensures SettledTo(c, db, after, claims[j], faults) {
      assert init[j] == claims[j];
      SettledElsewhere(c, db, before, db, after, claims[j], faults);
    }
    forall id | !AmongClaims(claims, id) ensures SameRow(db, after, id) {
      forall j | 0 <= j < |init| ensures init[j].id != id { assert claims[j] == init[j]; }
      assert claims[|claims| - 1].id != id;
      SameRowChain(db, before, after, id);
    }
  }

  // ---- a tick ----

  lemma MarkedFor(db: Db, claimed: seq<Id>, now: int)
    requires DistinctIds(claimed) && forall id :: id in claimed ==> Claimable(db, id, now)
    ensures var marked := MarkInProgress(db, set id | id in claimed);
            && marked.messages == db.messages && marked.chunks == db.chunks && marked.outbox.Keys == db.outbox.Keys
            && forall id :: id in db.outbox && id !in claimed ==> marked.outbox[id] == db.outbox[id]
  {
  }

  lemma ClaimsAre(db: Db, claimed: seq<Id>, now: int)
    requires DistinctIds(claimed) && forall id :: id in claimed ==> Claimable(db, id, now)
    ensures (forall id :: id in claimed ==> id in db.outbox) && DistinctRows(ClaimsOf(db, claimed))
    ensures forall id :: AmongClaims(ClaimsOf(db, claimed), id) ==> id in claimed
  {
  }

  /** A claimed job after the tick. If a statement of its row throws, the first one that does decides: the job is there
      with one attempt more, claimable from the end of the backoff on, or never once the attempts are used up, and the
      chunks are those inserted so far. Otherwise the job is gone and the message indexed as its content says. */
  lemma TickSettles(c: Config, db: Db, claimed: seq<Id>, now: int, faults: FaultPlan, id: Id)
    requires DistinctIds(claimed) && (forall x :: x in claimed ==> Claimable(db, x, now)) && id in claimed
    ensures id in db.outbox
    ensures SettledTo(c, db, AfterTick(c, db, claimed, now, faults), Claim(id, db.outbox[id].attempts), faults)
  {
    hide SettledTo, AfterRows, Claimable;
    ClaimedHaveJobs(db, claimed, now);
    ClaimsAre(db, claimed, now);
    MarkedFor(db, claimed, now);
    var marked, claims := MarkInProgress(db, set x | x in claimed), ClaimsOf(db, claimed);
    hide MarkInProgress;
    BatchSettles(c, marked, claims, faults);
    var j :| 0 <= j < |claimed| && claimed[j] == id;
    var after := AfterRows(c, marked, claims, faults);
    SameRowItself(after, id);
    SettledElsewhere(c, marked, after, db, after, claims[j], faults);
  }

  /** A job that is not claimed is not touched, nor is any message. */
  lemma TickLeavesOthers(c: Config, db: Db, claimed: seq<Id>, now: int, faults: FaultPlan, id: Id)
    requires DistinctIds(claimed) && (forall x :: x in claimed ==> Claimable(db, x, now)) && id !in claimed
    ensures AfterTick(c, db, claimed, now, faults).messages == db.messages
    ensures SameRow(db, AfterTick(c, db, claimed, now, faults), id)
  {
    hide AfterRows, Claimable;
    if claimed != [] {
      ClaimedHaveJobs(db, claimed, now);
      ClaimsAre(db, claimed, now);
      MarkedFor(db, claimed, now);
      var marked, claims := MarkInProgress(db, set x | x in claimed), ClaimsOf(db, claimed);
      BatchSettles(c, marked, claims, faults);
    }
  }

  /** The first ready tick after degraded mode: every job that was pending and is not claimed is claimable at once,
      with no attempts; jobs in progress and exhausted ones stay. */
  lemma ResumedTick(c: Config, db: Db, claimed: seq<Id>, now: int, faults: FaultPlan, id: Id, u: int)
    requires DistinctIds(claimed) && forall x :: x in claimed ==> Claimable(Resumed(db, true), x, now)
    requires id in db.outbox && id !in claimed
    ensures var after := AfterTick(c, Resumed(db, true), claimed, now, faults);
            && id in after.outbox
            && if db.outbox[id].status == Pending then Claimable(after, id, u) && after.outbox[id].attempts == 0
               else after.outbox[id] == db.outbox[id]
  {
    hide AfterTick, Resumed;
    ResumedJob(db, id);
    TickLeavesOthers(c, Resumed(db, true), claimed, now, faults, id);
  }

  lemma ResumedJob(db: Db, id: Id)
    requires id in db.outbox
    ensures id in Resumed(db, true).outbox
    ensures Resumed(db, true).outbox[id] ==
            if db.outbox[id].status == Pending then Job(Pending, 0, None) else db.outbox[id]
  {
  }

  // ---- tallies ----

  /** The positions of claims whose rows throw, and of those indexed. */
  ghost function Thrown(c: Config, db: Db, ids: seq<Id>, faults: FaultPlan): set<nat> {
    set j: nat | j < |ids| && Throws(c, db, ids[j], faults)
  }

  ghost function Embedded(c: Config, db: Db, ids: seq<Id>, faults: FaultPlan): set<nat> {
    set j: nat | j < |ids| && Indexable(c, db, ids[j]) && !Throws(c, db, ids[j], faults)
  }

  lemma {:induction false} CountsAre(c: Config, db: Db, ids: seq<Id>, claims: seq<Claim>, faults: FaultPlan)
    requires |claims| == |ids| && forall j :: 0 <= j < |ids| ==> claims[j].id == ids[j] && ids[j] in db.outbox
    requires DistinctRows(claims)
    ensures Fails(c, db, claims, faults) == |Thrown(c, db, ids, faults)|
    ensures Embeds(c, db, claims, faults) == |Embedded(c, db, ids, faults)|
  {
    hide Throws, AfterRows, RowFails, Indexable, Thrown, Embedded;
    if claims != [] {
      var k := |claims| - 1;
      var init, last := claims[..k], ids[..k];
      CountsAre(c, db, last, init, faults);
      LastRow(c, db, claims, faults);
      SetsGrow(c, db, ids, faults);
    } else {
      NoneCounted(c, db, ids, faults);
    }
  }

  lemma NoneCounted(c: Config, db: Db, ids: seq<Id>, faults: FaultPlan)
    requires ids == []
    ensures Thrown(c, db, ids, faults) == {} && Embedded(c, db, ids, faults) == {}
  {
  }

  lemma SetsGrow(c: Config, db: Db, ids: seq<Id>, faults: FaultPlan)
    requires ids != []
    ensures var k := |ids| - 1;
            var t, e := Thrown(c, db, ids[..k], faults), Embedded(c, db, ids[..k], faults);
            && |Thrown(c, db, ids, faults)| == |t| + (if Throws(c, db, ids[k], faults) then 1 else 0)
            && |Embedded(c, db, ids, faults)| ==
               |e| + if Indexable(c, db, ids[k]) && !Throws(c, db, ids[k], faults) then 1 else 0
  {
    hide Throws, Indexable;
    var k := |ids| - 1;
    assert Thrown(c, db, ids, faults) ==
           Thrown(c, db, ids[..k], faults) + if Throws(c, db, ids[k], faults) then {k} else {};
    assert Embedded(c, db, ids, faults) ==
           Embedded(c, db, ids[..k], faults)
           + if Indexable(c, db, ids[k]) && !Throws(c, db, ids[k], faults) then {k} else {};
  }

  lemma LastRow(c: Config, db: Db, claims: seq<Claim>, faults: FaultPlan)
    requires claims != [] && DistinctRows(claims) && forall j :: 0 <= j < |claims| ==> claims[j].id in db.outbox
    ensures var before, id := AfterRows(c, db, claims[..|claims| - 1], faults), claims[|claims| - 1].id;
            && (RowFails(c, before, id, faults) <==> Throws(c, db, id, faults))
            && (Indexable(c, before, id) <==> Indexable(c, db, id))
  {
    hide AfterRows, AfterRowOf, SettledTo, RowFails;
    var init, last := claims[..|claims| - 1], claims[|claims| - 1];
    BatchSettles(c, db, init, faults);
    assert !AmongClaims(init, last.id);
    RowSettles(c, AfterRows(c, db, init, faults), last, faults);
  }

  /** The tallies of a tick count the claimed rows that throw, and those that do not and are indexed. */
  lemma TickTallies(c: Config, db: Db, claimed: seq<Id>, now: int, faults: FaultPlan)
    requires DistinctIds(claimed) && forall x :: x in claimed ==> Claimable(db, x, now)
    ensures Tally(c, db, claimed, now, faults) ==
            Outcome(|claimed|, |Embedded(c, db, claimed, faults)|, |Thrown(c, db, claimed, faults)|, 0)
  {
    hide Embeds, Fails, Claimable;
    if claimed == [] {
      assert Thrown(c, db, claimed, faults) == {} && Embedded(c, db, claimed, faults) == {};
    } else {
      ClaimedHaveJobs(db, claimed, now);
      ClaimsAre(db, claimed, now);
      MarkedFor(db, claimed, now);
      var marked, claims := MarkInProgress(db, set x | x in claimed), ClaimsOf(db, claimed);
      hide MarkInProgress;
      CountsAre(c, marked, claimed, claims, faults);
      forall id ensures Throws(c, marked, id, faults) == Throws(c, db, id, faults) {
        assert Statements(c, marked, id) == Statements(c, db, id);
      }
      assert Thrown(c, marked, claimed, faults) == Thrown(c, db, claimed, faults);
      assert Embedded(c, marked, claimed, faults) == Embedded(c, db, claimed, faults);
    }
  }

  // ---- the backoff, in numbers ----

  lemma {:induction false} DoublingExact(n: nat)
    ensures PowerOfTwo(n) >= 1 && PowerOfTwo(n + 1) == 2 * PowerOfTwo(n)
  {
    if 0 < n { DoublingExact(n - 1); }
  }

  /** A retry after `k` attempts waits at least five seconds doubled `k` times, and less than 1.3 times that; from the
      thirtieth attempt on the wait no longer grows. */
  lemma BackoffBounds(k: nat, f: Fault)
    requires 0.0 <= f.random < 1.0
    ensures var delay := 5_000 * PowerOfTwo(if k < 30 then k else 30);
            f.now + delay <= NextAttemptAfter(k, f) < f.now + delay + delay * 3 / 10
  {
    hide PowerOfTwo, Jitter;
    var e := if k < 30 then k else 30;
    DoublingExact(e);
    WaitBounds(PowerOfTwo(e), f.random);
  }

  lemma WaitBounds(p: nat, random: real)
    requires 0.0 <= random < 1.0 && 0 < p
    ensures 0 <= Jitter(random, 5_000 * p).Floor < 5_000 * p * 3 / 10
  {
    hide Jitter;
    JitterBounds(random, 5_000 * p);
    FloorBelow(Jitter(random, 5_000 * p), 5_000 * p);
  }

  lemma FloorBelow(x: real, delay: int)
    requires 0.0 <= x < delay as real * 0.3 && delay % 5_000 == 0
    ensures 0 <= x.Floor < delay * 3 / 10
  {
    var q := delay / 5_000;
    assert delay == 5_000 * q && delay * 3 / 10 == 1_500 * q;
    assert delay as real * 0.3 == (1_500 * q) as real;
  }

  lemma JitterBounds(random: real, delay: nat)
    requires 0.0 <= random < 1.0 && 0 < delay
    ensures 0.0 <= Jitter(random, delay) < delay as real * 0.3
  {
    var d := delay as real;
    assert random * d < d;
  }

  // ---- recovery and enqueueing ----

  /** Boot recovery gives back exactly the jobs in progress, with the attempts and the retry time they had. */
  lemma RecoveryJobs(db: Db, id: Id)
    ensures var after := RunBacklogRecovery(db);
            && after.messages == db.messages && after.chunks == db.chunks
            && (id in after.outbox <==> id in db.outbox)
            && (id in db.outbox ==>
                  && after.outbox[id].status != InProgress
                  && (db.outbox[id].status != InProgress ==> after.outbox[id] == db.outbox[id])
                  && (db.outbox[id].status == InProgress ==> after.outbox[id].status == Pending)
                  && after.outbox[id].attempts == db.outbox[id].attempts
                  && after.outbox[id].nextAttemptAfter == db.outbox[id].nextAttemptAfter)
  {
  }

  /** Writing an indexable message leaves it claimable at once with no attempts, whatever job it had; any other write
      leaves neither job nor chunks. */
  lemma WriteJobs(c: Config, db: Db, id: Id, msg: Message, u: int)
    ensures var after := WriteMessage(c, db, id, msg);
            && id in after.messages && after.messages[id] == msg
            && if c.eligible(msg.role, msg.content) then
                 Claimable(after, id, u) && after.outbox[id].attempts == 0 && ChunksOf(after, id) == ChunksOf(db, id)
               else
                 id !in after.outbox && ChunksOf(after, id) == []
  {
  }
}

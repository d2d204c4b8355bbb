/** `EmbedWorker.tickOnce` of src/extensions/embed-worker.ts as a method over its fields, proved to be a run of
    the outbox machine. */
module EmbedWorker {
  import opened Wrappers
  import opened EmbedOutbox

  datatype Outcome = Outcome(claimed: nat, embedded: nat, failed: nat, skipped: nat)

  const EMPTY_OUTCOME := Outcome(0, 0, 0, 0)

  predicate TickAction(a: Action) { a.Work? || a.Throw? || a.ClaimBatch? || a.ResetAttempts? }

  /** `b` follows `a` by statements, failures, claims and attempt resets alone. */
  ghost predicate Reaches(c: Config, a: Machine, b: Machine) {
    exists states, actions :: ReachesBy(c, a, b, states, actions)
  }

  ghost predicate ReachesBy(c: Config, a: Machine, b: Machine, states: seq<Machine>, actions: seq<Action>) {
    && Runs(c, states, actions) && states[0] == a && states[|actions|] == b
    && forall i :: 0 <= i < |actions| ==> TickAction(actions[i])
  }

  lemma ReachesItself(c: Config, a: Machine)
    ensures Reaches(c, a, a)
  {
    assert ReachesBy(c, a, a, [a], []);
  }

  lemma ReachesStep(c: Config, a: Machine, b: Machine, act: Action)
    requires Reaches(c, a, b) && ValidWorker(b.worker) && Enabled(c, b, act)
    requires TickAction(act)
    ensures Reaches(c, a, Act(c, b, act))
  {
    hide Act, Enabled;
    var states, actions :| ReachesBy(c, a, b, states, actions);
    var states', actions' := states + [Act(c, b, act)], actions + [act];
    forall i | 0 <= i < |actions'|
      ensures ValidWorker(states'[i].worker) && Enabled(c, states'[i], actions'[i])
      ensures states'[i + 1] == Act(c, states'[i], actions'[i])
    {
      if i < |actions| {
        assert states'[i] == states[i] && states'[i + 1] == states[i + 1] && actions'[i] == actions[i];
      }
    }
    assert ReachesBy(c, a, Act(c, b, act), states', actions');
  }

  /** A run of the tick keeps each message's index exact. */
  lemma ReachesKeeps(c: Config, a: Machine, b: Machine, id: Id)
    requires Reaches(c, a, b) && ProperWorker(a.worker) && IndexInv(c, a, id)
    ensures ProperWorker(b.worker) && IndexInv(c, b, id)
  {
    hide IndexInv, ProperWorker, Act, Enabled;
    var states, actions :| ReachesBy(c, a, b, states, actions);
    assert NoRace(states, actions, id);
    IndexAlongRun(c, states, actions, |actions|, id);
  }

  /** And the attempts bounded. */
  lemma ReachesBounded(c: Config, a: Machine, b: Machine)
    requires ValidConfig(c) && Reaches(c, a, b) && AttemptsInv(c, a)
    ensures AttemptsInv(c, b)
  {
    hide AttemptsInv, Act, Enabled;
    var states, actions :| ReachesBy(c, a, b, states, actions);
    AttemptsAlongRun(c, states, actions, |actions|);
  }

  /** The clock and the random number in [0, 1) when a statement throws. */
  datatype Fault = Fault(now: int, random: real)

  /** Which statement of a row throws. Statement 0 reads, chunks and embeds, 1 deletes stale chunks, 2 + i inserts
      chunk i, the last one marks the job done. */
  type FaultPlan = (Id, nat) -> Option<Fault>

  const MAX_BACKOFF_EXPONENT: nat := 30

  function PowerOfTwo(n: nat): nat { if n == 0 then 1 else 2 * PowerOfTwo(n - 1) }

  function Jitter(random: real, delay: nat): real { random * delay as real * 0.3 }

  /** `computeNextAttemptAfter`; a date is a whole number of milliseconds. */
  function NextAttemptAfter(attempts: nat, f: Fault): int {
    var exponent := if attempts <= MAX_BACKOFF_EXPONENT then attempts else MAX_BACKOFF_EXPONENT;
    var delay := 5_000 * PowerOfTwo(exponent);
    f.now + delay + Jitter(f.random, delay).Floor
  }

  // ---- what a tick leaves, fault by fault ----

  function Failing(c: Config, db: Db, claim: Claim, f: Fault): Db {
    var attempts := claim.attempts + 1;
    MarkFailed(db, claim.id, attempts, if attempts >= c.maxAttempts then None else Some(NextAttemptAfter(attempts, f)))
  }

  /** The tables once the chunks from `i` on are inserted and the job is done, or a statement has failed. */
  function AfterInserts(c: Config, db: Db, claim: Claim, text: string, i: nat, faults: FaultPlan): Db
    requires i <= |c.chunk(text)|
    decreases |c.chunk(text)| - i
  {
    if faults(claim.id, 2 + i).Some? then Failing(c, db, claim, faults(claim.id, 2 + i).value)
    else if i == |c.chunk(text)| then MarkDone(db, claim.id)
    else AfterInserts(c, InsertChunk(db, claim.id, ChunkRow(i, c.chunk(text)[i])), claim, text, i + 1, faults)
  }

  function AfterRowOf(c: Config, db: Db, claim: Claim, faults: FaultPlan): Db {
    if faults(claim.id, 0).Some? then Failing(c, db, claim, faults(claim.id, 0).value)
    else if !Indexable(c, db, claim.id) then MarkDone(db, claim.id)
    else if faults(claim.id, 1).Some? then Failing(c, db, claim, faults(claim.id, 1).value)
    else AfterInserts(c, DeleteChunks(db, claim.id), claim, db.messages[claim.id].content, 0, faults)
  }

  predicate InsertsFail(c: Config, id: Id, text: string, i: nat, faults: FaultPlan)
    requires i <= |c.chunk(text)|
    decreases |c.chunk(text)| - i
  {
    faults(id, 2 + i).Some? || (i < |c.chunk(text)| && InsertsFail(c, id, text, i + 1, faults))
  }

  predicate RowFails(c: Config, db: Db, id: Id, faults: FaultPlan) {
    || faults(id, 0).Some?
    || (Indexable(c, db, id) && (faults(id, 1).Some? || InsertsFail(c, id, db.messages[id].content, 0, faults)))
  }

  predicate RowEmbeds(c: Config, db: Db, id: Id, faults: FaultPlan) {
    Indexable(c, db, id) && !RowFails(c, db, id, faults)
  }

  function AfterRows(c: Config, db: Db, claims: seq<Claim>, faults: FaultPlan): Db {
    if claims == [] then db
    else AfterRowOf(c, AfterRows(c, db, claims[..|claims| - 1], faults), claims[|claims| - 1], faults)
  }

  function Embeds(c: Config, db: Db, claims: seq<Claim>, faults: FaultPlan): nat {
    if claims == [] then 0
    else
      var init, last := claims[..|claims| - 1], claims[|claims| - 1];
      Embeds(c, db, init, faults) + if RowEmbeds(c, AfterRows(c, db, init, faults), last.id, faults) then 1 else 0
  }

  function Fails(c: Config, db: Db, claims: seq<Claim>, faults: FaultPlan): nat {
    if claims == [] then 0
    else
      var init, last := claims[..|claims| - 1], claims[|claims| - 1];
      Fails(c, db, init, faults) + if RowFails(c, AfterRows(c, db, init, faults), last.id, faults) then 1 else 0
  }

  lemma RowsNext(c: Config, db: Db, claims: seq<Claim>, k: nat, faults: FaultPlan)
    requires k < |claims|
    ensures var before := AfterRows(c, db, claims[..k], faults);
            && AfterRows(c, db, claims[..k + 1], faults) == AfterRowOf(c, before, claims[k], faults)
            && Embeds(c, db, claims[..k + 1], faults) ==
               Embeds(c, db, claims[..k], faults) + (if RowEmbeds(c, before, claims[k].id, faults) then 1 else 0)
            && Fails(c, db, claims[..k + 1], faults) ==
               Fails(c, db, claims[..k], faults) + (if RowFails(c, before, claims[k].id, faults) then 1 else 0)
  {
    assert claims[..k + 1][..k] == claims[..k];
  }

  /** Every row is tried: what is neither embedded nor failed was not indexable any more. */
  lemma {:induction false} TalliesWithin(c: Config, db: Db, claims: seq<Claim>, faults: FaultPlan)
    ensures Embeds(c, db, claims, faults) + Fails(c, db, claims, faults) <= |claims|
  {
    if claims != [] { TalliesWithin(c, db, claims[..|claims| - 1], faults); }
  }

  /** The claimable jobs a tick sees. */
  function Resumed(db: Db, degraded: bool): Db { if degraded then ResetAttemptsForPending(db) else db }

  function AfterTick(c: Config, db: Db, claimed: seq<Id>, now: int, faults: FaultPlan): Db
    requires forall id :: id in claimed ==> Claimable(db, id, now)
  {
    if claimed == [] then db
    else
      ClaimedHaveJobs(db, claimed, now);
      AfterRows(c, MarkInProgress(db, set id | id in claimed), ClaimsOf(db, claimed), faults)
  }

  function Tally(c: Config, db: Db, claimed: seq<Id>, now: int, faults: FaultPlan): Outcome
    requires forall id :: id in claimed ==> Claimable(db, id, now)
  {
    if claimed == [] then EMPTY_OUTCOME
    else
      ClaimedHaveJobs(db, claimed, now);
      var marked, claims := MarkInProgress(db, set id | id in claimed), ClaimsOf(db, claimed);
      Outcome(|claimed|, Embeds(c, marked, claims, faults), Fails(c, marked, claims, faults), 0)
  }

  class EmbedWorker {
    const c: Config
    var db: Db
    var ticking: bool
    var inDegradedMode: bool
    ghost var m: Machine

    constructor (c: Config, db: Db)
      ensures this.c == c && this.db == db && !ticking && !inDegradedMode && m == Machine(db, Idle, map[])
    {
      this.c, this.db := c, db;
      ticking, inDegradedMode := false, false;
      m := Machine(db, Idle, map[]);
    }

    ghost predicate Valid()
      reads this
    {
      m.db == db && ValidWorker(m.worker)
    }

    /** The row the worker stands at. */
    ghost predicate At(claims: seq<Claim>, k: nat, phase: Phase)
      reads this
    {
      Valid() && k < |claims| && m.worker == Draining(claims, k, phase)
    }

    ghost function AfterRow(claims: seq<Claim>, k: nat): Worker
      requires k < |claims|
    {
      NextRow(Draining(claims, k, Fetching))
    }

    /** The catch block of a row. */
    method RecordFailure(
      ghost claims: seq<Claim>, ghost k: nat, claim: Claim, f: Fault, ghost phase: Phase, ghost start: Machine)
      requires At(claims, k, phase) && claims[k] == claim && Reaches(c, start, m)
      modifies this`db, this`m
      ensures Valid() && m.worker == AfterRow(claims, k) && Reaches(c, start, m)
      ensures db == Failing(c, old(db), claim, f)
    {
      hide Reaches, NextAttemptAfter;
      var attempts := claim.attempts + 1;
      var retryAt := NextAttemptAfter(attempts, f);
      ReachesStep(c, start, m, Throw(retryAt));
      db := MarkFailed(db, claim.id, attempts, if attempts >= c.maxAttempts then None else Some(retryAt));
      m := Act(c, m, Throw(retryAt));
    }

    /** Inserting a row's chunks and marking it done. */
    method DrainInserts(
      ghost claims: seq<Claim>, ghost k: nat, claim: Claim, text: string, faults: FaultPlan, ghost start: Machine)
      returns (failed: bool)
      requires At(claims, k, Inserting(text, 0)) && claims[k] == claim && Reaches(c, start, m)
      requires ChunksOf(db, claim.id) == []
      modifies this`db, this`m
      ensures Valid() && m.worker == AfterRow(claims, k) && Reaches(c, start, m)
      ensures db == AfterInserts(c, old(db), claim, text, 0, faults)
      ensures failed == InsertsFail(c, claim.id, text, 0, faults)
      ensures !failed ==>
                claim.id !in db.outbox && ChunksOf(db, claim.id) == Rows(c, text) && db.messages == old(db.messages)
    {
      hide Reaches, Failing;
      var id := claim.id;
      var parts := c.chunk(text);
      for i := 0 to |parts|
        invariant At(claims, k, Inserting(text, i)) && Reaches(c, start, m)
        invariant db.messages == old(db.messages) && ChunksOf(db, id) == Rows(c, text)[..i]
        invariant AfterInserts(c, db, claim, text, i, faults) == AfterInserts(c, old(db), claim, text, 0, faults)
        invariant InsertsFail(c, id, text, i, faults) == InsertsFail(c, id, text, 0, faults)
      {
        var fault := faults(id, 2 + i);
        if fault.Some? {
          RecordFailure(claims, k, claim, fault.value, Inserting(text, i), start);
          return true;
        }
        ReachesStep(c, start, m, Work);
        assert Rows(c, text)[..i + 1] == Rows(c, text)[..i] + [ChunkRow(i, parts[i])];
        db := InsertChunk(db, id, ChunkRow(i, parts[i]));
        m := Act(c, m, Work);
      }
      var fault := faults(id, 2 + |parts|);
      if fault.Some? {
        RecordFailure(claims, k, claim, fault.value, Inserting(text, |parts|), start);
        return true;
      }
      ReachesStep(c, start, m, Work);
      assert Rows(c, text)[..|parts|] == Rows(c, text);
      db := MarkDone(db, id);
      m := Act(c, m, Work);
      return false;
    }

    /** One row of the drain loop. */
    method DrainRow(ghost claims: seq<Claim>, ghost k: nat, claim: Claim, faults: FaultPlan, ghost start: Machine)
      returns (embedded: bool, failed: bool)
      requires At(claims, k, Fetching) && claims[k] == claim && Reaches(c, start, m)
      modifies this`db, this`m
      ensures Valid() && m.worker == AfterRow(claims, k) && Reaches(c, start, m)
      ensures db == AfterRowOf(c, old(db), claim, faults)
      ensures failed == RowFails(c, old(db), claim.id, faults) && embedded == RowEmbeds(c, old(db), claim.id, faults)
      ensures embedded ==> claim.id !in db.outbox && ChunksOf(db, claim.id) == Target(c, db, claim.id)
    {
      hide Reaches, Failing, AfterInserts, InsertsFail;
      embedded, failed := false, false;
      var id := claim.id;
      var fault := faults(id, 0);
      if fault.Some? {
        RecordFailure(claims, k, claim, fault.value, Fetching, start);
        failed := true;
        return;
      }
      ReachesStep(c, start, m, Work);
      if !Indexable(c, db, id) {
        db := MarkDone(db, id);
        m := Act(c, m, Work);
        return;
      }
      var text := db.messages[id].content;
      m := Act(c, m, Work);
      fault := faults(id, 1);
      if fault.Some? {
        RecordFailure(claims, k, claim, fault.value, Deleting(text), start);
        failed := true;
        return;
      }
      ReachesStep(c, start, m, Work);
      db := DeleteChunks(db, id);
      m := Act(c, m, Work);
      failed := DrainInserts(claims, k, claim, text, faults, start);
      embedded := !failed;
    }

    /** The drain loop. */
    method DrainBatch(claims: seq<Claim>, faults: FaultPlan, ghost start: Machine) returns (embedded: nat, failed: nat)
      requires claims != [] && At(claims, 0, Fetching) && Reaches(c, start, m)
      modifies this`db, this`m
      ensures Valid() && m.worker.Idle? && Reaches(c, start, m)
      ensures db == AfterRows(c, old(db), claims, faults)
      ensures embedded == Embeds(c, old(db), claims, faults) && failed == Fails(c, old(db), claims, faults)
    {
      hide Reaches, RowEmbeds, RowFails, AfterRowOf;
      embedded, failed := 0, 0;
      for k := 0 to |claims|
        invariant Valid() && Reaches(c, start, m)
        invariant if k < |claims| then m.worker == Draining(claims, k, Fetching) else m.worker.Idle?
        invariant db == AfterRows(c, old(db), claims[..k], faults)
        invariant embedded == Embeds(c, old(db), claims[..k], faults)
        invariant failed == Fails(c, old(db), claims[..k], faults)
      {
        RowsNext(c, old(db), claims, k, faults);
        var e, f := DrainRow(claims, k, claims[k], faults, start);
        if e { embedded := embedded + 1; }
        if f { failed := failed + 1; }
      }
      assert claims[..|claims|] == claims;
    }

    /** One drain pass. `claimed` is what claimBatch picks: claimable jobs, at most a batch. */
    method TickOnce(ready: bool, claimed: seq<Id>, now: int, faults: FaultPlan) returns (r: Outcome)
      requires Valid() && |claimed| <= c.batchSize && DistinctIds(claimed)
      requires !ticking ==> m.worker.Idle?
      requires !ticking ==> forall id :: id in claimed ==> Claimable(Resumed(db, inDegradedMode), id, now)
      modifies this
      ensures old(ticking) ==> r == EMPTY_OUTCOME && m == old(m) && db == old(db)
      ensures old(ticking) ==> ticking && inDegradedMode == old(inDegradedMode)
      ensures !old(ticking) ==> Valid() && m.worker.Idle? && !ticking && inDegradedMode == !ready
      ensures Reaches(c, old(m), m)
      ensures forall id :: ProperWorker(old(m).worker) && IndexInv(c, old(m), id) ==> IndexInv(c, m, id)
      ensures ValidConfig(c) && AttemptsInv(c, old(m)) ==> AttemptsInv(c, m)
      ensures !old(ticking) && !ready ==> db == old(db) && r == EMPTY_OUTCOME.(skipped := c.batchSize)
      ensures !old(ticking) && ready ==> db == AfterTick(c, Resumed(old(db), old(inDegradedMode)), claimed, now, faults)
      ensures !old(ticking) && ready ==> r == Tally(c, Resumed(old(db), old(inDegradedMode)), claimed, now, faults)
    {
      hide Reaches, IndexInv, AttemptsInv, Claimable, AfterRows, Embeds, Fails;
      ghost var start := m;
      ReachesItself(c, start);
      if ticking { return EMPTY_OUTCOME; }
      ticking := true;
      if !ready {
        inDegradedMode := true;
        ticking := false;
        return EMPTY_OUTCOME.(skipped := c.batchSize);
      }
      if inDegradedMode {
        inDegradedMode := false;
        ReachesStep(c, start, m, ResetAttempts);
        db := ResetAttemptsForPending(db);
        m := Act(c, m, ResetAttempts);
      }
      var embedded, failed := 0, 0;
      if claimed != [] {
        ClaimedHaveJobs(db, claimed, now);
        var claims := ClaimsOf(db, claimed);
        ReachesStep(c, start, m, ClaimBatch(claimed, now));
        db := MarkInProgress(db, set id | id in claimed);
        m := Act(c, m, ClaimBatch(claimed, now));
        embedded, failed := DrainBatch(claims, faults, start);
      }
      ticking := false;
      forall id | ProperWorker(start.worker) && IndexInv(c, start, id) ensures IndexInv(c, m, id) {
        ReachesKeeps(c, start, m, id);
      }
      if ValidConfig(c) && AttemptsInv(c, start) { ReachesBounded(c, start, m); }
      return Outcome(|claimed|, embedded, failed, 0);
    }
  }

  lemma ClaimedHaveJobs(db: Db, ids: seq<Id>, now: int)
    requires forall id :: id in ids ==> Claimable(db, id, now)
    ensures forall id :: id in ids ==> id in db.outbox
  {
  }
}

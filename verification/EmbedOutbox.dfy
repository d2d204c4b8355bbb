/** The embedding outbox as a state machine: the statements of `EmbedWorker.tickOnce`
    (src/extensions/embed-worker.ts) interleaved with message writes, failures, crashes and boot recovery. */
module EmbedOutbox {
  import opened Wrappers

  type Id = string

  datatype Message = Message(role: string, content: string)

  /** A row of message_chunks; its embedding is determined by the text. */
  datatype ChunkRow = ChunkRow(index: nat, text: string)

  datatype Status = Pending | InProgress | Exhausted

  /** A row of message_embed_outbox. A finished job's row is deleted. */
  datatype Job = Job(status: Status, attempts: nat, nextAttemptAfter: Option<int>)

  datatype Db = Db(messages: map<Id, Message>, chunks: map<Id, seq<ChunkRow>>, outbox: map<Id, Job>)

  /** `chunk` is the tokenizer's split, `eligible` isEmbedEligible. */
  datatype Config = Config(
    chunk: string -> seq<string>, eligible: (string, string) -> bool, batchSize: nat, maxAttempts: nat)

  predicate ValidConfig(c: Config) { 1 <= c.batchSize && 1 <= c.maxAttempts }

  // ---- what the index should hold ----

  /** Rows 0 .. n-1 of the chunks of a text. */
  function Rows(c: Config, text: string): seq<ChunkRow> {
    var parts := c.chunk(text);
    seq(|parts|, i requires 0 <= i < |parts| => ChunkRow(i, parts[i]))
  }

  predicate Indexable(c: Config, db: Db, id: Id) {
    id in db.messages && c.eligible(db.messages[id].role, db.messages[id].content)
  }

  function Target(c: Config, db: Db, id: Id): seq<ChunkRow> {
    if Indexable(c, db, id) then Rows(c, db.messages[id].content) else []
  }

  function ChunksOf(db: Db, id: Id): seq<ChunkRow> { if id in db.chunks then db.chunks[id] else [] }

  // ---- the statements ----

  function EnqueueEmbedJob(db: Db, id: Id): Db { db.(outbox := db.outbox[id := Job(Pending, 0, None)]) }

  function ClearMessageEmbedState(db: Db, id: Id): Db {
    db.(outbox := db.outbox - {id}, chunks := db.chunks - {id})
  }

  /** A created or edited message, with its job, in one transaction. */
  function WriteMessage(c: Config, db: Db, id: Id, msg: Message): Db {
    var db1 := db.(messages := db.messages[id := msg]);
    if c.eligible(msg.role, msg.content) then EnqueueEmbedJob(db1, id) else ClearMessageEmbedState(db1, id)
  }

  predicate Claimable(db: Db, id: Id, now: int) {
    && id in db.outbox && db.outbox[id].status == Pending
    && (db.outbox[id].nextAttemptAfter.None? || db.outbox[id].nextAttemptAfter.value <= now)
  }

  function MarkInProgress(db: Db, ids: set<Id>): Db {
    db.(outbox := map id | id in db.outbox ::
          if id in ids then db.outbox[id].(status := InProgress) else db.outbox[id])
  }

  function MarkDone(db: Db, id: Id): Db { db.(outbox := db.outbox - {id}) }

  /** A retry time of None means exhausted. An absent row stays absent. */
  function MarkFailed(db: Db, id: Id, attempts: nat, retryAt: Option<int>): Db {
    if id !in db.outbox then db
    else db.(outbox := db.outbox[id := Job(if retryAt.None? then Exhausted else Pending, attempts, retryAt)])
  }

  function RunBacklogRecovery(db: Db): Db {
    db.(outbox := map id | id in db.outbox ::
          if db.outbox[id].status == InProgress then db.outbox[id].(status := Pending) else db.outbox[id])
  }

  function ResetAttemptsForPending(db: Db): Db {
    db.(outbox := map id | id in db.outbox ::
          if db.outbox[id].status == Pending then Job(Pending, 0, None) else db.outbox[id])
  }

  function DeleteChunks(db: Db, id: Id): Db { db.(chunks := db.chunks[id := []]) }

  function InsertChunk(db: Db, id: Id, row: ChunkRow): Db { db.(chunks := db.chunks[id := ChunksOf(db, id) + [row]]) }

  // ---- the machine ----

  /** What claimBatch returned for a row. */
  datatype Claim = Claim(id: Id, attempts: nat)

  /** How far the current row has come: not read yet, its text read and embedded, or `done` chunks inserted. */
  datatype Phase = Fetching | Deleting(text: string) | Inserting(text: string, done: nat)

  datatype Worker = Idle | Draining(claims: seq<Claim>, k: nat, phase: Phase)

  /** `failures` counts a message's failures since its attempts were last reset. */
  datatype Machine = Machine(db: Db, worker: Worker, failures: map<Id, nat>)

  datatype Action =
    | ClaimBatch(ids: seq<Id>, now: int)
    | Work                       // the current row's next statement
    | Throw(retryAt: int)        // the current row's next statement fails
    | Crash                      // the process, or the whole tick, dies here
    | Recover                    // boot recovery
    | ResetAttempts              // first ready tick after degraded mode
    | Write(id: Id, msg: Message)
    | Enqueue(id: Id, reset: bool) // the backfill's two ways to enqueue

  predicate DistinctIds(ids: seq<Id>) {
    forall i, j :: 0 <= i < j < |ids| ==> ids[i] != ids[j]
  }

  predicate ValidWorker(w: Worker) { w.Draining? ==> w.k < |w.claims| }

  predicate Enabled(c: Config, m: Machine, a: Action) {
    match a
    case ClaimBatch(ids, now) =>
      && m.worker.Idle? && ids != [] && |ids| <= c.batchSize && DistinctIds(ids)
      && forall id :: id in ids ==> Claimable(m.db, id, now)
    case Work => m.worker.Draining?
    case Throw(_) => m.worker.Draining?
    case Recover => m.worker.Idle?
    case ResetAttempts => m.worker.Idle?
    case Enqueue(id, _) => Indexable(c, m.db, id)
    case _ => true
  }

  function NextRow(w: Worker): Worker
    requires w.Draining?
  {
    if w.k + 1 < |w.claims| then Draining(w.claims, w.k + 1, Fetching) else Idle
  }

  function Failures(m: Machine, id: Id): nat { if id in m.failures then m.failures[id] else 0 }

  function ClaimsOf(db: Db, ids: seq<Id>): seq<Claim>
    requires forall id :: id in ids ==> id in db.outbox
  {
    seq(|ids|, i requires 0 <= i < |ids| => assert ids[i] in ids; Claim(ids[i], db.outbox[ids[i]].attempts))
  }

  function WorkOn(c: Config, m: Machine): Machine
    requires ValidWorker(m.worker) && m.worker.Draining?
  {
    var id := m.worker.claims[m.worker.k].id;
    match m.worker.phase
    case Fetching =>
      if Indexable(c, m.db, id) then m.(worker := m.worker.(phase := Deleting(m.db.messages[id].content)))
      else m.(db := MarkDone(m.db, id), worker := NextRow(m.worker))
    case Deleting(text) => m.(db := DeleteChunks(m.db, id), worker := m.worker.(phase := Inserting(text, 0)))
    case Inserting(text, done) =>
      var parts := c.chunk(text);
      if done < |parts| then
        m.(db := InsertChunk(m.db, id, ChunkRow(done, parts[done])),
           worker := m.worker.(phase := Inserting(text, done + 1)))
      else
        m.(db := MarkDone(m.db, id), worker := NextRow(m.worker))
  }

  function ThrowOn(c: Config, m: Machine, retryAt: int): Machine
    requires ValidWorker(m.worker) && m.worker.Draining?
  {
    var claim := m.worker.claims[m.worker.k];
    var attempts := claim.attempts + 1;
    m.(db := MarkFailed(m.db, claim.id, attempts, if attempts >= c.maxAttempts then None else Some(retryAt)),
       worker := NextRow(m.worker),
       failures := m.failures[claim.id := Failures(m, claim.id) + 1])
  }

  function Act(c: Config, m: Machine, a: Action): Machine
    requires ValidWorker(m.worker) && Enabled(c, m, a)
  {
    match a
    case ClaimBatch(ids, _) =>
      m.(db := MarkInProgress(m.db, set id | id in ids), worker := Draining(ClaimsOf(m.db, ids), 0, Fetching))
    case Work => WorkOn(c, m)
    case Throw(retryAt) => ThrowOn(c, m, retryAt)
    case Crash => m.(worker := Idle)
    case Recover => m.(db := RunBacklogRecovery(m.db))
    case ResetAttempts =>
      m.(db := ResetAttemptsForPending(m.db),
         failures :=
           map id | id in m.failures && !(id in m.db.outbox && m.db.outbox[id].status == Pending) :: m.failures[id])
    case Write(id, msg) => m.(db := WriteMessage(c, m.db, id, msg), failures := m.failures - {id})
    case Enqueue(id, reset) =>
      if id in m.db.outbox && !reset then m
      else m.(db := EnqueueEmbedJob(m.db, id), failures := m.failures - {id})
  }

  // ---- the index equals its source ----

  predicate InFlight(m: Machine, id: Id) {
    && m.worker.Draining? && m.worker.k < |m.worker.claims|
    && m.worker.claims[m.worker.k].id == id && !m.worker.phase.Fetching?
  }

  /** Rows still to be drained in this batch. */
  predicate Ahead(m: Machine, id: Id) {
    m.worker.Draining? && exists j :: m.worker.k <= j < |m.worker.claims| && m.worker.claims[j].id == id
  }

  predicate DistinctClaims(w: Worker) {
    w.Draining? ==> forall i, j :: 0 <= i < j < |w.claims| ==> w.claims[i].id != w.claims[j].id
  }

  /** A message without a job is indexed exactly: indices 0 to n-1 of its chunks, nothing else. */
  ghost predicate Indexed(c: Config, db: Db, id: Id) { id !in db.outbox ==> ChunksOf(db, id) == Target(c, db, id) }

  /** A job is for an indexable message, and a row ahead in the batch still has its job. */
  ghost predicate JobOk(c: Config, m: Machine, id: Id) {
    && (id in m.db.outbox ==> Indexable(c, m.db, id))
    && (Ahead(m, id) ==> id in m.db.outbox || !Indexable(c, m.db, id))
  }

  /** In flight, the text read is current and the chunks are as far as the worker says. */
  ghost predicate FlightOk(c: Config, m: Machine, id: Id) {
    InFlight(m, id) ==>
      && id in m.db.outbox && id in m.db.messages && m.db.messages[id].content == m.worker.phase.text
      && (m.worker.phase.Inserting? ==>
            m.worker.phase.done <= |Rows(c, m.worker.phase.text)|
            && ChunksOf(m.db, id) == Rows(c, m.worker.phase.text)[..m.worker.phase.done])
  }

  ghost predicate ProperWorker(w: Worker) { ValidWorker(w) && DistinctClaims(w) }

  /** One message's part of the index. Others may be gaps, without chunks and without a job. */
  ghost predicate IndexInv(c: Config, m: Machine, id: Id) {
    Indexed(c, m.db, id) && JobOk(c, m, id) && FlightOk(c, m, id)
  }

  /** A write to this very message while the worker has read its text but not finished. */
  predicate Racing(m: Machine, a: Action, id: Id) { a.Write? && a.id == id && InFlight(m, id) }

  lemma ActKeepsWorker(c: Config, m: Machine, a: Action)
    requires ProperWorker(m.worker) && Enabled(c, m, a)
    ensures ProperWorker(Act(c, m, a).worker)
  {
  }

  lemma WorkKeepsIndex(c: Config, m: Machine, id: Id)
    requires ProperWorker(m.worker) && IndexInv(c, m, id) && m.worker.Draining?
    ensures IndexInv(c, WorkOn(c, m), id)
  {
    var row := m.worker.claims[m.worker.k].id;
    assert Ahead(m, row);
    if Ahead(WorkOn(c, m), id) { assert Ahead(m, id); }
    match m.worker.phase
    case Fetching =>
    case Deleting(text) => assert InFlight(m, row);
    case Inserting(text, done) =>
      assert InFlight(m, row);
      if row == id {
        if done < |c.chunk(text)| {
          assert Rows(c, text)[..done + 1] == Rows(c, text)[..done] + [Rows(c, text)[done]];
        } else {
          assert Rows(c, text)[..done] == Rows(c, text);
        }
      }
  }

  lemma ThrowKeepsIndex(c: Config, m: Machine, retryAt: int, id: Id)
    requires ProperWorker(m.worker) && IndexInv(c, m, id) && m.worker.Draining?
    ensures IndexInv(c, ThrowOn(c, m, retryAt), id)
  {
    if Ahead(ThrowOn(c, m, retryAt), id) { assert Ahead(m, id); }
  }

  lemma ClaimKeepsIndex(c: Config, m: Machine, ids: seq<Id>, now: int, id: Id)
    requires IndexInv(c, m, id) && Enabled(c, m, ClaimBatch(ids, now))
    ensures IndexInv(c, Act(c, m, ClaimBatch(ids, now)), id)
  {
    var m' := Act(c, m, ClaimBatch(ids, now));
    if Ahead(m', id) {
      var j :| 0 <= j < |ids| && m'.worker.claims[j].id == id;
      assert ids[j] in ids;
    }
  }

  lemma WriteKeepsIndex(c: Config, m: Machine, w: Id, msg: Message, id: Id)
    requires ProperWorker(m.worker) && IndexInv(c, m, id) && !Racing(m, Write(w, msg), id)
    ensures IndexInv(c, Act(c, m, Write(w, msg)), id)
  {
    if Ahead(Act(c, m, Write(w, msg)), id) { assert Ahead(m, id); }
  }

  lemma EnqueueKeepsIndex(c: Config, m: Machine, e: Id, reset: bool, id: Id)
    requires ProperWorker(m.worker) && IndexInv(c, m, id) && Enabled(c, m, Enqueue(e, reset))
    ensures IndexInv(c, Act(c, m, Enqueue(e, reset)), id)
  {
    if Ahead(Act(c, m, Enqueue(e, reset)), id) { assert Ahead(m, id); }
  }

  /** No action but a racing write disturbs a message's index: not failures, not a crash at any statement. */
  lemma ActKeepsIndex(c: Config, m: Machine, a: Action, id: Id)
    requires ProperWorker(m.worker) && IndexInv(c, m, id) && Enabled(c, m, a) && !Racing(m, a, id)
    ensures IndexInv(c, Act(c, m, a), id)
  {
    match a
    case Work => WorkKeepsIndex(c, m, id);
    case Throw(retryAt) => ThrowKeepsIndex(c, m, retryAt, id);
    case ClaimBatch(ids, now) => ClaimKeepsIndex(c, m, ids, now, id);
    case Write(w, msg) => WriteKeepsIndex(c, m, w, msg, id);
    case Enqueue(e, reset) => EnqueueKeepsIndex(c, m, e, reset, id);
    case _ =>
  }

  /** A gap joins the index when it gets a job. */
  lemma EnqueuedGapJoins(c: Config, m: Machine, id: Id)
    requires ProperWorker(m.worker) && Indexable(c, m.db, id) && id !in m.db.outbox && !Ahead(m, id)
    ensures Enabled(c, m, Enqueue(id, false)) && IndexInv(c, Act(c, m, Enqueue(id, false)), id)
  {
    var m' := Act(c, m, Enqueue(id, false));
    assert Ahead(m', id) <==> Ahead(m, id);
    InFlightIsAhead(m, id);
  }

  lemma InFlightIsAhead(m: Machine, id: Id)
    ensures InFlight(m, id) ==> Ahead(m, id)
  {
  }

  // ---- attempts ----

  /** Nothing runs out of turn: only rows under the limit can be claimed, and the stored attempts bound the
      failures since the last reset. */
  ghost predicate AttemptsInv(c: Config, m: Machine) {
    && ValidWorker(m.worker) && DistinctClaims(m.worker)
    && (forall id :: Failures(m, id) <= c.maxAttempts)
    && (forall id :: id in m.db.outbox ==>
          && Failures(m, id) <= m.db.outbox[id].attempts <= c.maxAttempts
          && (m.db.outbox[id].status == Exhausted <==> m.db.outbox[id].attempts == c.maxAttempts))
    && (m.worker.Draining? ==> forall j :: m.worker.k <= j < |m.worker.claims| ==>
          m.worker.claims[j].attempts < c.maxAttempts &&
            Failures(m, m.worker.claims[j].id) <= m.worker.claims[j].attempts)
  }

  lemma ClaimKeepsAttempts(c: Config, m: Machine, ids: seq<Id>, now: int)
    requires AttemptsInv(c, m) && Enabled(c, m, ClaimBatch(ids, now))
    ensures AttemptsInv(c, Act(c, m, ClaimBatch(ids, now)))
  {
    var m' := Act(c, m, ClaimBatch(ids, now));
    assert forall id :: Failures(m', id) == Failures(m, id);
    forall j | 0 <= j < |ids| ensures Claimable(m.db, ids[j], now) {
      assert ids[j] in ids;
    }
  }

  lemma ThrowKeepsAttempts(c: Config, m: Machine, retryAt: int)
    requires AttemptsInv(c, m) && m.worker.Draining?
    ensures AttemptsInv(c, ThrowOn(c, m, retryAt))
  {
    var m', failed := ThrowOn(c, m, retryAt), m.worker.claims[m.worker.k].id;
    assert forall id :: Failures(m', id) == Failures(m, id) + if id == failed then 1 else 0;
  }

  lemma WorkKeepsAttempts(c: Config, m: Machine)
    requires AttemptsInv(c, m) && m.worker.Draining?
    ensures AttemptsInv(c, WorkOn(c, m))
  {
    var m' := WorkOn(c, m);
    WorkMoves(c, m);
    hide Rows, Target, Indexable, WorkOn, Failures;
    assert forall id :: Failures(m', id) == Failures(m, id) by { FailuresSame(m, m'); }
  }

  /** A statement at most removes a job, and moves on in the batch. */
  lemma WorkMoves(c: Config, m: Machine)
    requires ValidWorker(m.worker) && m.worker.Draining?
    ensures var m' := WorkOn(c, m);
            && ValidWorker(m'.worker) && m'.failures == m.failures
            && m'.db.outbox.Keys <= m.db.outbox.Keys
            && (forall id :: id in m'.db.outbox ==> m'.db.outbox[id] == m.db.outbox[id])
            && (m'.worker.Draining? ==> m'.worker.claims == m.worker.claims && m.worker.k <= m'.worker.k)
  {
    hide Rows, Indexable, ChunksOf;
  }

  lemma FailuresSame(m: Machine, m': Machine)
    requires m'.failures == m.failures
    ensures forall id :: Failures(m', id) == Failures(m, id)
  {
  }

  lemma ResetKeepsAttempts(c: Config, m: Machine)
    requires ValidConfig(c) && AttemptsInv(c, m) && m.worker.Idle?
    ensures AttemptsInv(c, Act(c, m, ResetAttempts))
  {
    var m' := Act(c, m, ResetAttempts);
    assert forall id :: Failures(m', id) ==
             if id in m.db.outbox && m.db.outbox[id].status == Pending then 0 else Failures(m, id);
  }

  lemma WriteKeepsAttempts(c: Config, m: Machine, id: Id, msg: Message)
    requires ValidConfig(c) && AttemptsInv(c, m)
    ensures AttemptsInv(c, Act(c, m, Write(id, msg)))
  {
    var m' := Act(c, m, Write(id, msg));
    assert forall x :: Failures(m', x) == if x == id then 0 else Failures(m, x);
  }

  lemma EnqueueKeepsAttempts(c: Config, m: Machine, id: Id, reset: bool)
    requires ValidConfig(c) && AttemptsInv(c, m) && Enabled(c, m, Enqueue(id, reset))
    ensures AttemptsInv(c, Act(c, m, Enqueue(id, reset)))
  {
    var m' := Act(c, m, Enqueue(id, reset));
    assert forall x :: Failures(m', x) == if x == id && m' != m then 0 else Failures(m, x);
  }

  lemma RestartKeepsAttempts(c: Config, m: Machine, a: Action)
    requires AttemptsInv(c, m) && a in {Crash, Recover} && Enabled(c, m, a)
    ensures AttemptsInv(c, Act(c, m, a))
  {
    assert forall id :: Failures(Act(c, m, a), id) == Failures(m, id);
  }

  /** Every action keeps it, racing writes included. */
  lemma ActKeepsAttempts(c: Config, m: Machine, a: Action)
    requires ValidConfig(c) && AttemptsInv(c, m) && Enabled(c, m, a)
    ensures AttemptsInv(c, Act(c, m, a))
  {
    match a
    case ClaimBatch(ids, now) => ClaimKeepsAttempts(c, m, ids, now);
    case Work => WorkKeepsAttempts(c, m);
    case Throw(retryAt) => ThrowKeepsAttempts(c, m, retryAt);
    case ResetAttempts => ResetKeepsAttempts(c, m);
    case Write(id, msg) => WriteKeepsAttempts(c, m, id, msg);
    case Enqueue(id, reset) => EnqueueKeepsAttempts(c, m, id, reset);
    case _ => RestartKeepsAttempts(c, m, a);
  }

  // ---- runs ----

  /** The states of a run; each action is possible where it happens. */
  ghost predicate Runs(c: Config, states: seq<Machine>, actions: seq<Action>) {
    && |states| == |actions| + 1
    && forall i :: 0 <= i < |actions| ==>
         ValidWorker(states[i].worker) && Enabled(c, states[i], actions[i]) &&
           states[i + 1] == Act(c, states[i], actions[i])
  }

  ghost predicate NoRace(states: seq<Machine>, actions: seq<Action>, id: Id) {
    forall i :: 0 <= i < |actions| && i < |states| ==> !Racing(states[i], actions[i], id)
  }

  /** Whatever crashes, failures, recoveries and writes happen, a message that is consistent at the start and whose job
      is done is indexed exactly as its content says. */
  lemma {:induction false} IndexAlongRun(c: Config, states: seq<Machine>, actions: seq<Action>, n: nat, id: Id)
    requires Runs(c, states, actions) && NoRace(states, actions, id) && n < |states|
    requires ProperWorker(states[0].worker) && IndexInv(c, states[0], id)
    ensures ProperWorker(states[n].worker) && IndexInv(c, states[n], id)
    ensures id !in states[n].db.outbox ==> ChunksOf(states[n].db, id) == Target(c, states[n].db, id)
  {
    hide JobOk, FlightOk, Racing, Act, Enabled, ProperWorker, Target;
    if 0 < n {
      IndexAlongRun(c, states, actions, n - 1, id);
      ActKeepsWorker(c, states[n - 1], actions[n - 1]);
      ActKeepsIndex(c, states[n - 1], actions[n - 1], id);
    }
  }

  /** And no message fails more than `maxAttempts` times between resets of its attempts. */
  lemma {:induction false} AttemptsAlongRun(c: Config, states: seq<Machine>, actions: seq<Action>, n: nat)
    requires ValidConfig(c) && Runs(c, states, actions) && AttemptsInv(c, states[0]) && n < |states|
    ensures AttemptsInv(c, states[n])
    ensures forall id :: Failures(states[n], id) <= c.maxAttempts
  {
    hide Act, Enabled, Failures;
    if 0 < n {
      AttemptsAlongRun(c, states, actions, n - 1);
      ActKeepsAttempts(c, states[n - 1], actions[n - 1]);
    }
  }

  /** With no one at work, a message is consistent unless it is a gap or its job is for nothing. */
  lemma StartsConsistent(c: Config, db: Db, id: Id)
    requires if id in db.outbox then Indexable(c, db, id) else ChunksOf(db, id) == Target(c, db, id)
    ensures ProperWorker(Idle) && IndexInv(c, Machine(db, Idle, map[]), id)
  {
  }

  lemma StartsWithinAttempts(c: Config, db: Db)
    requires forall id :: id in db.outbox ==>
               && db.outbox[id].attempts <= c.maxAttempts
               && (db.outbox[id].status == Exhausted <==> db.outbox[id].attempts == c.maxAttempts)
    ensures AttemptsInv(c, Machine(db, Idle, map[]))
  {
  }

  // ---- an undisturbed drain ----

  /** `n` statements of the worker, without failure. */
  function Works(c: Config, m: Machine, n: nat): Option<Machine>
    requires ValidWorker(m.worker)
    decreases n
  {
    if n == 0 then Some(m)
    else if m.worker.Draining? && ValidWorker(WorkOn(c, m).worker) then Works(c, WorkOn(c, m), n - 1)
    else None
  }

  lemma {:induction false} WorksJoin(c: Config, m: Machine, n: nat, k: nat)
    requires ValidWorker(m.worker) && Works(c, m, n).Some? && ValidWorker(Works(c, m, n).value.worker)
    ensures Works(c, m, n + k) == Works(c, Works(c, m, n).value, k)
    decreases n
  {
    hide WorkOn;
    if 0 < n { WorksJoin(c, WorkOn(c, m), n - 1, k); }
  }

  /** What the row at hand will have as chunks when it is finished. */
  function FinishedChunks(c: Config, m: Machine, id: Id): seq<ChunkRow> {
    if !m.worker.Draining? then ChunksOf(m.db, id)
    else match m.worker.phase
      case Fetching => if Indexable(c, m.db, id) then Rows(c, m.db.messages[id].content) else ChunksOf(m.db, id)
      case Deleting(text) => Rows(c, text)
      case Inserting(text, done) =>
        ChunksOf(m.db, id) + (if done <= |Rows(c, text)| then Rows(c, text)[done..] else [])
  }

  /** `r` is the machine after the row at hand is finished: no job, the chunks as foreseen, nothing else touched. */
  ghost predicate RowFinished(c: Config, m: Machine, r: Machine)
    requires ValidWorker(m.worker) && m.worker.Draining?
  {
    var id := m.worker.claims[m.worker.k].id;
    && r.worker == NextRow(m.worker) && r.db.messages == m.db.messages
    && id !in r.db.outbox && r.db.outbox.Keys <= m.db.outbox.Keys
    && ChunksOf(r.db, id) == FinishedChunks(c, m, id)
  }

  ghost predicate PhaseOk(c: Config, phase: Phase) { phase.Inserting? ==> phase.done <= |c.chunk(phase.text)| }

  /** From any phase the row is finished after finitely many statements. */
  lemma {:induction false} RowDrains(c: Config, m: Machine) returns (n: nat, r: Machine)
    requires ValidWorker(m.worker) && m.worker.Draining? && PhaseOk(c, m.worker.phase)
    ensures Works(c, m, n) == Some(r) && RowFinished(c, m, r)
    decreases StepsLeft(c, m)
  {
    var id, w := m.worker.claims[m.worker.k].id, WorkOn(c, m);
    if (m.worker.phase.Fetching? && !Indexable(c, m.db, id))
       || (m.worker.phase.Inserting? && m.worker.phase.done == |c.chunk(m.worker.phase.text)|) {
      n, r := 1, w;
      assert Works(c, w, 0) == Some(w);
    } else {
      StepsFewer(c, m);
      n, r := RowDrains(c, w);
      StepFinishes(c, m, r);
      n := n + 1;
    }
  }

  function StepsLeft(c: Config, m: Machine): nat {
    if !m.worker.Draining? || !ValidWorker(m.worker) then 0
    else match m.worker.phase
      case Fetching =>
        var id := m.worker.claims[m.worker.k].id;
        if Indexable(c, m.db, id) then |c.chunk(m.db.messages[id].content)| + 3 else 0
      case Deleting(text) => |c.chunk(text)| + 2
      case Inserting(text, done) => if done <= |c.chunk(text)| then |c.chunk(text)| - done + 1 else 0
  }

  lemma StepsFewer(c: Config, m: Machine)
    requires ValidWorker(m.worker) && m.worker.Draining? && PhaseOk(c, m.worker.phase)
    requires m.worker.phase.Fetching? ==> Indexable(c, m.db, m.worker.claims[m.worker.k].id)
    requires m.worker.phase.Inserting? ==> m.worker.phase.done < |c.chunk(m.worker.phase.text)|
    ensures StepsLeft(c, WorkOn(c, m)) < StepsLeft(c, m)
  {
  }

  lemma StepFinishes(c: Config, m: Machine, r: Machine)
    requires ValidWorker(m.worker) && m.worker.Draining? && PhaseOk(c, m.worker.phase)
    requires m.worker.phase.Fetching? ==> Indexable(c, m.db, m.worker.claims[m.worker.k].id)
    requires m.worker.phase.Inserting? ==> m.worker.phase.done < |c.chunk(m.worker.phase.text)|
    requires RowFinished(c, WorkOn(c, m), r)
    ensures RowFinished(c, m, r)
  {
    if m.worker.phase.Inserting? {
      var rows, done := Rows(c, m.worker.phase.text), m.worker.phase.done;
      assert rows[done..] == [rows[done]] + rows[done + 1..];
    }
    if m.worker.phase.Deleting? {
      assert Rows(c, m.worker.phase.text)[0..] == Rows(c, m.worker.phase.text);
    }
  }

  /** The batch from the row at hand on is finished, and every row of it is done and exactly indexed. */
  lemma {:induction false} BatchDrains(c: Config, m: Machine, ids: set<Id>) returns (n: nat, r: Machine)
    requires ProperWorker(m.worker) && m.worker.Draining? && m.worker.phase.Fetching?
    requires forall id :: id in ids ==> IndexInv(c, m, id)
    ensures Works(c, m, n) == Some(r) && r.worker.Idle? && r.db.messages == m.db.messages
    ensures r.db.outbox.Keys <= m.db.outbox.Keys
    ensures forall id :: id in ids ==> IndexInv(c, r, id)
    ensures forall j :: m.worker.k <= j < |m.worker.claims| ==> m.worker.claims[j].id !in r.db.outbox
    decreases |m.worker.claims| - m.worker.k
  {
    hide IndexInv, WorkOn, RowFinished, Works;
    var k, mid := RowDrains(c, m);
    RowFinishedIs(c, m, mid);
    WorksKeepIndex(c, m, k, ids);
    if m.worker.k + 1 == |m.worker.claims| {
      n, r := k, mid;
    } else {
      n, r := BatchDrains(c, mid, ids);
      WorksJoin(c, m, k, n);
      n := k + n;
    }
  }

  lemma RowFinishedIs(c: Config, m: Machine, r: Machine)
    requires ProperWorker(m.worker) && m.worker.Draining? && RowFinished(c, m, r)
    ensures r.worker == NextRow(m.worker) && ProperWorker(r.worker) && r.db.messages == m.db.messages
    ensures m.worker.claims[m.worker.k].id !in r.db.outbox && r.db.outbox.Keys <= m.db.outbox.Keys
  {
  }

  lemma {:induction false} WorksKeepIndex(c: Config, m: Machine, n: nat, ids: set<Id>)
    requires ProperWorker(m.worker) && Works(c, m, n).Some?
    requires forall id :: id in ids ==> IndexInv(c, m, id)
    ensures ProperWorker(Works(c, m, n).value.worker)
    ensures forall id :: id in ids ==> IndexInv(c, Works(c, m, n).value, id)
    decreases n
  {
    if 0 < n {
      ActKeepsWorker(c, m, Work);
      hide IndexInv;
      forall id | id in ids ensures IndexInv(c, WorkOn(c, m), id) { WorkKeepsIndex(c, m, id); }
      WorksKeepIndex(c, WorkOn(c, m), n - 1, ids);
    }
  }

  /** From any crash, recovery makes a message claimable again, and any undisturbed drain of a batch that holds it
      leaves it done and exactly indexed, whatever state the other messages are in. */
  lemma RecoveredMessageIsDrained(c: Config, m: Machine, id: Id, ids: seq<Id>, now: int)
    requires ProperWorker(m.worker) && IndexInv(c, m, id) && id in m.db.outbox && m.db.outbox[id].status == InProgress
    requires m.db.outbox[id].nextAttemptAfter.None? || m.db.outbox[id].nextAttemptAfter.value <= now
    requires id in ids && Enabled(c, Act(c, Act(c, m, Crash), Recover), ClaimBatch(ids, now))
    ensures Claimable(Act(c, Act(c, m, Crash), Recover).db, id, now)
    ensures exists n ::
              var r := Works(c, Act(c, Act(c, Act(c, m, Crash), Recover), ClaimBatch(ids, now)), n);
              && r.Some? && r.value.worker.Idle? && r.value.db.messages == m.db.messages
              && id !in r.value.db.outbox && ChunksOf(r.value.db, id) == Target(c, m.db, id)
  {
    var m1 := Act(c, Act(c, m, Crash), Recover);
    ActKeepsIndex(c, m, Crash, id);
    ActKeepsIndex(c, Act(c, m, Crash), Recover, id);
    assert Claimable(m1.db, id, now);
    var m2 := Act(c, m1, ClaimBatch(ids, now));
    ActKeepsWorker(c, m1, ClaimBatch(ids, now));
    ActKeepsIndex(c, m1, ClaimBatch(ids, now), id);
    var j :| 0 <= j < |ids| && ids[j] == id;
    assert m2.worker.claims[j].id == id;
    hide Works, JobOk, FlightOk, ProperWorker, RowFinished;
    var n, r := BatchDrains(c, m2, {id});
    assert IndexInv(c, r, id);
  }

  // ---- the race ----

  /** A write while the message is in flight keeps its index consistent if and only if it changes nothing. */
  lemma RacingWriteIff(c: Config, m: Machine, id: Id, msg: Message)
    requires ProperWorker(m.worker) && IndexInv(c, m, id) && InFlight(m, id)
    ensures IndexInv(c, Act(c, m, Write(id, msg)), id) <==>
            c.eligible(msg.role, msg.content) && msg.content == m.worker.phase.text
  {
    hide Rows;
    var m' := Act(c, m, Write(id, msg));
    assert InFlight(m', id);
    if Ahead(m', id) { assert Ahead(m, id); }
  }

  /** The chunks a finish leaves after a write in flight: all of the old text if the new one is indexable or nothing
      was inserted yet, otherwise the old chunks not yet inserted. */
  function AfterRace(c: Config, m: Machine, msg: Message): seq<ChunkRow>
    requires m.worker.Draining? && !m.worker.phase.Fetching?
  {
    var rows := Rows(c, m.worker.phase.text);
    if c.eligible(msg.role, msg.content) || m.worker.phase.Deleting? then rows
    else if m.worker.phase.done <= |rows| then rows[m.worker.phase.done..] else []
  }

  /** From any phase after the text is read, an undisturbed finish loses the write: its job is gone and the chunks are
      the old text's, right only where the two happen to agree. */
  lemma RacingWriteIsLost(c: Config, m: Machine, id: Id, msg: Message) returns (n: nat, r: Machine)
    requires ProperWorker(m.worker) && IndexInv(c, m, id) && InFlight(m, id)
    ensures Works(c, Act(c, m, Write(id, msg)), n) == Some(r)
    ensures r.worker == NextRow(m.worker) && id !in r.db.outbox && id in r.db.messages && r.db.messages[id] == msg
    ensures ChunksOf(r.db, id) == AfterRace(c, m, msg)
    ensures IndexInv(c, r, id) <==>
            AfterRace(c, m, msg) == if c.eligible(msg.role, msg.content) then Rows(c, msg.content) else []
  {
    var m' := Act(c, m, Write(id, msg));
    assert PhaseOk(c, m'.worker.phase);
    n, r := RowDrains(c, m');
    RaceChunks(c, m, id, msg);
    RowNotAhead(m, r, id);
    hide Rows, FinishedChunks, AfterRace, Works;
    assert ChunksOf(r.db, id) == FinishedChunks(c, m', id);
    assert Target(c, r.db, id) == if c.eligible(msg.role, msg.content) then Rows(c, msg.content) else [];
  }

  lemma RaceChunks(c: Config, m: Machine, id: Id, msg: Message)
    requires ProperWorker(m.worker) && IndexInv(c, m, id) && InFlight(m, id)
    ensures FinishedChunks(c, Act(c, m, Write(id, msg)), id) == AfterRace(c, m, msg)
  {
    if m.worker.phase.Inserting? {
      var rows, done := Rows(c, m.worker.phase.text), m.worker.phase.done;
      assert rows == rows[..done] + rows[done..];
      assert [] + rows[done..] == rows[done..];
    }
  }

  /** The next rows of a batch are other messages. */
  lemma RowNotAhead(m: Machine, r: Machine, id: Id)
    requires ProperWorker(m.worker) && InFlight(m, id) && r.worker == NextRow(m.worker)
    ensures !Ahead(r, id) && !InFlight(r, id)
  {
  }
}

/** The gaps-only backfill of scripts/backfill-embeddings.ts: keyset pages over messages, enqueueing each
    message that has neither chunks nor a job. */
module Backfill {
  import opened Wrappers

  type Id = string

  /** A message with what the eligibility test reads of it and its conversation. */
  datatype Msg = Msg(id: Id, createdAt: int, project: string, eligible: bool)

  datatype Status = Pending | InProgress | Exhausted
  datatype Job = Job(status: Status, attempts: nat)

  /** `messages` is read in the order created_at, id. `chunks` maps a message to the models its chunks were
      embedded with. */
  datatype Db = Db(messages: seq<Msg>, chunks: map<Id, set<string>>, outbox: map<Id, Job>)

  /** Ordered by creation time; ids are a primary key. */
  predicate Ordered(ms: seq<Msg>) {
    ms == [] || (Ordered(ms[1..]) && forall m :: m in ms[1..] ==> ms[0].createdAt <= m.createdAt && ms[0].id != m.id)
  }

  datatype Opts = Opts(dryRun: bool, refreshStale: bool, projectId: Option<string>, batchSize: int)
  datatype BackfillResult = BackfillResult(enqueued: nat, eligibleScanned: nat)

  const EMBEDDING_MODEL_ID: string := "current"

  // ---- the queries ----

  predicate InProject(m: Msg, project: Option<string>) {
    project.None? || project.value == "" || m.project == project.value
  }

  /** Eligible, without a chunk and without a job. */
  predicate IsGap(db: Db, project: Option<string>, m: Msg) {
    m.eligible && m.id !in db.chunks && m.id !in db.outbox && InProject(m, project)
  }

  function Gaps(db: Db, project: Option<string>, ms: seq<Msg>): (r: seq<Msg>)
    ensures forall m :: m in r <==> m in ms && IsGap(db, project, m)
  {
    if ms == [] then []
    else
      var rest := Gaps(db, project, ms[1..]);
      if IsGap(db, project, ms[0]) then [ms[0]] + rest else rest
  }

  /** `created_at > after`. */
  function After(ms: seq<Msg>, after: Option<int>): (r: seq<Msg>)
    ensures forall m :: m in r <==> m in ms && (after.Some? ==> after.value < m.createdAt)
    ensures |r| <= |ms|
  {
    if ms == [] then []
    else
      var rest := After(ms[1..], after);
      if after.None? || after.value < ms[0].createdAt then [ms[0]] + rest else rest
  }

  lemma {:induction false} GapsOrdered(db: Db, project: Option<string>, ms: seq<Msg>)
    requires Ordered(ms)
    ensures Ordered(Gaps(db, project, ms))
  {
    if ms != [] {
      hide IsGap;
      GapsOrdered(db, project, ms[1..]);
      assert ([ms[0]] + Gaps(db, project, ms[1..]))[1..] == Gaps(db, project, ms[1..]);
    }
  }

  lemma {:induction false} AfterOrdered(ms: seq<Msg>, after: Option<int>)
    requires Ordered(ms)
    ensures Ordered(After(ms, after))
  {
    if ms != [] {
      AfterOrdered(ms[1..], after);
      assert ([ms[0]] + After(ms[1..], after))[1..] == After(ms[1..], after);
    }
  }

  lemma {:induction false} OrderedAt(ms: seq<Msg>, i: nat, j: nat)
    requires Ordered(ms) && i < j < |ms|
    ensures ms[i].createdAt <= ms[j].createdAt && ms[i].id != ms[j].id
  {
    if i == 0 {
      assert ms[1..][j - 1] == ms[j];
    } else {
      OrderedAt(ms[1..], i - 1, j - 1);
    }
  }

  lemma {:induction false} OrderedSplit(ms: seq<Msg>, k: nat)
    requires Ordered(ms) && k <= |ms|
    ensures Ordered(ms[..k]) && Ordered(ms[k..])
  {
    if 0 < k {
      OrderedSplit(ms[1..], k - 1);
      assert ms[1..][k - 1..] == ms[k..];
      assert ms[..k][1..] == ms[1..][..k - 1];
      OrderedCons(ms, k);
    } else {
      assert ms[0..] == ms && ms[..0] == [];
    }
  }

  lemma OrderedCons(ms: seq<Msg>, k: nat)
    requires Ordered(ms) && 0 < k <= |ms| && Ordered(ms[..k][1..])
    ensures Ordered(ms[..k])
  {
    forall m | m in ms[..k][1..] ensures ms[0].createdAt <= m.createdAt && ms[0].id != m.id {
      var i :| 0 <= i < k - 1 && ms[..k][1..][i] == m;
      assert ms[1..][i] == m;
    }
  }

  lemma {:induction false} OrderedJoin(a: seq<Msg>, b: seq<Msg>)
    requires Ordered(a) && Ordered(b)
    requires forall x, y :: x in a && y in b ==> x.createdAt <= y.createdAt && x.id != y.id
    ensures Ordered(a + b)
  {
    if a == [] {
      assert a + b == b;
    } else {
      assert a[0] in a && forall m :: m in a[1..] ==> m in a;
      OrderedJoin(a[1..], b);
      assert (a + b)[1..] == a[1..] + b;
    }
  }

  function Take(ms: seq<Msg>, limit: nat): seq<Msg> { if |ms| <= limit then ms else ms[..limit] }

  function SelectGapPage(db: Db, project: Option<string>, after: Option<int>, limit: nat): seq<Msg> {
    Take(After(Gaps(db, project, db.messages), after), limit)
  }

  predicate IsStale(db: Db, project: Option<string>, m: Msg) {
    m.eligible && m.id in db.chunks && (exists model :: model in db.chunks[m.id] && model != EMBEDDING_MODEL_ID)
    && InProject(m, project)
  }

  function StaleOf(db: Db, project: Option<string>, ms: seq<Msg>): (r: seq<Msg>)
    ensures forall m :: m in r <==> m in ms && IsStale(db, project, m)
  {
    if ms == [] then []
    else
      assert forall m :: m in ms <==> m == ms[0] || m in ms[1..];
      if IsStale(db, project, ms[0]) then [ms[0]] + StaleOf(db, project, ms[1..]) else StaleOf(db, project, ms[1..])
  }

  // ---- the writes ----

  function EnqueueIfAbsent(db: Db, id: Id): Db {
    if id in db.outbox then db else db.(outbox := db.outbox[id := Job(Pending, 0)])
  }

  function EnqueueAllIfAbsent(db: Db, ms: seq<Msg>): Db {
    if ms == [] then db else EnqueueIfAbsent(EnqueueAllIfAbsent(db, ms[..|ms| - 1]), ms[|ms| - 1].id)
  }

  function Requeue(db: Db, id: Id): Db { db.(outbox := db.outbox[id := Job(Pending, 0)]) }

  function RequeueAll(db: Db, ms: seq<Msg>): Db {
    if ms == [] then db else Requeue(RequeueAll(db, ms[..|ms| - 1]), ms[|ms| - 1].id)
  }

  // ---- what the paging visits ----

  /** The rows of successive pages over a fixed list of gaps: after a full page, only later timestamps. */
  function Visited(gaps: seq<Msg>, limit: nat): (r: seq<Msg>)
    requires 0 < limit
    ensures forall m :: m in r ==> m in gaps
    decreases |gaps|
  {
    if |gaps| < limit then gaps
    else
      var page := gaps[..limit];
      var rest := After(gaps, Some(page[limit - 1].createdAt));
      AfterDrops(gaps, limit - 1);
      assert forall m :: m in page ==> m in gaps;
      page + Visited(rest, limit)
  }

  lemma {:induction false} AfterDrops(ms: seq<Msg>, k: nat)
    requires k < |ms|
    ensures |After(ms, Some(ms[k].createdAt))| < |ms|
  {
    if 0 < k {
      AfterDrops(ms[1..], k - 1);
      assert ms[1..][k - 1] == ms[k];
    }
  }

  /** No two gaps around a page edge share their timestamp. */
  predicate EdgesClean(gaps: seq<Msg>, limit: nat)
    requires 0 < limit
    decreases |gaps|
  {
    |gaps| <= limit || (gaps[limit - 1].createdAt < gaps[limit].createdAt && EdgesClean(gaps[limit..], limit))
  }

  lemma {:induction false} AfterAll(ms: seq<Msg>, t: int)
    requires forall m :: m in ms ==> t < m.createdAt
    ensures After(ms, Some(t)) == ms
  {
    if ms != [] {
      assert ms[0] in ms;
      AfterAll(ms[1..], t);
    }
  }

  lemma {:induction false} AfterPrefix(ms: seq<Msg>, k: nat, t: int)
    requires k <= |ms| && forall i :: 0 <= i < k ==> ms[i].createdAt <= t
    ensures After(ms, Some(t)) == After(ms[k..], Some(t))
  {
    if 0 < k {
      AfterPrefix(ms[1..], k - 1, t);
      assert ms[1..][k - 1..] == ms[k..];
    }
  }

  lemma AfterPage(gaps: seq<Msg>, limit: nat)
    requires Ordered(gaps) && 0 < limit <= |gaps|
    ensures After(gaps, Some(gaps[limit - 1].createdAt)) == After(gaps[limit..], Some(gaps[limit - 1].createdAt))
    ensures |gaps| == limit || gaps[limit - 1].createdAt < gaps[limit].createdAt ==>
              After(gaps, Some(gaps[limit - 1].createdAt)) == gaps[limit..]
    ensures limit < |gaps| && gaps[limit - 1].createdAt == gaps[limit].createdAt ==>
              |After(gaps, Some(gaps[limit - 1].createdAt))| < |gaps| - limit
  {
    hide Ordered, After;
    var t, rest := gaps[limit - 1].createdAt, gaps[limit..];
    forall i | 0 <= i < limit ensures gaps[i].createdAt <= t {
      if i < limit - 1 { OrderedAt(gaps, i, limit - 1); }
    }
    AfterPrefix(gaps, limit, t);
    if |gaps| == limit || t < gaps[limit].createdAt {
      forall m | m in rest ensures t < m.createdAt {
        var i :| 0 <= i < |rest| && rest[i] == m;
        assert rest[i] == gaps[limit + i];
        if 0 < i { OrderedAt(gaps, limit, limit + i); }
      }
      AfterAll(rest, t);
    } else {
      AfterDrops(rest, 0);
    }
  }

  lemma {:induction false} VisitsAtMost(gaps: seq<Msg>, limit: nat)
    requires Ordered(gaps) && 0 < limit
    ensures |Visited(gaps, limit)| <= |gaps|
    decreases |gaps|
  {
    hide Ordered, After;
    if limit <= |gaps| {
      var rest := After(gaps, Some(gaps[limit - 1].createdAt));
      AfterDrops(gaps, limit - 1);
      AfterOrdered(gaps, Some(gaps[limit - 1].createdAt));
      VisitsAtMost(rest, limit);
      assert |rest| <= |gaps| - limit by { AfterPage(gaps, limit); }
    }
  }

  /** Every gap is visited if and only if no page edge splits a group of equal timestamps. */
  lemma {:induction false} VisitsAllIff(gaps: seq<Msg>, limit: nat)
    requires Ordered(gaps) && 0 < limit
    ensures Visited(gaps, limit) == gaps <==> EdgesClean(gaps, limit)
    ensures |Visited(gaps, limit)| == |gaps| <==> EdgesClean(gaps, limit)
    decreases |gaps|
  {
    if limit <= |gaps| {
      var page, rest := gaps[..limit], After(gaps, Some(gaps[limit - 1].createdAt));
      AfterDrops(gaps, limit - 1);
      AfterPage(gaps, limit);
      AfterOrdered(gaps, Some(gaps[limit - 1].createdAt));
      OrderedSplit(gaps, limit);
      assert gaps == page + gaps[limit..];
      if |gaps| == limit || gaps[limit - 1].createdAt < gaps[limit].createdAt {
        VisitsAllIff(gaps[limit..], limit);
        assert Visited(gaps, limit) == page + Visited(gaps[limit..], limit);
        SamePrefix(page, Visited(gaps[limit..], limit), gaps[limit..]);
      } else {
        VisitsAtMost(rest, limit);
        assert |Visited(gaps, limit)| == limit + |Visited(rest, limit)|;
      }
    }
  }

  lemma SamePrefix(p: seq<Msg>, a: seq<Msg>, b: seq<Msg>)
    ensures p + a == p + b <==> a == b
  {
    assert (p + a)[|p|..] == a && (p + b)[|p|..] == b;
  }

  /** Pairwise distinct timestamps are more than enough. */
  lemma {:induction false} DistinctTimesClean(gaps: seq<Msg>, limit: nat)
    requires 0 < limit && forall i, j :: 0 <= i < j < |gaps| ==> gaps[i].createdAt < gaps[j].createdAt
    ensures EdgesClean(gaps, limit)
    decreases |gaps|
  {
    if limit < |gaps| {
      DistinctTimesClean(gaps[limit..], limit);
    }
  }

  /** A run that finds gaps visits some of them, so repeated runs end only when none are left. */
  lemma VisitsSome(gaps: seq<Msg>, limit: nat)
    requires 0 < limit
    ensures Visited(gaps, limit) == [] <==> gaps == []
  {
  }

  /** No message is visited twice. */
  lemma {:induction false} VisitedDistinct(gaps: seq<Msg>, limit: nat)
    requires Ordered(gaps) && 0 < limit
    ensures Ordered(Visited(gaps, limit))
    decreases |gaps|
  {
    if limit <= |gaps| {
      var t := gaps[limit - 1].createdAt;
      var page, rest := gaps[..limit], After(gaps, Some(t));
      AfterDrops(gaps, limit - 1);
      AfterOrdered(gaps, Some(t));
      OrderedSplit(gaps, limit);
      VisitedDistinct(rest, limit);
      PageBefore(gaps, limit);
      OrderedJoin(page, Visited(rest, limit));
    }
  }

  lemma PageBefore(gaps: seq<Msg>, limit: nat)
    requires Ordered(gaps) && 0 < limit <= |gaps|
    ensures forall x, y :: x in gaps[..limit] && y in After(gaps, Some(gaps[limit - 1].createdAt)) ==>
              x.createdAt < y.createdAt && x.id != y.id
  {
    var t := gaps[limit - 1].createdAt;
    var page, rest := gaps[..limit], After(gaps, Some(t));
    forall x, y | x in page && y in rest ensures x.createdAt < y.createdAt && x.id != y.id {
      hide *;
      assert y in gaps && t < y.createdAt;
      var i :| 0 <= i < |page| && page[i] == x;
      PageItemBefore(gaps, limit, i, y);
    }
  }

  lemma PageItemBefore(gaps: seq<Msg>, limit: nat, i: nat, y: Msg)
    requires Ordered(gaps) && i < limit <= |gaps| && y in gaps && gaps[limit - 1].createdAt < y.createdAt
    ensures gaps[i].createdAt < y.createdAt && gaps[i].id != y.id
  {
    hide *;
    var j :| 0 <= j < |gaps| && gaps[j] == y;
    if i < limit - 1 { OrderedAt(gaps, i, limit - 1); }
    if j < limit - 1 { OrderedAt(gaps, j, limit - 1); }
    assert limit - 1 < j;
    OrderedAt(gaps, i, j);
  }

  // ---- enqueueing does not disturb the pages to come ----

  lemma {:induction false} EnqueuedOutbox(db: Db, ms: seq<Msg>)
    ensures EnqueueAllIfAbsent(db, ms) == db.(outbox := EnqueueAllIfAbsent(db, ms).outbox)
    ensures forall id :: id in EnqueueAllIfAbsent(db, ms).outbox <==>
            id in db.outbox || exists m :: m in ms && m.id == id
    ensures forall id :: id in db.outbox ==> EnqueueAllIfAbsent(db, ms).outbox[id] == db.outbox[id]
    ensures forall id :: id in EnqueueAllIfAbsent(db, ms).outbox && id !in db.outbox ==>
              EnqueueAllIfAbsent(db, ms).outbox[id] == Job(Pending, 0)
  {
    if ms != [] {
      var init, last := ms[..|ms| - 1], ms[|ms| - 1];
      EnqueuedOutbox(db, init);
      assert forall m :: m in ms <==> m in init || m == last;
    }
  }

  /** Jobs for messages at or before `t` leave the gaps after `t` as they were. */
  lemma {:induction false} LaterGapsUnchanged(db: Db, db': Db, project: Option<string>, t: int, ms: seq<Msg>)
    requires db'.chunks == db.chunks
    requires forall m :: m in ms && t < m.createdAt ==> (m.id in db'.outbox <==> m.id in db.outbox)
    ensures After(Gaps(db', project, ms), Some(t)) == After(Gaps(db, project, ms), Some(t))
  {
    if ms != [] {
      assert forall m :: m in ms[1..] ==> m in ms;
      assert ms[0] in ms;
      LaterGapsUnchanged(db, db', project, t, ms[1..]);
      AfterCons(ms[0], Gaps(db, project, ms[1..]), t);
      AfterCons(ms[0], Gaps(db', project, ms[1..]), t);
    }
  }

  lemma AfterCons(m: Msg, rest: seq<Msg>, t: int)
    ensures After([m] + rest, Some(t)) == (if t < m.createdAt then [m] else []) + After(rest, Some(t))
  {
    assert ([m] + rest)[1..] == rest;
  }

  lemma {:induction false} AfterTwice(ms: seq<Msg>, s: Option<int>, t: int)
    requires s.Some? ==> s.value <= t
    ensures After(After(ms, s), Some(t)) == After(ms, Some(t))
  {
    if ms != [] {
      AfterTwice(ms[1..], s, t);
      AfterCons(ms[0], After(ms[1..], s), t);
    }
  }

  lemma {:induction false} AfterNone(ms: seq<Msg>)
    ensures After(ms, None) == ms
  {
    if ms != [] { AfterNone(ms[1..]); }
  }

  // ---- the run ----

  function PageLimit(opts: Opts): (limit: nat)
    ensures 0 < limit
  {
    if opts.batchSize < 1 then 1 else opts.batchSize
  }

  function AllGaps(db: Db, opts: Opts): seq<Msg> { Gaps(db, opts.projectId, db.messages) }

  function GapVisits(db: Db, opts: Opts): seq<Msg> { Visited(AllGaps(db, opts), PageLimit(opts)) }

  function StaleVisits(db: Db, opts: Opts): seq<Msg> {
    if opts.refreshStale then StaleOf(db, opts.projectId, db.messages) else []
  }

  /** The tables after a real run. */
  function Backfilled(db: Db, opts: Opts): Db {
    RequeueAll(EnqueueAllIfAbsent(db, GapVisits(db, opts)), StaleVisits(db, opts))
  }

  /** What a run still has to visit is, at every page, what the first query's tail would have shown. */
  lemma RemainingGaps(db0: Db, seen: seq<Msg>, opts: Opts, after: Option<int>)
    requires Ordered(db0.messages)
    requires after.None? ==> seen == []
    requires forall m :: m in seen && after.Some? ==> m in db0.messages && m.createdAt <= after.value
    ensures After(AllGaps(EnqueueAllIfAbsent(db0, seen), opts), after) == After(AllGaps(db0, opts), after)
  {
    if after.Some? {
      hide *;
      var db := EnqueueAllIfAbsent(db0, seen);
      forall m | m in db0.messages && after.value < m.createdAt ensures m.id in db.outbox <==> m.id in db0.outbox {
        EnqueuedOutbox(db0, seen);
        forall s | s in seen ensures s.id != m.id {
          if s.id == m.id { SameIdSameMessage(db0.messages, s, m); }
        }
      }
      EnqueueKeepsRest(db0, seen);
      LaterGapsUnchanged(db0, db, opts.projectId, after.value, db0.messages);
      AllGapsIs(db0, opts);
      AllGapsIs(db, opts);
    }
  }

  lemma AllGapsIs(db: Db, opts: Opts)
    ensures AllGaps(db, opts) == Gaps(db, opts.projectId, db.messages)
  {
  }

  lemma EnqueueKeepsRest(db: Db, ms: seq<Msg>)
    ensures EnqueueAllIfAbsent(db, ms).messages == db.messages && EnqueueAllIfAbsent(db, ms).chunks == db.chunks
  {
    hide EnqueueAllIfAbsent;
    EnqueuedOutbox(db, ms);
  }

  lemma NothingToWrite(db: Db)
    ensures EnqueueAllIfAbsent(db, []) == db && RequeueAll(db, []) == db
  {
  }

  lemma EnqueueNext(db: Db, ms: seq<Msg>, m: Msg)
    ensures EnqueueAllIfAbsent(db, ms + [m]) == EnqueueIfAbsent(EnqueueAllIfAbsent(db, ms), m.id)
  {
    assert (ms + [m])[..|ms|] == ms;
  }

  lemma {:induction false} EnqueueTwice(db: Db, a: seq<Msg>, b: seq<Msg>)
    ensures EnqueueAllIfAbsent(EnqueueAllIfAbsent(db, a), b) == EnqueueAllIfAbsent(db, a + b)
  {
    if b == [] {
      assert a + b == a;
    } else {
      var init, last := b[..|b| - 1], b[|b| - 1];
      EnqueueTwice(db, a, init);
      EnqueueNext(db, a + init, last);
      assert (a + init) + [last] == a + b && init + [last] == b;
    }
  }

  lemma RequeueNext(db: Db, ms: seq<Msg>, i: nat)
    requires i < |ms|
    ensures RequeueAll(db, ms[..i + 1]) == Requeue(RequeueAll(db, ms[..i]), ms[i].id)
  {
    assert ms[..i + 1][..i] == ms[..i];
  }

  lemma SameIdSameMessage(ms: seq<Msg>, x: Msg, y: Msg)
    requires Ordered(ms) && x in ms && y in ms && x.id == y.id
    ensures x == y
  {
    hide *;
    var i :| 0 <= i < |ms| && ms[i] == x;
    var j :| 0 <= j < |ms| && ms[j] == y;
    if i < j { OrderedAt(ms, i, j); }
    if j < i { OrderedAt(ms, j, i); }
  }

  /** One full page of the remaining gaps, and what follows it. */
  lemma FirstPage(rest: seq<Msg>, limit: nat)
    requires 0 < limit <= |rest|
    ensures Visited(rest, limit) == rest[..limit] + Visited(After(rest, Some(rest[limit - 1].createdAt)), limit)
  {
    hide After;
  }

  lemma NextPage(gaps: seq<Msg>, after: Option<int>, limit: nat)
    requires 0 < limit <= |After(gaps, after)|
    ensures var rest := After(gaps, after);
            var t := rest[limit - 1].createdAt;
            && Visited(rest, limit) == rest[..limit] + Visited(After(gaps, Some(t)), limit)
            && |After(gaps, Some(t))| < |rest|
  {
    hide After, Visited;
    var rest := After(gaps, after);
    var t := rest[limit - 1].createdAt;
    assert rest[limit - 1] in rest;
    AfterDrops(rest, limit - 1);
    AfterTwice(gaps, after, t);
    FirstPage(rest, limit);
  }

  lemma OrderedPrefix(ms: seq<Msg>, n: nat)
    requires Ordered(ms) && 0 < n <= |ms|
    ensures ms[n - 1] in ms && forall m :: m in ms[..n] ==> m in ms && m.createdAt <= ms[n - 1].createdAt
  {
    hide *;
    forall m | m in ms[..n] ensures m in ms && m.createdAt <= ms[n - 1].createdAt {
      var i :| 0 <= i < n && ms[i] == m;
      if i < n - 1 { OrderedAt(ms, i, n - 1); }
    }
  }

  lemma PageTimes(db: Db, opts: Opts, after: Option<int>, n: nat)
    requires Ordered(db.messages) && 0 < n <= |After(AllGaps(db, opts), after)|
    ensures var rest := After(AllGaps(db, opts), after);
            && (after.Some? ==> after.value < rest[n - 1].createdAt)
            && forall m :: m in rest[..n] ==> m in db.messages && m.createdAt <= rest[n - 1].createdAt
  {
    hide *;
    AllGapsIs(db, opts);
    GapsOrdered(db, opts.projectId, db.messages);
    AfterOrdered(AllGaps(db, opts), after);
    OrderedPrefix(After(AllGaps(db, opts), after), n);
  }

  lemma {:induction false} StaleSame(db: Db, db': Db, project: Option<string>, ms: seq<Msg>)
    requires db'.chunks == db.chunks
    ensures StaleOf(db', project, ms) == StaleOf(db, project, ms)
  {
    if ms != [] { StaleSame(db, db', project, ms[1..]); }
  }

  // ---- what a run leaves ----

  lemma {:induction false} RequeuedOutbox(db: Db, ms: seq<Msg>)
    ensures RequeueAll(db, ms) == db.(outbox := RequeueAll(db, ms).outbox)
    ensures forall id :: id in RequeueAll(db, ms).outbox <==> id in db.outbox || exists m :: m in ms && m.id == id
    ensures forall id :: id in RequeueAll(db, ms).outbox ==>
              RequeueAll(db, ms).outbox[id] == Job(Pending, 0) ||
                (id in db.outbox && RequeueAll(db, ms).outbox[id] == db.outbox[id])
    ensures forall id :: id in db.outbox && (forall m :: m in ms ==> m.id != id) ==>
              RequeueAll(db, ms).outbox[id] == db.outbox[id]
  {
    if ms != [] {
      var init, last := ms[..|ms| - 1], ms[|ms| - 1];
      RequeuedOutbox(db, init);
      assert forall m :: m in ms <==> m in init || m == last;
    }
  }

  /** A gaps-only run adds one fresh job for each visited gap and touches no job that was there. */
  lemma GapsOnlyRun(db: Db, opts: Opts)
    requires !opts.refreshStale
    ensures Backfilled(db, opts) == db.(outbox := Backfilled(db, opts).outbox)
    ensures forall id :: id in db.outbox ==>
            id in Backfilled(db, opts).outbox && Backfilled(db, opts).outbox[id] == db.outbox[id]
    ensures forall id :: id in Backfilled(db, opts).outbox && id !in db.outbox ==>
              Backfilled(db, opts).outbox[id] == Job(Pending, 0) && exists m :: m in GapVisits(db, opts) && m.id == id
    ensures forall m :: m in GapVisits(db, opts) ==> m.id in Backfilled(db, opts).outbox && m.id !in db.outbox
  {
    hide Gaps, Visited, EnqueueAllIfAbsent;
    NothingToWrite(EnqueueAllIfAbsent(db, GapVisits(db, opts)));
    EnqueuedOutbox(db, GapVisits(db, opts));
  }

  lemma {:induction false} RequeuedFresh(db: Db, ms: seq<Msg>, m: Msg)
    requires m in ms
    ensures m.id in RequeueAll(db, ms).outbox && RequeueAll(db, ms).outbox[m.id] == Job(Pending, 0)
  {
    var init, last := ms[..|ms| - 1], ms[|ms| - 1];
    if m in init { RequeuedFresh(db, init, m); }
  }

  /** A refreshing run leaves every eligible message of the project with chunks of another model with a fresh job,
      whatever job it had. */
  lemma RefreshRun(db: Db, opts: Opts, m: Msg)
    requires opts.refreshStale && m in db.messages && m.eligible && InProject(m, opts.projectId)
    requires m.id in db.chunks && exists model :: model in db.chunks[m.id] && model != EMBEDDING_MODEL_ID
    ensures m.id in Backfilled(db, opts).outbox && Backfilled(db, opts).outbox[m.id] == Job(Pending, 0)
  {
    hide Gaps, Visited, EnqueueAllIfAbsent;
    RequeuedFresh(EnqueueAllIfAbsent(db, GapVisits(db, opts)), StaleVisits(db, opts), m);
  }

  /** What any run leaves to the jobs of other messages: themselves. */
  lemma OtherJobsStay(db: Db, opts: Opts, id: Id)
    requires Ordered(db.messages)
    requires forall m :: m in db.messages && m.id == id ==>
               !IsGap(db, opts.projectId, m) && !IsStale(db, opts.projectId, m)
    ensures id in Backfilled(db, opts).outbox <==> id in db.outbox
    ensures id in db.outbox ==> Backfilled(db, opts).outbox[id] == db.outbox[id]
  {
    hide Ordered, Gaps, Visited, EnqueueAllIfAbsent, RequeueAll, IsGap, IsStale;
    var mid := EnqueueAllIfAbsent(db, GapVisits(db, opts));
    EnqueuedOutbox(db, GapVisits(db, opts));
    RequeuedOutbox(mid, StaleVisits(db, opts));
    forall m | m in GapVisits(db, opts) ensures m.id != id { assert m in AllGaps(db, opts); }
  }

  /** The gaps a run leaves are exactly the gaps it did not visit. */
  lemma GapsLeft(db: Db, opts: Opts)
    requires Ordered(db.messages)
    ensures forall m :: m in AllGaps(Backfilled(db, opts), opts) <==>
            m in AllGaps(db, opts) && m !in GapVisits(db, opts)
  {
    var visits, stale := GapVisits(db, opts), StaleVisits(db, opts);
    var mid, last := EnqueueAllIfAbsent(db, visits), Backfilled(db, opts);
    forall m ensures m in AllGaps(last, opts) <==> m in AllGaps(db, opts) && m !in visits {
      hide Ordered, Gaps, Visited, StaleOf, EnqueueAllIfAbsent, RequeueAll;
      EnqueuedOutbox(db, visits);
      RequeuedOutbox(mid, stale);
      if m in db.messages {
        forall v | v in visits && v.id == m.id ensures v == m { SameIdSameMessage(db.messages, v, m); }
        forall v | v in stale && v.id == m.id ensures v == m { SameIdSameMessage(db.messages, v, m); }
      }
    }
  }

  /** A second run finds nothing to enqueue if and only if no page edge of the first split a group of equal
      timestamps. */
  lemma RerunFindsNoneIff(db: Db, opts: Opts)
    requires Ordered(db.messages)
    ensures AllGaps(Backfilled(db, opts), opts) == [] <==> EdgesClean(AllGaps(db, opts), PageLimit(opts))
  {
    hide Gaps, Visited, EdgesClean, Backfilled;
    var gaps, visits, left := AllGaps(db, opts), GapVisits(db, opts), AllGaps(Backfilled(db, opts), opts);
    GapsOrdered(db, opts.projectId, db.messages);
    VisitsAllIff(gaps, PageLimit(opts));
    VisitedDistinct(gaps, PageLimit(opts));
    GapsLeft(db, opts);
    if forall m :: m in gaps ==> m in visits {
      MembersLength(gaps, visits);
      VisitsAtMost(gaps, PageLimit(opts));
      NoMembers(left);
    } else {
      var m :| m in gaps && m !in visits;
      assert m in left;
    }
  }

  lemma NoMembers(ms: seq<Msg>)
    ensures (forall m :: m !in ms) ==> ms == []
  {
    if ms != [] { assert ms[0] in ms; }
  }

  function Members(ms: seq<Msg>): (r: set<Msg>)
    ensures forall m :: m in r <==> m in ms
  {
    if ms == [] then {} else {ms[0]} + Members(ms[1..])
  }

  lemma {:induction false} OrderedCount(ms: seq<Msg>)
    requires Ordered(ms)
    ensures |Members(ms)| == |ms|
  {
    if ms != [] {
      OrderedCount(ms[1..]);
    }
  }

  lemma {:induction false} SubsetCount(a: set<Msg>, b: set<Msg>)
    requires a <= b
    ensures |a| <= |b|
  {
    if a != {} {
      var m :| m in a;
      SubsetCount(a - {m}, b - {m});
    }
  }

  lemma MembersLength(a: seq<Msg>, b: seq<Msg>)
    requires Ordered(a) && Ordered(b) && forall m :: m in a ==> m in b
    ensures |a| <= |b|
  {
    OrderedCount(a);
    OrderedCount(b);
    SubsetCount(Members(a), Members(b));
  }

  /** The tables after `n` real runs. */
  function Runs(db: Db, opts: Opts, n: nat): Db
    decreases n
  {
    if n == 0 then db else Backfilled(Runs(db, opts, n - 1), opts)
  }

  lemma BackfilledMessages(db: Db, opts: Opts)
    ensures Backfilled(db, opts).messages == db.messages && Backfilled(db, opts).chunks == db.chunks
  {
    hide EnqueueAllIfAbsent, RequeueAll;
    EnqueueKeepsRest(db, GapVisits(db, opts));
    RequeuedOutbox(EnqueueAllIfAbsent(db, GapVisits(db, opts)), StaleVisits(db, opts));
  }

  /** Whatever the ties, a run with gaps before it leaves fewer. */
  lemma RunShrinksGaps(db: Db, opts: Opts)
    requires Ordered(db.messages) && AllGaps(db, opts) != []
    ensures |AllGaps(Backfilled(db, opts), opts)| < |AllGaps(db, opts)|
  {
    hide Gaps, Visited, Backfilled;
    var gaps, visits, left := AllGaps(db, opts), GapVisits(db, opts), AllGaps(Backfilled(db, opts), opts);
    BackfilledMessages(db, opts);
    GapsOrdered(db, opts.projectId, db.messages);
    GapsOrdered(Backfilled(db, opts), opts.projectId, db.messages);
    GapsLeft(db, opts);
    VisitsSome(gaps, PageLimit(opts));
    var seen := visits[0];
    assert seen in visits && seen in gaps && seen !in left;
    OrderedCount(gaps);
    OrderedCount(left);
    assert Members(left) <= Members(gaps) - {seen};
    SubsetCount(Members(left), Members(gaps) - {seen});
  }

  /** So enough runs fill every gap, ties or not. */
  lemma {:induction false} RunsFillEveryGap(db: Db, opts: Opts, n: nat)
    requires Ordered(db.messages)
    ensures Runs(db, opts, n).messages == db.messages
    ensures |AllGaps(Runs(db, opts, n), opts)| <= if n <= |AllGaps(db, opts)| then |AllGaps(db, opts)| - n else 0
    decreases n
  {
    hide AllGaps, Backfilled;
    if 0 < n {
      RunsFillEveryGap(db, opts, n - 1);
      var before := Runs(db, opts, n - 1);
      BackfilledMessages(before, opts);
      if AllGaps(before, opts) != [] {
        RunShrinksGaps(before, opts);
      } else {
        NoGapsStaysSo(before, opts);
      }
    }
  }

  lemma NoGapsStaysSo(db: Db, opts: Opts)
    requires Ordered(db.messages) && AllGaps(db, opts) == []
    ensures AllGaps(Backfilled(db, opts), opts) == []
  {
    hide AllGaps, Backfilled;
    var left := AllGaps(Backfilled(db, opts), opts);
    GapsLeft(db, opts);
    NoMembers(left);
  }

  /** Two gaps with one timestamp and pages of one: the run enqueues the first only. */
  lemma TieAtPageEdgeIsMissed(x: Msg, y: Msg, opts: Opts)
    requires x.eligible && y.eligible && x.id != y.id && x.createdAt == y.createdAt
    requires opts == Opts(false, false, None, 1)
    ensures var db := Db([x, y], map[], map[]);
            Ordered(db.messages) && GapVisits(db, opts) == [x] && AllGaps(Backfilled(db, opts), opts) != []
  {
    var db := Db([x, y], map[], map[]);
    assert [x, y][1..] == [y] && [y][1..] == [];
    assert Ordered([y]) && Ordered([x, y]);
    assert Gaps(db, None, [y]) == [y];
    assert AllGaps(db, opts) == [x, y];
    assert [x, y][..1] == [x];
    assert After([y], Some(x.createdAt)) == [];
    assert After([x, y], Some(x.createdAt)) == [];
    RerunFindsNoneIff(db, opts);
  }

  /** Between pages: `seen` are the rows taken so far, and what is left to visit starts after `after`. */
  ghost predicate Paging(db0: Db, db: Db, opts: Opts, seen: seq<Msg>, after: Option<int>) {
    && Ordered(db0.messages)
    && db == Written(db0, opts, seen)
    && (after.None? ==> seen == [])
    && (forall m :: m in seen && after.Some? ==> m in db0.messages && m.createdAt <= after.value)
    && seen + Visited(After(AllGaps(db0, opts), after), PageLimit(opts)) == GapVisits(db0, opts)
  }

  ghost function Written(db0: Db, opts: Opts, seen: seq<Msg>): Db {
    if opts.dryRun then db0 else EnqueueAllIfAbsent(db0, seen)
  }

  lemma PagingStarts(db: Db, opts: Opts)
    requires Ordered(db.messages)
    ensures Paging(db, db, opts, [], None)
  {
    AfterNone(AllGaps(db, opts));
    assert [] + GapVisits(db, opts) == GapVisits(db, opts);
  }

  lemma PagingWrites(db0: Db, db: Db, opts: Opts, seen: seq<Msg>, after: Option<int>)
    requires Paging(db0, db, opts, seen, after)
    ensures db == Written(db0, opts, seen)
    ensures |SelectGapPage(db, opts.projectId, after, PageLimit(opts))| <= PageLimit(opts)
  {
  }

  /** A page holds at most the limit, and shows what is left to visit. */
  lemma PageIs(db0: Db, db: Db, opts: Opts, seen: seq<Msg>, after: Option<int>)
    requires Paging(db0, db, opts, seen, after)
    ensures var rest := After(AllGaps(db0, opts), after);
            var page := SelectGapPage(db, opts.projectId, after, PageLimit(opts));
            if |rest| <= PageLimit(opts) then page == rest else page == rest[..PageLimit(opts)]
  {
    hide After, Gaps, Visited, EnqueueAllIfAbsent;
    RemainingGaps(db0, seen, opts, after);
  }

  /** A short page is the last one. */
  lemma PagingEnds(db0: Db, db: Db, opts: Opts, seen: seq<Msg>, after: Option<int>, page: seq<Msg>)
    requires Paging(db0, db, opts, seen, after) && page == SelectGapPage(db, opts.projectId, after, PageLimit(opts))
    requires |page| < PageLimit(opts)
    ensures seen + page == GapVisits(db0, opts)
  {
    hide After, Gaps, EnqueueAllIfAbsent;
    PageIs(db0, db, opts, seen, after);
  }

  /** A full page takes the paging on, to later timestamps only. */
  lemma PagingContinues(db0: Db, db: Db, opts: Opts, seen: seq<Msg>, after: Option<int>, page: seq<Msg>)
    requires Paging(db0, db, opts, seen, after) && page == SelectGapPage(db, opts.projectId, after, PageLimit(opts))
    requires |page| == PageLimit(opts)
    ensures var t := Some(page[|page| - 1].createdAt);
            && Paging(db0, Written(db0, opts, seen + page), opts, seen + page, t)
            && |After(AllGaps(db0, opts), t)| < |After(AllGaps(db0, opts), after)|
  {
    hide Ordered, After, Gaps, AllGaps, SelectGapPage, Visited, EnqueueAllIfAbsent;
    var limit, gaps := PageLimit(opts), AllGaps(db0, opts);
    var rest, t := After(gaps, after), page[|page| - 1].createdAt;
    PageIs(db0, db, opts, seen, after);
    assert page == rest[..limit] && rest[limit - 1] == page[limit - 1];
    NextPage(gaps, after, limit);
    PageTimes(db0, opts, after, limit);
    assert seen + (page + Visited(After(gaps, Some(t)), limit)) == (seen + page) + Visited(After(gaps, Some(t)), limit);
  }

  class Connection {
    var db: Db

    constructor (initial: Db)
      ensures db == initial
    {
      db := initial;
    }

    /** The inner loop over one page of gaps. */
    method EnqueuePage(page: seq<Msg>, dryRun: bool)
      modifies this
      ensures db == if dryRun then old(db) else EnqueueAllIfAbsent(old(db), page)
    {
      hide EnqueueAllIfAbsent;
      NothingToWrite(db);
      for i := 0 to |page|
        invariant db == if dryRun then old(db) else EnqueueAllIfAbsent(old(db), page[..i])
      {
        assert page[..i + 1] == page[..i] + [page[i]];
        EnqueueNext(old(db), page[..i], page[i]);
        if !dryRun {
          db := EnqueueIfAbsent(db, page[i].id);
        }
      }
      assert page[..|page|] == page;
    }

    /** The loop over the stale rows. */
    method RequeueStale(stale: seq<Msg>, dryRun: bool)
      modifies this
      ensures db == if dryRun then old(db) else RequeueAll(old(db), stale)
    {
      hide RequeueAll;
      NothingToWrite(db);
      for i := 0 to |stale|
        invariant db == if dryRun then old(db) else RequeueAll(old(db), stale[..i])
      {
        RequeueNext(old(db), stale, i);
        if !dryRun {
          db := Requeue(db, stale[i].id);
        }
      }
      assert stale[..|stale|] == stale;
    }

    /** Both modes report the same numbers; a dry run writes nothing. */
    method RunBackfill(opts: Opts) returns (r: BackfillResult)
      requires Ordered(db.messages)
      modifies this
      ensures r.enqueued == r.eligibleScanned == |GapVisits(old(db), opts)| + |StaleVisits(old(db), opts)|
      ensures db == if opts.dryRun then old(db) else Backfilled(old(db), opts)
    {
      hide Paging, AllGaps, Visited, After, GapVisits, SelectGapPage, EnqueueAllIfAbsent;
      var limit := PageLimit(opts);
      var enqueued, eligibleScanned := 0, 0;
      var afterCreatedAt: Option<int> := None;
      ghost var seen: seq<Msg> := [];
      PagingStarts(db, opts);
      while true
        invariant enqueued == eligibleScanned == |seen|
        invariant Paging(old(db), db, opts, seen, afterCreatedAt)
        decreases |After(AllGaps(old(db), opts), afterCreatedAt)|
      {
        PagingWrites(old(db), db, opts, seen, afterCreatedAt);
        var page := SelectGapPage(db, opts.projectId, afterCreatedAt, limit);
        if |page| < limit { PagingEnds(old(db), db, opts, seen, afterCreatedAt, page); }
        if |page| == limit { PagingContinues(old(db), db, opts, seen, afterCreatedAt, page); }
        if |page| == 0 {
          assert seen + page == seen;
          break;
        }
        EnqueuePage(page, opts.dryRun);
        EnqueueTwice(old(db), seen, page);
        eligibleScanned, enqueued := eligibleScanned + |page|, enqueued + |page|;
        seen := seen + page;
        afterCreatedAt := Some(page[|page| - 1].createdAt);
        if |page| < limit {
          break;
        }
      }
      NothingToWrite(db);
      if opts.refreshStale {
        EnqueueKeepsRest(old(db), seen);
        StaleSame(old(db), db, opts.projectId, db.messages);
        var stale := StaleOf(db, opts.projectId, db.messages);
        RequeueStale(stale, opts.dryRun);
        eligibleScanned, enqueued := eligibleScanned + |stale|, enqueued + |stale|;
      }
      r := BackfillResult(enqueued, eligibleScanned);
    }
  }
}

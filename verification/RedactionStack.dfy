/** When the recursion of src/extensions/audit-redaction.ts ends. Errors are re-wrapped before the visited check, so
    the guard never sees them: the walk returns, on a deep enough stack, exactly when no cycle of the payload runs
    through Errors alone. */
module RedactionStack {
  import opened Wrappers
  import opened AuditRedaction

  // ---- the graph the walk follows ----

  predicate ItemOf(items: List<Value>, v: Value) {
    match items case Nil => false case Cons(x, rest) => x == v || ItemOf(rest, v)
  }

  predicate OpenValueOf(entries: List<Entry>, v: Value) {
    match entries
    case Nil => false
    case Cons(e, rest) => (e.value == v && !IsSensitiveKey(e.key)) || OpenValueOf(rest, v)
  }

  /** The walk goes from the node at `a` on to `v`: members under sensitive keys are not entered. */
  predicate Child(h: Heap, a: Address, v: Value) {
    match h(a)
    case Bytes(_) => false
    case Err(_, _, _, _) => OpenValueOf(ErrorEntries(h(a)), v)
    case Arr(items) => ItemOf(items, v)
    case Obj(entries) => OpenValueOf(entries, v)
  }

  predicate Edge(h: Heap, a: Address, b: Address) { Child(h, a, At(b)) }

  /** Errors each of which leads to another of them: on a finite payload, a cycle of Errors alone. */
  ghost predicate ErrorLoop(h: Heap, errs: set<Address>) {
    errs != {} && forall a :: a in errs ==> h(a).Err? && LeadsInto(h, a, errs)
  }

  predicate LeadsInto(h: Heap, a: Address, errs: set<Address>) { exists b :: b in errs && Edge(h, a, b) }

  lemma WalkError(h: Heap, p: Patterns, a: Address, path: Path, visited: set<Address>, depth: nat)
    requires h(a).Err?
    ensures Walk(h, p, At(a), path, visited, depth) ==
            if depth < 2 then None else AsObject(WalkEntries(h, p, ErrorEntries(h(a)), path, visited, depth - 2))
  {
  }

  lemma ErrorEdge(h: Heap, a: Address, b: Address)
    requires h(a).Err? && Edge(h, a, b)
    ensures OpenValueOf(ErrorEntries(h(a)), At(b))
  {
  }

  // ---- a loop of Errors never returns ----

  lemma {:induction false} LoopOverflows(
    h: Heap, p: Patterns, errs: set<Address>, a: Address, path: Path, visited: set<Address>, depth: nat)
    requires ErrorLoop(h, errs) && a in errs
    ensures Walk(h, p, At(a), path, visited, depth).None?
    decreases depth, 0
  {
    hide IsSensitiveKey, ErrorEntries, Walk, WalkEntries, OpenValueOf, Edge;
    WalkError(h, p, a, path, visited, depth);
    if depth > 1 {
      var b :| b in errs && Edge(h, a, b);
      ErrorEdge(h, a, b);
      LoopEntryOverflows(h, p, errs, b, ErrorEntries(h(a)), path, visited, depth - 2);
    }
  }

  lemma {:induction false} LoopEntryOverflows(
    h: Heap, p: Patterns, errs: set<Address>, b: Address, entries: List<Entry>, path: Path, visited: set<Address>,
    depth: nat)
    requires ErrorLoop(h, errs) && b in errs && OpenValueOf(entries, At(b))
    ensures WalkEntries(h, p, entries, path, visited, depth).None?
    decreases depth, 2, entries
  {
    hide IsSensitiveKey, Walk;
    var e := entries.head;
    if e.value == At(b) && !IsSensitiveKey(e.key) {
      LoopOverflows(h, p, errs, b, path + [Key(e.key)], visited, depth);
    } else {
      var w := WalkEntry(h, p, e, path + [Key(e.key)], visited, depth);
      if w.Some? { LoopEntryOverflows(h, p, errs, b, entries.tail, path, w.value.visited, depth); }
    }
  }

  // ---- without such a loop, some stack is deep enough ----

  /** Everything the walk can reach from `refs` is in `refs`. */
  ghost predicate Closed(h: Heap, refs: set<Address>) {
    forall a, b :: a in refs && Edge(h, a, b) ==> b in refs
  }

  /** Errors only lead to Errors of lower rank. */
  ghost predicate Ranked(h: Heap, refs: set<Address>, rank: map<Address, nat>) {
    && refs <= rank.Keys
    && forall a, b :: a in refs && b in refs && h(a).Err? && h(b).Err? && Edge(h, a, b) ==> rank[b] < rank[a]
  }

  /** A finite set of Errors without a loop has ranks: peel off those that lead to no other. */
  lemma {:induction false} RanksExist(h: Heap, errs: set<Address>) returns (rank: map<Address, nat>)
    requires forall a :: a in errs ==> h(a).Err?
    requires forall loop :: loop <= errs ==> !ErrorLoop(h, loop)
    ensures Ranked(h, errs, rank)
    decreases |errs|
  {
    hide Edge, LeadsInto, Raised, Ranked;
    if errs == {} {
      rank := map[];
      NothingRanked(h, rank);
    } else {
      var inner := set a | a in errs && LeadsInto(h, a, errs);
      assert !ErrorLoop(h, errs);
      assert inner != errs;
      SmallerSet(inner, errs);
      var below := RanksExist(h, inner);
      rank := RaisedOver(h, errs, inner, below);
    }
  }

  lemma NothingRanked(h: Heap, rank: map<Address, nat>)
    ensures Ranked(h, {}, rank)
  {
  }

  lemma RaisedOver(h: Heap, errs: set<Address>, inner: set<Address>, below: map<Address, nat>)
    returns (rank: map<Address, nat>)
    requires inner == (set a | a in errs && LeadsInto(h, a, errs)) && Ranked(h, inner, below)
    ensures Ranked(h, errs, rank)
  {
    hide Edge;
    rank := Raised(errs, inner, below);
    forall a, b | a in errs && b in errs && Edge(h, a, b) && h(a).Err? && h(b).Err? ensures rank[b] < rank[a] {
      assert LeadsInto(h, a, errs);
      assert a in inner;
    }
  }

  function Raised(errs: set<Address>, inner: set<Address>, below: map<Address, nat>): (r: map<Address, nat>)
    requires inner <= below.Keys
    ensures r.Keys == errs && forall a :: a in errs ==> r[a] == if a in inner then below[a] + 1 else 0
  {
    map a | a in errs :: if a in inner then below[a] + 1 else 0
  }

  lemma {:induction false} SmallerSet(a: set<Address>, b: set<Address>)
    requires a < b
    ensures |a| < |b|
  {
    var x :| x in b && x !in a;
    SubsetSize(a, b - {x});
  }

  lemma {:induction false} SubsetSize(a: set<Address>, b: set<Address>)
    requires a <= b
    ensures |a| <= |b|
  {
    if a != {} {
      var x :| x in a;
      SubsetSize(a - {x}, b - {x});
    }
  }

  ghost function Bound(rank: map<Address, nat>, refs: set<Address>): (b: nat)
    requires refs <= rank.Keys
    ensures forall a :: a in refs ==> rank[a] < b
    decreases |refs|
  {
    if refs == {} then 0
    else
      var a :| a in refs;
      var rest := Bound(rank, refs - {a});
      if rank[a] < rest then rest else rank[a] + 1
  }

  lemma {:induction false} VisitedGrows(h: Heap, p: Patterns, v: Value, path: Path, visited: set<Address>, depth: nat)
    ensures var w := Walk(h, p, v, path, visited, depth); w.Some? ==> visited <= w.value.visited
    decreases depth, 0
  {
    hide IsSensitiveKey, Digits, BinaryMarker, ErrorEntries, WalkItems, WalkEntries;
    if depth > 0 && v.At? {
      match h(v.address) {
        case Bytes(_) =>
        case Err(_, _, _, _) =>
          if depth > 1 { VisitedGrowsEntries(h, p, ErrorEntries(h(v.address)), path, visited, depth - 2); }
        case Arr(items) => VisitedGrowsItems(h, p, items, 0, path, visited + {v.address}, depth - 1);
        case Obj(entries) => VisitedGrowsEntries(h, p, entries, path, visited + {v.address}, depth - 1);
      }
    }
  }

  lemma {:induction false} VisitedGrowsItems(
    h: Heap, p: Patterns, items: List<Value>, i: nat, path: Path, visited: set<Address>, depth: nat)
    ensures var w := WalkItems(h, p, items, i, path, visited, depth); w.Some? ==> visited <= w.value.visited
    decreases depth, 2, items
  {
    hide Walk;
    if items.Cons? {
      VisitedGrows(h, p, items.head, path + [Index(i)], visited, depth);
      var w := Walk(h, p, items.head, path + [Index(i)], visited, depth);
      if w.Some? { VisitedGrowsItems(h, p, items.tail, i + 1, path, w.value.visited, depth); }
    }
  }

  lemma {:induction false} VisitedGrowsEntries(
    h: Heap, p: Patterns, entries: List<Entry>, path: Path, visited: set<Address>, depth: nat)
    ensures var w := WalkEntries(h, p, entries, path, visited, depth); w.Some? ==> visited <= w.value.visited
    decreases depth, 2, entries
  {
    hide Walk, IsSensitiveKey;
    if entries.Cons? {
      var e := entries.head;
      VisitedGrows(h, p, e.value, path + [Key(e.key)], visited, depth);
      var w := WalkEntry(h, p, e, path + [Key(e.key)], visited, depth);
      if w.Some? { VisitedGrowsEntries(h, p, entries.tail, path, w.value.visited, depth); }
    }
  }

  /** A finite payload: everything reachable, and ranks for its Errors, all below `top`. */
  ghost predicate Grounded(h: Heap, refs: set<Address>, rank: map<Address, nat>, top: nat) {
    && Closed(h, refs)
    && (forall a :: a in refs && h(a).Err? ==> a in rank && rank[a] < top)
    && forall a, b :: a in refs && b in refs && h(a).Err? && h(b).Err? && Edge(h, a, b) ==> rank[b] < rank[a]
  }

  /** `v` may be walked next: a node of the payload, and if an Error then one of rank below `bound`. */
  predicate Next(h: Heap, refs: set<Address>, rank: map<Address, nat>, bound: nat, v: Value) {
    v.At? ==> v.address in refs && (h(v.address).Err? ==> v.address in rank && rank[v.address] < bound)
  }

  lemma ChildrenAreNext(h: Heap, refs: set<Address>, rank: map<Address, nat>, top: nat, a: Address)
    requires Grounded(h, refs, rank, top) && a in refs
    ensures h(a).Err? ==> forall v :: OpenValueOf(ErrorEntries(h(a)), v) ==> Next(h, refs, rank, rank[a], v)
    ensures h(a).Arr? ==> forall v :: ItemOf(h(a).items, v) ==> Next(h, refs, rank, top, v)
    ensures h(a).Obj? ==> forall v :: OpenValueOf(h(a).entries, v) ==> Next(h, refs, rank, top, v)
  {
    forall v | Child(h, a, v) ensures Next(h, refs, rank, if h(a).Err? then rank[a] else top, v) {
      hide Child;
      if v.At? { assert Edge(h, a, v.address); }
    }
    hide Next;
    assert h(a).Err? ==> forall v :: OpenValueOf(ErrorEntries(h(a)), v) ==> Child(h, a, v);
  }

  lemma {:induction false} ValueReturns(
    h: Heap, p: Patterns, v: Value, path: Path, visited: set<Address>,
    refs: set<Address>, rank: map<Address, nat>, top: nat, bound: nat)
    returns (depth: nat)
    requires Grounded(h, refs, rank, top) && Next(h, refs, rank, bound, v)
    ensures Walk(h, p, v, path, visited, depth).Some?
    decreases |refs - visited|, bound, 0
  {
    hide IsSensitiveKey, Digits, BinaryMarker, ErrorEntries, WalkItems, WalkEntries, Grounded, Edge;
    depth := 1;
    if v.At? {
      var a := v.address;
      ChildrenAreNext(h, refs, rank, top, a);
      match h(a) {
        case Bytes(_) =>
        case Err(_, _, _, _) =>
          var d := EntriesReturn(h, p, ErrorEntries(h(a)), path, visited, refs, rank, top, rank[a]);
          depth := d + 2;
        case Arr(items) =>
          if a !in visited {
            SmallerSet(refs - (visited + {a}), refs - visited);
            var d := ItemsReturn(h, p, items, 0, path, visited + {a}, refs, rank, top);
            depth := d + 1;
          }
        case Obj(entries) =>
          if a !in visited {
            SmallerSet(refs - (visited + {a}), refs - visited);
            var d := EntriesReturn(h, p, entries, path, visited + {a}, refs, rank, top, top);
            depth := d + 1;
          }
      }
    }
  }

  function Length<T>(xs: List<T>): nat { match xs case Nil => 0 case Cons(_, rest) => 1 + Length(rest) }

  lemma {:induction false} ItemsReturn(
    h: Heap, p: Patterns, items: List<Value>, i: nat, path: Path, visited: set<Address>,
    refs: set<Address>, rank: map<Address, nat>, top: nat)
    returns (depth: nat)
    requires Grounded(h, refs, rank, top) && forall v :: ItemOf(items, v) ==> Next(h, refs, rank, top, v)
    ensures WalkItems(h, p, items, i, path, visited, depth).Some?
    decreases |refs - visited|, top, 1 + Length(items)
  {
    hide Walk, Grounded, Next;
    if items.Nil? {
      depth := 0;
    } else {
      assert ItemOf(items, items.head);
      var first := ValueReturns(h, p, items.head, path + [Index(i)], visited, refs, rank, top, top);
      var w := Walk(h, p, items.head, path + [Index(i)], visited, first).value;
      VisitedGrows(h, p, items.head, path + [Index(i)], visited, first);
      SubsetSize(refs - w.visited, refs - visited);
      var rest := ItemsReturn(h, p, items.tail, i + 1, path, w.visited, refs, rank, top);
      depth := Max(first, rest);
      DeeperIsSame(h, p, items.head, path + [Index(i)], visited, first, depth);
      DeeperItems(h, p, items.tail, i + 1, path, w.visited, rest, depth);
    }
  }

  lemma {:induction false} EntriesReturn(
    h: Heap, p: Patterns, entries: List<Entry>, path: Path, visited: set<Address>,
    refs: set<Address>, rank: map<Address, nat>, top: nat, bound: nat)
    returns (depth: nat)
    requires Grounded(h, refs, rank, top) && forall v :: OpenValueOf(entries, v) ==> Next(h, refs, rank, bound, v)
    ensures WalkEntries(h, p, entries, path, visited, depth).Some?
    decreases |refs - visited|, bound, 1 + Length(entries)
  {
    hide Walk, Grounded, Next, IsSensitiveKey;
    if entries.Nil? {
      depth := 0;
    } else {
      var e := entries.head;
      var at := path + [Key(e.key)];
      var first := 0;
      if !IsSensitiveKey(e.key) {
        assert OpenValueOf(entries, e.value);
        first := ValueReturns(h, p, e.value, at, visited, refs, rank, top, bound);
        VisitedGrows(h, p, e.value, at, visited, first);
      }
      var w := WalkEntry(h, p, e, at, visited, first).value;
      SubsetSize(refs - w.visited, refs - visited);
      var rest := EntriesReturn(h, p, entries.tail, path, w.visited, refs, rank, top, bound);
      depth := Max(first, rest);
      if !IsSensitiveKey(e.key) { DeeperIsSame(h, p, e.value, at, visited, first, depth); }
      DeeperEntries(h, p, entries.tail, path, w.visited, rest, depth);
    }
  }

  // ---- a walk that returns has been everywhere ----

  /** Entering `v` ends in visited objects: through Errors alone in fewer than `n` steps. */
  ghost predicate Covered(h: Heap, visited: set<Address>, v: Value, n: nat)
    decreases n
  {
    v.At? ==>
      match h(v.address)
      case Bytes(_) => true
      case Err(_, _, _, _) => n > 0 && forall c :: Child(h, v.address, c) ==> Covered(h, visited, c, n - 1)
      case _ => v.address in visited
  }

  lemma {:induction false} CoveredMore(
    h: Heap, visited: set<Address>, v: Value, n: nat, visited': set<Address>, n': nat)
    requires Covered(h, visited, v, n) && visited <= visited' && n <= n'
    ensures Covered(h, visited', v, n')
    decreases n
  {
    hide Child;
    if v.At? && h(v.address).Err? {
      forall c | Child(h, v.address, c) ensures Covered(h, visited', c, n' - 1) {
        CoveredMore(h, visited, c, n - 1, visited', n' - 1);
      }
    }
  }

  /** Every object visited since `before` has all its children covered. */
  ghost predicate Finished(h: Heap, before: set<Address>, visited: set<Address>, n: nat) {
    forall a, c :: a in visited && a !in before && Child(h, a, c) ==> Covered(h, visited, c, n)
  }

  lemma FinishedMore(h: Heap, a: set<Address>, b: set<Address>, c: set<Address>, n: nat)
    requires a <= b <= c && Finished(h, a, b, n) && Finished(h, b, c, n)
    ensures Finished(h, a, c, n)
  {
    hide Child, Covered;
    forall x, v | x in c && x !in a && Child(h, x, v) ensures Covered(h, c, v, n) {
      if x in b { CoveredMore(h, b, v, n, c, n); }
    }
  }

  lemma FinishedDeeper(h: Heap, a: set<Address>, b: set<Address>, n: nat, n': nat)
    requires Finished(h, a, b, n) && n <= n'
    ensures Finished(h, a, b, n')
  {
    hide Child, Covered;
    forall x, v | x in b && x !in a && Child(h, x, v) ensures Covered(h, b, v, n') { CoveredMore(h, b, v, n, b, n'); }
  }

  lemma {:induction false} WalkCovers(h: Heap, p: Patterns, v: Value, path: Path, visited: set<Address>, depth: nat)
    requires Walk(h, p, v, path, visited, depth).Some?
    ensures var w := Walk(h, p, v, path, visited, depth).value;
            Covered(h, w.visited, v, depth) && Finished(h, visited, w.visited, depth)
    decreases depth, 0
  {
    hide IsSensitiveKey, Digits, BinaryMarker, ErrorEntries, WalkItems, WalkEntries, Finished;
    VisitedGrows(h, p, v, path, visited, depth);
    NothingFinished(h, visited, depth);
    if v.At? {
      var a := v.address;
      match h(a) {
        case Bytes(_) =>
        case Err(_, _, _, _) =>
          EntriesCover(h, p, ErrorEntries(h(a)), path, visited, depth - 2);
          var w := WalkEntries(h, p, ErrorEntries(h(a)), path, visited, depth - 2).value;
          FinishedDeeper(h, visited, w.visited, depth - 2, depth);
          forall c | Child(h, a, c) ensures Covered(h, w.visited, c, depth - 1) {
            CoveredMore(h, w.visited, c, depth - 2, w.visited, depth - 1);
          }
        case Arr(items) =>
          if a !in visited {
            ItemsCover(h, p, items, 0, path, visited + {a}, depth - 1);
            VisitedGrowsItems(h, p, items, 0, path, visited + {a}, depth - 1);
            var w := WalkItems(h, p, items, 0, path, visited + {a}, depth - 1).value;
            NodeFinished(h, a, visited, w.visited, depth - 1);
          }
        case Obj(entries) =>
          if a !in visited {
            EntriesCover(h, p, entries, path, visited + {a}, depth - 1);
            VisitedGrowsEntries(h, p, entries, path, visited + {a}, depth - 1);
            var w := WalkEntries(h, p, entries, path, visited + {a}, depth - 1).value;
            NodeFinished(h, a, visited, w.visited, depth - 1);
          }
      }
    }
  }

  lemma NothingFinished(h: Heap, visited: set<Address>, n: nat)
    ensures Finished(h, visited, visited, n)
  {
  }

  lemma NodeFinished(h: Heap, a: Address, before: set<Address>, visited: set<Address>, n: nat)
    requires Finished(h, before + {a}, visited, n) && forall c :: Child(h, a, c) ==> Covered(h, visited, c, n)
    ensures Finished(h, before, visited, n + 1)
  {
    hide Child, Covered;
    assert Finished(h, before, visited, n);
    FinishedDeeper(h, before, visited, n, n + 1);
  }

  lemma {:induction false} ItemsCover(
    h: Heap, p: Patterns, items: List<Value>, i: nat, path: Path, visited: set<Address>, depth: nat)
    requires WalkItems(h, p, items, i, path, visited, depth).Some?
    ensures var w := WalkItems(h, p, items, i, path, visited, depth).value;
            Finished(h, visited, w.visited, depth) && forall c :: ItemOf(items, c) ==> Covered(h, w.visited, c, depth)
    decreases depth, 2, items
  {
    hide Walk, Finished, Covered;
    NothingFinished(h, visited, depth);
    if items.Cons? {
      WalkCovers(h, p, items.head, path + [Index(i)], visited, depth);
      VisitedGrows(h, p, items.head, path + [Index(i)], visited, depth);
      var w := Walk(h, p, items.head, path + [Index(i)], visited, depth).value;
      ItemsCover(h, p, items.tail, i + 1, path, w.visited, depth);
      VisitedGrowsItems(h, p, items.tail, i + 1, path, w.visited, depth);
      var ws := WalkItems(h, p, items.tail, i + 1, path, w.visited, depth).value;
      FinishedMore(h, visited, w.visited, ws.visited, depth);
      CoveredMore(h, w.visited, items.head, depth, ws.visited, depth);
    }
  }

  lemma {:induction false} EntriesCover(
    h: Heap, p: Patterns, entries: List<Entry>, path: Path, visited: set<Address>, depth: nat)
    requires WalkEntries(h, p, entries, path, visited, depth).Some?
    ensures var w := WalkEntries(h, p, entries, path, visited, depth).value;
            && Finished(h, visited, w.visited, depth)
            && forall c :: OpenValueOf(entries, c) ==> Covered(h, w.visited, c, depth)
    decreases depth, 2, entries
  {
    hide Walk, Finished, Covered, IsSensitiveKey;
    NothingFinished(h, visited, depth);
    if entries.Cons? {
      var e := entries.head;
      var at := path + [Key(e.key)];
      if !IsSensitiveKey(e.key) {
        WalkCovers(h, p, e.value, at, visited, depth);
        VisitedGrows(h, p, e.value, at, visited, depth);
      }
      var w := WalkEntry(h, p, e, at, visited, depth).value;
      EntriesCover(h, p, entries.tail, path, w.visited, depth);
      VisitedGrowsEntries(h, p, entries.tail, path, w.visited, depth);
      var ws := WalkEntries(h, p, entries.tail, path, w.visited, depth).value;
      FinishedMore(h, visited, w.visited, ws.visited, depth);
      if !IsSensitiveKey(e.key) { CoveredMore(h, w.visited, e.value, depth, ws.visited, depth); }
    }
  }

  lemma {:induction false} LoopNotCovered(h: Heap, errs: set<Address>, a: Address, visited: set<Address>, n: nat)
    requires ErrorLoop(h, errs) && a in errs
    ensures !Covered(h, visited, At(a), n)
    decreases n
  {
    hide Child;
    if n > 0 {
      assert LeadsInto(h, a, errs);
      var b :| b in errs && Edge(h, a, b);
      LoopNotCovered(h, errs, b, visited, n - 1);
    }
  }

  // ---- exactly when ----

  ghost predicate Route(h: Heap, route: seq<Address>) {
    route != [] && forall i :: 0 <= i < |route| - 1 ==> Edge(h, route[i], route[i + 1])
  }

  /** The walk can get from the payload to the node at `a`. */
  ghost predicate Reaches(h: Heap, payload: Value, a: Address) {
    exists route :: Route(h, route) && payload == At(route[0]) && route[|route| - 1] == a
  }

  lemma {:induction false} RouteCovered(h: Heap, visited: set<Address>, route: seq<Address>, n: nat)
    requires Route(h, route) && Finished(h, {}, visited, n) && Covered(h, visited, At(route[0]), n)
    ensures Covered(h, visited, At(route[|route| - 1]), n)
    decreases |route|
  {
    hide Child, Finished;
    if |route| > 1 {
      var a, b := route[0], route[1];
      assert Edge(h, a, b);
      StepCovered(h, visited, a, b, n);
      assert Route(h, route[1..]) by {
        forall i | 0 <= i < |route[1..]| - 1 ensures Edge(h, route[1..][i], route[1..][i + 1]) {
          assert Edge(h, route[i + 1], route[i + 2]);
        }
      }
      RouteCovered(h, visited, route[1..], n);
    }
  }

  lemma StepCovered(h: Heap, visited: set<Address>, a: Address, b: Address, n: nat)
    requires Edge(h, a, b) && Finished(h, {}, visited, n) && Covered(h, visited, At(a), n)
    ensures Covered(h, visited, At(b), n)
  {
    if h(a).Err? {
      CoveredMore(h, visited, At(b), n - 1, visited, n);
    }
  }

  lemma ReachStep(h: Heap, payload: Value, a: Address, b: Address)
    requires Reaches(h, payload, a) && Edge(h, a, b)
    ensures Reaches(h, payload, b)
  {
    hide Edge;
    var route :| Route(h, route) && payload == At(route[0]) && route[|route| - 1] == a;
    var longer := route + [b];
    forall i | 0 <= i < |longer| - 1 ensures Edge(h, longer[i], longer[i + 1]) {
      if i < |route| - 1 { assert Edge(h, route[i], route[i + 1]); }
    }
    assert Route(h, longer);
  }

  /** On a finite payload the walk returns, given stack enough, exactly when no cycle the walk can reach consists of
      Errors alone. */
  lemma ReturnsIff(h: Heap, p: Patterns, payload: Value, refs: set<Address>)
    requires forall a :: a in refs <==> Reaches(h, payload, a)
    ensures (exists depth: nat :: Walk(h, p, payload, [], {}, depth).Some?) <==>
            forall loop :: loop <= refs ==> !ErrorLoop(h, loop)
  {
    hide Walk, ErrorLoop, Reaches, Edge;
    if depth: nat :| Walk(h, p, payload, [], {}, depth).Some? {
      forall loop | loop <= refs ensures !ErrorLoop(h, loop) {
        if ErrorLoop(h, loop) { ReachedLoopOverflows(h, p, payload, refs, loop, depth); }
      }
    }
    if forall loop :: loop <= refs ==> !ErrorLoop(h, loop) {
      var depth := LoopFreeReturns(h, p, payload, refs);
    }
  }

  lemma ReachedLoopOverflows(h: Heap, p: Patterns, payload: Value, refs: set<Address>, loop: set<Address>, depth: nat)
    requires forall a :: a in refs ==> Reaches(h, payload, a)
    requires loop <= refs && ErrorLoop(h, loop)
    ensures Walk(h, p, payload, [], {}, depth).None?
  {
    hide Walk, Finished, Covered, Edge, LeadsInto;
    var a :| a in loop;
    assert Reaches(h, payload, a);
    var route :| Route(h, route) && payload == At(route[0]) && route[|route| - 1] == a;
    if Walk(h, p, payload, [], {}, depth).Some? {
      var w := Walk(h, p, payload, [], {}, depth).value;
      WalkCovers(h, p, payload, [], {}, depth);
      RouteCovered(h, w.visited, route, depth);
      LoopNotCovered(h, loop, a, w.visited, depth);
    }
  }

  lemma LoopFreeReturns(h: Heap, p: Patterns, payload: Value, refs: set<Address>) returns (depth: nat)
    requires forall a :: a in refs <==> Reaches(h, payload, a)
    requires forall loop :: loop <= refs ==> !ErrorLoop(h, loop)
    ensures Walk(h, p, payload, [], {}, depth).Some?
  {
    hide Walk, ErrorLoop, Edge, LeadsInto, Reaches;
    var errs := set a | a in refs && h(a).Err?;
    var rank := RanksExist(h, errs);
    var top := Bound(rank, errs);
    forall a, b | a in refs && Edge(h, a, b) ensures b in refs { ReachStep(h, payload, a, b); }
    PayloadReached(h, payload);
    depth := ValueReturns(h, p, payload, [], {}, refs, rank, top, top);
  }

  lemma PayloadReached(h: Heap, payload: Value)
    ensures payload.At? ==> Reaches(h, payload, payload.address)
  {
    if payload.At? { assert Route(h, [payload.address]); }
  }

  /** So a redaction fails on every stack exactly when the payload has such a cycle. */
  lemma FailsOnEveryStackIff(h: Heap, p: Patterns, payload: Value, refs: set<Address>, opts: Options, c: Codec)
    requires forall a :: a in refs <==> Reaches(h, payload, a)
    ensures (forall depth: nat :: RedactForAudit(h, p, payload, opts, c, depth).Failed?) <==>
            exists loop :: loop <= refs && ErrorLoop(h, loop)
  {
    hide Walk, ErrorLoop, Reaches;
    ReturnsIff(h, p, payload, refs);
    if loop :| loop <= refs && ErrorLoop(h, loop) {
      forall depth: nat ensures RedactForAudit(h, p, payload, opts, c, depth).Failed? {
        assert Walk(h, p, payload, [], {}, depth).None?;
      }
    } else {
      var depth: nat :| Walk(h, p, payload, [], {}, depth).Some?;
      assert !RedactForAudit(h, p, payload, opts, c, depth).Failed?;
    }
  }
}

/** Install order, multi-version split and display tree of src/extensions/dependency-resolver.ts. */
module Resolution {
  import opened CycleDetection
  import opened Resolver

  datatype ResolvedDep = ResolvedDep(
    name: Name, installId: string, version: string, source: string, requiredRange: string, alreadyInstalled: bool)

  // ---- the entries of one name ----

  /** `[...new Set(xs)]`: first occurrences, in order. */
  function Unique(xs: seq<string>): (r: seq<string>)
    ensures Distinct(r) && forall x :: x in r <==> x in xs
  {
    if xs == [] then []
    else
      var init, last := xs[..|xs| - 1], xs[|xs| - 1];
      assert forall x :: x in xs <==> x in init || x == last;
      if last in Unique(init) then Unique(init) else Unique(init) + [last]
  }

  function Filter(xs: seq<string>, keep: string -> bool): (r: seq<string>)
    ensures forall x :: x in r <==> x in xs && keep(x)
    ensures Distinct(xs) ==> Distinct(r)
  {
    if xs == [] then []
    else
      var init, last := xs[..|xs| - 1], xs[|xs| - 1];
      assert forall x :: x in xs <==> x in init || x == last;
      assert Distinct(xs) ==> Distinct(init) && last !in init;
      Filter(init, keep) + (if keep(last) then [last] else [])
  }

  function JoinComma(xs: seq<string>): string {
    if xs == [] then "" else if |xs| == 1 then xs[0] else xs[0] + ", " + JoinComma(xs[1..])
  }

  /** `a` occurs in `xs` before `b` first does. */
  ghost predicate Earlier(xs: seq<string>, a: string, b: string) {
    exists k :: 0 <= k < |xs| && xs[k] == a && b !in xs[..k + 1]
  }

  /** The list keeps the order in which its elements first occur in `xs`. */
  ghost predicate FirstOrder(list: seq<string>, xs: seq<string>) {
    forall i, j :: 0 <= i < j < |list| ==> Earlier(xs, list[i], list[j])
  }

  lemma EarlierKept(xs: seq<string>, more: seq<string>, a: string, b: string)
    requires Earlier(xs, a, b)
    ensures Earlier(xs + more, a, b)
  {
    var k :| 0 <= k < |xs| && xs[k] == a && b !in xs[..k + 1];
    assert (xs + more)[..k + 1] == xs[..k + 1] && (xs + more)[k] == a;
  }

  lemma EarlierNew(xs: seq<string>, a: string, b: string)
    requires a in xs && b !in xs
    ensures Earlier(xs, a, b)
  {
    var k :| 0 <= k < |xs| && xs[k] == a;
  }

  lemma {:induction false} UniqueInOrder(xs: seq<string>)
    ensures FirstOrder(Unique(xs), xs)
  {
    if xs != [] {
      var init, last := xs[..|xs| - 1], xs[|xs| - 1];
      UniqueInOrder(init);
      assert xs == init + [last];
      var list := Unique(xs);
      forall i, j | 0 <= i < j < |list| ensures Earlier(xs, list[i], list[j]) {
        if j < |Unique(init)| {
          EarlierKept(init, [last], list[i], list[j]);
        } else {
          assert list[i] in Unique(init);
          EarlierNew(init, list[i], last);
          EarlierKept(init, [last], list[i], last);
        }
      }
    }
  }

  lemma {:induction false} FilterInOrder(xs: seq<string>, keep: string -> bool, base: seq<string>)
    requires FirstOrder(xs, base)
    ensures FirstOrder(Filter(xs, keep), base)
  {
    hide Earlier;
    if xs != [] {
      var init, last := xs[..|xs| - 1], xs[|xs| - 1];
      FilterInOrder(init, keep, base);
      var list := Filter(xs, keep);
      forall i, j | 0 <= i < j < |list| ensures Earlier(base, list[i], list[j]) {
        if j == |Filter(init, keep)| {
          assert list[i] in Filter(init, keep) && list[i] in init;
          var k :| 0 <= k < |init| && init[k] == list[i];
          assert xs[k] == list[i] && xs[|xs| - 1] == list[j];
        }
      }
    }
  }

  /** Joining is compositional: the texts in order, with a comma and a space between any two. */
  lemma {:induction false} JoinCommaJoins(a: seq<string>, b: seq<string>)
    ensures a != [] && b != [] ==> JoinComma(a + b) == JoinComma(a) + ", " + JoinComma(b)
    ensures forall x :: JoinComma([x]) == x
    ensures JoinComma([]) == ""
  {
    if 1 < |a| && b != [] {
      JoinCommaJoins(a[1..], b);
      assert (a + b)[1..] == a[1..] + b;
    } else if |a| == 1 && b != [] {
      assert (a + b)[1..] == b;
    }
  }

  /** `range.replace(/^\^/, "")`. */
  function StripCaret(range: string): string {
    if range != "" && range[0] == '^' then range[1..] else range
  }

  function RangesOf(c: Catalog, n: Name): seq<string>
    requires n in c.nodes
  {
    Unique(if n in c.requests then c.requests[n] else [c.nodes[n].requiredRange])
  }

  /** The requested ranges that the fetched version fails, each once. */
  function Unsatisfied(reg: Registry, c: Catalog, n: Name): (r: seq<string>)
    requires n in c.nodes
    ensures Distinct(r)
    ensures forall x :: x in r <==> x in RangesOf(c, n) && !reg.satisfies(c.nodes[n].version, x)
  {
    Filter(RangesOf(c, n), x => !reg.satisfies(c.nodes[n].version, x))
  }

  function PrimaryRange(reg: Registry, c: Catalog, n: Name): string
    requires n in c.nodes
  {
    var ranges := RangesOf(c, n);
    if Unsatisfied(reg, c, n) == [] then JoinComma(ranges)
    else
      var joined := JoinComma(Filter(ranges, x => reg.satisfies(c.nodes[n].version, x)));
      if joined != "" || ranges == [] then joined else ranges[0]
  }

  function Primary(reg: Registry, c: Catalog, n: Name): ResolvedDep
    requires n in c.nodes
  {
    var node := c.nodes[n];
    ResolvedDep(n, n, node.version, node.source, PrimaryRange(reg, c, n), node.alreadyInstalled)
  }

  function ScopedEntry(c: Catalog, n: Name, range: string): ResolvedDep
    requires n in c.nodes
  {
    ResolvedDep(n, n + "@" + StripCaret(range), StripCaret(range), c.nodes[n].source, range, false)
  }

  function ScopedEntries(c: Catalog, n: Name, ranges: seq<string>): seq<ResolvedDep>
    requires n in c.nodes
  {
    seq(|ranges|, i requires 0 <= i < |ranges| => ScopedEntry(c, n, ranges[i]))
  }

  function Entries(reg: Registry, c: Catalog, n: Name): seq<ResolvedDep>
    requires n in c.nodes
  {
    [Primary(reg, c, n)] + ScopedEntries(c, n, Unsatisfied(reg, c, n))
  }

  function AllEntries(reg: Registry, c: Catalog, order: seq<Name>): seq<ResolvedDep>
    requires forall n :: n in order ==> n in c.nodes
  {
    if order == [] then []
    else
      var last := order[|order| - 1];
      AllEntries(reg, c, order[..|order| - 1]) + Entries(reg, c, last)
  }

  // ---- reading the list back ----

  predicate IsPrimary(e: ResolvedDep) { e.installId == e.name }

  /** The names of the primary entries, in list order. */
  function PrimaryNames(list: seq<ResolvedDep>): seq<Name> {
    if list == [] then []
    else
      var e := list[|list| - 1];
      PrimaryNames(list[..|list| - 1]) + (if IsPrimary(e) then [e.name] else [])
  }

  /** The ranges of the scoped entries of `n`, in list order. */
  function ScopedRanges(list: seq<ResolvedDep>, n: Name): seq<string> {
    if list == [] then []
    else
      var e := list[|list| - 1];
      ScopedRanges(list[..|list| - 1], n) + (if !IsPrimary(e) && e.name == n then [e.requiredRange] else [])
  }

  lemma {:induction false} PrimaryNamesAppend(a: seq<ResolvedDep>, b: seq<ResolvedDep>)
    ensures PrimaryNames(a + b) == PrimaryNames(a) + PrimaryNames(b)
  {
    if b == [] {
      assert a + b == a;
    } else {
      PrimaryNamesAppend(a, b[..|b| - 1]);
      assert (a + b)[..|a + b| - 1] == a + b[..|b| - 1];
    }
  }

  lemma {:induction false} ScopedRangesAppend(a: seq<ResolvedDep>, b: seq<ResolvedDep>, n: Name)
    ensures ScopedRanges(a + b, n) == ScopedRanges(a, n) + ScopedRanges(b, n)
  {
    if b == [] {
      assert a + b == a;
    } else {
      ScopedRangesAppend(a, b[..|b| - 1], n);
      assert (a + b)[..|a + b| - 1] == a + b[..|b| - 1];
    }
  }

  /** `n@version` is never a plain name's install directory. */
  lemma ScopedIsNotPrimary(c: Catalog, n: Name, range: string)
    requires n in c.nodes
    ensures !IsPrimary(ScopedEntry(c, n, range))
  {
    assert |n + "@" + StripCaret(range)| > |n|;
  }

  lemma {:induction false} ScopedEntriesRead(c: Catalog, n: Name, ranges: seq<string>, m: Name)
    requires n in c.nodes
    ensures PrimaryNames(ScopedEntries(c, n, ranges)) == []
    ensures ScopedRanges(ScopedEntries(c, n, ranges), m) == if m == n then ranges else []
  {
    if ranges != [] {
      var init, last := ranges[..|ranges| - 1], ranges[|ranges| - 1];
      ScopedEntriesRead(c, n, init, m);
      ScopedIsNotPrimary(c, n, last);
      assert ScopedEntries(c, n, ranges)[..|ranges| - 1] == ScopedEntries(c, n, init);
    }
  }

  lemma SinglePrimary(e: ResolvedDep, m: Name)
    requires IsPrimary(e)
    ensures PrimaryNames([e]) == [e.name] && ScopedRanges([e], m) == []
  {
  }

  lemma EntriesRead(reg: Registry, c: Catalog, n: Name, m: Name)
    requires n in c.nodes
    ensures PrimaryNames(Entries(reg, c, n)) == [n]
    ensures ScopedRanges(Entries(reg, c, n), m) == if m == n then Unsatisfied(reg, c, n) else []
  {
    hide Unsatisfied, PrimaryRange, ScopedEntries;
    var p, scoped := [Primary(reg, c, n)], ScopedEntries(c, n, Unsatisfied(reg, c, n));
    SinglePrimary(Primary(reg, c, n), m);
    ScopedEntriesRead(c, n, Unsatisfied(reg, c, n), m);
    PrimaryNamesAppend(p, scoped);
    ScopedRangesAppend(p, scoped, m);
  }

  /** Exactly one primary entry a name, in the given order, and exactly one scoped entry for each range
      its fetched version fails. */
  lemma {:induction false} AllEntriesRead(reg: Registry, c: Catalog, order: seq<Name>, m: Name)
    requires Distinct(order) && forall n :: n in order ==> n in c.nodes
    ensures PrimaryNames(AllEntries(reg, c, order)) == order
    ensures ScopedRanges(AllEntries(reg, c, order), m) == if m in order then Unsatisfied(reg, c, m) else []
  {
    hide Entries, Unsatisfied;
    if order != [] {
      var init, last := order[..|order| - 1], order[|order| - 1];
      AllEntriesRead(reg, c, init, m);
      EntriesRead(reg, c, last, m);
      PrimaryNamesAppend(AllEntries(reg, c, init), Entries(reg, c, last));
      ScopedRangesAppend(AllEntries(reg, c, init), Entries(reg, c, last), m);
      assert m in order <==> m in init || m == last;
      assert last !in init;
    }
  }

  /** The range text of a primary entry: the ranges that the version satisfies, each once and in the order they were
      first requested, joined; where that is no text at all and some range fails, the range first requested. */
  lemma PrimaryRangeIs(reg: Registry, c: Catalog, n: Name)
    requires n in c.nodes && n in c.requests && c.requests[n] != []
    ensures exists rs ::
              && Distinct(rs) && FirstOrder(rs, c.requests[n])
              && (forall r :: r in rs <==> r in c.requests[n] && reg.satisfies(c.nodes[n].version, r))
              && PrimaryRange(reg, c, n) ==
                 if JoinComma(rs) == "" && (exists r :: r in c.requests[n] && !reg.satisfies(c.nodes[n].version, r))
                 then c.requests[n][0] else JoinComma(rs)
  {
    hide Earlier, Filter, JoinComma;
    var asked, ranges := c.requests[n], RangesOf(c, n);
    var keep := x => reg.satisfies(c.nodes[n].version, x);
    var rs := Filter(ranges, keep);
    UniqueInOrder(asked);
    FilterInOrder(ranges, keep, asked);
    UniqueHead(asked);
    if Unsatisfied(reg, c, n) == [] {
      FilterAll(ranges, keep);
    } else {
      var r := Unsatisfied(reg, c, n)[0];
      assert r in Unsatisfied(reg, c, n);
    }
  }

  lemma {:induction false} UniqueHead(xs: seq<string>)
    requires xs != []
    ensures Unique(xs) != [] && Unique(xs)[0] == xs[0]
  {
    if 1 < |xs| { UniqueHead(xs[..|xs| - 1]); }
  }

  lemma {:induction false} FilterAll(xs: seq<string>, keep: string -> bool)
    requires forall x :: x in xs ==> keep(x)
    ensures Filter(xs, keep) == xs
  {
    hide Distinct;
    if xs != [] {
      var init, last := xs[..|xs| - 1], xs[|xs| - 1];
      FilterAll(init, keep);
      assert last in xs && xs == init + [last];
    }
  }

  /** Scoped install directories of a name collide exactly when two failed ranges differ by a caret only. */
  lemma ScopedIdsDistinctIff(reg: Registry, c: Catalog, n: Name, r: string, s: string)
    requires n in c.nodes && r in Unsatisfied(reg, c, n) && s in Unsatisfied(reg, c, n) && r != s
    ensures ScopedEntry(c, n, r).installId == ScopedEntry(c, n, s).installId <==>
            (r == "^" + s && StripCaret(s) == s) || (s == "^" + r && StripCaret(r) == r)
  {
    hide Unsatisfied;
    SuffixEq(n + "@", StripCaret(r), StripCaret(s));
    StripCaretEq(r, s);
  }

  lemma SuffixEq(p: string, a: string, b: string)
    ensures p + a == p + b <==> a == b
  {
    assert (p + a)[|p|..] == a && (p + b)[|p|..] == b;
  }

  lemma StripCaretEq(r: string, s: string)
    requires r != s
    ensures StripCaret(r) == StripCaret(s) <==>
            (r == "^" + s && StripCaret(s) == s) || (s == "^" + r && StripCaret(r) == r)
  {
    StripCaretInverse(r);
    StripCaretInverse(s);
  }

  lemma StripCaretInverse(r: string)
    ensures StripCaret(r) == r || r == "^" + StripCaret(r)
    ensures StripCaret("^" + r) == r
  {
  }

  // ---- post-order listing ----

  /** Every dependency of a listed name is listed before it. */
  ghost predicate DepsFirst(c: Catalog, order: seq<Name>) {
    Distinct(order) && ChildrenFirst(GraphOf(c), order)
  }

  ghost predicate Closed(c: Catalog) {
    forall n, d :: n in c.nodes && Edge(GraphOf(c), n, d) ==> d in c.nodes
  }

  /** `done` lists only nodes, dependencies first, and `resolved` holds exactly their entries. */
  ghost predicate Listed(reg: Registry, c: Catalog, done: seq<Name>, resolved: seq<ResolvedDep>) {
    && DepsFirst(c, done)
    && (forall n :: n in done ==> n in c.nodes)
    && resolved == AllEntries(reg, c, done)
  }

  /** Names entered but not yet listed are all later than `n` in the topological order. */
  ghost predicate PendingAbove(topo: seq<Name>, processed: set<Name>, done: seq<Name>, n: Name) {
    && (forall m :: m in done ==> m in processed)
    && n in topo
    && forall m :: m in processed && m !in done ==> m in topo && IndexOf(topo, n) < IndexOf(topo, m)
  }

  lemma ListedAppend(reg: Registry, c: Catalog, done: seq<Name>, resolved: seq<ResolvedDep>, n: Name)
    requires Listed(reg, c, done, resolved) && n in c.nodes && n !in done
    requires forall d :: Edge(GraphOf(c), n, d) ==> d in done
    ensures Listed(reg, c, done + [n], resolved + Entries(reg, c, n))
  {
    hide Entries, GraphOf;
    var done' := done + [n];
    forall k, d | 0 <= k < |done'| && Edge(GraphOf(c), done'[k], d) ensures d in done'[..k] {
      if k < |done| {
        assert done'[..k] == done[..k];
      } else {
        assert done'[..k] == done;
      }
    }
    assert done'[..|done|] == done;
  }

  class Installer {
    const reg: Registry
    const catalog: Catalog
    ghost const topo: seq<Name>
    var processed: set<Name>
    var resolved: seq<ResolvedDep>
    ghost var done: seq<Name>

    constructor (reg: Registry, catalog: Catalog, ghost topo: seq<Name>)
      ensures this.reg == reg && this.catalog == catalog && this.topo == topo
      ensures processed == {} && resolved == [] && done == []
    {
      this.reg, this.catalog, this.topo := reg, catalog, topo;
      processed, resolved, done := {}, [], [];
    }

    ghost predicate Valid()
      reads this
    {
      && TopologicalOrder(GraphOf(catalog), topo) && Closed(catalog)
      && Listed(reg, catalog, done, resolved)
    }

    /** Lists `name` after everything below it, unless it has been entered before. */
    method AddResolved(name: Name)
      requires Valid() && name in catalog.nodes && PendingAbove(topo, processed, done, name)
      modifies this
      ensures Valid() && name in done && old(done) <= done
      ensures forall m :: m in done ==> m in processed
      ensures forall m :: m in processed && m !in done <==> m in old(processed) && m !in old(done)
      decreases IndexOf(topo, name)
    {
      hide Listed, Entries, Closed, TopologicalOrder, GraphOf;
      if name in processed { return; }
      processed := processed + {name};
      var deps := DepNames(catalog.nodes[name].deps);
      EdgesAreDeps(catalog, name);
      for i := 0 to |deps|
        invariant Valid() && old(done) <= done && name !in done
        invariant forall m :: m in done ==> m in processed
        invariant forall m :: m in processed && m !in done <==> m == name || (m in old(processed) && m !in old(done))
        invariant forall k :: 0 <= k < i ==> deps[k] in done
      {
        assert Edge(GraphOf(catalog), name, deps[i]);
        DependencyIsNode(catalog, name, deps[i]);
        EdgeDescends(GraphOf(catalog), topo, name, deps[i]);
        AddResolved(deps[i]);
      }
      assert forall d :: Edge(GraphOf(catalog), name, d) ==> d in done;
      ListedAppend(reg, catalog, done, resolved, name);
      resolved := resolved + Entries(reg, catalog, name);
      done := done + [name];
    }
  }

  lemma EdgesAreDeps(c: Catalog, n: Name)
    requires n in c.nodes
    ensures forall d :: Edge(GraphOf(c), n, d) <==> d in DepNames(c.nodes[n].deps)
  {
  }

  lemma DependencyIsNode(c: Catalog, n: Name, d: Name)
    requires Closed(c) && n in c.nodes && Edge(GraphOf(c), n, d)
    ensures d in c.nodes
  {
  }
}

/** `resolveDependencies` of src/extensions/dependency-resolver.ts put together: collection, cycle check,
    install list and display tree. */
module DependencyTree {
  import opened Wrappers
  import opened CycleDetection
  import opened Resolver
  import opened Resolution

  // ---- the collected catalog is exactly the reachable part of the registry ----

  ghost predicate CatalogExact(reg: Registry, deps: seq<Dep>, c: Catalog) {
    && KeysOk(c) && Closed(c)
    && (forall n :: n in c.nodes <==> Reachable(c, deps, n))
    && (forall n :: n in c.nodes ==> FromEdge(reg, EMPTY, c, deps, n))
    && (forall n, r :: Requested(c, n, r) <==>
          Requests(deps, n, r) || exists k :: k in c.nodes && Requests(c.nodes[k].deps, n, r))
    && exists trail :: Visited(reg, EMPTY, deps, c, trail)
  }

  const EMPTY := Catalog(map[], [], map[])

  /** Each node is fetched from the source, and for the range, of the first edge into it that the depth-first visit
      meets; that edge is the root's or a collected node's. */
  lemma NodesAreFirstEdges(reg: Registry, deps: seq<Dep>, c: Catalog, n: Name)
    requires CatalogExact(reg, deps, c) && n in c.nodes
    ensures exists trail, d ::
              && Traverses(reg, deps, {}, trail) && FirstNamed(trail, d)
              && d.name == n && Genuine(reg, c.nodes[n], d) && NewEdge(EMPTY, c, deps, d)
  {
    hide Traverses, FirstNamed, Reachable, Closed, NewEdge, Requests;
    var trail :| Visited(reg, EMPTY, deps, c, trail);
    assert EMPTY.nodes.Keys == {};
    VisitRecords(reg, EMPTY, deps, trail);
    assert FromFirst(reg, c, trail, n);
    var d :| FirstNamed(trail, d) && d.name == n && Genuine(reg, c.nodes[n], d);
    var e :| NewEdge(EMPTY, c, deps, e) && e.name == n && Genuine(reg, c.nodes[n], e);
    assert d == e;
  }

  /** The registry and the root's dependencies leave no choice: there is one exact catalog. */
  lemma CatalogUnique(reg: Registry, deps: seq<Dep>, c: Catalog, c': Catalog)
    requires CatalogExact(reg, deps, c) && CatalogExact(reg, deps, c')
    ensures c == c'
  {
    hide Traverses, Reachable, Closed, RecordAll, FromEdge;
    var s :| Visited(reg, EMPTY, deps, c, s);
    var t :| Visited(reg, EMPTY, deps, c', t);
    TraversalUnique(reg, deps, EMPTY.nodes.Keys, s, t);
  }

  /** Every listed entry is fetched from the source of an edge into its name, a primary one in the version found
      there. */
  lemma EntriesAreRequested(reg: Registry, deps: seq<Dep>, c: Catalog, n: Name, e: ResolvedDep)
    requires CatalogExact(reg, deps, c) && n in c.nodes && e in Entries(reg, c, n)
    ensures exists d :: NewEdge(EMPTY, c, deps, d) && d.name == n == e.name && d.source == e.source
                        && reg.fetch(d.source).Some?
                        && (IsPrimary(e) ==> e.version == reg.fetch(d.source).value.version)
  {
    hide Closed, Reachable, Visited, NewEdge;
    var d :| NewEdge(EMPTY, c, deps, d) && d.name == n && Genuine(reg, c.nodes[n], d);
    EntryIs(reg, c, n, e);
  }

  lemma EntryIs(reg: Registry, c: Catalog, n: Name, e: ResolvedDep)
    requires n in c.nodes && e in Entries(reg, c, n)
    ensures e.name == n && e.source == c.nodes[n].source && (IsPrimary(e) ==> e.version == c.nodes[n].version)
  {
    if e != Primary(reg, c, n) {
      var i :| 0 <= i < |Entries(reg, c, n)| && Entries(reg, c, n)[i] == e;
      var ranges := Unsatisfied(reg, c, n);
      assert e == ScopedEntry(c, n, ranges[i - 1]);
      ScopedIsNotPrimary(c, n, ranges[i - 1]);
    }
  }

  lemma {:induction false} PathStaysInside(reg: Registry, deps: seq<Dep>, c: Catalog, p: seq<Name>, n: Name)
    requires Closed(c) && (forall d :: d in deps ==> d.name in c.nodes) && PathFrom(c, deps, p, n)
    ensures n in c.nodes
    decreases |p|
  {
    if |p| == 1 {
      var i :| 0 <= i < |deps| && deps[i].name == n;
      assert deps[i] in deps;
    } else {
      var q := p[..|p| - 1];
      PathStaysInside(reg, deps, c, q, q[|q| - 1]);
      assert Edge(GraphOf(c), p[|p| - 2], n);
    }
  }

  lemma CollectedClosed(reg: Registry, deps: seq<Dep>, c: Catalog)
    requires Collected(reg, EMPTY, deps, c)
    ensures Closed(c)
  {
    forall n, x | n in c.nodes && Edge(GraphOf(c), n, x) ensures x in c.nodes {
      var i :| 0 <= i < |c.nodes[n].deps| && c.nodes[n].deps[i].name == x;
      assert c.nodes[n].deps[i] in c.nodes[n].deps;
    }
  }

  lemma CollectedIsExact(reg: Registry, deps: seq<Dep>, c: Catalog, trail: seq<Dep>)
    requires Collected(reg, EMPTY, deps, c) && Visited(reg, EMPTY, deps, c, trail)
    ensures CatalogExact(reg, deps, c)
  {
    hide Genuine, Visited, FromEdge;
    CollectedClosed(reg, deps, c);
    forall n | Reachable(c, deps, n) ensures n in c.nodes {
      var p :| PathFrom(c, deps, p, n);
      PathStaysInside(reg, deps, c, p, n);
    }
    forall n, r ensures Requested(c, n, r) <==>
        Requests(deps, n, r) || exists k :: k in c.nodes && Requests(c.nodes[k].deps, n, r) {
      assert NewRequests(EMPTY, c, n, r) <==> exists k :: k in c.nodes && Requests(c.nodes[k].deps, n, r);
    }
  }

  /** The version on some edge into `n`. */
  ghost predicate OnSomeEdge(c: Catalog, deps: seq<Dep>, n: Name, r: string) {
    Requests(deps, n, r) || exists k :: k in c.nodes && Requests(c.nodes[k].deps, n, r)
  }

  lemma SomeEdgeInto(reg: Registry, deps: seq<Dep>, c: Catalog, n: Name) returns (r: string)
    requires CatalogExact(reg, deps, c) && n in c.nodes
    ensures OnSomeEdge(c, deps, n, r)
  {
    hide FromEdge, Visited, Closed;
    var p :| PathFrom(c, deps, p, n);
    if |p| == 1 {
      var i :| 0 <= i < |deps| && deps[i].name == n;
      assert deps[i] in deps;
      r := deps[i].version;
    } else {
      var k := p[|p| - 2];
      assert Edge(GraphOf(c), k, n);
      var i :| 0 <= i < |c.nodes[k].deps| && c.nodes[k].deps[i].name == n;
      assert c.nodes[k].deps[i] in c.nodes[k].deps;
      r := c.nodes[k].deps[i].version;
    }
  }

  /** The ranges considered for a name are exactly those on the edges into it. */
  lemma RangesAreEdges(reg: Registry, deps: seq<Dep>, c: Catalog, n: Name, r: string)
    requires CatalogExact(reg, deps, c) && n in c.nodes
    ensures r in RangesOf(c, n) <==> OnSomeEdge(c, deps, n, r)
  {
    hide FromEdge, Visited, Closed, Reachable;
    var s := SomeEdgeInto(reg, deps, c, n);
    assert Requested(c, n, s);
    assert Requested(c, n, r) <==> OnSomeEdge(c, deps, n, r);
  }

  // ---- the display tree ----

  datatype Tree = Tree(name: Name, version: string, alreadyInstalled: bool, children: seq<Tree>)

  /** `resolved.find((r) => r.name === name)`. */
  function FindFirst(list: seq<ResolvedDep>, n: Name): Option<ResolvedDep> {
    if list == [] then None else if list[0].name == n then Some(list[0]) else FindFirst(list[1..], n)
  }

  function DepsOf(c: Catalog, n: Name): seq<Name> {
    if n in c.nodes then DepNames(c.nodes[n].deps) else []
  }

  /** The recursion keeps no visited set; a topological order, which exists because the cycle check
      passed, bounds it. */
  function BuildTreeNode(c: Catalog, resolved: seq<ResolvedDep>, ghost topo: seq<Name>, name: Name): Tree
    requires TopologicalOrder(GraphOf(c), topo)
    decreases if name in topo then IndexOf(topo, name) + 1 else 0
  {
    var deps := DepsOf(c, name);
    var first := FindFirst(resolved, name);
    Tree(
      name,
      if name in c.nodes then c.nodes[name].version else "unknown",
      first.Some? && first.value.alreadyInstalled,
      seq(|deps|, i requires 0 <= i < |deps| =>
        assert Edge(GraphOf(c), name, deps[i]);
        EdgeDescends(GraphOf(c), topo, name, deps[i]);
        BuildTreeNode(c, resolved, topo, deps[i])))
  }

  /** Following the child names `p` from the root of `t` leads to the subtree `s`. */
  ghost predicate LeadsTo(t: Tree, p: seq<Name>, s: Tree)
    decreases |p|
  {
    && p != [] && p[0] == t.name
    && (if |p| == 1 then s == t
        else exists i :: 0 <= i < |t.children| && LeadsTo(t.children[i], p[1..], s))
  }

  lemma EdgeIsDep(c: Catalog, n: Name, d: Name)
    ensures Edge(GraphOf(c), n, d) <==> d in DepsOf(c, n)
  {
  }

  /** The tree is the unfolding of the dependency graph: its paths are the walks from its root, and each
      leads to the tree of the name it ends at. */
  lemma {:induction false} TreeIsUnfolding(
      c: Catalog, resolved: seq<ResolvedDep>, topo: seq<Name>, name: Name, p: seq<Name>, s: Tree)
    requires TopologicalOrder(GraphOf(c), topo)
    ensures LeadsTo(BuildTreeNode(c, resolved, topo, name), p, s) <==>
            p != [] && p[0] == name && Walk(GraphOf(c), p) && s == BuildTreeNode(c, resolved, topo, p[|p| - 1])
    decreases |p|
  {
    hide GraphOf, TopologicalOrder, FindFirst;
    var t, deps := BuildTreeNode(c, resolved, topo, name), DepsOf(c, name);
    if 1 < |p| && p[0] == name {
      var q := p[1..];
      forall i | 0 <= i < |deps|
        ensures LeadsTo(t.children[i], q, s) <==>
                q[0] == deps[i] && Walk(GraphOf(c), q) && s == BuildTreeNode(c, resolved, topo, q[|q| - 1])
      {
        TreeIsUnfolding(c, resolved, topo, deps[i], q, s);
      }
      EdgeIsDep(c, name, q[0]);
      WalkStep(GraphOf(c), p);
      if q[0] in deps {
        var i :| 0 <= i < |deps| && deps[i] == q[0];
      }
    }
  }

  lemma WalkStep(g: Graph, p: seq<Name>)
    requires 1 < |p|
    ensures Walk(g, p) <==> Edge(g, p[0], p[1]) && Walk(g, p[1..])
  {
    if Edge(g, p[0], p[1]) && Walk(g, p[1..]) {
      forall i | 0 < i < |p| ensures Edge(g, p[i - 1], p[i]) {
        if 1 < i { assert p[i - 1] == p[1..][i - 2] && p[i] == p[1..][i - 1]; }
      }
    }
  }

  lemma {:induction false} FindFirstAppend(a: seq<ResolvedDep>, b: seq<ResolvedDep>, n: Name)
    ensures FindFirst(a + b, n) == if FindFirst(a, n).Some? then FindFirst(a, n) else FindFirst(b, n)
  {
    if a == [] {
      assert a + b == b;
    } else {
      FindFirstAppend(a[1..], b, n);
      assert (a + b)[1..] == a[1..] + b;
    }
  }

  lemma {:induction false} FindNone(list: seq<ResolvedDep>, n: Name)
    requires forall e :: e in list ==> e.name != n
    ensures FindFirst(list, n).None?
  {
    if list != [] {
      assert list[0] in list;
      FindNone(list[1..], n);
    }
  }

  /** The status shown for a listed name is that of its primary entry. */
  lemma {:induction false} FindsPrimary(reg: Registry, c: Catalog, order: seq<Name>, n: Name)
    requires Distinct(order) && (forall m :: m in order ==> m in c.nodes)
    ensures FindFirst(AllEntries(reg, c, order), n) == if n in order then Some(Primary(reg, c, n)) else None
  {
    hide Primary, Unsatisfied, ScopedEntries;
    if order != [] {
      var init, last := order[..|order| - 1], order[|order| - 1];
      FindsPrimary(reg, c, init, n);
      FindFirstAppend(AllEntries(reg, c, init), Entries(reg, c, last), n);
      EntriesNamed(reg, c, last);
      if last == n {
        assert Entries(reg, c, last)[0].name == n;
      } else {
        FindNone(Entries(reg, c, last), n);
      }
      assert n in order <==> n in init || n == last;
      assert last !in init;
    }
  }

  lemma EntriesNamed(reg: Registry, c: Catalog, n: Name)
    requires n in c.nodes
    ensures forall e :: e in Entries(reg, c, n) ==> e.name == n
    ensures Entries(reg, c, n)[0] == Primary(reg, c, n)
  {
    hide PrimaryRange, Unsatisfied;
  }

  // ---- the whole resolution ----

  datatype ResolveError = FetchFailed | Circular(path: seq<Name>)
  datatype ResolutionResult = ResolutionResult(toInstall: seq<ResolvedDep>, tree: Tree)

  function RootTree(root: Manifest, c: Catalog, resolved: seq<ResolvedDep>, ghost topo: seq<Name>): Tree
    requires TopologicalOrder(GraphOf(c), topo)
  {
    var deps := DepNames(root.deps);
    Tree(root.name, root.version, false,
         seq(|deps|, i requires 0 <= i < |deps| => BuildTreeNode(c, resolved, topo, deps[i])))
  }

  lemma {:induction false} ListedCoversPath(
    reg: Registry, deps: seq<Dep>, c: Catalog, done: seq<Name>, p: seq<Name>, n: Name)
    requires ChildrenFirst(GraphOf(c), done) && (forall d :: d in deps ==> d.name in done)
    requires PathFrom(c, deps, p, n)
    ensures n in done
    decreases |p|
  {
    if |p| == 1 {
      var i :| 0 <= i < |deps| && deps[i].name == n;
      assert deps[i] in deps;
    } else {
      var q := p[..|p| - 1];
      ListedCoversPath(reg, deps, c, done, q, q[|q| - 1]);
      assert Edge(GraphOf(c), p[|p| - 2], n);
      var k :| 0 <= k < |done| && done[k] == p[|p| - 2];
      assert n in done[..k];
    }
  }

  /** Lists everything below the root's direct dependencies. */
  method InstallAll(reg: Registry, deps: seq<Dep>, c: Catalog, ghost topo: seq<Name>)
    returns (resolved: seq<ResolvedDep>, ghost order: seq<Name>)
    requires CatalogExact(reg, deps, c) && TopologicalOrder(GraphOf(c), topo)
    ensures TopologicalOrder(GraphOf(c), order) && forall n :: n in order <==> n in c.nodes
    ensures resolved == AllEntries(reg, c, order)
  {
    hide FromEdge, Visited, Requests, GraphOf, TopologicalOrder, Closed, AllEntries;
    var installer := new Installer(reg, c, topo);
    ListedNothing(reg, c);
    for i := 0 to |deps|
      invariant installer.Valid() && installer.catalog == c && installer.topo == topo && installer.reg == reg
      invariant fresh(installer)
      invariant forall m :: m in installer.processed <==> m in installer.done
      invariant forall k :: 0 <= k < i ==> deps[k].name in installer.done
    {
      DirectlyReachable(c, deps, deps[i]);
      NodeIsOrdered(c, topo, deps[i].name);
      installer.AddResolved(deps[i].name);
    }
    resolved, order := installer.resolved, installer.done;
    OrderCoversNodes(reg, deps, c, order);
  }

  lemma ListedNothing(reg: Registry, c: Catalog)
    ensures Listed(reg, c, [], [])
  {
  }

  lemma NodeIsOrdered(c: Catalog, topo: seq<Name>, n: Name)
    requires TopologicalOrder(GraphOf(c), topo) && n in c.nodes
    ensures n in topo
  {
    assert n in GraphOf(c).adj;
  }

  /** The listing and the tree of an exact catalog, in a topological order of it. */
  ghost predicate ResolvesTo(reg: Registry, root: Manifest, v: ResolutionResult, c: Catalog, order: seq<Name>) {
    && CatalogExact(reg, root.deps, c)
    && TopologicalOrder(GraphOf(c), order) && (forall n :: n in order <==> n in c.nodes)
    && v.toInstall == AllEntries(reg, c, order)
    && v.tree == RootTree(root, c, v.toInstall, order)
  }

  ghost predicate ResolvesExactly(reg: Registry, root: Manifest, v: ResolutionResult) {
    exists c, order :: ResolvesTo(reg, root, v, c, order)
  }

  // ---- the result, read without its construction ----

  /** The node says what its edge `d` and the registry say. */
  ghost predicate NodeReads(reg: Registry, node: Node, d: Dep) {
    && node.name == d.name && node.source == d.source && node.requiredRange == d.version
    && reg.fetch(d.source).Some?
    && node.version == reg.fetch(d.source).value.version && node.deps == reg.fetch(d.source).value.deps
    && (node.alreadyInstalled <==>
          reg.installed(d.name).Some? && reg.satisfies(reg.installed(d.name).value, d.version))
  }

  ghost predicate NodesRead(reg: Registry, root: Manifest, c: Catalog) {
    forall n :: n in c.nodes ==>
      exists trail, d ::
        Traverses(reg, root.deps, {}, trail) && FirstNamed(trail, d) && d.name == n && NodeReads(reg, c.nodes[n], d)
  }

  function ChildNames(t: Tree): (names: seq<Name>)
    ensures |names| == |t.children| && forall i :: 0 <= i < |names| ==> names[i] == t.children[i].name
  {
    seq(|t.children|, i requires 0 <= i < |t.children| => t.children[i].name)
  }

  /** The list has an installed primary entry of that name. */
  ghost predicate InstalledEntry(list: seq<ResolvedDep>, n: Name) {
    exists e :: e in list && IsPrimary(e) && e.name == n && e.alreadyInstalled
  }

  /** The names on the way from the root of the tree are the root's and those of a path of dependencies. */
  ghost predicate PathsRead(root: Manifest, t: Tree, c: Catalog) {
    forall p :: (exists s :: LeadsTo(t, p, s)) <==>
      p != [] && p[0] == root.name && (|p| == 1 || exists n :: PathFrom(c, root.deps, p[1..], n))
  }

  /** The node at the end of a path shows the root, or the version found and whether it is installed; it has one child
      for each dependency, in order. */
  ghost predicate TreeNodeReads(root: Manifest, v: ResolutionResult, c: Catalog, p: seq<Name>, s: Tree)
    requires p != []
  {
    if |p| == 1 then
      s.name == root.name && s.version == root.version && !s.alreadyInstalled && ChildNames(s) == DepNames(root.deps)
    else
      var n := p[|p| - 1];
      && n in c.nodes
      && s.name == n && s.version == c.nodes[n].version
      && (s.alreadyInstalled <==> InstalledEntry(v.toInstall, n))
      && ChildNames(s) == DepNames(c.nodes[n].deps)
  }

  ghost predicate TreeReads(root: Manifest, v: ResolutionResult, c: Catalog) {
    && PathsRead(root, v.tree, c)
    && forall p, s :: LeadsTo(v.tree, p, s) ==> TreeNodeReads(root, v, c, p, s)
  }

  /** Joined, the ranges on edges into `n` that its version satisfies, each once and in the order requested; where
      that is no text and some range fails, the range first requested. */
  ghost predicate RangeReads(reg: Registry, root: Manifest, c: Catalog, n: Name, text: string)
    requires n in c.nodes && n in c.requests && c.requests[n] != []
  {
    exists rs ::
      && Distinct(rs) && FirstOrder(rs, c.requests[n])
      && (forall r :: r in rs <==> OnSomeEdge(c, root.deps, n, r) && reg.satisfies(c.nodes[n].version, r))
      && text ==
         if JoinComma(rs) == ""
            && (exists r :: OnSomeEdge(c, root.deps, n, r) && !reg.satisfies(c.nodes[n].version, r))
         then c.requests[n][0] else JoinComma(rs)
  }

  ghost predicate EntryReads(reg: Registry, root: Manifest, c: Catalog, e: ResolvedDep) {
    && e.name in c.nodes && e.source == c.nodes[e.name].source
    && e.name in c.requests && c.requests[e.name] != []
    && if IsPrimary(e) then
         && e.version == c.nodes[e.name].version && e.alreadyInstalled == c.nodes[e.name].alreadyInstalled
         && RangeReads(reg, root, c, e.name, e.requiredRange)
       else
         && e.version == StripCaret(e.requiredRange) && e.installId == e.name + "@" + e.version
         && !e.alreadyInstalled
  }

  /** Every reachable name has one primary entry, after those of its dependencies, and a scoped entry for each range
      that its version fails. */
  ghost predicate ListReads(reg: Registry, root: Manifest, list: seq<ResolvedDep>, c: Catalog) {
    var order := PrimaryNames(list);
    && Distinct(order) && (forall n :: n in order <==> Reachable(c, root.deps, n))
    && (forall k, d :: 0 <= k < |order| && Edge(GraphOf(c), order[k], d) ==> d in order[..k])
    && (forall n, r :: n in order ==>
          (r in ScopedRanges(list, n) <==>
             OnSomeEdge(c, root.deps, n, r) && n in c.nodes && !reg.satisfies(c.nodes[n].version, r)))
    && (forall n :: Distinct(ScopedRanges(list, n)))
    && forall e :: e in list ==> EntryReads(reg, root, c, e)
  }

  ghost predicate ResultReads(reg: Registry, root: Manifest, v: ResolutionResult, c: Catalog) {
    && CatalogExact(reg, root.deps, c) && NodesRead(reg, root, c)
    && TreeReads(root, v, c) && ListReads(reg, root, v.toInstall, c)
  }

  lemma ExactNodesRead(reg: Registry, root: Manifest, c: Catalog)
    requires CatalogExact(reg, root.deps, c)
    ensures NodesRead(reg, root, c)
  {
    hide CatalogExact, Traverses, FirstNamed, NewEdge;
    forall n | n in c.nodes
      ensures exists trail, d ::
        Traverses(reg, root.deps, {}, trail) && FirstNamed(trail, d) && d.name == n && NodeReads(reg, c.nodes[n], d)
    {
      NodesAreFirstEdges(reg, root.deps, c, n);
    }
  }

  lemma RootPath(root: Manifest, c: Catalog, resolved: seq<ResolvedDep>, topo: seq<Name>, p: seq<Name>, s: Tree)
    requires TopologicalOrder(GraphOf(c), topo)
    ensures LeadsTo(RootTree(root, c, resolved, topo), p, s) <==>
            && p != [] && p[0] == root.name
            && if |p| == 1 then s == RootTree(root, c, resolved, topo)
               else PathFrom(c, root.deps, p[1..], p[|p| - 1]) && s == BuildTreeNode(c, resolved, topo, p[|p| - 1])
  {
    hide GraphOf, TopologicalOrder, BuildTreeNode;
    var t, deps := RootTree(root, c, resolved, topo), DepNames(root.deps);
    if 1 < |p| && p[0] == root.name {
      var q := p[1..];
      forall i | 0 <= i < |deps|
        ensures LeadsTo(t.children[i], q, s) <==>
                q[0] == deps[i] && Walk(GraphOf(c), q) && s == BuildTreeNode(c, resolved, topo, q[|q| - 1])
      {
        TreeIsUnfolding(c, resolved, topo, deps[i], q, s);
      }
      if q[0] in deps {
        var i :| 0 <= i < |deps| && deps[i] == q[0];
        assert t.children[i] == BuildTreeNode(c, resolved, topo, deps[i]);
      }
    }
  }

  lemma PathEndsIn(reg: Registry, deps: seq<Dep>, c: Catalog, p: seq<Name>, n: Name)
    requires CatalogExact(reg, deps, c) && PathFrom(c, deps, p, n)
    ensures n in c.nodes
  {
    hide PathFrom, Closed, FromEdge, Visited;
    assert Reachable(c, deps, n);
  }

  lemma BuiltNode(c: Catalog, resolved: seq<ResolvedDep>, topo: seq<Name>, n: Name)
    requires TopologicalOrder(GraphOf(c), topo) && n in c.nodes
    ensures var s := BuildTreeNode(c, resolved, topo, n);
            && s.name == n && s.version == c.nodes[n].version && ChildNames(s) == DepNames(c.nodes[n].deps)
            && s.alreadyInstalled == (FindFirst(resolved, n).Some? && FindFirst(resolved, n).value.alreadyInstalled)
  {
    hide GraphOf, TopologicalOrder, FindFirst;
    var s, deps := BuildTreeNode(c, resolved, topo, n), DepsOf(c, n);
    forall i | 0 <= i < |deps| ensures ChildNames(s)[i] == deps[i] {
      BuiltName(c, resolved, topo, deps[i]);
      assert Edge(GraphOf(c), n, deps[i]) by { EdgeIsDep(c, n, deps[i]); }
      assert s.children[i] == BuildTreeNode(c, resolved, topo, deps[i]);
    }
    assert ChildNames(s) == deps;
  }

  lemma BuiltName(c: Catalog, resolved: seq<ResolvedDep>, topo: seq<Name>, n: Name)
    requires TopologicalOrder(GraphOf(c), topo)
    ensures BuildTreeNode(c, resolved, topo, n).name == n
  {
    hide GraphOf, TopologicalOrder, FindFirst;
  }

  lemma PrimaryInList(reg: Registry, c: Catalog, order: seq<Name>, n: Name)
    requires Distinct(order) && (forall m :: m in order ==> m in c.nodes) && n in order
    ensures InstalledEntry(AllEntries(reg, c, order), n) <==> c.nodes[n].alreadyInstalled
  {
    hide PrimaryRange, Unsatisfied, ScopedEntries;
    var list := AllEntries(reg, c, order);
    FindsPrimary(reg, c, order, n);
    FoundIsListed(list, n);
    assert IsPrimary(Primary(reg, c, n)) && Primary(reg, c, n) in list;
    forall e | e in list && IsPrimary(e) && e.name == n ensures e == Primary(reg, c, n) {
      ListedEntry(reg, c, order, e);
    }
  }

  lemma {:induction false} FoundIsListed(list: seq<ResolvedDep>, n: Name)
    ensures FindFirst(list, n).Some? ==> FindFirst(list, n).value in list
  {
    if list != [] && list[0].name != n { FoundIsListed(list[1..], n); }
  }

  /** An entry of the list is the primary of its name or the scoped entry of a range its version fails. */
  lemma {:induction false} ListedEntry(reg: Registry, c: Catalog, order: seq<Name>, e: ResolvedDep)
    requires (forall m :: m in order ==> m in c.nodes) && e in AllEntries(reg, c, order)
    ensures e.name in order && e.name in c.nodes
    ensures if IsPrimary(e) then e == Primary(reg, c, e.name) else e == ScopedEntry(c, e.name, e.requiredRange)
  {
    hide PrimaryRange, Unsatisfied, Primary, ScopedEntry;
    var init, last := order[..|order| - 1], order[|order| - 1];
    if e in AllEntries(reg, c, init) {
      ListedEntry(reg, c, init, e);
    } else {
      assert e in Entries(reg, c, last);
      EntryKinds(reg, c, last, e);
    }
  }

  lemma EntryKinds(reg: Registry, c: Catalog, n: Name, e: ResolvedDep)
    requires n in c.nodes && e in Entries(reg, c, n)
    ensures e.name == n
    ensures if IsPrimary(e) then e == Primary(reg, c, n) else e == ScopedEntry(c, n, e.requiredRange)
  {
    hide PrimaryRange, Unsatisfied;
    if e != Primary(reg, c, n) {
      var ranges := Unsatisfied(reg, c, n);
      var i :| 0 <= i < |ranges| && ScopedEntries(c, n, ranges)[i] == e;
      ScopedIsNotPrimary(c, n, ranges[i]);
    }
  }

  lemma TreeIsRead(reg: Registry, root: Manifest, v: ResolutionResult, c: Catalog, order: seq<Name>)
    requires ResolvesTo(reg, root, v, c, order)
    ensures TreeReads(root, v, c)
  {
    hide GraphOf, TopologicalOrder, BuildTreeNode, CatalogExact, AllEntries, InstalledEntry, PathFrom, LeadsTo;
    forall p, s | LeadsTo(v.tree, p, s) ensures p != [] && TreeNodeReads(root, v, c, p, s) {
      RootPath(root, c, v.toInstall, order, p, s);
      if |p| == 1 {
        RootChildren(root, c, v.toInstall, order);
      } else {
        var n := p[|p| - 1];
        PathEndsIn(reg, root.deps, c, p[1..], n);
        BuiltNode(c, v.toInstall, order, n);
        OrderedNames(c, order);
        FindsPrimary(reg, c, order, n);
        PrimaryInList(reg, c, order, n);
      }
    }
    forall p
      ensures (exists s :: LeadsTo(v.tree, p, s)) <==>
              p != [] && p[0] == root.name && (|p| == 1 || exists n :: PathFrom(c, root.deps, p[1..], n))
    {
      RootPathExists(root, c, v, order, p);
    }
  }

  lemma OrderedNames(c: Catalog, order: seq<Name>)
    requires TopologicalOrder(GraphOf(c), order)
    ensures Distinct(order)
  {
  }

  lemma RootChildren(root: Manifest, c: Catalog, resolved: seq<ResolvedDep>, topo: seq<Name>)
    requires TopologicalOrder(GraphOf(c), topo)
    ensures ChildNames(RootTree(root, c, resolved, topo)) == DepNames(root.deps)
  {
    hide GraphOf, TopologicalOrder, BuildTreeNode;
    var t, deps := RootTree(root, c, resolved, topo), DepNames(root.deps);
    forall i | 0 <= i < |deps| ensures ChildNames(t)[i] == deps[i] {
      BuiltName(c, resolved, topo, deps[i]);
    }
    assert ChildNames(t) == deps;
  }

  lemma RootPathExists(root: Manifest, c: Catalog, v: ResolutionResult, order: seq<Name>, p: seq<Name>)
    requires TopologicalOrder(GraphOf(c), order) && v.tree == RootTree(root, c, v.toInstall, order)
    ensures (exists s :: LeadsTo(v.tree, p, s)) <==>
            p != [] && p[0] == root.name && (|p| == 1 || exists n :: PathFrom(c, root.deps, p[1..], n))
  {
    hide GraphOf, TopologicalOrder, BuildTreeNode, RootTree, LeadsTo;
    if s :| LeadsTo(v.tree, p, s) {
      RootPath(root, c, v.toInstall, order, p, s);
    }
    if p != [] && p[0] == root.name && |p| == 1 {
      RootPath(root, c, v.toInstall, order, p, v.tree);
    }
    if p != [] && p[0] == root.name && exists n :: PathFrom(c, root.deps, p[1..], n) {
      RootPath(root, c, v.toInstall, order, p, BuildTreeNode(c, v.toInstall, order, p[|p| - 1]));
    }
  }

  lemma ListIsRead(reg: Registry, root: Manifest, v: ResolutionResult, c: Catalog, order: seq<Name>)
    requires ResolvesTo(reg, root, v, c, order)
    ensures ListReads(reg, root, v.toInstall, c)
  {
    hide GraphOf, CatalogExact, AllEntries, PrimaryNames, ScopedRanges, OnSomeEdge, Reachable, Edge, EntryReads;
    InstallListExact(reg, root.deps, c, order);
    forall e | e in v.toInstall ensures EntryReads(reg, root, c, e) {
      ListedEntry(reg, c, order, e);
      EntryIsRead(reg, root, c, e);
    }
  }

  lemma EntryIsRead(reg: Registry, root: Manifest, c: Catalog, e: ResolvedDep)
    requires CatalogExact(reg, root.deps, c) && e.name in c.nodes
    requires if IsPrimary(e) then e == Primary(reg, c, e.name) else e == ScopedEntry(c, e.name, e.requiredRange)
    ensures EntryReads(reg, root, c, e)
  {
    hide PrimaryRange, OnSomeEdge, JoinComma, FirstOrder;
    var n := e.name;
    RequestsAreEdges(reg, root.deps, c, n);
    hide CatalogExact;
    if IsPrimary(e) { PrimaryRangeIs(reg, c, n); }
  }

  lemma RequestsAreEdges(reg: Registry, deps: seq<Dep>, c: Catalog, n: Name)
    requires CatalogExact(reg, deps, c) && n in c.nodes
    ensures n in c.requests && c.requests[n] != []
    ensures forall r :: r in c.requests[n] <==> OnSomeEdge(c, deps, n, r)
  {
    hide FromEdge, Visited, Closed, Reachable;
    var s := SomeEdgeInto(reg, deps, c, n);
    assert Requested(c, n, s);
    forall r ensures r in c.requests[n] <==> OnSomeEdge(c, deps, n, r) {
      assert Requested(c, n, r) <==> OnSomeEdge(c, deps, n, r);
    }
  }

  ghost predicate RealCycle(reg: Registry, root: Manifest, path: seq<Name>) {
    exists c :: CatalogExact(reg, root.deps, c) && Cycle(GraphOf(c), path)
  }

  /** On success the result lists and unfolds the exact catalog; a reported cycle is a closed walk of real
      dependency edges; a failed fetch is one that some chain of dependencies leads to. */
  method ResolveDependencies(root: Manifest, reg: Registry, ghost universe: set<Name>)
    returns (r: Result<ResolutionResult, ResolveError>)
    requires Within(reg, universe) && forall d :: d in root.deps ==> d.name in universe
    ensures r.Ok? ==> ResolvesExactly(reg, root, r.value) && exists c :: ResultReads(reg, root, r.value, c)
    ensures r.Err? && r.error.Circular? ==> RealCycle(reg, root, r.error.path)
    ensures r.Err? && r.error.FetchFailed? ==> Unfetchable(reg, root.deps)
  {
    hide FromEdge, Visited, Requests, Reachable, TopologicalOrder, Closed, RootTree, AllEntries, Collected, Acyclic,
         Unfetchable, ResultReads;
    var collector := new Collector(reg, universe);
    var ok;
    ghost var trail;
    ok, trail := collector.CollectDeps(root.deps);
    if !ok { return Err(FetchFailed); }
    ghost var c := collector.catalog;
    CollectedIsExact(reg, root.deps, c, trail);
    var graph := GraphOf(collector.catalog);
    assert ValidGraph(graph);
    var cycle;
    ghost var topo;
    cycle, topo := DetectCycles(graph);
    if cycle.Some? { return Err(Circular(cycle.value)); }
    var resolved;
    ghost var order;
    resolved, order := InstallAll(reg, root.deps, collector.catalog, topo);
    SameUnfolding(root, c, resolved, topo, order);
    r := Ok(ResolutionResult(resolved, RootTree(root, collector.catalog, resolved, topo)));
    assert ResolvesTo(reg, root, r.value, c, order);
    ResultIsRead(reg, root, r.value, c, order);
  }

  lemma ResultIsRead(reg: Registry, root: Manifest, v: ResolutionResult, c: Catalog, order: seq<Name>)
    requires ResolvesTo(reg, root, v, c, order)
    ensures ResultReads(reg, root, v, c)
  {
    TreeIsRead(reg, root, v, c, order);
    ListIsRead(reg, root, v, c, order);
    ExactNodesRead(reg, root, c);
    hide *;
  }

  lemma OrderCoversNodes(reg: Registry, deps: seq<Dep>, c: Catalog, order: seq<Name>)
    requires CatalogExact(reg, deps, c) && DepsFirst(c, order) && (forall n :: n in order ==> n in c.nodes)
    requires forall k :: 0 <= k < |deps| ==> deps[k].name in order
    ensures TopologicalOrder(GraphOf(c), order) && forall n :: n in order <==> n in c.nodes
  {
    hide FromEdge, Visited, Closed;
    forall n | n in c.nodes ensures n in order {
      var p :| PathFrom(c, deps, p, n);
      ListedCoversPath(reg, deps, c, order, p, n);
    }
  }

  /** The tree does not depend on which topological order bounds the recursion. */
  lemma {:induction false} SameTree(c: Catalog, resolved: seq<ResolvedDep>, a: seq<Name>, b: seq<Name>, name: Name)
    requires TopologicalOrder(GraphOf(c), a) && TopologicalOrder(GraphOf(c), b)
    ensures BuildTreeNode(c, resolved, a, name) == BuildTreeNode(c, resolved, b, name)
    decreases if name in a then IndexOf(a, name) + 1 else 0
  {
    hide GraphOf, TopologicalOrder;
    var deps := DepsOf(c, name);
    forall i | 0 <= i < |deps|
      ensures BuildTreeNode(c, resolved, a, deps[i]) == BuildTreeNode(c, resolved, b, deps[i])
    {
      EdgeIsDep(c, name, deps[i]);
      EdgeDescends(GraphOf(c), a, name, deps[i]);
      SameTree(c, resolved, a, b, deps[i]);
    }
    assert BuildTreeNode(c, resolved, a, name).children == BuildTreeNode(c, resolved, b, name).children;
  }

  lemma SameUnfolding(root: Manifest, c: Catalog, resolved: seq<ResolvedDep>, a: seq<Name>, b: seq<Name>)
    requires TopologicalOrder(GraphOf(c), a) && TopologicalOrder(GraphOf(c), b)
    ensures RootTree(root, c, resolved, a) == RootTree(root, c, resolved, b)
  {
    hide GraphOf, TopologicalOrder, BuildTreeNode;
    var deps := DepNames(root.deps);
    forall i | 0 <= i < |deps| { SameTree(c, resolved, a, b, deps[i]); }
    assert RootTree(root, c, resolved, a).children == RootTree(root, c, resolved, b).children;
  }

  /** What a successful resolution lists: every reachable dependency as one primary entry, after the
      primaries of its own dependencies, and one scoped entry for every range on an edge into it that the
      fetched version fails. */
  lemma InstallListExact(reg: Registry, deps: seq<Dep>, c: Catalog, order: seq<Name>)
    requires CatalogExact(reg, deps, c) && TopologicalOrder(GraphOf(c), order)
    requires forall n :: n in order <==> n in c.nodes
    ensures PrimaryNames(AllEntries(reg, c, order)) == order
    ensures forall n :: n in order <==> Reachable(c, deps, n)
    ensures forall k, d :: 0 <= k < |order| && Edge(GraphOf(c), order[k], d) ==> d in order[..k]
    ensures forall n, r :: n in order ==>
              (r in ScopedRanges(AllEntries(reg, c, order), n)
               <==> OnSomeEdge(c, deps, n, r) && !reg.satisfies(c.nodes[n].version, r))
    ensures forall n :: Distinct(ScopedRanges(AllEntries(reg, c, order), n))
  {
    hide FromEdge, Visited, Requests, Closed, AllEntries, PrimaryNames, ScopedRanges, RangesOf, OnSomeEdge, Reachable;
    AllEntriesRead(reg, c, order, "");
    forall n ensures Distinct(ScopedRanges(AllEntries(reg, c, order), n)) {
      AllEntriesRead(reg, c, order, n);
    }
    forall n, r | n in order
      ensures r in ScopedRanges(AllEntries(reg, c, order), n)
              <==> OnSomeEdge(c, deps, n, r) && !reg.satisfies(c.nodes[n].version, r)
    {
      AllEntriesRead(reg, c, order, n);
      RangesAreEdges(reg, deps, c, n, r);
    }
  }
}

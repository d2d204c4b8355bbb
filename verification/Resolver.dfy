/** Collection and ordering of src/extensions/dependency-resolver.ts. */
module Resolver {
  import opened Wrappers
  import opened CycleDetection

  datatype Dep = Dep(name: Name, source: string, version: string)

  /** A dependency record keeps its insertion order; its keys are distinct. */
  datatype Manifest = Manifest(name: Name, version: string, deps: seq<Dep>)

  datatype Node = Node(
    name: Name, version: string, source: string, requiredRange: string, deps: seq<Dep>, alreadyInstalled: bool)

  /** The injected callbacks. `fetch` is None where the original rejects. */
  datatype Registry = Registry(
    fetch: string -> Option<Manifest>, installed: Name -> Option<string>, satisfies: (string, string) -> bool)

  function DepNames(deps: seq<Dep>): (names: seq<Name>)
    ensures |names| == |deps| && forall i :: 0 <= i < |deps| ==> names[i] == deps[i].name
  {
    seq(|deps|, i requires 0 <= i < |deps| => deps[i].name)
  }

  /** Finitely many names can be reached, so collection ends. */
  ghost predicate Within(reg: Registry, universe: set<Name>) {
    forall s, d :: reg.fetch(s).Some? && d in reg.fetch(s).value.deps ==> d.name in universe
  }

  /** Some chain of dependencies from `deps`, fewer than `n` fetches long, ends at a source that cannot be fetched. */
  ghost predicate UnfetchableWithin(reg: Registry, deps: seq<Dep>, n: nat)
    decreases n, 1
  {
    n > 0 && exists d :: d in deps && FetchFails(reg, d, n)
  }

  ghost predicate FetchFails(reg: Registry, d: Dep, n: nat)
    requires n > 0
    decreases n, 0
  {
    reg.fetch(d.source).None? || UnfetchableWithin(reg, reg.fetch(d.source).value.deps, n - 1)
  }

  ghost predicate Unfetchable(reg: Registry, deps: seq<Dep>) { exists n: nat :: UnfetchableWithin(reg, deps, n) }

  lemma UnfetchableHere(reg: Registry, deps: seq<Dep>, d: Dep)
    requires d in deps && (reg.fetch(d.source).None? || Unfetchable(reg, reg.fetch(d.source).value.deps))
    ensures Unfetchable(reg, deps)
  {
    if reg.fetch(d.source).None? {
      assert FetchFails(reg, d, 1);
      assert UnfetchableWithin(reg, deps, 1);
    } else {
      var n: nat :| UnfetchableWithin(reg, reg.fetch(d.source).value.deps, n);
      assert FetchFails(reg, d, n + 1);
      assert UnfetchableWithin(reg, deps, n + 1);
    }
  }

  // ---- what collection computes ----

  /** The Maps `nodes` (with its insertion order) and `rangeRequests`. */
  datatype Catalog = Catalog(nodes: map<Name, Node>, keys: seq<Name>, requests: map<Name, seq<string>>)

  function GraphOf(c: Catalog): (g: Graph) {
    Graph(c.keys, map k | k in c.nodes :: DepNames(c.nodes[k].deps))
  }

  predicate Requested(c: Catalog, n: Name, r: string) { n in c.requests && r in c.requests[n] }

  ghost predicate Requests(deps: seq<Dep>, n: Name, r: string) {
    exists d :: d in deps && d.name == n && d.version == r
  }

  /** Some node of `b` that `a` lacks has the edge. */
  ghost predicate NewRequests(a: Catalog, b: Catalog, n: Name, r: string) {
    exists k :: k in b.nodes && k !in a.nodes && Requests(b.nodes[k].deps, n, r)
  }

  /** The node an edge makes: fetched from the edge's source, for the edge's range. */
  function NodeOf(reg: Registry, d: Dep): Node
    requires reg.fetch(d.source).Some?
  {
    var manifest, installed := reg.fetch(d.source).value, reg.installed(d.name);
    Node(d.name, manifest.version, d.source, d.version, manifest.deps,
         installed.Some? && reg.satisfies(installed.value, d.version))
  }

  /** The node is the one its edge `d` makes. */
  ghost predicate Genuine(reg: Registry, node: Node, d: Dep) {
    reg.fetch(d.source).Some? && node == NodeOf(reg, d)
  }

  /** An edge from the listed dependencies, or from a node of `b` that `a` lacks. */
  ghost predicate NewEdge(a: Catalog, b: Catalog, deps: seq<Dep>, d: Dep) {
    d in deps || exists k :: k in b.nodes && k !in a.nodes && d in b.nodes[k].deps
  }

  /** The node under `n` is the one that some edge into `n` makes. */
  ghost predicate FromEdge(reg: Registry, a: Catalog, b: Catalog, deps: seq<Dep>, n: Name)
    requires n in b.nodes
  {
    exists d :: NewEdge(a, b, deps, d) && d.name == n && Genuine(reg, b.nodes[n], d)
  }

  /** A path of dependency edges, the first name taken from `deps`. */
  ghost predicate PathFrom(c: Catalog, deps: seq<Dep>, p: seq<Name>, n: Name) {
    && p != [] && p[|p| - 1] == n
    && p[0] in DepNames(deps)
    && Walk(GraphOf(c), p)
  }

  ghost predicate Reachable(c: Catalog, deps: seq<Dep>, n: Name) {
    exists p :: PathFrom(c, deps, p, n)
  }

  ghost predicate KeysOk(c: Catalog) {
    forall k :: k in c.keys <==> k in c.nodes
  }

  ghost predicate Extends(a: Catalog, b: Catalog) {
    forall k :: k in a.nodes ==> k in b.nodes && b.nodes[k] == a.nodes[k]
  }

  /** `b` is `a` with everything below `deps` collected. */
  ghost predicate Collected(reg: Registry, a: Catalog, deps: seq<Dep>, b: Catalog) {
    && KeysOk(b) && Extends(a, b)
    && (forall d :: d in deps ==> d.name in b.nodes)
    && (forall k, d :: k in b.nodes && k !in a.nodes && d in b.nodes[k].deps ==> d.name in b.nodes)
    && (forall k :: k in b.nodes && k !in a.nodes ==> FromEdge(reg, a, b, deps, k) && Reachable(b, deps, k))
    && (forall n, r :: Requested(b, n, r) <==> Requested(a, n, r) || Requests(deps, n, r) || NewRequests(a, b, n, r))
  }

  function WithRequest(c: Catalog, d: Dep): Catalog {
    c.(requests := c.requests[d.name := (if d.name in c.requests then c.requests[d.name] else []) + [d.version]])
  }

  function WithNode(c: Catalog, n: Name, node: Node): Catalog {
    c.(nodes := c.nodes[n := node], keys := c.keys + [n])
  }

  // ---- reachability is kept as the catalog grows ----

  lemma EdgeKept(a: Catalog, b: Catalog, x: Name, y: Name)
    requires Extends(a, b) && Edge(GraphOf(a), x, y)
    ensures Edge(GraphOf(b), x, y)
  {
  }

  lemma ReachableKept(a: Catalog, b: Catalog, deps: seq<Dep>, more: seq<Dep>, n: Name)
    requires Extends(a, b) && Reachable(a, deps, n)
    requires forall d :: d in deps ==> d in more
    ensures Reachable(b, more, n)
  {
    hide GraphOf;
    var p :| PathFrom(a, deps, p, n);
    forall i | 0 < i < |p| ensures Edge(GraphOf(b), p[i - 1], p[i]) {
      EdgeKept(a, b, p[i - 1], p[i]);
    }
    NameOf(deps, more, p[0]);
    assert PathFrom(b, more, p, n);
  }

  lemma NameOf(deps: seq<Dep>, more: seq<Dep>, n: Name)
    requires n in DepNames(deps) && forall d :: d in deps ==> d in more
    ensures n in DepNames(more)
  {
    var i :| 0 <= i < |deps| && deps[i].name == n;
    var d := deps[i];
    assert d in more;
    var j :| 0 <= j < |more| && more[j] == d;
    assert DepNames(more)[j] == n;
  }

  lemma ReachableBelow(c: Catalog, d: Dep, deps: seq<Dep>, n: Name)
    requires d in deps && d.name in c.nodes && Reachable(c, c.nodes[d.name].deps, n)
    ensures Reachable(c, deps, n)
  {
    var p :| PathFrom(c, c.nodes[d.name].deps, p, n);
    var q := [d.name] + p;
    assert Edge(GraphOf(c), d.name, p[0]);
    forall i | 0 < i < |q| ensures Edge(GraphOf(c), q[i - 1], q[i]) {
      if 1 < i { assert q[i - 1] == p[i - 2] && q[i] == p[i - 1]; }
    }
    assert PathFrom(c, deps, q, n) by { DirectName(deps, d); }
  }

  lemma DirectName(deps: seq<Dep>, d: Dep)
    requires d in deps
    ensures d.name in DepNames(deps)
  {
    var i :| 0 <= i < |deps| && deps[i] == d;
    assert DepNames(deps)[i] == d.name;
  }

  lemma DirectlyReachable(c: Catalog, deps: seq<Dep>, d: Dep)
    requires d in deps
    ensures Reachable(c, deps, d.name)
  {
    DirectName(deps, d);
    assert PathFrom(c, deps, [d.name], d.name);
  }

  /** An edge stays one while the dependency list and the new part of the catalog grow. */
  lemma FromEdgeKept(
    reg: Registry, a: Catalog, b: Catalog, deps: seq<Dep>, a': Catalog, b': Catalog, more: seq<Dep>, n: Name)
    requires n in b.nodes && FromEdge(reg, a, b, deps, n) && Extends(b, b')
    requires forall k :: k in b.nodes && k !in a.nodes ==> k !in a'.nodes
    requires forall d :: d in deps ==> NewEdge(a', b', more, d)
    ensures FromEdge(reg, a', b', more, n)
  {
    hide Genuine;
    var d :| NewEdge(a, b, deps, d) && d.name == n && Genuine(reg, b.nodes[n], d);
    assert NewEdge(a', b', more, d);
  }

  // ---- one step of the collection loop ----

  lemma CollectedNothing(reg: Registry, c: Catalog)
    requires KeysOk(c)
    ensures Collected(reg, c, [], c)
  {
  }

  lemma RequestAdded(c: Catalog, d: Dep, n: Name, r: string)
    ensures Requested(WithRequest(c, d), n, r) <==> Requested(c, n, r) || (d.name == n && d.version == r)
  {
  }

  lemma RequestsStep(deps: seq<Dep>, d: Dep, n: Name, r: string)
    ensures Requests(deps + [d], n, r) <==> Requests(deps, n, r) || (d.name == n && d.version == r)
  {
    if d.name == n && d.version == r { assert d in deps + [d]; }
    if e :| e in deps && e.name == n && e.version == r { assert e in deps + [d]; }
  }

  lemma CollectedKnown(reg: Registry, a: Catalog, deps: seq<Dep>, b: Catalog, d: Dep)
    requires Collected(reg, a, deps, b) && d.name in b.nodes
    ensures Collected(reg, a, deps + [d], WithRequest(b, d))
  {
    hide Genuine, Reachable;
    var c := WithRequest(b, d);
    forall k | k in c.nodes && k !in a.nodes
      ensures Reachable(c, deps + [d], k) && FromEdge(reg, a, c, deps + [d], k)
    {
      ReachableKept(b, c, deps, deps + [d], k);
      FromEdgeKept(reg, a, b, deps, a, c, deps + [d], k);
    }
    forall n, r
      ensures Requested(c, n, r) <==> Requested(a, n, r) || Requests(deps + [d], n, r) || NewRequests(a, c, n, r)
    {
      RequestAdded(b, d, n, r);
      RequestsStep(deps, d, n, r);
      assert NewRequests(a, c, n, r) <==> NewRequests(a, b, n, r);
    }
  }

  lemma CollectedNew(reg: Registry, a: Catalog, deps: seq<Dep>, b: Catalog, d: Dep, node: Node, e: Catalog)
    requires KeysOk(a) && Collected(reg, a, deps, b) && d.name !in b.nodes && Genuine(reg, node, d)
    requires Collected(reg, WithNode(WithRequest(b, d), d.name, node), node.deps, e)
    ensures Collected(reg, a, deps + [d], e)
  {
    hide Genuine, Reachable, Requests, FromEdge;
    var c := WithNode(WithRequest(b, d), d.name, node);
    assert Extends(b, c) && Extends(c, e);
    assert d.name in c.nodes && c.nodes[d.name] == node;
    forall k | k in e.nodes && k !in a.nodes
      ensures Reachable(e, deps + [d], k) && FromEdge(reg, a, e, deps + [d], k)
    {
      if k in b.nodes {
        ReachableKept(b, e, deps, deps + [d], k);
        FromEdgeKept(reg, a, b, deps, a, e, deps + [d], k);
      } else if k == d.name {
        DirectlyReachable(e, deps + [d], d);
        FromOwnEdge(reg, a, e, deps + [d], d);
      } else {
        ReachableBelow(e, d, deps + [d], k);
        assert forall x :: x in node.deps ==> NewEdge(a, e, deps + [d], x) by {
          assert d.name in e.nodes && d.name !in a.nodes && e.nodes[d.name] == node;
        }
        FromEdgeKept(reg, c, e, node.deps, a, e, deps + [d], k);
      }
    }
    forall n, r
      ensures Requested(e, n, r) <==> Requested(a, n, r) || Requests(deps + [d], n, r) || NewRequests(a, e, n, r)
    {
      CollectedNewRequests(reg, a, deps, b, d, node, e, n, r);
    }
    assert forall x :: x in deps + [d] ==> x.name in e.nodes;
  }

  lemma FromOwnEdge(reg: Registry, a: Catalog, b: Catalog, deps: seq<Dep>, d: Dep)
    requires d in deps && d.name in b.nodes && Genuine(reg, b.nodes[d.name], d)
    ensures FromEdge(reg, a, b, deps, d.name)
  {
    assert NewEdge(a, b, deps, d);
  }

  lemma CollectedNewRequests(
      reg: Registry, a: Catalog, deps: seq<Dep>, b: Catalog, d: Dep, node: Node, e: Catalog, n: Name, r: string)
    requires Collected(reg, a, deps, b) && d.name !in b.nodes
    requires Collected(reg, WithNode(WithRequest(b, d), d.name, node), node.deps, e)
    ensures Requested(e, n, r) <==> Requested(a, n, r) || Requests(deps + [d], n, r) || NewRequests(a, e, n, r)
  {
    hide Genuine, Reachable, Requests, KeysOk;
    var c := WithNode(WithRequest(b, d), d.name, node);
    RequestAdded(b, d, n, r);
    RequestsStep(deps, d, n, r);
    assert Requested(c, n, r) <==> Requested(WithRequest(b, d), n, r);
    assert e.nodes[d.name] == node by { assert c.nodes[d.name] == node; }
    assert NewRequests(a, e, n, r) <==>
           NewRequests(a, b, n, r) || Requests(node.deps, n, r) || NewRequests(c, e, n, r) by {
      if NewRequests(a, e, n, r) {
        var k :| k in e.nodes && k !in a.nodes && Requests(e.nodes[k].deps, n, r);
        if k in b.nodes { assert e.nodes[k] == c.nodes[k] == b.nodes[k]; }
      }
      if NewRequests(a, b, n, r) {
        var k :| k in b.nodes && k !in a.nodes && Requests(b.nodes[k].deps, n, r);
        assert e.nodes[k] == c.nodes[k] == b.nodes[k];
      }
      if NewRequests(c, e, n, r) {
        var k :| k in e.nodes && k !in c.nodes && Requests(e.nodes[k].deps, n, r);
      }
    }
  }

  // ---- the visiting order ----

  ghost function NamesIn(trail: seq<Dep>): set<Name> { set d | d in trail :: d.name }

  /** `trail` lists the edges in the order a depth-first visit of `deps` meets them, when the names `known` are
      there already: a new name is fetched, and what it depends on is visited before the next edge. */
  ghost predicate Traverses(reg: Registry, deps: seq<Dep>, known: set<Name>, trail: seq<Dep>)
    decreases |trail|
  {
    if deps == [] then trail == []
    else exists k: nat :: k < |trail| && TraversesAt(reg, deps, known, trail, k)
  }

  /** The last of `deps` is met at position `k`. */
  ghost predicate TraversesAt(reg: Registry, deps: seq<Dep>, known: set<Name>, trail: seq<Dep>, k: nat)
    requires deps != [] && k < |trail|
    decreases |trail|, 0
  {
    var d, seen := deps[|deps| - 1], known + NamesIn(trail[..k]);
    && Traverses(reg, deps[..|deps| - 1], known, trail[..k])
    && trail[k] == d
    && (if d.name in seen then |trail| == k + 1
        else reg.fetch(d.source).Some?
             && Traverses(reg, reg.fetch(d.source).value.deps, seen + {d.name}, trail[k + 1..]))
  }

  lemma TraversalLast(reg: Registry, deps: seq<Dep>, known: set<Name>, trail: seq<Dep>) returns (k: nat)
    requires Traverses(reg, deps, known, trail) && deps != []
    ensures k < |trail|
    ensures Traverses(reg, deps[..|deps| - 1], known, trail[..k]) && trail[k] == deps[|deps| - 1]
    ensures trail[k].name in known + NamesIn(trail[..k]) ==> trail[k + 1..] == []
    ensures trail[k].name !in known + NamesIn(trail[..k]) ==>
              && reg.fetch(trail[k].source).Some?
              && Traverses(reg, reg.fetch(trail[k].source).value.deps,
                           known + NamesIn(trail[..k]) + {trail[k].name}, trail[k + 1..])
  {
    k :| k < |trail| && TraversesAt(reg, deps, known, trail, k);
  }

  lemma TraversalNone(reg: Registry, known: set<Name>, trail: seq<Dep>)
    requires Traverses(reg, [], known, trail)
    ensures trail == []
  {
  }

  /** There is only one visiting order. */
  lemma {:induction false} TraversalUnique(reg: Registry, deps: seq<Dep>, known: set<Name>, s: seq<Dep>, t: seq<Dep>)
    requires Traverses(reg, deps, known, s) && Traverses(reg, deps, known, t)
    ensures s == t
    decreases |s|
  {
    hide *;
    if deps == [] {
      TraversalNone(reg, known, s);
      TraversalNone(reg, known, t);
    } else {
      var j := TraversalLast(reg, deps, known, s);
      var k := TraversalLast(reg, deps, known, t);
      TraversalUnique(reg, deps[..|deps| - 1], known, s[..j], t[..k]);
      var d, seen := deps[|deps| - 1], known + NamesIn(s[..j]);
      if d.name !in seen {
        TraversalUnique(reg, reg.fetch(d.source).value.deps, seen + {d.name}, s[j + 1..], t[k + 1..]);
      }
      assert s == s[..j] + [s[j]] + s[j + 1..] && t == t[..k] + [t[k]] + t[k + 1..];
    }
  }

  /** What meeting one edge records: its range, and the node if the name is new. */
  function Record(reg: Registry, c: Catalog, d: Dep): Catalog {
    if d.name in c.nodes || reg.fetch(d.source).None? then WithRequest(c, d)
    else WithNode(WithRequest(c, d), d.name, NodeOf(reg, d))
  }

  function RecordAll(reg: Registry, c: Catalog, trail: seq<Dep>): Catalog {
    if trail == [] then c else Record(reg, RecordAll(reg, c, trail[..|trail| - 1]), trail[|trail| - 1])
  }

  lemma {:induction false} RecordJoin(reg: Registry, c: Catalog, s: seq<Dep>, t: seq<Dep>)
    ensures RecordAll(reg, c, s + t) == RecordAll(reg, RecordAll(reg, c, s), t)
    decreases |t|
  {
    if t == [] {
      assert s + t == s;
    } else {
      var init, last := t[..|t| - 1], t[|t| - 1];
      RecordJoin(reg, c, s, init);
      assert (s + t)[..|s + t| - 1] == s + init;
    }
  }

  /** `d` is the first edge into its name on the trail. */
  ghost predicate FirstNamed(trail: seq<Dep>, d: Dep) {
    exists i :: 0 <= i < |trail| && trail[i] == d && forall j :: 0 <= j < i ==> trail[j].name != d.name
  }

  ghost predicate FromFirst(reg: Registry, c: Catalog, trail: seq<Dep>, n: Name)
    requires n in c.nodes
  {
    exists d :: FirstNamed(trail, d) && d.name == n && Genuine(reg, c.nodes[n], d)
  }

  lemma {:induction false} RecordKeeps(reg: Registry, c: Catalog, trail: seq<Dep>)
    ensures Extends(c, RecordAll(reg, c, trail))
  {
    hide NodeOf;
    if trail != [] { RecordKeeps(reg, c, trail[..|trail| - 1]); }
  }

  lemma FirstLater(s: seq<Dep>, t: seq<Dep>, d: Dep)
    ensures FirstNamed(s, d) ==> FirstNamed(s + t, d)
    ensures FirstNamed(t, d) && d.name !in NamesIn(s) ==> FirstNamed(s + t, d)
  {
    if i :| 0 <= i < |s| && s[i] == d && forall j :: 0 <= j < i ==> s[j].name != d.name {
      assert (s + t)[i] == d;
    }
    if d.name !in NamesIn(s) {
      if i :| 0 <= i < |t| && t[i] == d && forall j :: 0 <= j < i ==> t[j].name != d.name {
        assert (s + t)[|s| + i] == d;
        forall j | 0 <= j < |s| + i ensures (s + t)[j].name != d.name {
          if j < |s| { assert s[j] in s; } else { assert (s + t)[j] == t[j - |s|]; }
        }
      }
    }
  }

  lemma NamesJoin(s: seq<Dep>, d: Dep, t: seq<Dep>)
    ensures NamesIn(s + [d] + t) == NamesIn(s) + {d.name} + NamesIn(t)
  {
    var all := s + [d] + t;
    forall n | n in NamesIn(s) + {d.name} + NamesIn(t) ensures n in NamesIn(all) {
      if n == d.name { assert d in all; }
      if e :| e in s && e.name == n { assert e in all; }
      if e :| e in t && e.name == n { assert e in all; }
    }
  }

  lemma RecordOne(reg: Registry, b: Catalog, d: Dep)
    ensures RecordAll(reg, b, [d]) == Record(reg, b, d) && Extends(b, Record(reg, b, d))
    ensures d.name !in b.nodes && reg.fetch(d.source).Some? ==>
              d.name in Record(reg, b, d).nodes && Genuine(reg, Record(reg, b, d).nodes[d.name], d)
    ensures d.name in b.nodes || reg.fetch(d.source).Some? ==> Record(reg, b, d).nodes.Keys == b.nodes.Keys + {d.name}
  {
    assert [d][..0] == [];
  }

  lemma FirstBefore(reg: Registry, b: Catalog, e: Catalog, s: seq<Dep>, t: seq<Dep>, n: Name)
    requires Extends(b, e) && n in b.nodes && FromFirst(reg, b, s, n)
    ensures n in e.nodes && FromFirst(reg, e, s + t, n)
  {
    hide Genuine, FirstNamed;
    var x :| FirstNamed(s, x) && x.name == n && Genuine(reg, b.nodes[n], x);
    FirstLater(s, t, x);
  }

  lemma FirstAfter(reg: Registry, e: Catalog, s: seq<Dep>, t: seq<Dep>, n: Name)
    requires n in e.nodes && FromFirst(reg, e, t, n) && n !in NamesIn(s)
    ensures FromFirst(reg, e, s + t, n)
  {
    hide Genuine, FirstNamed, NamesIn;
    var x :| FirstNamed(t, x) && x.name == n && Genuine(reg, e.nodes[n], x);
    FirstLater(s, t, x);
  }

  lemma FirstHere(reg: Registry, c: Catalog, d: Dep)
    requires d.name in c.nodes && Genuine(reg, c.nodes[d.name], d)
    ensures FromFirst(reg, c, [d], d.name)
  {
    assert [d][0] == d;
    assert FirstNamed([d], d);
  }

  /** One edge and what is visited below it. */
  lemma VisitFirst(
    reg: Registry, a: Catalog, b: Catalog, c: Catalog, e: Catalog, s: seq<Dep>, d: Dep, t: seq<Dep>, n: Name)
    requires Extends(b, c) && Extends(c, e) && n !in a.nodes && n in NamesIn(s + [d] + t)
    requires b.nodes.Keys == a.nodes.Keys + NamesIn(s) && c.nodes.Keys == b.nodes.Keys + {d.name}
    requires n in NamesIn(s) ==> n in b.nodes && FromFirst(reg, b, s, n)
    requires d.name in b.nodes || (d.name in c.nodes && Genuine(reg, c.nodes[d.name], d))
    requires n in NamesIn(t) && n !in c.nodes ==> n in e.nodes && FromFirst(reg, e, t, n)
    ensures n in e.nodes && FromFirst(reg, e, s + [d] + t, n)
  {
    hide Genuine, NodeOf, FromFirst;
    NamesJoin(s, d, t);
    assert s + [d] + t == s + ([d] + t);
    if n in NamesIn(s) {
      FirstBefore(reg, b, e, s, [d] + t, n);
    } else if n == d.name {
      FirstHere(reg, c, d);
      FirstBefore(reg, c, e, [d], t, n);
      FirstAfter(reg, e, s, [d] + t, n);
    } else {
      assert n !in NamesIn([d]);
      FirstAfter(reg, e, [d], t, n);
      FirstAfter(reg, e, s, [d] + t, n);
    }
  }

  /** `e` holds exactly the names of `a` and of the trail, each new one as its first edge makes it. */
  ghost predicate Recorded(reg: Registry, a: Catalog, trail: seq<Dep>, e: Catalog) {
    && Extends(a, e) && e.nodes.Keys == a.nodes.Keys + NamesIn(trail)
    && forall n :: n in NamesIn(trail) && n !in a.nodes ==> FromFirst(reg, e, trail, n)
  }

  lemma RecordedStep(
    reg: Registry, a: Catalog, b: Catalog, c: Catalog, e: Catalog, s: seq<Dep>, d: Dep, t: seq<Dep>)
    requires Recorded(reg, a, s, b) && c == Record(reg, b, d) && Recorded(reg, c, t, e)
    requires d.name in b.nodes || reg.fetch(d.source).Some?
    ensures Recorded(reg, a, s + [d] + t, e)
  {
    hide Genuine, NodeOf, FromFirst, Record, NamesIn;
    RecordOne(reg, b, d);
    NamesJoin(s, d, t);
    forall n | n in NamesIn(s + [d] + t) && n !in a.nodes ensures FromFirst(reg, e, s + [d] + t, n) {
      VisitFirst(reg, a, b, c, e, s, d, t, n);
    }
  }

  lemma RecordedNothing(reg: Registry, a: Catalog)
    ensures Recorded(reg, a, [], a) && RecordAll(reg, a, []) == a
  {
  }

  lemma RecordSplit(reg: Registry, a: Catalog, s: seq<Dep>, d: Dep, t: seq<Dep>)
    ensures RecordAll(reg, a, s + [d] + t) == RecordAll(reg, Record(reg, RecordAll(reg, a, s), d), t)
  {
    hide Record;
    RecordJoin(reg, a, s, [d]);
    RecordJoin(reg, a, s + [d], t);
    RecordOne(reg, RecordAll(reg, a, s), d);
  }

  lemma RecordedKeys(reg: Registry, a: Catalog, trail: seq<Dep>, e: Catalog)
    requires Recorded(reg, a, trail, e)
    ensures e.nodes.Keys == a.nodes.Keys + NamesIn(trail)
  {
  }

  /** A visit records exactly the names on its trail, each as its first edge makes it. */
  lemma {:induction false} VisitRecords(reg: Registry, a: Catalog, deps: seq<Dep>, trail: seq<Dep>)
    requires Traverses(reg, deps, a.nodes.Keys, trail)
    ensures Recorded(reg, a, trail, RecordAll(reg, a, trail))
    decreases |trail|
  {
    hide *;
    if deps == [] {
      TraversalNone(reg, a.nodes.Keys, trail);
      RecordedNothing(reg, a);
    } else {
      var k := TraversalLast(reg, deps, a.nodes.Keys, trail);
      var s, d, t := trail[..k], trail[k], trail[k + 1..];
      VisitRecords(reg, a, deps[..|deps| - 1], s);
      var b := RecordAll(reg, a, s);
      RecordedKeys(reg, a, s, b);
      var c := Record(reg, b, d);
      RecordOne(reg, b, d);
      if d.name !in b.nodes {
        VisitRecords(reg, c, reg.fetch(d.source).value.deps, t);
      } else {
        RecordedNothing(reg, c);
      }
      RecordSplit(reg, a, s, d, t);
      RecordedStep(reg, a, b, c, RecordAll(reg, c, t), s, d, t);
      assert trail == s + [d] + t;
    }
  }

  /** `b` is what a depth-first visit of `deps` records from `a` on. */
  ghost predicate Visited(reg: Registry, a: Catalog, deps: seq<Dep>, b: Catalog, trail: seq<Dep>) {
    Traverses(reg, deps, a.nodes.Keys, trail) && b == RecordAll(reg, a, trail)
  }

  /** The state shared by the inner functions of `resolveDependencies` while it collects. */
  // ---- the program ----

  lemma NodeAdded(reg: Registry, a: Catalog, deps: seq<Dep>, b: Catalog, d: Dep)
    requires Collected(reg, a, deps, b) && d.name !in b.nodes && reg.fetch(d.source).Some?
    ensures var c := WithNode(WithRequest(b, d), d.name, NodeOf(reg, d));
            KeysOk(c) && c == Record(reg, b, d) && c.nodes.Keys == b.nodes.Keys + {d.name}
    ensures Genuine(reg, NodeOf(reg, d), d) && a.nodes.Keys <= b.nodes.Keys
  {
  }

  lemma VisitedNothing(reg: Registry, a: Catalog)
    ensures Visited(reg, a, [], a, [])
  {
  }

  lemma VisitedKnown(reg: Registry, a: Catalog, deps: seq<Dep>, b: Catalog, trail: seq<Dep>, d: Dep)
    requires Visited(reg, a, deps, b, trail) && d.name in b.nodes
    ensures Visited(reg, a, deps + [d], WithRequest(b, d), trail + [d])
  {
    VisitRecords(reg, a, deps, trail);
    assert (trail + [d])[..|trail|] == trail && (deps + [d])[..|deps|] == deps;
    assert TraversesAt(reg, deps + [d], a.nodes.Keys, trail + [d], |trail|);
    RecordJoin(reg, a, trail, [d]);
    RecordOne(reg, b, d);
  }

  lemma VisitedNew(
    reg: Registry, a: Catalog, deps: seq<Dep>, b: Catalog, trail: seq<Dep>, d: Dep, e: Catalog, below: seq<Dep>)
    requires Visited(reg, a, deps, b, trail) && d.name !in b.nodes && reg.fetch(d.source).Some?
    requires Visited(reg, Record(reg, b, d), reg.fetch(d.source).value.deps, e, below)
    ensures Visited(reg, a, deps + [d], e, trail + [d] + below)
  {
    hide NodeOf;
    VisitRecords(reg, a, deps, trail);
    RecordOne(reg, b, d);
    var all := trail + [d] + below;
    assert all[..|trail|] == trail && all[|trail| + 1..] == below && (deps + [d])[..|deps|] == deps;
    assert TraversesAt(reg, deps + [d], a.nodes.Keys, all, |trail|);
    RecordJoin(reg, a, trail, [d]);
    RecordJoin(reg, a, trail + [d], below);
  }

  /** The state shared by the inner functions of `resolveDependencies` while it collects. */
  class Collector {
    const reg: Registry
    ghost const universe: set<Name>
    var catalog: Catalog

    constructor (reg: Registry, ghost universe: set<Name>)
      ensures this.reg == reg && this.universe == universe
      ensures catalog == Catalog(map[], [], map[])
    {
      this.reg := reg;
      this.universe := universe;
      catalog := Catalog(map[], [], map[]);
    }

    /** Visits `deps` depth first; fails only on a source that cannot be fetched. */
    method CollectDeps(deps: seq<Dep>) returns (ok: bool, ghost trail: seq<Dep>)
      requires Within(reg, universe) && KeysOk(catalog)
      requires forall d :: d in deps ==> d.name in universe
      modifies this
      ensures ok ==> Collected(reg, old(catalog), deps, catalog) && Visited(reg, old(catalog), deps, catalog, trail)
      ensures !ok ==> Unfetchable(reg, deps)
      decreases universe - catalog.nodes.Keys
    {
      hide Unfetchable, UnfetchableWithin, Collected, Visited, Genuine, KeysOk, NodeOf, Record;
      ghost var before := catalog;
      trail := [];
      CollectedNothing(reg, before);
      VisitedNothing(reg, before);
      for i := 0 to |deps|
        invariant Collected(reg, before, deps[..i], catalog) && Visited(reg, before, deps[..i], catalog, trail)
      {
        var d := deps[i];
        assert deps[..i + 1] == deps[..i] + [d];
        ghost var b := catalog;
        catalog := WithRequest(catalog, d);
        if d.name in catalog.nodes {
          CollectedKnown(reg, before, deps[..i], b, d);
          VisitedKnown(reg, before, deps[..i], b, trail, d);
          trail := trail + [d];
          continue;
        }
        var manifest := reg.fetch(d.source);
        if manifest.None? {
          UnfetchableHere(reg, deps, d);
          return false, trail;
        }
        var installed := reg.installed(d.name);
        var node := Node(d.name, manifest.value.version, d.source, d.version, manifest.value.deps,
                         installed.Some? && reg.satisfies(installed.value, d.version));
        NodeIs(reg, d, node);
        catalog := WithNode(catalog, d.name, node);
        ghost var c := catalog;
        ghost var below := [];
        NodeAdded(reg, before, deps[..i], b, d);
        CollectedNothing(reg, c);
        VisitedNothing(reg, c);
        if node.deps != [] {
          ok, below := CollectDeps(node.deps);
          if !ok {
            UnfetchableHere(reg, deps, d);
            return false, trail;
          }
        }
        CollectedNew(reg, before, deps[..i], b, d, node, catalog);
        VisitedNew(reg, before, deps[..i], b, trail, d, catalog, below);
        trail := trail + [d] + below;
      }
      assert deps[..|deps|] == deps;
      return true, trail;
    }
  }

  lemma NodeIs(reg: Registry, d: Dep, node: Node)
    requires reg.fetch(d.source).Some?
    requires node == Node(d.name, reg.fetch(d.source).value.version, d.source, d.version,
                          reg.fetch(d.source).value.deps,
                          reg.installed(d.name).Some? && reg.satisfies(reg.installed(d.name).value, d.version))
    ensures node == NodeOf(reg, d) && node.deps == reg.fetch(d.source).value.deps && Genuine(reg, node, d)
  {
  }
}

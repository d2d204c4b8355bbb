/** `detectCycles` of src/extensions/dependency-resolver.ts: an iterative depth-first search with an
    explicit stack that either finds a cycle or proves there is none. */
module CycleDetection {
  import opened Wrappers

  type Name = string

  /** A JavaScript Map from names to child lists, iterated in insertion order. */
  datatype Graph = Graph(keys: seq<Name>, adj: map<Name, seq<Name>>)

  ghost predicate ValidGraph(g: Graph) {
    forall k :: k in g.keys <==> k in g.adj
  }

  function Children(g: Graph, n: Name): seq<Name> {
    if n in g.adj then g.adj[n] else []
  }

  predicate Edge(g: Graph, a: Name, b: Name) { b in Children(g, a) }

  ghost predicate Walk(g: Graph, p: seq<Name>) {
    forall i :: 0 < i < |p| ==> Edge(g, p[i - 1], p[i])
  }

  /** A closed walk along real edges. */
  ghost predicate Cycle(g: Graph, p: seq<Name>) {
    2 <= |p| && p[0] == p[|p| - 1] && Walk(g, p)
  }

  ghost predicate Acyclic(g: Graph) {
    forall p :: !Cycle(g, p)
  }

  /** Every element's children come before it. */
  ghost predicate ChildrenFirst(g: Graph, order: seq<Name>) {
    forall k, c :: 0 <= k < |order| && Edge(g, order[k], c) ==> c in order[..k]
  }

  predicate Distinct(names: seq<Name>) {
    forall i, j :: 0 <= i < j < |names| ==> names[i] != names[j]
  }

  ghost predicate TopologicalOrder(g: Graph, order: seq<Name>) {
    Distinct(order) && ChildrenFirst(g, order) && forall k :: k in g.adj ==> k in order
  }

  // ---- a graph with a topological order has no cycle ----

  function IndexOf(names: seq<Name>, n: Name): (k: nat)
    requires n in names
    ensures k < |names| && names[k] == n
  {
    if names[0] == n then 0 else 1 + IndexOf(names[1..], n)
  }

  lemma IndexOfUnique(names: seq<Name>, k: nat)
    requires Distinct(names) && k < |names|
    ensures IndexOf(names, names[k]) == k
  {
  }

  lemma EdgeDescends(g: Graph, order: seq<Name>, a: Name, b: Name)
    requires TopologicalOrder(g, order) && Edge(g, a, b)
    ensures a in order && b in order && IndexOf(order, b) < IndexOf(order, a)
  {
    var k := IndexOf(order, a);
    var j := IndexOf(order[..k], b);
    IndexOfUnique(order, j);
  }

  lemma {:induction false} WalkDescends(g: Graph, order: seq<Name>, p: seq<Name>)
    requires TopologicalOrder(g, order) && Walk(g, p) && 2 <= |p|
    ensures p[0] in order && p[|p| - 1] in order
    ensures IndexOf(order, p[|p| - 1]) < IndexOf(order, p[0])
  {
    var init := p[..|p| - 1];
    EdgeDescends(g, order, p[|p| - 2], p[|p| - 1]);
    if 2 < |p| {
      WalkDescends(g, order, init);
    }
  }

  lemma OrderedIsAcyclic(g: Graph, order: seq<Name>)
    requires TopologicalOrder(g, order)
    ensures Acyclic(g)
  {
    forall p ensures !Cycle(g, p) {
      if Cycle(g, p) {
        WalkDescends(g, order, p);
      }
    }
  }

  // ---- the search ----

  datatype Frame = Frame(node: Name, childIdx: nat)

  function Nodes(stack: seq<Frame>): (names: seq<Name>)
    ensures |names| == |stack| && forall i :: 0 <= i < |stack| ==> names[i] == stack[i].node
  {
    seq(|stack|, i requires 0 <= i < |stack| => stack[i].node)
  }

  ghost function ToSet(names: seq<Name>): set<Name> { set n | n in names }

  /** Frame `i` has handed out its children up to `childIdx`; all of them are finished, but the last one
      while it is still above on the stack. */
  ghost predicate FrameOk(g: Graph, done: seq<Name>, stack: seq<Frame>, i: nat)
    requires i < |stack|
  {
    var f, children := stack[i], Children(g, stack[i].node);
    && f.childIdx <= |children|
    && f.node !in done
    && (forall c :: 0 <= c < f.childIdx && (c + 1 < f.childIdx || i + 1 == |stack|) ==> children[c] in done)
    && (i + 1 < |stack| ==> 0 < f.childIdx && stack[i + 1].node == children[f.childIdx - 1])
  }

  ghost predicate StackOk(g: Graph, done: seq<Name>, stack: seq<Frame>) {
    && Distinct(Nodes(stack))
    && forall i :: 0 <= i < |stack| ==> FrameOk(g, done, stack, i)
  }

  ghost predicate DoneOk(g: Graph, done: seq<Name>) {
    Distinct(done) && ChildrenFirst(g, done)
  }

  lemma PopKeeps(g: Graph, done: seq<Name>, stack: seq<Frame>)
    requires DoneOk(g, done) && StackOk(g, done, stack) && stack != []
    requires stack[|stack| - 1].childIdx == |Children(g, stack[|stack| - 1].node)|
    ensures DoneOk(g, done + [stack[|stack| - 1].node])
    ensures StackOk(g, done + [stack[|stack| - 1].node], stack[..|stack| - 1])
  {
    var top := |stack| - 1;
    var f := stack[top];
    var done', stack' := done + [f.node], stack[..top];
    assert FrameOk(g, done, stack, top);
    forall k, c | 0 <= k < |done'| && Edge(g, done'[k], c) ensures c in done'[..k] {
      if k < |done| {
        assert done'[..k] == done[..k];
      } else {
        assert done'[..k] == done;
      }
    }
    assert Nodes(stack') == Nodes(stack)[..top];
    forall i | 0 <= i < top ensures FrameOk(g, done', stack', i) {
      assert FrameOk(g, done, stack, i);
      assert Nodes(stack)[i] != Nodes(stack)[top];
    }
  }

  lemma PushKeeps(g: Graph, done: seq<Name>, stack: seq<Frame>, child: Name)
    requires StackOk(g, done, stack) && stack != []
    requires stack[|stack| - 1].childIdx < |Children(g, stack[|stack| - 1].node)|
    requires child == Children(g, stack[|stack| - 1].node)[stack[|stack| - 1].childIdx]
    requires child !in done && child !in Nodes(stack)
    ensures StackOk(g, done,
            stack[|stack| - 1 := stack[|stack| - 1].(childIdx := stack[|stack| - 1].childIdx + 1)] + [Frame(child, 0)])
  {
    var top := |stack| - 1;
    var stack' := stack[top := stack[top].(childIdx := stack[top].childIdx + 1)] + [Frame(child, 0)];
    assert Nodes(stack') == Nodes(stack) + [child];
    forall i | 0 <= i < |stack'| ensures FrameOk(g, done, stack', i) {
      if i < |stack| { assert FrameOk(g, done, stack, i); }
    }
  }

  lemma SkipKeeps(g: Graph, done: seq<Name>, stack: seq<Frame>)
    requires StackOk(g, done, stack) && stack != []
    requires stack[|stack| - 1].childIdx < |Children(g, stack[|stack| - 1].node)|
    requires Children(g, stack[|stack| - 1].node)[stack[|stack| - 1].childIdx] in done
    ensures StackOk(g, done, stack[|stack| - 1 := stack[|stack| - 1].(childIdx := stack[|stack| - 1].childIdx + 1)])
  {
    var top := |stack| - 1;
    var stack' := stack[top := stack[top].(childIdx := stack[top].childIdx + 1)];
    assert Nodes(stack') == Nodes(stack);
    forall i | 0 <= i < |stack'| ensures FrameOk(g, done, stack', i) {
      assert FrameOk(g, done, stack, i);
    }
  }

  /** The cycle closed by an edge from the top of the stack back to `child`. */
  method ReconstructPath(g: Graph, ghost done: seq<Name>, stack: seq<Frame>, child: Name) returns (path: seq<Name>)
    requires StackOk(g, done, stack) && child in Nodes(stack)
    requires Edge(g, stack[|stack| - 1].node, child)
    ensures Cycle(g, path) && path[0] == child
  {
    path := [child];
    var i := |stack| - 1;
    ghost var at := IndexOf(Nodes(stack), child);
    while true
      invariant at <= i < |stack|
      invariant Walk(g, Reversed(path)) && |Reversed(path)| == |stack| - i
      invariant Reversed(path)[|stack| - i - 1] == child
      invariant Edge(g, stack[i].node, Reversed(path)[0])
      decreases i
    {
      ghost var was := Reversed(path);
      path := path + [stack[i].node];
      assert Reversed(path) == [stack[i].node] + was;
      if stack[i].node == child { break; }
      assert FrameOk(g, done, stack, i - 1);
      i := i - 1;
    }
    path := Reversed(path);
  }

  function Reversed(names: seq<Name>): (r: seq<Name>)
    ensures |r| == |names|
    ensures forall i :: 0 <= i < |names| ==> r[i] == names[|names| - 1 - i]
  {
    seq(|names|, i requires 0 <= i < |names| => names[|names| - 1 - i])
  }

  /** Every name the graph mentions. */
  function AllNames(g: Graph): set<Name> {
    g.adj.Keys + set k, c | k in g.adj && c in g.adj[k] :: c
  }

  /** Children still to be handed out, and frames still to be popped. */
  function Work(g: Graph, stack: seq<Frame>): nat {
    if stack == [] then 0
    else
      var f := stack[|stack| - 1];
      Work(g, stack[..|stack| - 1]) + 1 +
        (if f.childIdx <= |Children(g, f.node)| then |Children(g, f.node)| - f.childIdx else 0)
  }

  lemma TopFrame(g: Graph, done: seq<Name>, stack: seq<Frame>)
    requires StackOk(g, done, stack) && stack != []
    ensures var f := stack[|stack| - 1];
            f.childIdx <= |Children(g, f.node)| && f.node in Nodes(stack) && f.node in ToSet(Nodes(stack))
  {
    assert FrameOk(g, done, stack, |stack| - 1);
    assert Nodes(stack)[|stack| - 1] == stack[|stack| - 1].node;
  }

  lemma NodesWithoutTop(stack: seq<Frame>)
    requires stack != [] && Distinct(Nodes(stack))
    ensures ToSet(Nodes(stack[..|stack| - 1])) == ToSet(Nodes(stack)) - {stack[|stack| - 1].node}
  {
    var top := |stack| - 1;
    assert Nodes(stack) == Nodes(stack[..top]) + [stack[top].node];
  }

  /** Between steps of one tree of the search. */
  ghost predicate Searching(
      g: Graph, root: Name, before: set<Name>, done: seq<Name>, visited: set<Name>, stack: seq<Frame>,
      inStack: set<Name>) {
    && DoneOk(g, done) && visited == ToSet(done) && before <= visited
    && StackOk(g, done, stack) && inStack == ToSet(Nodes(stack))
    && if stack != [] then stack[0].node == root else root in visited
  }

  ghost function Unseen(g: Graph, visited: set<Name>, inStack: set<Name>): set<Name> { AllNames(g) - visited - inStack }

  lemma SearchStarts(g: Graph, root: Name, done: seq<Name>)
    requires DoneOk(g, done) && root !in done
    ensures Searching(g, root, ToSet(done), done, ToSet(done), [Frame(root, 0)], {root})
  {
    assert Nodes([Frame(root, 0)]) == [root];
  }

  lemma SearchPops(
    g: Graph, root: Name, before: set<Name>, done: seq<Name>, visited: set<Name>, stack: seq<Frame>, inStack: set<Name>)
    requires Searching(g, root, before, done, visited, stack, inStack) && stack != []
    requires |Children(g, stack[|stack| - 1].node)| <= stack[|stack| - 1].childIdx
    ensures var n := stack[|stack| - 1].node;
            && Searching(g, root, before, done + [n], visited + {n}, stack[..|stack| - 1], inStack - {n})
            && Unseen(g, visited + {n}, inStack - {n}) == Unseen(g, visited, inStack)
            && Work(g, stack[..|stack| - 1]) < Work(g, stack)
  {
    var n := stack[|stack| - 1].node;
    TopFrame(g, done, stack);
    PopKeeps(g, done, stack);
    NodesWithoutTop(stack);
    hide DoneOk, StackOk, Children;
    assert ToSet(done + [n]) == ToSet(done) + {n};
  }

  lemma SearchPushes(
    g: Graph, root: Name, before: set<Name>, done: seq<Name>, visited: set<Name>, stack: seq<Frame>, inStack: set<Name>)
    returns (stack': seq<Frame>, child: Name)
    requires Searching(g, root, before, done, visited, stack, inStack) && stack != []
    requires stack[|stack| - 1].childIdx < |Children(g, stack[|stack| - 1].node)|
    requires Children(g, stack[|stack| - 1].node)[stack[|stack| - 1].childIdx] !in visited + inStack
    ensures child == Children(g, stack[|stack| - 1].node)[stack[|stack| - 1].childIdx]
    ensures stack' == stack[|stack| - 1 := stack[|stack| - 1].(childIdx := stack[|stack| - 1].childIdx + 1)] +
            [Frame(child, 0)]
    ensures Searching(g, root, before, done, visited, stack', inStack + {child})
    ensures Unseen(g, visited, inStack + {child}) < Unseen(g, visited, inStack)
  {
    var top := |stack| - 1;
    child := Children(g, stack[top].node)[stack[top].childIdx];
    ChildNamed(g, stack[top].node, child);
    PushKeeps(g, done, stack, child);
    stack' := stack[top := stack[top].(childIdx := stack[top].childIdx + 1)] + [Frame(child, 0)];
    hide DoneOk, StackOk, Children, AllNames;
    assert Nodes(stack') == Nodes(stack) + [child];
    assert child in Unseen(g, visited, inStack);
  }

  lemma ChildNamed(g: Graph, n: Name, child: Name)
    requires child in Children(g, n)
    ensures Edge(g, n, child) && child in AllNames(g)
  {
  }

  lemma SearchSkips(
    g: Graph, root: Name, before: set<Name>, done: seq<Name>, visited: set<Name>, stack: seq<Frame>, inStack: set<Name>)
    returns (stack': seq<Frame>)
    requires Searching(g, root, before, done, visited, stack, inStack) && stack != []
    requires stack[|stack| - 1].childIdx < |Children(g, stack[|stack| - 1].node)|
    requires Children(g, stack[|stack| - 1].node)[stack[|stack| - 1].childIdx] in visited
    ensures stack' == stack[|stack| - 1 := stack[|stack| - 1].(childIdx := stack[|stack| - 1].childIdx + 1)]
    ensures Searching(g, root, before, done, visited, stack', inStack) && Work(g, stack') < Work(g, stack)
  {
    var top := |stack| - 1;
    SkipKeeps(g, done, stack);
    stack' := stack[top := stack[top].(childIdx := stack[top].childIdx + 1)];
    hide DoneOk, StackOk, Children;
    assert Nodes(stack') == Nodes(stack);
    assert stack'[..top] == stack[..top];
  }

  /** One tree of the search: finishes every name reachable from `root`, or finds a cycle. */
  method Explore(g: Graph, root: Name, visited: set<Name>, ghost done: seq<Name>)
    returns (cycle: Option<seq<Name>>, visited': set<Name>, ghost done': seq<Name>)
    requires ValidGraph(g) && root in g.adj && root !in visited
    requires DoneOk(g, done) && visited == ToSet(done)
    ensures cycle.Some? ==> Cycle(g, cycle.value)
    ensures cycle.None? ==> DoneOk(g, done') && visited' == ToSet(done') && visited + {root} <= visited'
  {
    hide DoneOk, StackOk, Children, AllNames, Work, Unseen, Cycle, Edge;
    cycle := None;
    visited' := visited;
    done' := done;
    var inStack := {root};
    var stack := [Frame(root, 0)];
    SearchStarts(g, root, done);
    while stack != []
      invariant Searching(g, root, visited, done', visited', stack, inStack)
      decreases Unseen(g, visited', inStack), Work(g, stack)
    {
      var top := |stack| - 1;
      var frame := stack[top];
      var children := Children(g, frame.node);
      if frame.childIdx >= |children| {
        SearchPops(g, root, visited, done', visited', stack, inStack);
        inStack := inStack - {frame.node};
        visited' := visited' + {frame.node};
        done' := done' + [frame.node];
        stack := stack[..top];
      } else {
        var child := children[frame.childIdx];
        var advanced := stack[top := frame.(childIdx := frame.childIdx + 1)];
        ChildNamed(g, frame.node, child);
        if child in inStack {
          var path := ReconstructPath(g, done', stack, child);
          return Some(path), visited', done';
        }
        if child !in visited' {
          ghost var pushed, c := SearchPushes(g, root, visited, done', visited', stack, inStack);
          inStack := inStack + {child};
          stack := advanced + [Frame(child, 0)];
        } else {
          ghost var skipped := SearchSkips(g, root, visited, done', visited', stack, inStack);
          stack := advanced;
        }
      }
    }
  }

  /** None exactly when the graph has no cycle, with the finishing order as witness; otherwise a cycle. */
  method DetectCycles(g: Graph) returns (cycle: Option<seq<Name>>, ghost order: seq<Name>)
    requires ValidGraph(g)
    ensures cycle.Some? ==> Cycle(g, cycle.value)
    ensures cycle.None? <==> Acyclic(g)
    ensures cycle.None? ==> TopologicalOrder(g, order)
  {
    var visited: set<Name> := {};
    order := [];
    for i := 0 to |g.keys|
      invariant DoneOk(g, order) && visited == ToSet(order)
      invariant forall k :: 0 <= k < i ==> g.keys[k] in visited
    {
      var node := g.keys[i];
      if node !in visited {
        cycle, visited, order := Explore(g, node, visited, order);
        if cycle.Some? { return; }
      }
    }
    cycle := None;
    OrderedIsAcyclic(g, order);
  }
}

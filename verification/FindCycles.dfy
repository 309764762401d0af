/**
 * Cycle detection over the workspace dependency graph: a depth-first search with a "visiting" and a "visited" set and
 * an explicit stack, then deduplication of what it found.
 */
module FindCycles {
  import opened CycleKeys

  type Node = string

  /** The graph's keys in insertion order, and the successors of each key in order; other nodes have none. */
  datatype Graph = Graph(keys: seq<Node>, successors: map<Node, seq<Node>>) {
    ghost predicate Valid() {
      forall n :: n in keys <==> n in successors
    }

    function Next(n: Node): seq<Node> {
      if n in successors then successors[n] else []
    }

    function Nodes(): (nodes: set<Node>)
      ensures forall n :: n in successors ==> n in nodes
      ensures forall n, m :: n in successors && m in successors[n] ==> m in nodes
    {
      (set n | n in successors) + (set n, m | n in successors && m in successors[n] :: m)
    }

    predicate Edge(n: Node, m: Node) {
      m in Next(n)
    }
  }

  ghost predicate IsPath(g: Graph, p: seq<Node>) {
    forall i :: 0 <= i < |p| - 1 ==> g.Edge(p[i], p[i + 1])
  }

  /** A walk along edges that ends where it started. */
  ghost predicate IsClosedWalk(g: Graph, w: seq<Node>) {
    |w| >= 2 && w[0] == w[|w| - 1] && IsPath(g, w)
  }

  ghost predicate HasCycle(g: Graph) {
    exists w :: IsClosedWalk(g, w)
  }

  ghost predicate Distinct(s: seq<Node>) {
    forall i, j :: 0 <= i < j < |s| ==> s[i] != s[j]
  }

  function Body(cycle: seq<Node>): seq<Node> {
    if cycle == [] then [] else cycle[..|cycle| - 1]
  }

  /** A closed walk that visits each of its nodes once. */
  ghost predicate IsSimpleCycle(g: Graph, c: seq<Node>) {
    IsClosedWalk(g, c) && Distinct(Body(c))
  }

  // ---------------------------------------------------------------- no cycle among finished nodes

  ghost predicate LastEdge(c: seq<Node>, n: Node, m: Node) {
    |c| >= 2 && c[|c| - 2] == n && c[|c| - 1] == m
  }

  /** The edge is the last one of a recorded cycle. */
  ghost predicate Closing(cycles: seq<seq<Node>>, n: Node, m: Node) {
    exists i :: 0 <= i < |cycles| && LastEdge(cycles[i], n, m)
  }

  /** Every node's successors come before it, except along the closing edges of recorded cycles. */
  ghost predicate Topological(g: Graph, cycles: seq<seq<Node>>, f: seq<Node>) {
    f == [] || (Topological(g, cycles, f[..|f| - 1]) && LeadsBack(g, cycles, f[|f| - 1], f[..|f| - 1]))
  }

  ghost predicate LeadsBack(g: Graph, cycles: seq<seq<Node>>, n: Node, f: seq<Node>) {
    forall m :: m in g.Next(n) ==> m in f || Closing(cycles, n, m)
  }

  lemma {:induction false} EdgesLeadBack(g: Graph, cycles: seq<seq<Node>>, f: seq<Node>, n: Node, m: Node)
    requires Topological(g, cycles, f) && n in f && g.Edge(n, m) && !Closing(cycles, n, m)
    ensures m in f[..|f| - 1]
  {
    var last := |f| - 1;
    if n == f[last] {
    } else {
      EdgesLeadBack(g, cycles, f[..last], n, m);
    }
  }

  /** Some edge of the walk is the last edge of a recorded cycle. */
  ghost predicate Crosses(cycles: seq<seq<Node>>, w: seq<Node>) {
    exists i :: 0 <= i < |w| - 1 && Closing(cycles, w[i], w[i + 1])
  }

  /** A closed walk inside the finished nodes uses the closing edge of a recorded cycle. */
  lemma {:induction false} ClosedWalksCross(g: Graph, cycles: seq<seq<Node>>, f: seq<Node>, w: seq<Node>)
    requires Topological(g, cycles, f) && IsClosedWalk(g, w) && forall i :: 0 <= i < |w| ==> w[i] in f
    ensures Crosses(cycles, w)
    decreases |f|
  {
    if Crosses(cycles, w) {
    } else {
      var shorter := f[..|f| - 1];
      forall i | 0 <= i < |w| ensures w[i] in shorter {
        var j := if i == 0 then |w| - 2 else i - 1;
        assert g.Edge(w[j], w[j + 1]) && !Closing(cycles, w[j], w[j + 1]);
        EdgesLeadBack(g, cycles, f, w[j], w[j + 1]);
      }
      ClosedWalksCross(g, cycles, shorter, w);
    }
  }

  lemma ClosingStays(cycles: seq<seq<Node>>, more: seq<seq<Node>>, n: Node)
    requires cycles <= more
    ensures forall m :: Closing(cycles, n, m) ==> Closing(more, n, m)
  {
    forall m | Closing(cycles, n, m) ensures Closing(more, n, m) {
      var i :| 0 <= i < |cycles| && LastEdge(cycles[i], n, m);
      assert LastEdge(more[i], n, m);
    }
  }

  /** Recording another cycle only adds closing edges. */
  lemma {:induction false} TopologicalStays(g: Graph, cycles: seq<seq<Node>>, more: seq<seq<Node>>, f: seq<Node>)
    requires cycles <= more && Topological(g, cycles, f)
    ensures Topological(g, more, f)
  {
    if f == [] {
    } else {
      var n, rest := f[|f| - 1], f[..|f| - 1];
      TopologicalStays(g, cycles, more, rest);
      ClosingStays(cycles, more, n);
    }
  }

  /** Each of these successors of `n` was visited, or closed a cycle. */
  ghost predicate Explored(visited: set<Node>, cycles: seq<seq<Node>>, n: Node, successors: seq<Node>) {
    forall m :: m in successors ==> m in visited || Closing(cycles, n, m)
  }

  lemma ExploredOneMore(visited: set<Node>, cycles: seq<seq<Node>>, visited': set<Node>, cycles': seq<seq<Node>>,
    n: Node, next: seq<Node>, i: nat)
    requires visited <= visited' && cycles <= cycles' && i < |next|
    requires Explored(visited, cycles, n, next[..i]) && (next[i] in visited' || Closing(cycles', n, next[i]))
    ensures Explored(visited', cycles', n, next[..i + 1])
  {
    ClosingStays(cycles, cycles', n);
    assert next[..i + 1] == next[..i] + [next[i]];
  }

  // ---------------------------------------------------------------- the search, as a function

  /** What has been found, where the search stands, and the path that leads there; `finished` is `visited` in order. */
  datatype Progress = Progress(
    cycles: seq<seq<Node>>,
    visiting: set<Node>,
    visited: set<Node>,
    stack: seq<Node>,
    finished: seq<Node>)

  const NOTHING_FOUND := Progress([], {}, {}, [], [])

  /** The part of the path from a node on. */
  function From(stack: seq<Node>, node: Node): seq<Node> {
    if stack == [] || stack[0] == node then stack else From(stack[1..], node)
  }

  ghost predicate Inside(g: Graph, p: Progress) {
    p.visiting + p.visited <= g.Nodes()
  }

  ghost predicate Within(g: Graph, nodes: seq<Node>) {
    forall n :: n in nodes ==> n in g.Nodes()
  }

  ghost function Unseen(g: Graph, p: Progress): set<Node> {
    g.Nodes() - p.visiting - p.visited
  }

  ghost function Recorded(p: Progress, node: Node): Progress {
    if node in p.stack then p.(cycles := p.cycles + [From(p.stack, node) + [node]]) else p
  }

  ghost function Entered(p: Progress, node: Node): Progress {
    p.(visiting := p.visiting + {node}, stack := p.stack + [node])
  }

  ghost function Left(p: Progress, node: Node): Progress
    requires p.stack != []
  {
    p.(visiting := p.visiting - {node}, visited := p.visited + {node},
       stack := p.stack[..|p.stack| - 1], finished := p.finished + [node])
  }

  /** A node on the path closes a cycle; a new one is done when its successors are, in their order. */
  ghost function Visit(g: Graph, node: Node, p: Progress): (q: Progress)
    requires Inside(g, p) && node in g.Nodes()
    ensures Inside(g, q) && q.visiting == p.visiting && q.stack == p.stack
    ensures p.visited <= q.visited && p.cycles <= q.cycles
    decreases Unseen(g, p), 0
  {
    if node in p.visited then p
    else if node in p.visiting then Recorded(p, node)
    else
      FewerUnseen(g, node, p, Entered(p, node));
      Left(VisitAll(g, g.Next(node), |g.Next(node)|, Entered(p, node)), node)
  }

  /** The first `n` of the nodes, one after the other. */
  ghost function VisitAll(g: Graph, nodes: seq<Node>, n: nat, p: Progress): (q: Progress)
    requires Inside(g, p) && Within(g, nodes) && n <= |nodes|
    ensures Inside(g, q) && q.visiting == p.visiting && q.stack == p.stack
    ensures p.visited <= q.visited && p.cycles <= q.cycles
    decreases Unseen(g, p), n
  {
    if n == 0 then p
    else
      var q := VisitAll(g, nodes, n - 1, p);
      FewerOrSame(g, p, q);
      Visit(g, nodes[n - 1], q)
  }

  lemma FewerUnseen(g: Graph, node: Node, p: Progress, reached: Progress)
    requires node in g.Nodes() && node !in p.visiting && node !in p.visited
    requires reached.visiting == p.visiting + {node} && p.visited <= reached.visited
    ensures Unseen(g, reached) < Unseen(g, p)
  {
    assert node in Unseen(g, p);
  }

  lemma VisitNew(g: Graph, node: Node, p: Progress, left: Progress)
    requires Inside(g, p) && node in g.Nodes() && node !in p.visited && node !in p.visiting
    requires left == VisitAll(g, g.Next(node), |g.Next(node)|, Entered(p, node))
    ensures Visit(g, node, p) == Left(left, node)
  {
  }

  lemma VisitOneMore(g: Graph, nodes: seq<Node>, i: nat, p: Progress, q: Progress, r: Progress)
    requires Inside(g, p) && Within(g, nodes) && i < |nodes|
    requires q == VisitAll(g, nodes, i, p) && r == Visit(g, nodes[i], q)
    ensures r == VisitAll(g, nodes, i + 1, p)
  {
  }

  // ---------------------------------------------------------------- what every visit keeps

  /**
   * The stack is a path of distinct nodes, the ones being visited; every recorded cycle is a simple one; and finished
   * nodes lead back, except along closing edges.
   */
  ghost predicate Sound(g: Graph, p: Progress) {
    && Distinct(p.stack) && IsPath(g, p.stack)
    && (forall n :: n in p.stack <==> n in p.visiting)
    && (forall n :: n in p.finished <==> n in p.visited)
    && p.visiting !! p.visited && Inside(g, p)
    && (forall i :: 0 <= i < |p.cycles| ==> IsSimpleCycle(g, p.cycles[i]))
    && Topological(g, p.cycles, p.finished)
  }

  ghost predicate Reaches(g: Graph, stack: seq<Node>, node: Node) {
    stack != [] ==> g.Edge(stack[|stack| - 1], node)
  }

  /** The node is finished, or the edge that leads to it closes a recorded cycle. */
  ghost predicate Handled(p: Progress, node: Node) {
    node in p.visited || (p.stack != [] && Closing(p.cycles, p.stack[|p.stack| - 1], node))
  }

  lemma {:induction false} FromIndex(stack: seq<Node>, idx: nat)
    requires idx < |stack| && stack[idx] !in stack[..idx]
    ensures From(stack, stack[idx]) == stack[idx..]
  {
    if idx == 0 {
    } else {
      assert stack[0] in stack[..idx] && stack[1..][idx - 1] == stack[idx];
      assert stack[1..][..idx - 1] == stack[..idx][1..];
      FromIndex(stack[1..], idx - 1);
    }
  }

  /** Cutting the stack at a node it already holds and adding the node again gives a simple cycle. */
  lemma ClosingTheStack(g: Graph, stack: seq<Node>, idx: nat, node: Node)
    requires idx < |stack| && stack[idx] == node && Distinct(stack) && IsPath(g, stack)
    requires g.Edge(stack[|stack| - 1], node)
    ensures IsSimpleCycle(g, stack[idx..] + [node])
  {
    var c := stack[idx..] + [node];
    assert Body(c) == stack[idx..];
    forall i | 0 <= i < |c| - 1 ensures g.Edge(c[i], c[i + 1]) {
      if i < |c| - 2 {
        assert g.Edge(stack[idx + i], stack[idx + i + 1]);
      }
    }
  }

  lemma FromSomewhere(stack: seq<Node>, node: Node) returns (idx: nat)
    requires Distinct(stack) && node in stack
    ensures idx < |stack| && stack[idx] == node && From(stack, node) == stack[idx..]
  {
    idx :| 0 <= idx < |stack| && stack[idx] == node;
    FromIndex(stack, idx);
  }

  lemma RecordIsSound(g: Graph, node: Node, p: Progress, q: Progress)
    requires Sound(g, p) && node in p.visiting && Reaches(g, p.stack, node) && q == Recorded(p, node)
    ensures Sound(g, q) && Handled(q, node)
  {
    var idx := FromSomewhere(p.stack, node);
    ClosingTheStack(g, p.stack, idx, node);
    TopologicalStays(g, p.cycles, q.cycles, p.finished);
    assert LastEdge(q.cycles[|p.cycles|], p.stack[|p.stack| - 1], node);
  }

  lemma EnterIsSound(g: Graph, node: Node, p: Progress, q: Progress)
    requires Sound(g, p) && node in g.Nodes() && node !in p.visited && node !in p.visiting
    requires Reaches(g, p.stack, node) && q == Entered(p, node)
    ensures Sound(g, q)
  {
  }

  lemma LeaveIsSound(g: Graph, node: Node, p: Progress, q: Progress)
    requires Sound(g, p) && p.stack != [] && p.stack[|p.stack| - 1] == node && q == Left(p, node)
    requires Explored(p.visited, p.cycles, node, g.Next(node))
    ensures Sound(g, q)
  {
    assert q.finished[..|p.finished|] == p.finished;
  }

  /** More is found and finished, and the path is the same. */
  ghost predicate Extends(p: Progress, q: Progress) {
    q.stack == p.stack && p.visited <= q.visited && p.cycles <= q.cycles
  }

  /** A visit keeps the search sound, and handles its node. */
  lemma {:induction false} VisitIsSound(g: Graph, node: Node, p: Progress, q: Progress)
    requires Sound(g, p) && node in g.Nodes() && Reaches(g, p.stack, node) && q == Visit(g, node, p)
    ensures Sound(g, q) && Extends(p, q) && Handled(q, node)
    decreases Unseen(g, p), 0, 0
  {
    if node in p.visited {
    } else if node in p.visiting {
      RecordIsSound(g, node, p, q);
    } else {
      var entered, next := Entered(p, node), g.Next(node);
      var left := VisitAll(g, next, |next|, entered);
      EnterIsSound(g, node, p, entered);
      FewerUnseen(g, node, p, entered);
      SuccessorsAreSound(g, node, next, |next|, entered, left);
      assert next[..|next|] == next;
      VisitNew(g, node, p, left);
      LeaveIsSound(g, node, left, q);
    }
  }

  /** These are nodes that an edge leads to from this one. */
  ghost predicate Follow(g: Graph, node: Node, next: seq<Node>) {
    Within(g, next) && forall m :: m in next ==> g.Edge(node, m)
  }

  lemma OneMoreIsSound(g: Graph, node: Node, next: seq<Node>, i: nat, p: Progress, q: Progress)
    requires Sound(g, p) && p.stack != [] && p.stack[|p.stack| - 1] == node
    requires Follow(g, node, next) && i < |next|
    requires Explored(p.visited, p.cycles, node, next[..i]) && q == Visit(g, next[i], p)
    ensures Sound(g, q) && Explored(q.visited, q.cycles, node, next[..i + 1])
    decreases Unseen(g, p), 1, 0
  {
    VisitIsSound(g, next[i], p, q);
    HandledIsExplored(p, q, node, next, i);
  }

  lemma {:induction false} SuccessorsAreSound(
    g: Graph, node: Node, next: seq<Node>, n: nat, p: Progress, q: Progress)
    requires Sound(g, p) && p.stack != [] && p.stack[|p.stack| - 1] == node
    requires Follow(g, node, next) && n <= |next|
    requires q == VisitAll(g, next, n, p)
    ensures Sound(g, q) && Explored(q.visited, q.cycles, node, next[..n])
    decreases Unseen(g, p), 2, n
  {
    if n == 0 {
    } else {
      var last := n - 1;
      var before := BeforeTheLast(g, next, last, n, p, q);
      SuccessorsAreSound(g, node, next, last, p, before);
      OneMoreIsSound(g, node, next, last, before, q);
    }
  }

  lemma BeforeTheLast(g: Graph, nodes: seq<Node>, last: nat, n: nat, p: Progress, q: Progress)
    returns (before: Progress)
    requires Inside(g, p) && Within(g, nodes) && n == last + 1 <= |nodes| && q == VisitAll(g, nodes, n, p)
    ensures before == VisitAll(g, nodes, last, p) && q == Visit(g, nodes[last], before)
    ensures Unseen(g, before) <= Unseen(g, p) && before.stack == p.stack
  {
    before := VisitAll(g, nodes, last, p);
    FewerOrSame(g, p, before);
  }

  lemma FewerOrSame(g: Graph, p: Progress, q: Progress)
    requires q.visiting == p.visiting && p.visited <= q.visited
    ensures Unseen(g, q) <= Unseen(g, p)
  {
  }

  lemma HandledIsExplored(p: Progress, q: Progress, node: Node, next: seq<Node>, i: nat)
    requires Extends(p, q) && i < |next| && Handled(q, next[i])
    requires p.stack != [] && p.stack[|p.stack| - 1] == node && Explored(p.visited, p.cycles, node, next[..i])
    ensures Explored(q.visited, q.cycles, node, next[..i + 1])
  {
    ExploredOneMore(p.visited, p.cycles, q.visited, q.cycles, node, next, i);
  }

  lemma OneMoreRoot(g: Graph, node: Node, p: Progress, q: Progress)
    requires Sound(g, p) && p.stack == [] && node in g.Nodes() && q == Visit(g, node, p)
    ensures Sound(g, q) && q.stack == [] && p.visited <= q.visited && node in q.visited
  {
    VisitIsSound(g, node, p, q);
  }

  /** From an empty stack, every node that is visited gets finished. */
  lemma {:induction false} RootsAreSound(g: Graph, roots: seq<Node>, n: nat, q: Progress)
    requires Within(g, roots) && n <= |roots| && q == VisitAll(g, roots, n, NOTHING_FOUND)
    ensures Sound(g, q) && q.stack == [] && forall i :: 0 <= i < n ==> roots[i] in q.visited
  {
    if n == 0 {
    } else {
      var last := n - 1;
      var before := BeforeTheLast(g, roots, last, n, NOTHING_FOUND, q);
      RootsAreSound(g, roots, last, before);
      OneMoreRoot(g, roots[last], before, q);
    }
  }

  // ---------------------------------------------------------------- the search, in place

  class Search {
    const graph: Graph
    var cycles: seq<seq<Node>>
    var visiting: set<Node>
    var visited: set<Node>
    var stack: seq<Node>
    ghost var finished: seq<Node>

    constructor (graph: Graph)
      ensures this.graph == graph && Current() == NOTHING_FOUND
    {
      this.graph := graph;
      cycles, visiting, visited, stack, finished := [], {}, {}, [], [];
    }

    ghost function Current(): Progress
      reads this
    {
      Progress(cycles, visiting, visited, stack, finished)
    }

    /** The first place of a node on the stack, or -1. */
    method IndexOf(node: Node) returns (index: int)
      ensures index == -1 <==> node !in stack
      ensures index == -1 || (0 <= index < |stack| && stack[index] == node && node !in stack[..index])
    {
      index := 0;
      while index < |stack|
        invariant 0 <= index <= |stack| && node !in stack[..index]
      {
        if stack[index] == node {
          return;
        }
        index := index + 1;
      }
      index := -1;
    }

    method RecordCycle(node: Node)
      modifies this`cycles
      ensures Current() == Recorded(old(Current()), node)
    {
      var idx := IndexOf(node);
      if idx >= 0 {
        FromIndex(stack, idx);
        cycles := cycles + [stack[idx..] + [node]];
      }
    }

    /** Visit `node`, reached from the top of the stack or as a root. */
    method Dfs(node: Node)
      requires Inside(graph, Current()) && node in graph.Nodes()
      modifies this
      ensures Current() == Visit(graph, node, old(Current()))
      decreases Unseen(graph, Current())
    {
      if node in visited {
        return;
      }
      if node in visiting {
        RecordCycle(node);
        return;
      }
      ghost var before := Current();
      visiting := visiting + {node};
      stack := stack + [node];
      ghost var entered := Current();
      var next := graph.Next(node);
      for i := 0 to |next|
        invariant Current() == VisitAll(graph, next, i, entered)
      {
        ghost var reached := Current();
        FewerUnseen(graph, node, before, reached);
        Dfs(next[i]);
        VisitOneMore(graph, next, i, entered, reached, Current());
      }
      VisitNew(graph, node, before, Current());
      stack := stack[..|stack| - 1];
      visiting := visiting - {node};
      visited := visited + {node};
      finished := finished + [node];
    }
  }

  // ---------------------------------------------------------------- one cycle per rotation class

  function Seen(unique: seq<seq<Node>>, key: string): bool {
    exists i :: 0 <= i < |unique| && Body(unique[i]) != [] && Key(Body(unique[i])) == key
  }

  /** Keep the first cycle of every key. */
  function UniqueOf(cycles: seq<seq<Node>>): seq<seq<Node>> {
    if cycles == [] then []
    else
      var unique, c := UniqueOf(cycles[..|cycles| - 1]), cycles[|cycles| - 1];
      if Body(c) == [] || Seen(unique, Key(Body(c))) then unique else unique + [c]
  }

  lemma SeenAppend(unique: seq<seq<Node>>, c: seq<Node>, key: string)
    requires Body(c) != []
    ensures Seen(unique + [c], key) <==> Seen(unique, key) || key == Key(Body(c))
  {
    var longer := unique + [c];
    assert longer[|unique|] == c;
    if Seen(unique, key) {
      var i :| 0 <= i < |unique| && Body(unique[i]) != [] && Key(Body(unique[i])) == key;
      assert longer[i] == unique[i];
    }
  }

  /** The cycle's key is new: no cycle before it has the same one. */
  ghost predicate FirstOfItsKey(cycles: seq<seq<Node>>, i: nat)
    requires i < |cycles|
  {
    Body(cycles[i]) != [] && forall j :: 0 <= j < i ==> !SameKey(cycles[j], cycles[i])
  }

  /** The kept cycles are those found at these places, in this order. */
  ghost predicate PickedAt(cycles: seq<seq<Node>>, unique: seq<seq<Node>>, places: seq<nat>) {
    && |places| == |unique|
    && (forall k :: 0 <= k < |places| ==> places[k] < |cycles| && unique[k] == cycles[places[k]])
    && (forall j, k :: 0 <= j < k < |places| ==> places[j] < places[k])
    && (forall i :: 0 <= i < |cycles| ==> (i in places <==> FirstOfItsKey(cycles, i)))
  }

  lemma SeenMeansSameKey(cycles: seq<seq<Node>>, c: seq<Node>)
    requires Body(c) != []
    ensures Seen(UniqueOf(cycles), Key(Body(c))) <==> exists j :: 0 <= j < |cycles| && SameKey(cycles[j], c)
  {
    var key := Key(Body(c));
    if Seen(UniqueOf(cycles), key) {
      UniqueHasDistinctKeys(cycles);
      var u :| u in UniqueOf(cycles) && Body(u) != [] && Key(Body(u)) == key;
      var j :| 0 <= j < |cycles| && cycles[j] == u;
      assert SameKey(cycles[j], c);
    }
    if j :| 0 <= j < |cycles| && SameKey(cycles[j], c) {
      UniqueCoversEveryKey(cycles, cycles[j]);
    }
  }

  lemma FirstStaysFirst(cycles: seq<seq<Node>>, last: nat, i: nat)
    requires i < last < |cycles|
    ensures FirstOfItsKey(cycles, i) <==> FirstOfItsKey(cycles[..last], i)
  {
    assert forall j :: 0 <= j <= i ==> cycles[..last][j] == cycles[j];
  }

  lemma PlacesOfLonger(cycles: seq<seq<Node>>, last: nat, places: seq<nat>, longer: seq<nat>)
    requires last + 1 == |cycles|
    requires forall i :: 0 <= i < last ==> (i in places <==> FirstOfItsKey(cycles[..last], i))
    requires longer == if FirstOfItsKey(cycles, last) then places + [last] else places
    requires last !in places
    ensures forall i :: 0 <= i < |cycles| ==> (i in longer <==> FirstOfItsKey(cycles, i))
  {
    forall i | 0 <= i < |cycles| ensures i in longer <==> FirstOfItsKey(cycles, i) {
      if i < last {
        FirstStaysFirst(cycles, last, i);
      }
    }
  }

  lemma OneMorePlace(cycles: seq<seq<Node>>, last: nat, unique: seq<seq<Node>>, places: seq<nat>)
    requires last + 1 == |cycles| && PickedAt(cycles[..last], unique, places)
    ensures
      if FirstOfItsKey(cycles, last) then PickedAt(cycles, unique + [cycles[last]], places + [last])
      else PickedAt(cycles, unique, places)
  {
    PlacesOfLonger(cycles, last, places, if FirstOfItsKey(cycles, last) then places + [last] else places);
  }

  lemma KeptIffFirst(cycles: seq<seq<Node>>, last: nat)
    requires last + 1 == |cycles|
    ensures UniqueOf(cycles) ==
      UniqueOf(cycles[..last]) + if FirstOfItsKey(cycles, last) then [cycles[last]] else []
  {
    var rest, c := cycles[..last], cycles[last];
    if Body(c) != [] {
      SeenMeansSameKey(rest, c);
      assert forall j :: 0 <= j < last ==> cycles[j] == rest[j];
    }
  }

  /** The first cycle of every key is kept and no other, in the order in which they were found. */
  lemma {:induction false} FirstOfEveryKeyIsKept(cycles: seq<seq<Node>>)
    returns (places: seq<nat>)
    ensures PickedAt(cycles, UniqueOf(cycles), places)
  {
    if cycles == [] {
      places := [];
    } else {
      var last := |cycles| - 1;
      places := FirstOfEveryKeyIsKept(cycles[..last]);
      OneMorePlace(cycles, last, UniqueOf(cycles[..last]), places);
      KeptIffFirst(cycles, last);
      places := if FirstOfItsKey(cycles, last) then places + [last] else places;
    }
  }

  /** These are the keys of the cycles kept so far. */
  ghost predicate KeysOf(seen: set<string>, unique: seq<seq<Node>>) {
    forall key :: key in seen <==> Seen(unique, key)
  }

  lemma OneMoreKey(seen: set<string>, unique: seq<seq<Node>>, c: seq<Node>, key: string)
    requires KeysOf(seen, unique) && Body(c) != [] && key == Key(Body(c))
    ensures KeysOf(seen + {key}, unique + [c])
  {
    forall k ensures k in seen + {key} <==> Seen(unique + [c], k) {
      SeenAppend(unique, c, k);
    }
  }

  lemma UniqueOneMore(cycles: seq<seq<Node>>, i: nat, unique: seq<seq<Node>>)
    requires i < |cycles| && unique == UniqueOf(cycles[..i])
    ensures UniqueOf(cycles[..i + 1]) ==
      if Body(cycles[i]) == [] || Seen(unique, Key(Body(cycles[i]))) then unique else unique + [cycles[i]]
  {
    assert cycles[..i + 1][..i] == cycles[..i];
  }

  method Deduplicate(cycles: seq<seq<Node>>) returns (unique: seq<seq<Node>>)
    ensures unique == UniqueOf(cycles)
  {
    var seen: set<string> := {};
    unique := [];
    for i := 0 to |cycles|
      invariant unique == UniqueOf(cycles[..i])
      invariant KeysOf(seen, unique)
    {
      UniqueOneMore(cycles, i, unique);
      var body := Body(cycles[i]);
      if body != [] {
        var key := Key(body);
        if key !in seen {
          OneMoreKey(seen, unique, cycles[i], key);
          seen := seen + {key};
          unique := unique + [cycles[i]];
        }
      }
    }
    assert cycles[..|cycles|] == cycles;
  }

  ghost predicate KeysDiffer(unique: seq<seq<Node>>) {
    forall i, j :: 0 <= i < j < |unique| && Body(unique[i]) != [] && Body(unique[j]) != [] ==>
      Key(Body(unique[i])) != Key(Body(unique[j]))
  }

  /** The kept cycles are found cycles, and no two of them have the same key. */
  lemma {:induction false} UniqueHasDistinctKeys(cycles: seq<seq<Node>>)
    ensures forall c :: c in UniqueOf(cycles) ==> c in cycles && Body(c) != []
    ensures KeysDiffer(UniqueOf(cycles))
  {
    if cycles == [] {
    } else {
      UniqueHasDistinctKeys(cycles[..|cycles| - 1]);
    }
  }

  /** Every found cycle is represented by a kept one with its key. */
  lemma {:induction false} UniqueCoversEveryKey(cycles: seq<seq<Node>>, c: seq<Node>)
    requires c in cycles && Body(c) != []
    ensures exists u :: u in UniqueOf(cycles) && Body(u) != [] && Key(Body(u)) == Key(Body(c))
  {
    var rest, last := cycles[..|cycles| - 1], cycles[|cycles| - 1];
    if c in rest {
      UniqueCoversEveryKey(rest, c);
      var u :| u in UniqueOf(rest) && Body(u) != [] && Key(Body(u)) == Key(Body(c));
      assert u in UniqueOf(cycles);
    } else {
      assert c == last;
      assert !Seen(UniqueOf(rest), Key(Body(c))) ==> c in UniqueOf(cycles);
    }
  }

  predicate ArrowFreeGraph(g: Graph) {
    forall n :: n in g.Nodes() ==> ARROW !in n
  }

  ghost predicate RotationFree(unique: seq<seq<Node>>) {
    forall i, j :: 0 <= i < j < |unique| ==> !IsRotation(Body(unique[i]), Body(unique[j]))
  }

  /** A rotation of the cycle is kept. */
  ghost predicate Kept(unique: seq<seq<Node>>, c: seq<Node>) {
    exists u :: u in unique && IsRotation(Body(u), Body(c))
  }

  ghost predicate AllKept(unique: seq<seq<Node>>, cycles: seq<seq<Node>>) {
    forall c :: c in cycles ==> Kept(unique, c)
  }

  /** Equal keys stand for rotations of one cycle. */
  ghost predicate KeysTellApart(cycles: seq<seq<Node>>) {
    forall c, d :: c in cycles && d in cycles && SameKey(c, d) ==> IsRotation(Body(c), Body(d))
  }

  predicate SameKey(c: seq<Node>, d: seq<Node>) {
    Body(c) != [] && Body(d) != [] && Key(Body(c)) == Key(Body(d))
  }

  /** No two kept cycles are rotations of each other. */
  lemma UniqueIsRotationFree(cycles: seq<seq<Node>>)
    ensures RotationFree(UniqueOf(cycles))
  {
    var unique := UniqueOf(cycles);
    UniqueHasDistinctKeys(cycles);
    forall i, j | 0 <= i < j < |unique| ensures !IsRotation(Body(unique[i]), Body(unique[j])) {
      assert unique[i] in unique && unique[j] in unique;
      if IsRotation(Body(unique[i]), Body(unique[j])) {
        RotationsShareTheirKey(Body(unique[i]), Body(unique[j]));
      }
    }
  }

  lemma TellingApartKeepsAll(cycles: seq<seq<Node>>, c: seq<Node>)
    requires KeysTellApart(cycles) && c in cycles && Body(c) != []
    ensures Kept(UniqueOf(cycles), c)
  {
    UniqueCoversEveryKey(cycles, c);
    UniqueHasDistinctKeys(cycles);
    var u :| u in UniqueOf(cycles) && Body(u) != [] && Key(Body(u)) == Key(Body(c));
    assert SameKey(u, c);
  }

  lemma KeptKeysTellApart(unique: seq<seq<Node>>, c: seq<Node>, d: seq<Node>)
    requires KeysDiffer(unique) && SameKey(c, d) && Kept(unique, c) && Kept(unique, d)
    ensures IsRotation(Body(c), Body(d))
  {
    var u :| u in unique && IsRotation(Body(u), Body(c));
    var v :| v in unique && IsRotation(Body(v), Body(d));
    RotationFacts(Body(u), Body(c));
    RotationFacts(Body(v), Body(d));
    RotationsShareTheirKey(Body(u), Body(c));
    RotationsShareTheirKey(Body(v), Body(d));
    SameKeySameCycle(unique, u, v);
    RotationsCompose(Body(c), Body(u), Body(d));
  }

  lemma SameKeySameCycle(unique: seq<seq<Node>>, u: seq<Node>, v: seq<Node>)
    requires KeysDiffer(unique) && u in unique && v in unique && SameKey(u, v)
    ensures u == v
  {
    var i :| 0 <= i < |unique| && unique[i] == u;
    var j :| 0 <= j < |unique| && unique[j] == v;
    assert i == j;
  }

  lemma KeepingAllTellsApart(unique: seq<seq<Node>>, cycles: seq<seq<Node>>)
    requires KeysDiffer(unique) && AllKept(unique, cycles)
    ensures KeysTellApart(cycles)
  {
    forall c, d | c in cycles && d in cycles && SameKey(c, d) ensures IsRotation(Body(c), Body(d)) {
      KeptKeysTellApart(unique, c, d);
    }
  }

  /** Every recorded cycle is a rotation of a kept one exactly when no two different ones share a key. */
  lemma AllKeptIffKeysTellApart(g: Graph, cycles: seq<seq<Node>>)
    requires forall c :: c in cycles ==> IsSimpleCycle(g, c)
    ensures AllKept(UniqueOf(cycles), cycles) <==> KeysTellApart(cycles)
  {
    if AllKept(UniqueOf(cycles), cycles) {
      UniqueHasDistinctKeys(cycles);
      KeepingAllTellsApart(UniqueOf(cycles), cycles);
    } else if KeysTellApart(cycles) {
      forall c | c in cycles ensures Kept(UniqueOf(cycles), c) {
        TellingApartKeepsAll(cycles, c);
      }
    }
  }

  /** Without arrows in node names keys tell all cycles of the graph apart. */
  lemma ArrowFreeKeysTellApart(g: Graph, cycles: seq<seq<Node>>)
    requires ArrowFreeGraph(g) && forall c :: c in cycles ==> IsSimpleCycle(g, c)
    ensures KeysTellApart(cycles)
  {
    forall c, d | c in cycles && d in cycles && SameKey(c, d) ensures IsRotation(Body(c), Body(d)) {
      CycleNodesAreGraphNodes(g, c);
      CycleNodesAreGraphNodes(g, d);
      EqualKeysMeanRotations(Body(c), Body(d));
    }
  }

  lemma CycleNodesAreGraphNodes(g: Graph, w: seq<Node>)
    requires IsClosedWalk(g, w)
    ensures forall i :: 0 <= i < |w| ==> w[i] in g.Nodes()
    ensures forall i :: 0 <= i < |w| - 1 ==> w[i] in g.successors
  {
    forall i | 0 <= i < |w| - 1 ensures w[i] in g.successors {
      assert g.Edge(w[i], w[i + 1]);
    }
  }

  lemma KeyOfALoop(name: string)
    ensures Key([name]) == name
  {
    assert Rotate([name], 0) == [name];
    assert Spellings([name]) == [name];
  }

  lemma KeyOfAPair()
    ensures Key(["a", "b"]) == ['a', ARROW, 'b']
  {
    var ab, ba := ['a', ARROW, 'b'], ['b', ARROW, 'a'];
    var spellings := Spellings(["a", "b"]);
    assert Rotate(["a", "b"], 0) == ["a", "b"] && Rotate(["a", "b"], 1) == ["b", "a"];
    assert Join(["a", "b"]) == "a" + [ARROW] + Join(["b"]) == ab;
    assert Join(["b", "a"]) == "b" + [ARROW] + Join(["a"]) == ba;
    assert spellings == [ab, ba];
    assert ab[0] < ba[0];
    assert spellings[0] in spellings;
  }

  // ---------------------------------------------------------------- what the search records

  /** Simple cycles only, and the closing edges of enough of them to meet every closed walk of the graph. */
  ghost predicate Records(g: Graph, found: seq<seq<Node>>) {
    && (forall c :: c in found ==> IsSimpleCycle(g, c))
    && (forall w :: IsClosedWalk(g, w) ==> Crosses(found, w))
  }

  ghost predicate OnCycle(c: seq<Node>, n: Node, m: Node) {
    exists j :: 0 <= j < |c| - 1 && c[j] == n && c[j + 1] == m
  }

  /** A rotation of a cycle runs along the same edges, its last one included. */
  lemma RotationKeepsTheLastEdge(g: Graph, u: seq<Node>, c: seq<Node>, n: Node, m: Node)
    requires IsSimpleCycle(g, u) && IsSimpleCycle(g, c) && IsRotation(Body(u), Body(c)) && LastEdge(c, n, m)
    ensures OnCycle(u, n, m)
  {
    var bu, bc, last := Body(u), Body(c), |c| - 2;
    var i: nat :| i <= |bu| && bc == Rotate(bu, i);
    assert n == bc[last] && m == bc[0];
    var j := if i == 0 then last else i - 1;
    assert u[j] == n && u[j + 1] == m;
  }

  /** Some edge of the walk lies on a returned cycle. */
  ghost predicate Meets(unique: seq<seq<Node>>, w: seq<Node>) {
    exists u, i :: u in unique && 0 <= i < |w| - 1 && OnCycle(u, w[i], w[i + 1])
  }

  lemma WalkMeetsAResult(g: Graph, found: seq<seq<Node>>, w: seq<Node>)
    requires Records(g, found) && AllKept(UniqueOf(found), found) && IsClosedWalk(g, w)
    ensures Meets(UniqueOf(found), w)
  {
    var unique := UniqueOf(found);
    var i :| 0 <= i < |w| - 1 && Closing(found, w[i], w[i + 1]);
    var k :| 0 <= k < |found| && LastEdge(found[k], w[i], w[i + 1]);
    var c := found[k];
    assert c in found && Kept(unique, c);
    var u :| u in unique && IsRotation(Body(u), Body(c));
    UniqueHasDistinctKeys(found);
    RotationKeepsTheLastEdge(g, u, c, w[i], w[i + 1]);
  }

  /** Every closed walk of the graph shares an edge with a returned cycle. */
  ghost predicate MeetsAll(g: Graph, unique: seq<seq<Node>>) {
    forall w :: IsClosedWalk(g, w) ==> Meets(unique, w)
  }

  /** When no two different recorded cycles share a key, the kept ones still meet every closed walk. */
  lemma ResultsMeetEveryClosedWalk(g: Graph, found: seq<seq<Node>>)
    requires Records(g, found) && KeysTellApart(found)
    ensures MeetsAll(g, UniqueOf(found))
  {
    AllKeptIffKeysTellApart(g, found);
    forall w | IsClosedWalk(g, w) ensures Meets(UniqueOf(found), w) {
      WalkMeetsAResult(g, found, w);
    }
  }

  // ---------------------------------------------------------------- arrows in names

  function ArrowGraph(): Graph {
    var ab := ['a', ARROW, 'b'];
    Graph([ab, "a", "b"], map[ab := [ab], "a" := ["b"], "b" := ["a"]])
  }

  lemma LoopIsRecorded(found: seq<seq<Node>>) returns (loop: seq<Node>)
    requires Records(ArrowGraph(), found)
    ensures loop in found && Body(loop) == [['a', ARROW, 'b']]
  {
    var g, ab := ArrowGraph(), ['a', ARROW, 'b'];
    var w := [ab, ab];
    assert IsClosedWalk(g, w) && Crosses(found, w);
    var k :| 0 <= k < |found| && LastEdge(found[k], ab, ab);
    loop := found[k];
    assert loop in found;
    var body := Body(loop);
    assert body[0] == ab && body[|body| - 1] == ab;
  }

  /** The pair of nodes is the only way round for a simple cycle that ends along one of its edges. */
  lemma PairCycle(c: seq<Node>, n: Node, m: Node)
    requires IsSimpleCycle(ArrowGraph(), c) && LastEdge(c, n, m)
    requires m in ["a", "b"] && ArrowGraph().Next(m) == [n]
    ensures Body(c) == [m, n]
  {
    var body := Body(c);
    assert body[0] == m && body[|body| - 1] == n;
    assert ArrowGraph().Edge(c[0], c[1]);
    assert c[1] == n;
    assert "a"[0] != "b"[0];
    if |body| == 1 {
      assert false;
    }
    assert body[1] == n;
  }

  lemma PairIsWalked()
    ensures IsClosedWalk(ArrowGraph(), ["a", "b", "a"])
  {
    var w := ["a", "b", "a"];
    assert ArrowGraph().Edge(w[0], w[1]) && ArrowGraph().Edge(w[1], w[2]);
  }

  lemma PairIsRecorded(found: seq<seq<Node>>) returns (pair: seq<Node>)
    requires Records(ArrowGraph(), found)
    ensures pair in found && (Body(pair) == ["a", "b"] || Body(pair) == ["b", "a"])
  {
    PairIsWalked();
    var w := ["a", "b", "a"];
    assert Crosses(found, w);
    var i :| 0 <= i < |w| - 1 && Closing(found, w[i], w[i + 1]);
    var k :| 0 <= k < |found| && LastEdge(found[k], w[i], w[i + 1]);
    pair := found[k];
    assert pair in found;
    if i == 0 {
      PairCycle(pair, "a", "b");
    } else {
      PairCycle(pair, "b", "a");
    }
  }

  lemma KeyOfThePair(body: seq<Node>)
    requires body == ["a", "b"] || body == ["b", "a"]
    ensures Key(body) == ['a', ARROW, 'b']
  {
    KeyOfAPair();
    assert Rotate(["a", "b"], 0) == ["a", "b"] && Rotate(["a", "b"], 1) == ["b", "a"];
    RotationsShareTheirKey(["a", "b"], body);
  }

  /**
   * With an arrow in a name the deduplication loses a cycle: whatever the search records on this graph, some recorded
   * cycle is no rotation of any kept one.
   */
  lemma ArrowsInNamesCollide(found: seq<seq<Node>>)
    requires Records(ArrowGraph(), found)
    ensures exists c :: c in found && !Kept(UniqueOf(found), c)
  {
    var loop := LoopIsRecorded(found);
    var pair := PairIsRecorded(found);
    KeyOfALoop(['a', ARROW, 'b']);
    KeyOfThePair(Body(pair));
    if AllKept(UniqueOf(found), found) {
      AllKeptIffKeysTellApart(ArrowGraph(), found);
      assert SameKey(loop, pair);
      RotationFacts(Body(loop), Body(pair));
      assert false;
    }
  }

  // ---------------------------------------------------------------- the whole function

  /** When every key of the graph is finished, the search has met every closed walk. */
  lemma FinishedMeansRecorded(g: Graph, found: seq<seq<Node>>, finished: seq<Node>)
    requires g.Valid() && Topological(g, found, finished) && forall n :: n in g.keys ==> n in finished
    requires forall c :: c in found ==> IsSimpleCycle(g, c)
    ensures Records(g, found) && (found != [] <==> HasCycle(g))
  {
    forall w | IsClosedWalk(g, w) ensures Crosses(found, w) {
      CycleNodesAreGraphNodes(g, w);
      assert w[|w| - 1] == w[0];
      ClosedWalksCross(g, found, finished, w);
    }
    if found != [] {
      assert found[0] in found;
    }
  }

  lemma KeptExactlyWhenFound(g: Graph, found: seq<seq<Node>>)
    requires forall c :: c in found ==> IsSimpleCycle(g, c)
    ensures UniqueOf(found) != [] <==> found != []
    ensures forall c :: c in UniqueOf(found) ==> IsSimpleCycle(g, c)
  {
    UniqueHasDistinctKeys(found);
    if found != [] {
      UniqueCoversEveryKey(found, found[0]);
    }
  }

  lemma DeduplicationKeeps(g: Graph, found: seq<seq<Node>>)
    requires Records(g, found)
    ensures RotationFree(UniqueOf(found)) && (AllKept(UniqueOf(found), found) <==> KeysTellApart(found))
    ensures KeysTellApart(found) ==> MeetsAll(g, UniqueOf(found))
    ensures ArrowFreeGraph(g) ==> KeysTellApart(found)
  {
    UniqueIsRotationFree(found);
    AllKeptIffKeysTellApart(g, found);
    if KeysTellApart(found) {
      ResultsMeetEveryClosedWalk(g, found);
    }
    if ArrowFreeGraph(g) {
      ArrowFreeKeysTellApart(g, found);
    }
  }

  /** Everything that holds of what the search recorded and of what is kept of it. */
  lemma FoundAndKept(g: Graph, found: seq<seq<Node>>, q: Progress)
    requires g.Valid() && q == VisitAll(g, g.keys, |g.keys|, NOTHING_FOUND) && found == q.cycles
    ensures var unique := UniqueOf(found);
      && (unique != [] <==> HasCycle(g)) && (forall c :: c in unique ==> IsSimpleCycle(g, c))
      && Records(g, found) && RotationFree(unique) && (AllKept(unique, found) <==> KeysTellApart(found))
      && (KeysTellApart(found) ==> MeetsAll(g, unique)) && (ArrowFreeGraph(g) ==> KeysTellApart(found))
  {
    RootsAreSound(g, g.keys, |g.keys|, q);
    FinishedMeansRecorded(g, found, q.finished);
    KeptExactlyWhenFound(g, found);
    DeduplicationKeeps(g, found);
  }

  /**
   * The result is empty exactly when the graph has no directed cycle; every returned path is a simple cycle along real
   * edges; and no two returned paths are rotations of each other.  `found` is what the search recorded: its closing
   * edges meet every closed walk.  Deduplication keeps a rotation of each of them exactly when equal keys mean
   * rotations, as they do without arrows in names.
   */
  method FindCycles(graph: Graph) returns (unique: seq<seq<Node>>, ghost found: seq<seq<Node>>)
    requires graph.Valid()
    ensures unique != [] <==> HasCycle(graph)
    ensures forall c :: c in unique ==> IsSimpleCycle(graph, c)
    ensures found == VisitAll(graph, graph.keys, |graph.keys|, NOTHING_FOUND).cycles && Records(graph, found)
    ensures unique == UniqueOf(found) && RotationFree(unique)
    ensures AllKept(unique, found) <==> KeysTellApart(found)
    ensures KeysTellApart(found) ==> MeetsAll(graph, unique)
    ensures ArrowFreeGraph(graph) ==> KeysTellApart(found)
  {
    var search := new Search(graph);
    for i := 0 to |graph.keys|
      invariant search.graph == graph && search.Current() == VisitAll(graph, graph.keys, i, NOTHING_FOUND)
    {
      ghost var reached := search.Current();
      search.Dfs(graph.keys[i]);
      VisitOneMore(graph, graph.keys, i, NOTHING_FOUND, reached, search.Current());
    }
    found := search.cycles;
    unique := Deduplicate(search.cycles);
    FoundAndKept(graph, found, search.Current());
  }
}

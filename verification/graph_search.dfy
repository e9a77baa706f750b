/** `dfs` and `bfs` over an adjacency `Map<T, T[]>`. The `visit` callback is modelled
    by the sequence of nodes it is called with, in call order. */
module GraphSearch {
  import opened Prelude

  type Graph<T> = map<T, seq<T>>

  /** `graph.get(node) || []` */
  function Neighbours<T>(g: Graph<T>, node: T): seq<T> {
    if node in g then g[node] else []
  }

  /** Every node a search from `start` can meet: `start` and the neighbour lists. */
  function Universe<T>(g: Graph<T>, start: T): (u: set<T>)
    ensures start in u
    ensures forall n, k :: n in u && 0 <= k < |Neighbours(g, n)| ==> Neighbours(g, n)[k] in u
  {
    {start} + set n, k | n in g && 0 <= k < |g[n]| :: g[n][k]
  }

  /** `p` follows edges of `g`: each node after the first is a neighbour of the one
      before it. */
  ghost predicate IsPath<T>(g: Graph<T>, p: seq<T>) {
    forall i :: 0 <= i < |p| - 1 ==> p[i + 1] in Neighbours(g, p[i])
  }

  /** Some path leads from `start` to `n`. */
  ghost predicate Reachable<T(!new)>(g: Graph<T>, start: T, n: T) {
    exists p :: |p| > 0 && p[0] == start && p[|p| - 1] == n && IsPath(g, p)
  }

  /** One more edge extends a path. */
  lemma ReachStep<T(!new)>(g: Graph<T>, start: T, n: T, x: T)
    requires Reachable(g, start, n) && x in Neighbours(g, n)
    ensures Reachable(g, start, x)
  {
    var p :| |p| > 0 && p[0] == start && p[|p| - 1] == n && IsPath(g, p);
    var q := p + [x];
    forall i | 0 <= i < |q| - 1
      ensures q[i + 1] in Neighbours(g, q[i])
    {
      if i < |p| - 1 {
        assert q[i] == p[i] && q[i + 1] == p[i + 1];
      }
    }
    assert q[0] == start && q[|q| - 1] == x && IsPath(g, q);
  }

  /** The nodes reachable from `start`. */
  ghost function ReachableSet<T(!new)>(g: Graph<T>, start: T): set<T> {
    set n | n in Universe(g, start) && Reachable(g, start, n)
  }

  /** Every neighbour of a node of `s` is in `s`. */
  ghost predicate EdgeClosed<T>(g: Graph<T>, s: set<T>) {
    forall n, k :: n in s && 0 <= k < |Neighbours(g, n)| ==> Neighbours(g, n)[k] in s
  }

  /** The reachable nodes include `start` and are closed under the edges. */
  lemma ReachableSetClosed<T(!new)>(g: Graph<T>, start: T)
    ensures start in ReachableSet(g, start)
    ensures EdgeClosed(g, ReachableSet(g, start))
  {
    var p := [start];
    assert p[0] == start && p[|p| - 1] == start && IsPath(g, p);
    forall n, k | n in ReachableSet(g, start) && 0 <= k < |Neighbours(g, n)|
      ensures Neighbours(g, n)[k] in ReachableSet(g, start)
    {
      ReachStep(g, start, n, Neighbours(g, n)[k]);
    }
  }

  /** A set of reachable nodes that holds `start` and is closed under the edges, with
      nothing else known about it. */
  lemma ReachableBound<T(!new)>(g: Graph<T>, start: T) returns (u: set<T>)
    ensures start in u && EdgeClosed(g, u)
    ensures forall n :: n in u ==> Reachable(g, start, n)
  {
    ReachableSetClosed(g, start);
    u := ReachableSet(g, start);
  }

  /** A path that starts in a set closed under the edges stays in it. */
  lemma {:induction false} PathStaysIn<T>(g: Graph<T>, p: seq<T>, s: set<T>)
    requires |p| > 0 && IsPath(g, p) && p[0] in s
    requires forall n, k :: n in s && 0 <= k < |Neighbours(g, n)| ==> Neighbours(g, n)[k] in s
    ensures p[|p| - 1] in s
    decreases |p|
  {
    if |p| > 1 {
      var q := p[..|p| - 1];
      forall i | 0 <= i < |q| - 1
        ensures q[i + 1] in Neighbours(g, q[i])
      {
        assert q[i] == p[i] && q[i + 1] == p[i + 1];
      }
      PathStaysIn(g, q, s);
      var m := p[|p| - 2];
      assert p[|p| - 1] in Neighbours(g, m);
      var k :| 0 <= k < |Neighbours(g, m)| && Neighbours(g, m)[k] == p[|p| - 1];
    }
  }

  /** A walk that visits `start`, only reachable nodes, and every neighbour of what
      it visits has visited exactly the reachable nodes. */
  lemma ExactlyReachable<T(!new)>(g: Graph<T>, start: T, order: seq<T>, visited: set<T>)
    requires visited == Elements(order) && start in visited
    requires forall n :: n in visited ==> Reachable(g, start, n)
    requires forall n, k :: n in visited && 0 <= k < |Neighbours(g, n)| ==> Neighbours(g, n)[k] in visited
    ensures forall n :: n in order <==> Reachable(g, start, n)
  {
    forall n
      ensures n in order <==> Reachable(g, start, n)
    {
      ElementsContains(order, n);
      if Reachable(g, start, n) {
        var p :| |p| > 0 && p[0] == start && p[|p| - 1] == n && IsPath(g, p);
        PathStaysIn(g, p, visited);
      }
    }
  }

  /** Every neighbour of a node in `nodes` is in `seen`. */
  ghost predicate Closed<T>(g: Graph<T>, nodes: set<T>, seen: set<T>) {
    forall n, k :: n in nodes && 0 <= k < |Neighbours(g, n)| ==> Neighbours(g, n)[k] in seen
  }

  /** The search's bookkeeping: the `visited` set and the `visit` calls so far, in
      order, each node once. */
  datatype Walk<T> = Walk(visited: set<T>, order: seq<T>)
  {
    ghost predicate Valid() {
      NoDup(order) && visited == Elements(order)
    }
  }

  /** The nodes of `s`, as a set. */
  function Elements<T>(s: seq<T>): (r: set<T>)
    decreases |s|
  {
    if |s| == 0 then {} else Elements(s[..|s| - 1]) + {s[|s| - 1]}
  }

  lemma {:induction false} ElementsContains<T>(s: seq<T>, x: T)
    ensures x in Elements(s) <==> x in s
    decreases |s|
  {
    if |s| > 0 {
      ElementsContains(s[..|s| - 1], x);
      assert s == s[..|s| - 1] + [s[|s| - 1]];
    }
  }

  lemma SubsetSize<T>(a: set<T>, b: set<T>)
    requires a <= b
    ensures |a| <= |b|
  {
    if a != {} {
      var x :| x in a;
      SubsetSize(a - {x}, b - {x});
    }
  }

  /** Visiting an unvisited node of the universe leaves fewer nodes to visit. */
  lemma VisitShrinks<T>(u: set<T>, visited: set<T>, node: T)
    requires node in u && node !in visited
    ensures |u - (visited + {node})| < |u - visited|
  {
    assert u - (visited + {node}) == (u - visited) - {node};
  }

  lemma VisitKeepsValid<T>(w: Walk<T>, node: T)
    requires w.Valid() && node !in w.visited
    ensures Walk(w.visited + {node}, w.order + [node]).Valid()
  {
    ElementsContains(w.order, node);
    assert (w.order + [node])[..|w.order|] == w.order;
  }

  /** The nodes first visited by `traverse(node)` are `node` and those first visited
      while walking its neighbours. */
  lemma ClosedAfterVisit<T>(g: Graph<T>, w: set<T>, node: T, r: set<T>)
    requires w + {node} <= r && node !in w
    requires Closed(g, r - (w + {node}), r)
    requires forall k :: 0 <= k < |Neighbours(g, node)| ==> Neighbours(g, node)[k] in r
    ensures Closed(g, r - w, r)
  {
  }

  /** Walking one neighbour and then the rest closes what both walks visited. */
  lemma ClosedChain<T>(g: Graph<T>, w: set<T>, w1: set<T>, r: set<T>)
    requires w <= w1 <= r
    requires Closed(g, w1 - w, w1) && Closed(g, r - w1, r)
    ensures Closed(g, r - w, r)
  {
  }

  /** `traverse(node)` */
  function Traverse<T(!new)>(g: Graph<T>, ghost u: set<T>, node: T, w: Walk<T>): (r: Walk<T>)
    requires node in u && w.visited <= u && w.Valid()
    requires forall n, k :: n in u && 0 <= k < |Neighbours(g, n)| ==> Neighbours(g, n)[k] in u
    ensures r.Valid() && w.visited <= r.visited <= u && node in r.visited
    ensures node !in w.visited ==> |r.order| > |w.order| && r.order[|w.order|] == node
    ensures |r.order| >= |w.order| && r.order[..|w.order|] == w.order
    ensures Closed(g, r.visited - w.visited, r.visited)
    decreases |u - w.visited|, 0
  {
    if node in w.visited then w
    else
      VisitShrinks(u, w.visited, node);
      VisitKeepsValid(w, node);
      var w1 := Walk(w.visited + {node}, w.order + [node]);
      var r := TraverseAll(g, u, Neighbours(g, node), w1);
      ClosedAfterVisit(g, w.visited, node, r.visited);
      assert w1.order[..|w.order|] == w.order;
      PrefixTrans(w.order, w1.order, r.order);
      assert r.order[|w.order|] == r.order[..|w1.order|][|w.order|];
      r
  }

  /** `for (const neighbor of neighbors) traverse(neighbor)` */
  function TraverseAll<T(!new)>(g: Graph<T>, ghost u: set<T>, ns: seq<T>, w: Walk<T>): (r: Walk<T>)
    requires (forall k :: 0 <= k < |ns| ==> ns[k] in u) && w.visited <= u && w.Valid()
    requires forall n, k :: n in u && 0 <= k < |Neighbours(g, n)| ==> Neighbours(g, n)[k] in u
    ensures r.Valid() && w.visited <= r.visited <= u
    ensures forall k :: 0 <= k < |ns| ==> ns[k] in r.visited
    ensures |r.order| >= |w.order| && r.order[..|w.order|] == w.order
    ensures Closed(g, r.visited - w.visited, r.visited)
    decreases |u - w.visited|, 1, |ns|
  {
    if |ns| == 0 then w
    else
      var w1 := Traverse(g, u, ns[0], w);
      SubsetSize(u - w1.visited, u - w.visited);
      var r := TraverseAll(g, u, ns[1..], w1);
      assert forall k :: 1 <= k < |ns| ==> ns[k] == ns[1..][k - 1];
      PrefixTrans(w.order, w1.order, r.order);
      ClosedChain(g, w.visited, w1.visited, r.visited);
      r
  }

  /** `dfs(graph, start, visit)`: the nodes in the order `visit` sees them, which are
      exactly the nodes reachable from `start`. */
  function Dfs<T(!new)>(g: Graph<T>, start: T): (order: seq<T>)
    ensures NoDup(order) && |order| > 0 && order[0] == start
    ensures forall n, k :: n in order && 0 <= k < |Neighbours(g, n)| ==> Neighbours(g, n)[k] in order
    ensures forall n :: n in order <==> Reachable(g, start, n)
  {
    ReachableSetClosed(g, start);
    var r := Traverse(g, ReachableSet(g, start), start, Walk({}, []));
    ExactlyReachable(g, start, r.order, r.visited);
    assert forall n, k :: n in r.order && 0 <= k < |Neighbours(g, n)| ==> Neighbours(g, n)[k] in r.order by {
      forall n, k | n in r.order && 0 <= k < |Neighbours(g, n)|
        ensures Neighbours(g, n)[k] in r.order
      {
        ElementsContains(r.order, n);
        ElementsContains(r.order, Neighbours(g, n)[k]);
      }
    }
    r.order
  }

  /** The inner loop of `bfs`: queue every neighbour not yet visited. */
  method EnqueueUnvisited<T>(queue: seq<T>, ns: seq<T>, visited: set<T>) returns (q: seq<T>)
    ensures |q| >= |queue| && q[..|queue|] == queue
    ensures forall k :: |queue| <= k < |q| ==> q[k] in ns
    ensures forall k :: 0 <= k < |ns| ==> ns[k] in visited || ns[k] in q
  {
    q := queue;
    var i := 0;
    while i < |ns|
      invariant 0 <= i <= |ns| && |q| >= |queue| && q[..|queue|] == queue
      invariant forall k :: |queue| <= k < |q| ==> q[k] in ns
      invariant forall k :: 0 <= k < i ==> ns[k] in visited || ns[k] in q
    {
      if ns[i] !in visited {
        q := q + [ns[i]];
      }
      i := i + 1;
    }
  }

  /** What `bfs` keeps: every neighbour of a visited node is visited or queued. */
  ghost predicate Frontier<T>(g: Graph<T>, visited: set<T>, queue: seq<T>) {
    forall n, k :: n in visited && 0 <= k < |Neighbours(g, n)| ==>
      Neighbours(g, n)[k] in visited || Neighbours(g, n)[k] in queue
  }

  /** Dequeuing an already visited node keeps the frontier. */
  lemma FrontierGrows<T>(g: Graph<T>, visited: set<T>, queue: seq<T>)
    requires Frontier(g, visited, queue) && |queue| > 0 && queue[0] in visited
    ensures Frontier(g, visited, queue[1..])
  {
    forall n, k | n in visited && 0 <= k < |Neighbours(g, n)|
      ensures Neighbours(g, n)[k] in visited || Neighbours(g, n)[k] in queue[1..]
    {
      var x := Neighbours(g, n)[k];
      if x !in visited {
        var i :| 0 <= i < |queue| && queue[i] == x;
        assert queue[1..][i - 1] == x;
      }
    }
  }

  /** Visiting the dequeued node and queuing its unvisited neighbours keeps the
      frontier. */
  lemma FrontierStep<T>(g: Graph<T>, visited: set<T>, queue: seq<T>, q: seq<T>)
    requires Frontier(g, visited, queue) && |queue| > 0
    requires |q| >= |queue| - 1 && q[..|queue| - 1] == queue[1..]
    requires forall k :: 0 <= k < |Neighbours(g, queue[0])| ==>
               Neighbours(g, queue[0])[k] in visited + {queue[0]} || Neighbours(g, queue[0])[k] in q
    ensures Frontier(g, visited + {queue[0]}, q)
  {
    var node := queue[0];
    forall i | 1 <= i < |queue|
      ensures queue[i] in q
    {
      assert q[..|queue| - 1][i - 1] == q[i - 1];
    }
    forall n, k | n in visited + {node} && 0 <= k < |Neighbours(g, n)|
      ensures Neighbours(g, n)[k] in visited + {node} || Neighbours(g, n)[k] in q
    {
      var x := Neighbours(g, n)[k];
      if n != node && x !in visited && x != node {
        var i :| 0 <= i < |queue| && queue[i] == x;
      }
    }
  }

  /** Every item of `s` is in `u`. */
  ghost predicate Within<T>(s: seq<T>, u: set<T>) {
    forall k :: 0 <= k < |s| ==> s[k] in u
  }

  /** Queuing neighbours of a node of the universe keeps the queue in the universe. */
  lemma EnqueuedWithin<T>(g: Graph<T>, u: set<T>, node: T, rest: seq<T>, q: seq<T>)
    requires node in u && Within(rest, u)
    requires forall n, k :: n in u && 0 <= k < |Neighbours(g, n)| ==> Neighbours(g, n)[k] in u
    requires |q| >= |rest| && q[..|rest|] == rest
    requires forall k :: |rest| <= k < |q| ==> q[k] in Neighbours(g, node)
    ensures Within(q, u)
  {
    forall k | 0 <= k < |q| ensures q[k] in u {
      if k < |rest| {
        assert q[..|rest|][k] == q[k];
      } else {
        assert q[k] in Neighbours(g, node);
        var i :| 0 <= i < |Neighbours(g, node)| && Neighbours(g, node)[i] == q[k];
      }
    }
  }

  /** The loop invariant of `bfs`: everything stays in the universe, `order` lists
      the visited nodes once each, starting at `start`, and the frontier holds. */
  ghost predicate Searching<T>(g: Graph<T>, u: set<T>, start: T, visited: set<T>, queue: seq<T>, order: seq<T>) {
    && visited <= u && Within(queue, u)
    && NoDup(order) && visited == Elements(order)
    && (|order| == 0 ==> |queue| > 0 && queue[0] == start)
    && (|order| > 0 ==> order[0] == start)
    && Frontier(g, visited, queue)
  }

  /** A dequeued node that was visited already is dropped. */
  lemma SearchSkip<T>(g: Graph<T>, u: set<T>, start: T, visited: set<T>, queue: seq<T>, order: seq<T>)
    requires Searching(g, u, start, visited, queue, order) && |queue| > 0 && queue[0] in visited
    ensures Searching(g, u, start, visited, queue[1..], order)
  {
    FrontierGrows(g, visited, queue);
    ElementsContains(order, queue[0]);
  }

  /** A dequeued node that was not visited is visited, and its unvisited neighbours
      are queued. */
  lemma SearchVisit<T>(g: Graph<T>, u: set<T>, start: T, visited: set<T>, queue: seq<T>, order: seq<T>, q: seq<T>)
    requires Searching(g, u, start, visited, queue, order) && |queue| > 0 && queue[0] !in visited
    requires EdgeClosed(g, u)
    requires |q| >= |queue| - 1 && q[..|queue| - 1] == queue[1..]
    requires forall k :: |queue| - 1 <= k < |q| ==> q[k] in Neighbours(g, queue[0])
    requires forall k :: 0 <= k < |Neighbours(g, queue[0])| ==>
               Neighbours(g, queue[0])[k] in visited + {queue[0]} || Neighbours(g, queue[0])[k] in q
    ensures Searching(g, u, start, visited + {queue[0]}, q, order + [queue[0]])
    ensures |u - (visited + {queue[0]})| < |u - visited|
  {
    var node := queue[0];
    VisitShrinks(u, visited, node);
    VisitKeepsValid(Walk(visited, order), node);
    FrontierStep(g, visited, queue, q);
    EnqueuedWithin(g, u, node, queue[1..], q);
  }

  /** `bfs(graph, start, visit)`: the nodes in the order `visit` sees them, which are
      exactly the nodes reachable from `start`. */
  method Bfs<T(!new)>(g: Graph<T>, start: T) returns (order: seq<T>)
    ensures NoDup(order) && |order| > 0 && order[0] == start
    ensures forall n, k :: n in order && 0 <= k < |Neighbours(g, n)| ==> Neighbours(g, n)[k] in order
    ensures forall n :: n in order <==> Reachable(g, start, n)
  {
    ghost var u := ReachableBound(g, start);
    var visited: set<T> := {};
    var queue := [start];
    order := [];
    while |queue| > 0
      invariant Searching(g, u, start, visited, queue, order)
      decreases |u - visited|, |queue|
    {
      var node := queue[0];
      if node in visited {
        SearchSkip(g, u, start, visited, queue, order);
        queue := queue[1..];
      } else {
        var q := EnqueueUnvisited(queue[1..], Neighbours(g, node), visited + {node});
        SearchVisit(g, u, start, visited, queue, order, q);
        visited := visited + {node};
        order := order + [node];
        queue := q;
      }
    }
    SearchDone(g, u, start, visited, order);
  }

  /** With the queue empty, the frontier says the visited nodes are closed under
      the edges. */
  lemma SearchDone<T(!new)>(g: Graph<T>, u: set<T>, start: T, visited: set<T>, order: seq<T>)
    requires Searching(g, u, start, visited, [], order)
    requires forall n :: n in u ==> Reachable(g, start, n)
    ensures NoDup(order) && |order| > 0 && order[0] == start
    ensures forall n, k :: n in order && 0 <= k < |Neighbours(g, n)| ==> Neighbours(g, n)[k] in order
    ensures forall n :: n in order <==> Reachable(g, start, n)
  {
    ElementsContains(order, start);
    ExactlyReachable(g, start, order, visited);
    forall n, k | n in order && 0 <= k < |Neighbours(g, n)|
      ensures Neighbours(g, n)[k] in order
    {
      ElementsContains(order, n);
      ElementsContains(order, Neighbours(g, n)[k]);
    }
  }
}

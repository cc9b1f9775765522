/**
 * The values the graph construction of the visualisation works on: nodes
 * reduced to their algorithmic fields, the adjacency list as a sequence of
 * slots, and the edge generation as functions of the random draws it makes.
 * The lemmas state what the construction guarantees (and what it does not).
 */
module Adjacency {

  /** The `distance` field of a node: JavaScript's `Infinity`, or a finite value. */
  datatype Distance = Infinity | Finite(value: real)

  /** A node without its mesh, coordinates and display name. */
  datatype Node = Node(nodeNum: int, distance: Distance, visited: int)

  /** An element of an adjacency slot: the `null` placed in slot 0, or a node. */
  datatype Entry = Null | NodeRef(node: Node)

  /** `adjList`: slot k holds the nodes that node number k points to. */
  type AdjList = seq<seq<Entry>>

  /** Which slot the duplicate test of a random edge inspects. */
  datatype GuardSlot =
    | AsWritten  // slot i, the loop index
    | Corrected  // slot nodes[i].nodeNum, the slot the edge is appended to

  /** A node as the Node constructor leaves it. */
  function FreshNode(nodeNum: int): Node
  {
    Node(nodeNum, Infinity, 0)
  }

  /** The node at index k carries the number k + 1. */
  ghost predicate Numbered(nodes: seq<Node>)
  {
    forall k :: 0 <= k < |nodes| ==> nodes[k].nodeNum == k + 1
  }

  /** Slot 0 holds a single null, every other slot is empty. */
  ghost predicate Initialized(adj: AdjList)
  {
    |adj| >= 1 && adj[0] == [Null] && forall k :: 1 <= k < |adj| ==> adj[k] == []
  }

  /** Every random draw picks an index into an array of n nodes. */
  ghost predicate Bounded(rand: nat -> nat, n: nat)
  {
    forall k :: rand(k) < n
  }

  /** `after` only appends to the slots of `before`: nothing is removed or reordered. */
  ghost predicate Grows(before: AdjList, after: AdjList)
  {
    |before| == |after| && forall k :: 0 <= k < |before| ==> before[k] <= after[k]
  }

  /** No slot k lists the node numbered k. */
  ghost predicate NoSelfLoops(adj: AdjList)
  {
    forall k, p :: 0 <= k < |adj| && 0 <= p < |adj[k]| ==>
      !(adj[k][p].NodeRef? && adj[k][p].node.nodeNum == k)
  }

  /** No entry occurs twice in a slot. */
  ghost predicate NoDuplicates(s: seq<Entry>)
  {
    forall p, q :: 0 <= p < q < |s| ==> s[p] != s[q]
  }

  /** Slot a lists a node numbered b. */
  ghost predicate HasEdge(adj: AdjList, a: int, b: int)
  {
    0 <= a < |adj| && exists e :: e in adj[a] && e.NodeRef? && e.node.nodeNum == b
  }

  ghost predicate IsPath(adj: AdjList, path: seq<int>)
  {
    forall q :: 0 <= q < |path| - 1 ==> HasEdge(adj, path[q], path[q + 1])
  }

  ghost predicate Reachable(adj: AdjList, a: int, b: int)
  {
    exists path :: |path| >= 1 && path[0] == a && path[|path| - 1] == b && IsPath(adj, path)
  }

  lemma GrowsTransitive(a: AdjList, b: AdjList, c: AdjList)
    requires Grows(a, b) && Grows(b, c)
    ensures Grows(a, c)
  {
  }

  /** `addEdge`: the target node is pushed onto the slot of the source node's number. */
  function AppendEdge(adj: AdjList, from: int, to: Node): (r: AdjList)
    requires 0 <= from < |adj|
  {
    adj[from := adj[from] + [NodeRef(to)]]
  }

  /** The test a random edge from nodes[i] to randNode has to pass. */
  function MayAddRandomEdge(adj: AdjList, nodes: seq<Node>, i: nat, randNode: Node, g: GuardSlot): bool
    requires Numbered(nodes) && |adj| == |nodes| + 1 && i < |nodes|
  {
    var inspected := if g == AsWritten then i else nodes[i].nodeNum;
    NodeRef(randNode) !in adj[inspected] && nodes[i].nodeNum != randNode.nodeNum
  }

  /**
   * The inner loop of `generateEdges` for node index i, from iteration j on,
   * with rand(t) the next draw (the loop bound, drawn again on every test).
   * Returns the adjacency list and the index of the first unused draw.
   */
  function RandomEdges(adj: AdjList, nodes: seq<Node>, i: nat, j: nat, t: nat,
                       rand: nat -> nat, g: GuardSlot): (r: (AdjList, nat))
    requires Numbered(nodes) && |adj| == |nodes| + 1 && i < |nodes| && Bounded(rand, |nodes|)
    ensures |r.0| == |adj|
    decreases |nodes| - j
  {
    if j < rand(t) then
      var randNode := nodes[rand(t + 1)];
      var next := if MayAddRandomEdge(adj, nodes, i, randNode, g)
                  then AppendEdge(adj, nodes[i].nodeNum, randNode) else adj;
      RandomEdges(next, nodes, i, j + 1, t + 2, rand, g)
    else
      (adj, t + 1)
  }

  /** The random edges of node index i only append, and only to slot i + 1. */
  lemma {:induction false} RandomEdgesShape(adj: AdjList, nodes: seq<Node>, i: nat, j: nat, t: nat,
                                            rand: nat -> nat, g: GuardSlot)
    requires Numbered(nodes) && |adj| == |nodes| + 1 && i < |nodes| && Bounded(rand, |nodes|)
    ensures Grows(adj, RandomEdges(adj, nodes, i, j, t, rand, g).0)
    ensures forall k :: 0 <= k < |adj| && k != i + 1 ==> RandomEdges(adj, nodes, i, j, t, rand, g).0[k] == adj[k]
    decreases |nodes| - j
  {
    if j < rand(t) {
      var randNode := nodes[rand(t + 1)];
      var next := if MayAddRandomEdge(adj, nodes, i, randNode, g)
                  then AppendEdge(adj, nodes[i].nodeNum, randNode) else adj;
      RandomEdgesShape(next, nodes, i, j + 1, t + 2, rand, g);
      GrowsTransitive(adj, next, RandomEdges(next, nodes, i, j + 1, t + 2, rand, g).0);
    }
  }

  /**
   * The outer loop of `generateEdges` from node index i on, with rand(t) the
   * next draw: the ring edge nodes[i] -> nodes[i+1], then the random edges of nodes[i].
   */
  function RingAndRandomFrom(adj: AdjList, nodes: seq<Node>, i: nat, t: nat,
                             rand: nat -> nat, g: GuardSlot): (r: AdjList)
    requires Numbered(nodes) && |adj| == |nodes| + 1 && Bounded(rand, |nodes|)
    ensures |r| == |adj|
    decreases |nodes| - i
  {
    if i + 1 < |nodes| then
      var ringed := AppendEdge(adj, nodes[i].nodeNum, nodes[i + 1]);
      var (next, t') := RandomEdges(ringed, nodes, i, 0, t, rand, g);
      RingAndRandomFrom(next, nodes, i + 1, t', rand, g)
    else
      adj
  }

  /** The outer loop only appends, and never to slot 0 or slot N. */
  lemma {:induction false} RingAndRandomShape(adj: AdjList, nodes: seq<Node>, i: nat, t: nat,
                                              rand: nat -> nat, g: GuardSlot)
    requires Numbered(nodes) && |adj| == |nodes| + 1 && Bounded(rand, |nodes|)
    ensures Grows(adj, RingAndRandomFrom(adj, nodes, i, t, rand, g))
    ensures RingAndRandomFrom(adj, nodes, i, t, rand, g)[0] == adj[0]
    ensures RingAndRandomFrom(adj, nodes, i, t, rand, g)[|nodes|] == adj[|nodes|]
    decreases |nodes| - i
  {
    if i + 1 < |nodes| {
      var ringed := AppendEdge(adj, nodes[i].nodeNum, nodes[i + 1]);
      var (next, t') := RandomEdges(ringed, nodes, i, 0, t, rand, g);
      RandomEdgesShape(ringed, nodes, i, 0, t, rand, g);
      RingAndRandomShape(next, nodes, i + 1, t', rand, g);
      GrowsTransitive(adj, ringed, next);
      GrowsTransitive(adj, next, RingAndRandomFrom(next, nodes, i + 1, t', rand, g));
    }
  }

  /** `generateEdges`: the edge nodes[N-1] -> nodes[0], then the loop over i < N - 1. */
  function GeneratedEdges(adj: AdjList, nodes: seq<Node>, rand: nat -> nat, g: GuardSlot): AdjList
    requires Numbered(nodes) && |nodes| >= 1 && |adj| == |nodes| + 1 && Bounded(rand, |nodes|)
  {
    RingAndRandomFrom(AppendEdge(adj, nodes[|nodes| - 1].nodeNum, nodes[0]), nodes, 0, 0, rand, g)
  }

  /** Edge generation only appends; slot 0 keeps its null and nothing else. */
  lemma GeneratedEdgesGrows(adj: AdjList, nodes: seq<Node>, rand: nat -> nat, g: GuardSlot)
    requires Numbered(nodes) && |nodes| >= 1 && |adj| == |nodes| + 1 && Bounded(rand, |nodes|)
    ensures Grows(adj, GeneratedEdges(adj, nodes, rand, g))
    ensures GeneratedEdges(adj, nodes, rand, g)[0] == adj[0]
  {
    var closed := AppendEdge(adj, nodes[|nodes| - 1].nodeNum, nodes[0]);
    RingAndRandomShape(closed, nodes, 0, 0, rand, g);
    GrowsTransitive(adj, closed, GeneratedEdges(adj, nodes, rand, g));
  }

  // ---------------------------------------------------------------------------
  // The ring
  // ---------------------------------------------------------------------------

  lemma {:induction false} RingAndRandomRing(adj: AdjList, nodes: seq<Node>, i: nat, t: nat,
                                             rand: nat -> nat, g: GuardSlot)
    requires Numbered(nodes) && |adj| == |nodes| + 1 && Bounded(rand, |nodes|)
    ensures forall k :: i < k < |nodes| ==> NodeRef(nodes[k]) in RingAndRandomFrom(adj, nodes, i, t, rand, g)[k]
    decreases |nodes| - i
  {
    if i + 1 < |nodes| {
      var ringed := AppendEdge(adj, nodes[i].nodeNum, nodes[i + 1]);
      var (next, t') := RandomEdges(ringed, nodes, i, 0, t, rand, g);
      var r := RingAndRandomFrom(next, nodes, i + 1, t', rand, g);
      assert r == RingAndRandomFrom(adj, nodes, i, t, rand, g);
      RingAndRandomRing(next, nodes, i + 1, t', rand, g);
      RandomEdgesShape(ringed, nodes, i, 0, t, rand, g);
      RingAndRandomShape(next, nodes, i + 1, t', rand, g);
      var e := NodeRef(nodes[i + 1]);
      assert ringed[i + 1][|ringed[i + 1]| - 1] == e;
      assert next[i + 1][|ringed[i + 1]| - 1] == e;
      assert r[i + 1][|ringed[i + 1]| - 1] == e;
    }
  }

  /**
   * Whatever the random draws, node N lists node 1 and every node k < N lists
   * node k + 1.
   */
  lemma GeneratedEdgesRing(adj: AdjList, nodes: seq<Node>, rand: nat -> nat, g: GuardSlot)
    requires Numbered(nodes) && |nodes| >= 1 && |adj| == |nodes| + 1 && Bounded(rand, |nodes|)
    ensures NodeRef(nodes[0]) in GeneratedEdges(adj, nodes, rand, g)[|nodes|]
    ensures forall k :: 1 <= k < |nodes| ==> NodeRef(nodes[k]) in GeneratedEdges(adj, nodes, rand, g)[k]
  {
    var n := |nodes|;
    var closed := AppendEdge(adj, nodes[n - 1].nodeNum, nodes[0]);
    RingAndRandomRing(closed, nodes, 0, 0, rand, g);
    RingAndRandomShape(closed, nodes, 0, 0, rand, g);
    assert closed[n][|closed[n]| - 1] == NodeRef(nodes[0]);
  }

  /** The next node number around the ring 1 -> 2 -> ... -> n -> 1. */
  function Succ(a: int, n: int): int
  {
    if a == n then 1 else a + 1
  }

  /** Number of ring steps from a to b. */
  function RingDistance(a: int, b: int, n: int): int
  {
    if a <= b then b - a else n - a + b
  }

  /** The walk a, Succ(a), ..., b around the ring. */
  function RingWalk(a: int, b: int, n: int): (path: seq<int>)
    requires 1 <= a <= n && 1 <= b <= n
    ensures |path| >= 1 && path[0] == a && path[|path| - 1] == b
    ensures forall q :: 0 <= q < |path| - 1 ==> path[q + 1] == Succ(path[q], n)
    ensures forall q :: 0 <= q < |path| ==> 1 <= path[q] <= n
    decreases RingDistance(a, b, n)
  {
    if a == b then [a] else [a] + RingWalk(Succ(a, n), b, n)
  }

  /** With the ring edges present, every node reaches every other node. */
  lemma RingStronglyConnected(adj: AdjList, n: nat)
    requires |adj| == n + 1 && n >= 1
    requires forall k :: 1 <= k <= n ==> HasEdge(adj, k, Succ(k, n))
    ensures forall a, b :: 1 <= a <= n && 1 <= b <= n ==> Reachable(adj, a, b)
  {
    forall a, b | 1 <= a <= n && 1 <= b <= n
      ensures Reachable(adj, a, b)
    {
      var path := RingWalk(a, b, n);
      assert IsPath(adj, path);
    }
  }

  /** Every node is reachable from every other node along adjacency edges. */
  lemma GeneratedEdgesStronglyConnected(adj: AdjList, nodes: seq<Node>, rand: nat -> nat, g: GuardSlot)
    requires Numbered(nodes) && |nodes| >= 1 && |adj| == |nodes| + 1 && Bounded(rand, |nodes|)
    ensures forall a, b :: 1 <= a <= |nodes| && 1 <= b <= |nodes| ==>
      Reachable(GeneratedEdges(adj, nodes, rand, g), a, b)
  {
    var n := |nodes|;
    var r := GeneratedEdges(adj, nodes, rand, g);
    GeneratedEdgesRing(adj, nodes, rand, g);
    forall k | 1 <= k <= n
      ensures HasEdge(r, k, Succ(k, n))
    {
      if k == n {
        assert NodeRef(nodes[0]) in r[n];
      } else {
        assert NodeRef(nodes[k]) in r[k];
      }
    }
    RingStronglyConnected(r, n);
  }

  // ---------------------------------------------------------------------------
  // Self-loops
  // ---------------------------------------------------------------------------

  lemma {:induction false} RandomEdgesNoSelfLoops(adj: AdjList, nodes: seq<Node>, i: nat, j: nat, t: nat,
                                                  rand: nat -> nat, g: GuardSlot)
    requires Numbered(nodes) && |adj| == |nodes| + 1 && i < |nodes| && Bounded(rand, |nodes|)
    requires NoSelfLoops(adj)
    ensures NoSelfLoops(RandomEdges(adj, nodes, i, j, t, rand, g).0)
    decreases |nodes| - j
  {
    if j < rand(t) {
      var randNode := nodes[rand(t + 1)];
      var next := if MayAddRandomEdge(adj, nodes, i, randNode, g)
                  then AppendEdge(adj, nodes[i].nodeNum, randNode) else adj;
      assert NoSelfLoops(next);
      RandomEdgesNoSelfLoops(next, nodes, i, j + 1, t + 2, rand, g);
    }
  }

  lemma {:induction false} RingAndRandomNoSelfLoops(adj: AdjList, nodes: seq<Node>, i: nat, t: nat,
                                                    rand: nat -> nat, g: GuardSlot)
    requires Numbered(nodes) && |adj| == |nodes| + 1 && Bounded(rand, |nodes|)
    requires NoSelfLoops(adj)
    ensures NoSelfLoops(RingAndRandomFrom(adj, nodes, i, t, rand, g))
    decreases |nodes| - i
  {
    if i + 1 < |nodes| {
      var ringed := AppendEdge(adj, nodes[i].nodeNum, nodes[i + 1]);
      assert NoSelfLoops(ringed);
      var (next, t') := RandomEdges(ringed, nodes, i, 0, t, rand, g);
      RandomEdgesNoSelfLoops(ringed, nodes, i, 0, t, rand, g);
      RingAndRandomNoSelfLoops(next, nodes, i + 1, t', rand, g);
    }
  }

  /**
   * With at least two nodes, edge generation adds no edge from a node to
   * itself: the random edges are guarded, and the ring edges join distinct nodes.
   */
  lemma GeneratedEdgesNoSelfLoops(adj: AdjList, nodes: seq<Node>, rand: nat -> nat, g: GuardSlot)
    requires Numbered(nodes) && |nodes| >= 2 && |adj| == |nodes| + 1 && Bounded(rand, |nodes|)
    requires NoSelfLoops(adj)
    ensures NoSelfLoops(GeneratedEdges(adj, nodes, rand, g))
  {
    var closed := AppendEdge(adj, nodes[|nodes| - 1].nodeNum, nodes[0]);
    assert NoSelfLoops(closed);
    RingAndRandomNoSelfLoops(closed, nodes, 0, 0, rand, g);
  }

  /** With a single node the closing ring edge is the self-loop 1 -> 1. */
  lemma SingleNodeSelfLoop(adj: AdjList, nodes: seq<Node>, rand: nat -> nat, g: GuardSlot)
    requires Numbered(nodes) && |nodes| == 1 && |adj| == 2 && Bounded(rand, 1)
    ensures !NoSelfLoops(GeneratedEdges(adj, nodes, rand, g))
  {
    var r := GeneratedEdges(adj, nodes, rand, g);
    assert r[1][|r[1]| - 1] == NodeRef(nodes[0]);
  }

  // ---------------------------------------------------------------------------
  // Repeated edges
  // ---------------------------------------------------------------------------

  /**
   * As written, "no edge will be repeated" does not hold: from the initial
   * adjacency list, a first bound draw of at least 1 followed by the pick of
   * nodes[1] appends node 2 to slot 1 a second time, because the duplicate test
   * looked at slot 0.
   */
  lemma DuplicateEdgeAsWritten(adj: AdjList, nodes: seq<Node>, rand: nat -> nat)
    requires Numbered(nodes) && |nodes| >= 2 && |adj| == |nodes| + 1 && Bounded(rand, |nodes|)
    requires Initialized(adj)
    requires rand(0) >= 1 && rand(1) == 1
    ensures |GeneratedEdges(adj, nodes, rand, AsWritten)[1]| >= 2
    ensures GeneratedEdges(adj, nodes, rand, AsWritten)[1][0] == NodeRef(nodes[1])
    ensures GeneratedEdges(adj, nodes, rand, AsWritten)[1][1] == NodeRef(nodes[1])
    ensures !NoDuplicates(GeneratedEdges(adj, nodes, rand, AsWritten)[1])
  {
    var n := |nodes|;
    var closed := AppendEdge(adj, nodes[n - 1].nodeNum, nodes[0]);
    assert closed[1] == [] && closed[0] == [Null];
    var ringed := AppendEdge(closed, nodes[0].nodeNum, nodes[1]);
    assert ringed[1] == [NodeRef(nodes[1])];
    assert MayAddRandomEdge(ringed, nodes, 0, nodes[1], AsWritten);
    var twice := AppendEdge(ringed, 1, nodes[1]);
    assert twice[1] == [NodeRef(nodes[1]), NodeRef(nodes[1])];
    var (next, t') := RandomEdges(twice, nodes, 0, 1, 2, rand, AsWritten);
    assert RandomEdges(ringed, nodes, 0, 0, 0, rand, AsWritten) == (next, t');
    var r := RingAndRandomFrom(next, nodes, 1, t', rand, AsWritten);
    assert r == GeneratedEdges(adj, nodes, rand, AsWritten);
    RandomEdgesShape(twice, nodes, 0, 1, 2, rand, AsWritten);
    RingAndRandomShape(next, nodes, 1, t', rand, AsWritten);
    assert twice[1] <= r[1];
  }

  lemma {:induction false} RandomEdgesNoDuplicates(adj: AdjList, nodes: seq<Node>, i: nat, j: nat, t: nat,
                                                   rand: nat -> nat)
    requires Numbered(nodes) && |adj| == |nodes| + 1 && i < |nodes| && Bounded(rand, |nodes|)
    requires NoDuplicates(adj[i + 1])
    ensures NoDuplicates(RandomEdges(adj, nodes, i, j, t, rand, Corrected).0[i + 1])
    decreases |nodes| - j
  {
    if j < rand(t) {
      var randNode := nodes[rand(t + 1)];
      var next := if MayAddRandomEdge(adj, nodes, i, randNode, Corrected)
                  then AppendEdge(adj, nodes[i].nodeNum, randNode) else adj;
      assert NoDuplicates(next[i + 1]);
      RandomEdgesNoDuplicates(next, nodes, i, j + 1, t + 2, rand);
    }
  }

  lemma {:induction false} RingAndRandomNoDuplicates(adj: AdjList, nodes: seq<Node>, i: nat, t: nat,
                                                     rand: nat -> nat)
    requires Numbered(nodes) && |adj| == |nodes| + 1 && Bounded(rand, |nodes|)
    requires forall k :: 0 <= k < |adj| ==> NoDuplicates(adj[k])
    requires forall k :: i < k < |nodes| ==> adj[k] == []
    ensures forall k :: 0 <= k < |adj| ==> NoDuplicates(RingAndRandomFrom(adj, nodes, i, t, rand, Corrected)[k])
    decreases |nodes| - i
  {
    if i + 1 < |nodes| {
      var ringed := AppendEdge(adj, nodes[i].nodeNum, nodes[i + 1]);
      assert ringed[i + 1] == [NodeRef(nodes[i + 1])];
      var (next, t') := RandomEdges(ringed, nodes, i, 0, t, rand, Corrected);
      RandomEdgesNoDuplicates(ringed, nodes, i, 0, t, rand);
      RandomEdgesShape(ringed, nodes, i, 0, t, rand, Corrected);
      RingAndRandomNoDuplicates(next, nodes, i + 1, t', rand);
    }
  }

  /**
   * With the duplicate test moved to the slot the edge is appended to, edge
   * generation from the initial adjacency list never lists a node twice in a slot.
   */
  lemma CorrectedEdgesNoDuplicates(adj: AdjList, nodes: seq<Node>, rand: nat -> nat)
    requires Numbered(nodes) && |nodes| >= 1 && |adj| == |nodes| + 1 && Bounded(rand, |nodes|)
    requires Initialized(adj)
    ensures forall k :: 0 <= k < |adj| ==> NoDuplicates(GeneratedEdges(adj, nodes, rand, Corrected)[k])
  {
    var n := |nodes|;
    var closed := AppendEdge(adj, nodes[n - 1].nodeNum, nodes[0]);
    assert closed[n] == [NodeRef(nodes[0])];
    RingAndRandomNoDuplicates(closed, nodes, 0, 0, rand);
  }
}

/**
 * The graph construction of the visualisation script: the global node array
 * and adjacency list, filled in place by `addNode`, `initAdjacencyList`,
 * `addEdge` and `generateEdges`, and the top-level sequence that runs them.
 * `Math.random` becomes the oracle `rand`: the k-th draw, already scaled and
 * floored, is rand(k).
 */
module Demo {
  import opened Adjacency

  /** Number of nodes in the graph. */
  const NUM_NODES: nat := 5

  class Graph {
    /** `nodeArray`: node index i holds node number i + 1 once filled. */
    var nodeArray: array<Node>
    /** `adjList`: one slot per node number, plus slot 0. */
    var adjList: array<seq<Entry>>

    /** Allocates the node array and an adjacency list one slot longer. */
    constructor (numNodes: nat)
      ensures nodeArray.Length == numNodes && adjList.Length == numNodes + 1
      ensures fresh(nodeArray) && fresh(adjList)
    {
      nodeArray := new Node[numNodes];
      adjList := new seq<Entry>[numNodes + 1];
    }

    /** `addNode`: fills the node array with fresh nodes numbered 1 to N. */
    method AddNode()
      modifies nodeArray
      ensures forall k :: 0 <= k < nodeArray.Length ==> nodeArray[k] == FreshNode(k + 1)
      ensures Numbered(nodeArray[..])
    {
      for i := 0 to nodeArray.Length
        invariant forall k :: 0 <= k < i ==> nodeArray[k] == FreshNode(k + 1)
      {
        var nodeNum := i + 1;
        nodeArray[i] := FreshNode(nodeNum);
      }
    }

    /** `initAdjacencyList`: slot 0 becomes [null], every other slot empty. */
    method InitAdjacencyList()
      requires adjList.Length >= 1
      modifies adjList
      ensures Initialized(adjList[..])
    {
      for i := 0 to adjList.Length
        invariant i >= 1 ==> adjList[0] == [Null]
        invariant forall k :: 1 <= k < i ==> adjList[k] == []
      {
        if i == 0 {
          adjList[i] := [Null];
        } else {
          adjList[i] := [];
        }
      }
    }

    /** `addEdge`: node2 is appended to the slot of node1's number; no other slot changes. */
    method AddEdge(node1: Node, node2: Node)
      requires 0 <= node1.nodeNum < adjList.Length
      modifies adjList
      ensures adjList[..] == AppendEdge(old(adjList[..]), node1.nodeNum, node2)
    {
      adjList[node1.nodeNum] := adjList[node1.nodeNum] + [NodeRef(node2)];
    }

    /**
     * `generateEdges`: the ring edge from the last node to the first, then for
     * each i < N - 1 the ring edge nodes[i] -> nodes[i+1] and a random number
     * of random edges, each guarded by a test on slot i.
     */
    method GenerateEdges(rand: nat -> nat)
      requires nodeArray.Length >= 1 && adjList.Length == nodeArray.Length + 1
      requires Numbered(nodeArray[..]) && Bounded(rand, nodeArray.Length)
      modifies adjList
      ensures adjList[..] == GeneratedEdges(old(adjList[..]), nodeArray[..], rand, AsWritten)
      ensures Grows(old(adjList[..]), adjList[..])
    {
      var n := nodeArray.Length;
      ghost var nodes := nodeArray[..];
      ghost var start := adjList[..];
      AddEdge(nodeArray[n - 1], nodeArray[0]);
      ghost var closed := adjList[..];
      var t := 0;
      for i := 0 to n - 1
        invariant RingAndRandomFrom(adjList[..], nodes, i, t, rand, AsWritten)
               == RingAndRandomFrom(closed, nodes, 0, 0, rand, AsWritten)
      {
        ghost var before := adjList[..];
        AddEdge(nodeArray[i], nodeArray[i + 1]);
        ghost var ringed := adjList[..];
        assert ringed == AppendEdge(before, nodes[i].nodeNum, nodes[i + 1]);
        ghost var t0 := t;
        var j := 0;
        while j < rand(t)
          invariant j <= n
          invariant RandomEdges(adjList[..], nodes, i, j, t, rand, AsWritten)
                 == RandomEdges(ringed, nodes, i, 0, t0, rand, AsWritten)
          decreases n - j
        {
          ghost var current := adjList[..];
          var randNode := nodeArray[rand(t + 1)];
          if NodeRef(randNode) !in adjList[i] && nodeArray[i].nodeNum != randNode.nodeNum {
            AddEdge(nodeArray[i], randNode);
          }
          assert randNode == nodes[rand(t + 1)];
          assert adjList[..] == if MayAddRandomEdge(current, nodes, i, randNode, AsWritten)
                                then AppendEdge(current, nodes[i].nodeNum, randNode) else current;
          assert RandomEdges(current, nodes, i, j, t, rand, AsWritten)
              == RandomEdges(adjList[..], nodes, i, j + 1, t + 2, rand, AsWritten);
          j := j + 1;
          t := t + 2;
        }
        assert RandomEdges(ringed, nodes, i, 0, t0, rand, AsWritten) == (adjList[..], t + 1);
        assert RingAndRandomFrom(before, nodes, i, t0, rand, AsWritten)
            == RingAndRandomFrom(adjList[..], nodes, i + 1, t + 1, rand, AsWritten);
        t := t + 1;
      }
      GeneratedEdgesGrows(start, nodes, rand, AsWritten);
    }
  }

  /**
   * The top-level script: create the nodes, allocate and initialise the
   * adjacency list, generate the edges. The result has the ring, no edge from a
   * node to itself, and every node reaches every other.
   */
  method Setup(rand: nat -> nat) returns (g: Graph)
    requires Bounded(rand, NUM_NODES)
    ensures g.nodeArray.Length == NUM_NODES && g.adjList.Length == NUM_NODES + 1
    ensures forall k :: 0 <= k < NUM_NODES ==> g.nodeArray[k] == FreshNode(k + 1)
    ensures g.adjList[0] == [Null]
    ensures NodeRef(g.nodeArray[0]) in g.adjList[NUM_NODES]
    ensures forall k :: 1 <= k < NUM_NODES ==> NodeRef(g.nodeArray[k]) in g.adjList[k]
    ensures NoSelfLoops(g.adjList[..])
    ensures forall a, b :: 1 <= a <= NUM_NODES && 1 <= b <= NUM_NODES ==> Reachable(g.adjList[..], a, b)
  {
    g := new Graph(NUM_NODES);
    g.AddNode();
    g.InitAdjacencyList();
    ghost var initial := g.adjList[..];
    g.GenerateEdges(rand);
    ghost var nodes := g.nodeArray[..];
    GeneratedEdgesGrows(initial, nodes, rand, AsWritten);
    GeneratedEdgesRing(initial, nodes, rand, AsWritten);
    GeneratedEdgesNoSelfLoops(initial, nodes, rand, AsWritten);
    GeneratedEdgesStronglyConnected(initial, nodes, rand, AsWritten);
  }
}

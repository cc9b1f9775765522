# Graph construction of the Dijkstra visualisation

The script `dijkstra/main.js` builds a random directed graph before drawing it. The steps are:

1. `addNode` fills the global `nodeArray` with `NUM_NODES` (5) nodes numbered 1 to N. Each node starts with `distance = Infinity` and `visited = 0`.
2. `adjList` is allocated with N + 1 slots. `initAdjacencyList` puts a single `null` in slot 0 and an empty list in every other slot.
3. `addEdge(node1, node2)` pushes `node2` onto `adjList[node1.nodeNum]`.
4. `generateEdges` first adds the edge N → 1. Then, for each index i < N − 1, it adds the ring edge i+1 → i+2, followed by a random number of random edges from `nodeArray[i]`. Each random edge is added only if it passes a test: "the target is not in `adjList[i]` and is not the source itself".

This project models those four steps and the top-level sequence that runs them. It proves:

- what each step leaves in the arrays;
- that edge generation only appends;
- that the ring is always present, so every node reaches every other;
- that no edge is a self-loop once N ≥ 2;
- that the duplicate test does not prevent repeated edges, and that testing the right slot would.

The file contains no shortest-path algorithm, priority queue or path reconstruction. `distance` and `visited` are only initialised, never read.

Layout:

- `adjacency.dfy` (module `Adjacency`): the values and the lemmas.
  - A node is reduced to `nodeNum`, `distance` and `visited`.
  - A slot entry is `Null` or `NodeRef(node)`. The adjacency list is a `seq<seq<Entry>>`.
  - Edge generation is written as functions of the random draws: `RandomEdges` for the inner loop, `RingAndRandomFrom` for the outer loop, and `GeneratedEdges` for the whole function.
  - These functions take a `GuardSlot` that says which slot the duplicate test reads: `AsWritten` (slot i) or `Corrected` (slot `nodeArray[i].nodeNum`).
  - The ring, self-loop and reachability lemmas hold for both guards.
- `demo.dfy` (module `Demo`): the class `Graph`.
  - Its fields are the two global arrays, `nodeArray: array<Node>` and `adjList: array<seq<Entry>>`.
  - It has one method per JavaScript function. These methods update the arrays in place with the same loops as the source.
  - `GenerateEdges` is proved equal to `GeneratedEdges(…, AsWritten)`.
  - `Setup` runs the script's sequence of calls and states the guarantees of the finished graph.

`Math.random` is an oracle `rand: nat -> nat`. `rand(k)` is the k-th value of `Math.floor(Math.random()*nodeArray.length)`, so every draw is below N. Draws are used in program order. For each i, the loop bound is drawn first. Then each inner iteration draws a pick and then draws the bound again, because the `for` test is evaluated again each time.

Notes on the code:

- `addEdge` stores no weight and has no self-loop or duplicate test. A node whose number has no slot makes it throw a TypeError, and so does an undefined node (see Left out).
- Self-loop and duplicate tests exist only in `generateEdges`, and the duplicate test reads the wrong slot (see Findings).
- `visited` is the number 0.

## Model

| member | source | states |
|---|---|---|
| `Demo.Graph.constructor` | dijkstra/main.js:129 | the adjacency list has one slot more than the node array (N + 1 slots for N nodes) |
| `Demo.Graph.AddNode` | dijkstra/main.js:103-117 | afterwards node index k holds node number k + 1 with distance Infinity and visited 0, for every k < N, so node numbers are 1-based and distinct |
| `Demo.Graph.InitAdjacencyList` | dijkstra/main.js:137-147 | afterwards slot 0 is exactly [null] and every slot 1..N is empty |
| `Demo.Graph.AddEdge` | dijkstra/main.js:161-177 | the slot of node1's number becomes its old contents with node2 appended; every other slot, slot 0 included, is unchanged |
| `Demo.Graph.GenerateEdges` | dijkstra/main.js:189-206 | the nested loops leave exactly the adjacency list that `GeneratedEdges` computes from the old list and the draws, using the as-written guard; the old list is a slot-wise prefix of the new one |
| `Demo.Setup` | dijkstra/main.js:119-209 | after the script's calls: N nodes numbered 1..N, N + 1 slots, slot 0 still [null], the ring edges present, no self-loops, and every node reachable from every node, for every sequence of draws |
| `Adjacency.RandomEdges` | dijkstra/main.js:196-204 | the inner loop, with its bound drawn again on every test and its pick drawn in the body, never adds or removes a slot |
| `Adjacency.RingAndRandomFrom` | dijkstra/main.js:193-205 | the outer loop (ring edge, then random edges, for each i < N − 1) never adds or removes a slot |
| `Adjacency.RandomEdgesShape` | dijkstra/main.js:196-204 | the random edges of index i only append (no entry removed or reordered), and only to slot i + 1; every other slot is unchanged |
| `Adjacency.RingAndRandomShape` | dijkstra/main.js:193-205 | the outer loop only appends, and leaves slot 0 and slot N unchanged |
| `Adjacency.GeneratedEdgesGrows` | dijkstra/main.js:189-206 | edge generation only appends: each old slot is a prefix of the new slot, in insertion order, and slot 0 keeps its single null |
| `Adjacency.RingAndRandomRing` | dijkstra/main.js:193-195 | from index i on, every slot k with i < k < N ends up listing node k + 1, whatever the draws |
| `Adjacency.GeneratedEdgesRing` | dijkstra/main.js:190-195 | after edge generation slot N lists node 1, and every slot k in 1..N−1 lists node k + 1, whatever the draws |
| `Adjacency.RingWalk` | dijkstra/main.js:184-186 | the walk a, a+1, …, N, 1, …, b starts at a, ends at b, stays within 1..N and takes one ring step at a time |
| `Adjacency.RingStronglyConnected` | dijkstra/main.js:184-186 | if every node k has its ring edge to the next node around the ring, every node reaches every node |
| `Adjacency.GeneratedEdgesStronglyConnected` | dijkstra/main.js:184-195 | after edge generation every node in 1..N is reachable from every node in 1..N along adjacency edges |
| `Adjacency.RandomEdgesNoSelfLoops` | dijkstra/main.js:199-203 | a random edge is never a self-loop: the inner loop keeps an adjacency list that has no self-loops free of them |
| `Adjacency.RingAndRandomNoSelfLoops` | dijkstra/main.js:193-205 | the ring edges i+1 → i+2 and the guarded random edges add no self-loop |
| `Adjacency.GeneratedEdgesNoSelfLoops` | dijkstra/main.js:189-206 | with N ≥ 2, edge generation adds no edge from a node to itself |
| `Adjacency.SingleNodeSelfLoop` | dijkstra/main.js:190 | with N = 1, the closing ring edge is the self-loop 1 → 1 |
| `Adjacency.DuplicateEdgeAsWritten` | dijkstra/main.js:195-203 | as written, from the initialised list, a first bound draw ≥ 1 and a first pick of index 1 make slot 1 start with node 2 twice, so "no edge will be repeated" does not hold |
| `Adjacency.RandomEdgesNoDuplicates` | dijkstra/main.js:199-203 | with the corrected guard, the random edges never repeat an entry of the slot they are appended to |
| `Adjacency.RingAndRandomNoDuplicates` | dijkstra/main.js:193-205 | with the corrected guard, the outer loop keeps every slot free of repeats while the slots it has not reached are still empty |
| `Adjacency.CorrectedEdgesNoDuplicates` | dijkstra/main.js:183 | with the corrected guard, edge generation from the initialised list never lists a node twice in one slot |

## Findings

| source | as written | input that shows it | evidently intended | confidence | as-written member | corrected member |
|---|---|---|---|---|---|---|
| dijkstra/main.js:201 | the duplicate test reads `adjList[i]`, but the edge is appended to `adjList[nodeArray[i].nodeNum]`, which is `adjList[i+1]` | i = 0: the ring edge 1 → 2 is added; the first bound draw is ≥ 1; the first pick is `nodeArray[1]`; slot 0 holds only null, so the test passes and slot 1 becomes [node 2, node 2] | test `adjList[nodeArray[i].nodeNum]`, so that no edge is repeated | high; not executed | `Adjacency.DuplicateEdgeAsWritten` | `Adjacency.CorrectedEdgesNoDuplicates` |

`Demo.Graph.GenerateEdges` keeps the as-written guard because it models the program. The corrected guard is the `Corrected` case of `GuardSlot`. The ring, self-loop and reachability lemmas are stated for both guards.

## Left out

- The THREE.js scene, camera, renderer, lights, grid and orbit controls. These are rendering glue over a library that is not part of this model.
- The node's mesh, colour, random coordinates and display name (`nodeName`). They are used only for drawing and logging.
- The arrow drawn by `addEdge` (direction, length, scene update). This is floating-point geometry, and no weight is stored in the adjacency list.
- `Math.random` itself. It is replaced by the oracle `rand`, whose draws are assumed to lie in [0, N).
- `consoleConnectionsLog` (console output), `animate` (the browser render loop) and index.js (the static HTTP server).
- Dijkstra's algorithm, a priority queue and path reconstruction. None of them exists in `dijkstra/main.js`.
- `Demo.Graph.AddEdge` requires node1's number to have a slot in the adjacency list. For any other node the script throws a TypeError at `adjList[node1.nodeNum].push`, and it throws at `node1.coord` when node1 is undefined. The model does not represent that error. Every call in `generateEdges` passes a node numbered 1..N, which always has a slot.
- `Demo.Graph.GenerateEdges` requires N ≥ 1. With N = 0 the script reads `nodeArray[-1]` and throws when `addEdge` reads its `coord`. `NUM_NODES` is 5, so this never happens.
- `Demo.Graph.constructor` allocates `nodeArray` at its final length. The script instead starts from `[]` and grows it by index assignment, which gives the same contents.
- The adjacency list holds node values, not references. `includes` compares references, and value equality gives the same answer because node numbers are distinct.

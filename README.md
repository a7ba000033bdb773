# JUNG views over a TinkerPop property graph

This project models a read-only adapter. The adapter presents a TinkerPop
property graph through JUNG's graph-algorithm query interfaces. It has two
views:

- `JungHyperGraph` (the `Hypergraph` contract) answers enumeration, membership,
  incidence, neighbour, degree, edge-type, source/destination and
  predecessor/successor queries, and endpoint-pair lookup (`findEdge`,
  `findEdgeSet`). It rejects every mutation.
- `JungGraph` (the `Graph` contract) is built on the first view. It adds the
  predecessor/successor predicates and counts, the source/destination
  predicates, endpoint pairs and the opposite endpoint. Its `addEdge`
  overloads are rejected as well.

The adapter's only field is the store, and that field is final. So every view
is modelled as functions of a store value `g`.

- `TinkerStore` (`tinker_store.dfy`) holds the store model:
  - `Vertex(id)` and `Edge(id, outV, inV)`;
  - `Store(vertices, edges)`, each kept in iteration order;
  - the traversals `v.edges(d)`, `v.vertices(d)` and `e.vertices(Both)`, as
    `EdgesOf`, `VerticesOf` and `EndsOf`.
- `findEdge` and `findEdgeSet` are loops in the source. They are modelled as
  methods with loop invariants, and both are proved against the reference set
  `EdgesBetween(g, v1, v2)`.
- Mutators return an `Attempt`: the outcome (`Unsupported`, or `Returned(b)`)
  plus the store after the call.
- `ChainClient.ChainScenario` (`chain_scenario.dfy`) works through the store
  with vertices A, B, C and edges A -> B and B -> C. The results of
  `FindEdge` and `FindEdgeSet` follow from their contracts. The list queries
  are evaluated from their definitions over the store.

Where the code and its doc comments disagree, the model follows the code:

- `isPredecessor(v1, v2)` tests whether `v2` is among the predecessors of
  `v1`. The doc comment at `JungGraph.java:17` reads the other way round.
- `getOpposite` returns the source for a vertex that does not touch the edge;
  it does not reject the call.
- `getNeighbors`, `findEdgeSet` and the other queries never return null for an
  absent vertex, although their doc comments say they may.
- `getIncidentCount` always returns 2, a self-loop included: the incident
  vertices of a self-loop are `[v, v]`. The doc comment at
  `JungHyperGraph.java:373-374` allows 1 for a self-loop.

## Model

| member | source | states |
|---|---|---|
| `JungHyperGraph.GetEdges` | src/main/java/JungHyperGraph.java:33-35 | lists every store edge, and nothing else, one entry per stored edge |
| `JungHyperGraph.GetVertices` | src/main/java/JungHyperGraph.java:45-47 | lists every store vertex, and nothing else, one entry per stored vertex |
| `JungHyperGraph.ContainsVertex` | src/main/java/JungHyperGraph.java:57-59 | lookup by the "id" value holds exactly when the vertex is in the vertex enumeration |
| `JungHyperGraph.ContainsEdge` | src/main/java/JungHyperGraph.java:69-71 | every enumerated edge is found; a found edge shares its id with some store edge |
| `JungHyperGraph.ContainsEdgeIsMembership` | src/main/java/JungHyperGraph.java:61-71 | when ids identify edges, lookup by id holds exactly when the edge is in the edge enumeration |
| `JungHyperGraph.GetEdgeCount` | src/main/java/JungHyperGraph.java:79-81 | the edge count is the length of the edge enumeration |
| `JungHyperGraph.GetVertexCount` | src/main/java/JungHyperGraph.java:89-91 | the vertex count is the length of the vertex enumeration |
| `JungHyperGraph.GetNeighbors` | src/main/java/JungHyperGraph.java:104-106 | a duplicate-free set holding exactly the vertices joined to the vertex by some edge, in either direction; a self-loop makes the vertex its own neighbour |
| `JungHyperGraph.GetIncidentEdges` | src/main/java/JungHyperGraph.java:116-118 | holds exactly the store edges that leave or enter the vertex; in a store that lists each edge once, lists each of them once |
| `JungHyperGraph.GetIncidentVertices` | src/main/java/JungHyperGraph.java:132-134 | exactly two vertices: the edge's source, then its destination |
| `JungHyperGraph.FindEdge` | src/main/java/JungHyperGraph.java:161-168 | `None` exactly when no edge leads from v1 to v2; otherwise an edge from v1 to v2, namely the first of v1's out-edges that enters v2 |
| `JungHyperGraph.FindEdgeSet` | src/main/java/JungHyperGraph.java:193-201 | exactly the set of edges from v1 to v2; empty, not absent, when there is none |
| `JungHyperGraph.FindEdgeAndSet` | src/main/java/JungHyperGraph.java:136-201 | `findEdge` gives none exactly when `findEdgeSet` is empty, and otherwise returns a member of that set |
| `JungHyperGraph.AddVertex` | src/main/java/JungHyperGraph.java:212-215 | always rejected as unsupported; the store is unchanged |
| `JungHyperGraph.AddEdge` | src/main/java/JungHyperGraph.java:236-238 | always returns false without throwing; the store is unchanged |
| `JungHyperGraph.AddEdgeOfType` | src/main/java/JungHyperGraph.java:261-264 | always rejected as unsupported; the store is unchanged |
| `JungHyperGraph.RemoveVertex` | src/main/java/JungHyperGraph.java:283-286 | always rejected as unsupported; the store is unchanged |
| `JungHyperGraph.RemoveEdge` | src/main/java/JungHyperGraph.java:296-299 | always rejected as unsupported; the store is unchanged |
| `JungHyperGraph.IsNeighbor` | src/main/java/JungHyperGraph.java:310-312 | holds exactly when some store edge joins the two vertices in either direction (membership in `GetNeighbors`) |
| `JungHyperGraph.NeighborSymmetric` | src/main/java/JungHyperGraph.java:302-312 | the neighbour relation is symmetric |
| `JungHyperGraph.IsIncident` | src/main/java/JungHyperGraph.java:326-328 | the vertex-side test (edge among the incident edges) agrees with the edge-side test (store edge whose incident vertices hold the vertex) |
| `JungHyperGraph.Degree` | src/main/java/JungHyperGraph.java:352-354 | the size of the incident-edge list; zero exactly when no store edge is incident |
| `JungHyperGraph.DegreeBounds` | src/main/java/JungHyperGraph.java:330-354 | in-degree and out-degree each at most the degree, and the degree at most their sum |
| `JungHyperGraph.DegreeWithoutSelfLoop` | src/main/java/JungHyperGraph.java:339-354 | for a vertex with no incident self-loop, the degree equals in-degree plus out-degree |
| `JungHyperGraph.DegreeCountsIncidentEdges` | src/main/java/JungHyperGraph.java:330-354 | in a store that lists each edge once, the degree is the number of distinct edges touching the vertex, a self-loop counted once |
| `JungHyperGraph.GetNeighborCount` | src/main/java/JungHyperGraph.java:367-369 | the size of the neighbour set |
| `JungHyperGraph.NeighborCountAtMostDegree` | src/main/java/JungHyperGraph.java:335-369 | the neighbour count never exceeds the degree |
| `JungHyperGraph.NeighborCountEqualsDegree` | src/main/java/JungHyperGraph.java:335-369 | when the store lists each edge once, the vertex has no self-loop and at most one edge joins it to each neighbour, the neighbour count equals the degree |
| `JungHyperGraph.GetIncidentCount` | src/main/java/JungHyperGraph.java:382-384 | the size of the incident-vertex list, which is always 2 |
| `JungHyperGraph.GetEdgeType` | src/main/java/JungHyperGraph.java:393-395 | every edge is reported as `Directed` |
| `JungHyperGraph.GetDefaultEdgeType` | src/main/java/JungHyperGraph.java:403-405 | the default type is `Directed` |
| `JungHyperGraph.GetEdgesOfType` | src/main/java/JungHyperGraph.java:416-418 | equals the full edge enumeration, whatever type is asked for |
| `JungHyperGraph.GetEdgeCountOfType` | src/main/java/JungHyperGraph.java:427-429 | the size of the typed list, which is the full edge count for every type |
| `JungHyperGraph.GetInEdges` | src/main/java/JungHyperGraph.java:440-442 | holds exactly the store edges that enter the vertex; in a store that lists each edge once, lists each of them once |
| `JungHyperGraph.GetOutEdges` | src/main/java/JungHyperGraph.java:453-455 | holds exactly the store edges that leave the vertex; in a store that lists each edge once, lists each of them once |
| `JungHyperGraph.InDegree` | src/main/java/JungHyperGraph.java:465-467 | the size of the in-edge list, at most the edge count |
| `JungHyperGraph.InDegreeCountsInEdges` | src/main/java/JungHyperGraph.java:457-467 | in a store that lists each edge once, the in-degree is the number of distinct edges entering the vertex |
| `JungHyperGraph.OutDegree` | src/main/java/JungHyperGraph.java:477-479 | the size of the out-edge list, at most the edge count |
| `JungHyperGraph.OutDegreeCountsOutEdges` | src/main/java/JungHyperGraph.java:469-479 | in a store that lists each edge once, the out-degree is the number of distinct edges leaving the vertex |
| `JungHyperGraph.GetSource` | src/main/java/JungHyperGraph.java:493-495 | the one vertex that has the edge among its out-edges |
| `JungHyperGraph.GetDest` | src/main/java/JungHyperGraph.java:510-512 | the one vertex that has the edge among its in-edges |
| `JungHyperGraph.GetPredecessors` | src/main/java/JungHyperGraph.java:526-528 | the source of each in-edge, in in-edge order; holds exactly the vertices with an edge into the vertex |
| `JungHyperGraph.GetSuccessors` | src/main/java/JungHyperGraph.java:542-544 | the destination of each out-edge, in out-edge order; holds exactly the vertices the vertex has an edge into |
| `JungGraph.IsPredecessor` | src/main/java/JungGraph.java:25-27 | `isPredecessor(v1, v2)` holds exactly when some edge leads from v2 into v1 |
| `JungGraph.IsSuccessor` | src/main/java/JungGraph.java:38-40 | `isSuccessor(v1, v2)` holds exactly when some edge leads from v1 into v2 |
| `JungGraph.PredecessorIsConverseSuccessor` | src/main/java/JungGraph.java:16-40 | `isPredecessor(a, b)` holds exactly when `isSuccessor(b, a)` does, and then a and b are neighbours of each other |
| `JungGraph.GetPredecessorCount` | src/main/java/JungGraph.java:50-52 | equals the in-degree, so parallel edges count separately |
| `JungGraph.GetSuccessorCount` | src/main/java/JungGraph.java:62-64 | equals the out-degree, so parallel edges count separately |
| `JungGraph.IsSource` | src/main/java/JungGraph.java:75-77 | holds exactly when the vertex is the edge's out-vertex; for a store edge, exactly when the edge is among the vertex's out-edges |
| `JungGraph.IsDest` | src/main/java/JungGraph.java:88-90 | holds exactly when the vertex is the edge's in-vertex; for a store edge, exactly when the edge is among the vertex's in-edges |
| `JungGraph.AddEdgeBetween` | src/main/java/JungGraph.java:112-115 | always rejected as unsupported; the store is unchanged |
| `JungGraph.AddEdgeBetweenOfType` | src/main/java/JungGraph.java:138-141 | always rejected as unsupported; the store is unchanged |
| `JungGraph.GetEndpoints` | src/main/java/JungGraph.java:150-152 | the pair (source, destination): its first satisfies `IsSource`, its second `IsDest`, and in that order they are the incident vertices |
| `JungGraph.GetOpposite` | src/main/java/JungGraph.java:163-167 | an incident vertex of the edge: the destination when given the source, the source otherwise; for an incident vertex, the result is joined to it by the edge |
| `JungGraph.OppositeInvolution` | src/main/java/JungGraph.java:154-167 | for an edge with distinct endpoints and an incident vertex, the opposite differs from that vertex and the opposite of the opposite is that vertex; for a self-loop the opposite is the vertex itself |

## Left out

- `TestImplementation.java` is a demo driver. It runs JUNG's PageRank and Dijkstra (external algorithms) on a sample graph and prints the results. It is not part of this model.
- The TinkerPop traversal engine, `IteratorUtils` and `CollectionUtils` are foreign code. The model replaces them with the store functions in `TinkerStore`. These functions rest on assumptions:
  - `v.edges(d)` lists the matching store edges in store order, each once. The model therefore picks one behaviour for self-loops: a self-loop appears once in `v.edges(Both)`;
  - `v.vertices(d)` lists the far end of each edge of `v.edges(d)`;
  - `e.vertices(Both)` is `[outVertex, inVertex]`.
- `JungHyperGraph.Degree`: the doc comment's "a self-loop is counted once" is not claimed for the real store. The code takes the size of the store's `Both` traversal, and whether the real store lists a self-loop once or twice is not visible. The model lists it once. These facts hold under either listing:
  - the bounds `DegreeBounds` and `NeighborCountAtMostDegree`, for every vertex;
  - the equalities `DegreeWithoutSelfLoop` and `NeighborCountEqualsDegree`, for a vertex with no incident self-loop.
  These facts depend on the once-listing choice at a vertex with a self-loop: the bound `|GetIncidentEdges| <= GetEdgeCount` in `GetIncidentEdges`, its no-repeats clause, and `DegreeCountsIncidentEdges`. A store that listed the self-loop A -> A twice would give A two incident-edge entries for one edge.
  The self-loop case of "degree = in-degree + out-degree - self-loops" is left open.
- `JungHyperGraph.ContainsVertex`, `JungHyperGraph.ContainsEdge`: the store's "id" property index is modelled as a search for an element with the same identifier. A missing "id" property, which fails inside the store, is not modelled.
- The null results that the doc comments promise for absent vertices or edges are not modelled, because the code never checks for absence.
- Java `equals`/`hashCode` are modelled as value equality of vertices and edges. `HashSet` iteration order is not modelled: the sets are Dafny sets.
- Exception message text is not modelled. A rejected mutation is the distinguishable outcome `Unsupported`.
- Java `int` results are modelled as unbounded `nat`. A collection larger than 2^31 - 1 elements is not modelled.
- Thread safety, store failures and store changes between calls belong to the store. Each call reads one store snapshot `g`.

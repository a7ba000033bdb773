/** The directed-graph view: JUNG's `Graph` contract built on the hypergraph
    view, with exactly two endpoints per edge, a fixed source and
    destination, and predecessor/successor predicates. */
module JungGraph {
  import opened TinkerStore
  import opened JungHyperGraph

  /** JUNG's ordered endpoint pair. */
  datatype Pair = Pair(first: Vertex, second: Vertex)

  /** Holds when `v2` is a predecessor of `v1`, that is when some edge leads
      from `v2` into `v1` (the argument order of the code, see
      `PredecessorIsConverseSuccessor`). */
  function IsPredecessor(g: Store, v1: Vertex, v2: Vertex): (r: bool)
    ensures r <==> exists e :: e in g.edges && e.outV == v2 && e.inV == v1
  {
    v2 in GetPredecessors(g, v1)
  }

  /** Holds when `v2` is a successor of `v1`, that is when some edge leads
      from `v1` into `v2`. */
  function IsSuccessor(g: Store, v1: Vertex, v2: Vertex): (r: bool)
    ensures r <==> exists e :: e in g.edges && e.outV == v1 && e.inV == v2
  {
    v2 in GetSuccessors(g, v1)
  }

  /** `IsPredecessor(a, b)` and `IsSuccessor(b, a)` both say that an edge
      leads from `b` to `a`; each of them implies the two vertices are
      neighbours. */
  lemma PredecessorIsConverseSuccessor(g: Store, a: Vertex, b: Vertex)
    ensures IsPredecessor(g, a, b) <==> IsSuccessor(g, b, a)
    ensures IsPredecessor(g, a, b) ==> IsNeighbor(g, a, b) && IsNeighbor(g, b, a)
  {
  }

  /** Predecessors are counted per incoming edge, parallel edges included. */
  function GetPredecessorCount(g: Store, vertex: Vertex): (r: nat)
    ensures r == InDegree(g, vertex)
  {
    |GetPredecessors(g, vertex)|
  }

  /** Successors are counted per outgoing edge, parallel edges included. */
  function GetSuccessorCount(g: Store, vertex: Vertex): (r: nat)
    ensures r == OutDegree(g, vertex)
  {
    |GetSuccessors(g, vertex)|
  }

  /** For a store edge, `vertex` is its source exactly when the edge is one
      of `vertex`'s outgoing edges. */
  function IsSource(g: Store, vertex: Vertex, edge: Edge): (r: bool)
    ensures r <==> vertex == edge.outV
    ensures edge in GetEdges(g) ==> (r <==> edge in GetOutEdges(g, vertex))
  {
    GetSource(g, edge) == vertex
  }

  /** For a store edge, `vertex` is its destination exactly when the edge is
      one of `vertex`'s incoming edges. */
  function IsDest(g: Store, vertex: Vertex, edge: Edge): (r: bool)
    ensures r <==> vertex == edge.inV
    ensures edge in GetEdges(g) ==> (r <==> edge in GetInEdges(g, vertex))
  {
    GetDest(g, edge) == vertex
  }

  /** The endpoints, source first: the same two vertices, in the same order,
      as the incident vertices of the hypergraph view. */
  function GetEndpoints(g: Store, edge: Edge): (r: Pair)
    ensures IsSource(g, r.first, edge) && IsDest(g, r.second, edge)
    ensures [r.first, r.second] == GetIncidentVertices(g, edge)
  {
    Pair(GetSource(g, edge), GetDest(g, edge))
  }

  /** The endpoint of `edge` other than `vertex`: the destination when
      `vertex` is the source, the source in every other case (including a
      `vertex` that does not touch `edge`, which the code does not check). */
  function GetOpposite(g: Store, vertex: Vertex, edge: Edge): (r: Vertex)
    ensures r in GetIncidentVertices(g, edge)
    ensures IsSource(g, vertex, edge) ==> IsDest(g, r, edge)
    ensures !IsSource(g, vertex, edge) ==> IsSource(g, r, edge)
    ensures edge in GetEdges(g) && IsIncident(g, vertex, edge) ==>
              IsIncident(g, r, edge) && Joins(edge, vertex, r)
  {
    var source := GetSource(g, edge);
    var dest := GetDest(g, edge);
    if source == vertex then dest else source
  }

  /** For an edge with two distinct endpoints, taking the opposite endpoint
      twice gives back the vertex one started from; a self-loop is its own
      opposite. */
  lemma OppositeInvolution(g: Store, vertex: Vertex, edge: Edge)
    requires vertex in GetIncidentVertices(g, edge)
    ensures edge.outV != edge.inV ==> GetOpposite(g, GetOpposite(g, vertex, edge), edge) == vertex
    ensures edge.outV != edge.inV ==> GetOpposite(g, vertex, edge) != vertex
    ensures edge.outV == edge.inV ==> GetOpposite(g, vertex, edge) == vertex
  {
  }

  // ---------------------------------------------------------------------
  // Mutators: both rejected, the store is never changed

  function AddEdgeBetween(g: Store, edge: Edge, v1: Vertex, v2: Vertex): (r: Attempt)
    ensures r.outcome == Unsupported && r.after == g
  {
    Attempt(Unsupported, g)
  }

  function AddEdgeBetweenOfType(g: Store, edge: Edge, v1: Vertex, v2: Vertex, edgeType: EdgeType): (r: Attempt)
    ensures r.outcome == Unsupported && r.after == g
  {
    Attempt(Unsupported, g)
  }
}

/** The hypergraph view: JUNG's `Hypergraph` query contract answered from a
    property-graph store.  The view holds nothing but the store it wraps, so
    every query is a function of that store `g`. */
module JungHyperGraph {
  import opened TinkerStore

  datatype Option<T> = None | Some(value: T)

  /** JUNG's edge types.  This view reports every edge as `Directed`. */
  datatype EdgeType = Directed | Undirected

  /** How a mutating call ends: rejected as unsupported, or returning a
      boolean to the caller. */
  datatype Outcome = Unsupported | Returned(added: bool)

  /** The outcome of a mutating call together with the store after it. */
  datatype Attempt = Attempt(outcome: Outcome, after: Store)

  /** Whether `e` connects `v` and `w`, in either direction. */
  predicate Joins(e: Edge, v: Vertex, w: Vertex) {
    (e.outV == v && e.inV == w) || (e.inV == v && e.outV == w)
  }

  /** The edges leading from `v1` to `v2`: the set that endpoint lookup is
      measured against. */
  function EdgesBetween(g: Store, v1: Vertex, v2: Vertex): set<Edge> {
    set e | e in g.edges && e.outV == v1 && e.inV == v2
  }

  // ---------------------------------------------------------------------
  // Enumeration and membership

  function GetEdges(g: Store): (r: seq<Edge>)
    ensures |r| == |g.edges|
    ensures forall e :: e in r <==> e in g.edges
  {
    g.edges
  }

  function GetVertices(g: Store): (r: seq<Vertex>)
    ensures |r| == |g.vertices|
    ensures forall v :: v in r <==> v in g.vertices
  {
    g.vertices
  }

  /** Looks `vertex` up by its "id" value rather than by scanning the
      enumeration; the two agree. */
  function ContainsVertex(g: Store, vertex: Vertex): (r: bool)
    ensures r <==> vertex in GetVertices(g)
  {
    exists u :: u in g.vertices && u.id == vertex.id
  }

  /** Looks `edge` up by its "id" value.  A store edge is always found; an
      edge is found only if some store edge carries its identifier. */
  function ContainsEdge(g: Store, edge: Edge): (r: bool)
    ensures edge in GetEdges(g) ==> r
    ensures r ==> exists f :: f in GetEdges(g) && f.id == edge.id
  {
    exists f :: f in g.edges && f.id == edge.id
  }

  /** When identifiers pick out edges uniquely, lookup by identifier is
      membership in the edge enumeration. */
  lemma ContainsEdgeIsMembership(g: Store, edge: Edge)
    requires forall f :: f in g.edges && f.id == edge.id ==> f == edge
    ensures ContainsEdge(g, edge) <==> edge in GetEdges(g)
  {
  }

  function GetEdgeCount(g: Store): (r: nat)
    ensures r == |GetEdges(g)|
  {
    |g.edges|
  }

  function GetVertexCount(g: Store): (r: nat)
    ensures r == |GetVertices(g)|
  {
    |g.vertices|
  }

  // ---------------------------------------------------------------------
  // Incidence and neighbourhood

  /** The vertices at the other end of any edge touching `vertex`, with
      duplicates collapsed; a self-loop makes `vertex` its own neighbour. */
  function GetNeighbors(g: Store, vertex: Vertex): (r: set<Vertex>)
    ensures forall w :: w in r <==> exists e :: e in g.edges && Joins(e, vertex, w)
  {
    var r := set w | w in VerticesOf(g, vertex, Both);
    assert forall w :: w in r <==> exists e :: e in g.edges && Joins(e, vertex, w) by {
      forall w
        ensures w in r <==> exists e :: e in g.edges && Joins(e, vertex, w)
      {
        VerticesOfMembership(g, vertex, Both, w);
        if w in r {
          var e :| e in g.edges && Touches(e, vertex, Both) && Far(e, vertex, Both) == w;
          assert Joins(e, vertex, w);
        }
        if exists e :: e in g.edges && Joins(e, vertex, w) {
          var e :| e in g.edges && Joins(e, vertex, w);
          assert Touches(e, vertex, Both) && Far(e, vertex, Both) == w;
        }
      }
    }
    r
  }

  function GetIncidentEdges(g: Store, vertex: Vertex): (r: seq<Edge>)
    ensures |r| <= |GetEdges(g)|
    ensures forall e :: e in r <==> e in g.edges && (e.outV == vertex || e.inV == vertex)
    ensures DistinctEntries(g.edges) ==> DistinctEntries(r)
  {
    EdgesOf(g, vertex, Both)
  }

  /** The two vertices an edge touches: its source, then its destination. */
  function GetIncidentVertices(g: Store, edge: Edge): (r: seq<Vertex>)
    ensures |r| == 2 && r[0] == edge.outV && r[1] == edge.inV
  {
    EndsOf(edge)
  }

  /** `v2` is a neighbour of `v1` exactly when some edge joins them; the
      relation is symmetric (see `NeighborSymmetric`). */
  function IsNeighbor(g: Store, v1: Vertex, v2: Vertex): (r: bool)
    ensures r <==> exists e :: e in g.edges && Joins(e, v1, v2)
  {
    v2 in GetNeighbors(g, v1)
  }

  lemma NeighborSymmetric(g: Store, v1: Vertex, v2: Vertex)
    ensures IsNeighbor(g, v1, v2) <==> IsNeighbor(g, v2, v1)
  {
  }

  /** Incidence read from the vertex's side agrees with incidence read from
      the edge's side, for every store edge. */
  function IsIncident(g: Store, vertex: Vertex, edge: Edge): (r: bool)
    ensures r <==> edge in GetEdges(g) && vertex in GetIncidentVertices(g, edge)
  {
    edge in GetIncidentEdges(g, vertex)
  }

  // ---------------------------------------------------------------------
  // Degrees and counts

  function Degree(g: Store, vertex: Vertex): (r: nat)
    ensures r == |GetIncidentEdges(g, vertex)|
    ensures r == 0 <==> forall e :: e in g.edges ==> !IsIncident(g, vertex, e)
  {
    var es := GetIncidentEdges(g, vertex);
    assert es != [] ==> es[0] in es;
    |es|
  }

  function GetNeighborCount(g: Store, vertex: Vertex): (r: nat)
    ensures r == |GetNeighbors(g, vertex)|
  {
    |GetNeighbors(g, vertex)|
  }

  function GetIncidentCount(g: Store, edge: Edge): (r: nat)
    ensures r == |GetIncidentVertices(g, edge)| == 2
  {
    |GetIncidentVertices(g, edge)|
  }

  // ---------------------------------------------------------------------
  // Edge types: a single, fixed type

  function GetDefaultEdgeType(): (r: EdgeType)
    ensures r == Directed
  {
    Directed
  }

  function GetEdgeType(g: Store, edge: Edge): (r: EdgeType)
    ensures r == Directed
  {
    GetDefaultEdgeType()
  }

  /** The type filter is ignored: every edge is returned whatever the type
      asked for. */
  function GetEdgesOfType(g: Store, edgeType: EdgeType): (r: seq<Edge>)
    ensures r == GetEdges(g)
  {
    g.edges
  }

  function GetEdgeCountOfType(g: Store, edgeType: EdgeType): (r: nat)
    ensures r == |GetEdgesOfType(g, edgeType)| == GetEdgeCount(g)
  {
    |GetEdgesOfType(g, edgeType)|
  }

  // ---------------------------------------------------------------------
  // Directed queries

  function GetInEdges(g: Store, vertex: Vertex): (r: seq<Edge>)
    ensures |r| <= |GetEdges(g)|
    ensures forall e :: e in r <==> e in g.edges && e.inV == vertex
    ensures DistinctEntries(g.edges) ==> DistinctEntries(r)
  {
    EdgesOf(g, vertex, In)
  }

  function GetOutEdges(g: Store, vertex: Vertex): (r: seq<Edge>)
    ensures |r| <= |GetEdges(g)|
    ensures forall e :: e in r <==> e in g.edges && e.outV == vertex
    ensures DistinctEntries(g.edges) ==> DistinctEntries(r)
  {
    EdgesOf(g, vertex, Out)
  }

  function InDegree(g: Store, vertex: Vertex): (r: nat)
    ensures r == |GetInEdges(g, vertex)| <= GetEdgeCount(g)
  {
    |GetInEdges(g, vertex)|
  }

  function OutDegree(g: Store, vertex: Vertex): (r: nat)
    ensures r == |GetOutEdges(g, vertex)| <= GetEdgeCount(g)
  {
    |GetOutEdges(g, vertex)|
  }

  /** The source of a store edge is the vertex that has it as an outgoing
      edge. */
  function GetSource(g: Store, edge: Edge): (r: Vertex)
    ensures edge in GetEdges(g) ==> edge in GetOutEdges(g, r)
    ensures forall v :: edge in GetOutEdges(g, v) ==> v == r
  {
    edge.outV
  }

  /** The destination of a store edge is the vertex that has it as an
      incoming edge. */
  function GetDest(g: Store, edge: Edge): (r: Vertex)
    ensures edge in GetEdges(g) ==> edge in GetInEdges(g, r)
    ensures forall v :: edge in GetInEdges(g, v) ==> v == r
  {
    edge.inV
  }

  /** The source of each incoming edge of `vertex`, in in-edge order, so a
      predecessor joined by parallel edges is listed once per edge. */
  function GetPredecessors(g: Store, vertex: Vertex): (r: seq<Vertex>)
    ensures |r| == |GetInEdges(g, vertex)|
    ensures forall i :: 0 <= i < |r| ==> r[i] == GetSource(g, GetInEdges(g, vertex)[i])
    ensures forall w :: w in r <==> exists e :: e in g.edges && e.outV == w && e.inV == vertex
  {
    var r := VerticesOf(g, vertex, In);
    assert forall w :: w in r <==> exists e :: e in g.edges && e.outV == w && e.inV == vertex by {
      forall w
        ensures w in r <==> exists e :: e in g.edges && e.outV == w && e.inV == vertex
      {
        VerticesOfMembership(g, vertex, In, w);
      }
    }
    r
  }

  /** The destination of each outgoing edge of `vertex`, in out-edge order. */
  function GetSuccessors(g: Store, vertex: Vertex): (r: seq<Vertex>)
    ensures |r| == |GetOutEdges(g, vertex)|
    ensures forall i :: 0 <= i < |r| ==> r[i] == GetDest(g, GetOutEdges(g, vertex)[i])
    ensures forall w :: w in r <==> exists e :: e in g.edges && e.outV == vertex && e.inV == w
  {
    var r := VerticesOf(g, vertex, Out);
    assert forall w :: w in r <==> exists e :: e in g.edges && e.outV == vertex && e.inV == w by {
      forall w
        ensures w in r <==> exists e :: e in g.edges && e.outV == vertex && e.inV == w
      {
        VerticesOfMembership(g, vertex, Out, w);
      }
    }
    r
  }

  // ---------------------------------------------------------------------
  // Lookup by endpoint pair

  /** Scans the out-edges of `v1` and returns the first one entering `v2`;
      absence is reported as `None`. */
  method FindEdge(g: Store, v1: Vertex, v2: Vertex) returns (r: Option<Edge>)
    ensures r.None? <==> EdgesBetween(g, v1, v2) == {}
    ensures r.Some? ==> r.value in EdgesBetween(g, v1, v2)
    ensures r.Some? ==> (exists k :: 0 <= k < |GetOutEdges(g, v1)| &&
                          GetOutEdges(g, v1)[k] == r.value &&
                          forall j :: 0 <= j < k ==> GetOutEdges(g, v1)[j].inV != v2)
  {
    var outs := GetOutEdges(g, v1);
    var i := 0;
    while i < |outs|
      invariant 0 <= i <= |outs|
      invariant forall j :: 0 <= j < i ==> outs[j].inV != v2
    {
      if outs[i].inV == v2 {
        assert outs[i] in outs && outs[i] in EdgesBetween(g, v1, v2);
        return Some(outs[i]);
      }
      i := i + 1;
    }
    assert forall e :: e in EdgesBetween(g, v1, v2) ==> e in outs && e.inV == v2;
    return None;
  }

  /** The edges of `es` that enter `v2`. */
  function Entering(es: seq<Edge>, v2: Vertex): set<Edge> {
    set e | e in es && e.inV == v2
  }

  lemma EnteringStep(es: seq<Edge>, i: nat, v2: Vertex)
    requires i < |es|
    ensures Entering(es[..i + 1], v2) ==
            Entering(es[..i], v2) + (if es[i].inV == v2 then {es[i]} else {})
  {
  }

  lemma EnteringOutEdges(g: Store, v1: Vertex, v2: Vertex)
    ensures Entering(GetOutEdges(g, v1)[..|GetOutEdges(g, v1)|], v2) == EdgesBetween(g, v1, v2)
  {
  }

  /** Collects every out-edge of `v1` that enters `v2`; the result is empty,
      never absent, when there is none. */
  method FindEdgeSet(g: Store, v1: Vertex, v2: Vertex) returns (r: set<Edge>)
    ensures r == EdgesBetween(g, v1, v2)
  {
    var outs := GetOutEdges(g, v1);
    r := {};
    var i := 0;
    while i < |outs|
      invariant 0 <= i <= |outs|
      invariant r == Entering(outs[..i], v2)
    {
      EnteringStep(outs, i, v2);
      if outs[i].inV == v2 {
        r := r + {outs[i]};
      }
      i := i + 1;
    }
    EnteringOutEdges(g, v1, v2);
  }

  /** `FindEdge` and `FindEdgeSet` agree: no edge is found exactly when the
      set is empty, and a found edge belongs to the set. */
  method FindEdgeAndSet(g: Store, v1: Vertex, v2: Vertex) returns (one: Option<Edge>, all: set<Edge>)
    ensures one.None? <==> all == {}
    ensures one.Some? ==> one.value in all && one.value.outV == v1 && one.value.inV == v2
  {
    one := FindEdge(g, v1, v2);
    all := FindEdgeSet(g, v1, v2);
  }

  // ---------------------------------------------------------------------
  // Mutators: all rejected, the store is never changed

  function AddVertex(g: Store, vertex: Vertex): (r: Attempt)
    ensures r.outcome == Unsupported && r.after == g
  {
    Attempt(Unsupported, g)
  }

  /** The one mutator that does not throw: it reports `false`. */
  function AddEdge(g: Store, edge: Edge, vertices: seq<Vertex>): (r: Attempt)
    ensures r.outcome == Returned(false) && r.after == g
  {
    Attempt(Returned(false), g)
  }

  function AddEdgeOfType(g: Store, edge: Edge, vertices: seq<Vertex>, edgeType: EdgeType): (r: Attempt)
    ensures r.outcome == Unsupported && r.after == g
  {
    Attempt(Unsupported, g)
  }

  function RemoveVertex(g: Store, vertex: Vertex): (r: Attempt)
    ensures r.outcome == Unsupported && r.after == g
  {
    Attempt(Unsupported, g)
  }

  function RemoveEdge(g: Store, edge: Edge): (r: Attempt)
    ensures r.outcome == Unsupported && r.after == g
  {
    Attempt(Unsupported, g)
  }

  // ---------------------------------------------------------------------
  // Degree bounds

  lemma {:induction false} SelectCounts(es: seq<Edge>, v: Vertex)
    ensures |Select(es, v, In)| <= |Select(es, v, Both)|
    ensures |Select(es, v, Out)| <= |Select(es, v, Both)|
    ensures |Select(es, v, Both)| <= |Select(es, v, In)| + |Select(es, v, Out)|
  {
    if es != [] {
      SelectCounts(es[1..], v);
    }
  }

  /** Every incoming and every outgoing edge is incident, and every incident
      edge is incoming or outgoing. */
  lemma DegreeBounds(g: Store, vertex: Vertex)
    ensures InDegree(g, vertex) <= Degree(g, vertex)
    ensures OutDegree(g, vertex) <= Degree(g, vertex)
    ensures Degree(g, vertex) <= InDegree(g, vertex) + OutDegree(g, vertex)
  {
    SelectCounts(g.edges, vertex);
  }

  /** No store edge is a self-loop at `vertex`. */
  predicate NoSelfLoopAt(g: Store, vertex: Vertex) {
    forall e :: e in g.edges ==> !(e.outV == vertex && e.inV == vertex)
  }

  lemma {:induction false} SelectCountsWithoutLoop(es: seq<Edge>, v: Vertex)
    requires forall e :: e in es ==> !(e.outV == v && e.inV == v)
    ensures |Select(es, v, Both)| == |Select(es, v, In)| + |Select(es, v, Out)|
  {
    if es != [] {
      SelectCountsWithoutLoop(es[1..], v);
    }
  }

  /** Without an incident self-loop, the degree is the in-degree plus the
      out-degree, whichever way the store lists self-loops. */
  lemma DegreeWithoutSelfLoop(g: Store, vertex: Vertex)
    requires NoSelfLoopAt(g, vertex)
    ensures Degree(g, vertex) == InDegree(g, vertex) + OutDegree(g, vertex)
  {
    SelectCountsWithoutLoop(g.edges, vertex);
  }

  lemma {:induction false} DistinctAtMostLength<T>(s: seq<T>)
    ensures |set x | x in s| <= |s|
  {
    if s != [] {
      DistinctAtMostLength(s[1..]);
      assert (set x | x in s) == {s[0]} + (set x | x in s[1..]);
    }
  }

  /** Each incident edge contributes at most one neighbour. */
  lemma NeighborCountAtMostDegree(g: Store, vertex: Vertex)
    ensures GetNeighborCount(g, vertex) <= Degree(g, vertex)
  {
    DistinctAtMostLength(VerticesOf(g, vertex, Both));
  }

  /** At most one store edge joins `vertex` to any one neighbour. */
  ghost predicate OneEdgePerNeighbor(g: Store, vertex: Vertex) {
    forall w, e1, e2 ::
      (e1 in g.edges && e2 in g.edges && Joins(e1, vertex, w) && Joins(e2, vertex, w)) ==> e1 == e2
  }

  lemma {:induction false} DistinctLength<T>(s: seq<T>)
    requires forall i, j :: 0 <= i < j < |s| ==> s[i] != s[j]
    ensures |set x | x in s| == |s|
  {
    if s != [] {
      DistinctLength(s[1..]);
      assert (set x | x in s) == {s[0]} + (set x | x in s[1..]);
      assert s[0] !in s[1..];
    }
  }

  /** When the store lists each edge once, `vertex` has no self-loop and one
      edge at most joins it to each neighbour, the neighbour count equals the
      degree. */
  lemma NeighborCountEqualsDegree(g: Store, vertex: Vertex)
    requires DistinctEntries(g.edges)
    requires NoSelfLoopAt(g, vertex)
    requires OneEdgePerNeighbor(g, vertex)
    ensures GetNeighborCount(g, vertex) == Degree(g, vertex)
  {
    var es, ws := EdgesOf(g, vertex, Both), VerticesOf(g, vertex, Both);
    forall i, j | 0 <= i < j < |ws|
      ensures ws[i] != ws[j]
    {
      assert es[i] in es && es[j] in es;
      assert Joins(es[i], vertex, ws[i]) && Joins(es[j], vertex, ws[j]);
    }
    DistinctLength(ws);
  }

  /** In a store that lists each edge once, the in-degree is the number of
      distinct store edges entering `vertex`. */
  lemma InDegreeCountsInEdges(g: Store, vertex: Vertex)
    requires DistinctEntries(g.edges)
    ensures InDegree(g, vertex) == |set e | e in g.edges && e.inV == vertex|
  {
    var es := GetInEdges(g, vertex);
    DistinctLength(es);
    assert (set e | e in es) == (set e | e in g.edges && e.inV == vertex);
  }

  /** In a store that lists each edge once, the out-degree is the number of
      distinct store edges leaving `vertex`. */
  lemma OutDegreeCountsOutEdges(g: Store, vertex: Vertex)
    requires DistinctEntries(g.edges)
    ensures OutDegree(g, vertex) == |set e | e in g.edges && e.outV == vertex|
  {
    var es := GetOutEdges(g, vertex);
    DistinctLength(es);
    assert (set e | e in es) == (set e | e in g.edges && e.outV == vertex);
  }

  /** In a store that lists each edge once, the degree is the number of
      distinct store edges touching `vertex`, a self-loop counted once. */
  lemma DegreeCountsIncidentEdges(g: Store, vertex: Vertex)
    requires DistinctEntries(g.edges)
    ensures Degree(g, vertex) == |set e | e in g.edges && (e.outV == vertex || e.inV == vertex)|
  {
    var es := GetIncidentEdges(g, vertex);
    DistinctLength(es);
    assert (set e | e in es) == (set e | e in g.edges && (e.outV == vertex || e.inV == vertex));
  }
}

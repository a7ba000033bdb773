/** The property-graph store the adapter wraps, reduced to what the adapter
    reads from it: vertices and directed edges identified by their "id"
    value, and the store's direction-filtered traversals.  The store's own
    query engine is foreign code; these definitions are the assumptions the
    rest of the model makes about it. */
module TinkerStore {

  /** A vertex, identified by the value of its "id" property: two vertex
      values are equal exactly when their identifiers are. */
  datatype Vertex = Vertex(id: int)

  /** A directed edge: its identifier, the vertex it leaves (its out-vertex)
      and the vertex it enters (its in-vertex). */
  datatype Edge = Edge(id: int, outV: Vertex, inV: Vertex)

  /** A snapshot of the store: its vertices and its edges, each in the
      store's iteration order. */
  datatype Store = Store(vertices: seq<Vertex>, edges: seq<Edge>)

  /** The traversal directions of the store's query engine. */
  datatype Direction = Out | In | Both

  /** Whether a traversal from `v` in direction `d` reaches `e`. */
  predicate Touches(e: Edge, v: Vertex, d: Direction) {
    match d
    case Out => e.outV == v
    case In => e.inV == v
    case Both => e.outV == v || e.inV == v
  }

  /** The vertex at the far end of `e` when `e` is reached from `v` in
      direction `d`. */
  function Far(e: Edge, v: Vertex, d: Direction): Vertex {
    match d
    case Out => e.inV
    case In => e.outV
    case Both => if e.outV == v then e.inV else e.outV
  }

  /** No edge occurs twice in `es`. */
  predicate DistinctEntries(es: seq<Edge>) {
    forall i, j :: 0 <= i < j < |es| ==> es[i] != es[j]
  }

  /** The edges of `es` that a traversal from `v` in direction `d` reaches,
      in the order of `es`, each as often as it occurs in `es`; so a list
      without repeats gives a selection without repeats. */
  function Select(es: seq<Edge>, v: Vertex, d: Direction): (r: seq<Edge>)
    ensures |r| <= |es|
    ensures forall e :: e in r <==> e in es && Touches(e, v, d)
    ensures DistinctEntries(es) ==> DistinctEntries(r)
  {
    if es == [] then []
    else
      var tail := Select(es[1..], v, d);
      assert DistinctEntries(es) ==> es[0] !in es[1..];
      (if Touches(es[0], v, d) then [es[0]] else []) + tail
  }

  /** The store traversal `v.edges(d)`. */
  function EdgesOf(g: Store, v: Vertex, d: Direction): (r: seq<Edge>)
    ensures |r| <= |g.edges|
    ensures forall e :: e in r <==> e in g.edges && Touches(e, v, d)
    ensures DistinctEntries(g.edges) ==> DistinctEntries(r)
  {
    Select(g.edges, v, d)
  }

  /** The store traversal `v.vertices(d)`: the far end of each edge of
      `v.edges(d)`, in the same order. */
  function VerticesOf(g: Store, v: Vertex, d: Direction): (r: seq<Vertex>)
    ensures |r| == |EdgesOf(g, v, d)|
    ensures forall i :: 0 <= i < |r| ==> r[i] == Far(EdgesOf(g, v, d)[i], v, d)
  {
    var es := EdgesOf(g, v, d);
    seq(|es|, i requires 0 <= i < |es| => Far(es[i], v, d))
  }

  /** A vertex occurs in `v.vertices(d)` exactly when some store edge that
      the traversal reaches has it at its far end. */
  lemma VerticesOfMembership(g: Store, v: Vertex, d: Direction, w: Vertex)
    ensures w in VerticesOf(g, v, d) <==>
            exists e :: e in g.edges && Touches(e, v, d) && Far(e, v, d) == w
  {
  }

  /** The store traversal `e.vertices(Both)`: out-vertex first, then
      in-vertex. */
  function EndsOf(e: Edge): (r: seq<Vertex>)
    ensures |r| == 2
    ensures forall w :: w in r <==> w == e.outV || w == e.inV
  {
    [e.outV, e.inV]
  }
}

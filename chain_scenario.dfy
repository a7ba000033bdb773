/** Both views on the store A -> B -> C (edges A -> B and B -> C): the
    method results follow from their contracts, the list queries from their
    definitions over the store. */
module ChainClient {
  import opened TinkerStore
  import opened JungHyperGraph
  import opened JungGraph

  method ChainScenario() {
    var a, b, c := Vertex(1), Vertex(2), Vertex(3);
    var ab, bc := Edge(10, a, b), Edge(11, b, c);
    var g := Store([a, b, c], [ab, bc]);

    var found := FindEdge(g, a, b);
    assert ab in EdgesBetween(g, a, b);
    assert found == Some(ab);

    var missing := FindEdge(g, a, c);
    assert EdgesBetween(g, a, c) == {};
    assert missing == None;

    var between := FindEdgeSet(g, b, c);
    assert between == {bc};

    assert GetPredecessors(g, c) == [b];
    assert g.edges[1..] == [bc] && g.edges[1..][1..] == [];
    assert Select([bc], a, Out) == [] && GetOutEdges(g, a) == [ab];
    assert GetSuccessors(g, a) == [b];
    assert Degree(g, b) == 2;
    assert GetOpposite(g, a, ab) == b;
    assert IsPredecessor(g, c, b) && IsSuccessor(g, b, c);
    assert GetEdgeCountOfType(g, Undirected) == 2;
  }
}

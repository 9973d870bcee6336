/** A worked comparison: graph1 has nodes A and B and an edge A-B of
    weight 1; graph2 has nodes A, B and C, the edge A-B with weight 2 and
    an edge B-C. */
module WorkedExample {
  import opened Graphs
  import opened Differ
  import opened AttributeReport

  function Before(): Graph<string, int> {
    Graph(false,
          map["A" := map[], "B" := map[]],
          map[("A", "B") := map["weight" := 1]])
  }

  function After(): Graph<string, int> {
    Graph(false,
          map["A" := map[], "B" := map[], "C" := map[]],
          map[("A", "B") := map["weight" := 2], ("B", "C") := map[]])
  }

  /** Nothing is deleted: every node and edge of graph1 is still in graph2. */
  lemma NothingDeleted()
    ensures IsEmpty(Deleted(Before(), After()))
  {
    var g1, g2 := Before(), After();
    assert g1.edges.Keys - g2.edges.Keys == {};
    assert g1.nodes.Keys - g2.nodes.Keys == {};
    var none: set<Edge<string>> := {};
    assert Endpoints(none) == {};
  }

  /** The added graph holds the edge B-C and, because adding an edge inserts
      its endpoints, both B and C, not C alone. */
  lemma AddedEdgeBringsItsEndpoints()
    ensures Added(Before(), After()).nodes.Keys == {"B", "C"}
    ensures Added(Before(), After()).edges == map[("B", "C") := map[]]
  {
    var g1, g2 := Before(), After();
    assert ("B", "C") != ("A", "B") by { assert "B" != "A"; }
    assert g2.edges.Keys == {("A", "B"), ("B", "C")};
    assert g1.edges.Keys == {("A", "B")};
    assert g2.edges.Keys - g1.edges.Keys == {("B", "C")};
    assert "C" != "A" && "C" != "B" by { assert "C"[0] != "A"[0] && "C"[0] != "B"[0]; }
    assert g2.nodes.Keys == {"A", "B", "C"};
    assert g2.nodes.Keys - g1.nodes.Keys == {"C"};
    assert Endpoints({("B", "C")}) == {"B", "C"};
  }

  /** The difference graph holds the reweighted edge A-B, marked as changed,
      and its endpoints, unmarked since their own attributes did not change. */
  lemma ReweightedEdgeIsChanged()
    ensures Diff(Before(), After()).edges == map[("A", "B") := ChangeMarker()]
    ensures Diff(Before(), After()).nodes == map["A" := map[], "B" := map[]]
  {
    OnlyTheEdgeChanged();
    assert "A" != "B" by { assert "A"[0] != "B"[0]; }
    MarkedSingleEdge(false, "A", "B");
  }

  /** A lone changed edge between unchanged nodes. */
  lemma MarkedSingleEdge<N>(directed: bool, u: N, v: N)
    requires u != v
    ensures Marked(directed, {}, {(u, v)}).edges == map[(u, v) := ChangeMarker()]
    ensures Marked(directed, {}, {(u, v)}).nodes == map[u := map[], v := map[]]
  {
    var es := {(u, v)};
    assert Endpoints(es) == {u, v};
  }

  lemma OnlyTheEdgeChanged()
    ensures ChangedEdges(Before(), After()) == {("A", "B")}
    ensures ChangedNodes(Before(), After()) == {}
  {
    var g1, g2 := Before(), After();
    assert g1.edges[("A", "B")]["weight"] != g2.edges[("A", "B")]["weight"];
    assert EdgeChanged(g1, g2, ("A", "B"));
  }

  /** No node attribute changed, so the attribute report is empty: the
      changed weight lives on an edge, and the report only looks at nodes. */
  lemma EdgeChangeIsNotReported()
    ensures Report(Before(), After()) == {}
  {
    SelfSimilarNodesReportNothing(Before(), After());
  }
}

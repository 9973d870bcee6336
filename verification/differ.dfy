/** The pure part of `compare_graphs`: the deleted, added and difference
    graphs derived from two attributed graphs, and the node and edge counts
    the function logs. */
module Differ {
  import opened Graphs

  /** The edge attribute carried onto deleted and added edges. */
  const WeightKey := "weight"
  /** The attribute that marks a changed node or edge in the difference graph. */
  const ColorKey := "color"
  const Yellow := "yellow"

  /** The attributes of every changed edge, and of every changed node, in the difference graph. */
  function ChangeMarker(): Attrs<string> {
    map[ColorKey := Yellow]
  }

  /** The attributes a deleted or added edge ends up with: only the weight,
      when the original edge has one. */
  function CarriedWeight<V>(a: Attrs<V>): (c: Attrs<V>)
    ensures c.Keys <= {WeightKey}
    ensures WeightKey in c <==> WeightKey in a
    ensures WeightKey in c ==> c[WeightKey] == a[WeightKey]
  {
    if WeightKey in a then map[WeightKey := a[WeightKey]] else map[]
  }

  /** The nodes and edges of `g` that `other` lacks, built the way the source
      builds its deleted graph (and, with the roles swapped, its added graph):
      the missing nodes and edges are added without attributes, adding an
      edge also inserts its endpoints, and each edge then takes `g`'s weight. */
  function Unmatched<N(==), V>(directed: bool, g: Graph<N, V>, other: Graph<N, V>): (u: Graph<N, V>)
    ensures u.directed == directed
    ensures u.edges.Keys == g.edges.Keys - other.edges.Keys
    ensures u.nodes.Keys == (g.nodes.Keys - other.nodes.Keys) + Endpoints(u.edges.Keys)
    ensures forall n | n in u.nodes :: u.nodes[n] == map[]
    ensures forall e | e in u.edges :: u.edges[e] == CarriedWeight(g.edges[e])
  {
    var es := g.edges.Keys - other.edges.Keys;
    var ns := (g.nodes.Keys - other.nodes.Keys) + Endpoints(es);
    var nodes: map<N, Attrs<V>> := map n | n in ns :: NoAttrs();
    var edges := map e | e in es :: CarriedWeight(g.edges[e]);
    assert nodes.Keys == ns;
    assert edges.Keys == es;
    Graph(directed, nodes, edges)
  }

  /** The deleted graph: what graph1 has and graph2 lacks. */
  function Deleted<N(==), V>(g1: Graph<N, V>, g2: Graph<N, V>): (d: Graph<N, V>)
    ensures d.directed == g1.directed
    ensures d.edges.Keys == g1.edges.Keys - g2.edges.Keys
    ensures forall n | n in g1.nodes && n !in g2.nodes :: n in d.nodes
    ensures forall e | e in d.edges :: e.0 in d.nodes && e.1 in d.nodes
    ensures forall n | n in d.nodes ::
              (n in g1.nodes && n !in g2.nodes) || n in Endpoints(d.edges.Keys)
    ensures forall n | n in d.nodes :: d.nodes[n] == map[]
    ensures forall e | e in d.edges ::
              && d.edges[e].Keys <= {WeightKey}
              && (WeightKey in d.edges[e] <==> WeightKey in g1.edges[e])
              && (WeightKey in d.edges[e] ==> d.edges[e][WeightKey] == g1.edges[e][WeightKey])
  {
    Unmatched(g1.directed, g1, g2)
  }

  /** The added graph: what graph2 has and graph1 lacks, with graph1's directedness. */
  function Added<N(==), V>(g1: Graph<N, V>, g2: Graph<N, V>): (a: Graph<N, V>)
    ensures a.directed == g1.directed
    ensures a.edges.Keys == g2.edges.Keys - g1.edges.Keys
    ensures forall n | n in g2.nodes && n !in g1.nodes :: n in a.nodes
    ensures forall e | e in a.edges :: e.0 in a.nodes && e.1 in a.nodes
    ensures forall n | n in a.nodes ::
              (n in g2.nodes && n !in g1.nodes) || n in Endpoints(a.edges.Keys)
    ensures forall n | n in a.nodes :: a.nodes[n] == map[]
    ensures forall e | e in a.edges ::
              && a.edges[e].Keys <= {WeightKey}
              && (WeightKey in a.edges[e] <==> WeightKey in g2.edges[e])
              && (WeightKey in a.edges[e] ==> a.edges[e][WeightKey] == g2.edges[e][WeightKey])
  {
    Unmatched(g1.directed, g2, g1)
  }

  /** An edge present in both graphs whose attribute dictionaries differ. */
  predicate EdgeChanged<N(==), V(==)>(g1: Graph<N, V>, g2: Graph<N, V>, e: Edge<N>) {
    e in g1.edges && e in g2.edges && g1.edges[e] != g2.edges[e]
  }

  /** A node present in both graphs whose attribute dictionaries differ. */
  predicate NodeChanged<N(==), V(==)>(g1: Graph<N, V>, g2: Graph<N, V>, n: N) {
    n in g1.nodes && n in g2.nodes && g1.nodes[n] != g2.nodes[n]
  }

  /** The difference graph: every changed edge, marked, together with its
      endpoints (inserted without attributes), and every changed node, marked.
      A node that is both changed and an endpoint ends up marked. */
  function Diff<N(==), V(==)>(g1: Graph<N, V>, g2: Graph<N, V>): (d: Graph<N, string>)
    ensures d.directed == g1.directed
    ensures forall e | e in d.edges :: EdgeChanged(g1, g2, e) && d.edges[e] == ChangeMarker()
    ensures forall e | e in g1.edges && EdgeChanged(g1, g2, e) :: e in d.edges
    ensures forall e | e in d.edges :: e.0 in d.nodes && e.1 in d.nodes
    ensures forall n | n in g1.nodes && NodeChanged(g1, g2, n) :: n in d.nodes && d.nodes[n] == ChangeMarker()
    ensures forall n | n in d.nodes && !NodeChanged(g1, g2, n) ::
              d.nodes[n] == map[] && n in Endpoints(d.edges.Keys)
  {
    Marked(g1.directed, ChangedNodes(g1, g2), ChangedEdges(g1, g2))
  }

  function ChangedEdges<N(==), V(==)>(g1: Graph<N, V>, g2: Graph<N, V>): set<Edge<N>> {
    set e | e in g1.edges && EdgeChanged(g1, g2, e)
  }

  function ChangedNodes<N(==), V(==)>(g1: Graph<N, V>, g2: Graph<N, V>): set<N> {
    set n | n in g1.nodes && NodeChanged(g1, g2, n)
  }

  /** A graph of the edges `es` and the nodes `changed`, all marked, with the
      endpoints of `es` that are not in `changed` inserted unmarked. */
  function Marked<N(==)>(directed: bool, changed: set<N>, es: set<Edge<N>>): Graph<N, string> {
    Graph(directed,
          map n | n in changed + Endpoints(es) :: if n in changed then ChangeMarker() else NoAttrs(),
          map e | e in es :: ChangeMarker())
  }

  /** The three graphs `compare_graphs` builds. */
  datatype Comparison<N, V> = Comparison(
    deleted: Graph<N, V>,
    added: Graph<N, V>,
    diff: Graph<N, string>)

  /** The three derived graphs share graph1's directedness, and no edge is in
      two of them: the deleted and added edges lie in only one input, the
      changed edges in both. */
  function Compare<N(==), V(==)>(g1: Graph<N, V>, g2: Graph<N, V>): (c: Comparison<N, V>)
    ensures c.deleted.directed == c.added.directed == c.diff.directed == g1.directed
    ensures c.deleted.edges.Keys == g1.edges.Keys - g2.edges.Keys
    ensures c.added.edges.Keys == g2.edges.Keys - g1.edges.Keys
    ensures c.diff.edges.Keys == ChangedEdges(g1, g2)
    ensures c.deleted.edges.Keys !! c.added.edges.Keys
    ensures c.deleted.edges.Keys !! c.diff.edges.Keys
    ensures c.added.edges.Keys !! c.diff.edges.Keys
  {
    var d := Diff(g1, g2);
    assert d.edges.Keys == ChangedEdges(g1, g2);
    Comparison(Deleted(g1, g2), Added(g1, g2), d)
  }

  /** The numbers `compare_graphs` logs and prints. */
  datatype Counts = Counts(
    nodes1: nat, nodes2: nat, edges1: nat, edges2: nat,
    diffNodes: nat, diffEdges: nat,
    deletedNodes: nat, deletedEdges: nat,
    addedNodes: nat, addedEdges: nat)

  /** The ten counts: the inputs' sizes, and the edge counts of the derived
      graphs as the sizes of the edge sets they are built from. The derived
      node counts are stated by `DeletedNodeCount`, `AddedNodeCount` and
      `DiffNodeCount`. */
  function Summarize<N(==), V(==)>(g1: Graph<N, V>, g2: Graph<N, V>): (k: Counts)
    ensures k.nodes1 == |g1.nodes.Keys| && k.nodes2 == |g2.nodes.Keys|
    ensures k.edges1 == |g1.edges.Keys| && k.edges2 == |g2.edges.Keys|
    ensures k.deletedEdges == |g1.edges.Keys - g2.edges.Keys|
    ensures k.addedEdges == |g2.edges.Keys - g1.edges.Keys|
    ensures k.diffEdges == |ChangedEdges(g1, g2)|
  {
    var c := Compare(g1, g2);
    Counts(|g1.nodes|, |g2.nodes|, |g1.edges|, |g2.edges|,
           |c.diff.nodes|, |c.diff.edges|,
           |c.deleted.nodes|, |c.deleted.edges|,
           |c.added.nodes|, |c.added.edges|)
  }

  /** The deleted node count is the number of graph1 nodes graph2 lacks
      together with the endpoints of the deleted edges. */
  lemma DeletedNodeCount<N, V>(g1: Graph<N, V>, g2: Graph<N, V>)
    ensures Summarize(g1, g2).deletedNodes ==
            |(g1.nodes.Keys - g2.nodes.Keys) + Endpoints(g1.edges.Keys - g2.edges.Keys)|
  {
  }

  /** The added node count is the number of graph2 nodes graph1 lacks
      together with the endpoints of the added edges. */
  lemma AddedNodeCount<N, V>(g1: Graph<N, V>, g2: Graph<N, V>)
    ensures Summarize(g1, g2).addedNodes ==
            |(g2.nodes.Keys - g1.nodes.Keys) + Endpoints(g2.edges.Keys - g1.edges.Keys)|
  {
  }

  /** The difference graph's node count is the number of changed nodes
      together with the endpoints of the changed edges. */
  lemma DiffNodeCount<N, V>(g1: Graph<N, V>, g2: Graph<N, V>)
    ensures Summarize(g1, g2).diffNodes ==
            |ChangedNodes(g1, g2) + Endpoints(ChangedEdges(g1, g2))|
  {
    var changed, es := ChangedNodes(g1, g2), ChangedEdges(g1, g2);
    assert Diff(g1, g2) == Marked(g1.directed, changed, es);
    MarkedNodes(g1.directed, changed, es);
  }

  lemma MarkedNodes<N>(directed: bool, changed: set<N>, es: set<Edge<N>>)
    ensures Marked(directed, changed, es).nodes.Keys == changed + Endpoints(es)
  {
  }

  /** The edges present in both graphs with equal attribute dictionaries. */
  function UnchangedEdges<N(==), V(==)>(g1: Graph<N, V>, g2: Graph<N, V>): set<Edge<N>> {
    set e | e in g1.edges && e in g2.edges && g1.edges[e] == g2.edges[e]
  }

  /** The added graph is the deleted graph of the swapped comparison, weights
      included; only the directedness, always taken from the first argument,
      can tell them apart. */
  lemma AddedMirrorsDeleted<N, V>(g1: Graph<N, V>, g2: Graph<N, V>)
    ensures Added(g1, g2).nodes == Deleted(g2, g1).nodes
    ensures Added(g1, g2).edges == Deleted(g2, g1).edges
    ensures g1.directed == g2.directed ==> Added(g1, g2) == Deleted(g2, g1)
  {
  }

  /** Comparing a graph with itself finds nothing deleted, added or changed. */
  lemma CompareWithSelfIsEmpty<N, V>(g: Graph<N, V>)
    ensures IsEmpty(Deleted(g, g))
    ensures IsEmpty(Added(g, g))
    ensures IsEmpty(Diff(g, g))
    ensures var k := Summarize(g, g);
            && k.deletedNodes == 0 && k.deletedEdges == 0
            && k.addedNodes == 0 && k.addedEdges == 0
            && k.diffNodes == 0 && k.diffEdges == 0
  {
    var none: set<Edge<N>> := {};
    assert Endpoints(none) == {};
    var d := Diff(g, g);
    assert d.edges.Keys == {};
    assert d.nodes.Keys == {};
  }

  /** The difference graph does not depend on the order of the arguments
      when both graphs have the same directedness. */
  lemma DiffIsSymmetric<N, V>(g1: Graph<N, V>, g2: Graph<N, V>)
    requires g1.directed == g2.directed
    ensures Diff(g1, g2) == Diff(g2, g1)
  {
    assert ChangedEdges(g1, g2) == ChangedEdges(g2, g1);
    assert ChangedNodes(g1, g2) == ChangedNodes(g2, g1);
  }

  /** Every edge of graph1 is deleted, changed or unchanged, and exactly one
      of these; every edge of graph2 is added, changed or unchanged. An edge
      present in only one graph never reaches the difference graph. */
  lemma EdgeFates<N, V>(g1: Graph<N, V>, g2: Graph<N, V>, e: Edge<N>)
    ensures e in g1.edges ==>
              (e in Deleted(g1, g2).edges) != (e in Diff(g1, g2).edges || e in UnchangedEdges(g1, g2))
    ensures e in g2.edges ==>
              (e in Added(g1, g2).edges) != (e in Diff(g1, g2).edges || e in UnchangedEdges(g1, g2))
    ensures !(e in Diff(g1, g2).edges && e in UnchangedEdges(g1, g2))
    ensures (e in g1.edges) != (e in g2.edges) ==> e !in Diff(g1, g2).edges
  {
  }

  /** |a| splits into the part outside `b` and the part inside it. */
  lemma CardSplit<T>(a: set<T>, b: set<T>)
    ensures |a| == |a - b| + |a * b|
  {
    assert a == (a - b) + (a * b);
    assert (a - b) * (a * b) == {};
  }

  /** The edge counts balance: graph1's edges are the deleted, changed and
      unchanged ones, graph2's the added, changed and unchanged ones; so
      graph1's edge count minus the deleted edges equals graph2's minus the
      added edges. */
  lemma EdgeCountsBalance<N, V>(g1: Graph<N, V>, g2: Graph<N, V>)
    ensures var k := Summarize(g1, g2);
            && k.edges1 == k.deletedEdges + k.diffEdges + |UnchangedEdges(g1, g2)|
            && k.edges2 == k.addedEdges + k.diffEdges + |UnchangedEdges(g1, g2)|
            && k.edges1 - k.deletedEdges == k.edges2 - k.addedEdges
  {
    EdgeSetsSplit(g1, g2);
    DerivedEdgeSets(g1, g2);
  }

  lemma DerivedEdgeSets<N, V>(g1: Graph<N, V>, g2: Graph<N, V>)
    ensures |Deleted(g1, g2).edges| == |g1.edges.Keys - g2.edges.Keys|
    ensures |Added(g1, g2).edges| == |g2.edges.Keys - g1.edges.Keys|
    ensures |Diff(g1, g2).edges| == |ChangedEdges(g1, g2)|
  {
    assert Diff(g1, g2).edges.Keys == ChangedEdges(g1, g2);
  }

  /** Each edge set splits into the edges the other graph lacks, the changed
      edges and the unchanged edges. */
  lemma EdgeSetsSplit<N, V>(g1: Graph<N, V>, g2: Graph<N, V>)
    ensures |g1.edges.Keys| ==
            |g1.edges.Keys - g2.edges.Keys| + |ChangedEdges(g1, g2)| + |UnchangedEdges(g1, g2)|
    ensures |g2.edges.Keys| ==
            |g2.edges.Keys - g1.edges.Keys| + |ChangedEdges(g1, g2)| + |UnchangedEdges(g1, g2)|
  {
    var e1, e2 := g1.edges.Keys, g2.edges.Keys;
    var changed, same := ChangedEdges(g1, g2), UnchangedEdges(g1, g2);
    assert e1 * e2 == changed + same;
    assert changed * same == {};
    assert |e1 * e2| == |changed| + |same|;
    CardSplit(e1, e2);
    CardSplit(e2, e1);
    assert e2 * e1 == e1 * e2;
  }

  /** On NetworkX graphs the derived graphs only hold nodes of the inputs:
      deleted nodes come from graph1, added nodes from graph2, and nodes of
      the difference graph from both. */
  lemma DerivedNodesComeFromInputs<N, V>(g1: Graph<N, V>, g2: Graph<N, V>)
    requires WellFormed(g1) && WellFormed(g2)
    ensures Deleted(g1, g2).nodes.Keys <= g1.nodes.Keys
    ensures Added(g1, g2).nodes.Keys <= g2.nodes.Keys
    ensures Diff(g1, g2).nodes.Keys <= g1.nodes.Keys * g2.nodes.Keys
  {
    EndpointsWithin(g1.edges.Keys - g2.edges.Keys, g1.nodes.Keys);
    EndpointsWithin(g2.edges.Keys - g1.edges.Keys, g2.nodes.Keys);
    EndpointsWithin(ChangedEdges(g1, g2), g1.nodes.Keys * g2.nodes.Keys);
  }

  /** So on NetworkX graphs no derived node count exceeds the node count of
      the input it is drawn from. */
  lemma DerivedNodeCountsBounded<N, V>(g1: Graph<N, V>, g2: Graph<N, V>)
    requires WellFormed(g1) && WellFormed(g2)
    ensures var k := Summarize(g1, g2);
            && k.deletedNodes <= k.nodes1
            && k.addedNodes <= k.nodes2
            && k.diffNodes <= k.nodes1 && k.diffNodes <= k.nodes2
  {
    DerivedNodesComeFromInputs(g1, g2);
    var c := Compare(g1, g2);
    SubsetCard(c.deleted.nodes.Keys, g1.nodes.Keys);
    SubsetCard(c.added.nodes.Keys, g2.nodes.Keys);
    SubsetCard(c.diff.nodes.Keys, g1.nodes.Keys);
    SubsetCard(c.diff.nodes.Keys, g2.nodes.Keys);
  }

  lemma SubsetCard<T>(a: set<T>, b: set<T>)
    requires a <= b
    ensures |a| <= |b|
  {
    CardSplit(b, a);
    assert b * a == a;
  }

  /** Edges whose endpoints all lie in `ns` insert no node outside `ns`. */
  lemma EndpointsWithin<N>(es: set<Edge<N>>, ns: set<N>)
    requires forall e | e in es :: e.0 in ns && e.1 in ns
    ensures Endpoints(es) <= ns
  {
  }

  /** The graphs `compare_graphs` builds from two NetworkX graphs of the same
      kind are NetworkX graphs again. */
  lemma CompareKeepsWellFormed<N, V>(g1: Graph<N, V>, g2: Graph<N, V>)
    requires WellFormed(g1) && WellFormed(g2)
    requires g1.directed == g2.directed
    ensures var c := Compare(g1, g2);
            WellFormed(c.deleted) && WellFormed(c.added) && WellFormed(c.diff)
  {
    UnmatchedWellFormed(g1, g2);
    UnmatchedWellFormed(g2, g1);
    DiffWellFormed(g1, g2);
  }

  lemma UnmatchedWellFormed<N, V>(g: Graph<N, V>, other: Graph<N, V>)
    requires WellFormed(g)
    ensures WellFormed(Unmatched(g.directed, g, other))
  {
  }

  lemma DiffWellFormed<N, V>(g1: Graph<N, V>, g2: Graph<N, V>)
    requires WellFormed(g1)
    ensures WellFormed(Diff(g1, g2))
  {
  }
}

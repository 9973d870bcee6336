/** Attributed graphs as the differencer sees them: a NetworkX `Graph` or
    `DiGraph` reduced to its node attribute dictionaries and its edge
    attribute dictionaries. Node identifiers and attribute values are opaque
    types compared only by equality. */
module Graphs {

  /** An attribute dictionary: attribute name to value. */
  type Attrs<V> = map<string, V>

  /** An edge is identified by its endpoint tuple alone, as the graph reports it. */
  type Edge<N> = (N, N)

  datatype Graph<N, V> = Graph(
    directed: bool,
    nodes: map<N, Attrs<V>>,
    edges: map<Edge<N>, Attrs<V>>)

  /** The attribute dictionary of a node or edge created without attributes. */
  function NoAttrs<V>(): (a: Attrs<V>)
    ensures |a| == 0
  {
    map[]
  }

  /** What every NetworkX graph satisfies: both endpoints of an edge are nodes,
      and an undirected graph holds at most one orientation of each edge. */
  ghost predicate WellFormed<N, V>(g: Graph<N, V>) {
    && (forall e | e in g.edges :: e.0 in g.nodes && e.1 in g.nodes)
    && (!g.directed ==> forall e | e in g.edges && (e.1, e.0) in g.edges :: e.0 == e.1)
  }

  /** The nodes that adding the edges `es` to a graph inserts: every endpoint
      of every edge. */
  function Endpoints<N(==)>(es: set<Edge<N>>): set<N> {
    (set e | e in es :: e.0) + (set e | e in es :: e.1)
  }

  /** A graph with no nodes and no edges. */
  predicate IsEmpty<N(==), V>(g: Graph<N, V>) {
    |g.nodes| == 0 && |g.edges| == 0
  }
}

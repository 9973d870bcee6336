# vc2sng graph differencer, modelled in Dafny

`vc2sng.py` compares two attributed graphs (NetworkX `Graph` or `DiGraph`
values read from GraphML) and reports how they differ. This project models
its two computational parts as pure Dafny:

- `compare_graphs`: builds three derived graphs.
  - The **deleted** graph holds the nodes and edges of graph1 that graph2 lacks.
  - The **added** graph holds the nodes and edges of graph2 that graph1 lacks.
  - The **difference** graph holds the nodes and edges present in both graphs
    whose attribute dictionaries differ. They are tagged `color = "yellow"`.

  The function also logs ten counts: the node and edge counts of the two
  inputs and of the three derived graphs.
- `compare_node_attributes` prints a mismatch report. For a node both graphs
  have, it prints one line per attribute on which the two versions disagree.
  For a graph1 node that graph2 lacks, it prints one line. The report is
  written from graph1's side only. The model returns its lines as data.

Files:

- `graphs.dfy` (module `Graphs`): the graph datatype. It has a directedness
  flag, a map from node to attribute dictionary and a map from endpoint
  tuple to attribute dictionary. It also defines the well-formedness that
  every NetworkX graph satisfies, and the endpoints of a set of edges.
- `differ.dfy` (module `Differ`): the deleted, added and difference graphs,
  the counts, and the lemmas about them.
- `report.dfy` (module `AttributeReport`): the report as a reference set of
  entries, and a loop-based generator that walks nodes and attributes the
  way the source does. Lemmas characterise the report.
- `example.dfy` (module `WorkedExample`): one concrete comparison, worked
  out end to end.

Node identifiers and attribute values are generic types compared only by
equality. The difference graph's attribute values are strings, because the
only value it ever stores is `"yellow"`. The deleted and added graphs keep
the input value type, because they carry the input's `weight` value.

Library behaviour that the model reproduces:

- `add_edges_from` and `add_edge` also insert an edge's endpoints, with no
  attributes. So the deleted graph's nodes are the nodes graph2 lacks **plus
  the endpoints of the deleted edges**. Likewise, the difference graph's
  nodes are the changed nodes plus the endpoints of the changed edges.
- Only the changed nodes are marked. The other endpoints carry no attribute.
- All three derived graphs copy graph1's directedness.

Where the code does more than its own comments say:

- The comment at vc2sng.py:93 reads "Nodes and edges in graph1 but not in
  graph2 (deleted)". The deleted graph holds more than that: the endpoints
  of deleted edges are in it too, even when graph2 has them.
- The comment at vc2sng.py:117 reads "Add nodes with different attributes".
  The difference graph also holds the unchanged endpoints of changed edges,
  unmarked.
- Take graph1 with nodes A and B and an edge A-B; graph2 has nodes A, B and C
  and edges A-B and B-C. The added graph is the edge B-C with the nodes
  **B and C**, not C alone (`WorkedExample.AddedEdgeBringsItsEndpoints`).

The model follows the code.

## Model

| member | source | states |
|---|---|---|
| `Differ.Deleted` | vc2sng.py:93-106 | The deleted graph's edges are exactly graph1's edges minus graph2's. Its nodes include every graph1 node that graph2 lacks, and each other node is an endpoint of a deleted edge. Every node has no attributes. A deleted edge carries `weight` exactly when graph1's edge has it, with the same value, and no other attribute. Directedness is graph1's. |
| `Differ.Added` | vc2sng.py:98-110 | The same as `Deleted` with the roles swapped: graph2's edges minus graph1's, the nodes graph1 lacks plus the endpoints of those edges, and weights taken from graph2. Directedness is still graph1's. |
| `Differ.CarriedWeight` | vc2sng.py:104-110 | The attributes given to a deleted or added edge are at most `weight`, present exactly when the original edge has it, with its value. |
| `Differ.Diff` | vc2sng.py:112-120 | The difference graph's edges are exactly the edges in both graphs whose attribute dictionaries differ, each with attributes `{color: yellow}`. Every node in both graphs with differing dictionaries is in it, marked. Every other node in it is an endpoint of a changed edge and has no attributes. |
| `Differ.Compare` | vc2sng.py:84-120 | The three derived graphs all take graph1's directedness. The deleted edges are graph1's minus graph2's, the added edges are graph2's minus graph1's, and the difference edges are the changed shared edges. No edge is in two of the three graphs. |
| `Differ.Summarize` | vc2sng.py:145-154 | The counts: the two inputs' node and edge counts, and the deleted, added and difference-graph edge counts. Each derived edge count is the size of the edge set that derived graph is built from. |
| `Differ.DeletedNodeCount` | vc2sng.py:151 | The deleted node count is the number of graph1 nodes graph2 lacks, together with the endpoints of the deleted edges. |
| `Differ.AddedNodeCount` | vc2sng.py:153 | The added node count is the number of graph2 nodes graph1 lacks, together with the endpoints of the added edges. |
| `Differ.DiffNodeCount` | vc2sng.py:149 | The difference graph's node count is the number of changed shared nodes, together with the endpoints of the changed edges. |
| `Differ.AddedMirrorsDeleted` | vc2sng.py:94-110 | The added graph of (graph1, graph2) has the same nodes and edges, weights included, as the deleted graph of (graph2, graph1). When the two directednesses agree, the graphs are equal. |
| `Differ.CompareWithSelfIsEmpty` | vc2sng.py:93-154 | Comparing a graph with itself gives deleted, added and difference graphs with no nodes and no edges, so all six derived counts are zero. |
| `Differ.DiffIsSymmetric` | vc2sng.py:112-120 | For graphs of the same directedness, swapping the arguments does not change the difference graph. |
| `Differ.EdgeFates` | vc2sng.py:95-115 | Every edge of graph1 is either deleted, or changed or unchanged, and never both. The same holds for graph2's edges with "added". No edge is both changed and unchanged. An edge present in only one graph is never in the difference graph. |
| `Differ.EdgeCountsBalance` | vc2sng.py:147-154 | graph1's edge count equals deleted + changed + unchanged edges. graph2's edge count equals added + changed + unchanged edges. So graph1's edges minus the deleted ones equal graph2's edges minus the added ones. |
| `Differ.DerivedNodesComeFromInputs` | vc2sng.py:94-120 | On well-formed inputs, deleted nodes are graph1 nodes, added nodes are graph2 nodes, and difference-graph nodes are in both. |
| `Differ.DerivedNodeCountsBounded` | vc2sng.py:145-154 | On well-formed inputs, the deleted node count is at most graph1's, the added node count at most graph2's, and the difference-graph node count at most either. |
| `Differ.CompareKeepsWellFormed` | vc2sng.py:84-120 | From two well-formed graphs of the same directedness, all three derived graphs are well-formed. Every edge endpoint is a node, and an undirected graph holds one orientation per edge. |
| `AttributeReport.NodeAttributeMismatches` | vc2sng.py:62-77 | For a node in both graphs, walking graph1's attributes and then graph2's yields each reference entry for that node exactly once, and nothing else. Every line of the graph1 walk comes before every "not found in graph1" line. |
| `AttributeReport.CompareNodeAttributes` | vc2sng.py:54-79 | Walking every graph1 node yields exactly the entries of the reference report, each once. The lines about each node are contiguous, and within them the graph1 walk comes before the "not found in graph1" lines. |
| `AttributeReport.ReportEntries` | vc2sng.py:61-79 | Gives one if-and-only-if per kind of line. "Value differs" appears exactly for an attribute both versions carry, with the two unequal values. "Not found in graph2" appears exactly for an attribute only graph1's version has. "Not found in graph1" appears exactly for an attribute only graph2's version has. "Node not found in graph2" appears exactly for a graph1 node that graph2 lacks. |
| `AttributeReport.ReportIsFromGraph1Side` | vc2sng.py:56-61 | Every entry is about a graph1 node, so a node that only graph2 has gets no entry. |
| `AttributeReport.MissingNodeReportedOnce` | vc2sng.py:78-79 | A graph1 node that graph2 lacks gets exactly one entry: the missing-node line. |
| `AttributeReport.EveryMismatchListed` | vc2sng.py:65-76 | For a node in both graphs, the attributes named in its entries are exactly the attributes on which its two versions disagree. Every one is listed, not just the first. |
| `AttributeReport.EachMismatchListedOnce` | vc2sng.py:65-76 | For a node in both graphs, each entry names an attribute and no attribute gets two entries. |
| `AttributeReport.MismatchesIffUnequal` | vc2sng.py:64-76 | The attribute walk for a node finds nothing exactly when the node's two attribute dictionaries are equal. |
| `AttributeReport.ReportAgreesWithDiff` | vc2sng.py:118-120 | A node in both graphs has report entries exactly when the difference graph marks it yellow. |
| `AttributeReport.SelfSimilarNodesReportNothing` | vc2sng.py:54-79 | When every graph1 node is in graph2 with the same attributes, the report is empty. Nodes only graph2 has and edge attributes do not matter. |
| `AttributeReport.SelfReportIsEmpty` | vc2sng.py:54-79 | Comparing a graph with itself reports nothing. |
| `WorkedExample.NothingDeleted` | vc2sng.py:94-96 | In the worked example nothing is deleted. |
| `WorkedExample.AddedEdgeBringsItsEndpoints` | vc2sng.py:99-101 | In the worked example the added graph is the edge B-C with nodes B and C, because adding an edge inserts its endpoints. |
| `WorkedExample.ReweightedEdgeIsChanged` | vc2sng.py:113-115 | In the worked example the difference graph is the reweighted edge A-B, marked, with its endpoints A and B unmarked. |
| `WorkedExample.EdgeChangeIsNotReported` | vc2sng.py:54-79 | In the worked example the attribute report is empty, because the change is on an edge and the report looks only at nodes. |

## Left out

- GraphML reading (`nx.read_graphml`) is a foreign library. The model starts from already-built graphs.
- `load_graph_with_progress` is progress-bar I/O. It is never called.
- Plotting (spring layout, matplotlib figures, colours and widths) is presentation only, and uses floating point.
- The log and console text of the counts and of the report lines is not modelled. The counts are a `Counts` value, and the report lines are `Entry` values.
- Command-line parsing and the `__main__` block are not modelled.
- Edge identity is the endpoint tuple as the graph reports it. NetworkX's choice of orientation for undirected edges is not modelled. In the source, an undirected edge that graph1 reports as (u, v) and graph2 as (v, u) is not matched by the set difference.
- Attribute values are an opaque type with an equivalence as equality. Python's cross-type equality (`1 == 1.0 == True`) and NaN's inequality to itself are not modelled.
- Inputs of different directedness are not rejected, because the source does not check them either. The derived graphs take graph1's directedness, as the source does. `Differ.CompareKeepsWellFormed` covers only inputs of the same directedness.
- Differ.Added: does not model how an undirected added graph merges the two orientations of a directed graph2's edge. When graph1 is undirected and graph2 is directed with edges (u, v) and (v, u), the source's `add_edges_from` stores one edge. Its weight is whichever of the two the set iteration writes last, and the logged added-edge count is 1. The model keeps both tuples, so `Summarize` counts 2 added edges, and the added graph is not `WellFormed`. The write order is not determined by the source, so it is left out.
- AttributeReport.CompareNodeAttributes: states the order of the lines only as far as it does not depend on dictionary insertion order. Each node's lines are contiguous, and the graph1 walk comes first within them. The order of the nodes is not stated, because the source prints in insertion order, which the graph maps do not record. The generator visits nodes in an arbitrary order.
- AttributeReport.NodeAttributeMismatches: the same as above. The graph1 walk comes before the graph2 walk, but the order of attributes within each walk is not stated.

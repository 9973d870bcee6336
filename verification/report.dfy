/** `compare_node_attributes`: the per-attribute mismatch report, written
    from graph1's side only. The source prints one line per finding; here each
    line is an `Entry` value and the report is returned as data. */
module AttributeReport {
  import opened Graphs
  import Differ

  /** One line of the report. */
  datatype Entry<N, V> =
    | ValueDiffers(node: N, attr: string, value1: V, value2: V)
    | MissingFromGraph2(node: N, attr: string)
    | MissingFromGraph1(node: N, attr: string)
    | NodeMissing(node: N)

  /** The entries for a node present in both graphs, with attribute
      dictionaries `a1` (graph1) and `a2` (graph2). */
  function AttrMismatches<N(==), V(==)>(n: N, a1: Attrs<V>, a2: Attrs<V>): set<Entry<N, V>> {
    FirstPass(n, a1, a2, a1.Keys) + SecondPass(n, a1, a2.Keys)
  }

  /** The entries found walking graph1's attributes `ks`: a value that
      differs, or an attribute graph2's node lacks. */
  function FirstPass<N(==), V(==)>(n: N, a1: Attrs<V>, a2: Attrs<V>, ks: set<string>): set<Entry<N, V>>
    requires ks <= a1.Keys
  {
    (set k | k in ks && k in a2 && a1[k] != a2[k] :: ValueDiffers(n, k, a1[k], a2[k]))
    + (set k | k in ks && k !in a2 :: MissingFromGraph2(n, k))
  }

  /** The entries found walking graph2's attributes `ks`: an attribute
      graph1's node lacks. */
  function SecondPass<N(==), V(==)>(n: N, a1: Attrs<V>, ks: set<string>): set<Entry<N, V>> {
    set k | k in ks && k !in a1 :: MissingFromGraph1(n, k)
  }

  /** The entries about one node of graph1. */
  function NodeEntries<N(==), V(==)>(g1: Graph<N, V>, g2: Graph<N, V>, n: N): set<Entry<N, V>>
    requires n in g1.nodes
  {
    if n in g2.nodes then AttrMismatches(n, g1.nodes[n], g2.nodes[n]) else {NodeMissing(n)}
  }

  /** The entries about the graph1 nodes `ns`. */
  function ReportOn<N(==), V(==)>(g1: Graph<N, V>, g2: Graph<N, V>, ns: set<N>): set<Entry<N, V>>
    requires ns <= g1.nodes.Keys
  {
    set n, e | n in ns && e in NodeEntries(g1, g2, n) :: e
  }

  /** The whole report, as a set of entries: the reference the report
      generator is proved against. */
  function Report<N(==), V(==)>(g1: Graph<N, V>, g2: Graph<N, V>): set<Entry<N, V>> {
    ReportOn(g1, g2, g1.nodes.Keys)
  }

  function Elems<T(==)>(s: seq<T>): set<T> {
    set x | x in s
  }

  /** No line is printed twice. */
  predicate Distinct<T(==)>(s: seq<T>) {
    forall i, j | 0 <= i < j < |s| :: s[i] != s[j]
  }

  /** Within one node's lines, the walk over graph1's attributes comes first:
      once a "not found in graph1" line appears, every later line is one too. */
  predicate Graph1WalkFirst<N, V>(s: seq<Entry<N, V>>) {
    forall i, j | 0 <= i < j < |s| && s[i].MissingFromGraph1? :: s[j].MissingFromGraph1?
  }

  /** The lines about each node are contiguous: a line about another node
      never sits between two lines about the same node. */
  predicate GroupedByNode<N(==), V>(s: seq<Entry<N, V>>) {
    forall i, j, k | 0 <= i < j < k < |s| && s[i].node == s[k].node :: s[j].node == s[i].node
  }

  /** Graph1WalkFirst, for the lines of each node of a whole report. */
  predicate EachNodeGraph1WalkFirst<N(==), V>(s: seq<Entry<N, V>>) {
    forall i, j | 0 <= i < j < |s| && s[i].node == s[j].node && s[i].MissingFromGraph1? ::
      s[j].MissingFromGraph1?
  }

  lemma Graph1WalkFirstAppend<N, V>(s: seq<Entry<N, V>>, x: Entry<N, V>)
    requires Graph1WalkFirst(s) && x.MissingFromGraph1?
    ensures Graph1WalkFirst(s + [x])
  {
  }

  /** Appending the lines `t` of a node `n` not seen before keeps the report
      grouped by node, with each node's graph1 walk first. */
  lemma AppendNodeLines<N, V>(s: seq<Entry<N, V>>, t: seq<Entry<N, V>>, n: N)
    requires GroupedByNode(s) && EachNodeGraph1WalkFirst(s)
    requires Graph1WalkFirst(t)
    requires forall i | 0 <= i < |s| :: s[i].node != n
    requires forall i | 0 <= i < |t| :: t[i].node == n
    ensures GroupedByNode(s + t) && EachNodeGraph1WalkFirst(s + t)
  {
  }

  lemma DistinctAppend<T>(s: seq<T>, x: T)
    requires Distinct(s) && x !in s
    ensures Distinct(s + [x])
    ensures Elems(s + [x]) == Elems(s) + {x}
  {
  }

  lemma DistinctConcat<T>(s: seq<T>, t: seq<T>)
    requires Distinct(s) && Distinct(t)
    requires Elems(s) !! Elems(t)
    ensures Distinct(s + t)
    ensures Elems(s + t) == Elems(s) + Elems(t)
  {
    forall i, j | 0 <= i < j < |s + t| ensures (s + t)[i] != (s + t)[j] {
      if i < |s| && |s| <= j {
        assert (s + t)[i] in Elems(s);
        assert (s + t)[j] in Elems(t);
      }
    }
  }

  /** The report lines for one node present in both graphs, produced as the
      source produces them: first a walk over graph1's attributes, then a
      walk over graph2's. The walks visit attributes in an arbitrary order,
      but every line of the first walk precedes every line of the second. */
  method NodeAttributeMismatches<N(==), V(==)>(n: N, a1: Attrs<V>, a2: Attrs<V>) returns (lines: seq<Entry<N, V>>)
    ensures Elems(lines) == AttrMismatches(n, a1, a2)
    ensures Distinct(lines)
    ensures Graph1WalkFirst(lines)
  {
    lines := [];
    var todo := a1.Keys;
    while todo != {}
      invariant todo <= a1.Keys
      invariant Elems(lines) == FirstPass(n, a1, a2, a1.Keys - todo)
      invariant Distinct(lines)
      invariant forall i | 0 <= i < |lines| :: !lines[i].MissingFromGraph1?
      decreases todo
    {
      var k :| k in todo;
      var done := a1.Keys - todo;
      assert a1.Keys - (todo - {k}) == done + {k};
      FirstPassAdd(n, a1, a2, done, k);
      PassesAreAbout(n, a1, a2, done, {});
      if k in a2 {
        if a1[k] != a2[k] {
          DistinctAppend(lines, ValueDiffers(n, k, a1[k], a2[k]));
          lines := lines + [ValueDiffers(n, k, a1[k], a2[k])];
        }
      } else {
        DistinctAppend(lines, MissingFromGraph2(n, k));
        lines := lines + [MissingFromGraph2(n, k)];
      }
      todo := todo - {k};
    }
    todo := a2.Keys;
    while todo != {}
      invariant todo <= a2.Keys
      invariant Elems(lines) == FirstPass(n, a1, a2, a1.Keys) + SecondPass(n, a1, a2.Keys - todo)
      invariant Distinct(lines)
      invariant Graph1WalkFirst(lines)
      decreases todo
    {
      var k :| k in todo;
      var done := a2.Keys - todo;
      assert a2.Keys - (todo - {k}) == done + {k};
      SecondPassAdd(n, a1, done, k);
      PassesAreAbout(n, a1, a2, a1.Keys, done);
      if k !in a1 {
        DistinctAppend(lines, MissingFromGraph1(n, k));
        Graph1WalkFirstAppend(lines, MissingFromGraph1(n, k));
        lines := lines + [MissingFromGraph1(n, k)];
      }
      todo := todo - {k};
    }
  }

  /** Walking one more of graph1's attributes adds at most one entry. */
  lemma FirstPassAdd<N, V>(n: N, a1: Attrs<V>, a2: Attrs<V>, ks: set<string>, k: string)
    requires ks <= a1.Keys && k in a1 && k !in ks
    ensures FirstPass(n, a1, a2, ks + {k}) ==
            FirstPass(n, a1, a2, ks) +
            (if k !in a2 then {MissingFromGraph2(n, k)}
             else if a1[k] != a2[k] then {ValueDiffers(n, k, a1[k], a2[k])}
             else {})
  {
  }

  /** Walking one more of graph2's attributes adds at most one entry. */
  lemma SecondPassAdd<N, V>(n: N, a1: Attrs<V>, ks: set<string>, k: string)
    requires k !in ks
    ensures SecondPass<N, V>(n, a1, ks + {k}) ==
            SecondPass(n, a1, ks) + (if k !in a1 then {MissingFromGraph1(n, k)} else {})
  {
  }

  /** The report generator: every node of graph1, in an arbitrary order,
      contributes its attribute mismatches when graph2 has it and a single
      missing-node line when it does not. Nodes only graph2 has are never
      visited. Each node's lines come together, graph1's walk first. */
  method CompareNodeAttributes<N(==), V(==)>(g1: Graph<N, V>, g2: Graph<N, V>) returns (report: seq<Entry<N, V>>)
    ensures Elems(report) == Report(g1, g2)
    ensures Distinct(report)
    ensures GroupedByNode(report)
    ensures EachNodeGraph1WalkFirst(report)
  {
    report := [];
    var todo := g1.nodes.Keys;
    while todo != {}
      invariant todo <= g1.nodes.Keys
      invariant Elems(report) == ReportOn(g1, g2, g1.nodes.Keys - todo)
      invariant Distinct(report)
      invariant GroupedByNode(report) && EachNodeGraph1WalkFirst(report)
      decreases todo
    {
      var n :| n in todo;
      var done := g1.nodes.Keys - todo;
      var lines;
      if n in g2.nodes {
        lines := NodeAttributeMismatches(n, g1.nodes[n], g2.nodes[n]);
      } else {
        lines := [NodeMissing(n)];
      }
      assert Elems(lines) == NodeEntries(g1, g2, n);
      ReportOnAddNode(g1, g2, done, n);
      NodeEntriesAreAbout(g1, g2, n);
      ReportOnIsAbout(g1, g2, done);
      DistinctConcat(report, lines);
      forall i | 0 <= i < |report| ensures report[i].node != n {
        assert report[i] in Elems(report);
      }
      forall i | 0 <= i < |lines| ensures lines[i].node == n {
        assert lines[i] in Elems(lines);
      }
      AppendNodeLines(report, lines, n);
      report := report + lines;
      todo := todo - {n};
      assert g1.nodes.Keys - todo == done + {n};
    }
  }

  /** Each pass reports only attributes it walked, and the second pass
      reports nothing but attributes graph1 lacks. */
  lemma PassesAreAbout<N, V>(n: N, a1: Attrs<V>, a2: Attrs<V>, ks1: set<string>, ks2: set<string>)
    requires ks1 <= a1.Keys
    ensures forall e | e in FirstPass(n, a1, a2, ks1) :: !e.MissingFromGraph1? && !e.NodeMissing? && e.attr in ks1
    ensures forall e | e in SecondPass(n, a1, ks2) :: e.MissingFromGraph1? && e.attr in ks2
  {
  }

  lemma NodeEntriesAreAbout<N, V>(g1: Graph<N, V>, g2: Graph<N, V>, n: N)
    requires n in g1.nodes
    ensures forall e | e in NodeEntries(g1, g2, n) :: e.node == n
  {
  }

  lemma ReportOnIsAbout<N, V>(g1: Graph<N, V>, g2: Graph<N, V>, ns: set<N>)
    requires ns <= g1.nodes.Keys
    ensures forall e | e in ReportOn(g1, g2, ns) :: e.node in ns
  {
  }

  lemma ReportOnAddNode<N, V>(g1: Graph<N, V>, g2: Graph<N, V>, ns: set<N>, n: N)
    requires ns <= g1.nodes.Keys && n in g1.nodes
    ensures ReportOn(g1, g2, ns + {n}) == ReportOn(g1, g2, ns) + NodeEntries(g1, g2, n)
  {
  }

  /** The entries of `r` about node `n`. */
  function EntriesAbout<N(==), V(==)>(r: set<Entry<N, V>>, n: N): set<Entry<N, V>> {
    set e | e in r && e.node == n
  }

  /** What the report says about a node of graph1 is exactly what visiting
      that node produces. */
  lemma ReportAboutNode<N, V>(g1: Graph<N, V>, g2: Graph<N, V>, n: N)
    requires n in g1.nodes
    ensures EntriesAbout(Report(g1, g2), n) == NodeEntries(g1, g2, n)
  {
    var r := Report(g1, g2);
    NodeEntriesAreAbout(g1, g2, n);
    forall e | e in r && e.node == n ensures e in NodeEntries(g1, g2, n) {
      var m :| m in g1.nodes && e in NodeEntries(g1, g2, m);
      NodeEntriesAreAbout(g1, g2, m);
    }
  }

  lemma ReportAboutSharedNode<N, V>(g1: Graph<N, V>, g2: Graph<N, V>, n: N)
    requires n in g1.nodes && n in g2.nodes
    ensures EntriesAbout(Report(g1, g2), n) == AttrMismatches(n, g1.nodes[n], g2.nodes[n])
  {
    ReportAboutNode(g1, g2, n);
  }

  /** The report is written from graph1's side: every entry is about a node
      of graph1, so a node only graph2 has is never mentioned. */
  lemma ReportIsFromGraph1Side<N, V>(g1: Graph<N, V>, g2: Graph<N, V>)
    ensures forall e | e in Report(g1, g2) :: e.node in g1.nodes
    ensures forall n | n in g2.nodes && n !in g1.nodes :: EntriesAbout(Report(g1, g2), n) == {}
  {
    ReportOnIsAbout(g1, g2, g1.nodes.Keys);
  }

  /** A node of graph1 that graph2 lacks gets exactly one entry: the
      missing-node line, and no attribute lines. */
  lemma MissingNodeReportedOnce<N, V>(g1: Graph<N, V>, g2: Graph<N, V>, n: N)
    requires n in g1.nodes && n !in g2.nodes
    ensures EntriesAbout(Report(g1, g2), n) == {NodeMissing(n)}
  {
    ReportAboutNode(g1, g2, n);
  }

  /** Each individual report line appears exactly when the source prints it:
      a differing value for an attribute both versions of a node carry, an
      attribute graph2's version lacks, an attribute graph1's version lacks,
      or a node graph2 lacks altogether. */
  lemma ReportEntries<N, V>(g1: Graph<N, V>, g2: Graph<N, V>, n: N, k: string, x: V, y: V)
    ensures ValueDiffers(n, k, x, y) in Report(g1, g2) <==>
              && n in g1.nodes && n in g2.nodes
              && k in g1.nodes[n] && k in g2.nodes[n]
              && x == g1.nodes[n][k] && y == g2.nodes[n][k] && x != y
    ensures MissingFromGraph2(n, k) in Report(g1, g2) <==>
              n in g1.nodes && n in g2.nodes && k in g1.nodes[n] && k !in g2.nodes[n]
    ensures MissingFromGraph1(n, k) in Report(g1, g2) <==>
              n in g1.nodes && n in g2.nodes && k in g2.nodes[n] && k !in g1.nodes[n]
    ensures NodeMissing(n) in Report(g1, g2) <==> n in g1.nodes && n !in g2.nodes
  {
    InReportIffInNodeEntries(g1, g2, ValueDiffers(n, k, x, y));
    InReportIffInNodeEntries(g1, g2, MissingFromGraph2(n, k));
    InReportIffInNodeEntries(g1, g2, MissingFromGraph1(n, k));
    InReportIffInNodeEntries(g1, g2, NodeMissing(n));
    if n in g1.nodes && n in g2.nodes {
      AttrMismatchMembership(n, g1.nodes[n], g2.nodes[n], k, x, y);
    }
  }

  lemma InReportIffInNodeEntries<N, V>(g1: Graph<N, V>, g2: Graph<N, V>, e: Entry<N, V>)
    ensures e in Report(g1, g2) <==> e.node in g1.nodes && e in NodeEntries(g1, g2, e.node)
  {
    ReportOnIsAbout(g1, g2, g1.nodes.Keys);
    if e.node in g1.nodes {
      ReportAboutNode(g1, g2, e.node);
      assert e in Report(g1, g2) <==> e in EntriesAbout(Report(g1, g2), e.node);
    }
  }

  lemma AttrMismatchMembership<N, V>(n: N, a1: Attrs<V>, a2: Attrs<V>, k: string, x: V, y: V)
    ensures ValueDiffers(n, k, x, y) in AttrMismatches(n, a1, a2) <==>
              k in a1 && k in a2 && x == a1[k] && y == a2[k] && x != y
    ensures MissingFromGraph2(n, k) in AttrMismatches(n, a1, a2) <==> k in a1 && k !in a2
    ensures MissingFromGraph1(n, k) in AttrMismatches(n, a1, a2) <==> k in a2 && k !in a1
    ensures NodeMissing(n) !in AttrMismatches(n, a1, a2)
  {
    PassesAreAbout(n, a1, a2, a1.Keys, a2.Keys);
  }

  /** The attribute names on which two versions of a node disagree. */
  function MismatchedAttrs<V(==)>(a1: Attrs<V>, a2: Attrs<V>): set<string> {
    set k | k in a1.Keys + a2.Keys && (k !in a1 || k !in a2 || a1[k] != a2[k])
  }

  /** For a node in both graphs the report lists every attribute on which the
      two versions disagree, not just the first, and no other attribute. */
  lemma EveryMismatchListed<N, V>(g1: Graph<N, V>, g2: Graph<N, V>, n: N)
    requires n in g1.nodes && n in g2.nodes
    ensures (set e | e in EntriesAbout(Report(g1, g2), n) :: e.attr)
            == MismatchedAttrs(g1.nodes[n], g2.nodes[n])
  {
    ReportAboutNode(g1, g2, n);
    var a1, a2 := g1.nodes[n], g2.nodes[n];
    var entries := AttrMismatches(n, a1, a2);
    PassesAreAbout(n, a1, a2, a1.Keys, a2.Keys);
    forall k | k in MismatchedAttrs(a1, a2) ensures exists e | e in entries :: e.attr == k {
      if k in a1 && k in a2 {
        assert ValueDiffers(n, k, a1[k], a2[k]) in entries;
      } else if k in a1 {
        assert MissingFromGraph2(n, k) in entries;
      } else {
        assert MissingFromGraph1(n, k) in entries;
      }
    }
    forall e | e in entries ensures e.attr in MismatchedAttrs(a1, a2) {
    }
  }

  /** ... and it lists each of them once: two entries about the same node and
      attribute are the same entry. */
  lemma EachMismatchListedOnce<N, V>(g1: Graph<N, V>, g2: Graph<N, V>, n: N)
    requires n in g1.nodes && n in g2.nodes
    ensures ListsEachAttrOnce(EntriesAbout(Report(g1, g2), n))
  {
    ReportAboutSharedNode(g1, g2, n);
    MismatchesHaveDistinctAttrs(n, g1.nodes[n], g2.nodes[n]);
  }

  /** Every entry of `s` is about an attribute, and no attribute has two. */
  ghost predicate ListsEachAttrOnce<N, V>(s: set<Entry<N, V>>) {
    && (forall e | e in s :: !e.NodeMissing?)
    && (forall e, e' | e in s && e' in s && !e.NodeMissing? && !e'.NodeMissing? && e.attr == e'.attr :: e == e')
  }

  lemma MismatchesHaveDistinctAttrs<N, V>(n: N, a1: Attrs<V>, a2: Attrs<V>)
    ensures ListsEachAttrOnce(AttrMismatches(n, a1, a2))
  {
    var s := AttrMismatches(n, a1, a2);
    forall e | e in s ensures !e.NodeMissing? {
      EntryIsDeterminedByAttr(n, a1, a2, e);
    }
    forall e, e' | e in s && e' in s && !e.NodeMissing? && !e'.NodeMissing? && e.attr == e'.attr
      ensures e == e'
    {
      EntryIsDeterminedByAttr(n, a1, a2, e);
      EntryIsDeterminedByAttr(n, a1, a2, e');
    }
  }

  /** The only entry a mismatching attribute `k` of node `n` can produce. */
  function EntryFor<N, V>(n: N, a1: Attrs<V>, a2: Attrs<V>, k: string): Entry<N, V> {
    if k in a1 && k in a2 then ValueDiffers(n, k, a1[k], a2[k])
    else if k in a1 then MissingFromGraph2(n, k)
    else MissingFromGraph1(n, k)
  }

  lemma EntryIsDeterminedByAttr<N, V>(n: N, a1: Attrs<V>, a2: Attrs<V>, e: Entry<N, V>)
    requires e in AttrMismatches(n, a1, a2)
    ensures !e.NodeMissing? && e == EntryFor(n, a1, a2, e.attr)
  {
    PassesAreAbout(n, a1, a2, a1.Keys, a2.Keys);
  }

  /** The report flags a node present in both graphs exactly when the
      difference graph marks it as changed. */
  lemma ReportAgreesWithDiff<N, V>(g1: Graph<N, V>, g2: Graph<N, V>, n: N)
    requires n in g1.nodes && n in g2.nodes
    ensures EntriesAbout(Report(g1, g2), n) != {} <==>
              n in Differ.Diff(g1, g2).nodes && Differ.Diff(g1, g2).nodes[n] == Differ.ChangeMarker()
  {
    ReportAboutNode(g1, g2, n);
    var a1, a2 := g1.nodes[n], g2.nodes[n];
    MismatchesIffUnequal(n, a1, a2);
    var d := Differ.Diff(g1, g2);
    if n in d.nodes && !Differ.NodeChanged(g1, g2, n) {
      assert d.nodes[n] == map[];
      assert Differ.ColorKey in Differ.ChangeMarker();
    }
  }

  /** Two attribute dictionaries produce no mismatch entries exactly when
      they are equal. */
  lemma MismatchesIffUnequal<N, V>(n: N, a1: Attrs<V>, a2: Attrs<V>)
    ensures AttrMismatches(n, a1, a2) == {} <==> a1 == a2
  {
    if a1 != a2 {
      if a1.Keys != a2.Keys {
        if k :| k in a1 && k !in a2 {
          assert MissingFromGraph2(n, k) in AttrMismatches(n, a1, a2);
        } else {
          var k :| k in a2 && k !in a1;
          assert MissingFromGraph1(n, k) in AttrMismatches(n, a1, a2);
        }
      } else {
        var k :| k in a1 && a1[k] != a2[k];
        assert ValueDiffers(n, k, a1[k], a2[k]) in AttrMismatches(n, a1, a2);
      }
    }
  }

  /** When every node of graph1 appears in graph2 with the same attributes,
      the attribute report is empty. */
  lemma SelfSimilarNodesReportNothing<N, V>(g1: Graph<N, V>, g2: Graph<N, V>)
    requires forall n | n in g1.nodes :: n in g2.nodes && g1.nodes[n] == g2.nodes[n]
    ensures Report(g1, g2) == {}
  {
    ReportIsFromGraph1Side(g1, g2);
    forall e | e in Report(g1, g2) ensures false {
      ReportAboutNode(g1, g2, e.node);
    }
  }

  /** Comparing a graph with itself reports nothing. */
  lemma SelfReportIsEmpty<N, V>(g: Graph<N, V>)
    ensures Report(g, g) == {}
  {
    SelfSimilarNodesReportNothing(g, g);
  }
}

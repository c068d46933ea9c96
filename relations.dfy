/** The plain interaction graph shared by the coloured and the elements
    scripts: edges carry only their relation, and each edge is drawn solid
    or dashed with a `+` or `−` glyph according to that relation. */
module RelationNetwork {
  import opened Seqs
  import opened DiGraphs

  type Relation = string

  /** A literal `(source, target, relation)` tuple. */
  type RelationEdge = (Node, Node, Relation)

  const Inhibits: Relation := "inhibits"
  const Boosts: Relation := "boosts"

  /** U+2212 MINUS SIGN, the glyph drawn on inhibiting edges. */
  const MinusGlyph: string := "\U{2212}"
  const PlusGlyph: string := "+"

  datatype LineStyle = Solid | Dashed

  function LineStyleOf(relation: Relation): LineStyle {
    if relation == Inhibits then Dashed else Solid
  }

  function GlyphOf(relation: Relation): string {
    if relation == Inhibits then MinusGlyph else PlusGlyph
  }

  /** The graph `add_nodes_from(nodes)` followed by
      `add_edge(u, v, relation=rel)` for each tuple produces. */
  function RelationGraph(nodes: seq<Node>, edges: seq<RelationEdge>): (r: Graph<Relation>)
    ensures Wf(r)
  {
    assert Wf(Empty<Relation>());
    WithEdges(WithNodes(Empty(), nodes), edges)
  }

  /** Building the graph: a fresh DiGraph, the nodes, then one `add_edge`
      per tuple. */
  method BuildRelationGraph(nodes: seq<Node>, edges: seq<RelationEdge>) returns (g: DiGraph<Relation>)
    ensures fresh(g) && g.Valid() && g.Snapshot() == RelationGraph(nodes, edges)
  {
    g := new DiGraph();
    g.AddNodesFrom(nodes);
    ghost var start := g.Snapshot();
    for i := 0 to |edges|
      invariant g.Valid() && g.Snapshot() == WithEdges(start, edges[..i])
    {
      var src, tgt, rel := edges[i].0, edges[i].1, edges[i].2;
      assert edges[..i + 1][..i] == edges[..i];
      g.AddEdge(src, tgt, rel);
    }
    assert edges[..|edges|] == edges;
  }

  /** The nodes of the built graph are exactly the listed nodes and the
      endpoints of the tuples; every listed node is present even without an
      incident edge, and when the list has no repeats it comes first, in order. */
  lemma RelationGraphNodes(nodes: seq<Node>, edges: seq<RelationEdge>)
    ensures forall n :: n in RelationGraph(nodes, edges).nodes <==> n in nodes || Mentions(edges, n)
    ensures Distinct(nodes) ==> nodes <= RelationGraph(nodes, edges).nodes
  {
    WithEdgesMembers(WithNodes(Empty<Relation>(), nodes), edges);
    if Distinct(nodes) {
      WithNewNodesAppends(Empty<Relation>(), nodes);
    }
  }

  /** One edge per distinct ordered pair of the tuples. */
  lemma RelationGraphEdges(nodes: seq<Node>, edges: seq<RelationEdge>)
    ensures forall p :: p in RelationGraph(nodes, edges).pairs <==> Declares(edges, p)
    ensures |RelationGraph(nodes, edges).pairs| == |Elements(PairsOf(edges))|
  {
    var g0 := WithNodes(Empty<Relation>(), nodes);
    WithEdgesMembers(g0, edges);
    EdgeCountIsDistinctPairs(g0, edges);
    assert Elements(g0.pairs) == {};
  }

  /** Each edge carries the relation of the last tuple for its pair. */
  lemma RelationGraphLastRelation(nodes: seq<Node>, edges: seq<RelationEdge>, i: nat)
    requires i < |edges|
    requires forall j :: i < j < |edges| ==> PairOf(edges[j]) != PairOf(edges[i])
    ensures PairOf(edges[i]) in RelationGraph(nodes, edges).data
    ensures RelationGraph(nodes, edges).data[PairOf(edges[i])] == edges[i].2
  {
    LastWriteWins(WithNodes(Empty<Relation>(), nodes), edges, i);
  }

  /** What drawing one edge puts on the page: the edge, its line style and
      the glyph at its midpoint. */
  datatype Mark = Mark(edge: Pair, style: LineStyle, glyph: string)

  /** What drawing a graph's edges promises: one mark per edge in edge
      order, each dashed with a minus sign exactly when its edge inhibits
      and solid with a plus sign otherwise. */
  ghost predicate DrawsRelations(g: Graph<Relation>, marks: seq<Mark>) {
    && |marks| == |Edges(g)|
    && (forall i :: 0 <= i < |marks| ==> marks[i].edge == Edges(g)[i] && marks[i].edge in g.data)
    && (forall i :: 0 <= i < |marks| ==>
          && (marks[i].style == Dashed <==> g.data[marks[i].edge] == Inhibits)
          && (marks[i].glyph == MinusGlyph <==> g.data[marks[i].edge] == Inhibits)
          && (marks[i].glyph == PlusGlyph <==> g.data[marks[i].edge] != Inhibits))
  }

  /** One mark per tuple, and every tuple's pair has a mark that is dashed
      with a minus sign exactly when the tuple inhibits. */
  ghost predicate CoversTuples(edges: seq<RelationEdge>, marks: seq<Mark>) {
    && |marks| == |edges|
    && forall i :: 0 <= i < |edges| ==>
         exists k :: && 0 <= k < |marks| && marks[k].edge == PairOf(edges[i])
                     && (marks[k].style == Dashed <==> edges[i].2 == Inhibits)
                     && (marks[k].glyph == MinusGlyph <==> edges[i].2 == Inhibits)
  }

  /** The loop over `G.edges(data=True)` that draws each edge with the style
      and glyph of its relation. */
  method DrawRelationEdges(g: DiGraph<Relation>) returns (marks: seq<Mark>)
    requires g.Valid()
    ensures DrawsRelations(g.Snapshot(), marks)
    ensures |marks| == |g.pairs|
    ensures multiset(seq(|marks|, i requires 0 <= i < |marks| => marks[i].edge)) == multiset(g.pairs)
  {
    var es := EdgesWithData(g.Snapshot());
    marks := [];
    for i := 0 to |es|
      invariant |marks| == i
      invariant forall k :: 0 <= k < i ==> marks[k] == MarkOf(es[k])
    {
      var edge, relation := es[i].0, es[i].1;
      marks := marks + [Mark(edge, LineStyleOf(relation), GlyphOf(relation))];
    }
    MarkedRecordsDrawRelations(g.Snapshot(), marks);
  }

  /** The mark drawn for one edge record. */
  function MarkOf(e: (Pair, Relation)): Mark {
    Mark(e.0, LineStyleOf(e.1), GlyphOf(e.1))
  }

  /** Marking each record of the edge list, in order, draws the graph's
      relations and marks every edge once. */
  lemma MarkedRecordsDrawRelations(h: Graph<Relation>, marks: seq<Mark>)
    requires Wf(h) && |marks| == |EdgesWithData(h)|
    requires forall k :: 0 <= k < |marks| ==> marks[k] == MarkOf(EdgesWithData(h)[k])
    ensures DrawsRelations(h, marks)
    ensures |marks| == |h.pairs|
    ensures multiset(seq(|marks|, i requires 0 <= i < |marks| => marks[i].edge)) == multiset(h.pairs)
  {
    EdgesArePairs(h);
    assert seq(|marks|, i requires 0 <= i < |marks| => marks[i].edge) == Edges(h);
  }

  /** Every endpoint is a listed node, no node is listed twice and no
      ordered pair is declared twice. */
  predicate DeclaredOnce(nodes: seq<Node>, edges: seq<RelationEdge>) {
    && Distinct(nodes)
    && Distinct(PairsOf(edges))
    && forall i :: 0 <= i < |edges| ==> edges[i].0 in nodes && edges[i].1 in nodes
  }

  /** With such lists no node is created by an edge: the graph has exactly
      the listed nodes in order, one edge per tuple in tuple order, and each
      edge carries its tuple's relation. */
  lemma DeclaredOnceGraph(nodes: seq<Node>, edges: seq<RelationEdge>)
    requires DeclaredOnce(nodes, edges)
    ensures RelationGraph(nodes, edges).nodes == nodes
    ensures RelationGraph(nodes, edges).pairs == PairsOf(edges)
    ensures forall i :: 0 <= i < |edges| ==>
              PairOf(edges[i]) in RelationGraph(nodes, edges).data && RelationGraph(nodes, edges).data[PairOf(edges[i])] == edges[i].2
  {
    var g0 := WithNodes(Empty<Relation>(), nodes);
    assert RelationGraph(nodes, edges).nodes == nodes && RelationGraph(nodes, edges).pairs == PairsOf(edges) by {
      WithNewNodesAppends(Empty<Relation>(), nodes);
      FreshPairsAppended(g0, edges);
    }
    forall i | 0 <= i < |edges|
      ensures PairOf(edges[i]) in RelationGraph(nodes, edges).data && RelationGraph(nodes, edges).data[PairOf(edges[i])] == edges[i].2
    {
      assert forall j :: i < j < |edges| ==> PairOf(edges[j]) != PairOf(edges[i]) by {
        forall j | i < j < |edges| ensures PairOf(edges[j]) != PairOf(edges[i]) {
          assert PairsOf(edges)[i] != PairsOf(edges)[j];
        }
      }
      RelationGraphLastRelation(nodes, edges, i);
    }
  }

  /** Drawing such a graph draws every listed tuple once, dashed with a
      minus sign exactly when the tuple's relation is "inhibits". */
  lemma DeclaredOnceDrawing(nodes: seq<Node>, edges: seq<RelationEdge>, marks: seq<Mark>)
    requires DeclaredOnce(nodes, edges) && DrawsRelations(RelationGraph(nodes, edges), marks)
    ensures CoversTuples(edges, marks)
  {
    var g := RelationGraph(nodes, edges);
    assert g.pairs == PairsOf(edges) && forall i :: 0 <= i < |edges| ==> PairOf(edges[i]) in g.data && g.data[PairOf(edges[i])] == edges[i].2 by {
      DeclaredOnceGraph(nodes, edges);
    }
    MarksCoverTuples(g, edges, marks);
  }

  /** Marks drawn over the edges of a graph whose edges are exactly the
      tuples' pairs, each with its tuple's relation, cover every tuple. */
  lemma MarksCoverTuples(g: Graph<Relation>, edges: seq<RelationEdge>, marks: seq<Mark>)
    requires Wf(g) && g.pairs == PairsOf(edges)
    requires forall i :: 0 <= i < |edges| ==> PairOf(edges[i]) in g.data && g.data[PairOf(edges[i])] == edges[i].2
    requires DrawsRelations(g, marks)
    ensures CoversTuples(edges, marks)
  {
    EdgesArePairs(g);
    forall i | 0 <= i < |edges|
      ensures exists k :: && 0 <= k < |marks| && marks[k].edge == PairOf(edges[i])
                          && (marks[k].style == Dashed <==> edges[i].2 == Inhibits)
                          && (marks[k].glyph == MinusGlyph <==> edges[i].2 == Inhibits)
    {
      assert PairOf(edges[i]) == g.pairs[i];
      assert PairOf(edges[i]) in multiset(Edges(g));
      var k :| 0 <= k < |Edges(g)| && Edges(g)[k] == PairOf(edges[i]);
      assert marks[k].edge == PairOf(edges[i]);
    }
  }

  /** Tuples given by positions in a repeat-free node list: when no
      position code repeats, no ordered pair repeats and every endpoint is
      listed. */
  lemma {:induction false} PositionsDeclareOnce(nodes: seq<Node>, edges: seq<RelationEdge>, positions: seq<(nat, nat)>)
    requires Distinct(nodes) && |positions| == |edges| && Distinct(PositionCodes(positions))
    requires forall i :: 0 <= i < |edges| ==>
               && positions[i].0 < |nodes| && positions[i].1 < |nodes| && positions[i].1 < 100
               && edges[i].0 == nodes[positions[i].0] && edges[i].1 == nodes[positions[i].1]
    ensures DeclaredOnce(nodes, edges)
  {
    PositionsGiveDistinctPairs(nodes, PairsOf(edges), positions);
  }
}

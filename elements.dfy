/** The elements script: a fixed list of twenty nutrients and a fixed list
    of relation tuples, built into a graph and drawn edge by edge. */
module ElementsNetwork {
  import opened Seqs
  import opened DiGraphs
  import opened RelationNetwork

  /** The expanded nutrient list. */
  const NodeList: seq<Node> := [
    "Calcium (Ca)",
    "Magnesium (Mg)",
    "Iron (Fe)",
    "Zinc (Zn)",
    "Copper (Cu)",
    "Manganese (Mn)",
    "Selenium (Se)",
    "Iodine (I)",
    "Chromium (Cr)",
    "Molybdenum (Mo)",
    "Sodium (Na)",
    "Potassium (K)",
    "Phosphorus (P)",
    "Boron (B)",
    "Silicon (Si)",
    "Fluoride (F)",
    "Vanadium (V)",
    "Nickel (Ni)",
    "Cobalt (Co)",
    "Lithium (Li)"
  ]

  /** The `(source, target, relation)` tuples. */
  const EdgeList: seq<RelationEdge> := [
    ("Calcium (Ca)", "Iron (Fe)", "inhibits"),
    ("Calcium (Ca)", "Magnesium (Mg)", "inhibits"),
    ("Magnesium (Mg)", "Calcium (Ca)", "boosts"),
    ("Zinc (Zn)", "Copper (Cu)", "inhibits"),
    ("Zinc (Zn)", "Iron (Fe)", "inhibits"),
    ("Iron (Fe)", "Zinc (Zn)", "inhibits"),
    ("Manganese (Mn)", "Iron (Fe)", "inhibits"),
    ("Molybdenum (Mo)", "Copper (Cu)", "inhibits"),
    ("Selenium (Se)", "Iodine (I)", "boosts"),
    ("Iron (Fe)", "Iodine (I)", "boosts"),
    ("Chromium (Cr)", "Iron (Fe)", "inhibits"),
    ("Phosphorus (P)", "Calcium (Ca)", "inhibits"),
    ("Sodium (Na)", "Potassium (K)", "inhibits"),
    ("Potassium (K)", "Sodium (Na)", "inhibits"),
    ("Sodium (Na)", "Calcium (Ca)", "inhibits"),
    ("Potassium (K)", "Calcium (Ca)", "boosts"),
    ("Boron (B)", "Calcium (Ca)", "boosts"),
    ("Boron (B)", "Magnesium (Mg)", "boosts"),
    ("Silicon (Si)", "Calcium (Ca)", "boosts"),
    ("Fluoride (F)", "Calcium (Ca)", "inhibits"),
    ("Vanadium (V)", "Iron (Fe)", "inhibits"),
    ("Nickel (Ni)", "Zinc (Zn)", "inhibits"),
    ("Cobalt (Co)", "Iron (Fe)", "inhibits"),
    ("Lithium (Li)", "Iodine (I)", "inhibits")
  ]

  /** No name among the first ten recurs later in the list. */
  lemma NodeListDistinctLow()
    ensures forall i, j :: 0 <= i < 10 && i < j < |NodeList| ==> NodeList[i] != NodeList[j]
  {
    forall i, j | 0 <= i < 10 && i < j < |NodeList| ensures NodeList[i] != NodeList[j] {
      if i < 5 { } else { }
    }
  }

  /** No name among the last ten recurs later in the list. */
  lemma NodeListDistinctHigh()
    ensures forall i, j :: 10 <= i < j < |NodeList| ==> NodeList[i] != NodeList[j]
  {
    forall i, j | 10 <= i < j < |NodeList| ensures NodeList[i] != NodeList[j] {
      if i < 15 { } else { }
    }
  }

  /** No nutrient is listed twice. */
  lemma NodesDistinct()
    ensures Distinct(NodeList)
  {
    NodeListDistinctLow();
    NodeListDistinctHigh();
  }

  /** Each tuple's endpoints as positions in the nutrient list. */
  const EdgePositions: seq<(nat, nat)> := [(0, 2), (0, 1), (1, 0), (3, 4), (3, 2), (2, 3), (5, 2), (9, 4), (6, 7), (2, 7), (8, 2), (12, 0), (10, 11), (11, 10), (10, 0), (11, 0), (13, 0), (13, 1), (14, 0), (15, 0), (16, 2), (17, 3), (18, 2), (19, 7)]

  lemma EdgesArePositions()
    ensures |EdgePositions| == |EdgeList|
    ensures forall i :: 0 <= i < |EdgeList| ==>
              && EdgePositions[i].0 < |NodeList| && EdgePositions[i].1 < |NodeList| && EdgePositions[i].1 < 100
              && EdgeList[i].0 == NodeList[EdgePositions[i].0] && EdgeList[i].1 == NodeList[EdgePositions[i].1]
  {
    forall i | 0 <= i < |EdgeList|
      ensures && EdgePositions[i].0 < |NodeList| && EdgePositions[i].1 < |NodeList| && EdgePositions[i].1 < 100
              && EdgeList[i].0 == NodeList[EdgePositions[i].0] && EdgeList[i].1 == NodeList[EdgePositions[i].1]
    {
      if i < 12 { if i < 6 { } else { } } else { if i < 18 { } else { } }
    }
  }

  lemma PositionCodesDistinct()
    ensures Distinct(PositionCodes(EdgePositions))
  {
    var c := PositionCodes(EdgePositions);
    forall i, j | 0 <= i < j < |c| ensures c[i] != c[j] {
      if i < 12 { if i < 6 { } else { } } else { if i < 18 { } else { } }
    }
  }

  /** Every endpoint is a listed nutrient, no nutrient is listed twice and
      no pair is declared twice. */
  lemma ElementsDeclaredOnce()
    ensures DeclaredOnce(NodeList, EdgeList)
  {
    NodesDistinct();
    EdgesArePositions();
    PositionCodesDistinct();
    PositionsDeclareOnce(NodeList, EdgeList, EdgePositions);
  }

  /** `build_graph`: a fresh DiGraph holding the twenty nutrients, in list
      order, and one edge per tuple, each with its tuple's relation. */
  method BuildGraph() returns (g: DiGraph<Relation>)
    ensures fresh(g) && g.Valid() && g.Snapshot() == RelationGraph(NodeList, EdgeList)
    ensures g.nodes == NodeList && |g.nodes| == 20
    ensures g.pairs == PairsOf(EdgeList) && |g.pairs| == 24
    ensures forall i :: 0 <= i < |EdgeList| ==> PairOf(EdgeList[i]) in g.data && g.data[PairOf(EdgeList[i])] == EdgeList[i].2
  {
    g := BuildRelationGraph(NodeList, EdgeList);
    ElementsDeclaredOnce();
    DeclaredOnceGraph(NodeList, EdgeList);
  }

  /** Marks that draw the built graph cover every listed tuple. */
  lemma ElementsDrawing(marks: seq<Mark>)
    requires DrawsRelations(RelationGraph(NodeList, EdgeList), marks)
    ensures CoversTuples(EdgeList, marks) && |marks| == 24
  {
    ElementsDeclaredOnce();
    DeclaredOnceDrawing(NodeList, EdgeList, marks);
  }

  /** The edge loop of `draw_graph` on the built graph: every listed tuple
      drawn once, dashed with a minus sign exactly when it inhibits. */
  method DrawGraph(g: DiGraph<Relation>) returns (marks: seq<Mark>)
    requires g.Valid() && g.Snapshot() == RelationGraph(NodeList, EdgeList)
    ensures CoversTuples(EdgeList, marks) && |marks| == 24
  {
    marks := DrawRelationEdges(g);
    ElementsDrawing(marks);
  }
}

/** The coloured script: five functional groups of nutrients, each group
    coloured by its position in a ten-colour cycle and every nutrient by its
    group, the graph of the relation tuples over the flattened groups, one
    colour per graph node and the edges drawn by relation. */
module ColouredNetwork {
  import opened Seqs
  import opened Outcomes
  import opened DiGraphs
  import opened Groups
  import opened RelationNetwork

  /** The `groups` dictionary, in insertion order. */
  const GroupList: seq<Group> := [
    ("Electrolytes", ["Sodium (Na)", "Potassium (K)", "Phosphorus (P)"]),
    ("Bone/Structure", ["Calcium (Ca)", "Magnesium (Mg)", "Fluoride (F)", "Silicon (Si)", "Boron (B)"]),
    ("Blood & Oxygen", ["Iron (Fe)", "Cobalt (Co)", "Copper (Cu)"]),
    ("Enzyme Cofactors", ["Zinc (Zn)", "Manganese (Mn)", "Chromium (Cr)", "Molybdenum (Mo)", "Nickel (Ni)", "Vanadium (V)"]),
    ("Thyroid & Hormones", ["Iodine (I)", "Selenium (Se)", "Lithium (Li)"])
  ]

  /** `all_nodes`: the members of every group, group after group. */
  const AllNodes: seq<Node> := Members(GroupList)

  /** The flattened list, written out. */
  const NodeOrder: seq<Node> := [
    "Sodium (Na)",
    "Potassium (K)",
    "Phosphorus (P)",
    "Calcium (Ca)",
    "Magnesium (Mg)",
    "Fluoride (F)",
    "Silicon (Si)",
    "Boron (B)",
    "Iron (Fe)",
    "Cobalt (Co)",
    "Copper (Cu)",
    "Zinc (Zn)",
    "Manganese (Mn)",
    "Chromium (Cr)",
    "Molybdenum (Mo)",
    "Nickel (Ni)",
    "Vanadium (V)",
    "Iodine (I)",
    "Selenium (Se)",
    "Lithium (Li)"
  ]

  /** The written-out list cut at the group boundaries gives the groups' lists. */
  lemma NodeOrderGroups()
    ensures NodeOrder[..3] == GroupList[0].1 && NodeOrder[3..8] == GroupList[1].1 && NodeOrder[8..11] == GroupList[2].1
    ensures NodeOrder[11..17] == GroupList[3].1 && NodeOrder[17..] == GroupList[4].1
  {
    assert NodeOrder[..3] == GroupList[0].1;
    assert NodeOrder[3..8] == GroupList[1].1;
    assert NodeOrder[8..11] == GroupList[2].1;
    assert NodeOrder[11..17] == GroupList[3].1;
    assert NodeOrder[17..] == GroupList[4].1;
  }

  /** Flattening the groups gives that list. */
  lemma AllNodesInOrder()
    ensures AllNodes == NodeOrder
  {
    MembersOfFive(GroupList);
    JoinSlices(NodeOrder, 3, 8, 11, 17);
    NodeOrderGroups();
  }

  /** The `(source, target, relation)` tuples. */
  const EdgeList: seq<RelationEdge> := [
    ("Calcium (Ca)", "Iron (Fe)", "inhibits"),
    ("Calcium (Ca)", "Magnesium (Mg)", "inhibits"),
    ("Magnesium (Mg)", "Calcium (Ca)", "boosts"),
    ("Zinc (Zn)", "Copper (Cu)", "inhibits"),
    ("Zinc (Zn)", "Iron (Fe)", "inhibits"),
    ("Iron (Fe)", "Zinc (Zn)", "inhibits"),
    ("Manganese (Mn)", "Iron (Fe)", "inhibits"),
    ("Molybdenum (Mo)", "Copper (Cu)", "inhibits"),
    ("Selenium (Se)", "Iodine (I)", "boosts"),
    ("Iron (Fe)", "Iodine (I)", "boosts"),
    ("Chromium (Cr)", "Iron (Fe)", "inhibits"),
    ("Phosphorus (P)", "Calcium (Ca)", "inhibits"),
    ("Sodium (Na)", "Potassium (K)", "inhibits"),
    ("Potassium (K)", "Sodium (Na)", "inhibits"),
    ("Sodium (Na)", "Calcium (Ca)", "inhibits"),
    ("Potassium (K)", "Calcium (Ca)", "boosts"),
    ("Boron (B)", "Calcium (Ca)", "boosts"),
    ("Boron (B)", "Magnesium (Mg)", "boosts"),
    ("Silicon (Si)", "Calcium (Ca)", "boosts"),
    ("Fluoride (F)", "Calcium (Ca)", "inhibits"),
    ("Vanadium (V)", "Iron (Fe)", "inhibits"),
    ("Nickel (Ni)", "Zinc (Zn)", "inhibits"),
    ("Cobalt (Co)", "Iron (Fe)", "inhibits"),
    ("Lithium (Li)", "Iodine (I)", "inhibits")
  ]

  /** Each tuple's endpoints as positions in the flattened list. */
  const EdgePositions: seq<(nat, nat)> := [(3, 8), (3, 4), (4, 3), (11, 10), (11, 8), (8, 11), (12, 8), (14, 10), (18, 17), (8, 17), (13, 8), (2, 3), (0, 1), (1, 0), (0, 3), (1, 3), (7, 3), (7, 4), (6, 3), (5, 3), (16, 8), (15, 11), (9, 8), (19, 17)]

  /** A colour of the `tab10` colormap, by its index among the map's ten
      colours; the colour values themselves are not modelled. */
  datatype Colour = Tab10(index: nat)

  /** `to_hex(color_map(i))`: colour `i` of the ten, or the last one for an
      index past the end. */
  function Tab10Colour(i: nat): (c: Colour)
    ensures c.index < 10
    ensures i < 10 ==> c.index == i
    ensures i >= 10 ==> c.index == 9
  {
    Tab10(if i < 10 then i else 9)
  }

  /** `group_colors`: each group coloured by its position. */
  const GroupColours: map<string, Colour> := IndexedColours(GroupList, Tab10Colour)

  /** No name among the first ten recurs later in the list. */
  lemma NodeOrderDistinctLow()
    ensures forall i, j :: 0 <= i < 10 && i < j < |NodeOrder| ==> NodeOrder[i] != NodeOrder[j]
  {
    forall i, j | 0 <= i < 10 && i < j < |NodeOrder| ensures NodeOrder[i] != NodeOrder[j] {
      if i < 5 { } else { }
    }
  }

  /** No name among the last ten recurs later in the list. */
  lemma NodeOrderDistinctHigh()
    ensures forall i, j :: 10 <= i < j < |NodeOrder| ==> NodeOrder[i] != NodeOrder[j]
  {
    forall i, j | 10 <= i < j < |NodeOrder| ensures NodeOrder[i] != NodeOrder[j] {
      if i < 15 { } else { }
    }
  }

  /** No group name repeats, no nutrient is listed twice, and there are
      twenty of them. */
  lemma GroupListFacts()
    ensures DistinctNames(GroupList) && Distinct(AllNodes) && |AllNodes| == 20
  {
    AllNodesInOrder();
    NodeOrderDistinctLow();
    NodeOrderDistinctHigh();
  }

  /** Group `i` is coloured with colour `i` of the colormap. */
  lemma GroupColoursByPosition()
    ensures Coloured(GroupList, GroupColours)
    ensures forall i :: 0 <= i < |GroupList| ==> GroupList[i].0 in GroupColours && GroupColours[GroupList[i].0] == Tab10(i)
  {
    GroupListFacts();
    IndexedColoursCoverGroups(GroupList, Tab10Colour);
    IndexedColoursByPosition(GroupList, Tab10Colour);
  }

  /** The loops that fill `node_colors`: exactly the listed nutrients get a
      colour, and every nutrient of group `i` gets colour `i`. */
  method ColourNodes() returns (nodeColours: map<Node, Colour>)
    ensures forall n :: n in nodeColours <==> n in AllNodes
    ensures forall i, n :: 0 <= i < |GroupList| && n in GroupList[i].1 ==> n in nodeColours && nodeColours[n] == Tab10(i)
  {
    GroupColoursByPosition();
    nodeColours := AssignNodeColours(GroupList, GroupColours);
    GroupListFacts();
    NodeColourIsGroupPositionColour(GroupList, Tab10Colour);
    assert nodeColours == NodeColours(GroupList, IndexedColours(GroupList, Tab10Colour));
    forall i, n | 0 <= i < |GroupList| && n in GroupList[i].1 ensures n in nodeColours && nodeColours[n] == Tab10(i) {
      assert Tab10Colour(i) == Tab10(i);
    }
  }

  lemma EdgesArePositions()
    ensures |EdgePositions| == |EdgeList|
    ensures forall i :: 0 <= i < |EdgeList| ==>
              && EdgePositions[i].0 < |AllNodes| && EdgePositions[i].1 < |AllNodes| && EdgePositions[i].1 < 100
              && EdgeList[i].0 == AllNodes[EdgePositions[i].0] && EdgeList[i].1 == AllNodes[EdgePositions[i].1]
  {
    AllNodesInOrder();
    forall i | 0 <= i < |EdgeList|
      ensures && EdgePositions[i].0 < |AllNodes| && EdgePositions[i].1 < |AllNodes| && EdgePositions[i].1 < 100
              && EdgeList[i].0 == AllNodes[EdgePositions[i].0] && EdgeList[i].1 == AllNodes[EdgePositions[i].1]
    {
      if i < 12 { if i < 6 { } else { } } else { if i < 18 { } else { } }
    }
  }

  lemma PositionCodesDistinct()
    ensures Distinct(PositionCodes(EdgePositions))
  {
    var c := PositionCodes(EdgePositions);
    forall i, j | 0 <= i < j < |c| ensures c[i] != c[j] {
      if i < 12 { if i < 6 { } else { } } else { if i < 18 { } else { } }
    }
  }

  /** Every endpoint is a listed nutrient, no nutrient is listed twice and
      no pair is declared twice. */
  lemma ColouredDeclaredOnce()
    ensures DeclaredOnce(AllNodes, EdgeList)
  {
    GroupListFacts();
    EdgesArePositions();
    PositionCodesDistinct();
    PositionsDeclareOnce(AllNodes, EdgeList, EdgePositions);
  }

  /** Building the graph: the twenty nutrients in group order, and one edge
      per tuple, each with its tuple's relation. */
  method BuildGraph() returns (g: DiGraph<Relation>)
    ensures fresh(g) && g.Valid() && g.Snapshot() == RelationGraph(AllNodes, EdgeList)
    ensures g.nodes == AllNodes && |g.nodes| == 20
    ensures g.pairs == PairsOf(EdgeList) && |g.pairs| == 24
    ensures forall i :: 0 <= i < |EdgeList| ==> PairOf(EdgeList[i]) in g.data && g.data[PairOf(EdgeList[i])] == EdgeList[i].2
  {
    g := BuildRelationGraph(AllNodes, EdgeList);
    ColouredDeclaredOnce();
    DeclaredOnceGraph(AllNodes, EdgeList);
    GroupListFacts();
  }

  /** `node_color_list` on the built graph: every node has a colour, so the
      list has one entry per node, the colour of the group listing it. */
  lemma NodeColourListComplete(nodes: seq<Node>, nodeColours: map<Node, Colour>)
    requires nodes == AllNodes
    requires forall n :: n in nodeColours <==> n in AllNodes
    requires forall i, n :: 0 <= i < |GroupList| && n in GroupList[i].1 ==> n in nodeColours && nodeColours[n] == Tab10(i)
    ensures ColourList(nodes, nodeColours).Ok?
    ensures |ColourList(nodes, nodeColours).value| == |nodes| == 20
    ensures forall k, i :: 0 <= k < |nodes| && 0 <= i < |GroupList| && nodes[k] in GroupList[i].1 ==>
              ColourList(nodes, nodeColours).value[k] == Tab10(i)
  {
    GroupListFacts();
  }

  /** Marks that draw the built graph cover every listed tuple. */
  lemma ColouredDrawing(marks: seq<Mark>)
    requires DrawsRelations(RelationGraph(AllNodes, EdgeList), marks)
    ensures CoversTuples(EdgeList, marks) && |marks| == 24
  {
    ColouredDeclaredOnce();
    DeclaredOnceDrawing(AllNodes, EdgeList, marks);
  }

  /** The script from the groups to the drawn edges: the node colours, the
      graph, the per-node colour list and the edge loop. */
  method Run() returns (g: DiGraph<Relation>, nodeColourList: Result<seq<Colour>>, marks: seq<Mark>)
    ensures g.Valid() && g.nodes == AllNodes && g.pairs == PairsOf(EdgeList)
    ensures nodeColourList.Ok? && |nodeColourList.value| == |g.nodes| == 20
    ensures forall k, i :: 0 <= k < |g.nodes| && 0 <= i < |GroupList| && g.nodes[k] in GroupList[i].1 ==>
              nodeColourList.value[k] == Tab10(i)
    ensures CoversTuples(EdgeList, marks) && |marks| == 24
  {
    var nodeColours := ColourNodes();
    g := BuildGraph();
    nodeColourList := ColourList(g.nodes, nodeColours);
    NodeColourListComplete(g.nodes, nodeColours);
    marks := DrawRelationEdges(g);
    ColouredDrawing(marks);
  }
}

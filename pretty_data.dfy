/** The literal data of the enhanced script: its five groups and its
    interaction list, and what building and summarising them yields. */
module PrettyData {
  import opened Seqs
  import opened Outcomes
  import opened DiGraphs
  import opened Groups
  import opened RelationNetwork
  import opened PrettyNetwork
  import opened NetworkAnalysis

  /** The functional groups, in insertion order. */
  const GroupList: seq<Group> := [
    ("Electrolytes & Fluid Balance", ["Sodium (Na)", "Potassium (K)", "Phosphorus (P)"]),
    ("Bone Health & Structure", ["Calcium (Ca)", "Magnesium (Mg)", "Fluoride (F)", "Silicon (Si)", "Boron (B)"]),
    ("Blood Formation & Oxygen Transport", ["Iron (Fe)", "Cobalt (Co)", "Copper (Cu)"]),
    ("Enzymatic Cofactors", ["Zinc (Zn)", "Manganese (Mn)", "Chromium (Cr)", "Molybdenum (Mo)", "Nickel (Ni)", "Vanadium (V)"]),
    ("Endocrine & Metabolic", ["Iodine (I)", "Selenium (Se)", "Lithium (Li)"])
  ]

  /** The interaction list; every entry names its strength. */
  const Interactions: seq<Interaction> := [
    Interaction("Calcium (Ca)", "Iron (Fe)", "inhibits", Some("high")),
    Interaction("Calcium (Ca)", "Magnesium (Mg)", "inhibits", Some("medium")),
    Interaction("Magnesium (Mg)", "Calcium (Ca)", "boosts", Some("high")),
    Interaction("Zinc (Zn)", "Copper (Cu)", "inhibits", Some("high")),
    Interaction("Zinc (Zn)", "Iron (Fe)", "inhibits", Some("medium")),
    Interaction("Iron (Fe)", "Zinc (Zn)", "inhibits", Some("medium")),
    Interaction("Nickel (Ni)", "Zinc (Zn)", "inhibits", Some("low")),
    Interaction("Manganese (Mn)", "Iron (Fe)", "inhibits", Some("medium")),
    Interaction("Chromium (Cr)", "Iron (Fe)", "inhibits", Some("low")),
    Interaction("Vanadium (V)", "Iron (Fe)", "inhibits", Some("low")),
    Interaction("Cobalt (Co)", "Iron (Fe)", "inhibits", Some("medium")),
    Interaction("Molybdenum (Mo)", "Copper (Cu)", "inhibits", Some("high")),
    Interaction("Selenium (Se)", "Iodine (I)", "boosts", Some("high")),
    Interaction("Iron (Fe)", "Iodine (I)", "boosts", Some("medium")),
    Interaction("Lithium (Li)", "Iodine (I)", "inhibits", Some("low")),
    Interaction("Sodium (Na)", "Potassium (K)", "inhibits", Some("high")),
    Interaction("Potassium (K)", "Sodium (Na)", "inhibits", Some("high")),
    Interaction("Sodium (Na)", "Calcium (Ca)", "inhibits", Some("medium")),
    Interaction("Potassium (K)", "Calcium (Ca)", "boosts", Some("medium")),
    Interaction("Boron (B)", "Calcium (Ca)", "boosts", Some("medium")),
    Interaction("Boron (B)", "Magnesium (Mg)", "boosts", Some("medium")),
    Interaction("Silicon (Si)", "Calcium (Ca)", "boosts", Some("medium")),
    Interaction("Phosphorus (P)", "Calcium (Ca)", "inhibits", Some("medium")),
    Interaction("Fluoride (F)", "Calcium (Ca)", "inhibits", Some("low"))
  ]

  /** The members of the groups, group after group, written out. */
  const MemberList: seq<Node> := [
    "Sodium (Na)",
    "Potassium (K)",
    "Phosphorus (P)",
    "Calcium (Ca)",
    "Magnesium (Mg)",
    "Fluoride (F)",
    "Silicon (Si)",
    "Boron (B)",
    "Iron (Fe)",
    "Cobalt (Co)",
    "Copper (Cu)",
    "Zinc (Zn)",
    "Manganese (Mn)",
    "Chromium (Cr)",
    "Molybdenum (Mo)",
    "Nickel (Ni)",
    "Vanadium (V)",
    "Iodine (I)",
    "Selenium (Se)",
    "Lithium (Li)"
  ]

  /** The written-out list cut at the group boundaries gives the groups' lists. */
  lemma MemberListGroups()
    ensures MemberList[..3] == GroupList[0].1 && MemberList[3..8] == GroupList[1].1 && MemberList[8..11] == GroupList[2].1
    ensures MemberList[11..17] == GroupList[3].1 && MemberList[17..] == GroupList[4].1
  {
    assert MemberList[..3] == GroupList[0].1;
    assert MemberList[3..8] == GroupList[1].1;
    assert MemberList[8..11] == GroupList[2].1;
    assert MemberList[11..17] == GroupList[3].1;
    assert MemberList[17..] == GroupList[4].1;
  }

  lemma MembersInOrder()
    ensures Members(GroupList) == MemberList
  {
    MembersOfFive(GroupList);
    JoinSlices(MemberList, 3, 8, 11, 17);
    MemberListGroups();
  }

  /** Each interaction's endpoints as positions in the member list. */
  const InteractionPositions: seq<(nat, nat)> := [(3, 8), (3, 4), (4, 3), (11, 10), (11, 8), (8, 11), (15, 11), (12, 8), (13, 8), (16, 8), (9, 8), (14, 10), (18, 17), (8, 17), (19, 17), (0, 1), (1, 0), (0, 3), (1, 3), (7, 3), (7, 4), (6, 3), (2, 3), (5, 3)]

  lemma InteractionPositionCodesDistinct()
    ensures Distinct(PositionCodes(InteractionPositions))
  {
    var c := PositionCodes(InteractionPositions);
    forall i, j | 0 <= i < j < |c| ensures c[i] != c[j] {
      if i < 12 { if i < 6 { } else { } } else { if i < 18 { } else { } }
    }
  }

  /** No name among the first ten recurs later in the list. */
  lemma MemberListDistinctLow()
    ensures forall i, j :: 0 <= i < 10 && i < j < |MemberList| ==> MemberList[i] != MemberList[j]
  {
    forall i, j | 0 <= i < 10 && i < j < |MemberList| ensures MemberList[i] != MemberList[j] {
      if i < 5 { } else { }
    }
  }

  /** No name among the last ten recurs later in the list. */
  lemma MemberListDistinctHigh()
    ensures forall i, j :: 10 <= i < j < |MemberList| ==> MemberList[i] != MemberList[j]
  {
    forall i, j | 10 <= i < j < |MemberList| ensures MemberList[i] != MemberList[j] {
      if i < 15 { } else { }
    }
  }

  /** No group name repeats, no nutrient is listed twice, and there are
      twenty of them. */
  lemma GroupListFacts()
    ensures DistinctNames(GroupList) && Distinct(Members(GroupList)) && |Members(GroupList)| == 20
  {
    MembersInOrder();
    MemberListDistinctLow();
    MemberListDistinctHigh();
  }

  /** `create_color_scheme` on the literal groups: group `i` takes palette
      colour `i`, and, as no nutrient is listed twice, every nutrient takes
      the colour of its group and no other name gets one. */
  method ColourScheme() returns (nodeColours: map<Node, string>, groupColours: map<string, string>)
    ensures forall i :: 0 <= i < |GroupList| ==> GroupList[i].0 in groupColours && groupColours[GroupList[i].0] == Palette[i]
    ensures forall n :: n in nodeColours <==> n in MemberList
    ensures forall i, n :: 0 <= i < |GroupList| && n in GroupList[i].1 ==> n in nodeColours && nodeColours[n] == Palette[i]
  {
    nodeColours, groupColours := CreateColorScheme(GroupList);
    GroupListFacts();
    MembersInOrder();
    forall i | 0 <= i < |GroupList| ensures GroupList[i].0 in groupColours && groupColours[GroupList[i].0] == Palette[i] {
      FirstPaletteColours(i);
    }
    forall i, n | 0 <= i < |GroupList| && n in GroupList[i].1 ensures n in nodeColours && nodeColours[n] == Palette[i] {
      FirstPaletteColours(i);
      DistinctMembersListedOnce(GroupList, n, i);
    }
  }

  /** The first five positions take the palette colours in order. */
  lemma FirstPaletteColours(i: nat)
    requires i < |Palette|
    ensures PaletteColour(i) == Palette[i] && i % 5 == i
  {
  }

  /** Every listed strength is one the tables know, and every relation is
      either inhibits or boosts. */
  lemma InteractionsWellFormed()
    ensures !HasUnknownStrength(Interactions)
    ensures forall i :: 0 <= i < |Interactions| ==> Interactions[i].relation == Inhibits || Interactions[i].relation == Boosts
  {
    forall i | 0 <= i < |Interactions| ensures Resolve(Interactions[i]).Ok? {
    }
  }

  lemma InteractionsArePositions()
    ensures |InteractionPositions| == |Interactions|
    ensures forall i :: 0 <= i < |Interactions| ==>
              && InteractionPositions[i].0 < |MemberList| && InteractionPositions[i].1 < |MemberList| && InteractionPositions[i].1 < 100
              && Interactions[i].source == MemberList[InteractionPositions[i].0] && Interactions[i].target == MemberList[InteractionPositions[i].1]
  {
    forall i | 0 <= i < |Interactions|
      ensures && InteractionPositions[i].0 < |MemberList| && InteractionPositions[i].1 < |MemberList| && InteractionPositions[i].1 < 100
              && Interactions[i].source == MemberList[InteractionPositions[i].0] && Interactions[i].target == MemberList[InteractionPositions[i].1]
    {
      if i < 12 { if i < 6 { } else { } } else { if i < 18 { } else { } }
    }
  }

  /** No ordered pair is listed twice, and every endpoint is a group member. */
  lemma InteractionPairsDistinct()
    ensures Distinct(InteractionPairs(Interactions))
    ensures forall i :: 0 <= i < |Interactions| ==> Interactions[i].source in Members(GroupList) && Interactions[i].target in Members(GroupList)
  {
    GroupListFacts();
    MembersInOrder();
    InteractionsArePositions();
    InteractionPositionCodesDistinct();
    PositionsGiveDistinctPairs(MemberList, InteractionPairs(Interactions), InteractionPositions);
  }

  /** `build_network_graph` on the literal data, for any order of
      `list(set(...))`: the build succeeds, the graph holds exactly the
      twenty nutrients in that order and twenty-four edges, and every
      interaction's edge carries its relation and its tier. */
  lemma PrettyGraph(allNodes: seq<Node>)
    requires IsNodeList(GroupList, allNodes)
    ensures NetworkGraph(allNodes, Interactions).Ok?
    ensures var g := NetworkGraph(allNodes, Interactions).value;
            && g.nodes == allNodes && |g.nodes| == 20 && |g.pairs| == 24
            && forall i :: 0 <= i < |Interactions| ==>
                 && InteractionPair(Interactions[i]) in g.data
                 && g.data[InteractionPair(Interactions[i])].relation == Interactions[i].relation
                 && g.data[InteractionPair(Interactions[i])].strength.Name() == DeclaredStrength(Interactions[i])
  {
    InteractionsWellFormed();
    InteractionPairsDistinct();
    GroupListFacts();
    DistinctCardinality(Members(GroupList));
    NetworkGraphOfDeclaredInteractions(GroupList, allNodes, Interactions);
  }

  /** `generate_analysis_report` on the literal data: twenty nutrients,
      twenty-four edges, an average degree of 2.4, a density of 24/380, and
      every edge counted as either inhibiting or boosting. */
  lemma PrettyReport(allNodes: seq<Node>)
    requires IsNodeList(GroupList, allNodes)
    ensures GenerateAnalysisReport(allNodes, Interactions, GroupList).Ok?
    ensures var r := GenerateAnalysisReport(allNodes, Interactions, GroupList).value;
            && r.totalNodes == 20 && r.totalEdges == 24
            && r.avgDegree == 2.4 && r.density == 24.0 / 380.0
            && r.inhibiting + r.boosting == r.totalEdges
  {
    assert NetworkGraph(allNodes, Interactions).Ok? by {
      PrettyGraph(allNodes);
    }
    var g := NetworkGraph(allNodes, Interactions).value;
    assert Wf(g) && |g.nodes| == 20 && |g.pairs| == 24 by {
      assert Wf(Empty<EdgeData>());
      PrettyGraph(allNodes);
    }
    PrettyRelationsKnown(allNodes);
    SummaryOfTwentyFour(g, GroupList);
  }

  /** Every edge of the literal graph inhibits or boosts. */
  lemma PrettyRelationsKnown(allNodes: seq<Node>)
    requires IsNodeList(GroupList, allNodes)
    ensures NetworkGraph(allNodes, Interactions).Ok?
    ensures var g := NetworkGraph(allNodes, Interactions).value;
            forall p :: p in g.data ==> g.data[p].relation == Inhibits || g.data[p].relation == Boosts
  {
    InteractionsWellFormed();
    NetworkGraphFailsOnUnknownStrength(allNodes, Interactions);
    NetworkGraphRelations(allNodes, Interactions);
  }

  /** The summary of a graph of twenty nodes and twenty-four edges whose
      relations are all inhibits or boosts. */
  lemma SummaryOfTwentyFour(g: Graph<EdgeData>, groups: seq<Group>)
    requires Wf(g) && |g.nodes| == 20 && |g.pairs| == 24
    requires forall p :: p in g.data ==> g.data[p].relation == Inhibits || g.data[p].relation == Boosts
    ensures Analyse(g, groups).Ok?
    ensures var r := Analyse(g, groups).value;
            && r.totalNodes == 20 && r.totalEdges == 24
            && r.avgDegree == 2.4 && r.density == 24.0 / 380.0
            && r.inhibiting + r.boosting == r.totalEdges
  {
    var r := Analyse(g, groups).value;
    assert && r.totalNodes == 20 && r.totalEdges == 24
           && r.avgDegree == ((2 * r.totalEdges) as real) / (r.totalNodes as real)
           && r.density == (r.totalEdges as real) / (PossiblePairs(r.totalNodes) as real) by {
      ReportMetrics(g, groups);
    }
    assert r.inhibiting + r.boosting == r.totalEdges by {
      ReportRelationCounts(g, groups);
    }
    TwentyFourOverTwenty(r.avgDegree, r.density, r.totalNodes, r.totalEdges);
  }

  /** The average degree and the density of twenty nodes and twenty-four edges. */
  lemma TwentyFourOverTwenty(avg: real, density: real, n: nat, m: nat)
    requires n == 20 && m == 24
    requires avg == ((2 * m) as real) / (n as real) && density == (m as real) / (PossiblePairs(n) as real)
    ensures avg == 2.4 && density == 24.0 / 380.0
  {
    assert (2 * m) as real == 48.0 && n as real == 20.0 && m as real == 24.0;
    assert PossiblePairs(n) as real == 380.0;
    assert avg == 48.0 / 20.0;
  }
}

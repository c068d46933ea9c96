/** The richer visualizer: interactions carry a strength tier that is
    resolved through a fixed table into a line width and an opacity, group
    colours come from a five-colour palette, and the edges are split into
    inhibiting and boosting lists before they are drawn. */
module PrettyNetwork {
  import opened Seqs
  import opened Outcomes
  import opened DiGraphs
  import opened Groups
  import opened RelationNetwork

  // ---------------------------------------------------------------------
  // Strength tiers and their rendering parameters.

  datatype Strength = High | Medium | Low {
    /** The key under which the tier appears in the two strength tables. */
    function Name(): string {
      match this
      case High => "high"
      case Medium => "medium"
      case Low => "low"
    }
  }

  /** The key lookup in `strength_weights`: a KeyError for any string that
      is not one of the three table keys. */
  function ParseStrength(s: string): (r: Result<Strength>)
    ensures r.Ok? <==> s in {"high", "medium", "low"}
    ensures r.Ok? ==> r.value.Name() == s
    ensures r.Err? ==> r.error == KeyError(s)
  {
    if s == "high" then Ok(High)
    else if s == "medium" then Ok(Medium)
    else if s == "low" then Ok(Low)
    else Err(KeyError(s))
  }

  /** Looking a tier up by its own key finds that tier. */
  lemma {:induction false} ParseStrengthName(st: Strength)
    ensures ParseStrength(st.Name()) == Ok(st)
  {
    match st
    case High =>
    case Medium =>
    case Low =>
  }

  /** `strength_weights`: the line width of each tier. */
  function Weight(st: Strength): real {
    match st
    case High => 2.5
    case Medium => 1.8
    case Low => 1.2
  }

  /** `strength_alpha`: the opacity of each tier. */
  function Alpha(st: Strength): real {
    match st
    case High => 0.9
    case Medium => 0.7
    case Low => 0.5
  }

  // ---------------------------------------------------------------------
  // Interactions and edge records.

  /** A literal interaction: a 4-tuple names its strength, a 3-tuple does not. */
  datatype Interaction = Interaction(source: Node, target: Node, relation: Relation, strength: Option<string>)

  /** The strength key of an interaction; a 3-tuple means "medium". */
  function DeclaredStrength(it: Interaction): string {
    match it.strength
    case Some(s) => s
    case None => "medium"
  }

  /** The attributes `add_edge` stores on an edge. */
  datatype EdgeData = EdgeData(relation: Relation, strength: Strength, weight: real, alpha: real)

  type Resolved = (Node, Node, EdgeData)

  /** One pass of the building loop up to the `add_edge` call: the tuple
      unpacked, the strength defaulted and looked up in both tables. */
  function Resolve(it: Interaction): (r: Result<Resolved>)
    ensures r.Err? <==> ParseStrength(DeclaredStrength(it)).Err?
    ensures r.Err? ==> r.error == KeyError(DeclaredStrength(it))
    ensures r.Ok? ==> r.value.0 == it.source && r.value.1 == it.target
                      && r.value.2.relation == it.relation
                      && r.value.2.strength.Name() == DeclaredStrength(it)
                      && r.value.2.weight == Weight(r.value.2.strength)
                      && r.value.2.alpha == Alpha(r.value.2.strength)
  {
    match ParseStrength(DeclaredStrength(it))
    case Err(e) => Err(e)
    case Ok(st) => Ok((it.source, it.target, EdgeData(it.relation, st, Weight(st), Alpha(st))))
  }

  /** A 3-tuple gets the medium tier. */
  lemma DefaultStrengthIsMedium(it: Interaction)
    requires it.strength.None?
    ensures Resolve(it).Ok? && Resolve(it).value.2.strength == Medium
    ensures Resolve(it).value.2.weight == 1.8 && Resolve(it).value.2.alpha == 0.7
  {
  }

  /** Some interaction has a strength the tables do not know. */
  ghost predicate HasUnknownStrength(its: seq<Interaction>) {
    exists i :: 0 <= i < |its| && Resolve(its[i]).Err?
  }

  /** One more interaction has an unknown strength when the earlier ones
      have one or it has one itself. */
  lemma UnknownStrengthSnoc(its: seq<Interaction>)
    requires its != []
    ensures HasUnknownStrength(its) <==> HasUnknownStrength(its[..|its| - 1]) || Resolve(its[|its| - 1]).Err?
  {
    var before := its[..|its| - 1];
    if HasUnknownStrength(its) {
      var i :| 0 <= i < |its| && Resolve(its[i]).Err?;
      if i < |before| { assert Resolve(before[i]).Err?; }
    }
    if HasUnknownStrength(before) {
      var i :| 0 <= i < |before| && Resolve(before[i]).Err?;
      assert its[i] == before[i];
    }
  }

  /** All interactions resolved in order, or the KeyError of the first one
      whose strength is unknown. */
  function ResolveAll(its: seq<Interaction>): (r: Result<seq<Resolved>>)
    ensures r.Err? <==> HasUnknownStrength(its)
    ensures r.Ok? ==> |r.value| == |its| && forall i :: 0 <= i < |its| ==> Resolve(its[i]) == Ok(r.value[i])
    ensures r.Err? ==> exists i :: 0 <= i < |its| && Resolve(its[i]).Err? && r.error == Resolve(its[i]).error
                                 && forall j :: 0 <= j < i ==> Resolve(its[j]).Ok?
    decreases |its|
  {
    if its == [] then Ok([])
    else
      var before := its[..|its| - 1];
      var last := its[|its| - 1];
      assert forall i :: 0 <= i < |before| ==> before[i] == its[i];
      UnknownStrengthSnoc(its);
      match ResolveAll(before)
      case Err(e) =>
        Err(e)
      case Ok(es) =>
        match Resolve(last)
        case Err(e) =>
          Err(e)
        case Ok(e) =>
          Ok(es + [e])
  }

  /** One more interaction after a failure keeps the failure. */
  lemma ResolveAllKeepsError(its: seq<Interaction>)
    requires its != [] && ResolveAll(its[..|its| - 1]).Err?
    ensures ResolveAll(its) == ResolveAll(its[..|its| - 1])
  {
  }

  /** Once a prefix fails, the whole list fails with the same error. */
  lemma {:induction false} ResolveAllStopsAtFirstError(its: seq<Interaction>, k: nat)
    requires k <= |its| && ResolveAll(its[..k]).Err?
    ensures ResolveAll(its) == ResolveAll(its[..k])
    decreases |its|
  {
    if k == |its| {
      assert its[..k] == its;
    } else {
      var before := its[..|its| - 1];
      assert before[..k] == its[..k];
      ResolveAllStopsAtFirstError(before, k);
      ResolveAllKeepsError(its);
    }
  }

  /** Every edge's width and opacity are the table values of its tier. */
  ghost predicate TableWeighted(g: Graph<EdgeData>) {
    forall p :: p in g.data ==> g.data[p].weight == Weight(g.data[p].strength) && g.data[p].alpha == Alpha(g.data[p].strength)
  }

  /** `build_network_graph`: the graph, or the KeyError of the first
      interaction with an unknown strength. */
  function NetworkGraph(allNodes: seq<Node>, its: seq<Interaction>): Result<Graph<EdgeData>> {
    match ResolveAll(its)
    case Err(e) => Err(e)
    case Ok(es) => Ok(WithEdges(WithNodes(Empty(), allNodes), es))
  }

  /** The building loop: a fresh DiGraph, all nodes, then one `add_edge`
      per interaction; an unknown strength raises out of the loop. */
  method BuildNetworkGraph(allNodes: seq<Node>, its: seq<Interaction>) returns (r: Result<DiGraph<EdgeData>>)
    ensures NetworkGraph(allNodes, its).Err? ==> r == Err(NetworkGraph(allNodes, its).error)
    ensures NetworkGraph(allNodes, its).Ok? ==>
              r.Ok? && fresh(r.value) && r.value.Valid() && r.value.Snapshot() == NetworkGraph(allNodes, its).value
  {
    var g := new DiGraph();
    g.AddNodesFrom(allNodes);
    ghost var start := g.Snapshot();
    ghost var es: seq<Resolved> := [];
    for i := 0 to |its|
      invariant g.Valid() && fresh(g)
      invariant ResolveAll(its[..i]) == Ok(es) && g.Snapshot() == WithEdges(start, es)
    {
      var it := its[i];
      var strength := DeclaredStrength(it);
      assert its[..i + 1][..i] == its[..i] && its[..i + 1][i] == it;
      var found := ParseStrength(strength);
      if found.Err? {
        assert ResolveAll(its[..i + 1]) == Err(found.error);
        ResolveAllStopsAtFirstError(its, i + 1);
        return Err(found.error);
      }
      var st := found.value;
      var d := EdgeData(it.relation, st, Weight(st), Alpha(st));
      g.AddEdge(it.source, it.target, d);
      es := es + [(it.source, it.target, d)];
    }
    assert its[..|its|] == its;
    return Ok(g);
  }

  /** The build fails exactly when some strength is unknown, and then with
      the KeyError of the first such interaction. */
  lemma NetworkGraphFailsOnUnknownStrength(allNodes: seq<Node>, its: seq<Interaction>)
    ensures NetworkGraph(allNodes, its).Err? <==> HasUnknownStrength(its)
    ensures NetworkGraph(allNodes, its).Err? ==>
              exists i :: 0 <= i < |its| && NetworkGraph(allNodes, its).error == KeyError(DeclaredStrength(its[i]))
                          && ParseStrength(DeclaredStrength(its[i])).Err?
                          && forall j :: 0 <= j < i ==> ParseStrength(DeclaredStrength(its[j])).Ok?
  {
  }

  /** The nodes of a built graph: every name of `allNodes`, then any
      undeclared endpoint; with `allNodes` from the groups, every nutrient
      listed in a group is a node even without an incident edge. */
  lemma NetworkGraphNodes(groups: seq<Group>, allNodes: seq<Node>, its: seq<Interaction>)
    requires NetworkGraph(allNodes, its).Ok?
    ensures forall n :: n in NetworkGraph(allNodes, its).value.nodes <==>
              n in allNodes || exists i :: 0 <= i < |its| && (its[i].source == n || its[i].target == n)
    ensures IsNodeList(groups, allNodes) ==>
              allNodes <= NetworkGraph(allNodes, its).value.nodes
              && forall n :: Listed(groups, n) ==> n in NetworkGraph(allNodes, its).value.nodes
  {
    var es := ResolveAll(its).value;
    var g0 := WithNodes(Empty<EdgeData>(), allNodes);
    WithEdgesMembers(g0, es);
    forall n ensures Mentions(es, n) <==> exists i :: 0 <= i < |its| && (its[i].source == n || its[i].target == n) {
      ResolvedMentions(its, es, n);
    }
    if IsNodeList(groups, allNodes) {
      WithNewNodesAppends(Empty<EdgeData>(), allNodes);
    }
  }

  /** The resolved tuples name the same endpoints as the interactions. */
  lemma ResolvedMentions(its: seq<Interaction>, es: seq<Resolved>, n: Node)
    requires ResolveAll(its).Ok? && es == ResolveAll(its).value
    ensures Mentions(es, n) <==> exists i :: 0 <= i < |its| && (its[i].source == n || its[i].target == n)
  {
    if Mentions(es, n) {
      var i :| 0 <= i < |es| && (es[i].0 == n || es[i].1 == n);
      assert Resolve(its[i]) == Ok(es[i]);
    }
    if exists i :: 0 <= i < |its| && (its[i].source == n || its[i].target == n) {
      var i :| 0 <= i < |its| && (its[i].source == n || its[i].target == n);
      assert Resolve(its[i]) == Ok(es[i]);
    }
  }

  /** The pair of an interaction. */
  function InteractionPair(it: Interaction): Pair {
    (it.source, it.target)
  }

  /** Resolution keeps each interaction's pair. */
  lemma ResolvedPairs(its: seq<Interaction>)
    requires ResolveAll(its).Ok?
    ensures forall i :: 0 <= i < |its| ==> PairOf(ResolveAll(its).value[i]) == InteractionPair(its[i])
  {
    var es := ResolveAll(its).value;
    forall i | 0 <= i < |its| ensures PairOf(es[i]) == InteractionPair(its[i]) {
      assert Resolve(its[i]) == Ok(es[i]);
    }
  }

  /** The ordered pairs of the interactions, in list order. */
  function InteractionPairs(its: seq<Interaction>): (r: seq<Pair>)
    ensures |r| == |its| && forall i :: 0 <= i < |its| ==> r[i] == InteractionPair(its[i])
  {
    seq(|its|, i requires 0 <= i < |its| => InteractionPair(its[i]))
  }

  /** A built graph has one edge per distinct ordered pair of interactions. */
  lemma NetworkGraphEdges(allNodes: seq<Node>, its: seq<Interaction>)
    requires NetworkGraph(allNodes, its).Ok?
    ensures forall p :: p in NetworkGraph(allNodes, its).value.pairs <==> p in InteractionPairs(its)
    ensures |NetworkGraph(allNodes, its).value.pairs| == |Elements(InteractionPairs(its))|
  {
    var es := ResolveAll(its).value;
    var g0 := WithNodes(Empty<EdgeData>(), allNodes);
    assert NetworkGraph(allNodes, its).value == WithEdges(g0, es);
    ResolvedPairs(its);
    assert PairsOf(es) == InteractionPairs(its);
    PairsFromNoEdges(g0, es);
  }

  /** The record of an edge of a built graph is what the last interaction
      for its pair resolves to. */
  lemma EdgeRecordIsResolved(allNodes: seq<Node>, its: seq<Interaction>, p: Pair)
    requires NetworkGraph(allNodes, its).Ok? && p in NetworkGraph(allNodes, its).value.data
    ensures exists k :: 0 <= k < |its| && InteractionPair(its[k]) == p
              && Resolve(its[k]) == Ok((its[k].source, its[k].target, NetworkGraph(allNodes, its).value.data[p]))
  {
    var es := ResolveAll(its).value;
    var g0 := WithNodes(Empty<EdgeData>(), allNodes);
    assert Declares(es, p) by {
      WithEdgesMembers(g0, es);
    }
    var i :| 0 <= i < |es| && PairOf(es[i]) == p;
    var k := LastIndexOfPair(es, i);
    LastWriteWins(g0, es, k);
    assert Resolve(its[k]) == Ok(es[k]);
  }

  /** Every edge of a built graph has the width and opacity of its tier. */
  lemma NetworkGraphTableWeighted(allNodes: seq<Node>, its: seq<Interaction>)
    requires NetworkGraph(allNodes, its).Ok?
    ensures TableWeighted(NetworkGraph(allNodes, its).value)
  {
    var g := NetworkGraph(allNodes, its).value;
    forall p | p in g.data
      ensures g.data[p].weight == Weight(g.data[p].strength) && g.data[p].alpha == Alpha(g.data[p].strength)
    {
      EdgeRecordIsResolved(allNodes, its, p);
    }
  }

  /** Every edge of a built graph carries the relation of one of the
      interactions for its pair. */
  lemma NetworkGraphRelations(allNodes: seq<Node>, its: seq<Interaction>)
    requires NetworkGraph(allNodes, its).Ok?
    ensures var g := NetworkGraph(allNodes, its).value;
            forall p :: p in g.data ==>
              exists i :: 0 <= i < |its| && InteractionPair(its[i]) == p && g.data[p].relation == its[i].relation
  {
    var g := NetworkGraph(allNodes, its).value;
    forall p | p in g.data
      ensures exists i :: 0 <= i < |its| && InteractionPair(its[i]) == p && g.data[p].relation == its[i].relation
    {
      EdgeRecordIsResolved(allNodes, its, p);
    }
  }

  /** The last index at or after `i` whose tuple names the same pair. */
  function LastIndexOfPair(es: seq<Resolved>, i: nat): (k: nat)
    requires i < |es|
    ensures i <= k < |es| && PairOf(es[k]) == PairOf(es[i])
    ensures forall j :: k < j < |es| ==> PairOf(es[j]) != PairOf(es[k])
    decreases |es| - i
  {
    if forall j :: i < j < |es| ==> PairOf(es[j]) != PairOf(es[i]) then i
    else
      var j :| i < j < |es| && PairOf(es[j]) == PairOf(es[i]);
      LastIndexOfPair(es, j)
  }

  /** Last write wins: the edge of a pair carries the relation and tier of
      the last interaction for that pair, with that tier's table values. */
  lemma NetworkGraphLastWriteWins(allNodes: seq<Node>, its: seq<Interaction>, i: nat)
    requires NetworkGraph(allNodes, its).Ok?
    requires i < |its| && forall j :: i < j < |its| ==> InteractionPair(its[j]) != InteractionPair(its[i])
    ensures InteractionPair(its[i]) in NetworkGraph(allNodes, its).value.data
    ensures var d := NetworkGraph(allNodes, its).value.data[InteractionPair(its[i])];
            && d.relation == its[i].relation
            && d.strength.Name() == DeclaredStrength(its[i])
            && d.weight == Weight(d.strength) && d.alpha == Alpha(d.strength)
            && (its[i].strength.None? ==> d.strength == Medium)
  {
    var es := ResolveAll(its).value;
    forall j | 0 <= j < |its| ensures PairOf(es[j]) == InteractionPair(its[j]) {
      assert Resolve(its[j]) == Ok(es[j]);
    }
    LastWriteWins(WithNodes(Empty<EdgeData>(), allNodes), es, i);
  }

  /** An interaction list with known strengths, no repeated pair and only
      group members as endpoints builds a graph whose nodes are exactly
      `allNodes`, with one edge per interaction carrying that interaction's
      relation and tier. */
  lemma NetworkGraphOfDeclaredInteractions(groups: seq<Group>, allNodes: seq<Node>, its: seq<Interaction>)
    requires IsNodeList(groups, allNodes) && !HasUnknownStrength(its) && Distinct(InteractionPairs(its))
    requires forall i :: 0 <= i < |its| ==> its[i].source in Members(groups) && its[i].target in Members(groups)
    ensures NetworkGraph(allNodes, its).Ok?
    ensures var g := NetworkGraph(allNodes, its).value;
            && g.nodes == allNodes && |g.nodes| == |Elements(Members(groups))| && |g.pairs| == |its|
            && forall i :: 0 <= i < |its| ==>
                 && InteractionPair(its[i]) in g.data
                 && g.data[InteractionPair(its[i])].relation == its[i].relation
                 && g.data[InteractionPair(its[i])].strength.Name() == DeclaredStrength(its[i])
  {
    var g := NetworkGraph(allNodes, its).value;
    assert g.nodes == allNodes && g.pairs == InteractionPairs(its) by {
      DeclaredInteractionsAppended(groups, allNodes, its);
    }
    assert |allNodes| == |Elements(Members(groups))| by {
      assert Elements(allNodes) == Elements(Members(groups));
      DistinctCardinality(allNodes);
    }
    forall i | 0 <= i < |its|
      ensures && InteractionPair(its[i]) in g.data
              && g.data[InteractionPair(its[i])].relation == its[i].relation
              && g.data[InteractionPair(its[i])].strength.Name() == DeclaredStrength(its[i])
    {
      assert forall j :: i < j < |its| ==> InteractionPairs(its)[j] != InteractionPairs(its)[i];
      NetworkGraphLastWriteWins(allNodes, its, i);
    }
  }

  /** With such interactions the graph keeps exactly `allNodes` and appends
      one edge per interaction in list order. */
  lemma DeclaredInteractionsAppended(groups: seq<Group>, allNodes: seq<Node>, its: seq<Interaction>)
    requires IsNodeList(groups, allNodes) && !HasUnknownStrength(its) && Distinct(InteractionPairs(its))
    requires forall i :: 0 <= i < |its| ==> its[i].source in Members(groups) && its[i].target in Members(groups)
    ensures NetworkGraph(allNodes, its).Ok?
    ensures NetworkGraph(allNodes, its).value.nodes == allNodes
    ensures NetworkGraph(allNodes, its).value.pairs == InteractionPairs(its)
  {
    assert ResolveAll(its).Ok?;
    var es := ResolveAll(its).value;
    var g0 := WithNodes(Empty<EdgeData>(), allNodes);
    assert g0.nodes == allNodes && g0.pairs == [] by {
      WithNewNodesAppends(Empty<EdgeData>(), allNodes);
    }
    assert PairsOf(es) == InteractionPairs(its) by {
      ResolvedPairs(its);
    }
    forall i | 0 <= i < |es| ensures es[i].0 in g0.nodes && es[i].1 in g0.nodes {
      assert PairOf(es[i]) == PairsOf(es)[i] == InteractionPairs(its)[i];
    }
    FreshPairsAppended(g0, es);
  }

  // ---------------------------------------------------------------------
  // Colours.

  const Palette: seq<string> := ["#FF6B6B", "#4ECDC4", "#45B7D1", "#96CEB4", "#FFEAA7"]

  /** `color_palette[i % len(color_palette)]`. */
  function PaletteColour(i: nat): string {
    Palette[i % |Palette|]
  }

  /** With distinct names, group `i` gets palette colour `i % 5`. */
  lemma PaletteByPosition(groups: seq<Group>)
    ensures DistinctNames(groups) ==> forall i :: 0 <= i < |groups| ==>
              groups[i].0 in IndexedColours(groups, PaletteColour)
              && IndexedColours(groups, PaletteColour)[groups[i].0] == Palette[i % 5]
  {
    if DistinctNames(groups) {
      IndexedColoursByPosition(groups, PaletteColour);
      forall i | 0 <= i < |groups|
        ensures groups[i].0 in IndexedColours(groups, PaletteColour)
                && IndexedColours(groups, PaletteColour)[groups[i].0] == Palette[i % 5]
      {
        assert IndexedColours(groups, PaletteColour)[groups[i].0] == PaletteColour(i);
      }
    }
  }

  /** `create_color_scheme`: the group colours by position in the palette,
      then the node colours by group. */
  method CreateColorScheme(groups: seq<Group>) returns (nodeColours: map<Node, string>, groupColours: map<string, string>)
    ensures groupColours == IndexedColours(groups, PaletteColour)
    ensures forall name :: name in groupColours <==> Named(groups, name)
    ensures DistinctNames(groups) ==> forall i :: 0 <= i < |groups| ==>
              groups[i].0 in groupColours && groupColours[groups[i].0] == Palette[i % 5]
    ensures Coloured(groups, groupColours) && nodeColours == NodeColours(groups, groupColours)
    ensures forall n :: n in nodeColours <==> Listed(groups, n)
    ensures forall n, i :: LastListing(groups, n, i) ==> n in nodeColours && nodeColours[n] == groupColours[groups[i].0]
  {
    groupColours := map[];
    for i := 0 to |groups|
      invariant groupColours == IndexedColours(groups[..i], PaletteColour)
    {
      IndexedColoursStep(groups, i, PaletteColour);
      groupColours := groupColours[groups[i].0 := Palette[i % |Palette|]];
    }
    assert groups[..|groups|] == groups;
    IndexedColoursCoverGroups(groups, PaletteColour);
    PaletteByPosition(groups);
    nodeColours := AssignNodeColours(groups, groupColours);
  }

  // ---------------------------------------------------------------------
  // Splitting and drawing the edges.

  type EdgeRecord = (Pair, EdgeData)

  /** The records of `es` whose relation is "inhibits" (or, with `inhibiting`
      false, is anything else), in their order. */
  function Select(es: seq<EdgeRecord>, inhibiting: bool): seq<EdgeRecord>
    decreases |es|
  {
    if es == [] then []
    else
      var last := es[|es| - 1];
      Select(es[..|es| - 1], inhibiting) + (if (last.1.relation == Inhibits) == inhibiting then [last] else [])
  }

  /** The two lists split the records: together they hold every record as
      often as it occurs, each on the side its relation names. */
  lemma {:induction false} SelectPartitions(es: seq<EdgeRecord>)
    ensures multiset(Select(es, true)) + multiset(Select(es, false)) == multiset(es)
    ensures forall e :: e in Select(es, true) ==> e in es && e.1.relation == Inhibits
    ensures forall e :: e in Select(es, false) ==> e in es && e.1.relation != Inhibits
    decreases |es|
  {
    if es != [] {
      var before := es[..|es| - 1];
      SelectPartitions(before);
      assert es == before + [es[|es| - 1]];
    }
  }

  /** Selecting from one more record appends it when it is on the side asked for. */
  lemma SelectStep(es: seq<EdgeRecord>, i: nat, inhibiting: bool)
    requires i < |es|
    ensures Select(es[..i + 1], inhibiting)
         == Select(es[..i], inhibiting) + (if (es[i].1.relation == Inhibits) == inhibiting then [es[i]] else [])
  {
    assert es[..i + 1][..i] == es[..i];
  }

  /** The first loop of `draw_enhanced_edges`: each edge appended to the
      inhibiting or the boosting list. */
  method SplitEdges(g: DiGraph<EdgeData>) returns (inhibits: seq<EdgeRecord>, boosts: seq<EdgeRecord>)
    requires g.Valid()
    ensures inhibits == Select(EdgesWithData(g.Snapshot()), true)
    ensures boosts == Select(EdgesWithData(g.Snapshot()), false)
    ensures multiset(inhibits) + multiset(boosts) == multiset(EdgesWithData(g.Snapshot()))
    ensures |inhibits| + |boosts| == |g.pairs|
    ensures forall e :: e in inhibits ==> e.0 in g.data && g.data[e.0] == e.1 && e.1.relation == Inhibits
    ensures forall e :: e in boosts ==> e.0 in g.data && g.data[e.0] == e.1 && e.1.relation != Inhibits
  {
    var es := EdgesWithData(g.Snapshot());
    inhibits, boosts := [], [];
    for i := 0 to |es|
      invariant inhibits == Select(es[..i], true) && boosts == Select(es[..i], false)
    {
      SelectStep(es, i, true);
      SelectStep(es, i, false);
      if es[i].1.relation == Inhibits {
        inhibits := inhibits + [es[i]];
      } else {
        boosts := boosts + [es[i]];
      }
    }
    assert es[..|es|] == es;
    SplitFacts(g.Snapshot());
  }

  /** What the split promises, over the graph's value. */
  lemma SplitFacts(h: Graph<EdgeData>)
    requires Wf(h)
    ensures var es := EdgesWithData(h);
            && multiset(Select(es, true)) + multiset(Select(es, false)) == multiset(es)
            && |Select(es, true)| + |Select(es, false)| == |h.pairs|
            && (forall e :: e in Select(es, true) ==> e.0 in h.data && h.data[e.0] == e.1 && e.1.relation == Inhibits)
            && (forall e :: e in Select(es, false) ==> e.0 in h.data && h.data[e.0] == e.1 && e.1.relation != Inhibits)
  {
    SelectPartitions(EdgesWithData(h));
    SplitCount(h);
    SelectedAreStored(h, true);
    SelectedAreStored(h, false);
  }

  /** Each selected record is the stored record of its edge. */
  lemma SelectedAreStored(g: Graph<EdgeData>, inhibiting: bool)
    requires Wf(g)
    ensures forall e :: e in Select(EdgesWithData(g), inhibiting) ==>
              e.0 in g.data && g.data[e.0] == e.1 && (e.1.relation == Inhibits) == inhibiting
  {
    var es := EdgesWithData(g);
    SelectPartitions(es);
    forall e | e in Select(es, inhibiting) ensures e.0 in g.data && g.data[e.0] == e.1 {
      var k :| 0 <= k < |es| && es[k] == e;
    }
  }

  /** The two lists together are as long as the graph has edges. */
  lemma SplitCount(g: Graph<EdgeData>)
    requires Wf(g)
    ensures |Select(EdgesWithData(g), true)| + |Select(EdgesWithData(g), false)| == |g.pairs|
  {
    var es := EdgesWithData(g);
    SelectPartitions(es);
    EdgesArePairs(g);
    assert |multiset(Select(es, true)) + multiset(Select(es, false))| == |multiset(es)|;
  }

  const InhibitColour: string := "#E74C3C"
  const BoostColour: string := "#27AE60"

  /** What drawing one edge puts on the page. */
  datatype EnhancedMark = EnhancedMark(edge: Pair, style: LineStyle, colour: string, glyph: string, width: real, alpha: real)

  /** The mark one edge record gets: dashed red with a minus sign when it
      inhibits, solid green with a plus sign otherwise; width and opacity
      from its tier. */
  function EnhancedMarkOf(e: EdgeRecord): EnhancedMark {
    if e.1.relation == Inhibits then
      EnhancedMark(e.0, Dashed, InhibitColour, MinusGlyph, Weight(e.1.strength), Alpha(e.1.strength))
    else
      EnhancedMark(e.0, Solid, BoostColour, PlusGlyph, Weight(e.1.strength), Alpha(e.1.strength))
  }

  /** What the drawing promises about a graph: every edge drawn once per
      record, with the look its relation and tier call for, and all dashed
      edges before all solid ones. */
  ghost predicate DrawsGraph(g: Graph<EdgeData>, marks: seq<EnhancedMark>) {
    && |marks| == |g.pairs|
    && (forall p :: p in g.pairs ==> exists k :: 0 <= k < |marks| && marks[k].edge == p)
    && (forall k :: 0 <= k < |marks| ==> marks[k].edge in g.data)
    && (forall k :: 0 <= k < |marks| ==>
          var d := g.data[marks[k].edge];
          && (marks[k].style == Dashed <==> d.relation == Inhibits)
          && (marks[k].colour == InhibitColour <==> d.relation == Inhibits)
          && (marks[k].colour == BoostColour <==> d.relation != Inhibits)
          && (marks[k].glyph == MinusGlyph <==> d.relation == Inhibits)
          && marks[k].width == Weight(d.strength) && marks[k].alpha == Alpha(d.strength))
    && (forall j, k :: 0 <= j < k < |marks| && marks[k].style == Dashed ==> marks[j].style == Dashed)
  }

  /** The marks are those of the inhibiting records in edge order, then
      those of the other records in edge order, as the two drawing loops
      put them on the page. */
  ghost predicate DrawnInSplitOrder(g: Graph<EdgeData>, marks: seq<EnhancedMark>)
    requires Wf(g)
  {
    var inhibits := Select(EdgesWithData(g), true);
    var boosts := Select(EdgesWithData(g), false);
    && |marks| == |inhibits| + |boosts|
    && (forall k :: 0 <= k < |inhibits| ==> marks[k] == EnhancedMarkOf(inhibits[k]))
    && (forall k :: 0 <= k < |boosts| ==> marks[|inhibits| + k] == EnhancedMarkOf(boosts[k]))
  }

  /** Every edge of the graph is the edge of some record in `drawn`. */
  lemma {:induction false} RecordsCoverPairs(g: Graph<EdgeData>, drawn: seq<EdgeRecord>)
    requires Wf(g) && multiset(drawn) == multiset(EdgesWithData(g))
    ensures forall p :: p in g.pairs ==> exists k :: 0 <= k < |drawn| && drawn[k].0 == p
  {
    var es := EdgesWithData(g);
    EdgesArePairs(g);
    forall p | p in g.pairs ensures exists k :: 0 <= k < |drawn| && drawn[k].0 == p {
      assert p in multiset(Edges(g));
      var m :| 0 <= m < |Edges(g)| && Edges(g)[m] == p;
      assert es[m].0 == p;
      assert es[m] in multiset(drawn);
      var k :| 0 <= k < |drawn| && drawn[k] == es[m];
    }
  }

  /** The inhibiting records followed by the others: each is the stored
      record of its edge, the first `|Select(.., true)|` inhibit and the rest
      do not, and every edge has a record. */
  lemma {:induction false} SplitRecords(g: Graph<EdgeData>)
    requires Wf(g)
    ensures var inhibits := Select(EdgesWithData(g), true);
            var drawn := inhibits + Select(EdgesWithData(g), false);
            && |drawn| == |g.pairs|
            && (forall k :: 0 <= k < |drawn| ==>
                  drawn[k].0 in g.data && g.data[drawn[k].0] == drawn[k].1
                  && (drawn[k].1.relation == Inhibits <==> k < |inhibits|))
            && (forall p :: p in g.pairs ==> exists k :: 0 <= k < |drawn| && drawn[k].0 == p)
  {
    var es := EdgesWithData(g);
    var inhibits, boosts := Select(es, true), Select(es, false);
    var drawn := inhibits + boosts;
    SelectPartitions(es);
    SplitCount(g);
    SelectedAreStored(g, true);
    SelectedAreStored(g, false);
    forall k | 0 <= k < |drawn| ensures drawn[k].0 in g.data && g.data[drawn[k].0] == drawn[k].1
      && (drawn[k].1.relation == Inhibits <==> k < |inhibits|)
    {
      if k < |inhibits| {
        assert drawn[k] in inhibits;
      } else {
        assert drawn[k] == boosts[k - |inhibits|];
        assert drawn[k] in boosts;
      }
    }
    assert multiset(drawn) == multiset(es);
    RecordsCoverPairs(g, drawn);
  }

  /** Marking such a record list draws the graph. */
  lemma {:induction false} MarksDrawGraph(g: Graph<EdgeData>, drawn: seq<EdgeRecord>, split: nat, marks: seq<EnhancedMark>)
    requires |drawn| == |g.pairs| && |marks| == |drawn|
    requires forall k :: 0 <= k < |drawn| ==> drawn[k].0 in g.data && g.data[drawn[k].0] == drawn[k].1
    requires forall k :: 0 <= k < |drawn| ==> (drawn[k].1.relation == Inhibits <==> k < split)
    requires forall p :: p in g.pairs ==> exists k :: 0 <= k < |drawn| && drawn[k].0 == p
    requires forall k :: 0 <= k < |marks| ==> marks[k] == EnhancedMarkOf(drawn[k])
    ensures DrawsGraph(g, marks)
  {
    forall p | p in g.pairs ensures exists k :: 0 <= k < |marks| && marks[k].edge == p {
      var k :| 0 <= k < |drawn| && drawn[k].0 == p;
      assert marks[k].edge == p;
    }
  }

  /** The first drawing loop: every inhibiting edge dashed red with a minus sign. */
  method DrawInhibiting(inhibits: seq<EdgeRecord>) returns (marks: seq<EnhancedMark>)
    requires forall k :: 0 <= k < |inhibits| ==> inhibits[k].1.relation == Inhibits
    ensures |marks| == |inhibits| && forall k :: 0 <= k < |marks| ==> marks[k] == EnhancedMarkOf(inhibits[k])
  {
    marks := [];
    for i := 0 to |inhibits|
      invariant |marks| == i && forall k :: 0 <= k < i ==> marks[k] == EnhancedMarkOf(inhibits[k])
    {
      var d := inhibits[i].1;
      marks := marks + [EnhancedMark(inhibits[i].0, Dashed, InhibitColour, MinusGlyph, Weight(d.strength), Alpha(d.strength))];
    }
  }

  /** The second drawing loop: every other edge solid green with a plus sign. */
  method DrawBoosting(boosts: seq<EdgeRecord>) returns (marks: seq<EnhancedMark>)
    requires forall k :: 0 <= k < |boosts| ==> boosts[k].1.relation != Inhibits
    ensures |marks| == |boosts| && forall k :: 0 <= k < |marks| ==> marks[k] == EnhancedMarkOf(boosts[k])
  {
    marks := [];
    for i := 0 to |boosts|
      invariant |marks| == i && forall k :: 0 <= k < i ==> marks[k] == EnhancedMarkOf(boosts[k])
    {
      var d := boosts[i].1;
      marks := marks + [EnhancedMark(boosts[i].0, Solid, BoostColour, PlusGlyph, Weight(d.strength), Alpha(d.strength))];
    }
  }

  /** The marks of the inhibiting records followed by the marks of the
      others draw the graph. */
  lemma {:induction false} SplitMarksDrawGraph(g: Graph<EdgeData>, inhibits: seq<EdgeRecord>, boosts: seq<EdgeRecord>,
                                                dashed: seq<EnhancedMark>, solid: seq<EnhancedMark>)
    requires Wf(g)
    requires inhibits == Select(EdgesWithData(g), true) && boosts == Select(EdgesWithData(g), false)
    requires |dashed| == |inhibits| && forall k :: 0 <= k < |dashed| ==> dashed[k] == EnhancedMarkOf(inhibits[k])
    requires |solid| == |boosts| && forall k :: 0 <= k < |solid| ==> solid[k] == EnhancedMarkOf(boosts[k])
    ensures DrawsGraph(g, dashed + solid)
    ensures DrawnInSplitOrder(g, dashed + solid)
  {
    JoinedMarksInOrder(inhibits, boosts, dashed, solid);
    var drawn := inhibits + boosts;
    var marks := dashed + solid;
    forall k | 0 <= k < |marks| ensures marks[k] == EnhancedMarkOf(drawn[k]) {
      if k >= |dashed| {
        assert marks[k] == solid[k - |dashed|] && drawn[k] == boosts[k - |inhibits|];
      }
    }
    SplitRecords(g);
    MarksDrawGraph(g, drawn, |inhibits|, marks);
  }

  /** The joined marks are those of the inhibiting records, in order,
      followed by those of the others. */
  lemma JoinedMarksInOrder(inhibits: seq<EdgeRecord>, boosts: seq<EdgeRecord>, dashed: seq<EnhancedMark>, solid: seq<EnhancedMark>)
    requires |dashed| == |inhibits| && forall k :: 0 <= k < |dashed| ==> dashed[k] == EnhancedMarkOf(inhibits[k])
    requires |solid| == |boosts| && forall k :: 0 <= k < |solid| ==> solid[k] == EnhancedMarkOf(boosts[k])
    ensures |dashed + solid| == |inhibits| + |boosts|
    ensures forall k :: 0 <= k < |inhibits| ==> (dashed + solid)[k] == EnhancedMarkOf(inhibits[k])
    ensures forall k :: 0 <= k < |boosts| ==> (dashed + solid)[|inhibits| + k] == EnhancedMarkOf(boosts[k])
  {
  }

  /** `draw_enhanced_edges`: split the edges, draw the inhibiting ones, then
      the others. */
  method DrawEnhancedEdges(g: DiGraph<EdgeData>) returns (marks: seq<EnhancedMark>)
    requires g.Valid()
    ensures DrawsGraph(g.Snapshot(), marks)
    ensures DrawnInSplitOrder(g.Snapshot(), marks)
  {
    ghost var sg := g.Snapshot();
    var inhibits, boosts := SplitEdges(g);
    assert forall k :: 0 <= k < |inhibits| ==> inhibits[k] in inhibits;
    assert forall k :: 0 <= k < |boosts| ==> boosts[k] in boosts;
    var dashed := DrawInhibiting(inhibits);
    var solid := DrawBoosting(boosts);
    marks := dashed + solid;
    SplitMarksDrawGraph(sg, inhibits, boosts, dashed, solid);
  }

  /** On a graph the builder produced, each edge is drawn with exactly the
      width and opacity stored on it. */
  lemma DrawnWidthIsStoredWeight(allNodes: seq<Node>, its: seq<Interaction>, marks: seq<EnhancedMark>)
    requires NetworkGraph(allNodes, its).Ok? && DrawsGraph(NetworkGraph(allNodes, its).value, marks)
    ensures forall k :: 0 <= k < |marks| ==>
              marks[k].width == NetworkGraph(allNodes, its).value.data[marks[k].edge].weight
              && marks[k].alpha == NetworkGraph(allNodes, its).value.data[marks[k].edge].alpha
  {
    NetworkGraphTableWeighted(allNodes, its);
  }
}

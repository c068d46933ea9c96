# Micronutrient interaction network

The repository draws a network of micronutrients. Each node is a nutrient.
Each directed edge says that one nutrient inhibits or boosts another. The
same builder appears in three scripts, each richer than the last:

- `interaction_network_elements.py` builds a networkx `DiGraph` from a
  fixed list of twenty nutrients and twenty-four `(source, target,
  relation)` tuples. It draws every edge dashed with a `−` glyph when the
  relation is `inhibits`, and solid with a `+` otherwise.
- `interaction_network_coloured..py` adds five functional groups. Each
  group is coloured by its position in the `tab10` colormap, and each
  nutrient takes the colour of its group.
- `interaction_network_elements_pretty.py` adds a strength to each
  `(source, target, relation, strength)` tuple. Strength tables give each
  edge a width and an opacity. This script also has a five-colour palette,
  a split of the edges into an inhibiting and a boosting list, and an
  analysis report:
  - node and edge counts, density and average degree;
  - relation counts;
  - the five best-connected nutrients;
  - group sizes.

The model has these modules:

- `DiGraphs`: the networkx `DiGraph` the scripts use.
  - A `Graph` value holds the nodes in insertion order, the ordered pairs
    carrying an edge (each once, in first-insertion order) and a record per
    edge.
  - The class `DiGraph` is the mutable object. Its methods are specified
    by functions on `Graph`.
  - It covers edge iteration in networkx order (node by node, out-edges in
    insertion order) and degrees.
- `Groups`: functional groups and what is derived from them:
  - the flattened member list and the group sizes;
  - colours by group position and node colours by group;
  - the per-node colour list.
- `RelationNetwork`: the plain relation graph and its per-edge drawing,
  shared by the elements and the coloured scripts.
- `PrettyNetwork`: the pretty script's parts:
  - the strength tables and strength resolution;
  - the building loop;
  - the colour scheme;
  - the edge split and the drawing of the two lists.
- `NetworkAnalysis`: `generate_analysis_report`, including the stable
  descending sort by degree.
- `ElementsNetwork`, `ColouredNetwork` and `PrettyData`: each script's
  literal data, and what building, colouring, drawing and summarising that
  data yields.
- `Seqs` and `Outcomes`: sequence facts, and the `Result` and `Option`
  types. A Python exception is an `Err` carrying `KeyError(key)` or
  `ZeroDivisionError`.

Drawing is modelled as the sequence of marks the edge loops put on the
page. A mark is an edge with its line style, glyph and, in the pretty
script, its colour, width and opacity. Colours are opaque tokens: hex
strings where the source writes them, `Tab10(i)` for the colormap. Widths,
opacities, density and average degree are reals.

## Model

| member | source | states |
|---|---|---|
| DiGraphs.WithNodes | interaction_network_elements_pretty.py:194 | `add_nodes_from` adds exactly the listed names, keeps edges and records, and keeps the graph well formed |
| DiGraphs.WithEdgeNodeOrder | interaction_network_elements_pretty.py:204-211 | `add_edge` appends a missing source, then a missing target, after every existing node |
| DiGraphs.WithNewNodesAppends | interaction_network_elements.py:67 | new, repeat-free names are appended in the order given |
| DiGraphs.WithEdge | interaction_network_elements_pretty.py:204-211 | `add_edge` creates missing endpoints, adds the pair at most once and makes its record the new one; the graph stays well formed |
| DiGraphs.WithEdgesMembers | interaction_network_elements_pretty.py:197-211 | after the loop, the nodes are the old nodes plus every tuple endpoint, and the pairs are the old pairs plus every tuple pair |
| DiGraphs.LastWriteWins | interaction_network_elements_pretty.py:204-211 | a pair's record is the one of the last tuple naming it |
| DiGraphs.UntouchedPairKeepsRecord | interaction_network_elements_pretty.py:204-211 | a pair no tuple names keeps its record |
| DiGraphs.EdgeCountIsDistinctPairs | interaction_network_elements_pretty.py:197-211 | the edge count is the number of distinct ordered pairs |
| DiGraphs.PairsFromNoEdges | interaction_network_elements_pretty.py:191-211 | built from no edges, the pairs are exactly the tuple pairs, one edge per distinct pair |
| DiGraphs.FreshPairsAppended | interaction_network_elements.py:68-69 | when every endpoint is a node and no pair repeats, no node is created and the pairs are the tuple pairs in order |
| DiGraphs.PositionsGiveDistinctPairs | interaction_network_elements.py:35-62 | pairs given by distinct positions in a repeat-free node list are distinct and have listed endpoints |
| DiGraphs.EdgesWithData | interaction_network_elements_pretty.py:363 | `G.edges(data=True)` yields each edge, in edge order, with its stored record |
| DiGraphs.GroupedIsPermutation | interaction_network_elements_pretty.py:363 | grouping the pairs by source node lists every pair whose source is listed exactly once |
| DiGraphs.EdgesArePairs | interaction_network_elements_pretty.py:363 | edge iteration is a permutation of the stored pairs: each edge exactly once |
| DiGraphs.EdgesDistinct | interaction_network_elements_pretty.py:363 | no edge is yielded twice |
| DiGraphs.DegreesOf | interaction_network_elements_pretty.py:623 | `G.degree()` pairs each node with its in-degree plus out-degree |
| DiGraphs.DegreeSumIsTwiceEdges | interaction_network_elements_pretty.py:623 | the degrees add up to twice the number of edges |
| DiGraphs.DiGraph.constructor | interaction_network_elements_pretty.py:191 | `nx.DiGraph()` is the empty graph |
| DiGraphs.DiGraph.AddNodesFrom | interaction_network_elements_pretty.py:194 | the new state is the old graph with the names added |
| DiGraphs.DiGraph.AddEdge | interaction_network_elements_pretty.py:204-211 | the new state is the old graph with the edge added or overwritten |
| Groups.Members | interaction_network_coloured..py:35 | a name is a member exactly when some group lists it |
| Groups.GroupSizes | interaction_network_elements_pretty.py:633 | the keys are exactly the group names |
| Groups.GroupSizesAreListLengths | interaction_network_elements_pretty.py:633 | with distinct names, each name maps to the length of its list |
| Groups.IndexedColours | interaction_network_coloured..py:67 | the keys are exactly the group names |
| Groups.IndexedColoursByPosition | interaction_network_coloured..py:67 | with distinct names, group `i` has the colour of position `i` |
| Groups.IndexedColoursCoverGroups | interaction_network_coloured..py:67 | every group gets a colour |
| Groups.NodeColourIsLastGroupColour | interaction_network_coloured..py:68-71 | exactly the listed names get a colour, the colour of the last group listing them |
| Groups.DistinctMembersListedOnce | interaction_network_coloured..py:68-71 | when no name is listed twice, a name's group is also its last listing |
| Groups.NodeColourIsGroupPositionColour | interaction_network_coloured..py:67-71 | with distinct names and members, each member gets the colour of its group's position |
| Groups.AssignNodeColours | interaction_network_coloured..py:68-71 | the nested loops compute the node colour map, with the property above |
| Groups.ColourList | interaction_network_coloured..py:84 | one colour per node in node order, or the KeyError of the first node without one; it fails iff some node has no colour |
| RelationNetwork.RelationGraph | interaction_network_elements.py:65-70 | the built graph is well formed |
| RelationNetwork.BuildRelationGraph | interaction_network_elements.py:65-70 | the loop of `add_edge` calls builds a fresh graph equal to `RelationGraph` |
| RelationNetwork.RelationGraphNodes | interaction_network_elements.py:67-69 | nodes are the listed names plus tuple endpoints; a repeat-free list comes first, in order |
| RelationNetwork.RelationGraphEdges | interaction_network_elements.py:68-69 | one edge per distinct ordered pair of the tuples |
| RelationNetwork.RelationGraphLastRelation | interaction_network_elements.py:68-69 | each edge has the relation of the last tuple for its pair |
| RelationNetwork.DrawRelationEdges | interaction_network_elements.py:84-97 | one mark per edge in edge order; dashed iff the relation is inhibits; `−` iff inhibits, `+` otherwise; every edge drawn once |
| RelationNetwork.DeclaredOnceGraph | interaction_network_elements.py:65-70 | with listed endpoints and no repeats, the nodes are the list and the pairs are the tuple pairs in order, each with its tuple's relation |
| RelationNetwork.MarksCoverTuples | interaction_network_elements.py:84-97 | drawn marks cover every tuple with the style and glyph of its relation |
| RelationNetwork.DeclaredOnceDrawing | interaction_network_elements.py:84-97 | drawing a graph built from a repeat-free list gives one mark per tuple, dashed with `−` exactly for inhibits |
| RelationNetwork.PositionsDeclareOnce | interaction_network_elements.py:11-62 | tuples given by distinct positions in a repeat-free list are declared once |
| PrettyNetwork.ParseStrength | interaction_network_elements_pretty.py:153-154 | a strength resolves iff it is `high`, `medium` or `low`, keeps its name, and otherwise fails with `KeyError(strength)` |
| PrettyNetwork.ParseStrengthName | interaction_network_elements_pretty.py:153-154 | every tier's name resolves back to that tier |
| PrettyNetwork.Resolve | interaction_network_elements_pretty.py:198-210 | a tuple resolves to its endpoints, relation, tier and that tier's weight and alpha, or to the KeyError of its strength |
| PrettyNetwork.DefaultStrengthIsMedium | interaction_network_elements_pretty.py:198-202 | a 3-tuple gets medium: weight 1.8, alpha 0.7 |
| PrettyNetwork.ResolveAll | interaction_network_elements_pretty.py:197-211 | fails iff some strength is unknown, with the error of the first such tuple; otherwise resolves every tuple in order |
| PrettyNetwork.ResolveAllStopsAtFirstError | interaction_network_elements_pretty.py:197-211 | once a prefix fails, the whole loop fails with the same error |
| PrettyNetwork.BuildNetworkGraph | interaction_network_elements_pretty.py:184-211 | the building loop returns a fresh graph equal to `NetworkGraph`, or raises its error |
| PrettyNetwork.NetworkGraphFailsOnUnknownStrength | interaction_network_elements_pretty.py:209-210 | the build fails iff some strength is unknown, and then with the KeyError of the first one |
| PrettyNetwork.NetworkGraphNodes | interaction_network_elements_pretty.py:148-150 | nodes are `all_nodes` plus endpoints; every group member is a node even without an edge |
| PrettyNetwork.ResolvedMentions | interaction_network_elements_pretty.py:197-207 | a name occurs in the resolved tuples iff it is an endpoint of some interaction |
| PrettyNetwork.ResolvedPairs | interaction_network_elements_pretty.py:199-207 | resolution keeps each tuple's ordered pair |
| PrettyNetwork.NetworkGraphEdges | interaction_network_elements_pretty.py:197-211 | one edge per distinct ordered pair of the interactions |
| PrettyNetwork.NetworkGraphTableWeighted | interaction_network_elements_pretty.py:209-210 | every edge's weight and alpha are the table values of its tier |
| PrettyNetwork.EdgeRecordIsResolved | interaction_network_elements_pretty.py:197-211 | every stored record is the resolution of some interaction for that pair |
| PrettyNetwork.NetworkGraphRelations | interaction_network_elements_pretty.py:204-208 | every edge carries the relation of some interaction for its pair |
| PrettyNetwork.NetworkGraphLastWriteWins | interaction_network_elements_pretty.py:204-211 | a pair's edge has the relation, tier, weight and alpha of the last interaction for that pair |
| PrettyNetwork.DeclaredInteractionsAppended | interaction_network_elements_pretty.py:191-211 | with known strengths, distinct pairs and member endpoints, the build succeeds, adds no node and stores the interaction pairs in order |
| PrettyNetwork.NetworkGraphOfDeclaredInteractions | interaction_network_elements_pretty.py:191-211 | with known strengths, distinct pairs and member endpoints, the nodes are exactly `all_nodes` and there is one edge per interaction with its relation and tier |
| PrettyNetwork.CreateColorScheme | interaction_network_elements_pretty.py:156-182 | group `i` gets `palette[i mod 5]`; exactly the listed nutrients get a colour, that of the last group listing them |
| PrettyNetwork.SelectPartitions | interaction_network_elements_pretty.py:363-367 | the two lists together are a permutation of the edges; inhibits holds exactly the inhibiting edges |
| PrettyNetwork.SplitEdges | interaction_network_elements_pretty.py:360-367 | every edge record lands in exactly one list: inhibits iff relation is inhibits; sizes add up to the edge count |
| PrettyNetwork.SelectedAreStored | interaction_network_elements_pretty.py:363-367 | every selected record is the stored record of its edge |
| PrettyNetwork.SplitCount | interaction_network_elements_pretty.py:360-367 | the two lists have as many entries as the graph has edges |
| PrettyNetwork.DrawInhibiting | interaction_network_elements_pretty.py:370-389 | one dashed `#E74C3C` `−` mark per inhibiting edge, with its tier's width and alpha |
| PrettyNetwork.DrawBoosting | interaction_network_elements_pretty.py:392-411 | one solid `#27AE60` `+` mark per other edge, with its tier's width and alpha |
| PrettyNetwork.SplitMarksDrawGraph | interaction_network_elements_pretty.py:369-411 | the two drawing loops together draw the graph, as described in the next row, each list in its own order |
| PrettyNetwork.DrawEnhancedEdges | interaction_network_elements_pretty.py:351-411 | every edge drawn once; dashed, red and `−` iff inhibits, else solid, green and `+`; width and alpha from the tier; the inhibiting edges in edge order, then the others in edge order |
| PrettyNetwork.DrawnWidthIsStoredWeight | interaction_network_elements_pretty.py:371-373 | on a built graph, each mark's width and alpha equal the edge's stored weight and alpha |
| NetworkAnalysis.PossiblePairs | interaction_network_elements_pretty.py:622 | `n(n−1)` is positive iff there are at least two nodes |
| NetworkAnalysis.InsertKeepsStable | interaction_network_elements_pretty.py:630-632 | inserting before the first item of lower or equal degree keeps the order stable and descending |
| NetworkAnalysis.SortByDegree | interaction_network_elements_pretty.py:630-632 | the sort is a permutation of the items |
| NetworkAnalysis.SortByDegreeIsStable | interaction_network_elements_pretty.py:630-632 | the sorted list is descending by degree, with equal degrees in their original order |
| NetworkAnalysis.Analyse | interaction_network_elements_pretty.py:619-634 | the report fails with ZeroDivisionError iff the graph has no nodes |
| NetworkAnalysis.GenerateAnalysisReport | interaction_network_elements_pretty.py:610-636 | fails iff some strength is unknown (with the build's KeyError) or there is neither a nutrient nor an interaction (ZeroDivisionError, since interactions create their endpoints); otherwise it counts the built nodes and one edge per distinct ordered interaction pair |
| NetworkAnalysis.AnalyseBuilt | interaction_network_elements_pretty.py:617-623 | on a built graph the report fails exactly on empty data, and counts the built nodes and the distinct interaction pairs |
| NetworkAnalysis.ReportMetrics | interaction_network_elements_pretty.py:620-623 | counts match the graph; average degree is `2·edges/nodes`; density is `m/(n(n−1))`, or 0 without edges or with under two nodes; group sizes by name |
| NetworkAnalysis.ReportAverage | interaction_network_elements_pretty.py:623 | the average degree is the degree sum over the node count, which is twice the edge count over the node count |
| NetworkAnalysis.DensityTimesPairs | interaction_network_elements_pretty.py:622 | `density·n·(n−1) = edges` once there are two nodes |
| NetworkAnalysis.CountIsKeysWith | interaction_network_elements_pretty.py:624-629 | counting records with a relation counts distinct edges with it |
| NetworkAnalysis.RecordKeysAreEdges | interaction_network_elements_pretty.py:624-629 | the generator sum equals the number of edges with that relation |
| NetworkAnalysis.ReportRelationCounts | interaction_network_elements_pretty.py:624-629 | inhibiting plus boosting is at most the edge count, with equality iff every relation is inhibits or boosts |
| NetworkAnalysis.RelationSetsSplitEdges | interaction_network_elements_pretty.py:624-629 | the inhibiting and boosting edge sets are disjoint, and together all edges iff no other relation occurs |
| NetworkAnalysis.MostConnectedAreNodes | interaction_network_elements_pretty.py:630-632 | the top list has `min(5, nodes)` entries, each a node with its degree |
| NetworkAnalysis.MostConnectedOrdered | interaction_network_elements_pretty.py:630-632 | degrees are non-increasing, and ties are in node order |
| NetworkAnalysis.MostConnectedOmitsNoBetter | interaction_network_elements_pretty.py:630-632 | no omitted node has a higher degree than a listed one, and an omitted node tied with a listed one comes later in node order |
| ElementsNetwork.NodesDistinct | interaction_network_elements.py:11-32 | the twenty nutrients are distinct |
| ElementsNetwork.ElementsDeclaredOnce | interaction_network_elements.py:11-62 | every endpoint is listed and no pair is declared twice |
| ElementsNetwork.BuildGraph | interaction_network_elements.py:65-70 | the graph has the twenty nutrients in order and 24 edges, each with its tuple's relation; no node is auto-created |
| ElementsNetwork.ElementsDrawing | interaction_network_elements.py:84-97 | marks drawing the built graph cover all 24 tuples |
| ElementsNetwork.DrawGraph | interaction_network_elements.py:84-98 | 24 marks; each tuple's edge is dashed with `−` iff it inhibits |
| ColouredNetwork.AllNodesInOrder | interaction_network_coloured..py:14-35 | `all_nodes` is the twenty nutrients written out in group order |
| ColouredNetwork.GroupListFacts | interaction_network_coloured..py:14-35 | group names distinct; twenty distinct nutrients |
| ColouredNetwork.Tab10Colour | interaction_network_coloured..py:66-67 | colormap index `i` is colour `i` below ten and the last colour from ten on |
| ColouredNetwork.GroupColoursByPosition | interaction_network_coloured..py:66-67 | group `i` gets colormap colour `i` |
| ColouredNetwork.ColourNodes | interaction_network_coloured..py:68-71 | exactly the twenty nutrients get a colour, and each nutrient of group `i` gets colour `i` |
| ColouredNetwork.ColouredDeclaredOnce | interaction_network_coloured..py:35-63 | every endpoint is a group member and no pair repeats |
| ColouredNetwork.BuildGraph | interaction_network_coloured..py:73-77 | the graph has `all_nodes` in order and 24 edges, each with its tuple's relation |
| ColouredNetwork.NodeColourListComplete | interaction_network_coloured..py:84 | every node has a colour, so the list has one entry per node (twenty), each its group's colour |
| ColouredNetwork.ColouredDrawing | interaction_network_coloured..py:92-106 | marks drawing the built graph cover all 24 tuples |
| ColouredNetwork.Run | interaction_network_coloured..py:66-106 | the script: graph over `all_nodes`, a complete colour list by group, and 24 marks dashed with `−` exactly for inhibits |
| PrettyData.MembersInOrder | interaction_network_elements_pretty.py:82-109 | the group members, written out in group order |
| PrettyData.GroupListFacts | interaction_network_elements_pretty.py:82-109 | group names distinct; twenty distinct nutrients |
| PrettyData.ColourScheme | interaction_network_elements_pretty.py:156-182 | on the literal groups, group `i` gets palette colour `i`, and each nutrient gets its group's colour |
| PrettyData.InteractionsWellFormed | interaction_network_elements_pretty.py:112-145 | every strength is known; every relation is inhibits or boosts |
| PrettyData.InteractionPairsDistinct | interaction_network_elements_pretty.py:112-145 | no ordered pair repeats; every endpoint is a group member |
| PrettyData.PrettyGraph | interaction_network_elements_pretty.py:184-211 | for any order of `list(set(...))`: the build succeeds with exactly those 20 nodes, 24 edges, and each interaction's relation and tier |
| PrettyData.PrettyRelationsKnown | interaction_network_elements_pretty.py:204-208 | every edge of the literal graph inhibits or boosts |
| PrettyData.SummaryOfTwentyFour | interaction_network_elements_pretty.py:619-629 | 20 nodes and 24 edges in two relations: average degree 2.4, density 24/380, relation counts sum to 24 |
| PrettyData.PrettyReport | interaction_network_elements_pretty.py:610-634 | the literal report: 20 nodes, 24 edges, average degree 2.4, density 24/380, inhibiting plus boosting equals 24 |

## Left out

- `diagnosis.py` is not part of this model. It holds package installation, import probing, an interactive prompt and console output.
- Layout is left out: `spring_layout`, the other layouts and the random perturbation of positions. They are floating-point library code driven by a random generator.
- Glyph geometry in `add_edge_symbol` and the edge midpoints are left out. They are floating-point presentation; a mark records only which glyph is drawn on which edge.
- Drawing, legends, titles, `savefig`, output directories and logging are left out. They are rendering and I/O; the edge loops are modelled by the marks they produce.
- The orchestration in `generate_visualization` and `main` is left out. It only sequences the modelled operations and adds I/O.
- Reals replace floats throughout: the tables (2.5, 1.8, 1.2 and 0.9, 0.7, 0.5), density and average degree. IEEE rounding is not modelled.
- The `tab10` colour values are opaque tokens `Tab10(i)`. An index past the tenth colour gives the last colour, as the colormap does.
- `all_nodes` in the pretty script is `list(set(...))`, whose order is unspecified. The model takes any repeat-free list of the group members as a parameter.
- The pretty script stores the strength as a string. The model stores the resolved tier, and `ParseStrengthName` shows the name round-trips.
- A tuple with neither 3 nor 4 fields makes the pretty building loop raise a ValueError on unpacking. The `Interaction` datatype has a 3-field form and a 4-field form only, so that case cannot be written.
- networkx's `add_edge` merges the new attributes into an existing edge's dictionary; `WithEdge` replaces the record instead. The two coincide here because every call passes the whole record: `relation` alone in two scripts, and `relation`, `strength`, `weight` and `alpha` in the pretty one.
- `data.get("strength", "medium")` in the drawing loops always finds the key, because every edge built by the loop has one. The model reads the stored tier.
- PrettyData.PrettyReport: states only that inhibiting plus boosting is 24, not the split into 17 and 7. Counting a set of literal pairs by relation is beyond what the model proves cheaply.
- PrettyData.PrettyReport: does not state the literal group sizes or the five best-connected nutrients. The sizes follow from `GroupSizesAreListLengths`; the top five are described by the `MostConnected` lemmas for any graph.
- ElementsNetwork.DrawGraph: states which mark each tuple gets, not the position of that mark. Mark order is networkx edge order, which `DrawRelationEdges` states.
- ColouredNetwork.Run: the same as for `DrawGraph`. The legend at lines 111-117 is not modelled.

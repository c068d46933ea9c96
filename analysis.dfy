/** The read-only summary of the richer visualizer's graph: node and edge
    counts, density, average degree, the number of inhibiting and boosting
    edges, the five best-connected nutrients and the size of each group. */
module NetworkAnalysis {
  import opened Seqs
  import opened Outcomes
  import opened DiGraphs
  import opened Groups
  import opened RelationNetwork
  import opened PrettyNetwork

  type DegreeItem = (Node, nat)

  /** The dictionary `generate_analysis_report` returns. */
  datatype Report = Report(
    totalNodes: nat,
    totalEdges: nat,
    density: real,
    avgDegree: real,
    inhibiting: nat,
    boosting: nat,
    mostConnected: seq<DegreeItem>,
    groupSizes: map<string, nat>)

  /** The number of ordered pairs of distinct nodes among `n` nodes. */
  function PossiblePairs(n: nat): (r: nat)
    ensures n >= 2 <==> r > 0
  {
    if n <= 1 then 0 else assert n * (n - 1) >= n - 1; n * (n - 1)
  }

  /** `nx.density` of a directed graph with `n` nodes and `m` edges. */
  function Density(n: nat, m: nat): real {
    if m == 0 || n <= 1 then 0.0 else (m as real) / (PossiblePairs(n) as real)
  }

  /** `sum(1 for _, _, d in G.edges(data=True) if d["relation"] == rel)`. */
  function CountRelation(es: seq<EdgeRecord>, rel: Relation): nat
    decreases |es|
  {
    if es == [] then 0
    else CountRelation(es[..|es| - 1], rel) + (if es[|es| - 1].1.relation == rel then 1 else 0)
  }

  /** The edges of `g` whose relation is `rel`. */
  ghost function WithRelation(g: Graph<EdgeData>, rel: Relation): set<Pair> {
    set p | p in g.data && g.data[p].relation == rel
  }

  // ---------------------------------------------------------------------
  // The stable sort by descending degree.

  /** `a` occurs before `b` in `s`. */
  ghost predicate Precedes(s: seq<DegreeItem>, a: DegreeItem, b: DegreeItem) {
    exists i, j :: 0 <= i < j < |s| && s[i] == a && s[j] == b
  }

  /** `r` lists degrees from high to low, and equal degrees in their order
      in `items`: what `sorted(.., key=degree, reverse=True)` promises. */
  ghost predicate StablyDescending(items: seq<DegreeItem>, r: seq<DegreeItem>) {
    forall i, j :: 0 <= i < j < |r| ==> r[i].1 > r[j].1 || (r[i].1 == r[j].1 && Precedes(items, r[i], r[j]))
  }

  /** Where `x` goes in a list sorted by descending degree so that it comes
      before every item of the same degree. */
  function InsertPoint(x: DegreeItem, s: seq<DegreeItem>): (k: nat)
    ensures k <= |s|
    ensures forall i :: 0 <= i < k ==> s[i].1 > x.1
    ensures k < |s| ==> s[k].1 <= x.1
    decreases |s|
  {
    if s == [] || x.1 >= s[0].1 then 0 else 1 + InsertPoint(x, s[1..])
  }

  /** A precedence among the later items is one among all of them. */
  lemma PrecedesInTail(items: seq<DegreeItem>, a: DegreeItem, b: DegreeItem)
    requires |items| > 0 && Precedes(items[1..], a, b)
    ensures Precedes(items, a, b)
  {
    var i, j :| 0 <= i < j < |items[1..]| && items[1..][i] == a && items[1..][j] == b;
    assert items[i + 1] == a && items[j + 1] == b;
  }

  /** The first item precedes every later one. */
  lemma HeadPrecedes(items: seq<DegreeItem>, b: DegreeItem)
    requires |items| > 0 && b in items[1..]
    ensures Precedes(items, items[0], b)
  {
    var j :| 0 <= j < |items[1..]| && items[1..][j] == b;
    assert items[j + 1] == b;
  }

  /** Inserting the first item into the sorted rest keeps the order stable. */
  lemma {:induction false} InsertKeepsStable(items: seq<DegreeItem>, rest: seq<DegreeItem>, k: nat)
    requires |items| > 0 && multiset(rest) == multiset(items[1..])
    requires StablyDescending(items[1..], rest)
    requires k <= |rest| && (forall i :: 0 <= i < k ==> rest[i].1 > items[0].1) && (k < |rest| ==> rest[k].1 <= items[0].1)
    ensures StablyDescending(items, rest[..k] + [items[0]] + rest[k..])
  {
    var x := items[0];
    var r := rest[..k] + [x] + rest[k..];
    forall i, j | 0 <= i < j < |r| ensures r[i].1 > r[j].1 || (r[i].1 == r[j].1 && Precedes(items, r[i], r[j])) {
      if j < k {
        assert r[i] == rest[i] && r[j] == rest[j];
        if r[i].1 <= r[j].1 { PrecedesInTail(items, r[i], r[j]); }
      } else if j == k {
        assert r[i] == rest[i] && r[j] == x;
      } else if i > k {
        assert r[i] == rest[i - 1] && r[j] == rest[j - 1];
        if r[i].1 <= r[j].1 { PrecedesInTail(items, r[i], r[j]); }
      } else if i == k {
        assert r[i] == x && r[j] == rest[j - 1];
        if k < j - 1 {
          assert rest[k].1 >= rest[j - 1].1;
        }
        assert rest[j - 1] in multiset(items[1..]);
        HeadPrecedes(items, r[j]);
      } else {
        assert r[i] == rest[i] && r[j] == rest[j - 1];
        assert rest[i].1 > x.1;
        if k < j - 1 {
          assert rest[k].1 >= rest[j - 1].1;
        }
      }
    }
  }

  /** `sorted(items, key=degree, reverse=True)`, as an insertion of each
      item before the first later-sorted item of lower or equal degree. */
  function SortByDegree(items: seq<DegreeItem>): (r: seq<DegreeItem>)
    ensures multiset(r) == multiset(items) && |r| == |items|
    decreases |items|
  {
    if items == [] then []
    else
      var rest := SortByDegree(items[1..]);
      var k := InsertPoint(items[0], rest);
      var r := rest[..k] + [items[0]] + rest[k..];
      assert multiset(r) == multiset(items) by {
        assert items == [items[0]] + items[1..];
        assert rest == rest[..k] + rest[k..];
      }
      r
  }

  /** The sort lists degrees from high to low, equal degrees in their
      original order. */
  lemma {:induction false} SortByDegreeIsStable(items: seq<DegreeItem>)
    ensures StablyDescending(items, SortByDegree(items))
    decreases |items|
  {
    if items != [] {
      var rest := SortByDegree(items[1..]);
      SortByDegreeIsStable(items[1..]);
      InsertKeepsStable(items, rest, InsertPoint(items[0], rest));
    }
  }

  // ---------------------------------------------------------------------
  // The report.

  /** `sorted(dict(G.degree()).items(), key=degree, reverse=True)[:5]`. */
  function MostConnected(g: Graph<EdgeData>): seq<DegreeItem> {
    var sorted := SortByDegree(DegreeView(g));
    sorted[..if |sorted| < 5 then |sorted| else 5]
  }

  /** `sum(dict(G.degree()).values()) / G.number_of_nodes()`. */
  function AverageDegree<A>(g: Graph<A>): real
    requires |g.nodes| > 0
  {
    (SumDegrees(DegreeView(g)) as real) / (|g.nodes| as real)
  }

  /** The report over a built graph; the average degree divides by the
      number of nodes and so fails on a graph without nodes. */
  function Analyse(g: Graph<EdgeData>, groups: seq<Group>): (r: Result<Report>)
    requires Wf(g)
    ensures r.Err? <==> |g.nodes| == 0
    ensures r.Err? ==> r.error == ZeroDivisionError
  {
    if |g.nodes| == 0 then Err(ZeroDivisionError)
    else
      var es := EdgesWithData(g);
      Ok(Report(
        |g.nodes|,
        |g.pairs|,
        Density(|g.nodes|, |g.pairs|),
        AverageDegree(g),
        CountRelation(es, Inhibits),
        CountRelation(es, Boosts),
        MostConnected(g),
        GroupSizes(groups)))
  }

  /** `generate_analysis_report`: build the graph, then summarise it. An
      unknown strength fails the build first; otherwise the summary divides
      by zero only when there is no nutrient and no interaction, since every
      interaction creates its endpoints. The edge count is the number of
      distinct ordered interaction pairs. */
  function GenerateAnalysisReport(allNodes: seq<Node>, its: seq<Interaction>, groups: seq<Group>): (r: Result<Report>)
    ensures r.Err? <==> HasUnknownStrength(its) || (allNodes == [] && its == [])
    ensures !HasUnknownStrength(its) && allNodes == [] && its == [] ==> r.error == ZeroDivisionError
    ensures HasUnknownStrength(its) ==> r.error == NetworkGraph(allNodes, its).error
    ensures r.Ok? ==> r.value.totalNodes == |NetworkGraph(allNodes, its).value.nodes|
    ensures r.Ok? ==> r.value.totalEdges == |Elements(InteractionPairs(its))|
  {
    NetworkGraphFailsOnUnknownStrength(allNodes, its);
    match NetworkGraph(allNodes, its)
    case Err(e) => Err(e)
    case Ok(g) =>
      AnalyseBuilt(allNodes, its, groups);
      Analyse(g, groups)
  }

  /** The report on a built graph fails exactly on empty data, and counts
      the nodes built and the distinct interaction pairs. */
  lemma AnalyseBuilt(allNodes: seq<Node>, its: seq<Interaction>, groups: seq<Group>)
    requires NetworkGraph(allNodes, its).Ok?
    ensures var g := NetworkGraph(allNodes, its).value;
            && Wf(g)
            && (Analyse(g, groups).Err? <==> allNodes == [] && its == [])
            && (Analyse(g, groups).Err? ==> Analyse(g, groups).error == ZeroDivisionError)
            && (Analyse(g, groups).Ok? ==> Analyse(g, groups).value.totalNodes == |g.nodes|)
            && (Analyse(g, groups).Ok? ==> Analyse(g, groups).value.totalEdges == |Elements(InteractionPairs(its))|)
  {
    var g := NetworkGraph(allNodes, its).value;
    assert Wf(g) by { assert Wf(Empty<EdgeData>()); }
    NetworkGraphEdges(allNodes, its);
    BuiltGraphEmptyIff(allNodes, its);
  }

  /** A built graph has no node exactly when there is no nutrient and no
      interaction: every interaction creates its endpoints. */
  lemma BuiltGraphEmptyIff(allNodes: seq<Node>, its: seq<Interaction>)
    requires NetworkGraph(allNodes, its).Ok?
    ensures |NetworkGraph(allNodes, its).value.nodes| == 0 <==> allNodes == [] && its == []
  {
    var g := NetworkGraph(allNodes, its).value;
    NetworkGraphNodes([], allNodes, its);
    if allNodes != [] {
      assert allNodes[0] in g.nodes;
    } else if its != [] {
      assert its[0].source in g.nodes;
    } else {
      assert ResolveAll(its) == Ok([]);
    }
  }

  /** The report's average degree is the degree sum over the node count,
      which is twice the edges over the nodes: the degrees add up to twice
      the edges. */
  lemma ReportAverage(g: Graph<EdgeData>, groups: seq<Group>)
    requires Wf(g) && Analyse(g, groups).Ok?
    ensures Analyse(g, groups).value.avgDegree == (SumDegrees(DegreeView(g)) as real) / (|g.nodes| as real)
    ensures Analyse(g, groups).value.avgDegree == ((2 * |g.pairs|) as real) / (|g.nodes| as real)
  {
    DegreeSumIsTwiceEdges(g);
  }

  /** The report's counts, density and average degree agree with the graph:
      the average degree is `2m / n`, and the density is `m / (n(n-1))`, or
      0 without edges or with fewer than two nodes. */
  lemma ReportMetrics(g: Graph<EdgeData>, groups: seq<Group>)
    requires Wf(g) && Analyse(g, groups).Ok?
    ensures var r := Analyse(g, groups).value;
            && r.totalNodes == |g.nodes| && r.totalEdges == |g.pairs|
            && r.avgDegree == ((2 * r.totalEdges) as real) / (r.totalNodes as real)
            && (r.totalNodes >= 2 && r.totalEdges > 0 ==>
                  r.density == (r.totalEdges as real) / (PossiblePairs(r.totalNodes) as real))
            && (r.totalNodes <= 1 || r.totalEdges == 0 ==> r.density == 0.0)
            && r.groupSizes == GroupSizes(groups)
  {
    var r := Analyse(g, groups).value;
    assert r.totalNodes == |g.nodes| && r.totalEdges == |g.pairs|;
    assert r.density == Density(|g.nodes|, |g.pairs|);
    ReportAverage(g, groups);
  }

  /** Dividing by a non-zero number and multiplying back gives the original. */
  lemma QuotientTimesDivisor(q: real, x: nat, y: nat)
    requires y != 0 && q == (x as real) / (y as real)
    ensures q * (y as real) == x as real
  {
  }

  /** Density times the number of ordered pairs of distinct nodes is the
      number of edges once there are two nodes. */
  lemma DensityTimesPairs(d: real, n: nat, m: nat)
    requires d == Density(n, m)
    ensures n >= 2 ==> d * (PossiblePairs(n) as real) == m as real
  {
    if n >= 2 {
      if m > 0 {
        QuotientTimesDivisor(d, m, PossiblePairs(n));
      }
    }
  }

  // ---------------------------------------------------------------------
  // The relation counts.

  /** The edges among the records `es` whose relation is `rel`. */
  ghost function KeysWith(es: seq<EdgeRecord>, rel: Relation): set<Pair>
    decreases |es|
  {
    if es == [] then {}
    else
      var last := es[|es| - 1];
      KeysWith(es[..|es| - 1], rel) + (if last.1.relation == rel then {last.0} else {})
  }

  /** Over records that name each edge once, the count of a relation is the
      number of edges carrying it. */
  lemma {:induction false} CountIsKeysWith(es: seq<EdgeRecord>, rel: Relation)
    requires forall i, j :: 0 <= i < j < |es| ==> es[i].0 != es[j].0
    ensures forall p :: p in KeysWith(es, rel) <==> exists i :: 0 <= i < |es| && es[i].0 == p && es[i].1.relation == rel
    ensures CountRelation(es, rel) == |KeysWith(es, rel)|
    decreases |es|
  {
    if es != [] {
      var before := es[..|es| - 1];
      var last := es[|es| - 1];
      CountIsKeysWith(before, rel);
      assert forall i :: 0 <= i < |before| ==> before[i] == es[i];
      forall p ensures p in KeysWith(es, rel) <==> exists i :: 0 <= i < |es| && es[i].0 == p && es[i].1.relation == rel {
        if exists i :: 0 <= i < |es| && es[i].0 == p && es[i].1.relation == rel {
          var i :| 0 <= i < |es| && es[i].0 == p && es[i].1.relation == rel;
          if i < |before| { assert before[i].0 == p && before[i].1.relation == rel; }
        }
      }
      assert last.0 !in KeysWith(before, rel);
    }
  }

  /** The record list of a graph names each edge once. */
  lemma RecordKeysDistinct(g: Graph<EdgeData>)
    requires Wf(g)
    ensures forall i, j :: 0 <= i < j < |EdgesWithData(g)| ==> EdgesWithData(g)[i].0 != EdgesWithData(g)[j].0
  {
    var es := EdgesWithData(g);
    EdgesDistinct(g);
    forall i, j | 0 <= i < j < |es| ensures es[i].0 != es[j].0 {
      assert es[i].0 == Edges(g)[i] && es[j].0 == Edges(g)[j];
    }
  }

  /** Every edge of the graph is the key of some record. */
  lemma EveryEdgeHasRecord(g: Graph<EdgeData>, p: Pair)
    requires Wf(g) && p in g.data
    ensures exists i :: 0 <= i < |EdgesWithData(g)| && EdgesWithData(g)[i].0 == p
  {
    EdgesArePairs(g);
    assert p in multiset(Edges(g));
    var i :| 0 <= i < |Edges(g)| && Edges(g)[i] == p;
    assert EdgesWithData(g)[i].0 == p;
  }

  /** The count of a relation over the record list of a graph is the number
      of its edges with that relation. */
  lemma RecordKeysAreEdges(g: Graph<EdgeData>, rel: Relation)
    requires Wf(g)
    ensures CountRelation(EdgesWithData(g), rel) == |WithRelation(g, rel)|
  {
    var es := EdgesWithData(g);
    RecordKeysDistinct(g);
    CountIsKeysWith(es, rel);
    forall p | p in WithRelation(g, rel) ensures p in KeysWith(es, rel) {
      EveryEdgeHasRecord(g, p);
    }
    forall p | p in KeysWith(es, rel) ensures p in WithRelation(g, rel) {
      var i :| 0 <= i < |es| && es[i].0 == p && es[i].1.relation == rel;
    }
    assert KeysWith(es, rel) == WithRelation(g, rel);
  }

  /** The report counts the inhibiting and the boosting edges; together they
      are at most all edges, and all edges exactly when no edge carries any
      other relation. */
  lemma ReportRelationCounts(g: Graph<EdgeData>, groups: seq<Group>)
    requires Wf(g) && Analyse(g, groups).Ok?
    ensures var r := Analyse(g, groups).value;
            && r.inhibiting == |WithRelation(g, Inhibits)|
            && r.boosting == |WithRelation(g, Boosts)|
            && r.inhibiting + r.boosting <= r.totalEdges
            && (r.inhibiting + r.boosting == r.totalEdges <==>
                  forall p :: p in g.data ==> g.data[p].relation == Inhibits || g.data[p].relation == Boosts)
  {
    var r := Analyse(g, groups).value;
    assert r.inhibiting == CountRelation(EdgesWithData(g), Inhibits);
    assert r.boosting == CountRelation(EdgesWithData(g), Boosts);
    assert r.totalEdges == |g.pairs|;
    RecordKeysAreEdges(g, Inhibits);
    RecordKeysAreEdges(g, Boosts);
    RelationSetsSplitEdges(g);
  }

  /** The inhibiting and the boosting edges are disjoint, together at most
      all edges, and all edges exactly when no other relation occurs. */
  lemma RelationSetsSplitEdges(g: Graph<EdgeData>)
    requires Wf(g)
    ensures |WithRelation(g, Inhibits)| + |WithRelation(g, Boosts)| <= |g.pairs|
    ensures |WithRelation(g, Inhibits)| + |WithRelation(g, Boosts)| == |g.pairs| <==>
              forall p :: p in g.data ==> g.data[p].relation == Inhibits || g.data[p].relation == Boosts
  {
    var a, b := WithRelation(g, Inhibits), WithRelation(g, Boosts);
    var keys := g.data.Keys;
    assert |keys| == |g.pairs| by {
      assert keys == Elements(g.pairs);
      DistinctCardinality(g.pairs);
    }
    assert Inhibits != Boosts;
    DisjointWithin(a, b, keys);
    assert a + b == keys <==> forall p :: p in g.data ==> g.data[p].relation == Inhibits || g.data[p].relation == Boosts;
  }

  /** Two disjoint subsets of a finite set are together at most its size,
      and exactly its size when they cover it. */
  lemma DisjointWithin<T>(a: set<T>, b: set<T>, keys: set<T>)
    requires a * b == {} && a + b <= keys
    ensures |a| + |b| <= |keys|
    ensures |a| + |b| == |keys| <==> a + b == keys
  {
    var rest := keys - (a + b);
    assert keys == (a + b) + rest && (a + b) * rest == {};
    assert |a + b| == |a| + |b|;
    assert |keys| == |a + b| + |rest|;
  }

  // ---------------------------------------------------------------------
  // The most connected nodes.

  /** `n` occurs before `m` in `ns`. */
  ghost predicate NodeBefore(ns: seq<Node>, n: Node, m: Node) {
    exists i, j :: 0 <= i < j < |ns| && ns[i] == n && ns[j] == m
  }

  /** The five (or, with fewer nodes, all) best-connected nodes are real
      nodes with their degrees. */
  lemma MostConnectedAreNodes(g: Graph<EdgeData>)
    ensures var top := MostConnected(g);
            && |top| == (if |g.nodes| < 5 then |g.nodes| else 5)
            && (forall i :: 0 <= i < |top| ==> top[i].0 in g.nodes && top[i].1 == Degree(g, top[i].0))
  {
    var view := DegreeView(g);
    var top := MostConnected(g);
    forall i | 0 <= i < |top| ensures top[i].0 in g.nodes && top[i].1 == Degree(g, top[i].0) {
      assert top[i] in multiset(view);
      var k :| 0 <= k < |view| && view[k] == top[i];
    }
  }

  /** They are listed from high to low degree, ties in node order. */
  lemma MostConnectedOrdered(g: Graph<EdgeData>)
    ensures var top := MostConnected(g);
            && (forall i, j :: 0 <= i < j < |top| ==> top[i].1 >= top[j].1)
            && (forall i, j :: 0 <= i < j < |top| && top[i].1 == top[j].1 ==> NodeBefore(g.nodes, top[i].0, top[j].0))
  {
    var view := DegreeView(g);
    var sorted := SortByDegree(view);
    SortByDegreeIsStable(view);
    var top := MostConnected(g);
    forall i, j | 0 <= i < j < |top| ensures top[i].1 >= top[j].1 {
      assert sorted[i] == top[i] && sorted[j] == top[j];
    }
    forall i, j | 0 <= i < j < |top| && top[i].1 == top[j].1 ensures NodeBefore(g.nodes, top[i].0, top[j].0) {
      assert sorted[i] == top[i] && sorted[j] == top[j];
      var a, b :| 0 <= a < b < |view| && view[a] == top[i] && view[b] == top[j];
      assert g.nodes[a] == top[i].0 && g.nodes[b] == top[j].0;
    }
  }

  /** A node left out of the top list sits after it in the sorted list. */
  lemma OmittedSortsAfterTop(g: Graph<EdgeData>, n: Node) returns (t: nat)
    requires n in g.nodes && forall k :: 0 <= k < |MostConnected(g)| ==> MostConnected(g)[k].0 != n
    ensures |MostConnected(g)| <= t < |SortByDegree(DegreeView(g))|
    ensures SortByDegree(DegreeView(g))[t].0 == n && SortByDegree(DegreeView(g))[t].1 == Degree(g, n)
  {
    var view := DegreeView(g);
    var sorted := SortByDegree(view);
    var top := MostConnected(g);
    var a :| 0 <= a < |g.nodes| && g.nodes[a] == n;
    assert view[a] in multiset(sorted);
    t :| 0 <= t < |sorted| && sorted[t] == view[a];
    assert forall k :: 0 <= k < |top| ==> sorted[k] == top[k];
  }

  /** A node left out has no higher degree than any listed node. */
  lemma OmittedNoBetter(g: Graph<EdgeData>, n: Node)
    requires n in g.nodes && forall k :: 0 <= k < |MostConnected(g)| ==> MostConnected(g)[k].0 != n
    ensures forall i :: 0 <= i < |MostConnected(g)| ==> Degree(g, n) <= MostConnected(g)[i].1
  {
    var sorted := SortByDegree(DegreeView(g));
    SortByDegreeIsStable(DegreeView(g));
    var t := OmittedSortsAfterTop(g, n);
    var top := MostConnected(g);
    forall i | 0 <= i < |top| ensures Degree(g, n) <= top[i].1 {
      assert sorted[i] == top[i];
    }
  }

  /** A node left out with the same degree as a listed node comes after it
      in node order: the stable sort keeps ties in node order. */
  lemma OmittedTiesComeLater(g: Graph<EdgeData>, n: Node)
    requires n in g.nodes && forall k :: 0 <= k < |MostConnected(g)| ==> MostConnected(g)[k].0 != n
    ensures forall i :: 0 <= i < |MostConnected(g)| && Degree(g, n) == MostConnected(g)[i].1 ==>
              NodeBefore(g.nodes, MostConnected(g)[i].0, n)
  {
    var view := DegreeView(g);
    var sorted := SortByDegree(view);
    SortByDegreeIsStable(view);
    var t := OmittedSortsAfterTop(g, n);
    var top := MostConnected(g);
    forall i | 0 <= i < |top| && Degree(g, n) == top[i].1 ensures NodeBefore(g.nodes, top[i].0, n) {
      assert sorted[i] == top[i] && i < t;
      var x, y :| 0 <= x < y < |view| && view[x] == top[i] && view[y] == sorted[t];
      assert g.nodes[x] == top[i].0 && g.nodes[y] == n;
    }
  }

  /** No node left out has a higher degree than one listed, and one left out
      with the same degree as a listed one comes later in node order. */
  lemma MostConnectedOmitsNoBetter(g: Graph<EdgeData>, n: Node)
    requires n in g.nodes && forall k :: 0 <= k < |MostConnected(g)| ==> MostConnected(g)[k].0 != n
    ensures forall i :: 0 <= i < |MostConnected(g)| ==> Degree(g, n) <= MostConnected(g)[i].1
    ensures forall i :: 0 <= i < |MostConnected(g)| && Degree(g, n) == MostConnected(g)[i].1 ==>
              NodeBefore(g.nodes, MostConnected(g)[i].0, n)
  {
    OmittedNoBetter(g, n);
    OmittedTiesComeLater(g, n);
  }
}

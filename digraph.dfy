/** A directed simple graph in the manner of networkx's DiGraph, restricted to
    what the network scripts use: adding nodes, adding (or overwriting) an edge
    with its attribute record, iterating the edges and reading degrees.

    `Graph` is the value the graph holds at any moment; the class `DiGraph`
    is the mutable object the scripts build, and its methods are specified by
    the functions on `Graph` below. */
module DiGraphs {
  import opened Seqs

  type Node = string
  type Pair = (Node, Node)

  /** Nodes in insertion order; the ordered pairs that carry an edge, each
      once, in the order in which they were first added; and the attribute
      record of each edge. */
  datatype Graph<A> = Graph(nodes: seq<Node>, pairs: seq<Pair>, data: map<Pair, A>)

  /** What networkx maintains: no node twice, at most one edge per ordered
      pair, both endpoints of every edge are nodes, and exactly the edges
      have attributes. */
  ghost predicate Wf<A>(g: Graph<A>) {
    && Distinct(g.nodes)
    && Distinct(g.pairs)
    && (forall p :: p in g.pairs ==> p.0 in g.nodes && p.1 in g.nodes)
    && (forall p :: p in g.data <==> p in g.pairs)
  }

  function Empty<A>(): Graph<A> {
    Graph([], [], map[])
  }

  /** Adding a node that is already present changes nothing. */
  function WithNode<A>(g: Graph<A>, n: Node): Graph<A> {
    if n in g.nodes then g else g.(nodes := g.nodes + [n])
  }

  /** The graph after `add_nodes_from(ns)`. */
  function WithNodes<A>(g: Graph<A>, ns: seq<Node>): (r: Graph<A>)
    ensures Wf(g) ==> Wf(r)
    ensures forall n :: n in r.nodes <==> n in g.nodes || n in ns
    ensures g.nodes <= r.nodes && r.pairs == g.pairs && r.data == g.data
    decreases |ns|
  {
    if ns == [] then g
    else
      var r := WithNode(WithNodes(g, ns[..|ns| - 1]), ns[|ns| - 1]);
      assert ns == ns[..|ns| - 1] + [ns[|ns| - 1]];
      r
  }

  /** Names that are new and distinct are appended in the order given. */
  lemma {:induction false} WithNewNodesAppends<A>(g: Graph<A>, ns: seq<Node>)
    requires Distinct(ns) && forall n :: n in ns ==> n !in g.nodes
    ensures WithNodes(g, ns).nodes == g.nodes + ns
    decreases |ns|
  {
    if ns != [] {
      var t := ns[..|ns| - 1];
      var n := ns[|ns| - 1];
      DistinctInit(ns);
      WithNewNodesAppends(g, t);
      assert n !in g.nodes + t;
      AppendLast(g.nodes, ns);
    }
  }

  /** The graph after `add_edge(u, v, **d)`: missing endpoints are created
      (u first), a new pair is appended, and the pair's record becomes `d`.
      networkx merges `d` into the old attribute dictionary; every caller
      here passes a complete record, so merging and replacing agree. */
  function WithEdge<A>(g: Graph<A>, u: Node, v: Node, d: A): (r: Graph<A>)
    ensures Wf(g) ==> Wf(r)
    ensures forall n :: n in r.nodes <==> n in g.nodes || n == u || n == v
    ensures forall p :: p in r.pairs <==> p in g.pairs || p == (u, v)
    ensures g.nodes <= r.nodes && g.pairs <= r.pairs
    ensures r.data == g.data[(u, v) := d]
  {
    var h := WithNode(WithNode(g, u), v);
    if (u, v) in h.pairs then h.(data := h.data[(u, v) := d])
    else
      assert Distinct(h.pairs) ==> Distinct(h.pairs + [(u, v)]) by {
        if Distinct(h.pairs) { DistinctSnoc(h.pairs, (u, v)); }
      }
      h.(pairs := h.pairs + [(u, v)], data := h.data[(u, v) := d])
  }

  /** The source and target of the i-th tuple of an edge list. */
  function PairOf<A>(e: (Node, Node, A)): Pair {
    (e.0, e.1)
  }

  /** The ordered pairs of an edge list, in list order. */
  function PairsOf<A>(es: seq<(Node, Node, A)>): (r: seq<Pair>)
    ensures |r| == |es| && forall i :: 0 <= i < |es| ==> r[i] == PairOf(es[i])
  {
    seq(|es|, i requires 0 <= i < |es| => PairOf(es[i]))
  }

  /** The graph after calling `add_edge` for each tuple of `es` in order. */
  function WithEdges<A>(g: Graph<A>, es: seq<(Node, Node, A)>): (r: Graph<A>)
    ensures Wf(g) ==> Wf(r)
    ensures g.nodes <= r.nodes && g.pairs <= r.pairs
    decreases |es|
  {
    if es == [] then g
    else
      var e := es[|es| - 1];
      WithEdge(WithEdges(g, es[..|es| - 1]), e.0, e.1, e.2)
  }

  /** An endpoint of some tuple of `es`. */
  ghost predicate Mentions<A>(es: seq<(Node, Node, A)>, n: Node) {
    exists i :: 0 <= i < |es| && (es[i].0 == n || es[i].1 == n)
  }

  /** The pair of some tuple of `es`. */
  ghost predicate Declares<A>(es: seq<(Node, Node, A)>, p: Pair) {
    exists i :: 0 <= i < |es| && PairOf(es[i]) == p
  }

  /** One more tuple mentions its endpoints besides those mentioned before. */
  lemma MentionsSnoc<A>(es: seq<(Node, Node, A)>, n: Node)
    requires es != []
    ensures Mentions(es, n) <==> Mentions(es[..|es| - 1], n) || n == es[|es| - 1].0 || n == es[|es| - 1].1
  {
    var t := es[..|es| - 1];
    if Mentions(t, n) {
      var i :| 0 <= i < |t| && (t[i].0 == n || t[i].1 == n);
      assert es[i] == t[i];
    }
    if Mentions(es, n) {
      var i :| 0 <= i < |es| && (es[i].0 == n || es[i].1 == n);
      if i < |t| { assert es[i] == t[i]; }
    }
  }

  /** One more tuple names its pair besides those named before. */
  lemma DeclaresSnoc<A>(es: seq<(Node, Node, A)>, p: Pair)
    requires es != []
    ensures Declares(es, p) <==> Declares(es[..|es| - 1], p) || p == PairOf(es[|es| - 1])
  {
    var t := es[..|es| - 1];
    if Declares(t, p) {
      var i :| 0 <= i < |t| && PairOf(t[i]) == p;
      assert es[i] == t[i];
    }
    if Declares(es, p) {
      var i :| 0 <= i < |es| && PairOf(es[i]) == p;
      if i < |t| { assert es[i] == t[i]; }
    }
  }

  /** The nodes after adding edges are the earlier nodes and every endpoint
      named; the edges are the earlier edges and every pair named. */
  lemma {:induction false} WithEdgesMembers<A>(g: Graph<A>, es: seq<(Node, Node, A)>)
    ensures forall n :: n in WithEdges(g, es).nodes <==> n in g.nodes || Mentions(es, n)
    ensures forall p :: p in WithEdges(g, es).pairs <==> p in g.pairs || Declares(es, p)
    decreases |es|
  {
    if es != [] {
      WithEdgesMembers(g, es[..|es| - 1]);
      forall n ensures n in WithEdges(g, es).nodes <==> n in g.nodes || Mentions(es, n) {
        MentionsSnoc(es, n);
      }
      forall p ensures p in WithEdges(g, es).pairs <==> p in g.pairs || Declares(es, p) {
        DeclaresSnoc(es, p);
      }
    }
  }

  /** Last write wins: the record of a pair is that of the last tuple for it. */
  lemma {:induction false} LastWriteWins<A>(g: Graph<A>, es: seq<(Node, Node, A)>, i: nat)
    requires i < |es|
    requires forall j :: i < j < |es| ==> PairOf(es[j]) != PairOf(es[i])
    ensures PairOf(es[i]) in WithEdges(g, es).data
    ensures WithEdges(g, es).data[PairOf(es[i])] == es[i].2
  {
    var prefix := es[..|es| - 1];
    if i < |es| - 1 {
      LastWriteWins(g, prefix, i);
    }
  }

  /** A pair that no tuple names keeps the record it had. */
  lemma {:induction false} UntouchedPairKeepsRecord<A>(g: Graph<A>, es: seq<(Node, Node, A)>, p: Pair)
    requires p in g.data
    requires forall j :: 0 <= j < |es| ==> PairOf(es[j]) != p
    ensures p in WithEdges(g, es).data && WithEdges(g, es).data[p] == g.data[p]
  {
    if es != [] {
      UntouchedPairKeepsRecord(g, es[..|es| - 1], p);
    }
  }

  /** A pair is named by some tuple exactly when it is among the pairs of the list. */
  lemma DeclaresIsPairsOf<A>(es: seq<(Node, Node, A)>, p: Pair)
    ensures Declares(es, p) <==> p in PairsOf(es)
  {
    if Declares(es, p) {
      var i :| 0 <= i < |es| && PairOf(es[i]) == p;
      assert PairsOf(es)[i] == p;
    }
    if p in PairsOf(es) {
      var i :| 0 <= i < |es| && PairsOf(es)[i] == p;
      assert PairOf(es[i]) == p;
    }
  }

  /** The graph holds one edge per distinct ordered pair among its earlier
      edges and the tuples added. */
  lemma EdgeCountIsDistinctPairs<A>(g: Graph<A>, es: seq<(Node, Node, A)>)
    requires Wf(g)
    ensures |WithEdges(g, es).pairs| == |Elements(g.pairs) + Elements(PairsOf(es))|
  {
    var r := WithEdges(g, es);
    assert Elements(r.pairs) == Elements(g.pairs) + Elements(PairsOf(es)) by {
      WithEdgesMembers(g, es);
      forall p ensures p in Elements(r.pairs) <==> p in Elements(g.pairs) + Elements(PairsOf(es)) {
        DeclaresIsPairsOf(es, p);
      }
    }
    DistinctCardinality(r.pairs);
  }

  /** Starting without edges, the edges are exactly the distinct pairs of
      the tuples added. */
  lemma PairsFromNoEdges<A>(g: Graph<A>, es: seq<(Node, Node, A)>)
    requires Wf(g) && g.pairs == []
    ensures forall p :: p in WithEdges(g, es).pairs <==> p in PairsOf(es)
    ensures |WithEdges(g, es).pairs| == |Elements(PairsOf(es))|
  {
    WithEdgesMembers(g, es);
    EdgeCountIsDistinctPairs(g, es);
    assert Elements(g.pairs) == {};
    forall p ensures Declares(es, p) <==> p in PairsOf(es) {
      DeclaresIsPairsOf(es, p);
    }
  }

  /** `add_edge` creates a missing source before a missing target, after
      every existing node; this order fixes edge iteration and degree order. */
  lemma WithEdgeNodeOrder<A>(g: Graph<A>, u: Node, v: Node, d: A)
    ensures WithEdge(g, u, v, d).nodes
              == g.nodes + (if u in g.nodes then [] else [u]) + (if v in g.nodes || v == u then [] else [v])
  {
  }

  /** Adding an edge between existing nodes over a pair not yet present
      creates no node and appends the pair. */
  lemma WithFreshEdge<A>(h: Graph<A>, u: Node, v: Node, d: A)
    requires u in h.nodes && v in h.nodes && (u, v) !in h.pairs
    ensures WithEdge(h, u, v, d).nodes == h.nodes
    ensures WithEdge(h, u, v, d).pairs == h.pairs + [(u, v)]
  {
  }

  /** When every endpoint is already a node and no pair repeats, adding the
      edges creates no node and appends the pairs in list order. */
  lemma {:induction false} FreshPairsAppended<A>(g: Graph<A>, es: seq<(Node, Node, A)>)
    requires forall i :: 0 <= i < |es| ==> es[i].0 in g.nodes && es[i].1 in g.nodes
    requires Distinct(PairsOf(es)) && forall i :: 0 <= i < |es| ==> PairOf(es[i]) !in g.pairs
    ensures WithEdges(g, es).nodes == g.nodes
    ensures WithEdges(g, es).pairs == g.pairs + PairsOf(es)
  {
    if es != [] {
      var prefix := es[..|es| - 1];
      var e := es[|es| - 1];
      var before := PairsOf(prefix);
      assert before == PairsOf(es)[..|es| - 1];
      assert PairsOf(es) == before + [PairOf(e)];
      FreshPairsAppended(g, prefix);
      assert PairOf(e) !in before by {
        forall k | 0 <= k < |before| ensures before[k] != PairOf(e) {
          assert before[k] == PairsOf(es)[k] && PairOf(e) == PairsOf(es)[|es| - 1];
        }
      }
      assert PairOf(e) !in g.pairs + before;
      WithFreshEdge(WithEdges(g, prefix), e.0, e.1, e.2);
    }
  }

  /** Each position pair coded as one number, `100 * source + target`. */
  function PositionCodes(positions: seq<(nat, nat)>): (r: seq<nat>)
    ensures |r| == |positions| && forall i :: 0 <= i < |positions| ==> r[i] == 100 * positions[i].0 + positions[i].1
  {
    seq(|positions|, i requires 0 <= i < |positions| => 100 * positions[i].0 + positions[i].1)
  }

  /** Pairs given by positions in a repeat-free node list: when no
      position code repeats, no pair repeats, and every endpoint is listed. */
  lemma {:induction false} PositionsGiveDistinctPairs(nodes: seq<Node>, pairs: seq<Pair>, positions: seq<(nat, nat)>)
    requires Distinct(nodes) && |positions| == |pairs| && Distinct(PositionCodes(positions))
    requires forall i :: 0 <= i < |pairs| ==>
               && positions[i].0 < |nodes| && positions[i].1 < |nodes| && positions[i].1 < 100
               && pairs[i] == (nodes[positions[i].0], nodes[positions[i].1])
    ensures Distinct(pairs)
    ensures forall i :: 0 <= i < |pairs| ==> pairs[i].0 in nodes && pairs[i].1 in nodes
  {
    forall i, j | 0 <= i < j < |pairs| ensures pairs[i] != pairs[j] {
      assert PositionCodes(positions)[i] != PositionCodes(positions)[j];
    }
  }

  /** Which endpoint of an edge is looked at: out-edges by source, in-edges by target. */
  datatype Side = Source | Target

  function End(p: Pair, side: Side): Node {
    if side == Source then p.0 else p.1
  }

  /** The pairs of `ps` whose `side` endpoint is `n`, in order. */
  function Incident(ps: seq<Pair>, n: Node, side: Side): seq<Pair>
    decreases |ps|
  {
    if ps == [] then []
    else Incident(ps[..|ps| - 1], n, side) + (if End(ps[|ps| - 1], side) == n then [ps[|ps| - 1]] else [])
  }

  /** The incident pairs of each node of `ns` in turn. */
  function Grouped(ns: seq<Node>, ps: seq<Pair>, side: Side): seq<Pair>
    decreases |ns|
  {
    if ns == [] then [] else Incident(ps, ns[0], side) + Grouped(ns[1..], ps, side)
  }

  /** `G.edges()`: for each node in node order, its out-edges in the order
      in which they were added. */
  function Edges<A>(g: Graph<A>): seq<Pair> {
    Grouped(g.nodes, g.pairs, Source)
  }

  /** `G.edges(data=True)`: each edge with its record, in edge order. */
  function EdgesWithData<A>(g: Graph<A>): (r: seq<(Pair, A)>)
    requires Wf(g)
    ensures |r| == |Edges(g)|
    ensures forall i :: 0 <= i < |r| ==> r[i].0 == Edges(g)[i] && r[i].0 in g.data && r[i].1 == g.data[r[i].0]
  {
    var es := Edges(g);
    EdgesArePairs(g);
    assert forall i :: 0 <= i < |es| ==> es[i] in g.data by {
      forall i | 0 <= i < |es| ensures es[i] in g.data {
        assert es[i] in multiset(es);
      }
    }
    seq(|es|, i requires 0 <= i < |es| => (es[i], g.data[es[i]]))
  }

  /** Total degree of `n`: out-degree plus in-degree (a self-loop counts twice). */
  function Degree<A>(g: Graph<A>, n: Node): nat {
    |Incident(g.pairs, n, Source)| + |Incident(g.pairs, n, Target)|
  }

  /** `G.degree()` for the nodes `ns`, in order. */
  function DegreesOf<A>(g: Graph<A>, ns: seq<Node>): (r: seq<(Node, nat)>)
    ensures |r| == |ns| && forall i :: 0 <= i < |ns| ==> r[i] == (ns[i], Degree(g, ns[i]))
    decreases |ns|
  {
    if ns == [] then [] else [(ns[0], Degree(g, ns[0]))] + DegreesOf(g, ns[1..])
  }

  /** `dict(G.degree()).items()`: every node with its degree, in node order. */
  function DegreeView<A>(g: Graph<A>): seq<(Node, nat)> {
    DegreesOf(g, g.nodes)
  }

  /** The sum of the degree column of a degree view. */
  function SumDegrees(view: seq<(Node, nat)>): nat
    decreases |view|
  {
    if view == [] then 0 else view[0].1 + SumDegrees(view[1..])
  }

  // ---------------------------------------------------------------------
  // Edge iteration visits every edge exactly once.

  lemma {:induction false} IncidentSnoc(ps: seq<Pair>, p: Pair, n: Node, side: Side)
    ensures Incident(ps + [p], n, side) == Incident(ps, n, side) + (if End(p, side) == n then [p] else [])
  {
    assert (ps + [p])[..|ps|] == ps;
  }

  /** The head of a repeat-free list does not recur in its tail, which is
      repeat-free too. */
  lemma DistinctTail(ns: seq<Node>)
    requires Distinct(ns) && ns != []
    ensures ns[0] !in ns[1..] && Distinct(ns[1..])
  {
    forall k | 0 <= k < |ns[1..]| ensures ns[1..][k] != ns[0] {
      assert ns[1..][k] == ns[k + 1];
    }
  }

  /** A pair whose endpoint is in a repeat-free list is counted either at
      the head or in the tail, never both. */
  lemma SnocShare(ns: seq<Node>, p: Pair, side: Side)
    requires Distinct(ns) && ns != []
    ensures (if End(p, side) == ns[0] then multiset{p} else multiset{})
          + (if End(p, side) in ns[1..] then multiset{p} else multiset{})
         == (if End(p, side) in ns then multiset{p} else multiset{})
  {
    DistinctTail(ns);
    assert ns == [ns[0]] + ns[1..];
  }

  /** Joining two lists whose multisets grew by `x` and `y` grows the
      multiset of the joined list by both. */
  lemma JoinGrown(a: seq<Pair>, b: seq<Pair>, c: seq<Pair>, d: seq<Pair>, x: multiset<Pair>, y: multiset<Pair>, z: multiset<Pair>)
    requires multiset(c) == multiset(a) + x && multiset(d) == multiset(b) + y && x + y == z
    ensures multiset(c + d) == multiset(a + b) + z
  {
  }

  /** The incident pairs of the first node, then those of the others. */
  lemma GroupedCons(ns: seq<Node>, ps: seq<Pair>, side: Side)
    requires ns != []
    ensures Grouped(ns, ps, side) == Incident(ps, ns[0], side) + Grouped(ns[1..], ps, side)
  {
  }

  /** One more pair adds it to the incident pairs of its endpoint. */
  lemma IncidentGrows(ps: seq<Pair>, p: Pair, n: Node, side: Side)
    ensures multiset(Incident(ps + [p], n, side))
         == multiset(Incident(ps, n, side)) + (if End(p, side) == n then multiset{p} else multiset{})
  {
    IncidentSnoc(ps, p, n, side);
  }

  lemma {:induction false} GroupedSnoc(ns: seq<Node>, ps: seq<Pair>, p: Pair, side: Side)
    requires Distinct(ns)
    ensures multiset(Grouped(ns, ps + [p], side))
         == multiset(Grouped(ns, ps, side)) + (if End(p, side) in ns then multiset{p} else multiset{})
    decreases |ns|
  {
    if ns != [] {
      var n, rest := ns[0], ns[1..];
      var q := ps + [p];
      DistinctTail(ns);
      IncidentGrows(ps, p, n, side);
      GroupedSnoc(rest, ps, p, side);
      SnocShare(ns, p, side);
      JoinGrown(Incident(ps, n, side), Grouped(rest, ps, side), Incident(q, n, side), Grouped(rest, q, side),
                if End(p, side) == n then multiset{p} else multiset{},
                if End(p, side) in rest then multiset{p} else multiset{},
                if End(p, side) in ns then multiset{p} else multiset{});
      GroupedCons(ns, q, side);
      GroupedCons(ns, ps, side);
    }
  }

  lemma {:induction false} GroupedEmpty(ns: seq<Node>, side: Side)
    ensures Grouped(ns, [], side) == []
    decreases |ns|
  {
    if ns != [] {
      GroupedEmpty(ns[1..], side);
    }
  }

  /** Grouping the pairs by a list of distinct nodes that covers every
      endpoint on that side yields each pair exactly as often as it occurs. */
  lemma {:induction false} GroupedIsPermutation(ns: seq<Node>, ps: seq<Pair>, side: Side)
    requires Distinct(ns)
    requires forall p :: p in ps ==> End(p, side) in ns
    ensures multiset(Grouped(ns, ps, side)) == multiset(ps)
    decreases |ps|
  {
    if ps == [] {
      GroupedEmpty(ns, side);
    } else {
      var t := ps[..|ps| - 1];
      var p := ps[|ps| - 1];
      assert ps == t + [p];
      GroupedIsPermutation(ns, t, side);
      GroupedSnoc(ns, t, p, side);
    }
  }

  /** `G.edges()` lists every edge of the graph exactly once and nothing else. */
  lemma EdgesArePairs<A>(g: Graph<A>)
    requires Wf(g)
    ensures multiset(Edges(g)) == multiset(g.pairs)
    ensures |Edges(g)| == |g.pairs|
    ensures forall p :: p in g.pairs ==> multiset(Edges(g))[p] == 1
  {
    GroupedIsPermutation(g.nodes, g.pairs, Source);
    assert |multiset(Edges(g))| == |multiset(g.pairs)|;
    forall p | p in g.pairs ensures multiset(Edges(g))[p] == 1 {
      DistinctOccursOnce(g.pairs, p);
    }
  }

  /** `G.edges()` repeats no edge. */
  lemma EdgesDistinct<A>(g: Graph<A>)
    requires Wf(g)
    ensures Distinct(Edges(g))
  {
    EdgesArePairs(g);
    forall p | p in Edges(g) ensures multiset(Edges(g))[p] == 1 {
      assert p in multiset(g.pairs);
    }
    OccursOnceDistinct(Edges(g));
  }

  // ---------------------------------------------------------------------
  // The handshake identity.

  lemma {:induction false} SumOfIncidentIsGrouped<A>(g: Graph<A>, ns: seq<Node>)
    ensures SumDegrees(DegreesOf(g, ns)) == |Grouped(ns, g.pairs, Source)| + |Grouped(ns, g.pairs, Target)|
    decreases |ns|
  {
    if ns != [] {
      SumOfIncidentIsGrouped(g, ns[1..]);
      assert DegreesOf(g, ns)[1..] == DegreesOf(g, ns[1..]);
    }
  }

  /** The degrees of all nodes add up to twice the number of edges. */
  lemma DegreeSumIsTwiceEdges<A>(g: Graph<A>)
    requires Wf(g)
    ensures SumDegrees(DegreeView(g)) == 2 * |g.pairs|
  {
    SumOfIncidentIsGrouped(g, g.nodes);
    GroupedIsPermutation(g.nodes, g.pairs, Source);
    GroupedIsPermutation(g.nodes, g.pairs, Target);
    assert |multiset(Grouped(g.nodes, g.pairs, Source))| == |multiset(g.pairs)|;
    assert |multiset(Grouped(g.nodes, g.pairs, Target))| == |multiset(g.pairs)|;
  }

  // ---------------------------------------------------------------------
  // The mutable graph object.

  class DiGraph<A> {
    var nodes: seq<Node>
    var pairs: seq<Pair>
    var data: map<Pair, A>

    /** The graph this object currently holds. */
    function Snapshot(): Graph<A>
      reads this
    {
      Graph(nodes, pairs, data)
    }

    ghost predicate Valid()
      reads this
    {
      Wf(Snapshot())
    }

    /** `nx.DiGraph()`. */
    constructor ()
      ensures Valid() && Snapshot() == Empty()
    {
      nodes, pairs, data := [], [], map[];
    }

    /** `G.add_nodes_from(ns)`. */
    method AddNodesFrom(ns: seq<Node>)
      requires Valid()
      modifies this
      ensures Valid() && Snapshot() == WithNodes(old(Snapshot()), ns)
    {
      ghost var g0 := Snapshot();
      for i := 0 to |ns|
        invariant Valid() && Snapshot() == WithNodes(g0, ns[..i])
      {
        assert ns[..i + 1][..i] == ns[..i];
        assert WithNodes(g0, ns[..i + 1]) == WithNode(WithNodes(g0, ns[..i]), ns[i]);
        if ns[i] !in nodes {
          nodes := nodes + [ns[i]];
        }
      }
      assert ns[..|ns|] == ns;
    }

    /** `G.add_edge(u, v, **d)`. */
    method AddEdge(u: Node, v: Node, d: A)
      requires Valid()
      modifies this
      ensures Valid() && Snapshot() == WithEdge(old(Snapshot()), u, v, d)
    {
      if u !in nodes {
        nodes := nodes + [u];
      }
      if v !in nodes {
        nodes := nodes + [v];
      }
      if (u, v) !in pairs {
        pairs := pairs + [(u, v)];
      }
      data := data[(u, v) := d];
    }
  }
}

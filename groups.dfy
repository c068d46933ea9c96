/** Functional groups of nutrients and the colours derived from them: the
    flattened member list, group sizes, the colour of each group by its
    position, the colour of each node by its group, and the per-node colour
    list handed to the node drawing call. */
module Groups {
  import opened Seqs
  import opened Outcomes
  import opened DiGraphs

  /** A functional group: its name and its nutrients in listed order. */
  type Group = (string, seq<Node>)

  /** Group names are dictionary keys, so none repeats. */
  predicate DistinctNames(groups: seq<Group>) {
    forall i, j :: 0 <= i < j < |groups| ==> groups[i].0 != groups[j].0
  }

  /** Some group lists `n`. */
  ghost predicate Listed(groups: seq<Group>, n: Node) {
    exists i :: 0 <= i < |groups| && n in groups[i].1
  }

  /** Some group is called `name`. */
  ghost predicate Named(groups: seq<Group>, name: string) {
    exists i :: 0 <= i < |groups| && groups[i].0 == name
  }

  /** Group `i` lists `n` and no later group does. */
  ghost predicate LastListing(groups: seq<Group>, n: Node, i: int) {
    0 <= i < |groups| && n in groups[i].1 && forall j :: i < j < |groups| ==> n !in groups[j].1
  }

  /** The members of every group, group after group. */
  function Members(groups: seq<Group>): (r: seq<Node>)
    ensures forall n :: n in r <==> Listed(groups, n)
    decreases |groups|
  {
    if groups == [] then []
    else
      var before := groups[..|groups| - 1];
      var r := Members(before) + groups[|groups| - 1].1;
      assert forall n :: Listed(groups, n) <==> Listed(before, n) || n in groups[|groups| - 1].1 by {
        forall n ensures Listed(groups, n) <==> Listed(before, n) || n in groups[|groups| - 1].1 {
          if Listed(groups, n) {
            var i :| 0 <= i < |groups| && n in groups[i].1;
            if i < |before| { assert before[i] == groups[i]; }
          }
          if Listed(before, n) {
            var i :| 0 <= i < |before| && n in before[i].1;
            assert before[i] == groups[i];
          }
        }
      }
      r
  }

  /** The members of the first `k` groups are those of the first `k - 1`
      followed by those of group `k - 1`. */
  lemma MembersOfPrefix(groups: seq<Group>, k: nat)
    requires 0 < k <= |groups|
    ensures Members(groups[..k]) == Members(groups[..k - 1]) + groups[k - 1].1
  {
    assert groups[..k][..k - 1] == groups[..k - 1];
  }

  /** The members of five groups are their five lists joined in order. */
  lemma MembersOfFive(groups: seq<Group>)
    requires |groups| == 5
    ensures Members(groups) == groups[0].1 + groups[1].1 + groups[2].1 + groups[3].1 + groups[4].1
  {
    var a, b, c, d, e := groups[0].1, groups[1].1, groups[2].1, groups[3].1, groups[4].1;
    assert groups[..0] == [];
    MembersOfPrefix(groups, 1);
    assert Members(groups[..1]) == a;
    MembersOfPrefix(groups, 2);
    assert Members(groups[..2]) == a + b;
    MembersOfPrefix(groups, 3);
    assert Members(groups[..3]) == a + b + c;
    MembersOfPrefix(groups, 4);
    assert Members(groups[..4]) == a + b + c + d;
    MembersOfPrefix(groups, 5);
    assert groups[..5] == groups;
  }

  /** `list(set(members))`: every member once, in an order the language
      leaves unspecified. */
  ghost predicate IsNodeList(groups: seq<Group>, allNodes: seq<Node>) {
    Distinct(allNodes) && forall n :: n in allNodes <==> n in Members(groups)
  }

  /** The names of a non-empty group list are those of all but its last
      group and the last group's name; with distinct names the last one is
      not among the others. */
  lemma NamedInit(groups: seq<Group>)
    requires groups != []
    ensures forall i :: 0 <= i < |groups| - 1 ==> groups[..|groups| - 1][i] == groups[i]
    ensures forall name :: Named(groups, name) <==> Named(groups[..|groups| - 1], name) || name == groups[|groups| - 1].0
    ensures DistinctNames(groups) ==> DistinctNames(groups[..|groups| - 1]) && !Named(groups[..|groups| - 1], groups[|groups| - 1].0)
  {
    var before, last := groups[..|groups| - 1], groups[|groups| - 1];
    forall name ensures Named(groups, name) <==> Named(before, name) || name == last.0 {
      if Named(groups, name) {
        var i :| 0 <= i < |groups| && groups[i].0 == name;
        if i < |before| { assert before[i] == groups[i]; }
      }
      if Named(before, name) {
        var i :| 0 <= i < |before| && before[i].0 == name;
        assert before[i] == groups[i];
      }
    }
  }

  /** `{group: len(nodes) for group, nodes in groups.items()}`. */
  function GroupSizes(groups: seq<Group>): (m: map<string, nat>)
    ensures forall name :: name in m <==> Named(groups, name)
    decreases |groups|
  {
    if groups == [] then map[]
    else
      var before := groups[..|groups| - 1];
      var last := groups[|groups| - 1];
      var m := GroupSizes(before)[last.0 := |last.1|];
      NamedInit(groups);
      m
  }

  /** With distinct names, each group's name maps to the length of its list. */
  lemma {:induction false} GroupSizesAreListLengths(groups: seq<Group>)
    requires DistinctNames(groups)
    ensures forall i :: 0 <= i < |groups| ==> groups[i].0 in GroupSizes(groups) && GroupSizes(groups)[groups[i].0] == |groups[i].1|
    decreases |groups|
  {
    if groups != [] {
      var before, last := groups[..|groups| - 1], groups[|groups| - 1];
      NamedInit(groups);
      GroupSizesAreListLengths(before);
      var m := GroupSizes(groups);
      assert m == GroupSizes(before)[last.0 := |last.1|];
      forall i | 0 <= i < |groups| - 1 ensures groups[i].0 in m && m[groups[i].0] == |groups[i].1| {
        assert before[i] == groups[i] && groups[i].0 != last.0;
      }
    }
  }

  /** The colour of each group, chosen by its position among the groups:
      `{group: colour(i) for i, group in enumerate(groups)}`. */
  function IndexedColours<C>(groups: seq<Group>, colour: nat -> C): (m: map<string, C>)
    ensures forall name :: name in m <==> Named(groups, name)
    decreases |groups|
  {
    if groups == [] then map[]
    else
      var before := groups[..|groups| - 1];
      var last := groups[|groups| - 1];
      var m := IndexedColours(before, colour)[last.0 := colour(|groups| - 1)];
      NamedInit(groups);
      m
  }

  /** With distinct names, group `i` gets the colour of position `i`. */
  lemma {:induction false} IndexedColoursByPosition<C>(groups: seq<Group>, colour: nat -> C)
    requires DistinctNames(groups)
    ensures forall i :: 0 <= i < |groups| ==>
              groups[i].0 in IndexedColours(groups, colour) && IndexedColours(groups, colour)[groups[i].0] == colour(i)
    decreases |groups|
  {
    if groups != [] {
      var before, last := groups[..|groups| - 1], groups[|groups| - 1];
      NamedInit(groups);
      IndexedColoursByPosition(before, colour);
      var m := IndexedColours(groups, colour);
      assert m == IndexedColours(before, colour)[last.0 := colour(|groups| - 1)];
      forall i | 0 <= i < |groups| - 1 ensures groups[i].0 in m && m[groups[i].0] == colour(i) {
        assert before[i] == groups[i] && groups[i].0 != last.0;
      }
    }
  }

  /** Colouring one more group adds the colour of its position. */
  lemma IndexedColoursStep<C>(groups: seq<Group>, i: nat, colour: nat -> C)
    requires i < |groups|
    ensures IndexedColours(groups[..i + 1], colour) == IndexedColours(groups[..i], colour)[groups[i].0 := colour(i)]
  {
    assert groups[..i + 1][..i] == groups[..i];
  }

  /** Every group has an entry in the group colour map. */
  predicate Coloured<C>(groups: seq<Group>, groupColours: map<string, C>) {
    forall i :: 0 <= i < |groups| ==> groups[i].0 in groupColours
  }

  /** `node_colors` after the nested loops over the groups and their members. */
  function NodeColours<C>(groups: seq<Group>, groupColours: map<string, C>): map<Node, C>
    requires Coloured(groups, groupColours)
    decreases |groups|
  {
    if groups == [] then map[]
    else
      var last := groups[|groups| - 1];
      NodeColours(groups[..|groups| - 1], groupColours) + map n | n in last.1 :: groupColours[last.0]
  }

  /** Exactly the listed nodes get a colour, and it is the colour of the
      last group that lists them: a later group overrides an earlier one. */
  lemma {:induction false} NodeColourIsLastGroupColour<C>(groups: seq<Group>, groupColours: map<string, C>)
    requires Coloured(groups, groupColours)
    ensures forall n :: n in NodeColours(groups, groupColours) <==> Listed(groups, n)
    ensures forall n, i :: LastListing(groups, n, i) ==>
              n in NodeColours(groups, groupColours) && NodeColours(groups, groupColours)[n] == groupColours[groups[i].0]
    decreases |groups|
  {
    if groups != [] {
      var before := groups[..|groups| - 1];
      var last := groups[|groups| - 1];
      var m := NodeColours(groups, groupColours);
      var mb := NodeColours(before, groupColours);
      assert forall i :: 0 <= i < |before| ==> before[i] == groups[i];
      NodeColourIsLastGroupColour(before, groupColours);
      assert m == mb + map n | n in last.1 :: groupColours[last.0];
      forall n ensures n in m <==> Listed(groups, n) {
        if Listed(groups, n) {
          var i :| 0 <= i < |groups| && n in groups[i].1;
          if i < |before| { assert before[i] == groups[i]; assert Listed(before, n); }
        }
        if n in mb {
          assert Listed(before, n);
          var i :| 0 <= i < |before| && n in before[i].1;
          assert before[i] == groups[i];
        }
      }
      forall n, i | LastListing(groups, n, i)
        ensures n in m && m[n] == groupColours[groups[i].0]
      {
        if i < |before| {
          assert n !in last.1;
          assert LastListing(before, n, i);
        }
      }
    }
  }

  /** Colouring the groups by position colours every group. */
  lemma IndexedColoursCoverGroups<C>(groups: seq<Group>, colour: nat -> C)
    ensures Coloured(groups, IndexedColours(groups, colour))
  {
    forall i | 0 <= i < |groups| ensures groups[i].0 in IndexedColours(groups, colour) {
      assert Named(groups, groups[i].0);
    }
  }

  /** When no nutrient is listed twice, the group that lists a nutrient is
      also the last group to list it. */
  lemma {:induction false} DistinctMembersListedOnce(groups: seq<Group>, n: Node, i: int)
    requires Distinct(Members(groups)) && 0 <= i < |groups| && n in groups[i].1
    ensures LastListing(groups, n, i)
    decreases |groups|
  {
    var before := groups[..|groups| - 1];
    var last := groups[|groups| - 1];
    var mb := Members(before);
    assert Members(groups) == mb + last.1;
    if i < |before| {
      assert before[i] == groups[i];
      assert Listed(before, n);
      var a :| 0 <= a < |mb| && mb[a] == n;
      assert Distinct(mb) by {
        forall x, y | 0 <= x < y < |mb| ensures mb[x] != mb[y] {
          assert Members(groups)[x] == mb[x] && Members(groups)[y] == mb[y];
        }
      }
      assert n !in last.1 by {
        forall b | 0 <= b < |last.1| ensures last.1[b] != n {
          assert Members(groups)[a] == n && Members(groups)[|mb| + b] == last.1[b];
        }
      }
      DistinctMembersListedOnce(before, n, i);
      forall j | i < j < |groups| ensures n !in groups[j].1 {
        if j < |before| { assert before[j] == groups[j]; }
      }
    }
  }

  /** When no group name and no nutrient repeats, every nutrient gets the
      colour of the position of the one group that lists it. */
  lemma NodeColourIsGroupPositionColour<C>(groups: seq<Group>, colour: nat -> C)
    requires DistinctNames(groups) && Distinct(Members(groups))
    ensures Coloured(groups, IndexedColours(groups, colour))
    ensures forall i, n :: 0 <= i < |groups| && n in groups[i].1 ==>
              n in NodeColours(groups, IndexedColours(groups, colour))
              && NodeColours(groups, IndexedColours(groups, colour))[n] == colour(i)
  {
    var m := IndexedColours(groups, colour);
    IndexedColoursCoverGroups(groups, colour);
    IndexedColoursByPosition(groups, colour);
    NodeColourIsLastGroupColour(groups, m);
    forall i, n | 0 <= i < |groups| && n in groups[i].1
      ensures n in NodeColours(groups, m) && NodeColours(groups, m)[n] == colour(i)
    {
      DistinctMembersListedOnce(groups, n, i);
    }
  }

  /** The nested loops that fill `node_colors`. */
  method AssignNodeColours<C>(groups: seq<Group>, groupColours: map<string, C>) returns (m: map<Node, C>)
    requires Coloured(groups, groupColours)
    ensures m == NodeColours(groups, groupColours)
    ensures forall n :: n in m <==> Listed(groups, n)
    ensures forall n, i :: LastListing(groups, n, i) ==> n in m && m[n] == groupColours[groups[i].0]
  {
    m := map[];
    for i := 0 to |groups|
      invariant m == NodeColours(groups[..i], groupColours)
    {
      var name, members := groups[i].0, groups[i].1;
      ghost var base := m;
      for j := 0 to |members|
        invariant m == base + map n | n in members[..j] :: groupColours[name]
      {
        assert members[..j + 1] == members[..j] + [members[j]];
        m := m[members[j] := groupColours[name]];
      }
      assert groups[..i + 1][..i] == groups[..i];
      assert groups[..i + 1][i] == groups[i];
      assert members[..|members|] == members;
    }
    assert groups[..|groups|] == groups;
    NodeColourIsLastGroupColour(groups, groupColours);
  }

  /** `[node_colors[n] for n in G.nodes()]`: one colour per node in node
      order, or the KeyError of the first node that has none. */
  function ColourList<C>(nodes: seq<Node>, colours: map<Node, C>): (r: Result<seq<C>>)
    ensures r.Ok? <==> forall n :: n in nodes ==> n in colours
    ensures r.Ok? ==> |r.value| == |nodes| && forall i :: 0 <= i < |nodes| ==> r.value[i] == colours[nodes[i]]
    ensures r.Err? ==> exists i :: 0 <= i < |nodes| && r.error == KeyError(nodes[i]) && nodes[i] !in colours
                                 && forall j :: 0 <= j < i ==> nodes[j] in colours
    decreases |nodes|
  {
    if nodes == [] then Ok([])
    else if nodes[0] !in colours then Err(KeyError(nodes[0]))
    else
      match ColourList(nodes[1..], colours)
      case Err(e) =>
        assert forall n :: n in nodes <==> n == nodes[0] || n in nodes[1..];
        Err(e)
      case Ok(rest) =>
        assert forall n :: n in nodes <==> n == nodes[0] || n in nodes[1..];
        Ok([colours[nodes[0]]] + rest)
  }
}

/** The Tonnetz graph of tonnetz.py, built from the lattice search.

    Each coordinate becomes one node whose label is the names filed there
    joined by newlines; the label is also a key of `positions`, holding the
    coordinate. Two nodes are joined by an edge, tagged with the interval,
    whenever one coordinate is one interval step from the other; an edge
    already present is not re-tagged. Every node value starts at 0. */
module TonnetzGraph {
  import opened Text
  import opened TonnetzLattice

  // ---------------------------------------------------------------------
  // The undirected graph
  // ---------------------------------------------------------------------

  /** An undirected graph: its nodes in insertion order, and its edges keyed
      by their set of endpoints (one endpoint for a self-loop), each with its
      `interval` attribute. */
  datatype Graph = Graph(nodes: seq<string>, edges: map<set<string>, Interval>)

  const EmptyGraph: Graph := Graph([], map[])

  /** Adds `n` unless it is already a node. */
  function AddNode(g: Graph, n: string): (h: Graph)
    ensures Distinct(g.nodes) ==> Distinct(h.nodes)
    ensures forall x :: x in h.nodes <==> x in g.nodes || x == n
    ensures h.edges == g.edges
  {
    if n in g.nodes then g
    else
      DistinctExtend(g.nodes, n);
      Graph(g.nodes + [n], g.edges)
  }

  /** networkx's `has_edge`: an undirected edge is found from either end. */
  predicate HasEdge(g: Graph, u: string, v: string): (joined: bool)
    ensures joined <==> {v, u} in g.edges
  {
    assert {u, v} == {v, u};
    {u, v} in g.edges
  }

  /** Adds both endpoints as nodes and tags the edge between them. */
  function AddEdge(g: Graph, u: string, v: string, d: Interval): (h: Graph)
    ensures Distinct(g.nodes) ==> Distinct(h.nodes)
    ensures forall x :: x in h.nodes <==> x in g.nodes || x == u || x == v
    ensures HasEdge(h, u, v) && HasEdge(h, v, u) && h.edges[{v, u}] == d
    ensures forall e :: e in g.edges && e != {u, v} ==> e in h.edges && h.edges[e] == g.edges[e]
    ensures forall e :: e in h.edges ==> e in g.edges || e == {u, v}
  {
    var withEnds := AddNode(AddNode(g, u), v);
    assert {v, u} == {u, v};
    Graph(withEnds.nodes, g.edges[{u, v} := d])
  }

  lemma DistinctExtend(s: seq<string>, x: string)
    requires x !in s
    ensures Distinct(s) ==> Distinct(s + [x])
  {
    if Distinct(s) {
      var t := s + [x];
      forall a, b | 0 <= a < b < |t| ensures t[a] != t[b] {
        assert t[a] == s[a];
        if b < |s| {
          assert t[b] == s[b];
        }
      }
    }
  }

  // ---------------------------------------------------------------------
  // Labels
  // ---------------------------------------------------------------------

  /** The label of each coordinate: its names joined by newlines. */
  function Labels(coordToNames: map<Coord, seq<string>>): (labels: map<Coord, string>)
    ensures labels.Keys == coordToNames.Keys
  {
    map c | c in coordToNames :: JoinLines(coordToNames[c])
  }

  /** A label splits back into the names it joins. */
  lemma SplitLabel(coordToNames: map<Coord, seq<string>>, c: Coord)
    requires c in coordToNames && |coordToNames[c]| >= 1
    requires forall k :: 0 <= k < |coordToNames[c]| ==> NoNewline(coordToNames[c][k])
    ensures SplitLines(Labels(coordToNames)[c]) == coordToNames[c]
  {
    SplitJoinLines(coordToNames[c]);
  }

  /** No two coordinates share a label. */
  ghost predicate LabelsInjective(labels: map<Coord, string>) {
    forall a, b :: a in labels && b in labels && labels[a] == labels[b] ==> a == b
  }

  /** The labels of `coords`, in order. */
  function LabelsOf(coords: seq<Coord>, labels: map<Coord, string>): (ls: seq<string>)
    requires forall c :: c in coords ==> c in labels
    ensures |ls| == |coords| && forall i :: 0 <= i < |coords| ==> ls[i] == labels[coords[i]]
  {
    seq(|coords|, i requires 0 <= i < |coords| => labels[coords[i]])
  }

  // ---------------------------------------------------------------------
  // Labels of the lattice are distinct
  // ---------------------------------------------------------------------

  lemma {:induction false} NamesAtNoNewline(order: seq<int>, coordOf: map<int, Coord>, c: Coord)
    requires forall x :: x in order ==> x in coordOf
    ensures forall k :: 0 <= k < |NamesAt(order, coordOf, c)| ==> NoNewline(NamesAt(order, coordOf, c)[k])
    decreases |order|
  {
    if order != [] {
      NamesAtNoNewline(order[..|order| - 1], coordOf, c);
    }
  }

  /** Each lattice label splits back into the names filed at its
      coordinate. */
  lemma LatticeLabelSplits(order: seq<int>, coordOf: map<int, Coord>, coordToNames: map<Coord, seq<string>>, c: Coord)
    requires NamesInv(order, coordOf, coordToNames)
    requires c in coordToNames
    ensures SplitLines(Labels(coordToNames)[c]) == coordToNames[c]
  {
    NamesAtNoNewline(order, coordOf, c);
    SplitLabel(coordToNames, c);
  }

  /** Different coordinates of the lattice get different labels: a note
      filed at one is filed at no other, and a label determines its list. */
  lemma LatticeLabelsInjective(order: seq<int>, coordOf: map<int, Coord>, coordToNames: map<Coord, seq<string>>)
    requires NamesInv(order, coordOf, coordToNames) && Distinct(order)
    ensures LabelsInjective(Labels(coordToNames))
  {
    var labels := Labels(coordToNames);
    forall a, b | a in labels && b in labels && labels[a] == labels[b]
      ensures a == b
    {
      LatticeLabelSplits(order, coordOf, coordToNames, a);
      LatticeLabelSplits(order, coordOf, coordToNames, b);
      var m := NamesAtWitness(order, coordOf, a);
      NamesAtCount(order, coordOf, a, m);
      NamesAtCount(order, coordOf, b, m);
    }
  }

  // ---------------------------------------------------------------------
  // Nodes
  // ---------------------------------------------------------------------

  /** Adds one node per coordinate of `coordOrder` and files each label's
      position: the position of its coordinate. */
  method AddLabelNodes(g: Graph, positions: map<PosKey, Coord>, labels: map<Coord, string>, coordOrder: seq<Coord>)
    returns (h: Graph, placed: map<PosKey, Coord>)
    requires forall c :: c in coordOrder ==> c in labels && AtCoord(c) in positions
    ensures h.edges == g.edges && (Distinct(g.nodes) ==> Distinct(h.nodes))
    ensures forall x :: x in h.nodes <==> x in g.nodes || x in LabelsOf(coordOrder, labels)
    ensures g.nodes == [] && Distinct(coordOrder) && LabelsInjective(labels) ==> h.nodes == LabelsOf(coordOrder, labels)
    ensures forall key: PosKey :: key.AtCoord? ==> (key in placed <==> key in positions)
    ensures forall key: PosKey :: key.AtCoord? && key in positions ==> placed[key] == positions[key]
    ensures forall key :: key in placed && key !in positions ==> key.AtLabel? && key.nodeLabel in LabelsOf(coordOrder, labels)
    ensures LabelsInjective(labels) ==>
              forall c :: c in coordOrder ==> AtLabel(labels[c]) in placed && placed[AtLabel(labels[c])] == positions[AtCoord(c)]
  {
    ghost var all := LabelsOf(coordOrder, labels);
    h, placed := g, positions;
    for i := 0 to |coordOrder|
      invariant h.edges == g.edges && (Distinct(g.nodes) ==> Distinct(h.nodes))
      invariant forall x :: x in h.nodes <==> x in g.nodes || x in all[..i]
      invariant g.nodes == [] && Distinct(coordOrder) && LabelsInjective(labels) ==> h.nodes == all[..i]
      invariant forall key: PosKey :: key.AtCoord? ==> (key in placed <==> key in positions)
      invariant forall key: PosKey :: key.AtCoord? && key in positions ==> placed[key] == positions[key]
      invariant forall key :: key in placed && key !in positions ==> key.AtLabel? && key.nodeLabel in all[..i]
      invariant LabelsInjective(labels) ==>
                  forall k :: 0 <= k < i ==> AtLabel(all[k]) in placed && placed[AtLabel(all[k])] == positions[AtCoord(coordOrder[k])]
    {
      var coord := coordOrder[i];
      var nodeName := labels[coord];
      assert all[..i + 1] == all[..i] + [nodeName];
      if g.nodes == [] && Distinct(coordOrder) && LabelsInjective(labels) {
        assert nodeName !in all[..i] by {
          forall k | 0 <= k < i ensures all[k] != nodeName {
            assert coordOrder[k] != coord;
          }
        }
      }
      if LabelsInjective(labels) {
        forall k | 0 <= k < i && all[k] == nodeName ensures coordOrder[k] == coord {
          assert coordOrder[k] in labels && labels[coordOrder[k]] == labels[coord];
        }
      }
      h := AddNode(h, nodeName);
      placed := placed[AtLabel(nodeName) := positions[AtCoord(coord)]];
    }
    assert all[..|coordOrder|] == all;
    forall c | LabelsInjective(labels) && c in coordOrder
      ensures AtLabel(labels[c]) in placed && placed[AtLabel(labels[c])] == positions[AtCoord(c)]
    {
      var k :| 0 <= k < |coordOrder| && coordOrder[k] == c;
    }
  }

  // ---------------------------------------------------------------------
  // Edges
  // ---------------------------------------------------------------------

  /** `e` joins a coordinate of `coords` and the coordinate one `d` step
      from it. */
  ghost predicate IntervalEdge(labels: map<Coord, string>, coords: seq<Coord>, e: set<string>, d: Interval) {
    exists a :: a in coords && a in labels && Shift(a, d) in labels && e == {labels[a], labels[Shift(a, d)]}
  }

  lemma EveryInterval(d: Interval)
    ensures d in Intervals
  {
    assert Intervals[0] == MajorThird && Intervals[1] == PerfectFifth && Intervals[2] == MinorThird;
  }

  /** Adds, for each coordinate of `coordOrder` and each interval in turn,
      the edge to the neighbouring coordinate when it has a label and the
      two labels are not already joined. */
  method AddIntervalEdges(g: Graph, labels: map<Coord, string>, coordOrder: seq<Coord>) returns (h: Graph)
    requires forall c :: c in coordOrder ==> c in labels
    ensures Distinct(g.nodes) ==> Distinct(h.nodes)
    ensures (forall c :: c in labels ==> labels[c] in g.nodes) ==> h.nodes == g.nodes
    ensures forall e :: e in g.edges ==> e in h.edges && h.edges[e] == g.edges[e]
    ensures forall e :: e in h.edges && e !in g.edges ==> IntervalEdge(labels, coordOrder, e, h.edges[e])
    ensures forall a, d: Interval :: a in coordOrder && Shift(a, d) in labels ==> {labels[a], labels[Shift(a, d)]} in h.edges
  {
    h := g;
    for i := 0 to |coordOrder|
      invariant Distinct(g.nodes) ==> Distinct(h.nodes)
      invariant (forall c :: c in labels ==> labels[c] in g.nodes) ==> h.nodes == g.nodes
      invariant forall e :: e in g.edges ==> e in h.edges && h.edges[e] == g.edges[e]
      invariant forall e :: e in h.edges && e !in g.edges ==> IntervalEdge(labels, coordOrder, e, h.edges[e])
      invariant forall a, d: Interval :: a in coordOrder[..i] && Shift(a, d) in labels ==> {labels[a], labels[Shift(a, d)]} in h.edges
    {
      var coord := coordOrder[i];
      h := AddStepEdges(h, labels, coordOrder, coord);
      assert coordOrder[..i + 1] == coordOrder[..i] + [coord];
    }
    assert coordOrder[..|coordOrder|] == coordOrder;
  }

  /** The inner loop: for each interval in turn, joins `coord` to its
      neighbour one step away when the neighbour has a label and the two
      labels are not already joined. */
  method AddStepEdges(g: Graph, labels: map<Coord, string>, coordOrder: seq<Coord>, coord: Coord) returns (h: Graph)
    requires coord in coordOrder && forall c :: c in coordOrder ==> c in labels
    ensures Distinct(g.nodes) ==> Distinct(h.nodes)
    ensures (forall c :: c in labels ==> labels[c] in g.nodes) ==> h.nodes == g.nodes
    ensures forall e :: e in g.edges ==> e in h.edges && h.edges[e] == g.edges[e]
    ensures forall e :: e in h.edges && e !in g.edges ==> IntervalEdge(labels, coordOrder, e, h.edges[e])
    ensures forall d: Interval :: Shift(coord, d) in labels ==> {labels[coord], labels[Shift(coord, d)]} in h.edges
  {
    var nodeName := labels[coord];
    h := g;
    for j := 0 to |Intervals|
      invariant Distinct(g.nodes) ==> Distinct(h.nodes)
      invariant (forall c :: c in labels ==> labels[c] in g.nodes) ==> h.nodes == g.nodes
      invariant forall e :: e in g.edges ==> e in h.edges && h.edges[e] == g.edges[e]
      invariant forall e :: e in h.edges && e !in g.edges ==> IntervalEdge(labels, coordOrder, e, h.edges[e])
      invariant forall d: Interval :: d in Intervals[..j] && Shift(coord, d) in labels ==> {nodeName, labels[Shift(coord, d)]} in h.edges
    {
      var d := Intervals[j];
      var neighbor := Shift(coord, d);
      if neighbor in labels {
        var neighborName := labels[neighbor];
        if !HasEdge(h, nodeName, neighborName) {
          ghost var before := h;
          h := AddEdge(h, nodeName, neighborName, d);
          assert IntervalEdge(labels, coordOrder, {nodeName, neighborName}, d);
          if forall c :: c in labels ==> labels[c] in g.nodes {
            assert nodeName in before.nodes && neighborName in before.nodes;
            assert AddNode(AddNode(before, nodeName), neighborName) == before;
          }
        }
      }
      assert Intervals[..j + 1] == Intervals[..j] + [d];
    }
    forall d: Interval | Shift(coord, d) in labels
      ensures {nodeName, labels[Shift(coord, d)]} in h.edges
    {
      EveryInterval(d);
      assert Intervals[..|Intervals|] == Intervals;
    }
  }

  // ---------------------------------------------------------------------
  // Geometry of the steps
  // ---------------------------------------------------------------------

  /** Every step moves, the three steps from a coordinate go to three
      different places, and no two steps lead back to where they started. */
  lemma StepGeometry(c: Coord, d: Interval, d': Interval)
    ensures Shift(c, d) != c
    ensures Shift(c, d) == Shift(c, d') ==> d == d'
    ensures Shift(Shift(c, d), d') != c
  {
  }

  /** With distinct labels, an edge between two neighbouring coordinates is
      tagged with the interval that leads from one to the other. */
  lemma EdgeTagIsStep(labels: map<Coord, string>, coords: seq<Coord>, a: Coord, d: Interval, tag: Interval)
    requires LabelsInjective(labels)
    requires a in labels && Shift(a, d) in labels
    requires IntervalEdge(labels, coords, {labels[a], labels[Shift(a, d)]}, tag)
    ensures tag == d
  {
    var b := Shift(a, d);
    var a' :| a' in coords && a' in labels && Shift(a', tag) in labels && {labels[a], labels[b]} == {labels[a'], labels[Shift(a', tag)]};
    var b' := Shift(a', tag);
    StepGeometry(a, d, tag);
    StepGeometry(a', tag, d);
    assert labels[a'] in {labels[a], labels[b]};
    assert labels[b'] in {labels[a], labels[b]};
    assert labels[a] in {labels[a'], labels[b']};
    assert labels[b] in {labels[a'], labels[b']};
    assert a' == a || a' == b;
    assert b' == a || b' == b;
  }

  // ---------------------------------------------------------------------
  // The whole construction
  // ---------------------------------------------------------------------

  /** Runs the lattice search and builds the graph from it: one node per
      coordinate, labelled with the names filed there and positioned at it,
      an edge tagged `d` exactly between coordinates one `d` step apart, and
      every node's value 0. The ghost `order` and `coordOf` are the search's
      visit order and placements. */
  method BuildTonnetz()
    returns (visited: set<int>, coordToNames: map<Coord, seq<string>>, coordOrder: seq<Coord>,
             labels: map<Coord, string>, g: Graph, positions: map<PosKey, Coord>, nodeValues: map<string, int>,
             ghost order: seq<int>, ghost coordOf: map<int, Coord>, ghost log: seq<Entry>)
    ensures visited == set m | MinNote <= m <= MaxNote && Reachable(m)
    ensures VisitsInv(visited, order, coordOf) && NamesInv(order, coordOf, coordToNames)
    ensures SearchOrderInv(order, coordOf, coordOrder)
    ensures (forall k :: 0 <= k < |order| ==> order[k] in coordOf) && log == EnqueueLog(order, coordOf)
    ensures order == ArrivalOrder(log) && coordOf == Arrivals(log)
    ensures labels.Keys == coordToNames.Keys && Distinct(coordOrder) && forall c :: c in coordOrder <==> c in labels
    ensures forall c :: c in labels ==> SplitLines(labels[c]) == coordToNames[c]
    ensures LabelsInjective(labels)
    ensures g.nodes == LabelsOf(coordOrder, labels) && Distinct(g.nodes)
    ensures forall a, d: Interval :: a in labels && Shift(a, d) in labels ==>
              {labels[a], labels[Shift(a, d)]} in g.edges && g.edges[{labels[a], labels[Shift(a, d)]}] == d
    ensures forall e :: e in g.edges ==> IntervalEdge(labels, coordOrder, e, g.edges[e])
    ensures forall c :: c in labels ==> AtCoord(c) in positions && positions[AtCoord(c)] == c
    ensures forall c :: c in labels ==> AtLabel(labels[c]) in positions && positions[AtLabel(labels[c])] == c
    ensures forall key :: key in positions ==> (key.AtCoord? && key.coord in labels) || (key.AtLabel? && key.nodeLabel in g.nodes)
    ensures forall x :: x in nodeValues <==> x in g.nodes
    ensures forall x :: x in nodeValues ==> nodeValues[x] == 0
  {
    var latticePositions;
    visited, coordToNames, coordOrder, latticePositions, order, coordOf, log := ExploreLattice();
    labels := Labels(coordToNames);
    LatticeLabelsInjective(order, coordOf, coordToNames);
    forall c | c in labels
      ensures SplitLines(labels[c]) == coordToNames[c]
    {
      LatticeLabelSplits(order, coordOf, coordToNames, c);
    }
    g, positions, nodeValues := BuildGraph(labels, coordOrder, latticePositions);
  }

  /** The graph part of the script: the label nodes with their positions,
      then the interval edges, then every node's value set to 0. */
  method BuildGraph(labels: map<Coord, string>, coordOrder: seq<Coord>, latticePositions: map<PosKey, Coord>)
    returns (g: Graph, positions: map<PosKey, Coord>, nodeValues: map<string, int>)
    requires Distinct(coordOrder) && (forall c :: c in coordOrder <==> c in labels) && LabelsInjective(labels)
    requires forall key :: key in latticePositions <==> key.AtCoord? && key.coord in labels
    requires forall key :: key in latticePositions ==> latticePositions[key] == key.coord
    ensures g.nodes == LabelsOf(coordOrder, labels) && Distinct(g.nodes)
    ensures forall a, d: Interval :: a in labels && Shift(a, d) in labels ==>
              {labels[a], labels[Shift(a, d)]} in g.edges && g.edges[{labels[a], labels[Shift(a, d)]}] == d
    ensures forall e :: e in g.edges ==> IntervalEdge(labels, coordOrder, e, g.edges[e])
    ensures forall c :: c in labels ==> AtCoord(c) in positions && positions[AtCoord(c)] == c
    ensures forall c :: c in labels ==> AtLabel(labels[c]) in positions && positions[AtLabel(labels[c])] == c
    ensures forall key :: key in positions ==> (key.AtCoord? && key.coord in labels) || (key.AtLabel? && key.nodeLabel in g.nodes)
    ensures forall x :: x in nodeValues <==> x in g.nodes
    ensures forall x :: x in nodeValues ==> nodeValues[x] == 0
  {
    var withNodes;
    forall c | c in coordOrder ensures AtCoord(c) in latticePositions {
      assert AtCoord(c).coord in labels;
    }
    withNodes, positions := AddLabelNodes(EmptyGraph, latticePositions, labels, coordOrder);
    forall c | c in labels
      ensures labels[c] in withNodes.nodes
    {
      assert c in coordOrder;
    }
    g := AddIntervalEdges(withNodes, labels, coordOrder);
    forall a, d: Interval | a in labels && Shift(a, d) in labels
      ensures g.edges[{labels[a], labels[Shift(a, d)]}] == d
    {
      assert a in coordOrder;
      EdgeTagIsStep(labels, coordOrder, a, d, g.edges[{labels[a], labels[Shift(a, d)]}]);
    }
    forall key | key in positions
      ensures (key.AtCoord? && key.coord in labels) || (key.AtLabel? && key.nodeLabel in g.nodes)
    {
      if key !in latticePositions {
        assert key.nodeLabel in LabelsOf(coordOrder, labels);
      }
    }
    nodeValues := map x | x in g.nodes :: 0;
  }
}

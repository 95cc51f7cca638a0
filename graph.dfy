/** The marker graph's edges: the edge records with their flags, the adjacency tables
    edgesBySource/edgesByTarget and reverseComplementEdge, and the queries and updates made on
    them: flag setting, leaves and degrees of the pruned strong subgraph, linear-chain
    stepping and leaf pruning. The adjacency tables are built once and only read afterwards;
    the edge records are updated in place, so they are an array. */
module MarkerGraphEdges {
  import opened Common
  import opened Markers
  import opened MarkerIntervals

  /** MarkerGraph::Edge: endpoints, 8-bit coverage and the five flags. */
  datatype Edge = Edge(source: nat, target: nat, coverage: nat,
                       wasRemovedByTransitiveReduction: bool, wasPruned: bool,
                       isSuperBubbleEdge: bool, isLowCoverageCrossEdge: bool, wasAssembled: bool)
  {
    /** Edge::wasRemoved(): the edge is not part of the pruned strong subgraph once bubble and
        cross-edge removal have run. */
    predicate WasRemoved()
    {
      wasRemovedByTransitiveReduction || wasPruned || isSuperBubbleEdge || isLowCoverageCrossEdge
    }

    /** Neither removed by transitive reduction nor pruned: the test the leaf checks use. */
    predicate InPrunedStrongSubgraph()
    {
      !wasRemovedByTransitiveReduction && !wasPruned
    }
  }

  /** The coverage stored in the 8-bit field: the number of marker intervals, saturated at 255. */
  function Coverage(markerIntervalCount: nat): (c: nat)
    ensures c <= 255
    ensures c <= markerIntervalCount
    ensures c < 255 ==> c == markerIntervalCount
  {
    if markerIntervalCount < 256 then markerIntervalCount else 255
  }

  /** Saturation keeps the order of coverages. */
  lemma CoverageMonotone(n: nat, m: nat)
    requires n <= m
    ensures Coverage(n) <= Coverage(m)
  {
  }

  /** The loop of createMarkerGraphEdgesThreadFunction0 for one vertex: one edge per child, with
      the child's marker intervals. Because children come in strictly increasing vertex order,
      no two edges leaving the vertex share a target. */
  method CreateEdgesOfVertex(vertex0: nat, children: seq<Child>)
    returns (edges: seq<Edge>, edgeMarkerIntervals: seq<seq<MarkerInterval>>)
    requires forall c, d :: 0 <= c < d < |children| ==> children[c].vertex < children[d].vertex
    ensures |edges| == |children| && |edgeMarkerIntervals| == |children|
    ensures forall k :: 0 <= k < |children| ==>
      edges[k].source == vertex0 && edges[k].target == children[k].vertex
      && edgeMarkerIntervals[k] == children[k].intervals
      && edges[k].coverage == Coverage(|edgeMarkerIntervals[k]|)
    ensures forall j, k :: 0 <= j < k < |edges| ==> edges[j].target < edges[k].target
  {
    edges := [];
    edgeMarkerIntervals := [];
    var k := 0;
    while k < |children|
      invariant 0 <= k <= |children| && |edges| == k && |edgeMarkerIntervals| == k
      invariant forall j :: 0 <= j < k ==>
        edges[j].source == vertex0 && edges[j].target == children[j].vertex
        && edgeMarkerIntervals[j] == children[j].intervals
        && edges[j].coverage == Coverage(|edgeMarkerIntervals[j]|)
    {
      var coverage := |children[k].intervals|;
      var stored := if coverage < 256 then coverage else 255;
      edges := edges + [Edge(vertex0, children[k].vertex, stored, false, false, false, false, false)];
      edgeMarkerIntervals := edgeMarkerIntervals + [children[k].intervals];
      k := k + 1;
    }
  }

  // ----- Adjacency -----

  /** edgesBySource, edgesByTarget and reverseComplementEdge, indexed by vertex and edge id. */
  datatype Adjacency = Adjacency(vertexCount: nat, edgesBySource: seq<seq<nat>>,
                                 edgesByTarget: seq<seq<nat>>, reverseComplementEdge: seq<nat>)

  /** The tables have the right sizes and name only existing edges. */
  predicate WellFormed(g: Adjacency, edgeCount: nat)
  {
    |g.edgesBySource| == g.vertexCount && |g.edgesByTarget| == g.vertexCount
    && |g.reverseComplementEdge| == edgeCount
    && (forall v, k :: 0 <= v < g.vertexCount && 0 <= k < |g.edgesBySource[v]| ==> g.edgesBySource[v][k] < edgeCount)
    && (forall v, k :: 0 <= v < g.vertexCount && 0 <= k < |g.edgesByTarget[v]| ==> g.edgesByTarget[v][k] < edgeCount)
    && (forall e :: 0 <= e < edgeCount ==> g.reverseComplementEdge[e] < edgeCount)
  }

  /** Every edge joins two existing vertices. */
  predicate EndsValid(g: Adjacency, s: seq<Edge>)
  {
    forall e :: 0 <= e < |s| ==> s[e].source < g.vertexCount && s[e].target < g.vertexCount
  }

  function Sources(s: seq<Edge>): (r: seq<nat>)
    ensures |r| == |s| && forall e :: 0 <= e < |s| ==> r[e] == s[e].source
  {
    seq(|s|, e requires 0 <= e < |s| => s[e].source)
  }

  function Targets(s: seq<Edge>): (r: seq<nat>)
    ensures |r| == |s| && forall e :: 0 <= e < |s| ==> r[e] == s[e].target
  {
    seq(|s|, e requires 0 <= e < |s| => s[e].target)
  }

  /** The adjacency tables as the two-pass fill leaves them: the edges of each vertex in
      increasing id order; reverseComplementEdge is an involution. */
  predicate ValidGraph(g: Adjacency, s: seq<Edge>)
  {
    WellFormed(g, |s|) && EndsValid(g, s)
    && (forall v :: 0 <= v < g.vertexCount ==> g.edgesBySource[v] == IdsWithKey(Sources(s), v))
    && (forall v :: 0 <= v < g.vertexCount ==> g.edgesByTarget[v] == IdsWithKey(Targets(s), v))
    && (forall e :: 0 <= e < |s| ==> g.reverseComplementEdge[g.reverseComplementEdge[e]] == e)
  }

  /** createMarkerGraphEdgesThreadFunction12, passes 1 and 2: bucket the edge ids by source and
      by target. */
  method BuildAdjacency(vertexCount: nat, edges: seq<Edge>, reverseComplementEdge: seq<nat>) returns (g: Adjacency)
    requires vertexCount <= INVALID_VERTEX_ID
    requires forall e :: 0 <= e < |edges| ==> edges[e].source < vertexCount && edges[e].target < vertexCount
    requires |reverseComplementEdge| == |edges|
    requires forall e :: 0 <= e < |edges| ==> reverseComplementEdge[e] < |edges| && reverseComplementEdge[reverseComplementEdge[e]] == e
    ensures ValidGraph(g, edges) && g.vertexCount == vertexCount && g.reverseComplementEdge == reverseComplementEdge
  {
    var bySource := BucketByKey(Sources(edges), vertexCount);
    var byTarget := BucketByKey(Targets(edges), vertexCount);
    g := Adjacency(vertexCount, bySource, byTarget, reverseComplementEdge);
  }

  /** Same endpoints and coverage edge by edge: what flag updates keep. */
  predicate SameTopology(a: seq<Edge>, b: seq<Edge>)
  {
    |a| == |b|
    && forall e :: 0 <= e < |a| ==> a[e].source == b[e].source && a[e].target == b[e].target && a[e].coverage == b[e].coverage
  }

  /** Flag updates keep the adjacency tables valid. */
  lemma ValidGraphKept(g: Adjacency, a: seq<Edge>, b: seq<Edge>)
    requires ValidGraph(g, a) && SameTopology(a, b)
    ensures ValidGraph(g, b)
  {
    assert Sources(a) == Sources(b);
    assert Targets(a) == Targets(b);
  }

  // ----- setMarkerGraphEdgeFlags -----

  /** One flag argument: 0 clears the flag, 1 sets it, any other value leaves it as it is. */
  function UpdateFlag(current: bool, argument: nat): (r: bool)
    ensures argument == 0 ==> !r
    ensures argument == 1 ==> r
    ensures argument > 1 ==> r == current
  {
    if argument == 0 then false else if argument == 1 then true else current
  }

  /** The flags of one edge after setMarkerGraphEdgeFlags. */
  function SetFlags(edge: Edge, tr: nat, pruned: nat, superBubble: nat, lowCoverageCross: nat, assembled: nat): (r: Edge)
  {
    edge.(wasRemovedByTransitiveReduction := UpdateFlag(edge.wasRemovedByTransitiveReduction, tr),
          wasPruned := UpdateFlag(edge.wasPruned, pruned),
          isSuperBubbleEdge := UpdateFlag(edge.isSuperBubbleEdge, superBubble),
          isLowCoverageCrossEdge := UpdateFlag(edge.isLowCoverageCrossEdge, lowCoverageCross),
          wasAssembled := UpdateFlag(edge.wasAssembled, assembled))
  }

  /** What setMarkerGraphEdgeFlags promises of each edge: endpoints and coverage stay, each flag
      follows its argument, and the value 2 everywhere changes nothing. */
  lemma SetFlagsMeaning(edge: Edge, tr: nat, pruned: nat, superBubble: nat, lowCoverageCross: nat, assembled: nat)
    ensures var r := SetFlags(edge, tr, pruned, superBubble, lowCoverageCross, assembled);
      r.source == edge.source && r.target == edge.target && r.coverage == edge.coverage
      && (tr == 0 ==> !r.wasRemovedByTransitiveReduction) && (tr == 1 ==> r.wasRemovedByTransitiveReduction)
      && (tr > 1 ==> r.wasRemovedByTransitiveReduction == edge.wasRemovedByTransitiveReduction)
      && (pruned == 0 ==> !r.wasPruned) && (pruned == 1 ==> r.wasPruned)
      && (pruned > 1 ==> r.wasPruned == edge.wasPruned)
      && (superBubble == 0 ==> !r.isSuperBubbleEdge) && (superBubble == 1 ==> r.isSuperBubbleEdge)
      && (superBubble > 1 ==> r.isSuperBubbleEdge == edge.isSuperBubbleEdge)
      && (lowCoverageCross == 0 ==> !r.isLowCoverageCrossEdge) && (lowCoverageCross == 1 ==> r.isLowCoverageCrossEdge)
      && (lowCoverageCross > 1 ==> r.isLowCoverageCrossEdge == edge.isLowCoverageCrossEdge)
      && (assembled == 0 ==> !r.wasAssembled) && (assembled == 1 ==> r.wasAssembled)
      && (assembled > 1 ==> r.wasAssembled == edge.wasAssembled)
    ensures SetFlags(edge, 2, 2, 2, 2, 2) == edge
  {
  }

  /** One flag update of setMarkerGraphEdgeFlags: argument 0 clears the flag, 1 sets it, any
      other value leaves it alone. */
  method UpdateOneFlag(current: bool, argument: nat) returns (r: bool)
    ensures r == UpdateFlag(current, argument)
  {
    r := current;
    if argument == 0 {
      r := false;
    } else if argument == 1 {
      r := true;
    }
  }

  /** The body of setMarkerGraphEdgeFlags for one edge: the five flag updates. */
  method UpdateEdgeFlags(edge: Edge, tr: nat, pruned: nat, superBubble: nat, lowCoverageCross: nat, assembled: nat)
    returns (r: Edge)
    ensures r == SetFlags(edge, tr, pruned, superBubble, lowCoverageCross, assembled)
  {
    var wasRemovedByTransitiveReduction := UpdateOneFlag(edge.wasRemovedByTransitiveReduction, tr);
    var wasPruned := UpdateOneFlag(edge.wasPruned, pruned);
    var isSuperBubbleEdge := UpdateOneFlag(edge.isSuperBubbleEdge, superBubble);
    var isLowCoverageCrossEdge := UpdateOneFlag(edge.isLowCoverageCrossEdge, lowCoverageCross);
    var wasAssembled := UpdateOneFlag(edge.wasAssembled, assembled);
    r := edge.(wasRemovedByTransitiveReduction := wasRemovedByTransitiveReduction, wasPruned := wasPruned,
      isSuperBubbleEdge := isSuperBubbleEdge, isLowCoverageCrossEdge := isLowCoverageCrossEdge,
      wasAssembled := wasAssembled);
  }

  /** setMarkerGraphEdgeFlags: the same five updates applied to every edge. */
  method SetMarkerGraphEdgeFlags(edges: array<Edge>, tr: nat, pruned: nat, superBubble: nat, lowCoverageCross: nat, assembled: nat)
    requires tr < 256 && pruned < 256 && superBubble < 256 && lowCoverageCross < 256 && assembled < 256
    modifies edges
    ensures forall e :: 0 <= e < edges.Length ==>
      edges[e] == SetFlags(old(edges[e]), tr, pruned, superBubble, lowCoverageCross, assembled)
  {
    var e := 0;
    while e < edges.Length
      invariant 0 <= e <= edges.Length
      invariant forall j :: 0 <= j < e ==> edges[j] == SetFlags(old(edges[j]), tr, pruned, superBubble, lowCoverageCross, assembled)
      invariant forall j :: e <= j < edges.Length ==> edges[j] == old(edges[j])
    {
      edges[e] := UpdateEdgeFlags(edges[e], tr, pruned, superBubble, lowCoverageCross, assembled);
      e := e + 1;
    }
  }

  // ----- Leaves and degrees of the pruned strong subgraph -----

  predicate IdsIn(ids: seq<nat>, edgeCount: nat)
  {
    forall k :: 0 <= k < |ids| ==> ids[k] < edgeCount
  }

  /** The edges among ids that were not removed, in order. */
  function LiveEdges(s: seq<Edge>, ids: seq<nat>): (r: seq<nat>)
    requires IdsIn(ids, |s|)
    ensures |r| <= |ids|
    ensures forall k :: 0 <= k < |r| ==> r[k] < |s| && !s[r[k]].WasRemoved() && r[k] in ids
  {
    if ids == [] then []
    else if !s[ids[|ids| - 1]].WasRemoved() then LiveEdges(s, ids[..|ids| - 1]) + [ids[|ids| - 1]]
    else LiveEdges(s, ids[..|ids| - 1])
  }

  lemma {:induction false} LiveEdgesStep(s: seq<Edge>, ids: seq<nat>, k: nat)
    requires IdsIn(ids, |s|) && k < |ids|
    ensures !s[ids[k]].WasRemoved() ==> LiveEdges(s, ids[..k + 1]) == LiveEdges(s, ids[..k]) + [ids[k]]
    ensures s[ids[k]].WasRemoved() ==> LiveEdges(s, ids[..k + 1]) == LiveEdges(s, ids[..k])
  {
    assert ids[..k + 1][..k] == ids[..k];
  }

  lemma {:induction false} LiveEdgesComplete(s: seq<Edge>, ids: seq<nat>, x: nat)
    requires IdsIn(ids, |s|) && x in ids && x < |s| && !s[x].WasRemoved()
    ensures x in LiveEdges(s, ids)
  {
    if ids[|ids| - 1] != x {
      assert x in ids[..|ids| - 1];
      LiveEdgesComplete(s, ids[..|ids| - 1], x);
    }
  }

  /** When one listed edge survives, it is the only surviving one. */
  lemma OnlyLiveEdge(s: seq<Edge>, ids: seq<nat>, x: nat)
    requires IdsIn(ids, |s|) && x in ids && x < |s| && !s[x].WasRemoved()
    requires |LiveEdges(s, ids)| == 1
    ensures LiveEdges(s, ids)[0] == x
  {
    LiveEdgesComplete(s, ids, x);
  }

  lemma {:induction false} LiveEdgesPrefix(s: seq<Edge>, ids: seq<nat>, n: nat)
    requires IdsIn(ids, |s|) && n <= |ids|
    ensures |LiveEdges(s, ids[..n])| <= |LiveEdges(s, ids)|
    decreases |ids| - n
  {
    if n < |ids| {
      LiveEdgesStep(s, ids, n);
      LiveEdgesPrefix(s, ids, n + 1);
    } else {
      assert ids[..n] == ids;
    }
  }

  /** When no edge of ids is in the pruned strong subgraph, none survives at all. */
  lemma {:induction false} LiveEdgesOfRemoved(s: seq<Edge>, ids: seq<nat>)
    requires IdsIn(ids, |s|)
    requires forall k :: 0 <= k < |ids| ==> !s[ids[k]].InPrunedStrongSubgraph()
    ensures LiveEdges(s, ids) == []
  {
    if ids != [] {
      LiveEdgesOfRemoved(s, ids[..|ids| - 1]);
    }
  }

  /** The survivors are at most the listed edges, and there are none exactly when every listed
      edge was removed. */
  lemma {:induction false} LiveEdgesNone(s: seq<Edge>, ids: seq<nat>)
    requires IdsIn(ids, |s|)
    ensures |LiveEdges(s, ids)| <= |ids|
    ensures LiveEdges(s, ids) == [] <==> forall k :: 0 <= k < |ids| ==> s[ids[k]].WasRemoved()
  {
    if ids != [] {
      LiveEdgesNone(s, ids[..|ids| - 1]);
      if LiveEdges(s, ids) == [] {
        forall k | 0 <= k < |ids| ensures s[ids[k]].WasRemoved() {
          if k < |ids| - 1 {
            assert ids[..|ids| - 1][k] == ids[k];
          }
        }
      }
    }
  }

  /** markerGraphPrunedStrongSubgraphOutDegree: the edges leaving v that were not removed. */
  function OutDegree(g: Adjacency, s: seq<Edge>, v: nat): (r: nat)
    requires WellFormed(g, |s|) && v < g.vertexCount
    ensures r <= |g.edgesBySource[v]|
    ensures r == 0 <==> forall k :: 0 <= k < |g.edgesBySource[v]| ==> s[g.edgesBySource[v][k]].WasRemoved()
  {
    LiveEdgesNone(s, g.edgesBySource[v]);
    |LiveEdges(s, g.edgesBySource[v])|
  }

  /** markerGraphPrunedStrongSubgraphInDegree: the edges entering v that were not removed. */
  function InDegree(g: Adjacency, s: seq<Edge>, v: nat): (r: nat)
    requires WellFormed(g, |s|) && v < g.vertexCount
    ensures r <= |g.edgesByTarget[v]|
    ensures r == 0 <==> forall k :: 0 <= k < |g.edgesByTarget[v]| ==> s[g.edgesByTarget[v][k]].WasRemoved()
  {
    LiveEdgesNone(s, g.edgesByTarget[v]);
    |LiveEdges(s, g.edgesByTarget[v])|
  }

  /** None of the listed edges is still in the pruned strong subgraph. */
  predicate NoneInPruned(s: seq<Edge>, ids: seq<nat>)
    requires IdsIn(ids, |s|)
  {
    ids == [] || (!s[ids[|ids| - 1]].InPrunedStrongSubgraph() && NoneInPruned(s, ids[..|ids| - 1]))
  }

  lemma {:induction false} NoneInPrunedMeaning(s: seq<Edge>, ids: seq<nat>)
    requires IdsIn(ids, |s|)
    ensures NoneInPruned(s, ids) <==> forall k :: 0 <= k < |ids| ==> !s[ids[k]].InPrunedStrongSubgraph()
  {
    if ids != [] {
      NoneInPrunedMeaning(s, ids[..|ids| - 1]);
    }
  }

  lemma WellFormedIdsIn(g: Adjacency, edgeCount: nat, v: nat)
    requires WellFormed(g, edgeCount) && v < g.vertexCount
    ensures IdsIn(g.edgesBySource[v], edgeCount) && IdsIn(g.edgesByTarget[v], edgeCount)
  {
  }

  /** isForwardLeafOfMarkerGraphPrunedStrongSubgraph: no out-edge of v survives transitive
      reduction and pruning. */
  predicate IsForwardLeaf(g: Adjacency, s: seq<Edge>, v: nat)
    requires WellFormed(g, |s|) && v < g.vertexCount
    ensures IsForwardLeaf(g, s, v) <==>
      forall k :: 0 <= k < |g.edgesBySource[v]| ==> !s[g.edgesBySource[v][k]].InPrunedStrongSubgraph()
  {
    WellFormedIdsIn(g, |s|, v);
    NoneInPrunedMeaning(s, g.edgesBySource[v]);
    NoneInPruned(s, g.edgesBySource[v])
  }

  /** isBackwardLeafOfMarkerGraphPrunedStrongSubgraph: no in-edge of v survives transitive
      reduction and pruning. */
  predicate IsBackwardLeaf(g: Adjacency, s: seq<Edge>, v: nat)
    requires WellFormed(g, |s|) && v < g.vertexCount
    ensures IsBackwardLeaf(g, s, v) <==>
      forall k :: 0 <= k < |g.edgesByTarget[v]| ==> !s[g.edgesByTarget[v][k]].InPrunedStrongSubgraph()
  {
    WellFormedIdsIn(g, |s|, v);
    NoneInPrunedMeaning(s, g.edgesByTarget[v]);
    NoneInPruned(s, g.edgesByTarget[v])
  }

  /** With valid tables, edgesBySource[v] holds exactly the edges leaving v. */
  lemma SourceIndex(g: Adjacency, s: seq<Edge>, v: nat, e: nat)
    requires ValidGraph(g, s) && v < g.vertexCount && e < |s|
    ensures e in g.edgesBySource[v] <==> s[e].source == v
  {
    assert g.edgesBySource[v] == IdsWithKey(Sources(s), v);
    assert Sources(s)[e] == s[e].source;
  }

  lemma TargetIndex(g: Adjacency, s: seq<Edge>, v: nat, e: nat)
    requires ValidGraph(g, s) && v < g.vertexCount && e < |s|
    ensures e in g.edgesByTarget[v] <==> s[e].target == v
  {
    assert g.edgesByTarget[v] == IdsWithKey(Targets(s), v);
    assert Targets(s)[e] == s[e].target;
  }

  /** A vertex is a forward leaf exactly when every edge leaving it was removed by transitive
      reduction or pruned; a leaf then has out-degree 0 (the converse fails: an edge flagged
      only as a bubble or cross edge counts against the degree but not against being a leaf). */
  lemma ForwardLeafMeaning(g: Adjacency, s: seq<Edge>, v: nat)
    requires ValidGraph(g, s) && v < g.vertexCount
    ensures IsForwardLeaf(g, s, v) ==> OutDegree(g, s, v) == 0
    ensures IsForwardLeaf(g, s, v) <==> forall e :: 0 <= e < |s| && s[e].source == v ==> !s[e].InPrunedStrongSubgraph()
  {
    WellFormedIdsIn(g, |s|, v);
    NoneInPrunedMeaning(s, g.edgesBySource[v]);
    if IsForwardLeaf(g, s, v) {
      LiveEdgesOfRemoved(s, g.edgesBySource[v]);
      forall e | 0 <= e < |s| && s[e].source == v ensures !s[e].InPrunedStrongSubgraph() {
        SourceIndex(g, s, v, e);
      }
    }
  }

  lemma BackwardLeafMeaning(g: Adjacency, s: seq<Edge>, v: nat)
    requires ValidGraph(g, s) && v < g.vertexCount
    ensures IsBackwardLeaf(g, s, v) ==> InDegree(g, s, v) == 0
    ensures IsBackwardLeaf(g, s, v) <==> forall e :: 0 <= e < |s| && s[e].target == v ==> !s[e].InPrunedStrongSubgraph()
  {
    WellFormedIdsIn(g, |s|, v);
    NoneInPrunedMeaning(s, g.edgesByTarget[v]);
    if IsBackwardLeaf(g, s, v) {
      LiveEdgesOfRemoved(s, g.edgesByTarget[v]);
      forall e | 0 <= e < |s| && s[e].target == v ensures !s[e].InPrunedStrongSubgraph() {
        TargetIndex(g, s, v, e);
      }
    }
  }

  // ----- Linear chains -----

  /** nextEdgeInMarkerGraphPrunedStrongSubgraphChain: the only surviving edge after edgeId0
      when the target has in-degree and out-degree 1, invalidEdgeId otherwise. */
  function NextEdge(g: Adjacency, s: seq<Edge>, edgeId0: nat): nat
    requires WellFormed(g, |s|) && EndsValid(g, s) && edgeId0 < |s|
  {
    var v := s[edgeId0].target;
    if OutDegree(g, s, v) != 1 || InDegree(g, s, v) != 1 then INVALID_EDGE_ID
    else LiveEdges(s, g.edgesBySource[v])[0]
  }

  function PreviousEdge(g: Adjacency, s: seq<Edge>, edgeId0: nat): nat
    requires WellFormed(g, |s|) && EndsValid(g, s) && edgeId0 < |s|
  {
    var v := s[edgeId0].source;
    if OutDegree(g, s, v) != 1 || InDegree(g, s, v) != 1 then INVALID_EDGE_ID
    else LiveEdges(s, g.edgesByTarget[v])[0]
  }

  /** The scan shared by both chain steps: the unique edge of ids that was not removed, or
      invalidEdgeId when there is none or more than one. */
  method UniqueLiveEdge(edges: array<Edge>, ids: seq<nat>) returns (edgeId: nat)
    requires IdsIn(ids, edges.Length) && edges.Length < INVALID_EDGE_ID
    ensures |LiveEdges(edges[..], ids)| == 1 ==> edgeId == LiveEdges(edges[..], ids)[0]
    ensures |LiveEdges(edges[..], ids)| != 1 ==> edgeId == INVALID_EDGE_ID
  {
    edgeId := INVALID_EDGE_ID;
    var k := 0;
    while k < |ids|
      invariant 0 <= k <= |ids|
      invariant |LiveEdges(edges[..], ids[..k])| <= 1
      invariant |LiveEdges(edges[..], ids[..k])| == 0 ==> edgeId == INVALID_EDGE_ID
      invariant |LiveEdges(edges[..], ids[..k])| == 1 ==> edgeId == LiveEdges(edges[..], ids[..k])[0]
    {
      LiveEdgesStep(edges[..], ids, k);
      var edgeId1 := ids[k];
      if edges[edgeId1].WasRemoved() {
        k := k + 1;
        continue;
      }
      if edgeId == INVALID_EDGE_ID {
        edgeId := edgeId1;
      } else {
        LiveEdgesPrefix(edges[..], ids, k + 1);
        return INVALID_EDGE_ID;
      }
      k := k + 1;
    }
    assert ids[..|ids|] == ids;
  }

  method NextEdgeInChain(g: Adjacency, edges: array<Edge>, edgeId0: nat) returns (nextEdgeId: nat)
    requires WellFormed(g, edges.Length) && EndsValid(g, edges[..]) && edges.Length < INVALID_EDGE_ID
    requires edgeId0 < edges.Length && !edges[edgeId0].WasRemoved()
    ensures nextEdgeId == NextEdge(g, edges[..], edgeId0)
  {
    var v := edges[edgeId0].target;
    if OutDegree(g, edges[..], v) != 1 || InDegree(g, edges[..], v) != 1 {
      return INVALID_EDGE_ID;
    }
    nextEdgeId := UniqueLiveEdge(edges, g.edgesBySource[v]);
  }

  method PreviousEdgeInChain(g: Adjacency, edges: array<Edge>, edgeId0: nat) returns (previousEdgeId: nat)
    requires WellFormed(g, edges.Length) && EndsValid(g, edges[..]) && edges.Length < INVALID_EDGE_ID
    requires edgeId0 < edges.Length && !edges[edgeId0].WasRemoved()
    ensures previousEdgeId == PreviousEdge(g, edges[..], edgeId0)
  {
    var v := edges[edgeId0].source;
    if OutDegree(g, edges[..], v) != 1 || InDegree(g, edges[..], v) != 1 {
      return INVALID_EDGE_ID;
    }
    previousEdgeId := UniqueLiveEdge(edges, g.edgesByTarget[v]);
  }

  /** Chain steps are inverse: the next edge of a surviving edge is a surviving edge that
      starts where it ends, and its previous edge is the edge we came from. */
  lemma NextPreviousInverse(g: Adjacency, s: seq<Edge>, e: nat)
    requires ValidGraph(g, s) && e < |s| && !s[e].WasRemoved()
    requires NextEdge(g, s, e) != INVALID_EDGE_ID
    ensures var f := NextEdge(g, s, e);
      f < |s| && !s[f].WasRemoved() && s[f].source == s[e].target && PreviousEdge(g, s, f) == e
  {
    var v := s[e].target;
    var f := NextEdge(g, s, e);
    assert f in g.edgesBySource[v];
    SourceIndex(g, s, v, f);
    TargetIndex(g, s, v, e);
    OnlyLiveEdge(s, g.edgesByTarget[v], e);
  }

  lemma PreviousNextInverse(g: Adjacency, s: seq<Edge>, e: nat)
    requires ValidGraph(g, s) && e < |s| && !s[e].WasRemoved()
    requires PreviousEdge(g, s, e) != INVALID_EDGE_ID
    ensures var f := PreviousEdge(g, s, e);
      f < |s| && !s[f].WasRemoved() && s[f].target == s[e].source && NextEdge(g, s, f) == e
  {
    var v := s[e].source;
    var f := PreviousEdge(g, s, e);
    assert f in g.edgesByTarget[v];
    TargetIndex(g, s, v, f);
    SourceIndex(g, s, v, e);
    OnlyLiveEdge(s, g.edgesBySource[v], e);
  }

  // ----- Pruning -----

  /** The edges one prune iteration flags: still in the pruned strong subgraph, with a target
      that is a forward leaf or a source that is a backward leaf. */
  function PruneCandidates(g: Adjacency, s: seq<Edge>): (r: seq<bool>)
    requires WellFormed(g, |s|) && EndsValid(g, s)
    ensures |r| == |s|
    ensures forall e :: 0 <= e < |s| && r[e] ==> s[e].InPrunedStrongSubgraph()
  {
    seq(|s|, e requires 0 <= e < |s| =>
      s[e].InPrunedStrongSubgraph()
      && (IsForwardLeaf(g, s, s[e].target) || IsBackwardLeaf(g, s, s[e].source)))
  }

  /** Set wasPruned on the flagged edges. */
  function ApplyPrune(s: seq<Edge>, flagged: seq<bool>): (r: seq<Edge>)
    requires |flagged| == |s|
    ensures SameTopology(s, r)
    ensures forall e :: 0 <= e < |s| ==> r[e] == if flagged[e] then s[e].(wasPruned := true) else s[e]
  {
    seq(|s|, e requires 0 <= e < |s| => if flagged[e] then s[e].(wasPruned := true) else s[e])
  }

  /** The two records differ at most in wasPruned. */
  predicate SameExceptPruned(a: Edge, b: Edge)
  {
    a.source == b.source && a.target == b.target && a.coverage == b.coverage
    && a.wasRemovedByTransitiveReduction == b.wasRemovedByTransitiveReduction
    && a.isSuperBubbleEdge == b.isSuperBubbleEdge && a.isLowCoverageCrossEdge == b.isLowCoverageCrossEdge
    && a.wasAssembled == b.wasAssembled
  }

  /** What pruning may do to one edge record: only wasPruned may change, it is never set on an
      edge removed by transitive reduction, and it is never cleared. */
  predicate PrunedFrom(before: Edge, after: Edge)
  {
    SameExceptPruned(before, after)
    && (before.wasRemovedByTransitiveReduction ==> after.wasPruned == before.wasPruned)
    && (before.wasPruned ==> after.wasPruned)
  }

  /** PrunedFrom, edge by edge, composes over successive iterations. */
  lemma PrunedFromTransitive(s: seq<Edge>, previous: seq<Edge>, r: seq<Edge>)
    requires |s| == |previous| == |r|
    requires forall e :: 0 <= e < |s| ==> PrunedFrom(s[e], previous[e])
    requires forall e :: 0 <= e < |s| ==> PrunedFrom(previous[e], r[e])
    ensures forall e :: 0 <= e < |s| ==> PrunedFrom(s[e], r[e])
  {
  }

  /** The edge records after `iterations` prune iterations. */
  function PruneIterations(g: Adjacency, s: seq<Edge>, iterations: nat): (r: seq<Edge>)
    requires WellFormed(g, |s|) && EndsValid(g, s)
    ensures SameTopology(s, r) && EndsValid(g, r)
    ensures forall e :: 0 <= e < |s| ==> PrunedFrom(s[e], r[e])
  {
    if iterations == 0 then s
    else
      var previous := PruneIterations(g, s, iterations - 1);
      var r := ApplyPrune(previous, PruneCandidates(g, previous));
      PrunedFromTransitive(s, previous, r);
      r
  }

  function ClearPruned(s: seq<Edge>): (r: seq<Edge>)
    ensures SameTopology(s, r)
    ensures forall e :: 0 <= e < |s| ==> r[e] == s[e].(wasPruned := false)
  {
    seq(|s|, e requires 0 <= e < |s| => s[e].(wasPruned := false))
  }

  /** Prune iteration, first pass: flag the candidates in the separate vector. */
  method FindEdgesToBePruned(g: Adjacency, edges: array<Edge>, edgesToBePruned: array<bool>)
    requires WellFormed(g, edges.Length) && EndsValid(g, edges[..])
    requires edgesToBePruned.Length == edges.Length
    requires forall j :: 0 <= j < edgesToBePruned.Length ==> !edgesToBePruned[j]
    modifies edgesToBePruned
    ensures edgesToBePruned[..] == PruneCandidates(g, edges[..])
  {
    var e := 0;
    while e < edges.Length
      invariant 0 <= e <= edges.Length
      invariant forall j :: 0 <= j < e ==> edgesToBePruned[j] == PruneCandidates(g, edges[..])[j]
      invariant forall j :: e <= j < edges.Length ==> !edgesToBePruned[j]
    {
      var edge := edges[e];
      if edge.wasRemovedByTransitiveReduction || edge.wasPruned {
        e := e + 1;
        continue;
      }
      if IsForwardLeaf(g, edges[..], edge.target) || IsBackwardLeaf(g, edges[..], edge.source) {
        edgesToBePruned[e] := true;
      }
      e := e + 1;
    }
  }

  /** Prune iteration, second pass: set wasPruned on the flagged edges and clear the flags for
      the next iteration. */
  method FlagPrunedEdges(edges: array<Edge>, edgesToBePruned: array<bool>)
    requires edgesToBePruned.Length == edges.Length
    modifies edges, edgesToBePruned
    ensures edges[..] == ApplyPrune(old(edges[..]), old(edgesToBePruned[..]))
    ensures forall j :: 0 <= j < edgesToBePruned.Length ==> !edgesToBePruned[j]
  {
    var e := 0;
    while e < edges.Length
      invariant 0 <= e <= edges.Length
      invariant forall j :: 0 <= j < e ==> edges[j] == ApplyPrune(old(edges[..]), old(edgesToBePruned[..]))[j] && !edgesToBePruned[j]
      invariant forall j :: e <= j < edges.Length ==> edges[j] == old(edges[j]) && edgesToBePruned[j] == old(edgesToBePruned[j])
    {
      if edgesToBePruned[e] {
        edges[e] := edges[e].(wasPruned := true);
        edgesToBePruned[e] := false;
      }
      e := e + 1;
    }
  }

  /** One prune iteration: flag the candidates, then prune them and clear the flags. */
  method PruneIteration(g: Adjacency, edges: array<Edge>, edgesToBePruned: array<bool>)
    requires WellFormed(g, edges.Length) && EndsValid(g, edges[..])
    requires edgesToBePruned.Length == edges.Length
    requires forall j :: 0 <= j < edgesToBePruned.Length ==> !edgesToBePruned[j]
    modifies edges, edgesToBePruned
    ensures edges[..] == ApplyPrune(old(edges[..]), PruneCandidates(g, old(edges[..])))
    ensures forall j :: 0 <= j < edgesToBePruned.Length ==> !edgesToBePruned[j]
  {
    FindEdgesToBePruned(g, edges, edgesToBePruned);
    FlagPrunedEdges(edges, edgesToBePruned);
  }

  /** Clear the wasPruned flag of all edges. */
  method ClearPrunedFlags(edges: array<Edge>)
    modifies edges
    ensures edges[..] == ClearPruned(old(edges[..]))
  {
    var e := 0;
    while e < edges.Length
      invariant 0 <= e <= edges.Length
      invariant forall j :: 0 <= j < e ==> edges[j] == old(edges[j]).(wasPruned := false)
      invariant forall j :: e <= j < edges.Length ==> edges[j] == old(edges[j])
    {
      edges[e] := edges[e].(wasPruned := false);
      e := e + 1;
    }
  }

  /** The prune iterations of pruneMarkerGraphStrongSubgraph. */
  method RunPruneIterations(g: Adjacency, edges: array<Edge>, edgesToBePruned: array<bool>, iterationCount: nat)
    requires WellFormed(g, edges.Length) && EndsValid(g, edges[..])
    requires edgesToBePruned.Length == edges.Length
    requires forall j :: 0 <= j < edgesToBePruned.Length ==> !edgesToBePruned[j]
    modifies edges, edgesToBePruned
    ensures edges[..] == PruneIterations(g, old(edges[..]), iterationCount)
  {
    ghost var start := edges[..];
    var iteration := 0;
    while iteration < iterationCount
      invariant 0 <= iteration <= iterationCount
      invariant edges[..] == PruneIterations(g, start, iteration)
      invariant forall j :: 0 <= j < edgesToBePruned.Length ==> !edgesToBePruned[j]
    {
      PruneIteration(g, edges, edgesToBePruned);
      iteration := iteration + 1;
    }
  }

  /** pruneMarkerGraphStrongSubgraph: clear wasPruned, then run the prune iterations. */
  method PruneStrongSubgraph(g: Adjacency, edges: array<Edge>, iterationCount: nat)
    requires WellFormed(g, edges.Length) && EndsValid(g, edges[..])
    modifies edges
    ensures EndsValid(g, old(edges[..]))
    ensures edges[..] == PruneIterations(g, ClearPruned(old(edges[..])), iterationCount)
  {
    var edgesToBePruned := new bool[edges.Length](_ => false);
    ghost var original := edges[..];
    ClearPrunedFlags(edges);
    assert EndsValid(g, edges[..]) by {
      assert SameTopology(original, edges[..]);
    }
    RunPruneIterations(g, edges, edgesToBePruned, iterationCount);
  }
}

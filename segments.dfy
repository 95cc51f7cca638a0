/** Segments of the mode 3 assembly graph (createSegments, MarkerGraphEdgeInfo and the marker
    graph edge table). Every linear chain of marker graph edges becomes one segment, whose path
    lists the chain's edges in order. A chain continues past a vertex exactly when that vertex
    has one edge in and one edge out. */
module Mode3Segments {
  import opened Common
  import opened MarkerGraphEdges

  const TWO_TO_63: nat := 0x8000_0000_0000_0000

  /** An entry of a segment path: a marker graph edge id in 63 bits and a one-bit virtual flag. */
  datatype MarkerGraphEdgeInfo = MarkerGraphEdgeInfo(edgeId: nat, isVirtual: bool)

  /** The MarkerGraphEdgeInfo constructor: the flag is stored as given, the edge id loses bit 63. */
  function MakeEdgeInfo(edgeIdArgument: nat, isVirtualArgument: bool): (info: MarkerGraphEdgeInfo)
    requires edgeIdArgument <= UINT64_MAX
    ensures info.isVirtual == isVirtualArgument
    ensures info.edgeId < TWO_TO_63
    ensures edgeIdArgument < TWO_TO_63 ==> info.edgeId == edgeIdArgument
    ensures TWO_TO_63 <= edgeIdArgument ==> info.edgeId == edgeIdArgument - TWO_TO_63
  {
    MarkerGraphEdgeInfo(edgeIdArgument % TWO_TO_63, isVirtualArgument)
  }

  /** Two arguments that differ only in bit 63 give the same entry. */
  lemma MakeEdgeInfoDropsTopBit(edgeId: nat, isVirtual: bool)
    requires edgeId < TWO_TO_63
    ensures MakeEdgeInfo(edgeId + TWO_TO_63, isVirtual) == MakeEdgeInfo(edgeId, isVirtual)
  {
  }

  // ----- Linear chains -----

  /** The adjacency facts chain following relies on: each edge is listed under its own source
      and its own target, and only there. */
  predicate ChainReady(g: Adjacency, s: seq<Edge>)
  {
    WellFormed(g, |s|) && EndsValid(g, s)
    && (forall v, k :: 0 <= v < g.vertexCount && 0 <= k < |g.edgesBySource[v]| ==> s[g.edgesBySource[v][k]].source == v)
    && (forall v, k :: 0 <= v < g.vertexCount && 0 <= k < |g.edgesByTarget[v]| ==> s[g.edgesByTarget[v][k]].target == v)
    && (forall e :: 0 <= e < |s| ==> e in g.edgesBySource[s[e].source] && e in g.edgesByTarget[s[e].target])
  }

  lemma ValidGraphChainReady(g: Adjacency, s: seq<Edge>)
    requires ValidGraph(g, s)
    ensures ChainReady(g, s)
  {
    forall v, k | 0 <= v < g.vertexCount && 0 <= k < |g.edgesBySource[v]|
      ensures s[g.edgesBySource[v][k]].source == v
    {
      SourceIndex(g, s, v, g.edgesBySource[v][k]);
    }
    forall v, k | 0 <= v < g.vertexCount && 0 <= k < |g.edgesByTarget[v]|
      ensures s[g.edgesByTarget[v][k]].target == v
    {
      TargetIndex(g, s, v, g.edgesByTarget[v][k]);
    }
    forall e | 0 <= e < |s|
      ensures e in g.edgesBySource[s[e].source] && e in g.edgesByTarget[s[e].target]
    {
      SourceIndex(g, s, s[e].source, e);
      TargetIndex(g, s, s[e].target, e);
    }
  }

  /** The edge that continues the chain of e past e's target: the target's only out-edge, when
      the target has exactly one in-edge and one out-edge. */
  function Next(g: Adjacency, s: seq<Edge>, e: nat): (r: Option<nat>)
    requires ChainReady(g, s) && e < |s|
    ensures r.Some? ==> r.value < |s|
  {
    var v1 := s[e].target;
    if |g.edgesBySource[v1]| == 1 && |g.edgesByTarget[v1]| == 1 then Some(g.edgesBySource[v1][0]) else None
  }

  /** The edge that continues the chain of f before f's source: the source's only in-edge, when
      the source has exactly one in-edge and one out-edge. */
  function Prev(g: Adjacency, s: seq<Edge>, f: nat): (r: Option<nat>)
    requires ChainReady(g, s) && f < |s|
    ensures r.Some? ==> r.value < |s|
  {
    var v0 := s[f].source;
    if |g.edgesBySource[v0]| == 1 && |g.edgesByTarget[v0]| == 1 then Some(g.edgesByTarget[v0][0]) else None
  }

  /** Following a chain forward and backward are inverse steps. */
  lemma NextPrev(g: Adjacency, s: seq<Edge>, e: nat, f: nat)
    requires ChainReady(g, s) && e < |s| && f < |s|
    ensures Next(g, s, e) == Some(f) <==> Prev(g, s, f) == Some(e)
  {
    if Next(g, s, e) == Some(f) {
      var v1 := s[e].target;
      assert g.edgesBySource[v1][0] == f;
      assert e in g.edgesByTarget[v1];
    }
    if Prev(g, s, f) == Some(e) {
      var v0 := s[f].source;
      assert g.edgesByTarget[v0][0] == e;
      assert f in g.edgesBySource[v0];
    }
  }

  /** Edge c[k] continues the chain of c[k - 1]. */
  predicate Continues(g: Adjacency, s: seq<Edge>, c: seq<nat>, k: nat)
    requires ChainReady(g, s) && 0 < k < |c|
  {
    c[k - 1] < |s| && Next(g, s, c[k - 1]) == Some(c[k])
  }

  /** c is a run of consecutive edges of one linear chain. */
  predicate IsChain(g: Adjacency, s: seq<Edge>, c: seq<nat>)
    requires ChainReady(g, s)
  {
    (forall k :: 0 <= k < |c| ==> c[k] < |s|)
    && forall k :: 0 < k < |c| ==> Continues(g, s, c, k)
  }

  /** c is a whole linear chain, each edge once: nothing continues it past either end, unless it
      closes on itself. */
  predicate IsMaximalChain(g: Adjacency, s: seq<Edge>, c: seq<nat>)
    requires ChainReady(g, s)
  {
    IsChain(g, s, c) && 0 < |c| && Distinct(c)
    && (Next(g, s, c[|c| - 1]) == None || Next(g, s, c[|c| - 1]) == Some(c[0]))
    && (Prev(g, s, c[0]) == None || Prev(g, s, c[0]) == Some(c[|c| - 1]))
  }

  /** A whole chain holds the edges that continue any of its edges, in both directions. */
  lemma {:induction false} MaximalChainClosed(g: Adjacency, s: seq<Edge>, c: seq<nat>, i: nat)
    requires ChainReady(g, s) && IsMaximalChain(g, s, c) && i < |c|
    ensures Next(g, s, c[i]).Some? ==> Next(g, s, c[i]).value in c
    ensures Prev(g, s, c[i]).Some? ==> Prev(g, s, c[i]).value in c
  {
    if i + 1 < |c| {
      assert Continues(g, s, c, i + 1);
    }
    if 0 < i {
      assert Continues(g, s, c, i);
      NextPrev(g, s, c[i - 1], c[i]);
    }
  }

  /** Extending a chain forward by an edge other than its first keeps it free of repeats: the
      edge's only predecessor is the chain's last edge. */
  lemma {:induction false} ForwardStepFresh(g: Adjacency, s: seq<Edge>, c: seq<nat>, f: nat)
    requires ChainReady(g, s) && IsChain(g, s, c) && Distinct(c) && 0 < |c|
    requires Next(g, s, c[|c| - 1]) == Some(f) && f != c[0]
    ensures IsChain(g, s, c + [f]) && Distinct(c + [f])
  {
    var d := c + [f];
    forall j | 0 <= j < |c| ensures c[j] != f {
      if 0 < j && c[j] == f {
        assert Continues(g, s, c, j);
        NextPrev(g, s, c[j - 1], f);
        NextPrev(g, s, c[|c| - 1], f);
      }
    }
    forall k | 0 < k < |d| ensures Continues(g, s, d, k) {
      if k < |c| {
        assert Continues(g, s, c, k);
      }
    }
  }

  /** Extending a chain backward by the predecessor of its first edge keeps it free of repeats,
      when nothing continues the chain past its last edge. */
  lemma {:induction false} BackwardStepFresh(g: Adjacency, s: seq<Edge>, c: seq<nat>, p: nat)
    requires ChainReady(g, s) && IsChain(g, s, c) && Distinct(c) && 0 < |c|
    requires Next(g, s, c[|c| - 1]) == None && Prev(g, s, c[0]) == Some(p)
    ensures IsChain(g, s, [p] + c) && Distinct([p] + c)
    ensures Next(g, s, p) == Some(c[0])
  {
    NextPrev(g, s, p, c[0]);
    var d := [p] + c;
    forall j | 0 <= j < |c| ensures c[j] != p {
      if j + 1 < |c| {
        assert Continues(g, s, c, j + 1);
      }
    }
    forall k | 0 < k < |d| ensures Continues(g, s, d, k) {
      if 1 < k {
        assert Continues(g, s, c, k - 1);
      }
    }
  }

  /** The found flags are closed under chain steps: a found edge's neighbours in its chain are
      found too, because whole chains are found at once. */
  predicate FoundClosed(g: Adjacency, s: seq<Edge>, found: seq<bool>)
    requires ChainReady(g, s) && |found| == |s|
  {
    forall e :: 0 <= e < |s| && found[e] ==>
      (Next(g, s, e).Some? ==> found[Next(g, s, e).value])
      && (Prev(g, s, e).Some? ==> found[Prev(g, s, e).value])
  }

  /** None of the edges of c is found yet. */
  predicate Unfound(found: seq<bool>, c: seq<nat>)
  {
    forall k :: 0 <= k < |c| ==> c[k] < |found| && !found[c[k]]
  }

  /** The first loop of createSegments: follow the chain forward from startEdgeId until it stops
      or comes back to startEdgeId. None of the edges it finds was found before. */
  method FollowForward(g: Adjacency, s: seq<Edge>, startEdgeId: nat, wasFound: array<bool>)
    returns (nextEdges: seq<nat>, isCircular: bool)
    requires ChainReady(g, s) && startEdgeId < |s| && wasFound.Length == |s|
    requires FoundClosed(g, s, wasFound[..]) && !wasFound[startEdgeId]
    ensures IsChain(g, s, [startEdgeId] + nextEdges) && Distinct([startEdgeId] + nextEdges)
    ensures Unfound(wasFound[..], [startEdgeId] + nextEdges)
    ensures isCircular ==> Next(g, s, ([startEdgeId] + nextEdges)[|nextEdges|]) == Some(startEdgeId)
    ensures !isCircular ==> Next(g, s, ([startEdgeId] + nextEdges)[|nextEdges|]) == None
  {
    nextEdges := [];
    var edgeId := startEdgeId;
    isCircular := false;
    while true
      invariant IsChain(g, s, [startEdgeId] + nextEdges) && Distinct([startEdgeId] + nextEdges)
      invariant edgeId == ([startEdgeId] + nextEdges)[|nextEdges|]
      invariant Unfound(wasFound[..], [startEdgeId] + nextEdges)
      decreases |s| - |nextEdges|
    {
      var edge := s[edgeId];
      var v1 := edge.target;
      var outEdges := g.edgesBySource[v1];
      if |outEdges| != 1 {
        break;
      }
      var inEdges := g.edgesByTarget[v1];
      if |inEdges| != 1 {
        break;
      }
      var previousEdgeId := edgeId;
      edgeId := outEdges[0];
      if edgeId == startEdgeId {
        isCircular := true;
        break;
      }
      ForwardStepFresh(g, s, [startEdgeId] + nextEdges, edgeId);
      NextPrev(g, s, previousEdgeId, edgeId);
      assert [startEdgeId] + nextEdges + [edgeId] == [startEdgeId] + (nextEdges + [edgeId]);
      DistinctBounded([startEdgeId] + (nextEdges + [edgeId]), |s|);
      nextEdges := nextEdges + [edgeId];
      assert !wasFound[edgeId];
    }
  }

  /** The reverse of a sequence. */
  function Reversed(p: seq<nat>): (r: seq<nat>)
    ensures |r| == |p|
    ensures forall i :: 0 <= i < |p| ==> r[i] == p[|p| - 1 - i]
  {
    if p == [] then [] else [p[|p| - 1]] + Reversed(p[..|p| - 1])
  }

  lemma ReversedAppend(p: seq<nat>, x: nat)
    ensures Reversed(p + [x]) == [x] + Reversed(p)
  {
    assert (p + [x])[..|p|] == p;
  }

  /** ReversedAppend in front of a fixed tail, as the backward walk uses it. */
  lemma ReversedAppendBefore(p: seq<nat>, x: nat, tail: seq<nat>)
    ensures Reversed(p + [x]) + tail == [x] + (Reversed(p) + tail)
  {
    ReversedAppend(p, x);
  }

  /** The loop state of the backward walk: a chain of edges not found before that nothing
      continues past its far end. */
  ghost predicate BackwardState(g: Adjacency, s: seq<Edge>, found: seq<bool>, c: seq<nat>)
    requires ChainReady(g, s) && |found| == |s|
  {
    IsChain(g, s, c) && Distinct(c) && 0 < |c|
    && Next(g, s, c[|c| - 1]) == None
    && Unfound(found, c)
  }

  /** The backward walk after collecting previousEdges: the walk so far, reversed, in front of
      the forward part, is in the loop state, and edgeId is its first edge. */
  ghost predicate BackwardWalk(g: Adjacency, s: seq<Edge>, found: seq<bool>, forward: seq<nat>,
                               previousEdges: seq<nat>, edgeId: nat)
    requires ChainReady(g, s) && |found| == |s|
  {
    var c := Reversed(previousEdges) + forward;
    BackwardState(g, s, found, c) && edgeId == c[0]
  }

  /** One backward step keeps the walk's state and cannot outgrow the edge count. */
  lemma BackwardStep(g: Adjacency, s: seq<Edge>, found: seq<bool>, forward: seq<nat>,
                     previousEdges: seq<nat>, edgeId: nat, p: nat)
    requires ChainReady(g, s) && |found| == |s| && FoundClosed(g, s, found)
    requires BackwardWalk(g, s, found, forward, previousEdges, edgeId) && Prev(g, s, edgeId) == Some(p)
    ensures BackwardWalk(g, s, found, forward, previousEdges + [p], p) && |previousEdges| < |s|
  {
    var c := Reversed(previousEdges) + forward;
    BackwardStepFresh(g, s, c, p);
    assert !found[c[0]];
    DistinctBounded([p] + c, |s|);
    ReversedAppendBefore(previousEdges, p, forward);
  }

  /** The tests of one step of the backward walk: the source of the edge must have exactly
      one out-edge and one in-edge, and the in-edge is the previous edge. */
  method PreviousInChain(g: Adjacency, s: seq<Edge>, edgeId: nat) returns (previous: Option<nat>)
    requires ChainReady(g, s) && edgeId < |s|
    ensures previous == Prev(g, s, edgeId)
  {
    var edge := s[edgeId];
    var v0 := edge.source;
    var outEdges := g.edgesBySource[v0];
    if |outEdges| != 1 {
      return None;
    }
    var inEdges := g.edgesByTarget[v0];
    if |inEdges| != 1 {
      return None;
    }
    return Some(inEdges[0]);
  }

  /** The second loop of createSegments, run when the chain is not circular: follow the chain
      backward from startEdgeId. The result, reversed and followed by startEdgeId and the
      forward edges, is a whole chain of edges not found before. */
  method FollowBackward(g: Adjacency, s: seq<Edge>, startEdgeId: nat, wasFound: array<bool>, nextEdges: seq<nat>)
    returns (previousEdges: seq<nat>)
    requires ChainReady(g, s) && startEdgeId < |s| && wasFound.Length == |s|
    requires FoundClosed(g, s, wasFound[..]) && !wasFound[startEdgeId]
    requires IsChain(g, s, [startEdgeId] + nextEdges) && Distinct([startEdgeId] + nextEdges)
    requires Unfound(wasFound[..], [startEdgeId] + nextEdges)
    requires Next(g, s, ([startEdgeId] + nextEdges)[|nextEdges|]) == None
    ensures var c := Reversed(previousEdges) + ([startEdgeId] + nextEdges);
      BackwardState(g, s, wasFound[..], c) && Prev(g, s, c[0]) == None
  {
    previousEdges := [];
    var edgeId := startEdgeId;
    ghost var forward := [startEdgeId] + nextEdges;
    ghost var found := wasFound[..];
    assert Reversed(previousEdges) + forward == forward;
    assert forall k :: 0 < k < |forward| ==> forward[k] == nextEdges[k - 1];
    while true
      invariant BackwardWalk(g, s, found, forward, previousEdges, edgeId)
      decreases |s| - |previousEdges|
    {
      var previous := PreviousInChain(g, s, edgeId);
      if previous.None? {
        break;
      }
      BackwardStep(g, s, found, forward, previousEdges, edgeId, previous.value);
      edgeId := previous.value;
      previousEdges := previousEdges + [edgeId];
    }
  }

  /** Both loops of createSegments and the gathering of the path: the whole chain through
      startEdgeId, in chain order, made of edges not found before. */
  method FindChain(g: Adjacency, s: seq<Edge>, startEdgeId: nat, wasFound: array<bool>) returns (path: seq<nat>)
    requires ChainReady(g, s) && startEdgeId < |s| && wasFound.Length == |s|
    requires FoundClosed(g, s, wasFound[..]) && !wasFound[startEdgeId]
    ensures IsMaximalChain(g, s, path) && startEdgeId in path
    ensures Unfound(wasFound[..], path)
  {
    var nextEdges, isCircular := FollowForward(g, s, startEdgeId, wasFound);
    if isCircular {
      path := [startEdgeId] + nextEdges;
      NextPrev(g, s, path[|path| - 1], startEdgeId);
    } else {
      var previousEdges := FollowBackward(g, s, startEdgeId, wasFound, nextEdges);
      path := Reversed(previousEdges) + ([startEdgeId] + nextEdges);
      assert path[|previousEdges|] == startEdgeId;
      BackwardStateMaximal(g, s, wasFound[..], path);
    }
  }

  /** A chain that ends without a successor and starts without a predecessor is maximal. */
  lemma BackwardStateMaximal(g: Adjacency, s: seq<Edge>, found: seq<bool>, c: seq<nat>)
    requires ChainReady(g, s) && |found| == |s|
    requires BackwardState(g, s, found, c) && Prev(g, s, c[0]) == None
    ensures IsMaximalChain(g, s, c) && Unfound(found, c)
  {
  }

  /** Edge e sits, not virtual, somewhere on a segment path. */
  predicate IsLocated(paths: seq<seq<MarkerGraphEdgeInfo>>, e: nat)
  {
    exists i, p :: 0 <= i < |paths| && 0 <= p < |paths[i]| && !paths[i][p].isVirtual && paths[i][p].edgeId == e
  }

  /** No edge id sits, not virtual, at two places. */
  predicate LocationsUnique(paths: seq<seq<MarkerGraphEdgeInfo>>)
  {
    forall i0, p0, i1, p1 ::
      0 <= i0 < |paths| && 0 <= p0 < |paths[i0]| && 0 <= i1 < |paths| && 0 <= p1 < |paths[i1]|
      && !paths[i0][p0].isVirtual && !paths[i1][p1].isVirtual && paths[i0][p0].edgeId == paths[i1][p1].edgeId
      ==> i0 == i1 && p0 == p1
  }

  /** The edge ids of a segment path. */
  function PathEdgeIds(path: seq<MarkerGraphEdgeInfo>): (ids: seq<nat>)
    ensures |ids| == |path| && forall p :: 0 <= p < |path| ==> ids[p] == path[p].edgeId
  {
    seq(|path|, p requires 0 <= p < |path| => path[p].edgeId)
  }

  /** The entries of a segment path: each edge of the chain, not virtual. */
  function SegmentEntries(chain: seq<nat>): (path: seq<MarkerGraphEdgeInfo>)
    requires forall k :: 0 <= k < |chain| ==> chain[k] < TWO_TO_63
    ensures PathEdgeIds(path) == chain
    ensures forall p :: 0 <= p < |path| ==> !path[p].isVirtual
  {
    seq(|chain|, k requires 0 <= k < |chain| => MakeEdgeInfo(chain[k], false))
  }

  /** The flags after marking the edges of path as found. */
  function WithFound(found: seq<bool>, path: seq<nat>): (r: seq<bool>)
    ensures |r| == |found|
    ensures forall e :: 0 <= e < |found| ==> (r[e] <==> found[e] || e in path)
  {
    seq(|found|, e requires 0 <= e < |found| => found[e] || e in path)
  }

  /** The marking loop of createSegments: each edge of the new path was not found before. */
  method MarkFound(wasFound: array<bool>, path: seq<nat>)
    modifies wasFound
    requires Unfound(wasFound[..], path) && Distinct(path)
    ensures wasFound[..] == WithFound(old(wasFound[..]), path)
  {
    var k := 0;
    while k < |path|
      invariant 0 <= k <= |path|
      invariant wasFound[..] == WithFound(old(wasFound[..]), path[..k])
    {
      var edgeId := path[k];
      assert !wasFound[edgeId];
      ghost var before := wasFound[..];
      wasFound[edgeId] := true;
      assert wasFound[..] == before[edgeId := true];
      assert path[..k + 1] == path[..k] + [edgeId];
      k := k + 1;
    }
    assert path[..k] == path;
  }

  /** Marking a whole chain keeps the found flags closed under chain steps. */
  lemma {:induction false} MarkChainKeepsClosed(g: Adjacency, s: seq<Edge>, found: seq<bool>, c: seq<nat>)
    requires ChainReady(g, s) && |found| == |s| && FoundClosed(g, s, found) && IsMaximalChain(g, s, c)
    ensures FoundClosed(g, s, WithFound(found, c))
  {
    var after := WithFound(found, c);
    forall e | 0 <= e < |s| && after[e]
      ensures Next(g, s, e).Some? ==> after[Next(g, s, e).value]
      ensures Prev(g, s, e).Some? ==> after[Prev(g, s, e).value]
    {
      if e in c {
        var i :| 0 <= i < |c| && c[i] == e;
        MaximalChainClosed(g, s, c, i);
      }
    }
  }

  /** Adding the entries of a new chain whose edges were not located: the located edges are the
      old ones and the chain's, and each still sits at one place. */
  lemma {:induction false} AddSegmentLocations(paths: seq<seq<MarkerGraphEdgeInfo>>, chain: seq<nat>)
    requires forall k :: 0 <= k < |chain| ==> chain[k] < TWO_TO_63 && !IsLocated(paths, chain[k])
    requires Distinct(chain) && LocationsUnique(paths)
    ensures LocationsUnique(paths + [SegmentEntries(chain)])
    ensures forall e :: IsLocated(paths + [SegmentEntries(chain)], e) <==> IsLocated(paths, e) || e in chain
  {
    var entries := SegmentEntries(chain);
    var all := paths + [entries];
    forall e ensures IsLocated(all, e) <==> IsLocated(paths, e) || e in chain {
      if IsLocated(all, e) {
        var i, p :| 0 <= i < |all| && 0 <= p < |all[i]| && !all[i][p].isVirtual && all[i][p].edgeId == e;
        if i < |paths| {
          assert all[i] == paths[i];
        } else {
          assert chain[p] == e;
        }
      }
      if IsLocated(paths, e) {
        var i, p :| 0 <= i < |paths| && 0 <= p < |paths[i]| && !paths[i][p].isVirtual && paths[i][p].edgeId == e;
        assert all[i] == paths[i];
      }
      if e in chain {
        var p :| 0 <= p < |chain| && chain[p] == e;
        assert all[|paths|][p] == entries[p];
      }
    }
    forall i | 0 <= i < |paths| ensures all[i] == paths[i] {
    }
    assert all[|paths|] == entries;
    assert forall p :: 0 <= p < |entries| ==> !IsLocated(paths, entries[p].edgeId);
    forall i0, p0, i1, p1 |
      0 <= i0 < |all| && 0 <= p0 < |all[i0]| && 0 <= i1 < |all| && 0 <= p1 < |all[i1]|
      && !all[i0][p0].isVirtual && !all[i1][p1].isVirtual && all[i0][p0].edgeId == all[i1][p1].edgeId
      ensures i0 == i1 && p0 == p1
    {
    }
  }

  /** What createSegments keeps true between its iterations: the paths found so far are whole
      chains of non-virtual entries, each edge at one place at most, and an edge is flagged
      found exactly when it is on one of them. */
  ghost predicate SegmentsState(g: Adjacency, s: seq<Edge>, found: seq<bool>, paths: seq<seq<MarkerGraphEdgeInfo>>)
  {
    ChainReady(g, s) && |found| == |s|
    && (forall i :: 0 <= i < |paths| ==> IsMaximalChain(g, s, PathEdgeIds(paths[i])))
    && (forall i, p :: 0 <= i < |paths| && 0 <= p < |paths[i]| ==> !paths[i][p].isVirtual)
    && (forall e :: 0 <= e < |s| ==> (found[e] <==> IsLocated(paths, e)))
    && LocationsUnique(paths) && FoundClosed(g, s, found)
  }

  /** Before the first iteration: no path and no edge found. */
  lemma InitialSegmentsState(g: Adjacency, s: seq<Edge>, found: seq<bool>)
    requires ChainReady(g, s) && |found| == |s| && forall e :: 0 <= e < |s| ==> !found[e]
    ensures SegmentsState(g, s, found, [])
  {
  }

  /** No flag that was set is cleared. */
  predicate FoundGrows(before: seq<bool>, after: seq<bool>)
  {
    |before| == |after| && forall e :: 0 <= e < |before| && before[e] ==> after[e]
  }

  predicate FoundBelow(found: seq<bool>, n: nat)
  {
    n <= |found| && forall e :: 0 <= e < n ==> found[e]
  }

  lemma FoundBelowStep(before: seq<bool>, after: seq<bool>, n: nat)
    requires FoundBelow(before, n) && FoundGrows(before, after) && n < |after| && after[n]
    ensures FoundBelow(after, n + 1)
  {
  }

  /** When every edge is found, every edge is located. */
  lemma AllFoundLocated(g: Adjacency, s: seq<Edge>, found: seq<bool>, paths: seq<seq<MarkerGraphEdgeInfo>>)
    requires SegmentsState(g, s, found, paths) && FoundBelow(found, |s|)
    ensures forall e :: 0 <= e < |s| ==> IsLocated(paths, e)
  {
  }

  /** One iteration of createSegments for an edge not yet found: find its chain, flag the
      chain's edges and store the chain as a new segment. */
  method AddSegment(g: Adjacency, s: seq<Edge>, wasFound: array<bool>, paths: seq<seq<MarkerGraphEdgeInfo>>,
      startEdgeId: nat) returns (newPaths: seq<seq<MarkerGraphEdgeInfo>>)
    modifies wasFound
    requires wasFound.Length == |s| && |s| <= TWO_TO_63 && startEdgeId < |s| && !wasFound[startEdgeId]
    requires SegmentsState(g, s, wasFound[..], paths)
    ensures SegmentsState(g, s, wasFound[..], newPaths)
    ensures wasFound[startEdgeId] && FoundGrows(old(wasFound[..]), wasFound[..])
  {
    var path := FindChain(g, s, startEdgeId, wasFound);
    ghost var found := wasFound[..];
    MarkFound(wasFound, path);
    MarkChainKeepsClosed(g, s, found, path);
    AddSegmentLocations(paths, path);
    newPaths := paths + [SegmentEntries(path)];
    assert PathEdgeIds(newPaths[|paths|]) == path;
  }

  /** createSegments: the segment paths hold every marker graph edge exactly once, each path a
      whole linear chain in chain order. */
  method CreateSegments(g: Adjacency, s: seq<Edge>) returns (paths: seq<seq<MarkerGraphEdgeInfo>>)
    requires ValidGraph(g, s) && |s| <= TWO_TO_63
    ensures ChainReady(g, s)
    ensures forall i :: 0 <= i < |paths| ==> IsMaximalChain(g, s, PathEdgeIds(paths[i]))
    ensures forall i, p :: 0 <= i < |paths| && 0 <= p < |paths[i]| ==> !paths[i][p].isVirtual
    ensures forall e :: 0 <= e < |s| ==> IsLocated(paths, e)
    ensures LocationsUnique(paths)
  {
    ValidGraphChainReady(g, s);
    var wasFound := new bool[|s|](_ => false);
    paths := [];
    InitialSegmentsState(g, s, wasFound[..]);
    var startEdgeId := 0;
    while startEdgeId < |s|
      invariant 0 <= startEdgeId <= |s|
      invariant SegmentsState(g, s, wasFound[..], paths)
      invariant FoundBelow(wasFound[..], startEdgeId)
    {
      ghost var before := wasFound[..];
      if !wasFound[startEdgeId] {
        paths := AddSegment(g, s, wasFound, paths, startEdgeId);
      }
      FoundBelowStep(before, wasFound[..], startEdgeId);
      startEdgeId := startEdgeId + 1;
    }
    AllFoundLocated(g, s, wasFound[..], paths);
  }

  // ----- The marker graph edge table -----

  /** An entry of the marker graph edge table: a segment id and a position, stored in 32 bits. */
  datatype EdgeTableEntry = EdgeTableEntry(segmentId: nat, position: nat)

  /** The entry of an edge on no segment path. */
  const UNSET_ENTRY: EdgeTableEntry := EdgeTableEntry(UINT64_MAX, UINT32_MAX)

  /** computeMarkerGraphEdgeTable and its thread function: each non-virtual entry of a segment
      path records its segment and its position, truncated to 32 bits, under its edge id;
      edges on no path keep the unset entry. */
  method ComputeMarkerGraphEdgeTable(edgeCount: nat, paths: seq<seq<MarkerGraphEdgeInfo>>)
    returns (table: array<EdgeTableEntry>)
    requires forall i, p :: 0 <= i < |paths| && 0 <= p < |paths[i]| && !paths[i][p].isVirtual ==> paths[i][p].edgeId < edgeCount
    requires LocationsUnique(paths)
    ensures fresh(table) && table.Length == edgeCount
    ensures forall i, p :: 0 <= i < |paths| && 0 <= p < |paths[i]| && !paths[i][p].isVirtual ==>
      table[paths[i][p].edgeId] == EdgeTableEntry(i, p % TWO_TO_32)
    ensures forall e :: 0 <= e < edgeCount && !IsLocated(paths, e) ==> table[e] == UNSET_ENTRY
  {
    table := new EdgeTableEntry[edgeCount](_ => UNSET_ENTRY);
    var segmentId := 0;
    while segmentId < |paths|
      invariant 0 <= segmentId <= |paths|
      invariant forall i, p :: 0 <= i < segmentId && 0 <= p < |paths[i]| && !paths[i][p].isVirtual ==>
        table[paths[i][p].edgeId] == EdgeTableEntry(i, p % TWO_TO_32)
      invariant forall e :: 0 <= e < edgeCount && !IsLocated(paths, e) ==> table[e] == UNSET_ENTRY
    {
      FillSegmentEntries(table, paths, segmentId);
      segmentId := segmentId + 1;
    }
  }

  /** The loop over the path of one segment. */
  method FillSegmentEntries(table: array<EdgeTableEntry>, paths: seq<seq<MarkerGraphEdgeInfo>>, segmentId: nat)
    modifies table
    requires segmentId < |paths|
    requires forall i, p :: 0 <= i < |paths| && 0 <= p < |paths[i]| && !paths[i][p].isVirtual ==> paths[i][p].edgeId < table.Length
    requires LocationsUnique(paths)
    requires forall i, p :: 0 <= i < segmentId && 0 <= p < |paths[i]| && !paths[i][p].isVirtual ==>
      table[paths[i][p].edgeId] == EdgeTableEntry(i, p % TWO_TO_32)
    requires forall e :: 0 <= e < table.Length && !IsLocated(paths, e) ==> table[e] == UNSET_ENTRY
    ensures forall i, p :: 0 <= i <= segmentId && 0 <= p < |paths[i]| && !paths[i][p].isVirtual ==>
      table[paths[i][p].edgeId] == EdgeTableEntry(i, p % TWO_TO_32)
    ensures forall e :: 0 <= e < table.Length && !IsLocated(paths, e) ==> table[e] == UNSET_ENTRY
  {
    var path := paths[segmentId];
    var position := 0;
    while position < |path|
      invariant 0 <= position <= |path|
      invariant forall i, p :: (0 <= i < segmentId || (i == segmentId && p < position)) && 0 <= p < |paths[i]| && !paths[i][p].isVirtual ==>
        table[paths[i][p].edgeId] == EdgeTableEntry(i, p % TWO_TO_32)
      invariant forall e :: 0 <= e < table.Length && !IsLocated(paths, e) ==> table[e] == UNSET_ENTRY
    {
      var info := path[position];
      if !info.isVirtual {
        var edgeId := info.edgeId;
        assert IsLocated(paths, edgeId);
        table[edgeId] := EdgeTableEntry(segmentId, position % TWO_TO_32);
      }
      position := position + 1;
    }
  }
}

/** markerGraphEdgeDisconnectsLocalStrongSubgraph: two searches, one from each end of a start
    edge, advance one distance at a time through edges not removed by transitive reduction,
    in both directions, never using the start edge. The edge does not disconnect the local
    subgraph as soon as one search reaches a vertex the other has already reached. The two
    work areas, a flag per vertex and a vertex list per distance for each search, are taken
    all false and empty and are left that way. */
module LocalStrongSubgraph {
  import opened Common
  import opened MarkerGraphEdges
  import opened BoundedSearch

  /** edgesByTarget[v] holds only edges entering v. */
  predicate ByTargetSound(g: Adjacency, s: seq<Edge>)
    requires WellFormed(g, |s|)
  {
    forall v, k :: 0 <= v < g.vertexCount && 0 <= k < |g.edgesByTarget[v]| ==> s[g.edgesByTarget[v][k]].target == v
  }

  lemma ValidGraphByTargetSound(g: Adjacency, s: seq<Edge>)
    requires ValidGraph(g, s)
    ensures ByTargetSound(g, s)
  {
    forall v, k | 0 <= v < g.vertexCount && 0 <= k < |g.edgesByTarget[v]|
      ensures s[g.edgesByTarget[v][k]].target == v
    {
      TargetIndex(g, s, v, g.edgesByTarget[v][k]);
    }
  }

  /** Edge e may be used by the searches to step between a and b, in either direction. */
  predicate UsableLink(s: seq<Edge>, excluded: nat, e: nat, a: nat, b: nat)
  {
    e < |s| && e != excluded && !s[e].wasRemovedByTransitiveReduction
    && ((s[e].source == a && s[e].target == b) || (s[e].source == b && s[e].target == a))
  }

  /** An undirected walk: its vertices and the edges between consecutive ones. */
  datatype Walk = Walk(vertices: seq<nat>, edgeIds: seq<nat>)

  predicate IsWalk(s: seq<Edge>, excluded: nat, w: Walk, from: nat, to: nat)
  {
    |w.vertices| == |w.edgeIds| + 1 && w.vertices[0] == from && w.vertices[|w.edgeIds|] == to
    && forall k :: 0 <= k < |w.edgeIds| ==> UsableLink(s, excluded, w.edgeIds[k], w.vertices[k], w.vertices[k + 1])
  }

  lemma WalkExtend(s: seq<Edge>, excluded: nat, w: Walk, from: nat, to: nat, e: nat, next: nat)
    requires IsWalk(s, excluded, w, from, to) && UsableLink(s, excluded, e, to, next)
    ensures IsWalk(s, excluded, Walk(w.vertices + [next], w.edgeIds + [e]), from, next)
  {
    var w2 := Walk(w.vertices + [next], w.edgeIds + [e]);
    forall k | 0 <= k < |w2.edgeIds|
      ensures UsableLink(s, excluded, w2.edgeIds[k], w2.vertices[k], w2.vertices[k + 1])
    {
      if k < |w.edgeIds| {
        assert w2.edgeIds[k] == w.edgeIds[k] && w2.vertices[k] == w.vertices[k] && w2.vertices[k + 1] == w.vertices[k + 1];
      }
    }
  }

  // ----- All the vertices listed in a verticesByDistance table -----

  ghost function Flatten(lists: seq<seq<nat>>): seq<nat>
  {
    if lists == [] then [] else lists[0] + Flatten(lists[1..])
  }

  lemma {:induction false} FlattenMember(lists: seq<seq<nat>>, d: nat, v: nat)
    requires d < |lists| && v in lists[d]
    ensures v in Flatten(lists)
  {
    if d > 0 {
      assert lists[1..][d - 1] == lists[d];
      FlattenMember(lists[1..], d - 1, v);
    }
  }

  lemma {:induction false} FlattenGrow(a: seq<seq<nat>>, b: seq<seq<nat>>, v: nat)
    requires |a| == |b| && forall d, x :: 0 <= d < |a| && x in a[d] ==> x in b[d]
    requires v in Flatten(a)
    ensures v in Flatten(b)
  {
    if v !in a[0] {
      FlattenGrow(a[1..], b[1..], v);
    }
  }

  lemma {:induction false} FlattenRemove(a: seq<seq<nat>>, j: nat, v: nat)
    requires j < |a| && v in Flatten(a) && v !in a[j]
    ensures v in Flatten(a[j := []])
  {
    if j == 0 {
      assert a[j := []][1..] == a[1..];
    } else if v !in a[0] {
      assert a[j := []][1..] == a[1..][j - 1 := []];
      FlattenRemove(a[1..], j - 1, v);
    }
  }

  lemma {:induction false} FlattenOfEmpty(a: seq<seq<nat>>)
    requires forall d :: 0 <= d < |a| ==> a[d] == []
    ensures Flatten(a) == []
  {
    if a != [] {
      FlattenOfEmpty(a[1..]);
    }
  }

  // ----- The state of one search -----

  /** Every vertex the search has flagged is reached from the start by a usable walk. */
  ghost predicate WalksCover(s: seq<Edge>, excluded: nat, start: nat, flags: seq<bool>, walks: map<nat, Walk>)
  {
    forall v :: 0 <= v < |flags| && flags[v] ==> v in walks && IsWalk(s, excluded, walks[v], start, v)
  }

  /** Listed vertices are flagged, flagged vertices are listed, and the walks cover them: a
      vertex listed at distance d has a walk of at most d steps, and no walk is longer than
      the last distance. */
  ghost predicate SideState(g: Adjacency, s: seq<Edge>, excluded: nat, start: nat, flags: seq<bool>,
      verticesByDistance: seq<seq<nat>>, walks: map<nat, Walk>)
  {
    |flags| == g.vertexCount
    && (forall d, k :: 0 <= d < |verticesByDistance| && 0 <= k < |verticesByDistance[d]| ==>
          verticesByDistance[d][k] < g.vertexCount && flags[verticesByDistance[d][k]])
    && (forall v :: 0 <= v < |flags| && flags[v] ==> v in Flatten(verticesByDistance))
    && WalksCover(s, excluded, start, flags, walks)
    && (forall d, k :: 0 <= d < |verticesByDistance| && 0 <= k < |verticesByDistance[d]| ==>
          verticesByDistance[d][k] in walks && |walks[verticesByDistance[d][k]].edgeIds| <= d)
    && (forall v :: 0 <= v < |flags| && flags[v] ==> v in walks && |walks[v].edgeIds| < |verticesByDistance|)
  }

  predicate EmptyFrom(verticesByDistance: seq<seq<nat>>, n: nat)
  {
    forall d :: n <= d < |verticesByDistance| ==> verticesByDistance[d] == []
  }

  /** Flagging a new vertex v1, listing it at distance j and recording its walk keeps the state. */
  lemma SideStateAdd(g: Adjacency, s: seq<Edge>, excluded: nat, start: nat, flags: seq<bool>,
      verticesByDistance: seq<seq<nat>>, walks: map<nat, Walk>, j: nat, v1: nat, w1: Walk)
    requires SideState(g, s, excluded, start, flags, verticesByDistance, walks)
    requires j < |verticesByDistance| && v1 < g.vertexCount && !flags[v1] && IsWalk(s, excluded, w1, start, v1)
    requires |w1.edgeIds| <= j
    ensures SideState(g, s, excluded, start, flags[v1 := true],
      verticesByDistance[j := verticesByDistance[j] + [v1]], walks[v1 := w1])
  {
    var lists := verticesByDistance[j := verticesByDistance[j] + [v1]];
    FlattenMember(lists, j, v1);
    forall v | 0 <= v < |flags| && flags[v]
      ensures v in Flatten(lists)
    {
      FlattenGrow(verticesByDistance, lists, v);
    }
  }

  lemma SideStateStart(g: Adjacency, s: seq<Edge>, excluded: nat, start: nat, flags: seq<bool>,
      verticesByDistance: seq<seq<nat>>)
    requires |flags| == g.vertexCount && start < g.vertexCount && |verticesByDistance| > 0
    requires forall v :: 0 <= v < |flags| ==> !flags[v]
    requires forall d :: 0 <= d < |verticesByDistance| ==> verticesByDistance[d] == []
    ensures SideState(g, s, excluded, start, flags[start := true], verticesByDistance[0 := [start]],
      map[start := Walk([start], [])])
    ensures EmptyFrom(verticesByDistance[0 := [start]], 1)
  {
    FlattenMember(verticesByDistance[0 := [start]], 0, start);
  }

  // ----- One step of one search -----

  /** Scan the children (forward) or parents of v0. Each new vertex is flagged and listed at
      distance + 1; a vertex the other search has flagged ends the scan with a meeting point. */
  method ExploreNeighbors(g: Adjacency, s: seq<Edge>, excluded: nat, distance: nat, v0: nat, forward: bool,
      flags: array<bool>, otherFlags: array<bool>, verticesByDistance: array<seq<nat>>, start: nat,
      ghost walks0: map<nat, Walk>)
    returns (disconnects: bool, ghost walks: map<nat, Walk>, ghost meet: nat, ghost meetWalk: Walk)
    requires WellFormed(g, |s|) && EndsValid(g, s) && BySourceSound(g, s) && ByTargetSound(g, s)
    requires flags != otherFlags && otherFlags.Length == g.vertexCount
    requires distance + 1 < verticesByDistance.Length
    requires SideState(g, s, excluded, start, flags[..], verticesByDistance[..], walks0)
    requires v0 < g.vertexCount && flags[v0] && v0 in walks0 && |walks0[v0].edgeIds| <= distance
    modifies flags, verticesByDistance
    ensures SideState(g, s, excluded, start, flags[..], verticesByDistance[..], walks)
    ensures forall d :: 0 <= d < verticesByDistance.Length && d != distance + 1 ==>
      verticesByDistance[d] == old(verticesByDistance[d])
    ensures !disconnects ==>
      meet < otherFlags.Length && otherFlags[meet] && IsWalk(s, excluded, meetWalk, start, meet)
      && |meetWalk.edgeIds| <= distance + 1
  {
    disconnects, walks, meet, meetWalk := true, walks0, 0, Walk([], []);
    var edgeIds := if forward then g.edgesBySource[v0] else g.edgesByTarget[v0];
    ghost var w0 := walks0[v0];
    var k := 0;
    while k < |edgeIds|
      invariant 0 <= k <= |edgeIds|
      invariant SideState(g, s, excluded, start, flags[..], verticesByDistance[..], walks)
      invariant forall d :: 0 <= d < verticesByDistance.Length && d != distance + 1 ==>
        verticesByDistance[d] == old(verticesByDistance[d])
    {
      var edgeId := edgeIds[k];
      k := k + 1;
      var met;
      met, walks, meet, meetWalk :=
        VisitNeighbor(g, s, excluded, distance, v0, forward, edgeId, flags, otherFlags, verticesByDistance, start, walks, w0);
      if met {
        disconnects := false;
        break;
      }
    }
  }

  /** One edge of the scan: skipped when it is the start edge, removed, or leads to a vertex
      this search has flagged; a meeting point when it leads to a vertex the other search has
      flagged; otherwise the vertex it leads to is flagged and listed at distance + 1. */
  method VisitNeighbor(g: Adjacency, s: seq<Edge>, excluded: nat, distance: nat, v0: nat, forward: bool, edgeId: nat,
      flags: array<bool>, otherFlags: array<bool>, verticesByDistance: array<seq<nat>>, start: nat,
      ghost walks0: map<nat, Walk>, ghost w0: Walk)
    returns (met: bool, ghost walks: map<nat, Walk>, ghost meet: nat, ghost meetWalk: Walk)
    requires WellFormed(g, |s|) && EndsValid(g, s)
    requires flags != otherFlags && otherFlags.Length == g.vertexCount
    requires distance + 1 < verticesByDistance.Length
    requires SideState(g, s, excluded, start, flags[..], verticesByDistance[..], walks0)
    requires edgeId < |s| && (if forward then s[edgeId].source else s[edgeId].target) == v0
    requires IsWalk(s, excluded, w0, start, v0) && |w0.edgeIds| <= distance
    modifies flags, verticesByDistance
    ensures SideState(g, s, excluded, start, flags[..], verticesByDistance[..], walks)
    ensures forall d :: 0 <= d < verticesByDistance.Length && d != distance + 1 ==>
      verticesByDistance[d] == old(verticesByDistance[d])
    ensures met ==>
      meet < otherFlags.Length && otherFlags[meet] && IsWalk(s, excluded, meetWalk, start, meet)
      && |meetWalk.edgeIds| <= distance + 1
  {
    met, walks, meet, meetWalk := false, walks0, 0, Walk([], []);
    if edgeId == excluded {
      return;
    }
    var edge := s[edgeId];
    if edge.wasRemovedByTransitiveReduction {
      return;
    }
    var v1 := if forward then edge.target else edge.source;
    if flags[v1] {
      return;
    }
    WalkExtend(s, excluded, w0, start, v0, edgeId, v1);
    var w1 := Walk(w0.vertices + [v1], w0.edgeIds + [edgeId]);
    if otherFlags[v1] {
      met, meet, meetWalk := true, v1, w1;
      return;
    }
    SideStateAdd(g, s, excluded, start, flags[..], verticesByDistance[..], walks, distance + 1, v1, w1);
    ListVertex(flags, verticesByDistance, distance + 1, v1);
    walks := walks[v1 := w1];
  }

  /** Flag v1 and list it at distance j. */
  method ListVertex(flags: array<bool>, verticesByDistance: array<seq<nat>>, j: nat, v1: nat)
    requires v1 < flags.Length && j < verticesByDistance.Length
    modifies flags, verticesByDistance
    ensures flags[..] == old(flags[..])[v1 := true]
    ensures verticesByDistance[..] == old(verticesByDistance[..])[j := old(verticesByDistance[j]) + [v1]]
  {
    verticesByDistance[j] := verticesByDistance[j] + [v1];
    flags[v1] := true;
  }

  /** Advance one search from the vertices at `distance` to those at distance + 1. The list at
      distance + 1 is empty when the step begins, as the search itself checks. */
  method ExpandSide(g: Adjacency, s: seq<Edge>, excluded: nat, distance: nat,
      flags: array<bool>, otherFlags: array<bool>, verticesByDistance: array<seq<nat>>, start: nat,
      ghost walks0: map<nat, Walk>)
    returns (disconnects: bool, ghost walks: map<nat, Walk>, ghost meet: nat, ghost meetWalk: Walk)
    requires WellFormed(g, |s|) && EndsValid(g, s) && BySourceSound(g, s) && ByTargetSound(g, s)
    requires flags != otherFlags && otherFlags.Length == g.vertexCount
    requires distance + 1 < verticesByDistance.Length
    requires SideState(g, s, excluded, start, flags[..], verticesByDistance[..], walks0)
    requires EmptyFrom(verticesByDistance[..], distance + 1)
    modifies flags, verticesByDistance
    ensures SideState(g, s, excluded, start, flags[..], verticesByDistance[..], walks)
    ensures EmptyFrom(verticesByDistance[..], distance + 2)
    ensures !disconnects ==>
      meet < otherFlags.Length && otherFlags[meet] && IsWalk(s, excluded, meetWalk, start, meet)
      && |meetWalk.edgeIds| <= distance + 1
  {
    assert verticesByDistance[distance + 1] == [];
    disconnects, walks, meet, meetWalk := true, walks0, 0, Walk([], []);
    var vertices := verticesByDistance[distance];
    var i := 0;
    while i < |vertices|
      invariant 0 <= i <= |vertices|
      invariant SideState(g, s, excluded, start, flags[..], verticesByDistance[..], walks)
      invariant EmptyFrom(verticesByDistance[..], distance + 2)
      invariant verticesByDistance[distance] == vertices
    {
      var vertexId0 := vertices[i];
      i := i + 1;
      disconnects, walks, meet, meetWalk :=
        ExploreNeighbors(g, s, excluded, distance, vertexId0, true, flags, otherFlags, verticesByDistance, start, walks);
      if !disconnects {
        break;
      }
      disconnects, walks, meet, meetWalk :=
        ExploreNeighbors(g, s, excluded, distance, vertexId0, false, flags, otherFlags, verticesByDistance, start, walks);
      if !disconnects {
        break;
      }
    }
  }

  // ----- Cleaning up the work areas -----

  /** During clean-up: lists below d are empty, listed vertices are in range, and every vertex
      still flagged is listed. */
  ghost predicate CleanupState(flags: seq<bool>, verticesByDistance: seq<seq<nat>>, d: nat)
  {
    (forall e, k :: 0 <= e < |verticesByDistance| && 0 <= k < |verticesByDistance[e]| ==>
       verticesByDistance[e][k] < |flags|)
    && (forall v :: 0 <= v < |flags| && flags[v] ==> v in Flatten(verticesByDistance))
    && (forall e :: 0 <= e < d && e < |verticesByDistance| ==> verticesByDistance[e] == [])
  }

  /** Clear the flags of the vertices listed at distance d, then the list. */
  method ClearList(flags: array<bool>, verticesByDistance: array<seq<nat>>, d: nat)
    requires d < verticesByDistance.Length && CleanupState(flags[..], verticesByDistance[..], d)
    modifies flags, verticesByDistance
    ensures CleanupState(flags[..], verticesByDistance[..], d + 1)
  {
    var vertices := verticesByDistance[d];
    ghost var lists := verticesByDistance[..];
    var k := 0;
    while k < |vertices|
      invariant 0 <= k <= |vertices|
      invariant verticesByDistance[..] == lists
      invariant forall v :: 0 <= v < flags.Length && flags[v] ==> v in Flatten(lists) && v !in vertices[..k]
    {
      flags[vertices[k]] := false;
      k := k + 1;
    }
    assert vertices[..k] == vertices;
    forall v | 0 <= v < flags.Length && flags[v]
      ensures v in Flatten(lists[d := []])
    {
      FlattenRemove(lists, d, v);
    }
    verticesByDistance[d] := [];
    assert verticesByDistance[..] == lists[d := []];
  }

  lemma CleanupDone(flags: seq<bool>, verticesByDistance: seq<seq<nat>>)
    requires CleanupState(flags, verticesByDistance, |verticesByDistance|)
    ensures forall v :: 0 <= v < |flags| ==> !flags[v]
  {
    FlattenOfEmpty(verticesByDistance);
  }

  lemma SideStateCleanup(g: Adjacency, s: seq<Edge>, excluded: nat, start: nat, flags: seq<bool>,
      verticesByDistance: seq<seq<nat>>, walks: map<nat, Walk>)
    requires SideState(g, s, excluded, start, flags, verticesByDistance, walks)
    ensures CleanupState(flags, verticesByDistance, 0)
  {
  }

  /** The clean-up loop: for each distance and each search, clear the flags of the listed
      vertices and then the list. */
  method ClearWorkAreas(maxDistance: nat, verticesByDistance0: array<seq<nat>>, verticesByDistance1: array<seq<nat>>,
      vertexFlags0: array<bool>, vertexFlags1: array<bool>)
    requires verticesByDistance0 != verticesByDistance1 && vertexFlags0 != vertexFlags1
    requires verticesByDistance0.Length == maxDistance + 1 && verticesByDistance1.Length == maxDistance + 1
    requires CleanupState(vertexFlags0[..], verticesByDistance0[..], 0)
    requires CleanupState(vertexFlags1[..], verticesByDistance1[..], 0)
    modifies verticesByDistance0, verticesByDistance1, vertexFlags0, vertexFlags1
    ensures forall v :: 0 <= v < vertexFlags0.Length ==> !vertexFlags0[v]
    ensures forall v :: 0 <= v < vertexFlags1.Length ==> !vertexFlags1[v]
    ensures forall d :: 0 <= d <= maxDistance ==> verticesByDistance0[d] == [] && verticesByDistance1[d] == []
  {
    var d := 0;
    while d <= maxDistance
      invariant 0 <= d <= maxDistance + 1
      invariant CleanupState(vertexFlags0[..], verticesByDistance0[..], d)
      invariant CleanupState(vertexFlags1[..], verticesByDistance1[..], d)
    {
      ClearList(vertexFlags0, verticesByDistance0, d);
      ClearList(vertexFlags1, verticesByDistance1, d);
      d := d + 1;
    }
    CleanupDone(vertexFlags0[..], verticesByDistance0[..]);
    CleanupDone(vertexFlags1[..], verticesByDistance1[..]);
  }

  /** The start of one search: the start vertex is flagged and listed at distance 0. */
  method StartSide(g: Adjacency, s: seq<Edge>, excluded: nat, start: nat,
      flags: array<bool>, verticesByDistance: array<seq<nat>>)
    returns (ghost walks: map<nat, Walk>)
    requires flags.Length == g.vertexCount && start < g.vertexCount && verticesByDistance.Length > 0
    requires forall v :: 0 <= v < flags.Length ==> !flags[v]
    requires forall d :: 0 <= d < verticesByDistance.Length ==> verticesByDistance[d] == []
    modifies flags, verticesByDistance
    ensures SideState(g, s, excluded, start, flags[..], verticesByDistance[..], walks)
    ensures EmptyFrom(verticesByDistance[..], 1)
    ensures flags[..] == old(flags[..])[start := true]
    ensures verticesByDistance[..] == old(verticesByDistance[..])[0 := [start]]
  {
    SideStateStart(g, s, excluded, start, flags[..], verticesByDistance[..]);
    verticesByDistance[0] := [start];
    flags[start] := true;
    walks := map[start := Walk([start], [])];
    assert flags[..] == old(flags[..])[start := true];
    assert verticesByDistance[..] == old(verticesByDistance[..])[0 := [start]];
  }

  /** The two searches, one distance at a time, search 0 first at each distance. A false
      result comes with a meeting vertex and a walk to it from each end of the start edge. */
  method RunSearches(g: Adjacency, s: seq<Edge>, startEdgeId: nat, maxDistance: nat,
      verticesByDistance0: array<seq<nat>>, verticesByDistance1: array<seq<nat>>,
      vertexFlags0: array<bool>, vertexFlags1: array<bool>)
    returns (disconnects: bool, ghost meet: nat, ghost wa: Walk, ghost wb: Walk)
    requires WellFormed(g, |s|) && EndsValid(g, s) && BySourceSound(g, s) && ByTargetSound(g, s) && startEdgeId < |s|
    requires verticesByDistance0 != verticesByDistance1 && vertexFlags0 != vertexFlags1
    requires verticesByDistance0.Length == maxDistance + 1 && verticesByDistance1.Length == maxDistance + 1
    requires vertexFlags0.Length == g.vertexCount && vertexFlags1.Length == g.vertexCount
    requires forall v :: 0 <= v < g.vertexCount ==> !vertexFlags0[v] && !vertexFlags1[v]
    requires forall d :: 0 <= d <= maxDistance ==> verticesByDistance0[d] == [] && verticesByDistance1[d] == []
    modifies verticesByDistance0, verticesByDistance1, vertexFlags0, vertexFlags1
    ensures CleanupState(vertexFlags0[..], verticesByDistance0[..], 0)
    ensures CleanupState(vertexFlags1[..], verticesByDistance1[..], 0)
    ensures !disconnects ==>
      IsWalk(s, startEdgeId, wa, s[startEdgeId].source, meet) && IsWalk(s, startEdgeId, wb, s[startEdgeId].target, meet)
      && |wa.edgeIds| <= maxDistance && |wb.edgeIds| <= maxDistance
  {
    var startEdge := s[startEdgeId];
    var u0, u1 := startEdge.source, startEdge.target;
    ghost var walks0 := StartSide(g, s, startEdgeId, u0, vertexFlags0, verticesByDistance0);
    ghost var walks1 := StartSide(g, s, startEdgeId, u1, vertexFlags1, verticesByDistance1);

    disconnects := true;
    meet, wa, wb := 0, Walk([], []), Walk([], []);
    var distance := 0;
    while distance < maxDistance
      invariant SideState(g, s, startEdgeId, u0, vertexFlags0[..], verticesByDistance0[..], walks0)
      invariant SideState(g, s, startEdgeId, u1, vertexFlags1[..], verticesByDistance1[..], walks1)
      invariant EmptyFrom(verticesByDistance0[..], distance + 1) && EmptyFrom(verticesByDistance1[..], distance + 1)
      invariant !disconnects ==>
        IsWalk(s, startEdgeId, wa, u0, meet) && IsWalk(s, startEdgeId, wb, u1, meet)
        && |wa.edgeIds| <= maxDistance && |wb.edgeIds| <= maxDistance
    {
      ghost var m, mw;
      disconnects, walks0, m, mw :=
        ExpandSide(g, s, startEdgeId, distance, vertexFlags0, vertexFlags1, verticesByDistance0, u0, walks0);
      if !disconnects {
        meet, wa, wb := m, mw, walks1[m];
        break;
      }
      disconnects, walks1, m, mw :=
        ExpandSide(g, s, startEdgeId, distance, vertexFlags1, vertexFlags0, verticesByDistance1, u1, walks1);
      if !disconnects {
        meet, wa, wb := m, walks0[m], mw;
        break;
      }
      distance := distance + 1;
    }
    SideStateCleanup(g, s, startEdgeId, u0, vertexFlags0[..], verticesByDistance0[..], walks0);
    SideStateCleanup(g, s, startEdgeId, u1, vertexFlags1[..], verticesByDistance1[..], walks1);
  }

  /** True when no walk avoiding the start edge and edges removed by transitive reduction was
      found between its two ends within maxDistance steps from each end. A false result comes
      with such a walk, as two walks from the two ends that meet. Both pairs of work areas are
      all false and empty on entry and on exit. */
  method EdgeDisconnectsLocalStrongSubgraph(g: Adjacency, s: seq<Edge>, startEdgeId: nat, maxDistance: nat,
      verticesByDistance0: array<seq<nat>>, verticesByDistance1: array<seq<nat>>,
      vertexFlags0: array<bool>, vertexFlags1: array<bool>)
    returns (disconnects: bool)
    requires ValidGraph(g, s) && startEdgeId < |s|
    requires verticesByDistance0 != verticesByDistance1 && vertexFlags0 != vertexFlags1
    requires verticesByDistance0.Length == maxDistance + 1 && verticesByDistance1.Length == maxDistance + 1
    requires vertexFlags0.Length == g.vertexCount && vertexFlags1.Length == g.vertexCount
    requires forall v :: 0 <= v < g.vertexCount ==> !vertexFlags0[v] && !vertexFlags1[v]
    requires forall d :: 0 <= d <= maxDistance ==> verticesByDistance0[d] == [] && verticesByDistance1[d] == []
    modifies verticesByDistance0, verticesByDistance1, vertexFlags0, vertexFlags1
    ensures forall v :: 0 <= v < g.vertexCount ==> !vertexFlags0[v] && !vertexFlags1[v]
    ensures forall d :: 0 <= d <= maxDistance ==> verticesByDistance0[d] == [] && verticesByDistance1[d] == []
    ensures !disconnects ==> exists x: nat, w0: Walk, w1: Walk ::
      IsWalk(s, startEdgeId, w0, s[startEdgeId].source, x) && IsWalk(s, startEdgeId, w1, s[startEdgeId].target, x)
      && |w0.edgeIds| <= maxDistance && |w1.edgeIds| <= maxDistance
  {
    ValidGraphBySourceSound(g, s);
    ValidGraphByTargetSound(g, s);
    ghost var meet, wa, wb;
    disconnects, meet, wa, wb := RunSearches(g, s, startEdgeId, maxDistance,
      verticesByDistance0, verticesByDistance1, vertexFlags0, vertexFlags1);
    ClearWorkAreas(maxDistance, verticesByDistance0, verticesByDistance1, vertexFlags0, vertexFlags1);
  }
}

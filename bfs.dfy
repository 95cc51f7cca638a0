/** The bounded breadth-first search that transitive reduction and reverse transitive reduction
    run for each candidate edge: from a start vertex, through edges not yet removed by
    transitive reduction and other than the candidate, up to a maximum distance, looking for
    a goal vertex. vertexDistances holds -1 for every vertex not reached and is left all -1. */
module BoundedSearch {
  import opened Common
  import opened MarkerGraphEdges

  /** edgesBySource[v] holds only edges leaving v. */
  predicate BySourceSound(g: Adjacency, s: seq<Edge>)
    requires WellFormed(g, |s|)
  {
    forall v, k :: 0 <= v < g.vertexCount && 0 <= k < |g.edgesBySource[v]| ==> s[g.edgesBySource[v][k]].source == v
  }

  lemma ValidGraphBySourceSound(g: Adjacency, s: seq<Edge>)
    requires ValidGraph(g, s)
    ensures BySourceSound(g, s)
  {
    forall v, k | 0 <= v < g.vertexCount && 0 <= k < |g.edgesBySource[v]|
      ensures s[g.edgesBySource[v][k]].source == v
    {
      SourceIndex(g, s, v, g.edgesBySource[v][k]);
    }
  }

  lemma BySourceSoundKept(g: Adjacency, a: seq<Edge>, b: seq<Edge>)
    requires WellFormed(g, |a|) && BySourceSound(g, a) && SameTopology(a, b)
    ensures WellFormed(g, |b|) && BySourceSound(g, b)
  {
  }

  /** Edge k of the path starts where edge k - 1 ends. */
  predicate Follows(s: seq<Edge>, path: seq<nat>, k: nat)
    requires 0 < k < |path|
  {
    path[k - 1] < |s| && path[k] < |s| && s[path[k - 1]].target == s[path[k]].source
  }

  /** A path the search may take: edges not removed by transitive reduction, other than
      `excluded`, each starting where the previous one ends, from u0 to v. */
  predicate IsBfsPath(s: seq<Edge>, path: seq<nat>, excluded: nat, u0: nat, v: nat)
  {
    (forall k :: 0 <= k < |path| ==> path[k] < |s| && path[k] != excluded && !s[path[k]].wasRemovedByTransitiveReduction)
    && (|path| == 0 ==> u0 == v)
    && (|path| > 0 ==> path[0] < |s| && path[|path| - 1] < |s| && s[path[0]].source == u0 && s[path[|path| - 1]].target == v)
    && (forall k :: 0 < k < |path| ==> Follows(s, path, k))
  }

  lemma BfsPathAppend(s: seq<Edge>, path: seq<nat>, excluded: nat, u0: nat, v: nat, e: nat)
    requires IsBfsPath(s, path, excluded, u0, v)
    requires e < |s| && e != excluded && !s[e].wasRemovedByTransitiveReduction && s[e].source == v
    ensures IsBfsPath(s, path + [e], excluded, u0, s[e].target)
  {
    var p := path + [e];
    forall k | 0 < k < |p|
      ensures Follows(s, p, k)
    {
      if k < |path| {
        assert Follows(s, path, k);
      }
    }
  }

  /** The state of one search: the distances (-1 when not reached), the queue, the vertices
      reached, in order, and for each reached vertex a path of its distance's length. Queued
      vertices are at distance 0 or below maxDistance. */
  ghost predicate BfsState(g: Adjacency, s: seq<Edge>, distances: seq<int>, queue: seq<nat>, bfsVertices: seq<nat>,
      paths: map<nat, seq<nat>>, excluded: nat, u0: nat, maxDistance: nat)
  {
    |distances| == g.vertexCount
    && Distinct(bfsVertices)
    && (forall i :: 0 <= i < |bfsVertices| ==> bfsVertices[i] < g.vertexCount && distances[bfsVertices[i]] >= 0)
    && (forall v :: 0 <= v < |distances| && distances[v] != -1 ==> v in bfsVertices)
    && (forall i :: 0 <= i < |queue| ==>
          (queue[i] < g.vertexCount && distances[queue[i]] >= 0
           && (distances[queue[i]] == 0 || distances[queue[i]] < maxDistance)))
    && (forall v :: 0 <= v < |distances| && distances[v] >= 0 ==>
          (v in paths && IsBfsPath(s, paths[v], excluded, u0, v) && |paths[v]| == distances[v]))
  }

  /** The state right after u0 is reached at distance 0. */
  lemma BfsStateStart(g: Adjacency, s: seq<Edge>, distances: seq<int>, excluded: nat, u0: nat, maxDistance: nat)
    requires |distances| == g.vertexCount && u0 < g.vertexCount
    requires forall v :: 0 <= v < |distances| ==> distances[v] == -1
    ensures BfsState(g, s, distances[u0 := 0], [u0], [u0], map[u0 := []], excluded, u0, maxDistance)
  {
  }

  lemma BfsStatePop(g: Adjacency, s: seq<Edge>, distances: seq<int>, queue: seq<nat>, bfsVertices: seq<nat>,
      paths: map<nat, seq<nat>>, excluded: nat, u0: nat, maxDistance: nat)
    requires BfsState(g, s, distances, queue, bfsVertices, paths, excluded, u0, maxDistance) && queue != []
    ensures BfsState(g, s, distances, queue[1..], bfsVertices, paths, excluded, u0, maxDistance)
  {
  }

  /** Reaching a new vertex v1 at distance d1 along path1, and queueing it when d1 is below
      maxDistance, keeps the state consistent. */
  lemma BfsStateAdd(g: Adjacency, s: seq<Edge>, distances: seq<int>, queue: seq<nat>, bfsVertices: seq<nat>,
      paths: map<nat, seq<nat>>, excluded: nat, u0: nat, maxDistance: nat, v1: nat, d1: nat, path1: seq<nat>, push: bool)
    requires BfsState(g, s, distances, queue, bfsVertices, paths, excluded, u0, maxDistance)
    requires v1 < g.vertexCount && distances[v1] < 0
    requires IsBfsPath(s, path1, excluded, u0, v1) && |path1| == d1
    requires push ==> d1 < maxDistance
    ensures BfsState(g, s, distances[v1 := d1], if push then queue + [v1] else queue, bfsVertices + [v1],
      paths[v1 := path1], excluded, u0, maxDistance)
  {
    assert v1 !in bfsVertices;
  }

  /** The inner loop of one search step: scan the out-edges of v0, skipping the candidate,
      removed edges and vertices already reached; stop when the goal u1 is reached; otherwise
      record each new vertex at distance + 1 and queue it while that is below maxDistance. */
  method ExploreOutEdges(g: Adjacency, edges: array<Edge>, vertexDistances: array<int>, excluded: nat,
      u0: nat, u1: nat, maxDistance: nat, v0: nat, queue0: seq<nat>, bfs0: seq<nat>, ghost paths0: map<nat, seq<nat>>)
    returns (found: bool, queue: seq<nat>, bfsVertices: seq<nat>, ghost paths: map<nat, seq<nat>>, ghost foundPath: seq<nat>)
    requires WellFormed(g, edges.Length) && EndsValid(g, edges[..]) && BySourceSound(g, edges[..])
    requires BfsState(g, edges[..], vertexDistances[..], queue0, bfs0, paths0, excluded, u0, maxDistance)
    requires v0 < g.vertexCount && vertexDistances[v0] >= 0
    requires vertexDistances[v0] == 0 || vertexDistances[v0] < maxDistance
    modifies vertexDistances
    ensures BfsState(g, edges[..], vertexDistances[..], queue, bfsVertices, paths, excluded, u0, maxDistance)
    ensures |bfsVertices| >= |bfs0| && (|bfsVertices| == |bfs0| ==> queue == queue0)
    ensures found ==> IsBfsPath(edges[..], foundPath, excluded, u0, u1) && (|foundPath| == 1 || |foundPath| <= maxDistance)
  {
    queue, bfsVertices, paths := queue0, bfs0, paths0;
    found := false;
    foundPath := [];
    var distance0 := vertexDistances[v0];
    var distance1 := distance0 + 1;
    ghost var path0 := paths0[v0];
    var outEdges := g.edgesBySource[v0];
    var k := 0;
    while k < |outEdges|
      invariant 0 <= k <= |outEdges|
      invariant BfsState(g, edges[..], vertexDistances[..], queue, bfsVertices, paths, excluded, u0, maxDistance)
      invariant vertexDistances[v0] == distance0 && IsBfsPath(edges[..], path0, excluded, u0, v0) && |path0| == distance0
      invariant |bfsVertices| >= |bfs0| && (|bfsVertices| == |bfs0| ==> queue == queue0)
    {
      var edgeId01 := outEdges[k];
      k := k + 1;
      if edgeId01 == excluded {
        continue;
      }
      var edge01 := edges[edgeId01];
      if edge01.wasRemovedByTransitiveReduction {
        continue;
      }
      var v1 := edge01.target;
      if vertexDistances[v1] >= 0 {
        continue;
      }
      BfsPathAppend(edges[..], path0, excluded, u0, v0, edgeId01);
      if v1 == u1 {
        found := true;
        foundPath := path0 + [edgeId01];
        break;
      }
      ghost var before := vertexDistances[..];
      BfsStateAdd(g, edges[..], before, queue, bfsVertices, paths, excluded, u0, maxDistance,
        v1, distance1, path0 + [edgeId01], distance1 < maxDistance);
      vertexDistances[v1] := distance1;
      assert vertexDistances[..] == before[v1 := distance1];
      bfsVertices := bfsVertices + [v1];
      paths := paths[v1 := path0 + [edgeId01]];
      if distance1 < maxDistance {
        queue := queue + [v1];
      }
    }
  }

  /** One search from u0 for u1, up to maxDistance, not using edge `excluded` or edges
      already removed by transitive reduction. A success comes with such a path; the distance
      work area is left as it was found, all -1. */
  method BoundedBfs(g: Adjacency, edges: array<Edge>, vertexDistances: array<int>, excluded: nat,
      u0: nat, u1: nat, maxDistance: nat) returns (found: bool)
    requires WellFormed(g, edges.Length) && EndsValid(g, edges[..]) && BySourceSound(g, edges[..])
    requires vertexDistances.Length == g.vertexCount && u0 < g.vertexCount
    requires forall v :: 0 <= v < vertexDistances.Length ==> vertexDistances[v] == -1
    modifies vertexDistances
    ensures forall v :: 0 <= v < vertexDistances.Length ==> vertexDistances[v] == -1
    ensures found ==> exists path :: IsBfsPath(edges[..], path, excluded, u0, u1) && (|path| == 1 || |path| <= maxDistance)
  {
    var queue := [u0];
    BfsStateStart(g, edges[..], vertexDistances[..], excluded, u0, maxDistance);
    vertexDistances[u0] := 0;
    assert vertexDistances[..] == old(vertexDistances[..])[u0 := 0];
    var bfsVertices := [u0];
    ghost var paths: map<nat, seq<nat>> := map[u0 := []];
    ghost var foundPath: seq<nat> := [];
    found := false;
    while queue != []
      invariant BfsState(g, edges[..], vertexDistances[..], queue, bfsVertices, paths, excluded, u0, maxDistance)
      invariant |bfsVertices| <= g.vertexCount
      invariant found ==> IsBfsPath(edges[..], foundPath, excluded, u0, u1) && (|foundPath| == 1 || |foundPath| <= maxDistance)
      decreases g.vertexCount - |bfsVertices|, |queue|
    {
      var v0 := queue[0];
      BfsStatePop(g, edges[..], vertexDistances[..], queue, bfsVertices, paths, excluded, u0, maxDistance);
      queue := queue[1..];
      found, queue, bfsVertices, paths, foundPath :=
        ExploreOutEdges(g, edges, vertexDistances, excluded, u0, u1, maxDistance, v0, queue, bfsVertices, paths);
      DistinctBounded(bfsVertices, g.vertexCount);
      if found {
        break;
      }
    }
    // Clean up, ready for the next search.
    ResetDistances(vertexDistances, bfsVertices);
  }

  /** Set back to -1 the distance of every vertex the search reached; those are the only ones
      that are not -1. */
  method ResetDistances(vertexDistances: array<int>, bfsVertices: seq<nat>)
    requires forall i :: 0 <= i < |bfsVertices| ==> bfsVertices[i] < vertexDistances.Length
    requires forall v :: 0 <= v < vertexDistances.Length && vertexDistances[v] != -1 ==> v in bfsVertices
    modifies vertexDistances
    ensures forall v :: 0 <= v < vertexDistances.Length ==> vertexDistances[v] == -1
  {
    var i := 0;
    while i < |bfsVertices|
      invariant 0 <= i <= |bfsVertices|
      invariant forall v :: 0 <= v < vertexDistances.Length && vertexDistances[v] != -1 ==> v in bfsVertices[i..]
    {
      vertexDistances[bfsVertices[i]] := -1;
      i := i + 1;
    }
  }
}

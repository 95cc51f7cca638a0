/** The marker graph path of an oriented read between two ordinals: the edges joining each
    ordinal that has a vertex to the next such ordinal. The reasoning works on the read's
    vertex sequence: the vertex table entry of each of its markers, by ordinal. */
module OrientedReadPaths {
  import opened Common
  import opened Markers
  import opened MarkerIntervals
  import opened MarkerGraphEdges

  /** The vertex table entries of the markers of oriented read o, by ordinal. */
  function ReadVertices(markers: MarkerTable, vertexTable: seq<nat>, o: nat): (vs: seq<nat>)
    requires ValidVertexTable(markers, vertexTable) && o < |markers|
    ensures |vs| == |markers[o]|
    ensures forall i :: 0 <= i < |vs| ==> vs[i] == vertexTable[GetMarkerId(markers, o, i)]
  {
    seq(|markers[o]|, i requires 0 <= i < |markers[o]| => vertexTable[GetMarkerId(markers, o, i)])
  }

  /** The first ordinal in [from, end) whose marker has a vertex. */
  function FirstVertexOrdinal(vs: seq<nat>, from: nat, end: nat): (r: Option<nat>)
    requires end <= |vs|
    ensures r.Some? ==> from <= r.value < end && vs[r.value] != INVALID_COMPRESSED_VERTEX_ID
    ensures r.Some? ==> forall x :: from <= x < r.value ==> vs[x] == INVALID_COMPRESSED_VERTEX_ID
    ensures r.None? ==> forall x :: from <= x < end ==> vs[x] == INVALID_COMPRESSED_VERTEX_ID
    decreases end - from
  {
    if end <= from then None
    else if vs[from] != INVALID_COMPRESSED_VERTEX_ID then Some(from)
    else FirstVertexOrdinal(vs, from + 1, end)
  }

  /** The pair contributed by ordinal0: when it has a vertex, the next ordinal up to lastOrdinal
      that has one. */
  function PathPair(vs: seq<nat>, ordinal0: nat, lastOrdinal: nat): (r: Option<(nat, nat)>)
    requires ordinal0 < lastOrdinal < |vs|
    ensures r.Some? ==> r.value.0 == ordinal0 && ordinal0 < r.value.1 <= lastOrdinal
    ensures r.Some? ==> vs[ordinal0] != INVALID_COMPRESSED_VERTEX_ID && vs[r.value.1] != INVALID_COMPRESSED_VERTEX_ID
    ensures r.Some? ==> forall z :: ordinal0 < z < r.value.1 ==> vs[z] == INVALID_COMPRESSED_VERTEX_ID
    ensures r.None? && vs[ordinal0] != INVALID_COMPRESSED_VERTEX_ID ==>
      forall z :: ordinal0 < z <= lastOrdinal ==> vs[z] == INVALID_COMPRESSED_VERTEX_ID
  {
    if vs[ordinal0] == INVALID_COMPRESSED_VERTEX_ID then None
    else
      var next := FirstVertexOrdinal(vs, ordinal0 + 1, lastOrdinal + 1);
      if next.None? then None else Some((ordinal0, next.value))
  }

  /** The pairs (ordinal0, ordinal1) for ordinal0 in [firstOrdinal, end), in increasing order. */
  function PathOrdinals(vs: seq<nat>, firstOrdinal: nat, end: nat, lastOrdinal: nat): (r: seq<(nat, nat)>)
    requires firstOrdinal <= end <= lastOrdinal < |vs|
    ensures forall k :: 0 <= k < |r| ==> firstOrdinal <= r[k].0 < end && r[k].0 < r[k].1 <= lastOrdinal
    ensures forall k :: 0 <= k < |r| ==>
      vs[r[k].0] != INVALID_COMPRESSED_VERTEX_ID && vs[r[k].1] != INVALID_COMPRESSED_VERTEX_ID
    decreases end - firstOrdinal
  {
    if end == firstOrdinal then []
    else
      var previous := PathOrdinals(vs, firstOrdinal, end - 1, lastOrdinal);
      var pair := PathPair(vs, end - 1, lastOrdinal);
      if pair.None? then previous else previous + [pair.value]
  }

  /** The first edge among ids that ends at vertex v1. */
  function FirstEdgeTo(s: seq<Edge>, ids: seq<nat>, v1: nat): (r: Option<nat>)
    requires IdsIn(ids, |s|)
    ensures r.Some? ==> r.value in ids && s[r.value].target == v1
    ensures r.None? ==> forall k :: 0 <= k < |ids| ==> s[ids[k]].target != v1
  {
    if ids == [] then None
    else if s[ids[0]].target == v1 then Some(ids[0])
    else FirstEdgeTo(s, ids[1..], v1)
  }

  /** Every ordinal that has a vertex has one of the graph. */
  predicate VerticesInGraph(g: Adjacency, vs: seq<nat>)
  {
    forall i :: 0 <= i < |vs| && vs[i] != INVALID_COMPRESSED_VERTEX_ID ==> vs[i] < g.vertexCount
  }

  /** The edge the path takes for a pair: the first out-edge of the first vertex that reaches
      the second. */
  function PairEdge(g: Adjacency, s: seq<Edge>, vs: seq<nat>, pair: (nat, nat)): Option<nat>
    requires WellFormed(g, |s|) && pair.0 < |vs| && pair.1 < |vs| && vs[pair.0] < g.vertexCount
  {
    FirstEdgeTo(s, g.edgesBySource[vs[pair.0]], vs[pair.1])
  }

  /** The path for the ordinals below `end`: the edges and pairs so far, or Failure once a pair
      has no edge. */
  function PathUpTo(g: Adjacency, s: seq<Edge>, vs: seq<nat>, firstOrdinal: nat, end: nat, lastOrdinal: nat)
    : (r: Result<(seq<nat>, seq<(nat, nat)>)>)
    requires WellFormed(g, |s|) && VerticesInGraph(g, vs) && firstOrdinal <= end <= lastOrdinal < |vs|
    decreases end - firstOrdinal
  {
    if end == firstOrdinal then Success(([], []))
    else
      var previous := PathUpTo(g, s, vs, firstOrdinal, end - 1, lastOrdinal);
      var pair := PathPair(vs, end - 1, lastOrdinal);
      if previous.Failure? || pair.None? then previous
      else
        var edge := PairEdge(g, s, vs, pair.value);
        if edge.None? then Failure
        else Success((previous.value.0 + [edge.value], previous.value.1 + [pair.value]))
  }

  /** Scan the out-edges of vertexId0 for one that reaches vertexId1. */
  method LocateEdge(edges: array<Edge>, outEdges0: seq<nat>, vertexId1: nat) returns (r: Option<nat>)
    requires IdsIn(outEdges0, edges.Length)
    ensures r == FirstEdgeTo(edges[..], outEdges0, vertexId1)
  {
    var k := 0;
    while k < |outEdges0|
      invariant 0 <= k <= |outEdges0|
      invariant FirstEdgeTo(edges[..], outEdges0[k..], vertexId1) == FirstEdgeTo(edges[..], outEdges0, vertexId1)
    {
      assert outEdges0[k..][1..] == outEdges0[k + 1..];
      if edges[outEdges0[k]].target == vertexId1 {
        return Some(outEdges0[k]);
      }
      k := k + 1;
    }
    return None;
  }

  /** The ordinal scan of the inner loop: the first ordinal from `from` through lastOrdinal
      that has a vertex. */
  method ScanToVertexUpTo(markers: MarkerTable, vertexTable: seq<nat>, o: nat, from: nat, lastOrdinal: nat)
    returns (next: Option<nat>)
    requires ValidVertexTable(markers, vertexTable) && o < |markers| && lastOrdinal < |markers[o]|
    ensures next == FirstVertexOrdinal(ReadVertices(markers, vertexTable, o), from, lastOrdinal + 1)
  {
    ghost var vs := ReadVertices(markers, vertexTable, o);
    var ordinal1 := from;
    while ordinal1 <= lastOrdinal
      invariant from <= ordinal1
      invariant FirstVertexOrdinal(vs, ordinal1, lastOrdinal + 1) == FirstVertexOrdinal(vs, from, lastOrdinal + 1)
      decreases lastOrdinal + 1 - ordinal1
    {
      if vertexTable[GetMarkerId(markers, o, ordinal1)] != INVALID_COMPRESSED_VERTEX_ID {
        return Some(ordinal1);
      }
      ordinal1 := ordinal1 + 1;
    }
    return None;
  }

  /** computeOrientedReadMarkerGraphPath: for each ordinal0 in [firstOrdinal, lastOrdinal) that
      has a vertex, scan for the next ordinal that has one, then for the edge joining the two
      vertices. Where the source asserts because that edge is missing, the model fails. */
  method ComputeOrientedReadMarkerGraphPath(g: Adjacency, edges: array<Edge>, markers: MarkerTable,
      vertexTable: seq<nat>, o: nat, firstOrdinal: nat, lastOrdinal: nat)
    returns (r: Result<(seq<nat>, seq<(nat, nat)>)>)
    requires WellFormed(g, edges.Length) && ValidVertexTable(markers, vertexTable) && o < |markers|
    requires VerticesInGraph(g, ReadVertices(markers, vertexTable, o))
    requires firstOrdinal <= lastOrdinal < |markers[o]|
    ensures r == PathUpTo(g, edges[..], ReadVertices(markers, vertexTable, o), firstOrdinal, lastOrdinal, lastOrdinal)
  {
    ghost var vs := ReadVertices(markers, vertexTable, o);
    var path: seq<nat> := [];
    var pathOrdinals: seq<(nat, nat)> := [];
    if lastOrdinal == firstOrdinal {
      return Success((path, pathOrdinals));
    }
    var ordinal0 := firstOrdinal;
    while ordinal0 < lastOrdinal
      invariant firstOrdinal <= ordinal0 <= lastOrdinal
      invariant PathUpTo(g, edges[..], vs, firstOrdinal, ordinal0, lastOrdinal) == Success((path, pathOrdinals))
    {
      var step := ExtendPath(g, edges, markers, vertexTable, o, firstOrdinal, ordinal0, lastOrdinal, path, pathOrdinals);
      if step.Failure? {
        PathUpToFailureStays(g, edges[..], vs, firstOrdinal, ordinal0 + 1, lastOrdinal, lastOrdinal);
        return Failure;
      }
      path, pathOrdinals := step.value.0, step.value.1;
      ordinal0 := ordinal0 + 1;
    }
    return Success((path, pathOrdinals));
  }

  /** One iteration of the outer loop of computeOrientedReadMarkerGraphPath: the pair that
      ordinal0 contributes, if any, and its edge. */
  method ExtendPath(g: Adjacency, edges: array<Edge>, markers: MarkerTable, vertexTable: seq<nat>, o: nat,
      firstOrdinal: nat, ordinal0: nat, lastOrdinal: nat, path: seq<nat>, pathOrdinals: seq<(nat, nat)>)
    returns (r: Result<(seq<nat>, seq<(nat, nat)>)>)
    requires WellFormed(g, edges.Length) && ValidVertexTable(markers, vertexTable) && o < |markers|
    requires VerticesInGraph(g, ReadVertices(markers, vertexTable, o))
    requires firstOrdinal <= ordinal0 < lastOrdinal < |markers[o]|
    requires PathUpTo(g, edges[..], ReadVertices(markers, vertexTable, o), firstOrdinal, ordinal0, lastOrdinal)
      == Success((path, pathOrdinals))
    ensures r == PathUpTo(g, edges[..], ReadVertices(markers, vertexTable, o), firstOrdinal, ordinal0 + 1, lastOrdinal)
  {
    ghost var vs := ReadVertices(markers, vertexTable, o);
    var vertexId0 := vertexTable[GetMarkerId(markers, o, ordinal0)];
    assert vertexId0 == vs[ordinal0];
    if vertexId0 == INVALID_COMPRESSED_VERTEX_ID {
      return Success((path, pathOrdinals));
    }
    var next := ScanToVertexUpTo(markers, vertexTable, o, ordinal0 + 1, lastOrdinal);
    if next.None? {
      return Success((path, pathOrdinals));
    }
    var ordinal1 := next.value;
    assert PathPair(vs, ordinal0, lastOrdinal) == Some((ordinal0, ordinal1));
    var vertexId1 := vertexTable[GetMarkerId(markers, o, ordinal1)];
    assert vertexId1 == vs[ordinal1];
    var found := LocateEdge(edges, g.edgesBySource[vertexId0], vertexId1);
    if found.None? {
      return Failure;
    }
    return Success((path + [found.value], pathOrdinals + [(ordinal0, ordinal1)]));
  }

  /** Once a pair has no edge, the path fails for every later end. */
  lemma {:induction false} PathUpToFailureStays(g: Adjacency, s: seq<Edge>, vs: seq<nat>,
      firstOrdinal: nat, end: nat, end1: nat, lastOrdinal: nat)
    requires WellFormed(g, |s|) && VerticesInGraph(g, vs) && firstOrdinal <= end <= end1 <= lastOrdinal < |vs|
    requires PathUpTo(g, s, vs, firstOrdinal, end, lastOrdinal).Failure?
    ensures PathUpTo(g, s, vs, firstOrdinal, end1, lastOrdinal).Failure?
    decreases end1 - end
  {
    if end < end1 {
      PathUpToFailureStays(g, s, vs, firstOrdinal, end, end1 - 1, lastOrdinal);
    }
  }

  /** What the computed path is on success: the pairs are PathOrdinals and each edge is the
      first out-edge of the pair's first vertex that reaches its second. */
  lemma {:induction false} PathUpToSuccess(g: Adjacency, s: seq<Edge>, vs: seq<nat>,
      firstOrdinal: nat, end: nat, lastOrdinal: nat)
    requires WellFormed(g, |s|) && VerticesInGraph(g, vs) && firstOrdinal <= end <= lastOrdinal < |vs|
    requires PathUpTo(g, s, vs, firstOrdinal, end, lastOrdinal).Success?
    ensures var r := PathUpTo(g, s, vs, firstOrdinal, end, lastOrdinal);
      var pathOrdinals := PathOrdinals(vs, firstOrdinal, end, lastOrdinal);
      r.value.1 == pathOrdinals && |r.value.0| == |pathOrdinals|
      && forall k :: 0 <= k < |pathOrdinals| ==> PairEdge(g, s, vs, pathOrdinals[k]) == Some(r.value.0[k])
    decreases end - firstOrdinal
  {
    if end > firstOrdinal {
      PathUpToSuccess(g, s, vs, firstOrdinal, end - 1, lastOrdinal);
    }
  }

  /** A failed path has a pair with no edge. */
  lemma {:induction false} PathUpToFailureWitness(g: Adjacency, s: seq<Edge>, vs: seq<nat>,
      firstOrdinal: nat, end: nat, lastOrdinal: nat)
    requires WellFormed(g, |s|) && VerticesInGraph(g, vs) && firstOrdinal <= end <= lastOrdinal < |vs|
    requires PathUpTo(g, s, vs, firstOrdinal, end, lastOrdinal).Failure?
    ensures exists k :: 0 <= k < |PathOrdinals(vs, firstOrdinal, end, lastOrdinal)|
                        && PairEdge(g, s, vs, PathOrdinals(vs, firstOrdinal, end, lastOrdinal)[k]).None?
    decreases end - firstOrdinal
  {
    assert end > firstOrdinal;
    var previous := PathOrdinals(vs, firstOrdinal, end - 1, lastOrdinal);
    var pathOrdinals := PathOrdinals(vs, firstOrdinal, end, lastOrdinal);
    var pair := PathPair(vs, end - 1, lastOrdinal);
    if PathUpTo(g, s, vs, firstOrdinal, end - 1, lastOrdinal).Failure? {
      PathUpToFailureWitness(g, s, vs, firstOrdinal, end - 1, lastOrdinal);
      var k :| 0 <= k < |previous| && PairEdge(g, s, vs, previous[k]).None?;
      if pair.Some? {
        assert pathOrdinals == previous + [pair.value];
      } else {
        assert pathOrdinals == previous;
      }
      assert pathOrdinals[k] == previous[k];
      assert 0 <= k < |pathOrdinals| && PairEdge(g, s, vs, pathOrdinals[k]).None?;
    } else {
      assert pair.Some? && PairEdge(g, s, vs, pair.value).None?;
      assert pathOrdinals == previous + [pair.value];
      assert pathOrdinals[|previous|] == pair.value;
    }
  }

  /** The path fails exactly when some pair of PathOrdinals has no edge. */
  lemma PathUpToFailure(g: Adjacency, s: seq<Edge>, vs: seq<nat>, firstOrdinal: nat, end: nat, lastOrdinal: nat)
    requires WellFormed(g, |s|) && VerticesInGraph(g, vs) && firstOrdinal <= end <= lastOrdinal < |vs|
    ensures var pathOrdinals := PathOrdinals(vs, firstOrdinal, end, lastOrdinal);
      PathUpTo(g, s, vs, firstOrdinal, end, lastOrdinal).Failure?
      <==> exists k :: 0 <= k < |pathOrdinals| && PairEdge(g, s, vs, pathOrdinals[k]).None?
  {
    if PathUpTo(g, s, vs, firstOrdinal, end, lastOrdinal).Failure? {
      PathUpToFailureWitness(g, s, vs, firstOrdinal, end, lastOrdinal);
    } else {
      PathUpToSuccess(g, s, vs, firstOrdinal, end, lastOrdinal);
    }
  }

  /** The step of the chain argument: if the pair of x ends at y, and ordinal w after x starts a
      pair while no ordinal strictly between x and w does, then y is w. */
  lemma ChainStep(vs: seq<nat>, x: nat, y: nat, w: nat, lastOrdinal: nat)
    requires x < w < lastOrdinal < |vs|
    requires PathPair(vs, x, lastOrdinal) == Some((x, y))
    requires PathPair(vs, w, lastOrdinal).Some?
    requires forall z :: x < z < w ==> PathPair(vs, z, lastOrdinal).None?
    ensures y == w
  {
    assert vs[w] != INVALID_COMPRESSED_VERTEX_ID;
    assert y < w ==> PathPair(vs, y, lastOrdinal).None?;
  }

  /** The last pair is the one its start contributes, and no ordinal after that start, below
      `end`, starts a pair. */
  lemma {:induction false} PathOrdinalsLast(vs: seq<nat>, firstOrdinal: nat, end: nat, lastOrdinal: nat)
    requires firstOrdinal <= end <= lastOrdinal < |vs|
    requires |PathOrdinals(vs, firstOrdinal, end, lastOrdinal)| > 0
    ensures var p := PathOrdinals(vs, firstOrdinal, end, lastOrdinal);
      PathPair(vs, p[|p| - 1].0, lastOrdinal) == Some(p[|p| - 1])
    ensures var p := PathOrdinals(vs, firstOrdinal, end, lastOrdinal);
      forall z :: p[|p| - 1].0 < z < end ==> PathPair(vs, z, lastOrdinal).None?
    decreases end - firstOrdinal
  {
    var pair := PathPair(vs, end - 1, lastOrdinal);
    if pair.None? {
      PathOrdinalsLast(vs, firstOrdinal, end - 1, lastOrdinal);
    }
  }

  /** Pairs that chain stay chained when a pair starting where the last one ends is appended. */
  lemma ChainedAppend(p: seq<(nat, nat)>, x: (nat, nat))
    requires forall k :: 0 <= k < |p| - 1 ==> p[k].1 == p[k + 1].0
    requires |p| > 0 ==> p[|p| - 1].1 == x.0
    ensures var q := p + [x]; forall k :: 0 <= k < |q| - 1 ==> q[k].1 == q[k + 1].0
  {
    var q := p + [x];
    forall k | 0 <= k < |q| - 1
      ensures q[k].1 == q[k + 1].0
    {
      if k < |p| - 1 {
        assert q[k] == p[k] && q[k + 1] == p[k + 1];
      }
    }
  }

  /** Consecutive pairs share an ordinal: the second ordinal of each pair is the first ordinal
      of the next, so the pairs walk the read from one vertex to the next. */
  lemma {:induction false} PathOrdinalsChain(vs: seq<nat>, firstOrdinal: nat, end: nat, lastOrdinal: nat)
    requires firstOrdinal <= end <= lastOrdinal < |vs|
    ensures var p := PathOrdinals(vs, firstOrdinal, end, lastOrdinal);
      forall k :: 0 <= k < |p| - 1 ==> p[k].1 == p[k + 1].0
    decreases end - firstOrdinal
  {
    if end > firstOrdinal {
      var p := PathOrdinals(vs, firstOrdinal, end - 1, lastOrdinal);
      PathOrdinalsChain(vs, firstOrdinal, end - 1, lastOrdinal);
      var pair := PathPair(vs, end - 1, lastOrdinal);
      if pair.Some? {
        if |p| > 0 {
          PathOrdinalsLast(vs, firstOrdinal, end - 1, lastOrdinal);
          ChainStep(vs, p[|p| - 1].0, p[|p| - 1].1, end - 1, lastOrdinal);
        }
        ChainedAppend(p, pair.value);
      }
    }
  }

  /** A computed path is contiguous: each edge ends at the vertex where the next one starts. */
  lemma PathIsContiguous(g: Adjacency, s: seq<Edge>, vs: seq<nat>, firstOrdinal: nat, lastOrdinal: nat)
    requires ValidGraph(g, s) && VerticesInGraph(g, vs) && firstOrdinal <= lastOrdinal < |vs|
    requires PathUpTo(g, s, vs, firstOrdinal, lastOrdinal, lastOrdinal).Success?
    ensures var path := PathUpTo(g, s, vs, firstOrdinal, lastOrdinal, lastOrdinal).value.0;
      (forall k :: 0 <= k < |path| ==> path[k] < |s|)
      && forall k :: 0 <= k < |path| - 1 ==> s[path[k]].target == s[path[k + 1]].source
  {
    var path := PathUpTo(g, s, vs, firstOrdinal, lastOrdinal, lastOrdinal).value.0;
    var p := PathOrdinals(vs, firstOrdinal, lastOrdinal, lastOrdinal);
    PathUpToSuccess(g, s, vs, firstOrdinal, lastOrdinal, lastOrdinal);
    PathOrdinalsChain(vs, firstOrdinal, lastOrdinal, lastOrdinal);
    forall k | 0 <= k < |path| - 1
      ensures s[path[k]].target == s[path[k + 1]].source
    {
      assert p[k].1 == p[k + 1].0;
      assert PairEdge(g, s, vs, p[k + 1]) == Some(path[k + 1]);
      SourceIndex(g, s, vs[p[k + 1].0], path[k + 1]);
    }
  }
}

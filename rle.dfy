/** Run-length sequence of marker intervals and of marker graph paths
    (getMarkerIntervalRleSequence, assembleMarkerGraphPathRleStrict). An interval's two markers
    either overlap, by a number of run-length bases, or are separated by the bases of the read
    between them. A path is assembled from the k-mer of its first vertex followed, edge by
    edge, by the edge's sequence and the k-mer of the edge's target, less any overlap. */
module RleAssembly {
  import opened Common
  import opened Markers
  import opened MarkerGraphEdges

  /** A base of a run-length read. */
  datatype Base = A | C | G | T

  /** What assembly reads besides the graph: the marker length k, the markers of each oriented
      read, the run-length bases of each oriented read (both by OrientedReadId value), and the
      bases of each k-mer, by KmerId. */
  datatype SequenceData = SequenceData(k: nat, markers: MarkerTable, readBases: seq<seq<Base>>,
    kmerBases: seq<seq<Base>>)

  /** The interval names two existing markers of its oriented read, whose uint32 positions lie
      within the read. */
  predicate IntervalInRead(data: SequenceData, interval: MarkerInterval)
  {
    var o := interval.orientedReadId.Value();
    o < |data.markers| && o < |data.readBases|
    && interval.ordinal0 < |data.markers[o]| && interval.ordinal1 < |data.markers[o]|
    && data.markers[o][interval.ordinal0].position < TWO_TO_32
    && data.markers[o][interval.ordinal1].position < TWO_TO_32
    && data.markers[o][interval.ordinal1].position <= |data.readBases[o]|
  }

  /** The overlap of an interval's two markers, in run-length bases, and the bases between them. */
  datatype IntervalSequence = IntervalSequence(overlappingRleBaseCount: nat, rleSequence: seq<Base>)

  /** The sequence an interval implies: with positions p0 and p1 of its markers, an overlap of
      p0 + k - p1 bases when p1 < p0 + k, otherwise no overlap and the read's bases from p0 + k
      up to p1. */
  function IntervalRle(data: SequenceData, interval: MarkerInterval): IntervalSequence
    requires IntervalInRead(data, interval)
  {
    var o := interval.orientedReadId.Value();
    var p0 := data.markers[o][interval.ordinal0].position;
    var p1 := data.markers[o][interval.ordinal1].position;
    if p1 < p0 + data.k then IntervalSequence(p0 + data.k - p1, [])
    else IntervalSequence(0, data.readBases[o][p0 + data.k..p1])
  }

  /** getMarkerIntervalRleSequence. The copy loop runs a uint32 position from p0 + k, which
      cannot wrap when the markers do not overlap, because then p0 + k <= p1 < 2^32. */
  method GetMarkerIntervalRleSequence(data: SequenceData, interval: MarkerInterval)
    returns (overlappingRleBaseCount: nat, rleSequence: seq<Base>)
    requires IntervalInRead(data, interval)
    ensures IntervalSequence(overlappingRleBaseCount, rleSequence) == IntervalRle(data, interval)
    ensures var o := interval.orientedReadId.Value();
      var p0 := data.markers[o][interval.ordinal0].position;
      var p1 := data.markers[o][interval.ordinal1].position;
      (p1 < p0 + data.k ==> overlappingRleBaseCount == p0 + data.k - p1 && rleSequence == [])
      && (p0 + data.k <= p1 ==>
          (overlappingRleBaseCount == 0 && |rleSequence| == p1 - p0 - data.k
           && forall i :: 0 <= i < |rleSequence| ==> rleSequence[i] == data.readBases[o][p0 + data.k + i]))
  {
    var o := interval.orientedReadId.Value();
    var position0 := data.markers[o][interval.ordinal0].position;
    var position1 := data.markers[o][interval.ordinal1].position;
    rleSequence := [];
    if position1 < position0 + data.k {
      overlappingRleBaseCount := position0 + data.k - position1;
    } else {
      overlappingRleBaseCount := 0;
      var position := (position0 + data.k % TWO_TO_32) % TWO_TO_32;
      assert position == position0 + data.k;
      while position < position1
        invariant position0 + data.k <= position <= position1
        invariant rleSequence == data.readBases[o][position0 + data.k..position]
      {
        rleSequence := rleSequence + [data.readBases[o][position]];
        position := position + 1;
      }
    }
  }

  // ----- Assembling a path -----

  /** kmerId of the marker with a global marker id. */
  function MarkerKmerId(markers: MarkerTable, markerId: nat): nat
    requires markerId < TotalSize(markers)
  {
    var location := FindMarkerId(markers, markerId);
    markers[location.orientedReadValue][location.ordinal].kmerId
  }

  /** Vertex v has a first marker, whose k-mer's bases are known and k long. */
  predicate VertexKmerKnown(data: SequenceData, vertexMarkerIds: seq<seq<nat>>, v: nat)
  {
    v < |vertexMarkerIds| && |vertexMarkerIds[v]| > 0 && vertexMarkerIds[v][0] < TotalSize(data.markers)
    && MarkerKmerId(data.markers, vertexMarkerIds[v][0]) < |data.kmerBases|
    && |data.kmerBases[MarkerKmerId(data.markers, vertexMarkerIds[v][0])]| == data.k
  }

  /** The sequence of a vertex: the k-mer of its first marker. */
  function VertexKmer(data: SequenceData, vertexMarkerIds: seq<seq<nat>>, v: nat): (kmer: seq<Base>)
    requires VertexKmerKnown(data, vertexMarkerIds, v)
    ensures |kmer| == data.k
  {
    data.kmerBases[MarkerKmerId(data.markers, vertexMarkerIds[v][0])]
  }

  /** The parts of the marker graph that assembly reads: the edges, the marker intervals of
      each edge, and the marker ids of each vertex. */
  datatype PathGraph = PathGraph(edges: seq<Edge>, edgeMarkerIntervals: seq<seq<MarkerInterval>>,
    vertexMarkerIds: seq<seq<nat>>)

  /** All the intervals lie within their reads. */
  predicate AllInRead(data: SequenceData, intervals: seq<MarkerInterval>)
  {
    forall j :: 0 <= j < |intervals| ==> IntervalInRead(data, intervals[j])
  }

  /** Edge e exists, its two vertices have known k-mers, and all its marker intervals lie
      within their reads. */
  predicate EdgeInputsValid(data: SequenceData, g: PathGraph, e: nat)
  {
    e < |g.edges| && e < |g.edgeMarkerIntervals|
    && VertexKmerKnown(data, g.vertexMarkerIds, g.edges[e].source)
    && VertexKmerKnown(data, g.vertexMarkerIds, g.edges[e].target)
    && AllInRead(data, g.edgeMarkerIntervals[e])
  }

  /** Every edge of the path is valid input to assembly. */
  predicate PathInputsValid(data: SequenceData, g: PathGraph, path: seq<nat>)
  {
    forall i {:trigger EdgeInputsValid(data, g, path[i])} :: 0 <= i < |path| ==> EdgeInputsValid(data, g, path[i])
  }

  /** All the intervals of an edge imply the sequence of the first one. */
  predicate IntervalsAgree(data: SequenceData, intervals: seq<MarkerInterval>)
    requires |intervals| > 0 && AllInRead(data, intervals)
  {
    forall j :: 0 <= j < |intervals| ==> IntervalRle(data, intervals[j]) == IntervalRle(data, intervals[0])
  }

  /** One of the checks the strict assembly makes on edge i of the path fails: it does not
      start where the previous edge ends, it has no marker intervals, or they disagree. */
  predicate EdgeCheckFails(data: SequenceData, g: PathGraph, path: seq<nat>, i: nat)
    requires PathInputsValid(data, g, path) && i < |path|
  {
    assert EdgeInputsValid(data, g, path[i]);
    assert i > 0 ==> EdgeInputsValid(data, g, path[i - 1]);
    (i > 0 && g.edges[path[i]].source != g.edges[path[i - 1]].target)
    || |g.edgeMarkerIntervals[path[i]]| == 0
    || !IntervalsAgree(data, g.edgeMarkerIntervals[path[i]])
  }

  /** What an edge adds: with no overlap, its sequence and the whole k-mer of its target;
      otherwise the bases of the target's k-mer past the overlap. */
  function EdgeContribution(r: IntervalSequence, kmer1: seq<Base>): seq<Base>
  {
    if r.overlappingRleBaseCount == 0 then r.rleSequence + kmer1
    else if r.overlappingRleBaseCount < |kmer1| then kmer1[r.overlappingRleBaseCount..]
    else []
  }

  /** What edge i of the path adds to the assembly, or Failure when one of the checks on it fails. */
  function EdgeAppend(data: SequenceData, g: PathGraph, path: seq<nat>, i: nat): (r: Result<seq<Base>>)
    requires PathInputsValid(data, g, path) && i < |path|
    ensures r.Failure? <==> EdgeCheckFails(data, g, path, i)
  {
    assert EdgeInputsValid(data, g, path[i]);
    if EdgeCheckFails(data, g, path, i) then Failure
    else
      var e := path[i];
      Success(EdgeContribution(IntervalRle(data, g.edgeMarkerIntervals[e][0]),
        VertexKmer(data, g.vertexMarkerIds, g.edges[e].target)))
  }

  /** The k-mer of the first vertex of a non-empty path. */
  function FirstKmer(data: SequenceData, g: PathGraph, path: seq<nat>): (kmer: seq<Base>)
    requires PathInputsValid(data, g, path) && 0 < |path|
    ensures |kmer| == data.k
  {
    assert EdgeInputsValid(data, g, path[0]);
    VertexKmer(data, g.vertexMarkerIds, g.edges[path[0]].source)
  }

  /** The assembly of the first n edges of a non-empty path. */
  function AssembledUpTo(data: SequenceData, g: PathGraph, path: seq<nat>, n: nat): Result<seq<Base>>
    requires PathInputsValid(data, g, path) && 0 < |path| && n <= |path|
  {
    if n == 0 then Success(FirstKmer(data, g, path))
    else
      var previous := AssembledUpTo(data, g, path, n - 1);
      var step := EdgeAppend(data, g, path, n - 1);
      if previous.Failure? || step.Failure? then Failure else Success(previous.value + step.value)
  }

  /** The run-length sequence of a path: empty for an empty path. */
  function AssembledRle(data: SequenceData, g: PathGraph, path: seq<nat>): Result<seq<Base>>
    requires PathInputsValid(data, g, path)
  {
    if |path| == 0 then Success([]) else AssembledUpTo(data, g, path, |path|)
  }

  lemma {:induction false} AssembledFailureStays(data: SequenceData, g: PathGraph, path: seq<nat>, n: nat, m: nat)
    requires PathInputsValid(data, g, path) && 0 < |path| && n <= m <= |path|
    requires AssembledUpTo(data, g, path, n).Failure?
    ensures AssembledUpTo(data, g, path, m).Failure?
    decreases m - n
  {
    if n < m {
      AssembledFailureStays(data, g, path, n, m - 1);
    }
  }

  /** Assembly only appends: a successful assembly of n edges extends that of any m <= n edges,
      which starts with the k-mer of the first vertex. */
  lemma {:induction false} AssembledPrefix(data: SequenceData, g: PathGraph, path: seq<nat>, m: nat, n: nat)
    requires PathInputsValid(data, g, path) && 0 < |path| && m <= n <= |path|
    requires AssembledUpTo(data, g, path, n).Success?
    ensures AssembledUpTo(data, g, path, m).Success?
    ensures AssembledUpTo(data, g, path, m).value
      <= AssembledUpTo(data, g, path, n).value
    ensures FirstKmer(data, g, path)
      <= AssembledUpTo(data, g, path, n).value
    decreases n
  {
    if 0 < n {
      AssembledStep(data, g, path, n);
      if m < n {
        AssembledPrefix(data, g, path, m, n - 1);
      } else {
        AssembledPrefix(data, g, path, 0, n - 1);
      }
    }
  }

  /** One edge more only appends to a successful assembly. */
  lemma AssembledStep(data: SequenceData, g: PathGraph, path: seq<nat>, n: nat)
    requires PathInputsValid(data, g, path) && 0 < n <= |path|
    requires AssembledUpTo(data, g, path, n).Success?
    ensures AssembledUpTo(data, g, path, n - 1).Success?
    ensures AssembledUpTo(data, g, path, n - 1).value <= AssembledUpTo(data, g, path, n).value
  {
  }

  /** The strict assembly fails exactly when one of its checks fails on some edge of the path. */
  lemma {:induction false} AssembledFailure(data: SequenceData, g: PathGraph, path: seq<nat>, n: nat)
    requires PathInputsValid(data, g, path) && 0 < |path| && n <= |path|
    ensures AssembledUpTo(data, g, path, n).Failure?
      <==> exists i :: 0 <= i < n && EdgeCheckFails(data, g, path, i)
  {
    if n > 0 {
      AssembledFailure(data, g, path, n - 1);
      if exists i :: 0 <= i < n && EdgeCheckFails(data, g, path, i) {
        var i :| 0 <= i < n && EdgeCheckFails(data, g, path, i);
        if i < n - 1 {
          assert AssembledUpTo(data, g, path, n - 1).Failure?;
        }
      }
    }
  }

  /** Append kmer[from..] one base at a time. */
  method AppendKmer(rleSequence: seq<Base>, kmer: seq<Base>, from: nat) returns (r: seq<Base>)
    requires from <= |kmer|
    ensures r == rleSequence + kmer[from..]
  {
    r := rleSequence;
    var i := from;
    while i < |kmer|
      invariant from <= i <= |kmer|
      invariant r == rleSequence + kmer[from..i]
    {
      r := r + [kmer[i]];
      i := i + 1;
    }
  }

  /** Check that all the marker intervals of an edge imply the sequence of the first one. */
  method CheckIntervalsAgree(data: SequenceData, markerIntervals: seq<MarkerInterval>,
      overlappingRleBaseCount: nat, edgeRleSequence: seq<Base>) returns (agree: bool)
    requires |markerIntervals| > 0 && AllInRead(data, markerIntervals)
    requires IntervalSequence(overlappingRleBaseCount, edgeRleSequence) == IntervalRle(data, markerIntervals[0])
    ensures agree <==> IntervalsAgree(data, markerIntervals)
  {
    var j := 0;
    while j < |markerIntervals|
      invariant 0 <= j <= |markerIntervals|
      invariant forall jj :: 0 <= jj < j ==> IntervalRle(data, markerIntervals[jj]) == IntervalRle(data, markerIntervals[0])
    {
      var count, sequence := GetMarkerIntervalRleSequence(data, markerIntervals[j]);
      if count != overlappingRleBaseCount || sequence != edgeRleSequence {
        return false;
      }
      j := j + 1;
    }
    return true;
  }

  /** The vertex the assembly of the first n edges of a non-empty path ends at. */
  function ReachedVertex(data: SequenceData, g: PathGraph, path: seq<nat>, n: nat): nat
    requires PathInputsValid(data, g, path) && 0 < |path| && n <= |path|
  {
    assert EdgeInputsValid(data, g, path[if n == 0 then 0 else n - 1]);
    if n == 0 then g.edges[path[0]].source else g.edges[path[n - 1]].target
  }

  /** One iteration of the strict assembly: check edge n of the path against the vertex v0
      reached so far and against its own marker intervals, then append what it adds. */
  method AppendEdge(data: SequenceData, g: PathGraph, path: seq<nat>, n: nat, v0: nat, rleSequence: seq<Base>)
    returns (agree: bool, extended: seq<Base>)
    requires PathInputsValid(data, g, path) && n < |path|
    requires v0 == ReachedVertex(data, g, path, n)
    ensures agree <==> EdgeAppend(data, g, path, n).Success?
    ensures agree ==> extended == rleSequence + EdgeAppend(data, g, path, n).value
  {
    var edgeId := path[n];
    assert EdgeInputsValid(data, g, edgeId);
    var edge := g.edges[edgeId];
    var markerIntervals := g.edgeMarkerIntervals[edgeId];
    agree := false;
    extended := rleSequence;
    if edge.source == v0 && |markerIntervals| > 0 {
      var overlappingRleBaseCount, edgeRleSequence := GetMarkerIntervalRleSequence(data, markerIntervals[0]);
      agree := CheckIntervalsAgree(data, markerIntervals, overlappingRleBaseCount, edgeRleSequence);
      if agree {
        var v1 := edge.target;
        var kmer1 := data.kmerBases[MarkerKmerId(data.markers, g.vertexMarkerIds[v1][0])];
        if overlappingRleBaseCount == 0 {
          extended := AppendKmer(rleSequence + edgeRleSequence, kmer1, 0);
        } else {
          extended := AppendKmer(rleSequence, kmer1,
            if overlappingRleBaseCount < |kmer1| then overlappingRleBaseCount else |kmer1|);
        }
      }
    }
  }

  /** One more edge: the assembly so far extended by what edge n appends, or a failure, and the
      vertex reached is the edge's target. */
  lemma AssembledNext(data: SequenceData, g: PathGraph, path: seq<nat>, n: nat)
    requires PathInputsValid(data, g, path) && n < |path|
    ensures AssembledUpTo(data, g, path, n).Success? && EdgeAppend(data, g, path, n).Success? ==>
      AssembledUpTo(data, g, path, n + 1)
        == Success(AssembledUpTo(data, g, path, n).value + EdgeAppend(data, g, path, n).value)
    ensures EdgeAppend(data, g, path, n).Failure? ==> AssembledUpTo(data, g, path, n + 1).Failure?
    ensures path[n] < |g.edges| && ReachedVertex(data, g, path, n + 1) == g.edges[path[n]].target
  {
    assert EdgeInputsValid(data, g, path[n]);
  }

  /** assembleMarkerGraphPathRleStrict, with its consistency checks as the Failure result. */
  method AssembleMarkerGraphPathRleStrict(data: SequenceData, g: PathGraph, path: seq<nat>)
    returns (r: Result<seq<Base>>)
    requires PathInputsValid(data, g, path)
    ensures r == AssembledRle(data, g, path)
  {
    if |path| == 0 {
      return Success([]);
    }
    assert EdgeInputsValid(data, g, path[0]);
    var v0 := g.edges[path[0]].source;
    var firstKmer := data.kmerBases[MarkerKmerId(data.markers, g.vertexMarkerIds[v0][0])];
    var rleSequence := AppendKmer([], firstKmer, 0);
    assert rleSequence == firstKmer;
    var n := 0;
    while n < |path|
      invariant 0 <= n <= |path|
      invariant AssembledUpTo(data, g, path, n) == Success(rleSequence)
      invariant v0 == ReachedVertex(data, g, path, n)
    {
      var agree;
      agree, rleSequence := AppendEdge(data, g, path, n, v0, rleSequence);
      AssembledNext(data, g, path, n);
      if !agree {
        AssembledFailureStays(data, g, path, n + 1, |path|);
        return Failure;
      }
      v0 := g.edges[path[n]].target;
      n := n + 1;
    }
    r := Success(rleSequence);
  }
}

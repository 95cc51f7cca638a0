/** Transitive reduction and reverse transitive reduction of the marker graph. Both gather
    the candidate edges (one of each reverse complement pair) by coverage, then flag
    wasRemovedByTransitiveReduction on whole reverse complement pairs: transitive reduction
    flags every low-coverage edge, the coverage-1 edges that skip too many markers, and each
    intermediate-coverage edge A->B for which a bounded search finds another path A->...->B;
    reverse transitive reduction flags an intermediate-coverage edge A->B when the search
    finds a path B->...->A. Edges at or above the high coverage threshold are never flagged. */
module TransitiveReductions {
  import opened Common
  import opened Markers
  import opened MarkerGraphEdges
  import opened BoundedSearch

  /** reverseComplementEdge pairs edges of equal coverage, and is its own inverse. */
  predicate RcPaired(g: Adjacency, s: seq<Edge>)
    requires WellFormed(g, |s|)
  {
    forall e :: 0 <= e < |s| ==>
      g.reverseComplementEdge[g.reverseComplementEdge[e]] == e && s[g.reverseComplementEdge[e]].coverage == s[e].coverage
  }

  /** An edge and its reverse complement are either both removed or both kept. */
  predicate FlaggedInPairs(g: Adjacency, s: seq<Edge>)
    requires WellFormed(g, |s|)
  {
    forall e :: 0 <= e < |s| ==>
      s[e].wasRemovedByTransitiveReduction == s[g.reverseComplementEdge[e]].wasRemovedByTransitiveReduction
  }

  /** b differs from a at most by wasRemovedByTransitiveReduction going from false to true. */
  predicate OnlyReductionFlagsSet(a: seq<Edge>, b: seq<Edge>)
  {
    |a| == |b|
    && forall e :: 0 <= e < |a| ==>
      b[e] == a[e].(wasRemovedByTransitiveReduction := b[e].wasRemovedByTransitiveReduction)
      && (a[e].wasRemovedByTransitiveReduction ==> b[e].wasRemovedByTransitiveReduction)
  }

  /** Edges with coverage at most low or at least high are untouched. */
  predicate UnchangedOutside(a: seq<Edge>, b: seq<Edge>, low: nat, high: nat)
    requires |a| == |b|
  {
    forall e :: 0 <= e < |a| && (a[e].coverage <= low || a[e].coverage >= high) ==> b[e] == a[e]
  }

  lemma OnlyReductionFlagsSetTopology(a: seq<Edge>, b: seq<Edge>)
    requires OnlyReductionFlagsSet(a, b)
    ensures SameTopology(a, b)
  {
    forall e | 0 <= e < |a|
      ensures a[e].source == b[e].source && a[e].target == b[e].target && a[e].coverage == b[e].coverage
    {
      assert b[e] == a[e].(wasRemovedByTransitiveReduction := b[e].wasRemovedByTransitiveReduction);
    }
  }

  /** Two rounds of flag setting compose into one. */
  lemma ReductionStepsCompose(a: seq<Edge>, b: seq<Edge>, c: seq<Edge>, low: nat, high: nat, low2: nat, high2: nat)
    requires OnlyReductionFlagsSet(a, b) && OnlyReductionFlagsSet(b, c)
    requires UnchangedOutside(a, b, low, high) && UnchangedOutside(b, c, low2, high2)
    requires low2 >= low && high2 <= high
    ensures OnlyReductionFlagsSet(a, c) && UnchangedOutside(a, c, low, high)
  {
    OnlyReductionFlagsSetTopology(a, b);
  }

  lemma UnchangedOutsideWeaken(a: seq<Edge>, b: seq<Edge>, low: nat, high: nat, low2: nat, high2: nat)
    requires |a| == |b| && UnchangedOutside(a, b, low, high)
    requires low2 <= low && high <= high2
    ensures UnchangedOutside(a, b, low2, high2)
  {
  }

  // ----- Flagging a reverse complement pair -----

  /** s with edge e and its reverse complement flagged as removed by transitive reduction. */
  function WithPairFlagged(g: Adjacency, s: seq<Edge>, e: nat): (r: seq<Edge>)
    requires WellFormed(g, |s|) && e < |s|
    ensures |r| == |s|
  {
    seq(|s|, x requires 0 <= x < |s| =>
      if x == e || x == g.reverseComplementEdge[e] then s[x].(wasRemovedByTransitiveReduction := true) else s[x])
  }

  /** Flagging a pair only sets flags, keeps the pairing of flags, and touches only edges of
      the pair's own coverage. */
  lemma PairFlaggedMeaning(g: Adjacency, s: seq<Edge>, e: nat, low: nat, high: nat)
    requires WellFormed(g, |s|) && RcPaired(g, s) && e < |s|
    ensures OnlyReductionFlagsSet(s, WithPairFlagged(g, s, e))
    ensures WithPairFlagged(g, s, e)[e].wasRemovedByTransitiveReduction
    ensures WithPairFlagged(g, s, e)[g.reverseComplementEdge[e]].wasRemovedByTransitiveReduction
    ensures SameTopology(s, WithPairFlagged(g, s, e)) && RcPaired(g, WithPairFlagged(g, s, e))
    ensures FlaggedInPairs(g, s) ==> FlaggedInPairs(g, WithPairFlagged(g, s, e))
    ensures low < s[e].coverage < high ==> UnchangedOutside(s, WithPairFlagged(g, s, e), low, high)
  {
    var r := WithPairFlagged(g, s, e);
    OnlyReductionFlagsSetTopology(s, r);
    if FlaggedInPairs(g, s) {
      forall x | 0 <= x < |s|
        ensures r[x].wasRemovedByTransitiveReduction == r[g.reverseComplementEdge[x]].wasRemovedByTransitiveReduction
      {
        var x1 := g.reverseComplementEdge[x];
        assert g.reverseComplementEdge[x1] == x;
        assert g.reverseComplementEdge[g.reverseComplementEdge[e]] == e;
      }
    }
  }

  method FlagEdgePair(g: Adjacency, edges: array<Edge>, e: nat)
    requires WellFormed(g, edges.Length) && e < edges.Length
    modifies edges
    ensures edges[..] == WithPairFlagged(g, old(edges[..]), e)
  {
    edges[e] := edges[e].(wasRemovedByTransitiveReduction := true);
    var e1 := g.reverseComplementEdge[e];
    edges[e1] := edges[e1].(wasRemovedByTransitiveReduction := true);
  }

  // ----- What justifies flagging an intermediate-coverage edge -----

  /** The path a search for edge e can find: from the source of e to its target (from its
      target back to its source when `reverse`), through edges other than e not removed by
      transitive reduction in s, of one edge or of at most maxDistance edges. */
  ghost predicate HasBypass(s: seq<Edge>, e: nat, maxDistance: nat, reverse: bool)
    requires e < |s|
  {
    exists path :: (|path| == 1 || |path| <= maxDistance)
      && IsBfsPath(s, path, e, if reverse then s[e].target else s[e].source, if reverse then s[e].source else s[e].target)
  }

  /** Flags only grow, so a bypass that avoids the flagged edges of a later state avoids
      those of an earlier one. */
  lemma BypassKept(a: seq<Edge>, b: seq<Edge>, e: nat, maxDistance: nat, reverse: bool)
    requires OnlyReductionFlagsSet(a, b) && e < |a| && HasBypass(b, e, maxDistance, reverse)
    ensures HasBypass(a, e, maxDistance, reverse)
  {
    OnlyReductionFlagsSetTopology(a, b);
    var u0 := if reverse then b[e].target else b[e].source;
    var v := if reverse then b[e].source else b[e].target;
    var path :| (|path| == 1 || |path| <= maxDistance) && IsBfsPath(b, path, e, u0, v);
    forall k | 0 < k < |path|
      ensures Follows(a, path, k)
    {
      assert Follows(b, path, k);
    }
    assert IsBfsPath(a, path, e, u0, v);
  }

  /** A path from u0 to v through edges other than `excluded`, all of coverage above low,
      whatever their flags. */
  predicate IsPathAbove(s: seq<Edge>, path: seq<nat>, excluded: nat, u0: nat, v: nat, low: nat)
  {
    (forall k :: 0 <= k < |path| ==> path[k] < |s| && path[k] != excluded && s[path[k]].coverage > low)
    && (|path| == 0 ==> u0 == v)
    && (|path| > 0 ==> path[0] < |s| && path[|path| - 1] < |s| && s[path[0]].source == u0 && s[path[|path| - 1]].target == v)
    && (forall k :: 0 < k < |path| ==> Follows(s, path, k))
  }

  /** Another path from the source of edge e to its target, of one edge or of at most
      maxDistance edges, all of coverage above low. */
  ghost predicate HasBypassAbove(s: seq<Edge>, e: nat, low: nat, maxDistance: nat)
    requires e < |s|
  {
    exists path :: (|path| == 1 || |path| <= maxDistance) && IsPathAbove(s, path, e, s[e].source, s[e].target, low)
  }

  /** Once every edge of coverage at most low is flagged, a forward bypass uses only edges of
      coverage above low, and stays a path in any state of the same topology. */
  lemma BypassAboveLow(a: seq<Edge>, b: seq<Edge>, e: nat, low: nat, maxDistance: nat)
    requires SameTopology(a, b) && e < |a| && HasBypass(b, e, maxDistance, false)
    requires forall x :: 0 <= x < |b| && b[x].coverage <= low ==> b[x].wasRemovedByTransitiveReduction
    ensures HasBypassAbove(a, e, low, maxDistance)
  {
    var path :| (|path| == 1 || |path| <= maxDistance) && IsBfsPath(b, path, e, b[e].source, b[e].target);
    forall k | 0 < k < |path|
      ensures Follows(a, path, k)
    {
      assert Follows(b, path, k);
    }
    assert IsPathAbove(a, path, e, a[e].source, a[e].target, low);
  }

  /** The member of the reverse complement pair of e with the lower id: the one the coverage
      buckets hold. */
  function PairRepresentative(g: Adjacency, e: nat): (r: nat)
    requires e < |g.reverseComplementEdge|
    ensures r == e || r == g.reverseComplementEdge[e]
    ensures r <= e && r <= g.reverseComplementEdge[e]
  {
    if g.reverseComplementEdge[e] < e then g.reverseComplementEdge[e] else e
  }

  /** Both members of a pair have the bucket member as representative. */
  lemma PairRepresentativeOfBucketEdge(g: Adjacency, s: seq<Edge>, r: nat, x: nat)
    requires WellFormed(g, |s|) && RcPaired(g, s) && r < |s|
    requires r <= g.reverseComplementEdge[r] && (x == r || x == g.reverseComplementEdge[r])
    ensures PairRepresentative(g, x) == r
  {
    assert g.reverseComplementEdge[g.reverseComplementEdge[r]] == r;
  }

  /** Edge x is an edge of `bucket`, or the reverse complement of one, for which s has a
      bypass. */
  ghost predicate BypassedInBucket(g: Adjacency, s: seq<Edge>, bucket: seq<nat>, x: nat, maxDistance: nat, reverse: bool)
    requires WellFormed(g, |s|)
  {
    exists i :: 0 <= i < |bucket| && bucket[i] < |s|
      && (x == bucket[i] || x == g.reverseComplementEdge[bucket[i]]) && HasBypass(s, bucket[i], maxDistance, reverse)
  }

  /** The edges newly flagged in b, relative to a. */
  predicate NewlyFlagged(a: seq<Edge>, b: seq<Edge>, x: nat)
    requires |a| == |b|
  {
    x < |b| && b[x].wasRemovedByTransitiveReduction && !a[x].wasRemovedByTransitiveReduction
  }

  // ----- Gathering candidate edges by coverage -----

  /** The bucket an edge goes to: its coverage, when it is the member of its reverse complement
      pair with the lower id and minCoverage <= coverage < high; otherwise no bucket. */
  function CoverageKey(g: Adjacency, s: seq<Edge>, e: nat, minCoverage: nat, high: nat): nat
    requires WellFormed(g, |s|) && e < |s|
  {
    if g.reverseComplementEdge[e] < e || s[e].coverage < minCoverage || s[e].coverage >= high then INVALID_VERTEX_ID
    else s[e].coverage
  }

  function CoverageKeys(g: Adjacency, s: seq<Edge>, minCoverage: nat, high: nat): (keys: seq<nat>)
    requires WellFormed(g, |s|)
    ensures |keys| == |s|
    ensures forall e :: 0 <= e < |s| ==> keys[e] == CoverageKey(g, s, e, minCoverage, high)
  {
    seq(|s|, e requires 0 <= e < |s| => CoverageKey(g, s, e, minCoverage, high))
  }

  /** The two passes that fill edgesByCoverage: bucket c holds, in increasing order, the
      candidate edges of coverage c. */
  method GatherEdgesByCoverage(g: Adjacency, edges: array<Edge>, minCoverage: nat, high: nat)
    returns (edgesByCoverage: seq<seq<nat>>)
    requires WellFormed(g, edges.Length) && high <= INVALID_VERTEX_ID
    ensures |edgesByCoverage| == high
    ensures forall c :: 0 <= c < high ==> edgesByCoverage[c] == IdsWithKey(CoverageKeys(g, edges[..], minCoverage, high), c)
  {
    edgesByCoverage := BucketByKey(CoverageKeys(g, edges[..], minCoverage, high), high);
  }

  /** What a bucket holds: exactly the edges with coverage c in range that are not the
      higher-id member of their pair. */
  lemma CoverageBucketMembership(g: Adjacency, s: seq<Edge>, minCoverage: nat, high: nat, c: nat, e: nat)
    requires WellFormed(g, |s|) && c < high <= INVALID_VERTEX_ID
    ensures e in IdsWithKey(CoverageKeys(g, s, minCoverage, high), c) <==>
      (e < |s| && e <= g.reverseComplementEdge[e] && minCoverage <= s[e].coverage && s[e].coverage == c)
  {
  }

  /** Every edge of coverage c in range is in bucket c itself or through its reverse complement. */
  lemma CoverageBucketCovers(g: Adjacency, s: seq<Edge>, minCoverage: nat, high: nat, e: nat)
    requires WellFormed(g, |s|) && RcPaired(g, s) && e < |s| && high <= INVALID_VERTEX_ID
    requires minCoverage <= s[e].coverage < high
    ensures e in IdsWithKey(CoverageKeys(g, s, minCoverage, high), s[e].coverage)
      || g.reverseComplementEdge[e] in IdsWithKey(CoverageKeys(g, s, minCoverage, high), s[e].coverage)
  {
    var keys := CoverageKeys(g, s, minCoverage, high);
    var e1 := g.reverseComplementEdge[e];
    if e1 < e {
      assert keys[e1] == s[e].coverage;
    } else {
      assert keys[e] == s[e].coverage;
    }
  }

  /** The check that no edge has coverage 0: bucket 0 is empty exactly when no edge at all has
      coverage 0. */
  lemma EmptyBucketZero(g: Adjacency, s: seq<Edge>, high: nat)
    requires WellFormed(g, |s|) && RcPaired(g, s) && 0 < high <= INVALID_VERTEX_ID
    ensures |IdsWithKey(CoverageKeys(g, s, 0, high), 0)| == 0 <==> forall e :: 0 <= e < |s| ==> s[e].coverage != 0
  {
    var bucket := IdsWithKey(CoverageKeys(g, s, 0, high), 0);
    if |bucket| > 0 {
      CoverageBucketMembership(g, s, 0, high, 0, bucket[0]);
    }
    forall e | 0 <= e < |s| && s[e].coverage == 0
      ensures |bucket| > 0
    {
      CoverageBucketCovers(g, s, 0, high, e);
    }
  }

  /** Every entry of bucket c is an edge of coverage c. */
  predicate BucketsByCoverage(s: seq<Edge>, buckets: seq<seq<nat>>)
  {
    forall c, i :: 0 <= c < |buckets| && 0 <= i < |buckets[c]| ==> buckets[c][i] < |s| && s[buckets[c][i]].coverage == c
  }

  lemma GatheredBucketsByCoverage(g: Adjacency, s: seq<Edge>, minCoverage: nat, high: nat, buckets: seq<seq<nat>>)
    requires WellFormed(g, |s|) && high <= INVALID_VERTEX_ID && |buckets| == high
    requires forall c :: 0 <= c < high ==> buckets[c] == IdsWithKey(CoverageKeys(g, s, minCoverage, high), c)
    ensures BucketsByCoverage(s, buckets)
  {
    forall c, i | 0 <= c < high && 0 <= i < |buckets[c]|
      ensures buckets[c][i] < |s| && s[buckets[c][i]].coverage == c
    {
      CoverageBucketMembership(g, s, minCoverage, high, c, buckets[c][i]);
    }
  }

  lemma BucketsByCoverageKept(s: seq<Edge>, t: seq<Edge>, buckets: seq<seq<nat>>)
    requires BucketsByCoverage(s, buckets) && SameTopology(s, t)
    ensures BucketsByCoverage(t, buckets)
  {
  }

  // ----- Low coverage -----

  /** Flag every edge of a bucket together with its reverse complement. */
  method FlagBucket(g: Adjacency, edges: array<Edge>, bucket: seq<nat>, low: nat, high: nat)
    requires WellFormed(g, edges.Length) && RcPaired(g, edges[..]) && FlaggedInPairs(g, edges[..])
    requires forall i :: 0 <= i < |bucket| ==> bucket[i] < edges.Length && low < edges[bucket[i]].coverage < high
    modifies edges
    ensures OnlyReductionFlagsSet(old(edges[..]), edges[..]) && UnchangedOutside(old(edges[..]), edges[..], low, high)
    ensures RcPaired(g, edges[..]) && FlaggedInPairs(g, edges[..])
    ensures forall i :: 0 <= i < |bucket| ==>
      edges[bucket[i]].wasRemovedByTransitiveReduction && edges[g.reverseComplementEdge[bucket[i]]].wasRemovedByTransitiveReduction
  {
    var k := 0;
    while k < |bucket|
      invariant 0 <= k <= |bucket|
      invariant OnlyReductionFlagsSet(old(edges[..]), edges[..]) && UnchangedOutside(old(edges[..]), edges[..], low, high)
      invariant RcPaired(g, edges[..]) && FlaggedInPairs(g, edges[..])
      invariant forall i :: 0 <= i < k ==>
        edges[bucket[i]].wasRemovedByTransitiveReduction && edges[g.reverseComplementEdge[bucket[i]]].wasRemovedByTransitiveReduction
    {
      ghost var before := edges[..];
      OnlyReductionFlagsSetTopology(old(edges[..]), before);
      PairFlaggedMeaning(g, before, bucket[k], low, high);
      FlagEdgePair(g, edges, bucket[k]);
      ReductionStepsCompose(old(edges[..]), before, edges[..], low, high, low, high);
      k := k + 1;
    }
  }

  /** Every edge with coverage between 1 and low is flagged, with its reverse complement. */
  method FlagLowCoverage(g: Adjacency, edges: array<Edge>, buckets: seq<seq<nat>>, low: nat)
    requires WellFormed(g, edges.Length) && RcPaired(g, edges[..]) && FlaggedInPairs(g, edges[..])
    requires low < |buckets| <= INVALID_VERTEX_ID
    requires forall c :: 0 <= c < |buckets| ==> buckets[c] == IdsWithKey(CoverageKeys(g, edges[..], 0, |buckets|), c)
    modifies edges
    ensures OnlyReductionFlagsSet(old(edges[..]), edges[..]) && UnchangedOutside(old(edges[..]), edges[..], 0, low + 1)
    ensures RcPaired(g, edges[..]) && FlaggedInPairs(g, edges[..])
    ensures forall e :: 0 <= e < edges.Length && 0 < edges[e].coverage <= low ==> edges[e].wasRemovedByTransitiveReduction
  {
    ghost var s0 := edges[..];
    GatheredBucketsByCoverage(g, s0, 0, |buckets|, buckets);
    var coverage := 1;
    while coverage <= low
      invariant 1 <= coverage <= low + 1
      invariant OnlyReductionFlagsSet(s0, edges[..]) && UnchangedOutside(s0, edges[..], 0, low + 1)
      invariant RcPaired(g, edges[..]) && FlaggedInPairs(g, edges[..])
      invariant forall e :: 0 <= e < edges.Length && 0 < edges[e].coverage < coverage ==> edges[e].wasRemovedByTransitiveReduction
    {
      ghost var before := edges[..];
      OnlyReductionFlagsSetTopology(s0, before);
      BucketsByCoverageKept(s0, before, buckets);
      FlagBucket(g, edges, buckets[coverage], coverage - 1, coverage + 1);
      UnchangedOutsideWeaken(before, edges[..], coverage - 1, coverage + 1, 0, low + 1);
      ReductionStepsCompose(s0, before, edges[..], 0, low + 1, 0, low + 1);
      OnlyReductionFlagsSetTopology(s0, edges[..]);
      forall e | 0 <= e < edges.Length && edges[e].coverage == coverage
        ensures edges[e].wasRemovedByTransitiveReduction
      {
        CoverageBucketCovers(g, s0, 0, |buckets|, e);
      }
      coverage := coverage + 1;
    }
  }

  // ----- Coverage 1 with a long marker skip -----

  /** The uint32 difference ordinal1 - ordinal0: the number of markers an interval skips,
      wrapped modulo 2^32 when ordinal1 is the smaller. */
  function MarkerSkip(interval: MarkerInterval): (skip: nat)
    ensures skip < TWO_TO_32
    ensures interval.ordinal0 <= interval.ordinal1 < TWO_TO_32 ==> skip == interval.ordinal1 - interval.ordinal0
    ensures interval.ordinal1 < interval.ordinal0 < TWO_TO_32 ==> skip == TWO_TO_32 - (interval.ordinal0 - interval.ordinal1)
  {
    (interval.ordinal1 - interval.ordinal0) % TWO_TO_32
  }

  /** Edge r has a single marker interval, which skips more than threshold markers. */
  predicate LongSkip(edgeMarkerIntervals: seq<seq<MarkerInterval>>, r: nat, threshold: nat)
  {
    r < |edgeMarkerIntervals| && |edgeMarkerIntervals[r]| == 1 && MarkerSkip(edgeMarkerIntervals[r][0]) > threshold
  }

  /** Edge x is one of the first n candidates, or the reverse complement of one, and that
      candidate has a long skip. */
  ghost predicate SkipFlagged(g: Adjacency, candidates: seq<nat>, n: nat, edgeMarkerIntervals: seq<seq<MarkerInterval>>,
      x: nat, threshold: nat)
  {
    exists i :: 0 <= i < n && i < |candidates| && candidates[i] < |g.reverseComplementEdge|
      && (x == candidates[i] || x == g.reverseComplementEdge[candidates[i]]) && LongSkip(edgeMarkerIntervals, candidates[i], threshold)
  }

  /** Flag each coverage-1 candidate edge whose only marker interval skips more than
      edgeMarkerSkipThreshold markers, unless already flagged. */
  method FlagHighSkip(g: Adjacency, edges: array<Edge>, edgesWithCoverage1: seq<nat>,
      edgeMarkerIntervals: seq<seq<MarkerInterval>>, edgeMarkerSkipThreshold: nat)
    requires WellFormed(g, edges.Length) && RcPaired(g, edges[..]) && FlaggedInPairs(g, edges[..])
    requires |edgeMarkerIntervals| == edges.Length
    requires forall i :: 0 <= i < |edgesWithCoverage1| ==>
      edgesWithCoverage1[i] < edges.Length && edges[edgesWithCoverage1[i]].coverage == 1
      && |edgeMarkerIntervals[edgesWithCoverage1[i]]| >= 1
    modifies edges
    ensures OnlyReductionFlagsSet(old(edges[..]), edges[..]) && UnchangedOutside(old(edges[..]), edges[..], 0, 2)
    ensures RcPaired(g, edges[..]) && FlaggedInPairs(g, edges[..])
    ensures forall i :: (0 <= i < |edgesWithCoverage1| && |edgeMarkerIntervals[edgesWithCoverage1[i]]| == 1
      && MarkerSkip(edgeMarkerIntervals[edgesWithCoverage1[i]][0]) > edgeMarkerSkipThreshold) ==>
      (edges[edgesWithCoverage1[i]].wasRemovedByTransitiveReduction
       && edges[g.reverseComplementEdge[edgesWithCoverage1[i]]].wasRemovedByTransitiveReduction)
    ensures forall x: nat :: NewlyFlagged(old(edges[..]), edges[..], x) ==>
      SkipFlagged(g, edgesWithCoverage1, |edgesWithCoverage1|, edgeMarkerIntervals, x, edgeMarkerSkipThreshold)
  {
    var k := 0;
    while k < |edgesWithCoverage1|
      invariant 0 <= k <= |edgesWithCoverage1|
      invariant OnlyReductionFlagsSet(old(edges[..]), edges[..]) && UnchangedOutside(old(edges[..]), edges[..], 0, 2)
      invariant RcPaired(g, edges[..]) && FlaggedInPairs(g, edges[..])
      invariant forall i :: (0 <= i < k && |edgeMarkerIntervals[edgesWithCoverage1[i]]| == 1
        && MarkerSkip(edgeMarkerIntervals[edgesWithCoverage1[i]][0]) > edgeMarkerSkipThreshold) ==>
        (edges[edgesWithCoverage1[i]].wasRemovedByTransitiveReduction
         && edges[g.reverseComplementEdge[edgesWithCoverage1[i]]].wasRemovedByTransitiveReduction)
      invariant forall x: nat :: NewlyFlagged(old(edges[..]), edges[..], x) ==>
        SkipFlagged(g, edgesWithCoverage1, k, edgeMarkerIntervals, x, edgeMarkerSkipThreshold)
    {
      var edgeId := edgesWithCoverage1[k];
      k := k + 1;
      var markerIntervals := edgeMarkerIntervals[edgeId];
      if |markerIntervals| > 1 {
        continue;
      }
      var skip := MarkerSkip(markerIntervals[0]);
      if skip > edgeMarkerSkipThreshold && !edges[edgeId].wasRemovedByTransitiveReduction {
        ghost var before := edges[..];
        OnlyReductionFlagsSetTopology(old(edges[..]), before);
        PairFlaggedMeaning(g, before, edgeId, 0, 2);
        FlagEdgePair(g, edges, edgeId);
        ReductionStepsCompose(old(edges[..]), before, edges[..], 0, 2, 0, 2);
        SkipFlaggedStep(g, old(edges[..]), before, edges[..], edgesWithCoverage1, k - 1, edgeMarkerIntervals, edgeMarkerSkipThreshold);
      }
    }
  }

  /** Flagging candidate k with a long skip keeps every newly flagged edge justified. */
  lemma SkipFlaggedStep(g: Adjacency, s0: seq<Edge>, before: seq<Edge>, after: seq<Edge>, candidates: seq<nat>,
      k: nat, edgeMarkerIntervals: seq<seq<MarkerInterval>>, threshold: nat)
    requires WellFormed(g, |before|) && k < |candidates| && candidates[k] < |before| && |s0| == |before|
    requires forall x: nat :: NewlyFlagged(s0, before, x) ==> SkipFlagged(g, candidates, k, edgeMarkerIntervals, x, threshold)
    requires after == WithPairFlagged(g, before, candidates[k]) && LongSkip(edgeMarkerIntervals, candidates[k], threshold)
    ensures forall x: nat :: NewlyFlagged(s0, after, x) ==> SkipFlagged(g, candidates, k + 1, edgeMarkerIntervals, x, threshold)
  {
    forall x: nat | NewlyFlagged(s0, after, x)
      ensures SkipFlagged(g, candidates, k + 1, edgeMarkerIntervals, x, threshold)
    {
      if !NewlyFlagged(s0, before, x) {
        assert x == candidates[k] || x == g.reverseComplementEdge[candidates[k]];
      }
    }
  }

  // ----- Intermediate coverage: the bounded searches -----

  /** One candidate edge: unless already flagged, search for another path from its source to
      its target (from its target back to its source when `reverse`), not using the edge, and
      flag the pair when one is found. */
  method ReduceEdge(g: Adjacency, edges: array<Edge>, vertexDistances: array<int>, edgeId: nat,
      maxDistance: nat, reverse: bool) returns (removed: bool)
    requires WellFormed(g, edges.Length) && EndsValid(g, edges[..]) && BySourceSound(g, edges[..])
    requires vertexDistances.Length == g.vertexCount
    requires forall v :: 0 <= v < vertexDistances.Length ==> vertexDistances[v] == -1
    requires edgeId < edges.Length
    modifies edges, vertexDistances
    ensures forall v :: 0 <= v < vertexDistances.Length ==> vertexDistances[v] == -1
    ensures removed ==> edges[..] == WithPairFlagged(g, old(edges[..]), edgeId)
    ensures !removed ==> edges[..] == old(edges[..])
    ensures removed ==> !old(edges[edgeId]).wasRemovedByTransitiveReduction
    ensures removed ==> HasBypass(old(edges[..]), edgeId, maxDistance, reverse)
  {
    removed := false;
    var edge := edges[edgeId];
    if edge.wasRemovedByTransitiveReduction {
      return;
    }
    var u0 := if reverse then edge.target else edge.source;
    var u1 := if reverse then edge.source else edge.target;
    removed := BoundedBfs(g, edges, vertexDistances, edgeId, u0, u1, maxDistance);
    if removed {
      FlagEdgePair(g, edges, edgeId);
    }
  }

  /** What holds after the first k edges of a bucket are searched, starting from s0. */
  ghost predicate BucketSearched(g: Adjacency, s0: seq<Edge>, s: seq<Edge>, bucket: seq<nat>, k: nat,
      low: nat, high: nat, maxDistance: nat, reverse: bool)
  {
    k <= |bucket| && WellFormed(g, |s0|)
    && OnlyReductionFlagsSet(s0, s) && UnchangedOutside(s0, s, low, high)
    && RcPaired(g, s) && FlaggedInPairs(g, s)
    && EndsValid(g, s) && BySourceSound(g, s)
    && forall x: nat :: NewlyFlagged(s0, s, x) ==> BypassedInBucket(g, s0, bucket[..k], x, maxDistance, reverse)
  }

  /** All the candidate edges of one coverage, in bucket order. Every edge newly flagged is a
      bucket edge, or its reverse complement, whose search found a bypass; the bypass avoids
      the edges flagged before the bucket, since flags only get set. */
  method ReduceBucket(g: Adjacency, edges: array<Edge>, vertexDistances: array<int>, bucket: seq<nat>,
      low: nat, high: nat, maxDistance: nat, reverse: bool)
    requires WellFormed(g, edges.Length) && EndsValid(g, edges[..]) && BySourceSound(g, edges[..])
    requires RcPaired(g, edges[..]) && FlaggedInPairs(g, edges[..])
    requires vertexDistances.Length == g.vertexCount
    requires forall v :: 0 <= v < vertexDistances.Length ==> vertexDistances[v] == -1
    requires forall i :: 0 <= i < |bucket| ==> bucket[i] < edges.Length && low < edges[bucket[i]].coverage < high
    modifies edges, vertexDistances
    ensures forall v :: 0 <= v < vertexDistances.Length ==> vertexDistances[v] == -1
    ensures OnlyReductionFlagsSet(old(edges[..]), edges[..]) && UnchangedOutside(old(edges[..]), edges[..], low, high)
    ensures RcPaired(g, edges[..]) && FlaggedInPairs(g, edges[..])
    ensures EndsValid(g, edges[..]) && BySourceSound(g, edges[..])
    ensures forall x: nat :: NewlyFlagged(old(edges[..]), edges[..], x) ==>
      BypassedInBucket(g, old(edges[..]), bucket, x, maxDistance, reverse)
  {
    ghost var s0 := edges[..];
    var k := 0;
    while k < |bucket|
      invariant forall v :: 0 <= v < vertexDistances.Length ==> vertexDistances[v] == -1
      invariant BucketSearched(g, s0, edges[..], bucket, k, low, high, maxDistance, reverse)
    {
      ghost var before := edges[..];
      var removed := ReduceEdge(g, edges, vertexDistances, bucket[k], maxDistance, reverse);
      BucketSearchStep(g, s0, before, edges[..], bucket, k, low, high, maxDistance, reverse, removed);
      k := k + 1;
    }
    BucketSearchedAll(g, s0, edges[..], bucket, low, high, maxDistance, reverse);
  }

  lemma BucketSearchedAll(g: Adjacency, s0: seq<Edge>, s: seq<Edge>, bucket: seq<nat>,
      low: nat, high: nat, maxDistance: nat, reverse: bool)
    requires BucketSearched(g, s0, s, bucket, |bucket|, low, high, maxDistance, reverse)
    ensures OnlyReductionFlagsSet(s0, s) && UnchangedOutside(s0, s, low, high)
    ensures RcPaired(g, s) && FlaggedInPairs(g, s) && EndsValid(g, s) && BySourceSound(g, s)
    ensures forall x: nat :: NewlyFlagged(s0, s, x) ==> BypassedInBucket(g, s0, bucket, x, maxDistance, reverse)
  {
    assert bucket[..|bucket|] == bucket;
  }

  /** One more edge of the bucket searched keeps BucketSearched: what is newly flagged is
      still justified by a bypass in the state before the bucket. */
  lemma BucketSearchStep(g: Adjacency, s0: seq<Edge>, before: seq<Edge>, after: seq<Edge>, bucket: seq<nat>,
      k: nat, low: nat, high: nat, maxDistance: nat, reverse: bool, removed: bool)
    requires BucketSearched(g, s0, before, bucket, k, low, high, maxDistance, reverse) && k < |bucket|
    requires bucket[k] < |s0| && low < s0[bucket[k]].coverage < high
    requires removed ==> after == WithPairFlagged(g, before, bucket[k]) && HasBypass(before, bucket[k], maxDistance, reverse)
    requires !removed ==> after == before
    ensures BucketSearched(g, s0, after, bucket, k + 1, low, high, maxDistance, reverse)
  {
    OnlyReductionFlagsSetTopology(s0, before);
    PairFlaggedMeaning(g, before, bucket[k], low, high);
    ReductionStepsCompose(s0, before, after, low, high, low, high);
    OnlyReductionFlagsSetTopology(before, after);
    BySourceSoundKept(g, before, after);
    BypassedBucketStep(g, s0, before, after, bucket, k, maxDistance, reverse, removed);
  }

  lemma BypassedBucketStep(g: Adjacency, s0: seq<Edge>, before: seq<Edge>, after: seq<Edge>, bucket: seq<nat>,
      k: nat, maxDistance: nat, reverse: bool, removed: bool)
    requires WellFormed(g, |s0|) && k < |bucket| && bucket[k] < |before|
    requires OnlyReductionFlagsSet(s0, before) && |after| == |before|
    requires forall x: nat :: NewlyFlagged(s0, before, x) ==> BypassedInBucket(g, s0, bucket[..k], x, maxDistance, reverse)
    requires removed ==> after == WithPairFlagged(g, before, bucket[k]) && HasBypass(before, bucket[k], maxDistance, reverse)
    requires !removed ==> after == before
    ensures forall x: nat :: NewlyFlagged(s0, after, x) ==> BypassedInBucket(g, s0, bucket[..k + 1], x, maxDistance, reverse)
  {
    if removed {
      BypassKept(s0, before, bucket[k], maxDistance, reverse);
    }
    forall x: nat | NewlyFlagged(s0, after, x)
      ensures BypassedInBucket(g, s0, bucket[..k + 1], x, maxDistance, reverse)
    {
      if NewlyFlagged(s0, before, x) {
        var i :| 0 <= i < |bucket[..k]| && bucket[..k][i] < |s0|
          && (x == bucket[..k][i] || x == g.reverseComplementEdge[bucket[..k][i]])
          && HasBypass(s0, bucket[..k][i], maxDistance, reverse);
        assert bucket[..k + 1][i] == bucket[..k][i];
      } else {
        assert removed;
        assert bucket[..k + 1][k] == bucket[k];
      }
    }
  }

  /** The buckets of coverage low + 1 up to high - 1, in increasing coverage order. */
  method ReduceIntermediateCoverage(g: Adjacency, edges: array<Edge>, vertexDistances: array<int>,
      buckets: seq<seq<nat>>, low: nat, maxDistance: nat, reverse: bool)
    requires WellFormed(g, edges.Length) && EndsValid(g, edges[..]) && BySourceSound(g, edges[..])
    requires RcPaired(g, edges[..]) && FlaggedInPairs(g, edges[..])
    requires vertexDistances.Length == g.vertexCount
    requires forall v :: 0 <= v < vertexDistances.Length ==> vertexDistances[v] == -1
    requires BucketsByCoverage(edges[..], buckets)
    modifies edges, vertexDistances
    ensures forall v :: 0 <= v < vertexDistances.Length ==> vertexDistances[v] == -1
    ensures OnlyReductionFlagsSet(old(edges[..]), edges[..]) && UnchangedOutside(old(edges[..]), edges[..], low, |buckets|)
    ensures RcPaired(g, edges[..]) && FlaggedInPairs(g, edges[..])
    ensures forall x: nat :: NewlyFlagged(old(edges[..]), edges[..], x) ==>
      low < old(edges[..])[x].coverage < |buckets|
      && BypassedInBucket(g, old(edges[..]), buckets[old(edges[..])[x].coverage], x, maxDistance, reverse)
  {
    var coverage := low + 1;
    while coverage < |buckets|
      invariant low + 1 <= coverage
      invariant forall v :: 0 <= v < vertexDistances.Length ==> vertexDistances[v] == -1
      invariant OnlyReductionFlagsSet(old(edges[..]), edges[..])
      invariant UnchangedOutside(old(edges[..]), edges[..], low, |buckets|)
      invariant RcPaired(g, edges[..]) && FlaggedInPairs(g, edges[..])
      invariant EndsValid(g, edges[..]) && BySourceSound(g, edges[..])
      invariant BucketsByCoverage(edges[..], buckets)
      invariant forall x: nat :: NewlyFlagged(old(edges[..]), edges[..], x) ==>
        low < old(edges[..])[x].coverage < coverage
        && BypassedInBucket(g, old(edges[..]), buckets[old(edges[..])[x].coverage], x, maxDistance, reverse)
      decreases |buckets| - coverage
    {
      ghost var before := edges[..];
      ReduceBucket(g, edges, vertexDistances, buckets[coverage], low, |buckets|, maxDistance, reverse);
      BypassedCoverageStep(g, old(edges[..]), before, edges[..], buckets, coverage, low, maxDistance, reverse);
      ReductionStepsCompose(old(edges[..]), before, edges[..], low, |buckets|, low, |buckets|);
      OnlyReductionFlagsSetTopology(before, edges[..]);
      BucketsByCoverageKept(before, edges[..], buckets);
      coverage := coverage + 1;
    }
  }

  /** One more coverage searched: what is newly flagged is still justified by a bypass in the
      state before the searches, for an edge of the bucket of its own coverage. */
  lemma BypassedCoverageStep(g: Adjacency, s0: seq<Edge>, before: seq<Edge>, after: seq<Edge>,
      buckets: seq<seq<nat>>, coverage: nat, low: nat, maxDistance: nat, reverse: bool)
    requires WellFormed(g, |s0|) && RcPaired(g, s0) && BucketsByCoverage(s0, buckets)
    requires low < coverage < |buckets|
    requires OnlyReductionFlagsSet(s0, before) && OnlyReductionFlagsSet(before, after)
    requires forall x: nat :: NewlyFlagged(s0, before, x) ==>
      low < s0[x].coverage < coverage && BypassedInBucket(g, s0, buckets[s0[x].coverage], x, maxDistance, reverse)
    requires forall x: nat :: NewlyFlagged(before, after, x) ==> BypassedInBucket(g, before, buckets[coverage], x, maxDistance, reverse)
    ensures forall x: nat :: NewlyFlagged(s0, after, x) ==>
      low < s0[x].coverage < coverage + 1 && BypassedInBucket(g, s0, buckets[s0[x].coverage], x, maxDistance, reverse)
  {
    forall x: nat | NewlyFlagged(s0, after, x)
      ensures low < s0[x].coverage < coverage + 1 && BypassedInBucket(g, s0, buckets[s0[x].coverage], x, maxDistance, reverse)
    {
      if !NewlyFlagged(s0, before, x) {
        assert NewlyFlagged(before, after, x);
        var i :| 0 <= i < |buckets[coverage]| && buckets[coverage][i] < |before|
          && (x == buckets[coverage][i] || x == g.reverseComplementEdge[buckets[coverage][i]])
          && HasBypass(before, buckets[coverage][i], maxDistance, reverse);
        var r := buckets[coverage][i];
        BypassKept(s0, before, r, maxDistance, reverse);
        assert s0[r].coverage == coverage;
        assert s0[x].coverage == coverage;
      }
    }
  }

  // ----- The two reductions -----

  /** Clear wasRemovedByTransitiveReduction, wasPruned and isSuperBubbleEdge on every edge. */
  method ClearReductionFlags(edges: array<Edge>)
    modifies edges
    ensures forall e :: 0 <= e < edges.Length ==>
      edges[e] == old(edges[e]).(wasRemovedByTransitiveReduction := false, wasPruned := false, isSuperBubbleEdge := false)
  {
    var e := 0;
    while e < edges.Length
      invariant 0 <= e <= edges.Length
      invariant forall x :: 0 <= x < e ==>
        edges[x] == old(edges[x]).(wasRemovedByTransitiveReduction := false, wasPruned := false, isSuperBubbleEdge := false)
      invariant forall x :: e <= x < edges.Length ==> edges[x] == old(edges[x])
    {
      edges[e] := edges[e].(wasRemovedByTransitiveReduction := false, wasPruned := false, isSuperBubbleEdge := false);
      e := e + 1;
    }
  }

  /** The first two flagging phases of transitive reduction: low coverage, then coverage 1
      with a long marker skip. */
  method FlagLowCoverageAndSkips(g: Adjacency, edges: array<Edge>, edgesByCoverage: seq<seq<nat>>,
      edgeMarkerIntervals: seq<seq<MarkerInterval>>, lowCoverageThreshold: nat, edgeMarkerSkipThreshold: nat)
    requires WellFormed(g, edges.Length) && RcPaired(g, edges[..]) && FlaggedInPairs(g, edges[..])
    requires lowCoverageThreshold < |edgesByCoverage| && 1 < |edgesByCoverage| <= INVALID_VERTEX_ID
    requires forall c :: 0 <= c < |edgesByCoverage| ==>
      edgesByCoverage[c] == IdsWithKey(CoverageKeys(g, edges[..], 0, |edgesByCoverage|), c)
    requires |edgeMarkerIntervals| == edges.Length
    requires forall e :: 0 <= e < edges.Length && edges[e].coverage == 1 ==> |edgeMarkerIntervals[e]| == 1
    modifies edges
    ensures OnlyReductionFlagsSet(old(edges[..]), edges[..])
    ensures UnchangedOutside(old(edges[..]), edges[..], 0, |edgesByCoverage|)
    ensures RcPaired(g, edges[..]) && FlaggedInPairs(g, edges[..])
    ensures forall e :: 0 <= e < edges.Length && 0 < edges[e].coverage <= lowCoverageThreshold ==>
      edges[e].wasRemovedByTransitiveReduction
    ensures forall e :: (0 <= e < edges.Length && e <= g.reverseComplementEdge[e] && edges[e].coverage == 1
      && MarkerSkip(edgeMarkerIntervals[e][0]) > edgeMarkerSkipThreshold) ==>
      (edges[e].wasRemovedByTransitiveReduction && edges[g.reverseComplementEdge[e]].wasRemovedByTransitiveReduction)
    ensures forall e: nat :: NewlyFlagged(old(edges[..]), edges[..], e) && lowCoverageThreshold < old(edges[..])[e].coverage ==>
      old(edges[..])[e].coverage == 1 && LongSkip(edgeMarkerIntervals, PairRepresentative(g, e), edgeMarkerSkipThreshold)
  {
    ghost var s0 := edges[..];
    GatheredBucketsByCoverage(g, s0, 0, |edgesByCoverage|, edgesByCoverage);
    FlagLowCoverage(g, edges, edgesByCoverage, lowCoverageThreshold);
    ghost var afterLow := edges[..];
    OnlyReductionFlagsSetTopology(s0, afterLow);
    UnchangedOutsideWeaken(s0, afterLow, 0, lowCoverageThreshold + 1, 0, |edgesByCoverage|);

    var edgesWithCoverage1 := edgesByCoverage[1];
    forall i | 0 <= i < |edgesWithCoverage1|
      ensures edgesWithCoverage1[i] < edges.Length && edges[edgesWithCoverage1[i]].coverage == 1
      ensures |edgeMarkerIntervals[edgesWithCoverage1[i]]| >= 1
    {
      assert s0[edgesWithCoverage1[i]].coverage == 1;
    }
    FlagHighSkip(g, edges, edgesWithCoverage1, edgeMarkerIntervals, edgeMarkerSkipThreshold);
    OnlyReductionFlagsSetTopology(afterLow, edges[..]);
    UnchangedOutsideWeaken(afterLow, edges[..], 0, 2, 0, |edgesByCoverage|);
    ReductionStepsCompose(s0, afterLow, edges[..], 0, |edgesByCoverage|, 0, |edgesByCoverage|);
    forall e | 0 <= e < edges.Length && e <= g.reverseComplementEdge[e] && edges[e].coverage == 1
      && MarkerSkip(edgeMarkerIntervals[e][0]) > edgeMarkerSkipThreshold
      ensures edges[e].wasRemovedByTransitiveReduction && edges[g.reverseComplementEdge[e]].wasRemovedByTransitiveReduction
    {
      CoverageBucketMembership(g, s0, 0, |edgesByCoverage|, 1, e);
      var i :| 0 <= i < |edgesWithCoverage1| && edgesWithCoverage1[i] == e;
    }
    SkipPhaseJustified(g, s0, afterLow, edges[..], edgesWithCoverage1, edgeMarkerIntervals,
      lowCoverageThreshold, edgeMarkerSkipThreshold, |edgesByCoverage|);
  }

  /** After the low-coverage and skip phases, an edge above the low threshold is flagged only
      as a coverage-1 candidate with a long skip, or as its reverse complement. */
  lemma SkipPhaseJustified(g: Adjacency, s0: seq<Edge>, afterLow: seq<Edge>, s: seq<Edge>, candidates: seq<nat>,
      edgeMarkerIntervals: seq<seq<MarkerInterval>>, low: nat, threshold: nat, high: nat)
    requires WellFormed(g, |s0|) && RcPaired(g, s0) && 1 < high <= INVALID_VERTEX_ID
    requires candidates == IdsWithKey(CoverageKeys(g, s0, 0, high), 1)
    requires OnlyReductionFlagsSet(s0, afterLow) && UnchangedOutside(s0, afterLow, 0, low + 1) && |s| == |s0|
    requires forall x: nat :: NewlyFlagged(afterLow, s, x) ==>
      SkipFlagged(g, candidates, |candidates|, edgeMarkerIntervals, x, threshold)
    ensures forall e: nat :: NewlyFlagged(s0, s, e) && low < s0[e].coverage ==>
      s0[e].coverage == 1 && LongSkip(edgeMarkerIntervals, PairRepresentative(g, e), threshold)
  {
    forall e: nat | NewlyFlagged(s0, s, e) && low < s0[e].coverage
      ensures s0[e].coverage == 1 && LongSkip(edgeMarkerIntervals, PairRepresentative(g, e), threshold)
    {
      assert afterLow[e] == s0[e];
      assert NewlyFlagged(afterLow, s, e);
      var i :| 0 <= i < |candidates| && candidates[i] < |g.reverseComplementEdge|
        && (e == candidates[i] || e == g.reverseComplementEdge[candidates[i]])
        && LongSkip(edgeMarkerIntervals, candidates[i], threshold);
      var r := candidates[i];
      CoverageBucketMembership(g, s0, 0, high, 1, r);
      PairRepresentativeOfBucketEdge(g, s0, r, e);
    }
  }

  /** The flagging phases of transitive reduction, once the check for coverage 0 passed:
      low coverage, coverage 1 with a long skip, then the searches. */
  method FlagWeakEdges(g: Adjacency, edges: array<Edge>, edgesByCoverage: seq<seq<nat>>,
      edgeMarkerIntervals: seq<seq<MarkerInterval>>, lowCoverageThreshold: nat, maxDistance: nat,
      edgeMarkerSkipThreshold: nat)
    requires WellFormed(g, edges.Length) && EndsValid(g, edges[..]) && BySourceSound(g, edges[..])
    requires RcPaired(g, edges[..]) && FlaggedInPairs(g, edges[..])
    requires lowCoverageThreshold < |edgesByCoverage| && 1 < |edgesByCoverage| <= INVALID_VERTEX_ID
    requires forall c :: 0 <= c < |edgesByCoverage| ==>
      edgesByCoverage[c] == IdsWithKey(CoverageKeys(g, edges[..], 0, |edgesByCoverage|), c)
    requires |edgesByCoverage[0]| == 0
    requires |edgeMarkerIntervals| == edges.Length
    requires forall e :: 0 <= e < edges.Length && edges[e].coverage == 1 ==> |edgeMarkerIntervals[e]| == 1
    modifies edges
    ensures OnlyReductionFlagsSet(old(edges[..]), edges[..])
    ensures UnchangedOutside(old(edges[..]), edges[..], 0, |edgesByCoverage|)
    ensures FlaggedInPairs(g, edges[..])
    ensures forall e: nat :: NewlyFlagged(old(edges[..]), edges[..], e) && lowCoverageThreshold < old(edges[..])[e].coverage ==>
      (old(edges[..])[e].coverage == 1 && LongSkip(edgeMarkerIntervals, PairRepresentative(g, e), edgeMarkerSkipThreshold))
      || HasBypassAbove(old(edges[..]), PairRepresentative(g, e), lowCoverageThreshold, maxDistance)
    ensures forall e :: 0 <= e < edges.Length && 0 < edges[e].coverage <= lowCoverageThreshold ==>
      edges[e].wasRemovedByTransitiveReduction
    ensures forall e :: (0 <= e < edges.Length && e <= g.reverseComplementEdge[e] && edges[e].coverage == 1
      && MarkerSkip(edgeMarkerIntervals[e][0]) > edgeMarkerSkipThreshold) ==>
      (edges[e].wasRemovedByTransitiveReduction && edges[g.reverseComplementEdge[e]].wasRemovedByTransitiveReduction)
  {
    ghost var s0 := edges[..];
    GatheredBucketsByCoverage(g, s0, 0, |edgesByCoverage|, edgesByCoverage);
    FlagLowCoverageAndSkips(g, edges, edgesByCoverage, edgeMarkerIntervals, lowCoverageThreshold, edgeMarkerSkipThreshold);
    ghost var afterSkip := edges[..];
    OnlyReductionFlagsSetTopology(s0, afterSkip);

    var vertexDistances := new int[g.vertexCount](_ => -1);
    BySourceSoundKept(g, s0, afterSkip);
    BucketsByCoverageKept(s0, afterSkip, edgesByCoverage);
    EmptyBucketZero(g, s0, |edgesByCoverage|);
    ReduceIntermediateCoverage(g, edges, vertexDistances, edgesByCoverage, lowCoverageThreshold, maxDistance, false);
    ReductionStepsCompose(s0, afterSkip, edges[..], 0, |edgesByCoverage|, lowCoverageThreshold, |edgesByCoverage|);
    OnlyReductionFlagsSetTopology(afterSkip, edges[..]);
    SearchPhaseJustified(g, s0, afterSkip, edges[..], edgesByCoverage, lowCoverageThreshold, maxDistance);
    forall e: nat | NewlyFlagged(s0, edges[..], e) && lowCoverageThreshold < s0[e].coverage
      ensures (s0[e].coverage == 1 && LongSkip(edgeMarkerIntervals, PairRepresentative(g, e), edgeMarkerSkipThreshold))
        || HasBypassAbove(s0, PairRepresentative(g, e), lowCoverageThreshold, maxDistance)
    {
      if afterSkip[e].wasRemovedByTransitiveReduction {
        assert NewlyFlagged(s0, afterSkip, e);
      } else {
        assert NewlyFlagged(afterSkip, edges[..], e);
      }
    }
  }

  /** After the searches, an edge newly flagged by them has, as the representative of its
      pair, an edge with a bypass of coverage above low in the state before any flagging. */
  lemma SearchPhaseJustified(g: Adjacency, s0: seq<Edge>, afterSkip: seq<Edge>, s: seq<Edge>,
      buckets: seq<seq<nat>>, low: nat, maxDistance: nat)
    requires WellFormed(g, |s0|) && RcPaired(g, s0) && |buckets| <= INVALID_VERTEX_ID
    requires forall c :: 0 <= c < |buckets| ==> buckets[c] == IdsWithKey(CoverageKeys(g, s0, 0, |buckets|), c)
    requires SameTopology(s0, afterSkip) && |s| == |s0|
    requires forall x :: 0 <= x < |afterSkip| && afterSkip[x].coverage <= low ==> afterSkip[x].wasRemovedByTransitiveReduction
    requires forall x: nat :: NewlyFlagged(afterSkip, s, x) ==>
      low < afterSkip[x].coverage < |buckets| && BypassedInBucket(g, afterSkip, buckets[afterSkip[x].coverage], x, maxDistance, false)
    ensures forall e: nat :: NewlyFlagged(afterSkip, s, e) ==> HasBypassAbove(s0, PairRepresentative(g, e), low, maxDistance)
  {
    forall e: nat | NewlyFlagged(afterSkip, s, e)
      ensures HasBypassAbove(s0, PairRepresentative(g, e), low, maxDistance)
    {
      var c := afterSkip[e].coverage;
      var i :| 0 <= i < |buckets[c]| && buckets[c][i] < |afterSkip|
        && (e == buckets[c][i] || e == g.reverseComplementEdge[buckets[c][i]])
        && HasBypass(afterSkip, buckets[c][i], maxDistance, false);
      var r := buckets[c][i];
      CoverageBucketMembership(g, s0, 0, |buckets|, c, r);
      PairRepresentativeOfBucketEdge(g, s0, r, e);
      BypassAboveLow(s0, afterSkip, r, low, maxDistance);
    }
  }

  /** A bypass of coverage above low depends only on the topology. */
  lemma BypassAboveKept(a: seq<Edge>, b: seq<Edge>, e: nat, low: nat, maxDistance: nat)
    requires SameTopology(a, b) && e < |a| && HasBypassAbove(b, e, low, maxDistance)
    ensures HasBypassAbove(a, e, low, maxDistance)
  {
    var path :| (|path| == 1 || |path| <= maxDistance) && IsPathAbove(b, path, e, b[e].source, b[e].target, low);
    forall k | 0 < k < |path|
      ensures Follows(a, path, k)
    {
      assert Follows(b, path, k);
    }
    assert IsPathAbove(a, path, e, a[e].source, a[e].target, low);
  }

  /** Transitive reduction. The result is false when some edge has coverage 0: the run stops
      there, with the flags cleared and nothing flagged. Otherwise every edge with coverage up
      to lowCoverageThreshold is flagged, the coverage-1 candidates with a long marker skip
      are flagged, edges at or above highCoverageThreshold are not, and flags come in
      reverse complement pairs. An edge above lowCoverageThreshold is flagged only for a long
      skip, or because the representative of its pair has another path from its source to its
      target, within maxDistance, through edges above lowCoverageThreshold. */
  method TransitiveReduction(g: Adjacency, edges: array<Edge>, edgeMarkerIntervals: seq<seq<MarkerInterval>>,
      lowCoverageThreshold: nat, highCoverageThreshold: nat, maxDistance: nat, edgeMarkerSkipThreshold: nat)
    returns (ok: bool)
    requires WellFormed(g, edges.Length) && EndsValid(g, edges[..]) && BySourceSound(g, edges[..]) && RcPaired(g, edges[..])
    requires |edgeMarkerIntervals| == edges.Length
    requires forall e :: 0 <= e < edges.Length ==> edges[e].coverage == Coverage(|edgeMarkerIntervals[e]|)
    requires lowCoverageThreshold < highCoverageThreshold && 1 < highCoverageThreshold <= INVALID_VERTEX_ID
    modifies edges
    ensures SameTopology(old(edges[..]), edges[..])
    ensures forall e :: 0 <= e < edges.Length ==>
      !edges[e].wasPruned && !edges[e].isSuperBubbleEdge
      && edges[e].isLowCoverageCrossEdge == old(edges[e]).isLowCoverageCrossEdge
      && edges[e].wasAssembled == old(edges[e]).wasAssembled
    ensures FlaggedInPairs(g, edges[..])
    ensures forall e :: 0 <= e < edges.Length && edges[e].coverage >= highCoverageThreshold ==>
      !edges[e].wasRemovedByTransitiveReduction
    ensures ok <==> forall e :: 0 <= e < edges.Length ==> edges[e].coverage != 0
    ensures ok ==> forall e :: 0 <= e < edges.Length && edges[e].coverage <= lowCoverageThreshold ==>
      edges[e].wasRemovedByTransitiveReduction
    ensures ok ==> forall e :: (0 <= e < edges.Length && e <= g.reverseComplementEdge[e] && edges[e].coverage == 1
      && |edgeMarkerIntervals[e]| == 1 && MarkerSkip(edgeMarkerIntervals[e][0]) > edgeMarkerSkipThreshold) ==>
      (edges[e].wasRemovedByTransitiveReduction && edges[g.reverseComplementEdge[e]].wasRemovedByTransitiveReduction)
    ensures ok ==> forall e :: 0 <= e < edges.Length && lowCoverageThreshold < edges[e].coverage && edges[e].wasRemovedByTransitiveReduction ==>
      (edges[e].coverage == 1 && LongSkip(edgeMarkerIntervals, PairRepresentative(g, e), edgeMarkerSkipThreshold))
      || HasBypassAbove(old(edges[..]), PairRepresentative(g, e), lowCoverageThreshold, maxDistance)
  {
    ClearReductionFlags(edges);
    ghost var cleared := edges[..];
    assert SameTopology(old(edges[..]), cleared);
    BySourceSoundKept(g, old(edges[..]), cleared);
    assert FlaggedInPairs(g, cleared);
    var edgesByCoverage := GatherEdgesByCoverage(g, edges, 0, highCoverageThreshold);
    EmptyBucketZero(g, cleared, highCoverageThreshold);
    ok := |edgesByCoverage[0]| == 0;
    if !ok {
      return;
    }
    forall e | 0 <= e < edges.Length && edges[e].coverage == 1
      ensures |edgeMarkerIntervals[e]| == 1
    {
      assert Coverage(|edgeMarkerIntervals[e]|) == 1;
    }
    FlagWeakEdges(g, edges, edgesByCoverage, edgeMarkerIntervals, lowCoverageThreshold, maxDistance, edgeMarkerSkipThreshold);
    OnlyReductionFlagsSetTopology(cleared, edges[..]);
    FlagsFromClearedJustified(g, old(edges[..]), cleared, edges[..], edgeMarkerIntervals,
      lowCoverageThreshold, edgeMarkerSkipThreshold, maxDistance);
  }

  /** Starting from cleared flags, every flag above the low threshold is justified by a long
      skip or by a bypass in the graph as it was before clearing. */
  lemma FlagsFromClearedJustified(g: Adjacency, s0: seq<Edge>, cleared: seq<Edge>, s: seq<Edge>,
      edgeMarkerIntervals: seq<seq<MarkerInterval>>, low: nat, threshold: nat, maxDistance: nat)
    requires |g.reverseComplementEdge| == |s0|
    requires SameTopology(s0, cleared) && SameTopology(cleared, s)
    requires forall e :: 0 <= e < |cleared| ==> !cleared[e].wasRemovedByTransitiveReduction
    requires forall e: nat :: NewlyFlagged(cleared, s, e) && low < cleared[e].coverage ==>
      (cleared[e].coverage == 1 && LongSkip(edgeMarkerIntervals, PairRepresentative(g, e), threshold))
      || HasBypassAbove(cleared, PairRepresentative(g, e), low, maxDistance)
    ensures forall e :: 0 <= e < |s| && low < s[e].coverage && s[e].wasRemovedByTransitiveReduction ==>
      (s[e].coverage == 1 && LongSkip(edgeMarkerIntervals, PairRepresentative(g, e), threshold))
      || HasBypassAbove(s0, PairRepresentative(g, e), low, maxDistance)
  {
    forall e | 0 <= e < |s| && low < s[e].coverage && s[e].wasRemovedByTransitiveReduction
      && !(s[e].coverage == 1 && LongSkip(edgeMarkerIntervals, PairRepresentative(g, e), threshold))
      ensures HasBypassAbove(s0, PairRepresentative(g, e), low, maxDistance)
    {
      assert NewlyFlagged(cleared, s, e);
      BypassAboveKept(s0, cleared, PairRepresentative(g, e), low, maxDistance);
    }
  }

  /** Reverse transitive reduction. It only sets flags, keeps them in reverse complement pairs,
      and leaves edges with coverage at most lowCoverageThreshold or at least
      highCoverageThreshold as they were. It flags an edge A->B, with its reverse complement,
      only when the representative of the pair had a path B->...->A of unflagged edges other
      than itself within maxDistance. */
  method ReverseTransitiveReduction(g: Adjacency, edges: array<Edge>,
      lowCoverageThreshold: nat, highCoverageThreshold: nat, maxDistance: nat)
    requires WellFormed(g, edges.Length) && EndsValid(g, edges[..]) && BySourceSound(g, edges[..])
    requires RcPaired(g, edges[..]) && FlaggedInPairs(g, edges[..])
    requires highCoverageThreshold <= INVALID_VERTEX_ID
    modifies edges
    ensures OnlyReductionFlagsSet(old(edges[..]), edges[..])
    ensures UnchangedOutside(old(edges[..]), edges[..], lowCoverageThreshold, highCoverageThreshold)
    ensures FlaggedInPairs(g, edges[..])
    ensures forall e: nat :: NewlyFlagged(old(edges[..]), edges[..], e) ==>
      HasBypass(old(edges[..]), PairRepresentative(g, e), maxDistance, true)
  {
    ghost var s0 := edges[..];
    var edgesByCoverage := GatherEdgesByCoverage(g, edges, lowCoverageThreshold + 1, highCoverageThreshold);
    GatheredBucketsByCoverage(g, edges[..], lowCoverageThreshold + 1, highCoverageThreshold, edgesByCoverage);
    var vertexDistances := new int[g.vertexCount](_ => -1);
    ReduceIntermediateCoverage(g, edges, vertexDistances, edgesByCoverage, lowCoverageThreshold, maxDistance, true);
    forall e: nat | NewlyFlagged(s0, edges[..], e)
      ensures HasBypass(s0, PairRepresentative(g, e), maxDistance, true)
    {
      var c := s0[e].coverage;
      var i :| 0 <= i < |edgesByCoverage[c]| && edgesByCoverage[c][i] < |s0|
        && (e == edgesByCoverage[c][i] || e == g.reverseComplementEdge[edgesByCoverage[c][i]])
        && HasBypass(s0, edgesByCoverage[c][i], maxDistance, true);
      CoverageBucketMembership(g, s0, lowCoverageThreshold + 1, highCoverageThreshold, c, edgesByCoverage[c][i]);
      PairRepresentativeOfBucketEdge(g, s0, edgesByCoverage[c][i], e);
    }
  }
}

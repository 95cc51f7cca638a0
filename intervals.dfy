/** Edge derivation from the vertex table: following each marker of a vertex along its
    oriented read to the next marker that belongs to a vertex. The children of a vertex, the
    marker intervals of a candidate edge and the bounded next-vertex search all walk the same
    ordinals. */
module MarkerIntervals {
  import opened Common
  import opened Markers
  import opened MarkerGraphVertices

  /** markerGraph.vertexTable has one (40-bit) entry per marker. */
  predicate ValidVertexTable(markers: MarkerTable, vertexTable: seq<nat>)
  {
    |vertexTable| == TotalSize(markers)
  }

  /** The marker at this ordinal of oriented read o belongs to a marker graph vertex. */
  predicate HasVertex(markers: MarkerTable, vertexTable: seq<nat>, o: nat, ordinal: nat)
    requires ValidVertexTable(markers, vertexTable) && o < |markers| && ordinal < |markers[o]|
  {
    vertexTable[GetMarkerId(markers, o, ordinal)] != INVALID_COMPRESSED_VERTEX_ID
  }

  /** The first ordinal at or after `from` and before `end` whose marker has a vertex. */
  function NextVertexOrdinalBefore(markers: MarkerTable, vertexTable: seq<nat>, o: nat, from: nat, end: nat): (r: Option<nat>)
    requires ValidVertexTable(markers, vertexTable) && o < |markers| && end <= |markers[o]|
    ensures r.Some? ==> from <= r.value < end && HasVertex(markers, vertexTable, o, r.value)
    ensures r.Some? ==> forall x :: from <= x < r.value ==> !HasVertex(markers, vertexTable, o, x)
    ensures r.None? ==> forall x :: from <= x < end ==> !HasVertex(markers, vertexTable, o, x)
    decreases end - from
  {
    if end <= from then None
    else if HasVertex(markers, vertexTable, o, from) then Some(from)
    else NextVertexOrdinalBefore(markers, vertexTable, o, from + 1, end)
  }

  /** The first ordinal at or after `from` whose marker has a vertex, to the end of the read. */
  function NextVertexOrdinal(markers: MarkerTable, vertexTable: seq<nat>, o: nat, from: nat): (r: Option<nat>)
    requires ValidVertexTable(markers, vertexTable) && o < |markers|
  {
    NextVertexOrdinalBefore(markers, vertexTable, o, from, |markers[o]|)
  }

  /** A workArea entry of getGlobalMarkerGraphVertexChildren: the child vertex and the marker
      interval of the oriented read that leads to it. */
  datatype ChildEntry = ChildEntry(child: nat, interval: MarkerInterval)

  /** The interval starts on an existing marker, and its start marker id. */
  predicate ValidInterval(markers: MarkerTable, interval: MarkerInterval)
  {
    interval.orientedReadId.Valid()
    && interval.orientedReadId.Value() < |markers|
    && interval.ordinal0 < interval.ordinal1 < |markers[interval.orientedReadId.Value()]|
  }

  function StartMarker(markers: MarkerTable, interval: MarkerInterval): nat
    requires ValidInterval(markers, interval)
  {
    GetMarkerId(markers, interval.orientedReadId.Value(), interval.ordinal0)
  }

  /** The entry contributed by one marker of a vertex, if its oriented read reaches another
      vertex: the interval from the marker to the next marker of the read that has a vertex. */
  function ChildOfMarker(markers: MarkerTable, vertexTable: seq<nat>, markerId: nat): (r: Option<ChildEntry>)
    requires ValidVertexTable(markers, vertexTable) && markerId < TotalSize(markers)
    ensures r.Some? ==> ValidInterval(markers, r.value.interval) && StartMarker(markers, r.value.interval) == markerId
  {
    var loc := FindMarkerId(markers, markerId);
    var o := loc.orientedReadValue;
    var next := NextVertexOrdinal(markers, vertexTable, o, loc.ordinal + 1);
    if next.None? then None
    else
      Some(ChildEntry(vertexTable[GetMarkerId(markers, o, next.value)],
                      MarkerInterval(OrientedReadIdFromValue(o), loc.ordinal, next.value)))
  }

  /** What an entry means: it names the vertex of the interval's end marker, no marker strictly
      inside the interval has a vertex, and a marker yields no entry exactly when no later
      marker of its oriented read has a vertex. */
  lemma ChildOfMarkerMeaning(markers: MarkerTable, vertexTable: seq<nat>, markerId: nat)
    requires ValidVertexTable(markers, vertexTable) && markerId < TotalSize(markers)
    ensures var r := ChildOfMarker(markers, vertexTable, markerId);
      r.Some? ==> var iv := r.value.interval; var o := iv.orientedReadId.Value();
        r.value.child == vertexTable[GetMarkerId(markers, o, iv.ordinal1)]
        && r.value.child != INVALID_COMPRESSED_VERTEX_ID
        && forall x :: iv.ordinal0 < x < iv.ordinal1 ==> !HasVertex(markers, vertexTable, o, x)
    ensures var r := ChildOfMarker(markers, vertexTable, markerId);
      var loc := FindMarkerId(markers, markerId);
      r.None? <==> forall x :: loc.ordinal < x < |markers[loc.orientedReadValue]| ==> !HasVertex(markers, vertexTable, loc.orientedReadValue, x)
  {
    var loc := FindMarkerId(markers, markerId);
    var o := loc.orientedReadValue;
    var next := NextVertexOrdinal(markers, vertexTable, o, loc.ordinal + 1);
    if next.Some? {
      assert HasVertex(markers, vertexTable, o, next.value);
    }
  }

  /** The workArea of getGlobalMarkerGraphVertexChildren before sorting: one entry per marker
      of the vertex that reaches a next vertex, in marker order. */
  function ChildEntries(markers: MarkerTable, vertexTable: seq<nat>, ms: seq<nat>): (r: seq<ChildEntry>)
    requires ValidVertexTable(markers, vertexTable) && AllMarkers(markers, ms)
    ensures |r| <= |ms|
  {
    if ms == [] then []
    else
      var previous := ChildEntries(markers, vertexTable, ms[..|ms| - 1]);
      var last := ChildOfMarker(markers, vertexTable, ms[|ms| - 1]);
      if last.None? then previous else previous + [last.value]
  }

  /** The ordinal scan shared by the loops below: step through the ordinals of oriented read
      o from `from` on, stopping at the first marker that has a vertex. */
  method ScanToNextVertex(markers: MarkerTable, vertexTable: seq<nat>, o: nat, from: nat) returns (next: Option<nat>)
    requires ValidVertexTable(markers, vertexTable) && o < |markers|
    ensures next == NextVertexOrdinal(markers, vertexTable, o, from)
  {
    var ordinal1 := from;
    while ordinal1 < |markers[o]|
      invariant from <= ordinal1
      invariant NextVertexOrdinal(markers, vertexTable, o, ordinal1) == NextVertexOrdinal(markers, vertexTable, o, from)
      decreases |markers[o]| - ordinal1
    {
      if vertexTable[GetMarkerId(markers, o, ordinal1)] != INVALID_COMPRESSED_VERTEX_ID {
        return Some(ordinal1);
      }
      ordinal1 := ordinal1 + 1;
    }
    return None;
  }

  /** The scan for one marker: the entry it contributes, if its oriented read reaches a vertex. */
  method ScanChild(markers: MarkerTable, vertexTable: seq<nat>, markerId: nat) returns (entry: Option<ChildEntry>)
    requires ValidVertexTable(markers, vertexTable) && markerId < TotalSize(markers)
    ensures entry == ChildOfMarker(markers, vertexTable, markerId)
  {
    var loc := FindMarkerId(markers, markerId);
    var o := loc.orientedReadValue;
    var next := ScanToNextVertex(markers, vertexTable, o, loc.ordinal + 1);
    if next.Some? {
      entry := Some(ChildEntry(vertexTable[GetMarkerId(markers, o, next.value)],
                               MarkerInterval(OrientedReadIdFromValue(o), loc.ordinal, next.value)));
    } else {
      entry := None;
    }
  }

  lemma {:induction false} ChildEntriesStep(markers: MarkerTable, vertexTable: seq<nat>, ms: seq<nat>, i: nat)
    requires ValidVertexTable(markers, vertexTable) && AllMarkers(markers, ms) && i < |ms|
    ensures var last := ChildOfMarker(markers, vertexTable, ms[i]);
      last.None? ==> ChildEntries(markers, vertexTable, ms[..i + 1]) == ChildEntries(markers, vertexTable, ms[..i])
    ensures var last := ChildOfMarker(markers, vertexTable, ms[i]);
      last.Some? ==> ChildEntries(markers, vertexTable, ms[..i + 1]) == ChildEntries(markers, vertexTable, ms[..i]) + [last.value]
  {
    assert ms[..i + 1][..i] == ms[..i];
  }

  /** First loop of getGlobalMarkerGraphVertexChildren: for each marker, scan the following
      ordinals of its oriented read and stop at the first one that has a vertex. */
  method GetChildEntries(markers: MarkerTable, vertexTable: seq<nat>, ms: seq<nat>) returns (workArea: seq<ChildEntry>)
    requires ValidVertexTable(markers, vertexTable) && AllMarkers(markers, ms)
    ensures workArea == ChildEntries(markers, vertexTable, ms)
  {
    workArea := [];
    var i := 0;
    while i < |ms|
      invariant 0 <= i <= |ms|
      invariant workArea == ChildEntries(markers, vertexTable, ms[..i])
    {
      ChildEntriesStep(markers, vertexTable, ms, i);
      var entry := ScanChild(markers, vertexTable, ms[i]);
      if entry.Some? {
        workArea := workArea + [entry.value];
      }
      i := i + 1;
    }
    assert ms[..|ms|] == ms;
  }

  /** One child of a vertex: the child vertex and the marker intervals that reach it. */
  datatype Child = Child(vertex: nat, intervals: seq<MarkerInterval>)

  /** The entries of one child: its vertex paired with each of its intervals. */
  function Tag(v: nat, intervals: seq<MarkerInterval>): (r: seq<ChildEntry>)
    ensures |r| == |intervals|
  {
    seq(|intervals|, k requires 0 <= k < |intervals| => ChildEntry(v, intervals[k]))
  }

  /** The entries a list of children stands for, child by child. */
  function Expand(children: seq<Child>): seq<ChildEntry>
  {
    if children == [] then []
    else Expand(children[..|children| - 1]) + Tag(children[|children| - 1].vertex, children[|children| - 1].intervals)
  }

  lemma {:induction false} ExpandSnoc(children: seq<Child>, c: Child)
    ensures Expand(children + [c]) == Expand(children) + Tag(c.vertex, c.intervals)
  {
    assert (children + [c])[..|children|] == children;
  }

  /** The intervals of the entries in [begin, end). */
  function StreakIntervals(workArea: seq<ChildEntry>, begin: nat, end: nat): (r: seq<MarkerInterval>)
    requires begin <= end <= |workArea|
    ensures |r| == end - begin
  {
    seq(end - begin, k requires 0 <= k < end - begin => workArea[begin + k].interval)
  }

  lemma {:induction false} TagStreak(workArea: seq<ChildEntry>, begin: nat, end: nat, v: nat)
    requires begin <= end <= |workArea|
    requires forall k :: begin <= k < end ==> workArea[k].child == v
    ensures Tag(v, StreakIntervals(workArea, begin, end)) == workArea[begin..end]
  {
  }

  /** The workArea sorted by child vertex, which std::sort of the pairs guarantees. */
  predicate SortedByChild(workArea: seq<ChildEntry>)
  {
    forall i, j :: 0 <= i < j < |workArea| ==> workArea[i].child <= workArea[j].child
  }

  /** What the streak loop has built after the first `begin` entries: the children so far,
      non-empty, in strictly increasing vertex order, the last one ending the passed entries
      and below the next entry's child. */
  ghost predicate GroupState(workArea: seq<ChildEntry>, children: seq<Child>, begin: nat)
  {
    begin <= |workArea|
    && Expand(children) == workArea[..begin]
    && (forall c :: 0 <= c < |children| ==> |children[c].intervals| > 0)
    && (forall c, d :: 0 <= c < d < |children| ==> children[c].vertex < children[d].vertex)
    && (begin > 0 ==> |children| > 0 && children[|children| - 1].vertex == workArea[begin - 1].child)
    && (begin < |workArea| && |children| > 0 ==> children[|children| - 1].vertex < workArea[begin].child)
  }

  /** Closing the streak [begin, end) of entries with child v as a new child keeps the state. */
  lemma GroupStep(workArea: seq<ChildEntry>, children: seq<Child>, begin: nat, end: nat)
    requires SortedByChild(workArea) && GroupState(workArea, children, begin)
    requires begin < end <= |workArea|
    requires forall k :: begin <= k < end ==> workArea[k].child == workArea[begin].child
    requires end < |workArea| ==> workArea[end].child != workArea[begin].child
    ensures GroupState(workArea, children + [Child(workArea[begin].child, StreakIntervals(workArea, begin, end))], end)
  {
    var v := workArea[begin].child;
    var newChild := Child(v, StreakIntervals(workArea, begin, end));
    ExpandSnoc(children, newChild);
    TagStreak(workArea, begin, end, v);
    assert workArea[..end] == workArea[..begin] + workArea[begin..end];
    if end < |workArea| {
      assert workArea[end - 1].child <= workArea[end].child;
    }
  }

  /** Second loop of getGlobalMarkerGraphVertexChildren: each streak of entries with the same
      child becomes one child. The children come out in strictly increasing vertex order,
      none is empty, and together they hold exactly the sorted workArea. */
  method GroupStreaks(workArea: seq<ChildEntry>) returns (children: seq<Child>)
    requires SortedByChild(workArea)
    ensures Expand(children) == workArea
    ensures forall c :: 0 <= c < |children| ==> |children[c].intervals| > 0
    ensures forall c, d :: 0 <= c < d < |children| ==> children[c].vertex < children[d].vertex
  {
    children := [];
    var streakBegin := 0;
    while streakBegin < |workArea|
      invariant GroupState(workArea, children, streakBegin)
      decreases |workArea| - streakBegin
    {
      var v := workArea[streakBegin].child;
      var streakEnd := streakBegin + 1;
      while streakEnd < |workArea| && workArea[streakEnd].child == v
        invariant streakBegin < streakEnd <= |workArea|
        invariant forall k :: streakBegin <= k < streakEnd ==> workArea[k].child == v
      {
        streakEnd := streakEnd + 1;
      }
      GroupStep(workArea, children, streakBegin, streakEnd);
      children := children + [Child(v, StreakIntervals(workArea, streakBegin, streakEnd))];
      streakBegin := streakEnd;
    }
    assert workArea[..|workArea|] == workArea;
  }

  /** The marker intervals, among the entries, of the oriented reads that reach vertex v1. */
  function IntervalsTo(entries: seq<ChildEntry>, v1: nat): (r: seq<MarkerInterval>)
    ensures |r| <= |entries|
  {
    if entries == [] then []
    else if entries[|entries| - 1].child == v1 then IntervalsTo(entries[..|entries| - 1], v1) + [entries[|entries| - 1].interval]
    else IntervalsTo(entries[..|entries| - 1], v1)
  }

  /** getMarkerIntervals: the intervals of a possible edge v0 -> v1, one per marker of v0 whose
      oriented read reaches v1 next. */
  method GetMarkerIntervals(markers: MarkerTable, vertexTable: seq<nat>, markerIds0: seq<nat>, v1: nat)
    returns (markerIntervals: seq<MarkerInterval>)
    requires ValidVertexTable(markers, vertexTable) && AllMarkers(markers, markerIds0)
    ensures markerIntervals == IntervalsTo(ChildEntries(markers, vertexTable, markerIds0), v1)
  {
    markerIntervals := [];
    var i := 0;
    while i < |markerIds0|
      invariant 0 <= i <= |markerIds0|
      invariant markerIntervals == IntervalsTo(ChildEntries(markers, vertexTable, markerIds0[..i]), v1)
    {
      var entry := ScanChild(markers, vertexTable, markerIds0[i]);
      IntervalsStep(markers, vertexTable, markerIds0, i, v1);
      if entry.Some? && entry.value.child == v1 {
        markerIntervals := markerIntervals + [entry.value.interval];
      }
      i := i + 1;
    }
    assert markerIds0[..|markerIds0|] == markerIds0;
  }

  /** A smaller start marker is a smaller marker interval. */
  lemma StartMarkerOrder(markers: MarkerTable, a: MarkerInterval, b: MarkerInterval)
    requires ValidInterval(markers, a) && ValidInterval(markers, b)
    requires StartMarker(markers, a) < StartMarker(markers, b)
    ensures IntervalLess(a, b)
  {
    var oa, ob := a.orientedReadId.Value(), b.orientedReadId.Value();
    if ob < oa || (oa == ob && b.ordinal0 <= a.ordinal0) {
      if ob < oa || b.ordinal0 < a.ordinal0 {
        MarkerIdOrder(markers, ob, b.ordinal0, oa, a.ordinal0);
      }
      assert false;
    }
  }

  predicate SortedIntervals(s: seq<MarkerInterval>)
  {
    forall i, j :: 0 <= i < j < |s| ==> IntervalLess(s[i], s[j])
  }

  /** The intervals of the markers of a vertex (sorted marker ids) come out already strictly
      sorted, so the closing std::sort of getMarkerIntervals leaves them as they are. */
  lemma {:induction false} MarkerIntervalsSorted(markers: MarkerTable, vertexTable: seq<nat>, ms: seq<nat>, v1: nat)
    requires ValidVertexTable(markers, vertexTable) && AllMarkers(markers, ms) && StrictlyIncreasing(ms)
    ensures SortedIntervals(IntervalsTo(ChildEntries(markers, vertexTable, ms), v1))
  {
    ChildEntriesStartsIncreasing(markers, vertexTable, ms);
    IntervalsToSorted(markers, ChildEntries(markers, vertexTable, ms), v1);
  }

  /** Every entry starts on an existing marker, and the start markers strictly increase. */
  predicate StartsIncreasing(markers: MarkerTable, entries: seq<ChildEntry>)
  {
    (forall k :: 0 <= k < |entries| ==> ValidInterval(markers, entries[k].interval))
    && forall i, j :: 0 <= i < j < |entries| ==> StartMarker(markers, entries[i].interval) < StartMarker(markers, entries[j].interval)
  }

  lemma {:induction false} IntervalsToSorted(markers: MarkerTable, entries: seq<ChildEntry>, v1: nat)
    requires StartsIncreasing(markers, entries)
    ensures var r := IntervalsTo(entries, v1);
      SortedIntervals(r)
      && (forall k :: 0 <= k < |r| ==> ValidInterval(markers, r[k]))
      && (entries != [] ==> forall k :: 0 <= k < |r| ==> StartMarker(markers, r[k]) <= StartMarker(markers, entries[|entries| - 1].interval))
  {
    if entries != [] {
      var n := |entries|;
      var prefix := entries[..n - 1];
      IntervalsToSorted(markers, prefix, v1);
      var r0 := IntervalsTo(prefix, v1);
      var e := entries[n - 1];
      assert forall k :: 0 <= k < |r0| ==> StartMarker(markers, r0[k]) < StartMarker(markers, e.interval) by {
        if prefix != [] {
          assert prefix[|prefix| - 1] == entries[n - 2];
        }
      }
      if e.child == v1 {
        forall k | 0 <= k < |r0| ensures IntervalLess(r0[k], e.interval) {
          StartMarkerOrder(markers, r0[k], e.interval);
        }
      }
    }
  }

  /** Every entry starts on an existing marker below the bound. */
  predicate StartsBelow(markers: MarkerTable, entries: seq<ChildEntry>, bound: nat)
  {
    forall k :: 0 <= k < |entries| ==>
      ValidInterval(markers, entries[k].interval) && StartMarker(markers, entries[k].interval) < bound
  }

  lemma StartsBelowWeaken(markers: MarkerTable, entries: seq<ChildEntry>, a: nat, b: nat)
    requires StartsBelow(markers, entries, a) && a <= b
    ensures StartsBelow(markers, entries, b)
  {
  }

  lemma StartsSnoc(markers: MarkerTable, entries: seq<ChildEntry>, e: ChildEntry)
    requires StartsIncreasing(markers, entries) && ValidInterval(markers, e.interval)
    requires StartsBelow(markers, entries, StartMarker(markers, e.interval))
    ensures StartsIncreasing(markers, entries + [e])
    ensures StartsBelow(markers, entries + [e], StartMarker(markers, e.interval) + 1)
  {
  }

  lemma PrefixIncreasing(markers: MarkerTable, ms: seq<nat>)
    requires AllMarkers(markers, ms) && StrictlyIncreasing(ms) && ms != []
    ensures AllMarkers(markers, ms[..|ms| - 1]) && StrictlyIncreasing(ms[..|ms| - 1])
    ensures |ms| > 1 ==> ms[..|ms| - 1][|ms| - 2] < ms[|ms| - 1]
  {
  }

  lemma {:induction false} ChildEntriesStartsIncreasing(markers: MarkerTable, vertexTable: seq<nat>, ms: seq<nat>)
    requires ValidVertexTable(markers, vertexTable) && AllMarkers(markers, ms) && StrictlyIncreasing(ms)
    ensures StartsIncreasing(markers, ChildEntries(markers, vertexTable, ms))
    ensures ms != [] ==> StartsBelow(markers, ChildEntries(markers, vertexTable, ms), ms[|ms| - 1] + 1)
  {
    if ms != [] {
      var n := |ms|;
      var prefix := ms[..n - 1];
      PrefixIncreasing(markers, ms);
      ChildEntriesStartsIncreasing(markers, vertexTable, prefix);
      var r0 := ChildEntries(markers, vertexTable, prefix);
      if prefix != [] {
        StartsBelowWeaken(markers, r0, prefix[|prefix| - 1] + 1, ms[n - 1]);
      }
      var last := ChildOfMarker(markers, vertexTable, ms[n - 1]);
      if last.Some? {
        StartsSnoc(markers, r0, last.value);
      } else {
        StartsBelowWeaken(markers, r0, ms[n - 1], ms[n - 1] + 1);
      }
    }
  }

  /** One marker's contribution to getMarkerIntervals. */
  lemma {:induction false} IntervalsStep(markers: MarkerTable, vertexTable: seq<nat>, ms: seq<nat>, i: nat, v1: nat)
    requires ValidVertexTable(markers, vertexTable) && AllMarkers(markers, ms) && i < |ms|
    ensures var last := ChildOfMarker(markers, vertexTable, ms[i]);
      last.Some? && last.value.child == v1 ==>
        IntervalsTo(ChildEntries(markers, vertexTable, ms[..i + 1]), v1)
          == IntervalsTo(ChildEntries(markers, vertexTable, ms[..i]), v1) + [last.value.interval]
    ensures var last := ChildOfMarker(markers, vertexTable, ms[i]);
      !(last.Some? && last.value.child == v1) ==>
        IntervalsTo(ChildEntries(markers, vertexTable, ms[..i + 1]), v1)
          == IntervalsTo(ChildEntries(markers, vertexTable, ms[..i]), v1)
  {
    ChildEntriesStep(markers, vertexTable, ms, i);
    var last := ChildOfMarker(markers, vertexTable, ms[i]);
    if last.Some? {
      IntervalsToSnoc(ChildEntries(markers, vertexTable, ms[..i]), last.value, v1);
    }
  }

  lemma {:induction false} IntervalsToSnoc(prev: seq<ChildEntry>, e: ChildEntry, v1: nat)
    ensures e.child == v1 ==> IntervalsTo(prev + [e], v1) == IntervalsTo(prev, v1) + [e.interval]
    ensures e.child != v1 ==> IntervalsTo(prev + [e], v1) == IntervalsTo(prev, v1)
  {
    assert (prev + [e])[..|prev|] == prev;
  }

  // ----- findNextMarkerGraphVertices -----

  /** uint32 addition, which wraps. */
  function AddUint32(a: nat, b: nat): (r: nat)
    ensures r <= UINT32_MAX
    ensures a + b <= UINT32_MAX ==> r == a + b
  {
    (a + b) % (UINT32_MAX + 1)
  }

  function Min(a: nat, b: nat): nat { if a <= b then a else b }

  /** The vertex reached within the ordinals before `end`, or invalidVertexId. */
  function NextVertexBefore(markers: MarkerTable, vertexTable: seq<nat>, markerId: nat, end: nat): (r: nat)
    requires ValidVertexTable(markers, vertexTable) && markerId < TotalSize(markers)
    requires end <= |markers[FindMarkerId(markers, markerId).orientedReadValue]|
  {
    var loc := FindMarkerId(markers, markerId);
    var next := NextVertexOrdinalBefore(markers, vertexTable, loc.orientedReadValue, loc.ordinal + 1, end);
    if next.None? then INVALID_VERTEX_ID
    else vertexTable[GetMarkerId(markers, loc.orientedReadValue, next.value)]
  }

  /** findNextMarkerGraphVertices for one marker as written: the end ordinal
      min(markerCount, ordinal + maxSkip + 1) is computed in uint32 and wraps for large
      maxSkip. */
  function NextVertexAsWritten(markers: MarkerTable, vertexTable: seq<nat>, markerId: nat, maxSkip: nat): (r: nat)
    requires ValidVertexTable(markers, vertexTable) && markerId < TotalSize(markers)
    requires maxSkip <= UINT32_MAX
    // Without wrap-around it is the intended search.
    ensures FindMarkerId(markers, markerId).ordinal + maxSkip + 1 <= UINT32_MAX ==>
      r == NextVertexWithinSkip(markers, vertexTable, markerId, maxSkip)
  {
    var loc := FindMarkerId(markers, markerId);
    var markerCount := |markers[loc.orientedReadValue]|;
    NextVertexBefore(markers, vertexTable, markerId, Min(markerCount, AddUint32(AddUint32(loc.ordinal, maxSkip), 1)))
  }

  /** One marker of one oriented read, followed by a marker on vertex 1; with maxSkip the
      largest uint32, the wrapped end ordinal is 0 and the search never starts. */
  lemma NextVertexAsWrittenMissesVertex()
    ensures var markers := [[CompressedMarker(0, 0), CompressedMarker(0, 1)]];
      NextVertexAsWritten(markers, [0, 1], 0, UINT32_MAX) == INVALID_VERTEX_ID
      && NextVertexWithinSkip(markers, [0, 1], 0, UINT32_MAX) == 1
  {
    var markers := [[CompressedMarker(0, 0), CompressedMarker(0, 1)]];
    assert FindMarkerId(markers, 0) == MarkerLocation(0, 0);
    assert GetMarkerId(markers, 0, 1) == 1;
  }

  /** The intended search: the next vertex of the oriented read if one is at most maxSkip
      markers ahead, invalidVertexId otherwise. */
  function NextVertexWithinSkip(markers: MarkerTable, vertexTable: seq<nat>, markerId: nat, maxSkip: nat): (r: nat)
    requires ValidVertexTable(markers, vertexTable) && markerId < TotalSize(markers)
    ensures var loc := FindMarkerId(markers, markerId);
      var next := NextVertexOrdinal(markers, vertexTable, loc.orientedReadValue, loc.ordinal + 1);
      r == if next.Some? && next.value <= loc.ordinal + maxSkip
           then vertexTable[GetMarkerId(markers, loc.orientedReadValue, next.value)]
           else INVALID_VERTEX_ID
  {
    var loc := FindMarkerId(markers, markerId);
    var o := loc.orientedReadValue;
    var end := Min(|markers[o]|, loc.ordinal + maxSkip + 1);
    var bounded := NextVertexOrdinalBefore(markers, vertexTable, o, loc.ordinal + 1, end);
    var next := NextVertexOrdinal(markers, vertexTable, o, loc.ordinal + 1);
    assert bounded.Some? ==> next.Some? && next.value == bounded.value;
    assert bounded.None? && next.Some? ==> next.value >= end;
    NextVertexBefore(markers, vertexTable, markerId, end)
  }

  /** findNextMarkerGraphVertices with the end ordinal computed without wrapping: one entry per
      marker of the vertex, in the same order. */
  method FindNextMarkerGraphVertices(markers: MarkerTable, vertexTable: seq<nat>, markerIds: seq<nat>, maxSkip: nat)
    returns (nextVertices: seq<nat>)
    requires ValidVertexTable(markers, vertexTable) && AllMarkers(markers, markerIds)
    ensures |nextVertices| == |markerIds|
    ensures forall i :: 0 <= i < |markerIds| ==> nextVertices[i] == NextVertexWithinSkip(markers, vertexTable, markerIds[i], maxSkip)
  {
    nextVertices := [];
    var i := 0;
    while i < |markerIds|
      invariant 0 <= i <= |markerIds| && |nextVertices| == i
      invariant forall j :: 0 <= j < i ==> nextVertices[j] == NextVertexWithinSkip(markers, vertexTable, markerIds[j], maxSkip)
    {
      var loc := FindMarkerId(markers, markerIds[i]);
      var o := loc.orientedReadValue;
      var markerCount := |markers[o]|;
      var nextVertexId := INVALID_VERTEX_ID;
      var ordinalEnd := Min(markerCount, loc.ordinal + maxSkip + 1);
      var ordinal := loc.ordinal + 1;
      while ordinal < ordinalEnd
        invariant loc.ordinal < ordinal
        invariant NextVertexOrdinalBefore(markers, vertexTable, o, ordinal, ordinalEnd)
          == NextVertexOrdinalBefore(markers, vertexTable, o, loc.ordinal + 1, ordinalEnd)
        decreases ordinalEnd - ordinal
      {
        var compressed := vertexTable[GetMarkerId(markers, o, ordinal)];
        if compressed != INVALID_COMPRESSED_VERTEX_ID {
          nextVertexId := compressed;
          break;
        }
        ordinal := ordinal + 1;
      }
      nextVertices := nextVertices + [nextVertexId];
      i := i + 1;
    }
  }
}

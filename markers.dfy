/** Markers and marker ids. Every oriented read carries a list of markers (a k-mer id and
    its position in the run-length read); all the lists are stored one after another, in
    increasing order of OrientedReadId value, and a MarkerId is a position in that
    concatenation. getMarkerId and findMarkerId convert between the two views. */
module Markers {
  import opened Common

  /** One marker of an oriented read: the id of its k-mer and its position in the read. */
  datatype CompressedMarker = CompressedMarker(kmerId: nat, position: nat)

  /** The markers of every oriented read, indexed by OrientedReadId value. */
  type MarkerTable = seq<seq<CompressedMarker>>

  /** Number of markers stored before those of oriented read value o. */
  function Offset(markers: MarkerTable, o: nat): nat
    requires o <= |markers|
  {
    if o == 0 then 0 else Offset(markers, o - 1) + |markers[o - 1]|
  }

  /** markers.totalSize(): the number of oriented markers. */
  function TotalSize(markers: MarkerTable): nat
  {
    Offset(markers, |markers|)
  }

  lemma {:induction false} OffsetMonotone(markers: MarkerTable, o: nat, p: nat)
    requires o <= p <= |markers|
    ensures Offset(markers, o) <= Offset(markers, p)
    decreases p - o
  {
    if o < p {
      OffsetMonotone(markers, o, p - 1);
    }
  }

  /** Marker count of oriented read value o (markers.size(o)). */
  function MarkerCount(markers: MarkerTable, o: nat): nat
  {
    if o < |markers| then |markers[o]| else 0
  }

  /** getMarkerId: the global id of the marker at an ordinal of an oriented read. */
  function GetMarkerId(markers: MarkerTable, o: nat, ordinal: nat): (m: nat)
    requires o < |markers| && ordinal < |markers[o]|
    ensures m < TotalSize(markers)
  {
    OffsetMonotone(markers, o + 1, |markers|);
    Offset(markers, o) + ordinal
  }

  /** A marker, located: oriented read value and ordinal. */
  datatype MarkerLocation = MarkerLocation(orientedReadValue: nat, ordinal: nat)

  /** findMarkerId: the oriented read and ordinal of a global marker id, searching the oriented
      reads below value o, from the last one down. */
  function FindMarkerIdBelow(markers: MarkerTable, markerId: nat, o: nat): (r: MarkerLocation)
    requires o <= |markers| && markerId < Offset(markers, o)
    ensures r.orientedReadValue < o && r.ordinal < |markers[r.orientedReadValue]|
    ensures Offset(markers, r.orientedReadValue) + r.ordinal == markerId
  {
    if Offset(markers, o - 1) <= markerId then
      MarkerLocation(o - 1, markerId - Offset(markers, o - 1))
    else
      FindMarkerIdBelow(markers, markerId, o - 1)
  }

  function FindMarkerId(markers: MarkerTable, markerId: nat): (r: MarkerLocation)
    requires markerId < TotalSize(markers)
    ensures r.orientedReadValue < |markers| && r.ordinal < |markers[r.orientedReadValue]|
    ensures GetMarkerId(markers, r.orientedReadValue, r.ordinal) == markerId
  {
    FindMarkerIdBelow(markers, markerId, |markers|)
  }

  /** A global marker id belongs to exactly one (oriented read, ordinal) pair. */
  lemma {:induction false} MarkerIdInjective(markers: MarkerTable, o0: nat, i0: nat, o1: nat, i1: nat)
    requires o0 < |markers| && i0 < |markers[o0]| && o1 < |markers| && i1 < |markers[o1]|
    requires GetMarkerId(markers, o0, i0) == GetMarkerId(markers, o1, i1)
    ensures o0 == o1 && i0 == i1
  {
    if o0 < o1 {
      OffsetMonotone(markers, o0 + 1, o1);
      assert false;
    } else if o1 < o0 {
      OffsetMonotone(markers, o1 + 1, o0);
      assert false;
    }
  }

  /** findMarkerId inverts getMarkerId. */
  lemma FindMarkerIdOfMarkerId(markers: MarkerTable, o: nat, ordinal: nat)
    requires o < |markers| && ordinal < |markers[o]|
    ensures FindMarkerId(markers, GetMarkerId(markers, o, ordinal)) == MarkerLocation(o, ordinal)
  {
    var r := FindMarkerId(markers, GetMarkerId(markers, o, ordinal));
    MarkerIdInjective(markers, o, ordinal, r.orientedReadValue, r.ordinal);
  }

  /** Marker ids increase with (oriented read value, ordinal) in lexicographic order. */
  lemma {:induction false} MarkerIdOrder(markers: MarkerTable, o0: nat, i0: nat, o1: nat, i1: nat)
    requires o0 < |markers| && i0 < |markers[o0]| && o1 < |markers| && i1 < |markers[o1]|
    requires o0 < o1 || (o0 == o1 && i0 < i1)
    ensures GetMarkerId(markers, o0, i0) < GetMarkerId(markers, o1, i1)
  {
    if o0 < o1 {
      OffsetMonotone(markers, o0 + 1, o1);
    }
  }

  /** The oriented read value of a marker: findMarkerId(markerId).first.getValue(). */
  function OrientedReadValueOf(markers: MarkerTable, markerId: nat): nat
    requires markerId < TotalSize(markers)
  {
    FindMarkerId(markers, markerId).orientedReadValue
  }

  /** Sorting marker ids sorts their oriented reads: a smaller marker id never belongs to a
      larger oriented read. */
  lemma OrientedReadValueMonotone(markers: MarkerTable, m0: nat, m1: nat)
    requires m0 <= m1 < TotalSize(markers)
    ensures OrientedReadValueOf(markers, m0) <= OrientedReadValueOf(markers, m1)
  {
    var r0 := FindMarkerId(markers, m0);
    var r1 := FindMarkerId(markers, m1);
    if r1.orientedReadValue < r0.orientedReadValue {
      MarkerIdOrder(markers, r1.orientedReadValue, r1.ordinal, r0.orientedReadValue, r0.ordinal);
      assert false;
    }
  }

  // ----- Marker intervals -----

  /** A pair of ordinals on one oriented read: the contribution of that read to a marker
      graph edge. */
  datatype MarkerInterval = MarkerInterval(orientedReadId: OrientedReadId, ordinal0: nat, ordinal1: nat)

  /** MarkerInterval ordering: by oriented read, then by the two ordinals. */
  predicate IntervalLess(a: MarkerInterval, b: MarkerInterval)
  {
    a.orientedReadId.Value() < b.orientedReadId.Value()
    || (a.orientedReadId.Value() == b.orientedReadId.Value()
        && (a.ordinal0 < b.ordinal0 || (a.ordinal0 == b.ordinal0 && a.ordinal1 < b.ordinal1)))
  }

  /** The interval the same read stretch has on the opposite strand: flip the strand, map each
      ordinal x to markerCount - 1 - x and swap the two (uint32 arithmetic that cannot wrap
      while the ordinals are below markerCount). */
  function ReverseComplementInterval(interval: MarkerInterval, markerCount: nat): (r: MarkerInterval)
    requires interval.orientedReadId.Valid()
    requires interval.ordinal0 < markerCount && interval.ordinal1 < markerCount
    ensures r.orientedReadId.Valid() && r.orientedReadId.readId == interval.orientedReadId.readId
    ensures r.orientedReadId.strand != interval.orientedReadId.strand
    ensures r.ordinal0 < markerCount && r.ordinal1 < markerCount
    ensures interval.ordinal0 < interval.ordinal1 ==> r.ordinal0 < r.ordinal1
    ensures r.ordinal1 - r.ordinal0 == interval.ordinal1 - interval.ordinal0
  {
    MarkerInterval(interval.orientedReadId.FlipStrand(),
      markerCount - 1 - interval.ordinal1,
      markerCount - 1 - interval.ordinal0)
  }

  /** Reverse complementing twice gives back the interval (both strands of a read have the
      same number of markers). */
  lemma ReverseComplementIntervalInvolution(interval: MarkerInterval, markerCount: nat)
    requires interval.orientedReadId.Valid()
    requires interval.ordinal0 < markerCount && interval.ordinal1 < markerCount
    ensures ReverseComplementInterval(ReverseComplementInterval(interval, markerCount), markerCount) == interval
  {
  }
}

/** Offsets between segments of the mode 3 assembly graph (estimateOffset, analyzeSegmentPair).
    Each segment comes with the oriented reads on it, in increasing oriented read order, and
    each read's average offset in markers from the start of the segment. Both operations walk
    the two lists together, as a merge does. */
module Mode3Offsets {
  import opened Common

  /** SegmentOrientedReadInformation::Info: an oriented read on a segment and its average offset. */
  datatype Info = Info(orientedReadId: OrientedReadId, averageOffset: int)

  /** The value the offset gets when the segments share no oriented read: the largest uint64
      assigned to an int64. */
  const INVALID_OFFSET: int := -1

  /** The entries are in strictly increasing oriented read order, as std::map iteration gives. */
  predicate SortedInfos(infos: seq<Info>)
  {
    forall i, j :: 0 <= i < j < |infos| ==> infos[i].orientedReadId.Less(infos[j].orientedReadId)
  }

  function Key(info: Info): nat
  {
    info.orientedReadId.Value()
  }

  /** The oriented reads of a list, by value. */
  function ReadSet(infos: seq<Info>): set<nat>
  {
    set i | 0 <= i < |infos| :: Key(infos[i])
  }

  /** The average offset of the first entry of the read with value v; 0 when there is none. */
  function OffsetOf(infos: seq<Info>, v: nat): int
  {
    if infos == [] then 0 else if Key(infos[0]) == v then infos[0].averageOffset else OffsetOf(infos[1..], v)
  }

  lemma {:induction false} OffsetOfAt(infos: seq<Info>, j: nat)
    requires SortedInfos(infos) && j < |infos|
    ensures OffsetOf(infos, Key(infos[j])) == infos[j].averageOffset
  {
    if j > 0 {
      assert infos[0].orientedReadId.Less(infos[j].orientedReadId);
      OffsetOfAt(infos[1..], j - 1);
    }
  }

  /** The number of entries of s whose read is also in t. */
  function CommonCount(s: seq<Info>, t: seq<Info>): nat
  {
    if s == [] then 0
    else if Key(s[|s| - 1]) in ReadSet(t) then CommonCount(s[..|s| - 1], t) + 1
    else CommonCount(s[..|s| - 1], t)
  }

  /** The sum, over the reads of s also in t, of the offset on s less the offset on t. */
  function CommonSum(s: seq<Info>, t: seq<Info>): int
  {
    if s == [] then 0
    else if Key(s[|s| - 1]) in ReadSet(t) then
      CommonSum(s[..|s| - 1], t) + (s[|s| - 1].averageOffset - OffsetOf(t, Key(s[|s| - 1])))
    else CommonSum(s[..|s| - 1], t)
  }

  /** The reads of a non-empty list are those of all but its last entry, plus the last one,
      which is not among the others. */
  lemma ReadSetLast(s: seq<Info>)
    requires SortedInfos(s) && s != []
    ensures ReadSet(s) == ReadSet(s[..|s| - 1]) + {Key(s[|s| - 1])}
    ensures Key(s[|s| - 1]) !in ReadSet(s[..|s| - 1])
  {
    var rest := s[..|s| - 1];
    assert forall i :: 0 <= i < |rest| ==> Key(rest[i]) == Key(s[i]);
    forall i | 0 <= i < |rest| ensures Key(rest[i]) != Key(s[|s| - 1]) {
      assert s[i].orientedReadId.Less(s[|s| - 1].orientedReadId);
    }
  }

  lemma IntersectionAddOne(a: set<nat>, b: set<nat>, x: nat)
    requires x !in a
    ensures |(a + {x}) * b| == |a * b| + (if x in b then 1 else 0)
  {
    if x in b {
      assert (a + {x}) * b == (a * b) + {x};
    } else {
      assert (a + {x}) * b == a * b;
    }
  }

  /** The number of common oriented reads is the size of the intersection of the two read sets. */
  lemma {:induction false} CommonCountIsIntersection(s: seq<Info>, t: seq<Info>)
    requires SortedInfos(s)
    ensures CommonCount(s, t) == |ReadSet(s) * ReadSet(t)|
  {
    if s != [] {
      var rest := s[..|s| - 1];
      assert SortedInfos(rest);
      CommonCountIsIntersection(rest, t);
      ReadSetLast(s);
      IntersectionAddOne(ReadSet(rest), ReadSet(t), Key(s[|s| - 1]));
    }
  }

  /** Counting the reads of s found in t counts the reads of t found in s. */
  lemma CommonCountSymmetric(s: seq<Info>, t: seq<Info>)
    requires SortedInfos(s) && SortedInfos(t)
    ensures CommonCount(s, t) == CommonCount(t, s)
  {
    CommonCountIsIntersection(s, t);
    CommonCountIsIntersection(t, s);
    assert ReadSet(s) * ReadSet(t) == ReadSet(t) * ReadSet(s);
  }

  /** Entries whose reads are not in t add nothing to the common count and sum. */
  lemma {:induction false} CommonTail(s: seq<Info>, t: seq<Info>, i: nat)
    requires i <= |s| && forall a :: i <= a < |s| ==> Key(s[a]) !in ReadSet(t)
    ensures CommonCount(s, t) == CommonCount(s[..i], t) && CommonSum(s, t) == CommonSum(s[..i], t)
    decreases |s| - i
  {
    if i < |s| {
      CommonTail(s, t, i + 1);
      assert s[..i + 1][..i] == s[..i];
    } else {
      assert s[..i] == s;
    }
  }

  /** What a merge of s and t at positions i and j has established: every entry passed in one
      list is below every entry not yet passed in the other. */
  predicate MergeOrder(s: seq<Info>, t: seq<Info>, i: nat, j: nat)
  {
    i <= |s| && j <= |t|
    && (forall a, b :: 0 <= a < i && j <= b < |t| ==> Key(s[a]) < Key(t[b]))
    && (forall a, b :: 0 <= b < j && i <= a < |s| ==> Key(t[b]) < Key(s[a]))
  }

  /** Passing an entry of s below the next entry of t, or with t exhausted: that entry's read
      is not in t, and the merge order still holds. */
  lemma MergePassFirst(s: seq<Info>, t: seq<Info>, i: nat, j: nat)
    requires SortedInfos(s) && SortedInfos(t) && MergeOrder(s, t, i, j) && i < |s|
    requires j == |t| || Key(s[i]) < Key(t[j])
    ensures Key(s[i]) !in ReadSet(t)
    ensures MergeOrder(s, t, i + 1, j) && MergeOrder(t, s, j, i + 1)
  {
    forall b | 0 <= b < |t| ensures Key(t[b]) != Key(s[i]) && (j <= b ==> Key(s[i]) < Key(t[b])) {
      if j < b {
        assert t[j].orientedReadId.Less(t[b].orientedReadId);
      }
    }
    forall a, b | 0 <= b < j && i + 1 <= a < |s| ensures Key(t[b]) < Key(s[a]) {
      assert Key(t[b]) < Key(s[i]);
      assert s[i].orientedReadId.Less(s[a].orientedReadId);
    }
  }

  /** Passing an entry present in both lists keeps the merge order. */
  lemma MergePassBoth(s: seq<Info>, t: seq<Info>, i: nat, j: nat)
    requires SortedInfos(s) && SortedInfos(t) && MergeOrder(s, t, i, j) && i < |s| && j < |t|
    requires Key(s[i]) == Key(t[j])
    ensures MergeOrder(s, t, i + 1, j + 1) && MergeOrder(t, s, j + 1, i + 1)
  {
    forall a, b | 0 <= a < i + 1 && j + 1 <= b < |t| ensures Key(s[a]) < Key(t[b]) {
      assert t[j].orientedReadId.Less(t[b].orientedReadId);
    }
    forall a, b | 0 <= b < j + 1 && i + 1 <= a < |s| ensures Key(t[b]) < Key(s[a]) {
      assert s[i].orientedReadId.Less(s[a].orientedReadId);
    }
  }

  /** One step of a merge along s: the common count and sum of the passed entries. */
  lemma CommonStep(s: seq<Info>, t: seq<Info>, i: nat)
    requires i < |s|
    ensures Key(s[i]) !in ReadSet(t) ==>
      CommonCount(s[..i + 1], t) == CommonCount(s[..i], t) && CommonSum(s[..i + 1], t) == CommonSum(s[..i], t)
    ensures Key(s[i]) in ReadSet(t) ==>
      CommonCount(s[..i + 1], t) == CommonCount(s[..i], t) + 1
      && CommonSum(s[..i + 1], t) == CommonSum(s[..i], t) + (s[i].averageOffset - OffsetOf(t, Key(s[i])))
  {
    assert s[..i + 1][..i] == s[..i];
  }

  /** std::round of n / d: the nearest integer, halves rounded away from zero. */
  function RoundQuotient(n: int, d: nat): (q: int)
    requires 0 < d
    ensures 0 <= n ==> -(d as int) <= 2 * (n - q * d) < d
    ensures n < 0 ==> -(d as int) < 2 * (n - q * d) <= d
  {
    if 0 <= n then
      var q := (2 * n + d) / (2 * d);
      assert (2 * n + d) == q * (2 * d) + (2 * n + d) % (2 * d);
      q
    else
      var q := (-2 * n + d) / (2 * d);
      assert (-2 * n + d) == q * (2 * d) + (-2 * n + d) % (2 * d);
      -q
  }

  /** estimateOffset: the number of oriented reads on both segments and, when there is one, the
      rounded average of their offset differences; otherwise the invalid offset. */
  method EstimateOffset(infos0: seq<Info>, infos1: seq<Info>) returns (offset: int, commonOrientedReadCount: nat)
    requires SortedInfos(infos0) && SortedInfos(infos1)
    ensures commonOrientedReadCount == CommonCount(infos0, infos1)
    ensures commonOrientedReadCount == 0 ==> offset == INVALID_OFFSET
    ensures 0 < commonOrientedReadCount ==> offset == RoundQuotient(CommonSum(infos0, infos1), commonOrientedReadCount)
  {
    var sum := 0;
    commonOrientedReadCount := 0;
    var i0, i1 := 0, 0;
    while i0 < |infos0| && i1 < |infos1|
      invariant MergeOrder(infos0, infos1, i0, i1)
      invariant commonOrientedReadCount == CommonCount(infos0[..i0], infos1)
      invariant sum == CommonSum(infos0[..i0], infos1)
      decreases |infos0| - i0 + |infos1| - i1
    {
      CommonStep(infos0, infos1, i0);
      if infos0[i0].orientedReadId.Less(infos1[i1].orientedReadId) {
        MergePassFirst(infos0, infos1, i0, i1);
        i0 := i0 + 1;
      } else if infos1[i1].orientedReadId.Less(infos0[i0].orientedReadId) {
        MergePassFirst(infos1, infos0, i1, i0);
        i1 := i1 + 1;
      } else {
        MergePassBoth(infos0, infos1, i0, i1);
        OffsetOfAt(infos1, i1);
        commonOrientedReadCount := commonOrientedReadCount + 1;
        sum := sum + (infos0[i0].averageOffset - infos1[i1].averageOffset);
        i0 := i0 + 1;
        i1 := i1 + 1;
      }
    }
    forall a | i0 <= a < |infos0| ensures Key(infos0[a]) !in ReadSet(infos1) {
      assert i1 == |infos1|;
      forall b | 0 <= b < |infos1| ensures Key(infos1[b]) != Key(infos0[a]) { }
    }
    CommonTail(infos0, infos1, i0);
    if commonOrientedReadCount > 0 {
      offset := RoundQuotient(sum, commonOrientedReadCount);
    } else {
      offset := INVALID_OFFSET;
    }
  }

  // ----- analyzeSegmentPair -----

  /** SegmentPairInformation: read counts per segment, the common count and offset, and the
      reads missing from each segment, split by whether they would have reached it. */
  datatype SegmentPairInformation = SegmentPairInformation(
    totalCount0: nat, totalCount1: nat, commonCount: nat, offset: int,
    unexplainedCount0: nat, unexplainedCount1: nat, shortCount0: nat, shortCount1: nat)

  /** Two right-open integer intervals [low0, up0) and [low1, up1) intersect: both are non-empty
      and they overlap (boost::icl::intersects). */
  predicate Intersects(low0: int, up0: int, low1: int, up1: int)
  {
    low0 < up0 && low1 < up1 && low0 < up1 && low1 < up0
  }

  /** A read on one segment only, with this average offset and length in markers, shifted by
      shift relative to the other segment of length otherLength, would overlap that segment. */
  predicate WouldOverlap(averageOffset: int, shift: int, readLength: nat, otherLength: nat)
  {
    Intersects(averageOffset + shift, averageOffset + shift + readLength, 0, otherLength)
  }

  /** The number of entries of s whose read is not in t and which would overlap the other
      segment (overlapping) or would not (not overlapping). */
  function MissingCount(s: seq<Info>, t: seq<Info>, shift: int, markerCounts: seq<nat>, otherLength: nat,
      overlapping: bool): nat
    requires forall a :: 0 <= a < |s| ==> Key(s[a]) < |markerCounts|
  {
    if s == [] then 0
    else
      var x := s[|s| - 1];
      var rest := MissingCount(s[..|s| - 1], t, shift, markerCounts, otherLength, overlapping);
      if Key(x) !in ReadSet(t)
        && WouldOverlap(x.averageOffset, shift, markerCounts[Key(x)], otherLength) == overlapping
      then rest + 1 else rest
  }

  /** Every read of s is common, or missing from t and overlapping, or missing and short. */
  lemma {:induction false} MissingSplit(s: seq<Info>, t: seq<Info>, shift: int, markerCounts: seq<nat>, otherLength: nat)
    requires forall a :: 0 <= a < |s| ==> Key(s[a]) < |markerCounts|
    ensures MissingCount(s, t, shift, markerCounts, otherLength, true)
      + MissingCount(s, t, shift, markerCounts, otherLength, false) + CommonCount(s, t) == |s|
  {
    if s != [] {
      MissingSplit(s[..|s| - 1], t, shift, markerCounts, otherLength);
    }
  }

  lemma MissingStep(s: seq<Info>, t: seq<Info>, shift: int, markerCounts: seq<nat>, otherLength: nat, i: nat)
    requires i < |s| && forall a :: 0 <= a < |s| ==> Key(s[a]) < |markerCounts|
    ensures forall overlapping: bool ::
      MissingCount(s[..i + 1], t, shift, markerCounts, otherLength, overlapping)
      == MissingCount(s[..i], t, shift, markerCounts, otherLength, overlapping)
      + (if Key(s[i]) !in ReadSet(t)
           && WouldOverlap(s[i].averageOffset, shift, markerCounts[Key(s[i])], otherLength) == overlapping
         then 1 else 0)
  {
    assert s[..i + 1][..i] == s[..i];
  }

  /** The counts of the merge in analyzeSegmentPair after passing i0 entries of infos0 and i1
      of infos1. */
  ghost predicate MissingCounts(infos0: seq<Info>, infos1: seq<Info>, markerCounts: seq<nat>,
      length0: nat, length1: nat, offset: int, i0: nat, i1: nat, info01: SegmentPairInformation)
    requires i0 <= |infos0| && i1 <= |infos1|
    requires forall a :: 0 <= a < |infos0| ==> Key(infos0[a]) < |markerCounts|
    requires forall a :: 0 <= a < |infos1| ==> Key(infos1[a]) < |markerCounts|
  {
    info01.unexplainedCount0 == MissingCount(infos0[..i0], infos1, -offset, markerCounts, length1, true)
    && info01.shortCount0 == MissingCount(infos0[..i0], infos1, -offset, markerCounts, length1, false)
    && info01.unexplainedCount1 == MissingCount(infos1[..i1], infos0, offset, markerCounts, length0, true)
    && info01.shortCount1 == MissingCount(infos1[..i1], infos0, offset, markerCounts, length0, false)
  }

  /** analyzeSegmentPair: the read counts, the offset estimate and, when the segments share a
      read, the reads on one segment only, counted as unexplained when they would overlap the
      other segment given the offset and as short otherwise. With no common read the missing
      counts keep their previous values. */
  method AnalyzeSegmentPair(length0: nat, length1: nat, infos0: seq<Info>, infos1: seq<Info>,
      markerCounts: seq<nat>, previous: SegmentPairInformation) returns (info01: SegmentPairInformation)
    requires SortedInfos(infos0) && SortedInfos(infos1)
    requires forall a :: 0 <= a < |infos0| ==> Key(infos0[a]) < |markerCounts|
    requires forall a :: 0 <= a < |infos1| ==> Key(infos1[a]) < |markerCounts|
    ensures info01.totalCount0 == |infos0| && info01.totalCount1 == |infos1|
    ensures info01.commonCount == CommonCount(infos0, infos1)
    ensures info01.commonCount == 0 ==>
      (info01.offset == INVALID_OFFSET
       && info01.unexplainedCount0 == previous.unexplainedCount0 && info01.unexplainedCount1 == previous.unexplainedCount1
       && info01.shortCount0 == previous.shortCount0 && info01.shortCount1 == previous.shortCount1)
    ensures 0 < info01.commonCount ==>
      (info01.offset == RoundQuotient(CommonSum(infos0, infos1), info01.commonCount)
       && MissingCounts(infos0, infos1, markerCounts, length0, length1, info01.offset, |infos0|, |infos1|, info01))
  {
    info01 := previous.(totalCount0 := |infos0|, totalCount1 := |infos1|);
    var offset, commonCount := EstimateOffset(infos0, infos1);
    info01 := info01.(offset := offset, commonCount := commonCount);
    if commonCount == 0 {
      return;
    }
    info01 := info01.(unexplainedCount0 := 0, unexplainedCount1 := 0, shortCount0 := 0, shortCount1 := 0);
    info01 := CountMissing(length0, length1, infos0, infos1, markerCounts, info01);
  }

  /** A read of s[i] on its own segment only: it is counted as unexplained when, shifted by
      shift, it would overlap the other segment, and as short otherwise. */
  method CountOneSided(s: seq<Info>, t: seq<Info>, shift: int, markerCounts: seq<nat>, otherLength: nat,
      i: nat, unexplained: nat, short: nat) returns (newUnexplained: nat, newShort: nat)
    requires i < |s| && forall a :: 0 <= a < |s| ==> Key(s[a]) < |markerCounts|
    requires Key(s[i]) !in ReadSet(t)
    requires unexplained == MissingCount(s[..i], t, shift, markerCounts, otherLength, true)
    requires short == MissingCount(s[..i], t, shift, markerCounts, otherLength, false)
    ensures newUnexplained == MissingCount(s[..i + 1], t, shift, markerCounts, otherLength, true)
    ensures newShort == MissingCount(s[..i + 1], t, shift, markerCounts, otherLength, false)
  {
    var orientedReadLength := markerCounts[s[i].orientedReadId.Value()];
    var wouldOverlap := Intersects(s[i].averageOffset + shift, s[i].averageOffset + shift + orientedReadLength, 0, otherLength);
    MissingStep(s, t, shift, markerCounts, otherLength, i);
    newUnexplained, newShort := unexplained, short;
    if wouldOverlap {
      newUnexplained := unexplained + 1;
    } else {
      newShort := short + 1;
    }
  }

  /** The merge loop of analyzeSegmentPair. */
  method CountMissing(length0: nat, length1: nat, infos0: seq<Info>, infos1: seq<Info>,
      markerCounts: seq<nat>, start: SegmentPairInformation) returns (info01: SegmentPairInformation)
    requires SortedInfos(infos0) && SortedInfos(infos1)
    requires forall a :: 0 <= a < |infos0| ==> Key(infos0[a]) < |markerCounts|
    requires forall a :: 0 <= a < |infos1| ==> Key(infos1[a]) < |markerCounts|
    requires start.unexplainedCount0 == 0 && start.unexplainedCount1 == 0 && start.shortCount0 == 0 && start.shortCount1 == 0
    ensures info01 == start.(unexplainedCount0 := info01.unexplainedCount0, unexplainedCount1 := info01.unexplainedCount1,
      shortCount0 := info01.shortCount0, shortCount1 := info01.shortCount1)
    ensures MissingCounts(infos0, infos1, markerCounts, length0, length1, start.offset, |infos0|, |infos1|, info01)
  {
    info01 := start;
    var offset := start.offset;
    var i0, i1 := 0, 0;
    assert infos0[..0] == [] && infos1[..0] == [];
    while true
      invariant MergeOrder(infos0, infos1, i0, i1)
      invariant info01 == start.(unexplainedCount0 := info01.unexplainedCount0, unexplainedCount1 := info01.unexplainedCount1,
        shortCount0 := info01.shortCount0, shortCount1 := info01.shortCount1)
      invariant MissingCounts(infos0, infos1, markerCounts, length0, length1, offset, i0, i1, info01)
      decreases |infos0| - i0 + |infos1| - i1
    {
      if i0 == |infos0| && i1 == |infos1| {
        break;
      }
      if i1 == |infos1| || (i0 != |infos0| && infos0[i0].orientedReadId.Less(infos1[i1].orientedReadId)) {
        // This read only appears on segment 0.
        MergePassFirst(infos0, infos1, i0, i1);
        var unexplained, short :=
          CountOneSided(infos0, infos1, -offset, markerCounts, length1, i0, info01.unexplainedCount0, info01.shortCount0);
        info01 := info01.(unexplainedCount0 := unexplained, shortCount0 := short);
        i0 := i0 + 1;
      } else if i0 == |infos0| || (i1 != |infos1| && infos1[i1].orientedReadId.Less(infos0[i0].orientedReadId)) {
        // Only on segment 1.
        MergePassFirst(infos1, infos0, i1, i0);
        var unexplained, short :=
          CountOneSided(infos1, infos0, offset, markerCounts, length0, i1, info01.unexplainedCount1, info01.shortCount1);
        info01 := info01.(unexplainedCount1 := unexplained, shortCount1 := short);
        i1 := i1 + 1;
      } else {
        // On both segments.
        assert Key(infos0[i0]) in ReadSet(infos1) && Key(infos1[i1]) in ReadSet(infos0);
        MergePassBoth(infos0, infos1, i0, i1);
        MissingStep(infos0, infos1, -offset, markerCounts, length1, i0);
        MissingStep(infos1, infos0, offset, markerCounts, length0, i1);
        i0 := i0 + 1;
        i1 := i1 + 1;
      }
    }
    assert infos0[..i0] == infos0 && infos1[..i1] == infos1;
  }

  /** With a common read, every read on segment 0 is common, unexplained or short, and likewise
      for segment 1. */
  lemma AnalyzeCountsAddUp(length0: nat, length1: nat, infos0: seq<Info>, infos1: seq<Info>,
      markerCounts: seq<nat>, info01: SegmentPairInformation)
    requires SortedInfos(infos0) && SortedInfos(infos1)
    requires forall a :: 0 <= a < |infos0| ==> Key(infos0[a]) < |markerCounts|
    requires forall a :: 0 <= a < |infos1| ==> Key(infos1[a]) < |markerCounts|
    requires info01.totalCount0 == |infos0| && info01.totalCount1 == |infos1|
    requires info01.commonCount == CommonCount(infos0, infos1)
    requires MissingCounts(infos0, infos1, markerCounts, length0, length1, info01.offset, |infos0|, |infos1|, info01)
    ensures info01.commonCount + info01.unexplainedCount0 + info01.shortCount0 == info01.totalCount0
    ensures info01.commonCount + info01.unexplainedCount1 + info01.shortCount1 == info01.totalCount1
  {
    var offset := info01.offset;
    assert infos0[..|infos0|] == infos0 && infos1[..|infos1|] == infos1;
    assert info01.unexplainedCount0 == MissingCount(infos0, infos1, -offset, markerCounts, length1, true);
    assert info01.shortCount0 == MissingCount(infos0, infos1, -offset, markerCounts, length1, false);
    assert info01.unexplainedCount1 == MissingCount(infos1, infos0, offset, markerCounts, length0, true);
    assert info01.shortCount1 == MissingCount(infos1, infos0, offset, markerCounts, length0, false);
    MissingSplit(infos0, infos1, -offset, markerCounts, length1);
    MissingSplit(infos1, infos0, offset, markerCounts, length0);
    CommonCountSymmetric(infos0, infos1);
  }
}

/** The sequential steps of Assembler::createMarkerGraphVertices that run after the
    union-find has converged: compaction of the set table, set sizes and their histogram,
    the two renumberings, the bad-set rule and the final vertex table.
    Marker ids are the positions 0 .. orientedMarkerCount - 1 of the tables. */
module MarkerGraphVertices {
  import opened Common
  import opened Markers

  // ----- Compaction of the 128-bit union-find table -----

  /** The low 64-bit words of a table of 128-bit entries: the word at 2 * i for entry i. */
  function EvenEntries(s: seq<nat>): (r: seq<nat>)
    ensures |r| == |s| / 2
    ensures forall i :: 0 <= i < |r| ==> r[i] == s[2 * i]
  {
    seq(|s| / 2, i requires 0 <= i < |s| / 2 => s[2 * i])
  }

  /** Rewrites table[i] := table[2 * i] in increasing i; the write at i never overwrites a word
      at 2 * j, j > i, that is still to be read. The resize to orientedMarkerCount entries is
      the returned prefix. */
  method CompactDisjointSetTable(table: array<nat>, orientedMarkerCount: nat) returns (compacted: seq<nat>)
    requires table.Length == 2 * orientedMarkerCount
    modifies table
    ensures compacted == table[..orientedMarkerCount]
    ensures compacted == EvenEntries(old(table[..]))
  {
    var i := 0;
    while i < orientedMarkerCount
      invariant 0 <= i <= orientedMarkerCount
      invariant forall j :: 0 <= j < i ==> table[j] == old(table[2 * j])
      invariant forall j :: i <= j < table.Length ==> table[j] == old(table[j])
    {
      table[i] := table[2 * i];
      i := i + 1;
    }
    compacted := table[..orientedMarkerCount];
  }

  // ----- Set sizes -----

  /** Counts, for every set representative s, the markers whose representative is s
      (the sequential form of the per-marker increments). */
  method CountSetSizes(disjointSetTable: seq<nat>) returns (workArea: array<nat>)
    requires forall m :: 0 <= m < |disjointSetTable| ==> disjointSetTable[m] < |disjointSetTable|
    ensures workArea.Length == |disjointSetTable|
    ensures forall s :: 0 <= s < |disjointSetTable| ==> workArea[s] == multiset(disjointSetTable)[s]
  {
    var n := |disjointSetTable|;
    workArea := new nat[n](_ => 0);
    var i := 0;
    while i < n
      invariant 0 <= i <= n
      invariant forall s :: 0 <= s < n ==> workArea[s] == multiset(disjointSetTable[..i])[s]
    {
      var d := disjointSetTable[i];
      assert disjointSetTable[..i + 1] == disjointSetTable[..i] + [d];
      workArea[d] := workArea[d] + 1;
      i := i + 1;
    }
    assert disjointSetTable[..n] == disjointSetTable;
  }

  /** The set sizes of a table as a sequence indexed by set representative. */
  function SetSizes(disjointSetTable: seq<nat>): (sizes: seq<nat>)
    ensures |sizes| == |disjointSetTable|
  {
    seq(|disjointSetTable|, s requires 0 <= s < |disjointSetTable| => multiset(disjointSetTable)[s])
  }

  lemma {:induction false} SumIncrement(s: seq<nat>, x: nat)
    requires x < |s|
    ensures Sum(s[x := s[x] + 1]) == Sum(s) + 1
  {
    var t := s[x := s[x] + 1];
    if x == |s| - 1 {
      assert t[..|t| - 1] == s[..|s| - 1];
    } else {
      assert t[..|t| - 1] == s[..|s| - 1][x := s[x] + 1];
      SumIncrement(s[..|s| - 1], x);
    }
  }

  lemma {:induction false} SumZeros(n: nat)
    ensures Sum(seq(n, _ => 0)) == 0
  {
    if n > 0 {
      assert seq(n, _ => 0)[..n - 1] == seq(n - 1, _ => 0);
      SumZeros(n - 1);
    }
  }

  /** Sizes of the first sets of a table, counting only the first k markers. */
  function PrefixSizes(disjointSetTable: seq<nat>, k: nat, n: nat): seq<nat>
    requires k <= |disjointSetTable|
  {
    seq(n, s requires 0 <= s < n => multiset(disjointSetTable[..k])[s])
  }

  /** Every marker belongs to exactly one set: the set sizes add up to the marker count. */
  lemma SetSizesSumToMarkerCount(disjointSetTable: seq<nat>)
    requires forall m :: 0 <= m < |disjointSetTable| ==> disjointSetTable[m] < |disjointSetTable|
    ensures Sum(SetSizes(disjointSetTable)) == |disjointSetTable|
  {
    var n := |disjointSetTable|;
    var k := 0;
    assert PrefixSizes(disjointSetTable, 0, n) == seq(n, _ => 0);
    SumZeros(n);
    while k < n
      invariant 0 <= k <= n
      invariant Sum(PrefixSizes(disjointSetTable, k, n)) == k
    {
      var d := disjointSetTable[k];
      assert disjointSetTable[..k + 1] == disjointSetTable[..k] + [d];
      var before := PrefixSizes(disjointSetTable, k, n);
      assert PrefixSizes(disjointSetTable, k + 1, n) == before[d := before[d] + 1];
      SumIncrement(before, d);
      k := k + 1;
    }
    assert disjointSetTable[..n] == disjointSetTable;
    assert PrefixSizes(disjointSetTable, n, n) == SetSizes(disjointSetTable);
  }

  // ----- Histogram of set sizes -----

  /** histogram counts the non-zero sizes in m: entry c > 0 is the multiplicity of c, the
      last entry is non-zero, entry 0 is zero, and no size in m is past the end. */
  ghost predicate HistogramOf(histogram: seq<nat>, m: multiset<nat>)
  {
    (|histogram| > 0 ==> histogram[0] == 0 && histogram[|histogram| - 1] > 0)
    && (forall c :: 0 < c < |histogram| ==> histogram[c] == m[c])
    && (forall c :: 0 < c && |histogram| <= c ==> m[c] == 0)
  }

  /** One step of the histogram loop: count one set, growing the histogram as needed. */
  method CountSet(histogram: seq<nat>, markerCount: nat, ghost m: multiset<nat>) returns (h: seq<nat>)
    requires HistogramOf(histogram, m)
    ensures HistogramOf(h, m + multiset{markerCount})
    ensures |histogram| <= |h| && (markerCount != 0 ==> markerCount < |h|)
  {
    h := histogram;
    if markerCount != 0 {
      if markerCount >= |h| {
        h := h + seq(markerCount + 1 - |h|, _ => 0);
      }
      h := h[markerCount := h[markerCount] + 1];
    }
  }

  /** histogram[c], for c > 0, is the number of sets of size c; empty sets are skipped, and the
      histogram is one longer than the largest size. */
  method ComputeHistogram(workArea: seq<nat>) returns (histogram: seq<nat>)
    ensures forall i :: 0 <= i < |workArea| && workArea[i] != 0 ==> workArea[i] < |histogram|
    ensures |histogram| > 0 ==> histogram[0] == 0 && histogram[|histogram| - 1] > 0
    ensures forall c :: 0 < c < |histogram| ==> histogram[c] == multiset(workArea)[c]
  {
    histogram := [];
    var i := 0;
    while i < |workArea|
      invariant 0 <= i <= |workArea|
      invariant HistogramOf(histogram, multiset(workArea[..i]))
      invariant forall j :: 0 <= j < i && workArea[j] != 0 ==> workArea[j] < |histogram|
    {
      var markerCount := workArea[i];
      assert workArea[..i + 1] == workArea[..i] + [markerCount];
      histogram := CountSet(histogram, markerCount, multiset(workArea[..i]));
      i := i + 1;
    }
    assert workArea[..|workArea|] == workArea;
  }

  // ----- Renumbering -----

  /** Number of true entries. */
  function KeptCount(keep: seq<bool>): (n: nat)
    ensures n <= |keep|
  {
    if keep == [] then 0 else KeptCount(keep[..|keep| - 1]) + (if keep[|keep| - 1] then 1 else 0)
  }

  /** The renumbering both passes compute: kept entries get consecutive ids in increasing
      order of old id, the others invalidVertexId. */
  function Renumbering(keep: seq<bool>): (r: seq<nat>)
    ensures |r| == |keep|
  {
    seq(|keep|, i requires 0 <= i < |keep| => if keep[i] then KeptCount(keep[..i]) else INVALID_VERTEX_ID)
  }

  lemma KeptCountStep(keep: seq<bool>, i: nat)
    requires i < |keep|
    ensures KeptCount(keep[..i + 1]) == KeptCount(keep[..i]) + (if keep[i] then 1 else 0)
  {
    assert keep[..i + 1][..i] == keep[..i];
  }

  lemma {:induction false} KeptCountMonotone(keep: seq<bool>, i: nat, j: nat)
    requires i <= j <= |keep|
    ensures KeptCount(keep[..i]) <= KeptCount(keep[..j])
    decreases j - i
  {
    if i < j {
      KeptCountStep(keep, j - 1);
      KeptCountMonotone(keep, i, j - 1);
    }
  }

  /** Some kept entry was given new id k. */
  ghost predicate IdAssigned(keep: seq<bool>, k: nat)
  {
    exists i :: 0 <= i < |keep| && keep[i] && Renumbering(keep)[i] == k
  }

  /** Kept ids are below the kept count, strictly increasing with the old id, and cover
      every id below the kept count; dropped entries are invalidVertexId. */
  lemma {:induction false} RenumberingProperties(keep: seq<bool>)
    ensures forall i :: 0 <= i < |keep| && !keep[i] ==> Renumbering(keep)[i] == INVALID_VERTEX_ID
    ensures forall i :: 0 <= i < |keep| && keep[i] ==> Renumbering(keep)[i] < KeptCount(keep)
    ensures forall i, j :: 0 <= i < j < |keep| && keep[i] && keep[j] ==> Renumbering(keep)[i] < Renumbering(keep)[j]
    ensures forall k :: 0 <= k < KeptCount(keep) ==> IdAssigned(keep, k)
  {
    var r := Renumbering(keep);
    assert keep[..|keep|] == keep;
    forall i | 0 <= i < |keep| && keep[i] ensures r[i] < KeptCount(keep) {
      KeptCountStep(keep, i);
      KeptCountMonotone(keep, i + 1, |keep|);
    }
    forall i, j | 0 <= i < j < |keep| && keep[i] && keep[j] ensures r[i] < r[j] {
      KeptCountStep(keep, i);
      KeptCountMonotone(keep, i + 1, j);
    }
    forall k | 0 <= k < KeptCount(keep)
      ensures IdAssigned(keep, k)
    {
      RenumberingOnto(keep, k, |keep|);
    }
  }

  lemma {:induction false} RenumberingOnto(keep: seq<bool>, k: nat, j: nat)
    requires j <= |keep| && k < KeptCount(keep[..j])
    ensures exists i :: 0 <= i < j && keep[i] && Renumbering(keep)[i] == k
  {
    KeptCountStep(keep, j - 1);
    if keep[j - 1] && KeptCount(keep[..j - 1]) == k {
      assert Renumbering(keep)[j - 1] == k;
    } else {
      RenumberingOnto(keep, k, j - 1);
    }
  }

  function CoverageKeep(workArea: seq<nat>, minCoverage: nat, maxCoverage: nat): (keep: seq<bool>)
    ensures |keep| == |workArea|
  {
    seq(|workArea|, i requires 0 <= i < |workArea| => !(workArea[i] < minCoverage || workArea[i] > maxCoverage))
  }

  /** First renumbering: sets whose size is outside [minCoverage, maxCoverage] become
      invalidVertexId, the others get consecutive ids; returns the number of kept sets. */
  method RenumberByCoverage(workArea: array<nat>, minCoverage: nat, maxCoverage: nat) returns (disjointSetCount: nat)
    modifies workArea
    ensures workArea[..] == Renumbering(CoverageKeep(old(workArea[..]), minCoverage, maxCoverage))
    ensures disjointSetCount == KeptCount(CoverageKeep(old(workArea[..]), minCoverage, maxCoverage))
  {
    ghost var keep := CoverageKeep(workArea[..], minCoverage, maxCoverage);
    ghost var target := Renumbering(keep);
    var newDisjointSetId := 0;
    var oldDisjointSetId := 0;
    while oldDisjointSetId < workArea.Length
      invariant 0 <= oldDisjointSetId <= workArea.Length
      invariant newDisjointSetId == KeptCount(keep[..oldDisjointSetId])
      invariant forall i :: 0 <= i < oldDisjointSetId ==> workArea[i] == target[i]
      invariant forall i :: oldDisjointSetId <= i < workArea.Length ==> workArea[i] == old(workArea[i])
    {
      KeptCountStep(keep, oldDisjointSetId);
      var markerCount := workArea[oldDisjointSetId];
      if markerCount < minCoverage || markerCount > maxCoverage {
        workArea[oldDisjointSetId] := INVALID_VERTEX_ID;
      } else {
        workArea[oldDisjointSetId] := newDisjointSetId;
        newDisjointSetId := newDisjointSetId + 1;
      }
      oldDisjointSetId := oldDisjointSetId + 1;
    }
    assert keep[..workArea.Length] == keep;
    disjointSetCount := newDisjointSetId;
  }

  /** Replaces each marker's set representative by the renumbered id of its set. */
  method AssignRenumberedSets(disjointSetTable: array<nat>, workArea: seq<nat>)
    requires forall m :: 0 <= m < disjointSetTable.Length ==> disjointSetTable[m] < |workArea|
    modifies disjointSetTable
    ensures forall m :: 0 <= m < disjointSetTable.Length ==> disjointSetTable[m] == workArea[old(disjointSetTable[m])]
  {
    var markerId := 0;
    while markerId < disjointSetTable.Length
      invariant 0 <= markerId <= disjointSetTable.Length
      invariant forall m :: 0 <= m < markerId ==> disjointSetTable[m] == workArea[old(disjointSetTable[m])]
      invariant forall m :: markerId <= m < disjointSetTable.Length ==> disjointSetTable[m] == old(disjointSetTable[m])
    {
      disjointSetTable[markerId] := workArea[disjointSetTable[markerId]];
      markerId := markerId + 1;
    }
  }

  function Negate(s: seq<bool>): (r: seq<bool>)
    ensures |r| == |s| && forall i :: 0 <= i < |s| ==> r[i] == !s[i]
  {
    seq(|s|, i requires 0 <= i < |s| => !s[i])
  }

  lemma {:induction false} KeptCountComplement(s: seq<bool>)
    ensures KeptCount(s) + KeptCount(Negate(s)) == |s|
  {
    if s != [] {
      assert Negate(s)[..|s| - 1] == Negate(s[..|s| - 1]);
      KeptCountComplement(s[..|s| - 1]);
    }
  }

  /** Second renumbering: good sets get consecutive ids, bad ones invalidVertexId, and
      the new count plus the bad count is the old count. */
  method RenumberGoodSets(isBadDisjointSet: seq<bool>) returns (workArea: array<nat>, newDisjointSetId: nat)
    ensures workArea[..] == Renumbering(Negate(isBadDisjointSet))
    ensures newDisjointSetId == KeptCount(Negate(isBadDisjointSet))
    ensures newDisjointSetId + KeptCount(isBadDisjointSet) == |isBadDisjointSet|
  {
    ghost var keep := Negate(isBadDisjointSet);
    ghost var target := Renumbering(keep);
    var n := |isBadDisjointSet|;
    workArea := new nat[n](_ => 0);
    newDisjointSetId := 0;
    var oldDisjointSetId := 0;
    while oldDisjointSetId < n
      invariant 0 <= oldDisjointSetId <= n
      invariant newDisjointSetId == KeptCount(keep[..oldDisjointSetId])
      invariant forall i :: 0 <= i < oldDisjointSetId ==> workArea[i] == target[i]
    {
      KeptCountStep(keep, oldDisjointSetId);
      if isBadDisjointSet[oldDisjointSetId] {
        workArea[oldDisjointSetId] := INVALID_VERTEX_ID;
      } else {
        workArea[oldDisjointSetId] := newDisjointSetId;
        newDisjointSetId := newDisjointSetId + 1;
      }
      oldDisjointSetId := oldDisjointSetId + 1;
    }
    assert keep[..n] == keep;
    KeptCountComplement(isBadDisjointSet);
  }

  // ----- Gathering the markers of each set -----

  /** Two tables that name set s and set o at the same markers gather the same markers. */
  lemma {:induction false} IdsWithKeyRelabel(table: seq<nat>, s: nat, table2: seq<nat>, s2: nat)
    requires |table2| == |table|
    requires forall m :: 0 <= m < |table| ==> (table2[m] == s2 <==> table[m] == s)
    ensures IdsWithKey(table2, s2) == IdsWithKey(table, s)
  {
    if table != [] {
      IdsWithKeyRelabel(table[..|table| - 1], s, table2[..|table2| - 1], s2);
    }
  }

  /** disjointSetMarkers after the gathering passes and the per-set sort: the markers of each
      set in increasing marker id order. */
  function DisjointSetMarkers(table: seq<nat>, disjointSetCount: nat): (r: seq<seq<nat>>)
    ensures |r| == disjointSetCount
    ensures forall s :: 0 <= s < disjointSetCount ==> r[s] == IdsWithKey(table, s)
  {
    seq(disjointSetCount, s requires 0 <= s < disjointSetCount => IdsWithKey(table, s))
  }

  /** The table after the first renumbering: each marker names the new id of its set. */
  function RenumberedTable(table: seq<nat>, workArea: seq<nat>): (r: seq<nat>)
    requires forall m :: 0 <= m < |table| ==> table[m] < |workArea|
    ensures |r| == |table| && forall m :: 0 <= m < |table| ==> r[m] == workArea[table[m]]
  {
    seq(|table|, m requires 0 <= m < |table| => workArea[table[m]])
  }

  /** After the coverage renumbering every kept set holds between minCoverage and
      maxCoverage markers: the markers of new set s are exactly those of the old set that
      received id s. With minCoverage >= 1 this is what makes the later markerCount > 0
      assertion hold. */
  lemma KeptSetSizes(table: seq<nat>, minCoverage: nat, maxCoverage: nat, s: nat)
    requires |table| < INVALID_VERTEX_ID
    requires forall m :: 0 <= m < |table| ==> table[m] < |table|
    requires s < KeptCount(CoverageKeep(SetSizes(table), minCoverage, maxCoverage))
    ensures var keep := CoverageKeep(SetSizes(table), minCoverage, maxCoverage);
            var table2 := RenumberedTable(table, Renumbering(keep));
            minCoverage <= |IdsWithKey(table2, s)| <= maxCoverage
  {
    var keep := CoverageKeep(SetSizes(table), minCoverage, maxCoverage);
    var renum := Renumbering(keep);
    var table2 := RenumberedTable(table, renum);
    RenumberingProperties(keep);
    assert IdAssigned(keep, s);
    var o :| 0 <= o < |keep| && keep[o] && renum[o] == s;
    forall m | 0 <= m < |table| ensures table2[m] == s <==> table[m] == o {
      var x := table[m];
      if x != o && keep[x] {
        assert renum[x] != renum[o] by {
          if x < o { assert renum[x] < renum[o]; } else { assert renum[o] < renum[x]; }
        }
      }
    }
    IdsWithKeyRelabel(table, o, table2, s);
    IdsWithKeySize(table, o);
  }

  // ----- Bad sets -----

  /** Read id and strand of a marker, through findMarkerId. */
  function ReadIdOf(markers: MarkerTable, markerId: nat): nat
    requires markerId < TotalSize(markers)
  {
    OrientedReadValueOf(markers, markerId) / 2
  }

  function StrandOf(markers: MarkerTable, markerId: nat): nat
    requires markerId < TotalSize(markers)
  {
    OrientedReadValueOf(markers, markerId) % 2
  }

  predicate AllMarkers(markers: MarkerTable, ms: seq<nat>)
  {
    forall i :: 0 <= i < |ms| ==> ms[i] < TotalSize(markers)
  }

  /** Number of markers of ms on the given strand (countByStrand). */
  function StrandCount(markers: MarkerTable, ms: seq<nat>, strand: nat): (n: nat)
    requires AllMarkers(markers, ms)
    ensures n <= |ms|
  {
    if ms == [] then 0
    else StrandCount(markers, ms[..|ms| - 1], strand) + (if StrandOf(markers, ms[|ms| - 1]) == strand then 1 else 0)
  }

  /** Counting one more marker of ms by strand. */
  lemma StrandCountStep(markers: MarkerTable, ms: seq<nat>, j: nat)
    requires AllMarkers(markers, ms) && j < |ms|
    ensures forall strand ::
      StrandCount(markers, ms[..j + 1], strand)
        == StrandCount(markers, ms[..j], strand) + (if StrandOf(markers, ms[j]) == strand then 1 else 0)
  {
    assert ms[..j + 1][..j] == ms[..j];
  }

  lemma {:induction false} StrandCountsAddUp(markers: MarkerTable, ms: seq<nat>)
    requires AllMarkers(markers, ms)
    ensures StrandCount(markers, ms, 0) + StrandCount(markers, ms, 1) == |ms|
  {
    if ms != [] {
      StrandCountsAddUp(markers, ms[..|ms| - 1]);
    }
  }

  /** Two consecutive markers of ms belong to the same read (on either strand). */
  predicate SameReadNeighbours(markers: MarkerTable, ms: seq<nat>)
    requires AllMarkers(markers, ms)
  {
    exists j :: 0 < j < |ms| && ReadIdOf(markers, ms[j - 1]) == ReadIdOf(markers, ms[j])
  }

  /** The rule of createMarkerGraphVerticesThreadFunction7 for one non-empty set: a single
      marker is bad when more than one marker per strand is required; otherwise the set is
      bad when two consecutive markers share a read (unless duplicates are allowed), and
      otherwise when either strand has fewer than minCoveragePerStrand markers. */
  predicate IsBadDisjointSet(markers: MarkerTable, ms: seq<nat>, minCoveragePerStrand: nat, allowDuplicateMarkers: bool)
    requires AllMarkers(markers, ms) && |ms| > 0
  {
    if |ms| == 1 then 1 < minCoveragePerStrand
    else if !allowDuplicateMarkers && SameReadNeighbours(markers, ms) then true
    else StrandCount(markers, ms, 0) < minCoveragePerStrand || StrandCount(markers, ms, 1) < minCoveragePerStrand
  }

  /** The loop of createMarkerGraphVerticesThreadFunction7 for one set: count the markers by
      strand, stopping at the first pair of consecutive markers on the same read unless
      duplicates are allowed. */
  method CountStrands(markers: MarkerTable, ms: seq<nat>, allowDuplicateMarkers: bool)
    returns (sameRead: bool, count0: nat, count1: nat)
    requires AllMarkers(markers, ms)
    ensures sameRead <==> !allowDuplicateMarkers && SameReadNeighbours(markers, ms)
    ensures !sameRead ==> count0 == StrandCount(markers, ms, 0) && count1 == StrandCount(markers, ms, 1)
  {
    sameRead := false;
    count0, count1 := 0, 0;
    var j := 0;
    while j < |ms|
      invariant 0 <= j <= |ms|
      invariant !sameRead ==> count0 == StrandCount(markers, ms[..j], 0) && count1 == StrandCount(markers, ms[..j], 1)
      invariant !sameRead && !allowDuplicateMarkers ==>
        forall i :: 0 < i < j ==> ReadIdOf(markers, ms[i - 1]) != ReadIdOf(markers, ms[i])
      invariant sameRead ==> !allowDuplicateMarkers && SameReadNeighbours(markers, ms)
    {
      StrandCountStep(markers, ms, j);
      var strand := StrandOf(markers, ms[j]);
      if strand == 0 { count0 := count0 + 1; } else { count1 := count1 + 1; }
      if !allowDuplicateMarkers && j > 0 {
        if ReadIdOf(markers, ms[j]) == ReadIdOf(markers, ms[j - 1]) {
          assert SameReadNeighbours(markers, ms);
          sameRead := true;
          return;
        }
      }
      j := j + 1;
    }
    assert ms[..j] == ms;
  }

  /** The per-set body of createMarkerGraphVerticesThreadFunction7: a single marker is judged
      by the coverage threshold alone, a larger set by one counting pass. */
  method FlagDisjointSet(markers: MarkerTable, ms: seq<nat>, minCoveragePerStrand: nat, allowDuplicateMarkers: bool)
    returns (isBad: bool)
    requires AllMarkers(markers, ms) && |ms| > 0
    ensures isBad == IsBadDisjointSet(markers, ms, minCoveragePerStrand, allowDuplicateMarkers)
  {
    if |ms| == 1 {
      return 1 < minCoveragePerStrand;
    }
    var sameRead, count0, count1 := CountStrands(markers, ms, allowDuplicateMarkers);
    isBad := sameRead || count0 < minCoveragePerStrand || count1 < minCoveragePerStrand;
  }

  /** createMarkerGraphVerticesThreadFunction7 over all sets. */
  method FlagBadDisjointSets(markers: MarkerTable, disjointSetMarkers: seq<seq<nat>>,
                             minCoveragePerStrand: nat, allowDuplicateMarkers: bool)
    returns (isBadDisjointSet: seq<bool>)
    requires forall s :: 0 <= s < |disjointSetMarkers| ==>
      AllMarkers(markers, disjointSetMarkers[s]) && |disjointSetMarkers[s]| > 0
    ensures |isBadDisjointSet| == |disjointSetMarkers|
    ensures forall s :: 0 <= s < |disjointSetMarkers| ==>
      isBadDisjointSet[s] == IsBadDisjointSet(markers, disjointSetMarkers[s], minCoveragePerStrand, allowDuplicateMarkers)
  {
    isBadDisjointSet := [];
    var s := 0;
    while s < |disjointSetMarkers|
      invariant 0 <= s <= |disjointSetMarkers| && |isBadDisjointSet| == s
      invariant forall t :: 0 <= t < s ==>
        isBadDisjointSet[t] == IsBadDisjointSet(markers, disjointSetMarkers[t], minCoveragePerStrand, allowDuplicateMarkers)
    {
      var bad := FlagDisjointSet(markers, disjointSetMarkers[s], minCoveragePerStrand, allowDuplicateMarkers);
      isBadDisjointSet := isBadDisjointSet + [bad];
      s := s + 1;
    }
  }

  predicate StrictlyIncreasing(ms: seq<nat>)
  {
    forall i, j :: 0 <= i < j < |ms| ==> ms[i] < ms[j]
  }

  /** In a sorted list of markers, two markers on the same read have every marker between
      them on that read too, so some consecutive pair shares the read. */
  lemma SameReadHasNeighbours(markers: MarkerTable, ms: seq<nat>, i: nat, j: nat)
    requires AllMarkers(markers, ms) && StrictlyIncreasing(ms)
    requires i < j < |ms| && ReadIdOf(markers, ms[i]) == ReadIdOf(markers, ms[j])
    ensures SameReadNeighbours(markers, ms)
  {
    OrientedReadValueMonotone(markers, ms[i], ms[j - 1]);
    OrientedReadValueMonotone(markers, ms[j - 1], ms[j]);
    assert ReadIdOf(markers, ms[j - 1]) == ReadIdOf(markers, ms[j]);
  }

  /** What a set that is not flagged bad guarantees: when duplicates are not allowed, no read
      contributes two of its (sorted) markers, and a set of two or more markers has at least
      minCoveragePerStrand markers on each strand. */
  lemma GoodDisjointSet(markers: MarkerTable, ms: seq<nat>, minCoveragePerStrand: nat, allowDuplicateMarkers: bool)
    requires AllMarkers(markers, ms) && |ms| > 0 && StrictlyIncreasing(ms)
    requires !IsBadDisjointSet(markers, ms, minCoveragePerStrand, allowDuplicateMarkers)
    ensures !allowDuplicateMarkers ==>
      forall i, j :: 0 <= i < j < |ms| ==> ReadIdOf(markers, ms[i]) != ReadIdOf(markers, ms[j])
    ensures |ms| > 1 ==>
      StrandCount(markers, ms, 0) >= minCoveragePerStrand && StrandCount(markers, ms, 1) >= minCoveragePerStrand
    ensures |ms| == 1 ==> minCoveragePerStrand <= 1
  {
    if !allowDuplicateMarkers {
      forall i, j | 0 <= i < j < |ms| ensures ReadIdOf(markers, ms[i]) != ReadIdOf(markers, ms[j]) {
        if ReadIdOf(markers, ms[i]) == ReadIdOf(markers, ms[j]) {
          SameReadHasNeighbours(markers, ms, i, j);
        }
      }
    }
  }

  /** isBadMarkerGraphVertex: two consecutive markers of the vertex on the same oriented read.
      Because vertex markers are sorted, this finds every oriented read that contributes more
      than one marker to the vertex. */
  predicate IsBadMarkerGraphVertex(markers: MarkerTable, vertexMarkerIds: seq<nat>)
    requires AllMarkers(markers, vertexMarkerIds)
    ensures StrictlyIncreasing(vertexMarkerIds) ==>
      (IsBadMarkerGraphVertex(markers, vertexMarkerIds) <==>
        exists i, j :: 0 <= i < j < |vertexMarkerIds|
          && OrientedReadValueOf(markers, vertexMarkerIds[i]) == OrientedReadValueOf(markers, vertexMarkerIds[j]))
  {
    ConsecutiveFindsDuplicate(markers, vertexMarkerIds);
    exists i :: 0 < i < |vertexMarkerIds|
      && OrientedReadValueOf(markers, vertexMarkerIds[i - 1]) == OrientedReadValueOf(markers, vertexMarkerIds[i])
  }

  /** In sorted markers, an oriented read that appears twice appears on two consecutive
      markers. */
  lemma ConsecutiveFindsDuplicate(markers: MarkerTable, vertexMarkerIds: seq<nat>)
    requires AllMarkers(markers, vertexMarkerIds)
    ensures StrictlyIncreasing(vertexMarkerIds) ==>
      ((exists i :: 0 < i < |vertexMarkerIds|
          && OrientedReadValueOf(markers, vertexMarkerIds[i - 1]) == OrientedReadValueOf(markers, vertexMarkerIds[i]))
       <==>
       exists i, j :: 0 <= i < j < |vertexMarkerIds|
         && OrientedReadValueOf(markers, vertexMarkerIds[i]) == OrientedReadValueOf(markers, vertexMarkerIds[j]))
  {
    var ms := vertexMarkerIds;
    if StrictlyIncreasing(ms) && exists i, j :: 0 <= i < j < |ms| && OrientedReadValueOf(markers, ms[i]) == OrientedReadValueOf(markers, ms[j]) {
      var i, j :| 0 <= i < j < |ms| && OrientedReadValueOf(markers, ms[i]) == OrientedReadValueOf(markers, ms[j]);
      OrientedReadValueMonotone(markers, ms[i], ms[j - 1]);
      OrientedReadValueMonotone(markers, ms[j - 1], ms[j]);
      assert OrientedReadValueOf(markers, ms[j - 1]) == OrientedReadValueOf(markers, ms[j]);
    }
  }

  // ----- Final vertex table and vertices -----

  /** The vertex id of a marker: invalidCompressedVertexId when its set was dropped, otherwise
      the final id of its set stored in the 40-bit vertex table entry. */
  function FinalVertexTable(disjointSetTable: seq<nat>, workArea: seq<nat>): (r: seq<nat>)
    requires forall m :: 0 <= m < |disjointSetTable| ==>
      disjointSetTable[m] == INVALID_VERTEX_ID || disjointSetTable[m] < |workArea|
    ensures |r| == |disjointSetTable|
    ensures forall m :: 0 <= m < |r| && disjointSetTable[m] == INVALID_VERTEX_ID ==> r[m] == INVALID_COMPRESSED_VERTEX_ID
  {
    seq(|disjointSetTable|, m requires 0 <= m < |disjointSetTable| =>
      if disjointSetTable[m] == INVALID_VERTEX_ID then INVALID_COMPRESSED_VERTEX_ID
      else ToUint40(workArea[disjointSetTable[m]]))
  }

  /** The vertex table loop: a marker of a dropped set gets invalidCompressedVertexId, a kept
      marker the new id of its set, looked up in the work area. */
  method AssignVertexIds(disjointSetTable: seq<nat>, workArea: seq<nat>, vertexTable: array<nat>)
    requires vertexTable.Length == |disjointSetTable|
    requires forall m :: 0 <= m < |disjointSetTable| ==>
      disjointSetTable[m] == INVALID_VERTEX_ID || disjointSetTable[m] < |workArea|
    modifies vertexTable
    ensures vertexTable[..] == FinalVertexTable(disjointSetTable, workArea)
  {
    var markerId := 0;
    while markerId < vertexTable.Length
      invariant 0 <= markerId <= vertexTable.Length
      invariant forall m :: 0 <= m < markerId ==> vertexTable[m] == FinalVertexTable(disjointSetTable, workArea)[m]
    {
      var oldValue := disjointSetTable[markerId];
      if oldValue == INVALID_VERTEX_ID {
        vertexTable[markerId] := INVALID_COMPRESSED_VERTEX_ID;
      } else {
        vertexTable[markerId] := ToUint40(workArea[oldValue]);
      }
      markerId := markerId + 1;
    }
  }

  /** Items whose keep flag is set, in order. */
  function KeptItems<T>(items: seq<T>, keep: seq<bool>): (r: seq<T>)
    requires |keep| == |items|
    ensures |r| == KeptCount(keep)
  {
    if items == [] then []
    else KeptItems(items[..|items| - 1], keep[..|keep| - 1]) + (if keep[|keep| - 1] then [items[|items| - 1]] else [])
  }

  /** The kept item at old position s sits at position KeptCount(keep[..s]), its new id. */
  lemma {:induction false} KeptItemsAt<T>(items: seq<T>, keep: seq<bool>, s: nat)
    requires |keep| == |items| && s < |items| && keep[s]
    ensures KeptCount(keep[..s]) < |KeptItems(items, keep)|
    ensures KeptItems(items, keep)[KeptCount(keep[..s])] == items[s]
  {
    var n := |items|;
    KeptCountStep(keep, s);
    KeptCountMonotone(keep, s + 1, n);
    assert keep[..n] == keep;
    if s < n - 1 {
      assert keep[..n - 1][..s] == keep[..s];
      KeptItemsAt(items[..n - 1], keep[..n - 1], s);
    } else {
      assert keep[..n - 1] == keep[..s];
    }
  }

  /** Every position of the kept items comes from some kept old position. */
  lemma {:induction false} KeptItemsFrom<T>(items: seq<T>, keep: seq<bool>, v: nat)
    requires |keep| == |items| && v < KeptCount(keep)
    ensures exists s :: 0 <= s < |items| && keep[s] && KeptCount(keep[..s]) == v
  {
    RenumberingProperties(keep);
    assert IdAssigned(keep, v);
  }

  /** markerGraph.vertices: the markers of the sets that are not bad, in set order. */
  function Vertices(disjointSetMarkers: seq<seq<nat>>, isBadDisjointSet: seq<bool>): (r: seq<seq<nat>>)
    requires |isBadDisjointSet| == |disjointSetMarkers|
    ensures |r| == KeptCount(Negate(isBadDisjointSet))
  {
    KeptItems(disjointSetMarkers, Negate(isBadDisjointSet))
  }

  /** Every marker of vertex v has vertex table entry v. */
  lemma VertexMarkersInTable(table: seq<nat>, isBadDisjointSet: seq<bool>, v: nat, i: nat)
    requires |isBadDisjointSet| < INVALID_COMPRESSED_VERTEX_ID
    requires forall m :: 0 <= m < |table| ==> table[m] == INVALID_VERTEX_ID || table[m] < |isBadDisjointSet|
    requires var vertices := Vertices(DisjointSetMarkers(table, |isBadDisjointSet|), isBadDisjointSet);
      v < |vertices| && i < |vertices[v]|
    ensures var vertices := Vertices(DisjointSetMarkers(table, |isBadDisjointSet|), isBadDisjointSet);
      var vertexTable := FinalVertexTable(table, Renumbering(Negate(isBadDisjointSet)));
      vertices[v][i] < |vertexTable| && vertexTable[vertices[v][i]] == v
  {
    var n := |isBadDisjointSet|;
    var keep := Negate(isBadDisjointSet);
    var dsm := DisjointSetMarkers(table, n);
    var vertices := Vertices(dsm, isBadDisjointSet);
    var renum := Renumbering(keep);
    KeptItemsFrom(dsm, keep, v);
    var s :| 0 <= s < n && keep[s] && KeptCount(keep[..s]) == v;
    KeptItemsAt(dsm, keep, s);
    var m := vertices[v][i];
    assert m in IdsWithKey(table, s);
    assert table[m] == s;
    assert renum[s] == v;
  }

  /** Every marker whose vertex table entry names a vertex is among that vertex's markers. */
  lemma TableEntryInVertex(table: seq<nat>, isBadDisjointSet: seq<bool>, m: nat)
    requires |isBadDisjointSet| < INVALID_COMPRESSED_VERTEX_ID
    requires forall m :: 0 <= m < |table| ==> table[m] == INVALID_VERTEX_ID || table[m] < |isBadDisjointSet|
    requires var vertices := Vertices(DisjointSetMarkers(table, |isBadDisjointSet|), isBadDisjointSet);
      var vertexTable := FinalVertexTable(table, Renumbering(Negate(isBadDisjointSet)));
      m < |vertexTable| && vertexTable[m] < |vertices|
    ensures var vertices := Vertices(DisjointSetMarkers(table, |isBadDisjointSet|), isBadDisjointSet);
      var vertexTable := FinalVertexTable(table, Renumbering(Negate(isBadDisjointSet)));
      m in vertices[vertexTable[m]]
  {
    var n := |isBadDisjointSet|;
    var keep := Negate(isBadDisjointSet);
    var dsm := DisjointSetMarkers(table, n);
    var vertexTable := FinalVertexTable(table, Renumbering(keep));
    var s := table[m];
    assert s != INVALID_VERTEX_ID;
    assert keep[s];
    KeptItemsAt(dsm, keep, s);
    assert vertexTable[m] == KeptCount(keep[..s]);
  }

  /** The consistency that checkMarkerGraphVertices asserts, for the corrected vertex table:
      every marker of vertex v has vertex table entry v, and every marker whose entry names
      a vertex is among the markers of that vertex. */
  lemma VertexTableMatchesVertices(table: seq<nat>, isBadDisjointSet: seq<bool>)
    requires |isBadDisjointSet| < INVALID_COMPRESSED_VERTEX_ID
    requires forall m :: 0 <= m < |table| ==> table[m] == INVALID_VERTEX_ID || table[m] < |isBadDisjointSet|
    ensures var vertices := Vertices(DisjointSetMarkers(table, |isBadDisjointSet|), isBadDisjointSet);
            var vertexTable := FinalVertexTable(table, Renumbering(Negate(isBadDisjointSet)));
            (forall v, i :: 0 <= v < |vertices| && 0 <= i < |vertices[v]| ==>
              vertices[v][i] < |vertexTable| && vertexTable[vertices[v][i]] == v)
            && (forall m :: 0 <= m < |vertexTable| && vertexTable[m] < |vertices| ==> m in vertices[vertexTable[m]])
  {
    var vertices := Vertices(DisjointSetMarkers(table, |isBadDisjointSet|), isBadDisjointSet);
    var vertexTable := FinalVertexTable(table, Renumbering(Negate(isBadDisjointSet)));
    forall v, i | 0 <= v < |vertices| && 0 <= i < |vertices[v]|
      ensures vertices[v][i] < |vertexTable| && vertexTable[vertices[v][i]] == v
    {
      VertexMarkersInTable(table, isBadDisjointSet, v, i);
    }
    forall m | 0 <= m < |vertexTable| && vertexTable[m] < |vertices|
      ensures m in vertices[vertexTable[m]]
    {
      TableEntryInVertex(table, isBadDisjointSet, m);
    }
  }
}

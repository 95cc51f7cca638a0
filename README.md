# Marker graph and mode 3 assembly graph, modelled in Dafny

This project models the core of the Shasta long-read assembler that builds and cleans the
marker graph and derives the mode 3 assembly graph from it:

- **Marker graph vertices** (`vertices.dfy`, `markers.dfy`, `common.dfy`). Markers are k-mers
  at known positions of each oriented read, with a global id for each one. Markers are merged
  into disjoint sets. This module covers the compaction of the disjoint set table, the set-size
  count and its histogram, the renumbering by coverage, the gathering of the markers of each
  set, the flagging of bad sets (too few markers per strand, or two markers on one read), the
  second renumbering, the vertex table, `isBadMarkerGraphVertex`, and what
  `checkMarkerGraphVertices` asserts.
- **Marker intervals and children** (`intervals.dfy`). The children of a vertex
  (`getGlobalMarkerGraphVertexChildren`), the marker intervals of a possible edge
  (`getMarkerIntervals`), the reverse complement of an interval, and
  `findNextMarkerGraphVertices`.
- **Edges** (`graph.dfy`). The creation of edges with a coverage saturated at 255, the
  `edgesBySource`/`edgesByTarget` tables, `setMarkerGraphEdgeFlags`, forward and backward
  leaves, the next and previous edge of a linear chain, and pruning of the strong subgraph.
- **Transitive reduction** (`bfs.dfy`, `reduction.dfy`, `localsubgraph.dfy`). Low coverage
  and high-skip flagging, the bounded breadth-first search per edge, the reverse transitive
  reduction, and the two-sided search of `markerGraphEdgeDisconnectsLocalStrongSubgraph`.
- **Paths and assembly** (`path.dfy`, `rle.dfy`). `computeOrientedReadMarkerGraphPath`,
  `getMarkerIntervalRleSequence` and `assembleMarkerGraphPathRleStrict`.
- **Mode 3** (`segments.dfy`, `links.dfy`, `offsets.dfy`, `gfa.dfy`). Segments as maximal
  linear chains of marker graph edges, the edge table, transitions and links, connectivity,
  offset estimation, `analyzeSegmentPair`, `largeDataName` and the GFA 1.0 writer.
- **Local directed read graph** (`localgraph.dfy`). `addVertex`, `addEdge`, `getDistance`,
  `vertexExists`, and the colour and shape choices of the Graphviz writer.

The model keeps the source's form. Loops become methods with loop invariants, over `array`s
where the source updates a vector in place (edge flags, vertex table, distances, work areas).
Each method is proved against a specification function. The local directed read graph is a
class. The source's internal `SHASTA_ASSERT`s on caller obligations become `requires`. The
consistency checks that can fail on bad data (chain discovery, the strict assembly, coverage
0 in transitive reduction) become a `Failure` result or a `false` flag. Fixed-width integers
are written out where the width matters: 40-bit vertex ids, the 8-bit coverage, 63-bit edge
ids, and uint32 ordinals and skips.

## Model

| member | source | states |
|---|---|---|
| Common.ToUint40 | src/AssemblerMarkerGraph.cpp:434-442 | storing a 64-bit vertex id in the 40-bit vertex table keeps values that fit and never exceeds the 40-bit maximum |
| Common.InvalidVertexIdCompresses | src/AssemblerMarkerGraph.cpp:434-442 | invalidVertexId stored in 40 bits is invalidCompressedVertexId |
| Common.OrientedReadIdFromValue | src/mode3.cpp:276-279 | the oriented read with a given value exists and has that value (2 * readId + strand) |
| Common.ValueInjective | src/mode3.cpp:276-279 | two oriented reads with the same value are the same oriented read |
| Common.IdsWithKey | src/AssemblerMarkerGraph.cpp:2184-2205 | the bucket of a key lists, in increasing order, exactly the positions whose key it is |
| Common.IdsWithKeySize | src/AssemblerMarkerGraph.cpp:2184-2205 | the bucket of a key has as many entries as there are occurrences of the key, which pass 1 counts |
| Common.BucketByKey | src/AssemblerMarkerGraph.cpp:2184-2205 | the two-pass VectorOfVectors fill puts every position in the bucket of its key, in increasing order; invalid keys go nowhere |
| Markers.OffsetMonotone | src/AssemblerMarkerGraph.cpp:596-597 | markers of later oriented reads are numbered after those of earlier ones |
| Markers.GetMarkerId | src/AssemblerMarkerGraph.cpp:1105-1113 | the global id of an existing marker is below the total marker count |
| Markers.FindMarkerIdBelow | src/AssemblerMarkerGraph.cpp:596-597 | the search among the first oriented reads finds the oriented read and ordinal numbered markerId |
| Markers.FindMarkerId | src/AssemblerMarkerGraph.cpp:596-597 | findMarkerId returns an existing oriented read and ordinal whose global id is markerId |
| Markers.MarkerIdInjective | src/AssemblerMarkerGraph.cpp:1042-1049 | distinct (oriented read, ordinal) pairs have distinct marker ids |
| Markers.FindMarkerIdOfMarkerId | src/AssemblerMarkerGraph.cpp:1042-1049 | findMarkerId inverts getMarkerId |
| Markers.MarkerIdOrder | src/AssemblerMarkerGraph.cpp:1042-1049 | marker ids increase with the oriented read, then with the ordinal |
| Markers.OrientedReadValueMonotone | src/AssemblerMarkerGraph.cpp:1548-1567 | a smaller marker id never belongs to a later oriented read, so sorted vertex markers are grouped by read |
| Markers.ReverseComplementInterval | src/AssemblerMarkerGraph.cpp:1335-1341 | the interval on the other strand of the same read keeps ordinals in range and the interval length, and keeps increasing ordinals increasing |
| Markers.ReverseComplementIntervalInvolution | src/AssemblerMarkerGraph.cpp:1335-1341 | reverse complementing an interval twice gives it back |
| MarkerGraphVertices.EvenEntries | src/AssemblerMarkerGraph.cpp:160-166 | the compacted table holds entry 2 * i at position i, half as many entries |
| MarkerGraphVertices.CompactDisjointSetTable | src/AssemblerMarkerGraph.cpp:160-166 | the in-place compaction leaves the first half of the table equal to the even words of the old table |
| MarkerGraphVertices.CountSetSizes | src/AssemblerMarkerGraph.cpp:646-660 | workArea[s] is the number of markers whose set is s |
| MarkerGraphVertices.SetSizesSumToMarkerCount | src/AssemblerMarkerGraph.cpp:646-660 | every marker is counted in exactly one set: the sizes add up to the marker count |
| MarkerGraphVertices.CountSet | src/AssemblerMarkerGraph.cpp:214-225 | counting one more set keeps the histogram exact, growing it to hold the new size |
| MarkerGraphVertices.ComputeHistogram | src/AssemblerMarkerGraph.cpp:214-225 | histogram[c] for c > 0 is the number of sets of size c, covers every size, and ends on a non-zero entry |
| MarkerGraphVertices.KeptCountMonotone | src/AssemblerMarkerGraph.cpp:270-282 | a longer prefix keeps at least as many entries |
| MarkerGraphVertices.RenumberingProperties | src/AssemblerMarkerGraph.cpp:270-282 | dropped entries get invalidVertexId; kept entries get ids below the kept count, increasing with the old id, and every such id is used |
| MarkerGraphVertices.RenumberingOnto | src/AssemblerMarkerGraph.cpp:270-282 | every new id below the count of a prefix comes from a kept entry of that prefix |
| MarkerGraphVertices.RenumberByCoverage | src/AssemblerMarkerGraph.cpp:270-282 | sets with size in [minCoverage, maxCoverage] get consecutive new ids, the others invalidVertexId; the count is the number kept |
| MarkerGraphVertices.AssignRenumberedSets | src/AssemblerMarkerGraph.cpp:300-306 | each marker's set is replaced by the new id of its old set |
| MarkerGraphVertices.KeptCountComplement | src/AssemblerMarkerGraph.cpp:402-413 | good sets plus bad sets are all the sets |
| MarkerGraphVertices.RenumberGoodSets | src/AssemblerMarkerGraph.cpp:402-413 | sets not flagged bad get consecutive ids in order, bad ones invalidVertexId; the vertex count plus the bad count is the set count |
| MarkerGraphVertices.IdsWithKeyRelabel | src/AssemblerMarkerGraph.cpp:751-771 | two tables naming their sets at the same markers gather the same markers |
| MarkerGraphVertices.DisjointSetMarkers | src/AssemblerMarkerGraph.cpp:751-771 | after gathering and sorting, set s holds exactly the markers whose table entry is s, in increasing order |
| MarkerGraphVertices.RenumberedTable | src/AssemblerMarkerGraph.cpp:300-306 | each marker names the renumbered id of its set |
| MarkerGraphVertices.KeptSetSizes | src/AssemblerMarkerGraph.cpp:270-306 | after the coverage renumbering every kept set holds between minCoverage and maxCoverage markers |
| MarkerGraphVertices.StrandCountStep | src/AssemblerMarkerGraph.cpp:720-736 | one more marker adds one to the count of its own strand only |
| MarkerGraphVertices.StrandCountsAddUp | src/AssemblerMarkerGraph.cpp:720-736 | the two strand counts add up to the size of the set |
| MarkerGraphVertices.CountStrands | src/AssemblerMarkerGraph.cpp:720-736 | the loop stops on two consecutive markers of one read exactly when duplicates are not allowed and such a pair exists; otherwise it returns both strand counts |
| MarkerGraphVertices.FlagDisjointSet | src/AssemblerMarkerGraph.cpp:714-744 | a set is bad exactly by the rule: a single marker with minCoveragePerStrand > 1, two markers of one read when not allowed, or too few markers on a strand |
| MarkerGraphVertices.FlagBadDisjointSets | src/AssemblerMarkerGraph.cpp:700-747 | one bad flag per set, each given by the rule |
| MarkerGraphVertices.SameReadHasNeighbours | src/AssemblerMarkerGraph.cpp:720-736 | in a sorted set two markers on one read imply two consecutive markers on one read |
| MarkerGraphVertices.GoodDisjointSet | src/AssemblerMarkerGraph.cpp:714-744 | a set not flagged bad has no read twice (when duplicates are not allowed); with two or more markers it has at least minCoveragePerStrand markers on each strand, and a single marker is kept only when minCoveragePerStrand is at most 1 |
| MarkerGraphVertices.IsBadMarkerGraphVertex | src/AssemblerMarkerGraph.cpp:1548-1567 | for sorted vertex markers, the consecutive-pair check reports a bad vertex exactly when two of its markers lie on one oriented read |
| MarkerGraphVertices.ConsecutiveFindsDuplicate | src/AssemblerMarkerGraph.cpp:1554-1565 | in sorted markers, an oriented read that appears twice appears on two consecutive markers, and conversely |
| MarkerGraphVertices.FinalVertexTable | src/AssemblerMarkerGraph.cpp:434-442 | markers of dropped sets get invalidCompressedVertexId, the others the 40-bit new id of their set |
| MarkerGraphVertices.AssignVertexIds | src/AssemblerMarkerGraph.cpp:434-442 | the loop leaves the table exactly equal to the final vertex table: invalidCompressedVertexId for markers of dropped sets, the new id of its set for every kept marker |
| MarkerGraphVertices.KeptItemsAt | src/AssemblerMarkerGraph.cpp:456-466 | the kept item at old position s sits at its new id |
| MarkerGraphVertices.KeptItemsFrom | src/AssemblerMarkerGraph.cpp:456-466 | every new position comes from some kept old position |
| MarkerGraphVertices.VertexMarkersInTable | src/AssemblerMarkerGraph.cpp:879-890 | every marker of vertex v has vertex table entry v |
| MarkerGraphVertices.TableEntryInVertex | src/AssemblerMarkerGraph.cpp:879-890 | every marker whose table entry names a vertex is among that vertex's markers |
| MarkerGraphVertices.VertexTableMatchesVertices | src/AssemblerMarkerGraph.cpp:879-890 | the vertex table and the vertices agree both ways, as checkMarkerGraphVertices asserts |
| MarkerIntervals.NextVertexOrdinalBefore | src/AssemblerMarkerGraph.cpp:1038-1060 | the first ordinal in a range whose marker has a vertex, or none when no marker in the range has one |
| MarkerIntervals.ChildOfMarker | src/AssemblerMarkerGraph.cpp:1038-1060 | a marker's entry is an interval starting at that marker |
| MarkerIntervals.ChildOfMarkerMeaning | src/AssemblerMarkerGraph.cpp:1038-1060 | the entry names the vertex of the interval's end marker, with no vertex strictly between; no entry when no later marker of the read has a vertex |
| MarkerIntervals.ScanToNextVertex | src/AssemblerMarkerGraph.cpp:1045-1058 | the ordinal scan returns the first later ordinal with a vertex |
| MarkerIntervals.ScanChild | src/AssemblerMarkerGraph.cpp:1038-1060 | the scan for one marker returns that marker's entry |
| MarkerIntervals.ChildEntriesStep | src/AssemblerMarkerGraph.cpp:1038-1060 | one more marker appends its entry, if it has one |
| MarkerIntervals.GetChildEntries | src/AssemblerMarkerGraph.cpp:1038-1060 | the first loop builds exactly the entries of the vertex's markers, in marker order |
| MarkerIntervals.ExpandSnoc | src/AssemblerMarkerGraph.cpp:1067-1082 | a child appended to the list appends its entries |
| MarkerIntervals.TagStreak | src/AssemblerMarkerGraph.cpp:1067-1082 | a streak of entries with one child is that child paired with the streak's intervals |
| MarkerIntervals.GroupStep | src/AssemblerMarkerGraph.cpp:1067-1082 | closing a streak as a new child keeps the grouping state |
| MarkerIntervals.GroupStreaks | src/AssemblerMarkerGraph.cpp:1067-1082 | the children regroup the sorted entries exactly, each child non-empty, in strictly increasing vertex order |
| MarkerIntervals.GetMarkerIntervals | src/AssemblerMarkerGraph.cpp:1089-1132 | the intervals of a possible edge are those of the markers of v0 whose read next reaches v1, in marker order |
| MarkerIntervals.StartMarkerOrder | src/AssemblerMarkerGraph.cpp:1089-1132 | an interval starting on a smaller marker id is a smaller interval |
| MarkerIntervals.MarkerIntervalsSorted | src/AssemblerMarkerGraph.cpp:1089-1132 | the intervals come out strictly sorted, as the edge requires |
| MarkerIntervals.IntervalsToSorted | src/AssemblerMarkerGraph.cpp:1089-1132 | entries with increasing start markers give strictly sorted intervals |
| MarkerIntervals.ChildEntriesStartsIncreasing | src/AssemblerMarkerGraph.cpp:1038-1060 | the entries of sorted markers start on strictly increasing markers |
| MarkerIntervals.IntervalsStep | src/AssemblerMarkerGraph.cpp:1089-1132 | one more marker of v0 appends its interval exactly when its read next reaches v1 |
| MarkerIntervals.IntervalsToSnoc | src/AssemblerMarkerGraph.cpp:1089-1132 | an entry for v1 appends its interval, any other entry nothing |
| MarkerIntervals.AddUint32 | src/AssemblerMarkerGraph.cpp:5310 | uint32 addition stays within 32 bits and is exact when the sum fits |
| MarkerIntervals.NextVertexAsWritten | src/AssemblerMarkerGraph.cpp:5297-5319 | the search with the end ordinal computed in uint32, as written; whenever ordinal + maxSkip + 1 fits in 32 bits it returns what the intended search returns |
| MarkerIntervals.NextVertexAsWrittenMissesVertex | src/AssemblerMarkerGraph.cpp:5310 | with maxSkip = 2^32 - 1 the wrapped end ordinal hides a vertex one marker away |
| MarkerIntervals.NextVertexWithinSkip | src/AssemblerMarkerGraph.cpp:5297-5319 | the next vertex is the first later marker's vertex at most maxSkip markers away, or invalidVertexId when there is none |
| MarkerIntervals.FindNextMarkerGraphVertices | src/AssemblerMarkerGraph.cpp:5297-5322 | one entry per marker, each the next vertex within maxSkip markers, with the end ordinal computed without wrapping |
| MarkerGraphEdges.Coverage | src/AssemblerMarkerGraph.cpp:2151-2156 | the 8-bit coverage is the interval count when below 255, and 255 otherwise |
| MarkerGraphEdges.CoverageMonotone | src/AssemblerMarkerGraph.cpp:2151-2156 | saturation keeps the order of coverages |
| MarkerGraphEdges.CreateEdgesOfVertex | src/AssemblerMarkerGraph.cpp:2143-2166 | one edge per child, from the vertex to the child, with the child's intervals and saturated coverage, targets strictly increasing |
| MarkerGraphEdges.BuildAdjacency | src/AssemblerMarkerGraph.cpp:2081-2104 | edgesBySource[v] and edgesByTarget[v] list, in increasing order, exactly the edges leaving and entering v |
| MarkerGraphEdges.ValidGraphKept | src/AssemblerMarkerGraph.cpp:5096-5141 | flag updates keep the adjacency tables valid |
| MarkerGraphEdges.UpdateFlag | src/AssemblerMarkerGraph.cpp:5114-5118 | argument 0 clears the flag, 1 sets it, any other value leaves it |
| MarkerGraphEdges.SetFlagsMeaning | src/AssemblerMarkerGraph.cpp:5113-5139 | endpoints and coverage stay, each of the five flags follows its argument, and arguments of 2 change nothing |
| MarkerGraphEdges.UpdateOneFlag | src/AssemblerMarkerGraph.cpp:5114-5118 | the method computes the flag rule |
| MarkerGraphEdges.UpdateEdgeFlags | src/AssemblerMarkerGraph.cpp:5113-5139 | the five updates of one edge give the flagged edge |
| MarkerGraphEdges.SetMarkerGraphEdgeFlags | src/AssemblerMarkerGraph.cpp:5096-5141 | every edge gets the same five flag updates and nothing else changes |
| MarkerGraphEdges.LiveEdges | src/AssemblerMarkerGraph.cpp:2973-2993 | the listed edges that were not removed, each an existing listed edge |
| MarkerGraphEdges.LiveEdgesStep | src/AssemblerMarkerGraph.cpp:2973-2993 | one more listed edge is appended exactly when it was not removed |
| MarkerGraphEdges.LiveEdgesComplete | src/AssemblerMarkerGraph.cpp:2973-2993 | every listed edge not removed is among the live edges |
| MarkerGraphEdges.OnlyLiveEdge | src/AssemblerMarkerGraph.cpp:2973-2993 | when one listed edge survives and only one does, it is that edge |
| MarkerGraphEdges.LiveEdgesPrefix | src/AssemblerMarkerGraph.cpp:2973-2993 | a prefix of the list has no more live edges than the whole |
| MarkerGraphEdges.LiveEdgesOfRemoved | src/AssemblerMarkerGraph.cpp:2920-2943 | when no listed edge is in the pruned strong subgraph, none survives |
| MarkerGraphEdges.LiveEdgesNone | src/AssemblerMarkerGraph.cpp:3068-3094 | no more edges survive than are listed, and none survives exactly when every listed edge was removed |
| MarkerGraphEdges.OutDegree | src/AssemblerMarkerGraph.cpp:3068-3079 | the out-degree is at most the number of edges leaving the vertex, and is 0 exactly when every one of them was removed |
| MarkerGraphEdges.InDegree | src/AssemblerMarkerGraph.cpp:3080-3094 | the in-degree is at most the number of edges entering the vertex, and is 0 exactly when every one of them was removed |
| MarkerGraphEdges.IsForwardLeaf | src/AssemblerMarkerGraph.cpp:2920-2931 | a forward leaf exactly when no edge in edgesBySource of the vertex is still in the pruned strong subgraph (neither removed by transitive reduction nor pruned) |
| MarkerGraphEdges.IsBackwardLeaf | src/AssemblerMarkerGraph.cpp:2932-2943 | a backward leaf exactly when no edge in edgesByTarget of the vertex is still in the pruned strong subgraph |
| MarkerGraphEdges.NoneInPrunedMeaning | src/AssemblerMarkerGraph.cpp:2920-2943 | the leaf test, edge by edge |
| MarkerGraphEdges.WellFormedIdsIn | src/AssemblerMarkerGraph.cpp:2920-2943 | the lists of a vertex name only existing edges |
| MarkerGraphEdges.SourceIndex | src/AssemblerMarkerGraph.cpp:2184-2205 | an edge is in edgesBySource[v] exactly when it leaves v |
| MarkerGraphEdges.TargetIndex | src/AssemblerMarkerGraph.cpp:2184-2205 | an edge is in edgesByTarget[v] exactly when it enters v |
| MarkerGraphEdges.ForwardLeafMeaning | src/AssemblerMarkerGraph.cpp:2920-2931 | a vertex is a forward leaf exactly when no edge leaving it is in the pruned strong subgraph, and then its out-degree there is 0 |
| MarkerGraphEdges.BackwardLeafMeaning | src/AssemblerMarkerGraph.cpp:2932-2943 | a vertex is a backward leaf exactly when no edge entering it is in the pruned strong subgraph, and then its in-degree there is 0 |
| MarkerGraphEdges.UniqueLiveEdge | src/AssemblerMarkerGraph.cpp:2973-2993 | the scan returns the only edge of the list that was not removed, or invalidEdgeId when there are none or several |
| MarkerGraphEdges.NextEdgeInChain | src/AssemblerMarkerGraph.cpp:2950-2994 | the next edge is the target's only live out-edge when the target has one live in-edge, else invalidEdgeId |
| MarkerGraphEdges.PreviousEdgeInChain | src/AssemblerMarkerGraph.cpp:3001-3065 | the previous edge is the source's only live in-edge when the source has one live out-edge, else invalidEdgeId |
| MarkerGraphEdges.NextPreviousInverse | src/AssemblerMarkerGraph.cpp:2950-3065 | the previous edge of the next edge of a live edge is that edge |
| MarkerGraphEdges.PreviousNextInverse | src/AssemblerMarkerGraph.cpp:2950-3065 | the next edge of the previous edge of a live edge is that edge |
| MarkerGraphEdges.PruneCandidates | src/AssemblerMarkerGraph.cpp:2869-2883 | only edges still in the pruned strong subgraph, ending at a forward leaf or starting at a backward leaf, are flagged |
| MarkerGraphEdges.ApplyPrune | src/AssemblerMarkerGraph.cpp:2888-2895 | exactly the flagged edges get wasPruned; nothing else changes |
| MarkerGraphEdges.PrunedFromTransitive | src/AssemblerMarkerGraph.cpp:2865-2897 | successive prune iterations only set wasPruned, on edges that were in the strong subgraph |
| MarkerGraphEdges.PruneIterations | src/AssemblerMarkerGraph.cpp:2865-2897 | after any number of iterations, endpoints, coverage and all flags but wasPruned are unchanged, and wasPruned is only ever set |
| MarkerGraphEdges.ClearPruned | src/AssemblerMarkerGraph.cpp:2858-2860 | every edge loses wasPruned and nothing else changes |
| MarkerGraphEdges.FindEdgesToBePruned | src/AssemblerMarkerGraph.cpp:2869-2883 | the first pass flags exactly the prune candidates |
| MarkerGraphEdges.FlagPrunedEdges | src/AssemblerMarkerGraph.cpp:2888-2895 | the second pass prunes the flagged edges and clears the flags |
| MarkerGraphEdges.PruneIteration | src/AssemblerMarkerGraph.cpp:2867-2896 | one iteration prunes exactly the candidates of the edges as they were before it |
| MarkerGraphEdges.ClearPrunedFlags | src/AssemblerMarkerGraph.cpp:2858-2860 | the loop clears wasPruned on every edge |
| MarkerGraphEdges.RunPruneIterations | src/AssemblerMarkerGraph.cpp:2865-2897 | the iterations give the specified pruned edges |
| MarkerGraphEdges.PruneStrongSubgraph | src/AssemblerMarkerGraph.cpp:2835-2913 | pruneMarkerGraphStrongSubgraph clears wasPruned and then runs the iterations |
| OrientedReadPaths.ReadVertices | src/AssemblerMarkerGraph.cpp:5190-5220 | the vertex table entry of each marker of the oriented read, by ordinal |
| OrientedReadPaths.FirstVertexOrdinal | src/AssemblerMarkerGraph.cpp:5206-5220 | the first ordinal in a range with a vertex, or none when no ordinal there has one |
| OrientedReadPaths.PathPair | src/AssemblerMarkerGraph.cpp:5190-5258 | an ordinal with a vertex pairs with the next ordinal with a vertex, up to lastOrdinal |
| OrientedReadPaths.PathOrdinals | src/AssemblerMarkerGraph.cpp:5190-5259 | the pairs of consecutive ordinals with vertices, in increasing order |
| OrientedReadPaths.FirstEdgeTo | src/AssemblerMarkerGraph.cpp:5223-5232 | the first listed edge ending at v1, or none when none does |
| OrientedReadPaths.LocateEdge | src/AssemblerMarkerGraph.cpp:5223-5232 | the scan of the out-edges of vertexId0 finds the first one reaching vertexId1 |
| OrientedReadPaths.ScanToVertexUpTo | src/AssemblerMarkerGraph.cpp:5206-5220 | the inner scan finds the next ordinal with a vertex, up to lastOrdinal |
| OrientedReadPaths.ComputeOrientedReadMarkerGraphPath | src/AssemblerMarkerGraph.cpp:5149-5260 | the computed path is the specified one: an edge per pair, or a failure when a pair has no edge |
| OrientedReadPaths.ExtendPath | src/AssemblerMarkerGraph.cpp:5190-5259 | one iteration of the outer loop extends the path by the pair of ordinal0 |
| OrientedReadPaths.PathUpToFailureStays | src/AssemblerMarkerGraph.cpp:5233-5256 | once a pair has no edge, every longer run fails |
| OrientedReadPaths.PathUpToSuccess | src/AssemblerMarkerGraph.cpp:5190-5259 | on success the pairs are the path ordinals and each edge goes from the pair's first vertex to its second |
| OrientedReadPaths.PathUpToFailureWitness | src/AssemblerMarkerGraph.cpp:5233-5256 | a failed path has a pair with no edge |
| OrientedReadPaths.PathUpToFailure | src/AssemblerMarkerGraph.cpp:5233-5256 | the path fails exactly when some pair has no edge |
| OrientedReadPaths.ChainStep | src/AssemblerMarkerGraph.cpp:5206-5220 | the pair of an ordinal ends at the next ordinal with a vertex |
| OrientedReadPaths.PathOrdinalsLast | src/AssemblerMarkerGraph.cpp:5190-5259 | the last pair is contributed by its start and nothing between that start and the end contributes |
| OrientedReadPaths.PathOrdinalsChain | src/AssemblerMarkerGraph.cpp:5190-5259 | the second ordinal of each pair is the first of the next |
| OrientedReadPaths.PathIsContiguous | src/AssemblerMarkerGraph.cpp:5149-5260 | each edge of a computed path ends where the next one starts |
| BoundedSearch.ValidGraphBySourceSound | src/AssemblerMarkerGraph.cpp:2409-2444 | valid tables list only edges leaving each vertex, which the search follows |
| BoundedSearch.BySourceSoundKept | src/AssemblerMarkerGraph.cpp:2409-2444 | flag changes keep that |
| BoundedSearch.BfsPathAppend | src/AssemblerMarkerGraph.cpp:2418-2439 | extending a search path by a usable out-edge of its end gives a search path to that edge's target |
| BoundedSearch.BfsStateStart | src/AssemblerMarkerGraph.cpp:2409-2411 | the search starts with u0 at distance 0, alone in the queue |
| BoundedSearch.BfsStatePop | src/AssemblerMarkerGraph.cpp:2413-2417 | removing the queue front keeps the search state |
| BoundedSearch.BfsStateAdd | src/AssemblerMarkerGraph.cpp:2426-2439 | reaching a new vertex and queueing it below maxDistance keeps the search state |
| BoundedSearch.ExploreOutEdges | src/AssemblerMarkerGraph.cpp:2418-2443 | the scan of the out-edges of v0 keeps the state; a reported find is a search path from u0 to u1 within maxDistance |
| BoundedSearch.BoundedBfs | src/AssemblerMarkerGraph.cpp:2409-2459 | a found u1 is reached by a path of edges not removed, avoiding the candidate, within maxDistance; all distances are reset to -1 |
| BoundedSearch.ResetDistances | src/AssemblerMarkerGraph.cpp:2453-2459 | resetting the reached vertices leaves every distance at -1 |
| TransitiveReductions.OnlyReductionFlagsSetTopology | src/AssemblerMarkerGraph.cpp:2271-2491 | setting reduction flags keeps endpoints and coverage |
| TransitiveReductions.ReductionStepsCompose | src/AssemblerMarkerGraph.cpp:2271-2491 | two phases that only set flags within their coverage ranges compose into one |
| TransitiveReductions.UnchangedOutsideWeaken | src/AssemblerMarkerGraph.cpp:2271-2491 | a phase untouched outside a coverage range is untouched outside any larger range |
| TransitiveReductions.PairFlaggedMeaning | src/AssemblerMarkerGraph.cpp:2446-2450 | flagging an edge flags it and its reverse complement, only sets flags, keeps the flags paired, and touches only edges of that coverage |
| TransitiveReductions.FlagEdgePair | src/AssemblerMarkerGraph.cpp:2446-2450 | the method flags the edge and its reverse complement |
| TransitiveReductions.BypassKept | src/AssemblerMarkerGraph.cpp:2387-2467 | a bypass of an edge, avoiding the flagged edges of a later state of the reduction, avoids those of any earlier state, since flags only get set |
| TransitiveReductions.BypassAboveLow | src/AssemblerMarkerGraph.cpp:2346-2467 | once every edge of coverage up to the low threshold is flagged, a forward bypass uses only edges of coverage above it |
| TransitiveReductions.BypassAboveKept | src/AssemblerMarkerGraph.cpp:2387-2467 | a bypass through edges above the low threshold depends only on endpoints and coverage |
| TransitiveReductions.PairRepresentative | src/AssemblerMarkerGraph.cpp:2305-2316 | the member of a reverse complement pair with the lower id, which is one of the two |
| TransitiveReductions.PairRepresentativeOfBucketEdge | src/AssemblerMarkerGraph.cpp:2305-2316 | both members of the pair of a bucket edge have that bucket edge as representative |
| TransitiveReductions.GatherEdgesByCoverage | src/AssemblerMarkerGraph.cpp:2299-2323 | bucket c holds, in increasing order, the edges of coverage c below the threshold that represent their reverse complement pair |
| TransitiveReductions.CoverageBucketMembership | src/AssemblerMarkerGraph.cpp:2299-2323 | an edge is in bucket c exactly when it has coverage c in range and is not the larger of its pair |
| TransitiveReductions.CoverageBucketCovers | src/AssemblerMarkerGraph.cpp:2299-2323 | every edge of coverage in range is in its bucket itself or through its reverse complement |
| TransitiveReductions.EmptyBucketZero | src/AssemblerMarkerGraph.cpp:2326 | bucket 0 is empty exactly when no edge has coverage 0 |
| TransitiveReductions.GatheredBucketsByCoverage | src/AssemblerMarkerGraph.cpp:2299-2323 | every entry of bucket c is an edge of coverage c |
| TransitiveReductions.BucketsByCoverageKept | src/AssemblerMarkerGraph.cpp:2299-2323 | flag changes keep that |
| TransitiveReductions.FlagBucket | src/AssemblerMarkerGraph.cpp:2346-2356 | every edge of a bucket is flagged with its reverse complement; only flags in range are set and flags stay paired |
| TransitiveReductions.FlagLowCoverage | src/AssemblerMarkerGraph.cpp:2346-2356 | every edge with coverage 1 to low is flagged, with its reverse complement, and no other edge changes |
| TransitiveReductions.MarkerSkip | src/AssemblerMarkerGraph.cpp:2362-2379 | the uint32 difference of the two ordinals, wrapping when ordinal1 < ordinal0 |
| TransitiveReductions.FlagHighSkip | src/AssemblerMarkerGraph.cpp:2362-2379 | each coverage-1 candidate whose interval skips more than the limit is flagged with its reverse complement; only coverage-1 edges change; every newly flagged edge is such a candidate or its reverse complement |
| TransitiveReductions.SkipFlaggedStep | src/AssemblerMarkerGraph.cpp:2362-2379 | flagging one more long-skip candidate keeps every newly flagged edge a long-skip candidate or its reverse complement |
| TransitiveReductions.ReduceEdge | src/AssemblerMarkerGraph.cpp:2387-2467 | a candidate is flagged, with its reverse complement, only when it was not flagged and another path of kept edges within maxDistance joins its ends |
| TransitiveReductions.ReduceBucket | src/AssemblerMarkerGraph.cpp:2387-2467 | the edges of one bucket are searched in list order; only flags in range are set and stay paired; every newly flagged edge is a bucket edge, or its reverse complement, with another path of kept edges other than itself within maxDistance from its source to its target (target to source for the reverse reduction) in the state before the bucket |
| TransitiveReductions.BucketSearchStep | src/AssemblerMarkerGraph.cpp:2387-2467 | one more candidate searched keeps the bucket invariant: flags set in pairs within range, and each newly flagged edge justified by a bypass |
| TransitiveReductions.BypassedBucketStep | src/AssemblerMarkerGraph.cpp:2387-2467 | a candidate flagged because its search found a bypass is justified by a bypass in the state before the bucket |
| TransitiveReductions.BucketSearchedAll | src/AssemblerMarkerGraph.cpp:2387-2467 | once the whole bucket is searched, every newly flagged edge comes from a bucket edge with a bypass |
| TransitiveReductions.ReduceIntermediateCoverage | src/AssemblerMarkerGraph.cpp:2387-2467 | the buckets above low are searched in increasing coverage; only flags in range are set and stay paired; every newly flagged edge has coverage strictly between the thresholds and is an edge of the bucket of its coverage, or the reverse complement of one, that had a bypass within maxDistance before the searches |
| TransitiveReductions.BypassedCoverageStep | src/AssemblerMarkerGraph.cpp:2387-2467 | after one more coverage, a newly flagged edge is still justified by a bypass in the state before the searches, for an edge of the bucket of its own coverage |
| TransitiveReductions.ClearReductionFlags | src/AssemblerMarkerGraph.cpp:2291-2295 | three flags are cleared on every edge and nothing else changes |
| TransitiveReductions.FlagLowCoverageAndSkips | src/AssemblerMarkerGraph.cpp:2346-2379 | after the first two phases low-coverage edges and high-skip coverage-1 edges are flagged, with flags set in pairs only; an edge above the low threshold is newly flagged only when it has coverage 1 and the representative of its pair has a single interval with a long skip |
| TransitiveReductions.SkipPhaseJustified | src/AssemblerMarkerGraph.cpp:2346-2379 | after the first two phases, an edge above the low threshold is flagged only as a long-skip coverage-1 candidate or its reverse complement |
| TransitiveReductions.FlagWeakEdges | src/AssemblerMarkerGraph.cpp:2346-2467 | the three flagging phases set flags only, in pairs, leaving coverages at or above the high threshold untouched; an edge above the low threshold is newly flagged only for a long skip or when the representative of its pair has another path from its source to its target within maxDistance through edges above the low threshold |
| TransitiveReductions.SearchPhaseJustified | src/AssemblerMarkerGraph.cpp:2387-2467 | an edge flagged by the searches has, as the representative of its pair, an edge with a bypass within maxDistance through edges above the low threshold |
| TransitiveReductions.TransitiveReduction | src/AssemblerMarkerGraph.cpp:2271-2491 | topology is kept, wasPruned and isSuperBubbleEdge are cleared and the other flags kept; the run succeeds exactly when no edge has coverage 0; then low-coverage and high-skip edges are flagged, flags come in reverse complement pairs, edges at or above the high threshold are not flagged, and an edge above the low threshold is flagged only for a long skip or because the representative of its pair has another path from its source to its target within maxDistance through edges above the low threshold |
| TransitiveReductions.FlagsFromClearedJustified | src/AssemblerMarkerGraph.cpp:2271-2491 | starting from cleared flags, every flag above the low threshold is justified by a long skip or by a bypass in the graph as given |
| TransitiveReductions.ReverseTransitiveReduction | src/AssemblerMarkerGraph.cpp:2509-2664 | only reduction flags are set, in pairs, and only on edges with coverage strictly between the thresholds; an edge is newly flagged only when the representative of its pair A->B had a path B->...->A of kept edges other than itself within maxDistance |
| LocalStrongSubgraph.ValidGraphByTargetSound | src/AssemblerMarkerGraph.cpp:2767-2798 | valid tables list only edges entering each vertex, which the parent scan follows |
| LocalStrongSubgraph.WalkExtend | src/AssemblerMarkerGraph.cpp:2730-2798 | a walk extended by a usable edge in either direction is a walk to the new vertex |
| LocalStrongSubgraph.FlattenMember | src/AssemblerMarkerGraph.cpp:2816-2824 | a vertex listed at some distance is among all listed vertices |
| LocalStrongSubgraph.FlattenGrow | src/AssemblerMarkerGraph.cpp:2730-2798 | adding to the lists keeps every listed vertex listed |
| LocalStrongSubgraph.FlattenRemove | src/AssemblerMarkerGraph.cpp:2816-2824 | emptying one list keeps the vertices listed elsewhere |
| LocalStrongSubgraph.FlattenOfEmpty | src/AssemblerMarkerGraph.cpp:2816-2824 | empty lists list nothing |
| LocalStrongSubgraph.SideStateAdd | src/AssemblerMarkerGraph.cpp:2730-2798 | flagging and listing a newly reached vertex with its walk keeps the search state |
| LocalStrongSubgraph.SideStateStart | src/AssemblerMarkerGraph.cpp:2705-2711 | the start vertex alone, flagged and at distance 0, is a search state |
| LocalStrongSubgraph.ExploreNeighbors | src/AssemblerMarkerGraph.cpp:2730-2798 | scanning children or parents keeps the state and lists new vertices at the next distance; a meeting vertex is flagged by the other search and reached by a walk of at most distance + 1 steps |
| LocalStrongSubgraph.VisitNeighbor | src/AssemblerMarkerGraph.cpp:2730-2798 | one edge of the scan skips the start edge, removed edges and flagged vertices, reports a vertex of the other search with a walk of at most distance + 1 steps, and otherwise lists the new vertex at the next distance |
| LocalStrongSubgraph.ListVertex | src/AssemblerMarkerGraph.cpp:2759-2760 | the new vertex is flagged and appended to the list of its distance, and nothing else changes |
| LocalStrongSubgraph.ExpandSide | src/AssemblerMarkerGraph.cpp:2720-2811 | one distance step of one search keeps the state; a meeting is reported with its walk of at most distance + 1 steps |
| LocalStrongSubgraph.ClearList | src/AssemblerMarkerGraph.cpp:2816-2824 | the flags of the vertices at one distance are cleared, then the list |
| LocalStrongSubgraph.CleanupDone | src/AssemblerMarkerGraph.cpp:2816-2824 | once all lists are cleared no flag is left set |
| LocalStrongSubgraph.SideStateCleanup | src/AssemblerMarkerGraph.cpp:2816-2824 | a search state is ready for the clean-up |
| LocalStrongSubgraph.ClearWorkAreas | src/AssemblerMarkerGraph.cpp:2816-2824 | afterwards every flag is clear and every list empty, as the next call expects |
| LocalStrongSubgraph.StartSide | src/AssemblerMarkerGraph.cpp:2705-2711 | the start vertex is flagged and listed at distance 0 and nothing else changes |
| LocalStrongSubgraph.RunSearches | src/AssemblerMarkerGraph.cpp:2720-2811 | the two searches alternate by distance; a meeting is a vertex reached from both ends by walks of at most maxDistance steps each |
| LocalStrongSubgraph.EdgeDisconnectsLocalStrongSubgraph | src/AssemblerMarkerGraph.cpp:2669-2830 | false only when walks of at most maxDistance steps each, avoiding the edge and removed edges, lead from its source and from its target to a common vertex; the work areas are left clear |
| RleAssembly.GetMarkerIntervalRleSequence | src/AssemblerMarkerGraph.cpp:5522-5553 | the overlap when the markers overlap, else the bases strictly between them, read from the oriented read |
| RleAssembly.EdgeAppend | src/AssemblerMarkerGraph.cpp:5436-5497 | an edge fails exactly when one of the strict checks fails on it |
| RleAssembly.AssembledFailureStays | src/AssemblerMarkerGraph.cpp:5436-5497 | once an edge fails, assembling more edges fails |
| RleAssembly.AssembledPrefix | src/AssemblerMarkerGraph.cpp:5436-5497 | assembly only appends: a success extends the assembly of every shorter prefix, which starts with the first k-mer |
| RleAssembly.AssembledStep | src/AssemblerMarkerGraph.cpp:5436-5497 | one more edge only appends |
| RleAssembly.AssembledFailure | src/AssemblerMarkerGraph.cpp:5436-5497 | assembly fails exactly when a check fails on some edge |
| RleAssembly.AppendKmer | src/AssemblerMarkerGraph.cpp:5473-5492 | appending from an overlap adds the rest of the k-mer |
| RleAssembly.CheckIntervalsAgree | src/AssemblerMarkerGraph.cpp:5459-5460 | every marker interval of the edge implies the same sequence as the first one |
| RleAssembly.AppendEdge | src/AssemblerMarkerGraph.cpp:5436-5497 | one iteration succeeds exactly when the edge's checks pass, and then appends what the edge contributes |
| RleAssembly.AssembledNext | src/AssemblerMarkerGraph.cpp:5436-5497 | one more edge extends the assembly by its contribution or fails, and the walk moves to its target |
| RleAssembly.AssembleMarkerGraphPathRleStrict | src/AssemblerMarkerGraph.cpp:5408-5498 | the method returns the specified assembly: empty for an empty path, otherwise the first k-mer and each edge's contribution, or a failure |
| Mode3Segments.MakeEdgeInfo | src/mode3.cpp:119-124 | the flag is stored as given, and the edge id keeps its low 63 bits |
| Mode3Segments.MakeEdgeInfoDropsTopBit | src/mode3.cpp:119-124 | ids that differ only in bit 63 give the same entry |
| Mode3Segments.ValidGraphChainReady | src/mode3.cpp:44-86 | valid adjacency tables list each edge under its own source and target |
| Mode3Segments.NextPrev | src/mode3.cpp:44-86 | following forward from e to f and backward from f to e are the same step |
| Mode3Segments.MaximalChainClosed | src/mode3.cpp:44-86 | a whole chain holds the neighbours of each of its edges |
| Mode3Segments.ForwardStepFresh | src/mode3.cpp:44-65 | extending forward by an edge other than the first keeps a chain without repeats |
| Mode3Segments.BackwardStepFresh | src/mode3.cpp:68-86 | extending backward from a non-circular chain keeps a chain without repeats |
| Mode3Segments.FollowForward | src/mode3.cpp:44-65 | the forward walk gives a chain of unfound edges without repeats; it is circular exactly when it closes on the start edge |
| Mode3Segments.BackwardStep | src/mode3.cpp:68-86 | one backward step keeps the walk and cannot outgrow the edge count |
| Mode3Segments.PreviousInChain | src/mode3.cpp:68-86 | the tests of one backward step give the previous edge of the chain |
| Mode3Segments.FollowBackward | src/mode3.cpp:68-86 | the backward walk, reversed before the forward one, gives a maximal chain of unfound edges |
| Mode3Segments.FindChain | src/mode3.cpp:44-92 | the path is the maximal chain through the start edge, of unfound edges |
| Mode3Segments.BackwardStateMaximal | src/mode3.cpp:68-92 | a chain that ends without a successor and starts without a predecessor is maximal |
| Mode3Segments.SegmentEntries | src/mode3.cpp:104-107 | the entries of a new segment hold the chain's edges, none virtual |
| Mode3Segments.WithFound | src/mode3.cpp:95-101 | an edge is found afterwards exactly when it was found before or is on the path |
| Mode3Segments.MarkFound | src/mode3.cpp:95-101 | the loop marks exactly the path's edges found |
| Mode3Segments.MarkChainKeepsClosed | src/mode3.cpp:95-101 | marking a whole chain keeps the found edges closed under chain steps |
| Mode3Segments.AddSegmentLocations | src/mode3.cpp:104-107 | a new segment of unlocated edges keeps each edge at one place and locates exactly its edges in addition |
| Mode3Segments.InitialSegmentsState | src/mode3.cpp:22-43 | with no path and no edge found the loop invariant holds |
| Mode3Segments.FoundBelowStep | src/mode3.cpp:22-113 | once edge n is found, all edges up to n are found |
| Mode3Segments.AllFoundLocated | src/mode3.cpp:113 | when every edge is found every edge is on a segment path |
| Mode3Segments.AddSegment | src/mode3.cpp:44-107 | one iteration for an unfound edge keeps the invariant, marks it found and never unmarks an edge |
| Mode3Segments.CreateSegments | src/mode3.cpp:22-115 | every segment path is a maximal chain of non-virtual entries, and every marker graph edge is on exactly one path at one position |
| Mode3Segments.ComputeMarkerGraphEdgeTable | src/mode3.cpp:132-181 | each edge on a path gets its segment and position; every other edge gets the unset entry |
| Mode3Segments.FillSegmentEntries | src/mode3.cpp:161-177 | the loop over one segment's path records each of its non-virtual entries |
| Mode3Links.LookupAt | src/mode3.cpp:271-298 | in a sorted map an entry is found under its own key |
| Mode3Links.Insert | src/mode3.cpp:280-294 | inserting keeps the map sorted |
| Mode3Links.InsertLookup | src/mode3.cpp:280-294 | the transition is appended under its own key only, and no empty entry is made |
| Mode3Links.LookupAbsent | src/mode3.cpp:280-294 | a key below every key is absent |
| Mode3Links.ReadTransitionsMeaning | src/mode3.cpp:280-294 | a pseudo-path yields one transition per consecutive pair of entries on different segments, and no other |
| Mode3Links.RepresentsInsert | src/mode3.cpp:280-294 | inserting one transition keeps the map grouping all transitions so far by key, in order |
| Mode3Links.AddReadTransitions | src/mode3.cpp:280-294 | the loop over one pseudo-path adds that read's transitions |
| Mode3Links.AllTransitionsNext | src/mode3.cpp:276-279 | visiting (readId, strand) adds the transitions of the oriented read with that value |
| Mode3Links.FindTransitions | src/mode3.cpp:271-298 | the map groups the transitions of all oriented reads by segment pair, in read order |
| Mode3Links.AllTransitionsChangeSegment | src/mode3.cpp:280-294 | every transition joins two different segments |
| Mode3Links.SelectedMeaning | src/mode3.cpp:302-322 | exactly the entries with at least minCoverage transitions are kept, in key order |
| Mode3Links.CreateLinks | src/mode3.cpp:302-322 | one link per selected entry, in map order, with that entry's segments and transitions |
| Mode3Links.LinksMeaning | src/mode3.cpp:302-322 | the links are one per segment pair with at least minCoverage transitions, no other, and each keeps its transitions |
| Mode3Links.LookupPresent | src/mode3.cpp:302-322 | a key with transitions has an entry |
| Mode3Links.ConnectivityAsWritten | src/mode3.cpp:400-425 | the fill as written succeeds exactly when every segment id is below the link count |
| Mode3Links.ConnectivityAsWrittenFails | src/mode3.cpp:409-410 | one link from segment 2 to segment 0 indexes the single bucket with 2 |
| Mode3Links.CreateConnectivity | src/mode3.cpp:400-425 | one bucket per segment; linksBySource[s] and linksByTarget[s] list, in increasing order, exactly the links leaving and entering s |
| Mode3Offsets.OffsetOfAt | src/mode3.cpp:570-587 | the offset recorded for a read is that of its entry |
| Mode3Offsets.ReadSetLast | src/mode3.cpp:570-587 | the reads of a sorted list are those before its last entry plus a new one |
| Mode3Offsets.CommonCountIsIntersection | src/mode3.cpp:555-595 | the common count is the number of oriented reads on both segments |
| Mode3Offsets.CommonCountSymmetric | src/mode3.cpp:555-595 | the common count does not depend on the order of the segments |
| Mode3Offsets.CommonTail | src/mode3.cpp:570-587 | entries whose read is not on the other segment add nothing |
| Mode3Offsets.MergePassFirst | src/mode3.cpp:570-587 | passing the smaller read of the merge skips a read not on the other segment |
| Mode3Offsets.MergePassBoth | src/mode3.cpp:570-587 | passing a read on both segments keeps the merge order |
| Mode3Offsets.CommonStep | src/mode3.cpp:570-587 | one step of the merge adds one to the count and the offset difference to the sum for a common read, nothing otherwise |
| Mode3Offsets.RoundQuotient | src/mode3.cpp:589-593 | the nearest integer to n / d, halves rounded away from zero |
| Mode3Offsets.EstimateOffset | src/mode3.cpp:555-595 | the count of common reads, and the rounded average offset difference over them, or the invalid offset when there are none |
| Mode3Offsets.MissingSplit | src/mode3.cpp:641-707 | every read on one segment is common, or missing and would overlap, or missing and would not |
| Mode3Offsets.MissingStep | src/mode3.cpp:641-707 | one more entry adds one to exactly the right missing count |
| Mode3Offsets.AnalyzeSegmentPair | src/mode3.cpp:601-711 | totals, common count and offset as estimated; with no common read the missing counts are kept, otherwise reads on one segment only are counted as unexplained when they would overlap the other segment and as short otherwise |
| Mode3Offsets.CountOneSided | src/mode3.cpp:651-698 | a read on one segment only is counted as unexplained or short by its overlap |
| Mode3Offsets.CountMissing | src/mode3.cpp:641-707 | the merge loop counts the missing reads of both segments and changes nothing else |
| Mode3Offsets.AnalyzeCountsAddUp | src/mode3.cpp:641-707 | on each segment common, unexplained and short reads add up to the total |
| Mode3Gfa.LargeDataName | src/mode3.cpp:369-376 | empty (anonymous) exactly when the prefix is empty; otherwise the prefix followed by the name, which can be read back |
| Mode3Gfa.NatToString | src/mode3.cpp:437-457 | a non-empty string of digits, with no leading zero except for 0 |
| Mode3Gfa.DecimalRoundTrip | src/mode3.cpp:437-457 | reading the decimal form back gives the number |
| Mode3Gfa.SplitPlain | src/mode3.cpp:437-457 | a string without the separator is one piece |
| Mode3Gfa.SplitFirst | src/mode3.cpp:437-457 | the first piece ends at the first separator |
| Mode3Gfa.SplitJoin | src/mode3.cpp:437-457 | splitting fields joined by a separator none holds gives them back |
| Mode3Gfa.TerminatedAppend | src/mode3.cpp:437-457 | one more line adds it and a newline |
| Mode3Gfa.SplitTerminated | src/mode3.cpp:437-457 | splitting newline-terminated lines gives them back, then an empty piece |
| Mode3Gfa.DigitsPlain | src/mode3.cpp:437-457 | a number holds no tab or newline |
| Mode3Gfa.NoNewlineInJoin | src/mode3.cpp:437-457 | joining fields without newlines gives a line without newlines |
| Mode3Gfa.SegmentFieldsPlain | src/mode3.cpp:443-448 | the S fields hold no tab or newline |
| Mode3Gfa.LinkFieldsPlain | src/mode3.cpp:451-455 | the L fields hold no tab or newline |
| Mode3Gfa.HeaderRecord | src/mode3.cpp:440 | the first record is the header |
| Mode3Gfa.SegmentRecord | src/mode3.cpp:443-448 | record 1 + i is the S record of segment i |
| Mode3Gfa.LinkRecord | src/mode3.cpp:451-455 | the record after the segments is the L record of each link |
| Mode3Gfa.HeaderText | src/mode3.cpp:440 | the header is H and VN:Z:1.0 |
| Mode3Gfa.SegmentText | src/mode3.cpp:445-447 | an S record is S, the id, *, and LN:i: with the path length |
| Mode3Gfa.LinkText | src/mode3.cpp:451-455 | an L record joins the two segment ids, both on +, with overlap 0M |
| Mode3Gfa.RecordsPlain | src/mode3.cpp:437-457 | no record holds a newline |
| Mode3Gfa.GfaTextParses | src/mode3.cpp:437-457 | read back line by line and field by field, the file gives the header, then the id and length of each segment, then the two segments of each link |
| Mode3Gfa.TerminatedStep | src/mode3.cpp:437-457 | the text of one more record extends the text so far |
| Mode3Gfa.FormatSegment | src/mode3.cpp:444-447 | the written S record of a segment |
| Mode3Gfa.FormatLink | src/mode3.cpp:451-455 | the written L record of a link |
| Mode3Gfa.WriteSegments | src/mode3.cpp:442-448 | after the header, the records of all segments |
| Mode3Gfa.WriteLinks | src/mode3.cpp:451-455 | after the segments, the records of all links: the whole file |
| Mode3Gfa.WriteGfa | src/mode3.cpp:437-457 | the written text is the header, the S records, then the L records, each line ending in a newline |
| LocalDirectedReadGraphs.LocalDirectedReadGraph.constructor | src/LocalDirectedReadGraph.cpp:15-31 | an empty graph with an empty vertex map |
| LocalDirectedReadGraphs.LocalDirectedReadGraph.GetDistance | src/LocalDirectedReadGraph.cpp:64-70 | the distance stored in the oriented read's vertex |
| LocalDirectedReadGraphs.LocalDirectedReadGraph.AddVertex | src/LocalDirectedReadGraph.cpp:15-31 | for an oriented read without a vertex, appends its vertex and maps the read to it; other reads and edges are unchanged |
| LocalDirectedReadGraphs.LocalDirectedReadGraph.AddEdge | src/LocalDirectedReadGraph.cpp:35-60 | for two reads with vertices, appends one edge between their vertices carrying the given attributes; nothing else changes |
| LocalDirectedReadGraphs.VertexExistsMeaning | src/LocalDirectedReadGraph.cpp:74-77 | an oriented read has a vertex exactly when some vertex holds it |
| LocalDirectedReadGraphs.VertexColorOf | src/LocalDirectedReadGraph.cpp:186-232 | a set18 colour exactly when conflict information is shown and the vertex has a cluster, indexed by clusterId % 8 + 1; cyan exactly at the maximum distance otherwise; only cyan or black without conflict information |
| LocalDirectedReadGraphs.IsDiamond | src/LocalDirectedReadGraph.cpp:236-238 | a diamond exactly when there is additional tooltip text |
| LocalDirectedReadGraphs.EdgeColorOf | src/LocalDirectedReadGraph.cpp:273-290 | blue exactly for edges not kept, with green and red ends when arrows are coloured; red exactly for kept edges between vertices of two different clusters when conflict information is shown |
| LocalDirectedReadGraphs.GraphVertexColor | src/LocalDirectedReadGraph.cpp:156-241 | without conflict information a vertex is cyan exactly when its stored distance is the maximum |

## Left out

- Threads, the multithreaded batch loops and their memory-mapped storage are left out. Each
  loop is modelled as one sequential pass.
- Union-find (the disjoint sets), and reading and writing files, are left out.
- PeakFinder, spoa and floating-point arithmetic are left out.
- The Kmer table is left out.
- The computation of pseudo-paths (`computePseudoPaths`) is left out. `findTransitions` takes
  pseudo-paths as input.
- `getOrientedReadsOnSegment` and `findOrientedReadsOnSegment` are left out. `estimateOffset`
  and `analyzeSegmentPair` take their output, a sorted list per segment.
- src/MarkerGraph.hpp, src/mode3.hpp and src/LocalDirectedReadGraph.hpp are not part of this
  model. `Edge::wasRemoved()` is taken to mean: removed by transitive reduction, pruned, a
  superbubble edge or a low-coverage cross edge.
- BoundedSearch.BoundedBfs: proves that a reported path exists (soundness), not that every
  path within reach is found. The `int(maxDistance)` cast is not modelled.
- LocalStrongSubgraph.EdgeDisconnectsLocalStrongSubgraph: proves that a false result comes with
  the two walks, each of at most maxDistance steps. It does not prove the converse, that a true
  result means no such walks exist, because the completeness of the two searches is not modelled.
- TransitiveReductions.TransitiveReduction and TransitiveReductions.ReverseTransitiveReduction:
  prove that every flag they set is justified by a long skip or a bypass. They do not prove that
  every candidate with a bypass gets flagged, since that depends on the order of the searches.
- Order within a bucket is a modelling assumption. VectorOfVectors, whose two-pass fill builds
  the coverage buckets, edgesBySource, edgesByTarget, linksBySource and linksByTarget, is not
  part of this model. Common.BucketByKey takes each bucket to list its entries in increasing id
  order, and Common.IdsWithKey, MarkerGraphEdges.BuildAdjacency,
  TransitiveReductions.GatherEdgesByCoverage and Mode3Links.CreateConnectivity state that order
  on that assumption. edgesBySource and edgesByTarget are filled by several threads
  (src/AssemblerMarkerGraph.cpp:2199-2200), so their order is not fixed there. Which edges the
  searches flag can depend on the order within a bucket; the proofs of the flag properties use
  only which edges a bucket holds, not their order.
- Mode3Segments.CreateSegments: requires at most 2^63 edges, so that an edge id fits the 63 bits
  of MarkerGraphEdgeInfo.
- Mode3Segments.ComputeMarkerGraphEdgeTable: requires each edge to sit at one place, which
  CreateSegments proves.
- Mode3Offsets.EstimateOffset: `std::round` of a double is modelled as exact rational rounding,
  halves away from zero. Overflow of the int64 sum is not modelled.
- Mode3Offsets.AnalyzeSegmentPair: int64 overflow is not modelled. The `check()` call is left out.
- LocalDirectedReadGraphs.VertexColorOf: the conflict HSV shade is kept as its value in
  hundredths, not as formatted text.
- Alignment information, tooltips, labels, sizes, pen widths and URLs of the Graphviz writer are
  left out, because they are text formatting.
- LocalDirectedReadGraphs.GraphVertexColor: states only the no-conflict-information case. The
  other cases are those of VertexColorOf.
- TransitiveReductions.TransitiveReduction: requires the low threshold to be below the high one,
  and the high one to be above 1.
- The CompressedMarker positions and all fixed-width sizes beyond those named above are
  unbounded integers.

## Findings

| source | as written | input that shows it | evidently intended | confidence | as-written member | corrected member |
|---|---|---|---|---|---|---|
| src/AssemblerMarkerGraph.cpp:5310 | `ordinal + maxSkip + 1` is computed in uint32 and wraps | maxSkip = 2^32 - 1: the end ordinal wraps to the start ordinal and the vertex of the next marker is missed | the next vertex within maxSkip markers | not executed | MarkerIntervals.NextVertexAsWrittenMissesVertex | MarkerIntervals.FindNextMarkerGraphVertices |
| src/mode3.cpp:409-410 | linksBySource and linksByTarget get `links.size()` buckets, indexed by segment id | three segments and one link from segment 2 to segment 0: bucket 2 does not exist | one bucket per segment | not executed | Mode3Links.ConnectivityAsWrittenFails | Mode3Links.CreateConnectivity |

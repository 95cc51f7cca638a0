/** Links of the mode 3 assembly graph (findTransitions, createLinks, createConnectivity). A
    transition is a step of an oriented read's pseudo-path from one segment to another; the
    transitions are grouped by segment pair in an ordered map, and each pair seen often enough
    becomes a link. */
module Mode3Links {
  import opened Common

  /** An entry of a pseudo-path: where one marker graph edge the oriented read visits sits on the
      segments, and the ordinals of the read's marker interval on it. */
  datatype PseudoPathEntry = PseudoPathEntry(segmentId: nat, position: nat, ordinal0: nat, ordinal1: nat)

  /** The key of the transition map: std::pair ordering, first member first. */
  datatype SegmentPair = SegmentPair(segmentId0: nat, segmentId1: nat)

  predicate PairLess(a: SegmentPair, b: SegmentPair)
  {
    a.segmentId0 < b.segmentId0 || (a.segmentId0 == b.segmentId0 && a.segmentId1 < b.segmentId1)
  }

  /** A transition of an oriented read between consecutive pseudo-path entries. */
  datatype Transition = Transition(orientedReadId: OrientedReadId, previous: PseudoPathEntry, current: PseudoPathEntry)

  function KeyOf(t: Transition): SegmentPair
  {
    SegmentPair(t.previous.segmentId, t.current.segmentId)
  }

  // ----- The transition map: std::map<SegmentPair, Transitions> -----

  /** A std::map as the sequence of its entries in key order. */
  datatype MapEntry = MapEntry(key: SegmentPair, transitions: seq<Transition>)

  predicate SortedKeys(m: seq<MapEntry>)
  {
    forall i, j :: 0 <= i < j < |m| ==> PairLess(m[i].key, m[j].key)
  }

  /** Every key of the map is above k. */
  predicate AllAbove(m: seq<MapEntry>, k: SegmentPair)
  {
    forall i :: 0 <= i < |m| ==> PairLess(k, m[i].key)
  }

  /** The transitions stored under a key, empty when the key is absent. */
  function Lookup(m: seq<MapEntry>, key: SegmentPair): seq<Transition>
  {
    if m == [] then [] else if m[0].key == key then m[0].transitions else Lookup(m[1..], key)
  }

  /** In a sorted map the entry of a key is the one Lookup finds. */
  lemma {:induction false} LookupAt(m: seq<MapEntry>, i: nat)
    requires SortedKeys(m) && i < |m|
    ensures Lookup(m, m[i].key) == m[i].transitions
  {
    if i > 0 {
      assert PairLess(m[0].key, m[i].key);
      LookupAt(m[1..], i - 1);
    }
  }

  /** transitionMap[KeyOf(t)].push_back(t): append to the entry of the key, creating it in
      key order when absent. */
  function Insert(m: seq<MapEntry>, t: Transition): (r: seq<MapEntry>)
    requires SortedKeys(m)
    ensures SortedKeys(r)
    ensures forall k :: AllAbove(m, k) && PairLess(k, KeyOf(t)) ==> AllAbove(r, k)
  {
    if m == [] then [MapEntry(KeyOf(t), [t])]
    else if m[0].key == KeyOf(t) then [MapEntry(KeyOf(t), m[0].transitions + [t])] + m[1..]
    else if PairLess(KeyOf(t), m[0].key) then [MapEntry(KeyOf(t), [t])] + m
    else
      var rest := Insert(m[1..], t);
      assert AllAbove(m[1..], m[0].key);
      [m[0]] + rest
  }

  /** Insert appends t to the transitions of its key only, and creates no empty entry. */
  lemma {:induction false} InsertLookup(m: seq<MapEntry>, t: Transition)
    requires SortedKeys(m)
    ensures forall key :: Lookup(Insert(m, t), key) == if key == KeyOf(t) then Lookup(m, key) + [t] else Lookup(m, key)
    ensures (forall i :: 0 <= i < |m| ==> |m[i].transitions| > 0) ==>
      forall i :: 0 <= i < |Insert(m, t)| ==> |Insert(m, t)[i].transitions| > 0
  {
    if m == [] {
    } else if m[0].key == KeyOf(t) {
    } else if PairLess(KeyOf(t), m[0].key) {
      LookupAbsent(m, KeyOf(t));
    } else {
      InsertLookup(m[1..], t);
      var r := Insert(m, t);
      assert r[1..] == Insert(m[1..], t);
    }
  }

  /** A key below every key of a sorted map is absent from it. */
  lemma {:induction false} LookupAbsent(m: seq<MapEntry>, key: SegmentPair)
    requires SortedKeys(m) && (m == [] || PairLess(key, m[0].key))
    ensures Lookup(m, key) == []
  {
    if m != [] {
      if |m| > 1 {
        assert PairLess(m[0].key, m[1].key);
      }
      LookupAbsent(m[1..], key);
    }
  }

  // ----- Transitions -----

  /** The transitions among the first n entries of one pseudo-path: one per consecutive pair of
      entries on different segments, in pseudo-path order. */
  function ReadTransitions(o: OrientedReadId, pseudoPath: seq<PseudoPathEntry>, n: nat): seq<Transition>
    requires n <= |pseudoPath|
  {
    if n < 2 then []
    else if pseudoPath[n - 2].segmentId == pseudoPath[n - 1].segmentId then ReadTransitions(o, pseudoPath, n - 1)
    else ReadTransitions(o, pseudoPath, n - 1) + [Transition(o, pseudoPath[n - 2], pseudoPath[n - 1])]
  }

  /** A pseudo-path yields exactly the transitions of its consecutive entries on different
      segments; a pseudo-path with fewer than two entries yields none. */
  lemma {:induction false} ReadTransitionsMeaning(o: OrientedReadId, pseudoPath: seq<PseudoPathEntry>, n: nat)
    requires n <= |pseudoPath|
    ensures n < 2 ==> ReadTransitions(o, pseudoPath, n) == []
    ensures forall i :: 1 <= i < n && pseudoPath[i - 1].segmentId != pseudoPath[i].segmentId ==>
      Transition(o, pseudoPath[i - 1], pseudoPath[i]) in ReadTransitions(o, pseudoPath, n)
    ensures forall t :: t in ReadTransitions(o, pseudoPath, n) ==>
      exists i :: 1 <= i < n && pseudoPath[i - 1].segmentId != pseudoPath[i].segmentId
        && t == Transition(o, pseudoPath[i - 1], pseudoPath[i])
  {
    if 2 <= n {
      ReadTransitionsMeaning(o, pseudoPath, n - 1);
    }
  }

  /** The transitions of the oriented reads with values below n, in order of value. */
  function AllTransitions(pseudoPaths: seq<seq<PseudoPathEntry>>, n: nat): seq<Transition>
    requires n <= |pseudoPaths|
  {
    if n == 0 then []
    else
      AllTransitions(pseudoPaths, n - 1)
      + ReadTransitions(OrientedReadIdFromValue(n - 1), pseudoPaths[n - 1], |pseudoPaths[n - 1]|)
  }

  /** The transitions of a list that have a given key, in list order. */
  function WithKey(ts: seq<Transition>, key: SegmentPair): seq<Transition>
  {
    if ts == [] then []
    else if KeyOf(ts[|ts| - 1]) == key then WithKey(ts[..|ts| - 1], key) + [ts[|ts| - 1]]
    else WithKey(ts[..|ts| - 1], key)
  }

  /** The map groups the transitions of ts by key, keeping their order, and has no empty entry. */
  ghost predicate Represents(m: seq<MapEntry>, ts: seq<Transition>)
  {
    SortedKeys(m)
    && (forall i :: 0 <= i < |m| ==> |m[i].transitions| > 0)
    && forall key :: Lookup(m, key) == WithKey(ts, key)
  }

  lemma RepresentsInsert(m: seq<MapEntry>, ts: seq<Transition>, t: Transition)
    requires Represents(m, ts)
    ensures Represents(Insert(m, t), ts + [t])
  {
    InsertLookup(m, t);
    assert (ts + [t])[..|ts|] == ts;
  }

  /** The loop of findTransitions over one pseudo-path. */
  method AddReadTransitions(transitionMap: seq<MapEntry>, ghost ts: seq<Transition>, orientedReadId: OrientedReadId,
      pseudoPath: seq<PseudoPathEntry>) returns (r: seq<MapEntry>)
    requires Represents(transitionMap, ts)
    ensures Represents(r, ts + ReadTransitions(orientedReadId, pseudoPath, |pseudoPath|))
  {
    r := transitionMap;
    if |pseudoPath| < 2 {
      assert ts + ReadTransitions(orientedReadId, pseudoPath, |pseudoPath|) == ts;
      return;
    }
    var i := 1;
    assert ts + ReadTransitions(orientedReadId, pseudoPath, i) == ts;
    while i < |pseudoPath|
      invariant 1 <= i <= |pseudoPath|
      invariant Represents(r, ts + ReadTransitions(orientedReadId, pseudoPath, i))
    {
      var previous := pseudoPath[i - 1];
      var current := pseudoPath[i];
      if previous.segmentId != current.segmentId {
        var transition := Transition(orientedReadId, previous, current);
        RepresentsInsert(r, ts + ReadTransitions(orientedReadId, pseudoPath, i), transition);
        r := Insert(r, transition);
        assert ts + ReadTransitions(orientedReadId, pseudoPath, i + 1)
          == ts + ReadTransitions(orientedReadId, pseudoPath, i) + [transition];
      }
      i := i + 1;
    }
  }

  /** The oriented read visited as (readId, strand) adds its own transitions. */
  lemma AllTransitionsNext(pseudoPaths: seq<seq<PseudoPathEntry>>, readId: nat, strand: nat)
    requires strand < 2 && 2 * readId + strand < |pseudoPaths|
    ensures var n := 2 * readId + strand;
      AllTransitions(pseudoPaths, n + 1)
      == AllTransitions(pseudoPaths, n) + ReadTransitions(OrientedReadId(readId, strand), pseudoPaths[n], |pseudoPaths[n]|)
  {
    ValueInjective(OrientedReadIdFromValue(2 * readId + strand), OrientedReadId(readId, strand));
  }

  /** findTransitions: group the transitions of all oriented reads by segment pair. Oriented
      reads are visited by read id and strand, that is by value; with an odd number of
      pseudo-paths the last one is not visited. */
  method FindTransitions(pseudoPaths: seq<seq<PseudoPathEntry>>) returns (transitionMap: seq<MapEntry>)
    ensures Represents(transitionMap, AllTransitions(pseudoPaths, 2 * (|pseudoPaths| / 2)))
  {
    transitionMap := [];
    var readId := 0;
    while readId < |pseudoPaths| / 2
      invariant 0 <= readId <= |pseudoPaths| / 2
      invariant Represents(transitionMap, AllTransitions(pseudoPaths, 2 * readId))
    {
      var strand := 0;
      while strand < 2
        invariant 0 <= strand <= 2
        invariant Represents(transitionMap, AllTransitions(pseudoPaths, 2 * readId + strand))
      {
        var orientedReadId := OrientedReadId(readId, strand);
        AllTransitionsNext(pseudoPaths, readId, strand);
        transitionMap := AddReadTransitions(transitionMap, AllTransitions(pseudoPaths, 2 * readId + strand),
          orientedReadId, pseudoPaths[orientedReadId.Value()]);
        strand := strand + 1;
      }
      readId := readId + 1;
    }
  }

  /** A transition has a key made of two different segments. */
  lemma {:induction false} AllTransitionsChangeSegment(pseudoPaths: seq<seq<PseudoPathEntry>>, n: nat)
    requires n <= |pseudoPaths|
    ensures forall t :: t in AllTransitions(pseudoPaths, n) ==> KeyOf(t).segmentId0 != KeyOf(t).segmentId1
  {
    if n > 0 {
      AllTransitionsChangeSegment(pseudoPaths, n - 1);
      ReadTransitionsMeaning(OrientedReadIdFromValue(n - 1), pseudoPaths[n - 1], |pseudoPaths[n - 1]|);
    }
  }

  // ----- Links -----

  /** A link between two segments, with its coverage: the number of its transitions. */
  datatype Link = Link(segmentId0: nat, segmentId1: nat, coverage: nat)

  /** The map entries with at least minCoverage transitions, in map order. */
  function Selected(m: seq<MapEntry>, minCoverage: nat): seq<MapEntry>
  {
    if m == [] then []
    else if minCoverage <= |m[|m| - 1].transitions| then Selected(m[..|m| - 1], minCoverage) + [m[|m| - 1]]
    else Selected(m[..|m| - 1], minCoverage)
  }

  /** The selection keeps exactly the entries with enough transitions, in order. */
  lemma {:induction false} SelectedMeaning(m: seq<MapEntry>, minCoverage: nat)
    ensures forall e :: e in Selected(m, minCoverage) <==> e in m && minCoverage <= |e.transitions|
    ensures SortedKeys(m) ==> SortedKeys(Selected(m, minCoverage))
  {
    if m != [] {
      var rest := m[..|m| - 1];
      SelectedMeaning(rest, minCoverage);
      assert m == rest + [m[|m| - 1]];
      if SortedKeys(m) {
        assert forall e :: e in rest ==> PairLess(e.key, m[|m| - 1].key);
      }
    }
  }

  /** createLinks: a link per selected entry, in map order, with the entry's transitions. */
  method CreateLinks(transitionMap: seq<MapEntry>, minCoverage: nat)
    returns (links: seq<Link>, transitions: seq<seq<Transition>>)
    ensures |links| == |transitions| == |Selected(transitionMap, minCoverage)|
    ensures forall i :: 0 <= i < |links| ==>
      var e := Selected(transitionMap, minCoverage)[i];
      links[i] == Link(e.key.segmentId0, e.key.segmentId1, |e.transitions|) && transitions[i] == e.transitions
  {
    links := [];
    transitions := [];
    var k := 0;
    while k < |transitionMap|
      invariant 0 <= k <= |transitionMap|
      invariant |links| == |transitions| == |Selected(transitionMap[..k], minCoverage)|
      invariant forall i :: 0 <= i < |links| ==>
        var e := Selected(transitionMap[..k], minCoverage)[i];
        links[i] == Link(e.key.segmentId0, e.key.segmentId1, |e.transitions|) && transitions[i] == e.transitions
    {
      assert transitionMap[..k + 1][..k] == transitionMap[..k];
      var transitionVector := transitionMap[k].transitions;
      var coverage := |transitionVector|;
      if coverage >= minCoverage {
        var segmentId0 := transitionMap[k].key.segmentId0;
        var segmentId1 := transitionMap[k].key.segmentId1;
        links := links + [Link(segmentId0, segmentId1, coverage)];
        transitions := transitions + [transitionVector];
      }
      k := k + 1;
    }
    assert transitionMap[..k] == transitionMap;
  }

  /** For the map findTransitions builds from ts, the links are one per segment pair having at
      least minCoverage transitions in ts (and at least one), with that many as coverage, in
      increasing pair order. */
  lemma LinksMeaning(m: seq<MapEntry>, ts: seq<Transition>, minCoverage: nat)
    requires Represents(m, ts)
    ensures SortedKeys(Selected(m, minCoverage))
    ensures forall e :: e in Selected(m, minCoverage) ==>
      e.transitions == WithKey(ts, e.key) && minCoverage <= |e.transitions|
    ensures forall key :: 0 < |WithKey(ts, key)| && minCoverage <= |WithKey(ts, key)| ==>
      MapEntry(key, WithKey(ts, key)) in Selected(m, minCoverage)
  {
    SelectedMeaning(m, minCoverage);
    forall e | e in m ensures e.transitions == WithKey(ts, e.key) {
      var i :| 0 <= i < |m| && m[i] == e;
      LookupAt(m, i);
    }
    forall key | 0 < |WithKey(ts, key)| ensures MapEntry(key, WithKey(ts, key)) in m {
      LookupPresent(m, key);
    }
  }

  /** A key with transitions has an entry. */
  lemma {:induction false} LookupPresent(m: seq<MapEntry>, key: SegmentPair)
    requires 0 < |Lookup(m, key)|
    ensures MapEntry(key, Lookup(m, key)) in m
  {
    if m[0].key != key {
      LookupPresent(m[1..], key);
    }
  }

  // ----- Connectivity -----

  function SourceKeys(links: seq<Link>): (keys: seq<nat>)
    ensures |keys| == |links| && forall i :: 0 <= i < |links| ==> keys[i] == links[i].segmentId0
  {
    seq(|links|, i requires 0 <= i < |links| => links[i].segmentId0)
  }

  function TargetKeys(links: seq<Link>): (keys: seq<nat>)
    ensures |keys| == |links| && forall i :: 0 <= i < |links| ==> keys[i] == links[i].segmentId1
  {
    seq(|links|, i requires 0 <= i < |links| => links[i].segmentId1)
  }

  /** linksBySource and linksByTarget. */
  datatype Connectivity = Connectivity(linksBySource: seq<seq<nat>>, linksByTarget: seq<seq<nat>>)

  /** createConnectivity as written: pass 1 makes links.size() buckets, so a segment id that is
      not below the number of links indexes past the end of the counts. */
  function ConnectivityAsWritten(links: seq<Link>): (r: Result<Connectivity>)
    ensures r.Success? <==> forall i :: 0 <= i < |links| ==> links[i].segmentId0 < |links| && links[i].segmentId1 < |links|
    ensures r.Success? ==> |r.value.linksBySource| == |links| && |r.value.linksByTarget| == |links|
  {
    if exists i :: 0 <= i < |links| && (|links| <= links[i].segmentId0 || |links| <= links[i].segmentId1) then Failure
    else Success(Connectivity(
      seq(|links|, s requires 0 <= s < |links| => IdsWithKey(SourceKeys(links), s)),
      seq(|links|, s requires 0 <= s < |links| => IdsWithKey(TargetKeys(links), s))))
  }

  /** Three segments and one link from segment 2 to segment 0: one bucket, indexed with 2. */
  lemma ConnectivityAsWrittenFails()
    ensures ConnectivityAsWritten([Link(2, 0, 2)]).Failure?
    ensures ConnectivityAsWritten([Link(0, 0, 2)]).Success?
      && |ConnectivityAsWritten([Link(0, 0, 2)]).value.linksBySource| < 3
  {
    assert [Link(2, 0, 2)][0].segmentId0 == 2;
  }

  /** createConnectivity with one bucket per segment: linksBySource[s] lists, in increasing order,
      exactly the links leaving segment s, and linksByTarget[s] those entering it. */
  method CreateConnectivity(links: seq<Link>, segmentCount: nat) returns (c: Connectivity)
    requires forall i :: 0 <= i < |links| ==> links[i].segmentId0 < segmentCount && links[i].segmentId1 < segmentCount
    requires segmentCount <= INVALID_VERTEX_ID
    ensures |c.linksBySource| == segmentCount && |c.linksByTarget| == segmentCount
    ensures forall s, linkId: nat :: 0 <= s < segmentCount ==>
      (linkId in c.linksBySource[s] <==> linkId < |links| && links[linkId].segmentId0 == s)
    ensures forall s, linkId: nat :: 0 <= s < segmentCount ==>
      (linkId in c.linksByTarget[s] <==> linkId < |links| && links[linkId].segmentId1 == s)
    ensures forall s, i, j :: 0 <= s < segmentCount && 0 <= i < j < |c.linksBySource[s]| ==>
      c.linksBySource[s][i] < c.linksBySource[s][j]
    ensures forall s, i, j :: 0 <= s < segmentCount && 0 <= i < j < |c.linksByTarget[s]| ==>
      c.linksByTarget[s][i] < c.linksByTarget[s][j]
  {
    var bySource := BucketByKey(SourceKeys(links), segmentCount);
    var byTarget := BucketByKey(TargetKeys(links), segmentCount);
    c := Connectivity(bySource, byTarget);
  }
}

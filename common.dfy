/** Types and constants shared by the marker graph and the mode-3 assembly graph. */
module Common {

  /** The largest values of the unsigned integer types the tables use. */
  const UINT64_MAX: nat := 0xFFFF_FFFF_FFFF_FFFF
  const UINT32_MAX: nat := 0xFFFF_FFFF

  /** 2^32: uint32 arithmetic is arithmetic modulo this. */
  const TWO_TO_32: nat := 0x1_0000_0000

  /** MarkerGraph::invalidVertexId, the largest 64-bit value. */
  const INVALID_VERTEX_ID: nat := UINT64_MAX

  /** MarkerGraph::invalidCompressedVertexId, the largest 40-bit value. */
  const INVALID_COMPRESSED_VERTEX_ID: nat := 0xFF_FFFF_FFFF

  /** MarkerGraph::invalidEdgeId. */
  const INVALID_EDGE_ID: nat := UINT64_MAX

  /** Storing a 64-bit value into a 40-bit field keeps its low 40 bits. */
  function ToUint40(x: nat): (r: nat)
    ensures r <= INVALID_COMPRESSED_VERTEX_ID
    ensures x <= INVALID_COMPRESSED_VERTEX_ID ==> r == x
  {
    x % (INVALID_COMPRESSED_VERTEX_ID + 1)
  }

  lemma InvalidVertexIdCompresses()
    ensures ToUint40(INVALID_VERTEX_ID) == INVALID_COMPRESSED_VERTEX_ID
  {
  }

  /** A read on one of its two strands; its value 2 * readId + strand indexes per-oriented-read tables. */
  datatype OrientedReadId = OrientedReadId(readId: nat, strand: nat)
  {
    predicate Valid() { strand < 2 }

    function Value(): nat { 2 * readId + strand }

    function FlipStrand(): OrientedReadId
      requires Valid()
    {
      OrientedReadId(readId, 1 - strand)
    }

    /** OrientedReadId ordering is the ordering of the values. */
    predicate Less(other: OrientedReadId) { Value() < other.Value() }
  }

  function OrientedReadIdFromValue(value: nat): (o: OrientedReadId)
    ensures o.Valid() && o.Value() == value
  {
    OrientedReadId(value / 2, value % 2)
  }

  lemma ValueInjective(a: OrientedReadId, b: OrientedReadId)
    requires a.Valid() && b.Valid() && a.Value() == b.Value()
    ensures a == b
  {
  }

  datatype Option<T> = None | Some(value: T)

  /** Sum of a sequence of naturals. */
  function Sum(s: seq<nat>): nat
  {
    if s == [] then 0 else Sum(s[..|s| - 1]) + s[|s| - 1]
  }

  lemma {:induction false} SumAppend(s: seq<nat>, t: seq<nat>)
    ensures Sum(s + t) == Sum(s) + Sum(t)
  {
    if t != [] {
      assert (s + t)[..|s + t| - 1] == s + t[..|t| - 1];
      SumAppend(s, t[..|t| - 1]);
    } else {
      assert s + t == s;
    }
  }

  /** No value occurs twice. */
  predicate Distinct<T(==)>(s: seq<T>)
  {
    forall i, j :: 0 <= i < j < |s| ==> s[i] != s[j]
  }

  /** A distinct sequence of naturals below n has at most n elements. */
  lemma {:induction false} DistinctBounded(s: seq<nat>, n: nat)
    requires Distinct(s)
    requires forall i :: 0 <= i < |s| ==> s[i] < n
    ensures |s| <= n
    decreases |s|
  {
    if s != [] {
      var last := s[|s| - 1];
      var rest := s[..|s| - 1];
      // Rename the values of rest so that they stay below n - 1.
      var renamed := seq(|rest|, i requires 0 <= i < |rest| => if rest[i] == n - 1 then last else rest[i]);
      forall i, j | 0 <= i < j < |renamed| ensures renamed[i] != renamed[j] {
        assert rest[i] != rest[j] && rest[i] != last && rest[j] != last;
      }
      forall i | 0 <= i < |renamed| ensures renamed[i] < n - 1 {
        assert rest[i] != last;
        if rest[i] == n - 1 {
          assert last != n - 1;
        }
      }
      DistinctBounded(renamed, n - 1);
    }
  }

  /** The outcome of an operation whose internal consistency checks can fail. */
  datatype Result<T> = Success(value: T) | Failure

  // ----- Two-pass bucketing -----

  /** The positions whose key is k, in increasing order. */
  function IdsWithKey(keys: seq<nat>, k: nat): (r: seq<nat>)
    ensures forall i :: 0 <= i < |r| ==> r[i] < |keys| && keys[r[i]] == k
    ensures forall i, j :: 0 <= i < j < |r| ==> r[i] < r[j]
    ensures forall m :: 0 <= m < |keys| && keys[m] == k ==> m in r
  {
    if keys == [] then []
    else if keys[|keys| - 1] == k then IdsWithKey(keys[..|keys| - 1], k) + [|keys| - 1]
    else IdsWithKey(keys[..|keys| - 1], k)
  }

  /** A bucket holds as many positions as there are keys naming it. */
  lemma {:induction false} IdsWithKeySize(keys: seq<nat>, k: nat)
    ensures |IdsWithKey(keys, k)| == multiset(keys)[k]
  {
    if keys != [] {
      assert keys == keys[..|keys| - 1] + [keys[|keys| - 1]];
      IdsWithKeySize(keys[..|keys| - 1], k);
    }
  }

  lemma {:induction false} IdsWithKeyStep(keys: seq<nat>, i: nat, k: nat)
    requires i < |keys|
    ensures keys[i] == k ==> IdsWithKey(keys[..i + 1], k) == IdsWithKey(keys[..i], k) + [i]
    ensures keys[i] != k ==> IdsWithKey(keys[..i + 1], k) == IdsWithKey(keys[..i], k)
  {
    assert keys[..i + 1][..i] == keys[..i];
  }

  /** The two passes of a VectorOfVectors fill: pass 1 counts the entries of each bucket, pass 2
      stores each position in the bucket its key names. Keys equal to invalidVertexId are
      skipped. Pass 2 never stores more entries in a bucket than pass 1 counted, and each
      bucket ends up with exactly the positions whose key names it. */
  method BucketByKey(keys: seq<nat>, bucketCount: nat) returns (buckets: seq<seq<nat>>)
    requires forall i :: 0 <= i < |keys| ==> keys[i] < bucketCount || keys[i] == INVALID_VERTEX_ID
    requires bucketCount <= INVALID_VERTEX_ID
    ensures |buckets| == bucketCount
    ensures forall k :: 0 <= k < bucketCount ==> buckets[k] == IdsWithKey(keys, k)
  {
    // Pass 1: count.
    var counts := new nat[bucketCount](_ => 0);
    var i := 0;
    while i < |keys|
      invariant 0 <= i <= |keys|
      invariant forall k :: 0 <= k < bucketCount ==> counts[k] == |IdsWithKey(keys[..i], k)|
    {
      forall k | 0 <= k < bucketCount
        ensures |IdsWithKey(keys[..i + 1], k)| == |IdsWithKey(keys[..i], k)| + (if keys[i] == k then 1 else 0)
      {
        IdsWithKeyStep(keys, i, k);
      }
      if keys[i] != INVALID_VERTEX_ID {
        counts[keys[i]] := counts[keys[i]] + 1;
      }
      i := i + 1;
    }
    assert keys[..|keys|] == keys;

    // Pass 2: store.
    buckets := seq(bucketCount, _ => []);
    i := 0;
    while i < |keys|
      invariant 0 <= i <= |keys| && |buckets| == bucketCount
      invariant forall k :: 0 <= k < bucketCount ==> buckets[k] == IdsWithKey(keys[..i], k)
      invariant forall k :: 0 <= k < bucketCount ==> counts[k] == |IdsWithKey(keys, k)|
      invariant forall k :: 0 <= k < bucketCount ==> |buckets[k]| <= counts[k]
    {
      forall k | 0 <= k < bucketCount
        ensures keys[i] == k ==> IdsWithKey(keys[..i + 1], k) == IdsWithKey(keys[..i], k) + [i]
        ensures keys[i] != k ==> IdsWithKey(keys[..i + 1], k) == IdsWithKey(keys[..i], k)
        ensures |IdsWithKey(keys[..i + 1], k)| <= counts[k]
      {
        IdsWithKeyStep(keys, i, k);
        IdsWithKeyPrefix(keys, i + 1, k);
      }
      var k := keys[i];
      if k != INVALID_VERTEX_ID {
        buckets := buckets[k := buckets[k] + [i]];
      }
      i := i + 1;
    }
    assert keys[..|keys|] == keys;
  }

  /** A prefix of the keys fills no bucket beyond what the whole sequence does. */
  lemma {:induction false} IdsWithKeyPrefix(keys: seq<nat>, n: nat, k: nat)
    requires n <= |keys|
    ensures |IdsWithKey(keys[..n], k)| <= |IdsWithKey(keys, k)|
    decreases |keys| - n
  {
    if n < |keys| {
      IdsWithKeyStep(keys, n, k);
      IdsWithKeyPrefix(keys, n + 1, k);
    } else {
      assert keys[..n] == keys;
    }
  }
}

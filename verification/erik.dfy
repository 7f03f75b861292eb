/**
  Building an Erik index from repository content: manifest references are
  grouped into partitions by the first octet of their AKI, each partition
  keeps a partition time, and the index time is the newest partition time.
  The resolved index is then turned into the index that is published, where
  each partition is represented by the hash and length of its encoding, and
  both partition references and manifest references are ordered by hash.
 */
module Erik {
  import opened Base
  import opened ErikTypes
  import opened HashOrder
  import Rrdp

  /** `t` is the oldest thisUpdate among `refs`. */
  predicate IsOldestUpdate(t: Time, refs: set<ManifestRef>)
  {
    && (exists r :: r in refs && r.thisUpdate == t)
    && (forall r :: r in refs ==> t <= r.thisUpdate)
  }

  /** The references among `refs` whose partition key is `k`. */
  function RefsWithKey(refs: set<ManifestRef>, k: PartitionKey): set<ManifestRef>
  {
    set r | r in refs && KeyOf(r) == k
  }

  /** The partition keys that occur among `refs`. */
  function KeysOf(refs: set<ManifestRef>): set<PartitionKey>
  {
    set r | r in refs :: KeyOf(r)
  }

  /** A new partition holding one reference; its time is that reference's thisUpdate. */
  function CreateFromManifestRef(r: ManifestRef): (p: Partition)
    ensures p.manifestRefs == {r}
    ensures IsOldestUpdate(p.partitionTime, p.manifestRefs)
  {
    Partition(r.thisUpdate, {r})
  }

  /** Adds a reference to a partition. The partition time is lowered when the
      new reference is older, so it never moves forward. */
  function AddManifestRef(p: Partition, r: ManifestRef): (q: Partition)
    ensures q.manifestRefs == p.manifestRefs + {r}
    ensures q.partitionTime <= p.partitionTime && q.partitionTime <= r.thisUpdate
    ensures IsOldestUpdate(p.partitionTime, p.manifestRefs) ==> IsOldestUpdate(q.partitionTime, q.manifestRefs)
  {
    var t := if p.partitionTime > r.thisUpdate then r.thisUpdate else p.partitionTime;
    Partition(t, p.manifestRefs + {r})
  }

  /** One iteration of the partitioning loop: the reference joins the
      partition of its key, which is created when it does not exist yet. */
  function AddToPartitions(parts: map<PartitionKey, Partition>, r: ManifestRef): (q: map<PartitionKey, Partition>)
    ensures q.Keys == parts.Keys + {KeyOf(r)}
    ensures KeyOf(r) in parts ==> q[KeyOf(r)].manifestRefs == parts[KeyOf(r)].manifestRefs + {r}
    ensures KeyOf(r) !in parts ==> q[KeyOf(r)] == Partition(r.thisUpdate, {r})
    ensures forall k :: k in parts && k != KeyOf(r) ==> q[k] == parts[k]
  {
    var k := KeyOf(r);
    if k in parts then parts[k := AddManifestRef(parts[k], r)]
    else parts[k := CreateFromManifestRef(r)]
  }

  /** `parts` partitions the references `refs`: there is one partition per
      key that occurs, it holds exactly the references with that key, and its
      time is their oldest thisUpdate. */
  predicate Partitioned(parts: map<PartitionKey, Partition>, refs: set<ManifestRef>)
  {
    && parts.Keys == KeysOf(refs)
    && (forall k :: k in parts ==> parts[k].manifestRefs == RefsWithKey(refs, k))
    && (forall k :: k in parts ==> IsOldestUpdate(parts[k].partitionTime, parts[k].manifestRefs))
  }

  /** One iteration of the loop keeps the partitioning invariant. */
  lemma AddToPartitionsKeepsPartitioned(parts: map<PartitionKey, Partition>, refs: set<ManifestRef>, r: ManifestRef)
    requires Partitioned(parts, refs)
    ensures Partitioned(AddToPartitions(parts, r), refs + {r})
  {
    var q := AddToPartitions(parts, r);
    KeysStep(refs, r);
    forall k | k in q
      ensures q[k].manifestRefs == RefsWithKey(refs + {r}, k)
      ensures IsOldestUpdate(q[k].partitionTime, q[k].manifestRefs)
    {
      RefsWithKeyStep(refs, r, k);
      if k == KeyOf(r) && k in parts {
        assert q[k] == AddManifestRef(parts[k], r);
      }
    }
  }

  /** Adding a reference adds its key to the keys that occur. */
  lemma KeysStep(refs: set<ManifestRef>, r: ManifestRef)
    ensures KeysOf(refs + {r}) == KeysOf(refs) + {KeyOf(r)}
  {
  }

  /** Adding a reference adds it to the references of its own key only. */
  lemma RefsWithKeyStep(refs: set<ManifestRef>, r: ManifestRef, k: PartitionKey)
    ensures RefsWithKey(refs + {r}, k) == if k == KeyOf(r) then RefsWithKey(refs, k) + {r} else RefsWithKey(refs, k)
  {
  }

  /** The partitions built from the manifest references visited in the order
      `refs`. */
  function PartitionsOf(refs: seq<ManifestRef>): (parts: map<PartitionKey, Partition>)
    ensures Partitioned(parts, Elems(refs))
    decreases |refs|
  {
    if |refs| == 0 then map[]
    else
      var init := refs[..|refs| - 1];
      var r := refs[|refs| - 1];
      var before := PartitionsOf(init);
      AddToPartitionsKeepsPartitioned(before, Elems(init), r);
      LastStep(refs, init, r);
      AddToPartitions(before, r)
  }

  /** The references of a sequence are those of all but its last one, plus
      the last. */
  lemma LastStep(refs: seq<ManifestRef>, init: seq<ManifestRef>, r: ManifestRef)
    requires |refs| > 0 && init == refs[..|refs| - 1] && r == refs[|refs| - 1]
    ensures Elems(refs) == Elems(init) + {r}
  {
    assert refs == init + [r];
  }

  /** The partitions do not depend on the order in which the manifest
      references are visited, only on which references there are. */
  lemma PartitionsOrderIndependent(a: seq<ManifestRef>, b: seq<ManifestRef>)
    requires Elems(a) == Elems(b)
    ensures PartitionsOf(a) == PartitionsOf(b)
  {
    SamePartitioning(PartitionsOf(a), PartitionsOf(b), Elems(a));
  }

  /** There is only one partitioning of a set of references. */
  lemma SamePartitioning(pa: map<PartitionKey, Partition>, pb: map<PartitionKey, Partition>, refs: set<ManifestRef>)
    requires Partitioned(pa, refs) && Partitioned(pb, refs)
    ensures pa == pb
  {
    forall k | k in pa
      ensures pa[k] == pb[k]
    {
      var ta, tb := pa[k].partitionTime, pb[k].partitionTime;
      var ra :| ra in pa[k].manifestRefs && ra.thisUpdate == ta;
      var rb :| rb in pb[k].manifestRefs && rb.thisUpdate == tb;
      assert ta <= rb.thisUpdate && tb <= ra.thisUpdate;
    }
  }

  /** The index before encoding: its scope (an FQDN), its time and its
      partitions by key. */
  datatype ResolvedIndex = ResolvedIndex(indexScope: string, indexTime: Time, partitions: map<PartitionKey, Partition>)

  /** `t` is the newest partition time among `parts`. */
  predicate IsNewestPartitionTime(t: Time, parts: map<PartitionKey, Partition>)
  {
    && (exists k :: k in parts && parts[k].partitionTime == t)
    && (forall k :: k in parts ==> parts[k].partitionTime <= t)
  }

  /** The maximum of the partition times, or `None` for no partitions. */
  ghost function MaxPartitionTime(parts: map<PartitionKey, Partition>): (t: Option<Time>)
    ensures t.None? <==> |parts| == 0
    ensures t.Some? ==> IsNewestPartitionTime(t.value, parts)
    decreases |parts|
  {
    if |parts| == 0 then None
    else
      var k :| k in parts;
      var rest := MaxPartitionTime(parts - {k});
      var t := parts[k].partitionTime;
      assert forall k' :: k' in parts ==> k' == k || k' in parts - {k};
      if rest.Some? && t <= rest.value then rest else Some(t)
  }

  /** The resolved index of some repository content: `None` when the content
      has no manifests, otherwise the partitions of all its manifest
      references, with the newest partition time as index time. The values of
      the manifest map are visited in an unspecified order, which by
      `PartitionsOrderIndependent` does not matter. */
  ghost function FromContent(indexScope: string, content: Rrdp.RepoContent): (r: Option<ResolvedIndex>)
    ensures r.None? <==> |content.manifests| == 0
    ensures r.Some? ==>
      && r.value.indexScope == indexScope
      && r.value.partitions.Keys == KeysOf(content.manifests.Values)
      && (forall k :: k in r.value.partitions ==>
            r.value.partitions[k].manifestRefs == RefsWithKey(content.manifests.Values, k))
      && (forall k :: k in r.value.partitions ==>
            IsOldestUpdate(r.value.partitions[k].partitionTime, r.value.partitions[k].manifestRefs))
      && IsNewestPartitionTime(r.value.indexTime, r.value.partitions)
  {
    var parts := PartitionsOf(Enumerate(content.manifests.Values));
    assert |content.manifests| == 0 <==> |parts| == 0 by {
      if |content.manifests| != 0 {
        var h :| h in content.manifests;
        assert content.manifests[h] in content.manifests.Values;
        assert KeyOf(content.manifests[h]) in parts;
      }
    }
    match MaxPartitionTime(parts)
    case None => None
    case Some(t) => Some(ResolvedIndex(indexScope, t, parts))
  }

  /** Every manifest of the content lands in the partition of its own key,
      and every partition is non-empty. */
  lemma {:induction false} EveryManifestInItsPartition(indexScope: string, content: Rrdp.RepoContent)
    requires |content.manifests| > 0
    ensures var idx := FromContent(indexScope, content).value;
            && (forall h :: h in content.manifests ==>
                  && KeyOf(content.manifests[h]) in idx.partitions
                  && content.manifests[h] in idx.partitions[KeyOf(content.manifests[h])].manifestRefs)
            && (forall k :: k in idx.partitions ==> idx.partitions[k].manifestRefs != {})
  {
    var idx := FromContent(indexScope, content).value;
    forall h | h in content.manifests
      ensures KeyOf(content.manifests[h]) in idx.partitions
      ensures content.manifests[h] in idx.partitions[KeyOf(content.manifests[h])].manifestRefs
    {
      assert content.manifests[h] in content.manifests.Values;
    }
  }

  /** Together the partitions hold exactly the manifest references of the
      content, and each reference sits in the partition named by its key. */
  lemma PartitionsCoverManifests(indexScope: string, content: Rrdp.RepoContent)
    requires |content.manifests| > 0
    ensures var idx := FromContent(indexScope, content).value;
            && (forall r :: r in content.manifests.Values <==>
                  exists k :: k in idx.partitions && r in idx.partitions[k].manifestRefs)
            && (forall k, r :: k in idx.partitions && r in idx.partitions[k].manifestRefs ==> KeyOf(r) == k)
  {
    var idx := FromContent(indexScope, content).value;
    forall r | r in content.manifests.Values
      ensures exists k :: k in idx.partitions && r in idx.partitions[k].manifestRefs
    {
      assert KeyOf(r) in KeysOf(content.manifests.Values);
      assert r in idx.partitions[KeyOf(r)].manifestRefs;
    }
  }

  /** The number of partitions is the number of distinct AKI first octets. */
  lemma PartitionCount(indexScope: string, content: Rrdp.RepoContent)
    requires |content.manifests| > 0
    ensures |FromContent(indexScope, content).value.partitions| == |KeysOf(content.manifests.Values)|
  {
    var idx := FromContent(indexScope, content).value;
    assert |idx.partitions| == |idx.partitions.Keys|;
  }

  /** Since a partition key is one octet, an index has at most 256 partitions. */
  lemma AtMost256Partitions(indexScope: string, content: Rrdp.RepoContent)
    requires |content.manifests| > 0
    ensures |FromContent(indexScope, content).value.partitions| <= 256
  {
    var keys: set<int> := FromContent(indexScope, content).value.partitions.Keys;
    CardinalityBound(keys, 256);
    assert |FromContent(indexScope, content).value.partitions| == |keys|;
  }

  /** The partition time is the OLDEST thisUpdate in the partition, although
      the field is documented as the most recent one: with two manifests of
      the same key, updated at 1 and at 2, the partition time is 1. */
  lemma PartitionTimeIsOldestNotNewest(older: ManifestRef, newer: ManifestRef)
    requires KeyOf(older) == KeyOf(newer)
    requires older.thisUpdate == 1 && newer.thisUpdate == 2
    ensures var p := PartitionsOf([older, newer])[KeyOf(older)];
            && p.partitionTime == 1
            && newer in p.manifestRefs
            && p.partitionTime < newer.thisUpdate
  {
    assert [older, newer][..1] == [older];
    assert [older][..0] == [];
  }

  /** What is encoded for a partition: its time and its manifest references,
      sorted by hash. */
  datatype PartitionEncoder = PartitionEncoder(partitionTime: Time, manifestRefs: seq<ManifestRef>)

  /** The encoder of a partition: the set of references listed in ascending
      hash order, each once. */
  ghost function EncoderFrom(p: Partition): (e: PartitionEncoder)
    ensures e.partitionTime == p.partitionTime
    ensures Elems(e.manifestRefs) == p.manifestRefs
    ensures |e.manifestRefs| == |p.manifestRefs|
    ensures SortedBy(e.manifestRefs, RefHash)
  {
    var order := Enumerate(p.manifestRefs);
    var sorted := SortBy(order, RefHash);
    SameMultisetSameElems(sorted, order);
    PartitionEncoder(p.partitionTime, sorted)
  }

  /** No two references of the set share a hash. */
  predicate HashesDistinct(refs: set<ManifestRef>)
  {
    forall x, y :: x in refs && y in refs && x.hash == y.hash ==> x == y
  }

  /** When the references have distinct hashes, the encoder lists them in one
      order only, whatever order the set is iterated in. */
  lemma EncoderOrderIndependent(p: Partition, order: seq<ManifestRef>)
    requires Elems(order) == p.manifestRefs && Distinct(order)
    requires HashesDistinct(p.manifestRefs)
    ensures SortBy(order, RefHash) == EncoderFrom(p).manifestRefs
  {
    var a := SortBy(order, RefHash);
    var b := EncoderFrom(p).manifestRefs;
    var e := Enumerate(p.manifestRefs);
    assert b == SortBy(e, RefHash);
    DistinctSameElemsSameMultiset(order, e);
    assert multiset(a) == multiset(order) == multiset(e) == multiset(b);
    SameMultisetSameElems(a, order);
    assert KeyInjective(a, RefHash) by {
      forall x, y | x in a && y in a && RefHash(x) == RefHash(y) ensures x == y {
        assert x in Elems(a) && y in Elems(a);
      }
    }
    SortedUnique(a, b, RefHash);
  }

  /** Manifest references taken from repository content have distinct
      hashes, since each is stored under its own hash. */
  lemma ContentRefsHaveDistinctHashes(content: Rrdp.RepoContent, k: PartitionKey)
    requires forall h :: h in content.manifests ==> content.manifests[h].hash == h
    ensures HashesDistinct(RefsWithKey(content.manifests.Values, k))
  {
  }

  /** The reference to a partition from its encoded octets: their hash and
      their length truncated to 32 bits, as a cast to u32 does. */
  function NewPartitionRef(partitionBytes: seq<byte>, digest: Digest): (r: PartitionRef)
    ensures r.hash == digest(partitionBytes)
    ensures r.size < U32Limit
    ensures (r.size - |partitionBytes|) % U32Limit == 0
  {
    PartitionRef(digest(partitionBytes), |partitionBytes| % U32Limit)
  }

  /** The DER encoding of a partition encoder, left opaque. */
  type PartitionDer = PartitionEncoder -> seq<byte>

  ghost function PartitionRefOf(p: Partition, digest: Digest, der: PartitionDer): PartitionRef
  {
    NewPartitionRef(der(EncoderFrom(p)), digest)
  }

  /** The reference of each partition of an index, by partition key. */
  ghost function PartitionRefMap(idx: ResolvedIndex, digest: Digest, der: PartitionDer): map<PartitionKey, PartitionRef>
  {
    map k | k in idx.partitions :: PartitionRefOf(idx.partitions[k], digest, der)
  }

  /** The index as published: scope, time and partition references. */
  datatype ErikIndex = ErikIndex(indexScope: string, indexTime: Time, partitions: seq<PartitionRef>)

  /** Converting the scope to an IA5 string fails (and the code panics) when
      it holds a non-ASCII character. */
  datatype IndexError = ScopeNotIa5

  /** The values of a map, looked up in the order the keys are listed. */
  function RefsInOrder(m: map<PartitionKey, PartitionRef>, keys: seq<PartitionKey>): (refs: seq<PartitionRef>)
    requires Elems(keys) == m.Keys
    ensures |refs| == |keys|
    ensures forall i :: 0 <= i < |keys| ==> refs[i] == m[keys[i]]
    ensures Elems(refs) == m.Values
    ensures Distinct(keys) ==> forall v :: multiset(refs)[v] == |KeysWithValue(m, v)|
  {
    assert forall i :: 0 <= i < |keys| ==> keys[i] in Elems(keys);
    var refs := seq(|keys|, i requires 0 <= i < |keys| => m[keys[i]]);
    EnumeratedValues(m, keys, refs);
    assert Distinct(keys) ==> forall v :: multiset(refs)[v] == |KeysWithValue(m, v)| by {
      if Distinct(keys) {
        CountEnumeratedLookups(m, keys, refs);
      }
    }
    refs
  }

  /** The published index of a resolved index: one reference per partition,
      in ascending hash order; scope and time are carried over. */
  ghost function IndexFrom(idx: ResolvedIndex, digest: Digest, der: PartitionDer): (r: Result<ErikIndex, IndexError>)
    ensures r.Ok? <==> IsAscii(idx.indexScope)
    ensures r.Ok? ==>
      && r.value.indexScope == idx.indexScope
      && r.value.indexTime == idx.indexTime
      && |r.value.partitions| == |idx.partitions|
      && SortedBy(r.value.partitions, PartitionRefHash)
      && Elems(r.value.partitions) == PartitionRefMap(idx, digest, der).Values
    ensures r.Ok? ==> forall v :: multiset(r.value.partitions)[v] == |KeysWithValue(PartitionRefMap(idx, digest, der), v)|
  {
    if !IsAscii(idx.indexScope) then Err(ScopeNotIa5)
    else
      var keys := Enumerate(idx.partitions.Keys);
      var refs := RefsInOrder(PartitionRefMap(idx, digest, der), keys);
      var sorted := SortBy(refs, PartitionRefHash);
      SameMultisetSameElems(sorted, refs);
      Ok(ErikIndex(idx.indexScope, idx.indexTime, sorted))
  }

  /** No two partitions of the index have references with the same hash. */
  ghost predicate PartitionHashesDistinct(idx: ResolvedIndex, digest: Digest, der: PartitionDer)
  {
    var m := PartitionRefMap(idx, digest, der);
    forall k1, k2 :: k1 in m && k2 in m && m[k1].hash == m[k2].hash ==> k1 == k2
  }

  /** When partition references have distinct hashes, the published list of
      references is the same whatever order the partitions are visited in. */
  lemma IndexOrderIndependent(idx: ResolvedIndex, digest: Digest, der: PartitionDer, keys: seq<PartitionKey>)
    requires IsAscii(idx.indexScope)
    requires Elems(keys) == idx.partitions.Keys && Distinct(keys)
    requires PartitionHashesDistinct(idx, digest, der)
    ensures SortBy(RefsInOrder(PartitionRefMap(idx, digest, der), keys), PartitionRefHash)
         == IndexFrom(idx, digest, der).value.partitions
  {
    var m := PartitionRefMap(idx, digest, der);
    var refs := RefsInOrder(m, keys);
    var a := SortBy(refs, PartitionRefHash);
    var e := Enumerate(idx.partitions.Keys);
    var refsE := RefsInOrder(m, e);
    var b := IndexFrom(idx, digest, der).value.partitions;
    assert b == SortBy(refsE, PartitionRefHash);
    DistinctRefs(m, keys);
    DistinctRefs(m, e);
    DistinctSameElemsSameMultiset(refs, refsE);
    SameMultisetSameElems(a, refs);
    assert KeyInjective(a, PartitionRefHash) by {
      forall x, y | x in a && y in a && PartitionRefHash(x) == PartitionRefHash(y) ensures x == y {
        assert x in Elems(a) && y in Elems(a);
        var k1 :| k1 in m && m[k1] == x;
        var k2 :| k2 in m && m[k2] == y;
      }
    }
    SortedUnique(a, b, PartitionRefHash);
  }

  /** Distinct keys whose references have distinct hashes look up distinct
      references. */
  lemma DistinctRefs(m: map<PartitionKey, PartitionRef>, keys: seq<PartitionKey>)
    requires Elems(keys) == m.Keys && Distinct(keys)
    requires forall k1, k2 :: k1 in m && k2 in m && m[k1].hash == m[k2].hash ==> k1 == k2
    ensures Distinct(RefsInOrder(m, keys))
  {
    var refs := RefsInOrder(m, keys);
    forall i, j | 0 <= i < j < |refs| ensures refs[i] != refs[j] {
      assert keys[i] in Elems(keys) && keys[j] in Elems(keys);
    }
  }
}

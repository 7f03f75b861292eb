/**
  The structural checks of decoding an Erik index and an Erik partition,
  stated over the already-parsed fields of the DER structures rather than
  over octets. Each `...Fields` datatype lists the values in the order the
  decoder takes them; decoding checks them in that order and stops at the
  first failure. Encoding produces the fields the encoder writes.
 */
module ErikAsn1 {
  import opened Base
  import opened ErikTypes
  import opened HashOrder
  import opened Erik
  import Rrdp

  /** The content octets of an OBJECT IDENTIFIER. */
  type Oid = seq<int>

  /** 1.3.6.1.4.1.41948.826, the content type of an Erik index. */
  const ErikIndexOid: Oid := [43, 6, 1, 4, 1, 130, 199, 92, 134, 58]

  /** 2.16.840.1.101.3.4.2.1, SHA-256. */
  const Sha256Oid: Oid := [96, 134, 72, 1, 101, 3, 4, 2, 1]

  /** 1.3.6.1.5.5.7.48.11, id-ad-signedObject (section 3.2 of RFC 6487). */
  const AdSignedObjectOid: Oid := [43, 6, 1, 5, 5, 7, 48, 11]

  datatype DecodeError =
    | NotAnErikIndexOid
    | NotIa5
    | InvalidDigestAlgorithm
    | IdentifierOutOfRange
    | InvalidHashValue
    | SizeOutOfRange
    | InvalidKeyIdentifier
    | InvalidAccessMethod

  /** Decodes a sequence of entries one by one, failing with the first
      entry that fails. */
  function DecodeAll<F, T>(fs: seq<F>, decode: F -> Result<T, DecodeError>): (r: Result<seq<T>, DecodeError>)
    ensures r.Ok? <==> forall i :: 0 <= i < |fs| ==> decode(fs[i]).Ok?
    ensures r.Ok? ==> |r.value| == |fs| && forall i :: 0 <= i < |fs| ==> r.value[i] == decode(fs[i]).value
    ensures r.Err? ==> exists i :: 0 <= i < |fs| && decode(fs[i]) == Err(r.error)
                                   && forall j :: 0 <= j < i ==> decode(fs[j]).Ok?
  {
    if |fs| == 0 then Ok([])
    else
      match decode(fs[0])
      case Err(e) => Err(e)
      case Ok(x) =>
        TailShift(fs);
        match DecodeAll(fs[1..], decode)
        case Err(e) => Err(e)
        case Ok(xs) => Ok([x] + xs)
  }

  /** Entry i of the tail is entry i + 1 of the sequence. */
  lemma TailShift<F>(fs: seq<F>)
    requires |fs| > 0
    ensures forall i :: 1 <= i < |fs| ==> fs[1..][i - 1] == fs[i]
  {
  }

  // ---- Index ----

  /** One entry of the partition list of an index: an optional partition
      identifier (present in draft examples), the hash and the size. */
  datatype PartitionRefFields = PartitionRefFields(identifier: Option<int>, hashValue: seq<byte>, size: int)

  /** An index: the content type, then inside the wrapped content the scope,
      the time, the hash algorithm and the partition list. */
  datatype IndexFields = IndexFields(
    oid: Oid,
    indexScope: string,
    indexTime: Time,
    hashAlgorithm: Oid,
    partitions: seq<PartitionRefFields>)

  /** A partition entry is accepted when its identifier, if any, fits an
      octet, its hash has 32 octets and its size fits a u32. The identifier
      is dropped. */
  function DecodePartitionRef(f: PartitionRefFields): (r: Result<PartitionRef, DecodeError>)
    ensures r.Ok? <==>
      && (f.identifier.None? || 0 <= f.identifier.value < 256)
      && |f.hashValue| == HashLen
      && 0 <= f.size < U32Limit
    ensures r.Ok? ==> r.value.hash == f.hashValue && r.value.size == f.size
  {
    if f.identifier.Some? && !(0 <= f.identifier.value < 256) then Err(IdentifierOutOfRange)
    else if |f.hashValue| != HashLen then Err(InvalidHashValue)
    else if !(0 <= f.size < U32Limit) then Err(SizeOutOfRange)
    else Ok(PartitionRef(f.hashValue, f.size))
  }

  /** Index decoding: the content type must be the Erik index OID, the scope
      an IA5 string, the hash algorithm SHA-256, and every partition entry
      well formed. */
  function DecodeIndex(f: IndexFields): (r: Result<ErikIndex, DecodeError>)
    ensures f.oid != ErikIndexOid ==> r == Err(NotAnErikIndexOid)
    ensures f.oid == ErikIndexOid && IsAscii(f.indexScope) && f.hashAlgorithm != Sha256Oid ==>
      r == Err(InvalidDigestAlgorithm)
    ensures r.Ok? <==>
      && f.oid == ErikIndexOid
      && IsAscii(f.indexScope)
      && f.hashAlgorithm == Sha256Oid
      && forall i :: 0 <= i < |f.partitions| ==> DecodePartitionRef(f.partitions[i]).Ok?
    ensures r.Ok? ==>
      && r.value.indexScope == f.indexScope
      && r.value.indexTime == f.indexTime
      && |r.value.partitions| == |f.partitions|
      && forall i :: 0 <= i < |f.partitions| ==>
           r.value.partitions[i] == PartitionRef(f.partitions[i].hashValue, f.partitions[i].size)
  {
    if f.oid != ErikIndexOid then Err(NotAnErikIndexOid)
    else if !IsAscii(f.indexScope) then Err(NotIa5)
    else if f.hashAlgorithm != Sha256Oid then Err(InvalidDigestAlgorithm)
    else
      match DecodeAll(f.partitions, DecodePartitionRef)
      case Err(e) => Err(e)
      case Ok(parts) => Ok(ErikIndex(f.indexScope, f.indexTime, parts))
  }

  function EncodePartitionRef(p: PartitionRef): (f: PartitionRefFields)
    ensures f.identifier.None?
    ensures DecodePartitionRef(f) == Ok(p) <==> p.size < U32Limit
  {
    PartitionRefFields(None, p.hash, p.size)
  }

  /** The fields written for an index; no partition identifier is written. */
  function EncodeIndex(idx: ErikIndex): (f: IndexFields)
    ensures f.oid == ErikIndexOid && f.hashAlgorithm == Sha256Oid
    ensures |f.partitions| == |idx.partitions|
    ensures forall i :: 0 <= i < |f.partitions| ==> f.partitions[i].identifier.None?
  {
    IndexFields(ErikIndexOid, idx.indexScope, idx.indexTime, Sha256Oid,
      seq(|idx.partitions|, i requires 0 <= i < |idx.partitions| => EncodePartitionRef(idx.partitions[i])))
  }

  /** An index can be encoded and decoded back when its scope is IA5 and its
      partition sizes fit a u32. */
  predicate EncodableIndex(idx: ErikIndex)
  {
    && IsAscii(idx.indexScope)
    && forall i :: 0 <= i < |idx.partitions| ==> idx.partitions[i].size < U32Limit
  }

  /** Decoding what was encoded gives the index back. */
  lemma IndexRoundTrip(idx: ErikIndex)
    requires EncodableIndex(idx)
    ensures DecodeIndex(EncodeIndex(idx)) == Ok(idx)
  {
    var r := DecodeIndex(EncodeIndex(idx));
    assert r.Ok?;
    assert r.value.partitions == idx.partitions;
  }

  function WithoutIdentifier(p: PartitionRefFields): PartitionRefFields
  {
    p.(identifier := None)
  }

  /** Encoding a decoded index gives back its fields with every partition
      identifier removed; so whenever the input carried an identifier, the
      re-encoding differs from it. */
  lemma IdentifierNotReEmitted(f: IndexFields)
    requires DecodeIndex(f).Ok?
    ensures EncodeIndex(DecodeIndex(f).value)
            == f.(partitions := seq(|f.partitions|, i requires 0 <= i < |f.partitions| => WithoutIdentifier(f.partitions[i])))
    ensures (exists i :: 0 <= i < |f.partitions| && f.partitions[i].identifier.Some?) ==>
              EncodeIndex(DecodeIndex(f).value) != f
  {
    var e := EncodeIndex(DecodeIndex(f).value);
    if exists i :: 0 <= i < |f.partitions| && f.partitions[i].identifier.Some? {
      var i :| 0 <= i < |f.partitions| && f.partitions[i].identifier.Some?;
      assert e.partitions[i].identifier.None?;
    }
  }

  // ---- Partition ----

  /** One manifest reference inside a partition. The location is the single
      access description, an access method OID and an IA5 URI. */
  datatype ManifestRefFields = ManifestRefFields(
    hashValue: seq<byte>,
    size: int,
    aki: seq<byte>,
    manifestNumber: nat,
    thisUpdate: Time,
    accessMethod: Oid,
    location: string)

  /** A partition: its time, its digest algorithm and its manifest references. */
  datatype PartitionFields = PartitionFields(
    partitionTime: Time,
    digestAlgorithm: Oid,
    manifestRefs: seq<ManifestRefFields>)

  function DecodeManifestRef(f: ManifestRefFields): (r: Result<ManifestRef, DecodeError>)
    ensures r.Ok? <==>
      && |f.hashValue| == HashLen
      && 0 <= f.size < U32Limit
      && |f.aki| == KeyIdLen
      && f.accessMethod == AdSignedObjectOid
      && IsAscii(f.location)
    ensures r.Ok? ==> r.value == ManifestRef(f.hashValue, f.size, f.aki, f.manifestNumber, f.thisUpdate, f.location)
  {
    if |f.hashValue| != HashLen then Err(InvalidHashValue)
    else if !(0 <= f.size < U32Limit) then Err(SizeOutOfRange)
    else if |f.aki| != KeyIdLen then Err(InvalidKeyIdentifier)
    else if f.accessMethod != AdSignedObjectOid then Err(InvalidAccessMethod)
    else if !IsAscii(f.location) then Err(NotIa5)
    else Ok(ManifestRef(f.hashValue, f.size, f.aki, f.manifestNumber, f.thisUpdate, f.location))
  }

  /** Partition decoding: the digest algorithm must be SHA-256 and every
      manifest reference well formed; the references are collected into a
      set, so repeated entries collapse. */
  function DecodePartition(f: PartitionFields): (r: Result<Partition, DecodeError>)
    ensures f.digestAlgorithm != Sha256Oid ==> r == Err(InvalidDigestAlgorithm)
    ensures r.Ok? <==>
      && f.digestAlgorithm == Sha256Oid
      && forall i :: 0 <= i < |f.manifestRefs| ==> DecodeManifestRef(f.manifestRefs[i]).Ok?
    ensures r.Ok? ==>
      && r.value.partitionTime == f.partitionTime
      && r.value.manifestRefs == set i | 0 <= i < |f.manifestRefs| :: DecodeManifestRef(f.manifestRefs[i]).value
  {
    if f.digestAlgorithm != Sha256Oid then Err(InvalidDigestAlgorithm)
    else
      match DecodeAll(f.manifestRefs, DecodeManifestRef)
      case Err(e) => Err(e)
      case Ok(refs) =>
        assert Elems(refs) == set i | 0 <= i < |f.manifestRefs| :: DecodeManifestRef(f.manifestRefs[i]).value by {
          forall x | x in refs
            ensures exists i :: 0 <= i < |f.manifestRefs| && DecodeManifestRef(f.manifestRefs[i]).value == x
          {
            var i :| 0 <= i < |refs| && refs[i] == x;
            assert DecodeManifestRef(f.manifestRefs[i]).value == x;
          }
        }
        Ok(Partition(f.partitionTime, Elems(refs)))
  }

  function EncodeManifestRef(r: ManifestRef): (f: ManifestRefFields)
    ensures f.accessMethod == AdSignedObjectOid
    ensures DecodeManifestRef(f) == Ok(r) <==> EncodableRef(r)
  {
    ManifestRefFields(r.hash, r.size, r.aki, r.manifestNumber, r.thisUpdate, AdSignedObjectOid, r.locations)
  }

  /** The fields written for a partition encoder: its time, SHA-256 and its
      references in the encoder's order. */
  function EncodePartition(e: PartitionEncoder): (f: PartitionFields)
    ensures f.digestAlgorithm == Sha256Oid
    ensures |f.manifestRefs| == |e.manifestRefs|
  {
    PartitionFields(e.partitionTime, Sha256Oid,
      seq(|e.manifestRefs|, i requires 0 <= i < |e.manifestRefs| => EncodeManifestRef(e.manifestRefs[i])))
  }

  /** A reference survives encoding and decoding when its size fits a u32
      and its location is IA5. */
  predicate EncodableRef(r: ManifestRef)
  {
    r.size < U32Limit && IsAscii(r.locations)
  }

  /** Each encoded entry decodes to the reference it was written for. */
  lemma EncodedRefsDecode(t: Time, refs: seq<ManifestRef>)
    requires forall i :: 0 <= i < |refs| ==> EncodableRef(refs[i])
    ensures var f := EncodePartition(PartitionEncoder(t, refs));
            forall i :: 0 <= i < |f.manifestRefs| ==> DecodeManifestRef(f.manifestRefs[i]) == Ok(refs[i])
  {
  }

  /** Decoding the encoding of a listed set of references gives the set. */
  lemma EncoderRoundTrip(t: Time, refs: seq<ManifestRef>)
    requires forall i :: 0 <= i < |refs| ==> EncodableRef(refs[i])
    ensures DecodePartition(EncodePartition(PartitionEncoder(t, refs))) == Ok(Partition(t, Elems(refs)))
  {
    var f := EncodePartition(PartitionEncoder(t, refs));
    EncodedRefsDecode(t, refs);
    var decoded := set i | 0 <= i < |f.manifestRefs| :: DecodeManifestRef(f.manifestRefs[i]).value;
    assert decoded == Elems(refs) by {
      forall x | x in Elems(refs) ensures x in decoded {
        var i :| 0 <= i < |refs| && refs[i] == x;
        assert DecodeManifestRef(f.manifestRefs[i]).value == x;
      }
    }
  }

  /** Decoding the encoding of a partition gives the partition back. */
  lemma PartitionRoundTrip(p: Partition)
    requires forall r :: r in p.manifestRefs ==> EncodableRef(r)
    ensures DecodePartition(EncodePartition(EncoderFrom(p))) == Ok(p)
  {
    var e := EncoderFrom(p);
    assert e == PartitionEncoder(p.partitionTime, e.manifestRefs);
    forall i | 0 <= i < |e.manifestRefs| ensures EncodableRef(e.manifestRefs[i]) {
      assert e.manifestRefs[i] in Elems(e.manifestRefs);
    }
    EncoderRoundTrip(p.partitionTime, e.manifestRefs);
    assert Partition(p.partitionTime, Elems(e.manifestRefs)) == p;
  }

  /** A manifest larger than 4 GiB can be referenced but its reference does
      not decode: the size is read back as a u32. */
  lemma OversizedRefDoesNotDecode(r: ManifestRef)
    requires r.size >= U32Limit
    ensures DecodeManifestRef(EncodeManifestRef(r)) == Err(SizeOutOfRange)
  {
  }

  /** Every partition reference of a published index has a u32 size. */
  lemma PublishedSizesFit(idx: ResolvedIndex, digest: Digest, der: PartitionDer)
    requires IndexFrom(idx, digest, der).Ok?
    ensures EncodableIndex(IndexFrom(idx, digest, der).value)
  {
    var m := PartitionRefMap(idx, digest, der);
    RefMapSizesFit(idx, digest, der);
    ListedSizesFit(IndexFrom(idx, digest, der).value.partitions, m.Values);
  }

  /** A list drawn from references with u32 sizes has u32 sizes. */
  lemma ListedSizesFit(refs: seq<PartitionRef>, values: set<PartitionRef>)
    requires Elems(refs) == values
    requires forall v :: v in values ==> v.size < U32Limit
    ensures forall i :: 0 <= i < |refs| ==> refs[i].size < U32Limit
  {
    forall i | 0 <= i < |refs|
      ensures refs[i].size < U32Limit
    {
      assert refs[i] in Elems(refs);
    }
  }

  /** Every partition reference of a resolved index has a u32 size. */
  lemma RefMapSizesFit(idx: ResolvedIndex, digest: Digest, der: PartitionDer)
    ensures forall v :: v in PartitionRefMap(idx, digest, der).Values ==> v.size < U32Limit
  {
    var m := PartitionRefMap(idx, digest, der);
    forall v | v in m.Values
      ensures v.size < U32Limit
    {
      var k :| k in m && m[k] == v;
    }
  }

  /** The index built from repository content with an IA5 scope decodes back
      after encoding. */
  lemma PublishedIndexDecodes(indexScope: string, content: Rrdp.RepoContent, digest: Digest, der: PartitionDer)
    requires |content.manifests| > 0
    requires IsAscii(indexScope)
    ensures var published := IndexFrom(FromContent(indexScope, content).value, digest, der);
            && published.Ok?
            && DecodeIndex(EncodeIndex(published.value)) == Ok(published.value)
  {
    var idx := FromContent(indexScope, content).value;
    PublishedSizesFit(idx, digest, der);
    IndexRoundTrip(IndexFrom(idx, digest, der).value);
  }
}

/**
  The records of the Erik synchronisation data structure (section 3 of the
  Erik synchronisation Internet-Draft) as the cache holds them in memory.
 */
module ErikTypes {
  import opened Base

  /** A reference to one RPKI manifest (RFC 9286): its hash and size, the
      Authority Key Identifier of its EE certificate, its number and
      thisUpdate, and the rsync URI where it is published. */
  datatype ManifestRef = ManifestRef(
    hash: Hash,
    size: nat,
    aki: KeyId,
    manifestNumber: nat,
    thisUpdate: Time,
    locations: string)

  /** A partition: the manifests whose AKI share a first octet, and a
      partition time derived from their thisUpdate values. */
  datatype Partition = Partition(partitionTime: Time, manifestRefs: set<ManifestRef>)

  /** A reference from the index to one encoded partition: the hash and the
      length (as a u32) of the partition's encoding. */
  datatype PartitionRef = PartitionRef(hash: Hash, size: nat)

  /** The partition key: the first octet of the manifest's AKI. The draft
      asks for up to 1024 partitions (10 bits); the code takes 8 bits. */
  type PartitionKey = byte

  function KeyOf(r: ManifestRef): PartitionKey
  {
    r.aki[0]
  }

  function RefHash(r: ManifestRef): seq<byte>
  {
    r.hash
  }

  function PartitionRefHash(r: PartitionRef): seq<byte>
  {
    r.hash
  }
}

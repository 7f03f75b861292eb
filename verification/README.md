# Erik synchronisation cache — Dafny model

This project models the core of EPIC, an RPKI cache that serves repository
content through the Erik synchronisation protocol. It covers five parts.

- **Repository content.** Published objects from an RRDP snapshot are kept by
  the SHA-256 hash of their octets. The manifests among them are recognised by
  their ".mft" URI. There are two variants: `content.rs` keeps decoded current
  manifests, and `fetch/rrdp.rs` keeps manifest references, optionally
  including stale manifests.
- **Index building.** Manifest references are grouped into partitions by the
  first octet of their Authority Key Identifier. Each partition gets a
  partition time, and the index gets an index time (`erik/state.rs`,
  `erik.rs`). The resolved index becomes the published index: one reference
  (hash and u32 length) per encoded partition. Both partition references and
  manifest references are sorted by hash.
- **Field-level decoding.** These are the structural checks of index and
  partition decoding: OIDs, IA5 strings, hash length, u32 sizes, key
  identifier length and access method. They are stated over parsed DER fields.
- **Fetch mapping.** A fetch maps an https URI to a local base directory per
  lower-cased FQDN, or to the URI itself (`fetch/retrieval.rs`). The model
  covers the fetch outcome and `try_into_data`.
- **The `/.well-known/ni/{alg}/{val}` handler** in `main.rs`. It uses strict
  unpadded base64url (section 5 of RFC 4648) for the hash, and builds the 400,
  404 and 200 answers.

SHA-256, manifest decoding and DER serialisation of a partition are passed in
as functions. A manifest's staleness depends on the clock, so it is a flag the
manifest parser delivers. Rust's `HashMap`/`HashSet` iteration order is some
enumeration of the set. Lemmas show that the partitions, each partition's
encoder and the index's list of partition references do not depend on it. For
the encoder and the index this needs distinct hashes.

The code and its documentation disagree in these places:
- **Partition time.** `ErikPartition::add_manifest_ref` keeps the OLDEST
  thisUpdate of a partition, although the field is documented as the most
  recent one. The model does what the code does: `Erik.AddManifestRef` keeps
  the minimum, and `Erik.PartitionTimeIsOldestNotNewest` shows the gap. The
  index time, by contrast, is the newest partition time.
- **Content type in `from_content`.** `from_content` imports the
  `content.rs` variant of the repository content, but it treats the manifest
  values as manifest references. Only the `fetch/rrdp.rs` variant provides
  those, so the model builds the index from that variant.

## Model

| member | source | states |
|---|---|---|
| `Repository.ElementsOf` | src/content.rs:72-76 | The element map is keyed by exactly the hashes of the snapshot's objects. Each value hashes to its key and comes from the snapshot. When several objects share a hash, the last one wins. |
| `Content.TryManifest` | src/content.rs:29-35 | An object yields a manifest exactly when its URI ends in ".mft" and its octets decode. |
| `Content.CreateFromSnapshot` | src/content.rs:70-91 | Building always succeeds. The manifest map holds exactly the objects whose URI is ".mft", that decode, and that are not stale, each under its own hash. |
| `Rrdp.TryManifestRef` | src/fetch/rrdp.rs:31-60 | A non-".mft" object is "not a manifest". A reference is made exactly when the object decodes, has an AKI and is either fresh or accepted while stale. Its hash, size, AKI, number, thisUpdate and location come from the object and its manifest. A stale manifest is never the error when stale ones are accepted. |
| `Rrdp.CreateFromSnapshot` | src/fetch/rrdp.rs:97-117 | Building always succeeds. Each manifest reference is stored under its own hash and equals what `TryManifestRef` makes of that object. No object that yields a reference is missing. |
| `Rrdp.AcceptStaleOnlyAdds` | src/fetch/rrdp.rs:45-46 | Accepting stale manifests leaves the elements alone and only adds references. Every reference made without stale manifests is unchanged. |
| `Rrdp.AgreesWithContent` | src/fetch/rrdp.rs:105-111 | With stale manifests refused, the two content variants have the same elements. Every manifest reference is also a current manifest. Every current manifest with an AKI has a reference. |
| `HashOrder.LessTrichotomy` | src/erik.rs:208-213 | Comparing hashes as byte slices is total. |
| `HashOrder.LessTransitive` | src/erik.rs:488-493 | The byte-slice order used for manifest references is transitive. |
| `HashOrder.SortBy` | src/erik.rs:334-335 | Sorting yields an ascending sequence holding the same multiset of elements. |
| `HashOrder.SortStable` | src/erik.rs:176 | The sort is stable, as Rust's `sort` is: elements with equal hashes keep their visiting order. The orders of `ErikPartitionRef` and `ManifestRef` compare hashes only (src/erik.rs:208-213, 488-493). |
| `HashOrder.SortedUnique` | src/erik.rs:488-493 | When hashes are unique, as the ordering assumes, two sorted arrangements of the same elements are identical. |
| `Erik.CreateFromManifestRef` | src/erik.rs:239-248 | A new partition holds just its first reference, and its time is that reference's thisUpdate. |
| `Erik.AddManifestRef` | src/erik.rs:250-255 | Adding a reference adds it to the set and never raises the partition time. The partition time stays the oldest thisUpdate in the set. |
| `Erik.AddToPartitions` | src/erik/state.rs:41-50 | One loop step adds the reference's key to the keys. An existing partition gains the reference. A missing one is created holding only it, timed by its thisUpdate. Every other partition is left unchanged. |
| `Erik.AddToPartitionsKeepsPartitioned` | src/erik/state.rs:40-51 | One loop iteration keeps the invariant: one partition per key present, each holding exactly the references with its key, each timed by their oldest thisUpdate. |
| `Erik.PartitionsOf` | src/erik/state.rs:38-51 | The loop over the manifest references produces a partitioning of exactly the references it visited. |
| `Erik.PartitionsOrderIndependent` | src/erik/state.rs:40 | The partitions depend only on which references are visited, not on the hash map's iteration order. |
| `Erik.MaxPartitionTime` | src/erik/state.rs:56-59 | The maximum over partitions is absent exactly when there are no partitions. Otherwise it is a partition time that no partition exceeds. |
| `Erik.FromContent` | src/erik/state.rs:37-65 | There is no index exactly when the content has no manifests. Otherwise the index keeps the scope, its partitions are those of all manifest references, and its time is the newest partition time. |
| `Erik.EveryManifestInItsPartition` | src/erik/state.rs:41-50 | Every manifest of the content sits in the partition of its key, `ErikTypes.KeyOf`: the AKI's first octet, as `ErikPartitionKey::from` takes it (src/erik.rs:45-49). No partition is empty. |
| `Erik.PartitionsCoverManifests` | src/erik/state.rs:40-51 | A reference is in some partition exactly when it is a manifest of the content, and each partition holds only references of its own key. |
| `Erik.PartitionCount` | src/erik/state.rs:19-23 | There are as many partitions as distinct AKI first octets, the keys `ErikTypes.KeyOf` gives. |
| `Erik.AtMost256Partitions` | src/erik/state.rs:8-17 | A one-octet key means at most 256 partitions. |
| `Erik.PartitionTimeIsOldestNotNewest` | src/erik.rs:250-253 | With two references of one key, updated at 1 and 2, the partition time is 1. So it is older than a reference in the partition, contrary to the field's documentation. |
| `Erik.EncoderFrom` | src/erik.rs:330-345 | The encoder keeps the partition time and lists every reference of the partition exactly once, in ascending hash order. |
| `Erik.EncoderOrderIndependent` | src/erik.rs:332-335 | When hashes are distinct, sorting any iteration order of the set gives the same sequence, so the encoding is determined by the partition. |
| `Erik.ContentRefsHaveDistinctHashes` | src/fetch/rrdp.rs:108-111 | References taken from content are stored under their own hash, so no two in a partition share a hash. |
| `Erik.NewPartitionRef` | src/erik.rs:196-201 | A partition reference carries the hash of the encoded octets and their length cast to u32, which is congruent to the length modulo 2^32 and below 2^32. |
| `Erik.IndexOrderIndependent` | src/erik.rs:168-185 | When partition references have distinct hashes, the sorted references are the same for every order of visiting the partitions. |
| `Erik.IndexFrom` | src/erik.rs:168-185 | Conversion fails exactly when the scope is not IA5, where the code panics. Otherwise scope and time carry over, and there is one reference per partition. Each reference occurs as many times as there are partitions whose reference it is, and the list is sorted by hash. References that share a hash keep their visiting order (`HashOrder.SortStable`). |
| `ErikAsn1.DecodeAll` | src/erik.rs:141-156 | A list decodes exactly when every entry does, entry by entry. Otherwise the error is that of the first failing entry. |
| `ErikAsn1.DecodePartitionRef` | src/erik.rs:144-151 | An entry is accepted exactly when its optional identifier fits an octet, its hash has 32 octets and its size fits a u32. The identifier is dropped. |
| `ErikAsn1.DecodeIndex` | src/erik.rs:121-165 | An index decodes exactly when its OID is the Erik index OID, its scope is IA5, its algorithm is SHA-256 and every entry decodes. A wrong OID is reported first. Decoding keeps the scope, the time and the entries in order. |
| `ErikAsn1.EncodePartitionRef` | src/erik.rs:203-205 | A partition reference is written without an identifier. Its encoding decodes back to it exactly when its size fits a u32. |
| `ErikAsn1.EncodeIndex` | src/erik.rs:104-119 | Encoding writes the Erik OID and SHA-256 and one entry per partition, none with an identifier. |
| `ErikAsn1.IndexRoundTrip` | src/erik.rs:104-165 | An index with an IA5 scope and u32 sizes decodes back from its encoding. |
| `ErikAsn1.IdentifierNotReEmitted` | src/erik.rs:552-567 | Re-encoding a decoded index drops every partition identifier, so an input that carried one is not reproduced. |
| `ErikAsn1.DecodeManifestRef` | src/erik.rs:416-459 | A manifest reference is accepted exactly when its hash has 32 octets, its size fits a u32, its AKI has 20 octets, its access method is id-ad-signedObject and its location is IA5. The fields are then kept as they are. |
| `ErikAsn1.DecodePartition` | src/erik.rs:269-293 | A partition decodes exactly when its digest algorithm is SHA-256 and every reference decodes. Its references are the set of decoded entries. |
| `ErikAsn1.EncodeManifestRef` | src/erik.rs:399-413 | A manifest reference is written with the id-ad-signedObject access method. Its encoding decodes back to it exactly when its size fits a u32 and its location is IA5. |
| `ErikAsn1.EncodePartition` | src/erik.rs:349-355 | The partition encoding writes SHA-256 and one entry per listed reference. |
| `ErikAsn1.PartitionRoundTrip` | src/erik.rs:528-537 | The encoding of a partition whose references have u32 sizes and IA5 locations decodes back to the same partition. |
| `ErikAsn1.OversizedRefDoesNotDecode` | src/erik.rs:398-424 | A reference to a manifest of 4 GiB or more encodes, but does not decode again. |
| `ErikAsn1.PublishedIndexDecodes` | src/erik.rs:540-550 | The index built from content with an IA5 scope converts without error and decodes back from its encoding. |
| `Retrieval.FqdnFrom` | src/fetch/retrieval.rs:22-26 | The FQDN of a URI has no upper-case ASCII letter and differs from the authority only in letter case. |
| `Retrieval.FqdnIgnoresCase` | src/fetch/retrieval.rs:22-26 | Two URIs have the same FQDN exactly when their authorities are equal ignoring ASCII case. |
| `Retrieval.NewMapper` | src/fetch/retrieval.rs:39-43 | A new mapper resolves every URI to the URI itself. |
| `Retrieval.AddDiskMapper` | src/fetch/retrieval.rs:45-47 | Adding a mapping sets the base directory of that FQDN and leaves every other mapping as it was. |
| `Retrieval.Resolve` | src/fetch/retrieval.rs:49-63 | A URI resolves to a file exactly when its lower-cased authority has a mapping. The path is the base directory joined with the URI path minus one leading '/', or the base directory itself when there is no leading '/'. An unmapped URI resolves to itself. |
| `Retrieval.UpperCaseMappingNeverHit` | src/fetch/retrieval.rs:45-52 | A mapping registered under a name with an upper-case letter changes how no URI resolves. |
| `Retrieval.ResolveStartsWithBase` | src/fetch/retrieval.rs:53-57 | A mapped URI whose path does not begin with "//" resolves to a path that has the base directory as a string prefix. ".." segments are kept, so this is not containment. |
| `Retrieval.DoubleSlashLeavesBase` | src/fetch/retrieval.rs:54-55 | A path "//etc/passwd" under a mapping to "/srv/repo" resolves to "/etc/passwd", outside the base. |
| `Retrieval.TryIntoData` | src/fetch/retrieval.rs:144-149 | Data is returned exactly for a data response, and it is the response's octets. "Not modified" is an error. |
| `Retrieval.ClassifyStatus` | src/fetch/retrieval.rs:97-121 | Only 200 and 304 succeed: 200 carries the body as data, 304 means not modified, and any other status is an error naming it. |
| `Retrieval.FileNeverUnModified` | src/fetch/retrieval.rs:123-131 | A URI mapped to a file never yields "not modified": a successful fetch always carries data. |
| `Retrieval.UnmappedFetchGoesToNetwork` | src/fetch/retrieval.rs:49-63 | Without disk mappings every fetch is the classified server answer, or an error when the request fails. |
| `Retrieval.Fetch` | src/fetch/retrieval.rs:77-133 | A file source succeeds exactly when the file can be read, giving its octets without an entity tag. A URI source gives the classified server answer, or an error when the request fails. |
| `Base64Url.Encode` | src/bin/erik_fetch.rs:29 | The encoding of n octets has (4n+2)/3 characters, all from the URL-safe alphabet, with no padding. `Base64Url.DecodeEncode` shows that decoding recovers the octets. |
| `Base64Url.Decode` | src/main.rs:63-64 | Accepted texts consist of alphabet characters only. A text whose length is 1 modulo 4 is never accepted. The decoded length is three quarters of the text length, rounded down. |
| `Base64Url.DecodeEncode` | src/bin/erik_fetch.rs:28-32 | Decoding the name a client builds from a hash gives the hash back. |
| `Base64Url.EncodeDecode` | src/main.rs:63-64 | Every accepted name is the encoding of what it decodes to. |
| `Base64Url.DecodeInjective` | src/main.rs:63-64 | Two accepted names that decode to the same octets are the same name. |
| `Base64Url.HashNameLength` | src/main.rs:63-64 | A hash is named by 43 characters, and only 43-character names decode to 32 octets. |
| `NamedInfo.HexInjective` | src/main.rs:23-25 | Different hashes are displayed differently. |
| `NamedInfo.BadHash` | src/main.rs:19-21 | The bad-hash answer is 400, sets no headers, and has a text body that ends with the rejected name. |
| `NamedInfo.BadHashIdentifiesName` | src/main.rs:19-21 | Bad-hash answers for different names differ. |
| `NamedInfo.NotFound` | src/main.rs:23-25 | The not-found answer is 404, sets no headers, and has a text body that ends with the hash in lower-case hex. `NamedInfo.NotFoundIdentifiesHash` shows that it identifies the hash. |
| `NamedInfo.NotFoundIdentifiesHash` | src/main.rs:23-25 | "Not found" answers for different hashes differ. |
| `NamedInfo.UnsupportedAlgorithmAsWritten` | src/main.rs:56-61 | A request for another algorithm gets 400 with a text body and no headers set by the handler. |
| `NamedInfo.AsWrittenDoesNotNameAlgorithm` | src/main.rs:59 | As written, every unsupported algorithm gets the identical answer, which differs from the answer that names the algorithm. |
| `NamedInfo.UnsupportedAlgorithm` | src/main.rs:56-61 | With the message interpolated, the answer keeps the status (400) and headers of the answer as written. Its text ends with the rejected algorithm's name. |
| `NamedInfo.UnsupportedAlgorithmIsReported` | src/main.rs:59 | Different unsupported algorithms get different answers. |
| `NamedInfo.NamedInformation` | src/main.rs:55-80 | Another algorithm gets 400 with the literal text "unsupported hashing algorithm: {alg}", as written. A "sha-256" name that does not decode to 32 octets gets 400 with "invalid hash: " and the name. The handler only answers 200, 400 or 404. A 200 answer has the DER content type and the data of a held object. A 404 answer is given only for SHA-256. |
| `NamedInfo.NamedInformationIntended` | src/main.rs:55-80 | The handler with the message interpolated: another algorithm gets the answer naming it, and a "sha-256" request gets what the handler as written sends. |
| `NamedInfo.IntendedDiffersOnlyInMessage` | src/main.rs:56-61 | Both handlers always agree on status and headers. Their answers are equal exactly for "sha-256" and for the one algorithm name "{alg}". |
| `NamedInfo.ServeHash` | src/main.rs:63-79 | A "sha-256" name answers only 200, 400 or 404. A name that does not decode to 32 octets gets the bad-hash answer. A 200 answer has the DER content type and the data of a held object. |
| `NamedInfo.ServesEveryObject` | src/main.rs:63-73 | The name a client builds from a hash returns the object when it is held, in the answer `NamedInfo.Der` builds (src/main.rs:27-33): 200, the DER content type and the octets. Otherwise it gets "not found", citing the hash. |
| `NamedInfo.OnlyCanonicalNamesAccepted` | src/main.rs:63-78 | A request is not rejected exactly when it asks for "sha-256" with a name that is the encoding of some hash. |

## Findings

| source | as written | input that shows it | evidently intended | confidence | as-written member | corrected member |
|---|---|---|---|---|---|---|
| src/main.rs:59 | The 400 message for an unsupported algorithm is a plain string literal, not a `format!`, so `{alg}` is sent as it stands | alg = "md5": the body reads "unsupported hashing algorithm: {alg}" | The message names the rejected algorithm | high (not executed) | `NamedInfo.UnsupportedAlgorithmAsWritten`, shown by `NamedInfo.AsWrittenDoesNotNameAlgorithm` | `NamedInfo.UnsupportedAlgorithm`, proved by `NamedInfo.UnsupportedAlgorithmIsReported`, and used by `NamedInfo.NamedInformationIntended` |

## Left out

- DER octets. The bcder encoding and decoding is modelled at the level of the parsed fields. Tag and length octets, GeneralizedTime versus UTCTime, and the OCTET STRING wrapping of the index content are not modelled.
- SHA-256 is a parameter (`Digest`). Manifest decoding (`Manifest::decode`) and the DER serialisation of a partition encoder are also parameters. The rpki crate is not part of this model.
- Manifest staleness is a flag of the parsed manifest, because `is_stale` compares with the current clock.
- RRDP snapshot XML parsing, and the test snapshot that `create_test` embeds.
- The HTTP client in `ResolvedSource::fetch`: TLS options, the user agent, the timeout and the If-None-Match request header. File reading is also outside the model. The server's answer and the file contents are parameters of `Retrieval.Fetch`.
- Retrieval.Fetch: an ETag header that is not visible ASCII, which the code rejects, is not modelled. The answer's entity tag is taken as given.
- Retrieval.Resolve: URI paths and file paths are plain strings, and `PathBuf::join` is modelled with its Unix behaviour only. The rpki crate's URI parsing is not part of this model.
- ErikAsn1.DecodeManifestRef: accepts every IA5 location, while the code also requires the location to parse as an rsync URI. The rsync URI syntax lives in the rpki crate.
- ErikAsn1.DecodeManifestRef: the manifest number is any natural number. The limits of the `Serial` decoder are not modelled.
- ManifestRef sizes are unbounded naturals. On the 64-bit targets the code is built for, `usize` does not overflow for real objects. The u32 limits of encoding and decoding are modelled.
- `TryFrom<&Manifest> for ManifestRef` (src/erik.rs:462-486) is left out. It needs the manifest's re-encoding and the EE certificate's signed-object URI, both from the rpki crate, and the index path does not use it.
- `ErikIndex::from` panics when the scope is not IA5; `Erik.IndexFrom` returns an error instead.
- The duplicate of the partition key and resolved index in src/erik.rs:34-93 matches src/erik/state.rs and is modelled once.
- Server set-up: axum routing, tokio, configuration loading, the "/" route's fixed greeting and the debug listing of the inventory. The web framework also adds a text content type to string bodies; the model lists only the headers the handler sets.
- The `else` branch at src/main.rs:74-76 is never taken, because the decoded length has just been checked to be 32, so the model has no such branch.
- The display of a hash (`{hash}` in the "not found" message) comes from the rpki crate. It is modelled as lower-case hex, two digits per octet.
- The command-line binaries are not modelled, apart from the name `erik_fetch` builds for a partition, which `Base64Url.DecodeEncode` covers.

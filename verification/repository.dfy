/**
  Published repository objects as they arrive in an RRDP snapshot
  (RFC 8182), and what the cache learns from a parsed manifest (RFC 9286).
  Shared by both variants of the repository content.
 */
module Repository {
  import opened Base

  /** One published object: the rsync URI it was published at and its octets. */
  datatype Element = Element(uri: string, data: seq<byte>)

  /** The parts of a decoded manifest the cache reads: the AKI of its EE
      certificate (absent when the certificate carries none), the manifest
      number, thisUpdate, and whether it is stale at the moment of reading. */
  datatype Manifest = Manifest(aki: Option<KeyId>, manifestNumber: nat, thisUpdate: Time, stale: bool)

  /** Manifest decoding, left opaque: `None` when the octets do not decode. */
  type ManifestParser = seq<byte> -> Option<Manifest>

  /** Objects whose URI ends in ".mft" are taken to be manifests. */
  predicate IsManifestUri(uri: string)
  {
    EndsWith(uri, ".mft")
  }

  /** The snapshot's elements keyed by the hash of their data. Collecting
      pairs into a map lets a later element replace an earlier one with the
      same hash. */
  function ElementsOf(snapshot: seq<Element>, digest: Digest): (m: map<Hash, Element>)
    ensures m.Keys == set e | e in snapshot :: digest(e.data)
    ensures forall h :: h in m ==> digest(m[h].data) == h && m[h] in snapshot
    ensures forall i :: 0 <= i < |snapshot| && LastWithHash(snapshot, i, digest) ==>
      m[digest(snapshot[i].data)] == snapshot[i]
  {
    if |snapshot| == 0 then map[]
    else
      var init := snapshot[..|snapshot| - 1];
      var e := snapshot[|snapshot| - 1];
      var m := ElementsOf(init, digest);
      assert snapshot == init + [e];
      ExtendKeys(init, e, m, digest);
      ExtendLastWins(init, e, m, digest);
      m[digest(e.data) := e]
  }

  /** Adding one element adds its hash to the keys. */
  lemma ExtendKeys(init: seq<Element>, e: Element, m: map<Hash, Element>, digest: Digest)
    requires m.Keys == set x | x in init :: digest(x.data)
    ensures m[digest(e.data) := e].Keys == set x | x in init + [e] :: digest(x.data)
  {
    assert (set x | x in init + [e] :: digest(x.data))
      == (set x | x in init :: digest(x.data)) + {digest(e.data)};
  }

  /** Adding one element keeps every element that is last with its hash. */
  lemma ExtendLastWins(init: seq<Element>, e: Element, m: map<Hash, Element>, digest: Digest)
    requires m.Keys == set x | x in init :: digest(x.data)
    requires forall i :: 0 <= i < |init| && LastWithHash(init, i, digest) ==>
      m[digest(init[i].data)] == init[i]
    ensures var s := init + [e];
            forall i :: 0 <= i < |s| && LastWithHash(s, i, digest) ==>
              m[digest(e.data) := e][digest(s[i].data)] == s[i]
  {
    var s := init + [e];
    var r := m[digest(e.data) := e];
    forall i | 0 <= i < |s| && LastWithHash(s, i, digest)
      ensures r[digest(s[i].data)] == s[i]
    {
      if i < |init| {
        assert s[i] == init[i];
        assert digest(s[|s| - 1].data) != digest(s[i].data);
        assert LastWithHash(init, i, digest) by {
          forall j | i < j < |init| ensures digest(init[j].data) != digest(init[i].data) {
            assert s[j] == init[j];
          }
        }
      }
    }
  }

  /** No element after position `i` has the same hash as element `i`. */
  predicate LastWithHash(snapshot: seq<Element>, i: nat, digest: Digest)
    requires i < |snapshot|
  {
    forall j :: i < j < |snapshot| ==> digest(snapshot[j].data) != digest(snapshot[i].data)
  }
}

/**
  The repository content of an Erik cache, second variant: every published
  object keyed by its hash, plus a manifest reference for each usable
  manifest, optionally including stale ones.
 */
module Rrdp {
  import opened Base
  import opened Repository
  import opened ErikTypes
  import Content

  /** Why an object yields no manifest reference. */
  datatype RefError = NotAManifest | DecodeFailed | NoAki | Stale

  /** The manifest reference for one object. The checks run in the order of
      the code: the ".mft" suffix, decoding, the presence of an AKI, and last
      staleness, which only matters when stale manifests are refused. */
  function TryManifestRef(e: Element, acceptStale: bool, digest: Digest, parse: ManifestParser)
    : (r: Result<ManifestRef, RefError>)
    ensures !IsManifestUri(e.uri) ==> r == Err(NotAManifest)
    ensures acceptStale ==> r != Err(Stale)
    ensures r.Ok? <==>
      && IsManifestUri(e.uri)
      && parse(e.data).Some?
      && parse(e.data).value.aki.Some?
      && (acceptStale || !parse(e.data).value.stale)
    ensures r.Ok? ==>
      && r.value.hash == digest(e.data)
      && r.value.size == |e.data|
      && r.value.locations == e.uri
      && r.value.aki == parse(e.data).value.aki.value
      && r.value.manifestNumber == parse(e.data).value.manifestNumber
      && r.value.thisUpdate == parse(e.data).value.thisUpdate
  {
    if IsManifestUri(e.uri) then
      match parse(e.data)
      case None => Err(DecodeFailed)
      case Some(mft) =>
        match mft.aki
        case None => Err(NoAki)
        case Some(aki) =>
          if !acceptStale && mft.stale then Err(Stale)
          else Ok(ManifestRef(digest(e.data), |e.data|, aki, mft.manifestNumber, mft.thisUpdate, e.uri))
    else
      Err(NotAManifest)
  }

  datatype RepoContent = RepoContent(elements: map<Hash, Element>, manifests: map<Hash, ManifestRef>)

  /** Builds the content from a snapshot. Objects for which no manifest
      reference can be made are dropped silently, so building never fails. */
  function CreateFromSnapshot(snapshot: seq<Element>, acceptStale: bool, digest: Digest, parse: ManifestParser)
    : (r: Result<RepoContent, string>)
    ensures r.Ok?
    ensures r.value.elements.Keys == set e | e in snapshot :: digest(e.data)
    ensures forall h :: h in r.value.elements ==> digest(r.value.elements[h].data) == h
    ensures r.value.manifests.Keys <= r.value.elements.Keys
    ensures forall h :: h in r.value.manifests ==>
      && r.value.manifests[h].hash == h
      && TryManifestRef(r.value.elements[h], acceptStale, digest, parse) == Ok(r.value.manifests[h])
    ensures forall h ::
              && h in r.value.elements
              && TryManifestRef(r.value.elements[h], acceptStale, digest, parse).Ok?
              ==> h in r.value.manifests
  {
    var elements := ElementsOf(snapshot, digest);
    var manifests := map h | h in elements && TryManifestRef(elements[h], acceptStale, digest, parse).Ok?
      :: TryManifestRef(elements[h], acceptStale, digest, parse).value;
    Ok(RepoContent(elements, manifests))
  }

  /** Accepting stale manifests only ever adds manifest references: the
      content built without them is a sub-map of the content built with them. */
  lemma AcceptStaleOnlyAdds(snapshot: seq<Element>, digest: Digest, parse: ManifestParser)
    ensures var strict := CreateFromSnapshot(snapshot, false, digest, parse).value;
            var lenient := CreateFromSnapshot(snapshot, true, digest, parse).value;
            && strict.elements == lenient.elements
            && strict.manifests.Keys <= lenient.manifests.Keys
            && forall h :: h in strict.manifests ==> strict.manifests[h] == lenient.manifests[h]
  {
  }

  /** Every object behind a manifest reference of this variant is also a
      manifest of the first variant, when stale manifests are refused; the
      converse holds for every manifest that carries an AKI. */
  lemma AgreesWithContent(snapshot: seq<Element>, digest: Digest, parse: ManifestParser)
    ensures var rrdp := CreateFromSnapshot(snapshot, false, digest, parse).value;
            var content := Content.CreateFromSnapshot(snapshot, digest, parse).value;
            && rrdp.elements == content.elements
            && rrdp.manifests.Keys <= content.manifests.Keys
            && (forall h :: h in content.manifests && content.manifests[h].aki.Some? ==> h in rrdp.manifests)
  {
  }
}

/**
  The repository content of an Erik cache, first variant: every published
  object keyed by its hash, plus the current manifests among them, kept as
  decoded manifests.
 */
module Content {
  import opened Base
  import opened Repository

  datatype RepoContent = RepoContent(elements: map<Hash, Element>, manifests: map<Hash, Manifest>)

  /** The object decoded as a manifest, when its URI says it is one and it
      decodes. */
  function TryManifest(e: Element, parse: ManifestParser): (r: Option<Manifest>)
    ensures r.Some? <==> IsManifestUri(e.uri) && parse(e.data).Some?
    ensures r.Some? ==> r == parse(e.data)
  {
    if IsManifestUri(e.uri) then parse(e.data) else None
  }

  /** A manifest the content keeps: it decodes and is not stale. */
  predicate IsCurrentManifest(e: Element, parse: ManifestParser)
  {
    var m := TryManifest(e, parse);
    m.Some? && !m.value.stale
  }

  /** Builds the content from a snapshot. Objects that are not manifests,
      manifests that do not decode and stale manifests are skipped, so
      building never fails. */
  function CreateFromSnapshot(snapshot: seq<Element>, digest: Digest, parse: ManifestParser)
    : (r: Result<RepoContent, string>)
    ensures r.Ok?
    ensures r.value.elements.Keys == set e | e in snapshot :: digest(e.data)
    ensures forall h :: h in r.value.elements ==> digest(r.value.elements[h].data) == h
    ensures r.value.manifests.Keys <= r.value.elements.Keys
    ensures forall h :: h in r.value.manifests ==>
      && IsManifestUri(r.value.elements[h].uri)
      && parse(r.value.elements[h].data) == Some(r.value.manifests[h])
      && !r.value.manifests[h].stale
    ensures forall h ::
              && h in r.value.elements
              && IsManifestUri(r.value.elements[h].uri)
              && parse(r.value.elements[h].data).Some?
              && !parse(r.value.elements[h].data).value.stale
              ==> h in r.value.manifests
  {
    var elements := ElementsOf(snapshot, digest);
    var manifests := map h | h in elements && IsCurrentManifest(elements[h], parse)
      :: TryManifest(elements[h], parse).value;
    Ok(RepoContent(elements, manifests))
  }
}

/**
  Mapping fetches of https URIs to local files. A fetch mapper holds a base
  directory per FQDN; a URI whose lower-cased authority has a mapping is
  resolved to a file under that directory, any other URI is fetched as is.
 */
module Retrieval {
  import opened Base

  /** An https URI, reduced to the two parts the mapper reads. */
  datatype HttpsUri = HttpsUri(authority: string, path: string)

  /** The host part of a URI, as used to look up disk mappings. Any string
      can be wrapped: nothing checks domain-name syntax. */
  datatype Fqdn = Fqdn(name: string)

  /** A file-system path on a Unix system. */
  type Path = string

  predicate IsAsciiUpper(c: char)
  {
    'A' <= c <= 'Z'
  }

  function ToAsciiLowerChar(c: char): char
  {
    if IsAsciiUpper(c) then (c as int + 32) as char else c
  }

  /** Rust's `to_ascii_lowercase`: 'A'..'Z' become 'a'..'z', every other
      character is kept. */
  function ToAsciiLower(s: string): (r: string)
    ensures |r| == |s|
    ensures forall i :: 0 <= i < |r| ==> !IsAsciiUpper(r[i])
    ensures forall i :: 0 <= i < |r| ==> !IsAsciiUpper(s[i]) ==> r[i] == s[i]
  {
    seq(|s|, i requires 0 <= i < |s| => ToAsciiLowerChar(s[i]))
  }

  /** Two strings that differ at most in the case of ASCII letters. */
  predicate EqualIgnoringAsciiCase(a: string, b: string)
  {
    && |a| == |b|
    && forall i :: 0 <= i < |a| ==>
         || a[i] == b[i]
         || (IsAsciiUpper(a[i]) && b[i] as int == a[i] as int + 32)
         || (IsAsciiUpper(b[i]) && a[i] as int == b[i] as int + 32)
  }

  predicate HasAsciiUpper(s: string)
  {
    exists i :: 0 <= i < |s| && IsAsciiUpper(s[i])
  }

  /** The FQDN of a URI: its authority, lower-cased. */
  function FqdnFrom(uri: HttpsUri): (f: Fqdn)
    ensures !HasAsciiUpper(f.name)
    ensures EqualIgnoringAsciiCase(f.name, uri.authority)
  {
    Fqdn(ToAsciiLower(uri.authority))
  }

  /** Authorities that differ only in the case of ASCII letters give the same
      FQDN, and no others do. */
  lemma FqdnIgnoresCase(u: HttpsUri, v: HttpsUri)
    ensures FqdnFrom(u) == FqdnFrom(v) <==> EqualIgnoringAsciiCase(u.authority, v.authority)
  {
    var a, b := u.authority, v.authority;
    if FqdnFrom(u) == FqdnFrom(v) {
      assert |a| == |b|;
      forall i | 0 <= i < |a|
        ensures || a[i] == b[i]
                || (IsAsciiUpper(a[i]) && b[i] as int == a[i] as int + 32)
                || (IsAsciiUpper(b[i]) && a[i] as int == b[i] as int + 32)
      {
        assert ToAsciiLower(a)[i] == ToAsciiLower(b)[i];
      }
    }
    if EqualIgnoringAsciiCase(a, b) {
      assert ToAsciiLower(a) == ToAsciiLower(b);
    }
  }

  /** The disk mappings of a fetch mapper, by FQDN. */
  datatype FetchMapper = FetchMapper(diskMappers: map<Fqdn, Path>)

  /** Where a URI is fetched from. */
  datatype ResolvedSource = File(path: Path) | Uri(uri: HttpsUri)

  /** `PathBuf::join` on Unix: an absolute `rel` replaces `base`; otherwise a
      separator is inserted unless `base` is empty or already ends in one. */
  function Join(base: Path, rel: Path): Path
  {
    if StartsWith(rel, "/") then rel
    else if |base| > 0 && base[|base| - 1] != '/' then base + "/" + rel
    else base + rel
  }

  /** A mapper without disk mappings. */
  function NewMapper(): (m: FetchMapper)
    ensures forall uri :: Resolve(m, uri) == Uri(uri)
  {
    FetchMapper(map[])
  }

  /** Adds or replaces the mapping for one FQDN. */
  function AddDiskMapper(m: FetchMapper, fqdn: Fqdn, baseDir: Path): (m': FetchMapper)
    ensures fqdn in m'.diskMappers && m'.diskMappers[fqdn] == baseDir
    ensures m'.diskMappers.Keys == m.diskMappers.Keys + {fqdn}
    ensures forall f :: f in m.diskMappers && f != fqdn ==> m'.diskMappers[f] == m.diskMappers[f]
  {
    FetchMapper(m.diskMappers[fqdn := baseDir])
  }

  /** Resolves a URI: to a file under the base directory mapped for its FQDN,
      with one leading '/' of the path removed before joining, or else to the
      URI itself. */
  function Resolve(m: FetchMapper, uri: HttpsUri): (r: ResolvedSource)
    ensures r.File? <==> FqdnFrom(uri) in m.diskMappers
    ensures r.Uri? ==> r.uri == uri
    ensures r.File? && StartsWith(uri.path, "/") ==>
      r.path == Join(m.diskMappers[FqdnFrom(uri)], uri.path[1..])
    ensures r.File? && !StartsWith(uri.path, "/") ==>
      r.path == m.diskMappers[FqdnFrom(uri)]
  {
    var fqdn := FqdnFrom(uri);
    if fqdn in m.diskMappers then
      var basePath := m.diskMappers[fqdn];
      if |uri.path| > 0 && uri.path[0] == '/' then File(Join(basePath, uri.path[1..]))
      else File(basePath)
    else
      Uri(uri)
  }

  /** A mapping registered under a name with an upper-case ASCII letter is
      never used: adding it does not change how any URI resolves. */
  lemma UpperCaseMappingNeverHit(m: FetchMapper, fqdn: Fqdn, baseDir: Path, uri: HttpsUri)
    requires HasAsciiUpper(fqdn.name)
    ensures Resolve(AddDiskMapper(m, fqdn, baseDir), uri) == Resolve(m, uri)
  {
    assert FqdnFrom(uri) != fqdn;
  }

  /** A mapped URI whose path does not begin with "//" resolves to a path
      that has the base directory as a string prefix. That is not
      containment: ".." segments are kept, so "/../x" resolves to
      "base/../x". */
  lemma ResolveStartsWithBase(m: FetchMapper, uri: HttpsUri)
    requires FqdnFrom(uri) in m.diskMappers
    requires !StartsWith(uri.path, "//")
    ensures StartsWith(Resolve(m, uri).path, m.diskMappers[FqdnFrom(uri)])
  {
    var base := m.diskMappers[FqdnFrom(uri)];
    var r := Resolve(m, uri).path;
    if StartsWith(uri.path, "/") {
      var rel := uri.path[1..];
      if |uri.path| >= 2 {
        assert uri.path[..2] == [uri.path[0], uri.path[1]];
        assert rel[..1] == [uri.path[1]];
      }
      assert !StartsWith(rel, "/");
      if |base| > 0 && base[|base| - 1] != '/' {
        assert r == base + "/" + rel;
        assert r[..|base|] == base;
      } else {
        assert r == base + rel;
        assert r[..|base|] == base;
      }
    } else {
      assert r == base;
      assert r[..|base|] == base;
    }
  }

  /** A path beginning with "//" leaves one absolute path after the leading
      '/' is removed, and joining an absolute path replaces the base: the URI
      resolves outside its base directory. */
  lemma DoubleSlashLeavesBase()
    ensures var m := AddDiskMapper(NewMapper(), Fqdn("repo.example"), "/srv/repo");
            Resolve(m, HttpsUri("REPO.example", "//etc/passwd")) == File("/etc/passwd")
  {
    var m := AddDiskMapper(NewMapper(), Fqdn("repo.example"), "/srv/repo");
    var uri := HttpsUri("REPO.example", "//etc/passwd");
    assert FqdnFrom(uri).name == "repo.example";
    assert StartsWith("/etc/passwd", "/");
  }

  /** The outcome of a fetch: data with an optional entity tag, or "not
      modified". */
  datatype FetchResponse = Data(bytes: seq<byte>, etag: Option<string>) | UnModified

  /** Why a fetch yields no data. */
  datatype FetchError = NoData | UnexpectedStatus(status: int) | RequestFailed | ReadFailed

  /** What the network gives for an HTTP GET: an answer, or nothing at all. */
  datatype HttpAnswer = Answer(status: int, body: seq<byte>, etag: Option<string>) | TransportFailure

  /** The data of a response; a "not modified" response has none. */
  function TryIntoData(resp: FetchResponse): (r: Result<seq<byte>, FetchError>)
    ensures r.Ok? <==> resp.Data?
    ensures r.Ok? ==> r.value == resp.bytes
    ensures resp.UnModified? ==> r == Err(NoData)
  {
    match resp
    case Data(bytes, _) => Ok(bytes)
    case UnModified => Err(NoData)
  }

  /** How the answer to an HTTP GET is classified: 200 carries data and the
      entity tag, 304 means not modified, any other status is an error. */
  function ClassifyStatus(status: int, body: seq<byte>, etag: Option<string>): (r: Result<FetchResponse, FetchError>)
    ensures r.Ok? <==> status == 200 || status == 304
    ensures r.Err? ==> r.error == UnexpectedStatus(status)
    ensures status == 200 ==> TryIntoData(r.value) == Ok(body)
    ensures status == 304 ==> r.value.UnModified?
  {
    if status == 200 then Ok(Data(body, etag))
    else if status == 304 then Ok(UnModified)
    else Err(UnexpectedStatus(status))
  }

  /** Fetches from a resolved source. Reading a file and performing a GET
      are the outside world, passed in as functions: a file yields its
      contents without an entity tag, a URI yields what the server answers. */
  function Fetch(src: ResolvedSource, readFile: Path -> Option<seq<byte>>, get: HttpsUri -> HttpAnswer)
    : (r: Result<FetchResponse, FetchError>)
    ensures src.File? ==> (r.Ok? <==> readFile(src.path).Some?)
    ensures src.File? && r.Ok? ==> r.value == Data(readFile(src.path).value, None)
    ensures src.Uri? && get(src.uri).TransportFailure? ==> r == Err(RequestFailed)
    ensures src.Uri? && get(src.uri).Answer? ==>
      r == ClassifyStatus(get(src.uri).status, get(src.uri).body, get(src.uri).etag)
  {
    match src
    case File(path) =>
      (match readFile(path)
       case Some(bytes) => Ok(Data(bytes, None))
       case None => Err(ReadFailed))
    case Uri(uri) =>
      (match get(uri)
       case TransportFailure => Err(RequestFailed)
       case Answer(status, body, etag) => ClassifyStatus(status, body, etag))
  }

  /** A file source never answers "not modified", whatever entity tag the
      caller holds; only a server can. */
  lemma FileNeverUnModified(m: FetchMapper, uri: HttpsUri, readFile: Path -> Option<seq<byte>>,
                            get: HttpsUri -> HttpAnswer)
    requires FqdnFrom(uri) in m.diskMappers
    ensures Fetch(Resolve(m, uri), readFile, get).Ok? ==>
      TryIntoData(Fetch(Resolve(m, uri), readFile, get).value).Ok?
  {
  }

  /** Without disk mappings every fetch goes to the network. */
  lemma UnmappedFetchGoesToNetwork(uri: HttpsUri, readFile: Path -> Option<seq<byte>>,
                                   get: HttpsUri -> HttpAnswer)
    ensures Fetch(Resolve(NewMapper(), uri), readFile, get) ==
      match get(uri)
      case TransportFailure => Err(RequestFailed)
      case Answer(status, body, etag) => ClassifyStatus(status, body, etag)
  {
  }
}

/**
  The server's named-information endpoint: `/.well-known/ni/{alg}/{val}`
  (RFC 6920, section 3) answers with the DER object whose SHA-256 hash is
  `val`, written in unpadded base64url. An unsupported algorithm or a name
  that does not decode to 32 octets is a bad request; a well-formed name of an
  object the cache does not hold is "not found".
 */
module NamedInfo {
  import opened Base
  import opened Repository
  import Base64Url

  /** The body of a response: text, or octets sent as they are. */
  datatype Body = Text(text: string) | Octets(data: seq<byte>)

  /** An HTTP response: status code, the headers the handler sets, body. */
  datatype Response = Response(status: int, headers: seq<(string, string)>, body: Body)

  const StatusOk: int := 200
  const StatusBadRequest: int := 400
  const StatusNotFound: int := 404

  /** The only algorithm name the endpoint serves. */
  const Sha256Name: string := "sha-256"

  const DerContentType: string := "application/octet-stream+der"

  predicate IsLowerHexDigit(c: char)
  {
    ('0' <= c <= '9') || ('a' <= c <= 'f')
  }

  function HexDigit(v: int): (c: char)
    requires 0 <= v < 16
    ensures IsLowerHexDigit(c)
  {
    if v < 10 then ('0' as int + v) as char else ('a' as int + (v - 10)) as char
  }

  lemma HexDigitInjective(u: int, v: int)
    requires 0 <= u < 16 && 0 <= v < 16
    requires HexDigit(u) == HexDigit(v)
    ensures u == v
  {
  }

  /** A hash as it is displayed: two lower-case hex digits per octet, most
      significant digit first. */
  function Hex(b: seq<byte>): (s: string)
    ensures |s| == 2 * |b|
    ensures forall i :: 0 <= i < |s| ==> IsLowerHexDigit(s[i])
  {
    if |b| == 0 then ""
    else [HexDigit(b[0] / 16), HexDigit(b[0] % 16)] + Hex(b[1..])
  }

  /** Different octet strings are displayed differently. */
  lemma {:induction false} HexInjective(a: seq<byte>, b: seq<byte>)
    requires Hex(a) == Hex(b)
    ensures a == b
  {
    if |a| > 0 {
      var ha, hb := Hex(a), Hex(b);
      assert ha[0] == hb[0] && ha[1] == hb[1];
      HexDigitInjective(a[0] / 16, b[0] / 16);
      HexDigitInjective(a[0] % 16, b[0] % 16);
      assert a[0] == b[0];
      assert Hex(a[1..]) == ha[2..] == hb[2..] == Hex(b[1..]);
      HexInjective(a[1..], b[1..]);
      assert a == [a[0]] + a[1..] && b == [b[0]] + b[1..];
    }
  }

  /** The answer to a name that is not a 32-octet base64url text. */
  function BadHash(val: string): (r: Response)
    ensures r.status == StatusBadRequest && r.headers == [] && r.body.Text?
    ensures EndsWith(r.body.text, val)
  {
    var text := "invalid hash: " + val;
    assert text[|text| - |val|..] == val;
    Response(StatusBadRequest, [], Text(text))
  }

  /** Bad-request answers for different names differ. */
  lemma BadHashIdentifiesName(a: string, b: string)
    requires BadHash(a) == BadHash(b)
    ensures a == b
  {
    var p := "invalid hash: ";
    assert a == (p + a)[|p|..];
    assert b == (p + b)[|p|..];
  }

  /** The answer to a well-formed name of an object the cache does not hold. */
  function NotFound(hash: Hash): (r: Response)
    ensures r.status == StatusNotFound && r.headers == [] && r.body.Text?
    ensures EndsWith(r.body.text, Hex(hash))
  {
    var text := "no such object: " + Hex(hash);
    assert text[|text| - |Hex(hash)|..] == Hex(hash);
    Response(StatusNotFound, [], Text(text))
  }

  /** The answer carrying an object. */
  function Der(data: seq<byte>): Response
  {
    Response(StatusOk, [("content-type", DerContentType)], Octets(data))
  }

  /** The answer to an unsupported algorithm, as the handler builds it: the
      message is a plain literal, so the placeholder `{alg}` is sent as it
      stands and the rejected name is never reported. */
  function UnsupportedAlgorithmAsWritten(alg: string): (r: Response)
    ensures r.status == StatusBadRequest && r.headers == [] && r.body.Text?
  {
    Response(StatusBadRequest, [], Text("unsupported hashing algorithm: {alg}"))
  }

  /** As written, every unsupported algorithm gets the same answer, and the
      answer to a request for "md5" does not name "md5". */
  lemma AsWrittenDoesNotNameAlgorithm(a: string, b: string)
    ensures UnsupportedAlgorithmAsWritten(a) == UnsupportedAlgorithmAsWritten(b)
    ensures UnsupportedAlgorithmAsWritten("md5") != UnsupportedAlgorithm("md5")
  {
    var t := UnsupportedAlgorithmAsWritten("md5").body.text;
    assert t[31] == '{';
  }

  /** The answer to an unsupported algorithm, with the algorithm's name
      interpolated as the message evidently intends. */
  function UnsupportedAlgorithm(alg: string): (r: Response)
    ensures r.status == UnsupportedAlgorithmAsWritten(alg).status
    ensures r.headers == UnsupportedAlgorithmAsWritten(alg).headers
    ensures r.body.Text? && EndsWith(r.body.text, alg)
  {
    var text := "unsupported hashing algorithm: " + alg;
    assert text[|text| - |alg|..] == alg;
    Response(StatusBadRequest, [], Text(text))
  }

  /** Different unsupported algorithms get different answers. */
  lemma UnsupportedAlgorithmIsReported(a: string, b: string)
    requires UnsupportedAlgorithm(a) == UnsupportedAlgorithm(b)
    ensures a == b
  {
    var p := "unsupported hashing algorithm: ";
    assert a == (p + a)[|p|..];
    assert b == (p + b)[|p|..];
  }

  /** The answer to a SHA-256 name: the object when the name decodes to a
      hash the cache holds, "not found" for another 32-octet value, and a bad
      request for any text that is not the encoding of 32 octets. */
  function ServeHash(val: string, elements: map<Hash, Element>): (r: Response)
    ensures r.status == StatusOk || r.status == StatusBadRequest || r.status == StatusNotFound
    ensures Base64Url.Decode(val).None? || |Base64Url.Decode(val).value| != HashLen ==> r == BadHash(val)
    ensures r.status == StatusOk ==>
      && r.headers == [("content-type", DerContentType)]
      && r.body.Octets?
      && exists h :: h in elements && r.body.data == elements[h].data
    ensures r.status == StatusNotFound ==> r.body.Text?
  {
    match Base64Url.Decode(val)
    case None => BadHash(val)
    case Some(h) =>
      if |h| == HashLen then
        var hash: Hash := h;
        if hash in elements then Der(elements[hash].data) else NotFound(hash)
      else
        BadHash(val)
  }

  /** The handler for `/.well-known/ni/{alg}/{val}`, given the cached objects
      by hash, as written: an unsupported algorithm gets the literal message. */
  function NamedInformation(alg: string, val: string, elements: map<Hash, Element>): (r: Response)
    ensures alg != Sha256Name ==> r == UnsupportedAlgorithmAsWritten(alg)
    ensures alg != Sha256Name ==> r.body == Text("unsupported hashing algorithm: {alg}")
    ensures alg == Sha256Name && (Base64Url.Decode(val).None? || |Base64Url.Decode(val).value| != HashLen) ==>
      r == BadHash(val)
    ensures r.status == StatusOk || r.status == StatusBadRequest || r.status == StatusNotFound
    ensures r.status == StatusOk ==>
      && r.headers == [("content-type", DerContentType)]
      && r.body.Octets?
      && exists h :: h in elements && r.body.data == elements[h].data
    ensures r.status == StatusNotFound ==> alg == Sha256Name && r.body.Text?
  {
    if alg != Sha256Name then UnsupportedAlgorithmAsWritten(alg)
    else ServeHash(val, elements)
  }

  /** The handler as evidently intended: the same, except that an unsupported
      algorithm is named in the answer. */
  function NamedInformationIntended(alg: string, val: string, elements: map<Hash, Element>): (r: Response)
    ensures alg != Sha256Name ==> r == UnsupportedAlgorithm(alg)
    ensures alg == Sha256Name ==> r == NamedInformation(alg, val, elements)
  {
    if alg != Sha256Name then UnsupportedAlgorithm(alg)
    else ServeHash(val, elements)
  }

  /** The two handlers differ only in the text of the unsupported-algorithm
      answer: status and headers always agree, and the answers differ for every
      unsupported algorithm except the one spelled "{alg}", whose interpolated
      message happens to be the literal. */
  lemma IntendedDiffersOnlyInMessage(alg: string, val: string, elements: map<Hash, Element>)
    ensures NamedInformationIntended(alg, val, elements).status == NamedInformation(alg, val, elements).status
    ensures NamedInformationIntended(alg, val, elements).headers == NamedInformation(alg, val, elements).headers
    ensures NamedInformationIntended(alg, val, elements) == NamedInformation(alg, val, elements)
        <==> alg == Sha256Name || alg == "{alg}"
  {
    if alg != Sha256Name {
      var p := "unsupported hashing algorithm: ";
      var t := UnsupportedAlgorithm(alg).body.text;
      assert t == p + alg;
      if t == p + "{alg}" {
        assert alg == t[|p|..] == "{alg}";
      }
    }
  }

  /** Every hash has a name that reaches it: the name a client builds by
      encoding the hash returns the object when it is held and "not found",
      citing the hash in hex, when it is not. */
  lemma ServesEveryObject(h: Hash, elements: map<Hash, Element>)
    ensures h in elements ==>
      NamedInformation(Sha256Name, Base64Url.Encode(h), elements) == Der(elements[h].data)
    ensures h !in elements ==>
      NamedInformation(Sha256Name, Base64Url.Encode(h), elements) == NotFound(h)
  {
    Base64Url.DecodeEncode(h);
  }

  /** A request is not rejected exactly when it asks for SHA-256 and its
      name is the encoding of some hash; other spellings (padding, foreign
      characters, stray trailing bits, a different length) are bad requests. */
  lemma OnlyCanonicalNamesAccepted(alg: string, val: string, elements: map<Hash, Element>)
    ensures NamedInformation(alg, val, elements).status != StatusBadRequest
        <==> alg == Sha256Name && exists h: Hash :: val == Base64Url.Encode(h)
  {
    if alg == Sha256Name {
      if exists h: Hash :: val == Base64Url.Encode(h) {
        var h: Hash :| val == Base64Url.Encode(h);
        ServesEveryObject(h, elements);
      }
      if NamedInformation(alg, val, elements).status != StatusBadRequest {
        var b := Base64Url.Decode(val).value;
        Base64Url.EncodeDecode(val);
        var h: Hash := b;
        assert val == Base64Url.Encode(h);
      }
    }
  }

  /** "Not found" answers for different hashes differ. */
  lemma NotFoundIdentifiesHash(a: Hash, b: Hash)
    requires NotFound(a) == NotFound(b)
    ensures a == b
  {
    var p := "no such object: ";
    assert Hex(a) == (p + Hex(a))[|p|..];
    assert Hex(b) == (p + Hex(b))[|p|..];
    HexInjective(a, b);
  }
}

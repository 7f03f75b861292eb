/**
  The "base64url" encoding of section 5 of RFC 4648, without padding and with
  strict decoding: only the 64 characters of the URL-safe alphabet are
  accepted, a final group of a single character is rejected, and the unused
  low bits of a final partial group must be zero. Named-information names of
  objects (RFC 6920) carry their SHA-256 hash in this form.
 */
module Base64Url {
  import opened Base

  /** A six-bit value, one character of the encoding. */
  type Sextet = v: int | 0 <= v < 64

  predicate InAlphabet(c: char)
  {
    ('A' <= c <= 'Z') || ('a' <= c <= 'z') || ('0' <= c <= '9') || c == '-' || c == '_'
  }

  /** Table 2 of RFC 4648. */
  function CharOf(v: Sextet): (c: char)
    ensures InAlphabet(c)
  {
    if v < 26 then ('A' as int + v) as char
    else if v < 52 then ('a' as int + (v - 26)) as char
    else if v < 62 then ('0' as int + (v - 52)) as char
    else if v == 62 then '-'
    else '_'
  }

  /** The value a character of the alphabet stands for. */
  function ValueOf(c: char): (v: Sextet)
    requires InAlphabet(c)
    ensures CharOf(v) == c
  {
    if 'A' <= c <= 'Z' then c as int - 'A' as int
    else if 'a' <= c <= 'z' then c as int - 'a' as int + 26
    else if '0' <= c <= '9' then c as int - '0' as int + 52
    else if c == '-' then 62
    else 63
  }

  lemma ValueOfCharOf(v: Sextet)
    ensures ValueOf(CharOf(v)) == v
  {
  }

  /** The four sextets of a group of three octets: `b0` `b1` `b2` split into
      6 + 2, 4 + 4 and 2 + 6 bits. */
  function Sextet0(b0: byte): Sextet { b0 / 4 }
  function Sextet1(b0: byte, b1: byte): Sextet { b0 % 4 * 16 + b1 / 16 }
  function Sextet2(b1: byte, b2: byte): Sextet { b1 % 16 * 4 + b2 / 64 }
  function Sextet3(b2: byte): Sextet { b2 % 64 }

  /** The three octets of a group of four sextets. */
  function Octet0(v0: Sextet, v1: Sextet): byte { v0 * 4 + v1 / 16 }
  function Octet1(v1: Sextet, v2: Sextet): byte { v1 % 16 * 16 + v2 / 4 }
  function Octet2(v2: Sextet, v3: Sextet): byte { v2 % 4 * 64 + v3 }

  lemma OctetsOfSextets(b0: byte, b1: byte, b2: byte)
    ensures Octet0(Sextet0(b0), Sextet1(b0, b1)) == b0
    ensures Octet1(Sextet1(b0, b1), Sextet2(b1, b2)) == b1
    ensures Octet2(Sextet2(b1, b2), Sextet3(b2)) == b2
    ensures Sextet1(b0, 0) % 16 == 0 && Sextet2(b1, 0) % 4 == 0
  {
  }

  lemma SextetsOfOctets(v0: Sextet, v1: Sextet, v2: Sextet, v3: Sextet)
    ensures Sextet0(Octet0(v0, v1)) == v0
    ensures Sextet1(Octet0(v0, v1), Octet1(v1, v2)) == v1
    ensures Sextet2(Octet1(v1, v2), Octet2(v2, v3)) == v2
    ensures Sextet3(Octet2(v2, v3)) == v3
    ensures v1 % 16 == 0 ==> Sextet1(Octet0(v0, v1), 0) == v1
    ensures v2 % 4 == 0 ==> Sextet2(Octet1(v1, v2), 0) == v2
  {
  }

  /** Encodes octets three at a time into four characters; a final one or two
      octets become two or three characters, with zero bits filling the last. */
  function Encode(b: seq<byte>): (s: string)
    ensures |s| == (4 * |b| + 2) / 3
    ensures forall i :: 0 <= i < |s| ==> InAlphabet(s[i])
    decreases |b|
  {
    if |b| == 0 then ""
    else if |b| == 1 then [CharOf(Sextet0(b[0])), CharOf(Sextet1(b[0], 0))]
    else if |b| == 2 then
      [CharOf(Sextet0(b[0])), CharOf(Sextet1(b[0], b[1])), CharOf(Sextet2(b[1], 0))]
    else
      [CharOf(Sextet0(b[0])), CharOf(Sextet1(b[0], b[1])),
       CharOf(Sextet2(b[1], b[2])), CharOf(Sextet3(b[2]))]
      + Encode(b[3..])
  }

  /** Decodes four characters at a time into three octets; a final two or
      three characters yield one or two octets when their unused bits are zero.
      Anything else (a character outside the alphabet, padding, a lone final
      character, non-zero unused bits) is rejected. */
  function Decode(s: string): (r: Option<seq<byte>>)
    ensures r.Some? ==> |r.value| == 3 * |s| / 4
    ensures r.Some? ==> forall i :: 0 <= i < |s| ==> InAlphabet(s[i])
    ensures |s| % 4 == 1 ==> r.None?
    decreases |s|
  {
    if |s| == 0 then Some([])
    else if |s| == 1 || !InAlphabet(s[0]) || !InAlphabet(s[1]) then None
    else
      var v0, v1 := ValueOf(s[0]), ValueOf(s[1]);
      if |s| == 2 then
        if v1 % 16 == 0 then Some([Octet0(v0, v1)]) else None
      else if !InAlphabet(s[2]) then None
      else
        var v2 := ValueOf(s[2]);
        if |s| == 3 then
          if v2 % 4 == 0 then Some([Octet0(v0, v1), Octet1(v1, v2)]) else None
        else if !InAlphabet(s[3]) then None
        else
          var v3 := ValueOf(s[3]);
          match Decode(s[4..])
          case None => None
          case Some(rest) =>
            assert forall i :: 4 <= i < |s| ==> s[i] == s[4..][i - 4];
            Some([Octet0(v0, v1), Octet1(v1, v2), Octet2(v2, v3)] + rest)
  }

  /** The characters naming one to three octets. */
  function EncodeGroup(b: seq<byte>): (s: string)
    requires 1 <= |b| <= 3
  {
    if |b| == 1 then [CharOf(Sextet0(b[0])), CharOf(Sextet1(b[0], 0))]
    else if |b| == 2 then
      [CharOf(Sextet0(b[0])), CharOf(Sextet1(b[0], b[1])), CharOf(Sextet2(b[1], 0))]
    else
      [CharOf(Sextet0(b[0])), CharOf(Sextet1(b[0], b[1])),
       CharOf(Sextet2(b[1], b[2])), CharOf(Sextet3(b[2]))]
  }

  lemma DecodeOneOctet(b0: byte)
    ensures Decode(EncodeGroup([b0])) == Some([b0])
  {
    var s := EncodeGroup([b0]);
    OctetsOfSextets(b0, 0, 0);
    ValueOfCharOf(Sextet0(b0));
    ValueOfCharOf(Sextet1(b0, 0));
    assert ValueOf(s[0]) == Sextet0(b0) && ValueOf(s[1]) == Sextet1(b0, 0);
  }

  lemma DecodeTwoOctets(b0: byte, b1: byte)
    ensures Decode(EncodeGroup([b0, b1])) == Some([b0, b1])
  {
    var s := EncodeGroup([b0, b1]);
    OctetsOfSextets(b0, b1, 0);
    ValueOfCharOf(Sextet0(b0));
    ValueOfCharOf(Sextet1(b0, b1));
    ValueOfCharOf(Sextet2(b1, 0));
    assert ValueOf(s[0]) == Sextet0(b0) && ValueOf(s[1]) == Sextet1(b0, b1);
    assert ValueOf(s[2]) == Sextet2(b1, 0);
  }

  lemma DecodeFullGroup(b: seq<byte>, rest: string)
    requires |b| == 3
    ensures Decode(EncodeGroup(b) + rest) ==
      if Decode(rest).Some? then Some(b + Decode(rest).value) else None
  {
    var s := EncodeGroup(b) + rest;
    OctetsOfSextets(b[0], b[1], b[2]);
    ValueOfCharOf(Sextet0(b[0]));
    ValueOfCharOf(Sextet1(b[0], b[1]));
    ValueOfCharOf(Sextet2(b[1], b[2]));
    ValueOfCharOf(Sextet3(b[2]));
    assert s[4..] == rest;
    assert b == [b[0], b[1], b[2]];
  }

  lemma EncodeSplits(b: seq<byte>)
    requires |b| > 0
    ensures |b| <= 2 ==> Encode(b) == EncodeGroup(b)
    ensures |b| > 2 ==> Encode(b) == EncodeGroup(b[..3]) + Encode(b[3..])
  {
  }

  /** Decoding undoes encoding. */
  lemma {:induction false} DecodeEncode(b: seq<byte>)
    ensures Decode(Encode(b)) == Some(b)
    decreases |b|
  {
    if |b| == 1 {
      EncodeSplits(b);
      DecodeOneOctet(b[0]);
      assert b == [b[0]];
    } else if |b| == 2 {
      EncodeSplits(b);
      DecodeTwoOctets(b[0], b[1]);
      assert b == [b[0], b[1]];
    } else if |b| > 2 {
      EncodeSplits(b);
      DecodeEncode(b[3..]);
      DecodeFullGroup(b[..3], Encode(b[3..]));
      assert b == b[..3] + b[3..];
    }
  }

  lemma ShortSeq<T>(s: seq<T>)
    ensures |s| == 2 ==> s == [s[0], s[1]]
    ensures |s| == 3 ==> s == [s[0], s[1], s[2]]
  {
  }

  /** The characters of a group are the encoding of the octets they decode to. */
  lemma GroupOfChars(s: string)
    requires 2 <= |s| <= 4 && forall i :: 0 <= i < |s| ==> InAlphabet(s[i])
    ensures |s| == 2 && ValueOf(s[1]) % 16 == 0 ==>
      s == EncodeGroup([Octet0(ValueOf(s[0]), ValueOf(s[1]))])
    ensures |s| == 3 && ValueOf(s[2]) % 4 == 0 ==>
      s == EncodeGroup([Octet0(ValueOf(s[0]), ValueOf(s[1])), Octet1(ValueOf(s[1]), ValueOf(s[2]))])
    ensures |s| == 4 ==>
      s == EncodeGroup([Octet0(ValueOf(s[0]), ValueOf(s[1])), Octet1(ValueOf(s[1]), ValueOf(s[2])),
                        Octet2(ValueOf(s[2]), ValueOf(s[3]))])
  {
    var v0, v1 := ValueOf(s[0]), ValueOf(s[1]);
    if |s| == 2 {
      SextetsOfOctets(v0, v1, 0, 0);
      ShortSeq(s);
    } else if |s| == 3 {
      var v2 := ValueOf(s[2]);
      SextetsOfOctets(v0, v1, v2, 0);
      ShortSeq(s);
    } else {
      var v2, v3 := ValueOf(s[2]), ValueOf(s[3]);
      SextetsOfOctets(v0, v1, v2, v3);
      assert s == [s[0], s[1], s[2], s[3]];
    }
  }

  /** An accepted text of two or three characters is the encoding of what it
      decodes to. */
  lemma EncodeShortGroup(s: string)
    requires Decode(s).Some? && 2 <= |s| <= 3
    ensures s == EncodeGroup(Decode(s).value)
  {
    GroupOfChars(s);
  }

  /** An accepted text of four characters or more decodes group by group. */
  lemma DecodeFirstGroup(s: string)
    requires Decode(s).Some? && |s| >= 4
    ensures Decode(s[4..]).Some?
    ensures |Decode(s).value| >= 3
    ensures Decode(s).value[3..] == Decode(s[4..]).value
    ensures s[..4] == EncodeGroup(Decode(s).value[..3])
  {
    var v0, v1, v2, v3 := ValueOf(s[0]), ValueOf(s[1]), ValueOf(s[2]), ValueOf(s[3]);
    var b := Decode(s).value;
    assert b[..3] == [Octet0(v0, v1), Octet1(v1, v2), Octet2(v2, v3)];
    GroupOfChars(s[..4]);
  }

  /** Encoding undoes decoding: every accepted text is the encoding of what it
      decodes to, so each octet string has exactly one accepted name. */
  lemma {:induction false} EncodeDecode(s: string)
    requires Decode(s).Some?
    ensures Encode(Decode(s).value) == s
    decreases |s|
  {
    if 0 < |s| <= 3 {
      EncodeShortGroup(s);
      EncodeSplits(Decode(s).value);
    } else if |s| > 3 {
      DecodeFirstGroup(s);
      EncodeDecode(s[4..]);
      EncodeSplits(Decode(s).value);
      assert s == s[..4] + s[4..];
    }
  }

  /** Two accepted texts that decode to the same octets are the same text. */
  lemma DecodeInjective(s: string, t: string)
    requires Decode(s).Some? && Decode(s) == Decode(t)
    ensures s == t
  {
    EncodeDecode(s);
    EncodeDecode(t);
  }

  /** A SHA-256 hash is named by 43 characters, and only texts of that length
      decode to 32 octets. */
  lemma HashNameLength(h: Hash, s: string)
    ensures |Encode(h)| == 43
    ensures Decode(s).Some? && |Decode(s).value| == HashLen ==> |s| == 43
  {
    if Decode(s).Some? && |Decode(s).value| == HashLen {
      EncodeDecode(s);
    }
  }
}

/** The external time-stamp responses: DER framing, the digest scan, and the chunked HTTP body. */
module TsaResponse {
  import opened Digests

  // ------------------------------------------------------------------ searching

  predicate OccursAt(haystack: seq<Byte>, needle: seq<Byte>, i: nat) {
    i + |needle| <= |haystack| && haystack[i..i + |needle|] == needle
  }

  /** The first position at or after `i` where the needle occurs. */
  function FindFrom(haystack: seq<Byte>, needle: seq<Byte>, i: nat): (r: Option<nat>)
    ensures r.Some? ==> i <= r.value && OccursAt(haystack, needle, r.value)
    ensures forall j | i <= j < (if r.Some? then r.value else |haystack| + 1) :: !OccursAt(haystack, needle, j)
    decreases |haystack| + 1 - i
  {
    if i + |needle| > |haystack| then None
    else if haystack[i..i + |needle|] == needle then Some(i)
    else FindFrom(haystack, needle, i + 1)
  }

  /** The first occurrence of a non-empty needle. */
  function FindSubsequence(haystack: seq<Byte>, needle: seq<Byte>): (r: Option<nat>)
    ensures r.Some? ==> needle != [] && r.value + |needle| <= |haystack| && OccursAt(haystack, needle, r.value)
    ensures r.Some? ==> forall j | 0 <= j < r.value :: !OccursAt(haystack, needle, j)
    ensures r.None? && needle != [] ==> forall j: nat :: !OccursAt(haystack, needle, j)
  {
    if needle == [] || |haystack| < |needle| then None else FindFrom(haystack, needle, 0)
  }

  // ------------------------------------------------------------------ DER framing

  datatype Tlv = Tlv(tag: Byte, value: seq<Byte>, rawLen: nat)

  function BigEndian(bytes: seq<Byte>): nat {
    if bytes == [] then 0 else BigEndian(bytes[..|bytes| - 1]) * 256 + bytes[|bytes| - 1]
  }

  /** Content length and header length of a definite-length header; none for the indefinite form and for
      more than four length bytes. */
  function DerHeader(bytes: seq<Byte>): Option<(nat, nat)>
    requires |bytes| >= 2
  {
    var first := bytes[1];
    if first <= 0x7f then Some((first, 2))
    else if first == 0x81 && |bytes| >= 3 then Some((bytes[2], 3))
    else if first == 0x82 && |bytes| >= 4 then Some((BigEndian(bytes[2..4]), 4))
    else if first == 0x83 && |bytes| >= 5 then Some((BigEndian([0] + bytes[2..5]), 5))
    else if first == 0x84 && |bytes| >= 6 then Some((BigEndian(bytes[2..6]), 6))
    else None
  }

  function DerTlv(bytes: seq<Byte>): (r: Option<Tlv>)
    ensures r.Some? ==> 2 <= r.value.rawLen <= |bytes|
  {
    if |bytes| < 2 then None
    else
      match DerHeader(bytes)
      case None => None
      case Some((contentLen, headerLen)) =>
        var total := headerLen + contentLen;
        if |bytes| < total then None
        else Some(Tlv(bytes[0], bytes[headerLen..total], total))
  }

  /** The length octets of section 8.1.3 of X.690: one byte below 128, or a count of one to four bytes and
      the length in big-endian order, not necessarily the shortest. */
  predicate IsLength(octets: seq<Byte>, n: nat) {
    || (|octets| == 1 && octets[0] == n <= 0x7f)
    || (2 <= |octets| <= 5 && octets[0] == 0x80 + (|octets| - 1) && BigEndian(octets[1..]) == n)
  }

  lemma {:induction false} LeadingZero(b: seq<Byte>)
    ensures BigEndian([0] + b) == BigEndian(b)
  {
    if b != [] {
      LeadingZero(b[..|b| - 1]);
      assert ([0] + b)[..|b|] == [0] + b[..|b| - 1];
    }
  }

  lemma BigEndianOfOne(b: Byte)
    ensures BigEndian([b]) == b
  {
  }

  /** The header only depends on the length octets. */
  lemma HeaderOf(bytes: seq<Byte>, octets: seq<Byte>)
    requires 1 <= |octets| < |bytes| && bytes[1..1 + |octets|] == octets
    ensures forall n: nat | IsLength(octets, n) :: DerHeader(bytes) == Some((n, 1 + |octets|))
    ensures DerHeader(bytes).Some? && DerHeader(bytes).value.1 == 1 + |octets| ==>
              IsLength(octets, DerHeader(bytes).value.0)
  {
    assert octets[0] == bytes[1];
    BigEndianOfOne(bytes[if |bytes| >= 3 then 2 else 0]);
    assert |octets| == 2 ==> octets[1..] == [bytes[2]];
    assert 2 <= |octets| <= 5 ==> octets[1..] == bytes[2..1 + |octets|];
    LeadingZero(octets[1..]);
  }

  /** The reader accepts exactly the definite-length encodings with up to four length bytes, and returns
      their tag, content and size; what follows does not matter. */
  lemma DerReads(tag: Byte, octets: seq<Byte>, value: seq<Byte>, rest: seq<Byte>)
    requires IsLength(octets, |value|)
    ensures DerTlv([tag] + octets + value + rest) == Some(Tlv(tag, value, 1 + |octets| + |value|))
  {
    hide DerHeader;
    var bytes := [tag] + octets + value + rest;
    HeaderOf(bytes, octets);
    assert bytes[1 + |octets|..1 + |octets| + |value|] == value;
  }

  /** The converse: whatever is read was encoded that way. */
  lemma DerReadsOnly(bytes: seq<Byte>) returns (octets: seq<Byte>)
    requires DerTlv(bytes).Some?
    ensures var t := DerTlv(bytes).value;
            && IsLength(octets, |t.value|) && t.rawLen == 1 + |octets| + |t.value|
            && bytes == [t.tag] + octets + t.value + bytes[t.rawLen..]
  {
    HeaderBounds(bytes);
    hide DerHeader, IsLength;
    octets := bytes[1..DerHeader(bytes).value.1];
    HeaderOf(bytes, octets);
  }

  lemma HeaderBounds(bytes: seq<Byte>)
    requires |bytes| >= 2 && DerHeader(bytes).Some?
    ensures 2 <= DerHeader(bytes).value.1 <= |bytes|
  {
  }

  // ------------------------------------------------------------------ the response check

  datatype ResponseError = NoTopLevel | TopLevelNotSequence | NoStatusInfo | NotStatusInfo | DigestMissing

  /** The framing that is checked: a top-level SEQUENCE whose first element is a SEQUENCE. */
  function Framing(der: seq<Byte>): Option<ResponseError> {
    match DerTlv(der)
    case None => Some(NoTopLevel)
    case Some(top) =>
      if top.tag != 0x30 then Some(TopLevelNotSequence)
      else
        match DerTlv(top.value)
        case None => Some(NoStatusInfo)
        case Some(status) => if status.tag != 0x30 then Some(NotStatusInfo) else None
  }

  /** The digest as a DER octet string. */
  function Imprint(digest: Hash): (s: seq<Byte>)
    ensures |s| == 34
  {
    [0x04, 0x20] + digest.bytes
  }

  /** The response carries the digest, anywhere in its bytes, as a 32-byte octet string. */
  ghost predicate Carries(der: seq<Byte>, digest: Hash) {
    exists i: nat :: OccursAt(der, Imprint(digest), i)
  }

  lemma ImprintAt(der: seq<Byte>, digest: Hash, i: nat)
    requires i + 34 <= |der|
    ensures OccursAt(der, Imprint(digest), i)
            <==> der[i] == 0x04 && der[i + 1] == 0x20 && der[i + 2..i + 34] == digest.bytes
  {
  }

  // ------------------------------------------------------------------ what framing means

  /** The bytes start with an element of that tag and that content, whatever follows it. */
  ghost predicate HasElement(bytes: seq<Byte>, tag: Byte, value: seq<Byte>) {
    exists octets, rest :: IsLength(octets, |value|) && bytes == [tag] + octets + value + rest
  }

  /** The reader finds exactly the elements that the bytes start with. */
  lemma ElementExactly(bytes: seq<Byte>, tag: Byte, value: seq<Byte>)
    ensures HasElement(bytes, tag, value)
            <==> DerTlv(bytes).Some? && DerTlv(bytes).value.tag == tag && DerTlv(bytes).value.value == value
  {
    hide DerTlv, IsLength;
    if HasElement(bytes, tag, value) {
      var octets, rest :| IsLength(octets, |value|) && bytes == [tag] + octets + value + rest;
      DerReads(tag, octets, value, rest);
    }
    if DerTlv(bytes).Some? && DerTlv(bytes).value.tag == tag && DerTlv(bytes).value.value == value {
      var octets := DerReadsOnly(bytes);
    }
  }

  /** A SEQUENCE whose content starts with a SEQUENCE, whatever else is in it and behind it. */
  ghost predicate IsTimeStampResp(der: seq<Byte>) {
    exists content, status :: HasElement(der, 0x30, content) && HasElement(content, 0x30, status)
  }

  /** Exactly when which part of the framing is missed. */
  lemma FramingExactly(der: seq<Byte>)
    ensures Framing(der) == None <==> IsTimeStampResp(der)
    ensures Framing(der) == Some(NoTopLevel) <==> forall tag, content :: !HasElement(der, tag, content)
    ensures Framing(der) == Some(TopLevelNotSequence)
            <==> exists tag, content :: tag != 0x30 && HasElement(der, tag, content)
    ensures Framing(der) == Some(NoStatusInfo)
            <==> exists content :: HasElement(der, 0x30, content) && forall t, v :: !HasElement(content, t, v)
    ensures Framing(der) == Some(NotStatusInfo)
            <==> exists content, t, v :: HasElement(der, 0x30, content) && t != 0x30 && HasElement(content, t, v)
  {
    hide DerTlv, HasElement;
    forall bytes, tag, value
      ensures HasElement(bytes, tag, value)
              <==> DerTlv(bytes).Some? && DerTlv(bytes).value.tag == tag && DerTlv(bytes).value.value == value
    {
      ElementExactly(bytes, tag, value);
    }
    if DerTlv(der).Some? {
      var top := DerTlv(der).value;
      assert HasElement(der, top.tag, top.value);
      if DerTlv(top.value).Some? {
        var status := DerTlv(top.value).value;
        assert HasElement(top.value, status.tag, status.value);
      }
    }
  }

  lemma Framed(der: seq<Byte>)
    ensures Framing(der) == None <==> IsTimeStampResp(der)
  {
    hide Framing, IsTimeStampResp;
    FramingExactly(der);
  }

  lemma CarriedAt(der: seq<Byte>, digest: Hash, i: nat)
    requires OccursAt(der, Imprint(digest), i)
    ensures Carries(der, digest)
  {
  }

  lemma CarriedNowhere(der: seq<Byte>, digest: Hash, end: nat)
    requires end + 34 > |der| && forall i: nat | i < end :: !OccursAt(der, Imprint(digest), i)
    ensures !Carries(der, digest)
  {
  }

  /** A response is accepted exactly if it is framed and carries the digest; otherwise the first check it misses is
      reported. */
  method VerifyTimestampResponse(der: seq<Byte>, digest: Hash) returns (error: Option<ResponseError>)
    ensures error.None? <==> IsTimeStampResp(der) && Carries(der, digest)
    ensures error == Some(DigestMissing) <==> IsTimeStampResp(der) && !Carries(der, digest)
    ensures error
         == if Framing(der).Some? then Framing(der) else if Carries(der, digest) then None else Some(DigestMissing)
  {
    hide IsTimeStampResp, HasElement, Carries;
    Framed(der);
    var top := DerTlv(der);
    if top.None? {
      return Some(NoTopLevel);
    }
    if top.value.tag != 0x30 {
      return Some(TopLevelNotSequence);
    }
    var status := DerTlv(top.value.value);
    if status.None? {
      return Some(NoStatusInfo);
    }
    if status.value.tag != 0x30 {
      return Some(NotStatusInfo);
    }
    var offset := 0;
    while offset + 34 <= |der|
      invariant forall i: nat | i < offset :: !OccursAt(der, Imprint(digest), i)
    {
      ImprintAt(der, digest, offset);
      if der[offset] == 0x04 && der[offset + 1] == 0x20 && der[offset + 2..offset + 34] == digest.bytes {
        CarriedAt(der, digest, offset);
        return None;
      }
      offset := offset + 1;
    }
    CarriedNowhere(der, digest, offset);
    return Some(DigestMissing);
  }

  /** The digest alone, as a DER octet string, is refused. */
  lemma BareDigestRefused(digest: Hash, trailing: seq<Byte>)
    ensures Framing(Imprint(digest) + trailing) == Some(TopLevelNotSequence)
  {
    hide DerTlv;
    DerReads(0x04, [0x20], digest.bytes, trailing);
    assert [0x04] + [0x20] + digest.bytes + trailing == Imprint(digest) + trailing;
  }

  /** A request that is sent back is refused: a SEQUENCE that starts with the version number, of whatever length. */
  lemma EchoRefused(octets: seq<Byte>, request: seq<Byte>, trailing: seq<Byte>)
    requires IsLength(octets, |[0x02, 0x01, 0x01] + request|)
    ensures Framing([0x30] + octets + ([0x02, 0x01, 0x01] + request) + trailing) == Some(NotStatusInfo)
  {
    hide DerTlv;
    var content: seq<Byte> := [0x02, 0x01, 0x01] + request;
    DerReads(0x30, octets, content, trailing);
    DerReads(0x02, [0x01], [0x01], request);
    assert [0x02] + [0x01] + [0x01] + request == content;
  }

  /** A framed response with an empty status and two digests. */
  function TwoImprints(d1: Hash, d2: Hash): (der: seq<Byte>)
    ensures |der| == 72
  {
    [0x30, 70, 0x30, 0] + Imprint(d1) + Imprint(d2)
  }

  /** The scan does not look at where the digest stands: one and the same response is accepted for any two
      digests it happens to carry. */
  lemma AcceptedForTwoDigests(d1: Hash, d2: Hash)
    ensures Framing(TwoImprints(d1, d2)).None?
    ensures Carries(TwoImprints(d1, d2), d1) && Carries(TwoImprints(d1, d2), d2)
  {
    var der := TwoImprints(d1, d2);
    TwoImprintsFramed(d1, d2);
    assert der[4..38] == Imprint(d1) && der[38..72] == Imprint(d2);
    assert OccursAt(der, Imprint(d1), 4) && OccursAt(der, Imprint(d2), 38);
  }

  /** A 32-byte octet string stands at `i`, or bytes that look like one. */
  predicate LooksLikeDigest(der: seq<Byte>, i: nat) {
    i + 34 <= |der| && der[i] == 0x04 && der[i + 1] == 0x20
  }

  function DigestThere(der: seq<Byte>, i: nat): Hash
    requires LooksLikeDigest(der, i)
  {
    Hash(der[i + 2..i + 34])
  }

  /** The digests a response is accepted for are those behind the bytes 04 20. */
  lemma CarriesExactly(der: seq<Byte>, digest: Hash)
    ensures Carries(der, digest) <==> exists i: nat :: LooksLikeDigest(der, i) && DigestThere(der, i) == digest
  {
    forall i: nat
      ensures OccursAt(der, Imprint(digest), i) <==> LooksLikeDigest(der, i) && DigestThere(der, i) == digest
    {
      if i + 34 <= |der| {
        ImprintAt(der, digest, i);
      }
    }
  }

  /** A framed response is accepted for at most one digest if and only if the same 32 bytes follow all of its
      occurrences of 04 20 that have 32 bytes behind them. */
  lemma OneDigestExactly(der: seq<Byte>)
    ensures (forall d1, d2 | Carries(der, d1) && Carries(der, d2) :: d1 == d2)
            <==> forall i: nat, j: nat | LooksLikeDigest(der, i) && LooksLikeDigest(der, j) ::
                   der[i + 2..i + 34] == der[j + 2..j + 34]
  {
    hide Carries;
    forall d ensures Carries(der, d) <==> exists i: nat :: LooksLikeDigest(der, i) && DigestThere(der, i) == d {
      CarriesExactly(der, d);
    }
    if forall d1, d2 | Carries(der, d1) && Carries(der, d2) :: d1 == d2 {
      forall i: nat, j: nat | LooksLikeDigest(der, i) && LooksLikeDigest(der, j)
        ensures der[i + 2..i + 34] == der[j + 2..j + 34]
      {
        assert Carries(der, DigestThere(der, i)) && Carries(der, DigestThere(der, j));
      }
    }
  }

  lemma TwoImprintsFramed(d1: Hash, d2: Hash)
    ensures Framing(TwoImprints(d1, d2)).None?
  {
    hide DerTlv, Imprint;
    var rest := Imprint(d1) + Imprint(d2);
    var content: seq<Byte> := [0x30] + [0] + [] + rest;
    DerReads(0x30, [0], [], rest);
    DerReads(0x30, [70], content, []);
    assert [0x30] + [70] + content + [] == TwoImprints(d1, d2);
  }
}

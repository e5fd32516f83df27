/** One submission to the time-stamping authority, and the view of its record beside a head. */
module Anchoring {
  import opened Bits
  import opened Digests
  import opened Records
  import opened TsaResponse
  import B64 = Base64

  const RETRY_AFTER_SECS: int := 60

  datatype Status = Anchored | Unreachable

  datatype TsaRecord = TsaRecord(
    treeSize: nat, digest: Hash, status: Status, tsaUrl: string,
    response: Option<seq<Byte>>, submittedAt: Timestamp, retryAt: Option<Timestamp>)

  /** A response that may be stored for a digest. */
  ghost predicate Binds(der: seq<Byte>, digest: Hash) {
    Framing(der).None? && Carries(der, digest)
  }

  function Degraded(digest: Hash, tsaUrl: string, now: Timestamp): TsaRecord {
    TsaRecord(0, digest, Unreachable, tsaUrl, None, now, Some(Timestamp(now.secs + RETRY_AFTER_SECS, 0)))
  }

  /** The outcome of a submission, given what came back over the network, if anything. */
  ghost function Outcome(digest: Hash, tsaUrl: string, now: Timestamp, reply: Option<seq<Byte>>): TsaRecord {
    if reply.Some? && Binds(reply.value, digest)
    then TsaRecord(0, digest, Anchored, tsaUrl, reply, now, None)
    else Degraded(digest, tsaUrl, now)
  }

  /** `submit_anchor`, with the network exchange as an input. */
  method SubmitAnchor(digest: Hash, tsaUrl: string, now: Timestamp, reply: Option<seq<Byte>>)
    returns (record: TsaRecord)
    ensures record == Outcome(digest, tsaUrl, now, reply)
  {
    if reply.None? {
      return Degraded(digest, tsaUrl, now);
    }
    var error := VerifyTimestampResponse(reply.value, digest);
    if error.Some? {
      return Degraded(digest, tsaUrl, now);
    }
    record := TsaRecord(0, digest, Anchored, tsaUrl, reply, now, None);
  }

  /** Everything that a submission leaves: the digest, authority and time of the submission, and either the reply that
      binds to the digest and nothing to retry, or no reply and a time to retry sixty seconds later. */
  lemma OutcomeExactly(digest: Hash, tsaUrl: string, now: Timestamp, reply: Option<seq<Byte>>)
    ensures var r := Outcome(digest, tsaUrl, now, reply);
            && r.digest == digest && r.tsaUrl == tsaUrl && r.submittedAt == now
            && if reply.Some? && IsTimeStampResp(reply.value) && Carries(reply.value, digest)
               then r.status == Anchored && r.response == reply && r.retryAt == None
               else r.status == Unreachable && r.response == None && r.retryAt == Some(Timestamp(now.secs + 60, 0))
  {
    hide IsTimeStampResp, Carries;
    if reply.Some? {
      Framed(reply.value);
    }
  }

  /** A record says `anchored` exactly if it holds a response, and then the response binds to its digest. */
  ghost predicate Honest(r: TsaRecord) {
    && (r.status == Anchored <==> r.response.Some?)
    && (r.response.Some? ==> Binds(r.response.value, r.digest))
    && (r.status == Unreachable ==> r.retryAt == Some(Timestamp(r.submittedAt.secs + RETRY_AFTER_SECS, 0)))
  }

  lemma OutcomeHonest(digest: Hash, tsaUrl: string, now: Timestamp, reply: Option<seq<Byte>>)
    ensures var r := Outcome(digest, tsaUrl, now, reply);
            Honest(r) && r.digest == digest && (r.status == Anchored <==> reply.Some? && Binds(reply.value, digest))
  {
  }

  datatype View = NotConfigured | Stale(anchoredTreeSize: nat) | Submission(record: TsaRecord)

  /** The external anchor shown with a head of `treeSize` entries. */
  function AnchorView(record: Option<TsaRecord>, treeSize: nat): View {
    match record
    case None => NotConfigured
    case Some(r) => if r.treeSize != treeSize then Stale(r.treeSize) else Submission(r)
  }

  /** The view beside a head says exactly what is stored: nothing, a record of another size, or this very record. */
  lemma ViewExactly(record: Option<TsaRecord>, treeSize: nat, r: TsaRecord, n: nat)
    ensures AnchorView(record, treeSize) == NotConfigured <==> record == None
    ensures AnchorView(record, treeSize) == Stale(n) <==> n != treeSize && record.Some? && record.value.treeSize == n
    ensures AnchorView(record, treeSize) == Submission(r) <==> record == Some(r) && r.treeSize == treeSize
  {
  }

  /** The response as the head view carries it decodes to the stored response, which binds to the shown digest. */
  method WireResponse(record: TsaRecord) returns (text: Option<string>)
    ensures text.Some? <==> record.response.Some?
    ensures text.Some? ==> B64.Decode(text.value) == record.response
    ensures Honest(record) && text.Some? ==> record.status == Anchored && Binds(record.response.value, record.digest)
  {
    if record.response.None? {
      return None;
    }
    var encoded := B64.Base64Text(record.response.value);
    text := Some(encoded);
  }

  function OptionalStr(text: Option<string>): Json {
    if text.None? then Null else Str(text.value)
  }

  /** `to_wire`: every field of the record, under its own name. */
  method RecordJson(f: Formats, record: TsaRecord) returns (view: Json)
    requires record.treeSize < TWO_TO_THE_64 && f.RoundTrip()
    ensures view.Obj?
    ensures GetStr(view.fields, "status")
         == Some(match record.status case Anchored => "anchored" case Unreachable => "unreachable")
    ensures GetStr(view.fields, "tsa_url") == Some(record.tsaUrl)
    ensures GetU64(view.fields, "tree_size") == Some(record.treeSize)
    ensures GetParsed(view.fields, "digest", f.parseHash) == Some(record.digest)
    ensures GetParsed(view.fields, "submitted_at", f.parseTime) == Some(record.submittedAt)
    ensures GetParsed(view.fields, "retry_at", f.parseTime) == record.retryAt
    ensures GetParsed(view.fields, "response", B64.Decode) == record.response
  {
    var response := WireResponse(record);
    var retryAt := if record.retryAt.None? then None else Some(f.printTime(record.retryAt.value));
    var status := match record.status case Anchored => "anchored" case Unreachable => "unreachable";
    view := Obj(map[
      "status" := Str(status),
      "tsa_url" := Str(record.tsaUrl),
      "tree_size" := UInt(record.treeSize),
      "digest" := Str(f.printHash(record.digest)),
      "submitted_at" := Str(f.printTime(record.submittedAt)),
      "retry_at" := OptionalStr(retryAt),
      "response" := OptionalStr(response)]);
  }
}

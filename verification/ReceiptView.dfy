/** The JSON view of a receipt, which carries all that an offline verifier needs. */
module ReceiptView {
  import opened Bits
  import opened Digests
  import opened Text
  import opened MerkleSpec
  import opened Records
  import opened HexBytes
  import opened Receipts
  import opened Wire
  import opened Offline

  /** What the operator says about its key. */
  datatype OperatorInfo = OperatorInfo(
    logId: string, suite: string, keyId: string, publicKey: seq<Byte>, fingerprint: string)

  function InfoJson(info: OperatorInfo): Json {
    Obj(map[
          "log_id" := Str(info.logId),
          "suite" := Str(info.suite),
          "key_id" := Str(info.keyId),
          "public_key_hex" := Str(Hex(info.publicKey)),
          "fingerprint" := Str(info.fingerprint)])
  }

  /** `Receipt::to_json`. */
  function ReceiptJson(w: WireFormats, h: Hashing, info: OperatorInfo, r: Receipt): Json
    requires r.inclusion.leafIndex < TWO_TO_THE_64 && r.inclusion.treeSize < TWO_TO_THE_64
    requires r.treeHead.treeSize < TWO_TO_THE_64
  {
    Obj(map[
          "receipt_id" := Str(Decimal(r.record.seqNo)),
          "log_id" := Str(r.logId),
          "seq" := UInt(r.record.seqNo),
          "subject" := Str(r.record.subject),
          "commitment" := Str(w.base.printHash(r.record.commitment)),
          "salt_ref" := SaltJson(r.record.saltRef),
          "logged_at" := Str(w.base.printTime(r.record.loggedAt)),
          "inclusion" := ProofJson(w.base, h, r.inclusion, r.record.commitment),
          "tree_head" := SthJson(w, r.treeHead),
          "operator" := InfoJson(info)])
  }

  /** What a verifier takes from a view. */
  datatype Parts = Parts(commitment: Hash, inclusion: InclusionProof, treeHead: SignedTreeHead, publicKey: seq<Byte>)

  /** The bytes of the key in the view, if it has one. */
  function KeyBytes(view: map<string, Json>): Option<seq<Byte>> {
    match Get(view, "operator")
    case Some(Obj(fields)) =>
      (match GetStr(fields, "public_key_hex")
       case None => None
       case Some(text) =>
         match HexDecode(text)
         case Decoded(bytes) => Some(bytes)
         case Rejected => None
         case Panicked => None)
    case _ => None
  }

  /** The view can be read, and these are its parts. */
  predicate Reads(w: WireFormats, view: Json, p: Parts) {
    && view.Obj?
    && GetParsed(view.fields, "commitment", w.base.parseHash) == Some(p.commitment)
    && Get(view.fields, "inclusion").Some? && SaysProof(w.base, view.fields["inclusion"], p.inclusion)
    && Get(view.fields, "tree_head").Some? && SthFromJson(w, view.fields["tree_head"]) == Ok(p.treeHead)
    && KeyBytes(view.fields) == Some(p.publicKey)
  }

  /** The parts of a view, if it can be read. */
  method ReadView(w: WireFormats, view: Json) returns (p: Option<Parts>)
    ensures p.Some? ==> forall q :: Reads(w, view, q) <==> q == p.value
    ensures p.None? ==> forall q :: !Reads(w, view, q)
  {
    hide SaysProof, SthFromJson, KeyBytes;
    p := None;
    if !view.Obj? || Get(view.fields, "inclusion").None? || Get(view.fields, "tree_head").None? {
      return;
    }
    var commitment := GetParsed(view.fields, "commitment", w.base.parseHash);
    var proof := ProofFromJson(w.base, view.fields["inclusion"]);
    var head := SthFromJson(w, view.fields["tree_head"]);
    var publicKey := KeyBytes(view.fields);
    forall q | Reads(w, view, q) ensures proof.Ok? && proof.value == q.inclusion {
      SaysOk(w.base, view.fields["inclusion"], q.inclusion);
      SaysOneProof(w.base, view.fields["inclusion"], proof.value, q.inclusion);
    }
    if commitment.Some? && proof.Ok? && head.Ok? && publicKey.Some? {
      p := Some(Parts(commitment.value, proof.value, head.value, publicKey.value));
    }
  }

  lemma SaysOk(f: Formats, v: Json, proof: InclusionProof)
    requires SaysProof(f, v, proof)
    ensures HeaderError(v).None?
    ensures forall i | 0 <= i < |v.fields["path"].items| :: NodeFromJson(f, v.fields["path"].items[i]).Ok?
  {
  }

  /** The offline verifier of a view, with the key that the view carries. */
  method CheckView(
    parseKey: seq<Byte> -> Option<PublicKey>, w: WireFormats, h: Hashing, view: Json,
    newSize: nat, newRoot: Hash, path: seq<Hash>)
    returns (ok: bool)
    ensures ok <==> exists p :: Reads(w, view, p) && PartsAccepted(parseKey, h, p, newSize, newRoot, path)
    ensures ok ==>
              forall p, op | Reads(w, view, p) :: OnlyKeyOf(parseKey, p, op) ==> SignedBy(op, p.treeHead)
  {
    hide Reads, AcceptsParts, SignedBy, OnlySignedBy;
    var p := ReadView(w, view);
    if p.None? || parseKey(p.value.publicKey).None? {
      return false;
    }
    var parts := p.value;
    ok := OfflineCheck(
      parseKey(parts.publicKey).value, h, parts.commitment, parts.inclusion, parts.treeHead, newSize, newRoot, path);
    assert Reads(w, view, parts);
    forall op | ok && OnlyKeyOf(parseKey, parts, op) ensures SignedBy(op, parts.treeHead) {
      AcceptedSigned(
        parseKey(parts.publicKey).value, h, parts.commitment, parts.inclusion, parts.treeHead,
        newSize, newRoot, path, op);
    }
  }

  /** The key in the view accepts nothing but what the operator signs. */
  ghost predicate OnlyKeyOf(parseKey: seq<Byte> -> Option<PublicKey>, p: Parts, op: Operator) {
    var key := parseKey(p.publicKey);
    key.Some? && OnlySignedBy(key.value, op)
  }

  predicate PartsAccepted(
    parseKey: seq<Byte> -> Option<PublicKey>, h: Hashing, p: Parts, newSize: nat, newRoot: Hash, path: seq<Hash>)
  {
    var key := parseKey(p.publicKey);
    key.Some? && AcceptsParts(key.value, h, p.commitment, p.inclusion, p.treeHead, newSize, newRoot, path)
  }

  /** What the operator signs carries a signature, and names of a suite and a key that can be read. */
  ghost predicate SlotsReadable(w: WireFormats, op: Operator) {
    forall message | op.sign(message).Some? ::
      var slot := op.sign(message).value;
      && slot.signature.Some?
      && w.parseSuite(slot.suite) == Some(slot.suite) && w.parseKeyId(slot.keyId) == Some(slot.keyId)
  }

  lemma KeyReadBack(w: WireFormats, h: Hashing, info: OperatorInfo, r: Receipt)
    requires r.inclusion.leafIndex < TWO_TO_THE_64 && r.inclusion.treeSize < TWO_TO_THE_64
    requires r.treeHead.treeSize < TWO_TO_THE_64
    ensures KeyBytes(ReceiptJson(w, h, info, r).fields) == Some(info.publicKey)
  {
    hide Hex, HexDecode, ProofJson, SthJson;
    HexRoundTrip(info.publicKey);
    var view := ReceiptJson(w, h, info, r).fields;
    assert Get(view, "operator") == Some(InfoJson(info));
    assert GetStr(InfoJson(info).fields, "public_key_hex") == Some(Hex(info.publicKey));
  }

  /** The view of a receipt is read back as its commitment, its proof, its head, and the operator's key. */
  lemma ViewReadBack(w: WireFormats, h: Hashing, info: OperatorInfo, r: Receipt)
    requires w.base.RoundTrip() && r.inclusion.leafIndex < TWO_TO_THE_64 && r.inclusion.treeSize < TWO_TO_THE_64
    requires r.treeHead.treeSize < TWO_TO_THE_64 && r.treeHead.signature.signature.Some?
    requires w.parseSuite(r.treeHead.signature.suite) == Some(r.treeHead.signature.suite)
    requires w.parseKeyId(r.treeHead.signature.keyId) == Some(r.treeHead.signature.keyId)
    ensures Reads(
              w, ReceiptJson(w, h, info, r), Parts(r.record.commitment, r.inclusion, r.treeHead, info.publicKey))
  {
    hide SaysProof, SthFromJson, SthJson, ProofJson, KeyBytes, InfoJson;
    var view := ReceiptJson(w, h, info, r).fields;
    SthRoundTrip(w, r.treeHead);
    ProofJsonSays(w.base, h, r.inclusion, r.record.commitment);
    KeyReadBack(w, h, info, r);
    assert Get(view, "inclusion") == Some(ProofJson(w.base, h, r.inclusion, r.record.commitment));
    assert Get(view, "tree_head") == Some(SthJson(w, r.treeHead));
    assert GetParsed(view, "commitment", w.base.parseHash) == Some(r.record.commitment);
  }

  lemma TextFieldsReadBack(w: WireFormats, h: Hashing, info: OperatorInfo, r: Receipt)
    requires w.base.RoundTrip() && r.inclusion.leafIndex < TWO_TO_THE_64 && r.inclusion.treeSize < TWO_TO_THE_64
    requires r.treeHead.treeSize < TWO_TO_THE_64
    ensures var view := ReceiptJson(w, h, info, r).fields;
            && GetStr(view, "receipt_id") == Some(Decimal(r.record.seqNo))
            && GetStr(view, "log_id") == Some(r.logId)
            && GetU64(view, "seq") == Some(r.record.seqNo)
            && GetStr(view, "subject") == Some(r.record.subject)
  {
    hide ProofJson, SthJson, InfoJson, Decimal;
  }

  lemma RecordReadBack(w: WireFormats, h: Hashing, info: OperatorInfo, r: Receipt)
    requires w.base.RoundTrip() && r.inclusion.leafIndex < TWO_TO_THE_64 && r.inclusion.treeSize < TWO_TO_THE_64
    requires r.treeHead.treeSize < TWO_TO_THE_64
    ensures FromJson(w.base, ReceiptJson(w, h, info, r)) == Ok(r.record)
  {
    hide ProofJson, SthJson, InfoJson, Decimal;
  }

  /** The view says its number, its log, and its whole record, as the journal says it. */
  lemma FieldsReadBack(w: WireFormats, h: Hashing, info: OperatorInfo, r: Receipt)
    requires w.base.RoundTrip() && r.inclusion.leafIndex < TWO_TO_THE_64 && r.inclusion.treeSize < TWO_TO_THE_64
    requires r.treeHead.treeSize < TWO_TO_THE_64
    ensures var view := ReceiptJson(w, h, info, r).fields;
            && GetStr(view, "receipt_id").Some?
            && TakeNumber(GetStr(view, "receipt_id").value) == Some((r.record.seqNo, ""))
            && GetStr(view, "log_id") == Some(r.logId)
            && GetU64(view, "seq") == Some(r.record.seqNo)
            && GetStr(view, "subject") == Some(r.record.subject)
    ensures FromJson(w.base, ReceiptJson(w, h, info, r)) == Ok(r.record)
  {
    hide ReceiptJson, FromJson, Decimal, TakeNumber;
    TextFieldsReadBack(w, h, info, r);
    RecordReadBack(w, h, info, r);
    TakeNumberBack(r.record.seqNo, "");
    assert Decimal(r.record.seqNo) + "" == Decimal(r.record.seqNo);
  }

  /** So does every field of the proof in it, with the leaf hash beside the commitment. */
  lemma ProofFieldsReadBack(f: Formats, h: Hashing, proof: InclusionProof, c: Hash)
    requires f.RoundTrip() && proof.leafIndex < TWO_TO_THE_64 && proof.treeSize < TWO_TO_THE_64
    ensures var view := ProofJson(f, h, proof, c).fields;
            && GetU64(view, "leaf_index") == Some(proof.leafIndex) && GetU64(view, "tree_size") == Some(proof.treeSize)
            && GetParsed(view, "leaf_hash", f.parseHash) == Some(h.leaf(c))
            && GetParsed(view, "commitment", f.parseHash) == Some(c)
  {
    hide PathJson;
  }

  lemma ReceiptReadable(w: WireFormats, h: Hashing, entries: seq<CommitRecord>, i: nat, op: Operator)
    requires ReceiptAt(h, entries, i, op).Some? && SlotsReadable(w, op) && |entries| < TWO_TO_THE_64
    ensures var r := ReceiptAt(h, entries, i, op).value;
            && r.inclusion.leafIndex < TWO_TO_THE_64 && r.inclusion.treeSize < TWO_TO_THE_64
            && r.treeHead.treeSize < TWO_TO_THE_64 && r.treeHead.signature.signature.Some?
            && w.parseSuite(r.treeHead.signature.suite) == Some(r.treeHead.signature.suite)
            && w.parseKeyId(r.treeHead.signature.keyId) == Some(r.treeHead.signature.keyId)
  {
    hide Mth, AuditPath;
  }

  /** A receipt is self-contained: its view alone, with the key that it carries and the honest consistency proof of
      any later state of the log, is accepted. */
  lemma SelfContained(
    parseKey: seq<Byte> -> Option<PublicKey>, w: WireFormats, h: Hashing, info: OperatorInfo, op: Operator,
    entries: seq<CommitRecord>, later: seq<CommitRecord>, i: nat)
    returns (view: Json, p: Parts)
    requires ReceiptAt(h, entries, i, op).Some? && entries <= later && |entries| < TWO_TO_THE_64
    requires w.base.RoundTrip() && SlotsReadable(w, op)
    requires parseKey(info.publicKey).Some? && KeyOf(parseKey(info.publicKey).value, op)
    ensures var r := ReceiptAt(h, entries, i, op).value;
            && r.inclusion.leafIndex < TWO_TO_THE_64 && r.inclusion.treeSize < TWO_TO_THE_64
            && r.treeHead.treeSize < TWO_TO_THE_64
            && view == ReceiptJson(w, h, info, r)
    ensures var D := Commitments(later);
            Reads(w, view, p) && PartsAccepted(parseKey, h, p, |D|, Mth(h, D), ConsistencyPath(h, D, i + 1))
  {
    hide ReceiptAt, ReceiptJson, Reads, AcceptsParts, Mth, ConsistencyPath, SlotsReadable, KeyOf;
    ReceiptReadable(w, h, entries, i, op);
    var r := ReceiptAt(h, entries, i, op).value;
    view := ReceiptJson(w, h, info, r);
    p := Parts(r.record.commitment, r.inclusion, r.treeHead, info.publicKey);
    ViewReadBack(w, h, info, r);
    HonestAccepted(parseKey(info.publicKey).value, h, entries, later, i, op);
  }

  /** A view whose commitment was exchanged for another is refused, whatever key and newer head it is checked with, or
      here is a collision. */
  lemma ForgedViewRefused(
    parseKey: seq<Byte> -> Option<PublicKey>, w: WireFormats, h: Hashing, info: OperatorInfo, op: Operator,
    entries: seq<CommitRecord>, i: nat, forged: string, newSize: nat, newRoot: Hash, path: seq<Hash>)
    returns (view: Json, c: Option<Collision>)
    requires ReceiptAt(h, entries, i, op).Some? && |entries| < TWO_TO_THE_64
    requires w.base.RoundTrip() && SlotsReadable(w, op)
    requires w.base.parseHash(forged) != Some(entries[i].commitment)
    ensures var r := ReceiptAt(h, entries, i, op).value;
            && r.inclusion.leafIndex < TWO_TO_THE_64 && r.inclusion.treeSize < TWO_TO_THE_64
            && r.treeHead.treeSize < TWO_TO_THE_64
            && view == Obj(ReceiptJson(w, h, info, r).fields["commitment" := Str(forged)])
    ensures c.None? ==> forall p | Reads(w, view, p) :: !PartsAccepted(parseKey, h, p, newSize, newRoot, path)
    ensures c.Some? ==> c.value.Valid(h) && c.value.SameDomain()
  {
    hide ReceiptAt, Mth, AuditPath, SaysProof, SthFromJson, KeyBytes, SlotsReadable, VerifyConsistency, FoldPath, Sides;
    ReceiptReadable(w, h, entries, i, op);
    ReceiptSigned(h, entries, i, op);
    var r := ReceiptAt(h, entries, i, op).value;
    ViewReadBack(w, h, info, r);
    var honest := ReceiptJson(w, h, info, r).fields;
    view := Obj(honest["commitment" := Str(forged)]);
    c := None;
    if w.base.parseHash(forged).Some? {
      var commitment := w.base.parseHash(forged).value;
      assert GetParsed(view.fields, "commitment", w.base.parseHash) == Some(commitment);
      var D := Commitments(entries[..i + 1]);
      if VerifyInclusion(h, commitment, i, i + 1, r.inclusion.path, Mth(h, D)) {
        c := InclusionCollision(h, D, i, commitment, r.inclusion.path);
      }
      forall p | Reads(w, view, p)
        ensures p.commitment == commitment && p.inclusion == r.inclusion && p.treeHead == r.treeHead
      {
        assert view.fields["inclusion"] == honest["inclusion"] && view.fields["tree_head"] == honest["tree_head"];
        SaysOneProof(w.base, view.fields["inclusion"], p.inclusion, r.inclusion);
      }
    } else {
      assert GetParsed(view.fields, "commitment", w.base.parseHash).None?;
    }
  }
}

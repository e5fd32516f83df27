/** The JSON views of tree heads and inclusion proofs, and the way back. */
module Wire {
  import opened Bits
  import opened Digests
  import opened MerkleSpec
  import opened Records
  import opened Receipts
  import opened HexBytes

  // ------------------------------------------------------------------ tree heads

  /** The text forms a head needs beside those of a record. */
  datatype WireFormats = WireFormats(
    base: Formats, parseSuite: string -> Option<string>, parseKeyId: string -> Option<string>)

  function SignatureJson(slot: SignatureSlot): Json {
    Obj(map[
          "suite" := Str(slot.suite),
          "key_id" := Str(slot.keyId),
          "value" := match slot.signature case None => Null case Some(v) => Str(Hex(v))])
  }

  function SthJson(w: WireFormats, sth: SignedTreeHead): Json
    requires sth.treeSize < TWO_TO_THE_64
  {
    Obj(map[
          "log_id" := Str(sth.logId),
          "tree_size" := UInt(sth.treeSize),
          "timestamp" := Str(w.base.printTime(sth.timestamp)),
          "root" := Str(w.base.printHash(sth.root)),
          "signature" := SignatureJson(sth.signature)])
  }

  datatype WireError = Missing(what: string) | Bad(what: string) | HexPanic

  function SignatureFromJson(w: WireFormats, sig: map<string, Json>): Result<SignatureSlot, WireError> {
    match GetStr(sig, "suite")
    case None => Err(Missing("signature.suite"))
    case Some(suiteToken) =>
      match w.parseSuite(suiteToken)
      case None => Err(Bad("signature.suite"))
      case Some(suite) =>
        match GetStr(sig, "key_id")
        case None => Err(Missing("signature.key_id"))
        case Some(keyText) =>
          match w.parseKeyId(keyText)
          case None => Err(Bad("signature.key_id"))
          case Some(keyId) =>
            match Get(sig, "value")
            case Some(Str(s)) =>
              (match HexDecode(s)
               case Decoded(v) => Ok(SignatureSlot(suite, keyId, Some(v)))
               case Rejected => Err(Bad("signature.value"))
               case Panicked => Err(HexPanic))
            case _ => Err(Missing("signature.value"))
  }

  function SthFromJson(w: WireFormats, v: Json): Result<SignedTreeHead, WireError> {
    var obj := v.AsObject();
    if obj.None? then Err(Bad("tree head")) else
    var logId := GetStr(obj.value, "log_id");
    if logId.None? then Err(Missing("log_id")) else
    var treeSize := GetU64(obj.value, "tree_size");
    if treeSize.None? then Err(Missing("tree_size")) else
    var timestamp := GetParsed(obj.value, "timestamp", w.base.parseTime);
    if timestamp.None? then Err(Missing("timestamp")) else
    var root := GetParsed(obj.value, "root", w.base.parseHash);
    if root.None? then Err(Missing("root")) else
    match Get(obj.value, "signature")
    case None => Err(Missing("signature"))
    case Some(sig) =>
      if !sig.Obj? then Err(Bad("signature"))
      else
        match SignatureFromJson(w, sig.fields)
        case Err(e) => Err(e)
        case Ok(slot) => Ok(SignedTreeHead(logId.value, treeSize.value, timestamp.value, root.value, slot))
  }

  lemma SignatureRoundTrip(w: WireFormats, slot: SignatureSlot)
    requires w.parseSuite(slot.suite) == Some(slot.suite) && w.parseKeyId(slot.keyId) == Some(slot.keyId)
    ensures SignatureFromJson(w, SignatureJson(slot).fields)
         == if slot.signature.Some? then Ok(slot) else Err(Missing("signature.value"))
  {
    var sig := SignatureJson(slot).fields;
    assert GetStr(sig, "suite") == Some(slot.suite) && GetStr(sig, "key_id") == Some(slot.keyId);
    if slot.signature.Some? {
      HexRoundTrip(slot.signature.value);
      assert Get(sig, "value") == Some(Str(Hex(slot.signature.value)));
    } else {
      assert Get(sig, "value") == Some(Null);
    }
  }

  /** The wire is sufficient: a signed head whose suite and key id are valid names is rebuilt from its view. */
  lemma SthRoundTrip(w: WireFormats, sth: SignedTreeHead)
    requires w.base.RoundTrip() && sth.treeSize < TWO_TO_THE_64
    requires w.parseSuite(sth.signature.suite) == Some(sth.signature.suite)
    requires w.parseKeyId(sth.signature.keyId) == Some(sth.signature.keyId)
    ensures SthFromJson(w, SthJson(w, sth)) == Ok(sth) <==> sth.signature.signature.Some?
  {
    hide SignatureJson, SignatureFromJson;
    SignatureIsObject(sth.signature);
    SignatureRoundTrip(w, sth.signature);
    var obj := SthJson(w, sth).fields;
    assert GetStr(obj, "log_id") == Some(sth.logId);
    assert GetU64(obj, "tree_size") == Some(sth.treeSize);
    assert GetParsed(obj, "timestamp", w.base.parseTime) == Some(sth.timestamp);
    assert GetParsed(obj, "root", w.base.parseHash) == Some(sth.root);
    assert Get(obj, "signature") == Some(SignatureJson(sth.signature));
  }

  /** A head is read exactly from a view all of whose fields can be read; a signature slot without a value is none. */
  lemma SthExactly(w: WireFormats, v: Json, sth: SignedTreeHead)
    ensures SthFromJson(w, v) == Ok(sth)
            <==> && v.Obj?
                 && GetStr(v.fields, "log_id") == Some(sth.logId)
                 && GetU64(v.fields, "tree_size") == Some(sth.treeSize)
                 && GetParsed(v.fields, "timestamp", w.base.parseTime) == Some(sth.timestamp)
                 && GetParsed(v.fields, "root", w.base.parseHash) == Some(sth.root)
                 && Get(v.fields, "signature").Some? && v.fields["signature"].Obj?
                 && SignatureSays(w, v.fields["signature"].fields, sth.signature)
  {
    hide SignatureSays, SignatureFromJson;
    if v.Obj? && Get(v.fields, "signature").Some? && v.fields["signature"].Obj? {
      SignatureExactly(w, v.fields["signature"].fields, sth.signature);
    }
  }

  predicate SignatureSays(w: WireFormats, sig: map<string, Json>, slot: SignatureSlot) {
    && slot.signature.Some?
    && GetParsed(sig, "suite", w.parseSuite) == Some(slot.suite)
    && GetParsed(sig, "key_id", w.parseKeyId) == Some(slot.keyId)
    && GetStr(sig, "value").Some? && HexDecode(GetStr(sig, "value").value) == Decoded(slot.signature.value)
  }

  lemma SignatureExactly(w: WireFormats, sig: map<string, Json>, slot: SignatureSlot)
    ensures SignatureFromJson(w, sig) == Ok(slot) <==> SignatureSays(w, sig, slot)
  {
    hide HexDecode;
  }

  lemma SignatureIsObject(slot: SignatureSlot)
    ensures SignatureJson(slot).Obj?
  {
  }

  // ------------------------------------------------------------------ inclusion proofs

  function SideText(side: Side): string {
    match side case Left => "left" case Right => "right"
  }

  function NodeJson(f: Formats, node: ProofNode): Json {
    Obj(map["sibling" := Str(f.printHash(node.sibling)), "side" := Str(SideText(node.side))])
  }

  function PathJson(f: Formats, path: seq<ProofNode>): (items: seq<Json>)
    ensures |items| == |path|
  {
    seq(|path|, i requires 0 <= i < |path| => NodeJson(f, path[i]))
  }

  function ProofJson(f: Formats, h: Hashing, proof: InclusionProof, commitment: Hash): Json
    requires proof.leafIndex < TWO_TO_THE_64 && proof.treeSize < TWO_TO_THE_64
  {
    Obj(map[
          "leaf_index" := UInt(proof.leafIndex),
          "tree_size" := UInt(proof.treeSize),
          "leaf_hash" := Str(f.printHash(h.leaf(commitment))),
          "commitment" := Str(f.printHash(commitment)),
          "path" := Arr(PathJson(f, proof.path))])
  }

  function NodeFromJson(f: Formats, v: Json): Result<ProofNode, WireError> {
    var fields := if v.Obj? then v.fields else map[];
    match GetParsed(fields, "sibling", f.parseHash)
    case None => Err(Bad("path[].sibling"))
    case Some(sibling) =>
      match GetStr(fields, "side")
      case None => Err(Bad("path[].side"))
      case Some(side) =>
        if side == "left" then Ok(ProofNode(sibling, Left))
        else if side == "right" then Ok(ProofNode(sibling, Right))
        else Err(Bad("path[].side"))
  }

  /** A node is read exactly from a sibling that is a hash and a side that is one of two words. */
  lemma NodeExactly(f: Formats, v: Json, node: ProofNode)
    ensures NodeFromJson(f, v) == Ok(node)
            <==> && v.Obj? && GetParsed(v.fields, "sibling", f.parseHash) == Some(node.sibling)
                 && GetStr(v.fields, "side") == Some(if node.side.Left? then "left" else "right")
  {
  }

  lemma NodeRoundTrip(f: Formats, node: ProofNode)
    requires f.RoundTrip()
    ensures NodeFromJson(f, NodeJson(f, node)) == Ok(node)
  {
  }

  /** What is wrong with a proof before its path is looked at; the fields are checked in this order. */
  function HeaderError(v: Json): Option<WireError> {
    if !v.Obj? then Some(Bad("inclusion"))
    else if GetU64(v.fields, "leaf_index").None? then Some(Missing("leaf_index"))
    else if GetU64(v.fields, "tree_size").None? then Some(Missing("tree_size"))
    else if Get(v.fields, "path").None? || !v.fields["path"].Arr? then Some(Missing("path"))
    else None
  }

  /** Element `i` is the first that is no node, and this is what is wrong with it. */
  predicate FirstBadNode(f: Formats, items: seq<Json>, i: nat, e: WireError) {
    && i < |items| && NodeFromJson(f, items[i]) == Err(e)
    && forall j | 0 <= j < i :: NodeFromJson(f, items[j]).Ok?
  }

  /** The view is well-formed, and says this proof. */
  predicate SaysProof(f: Formats, v: Json, proof: InclusionProof) {
    && HeaderError(v).None?
    && proof.leafIndex == GetU64(v.fields, "leaf_index").value
    && proof.treeSize == GetU64(v.fields, "tree_size").value
    && |proof.path| == |v.fields["path"].items|
    && forall i | 0 <= i < |proof.path| :: NodeFromJson(f, v.fields["path"].items[i]) == Ok(proof.path[i])
  }

  /** A view says at most one proof. */
  lemma SaysOneProof(f: Formats, v: Json, proof: InclusionProof, other: InclusionProof)
    requires SaysProof(f, v, proof) && SaysProof(f, v, other)
    ensures proof == other
  {
    forall i | 0 <= i < |proof.path| ensures proof.path[i] == other.path[i] {
      assert NodeFromJson(f, v.fields["path"].items[i]) == Ok(proof.path[i]);
    }
  }

  /** `proof_from_json`: every element of the path must be a node, and the first that is none decides. */
  method ProofFromJson(f: Formats, v: Json) returns (r: Result<InclusionProof, WireError>)
    ensures r.Ok? <==>
              && HeaderError(v).None?
              && forall i | 0 <= i < |v.fields["path"].items| :: NodeFromJson(f, v.fields["path"].items[i]).Ok?
    ensures r.Ok? ==> SaysProof(f, v, r.value)
    ensures HeaderError(v).Some? ==> r == Err(HeaderError(v).value)
    ensures HeaderError(v).None? && r.Err? ==> exists i: nat :: FirstBadNode(f, v.fields["path"].items, i, r.error)
  {
    var obj := v.AsObject();
    if obj.None? {
      return Err(Bad("inclusion"));
    }
    var leafIndex := GetU64(obj.value, "leaf_index");
    if leafIndex.None? {
      return Err(Missing("leaf_index"));
    }
    var treeSize := GetU64(obj.value, "tree_size");
    if treeSize.None? {
      return Err(Missing("tree_size"));
    }
    if Get(obj.value, "path").None? || !obj.value["path"].Arr? {
      return Err(Missing("path"));
    }
    var items := obj.value["path"].items;
    var path := [];
    for i := 0 to |items|
      invariant |path| == i
      invariant forall j | 0 <= j < i :: NodeFromJson(f, items[j]) == Ok(path[j])
    {
      var node := NodeFromJson(f, items[i]);
      if node.Err? {
        assert FirstBadNode(f, items, i, node.error);
        return Err(node.error);
      }
      path := path + [node.value];
    }
    r := Ok(InclusionProof(leafIndex.value, treeSize.value, path));
  }

  /** The view of a proof says that proof. */
  lemma ProofJsonSays(f: Formats, h: Hashing, proof: InclusionProof, commitment: Hash)
    requires f.RoundTrip() && proof.leafIndex < TWO_TO_THE_64 && proof.treeSize < TWO_TO_THE_64
    ensures SaysProof(f, ProofJson(f, h, proof, commitment), proof)
  {
    hide NodeFromJson, NodeJson;
    var view := ProofJson(f, h, proof, commitment);
    forall i | 0 <= i < |proof.path| ensures NodeFromJson(f, PathJson(f, proof.path)[i]) == Ok(proof.path[i]) {
      NodeRoundTrip(f, proof.path[i]);
    }
    assert Get(view.fields, "path") == Some(Arr(PathJson(f, proof.path)));
    assert GetU64(view.fields, "leaf_index") == Some(proof.leafIndex);
    assert GetU64(view.fields, "tree_size") == Some(proof.treeSize);
  }

  /** The wire view of a proof is read back as that proof: the view and back, in one method. */
  method ProofThroughWire(f: Formats, h: Hashing, proof: InclusionProof, commitment: Hash)
    returns (r: Result<InclusionProof, WireError>)
    requires f.RoundTrip() && proof.leafIndex < TWO_TO_THE_64 && proof.treeSize < TWO_TO_THE_64
    ensures r == Ok(proof)
  {
    hide NodeFromJson, PathJson;
    ProofJsonSays(f, h, proof, commitment);
    var view := ProofJson(f, h, proof, commitment);
    r := ProofFromJson(f, view);
    SaysOneProof(f, view, proof, r.value);
  }
}

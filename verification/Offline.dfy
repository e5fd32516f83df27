/** The offline verifier of a receipt: the signature of its head, and its two proofs by the bit-wise algorithms,
    and what follows for a receipt that passes. */
module Offline {
  import opened Digests
  import opened MerkleSpec
  import opened Records
  import opened Receipts
  import opened Rfc9162

  function Siblings(path: seq<ProofNode>): (s: seq<Hash>)
    ensures |s| == |path|
  {
    seq(|path|, i requires 0 <= i < |path| => path[i].sibling)
  }

  /** The sides of a path with the sides of its position add nothing to its siblings. */
  lemma SidesRecovered(path: seq<ProofNode>, sides: seq<Side>)
    requires PathSides(path) == sides
    ensures WithSides(Siblings(path), sides) == path
  {
  }

  /** The operator key as a verifier holds it. */
  datatype PublicKey = PublicKey(
    canonicalBytes: (string, nat, Timestamp, Hash) -> seq<Byte>,
    verify: (seq<Byte>, SignatureSlot) -> bool)
  {
    /** The signature is over all that the head says. */
    predicate Signed(head: SignedTreeHead) {
      verify(canonicalBytes(head.logId, head.treeSize, head.timestamp, head.root), head.signature)
    }
  }

  /** The key accepts what the operator signs. */
  ghost predicate KeyOf(key: PublicKey, op: Operator) {
    && key.canonicalBytes == op.canonicalBytes
    && forall message | op.sign(message).Some? :: key.verify(message, op.sign(message).value)
  }

  /** The head is signed, the proof rebuilds its root from the commitment, and the consistency proof ties that root
      to a newer head. */
  predicate AcceptsParts(
    key: PublicKey, h: Hashing, c: Hash, proof: InclusionProof, head: SignedTreeHead,
    newSize: nat, newRoot: Hash, path: seq<Hash>)
  {
    && key.Signed(head)
    && VerifyInclusion(h, c, proof.leafIndex, proof.treeSize, proof.path, head.root)
    && head.treeSize >= 1
    && VerifyConsistency(h, head.treeSize, head.root, newSize, newRoot, path)
  }

  predicate Accepts(key: PublicKey, h: Hashing, r: Receipt, newSize: nat, newRoot: Hash, path: seq<Hash>) {
    AcceptsParts(key, h, r.record.commitment, r.inclusion, r.treeHead, newSize, newRoot, path)
  }

  method InclusionChecked(h: Hashing, c: Hash, proof: InclusionProof, root: Hash) returns (ok: bool)
    ensures ok <==> VerifyInclusion(h, c, proof.leafIndex, proof.treeSize, proof.path, root)
  {
    hide Sides, FoldPath;
    var siblings := Siblings(proof.path);
    ok := VerifyInclusionByBits(h, c, proof.leafIndex, proof.treeSize, siblings, root);
    if ok {
      var sides := SidesOf(proof.leafIndex, proof.treeSize);
      ok := PathSides(proof.path) == sides;
    }
    if proof.leafIndex < proof.treeSize && PathSides(proof.path) == Sides(proof.leafIndex, proof.treeSize) {
      SidesRecovered(proof.path, Sides(proof.leafIndex, proof.treeSize));
    }
  }

  /** The sides of a position, found by the same walk that verifies. */
  method SidesOf(m: nat, n: nat) returns (sides: seq<Side>)
    requires m < n
    ensures sides == Sides(m, n)
  {
    hide Sides;
    var fn, sn := m, n - 1;
    sides := [];
    while sn != 0
      invariant fn <= sn && sides + Sides(fn, sn + 1) == Sides(m, n)
      decreases sn
    {
      var side := NextSide(fn, sn);
      ghost var before := Sides(fn, sn + 1);
      fn, sn := Advance(fn, sn);
      assert sides + ([side] + Sides(fn, sn + 1)) == (sides + [side]) + Sides(fn, sn + 1);
      sides := sides + [side];
    }
    SidesOfOne();
    assert sides + [] == sides;
  }

  method OfflineCheck(
    key: PublicKey, h: Hashing, c: Hash, proof: InclusionProof, head: SignedTreeHead,
    newSize: nat, newRoot: Hash, path: seq<Hash>)
    returns (ok: bool)
    ensures ok <==> AcceptsParts(key, h, c, proof, head, newSize, newRoot, path)
  {
    hide VerifyInclusion;
    if !key.Signed(head) {
      return false;
    }
    ok := InclusionChecked(h, c, proof, head.root);
    var m := head.treeSize;
    if !ok || m == 0 || newSize < m {
      return false;
    }
    if m == newSize {
      return path == [] && head.root == newRoot;
    }
    ok := VerifyConsistencyByBits(h, m, head.root, newSize, newRoot, path);
  }

  /** An honest receipt, and the honest consistency proof to any later state of the log, are accepted. */
  lemma HonestAccepted(
    key: PublicKey, h: Hashing, entries: seq<CommitRecord>, later: seq<CommitRecord>, i: nat, op: Operator)
    requires entries <= later && ReceiptAt(h, entries, i, op).Some? && KeyOf(key, op)
    ensures var D := Commitments(later);
            Accepts(key, h, ReceiptAt(h, entries, i, op).value, |D|, Mth(h, D), ConsistencyPath(h, D, i + 1))
  {
    hide VerifyInclusion, VerifyConsistency, Mth, ConsistencyPath, AuditPath;
    HonestSigned(key, h, entries, i, op);
    ReceiptPermanent(h, entries, later, i, op);
    ReceiptVerifies(h, later, i, op);
  }

  lemma HonestSigned(key: PublicKey, h: Hashing, entries: seq<CommitRecord>, i: nat, op: Operator)
    requires ReceiptAt(h, entries, i, op).Some? && KeyOf(key, op)
    ensures key.Signed(ReceiptAt(h, entries, i, op).value.treeHead)
  {
    hide Mth, AuditPath;
  }

  // ------------------------------------------------------------------ what an accepted signature means

  /** Whatever the key accepts was signed by the operator. */
  ghost predicate OnlySignedBy(key: PublicKey, op: Operator) {
    && key.canonicalBytes == op.canonicalBytes
    && forall message, slot | key.verify(message, slot) :: op.sign(message) == Some(slot)
  }

  /** The signature of the head is the operator's, over the log id, size, time and root that the head says. */
  ghost predicate SignedBy(op: Operator, head: SignedTreeHead) {
    op.sign(op.canonicalBytes(head.logId, head.treeSize, head.timestamp, head.root)) == Some(head.signature)
  }

  /** The head of whatever is accepted is of some size up to the newer one, and carries a signature that the key accepts
      for all that the head says; under a key that accepts no other signatures it is the operator's own. */
  lemma AcceptedSigned(
    key: PublicKey, h: Hashing, c: Hash, proof: InclusionProof, head: SignedTreeHead,
    newSize: nat, newRoot: Hash, path: seq<Hash>, op: Operator)
    requires AcceptsParts(key, h, c, proof, head, newSize, newRoot, path)
    ensures key.verify(key.canonicalBytes(head.logId, head.treeSize, head.timestamp, head.root), head.signature)
    ensures OnlySignedBy(key, op) ==> SignedBy(op, head)
    ensures 1 <= head.treeSize <= newSize
  {
    hide VerifyInclusion;
  }

  /** A receipt whose signature was replaced, or that another operator signed, is refused. */
  lemma ForeignRefused(
    key: PublicKey, h: Hashing, r: Receipt, slot: SignatureSlot,
    newSize: nat, newRoot: Hash, path: seq<Hash>, op: Operator)
    requires OnlySignedBy(key, op)
    requires var head := r.treeHead;
             op.sign(op.canonicalBytes(head.logId, head.treeSize, head.timestamp, head.root)) != Some(slot)
    ensures !Accepts(key, h, r.(treeHead := r.treeHead.(signature := slot)), newSize, newRoot, path)
  {
    hide VerifyInclusion, VerifyConsistency;
  }

  // ------------------------------------------------------------------ soundness

  /** Whatever receipt is accepted under a head over the history `D` and a newer head over the history
      `shown`: the commitment is in both, `shown` extends `D`, and if the proof is for the size of the head
      the commitment stands at its leaf index, or here is a collision; and the head is signed by the operator if the
      key accepts nothing else. */
  lemma AcceptedSound(
    key: PublicKey, h: Hashing, D: seq<Hash>, shown: seq<Hash>, r: Receipt, path: seq<Hash>, op: Operator)
    returns (c: Option<Collision>)
    requires 1 <= |D| == r.treeHead.treeSize && r.treeHead.root == Mth(h, D) && shown != []
    requires Accepts(key, h, r, |shown|, Mth(h, shown), path)
    ensures c.None? ==> |D| <= |shown| && D == shown[..|D|] && r.record.commitment in D
    ensures c.None? && r.inclusion.treeSize == |D| ==> D[r.inclusion.leafIndex] == r.record.commitment
    ensures c.Some? ==> c.value.Valid(h)
    ensures OnlySignedBy(key, op) ==> SignedBy(op, r.treeHead)
  {
    hide Mth, Sides, FoldPath, VerifyConsistency;
    AcceptedSigned(key, h, r.record.commitment, r.inclusion, r.treeHead, |shown|, Mth(h, shown), path, op);
    c := ConsistencySound(h, D, shown, path);
    if c.None? {
      c := MembershipCollision(h, D, r.record.commitment, r.inclusion.path);
    }
    if c.None? && r.inclusion.treeSize == |D| {
      c := InclusionCollision(h, D, r.inclusion.leafIndex, r.record.commitment, r.inclusion.path);
    }
  }

  /** The key accepts signatures only for the heads of this log. */
  ghost predicate OnlyHeadsOf(key: PublicKey, h: Hashing, entries: seq<CommitRecord>, op: Operator) {
    && key.canonicalBytes == op.canonicalBytes
    && forall message, slot | key.verify(message, slot) ::
         exists n | 1 <= n <= |entries| :: message == SignedBytes(h, entries[..n], op)
  }

  /** The canonical bytes of a head say which head it is. */
  ghost predicate Unambiguous(op: Operator) {
    forall logId, n, t, root, logId', n', t', root' |
      op.canonicalBytes(logId, n, t, root) == op.canonicalBytes(logId', n', t', root') ::
      logId == logId' && n == n' && t == t' && root == root'
  }

  /** Offline, nothing but the key has to be trusted: if it accepts signatures only for the heads of a log, then an
      accepted receipt, wherever it comes from, is under a head of that log, and its commitment is in the log before
      that head, at the leaf index if the proof is for its size; or here is a collision. */
  lemma AcceptedOfLog(
    key: PublicKey, h: Hashing, entries: seq<CommitRecord>, op: Operator, r: Receipt,
    newSize: nat, newRoot: Hash, path: seq<Hash>)
    returns (c: Option<Collision>)
    requires OnlyHeadsOf(key, h, entries, op) && Unambiguous(op)
    requires Accepts(key, h, r, newSize, newRoot, path)
    ensures c.Some? ==> c.value.Valid(h)
    ensures var (n, head) := (r.treeHead.treeSize, r.treeHead);
            && 1 <= n <= |entries| && head.logId == op.logId && head.timestamp == entries[n - 1].loggedAt
            && head.root == Mth(h, Commitments(entries[..n]))
            && (c.None? ==> r.record.commitment in Commitments(entries[..n]))
            && (c.None? && r.inclusion.treeSize == n ==>
                r.inclusion.leafIndex < n && entries[r.inclusion.leafIndex].commitment == r.record.commitment)
  {
    hide Mth, Sides, FoldPath, VerifyConsistency;
    var head := r.treeHead;
    HeadOfLog(key, h, entries, op, head);
    var D := Commitments(entries[..head.treeSize]);
    c := MembershipCollision(h, D, r.record.commitment, r.inclusion.path);
    if c.None? && r.inclusion.treeSize == |D| {
      c := InclusionCollision(h, D, r.inclusion.leafIndex, r.record.commitment, r.inclusion.path);
    }
  }

  lemma HeadOfLog(key: PublicKey, h: Hashing, entries: seq<CommitRecord>, op: Operator, head: SignedTreeHead)
    requires OnlyHeadsOf(key, h, entries, op) && Unambiguous(op) && key.Signed(head)
    ensures var n := head.treeSize;
            && 1 <= n <= |entries| && head.logId == op.logId && head.timestamp == entries[n - 1].loggedAt
            && head.root == Mth(h, Commitments(entries[..n]))
  {
    hide Mth;
    var message := op.canonicalBytes(head.logId, head.treeSize, head.timestamp, head.root);
    assert key.verify(message, head.signature);
    var n :| 1 <= n <= |entries| && message == SignedBytes(h, entries[..n], op);
    assert entries[..n][n - 1] == entries[n - 1];
  }
}

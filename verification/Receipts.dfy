/** Receipts and signed tree heads: never stored, always derived again from the entries. */
module Receipts {
  import opened Bits
  import opened Digests
  import opened MerkleSpec
  import opened Records
  import opened Journal
  import opened Restart
  import opened Store

  datatype SignatureSlot = SignatureSlot(suite: string, keyId: string, signature: Option<seq<Byte>>)

  datatype SignedTreeHead = SignedTreeHead(
    logId: string, treeSize: nat, timestamp: Timestamp, root: Hash, signature: SignatureSlot)

  datatype InclusionProof = InclusionProof(leafIndex: nat, treeSize: nat, path: seq<ProofNode>)

  datatype Receipt = Receipt(logId: string, record: CommitRecord, inclusion: InclusionProof, treeHead: SignedTreeHead)

  /** The operator key: signing is a deterministic function of the message, and may fail. */
  datatype Operator = Operator(
    logId: string,
    canonicalBytes: (string, nat, Timestamp, Hash) -> seq<Byte>,
    sign: seq<Byte> -> Option<SignatureSlot>)

  /** The head over a tree of `n` entries with that root, minted at that time. */
  function SignHead(op: Operator, n: nat, timestamp: Timestamp, root: Hash): Option<SignedTreeHead> {
    match op.sign(op.canonicalBytes(op.logId, n, timestamp, root))
    case None => None
    case Some(slot) => Some(SignedTreeHead(op.logId, n, timestamp, root, slot))
  }

  /** The unique head of the first `n` entries: over their root, at the time of the last of them. */
  function HeadAt(h: Hashing, entries: seq<CommitRecord>, n: nat, op: Operator): Option<SignedTreeHead>
    requires 1 <= n <= |entries|
  {
    SignHead(op, n, entries[n - 1].loggedAt, Mth(h, Commitments(entries[..n])))
  }

  function CurrentHeadOf(h: Hashing, entries: seq<CommitRecord>, op: Operator): Option<SignedTreeHead> {
    if entries == [] then None else HeadAt(h, entries, |entries|, op)
  }

  /** The receipt of entry `i`: its record, its audit path in the tree just after it, and that tree's head. */
  function ReceiptAt(h: Hashing, entries: seq<CommitRecord>, i: nat, op: Operator): Option<Receipt> {
    if i >= |entries| then None
    else
      match HeadAt(h, entries, i + 1, op)
      case None => None
      case Some(head) =>
        var proof := InclusionProof(i, i + 1, AuditPath(h, Commitments(entries[..i + 1]), i));
        Some(Receipt(op.logId, entries[i], proof, head))
  }

  /** `Receipt::of`, computed from the cached levels. */
  method ReceiptOf(store: LogStore, i: nat, op: Operator) returns (receipt: Option<Receipt>)
    requires store.Valid()
    ensures receipt == ReceiptAt(store.tree.hashing, store.entries, i, op)
  {
    hide Mth, AuditPath;
    var record := store.RecordAt(i);
    if record.None? {
      return None;
    }
    var treeSize := i + 1;
    var root := store.RootAtSize(treeSize);
    if root.None? {
      return None;
    }
    var path, hashes := store.tree.InclusionPath(i, treeSize);
    assert Commitments(store.entries)[..treeSize] == Commitments(store.entries[..treeSize]);
    var timestamp := record.value.loggedAt;
    var slot := op.sign(op.canonicalBytes(op.logId, treeSize, timestamp, root.value));
    if slot.None? {
      return None;
    }
    receipt := Some(Receipt(
                      op.logId,
                      record.value,
                      InclusionProof(i, treeSize, path),
                      SignedTreeHead(op.logId, treeSize, timestamp, root.value, slot.value)));
  }

  /** `current_head`, computed from the cached levels. */
  method CurrentHead(store: LogStore, op: Operator) returns (head: Option<SignedTreeHead>)
    requires store.Valid()
    ensures head == CurrentHeadOf(store.tree.hashing, store.entries, op)
  {
    hide Mth;
    var n := |store.entries|;
    if n == 0 {
      return None;
    }
    var root, hashes := store.tree.RootNow();
    assert store.entries[..n] == store.entries;
    var slot := op.sign(op.canonicalBytes(op.logId, n, store.entries[n - 1].loggedAt, root.value));
    if slot.None? {
      return None;
    }
    head := Some(SignedTreeHead(op.logId, n, store.entries[n - 1].loggedAt, root.value, slot.value));
  }

  /** What a consistency request answers about one moment of the log. */
  datatype ConsistencyAnswer = ConsistencyAnswer(
    oldSize: nat, oldRoot: Option<Hash>, newSize: nat, newRoot: Option<Hash>, path: seq<Hash>)

  /** `tree_consistency` under the store lock: refused beyond the log, and otherwise an answer that verifies. */
  method TreeConsistency(store: LogStore, from: nat) returns (answer: Option<ConsistencyAnswer>)
    requires store.Valid()
    ensures answer.Some? <==> from <= |store.entries|
    ensures answer.Some? ==>
              var (a, h, D) := (answer.value, store.tree.hashing, Commitments(store.entries));
              && a.oldSize == from && a.newSize == |D|
              && a.oldRoot == Root(h, D[..from]) && a.newRoot == Root(h, D)
              && a.path == ConsistencyPath(h, D, from)
              && (from >= 1 ==> VerifyConsistency(h, from, a.oldRoot.value, a.newSize, a.newRoot.value, a.path))
              && (a.path == [] <==> from == 0 || from == a.newSize)
  {
    if from > |store.entries| {
      return None;
    }
    hide Mth;
    var root, hashes := store.tree.RootNow();
    var oldRoot := store.RootAtSize(from);
    var path, pathHashes := store.tree.ConsistencyPathFrom(from);
    assert Commitments(store.entries)[..from] == Commitments(store.entries[..from]);
    if from >= 1 {
      ConsistencyComplete(store.tree.hashing, Commitments(store.entries), from);
    }
    answer := Some(ConsistencyAnswer(from, oldRoot, |store.entries|, root, path));
  }

  // ------------------------------------------------------------------ what is signed

  /** What the operator signs of a log with these entries: its own log id, their number, the time of the last of them,
      and their Merkle Tree Hash. */
  function SignedBytes(h: Hashing, entries: seq<CommitRecord>, op: Operator): seq<Byte>
    requires entries != []
  {
    op.canonicalBytes(op.logId, |entries|, entries[|entries| - 1].loggedAt, Mth(h, Commitments(entries)))
  }

  /** The head names exactly what was signed. */
  ghost predicate HeadSays(h: Hashing, entries: seq<CommitRecord>, op: Operator, head: SignedTreeHead)
    requires entries != []
  {
    && head.logId == op.logId && head.treeSize == |entries|
    && head.timestamp == entries[|entries| - 1].loggedAt && head.root == Mth(h, Commitments(entries))
    && op.sign(SignedBytes(h, entries, op)) == Some(head.signature)
  }

  /** A current head exists exactly if there are entries and the operator signs for them; it names this log, its size,
      time and root, and carries the operator's signature of just these four. */
  lemma CurrentHeadSigned(h: Hashing, entries: seq<CommitRecord>, op: Operator)
    ensures var head := CurrentHeadOf(h, entries, op);
            && (head.Some? <==> entries != [] && op.sign(SignedBytes(h, entries, op)).Some?)
            && (head.Some? ==> HeadSays(h, entries, op, head.value))
  {
    hide Mth;
    assert entries[..|entries|] == entries;
  }

  /** A receipt exists exactly for the entries that the operator signs for; it names this log, its entry and its
      position, and its head is the signed head of the log that ends with the entry. */
  lemma ReceiptSigned(h: Hashing, entries: seq<CommitRecord>, i: nat, op: Operator)
    ensures var receipt := ReceiptAt(h, entries, i, op);
            && (receipt.Some? <==> i < |entries| && op.sign(SignedBytes(h, entries[..i + 1], op)).Some?)
            && (receipt.Some? ==>
                && receipt.value.logId == op.logId && receipt.value.record == entries[i]
                && receipt.value.inclusion.leafIndex == i && receipt.value.inclusion.treeSize == i + 1
                && HeadSays(h, entries[..i + 1], op, receipt.value.treeHead))
  {
    hide Mth, AuditPath;
    if i < |entries| {
      assert entries[..i + 1][i] == entries[i];
    }
  }

  // ------------------------------------------------------------------ permanence

  /** A receipt does not depend on anything that is appended after its entry. */
  lemma ReceiptPermanent(h: Hashing, entries: seq<CommitRecord>, later: seq<CommitRecord>, i: nat, op: Operator)
    requires entries <= later && i < |entries|
    ensures ReceiptAt(h, later, i, op) == ReceiptAt(h, entries, i, op)
  {
    assert later[..i + 1] == entries[..i + 1];
  }

  /** The head that was current at some moment is, ever after, the head in the receipt of the entry that was last
      at that moment. */
  lemma HeadIsLastReceiptHead(h: Hashing, entries: seq<CommitRecord>, later: seq<CommitRecord>, op: Operator)
    requires entries != [] && entries <= later
    ensures var receipt := ReceiptAt(h, later, |entries| - 1, op);
            CurrentHeadOf(h, entries, op) == if receipt.None? then None else Some(receipt.value.treeHead)
  {
    ReceiptPermanent(h, entries, later, |entries| - 1, op);
  }

  /** Receipts survive every run of appends and restarts on a clean journal. */
  lemma ReceiptSurvivesRun(k: Codec, h: Hashing, s: Log, events: seq<Event>, i: nat, op: Operator)
    requires Faithful(k) && InStep(k, s) && |s.entries| + |events| <= TWO_TO_THE_64 && i < |s.entries|
    ensures Run(k, s, events).Ok?
    ensures ReceiptAt(h, Run(k, s, events).value.entries, i, op) == ReceiptAt(h, s.entries, i, op)
  {
    RestartEquivalence(k, s, events);
    ReceiptPermanent(h, s.entries, Run(k, s, events).value.entries, i, op);
  }

  // ------------------------------------------------------------------ verification

  /** The receipt verifies against its own head, and the consistency proof from its tree size ties that
      head's root to the root of every later state of the log. */
  lemma ReceiptVerifies(h: Hashing, entries: seq<CommitRecord>, i: nat, op: Operator)
    requires ReceiptAt(h, entries, i, op).Some?
    ensures var r := ReceiptAt(h, entries, i, op).value;
            var D := Commitments(entries);
            && r.record == entries[i]
            && VerifyInclusion(h, r.record.commitment, r.inclusion.leafIndex, r.inclusion.treeSize, r.inclusion.path,
                               r.treeHead.root)
            && r.inclusion.treeSize == r.treeHead.treeSize == i + 1
            && r.treeHead.timestamp == r.record.loggedAt
            && VerifyConsistency(h, r.treeHead.treeSize, r.treeHead.root, |D|, Mth(h, D), ConsistencyPath(h, D, i + 1))
  {
    hide Mth, AuditPath, VerifyInclusion, VerifyConsistency, ConsistencyPath;
    var D := Commitments(entries);
    var prefix := Commitments(entries[..i + 1]);
    assert D[..i + 1] == prefix;
    InclusionComplete(h, prefix, i);
    ConsistencyComplete(h, D, i + 1);
  }

  /** What a receipt pins: whoever holds the receipt of entry `i`, and is shown a head over any other
      history with an accepted consistency proof from the receipt's tree size, is looking at a history
      that starts with exactly the commitments up to entry `i`, or holds a collision. */
  lemma ReceiptPins(
    h: Hashing, entries: seq<CommitRecord>, i: nat, op: Operator, shown: seq<CommitRecord>, path: seq<Hash>)
    returns (c: Option<Collision>)
    requires ReceiptAt(h, entries, i, op).Some? && shown != []
    requires var r := ReceiptAt(h, entries, i, op).value;
             VerifyConsistency(h, r.treeHead.treeSize, r.treeHead.root, |shown|, Mth(h, Commitments(shown)), path)
    ensures c.None? ==> i < |shown| && Commitments(shown[..i + 1]) == Commitments(entries[..i + 1])
    ensures c.Some? ==> c.value.Valid(h) && c.value.SameDomain()
  {
    hide Mth, VerifyConsistency;
    c := ConsistencySound(h, Commitments(entries[..i + 1]), Commitments(shown), path);
    if c.None? {
      assert Commitments(shown)[..i + 1] == Commitments(shown[..i + 1]);
    }
  }
}

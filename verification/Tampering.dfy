/** What the tree sees of a rewritten journal, and what it does not. */
module Tampering {
  import opened Digests
  import opened MerkleSpec
  import opened Tree
  import opened Records
  import opened Journal
  import opened Restart
  import opened Store
  import opened Receipts

  // ------------------------------------------------------------------ what is hashed

  /** Two stores have the same tree if and only if they have the same commitments, or here is a collision: what
      else the records say, subjects, salt references and times, is not in the tree, and nothing but the
      commitments is. */
  lemma SameTreeExactly(a: LogStore, b: LogStore) returns (c: Option<Collision>)
    requires a.Valid() && b.Valid() && a.tree.hashing == b.tree.hashing
    ensures Commitments(a.entries) == Commitments(b.entries) ==> a.tree.levels == b.tree.levels
    ensures a.tree.levels == b.tree.levels && c.None? ==> Commitments(a.entries) == Commitments(b.entries)
    ensures c.Some? ==> c.value.Valid(a.tree.hashing) && c.value.LeafLeaf?
  {
    hide LevelHolds, Mth;
    var (h, D, D') := (a.tree.hashing, a.tree.leaves, b.tree.leaves);
    c := None;
    if D == D' {
      LevelsUnique(h, D, a.tree.levels, b.tree.levels);
    } else if a.tree.levels == b.tree.levels {
      LeafLevel(h, D, a.tree.levels);
      LeafLevel(h, D', b.tree.levels);
      var i :| 0 <= i < |D| && D[i] != D'[i];
      assert a.tree.levels[0][i] == h.leaf(D[i]) == h.leaf(D'[i]);
      c := Some(LeafLeaf(D[i], D'[i]));
    }
  }

  lemma LeafLevel(h: Hashing, D: seq<Hash>, levels: seq<seq<Hash>>)
    requires LevelsHold(h, D, levels)
    ensures |levels| >= 1 && |levels[0]| == |D|
    ensures forall i | 0 <= i < |D| :: levels[0][i] == h.leaf(D[i])
  {
    assert LevelHolds(h, D, 0, levels[0]);
    forall i | 0 <= i < |D| ensures levels[0][i] == h.leaf(D[i]) {
      assert Block(D, 0, i) == D[i..i + 1];
    }
  }

  /** Two stores with the same first `s` commitments give the same root for that prefix. */
  method RootsOfTwo(a: LogStore, b: LogStore, s: nat) returns (root: Option<Hash>, root': Option<Hash>)
    requires a.Valid() && b.Valid() && a.tree.hashing == b.tree.hashing
    requires s <= |a.entries| && s <= |b.entries|
    requires forall i | 0 <= i < s :: a.entries[i].commitment == b.entries[i].commitment
    ensures root == root' && (root.Some? <==> s > 0)
  {
    root := a.RootAtSize(s);
    root' := b.RootAtSize(s);
    assert Commitments(a.entries[..s]) == Commitments(b.entries[..s]);
  }

  // ------------------------------------------------------------------ roots of rewritten histories

  /** Two histories agree on the root of every prefix that has the same commitments, so rewriting only
      subjects, salt references or times is not seen by the tree. */
  lemma SameCommitmentsSameRoots(h: Hashing, R: seq<CommitRecord>, R': seq<CommitRecord>, s: nat)
    requires |R| == |R'| && s <= |R|
    requires forall i | 0 <= i < s :: R[i].commitment == R'[i].commitment
    ensures Root(h, Commitments(R[..s])) == Root(h, Commitments(R'[..s]))
  {
    assert Commitments(R[..s]) == Commitments(R'[..s]);
  }

  /** Two histories of one length whose commitments first differ at entry `i` have the same root for every
      prefix up to `i`, and for every longer prefix different roots, or here is a collision. */
  lemma TamperEvident(h: Hashing, R: seq<CommitRecord>, R': seq<CommitRecord>, i: nat, s: nat)
    returns (c: Option<Collision>)
    requires |R| == |R'| && i < |R| && s <= |R|
    requires forall j | 0 <= j < i :: R[j].commitment == R'[j].commitment
    requires R[i].commitment != R'[i].commitment
    ensures s <= i ==> Root(h, Commitments(R[..s])) == Root(h, Commitments(R'[..s]))
    ensures s > i && c.None? ==> Root(h, Commitments(R[..s])) != Root(h, Commitments(R'[..s]))
    ensures c.Some? ==> c.value.Valid(h) && c.value.SameDomain()
  {
    var (D, D') := (Commitments(R[..s]), Commitments(R'[..s]));
    c := None;
    if s <= i {
      SameCommitmentsSameRoots(h, R, R', s);
    } else {
      assert D[i] != D'[i];
      if Mth(h, D) == Mth(h, D') {
        c := EqualRootsCollision(h, D, D');
      }
    }
  }

  // ------------------------------------------------------------------ a rewritten line

  lemma ReplaceLine(k: Codec, lines: seq<seq<Byte>>, line: seq<Byte>, r: CommitRecord)
    requires AllHold(k, lines, 0) && r.seqNo < |lines| && Classify(k, line) == Parsed(r)
    ensures AllHold(k, lines[r.seqNo := line], 0)
    ensures RecordsOf(k, lines[r.seqNo := line], 0) == RecordsOf(k, lines, 0)[r.seqNo := r]
  {
    hide Classify;
    var changed := lines[r.seqNo := line];
    forall i | 0 <= i < |changed| ensures Holds(k, changed[i], 0 + i) {
      if i != r.seqNo {
        assert Holds(k, lines[i], 0 + i);
      }
    }
  }

  lemma LinesAround(k: Codec, before: seq<Byte>, r: CommitRecord, after: seq<Byte>)
    requires Faithful(k) && Terminated(before)
    ensures Lines(before + Written(k, r) + after) == Lines(before) + [RecordLine(k, r)] + Lines(after)
  {
    hide Lines, Written, RecordLine;
    WrittenLast(k, before, r);
    LinesConcat(before + Written(k, r), after);
  }

  /** A line of a clean journal rewritten as another record with its number: the journal stays clean, and is
      replayed to the same entries with only that one changed. */
  lemma RewrittenLine(k: Codec, before: seq<Byte>, r: CommitRecord, r': CommitRecord, after: seq<Byte>)
    requires Faithful(k) && Terminated(before) && r.seqNo == r'.seqNo == |Lines(before)|
    requires Clean(k, before + Written(k, r) + after)
    ensures var (honest, forged) := (before + Written(k, r) + after, before + Written(k, r') + after);
            && Clean(k, forged) && r.seqNo < |Lines(honest)| && Entries(k, honest)[r.seqNo] == r
            && Replay(k, honest) == Ok(Entries(k, honest))
            && Replay(k, forged) == Ok(Entries(k, honest)[r.seqNo := r'])
  {
    hide Lines, RecordLine, Classify, AllHold, Replay, Faithful;
    var (honest, forged) := (before + Written(k, r) + after, before + Written(k, r') + after);
    LinesAround(k, before, r, after);
    LinesAround(k, before, r', after);
    LineOfRecord(k, r);
    LineOfRecord(k, r');
    assert Lines(forged) == Lines(honest)[r.seqNo := RecordLine(k, r')];
    ReplaceLine(k, Lines(honest), RecordLine(k, r'), r');
    SameEnd(before, Written(k, r), Written(k, r'), after);
    CleanReplays(k, honest);
    CleanReplays(k, forged);
  }

  lemma SameEnd(before: seq<Byte>, w: seq<Byte>, w': seq<Byte>, after: seq<Byte>)
    requires w != [] && w[|w| - 1] == LF && w' != [] && w'[|w'| - 1] == LF
    ensures Terminated(before + w + after) <==> Terminated(before + w' + after)
  {
  }

  /** The journal of an honest log with one line rewritten to another commitment. The service starts and serves the
      same number of entries; the roots of the prefixes up to the rewritten entry are the old ones, those of all
      longer prefixes are not; the receipts issued before it are still served; and of every receipt from it on,
      the inclusion proof fails against the new root of its size, and no consistency proof to the new head is
      accepted; or here is a collision. */
  lemma TamperedJournal(
    k: Codec, h: Hashing, op: Operator, before: seq<Byte>, r: CommitRecord, r': CommitRecord, after: seq<Byte>,
    s: nat, path: seq<Hash>)
    returns (entries: seq<CommitRecord>, forged: seq<CommitRecord>, c: Option<Collision>)
    requires Faithful(k) && Terminated(before) && r.seqNo == r'.seqNo == |Lines(before)|
    requires Clean(k, before + Written(k, r) + after) && r.commitment != r'.commitment
    ensures Replay(k, before + Written(k, r) + after) == Ok(entries)
    ensures Replay(k, before + Written(k, r') + after) == Ok(forged)
    ensures r.seqNo < |entries| && forged == entries[r.seqNo := r']
    ensures c.Some? ==> c.value.Valid(h) && c.value.SameDomain()
    ensures s <= r.seqNo ==> Root(h, Commitments(forged[..s])) == Root(h, Commitments(entries[..s]))
    ensures r.seqNo < s <= |entries| && c.None? ==>
              Root(h, Commitments(forged[..s])) != Root(h, Commitments(entries[..s]))
    ensures s < r.seqNo ==> ReceiptAt(h, forged, s, op) == ReceiptAt(h, entries, s, op)
    ensures r.seqNo <= s < |entries| && ReceiptAt(h, entries, s, op).Some? && c.None? ==>
              var head := ReceiptAt(h, entries, s, op).value.treeHead;
              !VerifyConsistency(h, head.treeSize, head.root, |forged|, Mth(h, Commitments(forged)), path)
    ensures r.seqNo <= s < |entries| && ReceiptAt(h, entries, s, op).Some? && c.None? ==>
              InclusionFails(h, ReceiptAt(h, entries, s, op).value, Mth(h, Commitments(forged[..s + 1])))
  {
    hide Clean, Replay, Written, Lines, Root, Mth, VerifyConsistency, Faithful;
    RewrittenLine(k, before, r, r', after);
    entries := Entries(k, before + Written(k, r) + after);
    forged := entries[r.seqNo := r'];
    c := None;
    if s <= |entries| {
      c := TamperEvident(h, entries, forged, r.seqNo, s);
    }
    if s < r.seqNo {
      ReceiptPermanent(h, entries[..s + 1], entries, s, op);
      assert entries[..s + 1] <= forged;
      ReceiptPermanent(h, entries[..s + 1], forged, s, op);
    }
    if c.None? && r.seqNo <= s < |entries| && ReceiptAt(h, entries, s, op).Some? {
      c := NoProofAcrossForgery(h, op, entries, r', s, path);
      if c.None? {
        c := NoInclusionInForgery(h, op, entries, r', s);
      }
    }
  }

  /** The proof that came with the receipt does not rebuild that root. */
  predicate InclusionFails(h: Hashing, receipt: Receipt, root: Hash) {
    var proof := receipt.inclusion;
    !VerifyInclusion(h, receipt.record.commitment, proof.leafIndex, proof.treeSize, proof.path, root)
  }

  lemma NoInclusionInForgery(h: Hashing, op: Operator, entries: seq<CommitRecord>, r': CommitRecord, s: nat)
    returns (c: Option<Collision>)
    requires r'.seqNo <= s < |entries| && ReceiptAt(h, entries, s, op).Some?
    requires entries[r'.seqNo].commitment != r'.commitment
    ensures c.Some? ==> c.value.Valid(h) && c.value.SameDomain()
    ensures c.None? ==>
              var forged := entries[r'.seqNo := r'];
              InclusionFails(h, ReceiptAt(h, entries, s, op).value, Mth(h, Commitments(forged[..s + 1])))
  {
    hide Mth, AuditPath, Sides, FoldPath;
    var forged := entries[r'.seqNo := r'];
    c := TamperEvident(h, entries, forged, r'.seqNo, s + 1);
    ReceiptVerifies(h, entries, s, op);
  }

  lemma NoProofAcrossForgery(
    h: Hashing, op: Operator, entries: seq<CommitRecord>, r': CommitRecord, s: nat, path: seq<Hash>)
    returns (c: Option<Collision>)
    requires r'.seqNo <= s < |entries| && ReceiptAt(h, entries, s, op).Some?
    requires entries[r'.seqNo].commitment != r'.commitment
    ensures c.Some? ==> c.value.Valid(h) && c.value.SameDomain()
    ensures c.None? ==>
              var (head, forged) := (ReceiptAt(h, entries, s, op).value.treeHead, entries[r'.seqNo := r']);
              !VerifyConsistency(h, head.treeSize, head.root, |forged|, Mth(h, Commitments(forged)), path)
  {
    hide Mth, VerifyConsistency;
    var (head, forged) := (ReceiptAt(h, entries, s, op).value.treeHead, entries[r'.seqNo := r']);
    c := None;
    if VerifyConsistency(h, head.treeSize, head.root, |forged|, Mth(h, Commitments(forged)), path) {
      c := ReceiptPins(h, entries, s, op, forged, path);
      assert Commitments(forged[..s + 1])[r'.seqNo] != Commitments(entries[..s + 1])[r'.seqNo];
    }
  }
}

/** The example of section 2.1.3 of RFC 6962, a tree of seven leaves, as it is written out there: the definitions of
    `MerkleSpec` give its root, its audit paths and its consistency proofs. */
module RfcExample {
  import opened Bits
  import opened Digests
  import opened MerkleSpec

  lemma Splits()
    ensures Split(2) == 1 && Split(3) == 2 && Split(4) == 2 && Split(7) == 4
  {
    assert Pow2(0) == 1 && Pow2(1) == 2 && Pow2(2) == 4;
    SplitUnique(2, 0);
    SplitUnique(3, 1);
    SplitUnique(4, 1);
    SplitUnique(7, 2);
  }

  lemma One(h: Hashing, D: seq<Hash>)
    requires |D| == 1
    ensures Mth(h, D) == h.leaf(D[0]) && AuditPath(h, D, 0) == []
    ensures SubProof(h, D, 1, true) == [] && SubProof(h, D, 1, false) == [h.leaf(D[0])]
  {
  }

  lemma Two(h: Hashing, D: seq<Hash>)
    requires |D| == 2
    ensures Mth(h, D) == h.node(h.leaf(D[0]), h.leaf(D[1]))
    ensures AuditPath(h, D, 0) == [ProofNode(h.leaf(D[1]), Right)]
    ensures AuditPath(h, D, 1) == [ProofNode(h.leaf(D[0]), Left)]
    ensures SubProof(h, D, 1, false) == [h.leaf(D[0]), h.leaf(D[1])]
    ensures SubProof(h, D, 2, false) == [Mth(h, D)] && SubProof(h, D, 2, true) == []
  {
    hide Split;
    Splits();
    One(h, D[..1]);
    One(h, D[1..]);
  }

  lemma Three(h: Hashing, D: seq<Hash>)
    requires |D| == 3
    ensures var (e, f, j) := (h.leaf(D[0]), h.leaf(D[1]), h.leaf(D[2]));
            && Mth(h, D) == h.node(h.node(e, f), j)
            && AuditPath(h, D, 0) == [ProofNode(f, Right), ProofNode(j, Right)]
            && AuditPath(h, D, 2) == [ProofNode(h.node(e, f), Left)]
            && SubProof(h, D, 2, false) == [h.node(e, f), j]
  {
    hide Split;
    Splits();
    Two(h, D[..2]);
    One(h, D[2..]);
  }

  lemma Four(h: Hashing, D: seq<Hash>)
    requires |D| == 4
    ensures var (a, b, c, d) := (h.leaf(D[0]), h.leaf(D[1]), h.leaf(D[2]), h.leaf(D[3]));
            && Mth(h, D) == h.node(h.node(a, b), h.node(c, d))
            && AuditPath(h, D, 0) == [ProofNode(b, Right), ProofNode(h.node(c, d), Right)]
            && AuditPath(h, D, 3) == [ProofNode(c, Left), ProofNode(h.node(a, b), Left)]
            && SubProof(h, D, 3, true) == [c, d, h.node(a, b)] && SubProof(h, D, 4, true) == []
  {
    hide Split;
    Splits();
    Two(h, D[..2]);
    Two(h, D[2..]);
  }

  /** The tree of the example, with the names that its nodes have there. */
  lemma SevenLeaves(h: Hashing, D: seq<Hash>)
    requires |D| == 7
    ensures var (a, b, c, d) := (h.leaf(D[0]), h.leaf(D[1]), h.leaf(D[2]), h.leaf(D[3]));
            var (e, f, j) := (h.leaf(D[4]), h.leaf(D[5]), h.leaf(D[6]));
            var (g, h', i) := (h.node(a, b), h.node(c, d), h.node(e, f));
            var (k, l) := (h.node(g, h'), h.node(i, j));
            && Mth(h, D) == h.node(k, l)
            && AuditPath(h, D, 0) == [ProofNode(b, Right), ProofNode(h', Right), ProofNode(l, Right)]
            && AuditPath(h, D, 3) == [ProofNode(c, Left), ProofNode(g, Left), ProofNode(l, Right)]
            && AuditPath(h, D, 4) == [ProofNode(f, Right), ProofNode(j, Right), ProofNode(k, Left)]
            && AuditPath(h, D, 6) == [ProofNode(i, Left), ProofNode(k, Left)]
            && ConsistencyPath(h, D, 3) == [c, d, g, l]
            && ConsistencyPath(h, D, 4) == [l]
            && ConsistencyPath(h, D, 6) == [i, j, k]
  {
    hide Split;
    Splits();
    Four(h, D[..4]);
    Three(h, D[4..]);
  }
}

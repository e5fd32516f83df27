/** The Merkle Tree Hash, audit paths and consistency proofs of RFC 6962 (sections 2.1, 2.1.1 and
    2.1.2) as recursive functions on the sequence of entry commitments, the verifiers they are
    meant for, and the two halves of their correctness: honest proofs are accepted, and an
    accepted proof is honest unless it hands over a hash collision. */
module MerkleSpec {
  import opened Bits
  import opened Digests

  // ------------------------------------------------------------------ the Merkle Tree Hash

  /** MTH of section 2.1 of RFC 6962, for a non-empty list. */
  function Mth(h: Hashing, D: seq<Hash>): Hash
    requires |D| >= 1
    decreases |D|
  {
    if |D| == 1 then h.leaf(D[0])
    else
      var k := Split(|D|);
      SplitBounds(|D|);
      h.node(Mth(h, D[..k]), Mth(h, D[k..]))
  }

  /** The root of a prefix: none for the empty one. */
  function Root(h: Hashing, D: seq<Hash>): Option<Hash> {
    if D == [] then None else Some(Mth(h, D))
  }

  lemma MthSplit(h: Hashing, D: seq<Hash>)
    requires |D| >= 2
    ensures 1 <= Split(|D|) < |D|
    ensures Mth(h, D) == h.node(Mth(h, D[..Split(|D|)]), Mth(h, D[Split(|D|)..]))
  {
    SplitBounds(|D|);
  }

  /** A complete left half and a right half no larger than it are hashed as the two children. */
  lemma MthJoin(h: Hashing, L: seq<Hash>, R: seq<Hash>, k: nat)
    requires |L| == Pow2(k) && 1 <= |R| <= |L|
    ensures Mth(h, L + R) == h.node(Mth(h, L), Mth(h, R))
  {
    SplitUnique(|L + R|, k);
    assert (L + R)[..|L|] == L && (L + R)[|L|..] == R;
  }

  /** `MthJoin` for adjacent ranges of one list. */
  lemma MthJoinRange(h: Hashing, D: seq<Hash>, lo: nat, mid: nat, hi: nat, k: nat)
    requires lo <= mid < hi <= |D| && mid - lo == Pow2(k) && hi - mid <= Pow2(k)
    ensures Mth(h, D[lo..hi]) == h.node(Mth(h, D[lo..mid]), Mth(h, D[mid..hi]))
  {
    assert D[lo..hi] == D[lo..mid] + D[mid..hi];
    MthJoin(h, D[lo..mid], D[mid..hi], k);
  }

  /** The split of a range at its split point, without slices of slices. */
  lemma MthSplitRange(h: Hashing, D: seq<Hash>, lo: nat, len: nat)
    requires len >= 2 && lo + len <= |D|
    ensures 1 <= Split(len) < len
    ensures Mth(h, D[lo..lo + len])
         == h.node(Mth(h, D[lo..lo + Split(len)]), Mth(h, D[lo + Split(len)..lo + len]))
  {
    SplitBounds(len);
    MthJoinRange(h, D, lo, lo + Split(len), lo + len, ILog2(len - 1));
  }

  /** Two lists of one length with one root are equal, or here is a collision. */
  function EqualRootsCollision(h: Hashing, A: seq<Hash>, B: seq<Hash>): (r: Option<Collision>)
    requires |A| == |B| >= 1 && Mth(h, A) == Mth(h, B)
    ensures r.None? <==> A == B
    ensures r.Some? ==> r.value.Valid(h) && r.value.SameDomain()
    decreases |A|
  {
    if |A| == 1 then
      if A[0] == B[0] then None else Some(LeafLeaf(A[0], B[0]))
    else
      var k := Split(|A|);
      SplitBounds(|A|);
      assert A == A[..k] + A[k..] && B == B[..k] + B[k..];
      var (al, ar, bl, br) := (Mth(h, A[..k]), Mth(h, A[k..]), Mth(h, B[..k]), Mth(h, B[k..]));
      if (al, ar) != (bl, br) then Some(NodeNode(al, ar, bl, br))
      else
        var left := EqualRootsCollision(h, A[..k], B[..k]);
        if left.Some? then left else EqualRootsCollision(h, A[k..], B[k..])
  }

  // ------------------------------------------------------------------ inclusion

  datatype Side = Left | Right

  /** One step of an inclusion path: the sibling, and the side it stands on. */
  datatype ProofNode = ProofNode(sibling: Hash, side: Side)

  /** PATH(m, D) of section 2.1.1 of RFC 6962, siblings from the leaf up. */
  function AuditPath(h: Hashing, D: seq<Hash>, m: nat): seq<ProofNode>
    requires m < |D|
    decreases |D|
  {
    if |D| == 1 then []
    else
      var k := Split(|D|);
      SplitBounds(|D|);
      if m < k then AuditPath(h, D[..k], m) + [ProofNode(Mth(h, D[k..]), Right)]
      else AuditPath(h, D[k..], m - k) + [ProofNode(Mth(h, D[..k]), Left)]
  }

  /** The sides of the siblings of leaf `m` in a tree of `n` leaves, from the leaf up. */
  function Sides(m: nat, n: nat): seq<Side>
    requires m < n
    decreases n
  {
    if n == 1 then []
    else
      var k := Split(n);
      SplitBounds(n);
      if m < k then Sides(m, k) + [Right] else Sides(m - k, n - k) + [Left]
  }

  function PathSides(path: seq<ProofNode>): (sides: seq<Side>)
    ensures |sides| == |path|
  {
    seq(|path|, i requires 0 <= i < |path| => path[i].side)
  }

  function FoldStep(h: Hashing, acc: Hash, node: ProofNode): Hash {
    match node.side
    case Left => h.node(node.sibling, acc)
    case Right => h.node(acc, node.sibling)
  }

  /** The root rebuilt from a leaf hash by consuming the path from the leaf up. */
  function FoldPath(h: Hashing, acc: Hash, path: seq<ProofNode>): Hash
    decreases |path|
  {
    if path == [] then acc
    else FoldStep(h, FoldPath(h, acc, path[..|path| - 1]), path[|path| - 1])
  }

  /** The verifier of a receipt: the path has the shape of position `m` of `n` and rebuilds `root`. */
  predicate VerifyInclusion(h: Hashing, c: Hash, m: nat, n: nat, path: seq<ProofNode>, root: Hash) {
    m < n && PathSides(path) == Sides(m, n) && FoldPath(h, h.leaf(c), path) == root
  }

  lemma PathSidesSnoc(path: seq<ProofNode>, node: ProofNode)
    ensures PathSides(path + [node]) == PathSides(path) + [node.side]
  {
  }

  /** The half of the list that leaf `m` is in, and its index there. */
  function HalfOf(D: seq<Hash>, m: nat): (r: (seq<Hash>, nat))
    requires m < |D| && |D| >= 2
    ensures r.1 < |r.0| < |D| && r.0[r.1] == D[m]
  {
    var k := Split(|D|);
    SplitBounds(|D|);
    if m < k then (D[..k], m) else (D[k..], m - k)
  }

  /** The topmost honest path node of leaf `m`: the root of the other half. */
  function SiblingOf(h: Hashing, D: seq<Hash>, m: nat): ProofNode
    requires m < |D| && |D| >= 2
  {
    var k := Split(|D|);
    SplitBounds(|D|);
    if m < k then ProofNode(Mth(h, D[k..]), Right) else ProofNode(Mth(h, D[..k]), Left)
  }

  /** Roots, audit paths and sides all split the same way. */
  lemma InclusionSplit(h: Hashing, D: seq<Hash>, m: nat)
    requires m < |D| && |D| >= 2
    ensures var (half, i) := HalfOf(D, m);
            && Mth(h, D) == FoldStep(h, Mth(h, half), SiblingOf(h, D, m))
            && AuditPath(h, D, m) == AuditPath(h, half, i) + [SiblingOf(h, D, m)]
            && Sides(m, |D|) == Sides(i, |half|) + [SiblingOf(h, D, m).side]
  {
    SplitBounds(|D|);
  }

  lemma FoldPathSnoc(h: Hashing, acc: Hash, path: seq<ProofNode>, node: ProofNode)
    ensures FoldPath(h, acc, path + [node]) == FoldStep(h, FoldPath(h, acc, path), node)
  {
  }

  /** Completeness: the audit path of every leaf is accepted against the root of its list. */
  lemma {:induction false} InclusionComplete(h: Hashing, D: seq<Hash>, m: nat)
    requires m < |D|
    ensures VerifyInclusion(h, D[m], m, |D|, AuditPath(h, D, m), Mth(h, D))
    decreases |D|
  {
    if |D| > 1 {
      var (half, i) := HalfOf(D, m);
      var node := SiblingOf(h, D, m);
      InclusionComplete(h, half, i);
      InclusionSplit(h, D, m);
      PathSidesSnoc(AuditPath(h, half, i), node);
      FoldPathSnoc(h, h.leaf(D[m]), AuditPath(h, half, i), node);
    }
  }

  lemma SnocInjective<T>(a: seq<T>, x: T, b: seq<T>, y: T)
    ensures a + [x] == b + [y] <==> a == b && x == y
  {
    if a + [x] == b + [y] {
      assert a == (a + [x])[..|a + [x]| - 1] && b == (b + [y])[..|b + [y]| - 1];
      assert x == (a + [x])[|a + [x]| - 1] && y == (b + [y])[|b + [y]| - 1];
    }
  }

  /** What an accepted path for position `m` says about its topmost node. */
  lemma AcceptedSplit(h: Hashing, D: seq<Hash>, m: nat, c: Hash, rest: seq<ProofNode>, last: ProofNode)
    requires |D| >= 2 && VerifyInclusion(h, c, m, |D|, rest + [last], Mth(h, D))
    ensures var (half, i) := HalfOf(D, m);
            && PathSides(rest) == Sides(i, |half|)
            && last.side == SiblingOf(h, D, m).side
            && FoldStep(h, FoldPath(h, h.leaf(c), rest), last) == FoldStep(h, Mth(h, half), SiblingOf(h, D, m))
            && (rest + [last] == AuditPath(h, D, m) <==>
                rest == AuditPath(h, half, i) && last == SiblingOf(h, D, m))
  {
    hide Mth, AuditPath, Sides, FoldStep;
    var (half, i) := HalfOf(D, m);
    InclusionSplit(h, D, m);
    PathSidesSnoc(rest, last);
    FoldPathSnoc(h, h.leaf(c), rest, last);
    SnocInjective(PathSides(rest), last.side, Sides(i, |half|), SiblingOf(h, D, m).side);
    SnocInjective(rest, last, AuditPath(h, half, i), SiblingOf(h, D, m));
  }

  /** Two different pairs of children with one parent. */
  function StepCollision(h: Hashing, acc1: Hash, node1: ProofNode, acc2: Hash, node2: ProofNode): (c: Option<Collision>)
    requires node1.side == node2.side && (acc1 != acc2 || node1 != node2)
    requires FoldStep(h, acc1, node1) == FoldStep(h, acc2, node2)
    ensures c.Some? && c.value.Valid(h) && c.value.SameDomain()
  {
    if node1.side == Left then Some(NodeNode(node1.sibling, acc1, node2.sibling, acc2))
    else Some(NodeNode(acc1, node1.sibling, acc2, node2.sibling))
  }

  /** Soundness: an accepted path for position `m` either belongs to the commitment stored there
      and is the audit path itself, or hands over a collision. */
  function InclusionCollision(h: Hashing, D: seq<Hash>, m: nat, c: Hash, path: seq<ProofNode>): (r: Option<Collision>)
    requires |D| >= 1 && VerifyInclusion(h, c, m, |D|, path, Mth(h, D))
    ensures r.None? <==> c == D[m] && path == AuditPath(h, D, m)
    ensures r.Some? ==> r.value.Valid(h) && r.value.SameDomain()
    decreases |D|
  {
    if |D| == 1 then
      assert |path| == 0;
      if c == D[0] then None else Some(LeafLeaf(c, D[0]))
    else
      hide Mth, AuditPath, FoldStep;
      var (rest, last) := (path[..|path| - 1], path[|path| - 1]);
      assert path == rest + [last];
      AcceptedSplit(h, D, m, c, rest, last);
      var (half, i) := HalfOf(D, m);
      var acc := FoldPath(h, h.leaf(c), rest);
      InclusionComplete(h, half, i);
      if acc == Mth(h, half) && last == SiblingOf(h, D, m) then InclusionCollision(h, half, i, c, rest)
      else StepCollision(h, acc, last, Mth(h, half), SiblingOf(h, D, m))
  }

  /** Membership without any condition on the path: whatever siblings and sides are folded, in
      whatever number, rebuilding the root from a leaf hash means the commitment is in the list,
      or hands over a collision. */
  function MembershipCollision(h: Hashing, D: seq<Hash>, c: Hash, path: seq<ProofNode>): (r: Option<Collision>)
    requires |D| >= 1 && FoldPath(h, h.leaf(c), path) == Mth(h, D)
    ensures r.None? ==> c in D
    ensures r.Some? ==> r.value.Valid(h)
    decreases |D|
  {
    if path == [] then
      if |D| == 1 then (if c == D[0] then None else Some(LeafLeaf(c, D[0])))
      else
        SplitBounds(|D|);
        Some(LeafNode(c, Mth(h, D[..Split(|D|)]), Mth(h, D[Split(|D|)..])))
    else
      var (rest, last) := (path[..|path| - 1], path[|path| - 1]);
      var acc := FoldPath(h, h.leaf(c), rest);
      var (pl, pr) := if last.side == Left then (last.sibling, acc) else (acc, last.sibling);
      if |D| == 1 then Some(LeafNode(D[0], pl, pr))
      else
        var k := Split(|D|);
        SplitBounds(|D|);
        var (l, r) := (Mth(h, D[..k]), Mth(h, D[k..]));
        if (pl, pr) != (l, r) then Some(NodeNode(pl, pr, l, r))
        else if last.side == Left then MembershipCollision(h, D[k..], c, rest)
        else MembershipCollision(h, D[..k], c, rest)
  }

  // ------------------------------------------------------------------ consistency

  /** SUBPROOF(m, D, b) of section 2.1.2 of RFC 6962, deepest node first. */
  function SubProof(h: Hashing, D: seq<Hash>, m: nat, anchored: bool): seq<Hash>
    requires 1 <= m <= |D|
    decreases |D|
  {
    if m == |D| then (if anchored then [] else [Mth(h, D)])
    else
      var k := Split(|D|);
      SplitBounds(|D|);
      if m <= k then SubProof(h, D[..k], m, anchored) + [Mth(h, D[k..])]
      else SubProof(h, D[k..], m - k, false) + [Mth(h, D[..k])]
  }

  /** PROOF(m, D): the proof that the first `m` entries are a prefix; empty for `m == 0`. */
  function ConsistencyPath(h: Hashing, D: seq<Hash>, m: nat): seq<Hash>
    requires m <= |D|
  {
    if m == 0 then [] else SubProof(h, D, m, true)
  }

  /** The old and the new root rebuilt from a proof, consuming it from its last node, which is the
      topmost; `pinned` stands for the old root as long as the old tree is the anchored left spine. */
  function Rebuild(h: Hashing, m: nat, n: nat, path: seq<Hash>, anchored: bool, pinned: Hash): Option<(Hash, Hash)>
    requires 1 <= m <= n
    decreases n
  {
    if m == n then
      if anchored then (if path == [] then Some((pinned, pinned)) else None)
      else (if |path| == 1 then Some((path[0], path[0])) else None)
    else if path == [] then None
    else
      var k := Split(n);
      SplitBounds(n);
      var (rest, last) := (path[..|path| - 1], path[|path| - 1]);
      if m <= k then
        match Rebuild(h, m, k, rest, anchored, pinned)
        case None => None
        case Some((o, w)) => Some((o, h.node(w, last)))
      else
        match Rebuild(h, m - k, n - k, rest, false, pinned)
        case None => None
        case Some((o, w)) => Some((h.node(last, o), h.node(last, w)))
  }

  /** The verifier: the proof rebuilds both roots. From the empty tree only the empty proof counts. */
  predicate VerifyConsistency(h: Hashing, m: nat, oldRoot: Hash, n: nat, newRoot: Hash, path: seq<Hash>) {
    if m == 0 then path == []
    else m <= n && Rebuild(h, m, n, path, true, oldRoot) == Some((oldRoot, newRoot))
  }

  /** Consuming the topmost node of a proof. */
  lemma RebuildSnoc(h: Hashing, m: nat, n: nat, rest: seq<Hash>, last: Hash, anchored: bool, pinned: Hash)
    requires 1 <= m < n
    ensures 1 <= Split(n) < n
    ensures m <= Split(n) ==>
              var inner := Rebuild(h, m, Split(n), rest, anchored, pinned);
              Rebuild(h, m, n, rest + [last], anchored, pinned)
              == if inner.None? then None else Some((inner.value.0, h.node(inner.value.1, last)))
    ensures m > Split(n) ==>
              var inner := Rebuild(h, m - Split(n), n - Split(n), rest, false, pinned);
              Rebuild(h, m, n, rest + [last], anchored, pinned)
              == if inner.None? then None else Some((h.node(last, inner.value.0), h.node(last, inner.value.1)))
  {
    SplitBounds(n);
    var path := rest + [last];
    assert path[..|path| - 1] == rest && path[|path| - 1] == last;
  }

  /** A prefix that reaches past the split point of the list splits at the same point. */
  lemma PrefixSplit(h: Hashing, D: seq<Hash>, m: nat)
    requires 2 <= |D| && Split(|D|) < m <= |D|
    ensures Mth(h, D[..m]) == h.node(Mth(h, D[..Split(|D|)]), Mth(h, D[Split(|D|)..][..m - Split(|D|)]))
  {
    var k := Split(|D|);
    SplitBounds(|D|);
    assert D[..m] == D[..k] + D[k..][..m - k];
    MthJoin(h, D[..k], D[k..][..m - k], ILog2(|D| - 1));
  }

  lemma SubProofOfAll(h: Hashing, D: seq<Hash>, anchored: bool)
    requires |D| >= 1
    ensures SubProof(h, D, |D|, anchored) == if anchored then [] else [Mth(h, D)]
  {
  }

  /** The subproof of a proper prefix is the one inside the half where the prefix ends, followed by the
      root of the other half. */
  lemma SubProofSplit(h: Hashing, D: seq<Hash>, m: nat, anchored: bool)
    requires 1 <= m < |D|
    ensures 1 <= Split(|D|) < |D|
    ensures SubProof(h, D, m, anchored)
         == if m <= Split(|D|) then SubProof(h, D[..Split(|D|)], m, anchored) + [Mth(h, D[Split(|D|)..])]
            else SubProof(h, D[Split(|D|)..], m - Split(|D|), false) + [Mth(h, D[..Split(|D|)])]
  {
    hide Mth;
    SplitBounds(|D|);
  }

  /** The goal of the recursion: the subproof rebuilds the root of the prefix and of the list. */
  ghost predicate Rebuilds(h: Hashing, D: seq<Hash>, m: nat, anchored: bool, pinned: Hash)
    requires 1 <= m <= |D|
  {
    Rebuild(h, m, |D|, SubProof(h, D, m, anchored), anchored, pinned) == Some((Mth(h, D[..m]), Mth(h, D)))
  }

  lemma RebuildsLeft(h: Hashing, D: seq<Hash>, m: nat, anchored: bool, pinned: Hash)
    requires 2 <= |D| && 1 <= m <= Split(|D|) < |D|
    requires Rebuilds(h, D[..Split(|D|)], m, anchored, pinned)
    ensures Rebuilds(h, D, m, anchored, pinned)
  {
    hide Mth, SubProof, Rebuild;
    var (L, R) := (D[..Split(|D|)], D[Split(|D|)..]);
    assert L[..m] == D[..m];
    MthSplit(h, D);
    SubProofSplit(h, D, m, anchored);
    RebuildSnoc(h, m, |D|, SubProof(h, L, m, anchored), Mth(h, R), anchored, pinned);
  }

  lemma RebuildsRight(h: Hashing, D: seq<Hash>, m: nat, anchored: bool, pinned: Hash)
    requires 2 <= |D| && 1 <= Split(|D|) < m < |D|
    requires Rebuilds(h, D[Split(|D|)..], m - Split(|D|), false, pinned)
    ensures Rebuilds(h, D, m, anchored, pinned)
  {
    hide Mth, SubProof, Rebuild;
    var (L, R) := (D[..Split(|D|)], D[Split(|D|)..]);
    MthSplit(h, D);
    PrefixSplit(h, D, m);
    SubProofSplit(h, D, m, anchored);
    RebuildSnoc(h, m, |D|, SubProof(h, R, m - |L|, false), Mth(h, L), anchored, pinned);
  }

  /** Completeness, for the recursion. */
  lemma {:induction false} SubProofComplete(h: Hashing, D: seq<Hash>, m: nat, anchored: bool, pinned: Hash)
    requires 1 <= m <= |D| && (anchored ==> pinned == Mth(h, D[..m]))
    ensures Rebuilds(h, D, m, anchored, pinned)
    decreases |D|
  {
    if m == |D| {
      assert D[..m] == D;
    } else {
      SplitBounds(|D|);
      var k := Split(|D|);
      if m <= k {
        assert D[..k][..m] == D[..m];
        SubProofComplete(h, D[..k], m, anchored, pinned);
        RebuildsLeft(h, D, m, anchored, pinned);
      } else {
        SubProofComplete(h, D[k..], m - k, false, pinned);
        RebuildsRight(h, D, m, anchored, pinned);
      }
    }
  }

  /** Completeness: from every prefix, the proof verifies between the root of the prefix and the root
      of the list, and it is empty for the empty and for the full prefix. */
  lemma ConsistencyComplete(h: Hashing, D: seq<Hash>, m: nat)
    requires 1 <= m <= |D|
    ensures VerifyConsistency(h, m, Mth(h, D[..m]), |D|, Mth(h, D), ConsistencyPath(h, D, m))
    ensures ConsistencyPath(h, D, m) == [] <==> m == |D|
  {
    SubProofComplete(h, D, m, true, Mth(h, D[..m]));
    if m < |D| {
      SplitBounds(|D|);
    }
  }

  /** Soundness, for the recursion. */
  lemma {:induction false} SubProofSound(
    h: Hashing, A: seq<Hash>, B: seq<Hash>, path: seq<Hash>, anchored: bool, pinned: Hash)
    returns (c: Option<Collision>)
    requires 1 <= |A| <= |B|
    requires Rebuild(h, |A|, |B|, path, anchored, pinned) == Some((Mth(h, A), Mth(h, B)))
    ensures c.None? ==> A == B[..|A|] && path == SubProof(h, B, |A|, anchored)
    ensures c.Some? ==> c.value.Valid(h) && c.value.SameDomain()
    decreases |B|, 1
  {
    hide Mth, SubProof;
    if |A| == |B| {
      assert B[..|A|] == B;
      SubProofOfAll(h, B, anchored);
      assert !anchored ==> path == [path[0]];
      return EqualRootsCollision(h, A, B);
    }
    SplitBounds(|B|);
    var (rest, last) := (path[..|path| - 1], path[|path| - 1]);
    assert path == rest + [last];
    if |A| <= Split(|B|) {
      c := SubProofSoundLeft(h, A, B, rest, last, anchored, pinned);
    } else {
      c := SubProofSoundRight(h, A, B, rest, last, anchored, pinned);
    }
  }

  /** An old tree inside the left half: only the new root gains a right child. */
  lemma {:induction false} SubProofSoundLeft(
    h: Hashing, A: seq<Hash>, B: seq<Hash>, rest: seq<Hash>, last: Hash, anchored: bool, pinned: Hash)
    returns (c: Option<Collision>)
    requires 2 <= |B| && 1 <= |A| <= Split(|B|) < |B|
    requires Rebuild(h, |A|, |B|, rest + [last], anchored, pinned) == Some((Mth(h, A), Mth(h, B)))
    ensures c.None? ==> A == B[..|A|] && rest + [last] == SubProof(h, B, |A|, anchored)
    ensures c.Some? ==> c.value.Valid(h) && c.value.SameDomain()
    decreases |B|, 0
  {
    hide Mth, SubProof, Rebuild;
    var k := Split(|B|);
    RebuildSnoc(h, |A|, |B|, rest, last, anchored, pinned);
    SubProofSplit(h, B, |A|, anchored);
    MthSplit(h, B);
    var w := Rebuild(h, |A|, k, rest, anchored, pinned).value.1;
    if (w, last) != (Mth(h, B[..k]), Mth(h, B[k..])) {
      return NodeCollision(h, w, last, B);
    }
    assert B[..k][..|A|] == B[..|A|];
    c := SubProofSound(h, A, B[..k], rest, anchored, pinned);
  }

  /** An old tree that reaches past the split point: both trees share the left child. */
  lemma {:induction false} SubProofSoundRight(
    h: Hashing, A: seq<Hash>, B: seq<Hash>, rest: seq<Hash>, last: Hash, anchored: bool, pinned: Hash)
    returns (c: Option<Collision>)
    requires 2 <= |B| && 1 <= Split(|B|) < |A| < |B|
    requires Rebuild(h, |A|, |B|, rest + [last], anchored, pinned) == Some((Mth(h, A), Mth(h, B)))
    ensures c.None? ==> A == B[..|A|] && rest + [last] == SubProof(h, B, |A|, anchored)
    ensures c.Some? ==> c.value.Valid(h) && c.value.SameDomain()
    decreases |B|, 0
  {
    hide Mth, SubProof, Rebuild;
    var k := Split(|B|);
    SplitBounds(|B|);
    SplitUnique(|A|, ILog2(|B| - 1));
    RebuildSnoc(h, |A|, |B|, rest, last, anchored, pinned);
    SubProofSplit(h, B, |A|, anchored);
    MthSplit(h, A);
    MthSplit(h, B);
    var (o, w) := Rebuild(h, |A| - k, |B| - k, rest, false, pinned).value;
    if (last, o) != (Mth(h, A[..k]), Mth(h, A[k..])) {
      return NodeCollision(h, last, o, A);
    }
    if (last, w) != (Mth(h, B[..k]), Mth(h, B[k..])) {
      return NodeCollision(h, last, w, B);
    }
    c := EqualRootsCollision(h, A[..k], B[..k]);
    if c.None? {
      PrefixAssemble(A, B, k);
      c := SubProofSound(h, A[k..], B[k..], rest, false, pinned);
    }
  }

  /** Two other children that hash to the root of `D` collide with its two halves. */
  function NodeCollision(h: Hashing, l: Hash, r: Hash, D: seq<Hash>): (c: Option<Collision>)
    requires |D| >= 2 && h.node(l, r) == Mth(h, D)
    requires 1 <= Split(|D|) < |D| && (l, r) != (Mth(h, D[..Split(|D|)]), Mth(h, D[Split(|D|)..]))
    ensures c.Some? && c.value.Valid(h) && c.value.SameDomain()
  {
    Some(NodeNode(l, r, Mth(h, D[..Split(|D|)]), Mth(h, D[Split(|D|)..])))
  }

  lemma PrefixAssemble(A: seq<Hash>, B: seq<Hash>, k: nat)
    requires k <= |A| <= |B| && A[..k] == B[..k]
    ensures A[k..] == B[k..][..|A| - k] ==> A == B[..|A|]
  {
  }

  /** Soundness: whoever anchored the root of `A` and is shown the root of `B` with an accepted proof
      holds a true extension of `A` (and the honest proof), or a collision. */
  lemma ConsistencySound(h: Hashing, A: seq<Hash>, B: seq<Hash>, path: seq<Hash>) returns (c: Option<Collision>)
    requires 1 <= |A| && 1 <= |B|
    requires VerifyConsistency(h, |A|, Mth(h, A), |B|, Mth(h, B), path)
    ensures c.None? ==> |A| <= |B| && A == B[..|A|] && path == ConsistencyPath(h, B, |A|)
    ensures c.Some? ==> c.value.Valid(h) && c.value.SameDomain()
  {
    c := SubProofSound(h, A, B, path, true, Mth(h, A));
  }
}

/** The bit-wise verification algorithms of RFC 9162 (sections 2.1.3.2 and 2.1.4.2), which walk a
    proof once from the leaf up with two shifting counters, and the proof that they accept exactly
    what the recursive verifiers of `MerkleSpec` accept. */
module Rfc9162 {
  import opened Bits
  import opened Digests
  import opened MerkleSpec

  // ------------------------------------------------------------------ one level up

  /** What the lowest level contributes to the path of leaf `m` of `n`: a left sibling for an odd leaf,
      a right one for a paired even leaf, nothing for an unpaired last leaf. */
  function LowestSide(m: nat, n: nat): seq<Side>
    requires m < n
  {
    if m % 2 == 1 then [Left] else if m + 1 < n then [Right] else []
  }

  lemma SidesSplit(m: nat, n: nat)
    requires m < n && n >= 2
    ensures 1 <= Split(n) < n
    ensures m < Split(n) ==> Sides(m, n) == Sides(m, Split(n)) + [Right]
    ensures m >= Split(n) ==> Sides(m, n) == Sides(m - Split(n), n - Split(n)) + [Left]
  {
    SplitBounds(n);
  }

  lemma SidesOfOne()
    ensures Sides(0, 1) == []
  {
  }

  /** The sides, defined from the top by split points, computed from the bottom by halving. */
  lemma {:induction false} SidesUp(m: nat, n: nat)
    requires m < n
    ensures Sides(m, n) == LowestSide(m, n) + Sides(m / 2, (n + 1) / 2)
    decreases n
  {
    hide Sides, Split;
    SidesOfOne();
    if n >= 2 {
      SidesSplit(m, n);
      var k := Split(n);
      if n == 2 {
        assert Sides(m, 2) == LowestSide(m, 2) + [];
      } else {
        SplitHalves(n);
        SidesSplit(m / 2, (n + 1) / 2);
        if m < k {
          SidesUp(m, k);
          assert (k + 1) / 2 == k / 2 && m / 2 < k / 2;
        } else {
          SidesUp(m - k, n - k);
          assert (m - k) / 2 == m / 2 - k / 2;
        }
      }
    }
  }

  /** The sides on which a consistency proof of `m` in `n` continues above its deepest node: on the left,
      a node is hashed into both roots, on the right only into the new one. */
  function ConsistencySides(m: nat, n: nat): seq<Side>
    requires 1 <= m <= n
    decreases n
  {
    if m == n then []
    else
      var k := Split(n);
      SplitBounds(n);
      if m <= k then ConsistencySides(m, k) + [Right] else ConsistencySides(m - k, n - k) + [Left]
  }

  /** The sides of the half in which the old tree ends. */
  lemma ConsistencySidesSplit(m: nat, n: nat)
    requires 1 <= m < n
    ensures 1 <= Split(n) < n
    ensures m <= Split(n) ==> ConsistencySides(m, n) == ConsistencySides(m, Split(n)) + [Right]
    ensures m > Split(n) ==> ConsistencySides(m, n) == ConsistencySides(m - Split(n), n - Split(n)) + [Left]
  {
    SplitBounds(n);
  }

  lemma ConsistencySidesOfAll(n: nat)
    requires n >= 1
    ensures ConsistencySides(n, n) == []
  {
  }

  /** For an even prefix nothing happens on the lowest level. */
  lemma {:induction false} ConsistencySidesUp(m: nat, n: nat)
    requires 1 <= m <= n && m % 2 == 0
    ensures ConsistencySides(m, n) == ConsistencySides(m / 2, (n + 1) / 2)
    decreases n
  {
    hide ConsistencySides, Split;
    if m == n {
      ConsistencySidesOfAll(n);
      ConsistencySidesOfAll(n / 2);
    } else {
      ConsistencySidesSplit(m, n);
      ConsistencySidesSplit(m / 2, (n + 1) / 2);
      SplitHalves(n);
      var k := Split(n);
      if m <= k {
        ConsistencySidesUp(m, k);
      } else {
        ConsistencySidesUp(m - k, n - k);
        assert (m - k) / 2 == m / 2 - k / 2;
      }
    }
  }

  /** For an odd prefix the proof continues like the inclusion path of the last leaf of the prefix. */
  lemma {:induction false} ConsistencySidesOdd(m: nat, n: nat)
    requires 1 <= m <= n && m % 2 == 1 && (m == n ==> n == 1)
    ensures ConsistencySides(m, n) == Sides(m - 1, n)
    decreases n
  {
    if m < n {
      var k := Split(n);
      SplitBounds(n);
      if n > 2 {
        SplitHalves(n);
      }
      if m <= k {
        ConsistencySidesOdd(m, k);
      } else {
        ConsistencySidesOdd(m - k, n - k);
      }
    }
  }

  /** The old tree stays on the left spine exactly when its size is a power of two. */
  lemma {:induction false} LeftSpine(m: nat, n: nat)
    requires 1 <= m < n
    ensures Left !in ConsistencySides(m, n) <==> IsPow2(m)
    decreases n
  {
    var k := Split(n);
    SplitBounds(n);
    Pow2IsPow2(ILog2(n - 1));
    if m < k {
      LeftSpine(m, k);
    } else if m > k {
      assert (ConsistencySides(m - k, n - k) + [Left])[|ConsistencySides(m - k, n - k)|] == Left;
      BetweenPowers(m, ILog2(n - 1));
    }
  }

  lemma BetweenPowers(m: nat, e: nat)
    requires Pow2(e) < m < 2 * Pow2(e)
    ensures !IsPow2(m)
  {
  }

  // ------------------------------------------------------------------ the walk

  /** The side on which the next proof node stands. */
  function NextSide(fn: nat, sn: nat): Side {
    if fn % 2 == 1 || fn == sn then Left else Right
  }

  /** After a proof node is consumed both counters shift right: past all levels without a sibling if the
      node was the last one of its level, and then once more. */
  method Advance(fn: nat, sn: nat) returns (fn': nat, sn': nat)
    requires fn <= sn && sn > 0
    ensures fn' <= sn' < sn
    ensures Sides(fn, sn + 1) == [NextSide(fn, sn)] + Sides(fn', sn' + 1)
  {
    hide Sides;
    fn', sn' := fn, sn;
    if fn % 2 == 1 || fn == sn {
      while fn' % 2 == 0 && fn' != 0
        invariant fn' <= sn' <= sn && sn' > 0
        invariant fn' % 2 == 1 || fn' == sn'
        invariant Sides(fn', sn' + 1) == Sides(fn, sn + 1)
        decreases fn'
      {
        SidesUp(fn', sn' + 1);
        fn', sn' := fn' / 2, sn' / 2;
      }
    }
    SidesUp(fn', sn' + 1);
    fn', sn' := fn' / 2, sn' / 2;
  }

  // ------------------------------------------------------------------ inclusion

  /** Bare siblings with the sides of their position. */
  function WithSides(path: seq<Hash>, sides: seq<Side>): (r: seq<ProofNode>)
    requires |path| == |sides|
    ensures PathSides(r) == sides
  {
    seq(|path|, i requires 0 <= i < |path| => ProofNode(path[i], sides[i]))
  }

  lemma WithSidesSnoc(path: seq<Hash>, sides: seq<Side>, i: nat)
    requires i < |path| && i < |sides|
    ensures WithSides(path[..i + 1], sides[..i + 1])
         == WithSides(path[..i], sides[..i]) + [ProofNode(path[i], sides[i])]
  {
  }

  lemma SidesNonEmpty(m: nat, n: nat)
    requires m < n
    ensures Sides(m, n) == [] <==> n == 1
  {
  }

  /** Section 2.1.3.2 of RFC 9162. */
  method VerifyInclusionByBits(h: Hashing, c: Hash, m: nat, n: nat, path: seq<Hash>, root: Hash) returns (ok: bool)
    ensures ok <==> m < n && |path| == |Sides(m, n)| && VerifyInclusion(h, c, m, n, WithSides(path, Sides(m, n)), root)
  {
    if m >= n {
      return false;
    }
    hide Sides, FoldPath;
    ghost var sides := Sides(m, n);
    var fn, sn := m, n - 1;
    var r := h.leaf(c);
    FoldPathEmpty(h, r);
    for i := 0 to |path|
      invariant fn <= sn && i <= |sides| && sides[i..] == Sides(fn, sn + 1)
      invariant r == FoldPath(h, h.leaf(c), WithSides(path[..i], sides[..i]))
    {
      SidesNonEmpty(fn, sn + 1);
      if sn == 0 {
        return false;
      }
      var p := path[i];
      WithSidesSnoc(path, sides, i);
      FoldPathSnoc(h, h.leaf(c), WithSides(path[..i], sides[..i]), ProofNode(p, sides[i]));
      var side := NextSide(fn, sn);
      if side == Left {
        r := h.node(p, r);
      } else {
        r := h.node(r, p);
      }
      fn, sn := Advance(fn, sn);
      assert sides[i] == sides[i..][0] == side && sides[i + 1..] == sides[i..][1..];
    }
    SidesNonEmpty(fn, sn + 1);
    assert path[..|path|] == path;
    assert |path| == |sides| ==> sides[..|path|] == sides;
    ok := sn == 0 && r == root;
  }

  lemma FoldPathEmpty(h: Hashing, acc: Hash)
    ensures FoldPath(h, acc, []) == acc
  {
  }

  // ------------------------------------------------------------------ consistency

  /** One step of the two running roots. */
  function PairStep(h: Hashing, acc: (Hash, Hash), node: ProofNode): (Hash, Hash) {
    match node.side
    case Left => (h.node(node.sibling, acc.0), h.node(node.sibling, acc.1))
    case Right => (acc.0, h.node(acc.1, node.sibling))
  }

  function PairFold(h: Hashing, acc: (Hash, Hash), path: seq<ProofNode>): (Hash, Hash)
    decreases |path|
  {
    if path == [] then acc
    else PairStep(h, PairFold(h, acc, path[..|path| - 1]), path[|path| - 1])
  }

  lemma PairFoldSnoc(h: Hashing, acc: (Hash, Hash), path: seq<ProofNode>, node: ProofNode)
    ensures PairFold(h, acc, path + [node]) == PairStep(h, PairFold(h, acc, path), node)
  {
  }

  /** The deepest node and the nodes above it; an anchored proof on the left spine starts from the
      pinned root and has no deepest node of its own. */
  function Seeded(sides: seq<Side>, path: seq<Hash>, anchored: bool, pinned: Hash): seq<Hash> {
    if anchored && Left !in sides then [pinned] + path else path
  }

  /** The recursive rebuilding is a fold from the deepest node along the sides. */
  ghost predicate RebuildIsFold(h: Hashing, m: nat, n: nat, path: seq<Hash>, anchored: bool, pinned: Hash)
    requires 1 <= m <= n
  {
    var sides := ConsistencySides(m, n);
    var nodes := Seeded(sides, path, anchored, pinned);
    Rebuild(h, m, n, path, anchored, pinned)
    == if |nodes| == |sides| + 1 then Some(PairFold(h, (nodes[0], nodes[0]), WithSides(nodes[1..], sides))) else None
  }

  lemma {:induction false} RebuildFolds(h: Hashing, m: nat, n: nat, path: seq<Hash>, anchored: bool, pinned: Hash)
    requires 1 <= m <= n
    ensures RebuildIsFold(h, m, n, path, anchored, pinned)
    decreases n
  {
    if m < n && path != [] {
      SplitBounds(n);
      var (rest, last) := (path[..|path| - 1], path[|path| - 1]);
      assert path == rest + [last];
      if m <= Split(n) {
        RebuildFolds(h, m, Split(n), rest, anchored, pinned);
      } else {
        RebuildFolds(h, m - Split(n), n - Split(n), rest, false, pinned);
      }
      RebuildFoldStep(h, m, n, rest, last, anchored, pinned);
    }
  }

  lemma RebuildFoldStep(h: Hashing, m: nat, n: nat, rest: seq<Hash>, last: Hash, anchored: bool, pinned: Hash)
    requires 1 <= m < n && 1 <= Split(n) < n
    requires m <= Split(n) ==> RebuildIsFold(h, m, Split(n), rest, anchored, pinned)
    requires m > Split(n) ==> RebuildIsFold(h, m - Split(n), n - Split(n), rest, false, pinned)
    ensures RebuildIsFold(h, m, n, rest + [last], anchored, pinned)
  {
    hide Rebuild, ConsistencySides, PairFold;
    ConsistencySidesSplit(m, n);
    RebuildSnoc(h, m, n, rest, last, anchored, pinned);
    var left := m > Split(n);
    var inner := if left then ConsistencySides(m - Split(n), n - Split(n)) else ConsistencySides(m, Split(n));
    var side := if left then Left else Right;
    var nodes := Seeded(inner, rest, anchored && !left, pinned);
    assert ConsistencySides(m, n) == inner + [side];
    assert Left in inner + [side] <==> Left in inner || left;
    assert Seeded(inner + [side], rest + [last], anchored, pinned) == nodes + [last];
    if |nodes| == |inner| + 1 {
      FoldSnoc(h, nodes, inner, last, side);
    }
  }

  lemma FoldSnoc(h: Hashing, nodes: seq<Hash>, sides: seq<Side>, last: Hash, side: Side)
    requires |nodes| == |sides| + 1
    ensures PairFold(h, (nodes[0], nodes[0]), WithSides((nodes + [last])[1..], sides + [side]))
         == PairStep(h, PairFold(h, (nodes[0], nodes[0]), WithSides(nodes[1..], sides)), ProofNode(last, side))
  {
    var seed := (nodes[0], nodes[0]);
    assert WithSides((nodes + [last])[1..], sides + [side]) == WithSides(nodes[1..], sides) + [ProofNode(last, side)];
    PairFoldSnoc(h, seed, WithSides(nodes[1..], sides), ProofNode(last, side));
  }

  /** Skips the levels on which the prefix is even: there its last node is complete in both trees. */
  method SkipCommonLevels(m: nat, n: nat) returns (fn: nat, sn: nat)
    requires 1 <= m < n
    ensures fn < sn && ConsistencySides(m, n) == Sides(fn, sn + 1)
  {
    hide ConsistencySides, Sides;
    fn, sn := m - 1, n - 1;
    while fn % 2 == 1
      invariant fn < sn && ConsistencySides(m, n) == ConsistencySides(fn + 1, sn + 1)
      decreases fn
    {
      ConsistencySidesUp(fn + 1, sn + 1);
      fn, sn := fn / 2, sn / 2;
    }
    ConsistencySidesOdd(fn + 1, sn + 1);
  }

  /** Section 2.1.4.2 of RFC 9162, for two different non-empty sizes. */
  method VerifyConsistencyByBits(h: Hashing, m: nat, oldRoot: Hash, n: nat, newRoot: Hash, path: seq<Hash>)
    returns (ok: bool)
    requires 1 <= m < n
    ensures ok <==> VerifyConsistency(h, m, oldRoot, n, newRoot, path)
  {
    hide Rebuild, ConsistencySides, PairFold, Sides, IsPow2;
    ghost var sides := ConsistencySides(m, n);
    RebuildFolds(h, m, n, path, true, oldRoot);
    LeftSpine(m, n);
    if path == [] {
      EmptyProofFails(h, m, n, oldRoot);
      return false;
    }
    var nodes := if IsPow2(m) then [oldRoot] + path else path;
    var fn, sn := SkipCommonLevels(m, n);
    var fr, sr := nodes[0], nodes[0];
    ghost var seed := (nodes[0], nodes[0]);
    ghost var rest := nodes[1..];
    PairFoldEmpty(h, seed);
    for i := 1 to |nodes|
      invariant fn <= sn && i - 1 <= |sides| && sides[i - 1..] == Sides(fn, sn + 1)
      invariant (fr, sr) == PairFold(h, seed, WithSides(rest[..i - 1], sides[..i - 1]))
    {
      SidesNonEmpty(fn, sn + 1);
      if sn == 0 {
        return false;
      }
      var c := nodes[i];
      WithSidesSnoc(rest, sides, i - 1);
      PairFoldSnoc(h, seed, WithSides(rest[..i - 1], sides[..i - 1]), ProofNode(c, sides[i - 1]));
      var side := NextSide(fn, sn);
      if side == Left {
        fr, sr := h.node(c, fr), h.node(c, sr);
      } else {
        sr := h.node(sr, c);
      }
      fn, sn := Advance(fn, sn);
      assert sides[i - 1] == sides[i - 1..][0] == side && sides[i..] == sides[i - 1..][1..];
    }
    SidesNonEmpty(fn, sn + 1);
    assert rest[..|nodes| - 1] == rest;
    assert |rest| == |sides| ==> sides[..|nodes| - 1] == sides;
    ok := fr == oldRoot && sr == newRoot && sn == 0;
  }

  lemma EmptyProofFails(h: Hashing, m: nat, n: nat, pinned: Hash)
    requires 1 <= m < n
    ensures Rebuild(h, m, n, [], true, pinned).None?
  {
  }

  lemma PairFoldEmpty(h: Hashing, acc: (Hash, Hash))
    ensures PairFold(h, acc, []) == acc
  {
  }
}

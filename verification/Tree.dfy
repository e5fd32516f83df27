/** The append-only tree with cached complete-subtree levels. */
module Tree {
  import opened Bits
  import opened Digests
  import opened MerkleSpec

  // ------------------------------------------------------------------ the level layout

  /** The leaves `[j*2^k, (j+1)*2^k)` of a list that has at least `j+1` complete blocks of `2^k`. */
  ghost function Block(D: seq<Hash>, k: nat, j: nat): (b: seq<Hash>)
    requires j < Shr(|D|, k)
    ensures |b| == Pow2(k)
  {
    BlockBounds(|D|, k, j);
    D[j * Pow2(k)..(j + 1) * Pow2(k)]
  }

  lemma BlockBounds(n: nat, k: nat, j: nat)
    requires j < Shr(n, k)
    ensures j * Pow2(k) <= (j + 1) * Pow2(k) <= n
    ensures (j + 1) * Pow2(k) - j * Pow2(k) == Pow2(k)
  {
  }

  /** Level `k` holds the Merkle Tree Hash of every complete block of `2^k` leaves, and nothing else. */
  ghost predicate LevelHolds(h: Hashing, D: seq<Hash>, k: nat, level: seq<Hash>) {
    |level| == Shr(|D|, k) && forall j | 0 <= j < |level| :: level[j] == Mth(h, Block(D, k, j))
  }

  function LevelCount(n: nat): nat {
    if n == 0 then 1 else ILog2(n) + 1
  }

  ghost predicate LevelsHold(h: Hashing, D: seq<Hash>, levels: seq<seq<Hash>>) {
    |levels| == LevelCount(|D|) && forall k | 0 <= k < |levels| :: LevelHolds(h, D, k, levels[k])
  }

  /** The cached levels are a function of the leaves. */
  lemma LevelsUnique(h: Hashing, D: seq<Hash>, levels: seq<seq<Hash>>, levels': seq<seq<Hash>>)
    requires LevelsHold(h, D, levels) && LevelsHold(h, D, levels')
    ensures levels == levels'
  {
    forall k | 0 <= k < |levels| ensures levels[k] == levels'[k] {
      assert LevelHolds(h, D, k, levels[k]) && LevelHolds(h, D, k, levels'[k]);
    }
  }

  /** Appending moves no complete block. */
  lemma BlockStable(D: seq<Hash>, E: seq<Hash>, k: nat, j: nat)
    requires j < Shr(|D|, k)
    ensures j < Shr(|D + E|, k) && Block(D + E, k, j) == Block(D, k, j)
  {
    ShrMonotone(|D|, |D + E|, k);
    BlockBounds(|D|, k, j);
  }

  /** The levels are append-only: the prefix of each level is that level of the prefix of the log. */
  lemma LevelsArePrefixes(h: Hashing, D: seq<Hash>, E: seq<Hash>, levels: seq<seq<Hash>>, grown: seq<seq<Hash>>)
    requires LevelsHold(h, D, levels) && LevelsHold(h, D + E, grown)
    ensures |levels| <= |grown| && forall k | 0 <= k < |levels| :: levels[k] <= grown[k]
  {
    if |D| > 0 {
      ILog2Monotone(|D|, |D + E|);
    }
    forall k | 0 <= k < |levels| ensures levels[k] <= grown[k] {
      assert LevelHolds(h, D, k, levels[k]) && LevelHolds(h, D + E, k, grown[k]);
      ShrMonotone(|D|, |D + E|, k);
      forall j | 0 <= j < |levels[k]| ensures levels[k][j] == grown[k][j] {
        BlockStable(D, E, k, j);
      }
    }
  }

  /** Two neighbouring blocks make one block of the next level. */
  lemma BlockPair(h: Hashing, D: seq<Hash>, k: nat, j: nat)
    requires 2 * j + 1 < Shr(|D|, k)
    ensures j < Shr(|D|, k + 1)
    ensures Mth(h, Block(D, k + 1, j)) == h.node(Mth(h, Block(D, k, 2 * j)), Mth(h, Block(D, k, 2 * j + 1)))
  {
    hide Mth, Shr, Low;
    ShrStep(|D|, k);
    BlockBounds(|D|, k, 2 * j);
    BlockBounds(|D|, k, 2 * j + 1);
    MulDouble(j, Pow2(k));
    MulDouble(j + 1, Pow2(k));
    assert Pow2(k + 1) == 2 * Pow2(k);
    MthJoinRange(h, D, (2 * j) * Pow2(k), (2 * j + 1) * Pow2(k), (2 * j + 2) * Pow2(k), k);
  }

  /** An aligned range of `2^k` leaves inside the list is a block. */
  lemma BlockAt(D: seq<Hash>, k: nat, lo: nat)
    requires lo % Pow2(k) == 0 && lo + Pow2(k) <= |D|
    ensures Quotient(lo, Pow2(k)) < Shr(|D|, k) && Block(D, k, Quotient(lo, Pow2(k))) == D[lo..lo + Pow2(k)]
  {
    hide Mth;
    hide ILog2, Pow2, Shr, Low;
    var j := Quotient(lo, Pow2(k));
    ExactDivision(lo, Pow2(k));
    ShrLow(|D|, k);
    assert (j + 1) * Pow2(k) == lo + Pow2(k);
    BlockIndexBelow(j + 1, Shr(|D|, k), Pow2(k), Low(|D|, k));
  }

  lemma BlockIndexBelow(a: nat, b: nat, p: nat, r: nat)
    requires a * p <= b * p + r && r < p
    ensures a <= b
  {
    if a > b {
      MulMonotone(b + 1, a, p);
      MulStep(b, p);
    }
  }

  // ------------------------------------------------------------------ alignment of the recursions

  /** Every range the proof recursions visit starts at a multiple of the least power of two that is
      at least its length. */
  predicate Aligned(lo: nat, len: nat)
    requires len >= 1
  {
    lo % CeilPow2(len) == 0
  }

  lemma AlignedAtZero(len: nat)
    requires len >= 1
    ensures Aligned(0, len)
  {
  }

  /** The invariant is inherited by both halves, and the left half is a complete subtree. */
  lemma AlignedSplit(lo: nat, len: nat)
    requires len >= 2 && Aligned(lo, len)
    ensures 1 <= Split(len) < len
    ensures Aligned(lo, Split(len)) && Aligned(lo + Split(len), len - Split(len))
    ensures IsPow2(Split(len)) && CeilPow2(Split(len)) == Split(len)
  {
    SplitBounds(len);
    var e := ILog2(len - 1);
    var k := Split(len);
    Pow2IsPow2(e);
    CeilPow2OfPow2(e);
    Pow2Divides(lo, e, e + 1);
    CeilPow2Is(len - k);
    CeilPow2Is(k);
    CeilLog2Monotone(len - k, k);
    CeilPow2Exponent(e);
    ExactDivision(lo, k);
    MulDivMod(lo / k + 1, k);
    assert lo + k == (lo / k + 1) * k;
    Pow2Divides(lo + k, CeilLog2(len - k), e);
  }

  lemma CeilPow2OfPow2(e: nat)
    ensures CeilPow2(Pow2(e)) == Pow2(e)
  {
    hide ILog2;
    if e > 0 {
      SplitUnique(Pow2(e), e - 1);
    }
  }

  lemma CeilPow2Exponent(e: nat)
    ensures CeilLog2(Pow2(e)) == e
  {
  }

  // ------------------------------------------------------------------ cost accounting

  /** Completing `TrailingZeros(n + 1)` subtrees clears that many bits and sets one. */
  lemma {:induction false} CarryCount(n: nat)
    ensures TrailingZeros(n + 1) + Popcount(n + 1) == Popcount(n) + 1
  {
    if n % 2 == 1 {
      assert (n + 1) / 2 == n / 2 + 1;
      CarryCount(n / 2);
    } else {
      assert (n + 1) / 2 == n / 2;
    }
  }

  /** The node hashes that the hash of an aligned range of `n` leaves costs: none for a cached subtree. */
  function RangeHashes(n: nat): nat
    requires n >= 1
  {
    PopcountPositive(n);
    Popcount(n) - 1
  }

  /** The node hashes that the inclusion path of leaf `m` of `n` costs: those of the siblings on its right. */
  function PathHashes(m: nat, n: nat): nat
    requires m < n
    decreases n
  {
    if n == 1 then 0
    else
      SplitBounds(n);
      var k := Split(n);
      if m < k then PathHashes(m, k) + RangeHashes(n - k) else PathHashes(m - k, n - k)
  }

  /** The node hashes that the proof of the first `m` of `n` leaves costs. */
  function ProofHashes(m: nat, n: nat, anchored: bool): nat
    requires 1 <= m <= n
    decreases n
  {
    if m == n then if anchored then 0 else RangeHashes(n)
    else
      SplitBounds(n);
      var k := Split(n);
      if m <= k then ProofHashes(m, k, anchored) + RangeHashes(n - k) else ProofHashes(m - k, n - k, false)
  }

  lemma RangeHashesSplit(n: nat)
    requires n >= 1
    ensures IsPow2(n) ==> RangeHashes(n) == 0
    ensures !IsPow2(n) ==> n >= 2 && 1 <= Split(n) < n && RangeHashes(Split(n)) == 0
    ensures !IsPow2(n) ==> RangeHashes(n) == 1 + RangeHashes(n - Split(n))
  {
    if IsPow2(n) {
      IsPow2IsPow2(n);
      Pow2IsPow2(TrailingZeros(n));
    } else {
      SplitTakesTopBit(n);
      Pow2IsPow2(ILog2(n - 1));
    }
  }

  lemma PathHashesStep(m: nat, n: nat)
    requires m < n
    ensures n == 1 ==> PathHashes(m, n) == 0
    ensures n >= 2 ==>
              && 1 <= Split(n) < n
              && PathHashes(m, n) == if m < Split(n) then PathHashes(m, Split(n)) + RangeHashes(n - Split(n))
                                     else PathHashes(m - Split(n), n - Split(n))
  {
    if n >= 2 {
      SplitBounds(n);
    }
  }

  /** The left half is a cached subtree and costs nothing. */
  lemma ProofHashesStep(m: nat, n: nat, anchored: bool)
    requires 1 <= m <= n
    ensures m == n ==> ProofHashes(m, n, anchored) == if anchored then 0 else RangeHashes(n)
    ensures m < n ==>
              && 1 <= Split(n) < n && RangeHashes(Split(n)) == 0
              && ProofHashes(m, n, anchored)
                 == if m <= Split(n) then ProofHashes(m, Split(n), anchored) + RangeHashes(n - Split(n))
                    else ProofHashes(m - Split(n), n - Split(n), false)
  {
    if m < n {
      SplitBounds(n);
      Pow2IsPow2(ILog2(n - 1));
    }
  }

  class MerkleTree {
    const hashing: Hashing
    var levels: seq<seq<Hash>>
    var size: nat
    /** The appended commitments, which the tree itself does not keep. */
    ghost var leaves: seq<Hash>
    /** How often `node` has been evaluated by appends so far. */
    ghost var nodeHashes: nat

    ghost predicate Valid()
      reads this
    {
      && size == |leaves| < TWO_TO_THE_64
      && LevelsHold(hashing, leaves, levels)
      && nodeHashes + Popcount(size) == size
    }

    constructor (h: Hashing)
      ensures Valid() && hashing == h && leaves == [] && nodeHashes == 0
    {
      hashing := h;
      levels := [[]];
      size := 0;
      leaves := [];
      nodeHashes := 0;
    }

    /** Append one commitment: push its leaf hash, then fold up every subtree that completed. The size
        is a `u64`, so there must be room for one more entry. */
    method Append(entry: Hash)
      requires Valid() && size + 1 < TWO_TO_THE_64
      modifies this
      ensures Valid() && leaves == old(leaves) + [entry]
      ensures nodeHashes == old(nodeHashes) + TrailingZeros(|leaves|)
    {
      hide Carried, LevelsHold, Popcount, TrailingZeros;
      ghost var D := leaves;
      LevelZeroExists(hashing, D, levels);
      levels := levels[0 := levels[0] + [hashing.leaf(entry)]];
      size := size + 1;
      leaves := leaves + [entry];
      var completed := TrailingZeros(size);
      if |levels| <= completed {
        levels := levels + seq(completed + 1 - |levels|, _ => []);
      }
      AfterLeafPush(hashing, D, entry, old(levels), levels);
      for k := 0 to completed
        invariant size == |D| + 1 && leaves == D + [entry]
        invariant Carried(hashing, D, entry, k, levels)
        invariant nodeHashes == old(nodeHashes) + k
      {
        CarryInBounds(hashing, D, entry, k, levels);
        var lvl := levels[k];
        var n := |lvl|;
        var p := hashing.node(lvl[n - 2], lvl[n - 1]);
        nodeHashes := nodeHashes + 1;
        ghost var before := levels;
        levels := levels[k + 1 := levels[k + 1] + [p]];
        CarryStep(hashing, D, entry, k, before, levels);
      }
      CarryEnd(hashing, D, entry, levels);
      CarryCount(|D|);
      assert LevelsHold(hashing, leaves, levels);
    }

    /** The leaf hash of entry `i`. */
    function LeafHashAt(i: nat): (r: Option<Hash>)
      requires Valid()
      reads this
      ensures r == if i < |leaves| then Some(hashing.leaf(leaves[i])) else None
    {
      if i < size then
        assert LevelHolds(hashing, leaves, 0, levels[0]);
        assert Block(leaves, 0, i) == leaves[i..i + 1];
        Some(levels[0][i])
      else None
    }

    /** The root of the whole tree. */
    method RootNow() returns (root: Option<Hash>, ghost hashes: nat)
      requires Valid()
      ensures root == Root(hashing, leaves)
      ensures hashes == if size == 0 then 0 else RangeHashes(size)
    {
      assert leaves[..size] == leaves;
      root, hashes := RootAtSize(size);
    }

    /** The root of the first `s` entries, folding the peaks of the set bits of `s` from the low end, with a
        node hash for every peak but one. */
    method RootAtSize(s: nat) returns (acc: Option<Hash>, ghost hashes: nat)
      requires Valid() && s <= size
      ensures acc == Root(hashing, leaves[..s])
      ensures hashes == if s == 0 then 0 else RangeHashes(s)
    {
      hide Root, LevelsHold, Shr, LastLeaves, Popcount, Low;
      hashes := 0;
      if s == 0 {
        EmptyRoot(hashing, leaves[..s]);
        return None, 0;
      }
      acc := None;
      NoLeaves(hashing, leaves, s);
      NoBits(s);
      for k := 0 to 64
        invariant acc == Root(hashing, LastLeaves(leaves, s, k))
        invariant hashes + (if acc.None? then 0 else 1) == Popcount(Low(s, k))
      {
        LowPopcount(s, k);
        if Shr(s, k) % 2 == 0 {
          ClearBit(leaves, s, k);
          continue;
        }
        PeakStep(hashing, leaves, levels, s, k);
        var peak := levels[k][Shr(s, k) - 1];
        match acc {
          case None =>
            acc := Some(peak);
          case Some(a) =>
            acc := Some(hashing.node(peak, a));
            hashes := hashes + 1;
        }
      }
      AllLeaves(leaves, s);
      AllBits(s);
      SomeRoot(hashing, leaves[..s]);
    }

    /** A cached complete subtree hash: leaves `[j*2^k, (j+1)*2^k)`. */
    function SubtreeHash(k: nat, j: nat): (r: Hash)
      requires Valid() && j < Shr(size, k)
      reads this
      ensures r == Mth(hashing, Block(leaves, k, j))
    {
      LevelExists(size, k);
      assert LevelHolds(hashing, leaves, k, levels[k]);
      levels[k][j]
    }

    /** The hash of an aligned range: a lookup for a power-of-two length, otherwise one split. */
    method RangeHash(lo: nat, len: nat) returns (r: Hash, ghost hashes: nat)
      requires Valid() && len >= 1 && lo + len <= size && Aligned(lo, len)
      ensures r == Mth(hashing, leaves[lo..lo + len])
      ensures hashes == RangeHashes(len)
      decreases len
    {
      hide Mth, LevelsHold, Aligned, Split, Shr, Block, IsPow2, TrailingZeros, Quotient, Popcount, RangeHashes;
      RangeHashesSplit(len);
      if IsPow2(len) {
        RangeIsBlock(leaves, lo, len);
        return SubtreeHash(TrailingZeros(len), Quotient(lo, len)), 0;
      }
      RangeSplits(hashing, leaves, lo, len);
      var k := Split(len);
      var left, leftHashes := RangeHash(lo, k);
      var right, rightHashes := RangeHash(lo + k, len - k);
      r := hashing.node(left, right);
      hashes := leftHashes + rightHashes + 1;
    }

    /** The inclusion path of leaf `m` in the prefix of size `s`: the audit path of that prefix, whatever
        has been appended after it. */
    method InclusionPath(m: nat, s: nat) returns (path: seq<ProofNode>, ghost hashes: nat)
      requires Valid() && m < s <= size
      ensures path == AuditPath(hashing, leaves[..s], m)
      ensures hashes == PathHashes(m, s)
    {
      hide Mth;
      hide LevelsHold, Popcount, AuditPath, Aligned, PathHashes;
      AlignedAtZero(s);
      assert leaves[0..s] == leaves[..s];
      path, hashes := PathInto(m, 0, s, []);
    }

    /** Pushes the siblings of leaf `m` inside `[lo, lo+len)`, leaf-up. */
    method PathInto(m: nat, lo: nat, len: nat, path: seq<ProofNode>) returns (path': seq<ProofNode>, ghost hashes: nat)
      requires Valid() && lo <= m < lo + len <= size && Aligned(lo, len)
      ensures path' == path + AuditPath(hashing, leaves[lo..lo + len], m - lo)
      ensures hashes == PathHashes(m - lo, len)
      decreases len
    {
      hide Mth, LevelsHold, Aligned, AuditPath, Split, Shr, Block, IsPow2, TrailingZeros, Quotient;
      hide RangeHashes, PathHashes;
      PathHashesStep(m - lo, len);
      if len == 1 {
        AuditPathOfOne(hashing, leaves[lo..lo + len]);
        return path, 0;
      }
      AlignedSplit(lo, len);
      AuditPathSplitRange(hashing, leaves, lo, len, m);
      var k := Split(len);
      if m - lo < k {
        path', hashes := PathInto(m, lo, k, path);
        var sibling, siblingHashes := RangeHash(lo + k, len - k);
        path' := path' + [ProofNode(sibling, Right)];
        hashes := hashes + siblingHashes;
      } else {
        path', hashes := PathInto(m, lo + k, len - k, path);
        RangeIsBlock(leaves, lo, k);
        var sibling := SubtreeHash(TrailingZeros(k), Quotient(lo, k));
        path' := path' + [ProofNode(sibling, Left)];
      }
    }

    /** The consistency proof from the prefix of size `oldSize` to the current tree. */
    method ConsistencyPathFrom(oldSize: nat) returns (path: seq<Hash>, ghost hashes: nat)
      requires Valid() && oldSize <= size
      ensures path == ConsistencyPath(hashing, leaves, oldSize)
      ensures hashes == if oldSize == 0 then 0 else ProofHashes(oldSize, size, true)
    {
      hide Mth;
      path, hashes := [], 0;
      if oldSize > 0 {
        hide LevelsHold, Popcount, Aligned, ProofHashes;
        AlignedAtZero(size);
        assert leaves[0..size] == leaves;
        path, hashes := SubProofInto(oldSize, 0, size, true, path);
      }
    }

    /** Pushes the nodes proving the first `m` leaves of `[lo, lo+len)`, deepest first. */
    method SubProofInto(m: nat, lo: nat, len: nat, anchored: bool, path: seq<Hash>)
      returns (path': seq<Hash>, ghost hashes: nat)
      requires Valid() && 1 <= m <= len && lo + len <= size && Aligned(lo, len)
      ensures path' == path + SubProof(hashing, leaves[lo..lo + len], m, anchored)
      ensures hashes == ProofHashes(m, len, anchored)
      decreases len
    {
      hide Mth, LevelsHold, Aligned, SubProof, Split, Popcount, RangeHashes, ProofHashes, IsPow2;
      ProofHashesStep(m, len, anchored);
      if m == len {
        SubProofOfAll(hashing, leaves[lo..lo + len], anchored);
        if !anchored {
          var top, topHashes := RangeHash(lo, len);
          return path + [top], topHashes;
        }
        return path, 0;
      }
      AlignedSplit(lo, len);
      SubProofSplitRange(hashing, leaves, lo, len, m, anchored);
      var k := Split(len);
      if m <= k {
        path', hashes := SubProofInto(m, lo, k, anchored, path);
        var right, rightHashes := RangeHash(lo + k, len - k);
        path' := path' + [right];
        hashes := hashes + rightHashes;
      } else {
        path', hashes := SubProofInto(m - k, lo + k, len - k, false, path);
        var left, leftHashes := RangeHash(lo, k);
        path' := path' + [left];
        hashes := hashes + leftHashes;
      }
    }
  }

  // ------------------------------------------------------------------ steps of `Append`

  /** The loop invariant of `Append`: the levels up to `k` are those of the longer list, the levels
      above are still those of the old leaves. */
  ghost predicate Carried(h: Hashing, D: seq<Hash>, entry: Hash, k: nat, levels: seq<seq<Hash>>) {
    && TrailingZeros(|D| + 1) < |levels| == LevelCount(|D| + 1)
    && forall i | 0 <= i < |levels| :: LevelHolds(h, if i <= k then D + [entry] else D, i, levels[i])
  }

  lemma LevelZeroExists(h: Hashing, D: seq<Hash>, levels: seq<seq<Hash>>)
    requires LevelsHold(h, D, levels)
    ensures |levels| >= 1
  {
  }

  /** After the leaf push and the resize, level 0 is up to date; a level that was just created is
      empty, as it is for the old leaves. */
  lemma AfterLeafPush(h: Hashing, D: seq<Hash>, entry: Hash, before: seq<seq<Hash>>, after: seq<seq<Hash>>)
    requires LevelsHold(h, D, before) && |before| >= 1
    requires |after| == (var c := TrailingZeros(|D| + 1); if |before| <= c then c + 1 else |before|)
    requires after[0] == before[0] + [h.leaf(entry)]
    requires forall i | 1 <= i < |after| :: after[i] == if i < |before| then before[i] else []
    ensures Carried(h, D, entry, 0, after)
  {
    hide Mth, Block;
    if |D| > 0 {
      ILog2Successor(|D|);
    }
    LeafLevelPush(h, D, entry, before[0]);
    forall i | 1 <= i < |after| ensures LevelHolds(h, D, i, after[i]) {
      if i < |before| {
        assert LevelHolds(h, D, i, before[i]);
      } else {
        EmptyLevel(h, D, i);
      }
    }
  }

  lemma EmptyLevel(h: Hashing, D: seq<Hash>, k: nat)
    requires k >= LevelCount(|D|)
    ensures LevelHolds(h, D, k, [])
  {
    if |D| == 0 {
      ShrZero(k);
    } else {
      ShrPositive(|D|, k);
    }
  }

  lemma LeafLevelPush(h: Hashing, D: seq<Hash>, entry: Hash, level: seq<Hash>)
    requires LevelHolds(h, D, 0, level)
    ensures LevelHolds(h, D + [entry], 0, level + [h.leaf(entry)])
  {
  }

  lemma CarryInBounds(h: Hashing, D: seq<Hash>, entry: Hash, k: nat, levels: seq<seq<Hash>>)
    requires k < TrailingZeros(|D| + 1) && Carried(h, D, entry, k, levels)
    ensures k + 1 < |levels| && |levels[k]| >= 2
  {
    CarryCounts(|D|, k);
    assert LevelHolds(h, D + [entry], k, levels[k]);
  }

  lemma CarryCounts(n: nat, k: nat)
    requires k < TrailingZeros(n + 1)
    ensures Shr(n + 1, k) == 2 * Shr(n, k + 1) + 2
  {
    TrailingZerosBelow(n + 1);
    ShrPositive(n + 1, k);
    ShrSuccessor(n, k);
    ShrSuccessor(n, k + 1);
    ShrStep(n + 1, k);
  }

  /** Folding the last two entries of an up-to-date level brings the next level up to date. */
  lemma CarryLevel(h: Hashing, D: seq<Hash>, entry: Hash, k: nat, lvl: seq<Hash>, next: seq<Hash>)
    requires k < TrailingZeros(|D| + 1)
    requires LevelHolds(h, D + [entry], k, lvl) && LevelHolds(h, D, k + 1, next)
    ensures |lvl| >= 2 && LevelHolds(h, D + [entry], k + 1, next + [h.node(lvl[|lvl| - 2], lvl[|lvl| - 1])])
  {
    hide Mth, Shr, TrailingZeros, Block, Pow2;
    CarryCounts(|D|, k);
    ShrSuccessor(|D|, k + 1);
    var E := D + [entry];
    var top := |next|;
    forall j | 0 <= j < top ensures next[j] == Mth(h, Block(E, k + 1, j)) {
      BlockStable(D, [entry], k + 1, j);
    }
    BlockPair(h, E, k, top);
  }

  lemma CarryStep(h: Hashing, D: seq<Hash>, entry: Hash, k: nat, before: seq<seq<Hash>>, after: seq<seq<Hash>>)
    requires k < TrailingZeros(|D| + 1) && Carried(h, D, entry, k, before)
    requires k + 1 < |before| && |before[k]| >= 2
    requires var lvl := before[k];
             after == before[k + 1 := before[k + 1] + [h.node(lvl[|lvl| - 2], lvl[|lvl| - 1])]]
    ensures Carried(h, D, entry, k + 1, after)
  {
    hide LevelHolds;
    assert LevelHolds(h, D + [entry], k, before[k]) && LevelHolds(h, D, k + 1, before[k + 1]);
    CarryLevel(h, D, entry, k, before[k], before[k + 1]);
    forall i | 0 <= i < |after| ensures LevelHolds(h, if i <= k + 1 then D + [entry] else D, i, after[i]) {
      assert LevelHolds(h, if i <= k then D + [entry] else D, i, before[i]);
    }
  }

  /** The levels above the completed ones are the same for one more leaf. */
  lemma CarryEnd(h: Hashing, D: seq<Hash>, entry: Hash, levels: seq<seq<Hash>>)
    requires Carried(h, D, entry, TrailingZeros(|D| + 1), levels)
    ensures LevelsHold(h, D + [entry], levels)
  {
    hide Mth;
    var completed := TrailingZeros(|D| + 1);
    forall i | 0 <= i < |levels| ensures LevelHolds(h, D + [entry], i, levels[i]) {
      assert LevelHolds(h, if i <= completed then D + [entry] else D, i, levels[i]);
      if i > completed {
        LevelUnmoved(h, D, entry, i, levels[i]);
      }
    }
  }

  lemma LevelUnmoved(h: Hashing, D: seq<Hash>, entry: Hash, k: nat, level: seq<Hash>)
    requires TrailingZeros(|D| + 1) < k && LevelHolds(h, D, k, level)
    ensures LevelHolds(h, D + [entry], k, level)
  {
    hide Mth;
    ShrSuccessor(|D|, k);
    forall j | 0 <= j < |level| ensures level[j] == Mth(h, Block(D + [entry], k, j)) {
      BlockStable(D, [entry], k, j);
    }
  }

  // ------------------------------------------------------------------ steps of `RootAtSize`

  /** The last `s mod 2^k` of the first `s` leaves: what the bits below `k` have accumulated. */
  ghost function LastLeaves(D: seq<Hash>, s: nat, k: nat): seq<Hash>
    requires s <= |D|
  {
    LowBelow(s, k);
    D[s - Low(s, k)..s]
  }

  lemma LowBelow(s: nat, k: nat)
    ensures Low(s, k) <= s
  {
  }

  lemma NoBits(s: nat)
    ensures Popcount(Low(s, 0)) == 0
  {
  }

  lemma AllBits(s: nat)
    requires s < TWO_TO_THE_64
    ensures Low(s, 64) == s
  {
    var k := 64;
    Pow2At64(k);
    LowAll(s, k);
  }

  lemma SomeRoot(h: Hashing, D: seq<Hash>)
    requires D != []
    ensures Root(h, D).Some?
  {
  }

  lemma EmptyRoot(h: Hashing, D: seq<Hash>)
    requires D == []
    ensures Root(h, D) == None
  {
  }

  lemma NoLeaves(h: Hashing, D: seq<Hash>, s: nat)
    requires s <= |D|
    ensures Root(h, LastLeaves(D, s, 0)) == None
  {
  }

  lemma AllLeaves(D: seq<Hash>, s: nat)
    requires s <= |D| < TWO_TO_THE_64
    ensures LastLeaves(D, s, 64) == D[..s]
  {
    var k := 64;
    Pow2At64(k);
    LowAll(s, k);
  }

  lemma ClearBit(D: seq<Hash>, s: nat, k: nat)
    requires s <= |D| && Shr(s, k) % 2 == 0
    ensures LastLeaves(D, s, k + 1) == LastLeaves(D, s, k)
  {
    ShrStep(s, k);
  }

  lemma LevelExists(n: nat, k: nat)
    requires Shr(n, k) >= 1
    ensures k < LevelCount(n)
  {
  }

  /** The peak of set bit `k` is cached, and extends the accumulated remainder to the left. */
  lemma PeakStep(h: Hashing, D: seq<Hash>, levels: seq<seq<Hash>>, s: nat, k: nat)
    requires s <= |D| && Shr(s, k) % 2 == 1 && LevelsHold(h, D, levels)
    ensures k < |levels| && Shr(s, k) - 1 < |levels[k]|
    ensures var acc := Root(h, LastLeaves(D, s, k));
            var peak := levels[k][Shr(s, k) - 1];
            Root(h, LastLeaves(D, s, k + 1)) == Some(if acc.None? then peak else h.node(peak, acc.value))
  {
    hide Mth, LastLeaves, Block;
    ShrMonotone(s, |D|, k);
    LevelExists(|D|, k);
    assert LevelHolds(h, D, k, levels[k]);
    PeakJoin(h, D, s, k);
  }

  lemma PeakPosition(s: nat, k: nat)
    requires Shr(s, k) % 2 == 1
    ensures s - Low(s, k + 1) == (Shr(s, k) - 1) * Pow2(k)
    ensures s - Low(s, k) == (Shr(s, k) - 1 + 1) * Pow2(k)
    ensures Low(s, k) < Pow2(k)
  {
    ShrStep(s, k);
    ShrLow(s, k);
  }

  lemma PeakInFront(D: seq<Hash>, s: nat, k: nat)
    requires s <= |D| && Shr(s, k) % 2 == 1 && Shr(s, k) - 1 < Shr(|D|, k)
    ensures LastLeaves(D, s, k + 1) == Block(D, k, Shr(s, k) - 1) + LastLeaves(D, s, k)
    ensures |LastLeaves(D, s, k)| < Pow2(k)
  {
    hide Shr, Low, Pow2;
    var j := Shr(s, k) - 1;
    PeakPosition(s, k);
    BlockBounds(|D|, k, j);
    LowBelow(s, k);
    LowBelow(s, k + 1);
    InFront(D, s - Low(s, k + 1), s - Low(s, k), s);
  }

  lemma InFront(D: seq<Hash>, lo: nat, mid: nat, hi: nat)
    requires lo <= mid <= hi <= |D|
    ensures D[lo..hi] == D[lo..mid] + D[mid..hi]
  {
  }

  lemma PeakJoin(h: Hashing, D: seq<Hash>, s: nat, k: nat)
    requires s <= |D| && Shr(s, k) % 2 == 1 && Shr(s, k) - 1 < Shr(|D|, k)
    ensures LastLeaves(D, s, k + 1) == Block(D, k, Shr(s, k) - 1) + LastLeaves(D, s, k)
    ensures LastLeaves(D, s, k) == [] ==> LastLeaves(D, s, k + 1) == Block(D, k, Shr(s, k) - 1)
    ensures LastLeaves(D, s, k) != [] ==>
              Mth(h, LastLeaves(D, s, k + 1)) == h.node(Mth(h, Block(D, k, Shr(s, k) - 1)), Mth(h, LastLeaves(D, s, k)))
  {
    hide Mth, Shr, Low, Pow2, LastLeaves, Block;
    PeakInFront(D, s, k);
    if LastLeaves(D, s, k) != [] {
      MthJoin(h, Block(D, k, Shr(s, k) - 1), LastLeaves(D, s, k), k);
    }
  }

  // ------------------------------------------------------------------ steps of the proof recursions

  /** The range `[lo, lo+len)` is block `j` of level `k`. */
  ghost predicate IsBlock(D: seq<Hash>, k: nat, j: nat, lo: nat, len: nat) {
    j < Shr(|D|, k) && lo + len <= |D| && Block(D, k, j) == D[lo..lo + len]
  }

  /** An aligned power-of-two range is a cached block. */
  lemma RangeIsBlock(D: seq<Hash>, lo: nat, len: nat)
    requires len >= 1 && IsPow2(len) && Aligned(lo, len) && lo + len <= |D|
    ensures IsBlock(D, TrailingZeros(len), Quotient(lo, len), lo, len)
  {
    hide Shr, Block, ILog2, Pow2, Quotient;
    IsPow2IsPow2(len);
    CeilPow2OfPow2(TrailingZeros(len));
    BlockAt(D, TrailingZeros(len), lo);
  }

  /** Any other aligned range has two aligned halves. */
  lemma RangeSplits(h: Hashing, D: seq<Hash>, lo: nat, len: nat)
    requires len >= 1 && !IsPow2(len) && Aligned(lo, len) && lo + len <= |D|
    ensures len >= 2 && 1 <= Split(len) < len
    ensures Aligned(lo, Split(len)) && Aligned(lo + Split(len), len - Split(len))
    ensures Mth(h, D[lo..lo + len])
         == h.node(Mth(h, D[lo..lo + Split(len)]), Mth(h, D[lo + Split(len)..lo + len]))
  {
    hide Mth, Aligned;
    AlignedSplit(lo, len);
    MthSplitRange(h, D, lo, len);
  }

  lemma AuditPathOfOne(h: Hashing, D: seq<Hash>)
    requires |D| == 1
    ensures AuditPath(h, D, 0) == []
  {
  }

  lemma AuditPathSplitRange(h: Hashing, D: seq<Hash>, lo: nat, len: nat, m: nat)
    requires len >= 2 && lo <= m < lo + len <= |D|
    ensures 1 <= Split(len) < len
    ensures AuditPath(h, D[lo..lo + len], m - lo)
         == if m - lo < Split(len)
            then AuditPath(h, D[lo..lo + Split(len)], m - lo)
                 + [ProofNode(Mth(h, D[lo + Split(len)..lo + len]), Right)]
            else AuditPath(h, D[lo + Split(len)..lo + len], m - (lo + Split(len)))
                 + [ProofNode(Mth(h, D[lo..lo + Split(len)]), Left)]
  {
    hide Mth, AuditPath, Sides, FoldStep, Split;
    SplitBounds(len);
    var R := D[lo..lo + len];
    assert R[..Split(len)] == D[lo..lo + Split(len)] && R[Split(len)..] == D[lo + Split(len)..lo + len];
    InclusionSplit(h, R, m - lo);
  }

  lemma SubProofSplitRange(h: Hashing, D: seq<Hash>, lo: nat, len: nat, m: nat, anchored: bool)
    requires 1 <= m < len && lo + len <= |D|
    ensures 1 <= Split(len) < len
    ensures SubProof(h, D[lo..lo + len], m, anchored)
         == if m <= Split(len)
            then SubProof(h, D[lo..lo + Split(len)], m, anchored) + [Mth(h, D[lo + Split(len)..lo + len])]
            else SubProof(h, D[lo + Split(len)..lo + len], m - Split(len), false) + [Mth(h, D[lo..lo + Split(len)])]
  {
    hide Mth;
    SplitBounds(len);
    var R := D[lo..lo + len];
    assert R[..Split(len)] == D[lo..lo + Split(len)] && R[Split(len)..] == D[lo + Split(len)..lo + len];
  }
}

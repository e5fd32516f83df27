/** Exact and worst-case costs: stored hashes, proof lengths, node hashes evaluated for a root or a proof, and the
    closed form of the path that an entry gets at issuance. The methods of `Tree.MerkleTree` count the node
    hashes they evaluate; here is what these counts come to. */
module ProofCosts {
  import opened Bits
  import opened Digests
  import opened MerkleSpec
  import opened Tree
  import opened Rfc9162

  function TotalLength(levels: seq<seq<Hash>>): nat {
    if levels == [] then 0 else |levels[0]| + TotalLength(levels[1..])
  }

  /** The cached levels hold exactly `2n - popcount(n)` hashes: memory is linear in the log. */
  lemma StoredHashes(h: Hashing, D: seq<Hash>, levels: seq<seq<Hash>>)
    requires LevelsHold(h, D, levels)
    ensures TotalLength(levels) + Popcount(|D|) == 2 * |D|
  {
    hide Mth;
    forall k | 0 <= k < |levels| ensures |levels[k]| == Shr(|D|, k) {
      assert LevelHolds(h, D, k, levels[k]);
    }
    HalvingTotal(|D|, levels);
  }

  lemma {:induction false} HalvingTotal(n: nat, levels: seq<seq<Hash>>)
    requires |levels| == LevelCount(n) && forall k | 0 <= k < |levels| :: |levels[k]| == Shr(n, k)
    ensures TotalLength(levels) + Popcount(n) == 2 * n
    decreases n
  {
    assert |levels[0]| == Shr(n, 0);
    if n >= 2 {
      forall k | 0 <= k < |levels[1..]| ensures |levels[1..][k]| == Shr(n / 2, k) {
        assert levels[1..][k] == levels[k + 1];
      }
      HalvingTotal(n / 2, levels[1..]);
    } else {
      assert levels[1..] == [];
    }
  }

  lemma {:induction false} SidesLength(m: nat, n: nat)
    requires m < n
    ensures |Sides(m, n)| <= CeilLog2(n)
    decreases n
  {
    if n > 1 {
      var k := Split(n);
      SplitBounds(n);
      CeilPow2Exponent(ILog2(n - 1));
      if m < k {
        SidesLength(m, k);
      } else {
        SidesLength(m - k, n - k);
        CeilLog2Monotone(n - k, k);
      }
    }
  }

  /** An inclusion path has at most ceil(log2 n) nodes. */
  lemma InclusionPathLength(h: Hashing, D: seq<Hash>, m: nat)
    requires m < |D|
    ensures |AuditPath(h, D, m)| <= CeilLog2(|D|)
  {
    InclusionComplete(h, D, m);
    assert |PathSides(AuditPath(h, D, m))| == |Sides(m, |D|)|;
    SidesLength(m, |D|);
  }

  lemma {:induction false} SubProofLength(h: Hashing, D: seq<Hash>, m: nat, anchored: bool)
    requires 1 <= m <= |D|
    ensures |SubProof(h, D, m, anchored)| <= CeilLog2(|D|) + 1
    decreases |D|
  {
    if m < |D| {
      var k := Split(|D|);
      SplitBounds(|D|);
      CeilPow2Exponent(ILog2(|D| - 1));
      SubProofSplit(h, D, m, anchored);
      if m <= k {
        SubProofLength(h, D[..k], m, anchored);
      } else {
        SubProofLength(h, D[k..], m - k, false);
        CeilLog2Monotone(|D| - k, k);
      }
    }
  }

  /** A consistency proof has at most ceil(log2 n) + 1 nodes. */
  lemma ConsistencyPathLength(h: Hashing, D: seq<Hash>, m: nat)
    requires m <= |D| && |D| >= 1
    ensures |ConsistencyPath(h, D, m)| <= CeilLog2(|D|) + 1
  {
    if m > 0 {
      SubProofLength(h, D, m, true);
    }
  }

  // ------------------------------------------------------------------ node hashes

  /** A complete subtree splits into two. */
  lemma Pow2Split(n: nat)
    requires n >= 2 && IsPow2(n)
    ensures Split(n) == n - Split(n) == n / 2 && IsPow2(n / 2)
  {
    hide ILog2, TrailingZeros, Split;
    var e := TrailingZeros(n / 2);
    IsPow2IsPow2(n / 2);
    assert n == 2 * Pow2(e) && Pow2(e) >= 1;
    SplitUnique(n, e);
  }

  /** The siblings of a path that are no complete subtree, and so are not cached. */
  function UncachedSiblings(m: nat, n: nat): nat
    requires m < n
    decreases n
  {
    if n == 1 then 0
    else
      SplitBounds(n);
      var k := Split(n);
      if m < k then UncachedSiblings(m, k) + (if IsPow2(n - k) then 0 else 1) else UncachedSiblings(m - k, n - k)
  }

  /** An inclusion path needs at most one sibling that is not cached, and at most one node hash less than the size
      has one bits: none at all in a complete tree. */
  lemma {:induction false} InclusionPathHashes(m: nat, n: nat)
    requires m < n
    ensures UncachedSiblings(m, n) <= 1
    ensures UncachedSiblings(m, n) == 0 <==> PathHashes(m, n) == 0
    ensures PathHashes(m, n) <= RangeHashes(n) <= ILog2(n)
    decreases n
  {
    hide RangeHashes, IsPow2, Split;
    PopcountLog(n);
    RangeHashesOf(n);
    RangeHashesSplit(n);
    if n > 1 {
      PathHashesStep(m, n);
      RangeHashesSplit(n - Split(n));
      if IsPow2(n) {
        Pow2Split(n);
      }
      if m < Split(n) {
        InclusionPathHashes(m, Split(n));
      } else {
        InclusionPathHashes(m - Split(n), n - Split(n));
      }
    }
  }

  lemma RangeHashesOf(n: nat)
    requires n >= 1
    ensures RangeHashes(n) + 1 == Popcount(n)
  {
    PopcountPositive(n);
  }

  /** A consistency proof costs at most one node hash less than the size has one bits. */
  lemma {:induction false} ConsistencyPathHashes(m: nat, n: nat, anchored: bool)
    requires 1 <= m <= n
    ensures ProofHashes(m, n, anchored) <= RangeHashes(n) <= ILog2(n)
    decreases n
  {
    hide RangeHashes, IsPow2, Split;
    PopcountLog(n);
    RangeHashesOf(n);
    RangeHashesSplit(n);
    ProofHashesStep(m, n, anchored);
    if m < n {
      RangeHashesSplit(n - Split(n));
      if IsPow2(n) {
        Pow2Split(n);
      }
      if m <= Split(n) {
        ConsistencyPathHashes(m, Split(n), anchored);
      } else {
        ConsistencyPathHashes(m - Split(n), n - Split(n), false);
      }
    }
  }

  // ------------------------------------------------------------------ issuance

  /** The path of the last leaf: only left siblings, one for every peak but the last and one for every
      level of the last peak. */
  lemma {:induction false} LastLeafSides(n: nat)
    requires n >= 1
    ensures Right !in Sides(n - 1, n)
    ensures |Sides(n - 1, n)| == Popcount(n) - 1 + TrailingZeros(n)
    decreases n
  {
    hide Sides;
    SidesOfOne();
    SidesUp(n - 1, n);
    if n == 1 {
      assert Popcount(1) == 1 + Popcount(0);
    } else {
      LastLeafSides((n + 1) / 2);
      if n % 2 == 1 {
        CarryCount(n / 2);
        assert (n + 1) / 2 == n / 2 + 1;
      }
    }
  }

  /** The inclusion proof of a receipt, taken against the tree just after its entry. */
  lemma IssuancePath(h: Hashing, D: seq<Hash>, i: nat)
    requires i < |D|
    ensures var path := AuditPath(h, D[..i + 1], i);
            && (forall j | 0 <= j < |path| :: path[j].side == Left)
            && |path| == Popcount(i + 1) - 1 + TrailingZeros(i + 1)
  {
    InclusionComplete(h, D[..i + 1], i);
    LastLeafSides(i + 1);
    var path := AuditPath(h, D[..i + 1], i);
    assert PathSides(path) == Sides(i, i + 1);
    forall j | 0 <= j < |path| ensures path[j].side == Left {
      assert PathSides(path)[j] != Right;
    }
  }
}

/** The reference definitions of section 2.1 of RFC 6962 over ideal hashes.

    Hashes are a free datatype: `Node` stands for `hash_children` and is
    therefore injective, which is the collision-freedom that the soundness
    theorems rely on.  Equations between hashes proved here are equations
    between terms, so they hold under every interpretation of `Node`. */
module Rfc6962 {
  import opened Bits

  type byte = x: int | 0 <= x < 256

  datatype Hash =
    | EmptyRoot                       // SHA-256 of the empty string
    | LeafHash(data: seq<byte>)       // hash_leaf
    | Node(left: Hash, right: Hash)   // hash_children
    | Raw(bytes: seq<byte>)           // any other 32 bytes

  /** The all-zero hash that pads short tiles. */
  const ZERO: Hash := Raw([])

  /** MTH of section 2.1, over leaf hashes. */
  function Mth(d: seq<Hash>): Hash
    decreases |d|
  {
    if |d| == 0 then EmptyRoot
    else if |d| == 1 then d[0]
    else
      SplitPointBounds(|d|);
      var k := SplitPoint(|d|);
      Node(Mth(d[..k]), Mth(d[k..]))
  }

  /** PATH of section 2.1.1. */
  function Path(m: nat, d: seq<Hash>): seq<Hash>
    requires m < |d|
    decreases |d|
  {
    if |d| == 1 then []
    else
      SplitPointBounds(|d|);
      var k := SplitPoint(|d|);
      if m < k then Path(m, d[..k]) + [Mth(d[k..])]
      else Path(m - k, d[k..]) + [Mth(d[..k])]
  }

  /** SUBPROOF of section 2.1.2. */
  function SubProof(m: nat, d: seq<Hash>, complete: bool): seq<Hash>
    requires 0 < m <= |d|
    decreases |d|
  {
    if m == |d| then
      if complete then [] else [Mth(d)]
    else
      SplitPointBounds(|d|);
      var k := SplitPoint(|d|);
      if m <= k then SubProof(m, d[..k], complete) + [Mth(d[k..])]
      else SubProof(m - k, d[k..], false) + [Mth(d[..k])]
  }

  /** PROOF of section 2.1.2, extended with the empty proofs that the log uses
      when there is nothing to prove. */
  function ConsistencyProof(m: nat, d: seq<Hash>): seq<Hash>
    requires m <= |d|
  {
    if m == 0 || m == |d| then [] else SubProof(m, d, true)
  }

  /** Splitting a tree at the unique power of two e with 2^e < size <= 2^(e+1). */
  lemma MthSplit(d: seq<Hash>, e: nat)
    requires Pow2(e) < |d| <= 2 * Pow2(e)
    ensures Mth(d) == Node(Mth(d[..Pow2(e)]), Mth(d[Pow2(e)..]))
  {
    SplitPointUnique(|d|, e);
  }

  lemma MthSingle(d: seq<Hash>, i: nat)
    requires i < |d|
    ensures Mth(d[i..i + 1]) == d[i]
  {
  }

  // ---- complete subtrees ----

  /** Hash of the complete subtree of 2^level leaves at the given index. */
  function Subtree(d: seq<Hash>, level: nat, index: nat): Hash
    requires index < Shr(|d|, level)
  {
    if level == 0 then d[index]
    else Node(Subtree(d, level - 1, 2 * index), Subtree(d, level - 1, 2 * index + 1))
  }

  /** A complete subtree does not change when the log grows. */
  lemma {:induction false} SubtreeStable(d: seq<Hash>, d': seq<Hash>, level: nat, index: nat)
    requires d <= d'
    requires index < Shr(|d|, level)
    ensures index < Shr(|d'|, level)
    ensures Subtree(d, level, index) == Subtree(d', level, index)
  {
    ShrMonotone(|d|, |d'|, level);
    if level > 0 {
      SubtreeStable(d, d', level - 1, 2 * index);
      SubtreeStable(d, d', level - 1, 2 * index + 1);
    }
  }

  lemma SubtreeInRange(n: nat, level: nat, index: nat)
    requires index < Shr(n, level)
    ensures Shl(index, level) + Pow2(level) == Shl(index + 1, level) <= n
  {
    ShlOfShr(n, level);
    ShlSucc(index, level);
    ShlMonotone(index + 1, Shr(n, level), level);
  }

  lemma InRangeSubtree(n: nat, level: nat, index: nat)
    requires Shl(index + 1, level) <= n
    ensures index < Shr(n, level)
  {
    ShrMonotone(Shl(index + 1, level), n, level);
    ShrOfShl(index + 1, level);
  }

  /** MTH(D[lo:hi]) splits at lo + 2^e. */
  lemma RangeSplit(d: seq<Hash>, lo: nat, hi: nat, e: nat)
    requires lo <= hi <= |d|
    requires Pow2(e) < hi - lo <= 2 * Pow2(e)
    ensures Mth(d[lo..hi]) == Node(Mth(d[lo..lo + Pow2(e)]), Mth(d[lo + Pow2(e)..hi]))
  {
    hide *;
    var s, p := d[lo..hi], Pow2(e);
    MthSplit(s, e);
    assert s[..p] == d[lo..lo + p] && s[p..] == d[lo + p..hi];
  }

  /** A complete subtree is the MTH of the leaves it covers. */
  lemma {:induction false} SubtreeIsMth(d: seq<Hash>, level: nat, index: nat)
    requires index < Shr(|d|, level)
    ensures Shl(index, level) + Pow2(level) <= |d|
    ensures Subtree(d, level, index) == Mth(d[Shl(index, level)..Shl(index, level) + Pow2(level)])
    decreases level
  {
    hide Mth;
    SubtreeInRange(|d|, level, index);
    if level > 0 {
      var lo, p := Shl(index, level), Pow2(level - 1);
      ShlSucc(2 * index, level - 1);
      SubtreeIsMth(d, level - 1, 2 * index);
      SubtreeIsMth(d, level - 1, 2 * index + 1);
      RangeSplit(d, lo, lo + 2 * p, level - 1);
    } else {
      MthSingle(d, index);
    }
  }
}

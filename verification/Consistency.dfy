/** Consistency proof verification (src/witness/proof.rs).

    `VerifyConsistency` keeps the two algorithms of the source: a loop for
    old sizes that are powers of two and a recursion with a moving index for
    the rest.  Both are proved against `Accepts`, and `AcceptsExactly` shows
    that `Accepts` singles out the RFC 6962 proof and the RFC 6962 old root. */
module Consistency {
  import opened Bits
  import opened Rfc6962
  import opened Wrappers

  datatype ProofError =
    | InvalidSizes(oldSize: nat, newSize: nat)
    | WrongLength(expected: nat, actual: nat)
    | OldRootMismatch
    | NewRootMismatch
    | NonEmptyProofForEqualSize
    | NonEmptyProofForEmptyOld
    | InvalidEmptyRoot
    | Aborted  // arithmetic overflow

  /** `subproof_length`. */
  function SubproofLength(m: nat, n: nat, complete: bool): nat
    requires 0 < m <= n
    decreases n
  {
    if m == n then (if complete then 0 else 1)
    else
      SplitPointBounds(n);
      var k := SplitPoint(n);
      if m <= k then SubproofLength(m, k, complete) + 1
      else 1 + SubproofLength(m - k, n - k, false)
  }

  /** `proof_length`: a height difference for powers of two, the SUBPROOF count otherwise. */
  function ProofLength(m: nat, n: nat): int
    requires m <= n
  {
    if m == 0 || m == n then 0
    else if IsPow2(m) then
      var height := if IsPow2(n) then BitLength(n) - 1 else BitLength(n - 1);
      height - (BitLength(m) - 1)
    else SubproofLength(m, n, true)
  }

  /** Hash of a left spine: the old root joined with each right sibling in turn. */
  function Spine(root: Hash, p: seq<Hash>): Hash {
    if p == [] then root else Node(Spine(root, p[..|p| - 1]), p[|p| - 1])
  }

  /** The (old, new) roots that a SUBPROOF determines, reading it from its last element. */
  function Rebuild(m: nat, n: nat, p: seq<Hash>): (Hash, Hash)
    requires 0 < m <= n
    requires |p| == SubproofLength(m, n, false)
    decreases n
  {
    if m == n then (p[0], p[0])
    else
      SplitPointBounds(n);
      var k := SplitPoint(n);
      var init, last := p[..|p| - 1], p[|p| - 1];
      if m <= k then
        var (o, w) := Rebuild(m, k, init);
        (o, Node(w, last))
      else
        var (o, w) := Rebuild(m - k, n - k, init);
        (Node(last, o), Node(last, w))
  }

  /** What verification accepts, stated without indices, loops or error codes. */
  predicate Accepts(m: nat, n: nat, oldRoot: Hash, newRoot: Hash, p: seq<Hash>) {
    && m <= n
    && if m == n then p == [] && oldRoot == newRoot
       else if m == 0 then p == [] && oldRoot == EmptyRoot
       else if IsPow2(m) then |p| == ProofLength(m, n) && Spine(oldRoot, p) == newRoot
       else |p| == SubproofLength(m, n, false) && Rebuild(m, n, p) == (oldRoot, newRoot)
  }

  // ---- lengths ----

  lemma {:induction false} BitLengthBelowPow2(e: nat)
    ensures BitLength(Pow2(e) - 1) == e
  {
    if e > 0 { BitLengthBelowPow2(e - 1); assert (Pow2(e) - 1) / 2 == Pow2(e - 1) - 1; }
  }

  /** The two ways in which the source computes the height of a tree agree. */
  lemma Heights(n: nat)
    requires IsPow2(n)
    ensures BitLength(n) - 1 == BitLength(n - 1)
  {
    BitLengthBelowPow2(BitLength(n) - 1);
  }

  /** For powers of two the SUBPROOF count is a height difference. */
  lemma {:induction false} Pow2SubproofLength(m: nat, n: nat)
    requires m <= n && IsPow2(m)
    ensures SubproofLength(m, n, true) == BitLength(n - 1) - BitLength(m - 1)
    decreases n
  {
    if m < n {
      SplitPointBounds(n);
      var k := SplitPoint(n);
      if m > k { Pow2Apart(m, k); }
      Pow2SubproofLength(m, k);
      BitLengthBelowPow2(BitLength(n - 1) - 1);
    }
  }

  lemma Pow2Length(m: nat, n: nat)
    requires m <= n && IsPow2(m)
    ensures ProofLength(m, n) == SubproofLength(m, n, true)
  {
    Pow2SubproofLength(m, n);
    Heights(m);
    if IsPow2(n) { Heights(n); }
  }

  /** Unless the old size is a power of two, the `complete` flag changes nothing. */
  lemma {:induction false} CompleteIrrelevant(m: nat, n: nat)
    requires 0 < m < n && !IsPow2(m)
    ensures SubproofLength(m, n, true) == SubproofLength(m, n, false)
    decreases n
  {
    SplitPointBounds(n);
    var k := SplitPoint(n);
    if m <= k { CompleteIrrelevant(m, k); }
  }

  lemma {:induction false} CompleteIrrelevantProof(m: nat, d: seq<Hash>)
    requires 0 < m < |d| && !IsPow2(m)
    ensures SubProof(m, d, true) == SubProof(m, d, false)
    decreases |d|
  {
    SplitPointBounds(|d|);
    var k := SplitPoint(|d|);
    if m <= k { CompleteIrrelevantProof(m, d[..k]); }
  }

  lemma {:induction false} SubproofLengthBound(m: nat, n: nat, complete: bool)
    requires 0 < m <= n
    ensures SubproofLength(m, n, complete) <= BitLength(n - 1) + 1
    decreases n
  {
    if m < n {
      SplitPointBounds(n);
      var k := SplitPoint(n);
      var b := BitLength(n - 1) - 1;
      BitLengthBelowPow2(b);
      if m <= k {
        SubproofLengthBound(m, k, complete);
      } else {
        SubproofLengthBound(m - k, n - k, false);
        BitLengthMonotone(n - k - 1, k - 1);
      }
    }
  }

  lemma {:induction false} BitLengthMonotone(a: nat, b: nat)
    requires a <= b
    ensures BitLength(a) <= BitLength(b)
  {
    if a > 0 { BitLengthMonotone(a / 2, b / 2); }
  }

  /** The generated proof has exactly `proof_length` hashes, and never more than
      the 64 that the wire format admits. */
  lemma ProofLengthExact(m: nat, d: seq<Hash>)
    requires m <= |d| <= I64_MAX
    ensures |ConsistencyProof(m, d)| == ProofLength(m, |d|) <= 64
  {
    if 0 < m < |d| {
      SubProofLength(m, d, true);
      SubproofLengthBound(m, |d|, true);
      BitLengthAtMost63(|d| - 1);
      if IsPow2(m) { Pow2Length(m, |d|); }
    }
  }

  lemma {:induction false} SubProofLength(m: nat, d: seq<Hash>, complete: bool)
    requires 0 < m <= |d|
    ensures |SubProof(m, d, complete)| == SubproofLength(m, |d|, complete)
    decreases |d|
  {
    if m < |d| {
      SplitPointBounds(|d|);
      var k := SplitPoint(|d|);
      if m <= k { SubProofLength(m, d[..k], complete); }
      else { SubProofLength(m - k, d[k..], false); }
    }
  }

  // ---- soundness and completeness ----

  /** The recursion: exactly the RFC proof rebuilds the new root, and it then
      rebuilds the old root as the MTH of the prefix. */
  lemma {:induction false} RebuildExact(m: nat, d: seq<Hash>, p: seq<Hash>)
    requires 0 < m <= |d|
    requires |p| == SubproofLength(m, |d|, false)
    ensures Rebuild(m, |d|, p).1 == Mth(d) <==> p == SubProof(m, d, false)
    ensures p == SubProof(m, d, false) ==> Rebuild(m, |d|, p) == (Mth(d[..m]), Mth(d))
    decreases |d|
  {
    hide SplitPoint, BitLength, Pow2, IsPow2;
    SubProofLength(m, d, false);
    if m == |d| {
      assert d[..m] == d;
      assert p == [p[0]];
    } else {
      SplitPointBounds(|d|);
      var k := SplitPoint(|d|);
      var init, last := p[..|p| - 1], p[|p| - 1];
      assert p == init + [last];
      if m <= k {
        RebuildExact(m, d[..k], init);
        assert d[..k][..m] == d[..m];
        ConcatLast(init, last, SubProof(m, d[..k], false), Mth(d[k..]));
      } else {
        RebuildExact(m - k, d[k..], init);
        PrefixAcrossSplit(d, m, k);
        ConcatLast(init, last, SubProof(m - k, d[k..], false), Mth(d[..k]));
      }
    }
  }

  lemma ConcatLast(a: seq<Hash>, x: Hash, b: seq<Hash>, y: Hash)
    ensures a + [x] == b + [y] <==> a == b && x == y
  {
    if a + [x] == b + [y] {
      assert (a + [x])[..|a|] == a && (b + [y])[..|b|] == b;
      assert (a + [x])[|a|] == x && (b + [y])[|b|] == y;
    }
  }

  /** A prefix that reaches past the split point has the same split. */
  lemma PrefixAcrossSplit(d: seq<Hash>, m: nat, k: nat)
    requires |d| >= 2 && k == SplitPoint(|d|) && k < m <= |d|
    ensures Mth(d[..m]) == Node(Mth(d[..k]), Mth(d[k..][..m - k]))
  {
    SplitPointBounds(|d|);
    MthSplit(d[..m], BitLength(|d| - 1) - 1);
    assert d[..m][..k] == d[..k];
    assert d[..m][k..] == d[k..][..m - k];
  }

  /** The loop: the same, for old sizes that are powers of two. */
  lemma {:induction false} SpineExact(m: nat, d: seq<Hash>, oldRoot: Hash, p: seq<Hash>)
    requires 0 < m <= |d| && IsPow2(m)
    requires |p| == SubproofLength(m, |d|, true)
    ensures Spine(oldRoot, p) == Mth(d) <==> oldRoot == Mth(d[..m]) && p == SubProof(m, d, true)
    decreases |d|
  {
    hide SplitPoint, BitLength, Pow2, IsPow2;
    SubProofLength(m, d, true);
    if m == |d| {
      assert d[..m] == d;
    } else {
      SplitPointBounds(|d|);
      var k := SplitPoint(|d|);
      if m > k { Pow2Apart(m, k); }
      var init, last := p[..|p| - 1], p[|p| - 1];
      assert p == init + [last];
      SpineExact(m, d[..k], oldRoot, init);
      assert d[..k][..m] == d[..m];
      ConcatLast(init, last, SubProof(m, d[..k], true), Mth(d[k..]));
    }
  }

  /** Soundness and completeness in one statement: against a new root that is the
      MTH of some leaves, verification accepts one old root, the MTH of the
      prefix, and one proof, that of RFC 6962. */
  lemma AcceptsExactly(m: nat, d: seq<Hash>, oldRoot: Hash, p: seq<Hash>)
    requires m <= |d|
    ensures Accepts(m, |d|, oldRoot, Mth(d), p)
            <==> oldRoot == Mth(d[..m]) && p == ConsistencyProof(m, d)
  {
    var n := |d|;
    if m == n {
      assert d[..m] == d;
    } else if m == 0 {
      assert d[..m] == [];
    } else if IsPow2(m) {
      Pow2Length(m, n);
      SubProofLength(m, d, true);
      if |p| == ProofLength(m, n) { SpineExact(m, d, oldRoot, p); }
    } else {
      CompleteIrrelevantProof(m, d);
      SubProofLength(m, d, false);
      if |p| == SubproofLength(m, n, false) { RebuildExact(m, d, p); }
    }
  }

  // ---- the verifier ----

  /** Doublings of `size` needed to reach `target`. */
  function Doublings(size: nat, target: nat): nat
    requires size > 0
    decreases if size < target then target - size else 0
  {
    if size >= target then 0 else 1 + Doublings(2 * size, target)
  }

  /** The loop of `verify_power_of_2` runs `proof_length` times. */
  lemma {:induction false} DoublingsIsLength(size: nat, n: nat)
    requires IsPow2(size) && size <= n
    ensures Doublings(size, n) == SubproofLength(size, n, true)
    decreases n - size
  {
    hide SubproofLength, SplitPoint;
    Pow2SubproofLength(size, n);
    if size < n {
      var e := BitLength(size) - 1;
      BitLengthBelowPow2(e);
      if 2 * size <= n {
        DoublingsIsLength(2 * size, n);
        Pow2SubproofLength(2 * size, n);
        BitLengthBelowPow2(e + 1);
      } else {
        SplitPointUnique(n, e);
      }
    }
  }

  /** The size that the loop of `verify_power_of_2` ends with fits 64 bits exactly up
      to 2^63 leaves. */
  lemma {:induction false} DoublingFits(size: nat, n: nat)
    requires IsPow2(size) && size <= n < U64_LIMIT
    ensures Shl(size, Doublings(size, n)) < U64_LIMIT <==> n <= I64_MAX + 1
    ensures n > I64_MAX + 1 ==> Shl(size, Doublings(size, n)) == U64_LIMIT
    decreases n - size
  {
    Pow2Below64(size);
    if size < n {
      assert Shl(size, Doublings(size, n)) == Shl(2 * size, Doublings(2 * size, n));
      hide IsPow2, Shl;
      ShlNone(2 * size);
      if 2 * size < n { DoublingFits(2 * size, n); }
    }
  }

  lemma ShlNone(i: nat)
    ensures Shl(i, 0) == i
  {
  }

  /** A 64-bit power of two is at most 2^63, and so is its double unless it is 2^63. */
  lemma Pow2Below64(x: nat)
    requires IsPow2(x) && x < U64_LIMIT
    ensures IsPow2(2 * x) && x <= I64_MAX + 1
    ensures x < I64_MAX + 1 ==> 2 * x <= I64_MAX + 1
  {
    var e := BitLength(x) - 1;
    Pow2IsPow2(e + 1);
    Pow2Of63();
    if 63 < e { Pow2Monotone(64, e); }
    if e < 63 { Pow2Monotone(e + 1, 63); }
  }

  /** One leaf more than 2^63 is enough for the doubling to leave 64 bits. */
  lemma DoublingOverflows()
    ensures IsPow2(1) && Shl(1, Doublings(1, I64_MAX + 2)) == U64_LIMIT
  {
    Pow2IsPow2(0);
    DoublingFits(1, I64_MAX + 2);
  }

  /** The doubling reaches a value that does not fit. */
  predicate Overflows(m: nat, n: nat) { 0 < m < n && IsPow2(m) && n > I64_MAX + 1 }

  /** `verify_power_of_2`, called with a power of two.  Arithmetic is checked in every
      build profile (Cargo.toml), so a doubling that does not fit aborts. */
  method VerifyPowerOf2(m: nat, n: nat, oldRoot: Hash, newRoot: Hash, proof: seq<Hash>)
    returns (r: Result<(), ProofError>)
    requires 0 < m <= n < U64_LIMIT && IsPow2(m)
    ensures r == if |proof| < Doublings(m, n) then Err(WrongLength(|proof| + 1, |proof|))
                 else if Overflows(m, n) then Err(Aborted)
                 else if Spine(oldRoot, proof) != newRoot then Err(NewRootMismatch)
                 else Ok(())
  {
    hide IsPow2;
    var sr, size, idx := oldRoot, m, 0;
    DoublingFits(m, n);
    while size < n
      invariant 0 < size < U64_LIMIT
      invariant idx <= |proof| && sr == Spine(oldRoot, proof[..idx])
      invariant Doublings(m, n) == idx + Doublings(size, n)
      invariant Shl(m, Doublings(m, n)) == Shl(size, Doublings(size, n))
      decreases n - size
    {
      if idx >= |proof| {
        return Err(WrongLength(idx + 1, |proof|));
      }
      assert proof[..idx + 1][..idx] == proof[..idx];
      sr := Node(sr, proof[idx]);
      idx := idx + 1;
      if size * 2 >= U64_LIMIT { return Err(Aborted); }
      size := size * 2;
      if size > n { break; }
    }
    while idx < |proof|
      invariant idx <= |proof| && sr == Spine(oldRoot, proof[..idx])
    {
      assert proof[..idx + 1][..idx] == proof[..idx];
      sr := Node(sr, proof[idx]);
      idx := idx + 1;
    }
    assert proof[..idx] == proof;
    if sr != newRoot {
      return Err(NewRootMismatch);
    }
    return Ok(());
  }

  /** `verify_subproof`, with the moving index as an extra result.  It succeeds
      exactly when enough proof is left and the `complete` base case is not met,
      which happens only for powers of two. */
  method VerifySubproof(m: nat, n: nat, proof: seq<Hash>, idx: nat, complete: bool)
    returns (r: Result<(Hash, Hash), ProofError>, idx': nat)
    requires 0 < m <= n && idx <= |proof|
    ensures idx <= idx' <= |proof|
    ensures complete && (m == n || IsPow2(m)) ==> r == Err(WrongLength(idx + 1, |proof|))
    ensures !(complete && (m == n || IsPow2(m))) ==>
              var len := SubproofLength(m, n, false);
              if idx + len <= |proof|
              then idx' == idx + len && r == Ok(Rebuild(m, n, proof[idx..idx + len]))
              else r == Err(WrongLength(|proof| + 1, |proof|))
    decreases n
  {
    hide SplitPoint, BitLength, Pow2, IsPow2;
    idx' := idx;
    if m == n {
      if complete || idx >= |proof| {
        return Err(WrongLength(idx + 1, |proof|)), idx;
      }
      return Ok((proof[idx], proof[idx])), idx + 1;
    }
    SplitPointBounds(n);
    var k := SplitPoint(n);
    if m <= k {
      r, idx' := VerifySubproof(m, k, proof, idx, complete);
      if r.Err? { return; }
      if idx' >= |proof| {
        return Err(WrongLength(idx' + 1, |proof|)), idx';
      }
      assert proof[idx..idx' + 1][..idx' - idx] == proof[idx..idx'];
      r, idx' := Ok((r.value.0, Node(r.value.1, proof[idx']))), idx' + 1;
    } else {
      if complete && IsPow2(m) { Pow2Apart(m, k); }
      r, idx' := VerifySubproof(m - k, n - k, proof, idx, false);
      if r.Err? { return; }
      if idx' >= |proof| {
        return Err(WrongLength(idx' + 1, |proof|)), idx';
      }
      assert proof[idx..idx' + 1][..idx' - idx] == proof[idx..idx'];
      r, idx' := Ok((Node(proof[idx'], r.value.0), Node(proof[idx'], r.value.1))), idx' + 1;
    }
  }

  /** `verify_consistency_inner`.  Called with the expected number of hashes it
      accepts what `Accepts` accepts, unless it aborts; otherwise a root is wrong. */
  method VerifyInner(m: nat, n: nat, oldRoot: Hash, newRoot: Hash, proof: seq<Hash>)
    returns (r: Result<(), ProofError>)
    requires 0 < m <= n < U64_LIMIT
    ensures |proof| == ProofLength(m, n) ==>
              && (r.Ok? <==> Accepts(m, n, oldRoot, newRoot, proof) && !Overflows(m, n))
              && (r.Err? ==> r.error == RootError(m, n, oldRoot, proof))
  {
    if m == n {
      if proof == [] && oldRoot == newRoot { return Ok(()); }
      return Err(OldRootMismatch);
    }
    if IsPow2(m) {
      DoublingsIsLength(m, n);
      Pow2Length(m, n);
      r := VerifyPowerOf2(m, n, oldRoot, newRoot, proof);
      return;
    }
    CompleteIrrelevant(m, n);
    var pair, idx := VerifySubproof(m, n, proof, 0, true);
    if pair.Err? { return Err(pair.error); }
    if idx != |proof| { return Err(WrongLength(idx, |proof|)); }
    assert proof[0..|proof|] == proof;
    var (o, w) := pair.value;
    if o != oldRoot { return Err(OldRootMismatch); }
    if w != newRoot { return Err(NewRootMismatch); }
    return Ok(());
  }

  /** The error of a proof of the right length that is not accepted. */
  function RootError(m: nat, n: nat, oldRoot: Hash, p: seq<Hash>): ProofError
    requires 0 < m <= n
  {
    if Overflows(m, n) then Aborted
    else if m == n then OldRootMismatch
    else if IsPow2(m) then NewRootMismatch
    else if |p| == SubproofLength(m, n, false) && Rebuild(m, n, p).0 != oldRoot then OldRootMismatch
    else NewRootMismatch
  }

  /** `verify_consistency`, for all 64-bit sizes.  It aborts only above 2^63 leaves, a
      size that both of its callers refuse. */
  method VerifyConsistency(m: nat, n: nat, oldRoot: Hash, newRoot: Hash, proof: seq<Hash>)
    returns (r: Result<(), ProofError>)
    requires n < U64_LIMIT
    ensures r.Ok? <==> Accepts(m, n, oldRoot, newRoot, proof) && !Overflows(m, n)
    ensures r == Err(Aborted) <==> Overflows(m, n) && |proof| == ProofLength(m, n)
    ensures m > n ==> r == Err(InvalidSizes(m, n))
    ensures m == n && proof != [] ==> r == Err(NonEmptyProofForEqualSize)
    ensures m == n && proof == [] && oldRoot != newRoot ==> r == Err(OldRootMismatch)
    ensures 0 == m < n && proof != [] ==> r == Err(NonEmptyProofForEmptyOld)
    ensures 0 == m < n && proof == [] && oldRoot != EmptyRoot ==> r == Err(InvalidEmptyRoot)
    ensures 0 < m < n && |proof| != ProofLength(m, n)
            ==> r.Err? && r.error.WrongLength? && r.error.expected == ProofLength(m, n) && r.error.actual == |proof|
    ensures 0 < m < n && |proof| == ProofLength(m, n) && r.Err? ==> r.error == RootError(m, n, oldRoot, proof)
  {
    if m > n { return Err(InvalidSizes(m, n)); }
    if m == n {
      if proof != [] { return Err(NonEmptyProofForEqualSize); }
      if oldRoot != newRoot { return Err(OldRootMismatch); }
      return Ok(());
    }
    if m == 0 {
      if proof != [] { return Err(NonEmptyProofForEmptyOld); }
      if oldRoot != EmptyRoot { return Err(InvalidEmptyRoot); }
      return Ok(());
    }
    if IsPow2(m) { Pow2Length(m, n); } else { CompleteIrrelevant(m, n); }
    var expected := ProofLength(m, n);
    if |proof| != expected { return Err(WrongLength(expected, |proof|)); }
    r := VerifyInner(m, n, oldRoot, newRoot, proof);
  }
}

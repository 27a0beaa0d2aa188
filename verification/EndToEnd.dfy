/** Generated proofs meet the verifiers: what a log with an intact tile store sends
    is what witnesses and clients accept (src/worker.rs:421-476,
    src/witness/mod.rs:109-160, src/client.rs:86-104). */
module EndToEnd {
  import opened Bits
  import opened Rfc6962
  import opened Tiles
  import opened Wrappers
  import opened Consistency
  import opened ProofGeneration
  import opened Inclusion
  import opened Sequencer
  import L = Log

  /** From any stored tree, every consistency proof is generated, fits the wire limit
      of 64 hashes and is accepted against the two RFC 6962 roots, and against no other old root. */
  method ProveConsistency(store: Store, m: nat, n: nat, oldRoot: Hash, ghost log: seq<Hash>)
    returns (proof: seq<Hash>, newRoot: Hash, verdict: Result<(), ProofError>)
    requires Stored(store, log, n) && m <= n <= I64_MAX && 0 < n
    ensures |proof| == ProofLength(m, n) <= 64
    ensures proof == ConsistencyProof(m, log[..n])
    ensures newRoot == Mth(log[..n])
    ensures verdict.Ok? <==> oldRoot == Mth(log[..m])
  {
    hide Authentic, Covers, Mth, ConsistencyProof, Accepts, ProofLength;
    ghost var d := log[..n];
    assert d[..m] == log[..m];
    assert log[0..n] == d;
    var generated := GenerateConsistencyProof(store, m, n, log);
    proof := generated.value;
    var root := ComputeSubtreeHash(store, 0, n, n, log);
    newRoot := root.value;
    ProofLengthExact(m, d);
    AcceptsExactly(m, d, oldRoot, proof);
    verdict := VerifyConsistency(m, n, oldRoot, newRoot, proof);
  }

  /** From any stored tree, every leaf's inclusion proof is generated and verifies; it
      verifies no other leaf. */
  method ProveInclusion(store: Store, index: nat, n: nat, leaf: Hash, ghost log: seq<Hash>)
    returns (proof: seq<Hash>, accepted: bool)
    requires Stored(store, log, n) && index < n
    ensures accepted == VerifiesInclusion(leaf, index, n, proof, Mth(log[..n]))
    ensures accepted <==> leaf == log[index]
  {
    hide Authentic, Covers, Mth, Path, VerifiesInclusion;
    ghost var d := log[..n];
    assert log[0..n] == d;
    var generated := GenerateInclusionProof(store, index, n, log);
    proof := generated.value;
    var root := ComputeSubtreeHash(store, 0, n, n, log);
    InclusionExact(d, index, leaf, proof);
    accepted := VerifiesInclusion(leaf, index, n, proof, root.value);
  }

  /** From the storage of any reachable state, between any two checkpoints that were ever
      published, the consistency proof is generated and accepted. */
  method ServePublished(tiles: Store, a: (nat, Hash), b: (nat, Hash), ghost states: seq<L.System>,
                        ghost steps: seq<L.Step>, ghost i: nat)
    returns (proof: seq<Hash>, verdict: Result<(), ProofError>)
    requires L.Run(states, steps) && i < |states| && tiles == states[i].tiles
    requires a in states[i].published && b in states[i].published && a.0 <= b.0 <= I64_MAX
    ensures verdict.Ok? && Accepts(a.0, b.0, a.1, b.1, proof) && |proof| <= 64
  {
    hide Mth, Accepts, Authentic, Covers, ProofLength, L.Next, L.Inv;
    ghost var log := Leaves(states[i].log);
    PublishedStored(states, steps, i, a, b);
    if b.0 == 0 {
      EmptyAccepted(a, b, log);
      proof := [];
      verdict := VerifyConsistency(0, 0, a.1, b.1, []);
    } else {
      var newRoot;
      proof, newRoot, verdict := ProveConsistency(tiles, a.0, b.0, a.1, log);
      ghost var d := log[..b.0];
      assert d[..a.0] == log[..a.0];
      AcceptsExactly(a.0, d, a.1, proof);
    }
  }

  lemma EmptyAccepted(a: (nat, Hash), b: (nat, Hash), log: seq<Hash>)
    requires a.0 == b.0 == 0 && a.1 == Mth(log[..0]) && b.1 == Mth(log[..0])
    ensures a.1 == b.1 && Accepts(0, 0, a.1, b.1, []) && !Overflows(0, 0)
  {
  }

  lemma PublishedStored(states: seq<L.System>, steps: seq<L.Step>, i: nat, a: (nat, Hash), b: (nat, Hash))
    requires L.Run(states, steps) && i < |states| && a in states[i].published && b in states[i].published
    ensures var log := Leaves(states[i].log);
            && Stored(states[i].tiles, log, b.0) && a.0 <= |log| && b.0 <= |log|
            && a.1 == Mth(log[..a.0]) && b.1 == Mth(log[..b.0])
  {
    hide Mth, Authentic, Covers, DbOk, L.Next, L.WorkerOk, L.CoversBundles;
    L.RunInvariant(states, steps, i, i);
    L.PublishedStaysStored(states, steps, i);
  }
}

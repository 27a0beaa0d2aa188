# siglog: a verified model

siglog is a tlog-tiles transparency log with witnesses, a monitoring witness and a
verifiable index. This project models its cores in Dafny and proves what they
are for:

- **Merkle core** (`Bits`, `Rfc6962`, `Tiles`, `Integrate`, `TileInvariant`,
  `ProofGeneration`, `Consistency`, `Inclusion`, `EndToEnd`). MTH, PATH and SUBPROOF
  of sections 2.1, 2.1.1 and 2.1.2 of RFC 6962 are the specification. The compact
  range, the tiles, both proof generators and both verification algorithms refine it,
  for every size.
- **Log and witness protocols** (`Sequencer`, `Log`, `LogProgress`, `Publisher`, `Witness`,
  `WitnessProtocol`). Database transactions, storage reads and writes, and
  compare-and-swaps are single steps that interleave freely; any process may stop
  after any step. Beside safety, a process that nobody disturbs is shown to get through.
- **Verifiable index** (`Labels`, `PrefixTrees`, `ByteTrees`, `Wal`, `Vindex`, `VindexRecovery`,
  `VindexProtocol`, `VindexProgress`, `VindexRebuild`, `SnapshotCodec`). Map, prefix tree,
  write-ahead log and snapshot agree with the fold over the log prefix after any crash.
- **Monitoring witness** (`Monitor`, `MonitorProtocol`, `MonitorProgress`). Content rows and
  witnessed checkpoint advance together and the package policy holds.
- **Import and codecs** (`Import`, `BulkImport`, `ImportedLog`, `Paths`, `BundleCodec`). A bulk
  import is deterministic and resumable; stored paths and bundle bytes are one-to-one, and
  a request is the path of the object it reads exactly if it has no superfluous zeros.

`dafny verify dfyconfig.toml` checks the whole project.

## Main theorems

| theorem | in one sentence |
|---|---|
| `Consistency.AcceptsExactly` | a consistency proof is accepted iff it is the RFC 6962 proof and the old root is the prefix root |
| `Integrate.Integrate` | any batch on any stored size gives the MTH root and exactly the right tiles |
| `Log.PublishedCheckpointsTrue` | all published checkpoints are prefixes of one append-only log |
| `LogProgress.CatchesUp` | from every reachable state everything sequenced can be integrated and published |
| `WitnessProtocol.CosignaturesConsistent` | a witness never cosigns two conflicting histories |
| `MonitorProtocol.MonitorSafety` | what the monitor cosigns is the MTH of entries that keep the policy |
| `VindexProtocol.CrashSafety` | a crash with any tail restores the index to the fold over the database's prefix, iff the tail is harmless |
| `ByteTrees.ByteRootHashIsMap` | the prefix tree root, hashed over bytes, is a function of the map, and determines it |
| `EndToEnd.ServePublished` | between any two published checkpoints the proof is generated and accepted, from any later storage |
| `BulkImport.ImportSafety` | interrupted imports never overwrite and commit only the whole tree, whatever they read |
| `Publisher.SecondAttemptAccepted` | a publisher with any hint succeeds at its second delivered attempt, iff nothing unsettles the hint in between |

## Modelling decisions

- Hashes are a free datatype with one constructor per hash function, and a
  constructor for all other values. Equations proved about it hold for any hash
  function; where a proof uses injectivity, it stands for collision resistance.
- Storage is a map from paths to objects with atomic writes. The theorems of `Paths`
  justify this: printing is injective. Only the bottom row of a stored tile is
  authenticated; padding and cached upper rows are unconstrained.
- I/O errors are missing tiles, failed replies, or a process that stops.
- Signatures are ideal: a request carries the outcome of checking the log's signature,
  and a witness's reply carries the outcome of checking the pinned key.
- Sizes are naturals, and 64-bit limits are stated where they matter. Both build profiles
  check arithmetic (Cargo.toml, `overflow-checks`), so an overflow aborts.
  `verify_consistency` is modelled for all 64-bit sizes, with the abort as a result; its
  callers refuse sizes beyond i64::MAX first. Proof generation is modelled up to
  i64::MAX, since sizes come from an i64 column. The unguarded `partial_tile_size` is used
  only on levels where its shift is defined.
- `Witness.Witness.AddCheckpoint` assumes of its store what `WitnessProtocol`
  proves invariant: a row of size 0 has the empty root.
- The keys of an index entry are what `map_fn` yields after sorting and removing
  duplicates; the function itself is a parameter of the model.
- Checksums are an arbitrary function, so no theorem depends on CRC32. A crash keeps all
  synced bytes and leaves arbitrary bytes after them.
- Index theorems over runs ask that every snapshot taken can hold its index
  (`VindexProtocol.SnapshotsFit`). That is so under limits below 2^32 indices per key and
  2^64 keys (`SaneRunsFit`), and without it the index is lost (`UnfitSnapshotLoses`).
- Removing the old files, indexing and the new snapshot of a rebuild are one step.
- A monitor's transaction holds the row of its origin from `lock_in` to its end; dropping
  a request in the middle leaves its process's memory as it is.
- An import's fingerprint is its input itself, which stands for SHA-256 without
  collisions. Uploads complete in any order; the process dies after `budget` writes, of
  which the manifest is the first and the commit the last. The preflight scan is part of the call.

## Model

| member | source | states |
|---|---|---|
| `Rfc6962.SubtreeIsMth` | src/merkle/integrate.rs:291-353 | A complete subtree, defined by doubling, is MTH (section 2.1 of RFC 6962) of exactly the leaves it covers. |
| `Rfc6962.SubtreeStable` | src/merkle/integrate.rs:128-166 | The hash of a complete subtree never changes when the log grows. |
| `Bits.SplitPointUnique` | src/witness/proof.rs:329-335 | `largest_power_of_2_less_than(n)` is the only power of two k with k < n <= 2k. |
| `Consistency.VerifyConsistency` | src/witness/proof.rs:69-116 | For all 64-bit sizes: accepts exactly what the declarative acceptance predicate accepts, unless the checked doubling aborts; says exactly when that is, and gives the error of every rejecting case. The `complete && m == n` branch is never reached. |
| `Consistency.VerifyInner` | src/witness/proof.rs:121-159 | With a proof of the right length, both algorithms decide acceptance; otherwise the error names the first wrong root, or the abort. |
| `Consistency.VerifyPowerOf2` | src/witness/proof.rs:162-212 | The doubling loop folds the whole proof onto the old root; it aborts exactly when the size it would reach does not fit 64 bits. |
| `Consistency.DoublingFits` | src/witness/proof.rs:173-197 | The doubled size fits 64 bits if and only if there are at most 2^63 leaves; otherwise it is exactly 2^64. |
| `Consistency.DoublingOverflows` | src/witness/proof.rs:173-197 | An input that overflows: old size 1, new size 2^63 + 1. |
| `Consistency.VerifySubproof` | src/witness/proof.rs:220-285 | The recursion consumes exactly `subproof_length` hashes from its index and rebuilds both roots; otherwise it reports the wrong length. |
| `Consistency.DoublingsIsLength` | src/witness/proof.rs:291-326 | The number of iterations of the power-of-two loop is the proof length that the recursion computes. |
| `Consistency.ProofLengthExact` | src/witness/proof.rs:291-326 | For every m <= n <= i64::MAX, PROOF(m, D) has exactly `proof_length` hashes, and never more than 64. |
| `Consistency.SubProofLength` | src/witness/proof.rs:312-326 | `subproof_length` is the length of SUBPROOF of section 2.1.2 of RFC 6962. |
| `Consistency.RebuildExact` | src/witness/proof.rs:220-285 | Recursive form: the rebuilt new root is MTH(D) if and only if the proof is SUBPROOF; then the rebuilt old root is MTH(D[0:m]). |
| `Consistency.SpineExact` | src/witness/proof.rs:162-212 | Power-of-two form: the fold gives MTH(D) if and only if the old root is MTH(D[0:m]) and the proof is SUBPROOF. |
| `Consistency.AcceptsExactly` | src/witness/proof.rs:69-285 | Soundness and completeness in one: against MTH(D), an old root and a proof are accepted if and only if they are MTH(D[0:m]) and PROOF(m, D). |
| `Tiles.InTreeShiftOk` | src/api/paths.rs:79-94 | A tile of a 64-bit tree is on a level at which the unguarded shift is defined, and there both forms of `partial_tile_size` agree. |
| `Tiles.GuardedIsUnbounded` | src/api/paths.rs:79-94 | On every level the guarded form is the partial size computed with unbounded integers, which is what proof generation uses. |
| `Tiles.WidthIsCount` | src/merkle/integrate.rs:279-288 | The partial suffix of an in-tree tile announces exactly its bottom-row nodes. |
| `Tiles.SameCountSamePath` | src/merkle/integrate.rs:279-288 | As the tree grows a tile keeps its path if and only if it gains no bottom-row node. |
| `Tiles.AuthenticStable` | src/worker.rs:178-197 | Tiles that are authentic for a log stay authentic for every longer log. |
| `Tiles.StoredLeavesAuthentic` | src/merkle/integrate.rs:314-353 | A store that holds the tree of n leaves yields exactly the first n leaf hashes. |
| `Integrate.CoordsOfNode` | src/merkle/integrate.rs:268-276 | Tile coordinates of a node are in range and lead back to the node. |
| `Integrate.NodeOfCoords` | src/merkle/integrate.rs:268-276 | Every position of every tile is the coordinates of exactly the node it stands for. |
| `Integrate.ComputeNodeHashIsSubtree` | src/merkle/integrate.rs:314-353 | `compute_node_hash` from readable leaves is the complete-subtree hash. |
| `Integrate.ComputeNodeHashReads` | src/merkle/integrate.rs:314-353 | It succeeds only if every leaf below the node can be read. |
| `Integrate.ComputeNodeHashFails` | src/merkle/integrate.rs:314-353 | If it fails, the error names the level-0 tile of a leaf of the tree that cannot be read. |
| `Integrate.ComputeRangeNodes` | src/merkle/integrate.rs:363-389 | The top-down loop lists one node per set bit of the size, lowest level first, at the right index. |
| `Integrate.LoadCompactRange` | src/merkle/integrate.rs:291-308 | Succeeds if and only if every leaf can be read, and then restores the compact range of the stored leaves: entry l is Some exactly for the set bits of the size, with that subtree's hash. Otherwise the error names a tile that is missing or too short. |
| `Integrate.Merge` | src/merkle/integrate.rs:128-166 | The carry loop of `append` keeps the compact range invariant and caches each node that becomes complete, and no other. |
| `Integrate.SetNodeHolds` | src/merkle/integrate.rs:169-182 | Setting the next completed node moves the cache invariant one level up. |
| `Integrate.CachedTilesGrow` | src/merkle/integrate.rs:128-182 | The cached tiles are exactly those that gain a bottom-row node. |
| `Integrate.CachedNodes` | src/merkle/integrate.rs:128-182 | The cached nodes of a tile are exactly the nodes completed by this batch, with their subtree hashes. |
| `Integrate.GrowsShiftOk` | src/merkle/integrate.rs:185-220 | Integration never shifts by 64 bits or more: every tile that it caches, and so every level at which it asks for the old partial size, is below level 8. |
| `Integrate.NodeFits` | src/merkle/integrate.rs:257-265 | For a node of a 64-bit tree the level is a 64-bit shift and the end of its range does not exceed the tree size. |
| `Integrate.FlatOffsetInjective` | src/merkle/integrate.rs:416-432 | Two positions of a tile never share a flat offset. |
| `Integrate.FlatOffsetExact` | src/merkle/integrate.rs:416-432 | Node i of row r of a tile is at flat offset 512 - 2^(9 - r) + i. |
| `Integrate.AppliedLayout` | src/merkle/integrate.rs:434-450 | In an updated tile every given node is at that offset. |
| `Integrate.AppliedLength` | src/merkle/integrate.rs:434-450 | An updated tile has at most 510 hashes if its base has. |
| `Integrate.ApplyTo` | src/merkle/integrate.rs:416-450 | The new tile is the old one, zero-padded just far enough, with every cached node at its offset; `FlatOffsetExact` says where that is. |
| `Integrate.AppliedUnique` | src/merkle/integrate.rs:416-450 | The new tile does not depend on the order in which nodes are applied. |
| `Integrate.TreeBuilder.constructor` | src/merkle/integrate.rs:108-125 | The builder starts in a valid state for the stored leaves. |
| `Integrate.TreeBuilder.Append` | src/merkle/integrate.rs:128-166 | Appending keeps the builder valid for the leaves followed by the new one. |
| `Integrate.TreeBuilder.ComputeRoot` | src/merkle/integrate.rs:237-253 | Joining the compact range gives MTH of all leaves. |
| `Integrate.TreeBuilder.Finalize` | src/merkle/integrate.rs:185-234 | Root and size are those of all leaves; the tiles are exactly the growing ones, each its stored base with the newly completed nodes applied. |
| `Integrate.Integrate` | src/merkle/integrate.rs:48-80 | From any size and any batch: succeeds if and only if the stored leaves can be read, with root MTH(stored leaves + batch) and exactly the specified tiles; otherwise the error names a tile that is missing or too short. |
| `Integrate.IntegratedLayout` | src/merkle/integrate.rs:185-234 | In every tile that an integration returns, each node completed by the batch is at offset 512 - 2^(9 - row) + i with its subtree hash, and the tile has at most 510 hashes if the stored one has. |
| `TileInvariant.IntegratedTileAuthentic` | src/merkle/integrate.rs:185-234 | A returned tile holds the complete-subtree hashes of its whole bottom row at the new size, including the part taken over from the stored tile. |
| `TileInvariant.IntegrationKeepsStore` | src/worker.rs:178-197 | Writing an integration's tiles keeps every stored path authentic and makes every tile of the new tree present under its own path. |
| `TileInvariant.CoverageMoves` | src/worker.rs:178-197 | Coverage moves to the new size once every growing tile is written, in any order; the others keep their path. |
| `TileInvariant.AuthenticPrefixFixed` | src/worker.rs:178-197 | No write ever changes the authenticated prefix of an existing path. |
| `ProofGeneration.ReadLeafHash` | src/merkle/proof.rs:196-232 | From authentic tiles, of which any may be missing, the result is the leaf hash or "not found"; a stored tree always has it. |
| `ProofGeneration.PairUp` | src/merkle/proof.rs:254-272 | One folding round turns a row of complete-subtree hashes into the row above. |
| `ProofGeneration.TryReadTileHash` | src/merkle/proof.rs:235-275 | Folding the bottom row of one tile gives the hash of any complete subtree, at any level, or "not found"; a stored tree always has it. |
| `ProofGeneration.ComputeSubtreeHash` | src/merkle/proof.rs:168-193 | From bottom-row hashes alone, the hash of any non-empty range is MTH of that range; with missing tiles it is that or "not found", never anything else; an empty range is an error. |
| `ProofGeneration.PathSiblings` | src/merkle/proof.rs:101-130 | For a power-of-two old size the sibling loop yields SUBPROOF of section 2.1.2 of RFC 6962, or "not found" if tiles are missing; every shift, product and sum fits 64 bits. |
| `ProofGeneration.ShiftExact` | src/merkle/proof.rs:112-127 | The sibling loop stops before a shift by 64 if and only if there are at most 2^63 leaves. |
| `ProofGeneration.GenerateSubproof` | src/merkle/proof.rs:134-164 | The recursion appends exactly SUBPROOF of its range and returns the MTH of the range, or reports a missing tile. |
| `ProofGeneration.GenerateConsistencyProof` | src/merkle/proof.rs:46-98 | For every pair of sizes the result is PROOF(m, D[0:n]) or, if tiles are missing, "not found"; from a stored tree it always succeeds; a larger old size is an error. |
| `ProofGeneration.SplitRanges` | src/merkle/proof.rs:278-303 | The top-down split loop collects sibling ranges whose hashes, reversed, are PATH of section 2.1.1 of RFC 6962. |
| `ProofGeneration.GenerateInclusionProof` | src/merkle/proof.rs:278-303 | The result is PATH(index, D[0:n]) or, if tiles are missing, "not found"; from a stored tree it always succeeds; an index outside the tree is an error. |
| `Inclusion.InclusionExact` | src/client.rs:86-104 | An inclusion proof verifies against MTH(D) if and only if the leaf is D[m] and the proof is PATH(m, D). |
| `Inclusion.AuthenticatedTree` | src/monitor/mod.rs:165-205 | If every leaf is proved included under a root, that root is the MTH of the leaves. |
| `Inclusion.AuthenticatedExtension` | src/monitor/mod.rs:121-205 | If a consistency proof starts at MTH(D[0:m]) and all later leaves are proved included, the new root is MTH(D), although D was never assumed to exist. |
| `EndToEnd.ProveConsistency` | src/worker.rs:421-476 | Every generated consistency proof has the expected length, fits the limit of 64 hashes, and is accepted with the old root if and only if that root is MTH(D[0:m]). |
| `EndToEnd.ProveInclusion` | src/merkle/proof.rs:278-303 | Every generated inclusion proof verifies for the leaf at its index and for no other leaf. |
| `EndToEnd.ServePublished` | src/worker.rs:421-476 | From the storage of any reachable state, between any two checkpoints ever published, the consistency proof is generated and accepted. |
| `Witness.DecideLinks` | src/witness/mod.rs:102-160 | A request that passes all checks makes the new checkpoint an accepted extension of the witnessed state, and the swap that follows cannot fail on its arguments. |
| `Witness.PrecheckExact` | src/witness/mod.rs:65-100 | The exact condition of each refusal before the state is read: unknown log, missing signature, size beyond i64::MAX or below the old size. |
| `Witness.DecideExact` | src/witness/mod.rs:102-160 | For sizes in range: a conflict exactly if the old size is not the witnessed one, acceptance exactly of extensions (nothing witnessed and no proof, the same root at the same size, or an accepted proof), otherwise an invalid proof. |
| `Witness.StateStore.GetOrInit` | src/witness/state.rs:48-78 | Returns the stored row, or inserts and returns the empty-tree row. |
| `Witness.StateStore.Update` | src/witness/state.rs:91-121 | Refuses a rollback, a changed root at the same size and a size beyond i64::MAX; otherwise swaps exactly when the row is the expected one, and changes nothing else. |
| `Witness.Witness.AddCheckpoint` | src/witness/mod.rs:65-170 | Without interference, the exact condition of every outcome: unknown log, invalid signature, bad sizes, conflict with the stored size, invalid proof, or a cosignature, which takes a known log, an authentic request, sizes in range and an extension of the stored row; then exactly the checkpoint is stored. No error changes a witnessed state; the initial row may be created. |
| `WitnessProtocol.NextKeepsInv` | src/witness/mod.rs:102-169 | Each step of any interleaving keeps the chain of witnessed states linked by accepted proofs, and signs only recorded states. |
| `WitnessProtocol.RunInvariant` | src/witness/mod.rs:102-169 | The invariant holds in every reachable state, and histories only grow. |
| `WitnessProtocol.ChainConsistent` | src/witness/proof.rs:69-116 | Any two states of a chain agree: equal sizes have equal roots, and if the later root is MTH(D) the earlier one is MTH of a prefix of D. |
| `WitnessProtocol.CosignaturesConsistent` | src/witness/mod.rs:102-169 | Over all interleavings, crashes and restarts: no two conflicting roots are cosigned, and if a later cosigned or witnessed root is MTH(D), every earlier cosigned root is MTH(D[0:its size]). |
| `WitnessProtocol.CosignedAuthentic` | src/witness/mod.rs:75-100 | In every run every cosigned checkpoint was asked for by a received request of a known log that carries the log's signature, with sizes in range. |
| `WitnessProtocol.ServedAlone` | src/witness/mod.rs:65-170 | The checks leave the way free: from any state of the invariant an admissible request that names the witnessed size and extends the witnessed state can run to its cosignature; its row is then the checkpoint and no other row changes. |
| `WitnessProtocol.WitnessedSizesGrow` | src/witness/state.rs:91-121 | The witnessed size of an origin never goes back, and its earlier states stay consistent with its later ones. |
| `Sequencer.Database.SequenceEntries` | src/storage/database.rs:163-251 | The whole batch commits in order, or, if the index would exceed i64::MAX, nothing changes. |
| `Sequencer.Database.MarkIntegratedIfCurrent` | src/storage/database.rs:286-332 | Advances size and root and drops integrated rows exactly when the expected size is current. |
| `Sequencer.SequenceKeepsDbOk` | src/storage/database.rs:163-251 | Pending rows are exactly [integrated, next) with the log's entries; every reported index holds the submitted entry. |
| `Sequencer.SequenceOutcomes` | src/storage/database.rs:163-251 | A submission is a duplicate if and only if the log is in Rekor mode and the entry is in the log or earlier in the batch; otherwise it gets the next index. Every submitted entry ends up in the log, and without Rekor mode the log grows by the batch. |
| `Sequencer.RekorUnique` | src/storage/database.rs:163-251 | In Rekor mode every entry has one permanent index. |
| `Sequencer.MarkKeepsDbOk` | src/storage/database.rs:286-332 | Marking with the true root keeps the database invariant. |
| `Log.NewBundlesAuthentic` | src/worker.rs:248-312 | Each bundle of a batch, including the prefix that it continues, holds exactly the entries that its path announces. |
| `Log.NewBundlesSized` | src/worker.rs:248-312 | Whatever the reader has seen, a bundle that passes the check on its stored part has exactly the number of entries that its path announces. |
| `Log.NextKeepsInv` | src/worker.rs:133-245 | Each step of any number of concurrent integrators and publishers keeps the log invariant, also when integrators see mixed old and new tiles. |
| `Log.RunInvariant` | src/worker.rs:133-245 | The invariant holds in every reachable state; the log is append-only and the integrated size never goes back. |
| `Log.InitSettled` | src/storage/database.rs:73-90 | A new log satisfies the invariant from which runs start. |
| `Log.PublishedCheckpointsTrue` | src/worker.rs:371-505 | Every checkpoint ever published is (n, MTH(log[0:n])) of one append-only log. |
| `Log.PublishedHadQuorum` | src/worker.rs:371-505 | In every run every checkpoint ever published had verified cosignatures from witnesses with pairwise distinct pinned keys and names: as many as the configured quorum, or, if none is configured, from every witness. |
| `Log.ReachableStorage` | src/worker.rs:178-229 | In every reachable state storage holds every tile and bundle of the integrated tree under its own path, all authentic, and the database agrees with the log. |
| `Log.PublishedStaysStored` | src/worker.rs:178-229 | In every reachable state storage still holds every tile and bundle of every checkpoint that a publisher has read or published, however far integration has gone since. |
| `Log.WorkerFindsItsTiles` | src/worker.rs:133-180 | An integrator always finds the tiles and the partial bundle of the size it started from, whatever others have integrated since. |
| `LogProgress.IntegratesAlone` | src/worker.rs:133-245 | From any state of the invariant, whatever other integrators have left behind, a new integrator can integrate every batch of pending entries; size and root are then those of the longer prefix and nothing of the others changes. |
| `LogProgress.QuorumExact` | src/worker.rs:487-495 | A publisher goes on if and only if the count reaches the configured quorum, or, if none is configured, the number of witnesses. |
| `LogProgress.PublishesAlone` | src/worker.rs:371-505 | With enough cosignatures the current tree can be published from any state of the invariant. |
| `LogProgress.CatchesUp` | src/worker.rs:133-245 | In every run, from every reachable state, there is a path to a state in which every entry ever sequenced is integrated and, with enough cosignatures, the checkpoint (n, MTH) of the whole log is published. |
| `Publisher.Publisher.PublishCheckpoint` | src/worker.rs:371-505 | A changed checkpoint is written if and only if the count reaches the configured quorum, or, if none is configured, the number of witnesses; with distinct witnesses, which the program checks at start, if and only if that many sign, or, without a configured quorum, every one signs. Hints follow the replies. |
| `Publisher.CountedDistinct` | src/worker.rs:450-470 | What is counted is always a set of signing witnesses with pairwise distinct keys and names. |
| `Publisher.CountedAll` | src/main.rs:259-267 | With pairwise distinct names and keys the count is the number of signing witnesses, for all replies. |
| `Publisher.AllSigners` | src/worker.rs:487-495 | The signers are as many as the witnesses if and only if every witness signs. |
| `Publisher.CountRightExactly` | src/main.rs:259-267 | That guard is exact: the count is the number of signers for all replies if and only if names and keys are pairwise distinct. |
| `Publisher.CountFallsShort` | src/worker.rs:450-470 | Without distinct witnesses the count can be too small: three signers of which two are distinct count as one. |
| `Publisher.CountStep` | src/worker.rs:450-470 | One reply keeps the counting invariant; the key is recorded before the name is looked at. |
| `Publisher.HintKept` | src/worker.rs:449-484 | Without a cosignature or a conflict a URL keeps its hint. |
| `Publisher.HintSet` | src/worker.rs:449-484 | Otherwise it carries what the last such reply said: the published size, or the witness's own. |
| `Publisher.HintFollowsReply` | src/worker.rs:584-598 | What the publisher leaves under the URL of a witness is the hint of the retry protocol after the attempt, and no other URL changes; a lost reply changes nothing. |
| `Publisher.AttemptOutcome` | src/worker.rs:419-476 | With an honest log, a request is accepted exactly when the hint is the witness's size, and otherwise answered with that size. |
| `Publisher.EventKeepsLink` | src/worker.rs:584-598 | Integration, attempts with lost or delivered replies, and restarts keep hint <= witnessed size <= integrated size. |
| `Publisher.LinkRunOk` | src/worker.rs:419-476 | The same over every run. |
| `Publisher.HintInStep` | src/worker.rs:584-598 | A delivered reply, accepted or not, puts the hint right; nothing else does. |
| `Publisher.SecondAttemptAccepted` | src/worker.rs:584-598 | Over every run, of two consecutive delivered attempts the second is accepted if and only if nothing in between has put the hint wrong: no lost reply with news, no restart of a publisher with a hint. |
| `Publisher.ConflictRun` | src/worker.rs:584-598 | A run, for any two entries, in which the second delivered attempt conflicts because the reply in between was lost. |
| `Labels.BitsInjective` | src/vindex/prefix_tree.rs:40-74 | Canonical byte labels with the same bits are the same label. |
| `Labels.PrefixBits` | src/vindex/prefix_tree.rs:85-108 | `prefix` takes exactly the first bits and clears the padding. |
| `Labels.AppendBitBits` | src/vindex/prefix_tree.rs:128-145 | `append_bit` appends exactly one bit. |
| `Labels.CommonPrefixLen` | src/vindex/prefix_tree.rs:177-208 | The bytewise loop computes the length of the longest common bit prefix. |
| `Labels.IsPrefixOfBits` | src/vindex/prefix_tree.rs:148-174 | The bytewise, masked comparison holds if and only if the bits are a prefix. |
| `PrefixTrees.InsertCorrect` | src/vindex/prefix_tree.rs:283-399 | Insertion keeps the structural invariant, keeps every `bit()` access in range, and changes the represented map at the key alone. |
| `PrefixTrees.Canonical` | src/vindex/prefix_tree.rs:283-399 | Two well-formed trees with the same map are the same tree. |
| `PrefixTrees.HashDetermines` | src/vindex/prefix_tree.rs:401-410 | Equal node hashes mean equal subtrees. |
| `PrefixTrees.RootHashIsMap` | src/vindex/prefix_tree.rs:273-276 | The root hashes of two trees are equal if and only if their maps are. |
| `PrefixTrees.OrderIrrelevant` | src/vindex/prefix_tree.rs:278-399 | Two insertion sequences, with any overwrites, give the same tree and root hash if and only if their final maps are equal. |
| `PrefixTrees.LookupCorrect` | src/vindex/prefix_tree.rs:413-466 | A key is found if and only if it is in the map, and then folding its leaf with the proof reproduces the root hash; for an absent key the proof folds the node at which the key leaves the tree. |
| `PrefixTrees.LookupStops` | src/vindex/prefix_tree.rs:420-466 | For every key the siblings fold the hash of the node where the lookup ends up to the root hash. |
| `PrefixTrees.ProofBinds` | src/vindex/prefix_tree.rs:413-466 | A lookup proof that folds to the root hash can only be for a key of the map with its value. |
| `PrefixTrees.CountIsSize` | src/vindex/prefix_tree.rs:469-484 | `len` is the number of keys. |
| `PrefixTrees.Rebuild` | src/vindex/mod.rs:372-376 | Inserting an unordered map, in any order, gives the tree of that map. |
| `ByteTrees.InsertBytes` | src/vindex/prefix_tree.rs:283-399 | Insertion on byte labels refines insertion on bits; every `bit` call is in range and every label stays canonical. |
| `ByteTrees.LookupBytes` | src/vindex/prefix_tree.rs:420-466 | Lookup on byte labels gives the same answer and the same siblings as on bits, with canonical sibling labels; for every key the byte proof folds the node where the lookup ends to the byte hash of the tree. |
| `ByteTrees.ByteProofBinds` | src/vindex/prefix_tree.rs:234-247 | Any proof in bytes that folds a leaf to the root hash proves that the key is in the map with that value. |
| `ByteTrees.MeaningInjective` | src/vindex/prefix_tree.rs:211-247 | A stored tree is determined by its bits. |
| `ByteTrees.ByteHashDetermines` | src/vindex/prefix_tree.rs:234-247 | Equal hashes over label bytes mean equal stored trees. |
| `ByteTrees.ByteRootHashIsMap` | src/vindex/prefix_tree.rs:401-410 | The root hash over bytes is a function of the map, and determines it. |
| `ByteTrees.FromKeyBits` | src/vindex/prefix_tree.rs:59-64 | The label of a key has the bits that the index files the key under. |
| `Vindex.KeyBitsAt` | src/vindex/prefix_tree.rs:40-64 | The bits of a key are those of its bytes in order, in each byte the most significant first. |
| `ByteTrees.StoredTree.Insert` | src/vindex/prefix_tree.rs:278-281 | The stored tree represents its old map with the key set. |
| `ByteTrees.StoredTree.Find` | src/vindex/prefix_tree.rs:413-418 | Found exactly for the keys of the map; then the returned proof, in bytes, folds the leaf hash over the key's bytes to the root hash. |
| `Wal.NextOfEncoded` | src/vindex/wal.rs:275-343 | A whole record is read back wherever it stands, for every checksum function. |
| `Wal.NextOfTorn` | src/vindex/wal.rs:275-343 | A proper prefix of a record is never taken for a record. |
| `Wal.RecordLayout` | src/vindex/wal.rs:37-47 | The bytes of a record: version 3, the index with its most significant byte first, the number of keys, the keys, and the checksum of all that with its least significant byte first. |
| `Wal.NextExact` | src/vindex/wal.rs:275-343 | At any position of any file the reader finds a record if and only if the bytes there are one of version 3 with its checksum or one of version 2 without, and the end of the file if and only if nothing is left. |
| `Wal.NextAtBoundary` | src/vindex/wal.rs:37-47 | At each record boundary of a file with a torn tail the reader finds that record and its end; at the tail it finds none. |
| `Wal.ScanWholeAndTorn` | src/vindex/wal.rs:275-343 | Scanning whole records followed by any proper record prefix returns exactly the whole records. |
| `Vindex.OccurrencesExact` | src/vindex/mod.rs:516-534 | The index list of a key is strictly increasing and holds exactly the entries below the size that carry the key. |
| `Vindex.IndexMeaning` | src/vindex/mod.rs:427-544 | The folded index maps each key to exactly that list. |
| `Vindex.TreeDetermined` | src/vindex/mod.rs:372-376 | The prefix tree of an index is unique, so a rebuilt tree is the live one. |
| `Vindex.LimitsExact` | src/vindex/mod.rs:460-510 | For an index within its limits, an entry is admitted if and only if the index is within them with it. |
| `Vindex.FitsExact` | src/vindex/mod.rs:460-510 | For any index, an entry is admitted if and only if it has no keys, or the index has no more than the allowed keys with it and each key that was there has room for one more index. |
| `Vindex.AdmittedExactly` | src/vindex/mod.rs:641-712 | All entries are admitted one after the other if and only if none has more than 255 keys and the index of them all is within the limits. |
| `Vindex.VerifiableIndex.IndexEntry` | src/vindex/mod.rs:427-544 | Entries are taken in order: an old one is a no-op, a gap is an error, the next one succeeds if and only if it has at most 255 keys and fits the limits; map, tree and size move together. |
| `Vindex.VerifiableIndex.Lookup` | src/vindex/mod.rs:547-563 | Returns exactly the entries below the tree size that carry the key, found if and only if there are some, with a proof that folds to the root hash. |
| `VindexRecovery.ValidateAndTruncate` | src/vindex/wal.rs:358-435 | Cuts the file after the last valid record below the expected size and reports what is covered. |
| `VindexRecovery.TruncatedScan` | src/vindex/wal.rs:358-435 | The cut file, whatever its contents were, scans cleanly to exactly the kept records. |
| `VindexRecovery.CutTwice` | src/vindex/wal.rs:358-435 | Cutting the file changes nothing that is restored from it, and a second cut finds nothing to do. |
| `VindexRecovery.WithWal` | src/vindex/mod.rs:286-370 | The loops compute the specified restore; success leaves the cut file. |
| `VindexRecovery.RestoredSizeMatches` | src/vindex/mod.rs:340-370 | For arbitrary file and snapshot contents, success means that the tree size is the expected one. |
| `VindexRecovery.RebuildTree` | src/vindex/mod.rs:372-376 | The tree rebuilt from the restored map, in any order, is the tree of that map. |
| `VindexRecovery.RestoreGenuine` | src/vindex/mod.rs:292-370 | From a genuine snapshot, a file with a sound part that reaches the database size and an arbitrary tail: the restore succeeds if and only if nothing in the tail would be replayed, and then gives the fold over the log prefix. |
| `VindexRecovery.WrittenTailHarmless` | src/vindex/wal.rs:275-343 | Whatever is left of what a process has written after the synced part, cut in the middle of a record or not, is never replayed. |
| `VindexRecovery.LegacyJunkHarms` | src/vindex/wal.rs:275-343 | A tail that does harm: ten bytes that read as a version 2 record of an entry after the snapshot, whatever the checksum function. |
| `VindexProtocol.RestoreAfterCrash` | src/vindex/mod.rs:292-370 | After any reachable crash with any tail, the restore succeeds if and only if the tail is harmless, at the database size, and leaves a sound file. |
| `VindexProtocol.NextKeepsInv` | src/worker.rs:202-243 | Every sequencing, index, flush, mark, snapshot, truncate, crash, cut, restart and rebuild step keeps the durability invariant, with entries of any number of keys, any memory limits and snapshots as bytes in any row order that can hold their index. |
| `VindexProtocol.RunInvariant` | src/worker.rs:202-243 | The invariant holds in every reachable state of every run whose snapshots can hold their index; among it, a write buffer never holds a whole batch. |
| `VindexProtocol.SaneRunsFit` | src/vindex/mod.rs:199-221 | With a per-key limit below 2^32 and a key limit below 2^64 every snapshot of every run can. |
| `VindexProtocol.UnfitSnapshotLoses` | src/vindex/snapshot.rs:47-67 | A snapshot that cannot hold its index loses it: after the truncation no restart gets the fold back from it. |
| `VindexProtocol.CrashSafety` | src/vindex/mod.rs:597-620 | In every reachable state a live index is the fold of the log prefix of its size; a crashed one restores to the fold of the prefix of the database size if and only if the tail is harmless. |
| `VindexProgress.CatchesUp` | src/worker.rs:202-243 | In every run a process between two cycles, with whatever aborted cycles have left over, can index, flush and mark the whole log if its limits admit the rest of it. |
| `VindexProgress.SnapshotsAlone` | src/vindex/mod.rs:597-620 | In every run a process that has marked its batch can take a snapshot of an index that a snapshot can hold, in any row order, and truncate the log; the snapshot alone then restores the fold over the prefix. |
| `VindexProtocol.StartUpEnds` | src/main.rs:303-322 | From every reachable crashed state start-up gets to the fold at the database size: by cutting and restoring, or, if the tail is harmful and the limits admit the entries, by rebuilding. |
| `VindexProtocol.RebuiltWithinLimits` | src/vindex/mod.rs:641-712 | A rebuilt index is within the limits it is rebuilt with. |
| `VindexProtocol.LostWritesRestored` | src/vindex/wal.rs:358-435 | In every run, a crash that only loses the end of what was written, in the middle of a record or not, is always recovered from. |
| `VindexProtocol.OversizedStops` | src/vindex/mod.rs:443-450 | In every run the database size never passes an entry with more than 255 keys. |
| `VindexProtocol.LegacyTailHarms` | src/vindex/wal.rs:275-343 | For every crashed state whose file ends at the database size there is a tail that makes the restore fail. |
| `VindexProtocol.HarmfulRun` | src/vindex/wal.rs:275-343 | A run of six steps, for any checksum function, into a state whose restore fails. |
| `VindexRebuild.RebuildFromStorage` | src/vindex/mod.rs:641-712 | From authentic bundles it yields the index and tree of the log prefix, or an error; an error names a bundle that is missing, or the first entry that the limits do not admit. |
| `VindexRebuild.StartUp` | src/main.rs:303-322 | Restore, then rebuild if that fails: ends at the index of the log prefix if and only if the restore succeeds or the limits admit the entries. |
| `Monitor.ContentIndex.Check` | src/monitor/index.rs:75-144 | The first staged row of the key decides, else the committed one: a conflicting value or a second index is a violation, the same index is not. |
| `Monitor.VerdictExact` | src/monitor/index.rs:75-144 | Against an index that knows a list of keys: a violation if and only if the key is there at another position or with another value than expected; it names the position of the key, and is a conflict if and only if the value differs. |
| `Monitor.ContentIndex.Commit` | src/monitor/index.rs:177-184 | Pending rows join the index and the list is emptied. |
| `Monitor.CondaMonitor.ValidateEntry` | crates/conda-monitor/src/conda.rs:115-176 | Both indices are checked before either is staged; an invalid entry stages nothing. |
| `Monitor.CondaMonitor.Judge` | src/monitor/mod.rs:150-205 | Rollback, reload, validation loop and commit of one request: verdict, saved rows and the indices left in memory depend on the origin's rows and the entries alone, whatever was in memory before. |
| `Monitor.ValidateExact` | crates/conda-monitor/src/conda.rs:115-176 | A package passes if and only if the entries seen so far together with it keep the policy, and then it is known. |
| `Monitor.ValidateAllExact` | src/monitor/mod.rs:160-205 | A whole batch passes if and only if all entries together keep the policy. |
| `Monitor.JudgementExact` | src/monitor/mod.rs:150-205 | A request is accepted if and only if all its entries parse and keep the policy together with everything seen; the saved rows then know exactly that. |
| `Monitor.JudgedMemory` | src/monitor/index.rs:177-184 | After an accepted request the indices in memory are the rows saved for the origin. |
| `Monitor.FilenamesUnique` | crates/conda-monitor/src/conda.rs:115-176 | Under the policy no filename occurs twice, so none carries two digests. |
| `Monitor.SavedKnows` | src/monitor/index.rs:283-318 | Saved rows, loaded again, know exactly what the staged state knew. |
| `MonitorProtocol.TransactionRoot` | src/monitor/mod.rs:121-205 | The root that the monitor is about to witness is the MTH of the entries it has validated. |
| `MonitorProtocol.NextKeepsInv` | src/monitor/mod.rs:104-222 | Every step of any number of processes, each with in-memory indices that survive failed, cancelled and foreign requests, keeps content rows and witnessed checkpoint in agreement. |
| `MonitorProtocol.RunInvariant` | src/monitor/mod.rs:104-222 | The same in every reachable state. |
| `MonitorProtocol.MonitorSafety` | src/monitor/mod.rs:104-222 | In every reachable state the witnessed checkpoint of an origin is (n, MTH) of n validated entries that keep the policy, and every cosigned checkpoint is MTH of a prefix of them. |
| `MonitorProtocol.CosignedAuthentic` | src/monitor/mod.rs:121-145 | In every run every checkpoint that a monitor cosigns was asked for by a received request of a known log that carries the log's signature, with sizes in range. |
| `MonitorProgress.CosignsAlone` | src/monitor/mod.rs:104-222 | In every run, whatever earlier requests have left in memory, an admissible request with a consistency proof, whose entries are included, parse and keep the policy with everything seen, can run to its cosignature if nobody holds its origin; row and seen entries of that origin move, no other origin changes. |
| `MonitorProtocol.SavedInMemory` | src/monitor/mod.rs:207-213 | When a request saves, its process has in memory exactly the rows that it hands to the database. |
| `MonitorProtocol.JudgedByOwnOrigin` | src/monitor/mod.rs:150-157 | In every reachable state, whatever earlier requests have left in memory, the next entry of a request passes if and only if it keeps the policy together with everything seen for its own origin and everything fetched. |
| `Import.NewTilesDetermined` | src/merkle/integrate.rs:196-220 | Integration is a function of the tiles of the old size: future tiles left by an interrupted import do not change it. |
| `Import.CanonCorrect` | src/import.rs:129-180 | After every chunk the canonical storage is authentic, covers the entries so far, and announces nothing beyond them. |
| `Import.ChunkPathsNew` | src/import.rs:150-172 | No chunk writes a tile path that an earlier chunk has written. |
| `BulkImport.ChunkNamesNew` | src/import.rs:150-172 | No chunk uploads under a name of an earlier chunk, tile or bundle: an uninterrupted import never meets its own objects. |
| `BulkImport.IntegrationCanonical` | src/import.rs:150-157 | Once the earlier chunks are in place, integration sees exactly their leaves, whatever else storage holds. |
| `BulkImport.ChunkUploads` | src/import.rs:150-172 | The objects of a chunk are the canonical ones, and its root is the MTH of all entries so far. |
| `BulkImport.TileUploads` | src/import.rs:153-160 | One object per returned tile, under the path of the new size. |
| `BulkImport.BundleUploads` | src/import.rs:161-167 | The chunk's bundles, 256 entries each, under the paths of the new size. |
| `BulkImport.Importer.WriteObject` | src/storage/opendal.rs:173-189 | Writes a free name; accepts an equal object on resume; refuses everything else and never overwrites. |
| `BulkImport.Importer.UploadAll` | src/import.rs:168-182 | Uploads in any order: only objects of the chunk are added; it completes only if all can be placed, refuses only if some cannot, and is cut only if the budget is smaller than the chunk; counters and remaining budget are exact. |
| `BulkImport.Importer.ImportChunk` | src/import.rs:129-188 | One chunk moves storage from the first k to the first k + 1 chunks and uses up its share of the budget, or stops having added only objects of the pass. |
| `BulkImport.Importer.ImportChunks` | src/import.rs:124-203 | The chunk loop: what the pass uploads and how it ends (commit, changed input, entry of a refused size, clash, death) is decided by what is stored, what it reads and the budget. |
| `BulkImport.Importer.BulkImport` | src/import.rs:91-204 | From arbitrary storage, with arbitrary second-pass entries and any budget: each initial error, including entries of refused size, what is added, and how the call ends. Success, or any change at all, takes a namespace without a published checkpoint or a committed log, and a manifest exactly if it resumes, of the same input and chunk size. |
| `BulkImport.StartErrorExact` | src/import.rs:27-128 | The exact condition of each error before the first chunk: empty input, too many entries or an entry of refused size; bad chunk size or concurrency; a log that is not empty; a published checkpoint; no manifest to resume from; a manifest of another import. |
| `BulkImport.PublishedUntouched` | src/import.rs:108-117 | No attempt changes a namespace with a published checkpoint or a log that is not empty; each is refused. |
| `BulkImport.PlannedAll` | src/import.rs:129-188 | A pass over well-sized entries, not more than the preflight has seen, uploads all their objects and ends well exactly if they are the input. |
| `BulkImport.AttemptKeepsInv` | src/import.rs:91-204 | Whatever its second pass reads, an attempt overwrites nothing and keeps a committed import complete. |
| `BulkImport.HonestOutcome` | src/import.rs:91-204 | An attempt that starts and reads its input: if storage agrees with it, it commits exactly if it lives long enough; if not, it is refused, or dies before. |
| `BulkImport.NeverRefused` | src/import.rs:91-204 | As long as every attempt that started has read its input, none is refused: with the budget of a whole import it commits and leaves exactly the canonical objects, with less it is interrupted; a fresh one finds no object of its own. |
| `BulkImport.ChangedPassClashes` | src/import.rs:124-203 | A second pass that reads other entries, as many as the preflight, leaves an object that an honest attempt refuses. |
| `BulkImport.SpoiltForever` | src/storage/opendal.rs:173-189 | Once storage disagrees with the import that its manifest names, no later attempt ever commits, whatever it reads. |
| `BulkImport.ChangedPassRun` | src/import.rs:185-192 | In every run: a fresh attempt whose second pass reads other well-sized entries, as many as the preflight, uploads them all and is noticed only at the end; no later attempt ever commits, and an honest one with the budget is refused. |
| `BulkImport.BadEntryRefused` | src/import.rs:50-60 | A second pass whose first chunk has an entry of a refused size stores nothing. |
| `BulkImport.ImportSafety` | src/import.rs:91-204 | Over every sequence of attempts, with or without a published checkpoint, with any preflight inputs, second passes, chunk sizes, flags and interruptions: nothing is overwritten, and a commit means that the second pass has read the input, every object of it is in place and the root is its MTH. |
| `BulkImport.RefusedExactly` | src/storage/opendal.rs:173-189 | An attempt that starts, reads its input and has the budget of a whole import commits if every object that earlier attempts stored under one of its names is its own, and is refused otherwise. |
| `BulkImport.ImportedStorage` | src/import.rs:129-197 | The imported tiles are the complete authentic tree over the input. |
| `BulkImport.ImportedBundles` | src/import.rs:161-167 | Every entry bundle of the input is present under its final path with exactly its entries. |
| `ImportedLog.ImportedSettled` | src/storage/database.rs:140-157 | What a committed import leaves behind satisfies the invariant from which the runs of a log start, so all theorems of `Log` hold for a log that starts on it. |
| `ImportedLog.ImportThenLog` | src/import.rs:185-203 | An import whose attempts have all read their input commits as soon as one has the budget, and the log that starts on it is settled. |
| `Paths.FormatN` | src/api/paths.rs:30-40 | The loop prints the groups of three digits, most significant first. |
| `Paths.ParseTileIndex` | src/api/paths.rs:124-186 | The parsing loops compute the specified parse, with its error cases and overflow check. |
| `Paths.ParseInvertsPrint` | src/api/paths.rs:30-66 | Parsing inverts printing for every u64 index and u8 partial size. |
| `Paths.OverflowExact` | src/api/paths.rs:170-183 | Parts of three digits are refused if and only if they spell a number of more than 64 bits, and otherwise read as that number. |
| `Paths.PrintInvertsParse` | src/api/paths.rs:124-186 | Printing a parsed index gives its text back if and only if the text has no leading group of zeros and no leading zero in the partial size. |
| `Paths.TileServed` | src/api/handlers.rs:135-144 | A request for the path of a tile reads that tile: level, index and width are read back, for all levels below 64, and the others are refused. |
| `Paths.EntriesServed` | src/api/handlers.rs:164-173 | A request for the path of an entry bundle reads that bundle. |
| `Paths.TileAliasExact` | src/api/paths.rs:96-115 | A request that is answered is the path of the object that it reads if and only if it has no superfluous zeros in level, index or partial size. The comment at the level parser rules out a second address for a tile. |
| `Paths.EntriesAliasExact` | src/api/handlers.rs:164-173 | The same for entry bundles. |
| `Paths.TileAliases` | src/api/paths.rs:96-115 | A zero in front of the level is a second address of every tile. |
| `Paths.TilePathsInjective` | src/api/paths.rs:54-59 | Distinct tiles have distinct paths. |
| `Paths.EntriesPathsInjective` | src/api/paths.rs:61-66 | Distinct entry bundles have distinct paths. |
| `Paths.PathsDisjoint` | src/api/paths.rs:54-66 | No tile shares a path with an entry bundle. |
| `BundleCodec.ToBytes` | src/merkle/tiles.rs:97-116 | Encodes every entry in order, and fails exactly when one is longer than 65535 bytes. |
| `BundleCodec.FromBytes` | src/merkle/tiles.rs:119-150 | The offset loop computes the specified decoding, with both error cases. |
| `BundleCodec.ItemLayout` | src/merkle/tiles.rs:97-116 | An entry is written as two bytes of length, the higher first, and its data. |
| `BundleCodec.BundleBytesExact` | src/merkle/tiles.rs:97-150 | Bytes decode to entries if and only if the entries encode to those bytes. |
| `SnapshotCodec.WriteSnapshot` | src/vindex/snapshot.rs:47-67 | Writes a listing of the map in some order; it parses back if and only if the map is storable. |
| `SnapshotCodec.SnapshotLayout` | src/vindex/snapshot.rs:47-67 | The bytes of a snapshot: "VSNP", version 1, tree size and number of keys with the most significant byte first, the rows, and the checksum of all that with its least significant byte first. |
| `SnapshotCodec.RowLayout` | src/vindex/snapshot.rs:58-64 | A row is the key, the number of its indices in four bytes, and the indices in eight bytes each. |
| `SnapshotCodec.ParseSnapshot` | src/vindex/snapshot.rs:129-197 | The loops compute the specified parse; what is parsed is ordered, below the tree size and free of duplicates. |
| `SnapshotCodec.ParsedWasWritten` | src/vindex/snapshot.rs:129-197 | Every accepted snapshot is byte for byte a written listing of the map it yields. |
| `SnapshotCodec.SnapshotRoundTrip` | src/vindex/snapshot.rs:47-67 | For every map order and checksum, parsing inverts writing if and only if the lists are ordered, below the size, and shorter than the 32-bit count can hold. |
| `SnapshotCodec.IndexStorable` | src/vindex/snapshot.rs:165-185 | The live index is storable as long as no list reaches 2^32 entries. |

## Left out

- HTTP handlers beyond the object that a tile or bundle request reads, routing, rate limits, command-line tools, configuration, logging and metrics.
- JSON, base64 and note parsing: requests, checkpoints and packages are values; `AddCheckpointRequest::from_ascii` appears only as its limit of 64 proof hashes.
- Signature schemes and key handling, and the Rekor request canonicalization.
- The queue in front of the sequencer, timeouts, and the client's fetching and caching: they are nondeterministic steps.
- In-process witness signatures of the publisher: they take no part in the quorum.
- A crash in the middle of `rebuild_from_storage`: with the snapshot gone, arbitrary bytes after a file could pass for entries of the log.
- Memory statistics of the index.
- Lookups that interleave with a running `index_entry`, which releases its locks before it advances the tree size.
- Write errors inside a living index process: the model crashes the process instead.
- `HashTile::to_bytes` and `from_bytes`: fixed 32-byte slices.
- The database transaction around an import: it commits in the last step or not at all.
- PrefixTrees.LookupCorrect: claims no exclusion proof for absent keys: the node at which the key leaves the tree folds to the root hash, but the source does not put it into the proof.

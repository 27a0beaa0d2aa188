/** The log as an interleaved system (src/worker.rs:133-312, src/worker.rs:371-505).

    Any number of integrators and publishers run concurrently.  Each database
    transaction, each storage read and each storage write is one step; a process
    may stop after any step.  Integrators read tiles one at a time into a private
    view, so they may see a mixture of old and new storage. */
module Log {
  import opened Bits
  import opened Rfc6962
  import opened Tiles
  import opened Integrate
  import opened TileInvariant
  import opened Sequencer
  import opened Wrappers
  import P = Publisher

  datatype BundlePath = BundlePath(index: nat, partial: nat)
  type Bundles = map<BundlePath, seq<Entry>>

  /** An integration cycle between two steps. */
  datatype Worker =
    | GotState(from: nat)
    | GotBatch(from: nat, batch: seq<Entry>, view: Store, bundleView: Bundles)
    | Writing(from: nat, n: nat, root: Hash, tilesLeft: map<TileId, Tile>, bundlesLeft: map<nat, seq<Entry>>)

  /** The external witnesses that a publisher has asked about a checkpoint, what they have
      answered, and the quorum it was configured with. */
  datatype Vote = Vote(checkpoint: (nat, Hash), witnesses: P.Witnesses, replies: seq<P.Reply>, quorum: Option<nat>)

  /** `log` is every entry ever sequenced; `published` every checkpoint ever written, and
      `votes` what it was written upon. */
  datatype System = System(db: Db, tiles: Store, bundles: Bundles, workers: map<nat, Worker>,
                           publishers: map<nat, (nat, Hash)>, published: set<(nat, Hash)>, votes: set<Vote>,
                           log: seq<Entry>)

  datatype Step =
    | SequenceStep(entries: seq<Entry>)
    | ReadState(w: nat)
    | ReadPending(w: nat, batch: seq<Entry>)
    | ReadTile(w: nat, path: TilePath)
    | ReadBundle(w: nat, bundle: BundlePath)
    | Compute(w: nat, tilesOut: map<TileId, Tile>)
    | WriteTile(w: nat, key: TileId)
    | WriteBundle(w: nat, index: nat)
    | MarkStep(w: nat)
    | StopWorker(w: nat)
    | PublisherRead(p: nat)
    | Publish(p: nat, witnesses: P.Witnesses, replies: seq<P.Reply>, quorum: Option<nat>)
    | StopPublisher(p: nat)

  // ---- entry bundles ----

  function BundleAt(index: nat, n: nat): BundlePath { BundlePath(index, PartialTileSize(0, index, n)) }

  /** Entries [from, n) of a batch that belong to a bundle. */
  function BundleSlice(from: nat, batch: seq<Entry>, index: nat): seq<Entry> {
    var lo, hi := Max(from, 256 * index), Min(from + |batch|, 256 * index + 256);
    if lo < hi then batch[lo - from..hi - from] else []
  }

  /** `write_entry_bundles` needs the partial bundle that the batch continues. */
  predicate BundleReadable(view: Bundles, from: nat) {
    from % 256 > 0 ==>
      var p := BundlePath(from / 256, from % 256);
      p in view && |view[p]| == from % 256
  }

  /** `write_entry_bundles`: the content of each bundle that the batch touches. */
  function NewBundles(view: Bundles, from: nat, batch: seq<Entry>): map<nat, seq<Entry>>
    requires BundleReadable(view, from)
  {
    map index | 0 <= index < from + |batch| && BundleSlice(from, batch, index) != [] ::
      KeptPrefix(view, from, index) + BundleSlice(from, batch, index)
  }

  /** The stored part of the bundle that the batch continues. */
  function KeptPrefix(view: Bundles, from: nat, index: nat): seq<Entry>
    requires BundleReadable(view, from)
  {
    if index == from / 256 && from % 256 > 0 then view[BundlePath(index, from % 256)] else []
  }

  /** Whatever the view holds, a bundle that passes the check on the stored part has the
      entries that its path announces. */
  lemma NewBundlesSized(view: Bundles, from: nat, batch: seq<Entry>, index: nat)
    requires BundleReadable(view, from) && index in NewBundles(view, from, batch)
    ensures |NewBundles(view, from, batch)[index]| == Count(0, index, from + |batch|)
  {
    var lo, hi := Max(from, 256 * index), Min(from + |batch|, 256 * index + 256);
    assert |BundleSlice(from, batch, index)| == hi - lo > 0;
    KeptSize(view, from, index, hi);
  }

  lemma KeptSize(view: Bundles, from: nat, index: nat, hi: nat)
    requires BundleReadable(view, from) && Max(from, 256 * index) < hi <= 256 * index + 256
    ensures |KeptPrefix(view, from, index)| == Max(from, 256 * index) - 256 * index
  {
    var q, r := from / 256, from % 256;
    assert from == 256 * q + r;
    if from > 256 * index { assert index == q; }
  }

  ghost predicate AuthenticBundle(content: seq<Entry>, p: BundlePath, log: seq<Entry>) {
    && 256 * p.index + Width(p.partial) <= |log|
    && |content| == Width(p.partial)
    && forall j | 0 <= j < |content| :: content[j] == log[256 * p.index + j]
  }

  /** Every stored bundle holds exactly the entries that its path announces. */
  ghost predicate AuthenticBundles(bundles: Bundles, log: seq<Entry>) {
    forall p | p in bundles :: AuthenticBundle(bundles[p], p, log)
  }

  ghost predicate CoversBundles(bundles: Bundles, n: nat) {
    forall index: nat | InTree(0, index, n) :: BundleAt(index, n) in bundles
  }

  // ---- steps ----

  /** What passes the contiguity check on the pending rows (src/worker.rs:164-173). */
  ghost predicate PendingRun(pending: map<nat, Entry>, from: nat, batch: seq<Entry>) {
    forall i {:trigger batch[i]} | 0 <= i < |batch| :: from + i in pending && batch[i] == pending[from + i]
  }

  ghost predicate Next(s: System, step: Step, s': System) {
    match step
    case SequenceStep(entries) =>
      s' == s.(db := Sequence(s.db, entries).0, log := s.log + Sequencer.Fresh(s.db, entries))
    case ReadState(w) =>
      && w !in s.workers && s.db.integrated < s.db.next
      && s' == s.(workers := s.workers[w := GotState(s.db.integrated)])
    case ReadPending(w, batch) =>
      && w in s.workers && s.workers[w].GotState? && batch != []
      && PendingRun(s.db.pending, s.workers[w].from, batch)
      && s' == s.(workers := s.workers[w := GotBatch(s.workers[w].from, batch, map[], map[])])
    case ReadTile(w, path) =>
      && w in s.workers && s.workers[w].GotBatch? && path in s.tiles
      && var k := s.workers[w];
         s' == s.(workers := s.workers[w := k.(view := k.view[path := s.tiles[path]])])
    case ReadBundle(w, bundle) =>
      && w in s.workers && s.workers[w].GotBatch? && bundle in s.bundles
      && var k := s.workers[w];
         s' == s.(workers := s.workers[w := k.(bundleView := k.bundleView[bundle := s.bundles[bundle]])])
    case Compute(w, tilesOut) =>
      && w in s.workers && s.workers[w].GotBatch?
      && var GotBatch(from, batch, view, bundleView) := s.workers[w];
         && Covers(view, from) && LeavesReadable(view, from) && BundleReadable(bundleView, from)
         && var d := StoredLeaves(view, from) + Leaves(batch);
         && TilesSpec(view, from, d, tilesOut)
         && s' == s.(workers := s.workers[w := Writing(from, |d|, Mth(d), tilesOut,
                                                       NewBundles(bundleView, from, batch))])
    case WriteTile(w, key) =>
      && w in s.workers && s.workers[w].Writing? && key in s.workers[w].tilesLeft
      && var k := s.workers[w];
         s' == s.(tiles := s.tiles[PathAt(key.level, key.index, k.n) := k.tilesLeft[key]],
                  workers := s.workers[w := k.(tilesLeft := k.tilesLeft - {key})])
    case WriteBundle(w, index) =>
      && w in s.workers && s.workers[w].Writing? && index in s.workers[w].bundlesLeft
      && var k := s.workers[w];
         s' == s.(bundles := s.bundles[BundleAt(index, k.n) := k.bundlesLeft[index]],
                  workers := s.workers[w := k.(bundlesLeft := k.bundlesLeft - {index})])
    case MarkStep(w) =>
      && w in s.workers && s.workers[w].Writing?
      && var Writing(from, n, root, tilesLeft, bundlesLeft) := s.workers[w];
         && tilesLeft == map[] && bundlesLeft == map[]
         && s' == s.(db := if s.db.integrated == from then Mark(s.db, n, root) else s.db, workers := s.workers - {w})
    case StopWorker(w) =>
      s' == s.(workers := s.workers - {w})
    case PublisherRead(p) =>
      && (s.db.root.None? ==> s.db.integrated == 0)
      && s' == s.(publishers := s.publishers[p :=
                    (s.db.integrated, if s.db.root.None? then EmptyRoot else s.db.root.value)])
    case Publish(p, witnesses, replies, quorum) =>
      && p in s.publishers && P.QuorumReached(witnesses, replies, quorum)
      && s' == s.(publishers := s.publishers - {p}, published := s.published + {s.publishers[p]},
                  votes := s.votes + {Vote(s.publishers[p], witnesses, replies, quorum)})
    case StopPublisher(p) =>
      s' == s.(publishers := s.publishers - {p})
  }

  ghost predicate Init(s: System) {
    && s.db == Db(0, 0, None, map[], map[], s.db.rekor)
    && s == System(s.db, map[], map[], map[], map[], {}, {}, [])
  }

  // ---- invariant ----

  /** The checkpoint is the MTH of a prefix of the log. */
  ghost predicate TrueCheckpoint(c: (nat, Hash), log: seq<Entry>) {
    c.0 <= |log| && c.1 == Mth(Leaves(log)[..c.0])
  }

  ghost predicate StorageOk(tiles: Store, bundles: Bundles, integrated: nat, log: seq<Entry>) {
    && Authentic(tiles, Leaves(log)) && AuthenticBundles(bundles, log)
    && Covers(tiles, integrated) && CoversBundles(bundles, integrated)
  }

  ghost predicate WorkerOk(k: Worker, tiles: set<TilePath>, bundles: set<BundlePath>, integrated: nat, log: seq<Entry>) {
    && k.from <= integrated
    && (forall level: nat, index: nat | InTree(level, index, k.from) :: PathAt(level, index, k.from) in tiles)
    && (forall index: nat | InTree(0, index, k.from) :: BundleAt(index, k.from) in bundles)
    && match k
       case GotState(from) => true
       case GotBatch(from, batch, view, bundleView) =>
         && batch != [] && from + |batch| <= |log| && batch == log[from..from + |batch|]
         && Authentic(view, Leaves(log)) && AuthenticBundles(bundleView, log)
       case Writing(from, n, root, tilesLeft, bundlesLeft) =>
         && from < n && TrueCheckpoint((n, root), log)
         && (forall key | key in tilesLeft :: InTree(key.level, key.index, n)
               && AuthenticTile(tilesLeft[key], key.level, key.index, Count(key.level, key.index, n), Leaves(log)))
         && (forall index | index in bundlesLeft :: InTree(0, index, n)
               && AuthenticBundle(bundlesLeft[index], BundleAt(index, n), log))
         && (forall key | Grows(key, from, n) ::
               key in tilesLeft || PathAt(key.level, key.index, n) in tiles)
         && (forall index: nat | Grows(TileId(0, index), from, n) ::
               index in bundlesLeft || BundleAt(index, n) in bundles)
  }

  ghost predicate Inv(s: System) {
    && DbOk(s.db, s.log)
    && StorageOk(s.tiles, s.bundles, s.db.integrated, s.log)
    && (forall w | w in s.workers :: WorkerOk(s.workers[w], s.tiles.Keys, s.bundles.Keys, s.db.integrated, s.log))
    && (forall p | p in s.publishers :: TrueCheckpoint(s.publishers[p], s.log))
    && (forall c | c in s.published :: TrueCheckpoint(c, s.log))
  }

  // ---- growth of the log and of storage ----

  lemma LeavesPrefix(log: seq<Entry>, log': seq<Entry>)
    requires log <= log'
    ensures Leaves(log) <= Leaves(log')
  {
  }

  lemma TrueCheckpointStable(c: (nat, Hash), log: seq<Entry>, log': seq<Entry>)
    requires log <= log' && TrueCheckpoint(c, log)
    ensures TrueCheckpoint(c, log')
  {
    hide Mth;
    LeavesPrefix(log, log');
    assert Leaves(log)[..c.0] == Leaves(log')[..c.0];
  }

  lemma AuthenticBundlesStable(bundles: Bundles, log: seq<Entry>, log': seq<Entry>)
    requires log <= log' && AuthenticBundles(bundles, log)
    ensures AuthenticBundles(bundles, log')
  {
  }

  /** What a worker relies on survives whatever the others do. */
  lemma WorkerStable(k: Worker, tiles: set<TilePath>, bundles: set<BundlePath>, integrated: nat, log: seq<Entry>,
                     tiles': set<TilePath>, bundles': set<BundlePath>, integrated': nat, log': seq<Entry>)
    requires WorkerOk(k, tiles, bundles, integrated, log)
    requires tiles <= tiles' && bundles <= bundles' && integrated <= integrated' && log <= log'
    ensures WorkerOk(k, tiles', bundles', integrated', log')
  {
    hide AuthenticTile, Mth, Authentic, AuthenticBundles;
    LeavesPrefix(log, log');
    match k {
      case GotState(from) =>
      case GotBatch(from, batch, view, bundleView) =>
        AuthenticStable(view, Leaves(log), Leaves(log'));
        AuthenticBundlesStable(bundleView, log, log');
        assert log[from..from + |batch|] == log'[from..from + |batch|];
      case Writing(from, n, root, tilesLeft, bundlesLeft) =>
        TrueCheckpointStable((n, root), log, log');
        forall key | key in tilesLeft
          ensures AuthenticTile(tilesLeft[key], key.level, key.index, Count(key.level, key.index, n), Leaves(log'))
        {
          AuthenticTileStable(tilesLeft[key], key.level, key.index, Count(key.level, key.index, n), Leaves(log), Leaves(log'));
        }
    }
  }

  lemma WorkersStable(s: System, workers: map<nat, Worker>, s': System)
    requires forall w | w in workers :: WorkerOk(workers[w], s.tiles.Keys, s.bundles.Keys, s.db.integrated, s.log)
    requires s.tiles.Keys <= s'.tiles.Keys && s.bundles.Keys <= s'.bundles.Keys
    requires s.db.integrated <= s'.db.integrated && s.log <= s'.log
    ensures forall w | w in workers :: WorkerOk(workers[w], s'.tiles.Keys, s'.bundles.Keys, s'.db.integrated, s'.log)
  {
    forall w | w in workers
      ensures WorkerOk(workers[w], s'.tiles.Keys, s'.bundles.Keys, s'.db.integrated, s'.log)
    {
      WorkerStable(workers[w], s.tiles.Keys, s.bundles.Keys, s.db.integrated, s.log,
                   s'.tiles.Keys, s'.bundles.Keys, s'.db.integrated, s'.log);
    }
  }

  // ---- preservation ----

  lemma SequenceStepKeepsInv(s: System, entries: seq<Entry>, s': System)
    requires Inv(s) && Next(s, SequenceStep(entries), s')
    ensures Inv(s')
  {
    hide DbOk, WorkerOk, Authentic, AuthenticBundles, Covers, CoversBundles, TrueCheckpoint;
    SequenceKeepsDbOk(s.db, s.log, entries);
    LeavesPrefix(s.log, s'.log);
    AuthenticStable(s.tiles, Leaves(s.log), Leaves(s'.log));
    AuthenticBundlesStable(s.bundles, s.log, s'.log);
    WorkersStable(s, s.workers, s');
    forall p | p in s.publishers ensures TrueCheckpoint(s.publishers[p], s'.log) {
      TrueCheckpointStable(s.publishers[p], s.log, s'.log);
    }
    forall c | c in s.published ensures TrueCheckpoint(c, s'.log) {
      TrueCheckpointStable(c, s.log, s'.log);
    }
  }

  lemma BundleTouched(view: Bundles, from: nat, batch: seq<Entry>, index: nat)
    requires BundleReadable(view, from) && batch != []
    ensures index in NewBundles(view, from, batch) <==> Grows(TileId(0, index), from, from + |batch|)
    ensures index in NewBundles(view, from, batch) ==> from / 256 <= index && 256 * index < from + |batch|
  {
  }

  /** A sequence of entries is the log from a position on. */
  ghost predicate IsSlice(entries: seq<Entry>, log: seq<Entry>, lo: nat) {
    lo + |entries| <= |log| && forall j | 0 <= j < |entries| :: entries[j] == log[lo + j]
  }

  lemma KeptPrefixIsSlice(view: Bundles, from: nat, log: seq<Entry>, index: nat)
    requires BundleReadable(view, from) && AuthenticBundles(view, log) && from <= |log|
    requires from / 256 <= index
    ensures KeptPrefix(view, from, index) != [] ==> IsSlice(KeptPrefix(view, from, index), log, 256 * index)
    ensures |KeptPrefix(view, from, index)| == if 256 * index < from then from - 256 * index else 0
  {
  }

  lemma BatchSliceIsSlice(from: nat, batch: seq<Entry>, log: seq<Entry>, index: nat)
    requires from + |batch| <= |log| && batch == log[from..from + |batch|]
    requires BundleSlice(from, batch, index) != []
    ensures IsSlice(BundleSlice(from, batch, index), log, Max(from, 256 * index))
    ensures |BundleSlice(from, batch, index)| == Min(from + |batch|, 256 * index + 256) - Max(from, 256 * index)
  {
    var lo, hi := Max(from, 256 * index), Min(from + |batch|, 256 * index + 256);
    assert BundleSlice(from, batch, index) == batch[lo - from..hi - from];
    hide BundleSlice, IsSlice;
    SubSlice(from, batch, log, lo, hi);
  }

  lemma SubSlice(from: nat, batch: seq<Entry>, log: seq<Entry>, lo: nat, hi: nat)
    requires from <= lo <= hi <= from + |batch| <= |log| && batch == log[from..from + |batch|]
    ensures IsSlice(batch[lo - from..hi - from], log, lo)
  {
    var slice := batch[lo - from..hi - from];
    forall j | 0 <= j < |slice|
      ensures slice[j] == log[lo + j]
    {
      assert slice[j] == batch[lo - from + j];
    }
  }

  lemma BundleWidth(index: nat, n: nat)
    requires 256 * index < n
    ensures InTree(0, index, n) && Width(BundleAt(index, n).partial) == Min(n, 256 * index + 256) - 256 * index
  {
  }

  /** Bundle contents computed from authentic parts are authentic. */
  lemma NewBundlesAuthentic(view: Bundles, from: nat, batch: seq<Entry>, log: seq<Entry>, index: nat)
    requires BundleReadable(view, from) && AuthenticBundles(view, log)
    requires from + |batch| <= |log| && batch == log[from..from + |batch|] && batch != []
    requires index in NewBundles(view, from, batch)
    ensures AuthenticBundle(NewBundles(view, from, batch)[index], BundleAt(index, from + |batch|), log)
  {
    hide Grows, BundleReadable, AuthenticBundles, KeptPrefix, BundleSlice, PartialTileSize, Width;
    BundleTouched(view, from, batch, index);
    BundleWidth(index, from + |batch|);
    KeptPrefixIsSlice(view, from, log, index);
    BatchSliceIsSlice(from, batch, log, index);
  }

  lemma ComputeKeepsWorker(k: Worker, tilesOut: map<TileId, Tile>, tiles: set<TilePath>, bundles: set<BundlePath>,
                           integrated: nat, log: seq<Entry>)
    requires WorkerOk(k, tiles, bundles, integrated, log) && k.GotBatch?
    requires Covers(k.view, k.from) && LeavesReadable(k.view, k.from) && BundleReadable(k.bundleView, k.from)
    requires TilesSpec(k.view, k.from, StoredLeaves(k.view, k.from) + Leaves(k.batch), tilesOut)
    ensures var d := StoredLeaves(k.view, k.from) + Leaves(k.batch);
            WorkerOk(Writing(k.from, |d|, Mth(d), tilesOut, NewBundles(k.bundleView, k.from, k.batch)),
                     tiles, bundles, integrated, log)
  {
    hide Mth, AuthenticTile, Applied, Authentic, Covers, AuthenticBundle, NewBundles, LeavesReadable;
    var from, n, leaves := k.from, k.from + |k.batch|, Leaves(log);
    StoredLeavesAuthentic(k.view, leaves, from);
    assert leaves[..from] + Leaves(k.batch) == leaves[..n];
    forall key | key in tilesOut
      ensures InTree(key.level, key.index, n)
      ensures AuthenticTile(tilesOut[key], key.level, key.index, Count(key.level, key.index, n), leaves)
    {
      IntegratedTileAuthentic(k.view, leaves, from, n, key, tilesOut[key]);
    }
    forall index: nat
      ensures index in NewBundles(k.bundleView, from, k.batch) <==> Grows(TileId(0, index), from, n)
      ensures index in NewBundles(k.bundleView, from, k.batch) ==>
                AuthenticBundle(NewBundles(k.bundleView, from, k.batch)[index], BundleAt(index, n), log)
    {
      BundleTouched(k.bundleView, from, k.batch, index);
      if index in NewBundles(k.bundleView, from, k.batch) {
        NewBundlesAuthentic(k.bundleView, from, k.batch, log, index);
      }
    }
  }

  /** Whatever a worker has left to write is authentic under the path it goes to. */
  lemma TileLeftAuthentic(k: Worker, key: TileId, tiles: set<TilePath>, bundles: set<BundlePath>, integrated: nat, log: seq<Entry>)
    requires WorkerOk(k, tiles, bundles, integrated, log) && k.Writing?
    ensures key in k.tilesLeft ==>
              var p := PathAt(key.level, key.index, k.n);
              AuthenticTile(k.tilesLeft[key], p.level, p.index, Width(p.partial), Leaves(log))
    ensures forall index | index in k.bundlesLeft :: AuthenticBundle(k.bundlesLeft[index], BundleAt(index, k.n), log)
  {
    hide AuthenticTile, AuthenticBundle;
    if key in k.tilesLeft { WidthIsCount(key.level, key.index, k.n); }
  }

  lemma TileWritten(k: Worker, key: TileId, tiles: set<TilePath>, bundles: set<BundlePath>, integrated: nat, log: seq<Entry>)
    requires WorkerOk(k, tiles, bundles, integrated, log) && k.Writing?
    ensures WorkerOk(k.(tilesLeft := k.tilesLeft - {key}), tiles + {PathAt(key.level, key.index, k.n)}, bundles, integrated, log)
  {
  }

  lemma BundleWritten(k: Worker, index: nat, tiles: set<TilePath>, bundles: set<BundlePath>, integrated: nat, log: seq<Entry>)
    requires WorkerOk(k, tiles, bundles, integrated, log) && k.Writing?
    ensures WorkerOk(k.(bundlesLeft := k.bundlesLeft - {index}), tiles, bundles + {BundleAt(index, k.n)}, integrated, log)
  {
  }

  lemma WriteTileKeepsInv(s: System, w: nat, key: TileId, s': System)
    requires Inv(s) && Next(s, WriteTile(w, key), s')
    ensures Inv(s')
  {
    hide DbOk, WorkerOk, AuthenticTile, AuthenticBundles, CoversBundles, TrueCheckpoint;
    var k := s.workers[w];
    TileLeftAuthentic(k, key, s.tiles.Keys, s.bundles.Keys, s.db.integrated, s.log);
    assert Authentic(s'.tiles, Leaves(s.log));
    TileWritten(k, key, s.tiles.Keys, s.bundles.Keys, s.db.integrated, s.log);
    assert s'.tiles.Keys == s.tiles.Keys + {PathAt(key.level, key.index, k.n)};
    WorkersStable(s, s.workers - {w}, s');
    assert StorageOk(s'.tiles, s'.bundles, s'.db.integrated, s'.log);
    assert forall w' | w' in s'.workers :: w' == w || w' in s.workers - {w};
  }

  lemma WriteBundleKeepsInv(s: System, w: nat, index: nat, s': System)
    requires Inv(s) && Next(s, WriteBundle(w, index), s')
    ensures Inv(s')
  {
    hide DbOk, WorkerOk, Authentic, AuthenticTile, AuthenticBundle, Covers, TrueCheckpoint;
    var k := s.workers[w];
    TileLeftAuthentic(k, TileId(0, 0), s.tiles.Keys, s.bundles.Keys, s.db.integrated, s.log);
    assert AuthenticBundles(s'.bundles, s.log);
    BundleWritten(k, index, s.tiles.Keys, s.bundles.Keys, s.db.integrated, s.log);
    assert s'.bundles.Keys == s.bundles.Keys + {BundleAt(index, k.n)};
    WorkersStable(s, s.workers - {w}, s');
    assert StorageOk(s'.tiles, s'.bundles, s'.db.integrated, s'.log);
    assert forall w' | w' in s'.workers :: w' == w || w' in s.workers - {w};
  }

  /** The compare-and-swap: if the state is still current, everything the new size
      needs is in storage. */
  lemma MarkStepKeepsInv(s: System, w: nat, s': System)
    requires Inv(s) && Next(s, MarkStep(w), s')
    ensures Inv(s')
  {
    hide DbOk, Authentic, AuthenticBundles, AuthenticTile, AuthenticBundle, SizeAt, Mth;
    var Writing(from, n, root, tilesLeft, bundlesLeft) := s.workers[w];
    assert WorkerOk(s.workers[w], s.tiles.Keys, s.bundles.Keys, s.db.integrated, s.log);
    if s.db.integrated == from {
      MarkKeepsDbOk(s.db, s.log, n, root);
      forall level: nat, index: nat | InTree(level, index, n)
        ensures PathAt(level, index, n) in s.tiles
      {
        if !Grows(TileId(level, index), from, n) { SameCountSamePath(level, index, from, n); }
      }
      forall index: nat | InTree(0, index, n)
        ensures BundleAt(index, n) in s.bundles
      {
        if !Grows(TileId(0, index), from, n) {
          SameCountSamePath(0, index, from, n);
          assert BundleAt(index, from) in s.bundles;
        }
      }
    }
    hide WorkerOk;
    WorkersStable(s, s.workers - {w}, s');
  }

  lemma PublisherReadKeepsInv(s: System, p: nat, s': System)
    requires Inv(s) && Next(s, PublisherRead(p), s')
    ensures Inv(s')
  {
    hide WorkerOk, StorageOk;
    assert Leaves(s.log)[..0] == [];
  }

  lemma ReadPendingKeepsWorker(db: Db, log: seq<Entry>, k: Worker, batch: seq<Entry>,
                               tiles: set<TilePath>, bundles: set<BundlePath>)
    requires DbOk(db, log) && WorkerOk(k, tiles, bundles, db.integrated, log)
    requires batch != [] && PendingRun(db.pending, k.from, batch)
    ensures WorkerOk(GotBatch(k.from, batch, map[], map[]), tiles, bundles, db.integrated, log)
  {
    hide Mth, DbOk, PendingRun;
    PendingIsLog(db, log, k.from, batch);
    assert Authentic(map[], Leaves(log)) && AuthenticBundles(map[], log);
  }

  /** A contiguous run of pending rows is a slice of the log. */
  lemma PendingIsLog(db: Db, log: seq<Entry>, from: nat, batch: seq<Entry>)
    requires DbOk(db, log) && batch != [] && PendingRun(db.pending, from, batch)
    ensures from + |batch| <= |log| && batch == log[from..from + |batch|]
  {
    hide Mth;
    var last := batch[|batch| - 1];
    assert from + (|batch| - 1) in db.pending;
    forall i | 0 <= i < |batch| ensures batch[i] == log[from + i] {
      var entry := batch[i];
      assert from + i in db.pending && entry == db.pending[from + i];
    }
  }

  lemma ReadKeepsWorker(s: System, k: Worker, path: TilePath, bundle: BundlePath)
    requires Inv(s) && WorkerOk(k, s.tiles.Keys, s.bundles.Keys, s.db.integrated, s.log) && k.GotBatch?
    ensures path in s.tiles ==>
              WorkerOk(k.(view := k.view[path := s.tiles[path]]), s.tiles.Keys, s.bundles.Keys, s.db.integrated, s.log)
    ensures bundle in s.bundles ==>
              WorkerOk(k.(bundleView := k.bundleView[bundle := s.bundles[bundle]]),
                       s.tiles.Keys, s.bundles.Keys, s.db.integrated, s.log)
  {
    hide Covers, CoversBundles, DbOk, AuthenticTile, AuthenticBundle;
  }

  /** Steps that change one worker only. */
  lemma WorkerStepKeepsInv(s: System, w: nat, k: Worker)
    requires Inv(s) && WorkerOk(k, s.tiles.Keys, s.bundles.Keys, s.db.integrated, s.log)
    ensures Inv(s.(workers := s.workers[w := k]))
    ensures Inv(s.(workers := s.workers - {w}))
  {
  }

  lemma WorkerStopKeepsInv(s: System, w: nat)
    requires Inv(s)
    ensures Inv(s.(workers := s.workers - {w}))
  {
  }

  lemma PublisherStepKeepsInv(s: System, p: nat, votes: set<Vote>)
    requires Inv(s)
    ensures Inv(s.(publishers := s.publishers - {p}))
    ensures p in s.publishers ==>
              Inv(s.(publishers := s.publishers - {p}, published := s.published + {s.publishers[p]}, votes := votes))
  {
  }

  /** Every step keeps the invariant, and log, integrated size and published set only grow. */
  lemma NextKeepsInv(s: System, step: Step, s': System)
    requires Inv(s) && Next(s, step, s')
    ensures Inv(s')
    ensures s.log <= s'.log && s.db.integrated <= s'.db.integrated && s.published <= s'.published
  {
    hide DbOk, StorageOk, WorkerOk, TrueCheckpoint;
    match step {
      case SequenceStep(entries) =>
        SequenceStepKeepsInv(s, entries, s');
        SequenceKeepsDbOk(s.db, s.log, entries);
      case ReadState(w) =>
        WorkerStarts(s);
        WorkerStepKeepsInv(s, w, GotState(s.db.integrated));
      case ReadPending(w, batch) =>
        ReadPendingKeepsWorker(s.db, s.log, s.workers[w], batch, s.tiles.Keys, s.bundles.Keys);
        WorkerStepKeepsInv(s, w, s'.workers[w]);
      case ReadTile(w, path) =>
        ReadKeepsWorker(s, s.workers[w], path, BundlePath(0, 0));
        WorkerStepKeepsInv(s, w, s'.workers[w]);
      case ReadBundle(w, bundle) =>
        ReadKeepsWorker(s, s.workers[w], TilePath(0, 0, 0), bundle);
        WorkerStepKeepsInv(s, w, s'.workers[w]);
      case Compute(w, tilesOut) =>
        ComputeKeepsWorker(s.workers[w], tilesOut, s.tiles.Keys, s.bundles.Keys, s.db.integrated, s.log);
        WorkerStepKeepsInv(s, w, s'.workers[w]);
      case WriteTile(w, key) => WriteTileKeepsInv(s, w, key, s');
      case WriteBundle(w, index) => WriteBundleKeepsInv(s, w, index, s');
      case MarkStep(w) =>
        MarkStepKeepsInv(s, w, s');
        MarkAdvances(s, w);
      case StopWorker(w) => WorkerStopKeepsInv(s, w);
      case PublisherRead(p) => PublisherReadKeepsInv(s, p, s');
      case Publish(p, _, _, _) => PublisherStepKeepsInv(s, p, s'.votes);
      case StopPublisher(p) => PublisherStepKeepsInv(s, p, s.votes);
    }
  }

  lemma WorkerStarts(s: System)
    requires Inv(s)
    ensures WorkerOk(GotState(s.db.integrated), s.tiles.Keys, s.bundles.Keys, s.db.integrated, s.log)
  {
  }

  lemma MarkAdvances(s: System, w: nat)
    requires Inv(s) && w in s.workers && s.workers[w].Writing?
    ensures s.workers[w].from < s.workers[w].n
  {
  }

  // ---- whole runs ----

  /** A log that nobody is working on and that has published nothing yet: a new one, or
      one that was imported. */
  ghost predicate Settled(s: System) {
    Inv(s) && s.workers == map[] && s.publishers == map[] && s.published == {} && s.votes == {}
  }

  ghost predicate Run(states: seq<System>, steps: seq<Step>) {
    && |states| == |steps| + 1
    && Settled(states[0])
    && forall i | 0 <= i < |steps| :: Next(states[i], steps[i], states[i + 1])
  }

  /** A new log is settled. */
  lemma InitSettled(s: System)
    requires Init(s)
    ensures Settled(s)
  {
    assert forall level: nat, index: nat :: !InTree(level, index, 0) by {
      forall level: nat, index: nat
        ensures !InTree(level, index, 0)
      {
        ShrZero(0, 8 * level);
      }
    }
  }

  lemma {:induction false} RunInvariant(states: seq<System>, steps: seq<Step>, i: nat, j: nat)
    requires Run(states, steps) && i <= j < |states|
    ensures Inv(states[j])
    ensures states[i].log <= states[j].log
    ensures states[i].db.integrated <= states[j].db.integrated
    ensures states[i].published <= states[j].published
    decreases j
  {
    hide Next, Inv;
    if j > 0 {
      RunInvariant(states, steps, if i == j then i - 1 else i, j - 1);
      assert Next(states[j - 1], steps[j - 1], states[j - 1 + 1]);
      NextKeepsInv(states[j - 1], steps[j - 1], states[j]);
    }
  }

  /** End-to-end log safety: whatever interleaving of sequencing, integration,
      publication and crashes, every checkpoint ever published is the MTH of a
      prefix of the final log, and that log extends the log of every earlier state. */
  lemma PublishedCheckpointsTrue(states: seq<System>, steps: seq<Step>, i: nat, c: (nat, Hash))
    requires Run(states, steps) && i < |states| && c in states[i].published
    ensures var log := states[|states| - 1].log;
            && states[i].log <= log
            && c.0 <= |log| && c.1 == Mth(Leaves(log)[..c.0])
  {
    hide DbOk, StorageOk, WorkerOk, Next;
    RunInvariant(states, steps, i, |states| - 1);
  }

  /** In every reachable state, storage holds the integrated tree and all its entries. */
  lemma ReachableStorage(states: seq<System>, steps: seq<Step>, i: nat)
    requires Run(states, steps) && i < |states|
    ensures var s := states[i];
            && Authentic(s.tiles, Leaves(s.log)) && Covers(s.tiles, s.db.integrated)
            && AuthenticBundles(s.bundles, s.log) && CoversBundles(s.bundles, s.db.integrated)
            && DbOk(s.db, s.log)
  {
    hide DbOk, WorkerOk, Next;
    RunInvariant(states, steps, i, i);
  }

  /** In a reachable state an integrator finds the tiles and the partial bundle of
      the size it started from, even when it is no longer current. */
  lemma WorkerFindsItsTiles(s: System, w: nat)
    requires Inv(s) && w in s.workers
    ensures Covers(s.tiles, s.workers[w].from) && BundleReadable(s.bundles, s.workers[w].from)
  {
    hide DbOk, Authentic;
    var from := s.workers[w].from;
    assert WorkerOk(s.workers[w], s.tiles.Keys, s.bundles.Keys, s.db.integrated, s.log);
    if from % 256 > 0 {
      assert SizeAt(0, from) == from;
      assert InTree(0, from / 256, from);
      var p := BundleAt(from / 256, from);
      assert AuthenticBundle(s.bundles[p], p, s.log);
    }
  }

  // ---- sizes that were current once ----

  /** Stored paths are never removed. */
  lemma PathsGrow(s: System, step: Step, s': System)
    requires Next(s, step, s')
    ensures s.tiles.Keys <= s'.tiles.Keys && s.bundles.Keys <= s'.bundles.Keys
  {
    hide Sequence, NewBundles, TilesSpec, Covers, LeavesReadable, StoredLeaves, Mth, Mark;
  }

  lemma CoversStays(tiles: Store, tiles': Store, bundles: Bundles, bundles': Bundles, n: nat)
    requires tiles.Keys <= tiles'.Keys && bundles.Keys <= bundles'.Keys
    requires Covers(tiles, n) && CoversBundles(bundles, n)
    ensures Covers(tiles', n) && CoversBundles(bundles', n)
  {
  }

  /** Every size that a publisher has read or published is covered. */
  ghost predicate PublishedCovered(s: System) {
    && (forall p | p in s.publishers :: Covers(s.tiles, s.publishers[p].0) && CoversBundles(s.bundles, s.publishers[p].0))
    && (forall c | c in s.published :: Covers(s.tiles, c.0) && CoversBundles(s.bundles, c.0))
  }

  lemma NextKeepsCovered(s: System, step: Step, s': System)
    requires Inv(s) && PublishedCovered(s) && Next(s, step, s')
    ensures PublishedCovered(s')
  {
    hide Covers, CoversBundles, Next, Inv;
    PathsGrow(s, step, s');
    NewReadings(s, step, s');
    IntegratedCovered(s);
    forall p | p in s'.publishers
      ensures Covers(s'.tiles, s'.publishers[p].0) && CoversBundles(s'.bundles, s'.publishers[p].0)
    {
      CoversStays(s.tiles, s'.tiles, s.bundles, s'.bundles, s'.publishers[p].0);
    }
    forall c | c in s'.published
      ensures Covers(s'.tiles, c.0) && CoversBundles(s'.bundles, c.0)
    {
      CoversStays(s.tiles, s'.tiles, s.bundles, s'.bundles, c.0);
    }
  }

  lemma IntegratedCovered(s: System)
    requires Inv(s)
    ensures Covers(s.tiles, s.db.integrated) && CoversBundles(s.bundles, s.db.integrated)
  {
    hide DbOk, WorkerOk, TrueCheckpoint, Covers, CoversBundles, Authentic, AuthenticBundles;
  }

  /** Checkpoints come from the database row, then from a publisher. */
  lemma NewReadings(s: System, step: Step, s': System)
    requires Next(s, step, s')
    ensures forall p | p in s'.publishers ::
              (p in s.publishers && s'.publishers[p] == s.publishers[p]) || s'.publishers[p].0 == s.db.integrated
    ensures forall c | c in s'.published :: c in s.published || exists p :: p in s.publishers && s.publishers[p] == c
  {
    hide Sequence, NewBundles, TilesSpec, Covers, LeavesReadable, StoredLeaves, Mth, Mark;
  }

  /** In every reachable state storage still holds the whole tree of every checkpoint that
      was ever published, however far integration has gone since. */
  lemma {:induction false} PublishedStaysStored(states: seq<System>, steps: seq<Step>, i: nat)
    requires Run(states, steps) && i < |states|
    ensures PublishedCovered(states[i])
    decreases i
  {
    hide Next, Inv, PublishedCovered;
    if i == 0 {
      NothingPublished(states[0]);
    } else {
      PublishedStaysStored(states, steps, i - 1);
      RunInvariant(states, steps, i - 1, i - 1);
      assert Next(states[i - 1], steps[i - 1], states[i - 1 + 1]);
      NextKeepsCovered(states[i - 1], steps[i - 1], states[i]);
    }
  }

  lemma NothingPublished(s: System)
    requires s.publishers == map[] && s.published == {}
    ensures PublishedCovered(s)
  {
  }

  // ---- quorum ----

  /** The vote was upon this checkpoint, and enough witnesses with distinct pinned keys and
      names have signed it. */
  ghost predicate Carried(v: Vote, c: (nat, Hash)) {
    && v.checkpoint == c
    && exists signers ::
         && P.DistinctSigners(v.witnesses, v.replies, signers)
         && (v.quorum.Some? ==> |signers| >= v.quorum.value)
         && (v.quorum.None? ==> |signers| == |v.witnesses|)
  }

  ghost predicate AllCarried(s: System) {
    forall c | c in s.published :: exists v :: v in s.votes && Carried(v, c)
  }

  lemma NextKeepsCarried(s: System, step: Step, s': System)
    requires AllCarried(s) && Next(s, step, s')
    ensures AllCarried(s')
  {
    hide Carried, Sequence, NewBundles, TilesSpec, Covers, LeavesReadable, StoredLeaves, Mth, Mark, P.QuorumReached;
    if step.Publish? {
      var Publish(p, witnesses, replies, quorum) := step;
      var v := Vote(s.publishers[p], witnesses, replies, quorum);
      ReachedCarries(v);
      assert v in s'.votes && Carried(v, s.publishers[p]);
    }
    assert s.votes <= s'.votes;
  }

  lemma ReachedCarries(v: Vote)
    requires P.QuorumReached(v.witnesses, v.replies, v.quorum)
    ensures Carried(v, v.checkpoint)
  {
    hide P.Counted;
    P.CountedDistinct(v.witnesses, v.replies, |v.witnesses|);
    P.FullCount(v.witnesses, v.replies, |v.witnesses|);
    var signers := P.Counted(v.witnesses, v.replies, |v.witnesses|);
    assert P.DistinctSigners(v.witnesses, v.replies, signers);
  }

  /** In every run, every checkpoint ever published had a quorum of verified cosignatures
      from witnesses with pairwise distinct pinned keys and names. */
  lemma {:induction false} PublishedHadQuorum(states: seq<System>, steps: seq<Step>, i: nat)
    requires Run(states, steps) && i < |states|
    ensures forall c | c in states[i].published :: exists v :: v in states[i].votes && Carried(v, c)
    decreases i
  {
    hide Next, Inv, Carried;
    if i > 0 {
      PublishedHadQuorum(states, steps, i - 1);
      assert Next(states[i - 1], steps[i - 1], states[i - 1 + 1]);
      NextKeepsCarried(states[i - 1], steps[i - 1], states[i]);
    }
  }
}

/** Tiles, tile paths and what a tile store holds (src/api/paths.rs,
    src/merkle/integrate.rs, src/merkle/tiles.rs).

    Storage is a map from tile paths to tiles.  Only the first `Width` hashes of
    a stored tile are authenticated: they are the complete-subtree hashes of its
    bottom row.  What follows them (padding and cached upper rows) is free. */
module Tiles {
  import opened Bits
  import opened Rfc6962

  datatype TileId = TileId(level: nat, index: nat)
  datatype TilePath = TilePath(level: nat, index: nat, partial: nat)
  type Tile = seq<Hash>
  type Store = map<TilePath, Tile>

  /** Number of bottom-row nodes of the tile level in a tree of n leaves. */
  function SizeAt(level: nat, n: nat): nat { Shr(n, 8 * level) }

  /** `partial_tile_size`, as in src/merkle/integrate.rs where its shift is defined. */
  function PartialTileSize(level: nat, index: nat, n: nat): nat {
    if index < SizeAt(level, n) / 256 then 0 else SizeAt(level, n) % 256
  }

  /** `partial_tile_size`, as in src/api/paths.rs, which guards the shift. */
  function GuardedPartialTileSize(level: nat, index: nat, n: nat): nat {
    if 8 * level >= 64 then 0 else PartialTileSize(level, index, n)
  }

  /** The shift by 8 * level is a 64-bit shift.  Beyond, the form without a guard
      aborts. */
  predicate ShiftOk(level: nat) { 8 * level < 64 }

  /** Tiles of a 64-bit tree are on levels where both forms shift and agree. */
  lemma InTreeShiftOk(level: nat, index: nat, n: nat)
    requires n < U64_LIMIT && InTree(level, index, n)
    ensures ShiftOk(level) && GuardedPartialTileSize(level, index, n) == PartialTileSize(level, index, n)
  {
    if !ShiftOk(level) {
      Pow2Of63();
      Pow2Monotone(64, 8 * level);
      ShrZero(n, 8 * level);
    }
  }

  /** On the other levels the guarded form answers 0, which is what the shift of an
      unbounded integer gives; this is the value that `PartialTileSize` takes there. */
  lemma GuardedIsUnbounded(level: nat, index: nat, n: nat)
    requires n < U64_LIMIT
    ensures GuardedPartialTileSize(level, index, n) == PartialTileSize(level, index, n)
  {
    if !ShiftOk(level) {
      Pow2Of63();
      Pow2Monotone(64, 8 * level);
      ShrZero(n, 8 * level);
    }
  }

  /** Bottom-row nodes that the tree of n leaves has in this tile. */
  function Count(level: nat, index: nat, n: nat): nat {
    if SizeAt(level, n) <= 256 * index then 0 else Min(256, SizeAt(level, n) - 256 * index)
  }

  predicate InTree(level: nat, index: nat, n: nat) { Count(level, index, n) > 0 }

  function PathAt(level: nat, index: nat, n: nat): TilePath {
    TilePath(level, index, PartialTileSize(level, index, n))
  }

  /** Number of hashes that the partial suffix of a path announces. */
  function Width(partial: nat): nat { if partial == 0 then 256 else partial }

  lemma WidthIsCount(level: nat, index: nat, n: nat)
    requires InTree(level, index, n)
    ensures Width(PartialTileSize(level, index, n)) == Count(level, index, n)
  {
  }

  /** A tile keeps its path exactly as long as it gains no bottom-row node. */
  lemma SameCountSamePath(level: nat, index: nat, m: nat, n: nat)
    requires m <= n && InTree(level, index, m)
    ensures Count(level, index, m) <= Count(level, index, n)
    ensures Count(level, index, m) == Count(level, index, n)
            <==> PathAt(level, index, m) == PathAt(level, index, n)
  {
    ShrMonotone(m, n, 8 * level);
  }

  // ---- what a store holds ----

  /** The authenticated part of one stored tile. */
  ghost predicate AuthenticTile(tile: Tile, level: nat, index: nat, width: nat, log: seq<Hash>) {
    && 256 * index + width <= SizeAt(level, |log|)
    && width <= |tile|
    && forall j | 0 <= j < width :: tile[j] == Subtree(log, 8 * level, 256 * index + j)
  }

  /** Every stored path holds complete-subtree hashes of the log. */
  ghost predicate Authentic(store: Store, log: seq<Hash>) {
    forall p | p in store :: AuthenticTile(store[p], p.level, p.index, Width(p.partial), log)
  }

  /** Every tile of the tree of n leaves is stored under its own path. */
  ghost predicate Covers(store: Store, n: nat) {
    forall level: nat, index: nat | InTree(level, index, n) :: PathAt(level, index, n) in store
  }

  lemma AuthenticTileStable(tile: Tile, level: nat, index: nat, width: nat, log: seq<Hash>, log': seq<Hash>)
    requires log <= log' && AuthenticTile(tile, level, index, width, log)
    ensures AuthenticTile(tile, level, index, width, log')
  {
    ShrMonotone(|log|, |log'|, 8 * level);
    forall j | 0 <= j < width
      ensures tile[j] == Subtree(log', 8 * level, 256 * index + j)
    {
      SubtreeStable(log, log', 8 * level, 256 * index + j);
    }
  }

  /** Growing the log keeps a store authentic. */
  lemma AuthenticStable(store: Store, log: seq<Hash>, log': seq<Hash>)
    requires log <= log' && Authentic(store, log)
    ensures Authentic(store, log')
  {
    forall p | p in store
      ensures AuthenticTile(store[p], p.level, p.index, Width(p.partial), log')
    {
      AuthenticTileStable(store[p], p.level, p.index, Width(p.partial), log, log');
    }
  }

  // ---- reading leaves ----

  predicate LeafReadable(store: Store, i: nat, n: nat) {
    var p := PathAt(0, i / 256, n);
    p in store && i % 256 < |store[p]|
  }

  ghost predicate LeavesReadable(store: Store, n: nat) {
    forall i: nat | i < n :: LeafReadable(store, i, n)
  }

  function StoredLeaf(store: Store, i: nat, n: nat): Hash
    requires LeafReadable(store, i, n)
  {
    store[PathAt(0, i / 256, n)][i % 256]
  }

  ghost function StoredLeaves(store: Store, n: nat): (d: seq<Hash>)
    requires LeavesReadable(store, n)
    ensures |d| == n
  {
    seq(n, i requires 0 <= i < n && LeavesReadable(store, n) => StoredLeaf(store, i, n))
  }

  /** An authentic store that covers n holds exactly the first n leaves. */
  lemma StoredLeavesAuthentic(store: Store, log: seq<Hash>, n: nat)
    requires Authentic(store, log) && Covers(store, n) && n <= |log|
    ensures LeavesReadable(store, n)
    ensures StoredLeaves(store, n) == log[..n]
  {
  }
}

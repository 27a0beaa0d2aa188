/** Offline bulk import (src/import.rs:91-204, src/storage/opendal.rs:173-189).

    An import writes the objects of one chunk after another and commits the database
    last.  It may be interrupted after any upload and resumed with the same input.
    `Canon` is the storage of an uninterrupted import; all the theorems compare
    with it. */
module Import {
  import opened Bits
  import opened Rfc6962
  import opened Tiles
  import opened Integrate
  import opened TileInvariant

  // ---- integration as a function of what it reads ----

  ghost function MaxOff(nodes: Nodes): (max: nat)
    requires ValidNodes(nodes)
    ensures forall pos | pos in nodes :: FlatOffset(pos) <= max
    ensures max == 0 || Written(nodes, max)
    decreases |nodes|
  {
    if nodes == map[] then 0
    else
      var pos :| pos in nodes;
      var rest := nodes - {pos};
      assert rest.Keys < nodes.Keys;
      assert |rest.Keys| < |nodes.Keys| by { SmallerDomain(nodes, pos); }
      var m := MaxOff(rest);
      assert m != 0 ==> Written(nodes, m) by {
        if m != 0 { var q :| q in rest && FlatOffset(q) == m; assert q in nodes; }
      }
      Max(FlatOffset(pos), m)
  }

  lemma SmallerDomain(nodes: Nodes, pos: (nat, nat))
    requires pos in nodes
    ensures |(nodes - {pos}).Keys| < |nodes.Keys|
  {
  }

  ghost function ValueAt(base: Tile, nodes: Nodes, o: nat): Hash
    requires ValidNodes(nodes)
  {
    if Written(nodes, o) then var pos :| pos in nodes && FlatOffset(pos) == o; nodes[pos]
    else if o < |base| then base[o] else ZERO
  }

  /** The tile that applying the nodes gives. */
  ghost function ApplyNodes(base: Tile, nodes: Nodes): (tile: Tile)
    requires ValidNodes(nodes)
    ensures Applied(base, nodes, tile)
  {
    var tile := seq(Max(|base|, MaxOff(nodes) + 1), o requires 0 <= o => ValueAt(base, nodes, o));
    ApplyNodesCorrect(base, nodes, tile);
    tile
  }

  /** A written offset holds its one node. */
  lemma ValueAtNode(base: Tile, nodes: Nodes, pos: (nat, nat))
    requires ValidNodes(nodes) && pos in nodes
    ensures ValueAt(base, nodes, FlatOffset(pos)) == nodes[pos]
  {
    hide FlatOffset;
    DistinctOffsets(nodes, pos);
    assert Written(nodes, FlatOffset(pos));
  }

  lemma ApplyNodesCorrect(base: Tile, nodes: Nodes, tile: Tile)
    requires ValidNodes(nodes) && |tile| == Max(|base|, MaxOff(nodes) + 1)
    requires forall o | 0 <= o < |tile| :: tile[o] == ValueAt(base, nodes, o)
    ensures Applied(base, nodes, tile)
  {
    hide FlatOffset, MaxOff, ValueAt, Written;
    forall pos | pos in nodes
      ensures FlatOffset(pos) < |tile| && tile[FlatOffset(pos)] == nodes[pos]
    {
      ValueAtNode(base, nodes, pos);
    }
    forall o | 0 <= o < |tile| && !Written(nodes, o)
      ensures tile[o] == if o < |base| then base[o] else ZERO
    {
      ValueAtUnwritten(base, nodes, o);
    }
  }

  lemma ValueAtUnwritten(base: Tile, nodes: Nodes, o: nat)
    requires ValidNodes(nodes) && !Written(nodes, o)
    ensures ValueAt(base, nodes, o) == if o < |base| then base[o] else ZERO
  {
  }

  ghost function GrowingKeys(from: nat, n: nat): (keys: set<TileId>)
    ensures forall key :: key in keys <==> Grows(key, from, n)
  {
    var keys := set level: nat, index: nat | level <= n && index <= n && Grows(TileId(level, index), from, n)
                  :: TileId(level, index);
    forall key | Grows(key, from, n) ensures key in keys { GrowingBounded(key, from, n); }
    keys
  }

  lemma GrowingBounded(key: TileId, from: nat, n: nat)
    requires Grows(key, from, n)
    ensures key.level <= n && key.index <= n && key == TileId(key.level, key.index)
  {
    ShrDecreases(n, 0, 8 * key.level);
    ShrZero(n, 8 * key.level);
    BelowPow2(8 * key.level);
  }

  lemma {:induction false} BelowPow2(e: nat)
    ensures e < Pow2(e)
  {
    if e > 0 { BelowPow2(e - 1); }
  }

  /** The tiles of one integration. */
  ghost function NewTiles(store: Store, from: nat, d: seq<Hash>): (tiles: map<TileId, Tile>)
    ensures TilesSpec(store, from, d, tiles)
  {
    map key | key in GrowingKeys(from, |d|) :: ApplyNodes(Base(store, key, from), NodesOf(d, from, key))
  }

  /** Integration is deterministic, and depends only on the tiles of the old size: a
      future tile left by an interrupted import does not change its result. */
  lemma NewTilesDetermined(store: Store, store': Store, from: nat, d: seq<Hash>, tiles: map<TileId, Tile>)
    requires Covers(store, from) && Agrees(store, store') && TilesSpec(store', from, d, tiles)
    ensures tiles == NewTiles(store, from, d)
  {
    hide Applied, NodesOf;
    var canon := NewTiles(store, from, d);
    forall key | key in tiles
      ensures tiles[key] == canon[key]
    {
      BaseDetermined(store, store', key, from);
      AppliedUnique(Base(store, key, from), NodesOf(d, from, key), tiles[key], canon[key]);
    }
  }

  /** Everything stored in one is stored identically in the other. */
  ghost predicate Agrees(store: Store, store': Store) {
    forall p | p in store :: p in store' && store'[p] == store[p]
  }

  lemma BaseDetermined(store: Store, store': Store, key: TileId, from: nat)
    requires Covers(store, from) && Agrees(store, store')
    ensures Base(store, key, from) == Base(store', key, from)
  {
  }

  // ---- the uninterrupted import ----

  /** Size after k chunks of c entries. */
  function SizeAfter(n: nat, c: nat, k: nat): (size: nat)
    ensures size <= n
  {
    Min(k * c, n)
  }

  ghost function Canon(d: seq<Hash>, c: nat, k: nat): Store
    decreases k
  {
    if k == 0 then map[]
    else
      var store, from, to := Canon(d, c, k - 1), SizeAfter(|d|, c, k - 1), SizeAfter(|d|, c, k);
      WriteAll(store, NewTiles(store, from, d[..to]), to)
  }

  lemma SizesGrow(n: nat, c: nat, k: nat)
    ensures SizeAfter(n, c, k) <= SizeAfter(n, c, k + 1) <= n
  {
  }

  /** Each stored path announces no more than the tile has at the current size. */
  ghost predicate Announced(store: Store, n: nat) {
    forall p | p in store :: Width(p.partial) <= Count(p.level, p.index, n)
  }

  /** After every chunk storage holds the tree over the entries so far. */
  lemma {:induction false} CanonCorrect(d: seq<Hash>, c: nat, k: nat)
    ensures Authentic(Canon(d, c, k), d) && Covers(Canon(d, c, k), SizeAfter(|d|, c, k))
    ensures Announced(Canon(d, c, k), SizeAfter(|d|, c, k))
    decreases k
  {
    if k == 0 {
      assert 0 * c == 0;
      forall level: nat, index: nat ensures !InTree(level, index, 0) { ShrZero(0, 8 * level); }
    } else {
      hide Authentic, Covers, NewTiles, TilesSpec;
      CanonCorrect(d, c, k - 1);
      SizesGrow(|d|, c, k - 1);
      var store, from, to := Canon(d, c, k - 1), SizeAfter(|d|, c, k - 1), SizeAfter(|d|, c, k);
      var tiles := NewTiles(store, from, d[..to]);
      IntegrationKeepsStore(store, d, from, to, tiles);
      AnnouncedGrows(store, from, d[..to], tiles);
    }
  }

  lemma AnnouncedGrows(store: Store, from: nat, d: seq<Hash>, tiles: map<TileId, Tile>)
    requires Announced(store, from) && from <= |d| && TilesSpec(store, from, d, tiles)
    ensures Announced(WriteAll(store, tiles, |d|), |d|)
  {
    hide Applied, NodesOf;
    var n := |d|;
    forall p | p in WriteAll(store, tiles, n)
      ensures Width(p.partial) <= Count(p.level, p.index, n)
    {
      ShrMonotone(from, n, 8 * p.level);
      var key := TileId(p.level, p.index);
      if key in tiles && p == PathAt(p.level, p.index, n) { WidthIsCount(p.level, p.index, n); }
    }
  }

  /** A chunk writes only paths that no earlier chunk has written. */
  lemma ChunkPathsNew(d: seq<Hash>, c: nat, k: nat, key: TileId)
    requires Grows(key, SizeAfter(|d|, c, k), SizeAfter(|d|, c, k + 1))
    ensures PathAt(key.level, key.index, SizeAfter(|d|, c, k + 1)) !in Canon(d, c, k)
  {
    hide Canon, Authentic, Covers;
    CanonCorrect(d, c, k);
    WidthIsCount(key.level, key.index, SizeAfter(|d|, c, k + 1));
  }

  lemma CanonUnfold(d: seq<Hash>, c: nat, k: nat)
    ensures SizeAfter(|d|, c, k + 1) <= |d|
    ensures Canon(d, c, k + 1)
            == WriteAll(Canon(d, c, k), NewTiles(Canon(d, c, k), SizeAfter(|d|, c, k), d[..SizeAfter(|d|, c, k + 1)]),
                        SizeAfter(|d|, c, k + 1))
  {
  }

  lemma NewTilesSpec(store: Store, from: nat, d: seq<Hash>)
    ensures TilesSpec(store, from, d, NewTiles(store, from, d))
  {
  }
}

/** What one integration does to an authentic tile store: the tiles it returns
    are authentic at the new size, and writing them makes the store cover it. */
module TileInvariant {
  import opened Bits
  import opened Rfc6962
  import opened Tiles
  import opened Integrate

  /** The store after writing tiles under the paths of size n (src/worker.rs:181-197). */
  ghost function WriteAll(store: Store, tiles: map<TileId, Tile>, n: nat): Store {
    store + map key | key in tiles :: PathAt(key.level, key.index, n) := tiles[key]
  }

  /** Only bottom-row positions have offsets below 256. */
  lemma BottomOffset(nodes: Nodes, j: nat)
    requires ValidNodes(nodes) && j < 256
    ensures Written(nodes, j) <==> (0, j) in nodes
  {
    if Written(nodes, j) {
      var pos :| pos in nodes && FlatOffset(pos) == j;
      if pos.0 > 0 { RowsApart(0, pos.0); }
    }
    if (0, j) in nodes { assert FlatOffset((0, j)) == j; }
  }

  /** Every returned tile is authentic at the new size, including the part that it
      takes over from the stored tile. */
  lemma IntegratedTileAuthentic(store: Store, log: seq<Hash>, from: nat, n: nat, key: TileId, tile: Tile)
    requires Authentic(store, log) && Covers(store, from) && from <= n <= |log|
    requires InTree(key.level, key.index, n)
    requires Applied(Base(store, key, from), NodesOf(log[..n], from, key), tile)
    ensures AuthenticTile(tile, key.level, key.index, Count(key.level, key.index, n), log)
  {
    hide Applied;
    var level, index, count := key.level, key.index, Count(key.level, key.index, n);
    ShrMonotone(n, |log|, 8 * level);
    ShrMonotone(from, n, 8 * level);
    forall j: nat | j < count
      ensures j < |tile| && tile[j] == Subtree(log, 8 * level, 256 * index + j)
    {
      IntegratedNode(store, log, from, n, key, tile, j);
    }
    IntegratedNode(store, log, from, n, key, tile, count - 1);
  }

  lemma IntegratedNode(store: Store, log: seq<Hash>, from: nat, n: nat, key: TileId, tile: Tile, j: nat)
    requires Authentic(store, log) && Covers(store, from) && from <= n <= |log|
    requires Applied(Base(store, key, from), NodesOf(log[..n], from, key), tile)
    requires j < Count(key.level, key.index, n)
    ensures 256 * key.index + j < SizeAt(key.level, |log|)
    ensures j < |tile| && tile[j] == Subtree(log, 8 * key.level, 256 * key.index + j)
  {
    hide Subtree, Applied, NodesOf;
    var level, index, d := key.level, key.index, log[..n];
    SubtreeStable(d, log, 8 * level, 256 * index + j);
    AppliedBottom(Base(store, key, from), NodesOf(d, from, key), tile, j);
    NodesOfBottom(d, from, key, j);
    if 256 * index + j < SizeAt(level, from) {
      var path := PathAt(level, index, from);
      WidthIsCount(level, index, from);
      assert AuthenticTile(store[path], level, index, Width(path.partial), log);
    }
  }

  lemma NodesOfBottom(d: seq<Hash>, from: nat, key: TileId, j: nat)
    requires j < 256
    ensures (0, j) in NodesOf(d, from, key)
            <==> SizeAt(key.level, from) <= 256 * key.index + j < SizeAt(key.level, |d|)
    ensures (0, j) in NodesOf(d, from, key)
            ==> NodesOf(d, from, key)[(0, j)] == Subtree(d, 8 * key.level, 256 * key.index + j)
  {
    assert (0, j) in Positions();
    assert IndexOf(key, (0, j)) == 256 * key.index + j;
    assert LevelOf(key, (0, j)) == 8 * key.level;
  }

  /** Bottom-row positions of an updated tile. */
  lemma AppliedBottom(base: Tile, nodes: Nodes, tile: Tile, j: nat)
    requires ValidNodes(nodes) && Applied(base, nodes, tile) && j < 256
    ensures (0, j) in nodes ==> j < |tile| && tile[j] == nodes[(0, j)]
    ensures (0, j) !in nodes && j < |base| ==> j < |tile| && tile[j] == base[j]
  {
    BottomOffset(nodes, j);
    if (0, j) in nodes { assert FlatOffset((0, j)) == j; }
  }

  /** One integration keeps the store authentic and moves its coverage to the new
      size; a tile that does not grow keeps its path. */
  lemma IntegrationKeepsStore(store: Store, log: seq<Hash>, from: nat, n: nat, tiles: map<TileId, Tile>)
    requires Authentic(store, log) && Covers(store, from) && from <= n <= |log|
    requires TilesSpec(store, from, log[..n], tiles)
    ensures Authentic(WriteAll(store, tiles, n), log)
    ensures Covers(WriteAll(store, tiles, n), n)
  {
    hide Applied, AuthenticTile;
    var store' := WriteAll(store, tiles, n);
    forall p | p in store'
      ensures AuthenticTile(store'[p], p.level, p.index, Width(p.partial), log)
    {
      var key := TileId(p.level, p.index);
      if key in tiles && p == PathAt(p.level, p.index, n) {
        IntegratedTileAuthentic(store, log, from, n, key, tiles[key]);
        WidthIsCount(p.level, p.index, n);
        assert store'[p] == tiles[key];
      } else {
        assert store'[p] == store[p];
      }
    }
    CoverageMoves(store, tiles.Keys, store', from, n);
  }

  /** Coverage moves to the new size once every growing tile is written. */
  lemma CoverageMoves(store: Store, written: set<TileId>, store': Store, from: nat, n: nat)
    requires Covers(store, from) && from <= n && store.Keys <= store'.Keys
    requires forall key :: key in written <==> Grows(key, from, n)
    requires forall key | key in written :: PathAt(key.level, key.index, n) in store'
    ensures Covers(store', n)
  {
    forall level: nat, index: nat | InTree(level, index, n)
      ensures PathAt(level, index, n) in store'
    {
      var key := TileId(level, index);
      if key !in written {
        SameCountSamePath(level, index, from, n);
        assert PathAt(level, index, from) in store;
      }
    }
  }

  /** No write ever changes the authenticated prefix of an existing path: two
      authentic stores agree on it. */
  lemma AuthenticPrefixFixed(store: Store, store': Store, log: seq<Hash>, p: TilePath)
    requires Authentic(store, log) && Authentic(store', log) && p in store && p in store'
    ensures Width(p.partial) <= |store[p]| && Width(p.partial) <= |store'[p]|
    ensures store[p][..Width(p.partial)] == store'[p][..Width(p.partial)]
  {
  }
}

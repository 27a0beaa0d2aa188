/** Incremental tree building (src/merkle/integrate.rs).

    `TreeBuilder` keeps the compact range and the tile write cache of the
    source.  Its invariant says that `range[l]` holds a hash exactly when bit l
    of the size is set, and that the cache holds exactly the nodes completed
    since the builder was loaded. */
module Integrate {
  import opened Bits
  import opened Rfc6962
  import opened Tiles
  import opened Wrappers

  type Nodes = map<(nat, nat), Hash>
  type Cache = map<TileId, Nodes>

  datatype IntegrateError = RootUnavailable | MissingTile(level: nat, index: nat) | EmptyRange

  datatype Integration = Integration(newSize: nat, root: Hash, tiles: map<TileId, Tile>)

  // ---- node coordinates ----

  /** `1 << (TILE_HEIGHT - row)`: nodes in one row of a tile. */
  function RowWidth(row: nat): (w: nat)
    requires row < 8
    ensures w == Pow2(8 - row)
  {
    assert Pow2(4) == 16 && Pow2(8) == 256;
    if row == 0 then 256 else if row == 1 then 128 else if row == 2 then 64 else if row == 3 then 32
    else if row == 4 then 16 else if row == 5 then 8 else if row == 6 then 4 else 2
  }

  /** `node_to_tile_coords`: the tile of a node ... */
  function KeyOf(level: nat, index: nat): TileId {
    TileId(level / 8, index / RowWidth(level % 8))
  }

  /** ... and its row and position in that tile. */
  function PosOf(level: nat, index: nat): (nat, nat) {
    (level % 8, index % RowWidth(level % 8))
  }

  predicate ValidPos(pos: (nat, nat)) { pos.0 < 8 && pos.1 < RowWidth(pos.0) }

  function LevelOf(key: TileId, pos: (nat, nat)): nat { 8 * key.level + pos.0 }

  function IndexOf(key: TileId, pos: (nat, nat)): nat
    requires ValidPos(pos)
  {
    key.index * RowWidth(pos.0) + pos.1
  }

  /** Coordinates are a bijection between nodes and positions in tiles. */
  lemma CoordsOfNode(level: nat, index: nat)
    ensures ValidPos(PosOf(level, index))
    ensures LevelOf(KeyOf(level, index), PosOf(level, index)) == level
    ensures IndexOf(KeyOf(level, index), PosOf(level, index)) == index
  {
  }

  lemma NodeOfCoords(key: TileId, pos: (nat, nat))
    requires ValidPos(pos)
    ensures KeyOf(LevelOf(key, pos), IndexOf(key, pos)) == key
    ensures PosOf(LevelOf(key, pos), IndexOf(key, pos)) == pos
  {
  }

  // ---- the compact range ----

  /** `range[l]` is Some exactly when bit l of the size is set, and then it is the
      hash of the rightmost complete subtree of 2^l leaves. */
  ghost predicate RangeOk(range: seq<Option<Hash>>, d: seq<Hash>) {
    && Shr(|d|, |range|) == 0
    && forall l | 0 <= l < |range| :: range[l] == RangeEntry(d, l)
  }

  ghost function RangeEntry(d: seq<Hash>, l: nat): Option<Hash> {
    if Shr(|d|, l) % 2 == 1 then Some(Subtree(d, l, Shr(|d|, l) - 1)) else None
  }

  /** `compute_node_hash`. */
  function ComputeNodeHash(store: Store, level: nat, index: nat, n: nat): Result<Hash, IntegrateError>
    decreases level
  {
    if level == 0 then
      if LeafReadable(store, index, n) then Ok(StoredLeaf(store, index, n))
      else Err(MissingTile(0, index / 256))
    else
      var left := ComputeNodeHash(store, level - 1, 2 * index, n);
      if left.Err? then left else
      var right := ComputeNodeHash(store, level - 1, 2 * index + 1, n);
      if right.Err? then right else
      Ok(Node(left.value, right.value))
  }

  lemma {:induction false} ComputeNodeHashIsSubtree(store: Store, level: nat, index: nat, n: nat)
    requires LeavesReadable(store, n) && index < Shr(n, level)
    ensures ComputeNodeHash(store, level, index, n) == Ok(Subtree(StoredLeaves(store, n), level, index))
    decreases level
  {
    if level > 0 {
      ComputeNodeHashIsSubtree(store, level - 1, 2 * index, n);
      ComputeNodeHashIsSubtree(store, level - 1, 2 * index + 1, n);
    }
  }

  lemma {:induction false} ComputeNodeHashReads(store: Store, level: nat, index: nat, n: nat, leaf: nat)
    requires ComputeNodeHash(store, level, index, n).Ok? && Shr(leaf, level) == index
    ensures LeafReadable(store, leaf, n)
    decreases level
  {
    if level > 0 { ComputeNodeHashReads(store, level - 1, Shr(leaf, level - 1), n, leaf); }
  }

  /** The error names the tile of a leaf that cannot be read. */
  ghost predicate NamesMissing(store: Store, n: nat, e: IntegrateError) {
    e.MissingTile? && e.level == 0 && exists leaf: nat :: leaf < n && leaf / 256 == e.index && !LeafReadable(store, leaf, n)
  }

  lemma {:induction false} ComputeNodeHashFails(store: Store, level: nat, index: nat, n: nat)
    requires ComputeNodeHash(store, level, index, n).Err? && index < Shr(n, level)
    ensures NamesMissing(store, n, ComputeNodeHash(store, level, index, n).error)
    decreases level
  {
    hide LeafReadable, NamesMissing;
    if level == 0 {
      LeafMissing(store, n, index);
    } else if ComputeNodeHash(store, level - 1, 2 * index, n).Err? {
      ComputeNodeHashFails(store, level - 1, 2 * index, n);
    } else {
      ComputeNodeHashFails(store, level - 1, 2 * index + 1, n);
    }
  }

  lemma LeafMissing(store: Store, n: nat, leaf: nat)
    requires leaf < n && !LeafReadable(store, leaf, n)
    ensures NamesMissing(store, n, MissingTile(0, leaf / 256))
  {
  }

  /** Every leaf lies under one node of the compact range. */
  lemma {:induction false} LeafUnderRange(leaf: nat, n: nat, top: nat) returns (l: nat)
    requires leaf < n && Shr(leaf, top) == Shr(n, top)
    ensures l < top && Shr(n, l) % 2 == 1 && Shr(leaf, l) == Shr(n, l) - 1
  {
    l := top - 1;
    ShrMonotone(leaf, n, l);
    if Shr(leaf, l) == Shr(n, l) { l := LeafUnderRange(leaf, n, l); }
  }

  /** The set bits of n from a level up, lowest first, each with the index of its
      rightmost complete subtree. */
  function RangeNodes(n: nat, level: nat): seq<(nat, nat)>
    decreases BitLength(n) - level
  {
    if level >= BitLength(n) then []
    else (if Shr(n, level) % 2 == 1 then [(level, Shr(n, level) - 1)] else []) + RangeNodes(n, level + 1)
  }

  ghost predicate ListsBits(n: nat, nodes: seq<(nat, nat)>, from: nat) {
    && (forall p :: p in nodes <==>
          from <= p.0 < BitLength(n) && Shr(n, p.0) % 2 == 1 && p.1 == Shr(n, p.0) - 1)
    && forall i, j | 0 <= i < j < |nodes| :: nodes[i].0 < nodes[j].0
  }

  lemma {:induction false} RangeNodesListBits(n: nat, level: nat)
    ensures ListsBits(n, RangeNodes(n, level), level)
    decreases BitLength(n) - level
  {
    if level < BitLength(n) { RangeNodesListBits(n, level + 1); }
  }

  /** `compute_range_nodes`.  The source pushes from the highest level and reverses. */
  method ComputeRangeNodes(n: nat) returns (nodes: seq<(nat, nat)>)
    ensures nodes == RangeNodes(n, 0)
  {
    nodes := [];
    var cumulative, level := 0, BitLength(n);
    if n > 0 { BitLengthBounds(n); }
    ShrZero(n, level);
    ShlZero(level);
    while level > 0
      invariant 0 <= level <= BitLength(n)
      invariant cumulative == Shl(Shr(n, level), level)
      invariant nodes == RangeNodes(n, level)
      invariant cumulative <= n
    {
      level := level - 1;
      LevelFits(n, level);
      ShlOfShr(n, level);
      ghost var h := Shr(n, level + 1);
      if Shr(n, level) % 2 == 1 {
        ShlSucc(2 * h, level);
        ShrOfShl(2 * h, level);
        nodes := [(level, Shr(cumulative, level))] + nodes;
        cumulative := cumulative + Pow2(level);
      }
    }
  }

  /** A level below the bit length of a 64-bit size can be shifted by. */
  lemma LevelFits(n: nat, level: nat)
    ensures n < U64_LIMIT && level < BitLength(n) ==> level < 64
  {
    Pow2Of63();
    if n > 0 {
      BitLengthBounds(n);
      if BitLength(n) > 64 { Pow2Monotone(64, BitLength(n) - 1); }
    }
  }

  /** A node of a 64-bit tree: its level is a 64-bit shift, and the end of its range, as
      `should_store_node` computes it, is within the tree. */
  lemma NodeFits(level: nat, index: nat, n: nat)
    requires n < U64_LIMIT && index < Shr(n, level)
    ensures level < 64 && Shl(index + 1, level) <= n
  {
    SubtreeInRange(n, level, index);
    if level >= 64 {
      Pow2Of63();
      Pow2Monotone(64, level);
      ShrZero(n, level);
    }
  }

  /** Pads the range with None up to the level, and stores the node there. */
  function PlaceAt(range: seq<Option<Hash>>, level: nat, hash: Hash): (range': seq<Option<Hash>>)
    requires |range| <= level
    ensures |range'| == level + 1
  {
    range + seq(level - |range|, _ => None) + [Some(hash)]
  }

  /** `load_compact_range` restores the compact range from the stored leaves; it
      fails exactly when some leaf cannot be read. */
  method LoadCompactRange(store: Store, n: nat) returns (r: Result<seq<Option<Hash>>, IntegrateError>)
    ensures r.Ok? <==> LeavesReadable(store, n)
    ensures r.Ok? ==> RangeOk(r.value, StoredLeaves(store, n))
    ensures r.Err? ==> NamesMissing(store, n, r.error)
  {
    hide NamesMissing, ComputeNodeHash, Subtree, BitLength, StoredLeaves, LeavesReadable, PlaceAt, RangeNodes, Shr;
    var nodes := ComputeRangeNodes(n);
    RangeNodesListBits(n, 0);
    var range: seq<Option<Hash>> := [];
    for i := 0 to |nodes|
      invariant |range| == if i == 0 then 0 else nodes[i - 1].0 + 1
      invariant forall k | 0 <= k < i :: ComputeNodeHash(store, nodes[k].0, nodes[k].1, n).Ok?
      invariant LeavesReadable(store, n) ==>
                  forall l | 0 <= l < |range| :: range[l] == RangeEntry(StoredLeaves(store, n), l)
    {
      var (level, index) := nodes[i];
      assert nodes[i] in nodes;
      var hash := ComputeNodeHash(store, level, index, n);
      if LeavesReadable(store, n) { ComputeNodeHashIsSubtree(store, level, index, n); }
      if hash.Err? {
        ComputeNodeHashFails(store, level, index, n);
        return Err(hash.error);
      }
      if LeavesReadable(store, n) { RangeGrows(StoredLeaves(store, n), range, nodes, i, hash.value); }
      range := PlaceAt(range, level, hash.value);
    }
    RangeNodesCover(store, n, nodes);
    TopOfRange(n, nodes);
    return Ok(range);
  }

  /** Storing the next listed node extends the compact range. */
  lemma RangeGrows(d: seq<Hash>, range: seq<Option<Hash>>, nodes: seq<(nat, nat)>, i: nat, hash: Hash)
    requires ListsBits(|d|, nodes, 0) && i < |nodes| && |range| == (if i == 0 then 0 else nodes[i - 1].0 + 1)
    requires forall l | 0 <= l < |range| :: range[l] == RangeEntry(d, l)
    requires nodes[i].0 >= |range| && RangeEntry(d, nodes[i].0) == Some(hash)
    ensures var level := nodes[i].0;
            var range' := PlaceAt(range, level, hash);
            forall l | 0 <= l < |range'| :: range'[l] == RangeEntry(d, l)
  {
    hide Subtree;
    forall l | |range| <= l < nodes[i].0
      ensures RangeEntry(d, l) == None
    {
      BetweenRangeNodes(|d|, nodes, i, l);
    }
  }

  lemma RangeNodesCover(store: Store, n: nat, nodes: seq<(nat, nat)>)
    requires ListsBits(n, nodes, 0)
    requires forall k | 0 <= k < |nodes| :: ComputeNodeHash(store, nodes[k].0, nodes[k].1, n).Ok?
    ensures LeavesReadable(store, n)
  {
    forall leaf: nat | leaf < n
      ensures LeafReadable(store, leaf, n)
    {
      var top := BitLength(n);
      BitLengthBounds(n);
      ShrZero(n, top);
      ShrZero(leaf, top);
      var l := LeafUnderRange(leaf, n, top);
      assert (l, Shr(leaf, l)) in nodes;
      ComputeNodeHashReads(store, l, Shr(leaf, l), n, leaf);
    }
  }

  /** Between two listed levels no bit is set. */
  lemma BetweenRangeNodes(n: nat, nodes: seq<(nat, nat)>, i: nat, l: nat)
    requires ListsBits(n, nodes, 0) && i < |nodes|
    requires (i == 0 || nodes[i - 1].0 < l) && l < nodes[i].0
    ensures Shr(n, l) % 2 == 0
  {
    if Shr(n, l) % 2 == 1 {
      assert nodes[i] in nodes;
      var p := (l, Shr(n, l) - 1);
      assert p in nodes;
      var j :| 0 <= j < |nodes| && nodes[j] == p;
      if j < i {} else {}
    }
  }

  /** The highest listed level is the highest set bit. */
  lemma TopOfRange(n: nat, nodes: seq<(nat, nat)>)
    requires ListsBits(n, nodes, 0)
    ensures Shr(n, if nodes == [] then 0 else nodes[|nodes| - 1].0 + 1) == 0
  {
    if n > 0 {
      BitLengthBounds(n);
      var b := BitLength(n) - 1;
      ShrZero(n, b);
      ShrZero(n, b + 1);
      var p := (b, Shr(n, b) - 1);
      assert p in nodes;
      var j :| 0 <= j < |nodes| && nodes[j] == p;
      var last := nodes[|nodes| - 1];
      assert last in nodes;
    }
  }

  // ---- the tile cache ----

  /** Nodes completed from size `from` on: all below size n, plus the new node of
      each of the lowest c levels. */
  predicate Fresh(level: nat, index: nat, from: nat, n: nat, c: nat) {
    && Shr(from, level) <= index
    && (index < Shr(n, level) || (level < c && index == Shr(n, level)))
  }

  /** The cache holds exactly the fresh nodes, each with its subtree hash. */
  ghost predicate CacheHolds(cache: Cache, d: seq<Hash>, from: nat, n: nat, c: nat) {
    && (forall key, pos | key in cache && pos in cache[key] ::
          && ValidPos(pos)
          && Fresh(LevelOf(key, pos), IndexOf(key, pos), from, n, c)
          && IndexOf(key, pos) < Shr(|d|, LevelOf(key, pos))
          && cache[key][pos] == Subtree(d, LevelOf(key, pos), IndexOf(key, pos)))
    && (forall level: nat, index: nat | Fresh(level, index, from, n, c) ::
          KeyOf(level, index) in cache && PosOf(level, index) in cache[KeyOf(level, index)])
    && forall key | key in cache :: cache[key] != map[]
  }

  ghost predicate CacheOk(cache: Cache, d: seq<Hash>, from: nat) {
    CacheHolds(cache, d, from, |d|, 0)
  }

  /** `set_node` on the cache. */
  function SetNode(cache: Cache, level: nat, index: nat, hash: Hash): Cache {
    var key := KeyOf(level, index);
    var nodes := if key in cache then cache[key] else map[];
    cache[key := nodes[PosOf(level, index) := hash]]
  }

  /** Storing the new node of level c extends the cache by that level. */
  lemma SetNodeHolds(cache: Cache, d: seq<Hash>, from: nat, n: nat, c: nat)
    requires CacheHolds(cache, d, from, n, c)
    requires Shr(from, c) <= Shr(n, c) < Shr(|d|, c)
    ensures CacheHolds(SetNode(cache, c, Shr(n, c), Subtree(d, c, Shr(n, c))), d, from, n, c + 1)
  {
    var index := Shr(n, c);
    var cache' := SetNode(cache, c, index, Subtree(d, c, index));
    CoordsOfNode(c, index);
    forall level: nat, i: nat | Fresh(level, i, from, n, c + 1)
      ensures KeyOf(level, i) in cache' && PosOf(level, i) in cache'[KeyOf(level, i)]
    {
      assert Fresh(level, i, from, n, c) || (level == c && i == index);
    }
  }

  /** A cache for d is a cache for every extension of d. */
  lemma CacheStable(cache: Cache, d: seq<Hash>, d': seq<Hash>, from: nat)
    requires d <= d' && CacheOk(cache, d, from)
    ensures CacheHolds(cache, d', from, |d|, 0)
  {
    forall key, pos | key in cache && pos in cache[key]
      ensures IndexOf(key, pos) < Shr(|d'|, LevelOf(key, pos))
      ensures cache[key][pos] == Subtree(d', LevelOf(key, pos), IndexOf(key, pos))
    {
      SubtreeStable(d, d', LevelOf(key, pos), IndexOf(key, pos));
    }
  }

  // ---- adding one leaf ----

  /** Levels whose lower bits of n are all ones gain a node; the others do not. */
  ghost predicate Carries(n: nat, level: nat) {
    forall l: nat | l <= level :: Shr(n + 1, l) == Shr(n, l) + 1 && (l < level ==> Shr(n, l) % 2 == 1)
  }

  lemma CarryStep(n: nat, level: nat)
    requires Carries(n, level) && Shr(n, level) % 2 == 1
    ensures Carries(n, level + 1)
  {
  }

  lemma {:induction false} CarryStops(n: nat, level: nat, l: nat)
    requires Carries(n, level) && Shr(n, level) % 2 == 0 && level < l
    ensures Shr(n + 1, l) == Shr(n, l)
    decreases l
  {
    assert Shr(n + 1, level) == Shr(n, level) + 1;
    if l > level + 1 { CarryStops(n, level, l - 1); }
  }

  /** After the carry has stopped, the cache is complete for n + 1. */
  lemma CacheAdvances(cache: Cache, d: seq<Hash>, from: nat, level: nat)
    requires |d| > 0 && from < |d|
    requires Carries(|d| - 1, level) && Shr(|d| - 1, level) % 2 == 0
    requires CacheHolds(cache, d, from, |d| - 1, level + 1)
    ensures CacheOk(cache, d, from)
  {
    var n := |d| - 1;
    forall l: nat, i: nat
      ensures Fresh(l, i, from, n, level + 1) <==> Fresh(l, i, from, |d|, 0)
    {
      if l <= level {
        assert Shr(n + 1, l) == Shr(n, l) + 1;
        ShrMonotone(from, n, l);
      } else {
        CarryStops(n, level, l);
      }
    }
  }

  /** The compact range after the carry: lower levels cleared, one level set. */
  lemma RangeAdvances(before: seq<Option<Hash>>, after: seq<Option<Hash>>, d: seq<Hash>, leaf: Hash, level: nat)
    requires RangeOk(before, d)
    requires Carries(|d|, level) && Shr(|d|, level) % 2 == 0
    requires level < |after| && |after| == Max(|before|, level + 1)
    requires forall l | 0 <= l < level :: after[l] == None
    requires Shr(|d|, level) < Shr(|d| + 1, level)
    requires after[level] == Some(Subtree(d + [leaf], level, Shr(|d|, level)))
    requires forall l | level < l < |after| :: after[l] == before[l]
    ensures RangeOk(after, d + [leaf])
  {
    var d', n := d + [leaf], |d|;
    forall l | 0 <= l < |after|
      ensures after[l] == RangeEntry(d', l)
    {
      if l <= level {
        assert Shr(n + 1, l) == Shr(n, l) + 1;
      } else {
        CarryStops(n, level, l);
        if Shr(n, l) % 2 == 1 { SubtreeStable(d, d', l, Shr(n, l) - 1); }
      }
    }
    CarryStops(n, level, |after|);
    ShrDecreases(n, |before|, |after|);
  }

  // ---- applying a mutator to a tile ----

  function RowStart(row: nat): nat
    requires row < 8
  {
    if row == 0 then 0 else RowStart(row - 1) + RowWidth(row - 1)
  }

  /** `flat_offset`. */
  function FlatOffset(pos: (nat, nat)): nat
    requires ValidPos(pos)
  {
    RowStart(pos.0) + pos.1
  }

  /** Row r starts where 256 + 128 + ... + 2^(9 - r) hashes have been laid out; the whole
      tile takes 510. */
  lemma {:induction false} FlatOffsetExact(pos: (nat, nat))
    requires ValidPos(pos)
    ensures FlatOffset(pos) + Pow2(9 - pos.0) == 512 + pos.1
    ensures FlatOffset(pos) < 510
    decreases pos.0
  {
    RowWidthExact(pos.0);
    if pos.0 > 0 {
      RowWidthExact(pos.0 - 1);
      FlatOffsetExact((pos.0 - 1, 0));
    } else {
      assert Pow2(9) == 512;
    }
  }

  /** Row r of a tile has 2^(8 - r) nodes. */
  lemma RowWidthExact(row: nat)
    requires row < 8
    ensures RowWidth(row) == Pow2(8 - row) && Pow2(9 - row) == 2 * Pow2(8 - row) >= 4
  {
    assert Pow2(0) == 1 && Pow2(1) == 2 && Pow2(2) == 4 && Pow2(3) == 8 && Pow2(4) == 16;
    assert Pow2(5) == 32 && Pow2(6) == 64 && Pow2(7) == 128 && Pow2(8) == 256;
  }

  lemma {:induction false} RowsApart(a: nat, b: nat)
    requires a < b < 8
    ensures RowStart(a) + RowWidth(a) <= RowStart(b)
  {
    if a + 1 < b { RowsApart(a, b - 1); }
  }

  lemma FlatOffsetInjective(p: (nat, nat), q: (nat, nat))
    requires ValidPos(p) && ValidPos(q) && FlatOffset(p) == FlatOffset(q)
    ensures p == q
  {
    if p.0 < q.0 { RowsApart(p.0, q.0); } else if q.0 < p.0 { RowsApart(q.0, p.0); }
  }

  ghost predicate ValidNodes(nodes: Nodes) { forall pos | pos in nodes :: ValidPos(pos) }

  /** Some node is written to this offset. */
  ghost predicate Written(nodes: Nodes, offset: nat)
    requires ValidNodes(nodes)
  {
    exists pos :: pos in nodes && FlatOffset(pos) == offset
  }

  /** `out` is `base`, zero-padded just far enough, with the nodes written over it. */
  ghost predicate Applied(base: Tile, nodes: Nodes, out: Tile)
    requires ValidNodes(nodes)
  {
    && |base| <= |out|
    && 0 < |out|
    && (|out| == Max(|base|, 1) || Written(nodes, |out| - 1))
    && (forall pos | pos in nodes :: FlatOffset(pos) < |out| && out[FlatOffset(pos)] == nodes[pos])
    && forall o | 0 <= o < |out| && !Written(nodes, o) ::
         out[o] == if o < |base| then base[o] else ZERO
  }

  /** Applying a mutator is deterministic, whatever order its nodes come in. */
  lemma AppliedUnique(base: Tile, nodes: Nodes, a: Tile, b: Tile)
    requires ValidNodes(nodes) && Applied(base, nodes, a) && Applied(base, nodes, b)
    ensures a == b
  {
  }

  /** The largest offset that a mutator needs. */
  method MaxOffset(nodes: Nodes) returns (max: nat)
    requires ValidNodes(nodes)
    ensures max == 0 || Written(nodes, max)
    ensures forall pos | pos in nodes :: FlatOffset(pos) <= max
  {
    max := 0;
    var todo := nodes.Keys;
    while todo != {}
      invariant todo <= nodes.Keys
      invariant max == 0 || Written(nodes, max)
      invariant forall pos | pos in nodes && pos !in todo :: FlatOffset(pos) <= max
      decreases |todo|
    {
      var pos :| pos in todo;
      if FlatOffset(pos) > max { max := FlatOffset(pos); }
      todo := todo - {pos};
    }
  }

  /** `TileMutator::apply_to`. */
  method ApplyTo(nodes: Nodes, base: Tile) returns (tile: Tile)
    requires ValidNodes(nodes)
    ensures Applied(base, nodes, tile)
  {
    var max := MaxOffset(nodes);
    tile := base;
    while |tile| <= max
      invariant |base| <= |tile| <= Max(|base|, max + 1)
      invariant forall o | 0 <= o < |tile| :: tile[o] == if o < |base| then base[o] else ZERO
    {
      tile := tile + [ZERO];
    }
    ghost var padded := tile;
    var todo := nodes.Keys;
    while todo != {}
      invariant todo <= nodes.Keys
      invariant |tile| == |padded|
      invariant forall pos | pos in nodes && pos !in todo :: tile[FlatOffset(pos)] == nodes[pos]
      invariant forall o | 0 <= o < |tile| && !Written(nodes, o) :: tile[o] == padded[o]
      decreases |todo|
    {
      var pos :| pos in todo;
      DistinctOffsets(nodes, pos);
      tile := tile[FlatOffset(pos) := nodes[pos]];
      todo := todo - {pos};
    }
  }

  /** Where an updated tile has a node: row r starts at offset 512 - 2^(9 - r). */
  lemma AppliedLayout(base: Tile, nodes: Nodes, tile: Tile, row: nat, i: nat)
    requires ValidNodes(nodes) && Applied(base, nodes, tile) && (row, i) in nodes
    ensures row < 8 && 0 <= 512 - Pow2(9 - row) + i < |tile| && tile[512 - Pow2(9 - row) + i] == nodes[(row, i)]
  {
    hide FlatOffset, Pow2, Written;
    FlatOffsetExact((row, i));
  }

  /** ... and how long it is: 510 hashes at most. */
  lemma AppliedLength(base: Tile, nodes: Nodes, tile: Tile)
    requires ValidNodes(nodes) && Applied(base, nodes, tile) && |base| <= 510
    ensures |tile| <= 510
  {
    hide FlatOffset, Pow2;
    if Written(nodes, |tile| - 1) {
      var pos :| pos in nodes && FlatOffset(pos) == |tile| - 1;
      FlatOffsetExact(pos);
    }
  }

  lemma DistinctOffsets(nodes: Nodes, pos: (nat, nat))
    requires ValidNodes(nodes) && pos in nodes
    ensures forall q | q in nodes && FlatOffset(q) == FlatOffset(pos) :: q == pos
  {
    forall q | q in nodes && FlatOffset(q) == FlatOffset(pos)
      ensures q == pos
    {
      FlatOffsetInjective(q, pos);
    }
  }

  // ---- the tiles of one integration ----

  /** The tile that `finalize` starts from: the one stored at the old size, if any. */
  function Base(store: Store, key: TileId, from: nat): Tile {
    var path := PathAt(key.level, key.index, from);
    var existed := key.index < (SizeAt(key.level, from) + 255) / 256;
    if existed && path in store then store[path] else []
  }

  ghost function Positions(): set<(nat, nat)> {
    set row: nat, i: nat | row < 8 && i < 256 :: (row, i)
  }

  /** The nodes that an integration from `from` to |d| writes to one tile. */
  ghost function NodesOf(d: seq<Hash>, from: nat, key: TileId): (nodes: Nodes)
    ensures ValidNodes(nodes)
  {
    map pos | pos in Positions() && ValidPos(pos)
              && Fresh(LevelOf(key, pos), IndexOf(key, pos), from, |d|, 0)
            :: Subtree(d, LevelOf(key, pos), IndexOf(key, pos))
  }

  /** The tile gains bottom-row nodes between the two sizes. */
  predicate Grows(key: TileId, from: nat, n: nat) {
    Count(key.level, key.index, from) < Count(key.level, key.index, n)
  }

  /** Integration never shifts further than 64 bits: every tile that it touches, and
      every level at which it asks for the old partial size, is within the tree. */
  lemma GrowsShiftOk(key: TileId, from: nat, n: nat)
    ensures Grows(key, from, n) && n < U64_LIMIT ==> ShiftOk(key.level)
  {
    if Grows(key, from, n) && n < U64_LIMIT { InTreeShiftOk(key.level, key.index, n); }
  }

  /** The full result of an integration, as a function of the stored leaves, the
      stored base tiles and the new leaves. */
  ghost predicate TilesSpec(store: Store, from: nat, d: seq<Hash>, tiles: map<TileId, Tile>) {
    && (forall key :: key in tiles <==> Grows(key, from, |d|))
    && forall key | key in tiles :: Applied(Base(store, key, from), NodesOf(d, from, key), tiles[key])
  }

  lemma NodeThere(d: seq<Hash>, from: nat, key: TileId, row: nat, i: nat)
    requires row < 8 && i < Pow2(8 - row)
    requires var level, index := 8 * key.level + row, key.index * Pow2(8 - row) + i;
             Shr(from, level) <= index < Shr(|d|, level)
    ensures (row, i) in NodesOf(d, from, key)
    ensures NodesOf(d, from, key)[(row, i)] == Subtree(d, 8 * key.level + row, key.index * Pow2(8 - row) + i)
  {
    RowWidthExact(row);
    assert (row, i) in Positions();
  }

  /** The layout of an integrated tile, over all its rows: each node that the batch has
      completed is at its offset, with the hash of its subtree, and the tile has at most 510
      hashes. */
  lemma IntegratedLayout(store: Store, from: nat, d: seq<Hash>, tiles: map<TileId, Tile>, key: TileId, row: nat, i: nat)
    requires TilesSpec(store, from, d, tiles) && key in tiles
    requires row < 8 && i < Pow2(8 - row)
    requires var level, index := 8 * key.level + row, key.index * Pow2(8 - row) + i;
             Shr(from, level) <= index < Shr(|d|, level)
    ensures var offset := 512 - Pow2(9 - row) + i;
            && 0 <= offset < |tiles[key]|
            && tiles[key][offset] == Subtree(d, 8 * key.level + row, key.index * Pow2(8 - row) + i)
    ensures |Base(store, key, from)| <= 510 ==> |tiles[key]| <= 510
  {
    hide Applied, Subtree, NodesOf, Base;
    RowWidthExact(row);
    NodeThere(d, from, key, row, i);
    AppliedLayout(Base(store, key, from), NodesOf(d, from, key), tiles[key], row, i);
    if |Base(store, key, from)| <= 510 { AppliedLength(Base(store, key, from), NodesOf(d, from, key), tiles[key]); }
  }

  /** A fresh node of an upper row has a fresh node below it in the same tile. */
  lemma {:induction false} FreshBottom(key: TileId, pos: (nat, nat), from: nat, n: nat) returns (i: nat)
    requires ValidPos(pos)
    requires Fresh(LevelOf(key, pos), IndexOf(key, pos), from, n, 0)
    ensures i < 256 && Fresh(8 * key.level, 256 * key.index + i, from, n, 0)
    decreases pos.0
  {
    if pos.0 == 0 {
      i := pos.1;
    } else {
      var below := (pos.0 - 1, 2 * pos.1 + 1);
      assert RowWidth(below.0) == 2 * RowWidth(pos.0);
      assert RowWidth(pos.0) * 2 == RowWidth(below.0);
      assert 2 * (key.index * RowWidth(pos.0)) == key.index * RowWidth(below.0);
      assert IndexOf(key, below) == 2 * IndexOf(key, pos) + 1;
      assert LevelOf(key, pos) == LevelOf(key, below) + 1;
      i := FreshBottom(key, below, from, n);
    }
  }

  /** The cache is determined by the leaves: it has a mutator for exactly the
      tiles that grow ... */
  lemma CachedTilesGrow(cache: Cache, d: seq<Hash>, from: nat, key: TileId)
    requires CacheOk(cache, d, from) && from <= |d|
    ensures key in cache <==> Grows(key, from, |d|)
  {
    ShrMonotone(from, |d|, 8 * key.level);
    if key in cache {
      assert cache[key] != map[];
      var pos :| pos in cache[key];
      var i := FreshBottom(key, pos, from, |d|);
    } else if Grows(key, from, |d|) {
      var i := Count(key.level, key.index, from);
      assert Fresh(8 * key.level, 256 * key.index + i, from, |d|, 0);
      NodeOfCoords(key, (0, i));
    }
  }

  /** ... and each mutator holds exactly the fresh nodes of its tile. */
  lemma CachedNodes(cache: Cache, d: seq<Hash>, from: nat, key: TileId)
    requires CacheOk(cache, d, from) && key in cache
    ensures cache[key] == NodesOf(d, from, key)
  {
    forall pos
      ensures pos in cache[key] <==> pos in NodesOf(d, from, key)
    {
      if pos in NodesOf(d, from, key) {
        NodeOfCoords(key, pos);
      } else {
        assert ValidPos(pos) ==> pos in Positions();
      }
    }
  }

  /** Root over the leaves that the lowest l bits of the size account for. */
  ghost function Suffix(d: seq<Hash>, l: nat): Option<Hash> {
    ShlOfShr(|d|, l);
    SuffixFrom(d, Shl(Shr(|d|, l), l))
  }

  ghost function SuffixFrom(d: seq<Hash>, start: nat): Option<Hash>
    requires start <= |d|
  {
    if start == |d| then None else Some(Mth(d[start..]))
  }

  lemma SuffixJoin(d: seq<Hash>, l: nat, index: nat)
    requires index < Shr(|d|, l)
    requires |d| < Shl(index, l) + 2 * Pow2(l)
    ensures Shl(index, l) + Pow2(l) <= |d|
    ensures var h, right := Subtree(d, l, index), SuffixFrom(d, Shl(index, l) + Pow2(l));
            SuffixFrom(d, Shl(index, l)) == Some(if right.None? then h else Node(h, right.value))
  {
    hide Mth;
    var n, p, start := |d|, Pow2(l), Shl(index, l);
    SubtreeIsMth(d, l, index);
    assert d[start..n] == d[start..] && d[start + p..n] == d[start + p..];
    if start + p < n { RangeSplit(d, start, n, l); }
  }

  lemma SuffixStep(d: seq<Hash>, l: nat)
    ensures RangeEntry(d, l) == None ==> Suffix(d, l + 1) == Suffix(d, l)
    ensures RangeEntry(d, l).Some? ==>
              var h := RangeEntry(d, l).value;
              Suffix(d, l + 1) == Some(if Suffix(d, l).None? then h else Node(h, Suffix(d, l).value))
  {
    if Shr(|d|, l) % 2 == 1 {
      ShlOfShr(|d|, l);
      ShlSucc(Shr(|d|, l) - 1, l);
      SuffixJoin(d, l, Shr(|d|, l) - 1);
    }
  }

  /** The compact range after merging the new leaf `level` times, starting from a
      range `before` for the leaves d. */
  ghost predicate Merging(before: seq<Option<Hash>>, range: seq<Option<Hash>>, d: seq<Hash>, leaf: Hash,
                          level: nat, hash: Hash)
  {
    && RangeOk(before, d)
    && Carries(|d|, level)
    && level <= |range| == |before|
    && (forall l | 0 <= l < level :: range[l] == None)
    && (forall l | level <= l < |range| :: range[l] == before[l])
    && Shr(|d|, level) < Shr(|d| + 1, level)
    && hash == Subtree(d + [leaf], level, Shr(|d|, level))
  }

  lemma MergeStep(before: seq<Option<Hash>>, range: seq<Option<Hash>>, d: seq<Hash>, leaf: Hash,
                  level: nat, hash: Hash)
    requires Merging(before, range, d, leaf, level, hash)
    requires Shr(|d|, level) % 2 == 1 && level < |range|
    ensures range[level].Some?
    ensures Merging(before, range[level := None], d, leaf, level + 1, Node(range[level].value, hash))
    ensures ShouldStoreNode(level + 1, Shr(|d|, level + 1), |d| + 1)
  {
    var n, d' := |d|, d + [leaf];
    SubtreeStable(d, d', level, Shr(n, level) - 1);
    CarryStep(n, level);
    assert Shr(n + 1, level + 1) == Shr(n, level + 1) + 1;
    SubtreeInRange(n + 1, level + 1, Shr(n, level + 1));
  }

  /** Once the merged node is a left child, one more entry completes the range. */
  lemma MergeEnds(before: seq<Option<Hash>>, range: seq<Option<Hash>>, after: seq<Option<Hash>>,
                  d: seq<Hash>, leaf: Hash, level: nat, hash: Hash)
    requires Merging(before, range, d, leaf, level, hash)
    requires level < |range| ==> Shr(|d|, level) % 2 == 0
    requires level < |after| && |after| == Max(|range|, level + 1)
    requires forall l | 0 <= l < level :: after[l] == None
    requires after[level] == Some(hash)
    requires forall l | level < l < |after| :: after[l] == range[l]
    ensures RangeOk(after, d + [leaf])
    ensures Shr(|d|, level) % 2 == 0
  {
    if level >= |before| { ShrDecreases(|d|, |before|, level); }
    RangeAdvances(before, after, d, leaf, level);
  }

  /** The shift and the product in `should_store_node` fit 64 bits. */
  lemma MergedNodeFits(n: nat, level: nat)
    requires ShouldStoreNode(level, Shr(n, level), n + 1)
    ensures n + 1 < U64_LIMIT ==> level < 64 && Shl(Shr(n, level) + 1, level) < U64_LIMIT
  {
    InRangeSubtree(n + 1, level, Shr(n, level));
    if n + 1 < U64_LIMIT { NodeFits(level, Shr(n, level), n + 1); }
  }

  /** The merge loop of `append`. */
  method Merge(range0: seq<Option<Hash>>, cache0: Cache, leaf: Hash, n: nat, ghost d: seq<Hash>, ghost from: nat)
    returns (range: seq<Option<Hash>>, cache: Cache, level: nat, hash: Hash)
    requires |d| == n && from <= n && RangeOk(range0, d)
    requires CacheHolds(cache0, d + [leaf], from, n, 1)
    ensures Merging(range0, range, d, leaf, level, hash)
    ensures level < |range| ==> Shr(n, level) % 2 == 0
    ensures CacheHolds(cache, d + [leaf], from, n, level + 1)
  {
    hide CacheHolds;
    range, cache, level, hash := range0, cache0, 0, leaf;
    var index := n;
    while index % 2 == 1 && level < |range| && range[level].Some?
      invariant index == Shr(n, level)
      invariant Merging(range0, range, d, leaf, level, hash)
      invariant CacheHolds(cache, d + [leaf], from, n, level + 1)
      decreases index
    {
      MergeStep(range0, range, d, leaf, level, hash);
      hash := Node(range[level].value, hash);
      range := range[level := None];
      level, index := level + 1, index / 2;
      assert n + 1 < U64_LIMIT ==> level < 64 && Shl(index + 1, level) < U64_LIMIT by { MergedNodeFits(n, level); }
      if ShouldStoreNode(level, index, n + 1) {
        ShrMonotone(from, n, level);
        SetNodeHolds(cache, d + [leaf], from, n, level);
        cache := SetNode(cache, level, index, hash);
      }
    }
    if index % 2 == 1 && level < |range| { MergeStep(range0, range, d, leaf, level, hash); }
  }

  /** `should_store_node`. */
  predicate ShouldStoreNode(level: nat, index: nat, n: nat) {
    Shl(index + 1, level) <= n
  }

  class TreeBuilder {
    const storage: Store
    const fromSize: nat
    var size: nat
    var range: seq<Option<Hash>>
    var tileCache: Cache
    ghost var leaves: seq<Hash>

    ghost predicate Valid()
      reads this
    {
      && size == |leaves| && fromSize <= size
      && RangeOk(range, leaves)
      && CacheOk(tileCache, leaves, fromSize)
    }

    constructor (storage: Store, fromSize: nat, range: seq<Option<Hash>>, ghost stored: seq<Hash>)
      requires |stored| == fromSize && RangeOk(range, stored)
      ensures Valid() && leaves == stored
      ensures this.storage == storage && this.fromSize == fromSize
    {
      this.storage := storage;
      this.fromSize := fromSize;
      size := fromSize;
      this.range := range;
      tileCache := map[];
      leaves := stored;
    }

    /** `append`: merge the new leaf with the complete subtrees on its left. */
    method Append(leafHash: Hash)
      requires Valid()
      modifies this
      ensures Valid() && leaves == old(leaves) + [leafHash]
    {
      hide CacheHolds, RangeOk, SetNode;
      ghost var d := leaves;
      leaves := leaves + [leafHash];
      CacheStable(tileCache, d, leaves, fromSize);
      SetNodeHolds(tileCache, leaves, fromSize, size, 0);
      var merged, cache, level, hash := Merge(range, SetNode(tileCache, 0, size, leafHash), leafHash, size, d, fromSize);
      var padded := merged + seq(if |merged| <= level then level + 1 - |merged| else 0, _ => None);
      MergeEnds(range, merged, padded[level := Some(hash)], d, leafHash, level, hash);
      CacheAdvances(cache, leaves, fromSize, level);
      size := size + 1;
      range, tileCache := padded[level := Some(hash)], cache;
    }

    /** `compute_root`: chaining the compact range from the lowest level gives MTH. */
    method ComputeRoot() returns (r: Result<Hash, IntegrateError>)
      requires Valid()
      ensures r == Ok(Mth(leaves))
    {
      if size == 0 { return Ok(EmptyRoot); }
      var hash: Option<Hash> := None;
      for l := 0 to |range|
        invariant hash == Suffix(leaves, l)
      {
        SuffixStep(leaves, l);
        if range[l].Some? {
          hash := Some(if hash.None? then range[l].value else Node(range[l].value, hash.value));
        }
      }
      ShlZero(|range|);
      assert leaves[0..] == leaves;
      if hash.None? { return Err(EmptyRange); }
      return Ok(hash.value);
    }

    /** `finalize`. */
    method Finalize() returns (r: Result<Integration, IntegrateError>)
      requires Valid()
      ensures r.Ok? && r.value.newSize == |leaves| && r.value.root == Mth(leaves)
      ensures TilesSpec(storage, fromSize, leaves, r.value.tiles)
    {
      hide CacheHolds, RangeOk, Applied, NodesOf, Base;
      var root := ComputeRoot();
      var tiles: map<TileId, Tile> := map[];
      var todo := tileCache.Keys;
      while todo != {}
        invariant todo <= tileCache.Keys && tiles.Keys == tileCache.Keys - todo
        invariant forall key | key in tiles ::
                    Applied(Base(storage, key, fromSize), NodesOf(leaves, fromSize, key), tiles[key])
        decreases |todo|
      {
        var key :| key in todo;
        CachedNodes(tileCache, leaves, fromSize, key);
        assert |leaves| < U64_LIMIT ==> ShiftOk(key.level) by {
          CachedTilesGrow(tileCache, leaves, fromSize, key);
          GrowsShiftOk(key, fromSize, |leaves|);
        }
        var tile := ApplyTo(tileCache[key], Base(storage, key, fromSize));
        tiles := tiles[key := tile];
        todo := todo - {key};
      }
      forall key
        ensures key in tiles <==> Grows(key, fromSize, |leaves|)
      {
        CachedTilesGrow(tileCache, leaves, fromSize, key);
      }
      return Ok(Integration(size, root.value, tiles));
    }
  }

  /** `integrate`. */
  method Integrate(store: Store, from: nat, leafHashes: seq<Hash>) returns (r: Result<Integration, IntegrateError>)
    ensures leafHashes == [] ==>
              r == if from == 0 then Ok(Integration(0, EmptyRoot, map[])) else Err(RootUnavailable)
    ensures leafHashes != [] ==>
              && (r.Ok? <==> LeavesReadable(store, from))
              && (r.Err? ==> NamesMissing(store, from, r.error))
              && (r.Ok? ==>
                    var d := StoredLeaves(store, from) + leafHashes;
                    && r.value.newSize == |d| && r.value.root == Mth(d)
                    && TilesSpec(store, from, d, r.value.tiles))
  {
    if leafHashes == [] {
      return if from == 0 then Ok(Integration(0, EmptyRoot, map[])) else Err(RootUnavailable);
    }
    var range: seq<Option<Hash>> := [];
    if from != 0 {
      var loaded := LoadCompactRange(store, from);
      if loaded.Err? { return Err(loaded.error); }
      range := loaded.value;
    }
    ghost var stored := StoredLeaves(store, from);
    var builder := new TreeBuilder(store, from, range, stored);
    for i := 0 to |leafHashes|
      invariant builder.Valid() && builder.leaves == stored + leafHashes[..i]
    {
      builder.Append(leafHashes[i]);
    }
    assert leafHashes[..|leafHashes|] == leafHashes;
    r := builder.Finalize();
  }
}

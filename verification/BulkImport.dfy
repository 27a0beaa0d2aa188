/** Resumable bulk import (src/import.rs:91-204, src/storage/opendal.rs:173-189).

    `AllObjects` names every tile and entry bundle of an uninterrupted import.
    The method `BulkImport` starts from arbitrary storage and may be cut short
    after any upload, in any upload order; its contract says what it leaves behind. */
module BulkImport {
  import opened Bits
  import opened Rfc6962
  import opened Tiles
  import opened Integrate
  import opened TileInvariant
  import opened Sequencer
  import opened Wrappers
  import opened Import
  import L = Log

  datatype Name = TileName(path: TilePath) | BundleName(bundle: L.BundlePath)
  datatype Object = TileObject(tile: Tile) | BundleObject(entries: seq<Entry>)
  type Objects = map<Name, Object>

  datatype Manifest = Manifest(input: seq<Entry>, chunkSize: nat)
  datatype Summary = Summary(size: nat, root: Hash, written: nat, verified: nat)
  datatype ImportError =
    | BadConfig | BadInput | LogNotEmpty | CheckpointPublished | NoManifest
    | Clash | InputChanged | BadEntry | Interrupted

  /** The tiles among the stored objects. */
  function TilesIn(objects: Objects): Store {
    map name | name in objects && name.TileName? && objects[name].TileObject? :: name.path := objects[name].tile
  }

  /** Tiles are stored under tile paths and bundles under bundle paths. */
  ghost predicate WellTyped(objects: Objects) {
    forall name | name in objects :: name.TileName? <==> objects[name].TileObject?
  }

  ghost predicate Extends(a: Objects, b: Objects) {
    forall name | name in a :: name in b && b[name] == a[name]
  }

  /** Nothing is overwritten, and only objects of `all` are added. */
  ghost predicate Between(before: Objects, now: Objects, all: Objects) {
    && Extends(before, now)
    && forall name | name in now && name !in before :: name in all && now[name] == all[name]
  }

  /** `write_import_object` accepts each of these objects. */
  ghost predicate CanPlace(stored: Objects, todo: Objects, resume: bool) {
    forall name | name in todo && name in stored :: resume && stored[name] == todo[name]
  }

  // ---- the objects of an import ----

  function TileObjects(tiles: map<TileId, Tile>, n: nat): Objects {
    map key | key in tiles :: TileName(PathAt(key.level, key.index, n)) := TileObject(tiles[key])
  }

  /** The bundles [lo, hi) at size n. */
  function BundlesBetween(entries: seq<Entry>, lo: nat, hi: nat, n: nat): Objects
    requires n <= |entries|
  {
    map index: nat | lo <= index < hi && 256 * index < n ::
      BundleName(L.BundleAt(index, n)) := BundleObject(entries[256 * index..Min(256 * index + 256, n)])
  }

  /** The bundles that start in [from, n). */
  function BundleObjects(entries: seq<Entry>, from: nat, n: nat): Objects
    requires n <= |entries|
  {
    BundlesBetween(entries, (from + 255) / 256, (n + 255) / 256, n)
  }

  ghost function ChunkObjects(entries: seq<Entry>, c: nat, k: nat): Objects {
    var from, to := SizeAfter(|entries|, c, k), SizeAfter(|entries|, c, k + 1);
    var d := Leaves(entries);
    TileObjects(NewTiles(Canon(d, c, k), from, d[..to]), to) + BundleObjects(entries, from, to)
  }

  ghost function ObjectsUpTo(entries: seq<Entry>, c: nat, k: nat): Objects {
    if k == 0 then map[] else ObjectsUpTo(entries, c, k - 1) + ChunkObjects(entries, c, k - 1)
  }

  function Chunks(n: nat, c: nat): nat
    requires c > 0
  {
    (n + c - 1) / c
  }

  /** Everything that an uninterrupted import of these entries stores. */
  ghost function AllObjects(entries: seq<Entry>, c: nat): Objects
    requires c > 0
  {
    ObjectsUpTo(entries, c, Chunks(|entries|, c))
  }

  lemma MulMonotone(a: nat, b: nat, c: nat)
    requires a <= b
    ensures a * c <= b * c
  {
  }

  /** All k chunks have entries. */
  ghost predicate Started(n: nat, c: nat, k: nat) { k > 0 ==> (k - 1) * c < n }

  lemma ChunksExact(n: nat, c: nat, k: nat)
    requires c > 0 && n <= k * c && Started(n, c, k)
    ensures Chunks(n, c) == k
  {
    var q := Chunks(n, c);
    assert q * c <= n + c - 1 < q * c + c;
    assert (q + 1) * c == q * c + c;
    if k > 0 { assert (k - 1) * c == k * c - c; }
    if q < k { MulMonotone(q, k - 1, c); }
    assert (k + 1) * c == k * c + c;
    if q > k { MulMonotone(k + 1, q, c); }
  }

  /** Chunks start at bundle boundaries. */
  lemma ChunkAligned(c: nat, k: nat)
    requires c % 256 == 0
    ensures (k * c) % 256 == 0
  {
    var q := c / 256;
    assert k * c == 256 * (k * q);
  }

  // ---- tiles among objects ----

  lemma TilesInAt(objects: Objects, p: TilePath)
    ensures p in TilesIn(objects) <==> TileName(p) in objects && objects[TileName(p)].TileObject?
    ensures p in TilesIn(objects) ==> TilesIn(objects)[p] == objects[TileName(p)].tile
  {
  }

  lemma TileObjectsAt(tiles: map<TileId, Tile>, n: nat, p: TilePath)
    ensures TileName(p) in TileObjects(tiles, n)
            <==> TileId(p.level, p.index) in tiles && p == PathAt(p.level, p.index, n)
    ensures TileName(p) in TileObjects(tiles, n)
            ==> TileObjects(tiles, n)[TileName(p)] == TileObject(tiles[TileId(p.level, p.index)])
  {
  }

  lemma WriteAllAt(store: Store, tiles: map<TileId, Tile>, n: nat, p: TilePath)
    ensures p in WriteAll(store, tiles, n)
            <==> p in store || (TileId(p.level, p.index) in tiles && p == PathAt(p.level, p.index, n))
    ensures p in WriteAll(store, tiles, n) ==>
              WriteAll(store, tiles, n)[p]
              == if TileId(p.level, p.index) in tiles && p == PathAt(p.level, p.index, n)
                 then tiles[TileId(p.level, p.index)] else store[p]
  {
  }

  /** Uploading a chunk's objects writes its tiles. */
  lemma TilesOfUnion(objects: Objects, tiles: map<TileId, Tile>, bundles: Objects, n: nat)
    requires forall name | name in bundles :: name.BundleName?
    ensures TilesIn(objects + (TileObjects(tiles, n) + bundles)) == WriteAll(TilesIn(objects), tiles, n)
  {
    hide PartialTileSize, TilesIn, WriteAll, TileObjects;
    var added := TileObjects(tiles, n) + bundles;
    forall p: TilePath
      ensures p in TilesIn(objects + added) <==> p in WriteAll(TilesIn(objects), tiles, n)
      ensures p in TilesIn(objects + added) ==> TilesIn(objects + added)[p] == WriteAll(TilesIn(objects), tiles, n)[p]
    {
      TilesInAt(objects + added, p);
      TilesInAt(objects, p);
      TileObjectsAt(tiles, n, p);
      WriteAllAt(TilesIn(objects), tiles, n, p);
    }
  }

  /** The tiles among the import's objects are those of `Canon`. */
  lemma {:induction false} ObjectsTiles(entries: seq<Entry>, c: nat, k: nat)
    ensures TilesIn(ObjectsUpTo(entries, c, k)) == Canon(Leaves(entries), c, k)
    decreases k
  {
    hide TilesIn, WriteAll, TileObjects, NewTiles, PartialTileSize, BundleObjects, SizeAfter;
    if k == 0 {
      forall p: TilePath ensures p !in TilesIn(map[]) { TilesInAt(map[], p); }
    } else {
      hide Canon;
      var d := Leaves(entries);
      ObjectsTiles(entries, c, k - 1);
      SizesGrow(|entries|, c, k - 1);
      var from, to := SizeAfter(|d|, c, k - 1), SizeAfter(|d|, c, k);
      BundlesOnly(entries, from, to);
      CanonUnfold(d, c, k - 1);
      TilesOfUnion(ObjectsUpTo(entries, c, k - 1), NewTiles(Canon(d, c, k - 1), from, d[..to]),
                   BundleObjects(entries, from, to), to);
    }
  }

  lemma BundlesOnly(entries: seq<Entry>, from: nat, n: nat)
    requires n <= |entries|
    ensures forall name | name in BundleObjects(entries, from, n) ::
              && name.BundleName? && BundleObjects(entries, from, n)[name].BundleObject?
              && from <= 256 * name.bundle.index < n
  {
  }

  lemma {:induction false} ObjectsTyped(entries: seq<Entry>, c: nat, k: nat)
    ensures WellTyped(ObjectsUpTo(entries, c, k))
    ensures forall name | name in ObjectsUpTo(entries, c, k) && name.BundleName? ::
              256 * name.bundle.index < SizeAfter(|entries|, c, k)
    decreases k
  {
    hide ChunkObjects, SizeAfter;
    if k > 0 {
      ObjectsTyped(entries, c, k - 1);
      SizesGrow(|entries|, c, k - 1);
      ChunkTyped(entries, c, k - 1);
    }
  }

  lemma ChunkTyped(entries: seq<Entry>, c: nat, k: nat)
    ensures WellTyped(ChunkObjects(entries, c, k))
    ensures forall name | name in ChunkObjects(entries, c, k) && name.BundleName? ::
              SizeAfter(|entries|, c, k) <= 256 * name.bundle.index < SizeAfter(|entries|, c, k + 1)
  {
    hide Canon, NewTiles, PartialTileSize, BundleObjects;
    BundlesOnly(entries, SizeAfter(|entries|, c, k), SizeAfter(|entries|, c, k + 1));
  }

  /** No chunk writes under a name of an earlier chunk: an uninterrupted import
      never meets its own objects. */
  lemma ChunkNamesNew(entries: seq<Entry>, c: nat, k: nat)
    requires c % 256 == 0
    ensures ObjectsUpTo(entries, c, k).Keys !! ChunkObjects(entries, c, k).Keys
  {
    hide Canon, ObjectsUpTo, PartialTileSize, NewTiles, ChunkObjects;
    ObjectsTyped(entries, c, k);
    ChunkTyped(entries, c, k);
    forall name | name in ChunkObjects(entries, c, k)
      ensures name !in ObjectsUpTo(entries, c, k)
    {
      if name.TileName? { ChunkTileNew(entries, c, k, name.path); }
    }
  }

  lemma ChunkTileNew(entries: seq<Entry>, c: nat, k: nat, p: TilePath)
    requires TileName(p) in ChunkObjects(entries, c, k)
    ensures TileName(p) !in ObjectsUpTo(entries, c, k)
  {
    hide Canon, ObjectsUpTo, PartialTileSize, NewTiles, TileObjects, BundleObjects, TilesIn;
    var d := Leaves(entries);
    var from, to := SizeAfter(|d|, c, k), SizeAfter(|d|, c, k + 1);
    var tiles := NewTiles(Canon(d, c, k), from, d[..to]);
    BundlesOnly(entries, from, to);
    NewTilesSpec(Canon(d, c, k), from, d[..to]);
    TileObjectsAt(tiles, to, p);
    ChunkPathsNew(d, c, k, TileId(p.level, p.index));
    ObjectsTiles(entries, c, k);
    ObjectsTyped(entries, c, k);
    TilesInAt(ObjectsUpTo(entries, c, k), p);
  }

  lemma {:induction false} ObjectsPrefix(entries: seq<Entry>, c: nat, j: nat, k: nat)
    requires c % 256 == 0 && j <= k
    ensures Extends(ObjectsUpTo(entries, c, j), ObjectsUpTo(entries, c, k))
    decreases k
  {
    hide ChunkObjects;
    if j < k {
      ObjectsPrefix(entries, c, j, k - 1);
      ChunkNamesNew(entries, c, k - 1);
    }
  }

  /** A chunk's objects are among those of more chunks. */
  lemma ChunkAmong(entries: seq<Entry>, c: nat, k: nat, n: nat)
    requires c % 256 == 0 && k < n
    ensures Extends(ChunkObjects(entries, c, k), ObjectsUpTo(entries, c, n))
  {
    hide ChunkObjects;
    ObjectsPrefix(entries, c, k + 1, n);
  }

  /** Storage that already holds the first k chunks: whatever else it holds,
      integration sees the leaves of those chunks and computes the canonical tiles. */
  lemma IntegrationCanonical(objects: Objects, entries: seq<Entry>, c: nat, k: nat)
    requires Extends(ObjectsUpTo(entries, c, k), objects)
    ensures var store, from, d := TilesIn(objects), SizeAfter(|entries|, c, k), Leaves(entries);
            && from <= |d|
            && LeavesReadable(store, from)
            && StoredLeaves(store, from) == d[..from]
            && Covers(Canon(d, c, k), from)
            && Agrees(Canon(d, c, k), store)
  {
    hide Canon, ObjectsUpTo, TilesIn, SizeAfter;
    var store, from, d := TilesIn(objects), SizeAfter(|entries|, c, k), Leaves(entries);
    SizesGrow(|entries|, c, k);
    ObjectsTiles(entries, c, k);
    CanonCorrect(d, c, k);
    var canon := Canon(d, c, k);
    forall p | p in canon ensures p in store && store[p] == canon[p] {
      TilesInAt(ObjectsUpTo(entries, c, k), p);
      TilesInAt(objects, p);
    }
    StoredLeavesAuthentic(canon, d, from);
    LeavesDetermined(canon, store, from);
  }

  lemma LeavesDetermined(store: Store, store': Store, n: nat)
    requires Agrees(store, store') && LeavesReadable(store, n)
    ensures LeavesReadable(store', n) && StoredLeaves(store', n) == StoredLeaves(store, n)
  {
    hide PartialTileSize;
    forall i: nat | i < n
      ensures LeafReadable(store', i, n) && StoredLeaf(store', i, n) == StoredLeaf(store, i, n)
    {
      assert LeafReadable(store, i, n);
    }
  }

  // ---- the importer ----

  predicate GoodConfig(c: nat, concurrency: nat) {
    0 < c <= 65536 && c % 256 == 0 && 0 < concurrency <= 256
  }

  const MAX_ENTRY_SIZE: nat := 0xFFFF

  /** `fingerprint_entry` accepts entries of these sizes. */
  predicate GoodEntry(entry: Entry) { 0 < |entry| <= MAX_ENTRY_SIZE }

  predicate GoodEntries(entries: seq<Entry>) { forall i | 0 <= i < |entries| :: GoodEntry(entries[i]) }

  /** The preflight scan of the input and the checks before the first chunk. */
  function StartError(input: seq<Entry>, c: nat, concurrency: nat, resume: bool, committed: Option<(nat, Hash)>,
                      checkpoint: bool, manifest: Option<Manifest>): Option<ImportError>
  {
    if input == [] || |input| > I64_MAX || !GoodEntries(input) then Some(BadInput)
    else if !GoodConfig(c, concurrency) then Some(BadConfig)
    else if committed.Some? then Some(LogNotEmpty)
    else if checkpoint then Some(CheckpointPublished)
    else if resume && manifest.None? then Some(NoManifest)
    else if manifest.Some? && !(resume && manifest.value == Manifest(input, c)) then Some(Clash)
    else None
  }

  /** The exact condition of each error before the first chunk, in the order of the checks. */
  lemma StartErrorExact(input: seq<Entry>, c: nat, concurrency: nat, resume: bool, committed: Option<(nat, Hash)>,
                        checkpoint: bool, manifest: Option<Manifest>)
    ensures var e := StartError(input, c, concurrency, resume, committed, checkpoint, manifest);
            var badInput := |input| == 0 || |input| > 0x7FFF_FFFF_FFFF_FFFF
                            || exists i :: 0 <= i < |input| && (|input[i]| == 0 || |input[i]| > 65535);
            var badConfig := c == 0 || c > 65536 || c % 256 != 0 || concurrency == 0 || concurrency > 256;
            && (e == Some(BadInput) <==> badInput)
            && (e == Some(BadConfig) <==> !badInput && badConfig)
            && (e == Some(LogNotEmpty) <==> !badInput && !badConfig && committed.Some?)
            && (e == Some(CheckpointPublished) <==> !badInput && !badConfig && committed.None? && checkpoint)
            && (e == Some(NoManifest)
                <==> !badInput && !badConfig && committed.None? && !checkpoint && resume && manifest.None?)
            && (e == Some(Clash)
                <==> !badInput && !badConfig && committed.None? && !checkpoint && manifest.Some?
                     && !(resume && manifest.value.input == input && manifest.value.chunkSize == c))
            && (e.None?
                <==> !badInput && !badConfig && committed.None? && !checkpoint
                     && if resume then manifest == Some(Manifest(input, c)) else manifest.None?)
  {
    if !GoodEntries(input) {
      var i :| 0 <= i < |input| && !GoodEntry(input[i]);
      assert |input[i]| == 0 || |input[i]| > 65535;
    }
    if exists i :: 0 <= i < |input| && (|input[i]| == 0 || |input[i]| > 65535) {
      var i :| 0 <= i < |input| && (|input[i]| == 0 || |input[i]| > 65535);
      assert !GoodEntry(input[i]);
    }
  }

  // ---- what the second pass leads to ----

  /** The entries of chunk k. */
  function Chunk(entries: seq<Entry>, c: nat, k: nat): seq<Entry> {
    SizesGrow(|entries|, c, k);
    entries[SizeAfter(|entries|, c, k)..SizeAfter(|entries|, c, k + 1)]
  }

  /** From chunk k on: the number of chunks that are uploaded if nothing clashes, and the
      error at which the pass then ends, if any. */
  function PlanFrom(input: seq<Entry>, entries: seq<Entry>, c: nat, k: nat): (plan: (nat, Option<ImportError>))
    requires c > 0
    ensures plan.0 >= k
    decreases |entries| - SizeAfter(|entries|, c, k)
  {
    if SizeAfter(|entries|, c, k) == |entries| then (k, if entries == input then None else Some(InputChanged))
    else
      NextChunk(|entries|, c, k);
      if SizeAfter(|entries|, c, k + 1) > |input| then (k, Some(InputChanged))
      else if !GoodEntries(Chunk(entries, c, k)) then (k, Some(BadEntry))
      else PlanFrom(input, entries, c, k + 1)
  }

  function Plan(input: seq<Entry>, entries: seq<Entry>, c: nat): (nat, Option<ImportError>)
    requires c > 0
  {
    PlanFrom(input, entries, c, 0)
  }

  /** The objects that a pass uploads if nothing clashes. */
  ghost function Planned(input: seq<Entry>, entries: seq<Entry>, c: nat): Objects
    requires c > 0
  {
    ObjectsUpTo(entries, c, Plan(input, entries, c).0)
  }

  /** A pass over well-sized entries, not more than the preflight has seen, uploads all
      their objects, and ends well exactly if they are the input. */
  lemma {:induction false} PlanOfGood(input: seq<Entry>, entries: seq<Entry>, c: nat, k: nat)
    requires c > 0 && |entries| <= |input| && GoodEntries(entries) && Started(|entries|, c, k)
    ensures PlanFrom(input, entries, c, k)
            == (Chunks(|entries|, c), if entries == input then None else Some(InputChanged))
    decreases |entries| - SizeAfter(|entries|, c, k)
  {
    if SizeAfter(|entries|, c, k) == |entries| {
      ChunksExact(|entries|, c, k);
    } else {
      NextChunk(|entries|, c, k);
      PlanOfGood(input, entries, c, k + 1);
    }
  }

  lemma PlannedAll(input: seq<Entry>, entries: seq<Entry>, c: nat)
    requires c > 0 && |entries| <= |input| && GoodEntries(entries)
    ensures Planned(input, entries, c) == AllObjects(entries, c)
    ensures Plan(input, entries, c).1 == if entries == input then None else Some(InputChanged)
  {
    hide ObjectsUpTo, Chunks;
    PlanOfGood(input, entries, c, 0);
  }

  /** Uploads, the manifest and, at the end of a good pass, the commit. */
  ghost function Needed(input: seq<Entry>, entries: seq<Entry>, c: nat): nat
    requires c > 0
  {
    |Planned(input, entries, c)| + if Plan(input, entries, c).1.None? then 2 else 1
  }

  /** How the uploads of one chunk end. */
  datatype Uploads = Done(written: nat, verified: nat, budget: nat) | Refused | Cut

  /** Between two uploads: what is done is stored, and the rest is untouched. */
  ghost predicate Uploading(before: Objects, now: Objects, todo: Objects, left: Objects, resume: bool) {
    && Extends(left, todo)
    && now == before + (todo - left.Keys)
    && CanPlace(before, todo - left.Keys, resume)
  }

  lemma UploadingStart(before: Objects, todo: Objects, resume: bool)
    ensures Uploading(before, before, todo, todo, resume)
  {
  }

  lemma UploadingBetween(before: Objects, now: Objects, todo: Objects, left: Objects, resume: bool)
    requires Uploading(before, now, todo, left, resume)
    ensures Between(before, now, todo)
    ensures left == map[] ==> CanPlace(before, todo, resume) && now == before + todo
  {
  }

  /** One more upload; it is accepted exactly when the name was free or, on resume,
      held the same object before the chunk. */
  lemma UploadStep(before: Objects, now: Objects, todo: Objects, left: Objects, resume: bool, name: Name)
    requires Uploading(before, now, todo, left, resume) && name in left
    ensures CanPlace(now, map[name := left[name]], resume) ==>
              Uploading(before, now[name := left[name]], todo, left - {name}, resume)
    ensures !CanPlace(now, map[name := left[name]], resume) ==> !CanPlace(before, todo, resume)
    ensures |left - {name}| == |left| - 1
    ensures |now[name := left[name]]| == |now| + if name in now then 0 else 1
  {
    assert Extends(left - {name}, todo) && left[name] == todo[name];
    DoneGrows(todo, left, name);
    PlaceOne(before, todo, todo - left.Keys, resume, name);
    UploadCounts(now, left, name);
  }

  lemma DoneGrows(todo: Objects, left: Objects, name: Name)
    requires name in left && name in todo && left[name] == todo[name]
    ensures todo - (left - {name}).Keys == (todo - left.Keys)[name := left[name]]
  {
  }

  lemma UploadCounts(now: Objects, left: Objects, name: Name)
    requires name in left
    ensures |left - {name}| == |left| - 1
    ensures |now[name := left[name]]| == |now| + if name in now then 0 else 1
  {
  }

  lemma PlaceOne(before: Objects, todo: Objects, done: Objects, resume: bool, name: Name)
    requires name in todo && name !in done && CanPlace(before, done, resume)
    ensures (before + done)[name := todo[name]] == before + done[name := todo[name]]
    ensures CanPlace(before + done, map[name := todo[name]], resume) ==>
              CanPlace(before, done[name := todo[name]], resume)
    ensures !CanPlace(before + done, map[name := todo[name]], resume) ==> !CanPlace(before, todo, resume)
  {
    assert name in map[name := todo[name]];
  }

  /** The first k chunks have been uploaded. */
  ghost predicate ImportedTo(before: Objects, now: Objects, entries: seq<Entry>, c: nat, resume: bool, k: nat) {
    && now == before + ObjectsUpTo(entries, c, k)
    && CanPlace(before, ObjectsUpTo(entries, c, k), resume)
  }

  lemma ChunkDone(before: Objects, now: Objects, entries: seq<Entry>, c: nat, resume: bool, k: nat)
    requires c % 256 == 0 && ImportedTo(before, now, entries, c, resume, k)
    requires CanPlace(now, ChunkObjects(entries, c, k), resume)
    ensures ImportedTo(before, now + ChunkObjects(entries, c, k), entries, c, resume, k + 1)
    ensures |ObjectsUpTo(entries, c, k + 1)| == |ObjectsUpTo(entries, c, k)| + |ChunkObjects(entries, c, k)|
  {
    ChunkNamesNew(entries, c, k);
    var a, b := ObjectsUpTo(entries, c, k), ChunkObjects(entries, c, k);
    assert ObjectsUpTo(entries, c, k + 1) == a + b;
    hide ObjectsUpTo, ChunkObjects;
    UnionPlaced(before, a, b, resume);
  }

  lemma UnionPlaced(before: Objects, a: Objects, b: Objects, resume: bool)
    requires a.Keys !! b.Keys && CanPlace(before, a, resume) && CanPlace(before + a, b, resume)
    ensures (before + a) + b == before + (a + b)
    ensures CanPlace(before, a + b, resume)
    ensures |a + b| == |a| + |b|
  {
    UnionSize(a, b);
    hide CanPlace;
    UnionAssociative(before, a, b);
    UnionCanPlace(before, a, b, resume);
  }

  lemma UnionSize(a: Objects, b: Objects)
    requires a.Keys !! b.Keys
    ensures |a + b| == |a| + |b|
  {
  }

  lemma UnionCanPlace(before: Objects, a: Objects, b: Objects, resume: bool)
    requires a.Keys !! b.Keys && CanPlace(before, a, resume) && CanPlace(before + a, b, resume)
    ensures CanPlace(before, a + b, resume)
  {
  }

  /** A refused upload is one that a pass of more chunks could never place. */
  lemma ChunkRefused(before: Objects, now: Objects, entries: seq<Entry>, c: nat, resume: bool, k: nat, n: nat)
    requires c % 256 == 0 && k < n && ImportedTo(before, now, entries, c, resume, k)
    requires !CanPlace(now, ChunkObjects(entries, c, k), resume)
    ensures !CanPlace(before, ObjectsUpTo(entries, c, n), resume)
  {
    ChunkNamesNew(entries, c, k);
    ChunkAmong(entries, c, k, n);
    hide ObjectsUpTo, ChunkObjects;
    var name :| name in ChunkObjects(entries, c, k) && name in now
                && !(resume && now[name] == ChunkObjects(entries, c, k)[name]);
    assert name in before && before[name] == now[name];
    assert name in ObjectsUpTo(entries, c, n);
  }

  /** Wherever the import stops, it has only added objects of its own. */
  lemma ChunkCut(before: Objects, now: Objects, now': Objects, entries: seq<Entry>, c: nat, resume: bool, k: nat, n: nat)
    requires c % 256 == 0 && k < n && ImportedTo(before, now, entries, c, resume, k)
    requires Between(now, now', ChunkObjects(entries, c, k))
    ensures Between(before, now', ObjectsUpTo(entries, c, n))
    ensures |ObjectsUpTo(entries, c, k)| + |ChunkObjects(entries, c, k)| <= |ObjectsUpTo(entries, c, n)|
  {
    hide *;
    ChunkAmong(entries, c, k, n);
    ObjectsPrefix(entries, c, k, n);
    ImportedBetween(before, now, entries, c, resume, k);
    ObjectsCount(entries, c, k, n);
    BetweenMore(before, now, now', ObjectsUpTo(entries, c, k), ChunkObjects(entries, c, k), ObjectsUpTo(entries, c, n));
  }

  lemma BetweenMore(before: Objects, now: Objects, now': Objects, a: Objects, b: Objects, all: Objects)
    requires Between(before, now, a) && Between(now, now', b) && Extends(a, all) && Extends(b, all)
    ensures Between(before, now', all)
  {
  }

  lemma ObjectsCount(entries: seq<Entry>, c: nat, k: nat, n: nat)
    requires c % 256 == 0 && k < n
    ensures |ObjectsUpTo(entries, c, k)| + |ChunkObjects(entries, c, k)| <= |ObjectsUpTo(entries, c, n)|
  {
    ChunkNamesNew(entries, c, k);
    ObjectsPrefix(entries, c, k + 1, n);
    UpToUnfold(entries, c, k);
    hide ObjectsUpTo, ChunkObjects;
    UnionSize(ObjectsUpTo(entries, c, k), ChunkObjects(entries, c, k));
    ExtendsSize(ObjectsUpTo(entries, c, k + 1), ObjectsUpTo(entries, c, n));
  }

  lemma ExtendsSize(a: Objects, b: Objects)
    requires Extends(a, b)
    ensures |a| <= |b|
  {
    SubsetSize(a.Keys, b.Keys);
  }

  lemma {:induction false} SubsetSize(a: set<Name>, b: set<Name>)
    requires a <= b
    ensures |a| <= |b|
  {
    assert b == a + (b - a);
  }

  lemma ImportedBetween(before: Objects, now: Objects, entries: seq<Entry>, c: nat, resume: bool, k: nat)
    requires ImportedTo(before, now, entries, c, resume, k)
    ensures Between(before, now, ObjectsUpTo(entries, c, k))
    ensures Extends(ObjectsUpTo(entries, c, k), now)
  {
  }

  /** The next chunk ends where the next size is, and starts at a bundle boundary. */
  lemma NextChunk(n: nat, c: nat, k: nat)
    requires c > 0 && SizeAfter(n, c, k) < n
    ensures SizeAfter(n, c, k) < SizeAfter(n, c, k + 1) && Started(n, c, k + 1)
    ensures SizeAfter(n, c, k + 1) == Min(SizeAfter(n, c, k) + c, n)
  {
  }

  lemma ChunkStart(n: nat, c: nat, k: nat)
    requires SizeAfter(n, c, k) < n
    ensures k * c < n
  {
  }

  /** Once the entries are used up, the whole import is in place. */
  lemma ImportedAll(before: Objects, now: Objects, entries: seq<Entry>, c: nat, resume: bool, k: nat)
    requires c > 0 && SizeAfter(|entries|, c, k) == |entries| && Started(|entries|, c, k)
    requires ImportedTo(before, now, entries, c, resume, k)
    ensures ObjectsUpTo(entries, c, k) == AllObjects(entries, c)
    ensures now == before + AllObjects(entries, c) && CanPlace(before, AllObjects(entries, c), resume)
  {
    ChunksExact(|entries|, c, k);
    hide ObjectsUpTo, Chunks;
  }

  /** The root over the first n entries. */
  ghost function MthUpTo(entries: seq<Entry>, n: nat): Hash
    requires n <= |entries|
  {
    Mth(Leaves(entries)[..n])
  }

  lemma WholeRoot(entries: seq<Entry>)
    ensures MthUpTo(entries, |entries|) == Mth(Leaves(entries))
  {
    assert Leaves(entries)[..|entries|] == Leaves(entries);
  }

  /** What a finished import has done to the objects that were stored before. */
  ghost predicate Complete(before: Objects, now: Objects, input: seq<Entry>, c: nat, resume: bool, summary: Summary)
    requires c > 0
  {
    && CanPlace(before, AllObjects(input, c), resume)
    && now == before + AllObjects(input, c)
    && summary.size == |input| && summary.root == Mth(Leaves(input))
    && summary.written == |now| - |before|
    && summary.written + summary.verified == |AllObjects(input, c)|
  }

  lemma ImportComplete(before: Objects, now: Objects, input: seq<Entry>, c: nat, resume: bool, k: nat, written: nat,
                       verified: nat)
    requires c > 0 && SizeAfter(|input|, c, k) == |input| && Started(|input|, c, k)
    requires ImportedTo(before, now, input, c, resume, k)
    requires written == |now| - |before| && written + verified == |ObjectsUpTo(input, c, k)|
    ensures Complete(before, now, input, c, resume, Summary(|input|, MthUpTo(input, |input|), written, verified))
  {
    hide ObjectsUpTo, AllObjects, CanPlace, ImportedTo, SizeAfter, Started, Chunks, MthUpTo, Between, Extends, Leaves,
      Mth;
    ImportedAll(before, now, input, c, resume, k);
    WholeRoot(input);
  }

  /** Integration of one chunk, and the objects that it has to upload. */
  method ChunkUploads(objects: Objects, size: nat, chunk: seq<Entry>, ghost entries: seq<Entry>, ghost c: nat,
                      ghost k: nat)
    returns (root: Hash, todo: Objects)
    requires c > 0 && c % 256 == 0 && k * c < |entries|
    requires size == SizeAfter(|entries|, c, k) && size + |chunk| == SizeAfter(|entries|, c, k + 1)
    requires size + |chunk| <= |entries| && chunk == entries[size..size + |chunk|] && chunk != []
    requires Extends(ObjectsUpTo(entries, c, k), objects)
    ensures todo == ChunkObjects(entries, c, k)
    ensures root == Mth(Leaves(entries)[..size + |chunk|])
  {
    hide Canon, ObjectsUpTo, NewTiles, TilesIn, BundleObjects, TileObjects, TilesSpec, Covers, Agrees, LeavesReadable,
      StoredLeaves, Mth, Extends;
    IntegrationCanonical(objects, entries, c, k);
    var integrated := Integrate.Integrate(TilesIn(objects), size, Leaves(chunk));
    ghost var d := Leaves(entries);
    assert d[..size] + Leaves(chunk) == d[..size + |chunk|];
    NewTilesDetermined(Canon(d, c, k), TilesIn(objects), size, d[..size + |chunk|], integrated.value.tiles);
    ChunkAligned(c, k);
    assert size == k * c;
    var tiles := TileUploads(integrated.value.tiles, size + |chunk|);
    var bundles := BundleUploads(size, chunk, entries);
    return integrated.value.root, tiles + bundles;
  }

  method TileUploads(tiles: map<TileId, Tile>, n: nat) returns (todo: Objects)
    ensures todo == TileObjects(tiles, n)
  {
    hide PartialTileSize, TileObjects, Splits;
    todo := map[];
    var left := tiles;
    SplitsStart(tiles);
    ghost var done: map<TileId, Tile> := map[];
    NoTileObjects(n);
    while left != map[]
      invariant Splits(tiles, done, left)
      invariant todo == TileObjects(done, n)
      decreases |left|
    {
      var key :| key in left;
      MovePair(tiles, done, left, key);
      TileObjectsAdd(done, n, key, left[key]);
      todo := todo[TileName(PathAt(key.level, key.index, n)) := TileObject(left[key])];
      done := done[key := left[key]];
      left := left - {key};
    }
    SplitsEnd(tiles, done, left);
  }

  lemma NoTileObjects(n: nat)
    ensures TileObjects(map[], n) == map[]
  {
  }

  lemma TileObjectsAdd(tiles: map<TileId, Tile>, n: nat, key: TileId, tile: Tile)
    requires key !in tiles
    ensures TileObjects(tiles[key := tile], n)
            == TileObjects(tiles, n)[TileName(PathAt(key.level, key.index, n)) := TileObject(tile)]
  {
  }

  /** The bundles of one chunk, 256 entries each. */
  method BundleUploads(size: nat, chunk: seq<Entry>, ghost entries: seq<Entry>) returns (todo: Objects)
    requires size % 256 == 0 && size + |chunk| <= |entries| && chunk == entries[size..size + |chunk|]
    ensures todo == BundleObjects(entries, size, size + |chunk|)
  {
    hide PartialTileSize, BundlesBetween;
    todo := map[];
    var n, offset := size + |chunk|, 0;
    BundlesEmpty(entries, size / 256, n);
    while 256 * offset < |chunk|
      invariant 256 * offset < |chunk| + 256
      invariant todo == BundlesBetween(entries, size / 256, size / 256 + offset, n)
      decreases |chunk| - 256 * offset
    {
      var data := chunk[256 * offset..Min(256 * offset + 256, |chunk|)];
      var index := size / 256 + offset;
      assert 256 * index == size + 256 * offset;
      SliceOfSlice(entries, size, n, 256 * offset, Min(256 * offset + 256, |chunk|));
      BundlesAdd(entries, size / 256, index, n);
      todo := todo[BundleName(L.BundleAt(index, n)) := BundleObject(data)];
      offset := offset + 1;
    }
    assert size / 256 == (size + 255) / 256 && size / 256 + offset == (n + 255) / 256;
  }

  lemma SliceOfSlice(s: seq<Entry>, a: nat, b: nat, c: nat, d: nat)
    requires a <= b <= |s| && c <= d <= b - a
    ensures s[a..b][c..d] == s[a + c..a + d]
  {
    var t, u := s[a..b], s[a + c..a + d];
    forall i | 0 <= i < d - c ensures t[c..d][i] == u[i] { assert t[c..d][i] == t[c + i] == s[a + c + i]; }
  }

  lemma BundlesEmpty(entries: seq<Entry>, lo: nat, n: nat)
    requires n <= |entries|
    ensures BundlesBetween(entries, lo, lo, n) == map[]
  {
  }

  lemma BundlesAdd(entries: seq<Entry>, lo: nat, hi: nat, n: nat)
    requires lo <= hi && 256 * hi < n <= |entries|
    ensures BundlesBetween(entries, lo, hi + 1, n)
            == BundlesBetween(entries, lo, hi, n)
               [BundleName(L.BundleAt(hi, n)) := BundleObject(entries[256 * hi..Min(256 * hi + 256, n)])]
  {
    hide PartialTileSize, BundlesBetween, Min;
    forall name
      ensures name in BundlesBetween(entries, lo, hi + 1, n)
              <==> name in BundlesBetween(entries, lo, hi, n) || name == BundleName(L.BundleAt(hi, n))
      ensures name in BundlesBetween(entries, lo, hi + 1, n) && name != BundleName(L.BundleAt(hi, n))
              ==> BundlesBetween(entries, lo, hi + 1, n)[name] == BundlesBetween(entries, lo, hi, n)[name]
    {
      BundlesBetweenAt(entries, lo, hi, n, name);
      BundlesBetweenAt(entries, lo, hi + 1, n, name);
    }
    BundlesBetweenAt(entries, lo, hi + 1, n, BundleName(L.BundleAt(hi, n)));
  }

  lemma BundlesBetweenAt(entries: seq<Entry>, lo: nat, hi: nat, n: nat, name: Name)
    requires n <= |entries|
    ensures name in BundlesBetween(entries, lo, hi, n) <==>
              && name.BundleName? && lo <= name.bundle.index < hi && 256 * name.bundle.index < n
              && name.bundle == L.BundleAt(name.bundle.index, n)
    ensures name in BundlesBetween(entries, lo, hi, n) ==>
              Min(256 * name.bundle.index + 256, n) >= 256 * name.bundle.index
              && Min(256 * name.bundle.index + 256, n) <= |entries|
              && BundlesBetween(entries, lo, hi, n)[name]
                 == BundleObject(entries[256 * name.bundle.index..Min(256 * name.bundle.index + 256, n)])
  {
  }

  lemma ImportedNothing(before: Objects, entries: seq<Entry>, c: nat, resume: bool)
    ensures SizeAfter(|entries|, c, 0) == 0 && Started(|entries|, c, 0)
    ensures ImportedTo(before, before, entries, c, resume, 0) && |ObjectsUpTo(entries, c, 0)| == 0
  {
  }

  /** The value of an `Importer`. */
  datatype Namespace = Namespace(objects: Objects, manifest: Option<Manifest>, checkpoint: bool,
                                 committed: Option<(nat, Hash)>)

  /** One call of `bulk_import`: `input` is what its preflight read, `entries` what its
      second pass reads; the process dies after `budget` writes. */
  datatype Call = Call(input: seq<Entry>, entries: seq<Entry>, c: nat, concurrency: nat, resume: bool, budget: nat)

  /** The call passes the checks before the first chunk. */
  ghost predicate Starts(s: Namespace, call: Call) {
    StartError(call.input, call.c, call.concurrency, call.resume, s.committed, s.checkpoint, s.manifest).None?
  }

  /** Everything that one call does.  What it uploads and how it ends is decided by what
      is stored and by the budget; only a clash can be overtaken by the end of the budget. */
  ghost predicate Attempt(s: Namespace, call: Call, r: Result<Summary, ImportError>, s': Namespace) {
    var e := StartError(call.input, call.c, call.concurrency, call.resume, s.committed, s.checkpoint, s.manifest);
    if e.Some? then r == Err(e.value) && s' == s
    else
      && s'.checkpoint == s.checkpoint
      && s'.manifest == (if call.budget == 0 then s.manifest else Some(Manifest(call.input, call.c)))
      && Passed(s.objects, call, r, s'.objects, s'.committed)
  }

  ghost predicate Passed(before: Objects, call: Call, r: Result<Summary, ImportError>, now: Objects,
                         committed: Option<(nat, Hash)>)
    requires call.c > 0
  {
    var Call(input, entries, c, _, resume, budget) := call;
    var todo, end := Planned(input, entries, c), Plan(input, entries, c).1;
    && Between(before, now, todo)
    && (if budget == 0 then now == before else |now| < |before| + budget)
    && (CanPlace(before, todo, resume) ==> (r == Err(Interrupted) <==> budget < Needed(input, entries, c)))
    && (!CanPlace(before, todo, resume) ==> r == Err(Clash) || (r == Err(Interrupted) && budget < |todo| + 1))
    && match r
       case Ok(summary) =>
         && end.None? && entries == input
         && Complete(before, now, input, c, resume, summary)
         && committed == Some((|input|, Mth(Leaves(input))))
       case Err(error) =>
         && committed == None
         && (error == Clash ==> !CanPlace(before, todo, resume))
         && (error != Clash && error != Interrupted ==> end == Some(error) && now == before + todo)
  }

  // ---- the exits of the chunk loop ----

  lemma PlanStart(input: seq<Entry>, entries: seq<Entry>, c: nat)
    requires c > 0
    ensures Plan(input, entries, c) == PlanFrom(input, entries, c, 0)
    ensures Planned(input, entries, c) == ObjectsUpTo(entries, c, Plan(input, entries, c).0)
  {
  }

  /** What the plan says before chunk k. */
  lemma PlanStep(input: seq<Entry>, entries: seq<Entry>, c: nat, k: nat)
    requires c > 0 && SizeAfter(|entries|, c, k) < |entries|
    ensures var from, to := SizeAfter(|entries|, c, k), Min(SizeAfter(|entries|, c, k) + c, |entries|);
            && from <= to <= |entries|
            && PlanFrom(input, entries, c, k)
               == if to > |input| then (k, Some(InputChanged))
                  else if !GoodEntries(entries[from..to]) then (k, Some(BadEntry))
                  else PlanFrom(input, entries, c, k + 1)
    ensures PlanFrom(input, entries, c, k + 1).0 > k
  {
    NextChunk(|entries|, c, k);
  }

  lemma PlanStop(input: seq<Entry>, entries: seq<Entry>, c: nat, k: nat)
    requires c > 0 && SizeAfter(|entries|, c, k) == |entries|
    ensures PlanFrom(input, entries, c, k) == (k, if entries == input then None else Some(InputChanged))
  {
  }

  lemma DeadAtOnce(before: Objects, call: Call)
    requires call.c > 0 && call.budget == 0
    ensures Passed(before, call, Err(Interrupted), before, None)
  {
    hide ObjectsUpTo, Plan, CanPlace;
  }

  /** The pass ends with an error, after all its uploads. */
  lemma PassEnds(before: Objects, now: Objects, call: Call, k: nat, error: ImportError)
    requires call.c > 0 && Plan(call.input, call.entries, call.c) == (k, Some(error))
    requires error == InputChanged || error == BadEntry
    requires ImportedTo(before, now, call.entries, call.c, call.resume, k) && |now| < |before| + call.budget
    requires call.budget >= |ObjectsUpTo(call.entries, call.c, k)| + 1
    ensures Passed(before, call, Err(error), now, None)
  {
    hide ObjectsUpTo, PlanFrom, CanPlace, Between;
    ImportedBetween(before, now, call.entries, call.c, call.resume, k);
  }

  lemma PassCut(before: Objects, now: Objects, call: Call)
    requires call.c > 0 && Between(before, now, Planned(call.input, call.entries, call.c))
    requires 0 < call.budget < |Planned(call.input, call.entries, call.c)| + 1 && |now| < |before| + call.budget
    ensures Passed(before, call, Err(Interrupted), now, None)
  {
    hide Planned, Plan, CanPlace, Between;
  }

  lemma PassRefused(before: Objects, now: Objects, call: Call)
    requires call.c > 0 && Between(before, now, Planned(call.input, call.entries, call.c))
    requires !CanPlace(before, Planned(call.input, call.entries, call.c), call.resume)
    requires 0 < call.budget && |now| < |before| + call.budget
    ensures Passed(before, call, Err(Clash), now, None)
  {
    hide Planned, Plan, CanPlace, Between;
  }

  lemma PassBeforeCommit(before: Objects, now: Objects, call: Call, k: nat)
    requires call.c > 0 && Plan(call.input, call.entries, call.c) == (k, None)
    requires ImportedTo(before, now, call.entries, call.c, call.resume, k) && |now| < |before| + call.budget
    requires call.budget == |ObjectsUpTo(call.entries, call.c, k)| + 1
    ensures Passed(before, call, Err(Interrupted), now, None)
  {
    ImportedBetween(before, now, call.entries, call.c, call.resume, k);
    hide ObjectsUpTo, Plan, CanPlace, Between;
  }

  lemma PassCommits(before: Objects, now: Objects, call: Call, k: nat, summary: Summary, committed: Option<(nat, Hash)>)
    requires call.c > 0 && Plan(call.input, call.entries, call.c) == (k, None) && call.entries == call.input
    requires ImportedTo(before, now, call.entries, call.c, call.resume, k) && |now| < |before| + call.budget
    requires call.budget >= |ObjectsUpTo(call.entries, call.c, k)| + 2
    requires Complete(before, now, call.input, call.c, call.resume, summary)
    requires committed == Some((summary.size, summary.root))
    ensures Passed(before, call, Ok(summary), now, committed)
  {
    ImportedBetween(before, now, call.entries, call.c, call.resume, k);
    hide ObjectsUpTo, Plan, CanPlace, Between, Mth;
  }

  /** A log database and its storage namespace during an import.  `committed` is the
      log state row: None for an empty log. */
  class Importer {
    var objects: Objects
    var manifest: Option<Manifest>
    var checkpoint: bool
    var committed: Option<(nat, Hash)>

    ghost function State(): Namespace
      reads this
    {
      Namespace(objects, manifest, checkpoint, committed)
    }

    constructor ()
      ensures State() == Namespace(map[], None, false, None)
    {
      objects, manifest, checkpoint, committed := map[], None, false, None;
    }

    /** `write_import_object`. */
    method WriteObject(name: Name, data: Object, resume: bool) returns (r: Result<bool, ImportError>)
      modifies this`objects
      ensures r.Ok? <==> CanPlace(old(objects), map[name := data], resume)
      ensures r.Ok? ==> r.value == (name !in old(objects)) && objects == old(objects)[name := data]
      ensures r.Err? ==> r.error == Clash && objects == old(objects)
    {
      if name in objects {
        if resume && objects[name] == data {
          assert objects[name := data] == objects;
          return Ok(false);
        }
        assert name in map[name := data];
        return Err(Clash);
      }
      objects := objects[name := data];
      return Ok(true);
    }

    /** The uploads of one chunk, in any order.  The process dies once `budget`
        uploads have completed. */
    method UploadAll(todo: Objects, resume: bool, budget: nat) returns (outcome: Uploads)
      modifies this`objects
      ensures Between(old(objects), objects, todo)
      ensures outcome.Done? ==> CanPlace(old(objects), todo, resume) && objects == old(objects) + todo
      ensures outcome.Done? ==> outcome.written + outcome.verified == |todo|
                                && outcome.written == |objects| - |old(objects)|
      ensures outcome.Done? ==> outcome.budget + |todo| == budget
      ensures outcome == Refused ==> !CanPlace(old(objects), todo, resume)
      ensures outcome == Cut ==> budget < |todo|
      ensures |objects| <= |old(objects)| + budget
    {
      UploadingStart(objects, todo, resume);
      hide *;
      var left, written: nat, verified: nat, rest: nat := todo, 0, 0, budget;
      while left != map[]
        invariant Uploading(old(objects), objects, todo, left, resume)
        invariant written + verified + |left| == |todo|
        invariant written == |objects| - |old(objects)|
        invariant rest + written + verified == budget
        decreases |left|
      {
        var name :| name in left;
        if rest == 0 {
          UploadingBetween(old(objects), objects, todo, left, resume);
          return Cut;
        }
        UploadStep(old(objects), objects, todo, left, resume, name);
        var wrote := WriteObject(name, left[name], resume);
        if wrote.Err? {
          UploadingBetween(old(objects), objects, todo, left, resume);
          return Refused;
        }
        rest := rest - 1;
        if wrote.value { written := written + 1; } else { verified := verified + 1; }
        left := left - {name};
      }
      UploadingBetween(old(objects), objects, todo, left, resume);
      return Done(written, verified, rest);
    }

    /** `bulk_import`. */
    method BulkImport(input: seq<Entry>, entries: seq<Entry>, c: nat, concurrency: nat, resume: bool, budget: nat)
      returns (r: Result<Summary, ImportError>)
      modifies this
      ensures Attempt(old(State()), Call(input, entries, c, concurrency, resume, budget), r, State())
      ensures r.Ok? || State() != old(State()) ==>
                && !old(checkpoint) && old(committed).None?
                && if resume then old(manifest) == Some(Manifest(input, c)) else old(manifest).None?
    {
      StartErrorExact(input, c, concurrency, resume, committed, checkpoint, manifest);
      hide Passed, GoodEntries;
      var e := StartError(input, c, concurrency, resume, committed, checkpoint, manifest);
      if e.Some? { return Err(e.value); }
      if budget == 0 {
        DeadAtOnce(objects, Call(input, entries, c, concurrency, resume, budget));
        return Err(Interrupted);
      }
      manifest := Some(Manifest(input, c));
      r := ImportChunks(input, entries, c, concurrency, resume, budget);
    }

    method ImportChunk(ghost before: Objects, ghost entries: seq<Entry>, ghost c: nat, ghost k: nat, ghost n: nat,
                       size: nat, chunk: seq<Entry>, resume: bool, budget: nat)
      returns (root: Hash, outcome: Uploads)
      requires c > 0 && c % 256 == 0 && k < n
      requires size == SizeAfter(|entries|, c, k) && size + |chunk| == SizeAfter(|entries|, c, k + 1)
      requires size + |chunk| <= |entries| && chunk == entries[size..size + |chunk|] && chunk != []
      requires ImportedTo(before, objects, entries, c, resume, k)
      modifies this`objects
      ensures root == MthUpTo(entries, size + |chunk|)
      ensures outcome.Done? ==>
                && ImportedTo(before, objects, entries, c, resume, k + 1)
                && outcome.written == |objects| - |old(objects)|
                && outcome.written + outcome.verified + |ObjectsUpTo(entries, c, k)| == |ObjectsUpTo(entries, c, k + 1)|
                && outcome.budget + outcome.written + outcome.verified == budget
      ensures !outcome.Done? ==> Between(before, objects, ObjectsUpTo(entries, c, n))
      ensures outcome.Refused? ==> !CanPlace(before, ObjectsUpTo(entries, c, n), resume)
      ensures outcome.Cut? ==> budget + |ObjectsUpTo(entries, c, k)| < |ObjectsUpTo(entries, c, n)|
      ensures |objects| <= |old(objects)| + budget
    {
      hide CanPlace, ObjectsUpTo, ChunkObjects, ImportedTo, Between, SizeAfter, Extends, Mth, Leaves;
      ImportedBetween(before, objects, entries, c, resume, k);
      ChunkStart(|entries|, c, k);
      var todo;
      root, todo := ChunkUploads(objects, size, chunk, entries, c, k);
      outcome := UploadAll(todo, resume, budget);
      if outcome.Done? {
        ChunkDone(before, old(objects), entries, c, resume, k);
      } else {
        ChunkCut(before, old(objects), objects, entries, c, resume, k, n);
        if outcome.Refused? { ChunkRefused(before, old(objects), entries, c, resume, k, n); }
      }
    }

    /** The chunk loop, after the manifest has used up one write. */
    method ImportChunks(input: seq<Entry>, entries: seq<Entry>, c: nat, ghost concurrency: nat, resume: bool, budget: nat)
      returns (r: Result<Summary, ImportError>)
      requires 0 < c && c % 256 == 0 && input != [] && budget > 0 && committed == None
      modifies this`objects, this`committed
      ensures Passed(old(objects), Call(input, entries, c, concurrency, resume, budget), r, objects, committed)
    {
      ghost var call := Call(input, entries, c, concurrency, resume, budget);
      hide *;
      ImportedNothing(objects, entries, c, resume);
      var size: nat, written: nat, verified: nat, rest: nat, root: Option<Hash> := 0, 0, 0, budget - 1, None;
      ghost var k, before := 0, objects;
      ghost var plan := Plan(input, entries, c);
      PlanStart(input, entries, c);
      while size < |entries|
        invariant size == SizeAfter(|entries|, c, k) && Started(|entries|, c, k)
        invariant plan == Plan(input, entries, c) == PlanFrom(input, entries, c, k)
        invariant ImportedTo(before, objects, entries, c, resume, k)
        invariant written == |objects| - |before|
        invariant written + verified == |ObjectsUpTo(entries, c, k)|
        invariant rest + written + verified == budget - 1
        invariant size <= |entries|
        invariant size > 0 ==> root == Some(MthUpTo(entries, size))
        invariant committed == None
        decreases |entries| - size
      {
        NextChunk(|entries|, c, k);
        PlanStep(input, entries, c, k);
        var chunk := entries[size..Min(size + c, |entries|)];
        if |chunk| > |input| - size {
          PassEnds(before, objects, call, k, InputChanged);
          return Err(InputChanged);
        }
        if !GoodEntries(chunk) {
          PassEnds(before, objects, call, k, BadEntry);
          return Err(BadEntry);
        }
        var newRoot, outcome := ImportChunk(before, entries, c, k, plan.0, size, chunk, resume, rest);
        if outcome.Cut? {
          PassCut(before, objects, call);
          return Err(Interrupted);
        }
        if outcome.Refused? {
          PassRefused(before, objects, call);
          return Err(Clash);
        }
        size, root, k := size + |chunk|, Some(newRoot), k + 1;
        written, verified, rest := written + outcome.written, verified + outcome.verified, outcome.budget;
      }
      PlanStop(input, entries, c, k);
      r := FinishImport(call, before, k, input, entries, root, written, verified, rest);
    }

    /** The comparison with the preflight and the commit. */
    method FinishImport(ghost call: Call, ghost before: Objects, ghost k: nat, input: seq<Entry>, entries: seq<Entry>,
                        root: Option<Hash>, written: nat, verified: nat, rest: nat)
      returns (r: Result<Summary, ImportError>)
      requires call.c > 0 && call.input == input && call.entries == entries && input != [] && committed == None
      requires SizeAfter(|entries|, call.c, k) == |entries| && Started(|entries|, call.c, k)
      requires Plan(input, entries, call.c) == (k, if entries == input then None else Some(InputChanged))
      requires ImportedTo(before, objects, entries, call.c, call.resume, k) && written == |objects| - |before|
      requires written + verified == |ObjectsUpTo(entries, call.c, k)| && rest + written + verified + 1 == call.budget
      requires entries != [] ==> root == Some(MthUpTo(entries, |entries|))
      modifies this`committed
      ensures Passed(before, call, r, objects, committed)
    {
      hide *;
      if entries != input {
        PassEnds(before, objects, call, k, InputChanged);
        return Err(InputChanged);
      }
      if rest == 0 {
        PassBeforeCommit(before, objects, call, k);
        return Err(Interrupted);
      }
      ImportComplete(before, objects, input, call.c, call.resume, k, written, verified);
      committed := Some((|entries|, root.value));
      r := Ok(Summary(|entries|, root.value, written, verified));
      PassCommits(before, objects, call, k, r.value, committed);
    }
  }

  // ---- whole runs: any attempts, interrupted anywhere ----

  /** Nothing is stored without a manifest, and a committed import is complete: every
      object of the manifest's input is in place, with its root. */
  ghost predicate Inv(s: Namespace) {
    match s.manifest
    case None => s.objects == map[] && s.committed == None
    case Some(m) =>
      && m.chunkSize > 0
      && (s.committed.Some? ==>
            && Extends(AllObjects(m.input, m.chunkSize), s.objects)
            && s.committed.value == (|m.input|, Mth(Leaves(m.input))))
  }

  /** No attempt touches a namespace that has published a checkpoint, or a log that is not
      empty. */
  lemma PublishedUntouched(s: Namespace, call: Call, r: Result<Summary, ImportError>, s': Namespace)
    requires Attempt(s, call, r, s') && (s.checkpoint || s.committed.Some?)
    ensures s' == s && r.Err? && r.error != Interrupted
  {
    StartErrorExact(call.input, call.c, call.concurrency, call.resume, s.committed, s.checkpoint, s.manifest);
    hide Passed, GoodEntries;
  }

  /** An attempt keeps the invariant and overwrites nothing, whatever its second pass
      reads; if it commits, the second pass has read the input. */
  lemma AttemptKeepsInv(s: Namespace, call: Call, r: Result<Summary, ImportError>, s': Namespace)
    requires Inv(s) && Attempt(s, call, r, s')
    ensures Inv(s')
    ensures Extends(s.objects, s'.objects)
    ensures r.Ok? ==>
              && call.c > 0 && call.entries == call.input
              && Extends(AllObjects(call.input, call.c), s'.objects)
              && s'.committed == Some((|call.input|, Mth(Leaves(call.input))))
  {
    hide AllObjects, Mth, Planned, Plan, GoodEntries;
    if Starts(s, call) {
      if call.budget == 0 { NothingWithoutBudget(s.objects, call, r, s'.objects, s'.committed); }
      if r.Ok? { PlacedAll(s.objects, AllObjects(call.input, call.c)); }
    }
  }

  /** Without any budget nothing happens. */
  lemma NothingWithoutBudget(before: Objects, call: Call, r: Result<Summary, ImportError>, now: Objects,
                             committed: Option<(nat, Hash)>)
    requires call.c > 0 && call.budget == 0 && Passed(before, call, r, now, committed)
    ensures committed == None && now == before
  {
    hide Planned, Plan, CanPlace, Between, Complete, Mth;
  }

  lemma PlacedAll(before: Objects, all: Objects)
    ensures Extends(all, before + all)
  {
  }

  type Outcome = Result<Summary, ImportError>

  ghost predicate Run(states: seq<Namespace>, calls: seq<Call>, results: seq<Outcome>) {
    && |states| == |calls| + 1 && |results| == |calls|
    && (states[0] == Namespace(map[], None, false, None) || states[0] == Namespace(map[], None, true, None))
    && forall i | 0 <= i < |calls| :: Attempt(states[i], calls[i], results[i], states[i + 1])
  }

  /** Import safety over every run on a fresh namespace, whatever its attempts read in
      either pass, with any chunk sizes and resume flags and wherever they are
      interrupted: nothing stored is ever overwritten, and a commit means that all
      objects of the input are in place, the second pass has read the input, and the
      root is the MTH of the input. */
  lemma {:induction false} ImportSafety(states: seq<Namespace>, calls: seq<Call>, results: seq<Outcome>, i: nat)
    requires Run(states, calls, results) && i < |states|
    ensures Inv(states[i])
    ensures i < |calls| ==>
              && Extends(states[i].objects, states[i + 1].objects)
              && (results[i].Ok? ==>
                    && calls[i].c > 0 && calls[i].entries == calls[i].input
                    && Extends(AllObjects(calls[i].input, calls[i].c), states[i + 1].objects)
                    && states[i + 1].committed == Some((|calls[i].input|, Mth(Leaves(calls[i].input)))))
    decreases i
  {
    hide Inv, Attempt, AllObjects, Mth, Extends;
    if i == 0 {
      InitInv(states[0]);
    } else {
      ImportSafety(states, calls, results, i - 1);
      assert Attempt(states[i - 1], calls[i - 1], results[i - 1], states[i - 1 + 1]);
      AttemptKeepsInv(states[i - 1], calls[i - 1], results[i - 1], states[i]);
    }
    if i < |calls| {
      assert Attempt(states[i], calls[i], results[i], states[i + 1]);
      AttemptKeepsInv(states[i], calls[i], results[i], states[i + 1]);
    }
  }

  lemma InitInv(s: Namespace)
    requires s.objects == map[] && s.manifest == None && s.committed == None
    ensures Inv(s)
  {
  }

  // ---- when an attempt is refused ----

  /** What an attempt has added agrees with an import, wherever they share a name. */
  ghost predicate AddedAgrees(before: Objects, now: Objects, all: Objects) {
    forall name | name in now && name !in before && name in all :: now[name] == all[name]
  }

  ghost predicate Agreeing(now: Objects, all: Objects) {
    forall name | name in now && name in all :: now[name] == all[name]
  }

  /** Storage agrees with an import exactly when every attempt so far has only added
      what agrees with it. */
  lemma {:induction false} AgreesSoFar(states: seq<Namespace>, calls: seq<Call>, results: seq<Outcome>, i: nat, all: Objects)
    requires Run(states, calls, results) && i < |states|
    ensures Agreeing(states[i].objects, all)
            <==> forall j | 0 <= j < i :: AddedAgrees(states[j].objects, states[j + 1].objects, all)
    decreases i
  {
    hide Attempt, AddedAgrees;
    if i > 0 {
      AgreesSoFar(states, calls, results, i - 1, all);
      ImportSafety(states, calls, results, i - 1);
      AgreesStep(states[i - 1].objects, states[i].objects, all);
      assert states[i - 1 + 1] == states[i];
      if forall j | 0 <= j < i :: AddedAgrees(states[j].objects, states[j + 1].objects, all) {
        assert AddedAgrees(states[i - 1].objects, states[i - 1 + 1].objects, all);
      }
    }
  }

  lemma AgreesStep(before: Objects, now: Objects, all: Objects)
    requires Extends(before, now)
    ensures Agreeing(now, all) <==> Agreeing(before, all) && AddedAgrees(before, now, all)
  {
  }

  /** The writes of a whole import: its objects, the manifest and the commit. */
  ghost function WholeBudget(call: Call): nat
    requires call.c > 0
  {
    |AllObjects(call.input, call.c)| + 2
  }

  /** What an attempt that starts and reads its input does: with enough budget it commits
      if storage agrees with it, and is refused otherwise; with less it dies, or is refused
      before that. */
  lemma HonestOutcome(s: Namespace, call: Call, r: Outcome, s': Namespace)
    requires Inv(s) && Starts(s, call) && Attempt(s, call, r, s') && call.entries == call.input
    ensures call.c > 0
    ensures var all := AllObjects(call.input, call.c);
            && (Agreeing(s.objects, all) ==> (r.Ok? <==> call.budget >= WholeBudget(call)))
            && (Agreeing(s.objects, all) && !r.Ok? ==> r == Err(Interrupted))
            && (!Agreeing(s.objects, all) ==> r == Err(Clash) || (r == Err(Interrupted) && call.budget < WholeBudget(call)))
            && (r.Ok? ==> s'.objects == s.objects + all && Complete(s.objects, s'.objects, call.input, call.c, call.resume, r.value))
  {
    hide AllObjects, Mth, Planned, Plan, GoodEntries, CanPlace, Agreeing, Between, Complete;
    StartedPlaces(s, call, AllObjects(call.input, call.c));
    GoodInput(s, call);
    PlannedAll(call.input, call.entries, call.c);
    if r.Ok? { CompleteMeans(s.objects, s'.objects, call, r.value); }
  }

  lemma GoodInput(s: Namespace, call: Call)
    requires Starts(s, call)
    ensures GoodEntries(call.input) && GoodConfig(call.c, call.concurrency)
    ensures s.committed.None? && (s.manifest.Some? ==> call.resume && s.manifest.value == Manifest(call.input, call.c))
  {
    hide GoodEntries;
  }

  lemma CompleteMeans(before: Objects, now: Objects, call: Call, summary: Summary)
    requires call.c > 0 && Complete(before, now, call.input, call.c, call.resume, summary)
    ensures CanPlace(before, AllObjects(call.input, call.c), call.resume) && now == before + AllObjects(call.input, call.c)
  {
    hide AllObjects, CanPlace;
  }

  /** Once an attempt has started, what is stored is free of its names or it resumes. */
  lemma StartedPlaces(s: Namespace, call: Call, all: Objects)
    requires Inv(s) && Starts(s, call)
    ensures CanPlace(s.objects, all, call.resume) <==> Agreeing(s.objects, all)
  {
    hide AllObjects, Mth, GoodEntries;
  }

  /** An attempt that starts, reads its input and lives long enough is decided by the
      earlier ones: it commits if every object that they stored under one of its names is
      its own, and is refused otherwise. */
  lemma RefusedExactly(states: seq<Namespace>, calls: seq<Call>, results: seq<Outcome>, i: nat)
    requires Run(states, calls, results) && i < |calls|
    requires Starts(states[i], calls[i]) && calls[i].entries == calls[i].input
    requires calls[i].c > 0 ==> calls[i].budget >= WholeBudget(calls[i])
    ensures calls[i].c > 0
    ensures var all := AllObjects(calls[i].input, calls[i].c);
            var agree := forall j | 0 <= j < i :: AddedAgrees(states[j].objects, states[j + 1].objects, all);
            && (agree ==> results[i].Ok?)
            && (!agree ==> results[i] == Err(Clash))
  {
    hide AllObjects, Attempt, Starts, AddedAgrees, Agreeing, Inv;
    ImportSafety(states, calls, results, i);
    assert Attempt(states[i], calls[i], results[i], states[i + 1]);
    HonestOutcome(states[i], calls[i], results[i], states[i + 1]);
    AgreesSoFar(states, calls, results, i, AllObjects(calls[i].input, calls[i].c));
  }

  /** If all attempts that started have read their input, storage is a part of the import
      that the manifest names. */
  lemma {:induction false} HonestStorage(states: seq<Namespace>, calls: seq<Call>, results: seq<Outcome>, i: nat)
    requires Run(states, calls, results) && i < |states|
    requires forall j | 0 <= j < i && Starts(states[j], calls[j]) :: calls[j].entries == calls[j].input
    ensures Inv(states[i])
    ensures states[i].manifest.Some? ==>
              var m := states[i].manifest.value;
              m.chunkSize > 0 && Extends(states[i].objects, AllObjects(m.input, m.chunkSize))
    decreases i
  {
    hide AllObjects, Mth, Attempt, Inv, Starts;
    ImportSafety(states, calls, results, i);
    if i > 0 {
      HonestStorage(states, calls, results, i - 1);
      assert Attempt(states[i - 1], calls[i - 1], results[i - 1], states[i - 1 + 1]);
      HonestStep(states[i - 1], calls[i - 1], results[i - 1], states[i]);
    } else {
      InitEmpty(states[0]);
    }
  }

  lemma InitEmpty(s: Namespace)
    requires s == Namespace(map[], None, s.checkpoint, None)
    ensures s.manifest.None?
  {
  }

  lemma HonestStep(s: Namespace, call: Call, r: Outcome, s': Namespace)
    requires Inv(s) && Attempt(s, call, r, s') && (Starts(s, call) ==> call.entries == call.input)
    requires s.manifest.Some? ==>
               var m := s.manifest.value;
               m.chunkSize > 0 && Extends(s.objects, AllObjects(m.input, m.chunkSize))
    ensures s'.manifest.Some? ==>
              var m := s'.manifest.value;
              m.chunkSize > 0 && Extends(s'.objects, AllObjects(m.input, m.chunkSize))
  {
    if Starts(s, call) {
      GoodInput(s, call);
      PlannedAll(call.input, call.entries, call.c);
      hide AllObjects, Mth, Complete, Planned, Plan, GoodEntries, CanPlace;
      AddedOnly(s.objects, s'.objects, AllObjects(call.input, call.c));
    }
  }

  lemma AddedOnly(before: Objects, now: Objects, all: Objects)
    requires Between(before, now, all) && Extends(before, all)
    ensures Extends(now, all)
    ensures before + all == all
  {
  }

  /** As long as every attempt that started has read its input, none is refused: a fresh
      one finds no object of its own, a resumed one finds equal ones.  With enough budget
      it commits and leaves exactly the canonical import; with less it is interrupted. */
  lemma NeverRefused(states: seq<Namespace>, calls: seq<Call>, results: seq<Outcome>, i: nat)
    requires Run(states, calls, results) && i < |calls| && Starts(states[i], calls[i])
    requires forall j | 0 <= j <= i && Starts(states[j], calls[j]) :: calls[j].entries == calls[j].input
    ensures calls[i].c > 0
    ensures if calls[i].budget >= WholeBudget(calls[i])
            then results[i].Ok? && states[i + 1].objects == AllObjects(calls[i].input, calls[i].c)
            else results[i] == Err(Interrupted)
    ensures results[i].Ok? && !calls[i].resume ==> results[i].value.verified == 0
  {
    hide AllObjects, Attempt, Mth, GoodEntries;
    HonestStorage(states, calls, results, i);
    assert Attempt(states[i], calls[i], results[i], states[i + 1]);
    var call, s := calls[i], states[i];
    var all := AllObjects(call.input, call.c);
    HonestOutcome(s, call, results[i], states[i + 1]);
    assert Extends(s.objects, all);
    assert Agreeing(s.objects, all);
    if results[i].Ok? { ExtendedBy(s.objects, all); }
  }

  lemma ExtendedBy(before: Objects, all: Objects)
    requires Extends(before, all)
    ensures before + all == all
  {
  }

  // ---- a second pass that has changed ----

  /** Entries that differ from the input, as many as the preflight has seen, lead to an
      object that an honest attempt refuses. */
  lemma ChangedPassClashes(input: seq<Entry>, entries: seq<Entry>, c: nat)
    requires c > 0 && c % 256 == 0 && |entries| == |input| && entries != input
    ensures !Agreeing(AllObjects(entries, c), AllObjects(input, c))
  {
    hide AllObjects, PartialTileSize;
    var i :| 0 <= i < |input| && input[i] != entries[i];
    var index := i / 256;
    ImportedBundles(input, c, index);
    ImportedBundles(entries, c, index);
    var hi := Min(256 * index + 256, |input|);
    assert input[256 * index..hi][i - 256 * index] != entries[256 * index..hi][i - 256 * index];
  }

  /** Storage that disagrees with the import that its manifest names. */
  ghost predicate Spoilt(s: Namespace) {
    s.manifest.Some? && s.committed == None && s.manifest.value.chunkSize > 0
    && !Agreeing(s.objects, AllObjects(s.manifest.value.input, s.manifest.value.chunkSize))
  }

  /** Spoilt storage stays spoilt: no attempt ever commits on it. */
  lemma SpoiltStep(s: Namespace, call: Call, r: Outcome, s': Namespace)
    requires Inv(s) && Spoilt(s) && Attempt(s, call, r, s')
    ensures Spoilt(s') && s'.manifest == s.manifest && !r.Ok?
  {
    hide AllObjects, Mth, Planned, Plan, GoodEntries;
    AttemptKeepsInv(s, call, r, s');
    var m := s.manifest.value;
    AgreesStep(s.objects, s'.objects, AllObjects(m.input, m.chunkSize));
    if Starts(s, call) {
      GoodInput(s, call);
      StartedPlaces(s, call, AllObjects(call.input, call.c));
      CommitMeans(s.objects, s'.objects, call, r, s'.committed);
    }
  }

  lemma CommitMeans(before: Objects, now: Objects, call: Call, r: Outcome, committed: Option<(nat, Hash)>)
    requires call.c > 0 && Passed(before, call, r, now, committed)
    ensures r.Ok? ==> CanPlace(before, AllObjects(call.input, call.c), call.resume)
    ensures !r.Ok? ==> committed == None
  {
    hide AllObjects, CanPlace, Planned, Plan, Between, Mth;
  }

  lemma {:induction false} SpoiltForever(states: seq<Namespace>, calls: seq<Call>, results: seq<Outcome>, i: nat, j: nat)
    requires Run(states, calls, results) && i <= j < |states| && Spoilt(states[i])
    ensures Spoilt(states[j]) && states[j].manifest == states[i].manifest
    ensures j < |calls| ==> !results[j].Ok?
    decreases j
  {
    hide Attempt, Spoilt;
    if i < j { SpoiltForever(states, calls, results, i, j - 1); }
    if i < j {
      assert Attempt(states[j - 1], calls[j - 1], results[j - 1], states[j - 1 + 1]);
      ImportSafety(states, calls, results, j - 1);
      SpoiltStep(states[j - 1], calls[j - 1], results[j - 1], states[j]);
    }
    if j < |calls| {
      assert Attempt(states[j], calls[j], results[j], states[j + 1]);
      ImportSafety(states, calls, results, j);
      SpoiltStep(states[j], calls[j], results[j], states[j + 1]);
    }
  }

  /** Every changed second pass of the same length over well-sized entries, in an import
      that starts afresh and lives through its uploads: it uploads everything, is noticed
      only at the end, and from then on no attempt, whatever it reads, ever commits; an
      honest one that lives long enough is refused. */
  lemma ChangedPassRun(states: seq<Namespace>, calls: seq<Call>, results: seq<Outcome>, i: nat, j: nat)
    requires Run(states, calls, results) && i < j < |calls|
    requires Starts(states[i], calls[i]) && !calls[i].resume
    requires |calls[i].entries| == |calls[i].input| && calls[i].entries != calls[i].input && GoodEntries(calls[i].entries)
    requires calls[i].c > 0 ==> calls[i].budget > |AllObjects(calls[i].entries, calls[i].c)|
    ensures calls[i].c > 0
    ensures results[i] == Err(InputChanged) && states[i + 1].objects == AllObjects(calls[i].entries, calls[i].c)
    ensures !results[j].Ok? && states[j].committed == None
    ensures (Starts(states[j], calls[j]) && calls[j].entries == calls[j].input && calls[j].c > 0
             && calls[j].budget >= WholeBudget(calls[j]))
            ==> results[j] == Err(Clash)
  {
    hide AllObjects, Attempt, Starts, GoodEntries, Agreeing;
    ImportSafety(states, calls, results, i);
    assert Attempt(states[i], calls[i], results[i], states[i + 1]);
    ChangedPassStep(states[i], calls[i], results[i], states[i + 1]);
    SpoiltForever(states, calls, results, i + 1, j);
    ImportSafety(states, calls, results, j);
    assert Attempt(states[j], calls[j], results[j], states[j + 1]);
    if Starts(states[j], calls[j]) && calls[j].entries == calls[j].input {
      GoodInput(states[j], calls[j]);
      HonestOutcome(states[j], calls[j], results[j], states[j + 1]);
    }
  }

  lemma ChangedPassStep(s: Namespace, call: Call, r: Outcome, s': Namespace)
    requires Inv(s) && Starts(s, call) && !call.resume && Attempt(s, call, r, s')
    requires |call.entries| == |call.input| && call.entries != call.input && GoodEntries(call.entries)
    requires call.c > 0 ==> call.budget > |AllObjects(call.entries, call.c)|
    ensures call.c > 0 && r == Err(InputChanged) && s'.objects == AllObjects(call.entries, call.c) && Spoilt(s')
  {
    hide AllObjects, Mth, Planned, Plan, GoodEntries, Agreeing, Complete;
    GoodInput(s, call);
    PlannedAll(call.input, call.entries, call.c);
    ChangedPassClashes(call.input, call.entries, call.c);
    assert s.objects == map[];
    assert map[] + AllObjects(call.entries, call.c) == AllObjects(call.entries, call.c);
  }

  /** A second pass whose first chunk holds an entry of a refused size stores nothing. */
  lemma BadEntryRefused(s: Namespace, call: Call, r: Outcome, s': Namespace)
    requires Inv(s) && Starts(s, call) && Attempt(s, call, r, s')
    requires call.entries != [] && Min(call.c, |call.entries|) <= |call.input|
    requires !GoodEntries(call.entries[..Min(call.c, |call.entries|)])
    ensures s'.objects == s.objects && r == if call.budget == 0 then Err(Interrupted) else Err(BadEntry)
  {
    GoodInput(s, call);
    hide Mth, GoodEntries, Complete, StartError, ObjectsUpTo, PlanFrom, Plan, Planned, CanPlace;
    BadEntryPlan(call.input, call.entries, call.c);
    assert CanPlace(s.objects, map[], call.resume) by { PlaceNothing(s.objects, call.resume); }
    NothingBetween(s.objects, s'.objects);
  }

  lemma BadEntryPlan(input: seq<Entry>, entries: seq<Entry>, c: nat)
    requires c > 0 && entries != [] && Min(c, |entries|) <= |input| && !GoodEntries(entries[..Min(c, |entries|)])
    ensures Plan(input, entries, c).1 == Some(BadEntry) && Planned(input, entries, c) == map[]
  {
    hide ObjectsUpTo, GoodEntries, PlanFrom;
    PlanStart(input, entries, c);
    ImportedNothing(map[], entries, c, false);
    PlanStep(input, entries, c, 0);
    assert entries[0..Min(c, |entries|)] == entries[..Min(c, |entries|)];
    assert |Planned(input, entries, c)| == 0;
  }

  lemma PlaceNothing(before: Objects, resume: bool)
    ensures CanPlace(before, map[], resume)
  {
  }

  lemma NothingBetween(before: Objects, now: Objects)
    ensures Between(before, now, map[]) ==> now == before
  {
  }

  /** What the imported objects are: the complete authentic tree over the input. */
  lemma ImportedStorage(input: seq<Entry>, c: nat)
    requires c > 0
    ensures Authentic(TilesIn(AllObjects(input, c)), Leaves(input))
    ensures Covers(TilesIn(AllObjects(input, c)), |input|)
  {
    hide Canon, ObjectsUpTo, TilesIn, Authentic, Covers;
    var k := Chunks(|input|, c);
    AllChunks(|input|, c);
    ObjectsTiles(input, c, k);
    CanonCorrect(Leaves(input), c, k);
  }

  /** Every entry bundle of the input is among the imported objects, under the path
      of the final size and with exactly its entries. */
  lemma ImportedBundles(input: seq<Entry>, c: nat, index: nat)
    requires c > 0 && c % 256 == 0 && 256 * index < |input|
    ensures var name := BundleName(L.BundleAt(index, |input|));
            && name in AllObjects(input, c)
            && AllObjects(input, c)[name]
               == BundleObject(input[256 * index..Min(256 * index + 256, |input|)])
  {
    hide ObjectsUpTo, PartialTileSize, SizeAfter, Chunks;
    AllChunks(|input|, c);
    ObjectsBundles(input, c, Chunks(|input|, c), index);
  }

  lemma {:induction false} ObjectsBundles(entries: seq<Entry>, c: nat, k: nat, index: nat)
    requires c > 0 && c % 256 == 0 && 256 * index < SizeAfter(|entries|, c, k) <= |entries|
    ensures HoldsBundle(ObjectsUpTo(entries, c, k), entries, index, SizeAfter(|entries|, c, k))
    decreases k
  {
    hide *;
    NoChunks(|entries|, c);
    assert k > 0;
    UpToUnfold(entries, c, k - 1);
    SizesGrow(|entries|, c, k - 1);
    ChunkNamesNew(entries, c, k - 1);
    var from, to := SizeAfter(|entries|, c, k - 1), SizeAfter(|entries|, c, k);
    if from <= 256 * index {
      ChunkBundle(entries, c, k - 1, index);
    } else {
      ObjectsBundles(entries, c, k - 1, index);
      FullBundle(|entries|, c, k - 1, index);
      SameBundle(ObjectsUpTo(entries, c, k - 1), entries, index, from, to);
    }
    HoldsInUnion(ObjectsUpTo(entries, c, k - 1), ChunkObjects(entries, c, k - 1), entries, index, to);
  }

  ghost predicate HoldsBundle(objects: Objects, entries: seq<Entry>, index: nat, n: nat)
    requires 256 * index < n <= |entries|
  {
    var name := BundleName(L.BundleAt(index, n));
    name in objects && objects[name] == BundleObject(entries[256 * index..Min(256 * index + 256, n)])
  }

  lemma UpToUnfold(entries: seq<Entry>, c: nat, k: nat)
    ensures ObjectsUpTo(entries, c, k + 1) == ObjectsUpTo(entries, c, k) + ChunkObjects(entries, c, k)
  {
  }

  lemma NoChunks(n: nat, c: nat)
    ensures SizeAfter(n, c, 0) == 0
  {
  }

  lemma HoldsInUnion(a: Objects, b: Objects, entries: seq<Entry>, index: nat, n: nat)
    requires a.Keys !! b.Keys && 256 * index < n <= |entries|
    requires HoldsBundle(a, entries, index, n) || HoldsBundle(b, entries, index, n)
    ensures HoldsBundle(a + b, entries, index, n)
  {
  }

  lemma ChunkBundle(entries: seq<Entry>, c: nat, k: nat, index: nat)
    requires SizeAfter(|entries|, c, k) <= 256 * index < SizeAfter(|entries|, c, k + 1) <= |entries|
    ensures HoldsBundle(ChunkObjects(entries, c, k), entries, index, SizeAfter(|entries|, c, k + 1))
  {
    hide PartialTileSize, Canon, NewTiles, TileObjects;
    var from, to := SizeAfter(|entries|, c, k), SizeAfter(|entries|, c, k + 1);
    assert (from + 255) / 256 <= index < (to + 255) / 256;
    hide SizeAfter;
    assert BundleName(L.BundleAt(index, to)) in BundleObjects(entries, from, to);
  }

  /** A bundle of an earlier chunk is full, unless the input has ended. */
  lemma FullBundle(n: nat, c: nat, k: nat, index: nat)
    requires c > 0 && c % 256 == 0 && 256 * index < SizeAfter(n, c, k)
    ensures SizeAfter(n, c, k) == SizeAfter(n, c, k + 1) || 256 * index + 256 <= SizeAfter(n, c, k)
  {
    SizesGrow(n, c, k);
    ChunkAligned(c, k);
  }

  lemma SameBundle(objects: Objects, entries: seq<Entry>, index: nat, n: nat, n': nat)
    requires 256 * index < n <= n' <= |entries| && (n == n' || 256 * index + 256 <= n)
    requires HoldsBundle(objects, entries, index, n)
    ensures HoldsBundle(objects, entries, index, n')
  {
  }

  lemma AllChunks(n: nat, c: nat)
    requires c > 0
    ensures SizeAfter(n, c, Chunks(n, c)) == n
  {
  }
}

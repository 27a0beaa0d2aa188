/** A log that starts on an import (src/import.rs:185-203,
    src/storage/database.rs:140-157): what a committed import leaves behind is a settled
    log, so that everything proved about the runs of a log holds for it too. */
module ImportedLog {
  import opened Rfc6962
  import opened Tiles
  import opened Sequencer
  import opened Wrappers
  import opened Import
  import opened BulkImport

  /** The entry bundles among the stored objects. */
  function BundlesIn(objects: Objects): L.Bundles {
    map name | name in objects && name.BundleName? && objects[name].BundleObject? :: name.bundle := objects[name].entries
  }

  /** The log that `finish_import` leaves: database row, tiles and bundles. */
  ghost function Imported(objects: Objects, input: seq<Entry>): L.System {
    var n := |input|;
    L.System(Db(n, n, Some(Mth(Leaves(input))), map[], map[], false), TilesIn(objects), BundlesIn(objects), map[], map[],
             {}, {}, input)
  }

  lemma BundlesInAt(objects: Objects, p: L.BundlePath)
    ensures p in BundlesIn(objects) <==> BundleName(p) in objects && objects[BundleName(p)].BundleObject?
    ensures p in BundlesIn(objects) ==> BundlesIn(objects)[p] == objects[BundleName(p)].entries
  {
  }

  /** Every bundle of an import holds the entries that its path announces. */
  lemma {:induction false} ObjectsAuthentic(input: seq<Entry>, c: nat, k: nat, p: L.BundlePath)
    requires BundleName(p) in ObjectsUpTo(input, c, k)
    ensures var stored := ObjectsUpTo(input, c, k)[BundleName(p)];
            stored.BundleObject? && L.AuthenticBundle(stored.entries, p, input)
    decreases k
  {
    hide ChunkObjects, L.AuthenticBundle, ObjectsUpTo;
    if k == 0 {
      ImportedNothing(map[], input, c, false);
    } else {
      UpToUnfold(input, c, k - 1);
      if BundleName(p) in ChunkObjects(input, c, k - 1) {
        ChunkAuthentic(input, c, k - 1, p);
      } else {
        ObjectsAuthentic(input, c, k - 1, p);
      }
    }
  }

  lemma ChunkAuthentic(input: seq<Entry>, c: nat, k: nat, p: L.BundlePath)
    requires BundleName(p) in ChunkObjects(input, c, k)
    ensures var stored := ChunkObjects(input, c, k)[BundleName(p)];
            stored.BundleObject? && L.AuthenticBundle(stored.entries, p, input)
  {
    hide Canon, NewTiles, TileObjects, BundlesBetween, PartialTileSize, SizeAfter;
    var from, to := SizeAfter(|input|, c, k), SizeAfter(|input|, c, k + 1);
    NoBundleInTiles(NewTiles(Canon(Leaves(input), c, k), from, Leaves(input)[..to]), to, p);
    BundlesBetweenAt(input, (from + 255) / 256, (to + 255) / 256, to, BundleName(p));
    L.BundleWidth(p.index, to);
  }

  lemma NoBundleInTiles(tiles: map<TileId, Tile>, n: nat, p: L.BundlePath)
    ensures BundleName(p) !in TileObjects(tiles, n)
  {
  }

  /** A committed import is a settled log. */
  lemma ImportedSettled(input: seq<Entry>, c: nat)
    requires input != [] && c > 0 && c % 256 == 0
    ensures L.Settled(Imported(AllObjects(input, c), input))
  {
    hide AllObjects, TilesIn, BundlesIn, Mth, Authentic, Covers;
    var objects, n := AllObjects(input, c), |input|;
    ImportedStorage(input, c);
    assert Leaves(input)[..n] == Leaves(input);
    forall p | p in BundlesIn(objects)
      ensures L.AuthenticBundle(BundlesIn(objects)[p], p, input)
    {
      BundlesInAt(objects, p);
      AllAuthentic(input, c, p);
    }
    forall index: nat | InTree(0, index, n)
      ensures L.BundleAt(index, n) in BundlesIn(objects)
    {
      assert SizeAt(0, n) == n;
      ImportedBundles(input, c, index);
      BundlesInAt(objects, L.BundleAt(index, n));
    }
  }

  lemma AllAuthentic(input: seq<Entry>, c: nat, p: L.BundlePath)
    requires c > 0 && BundleName(p) in AllObjects(input, c)
    ensures var stored := AllObjects(input, c)[BundleName(p)];
            stored.BundleObject? && L.AuthenticBundle(stored.entries, p, input)
  {
    hide ObjectsUpTo, Chunks, L.AuthenticBundle;
    ObjectsAuthentic(input, c, Chunks(|input|, c), p);
  }

  /** From an import, whose attempts have all read their input, to the log: as soon as an
      attempt has the budget it commits, and the log that starts on it is safe. */
  lemma ImportThenLog(states: seq<Namespace>, calls: seq<Call>, results: seq<Outcome>, i: nat)
    requires BulkImport.Run(states, calls, results) && i < |calls| && Starts(states[i], calls[i])
    requires forall j | 0 <= j <= i && Starts(states[j], calls[j]) :: calls[j].entries == calls[j].input
    requires calls[i].c > 0 ==> calls[i].budget >= WholeBudget(calls[i])
    ensures results[i].Ok? && states[i + 1].committed == Some((|calls[i].input|, Mth(Leaves(calls[i].input))))
    ensures L.Settled(Imported(states[i + 1].objects, calls[i].input))
  {
    hide AllObjects, Attempt, L.Settled, Mth, StartError;
    NeverRefused(states, calls, results, i);
    ImportSafety(states, calls, results, i);
    StartedInput(states[i], calls[i]);
    ImportedSettled(calls[i].input, calls[i].c);
  }

  lemma StartedInput(s: Namespace, call: Call)
    requires Starts(s, call)
    ensures call.input != [] && call.c % 256 == 0
  {
    hide GoodEntries;
  }
}

/** Rebuilding the index from the log's entry bundles, the fallback of start-up
    (src/vindex/mod.rs:641-712, src/main.rs:303-322). */
module VindexRebuild {
  import opened Bits
  import opened Rfc6962
  import opened Wrappers
  import opened Sequencer
  import opened Wal
  import opened Vindex
  import opened VindexRecovery
  import L = Log

  datatype RebuildError = MissingBundle(index: nat) | WrongCount(index: nat) | NotAdmitted(index: nat)

  type MapFn = Entry -> seq<IndexKey>

  /** The log as the index sees it. */
  ghost function KeysOf(mapFn: MapFn, log: seq<Entry>): (keys: Keys)
    ensures |keys| == |log|
  {
    seq(|log|, i requires 0 <= i < |log| => mapFn(log[i]))
  }

  /** `rebuild_from_storage` on authentic bundles, of which some may be missing: it yields
      the index of the log prefix or an error, and an error only if a bundle is missing or
      the limits do not admit an entry. */
  method RebuildFromStorage(bundles: L.Bundles, mapFn: MapFn, n: nat, maxKeys: nat, maxIndices: nat,
                            ghost log: seq<Entry>)
    returns (r: Result<VerifiableIndex, RebuildError>)
    requires n <= |log| && L.AuthenticBundles(bundles, log)
    ensures r.Ok? ==>
              && fresh(r.value) && r.value.Valid(KeysOf(mapFn, log)) && r.value.treeSize == n
              && r.value.index == IndexUpTo(KeysOf(mapFn, log), n)
    ensures r.Ok? ==> AdmittedAll(KeysOf(mapFn, log), n, maxKeys, maxIndices)
    ensures L.CoversBundles(bundles, n) && AdmittedAll(KeysOf(mapFn, log), n, maxKeys, maxIndices) ==> r.Ok?
    ensures r.Err? ==>
              match r.error
              case MissingBundle(b) => 256 * b < n && L.BundleAt(b, n) !in bundles
              case NotAdmitted(idx) =>
                && idx < n && AdmittedAll(KeysOf(mapFn, log), idx, maxKeys, maxIndices)
                && !AdmittedAll(KeysOf(mapFn, log), idx + 1, maxKeys, maxIndices)
              case WrongCount(_) => false
  {
    hide TreeMatches, IndexUpTo, Fits;
    ghost var keys := KeysOf(mapFn, log);
    var vi := new VerifiableIndex();
    var b: nat := 0;
    while 256 * b < n
      invariant fresh(vi) && vi.Valid(keys) && vi.treeSize == Min(256 * b, n)
      invariant AdmittedAll(keys, vi.treeSize, maxKeys, maxIndices)
      decreases n - 256 * b
    {
      var path := L.BundleAt(b, n);
      if path !in bundles {
        assert L.CoversBundles(bundles, n) ==> path in bundles by { L.BundleWidth(b, n); }
        return Err(MissingBundle(b));
      }
      var bundle, expected := bundles[path], Min(n - 256 * b, 256);
      BundleEntries(bundles, log, b, n);
      if |bundle| != expected { return Err(WrongCount(b)); }
      for offset := 0 to |bundle|
        invariant fresh(vi) && vi.Valid(keys) && vi.treeSize == 256 * b + offset
        invariant AdmittedAll(keys, vi.treeSize, maxKeys, maxIndices)
      {
        var idx := 256 * b + offset;
        assert keys[idx] == mapFn(bundle[offset]);
        var done := vi.IndexEntry(idx, mapFn(bundle[offset]), maxKeys, maxIndices, keys);
        if done.Err? { return Err(NotAdmitted(idx)); }
      }
      b := b + 1;
    }
    return Ok(vi);
  }

  /** An authentic bundle at its path holds the entries of its range. */
  lemma BundleEntries(bundles: L.Bundles, log: seq<Entry>, b: nat, n: nat)
    requires L.AuthenticBundles(bundles, log) && 256 * b < n <= |log| && L.BundleAt(b, n) in bundles
    ensures var bundle := bundles[L.BundleAt(b, n)];
            && |bundle| == Min(n - 256 * b, 256) && 256 * b + |bundle| <= n
            && forall j | 0 <= j < |bundle| :: bundle[j] == log[256 * b + j]
  {
    L.BundleWidth(b, n);
    assert L.AuthenticBundle(bundles[L.BundleAt(b, n)], L.BundleAt(b, n), log);
  }

  /** Start-up: restore, and rebuild if that fails.  If a successful restore is right, as
      it is after every crash, start-up always ends at the index of the log prefix, unless
      the restore fails and the limits do not admit the entries. */
  method StartUp(crc: Checksum, file: seq<byte>, snapshot: Snapshot, bundles: L.Bundles, mapFn: MapFn, n: nat,
                 maxKeys: nat, maxIndices: nat, ghost log: seq<Entry>)
    returns (r: Result<Index, RebuildError>)
    requires n <= |log| && L.AuthenticBundles(bundles, log) && L.CoversBundles(bundles, n)
    requires Restore(crc, file, snapshot, n).Ok? ==>
               Restore(crc, file, snapshot, n).value == (n, IndexUpTo(KeysOf(mapFn, log), n))
    ensures r.Ok? ==> r.value == IndexUpTo(KeysOf(mapFn, log), n)
    ensures r.Ok? <==> Restore(crc, file, snapshot, n).Ok? || AdmittedAll(KeysOf(mapFn, log), n, maxKeys, maxIndices)
  {
    hide Restore, IndexUpTo, AdmittedAll, KeysOf, ValidEnd;
    var restored, _ := WithWal(crc, file, snapshot, n);
    if restored.Ok? { return Ok(restored.value.1); }
    var rebuilt := RebuildFromStorage(bundles, mapFn, n, maxKeys, maxIndices, log);
    if rebuilt.Err? { return Err(rebuilt.error); }
    return Ok(rebuilt.value.index);
  }
}

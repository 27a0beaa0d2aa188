/** The verifiable index over whole runs with crashes (src/worker.rs:202-243,
    src/vindex/mod.rs:591-633, src/vindex/wal.rs:88-240).

    One worker indexes batches, flushes the write-ahead log, marks the batch in the
    database and now and then takes a snapshot and truncates the log.  It may abort
    a cycle or crash after any step.  A crash keeps the synced part of the file; what
    follows it is arbitrary.  Start-up cuts the file and then restores from it; if that
    fails it rebuilds the index from the log's entries. */
module VindexProtocol {
  import opened Bits
  import opened Rfc6962
  import opened Wrappers
  import opened Wal
  import opened Vindex
  import opened VindexRecovery
  import S = SnapshotCodec

  datatype Cycle = Idle | Indexing(end: nat) | Flushed(end: nat) | Marked | Snapshotted

  /** What a process is started with: the integration batch limit, the writer's batch
      size and the two memory limits of the index. */
  datatype Settings = Settings(limit: nat, batch: nat, maxKeys: nat, maxIndices: nat)

  /** The running process: the index and the unwritten records of the batched writer. */
  datatype Live = Live(index: Index, size: nat, buffer: seq<WalRecord>, settings: Settings, cycle: Cycle)

  /** The durable part of the file reaches to entry `syncedTo`, the written part to
      `last`.  The snapshot is a file of bytes. */
  datatype State = State(log: Keys, db: nat, wal: seq<byte>, synced: nat, snapshot: Option<seq<byte>>,
                         live: Option<Live>, last: nat, syncedTo: nat)

  datatype Step =
    | Sequence(keys: seq<IndexKey>)
    | Begin
    | IndexNext
    | Flush
    | MarkIntegrated
    | TakeSnapshot(rows: S.Rows)        // in the order in which the map is listed
    | TruncateWal
    | EndCycle                          // finished, or given up after an error
    | Crash(tail: seq<byte>)
    | CutWal                            // the first part of start-up; it may crash here
    | GoLive(settings: Settings)        // the rest of it, on a file that needs no cut
    | Rebuild(settings: Settings, rows: S.Rows)

  /** The snapshot as `with_wal` reads it. */
  ghost function Loaded(crc: Checksum, snapshot: Option<seq<byte>>): Snapshot {
    if snapshot.None? then None else S.Parsed(crc, snapshot.value)
  }

  function Base(snapshot: Snapshot): nat { if snapshot.Some? then snapshot.value.0 else 0 }

  ghost function Start(crc: Checksum, s: State): nat { Base(Loaded(crc, s.snapshot)) }

  /** Write all buffered records and sync. */
  function FlushBuffer(crc: Checksum, s: State): State
    requires s.live.Some?
  {
    var wal := s.wal + EncodeAll(crc, s.live.value.buffer);
    s.(wal := wal, synced := |wal|, live := Some(s.live.value.(buffer := [])),
       last := s.last + |s.live.value.buffer|, syncedTo := s.last + |s.live.value.buffer|)
  }

  /** Append one record: at once when unbatched, else to the buffer, which is flushed
      when it is full. */
  function AppendRecord(crc: Checksum, s: State, r: WalRecord): State
    requires s.live.Some?
  {
    var k := s.live.value;
    if k.settings.batch <= 1 then s.(wal := s.wal + Encode(crc, r), last := s.last + 1)
    else
      var s1 := s.(live := Some(k.(buffer := k.buffer + [r])));
      if |k.buffer| + 1 >= k.settings.batch then FlushBuffer(crc, s1) else s1
  }

  predicate Enabled(s: State, cycle: Cycle) { s.live.Some? && s.live.value.cycle == cycle }

  function WithCycle(s: State, cycle: Cycle): State
    requires s.live.Some?
  {
    s.(live := Some(s.live.value.(cycle := cycle)))
  }

  /** The checks of `index_entry` on the next entry. */
  predicate Admits(k: Live, keys: seq<IndexKey>) {
    |keys| <= 255 && Fits(k.index, keys, k.settings.maxKeys, k.settings.maxIndices)
  }

  ghost predicate NextState(crc: Checksum, s: State, step: Step, s': State) {
    match step
    case Sequence(keys) =>
      |s.log| < I64_MAX && Distinct(keys) && s' == s.(log := s.log + [keys])
    case Begin =>
      && Enabled(s, Idle)
      && var end := Min(s.db + s.live.value.settings.limit, |s.log|);
         s.db < end && s' == WithCycle(s, Indexing(end))
    case IndexNext =>
      && s.live.Some? && s.live.value.cycle.Indexing?
      && var k := s.live.value;
         && k.size < k.cycle.end <= |s.log| < U64_LIMIT
         && var keys := s.log[k.size];
         && Admits(k, keys)
         && var s1 := s.(live := Some(k.(index := AddKeys(k.index, keys, k.size), size := k.size + 1)));
         s' == AppendRecord(crc, s1, Record(k.size, keys))
    case Flush =>
      && s.live.Some? && s.live.value.cycle.Indexing? && s.live.value.size >= s.live.value.cycle.end
      && s' == WithCycle(FlushBuffer(crc, s), Flushed(s.live.value.cycle.end))
    case MarkIntegrated =>
      && s.live.Some? && s.live.value.cycle.Flushed?
      && s' == WithCycle(s.(db := s.live.value.cycle.end), Marked)
    case TakeSnapshot(rows) =>
      && Enabled(s, Marked) && S.Lists(rows, s.live.value.index)
      && s' == WithCycle(s.(snapshot := Some(S.SnapshotBytes(crc, s.live.value.size, rows))), Snapshotted)
    case TruncateWal =>
      && Enabled(s, Snapshotted)
      && var n := s.live.value.size;
         s' == WithCycle(s.(wal := [], synced := 0, last := n, syncedTo := n), Idle)
    case EndCycle =>
      s.live.Some? && s' == WithCycle(s, Idle)
    case Crash(tail) =>
      s.live.Some? && s.synced <= |s.wal| && s' == s.(wal := s.wal[..s.synced] + tail, live := None)
    case CutWal =>
      && s.live.None? && Start(crc, s) <= s.db
      && var end := ValidEnd(crc, s.wal, 0, s.db);
         // A cut is synced.  If the restore is going to fail this is not relied upon.
         s' == if end < |s.wal| && Restored(crc, s).Ok?
               then s.(wal := s.wal[..end], synced := end, last := s.db, syncedTo := s.db)
               else s.(wal := s.wal[..end])
    case GoLive(settings) =>
      && s.live.None? && Restored(crc, s).Ok? && ValidEnd(crc, s.wal, 0, s.db) == |s.wal|
      && var (size, index) := Restored(crc, s).value;
         s' == s.(last := size, live := Some(Live(index, size, [], settings, Idle)))
    case Rebuild(settings, rows) =>
      && s.live.None? && Restored(crc, s).Err? && s.db <= |s.log| && AdmittedAll(s.log, s.db, settings.maxKeys, settings.maxIndices)
      && S.Lists(rows, IndexUpTo(s.log, s.db))
      && s' == s.(wal := [], synced := 0, snapshot := Some(S.SnapshotBytes(crc, s.db, rows)), last := s.db, syncedTo := s.db,
                  live := Some(Live(IndexUpTo(s.log, s.db), s.db, [], settings, Idle)))
  }

  /** What `with_wal` makes of the files. */
  ghost function Restored(crc: Checksum, s: State): Result<(nat, Index), RestoreError> {
    Restore(crc, s.wal, Loaded(crc, s.snapshot), s.db)
  }

  /** A snapshot that is taken in this step can hold its index. */
  ghost predicate SnapshotFits(s: State, step: Step) {
    match step
    case TakeSnapshot(_) => s.live.Some? ==> S.Storable(s.live.value.size, s.live.value.index)
    case Rebuild(_, _) => s.db <= |s.log| ==> S.Storable(s.db, IndexUpTo(s.log, s.db))
    case _ => true
  }

  ghost predicate Init(s: State) {
    exists settings :: s == State([], 0, [], 0, None, Some(Live(map[], 0, [], settings, Idle)), 0, 0)
  }

  // ---- invariant ----

  /** What is durable covers the database, and the snapshot is that of a log prefix. */
  ghost predicate DurableOk(crc: Checksum, s: State) {
    var base := Start(crc, s);
    && |s.log| <= I64_MAX && base <= s.db <= s.syncedTo <= s.last && Indexable(s.log, s.last)
    && (s.snapshot.Some? ==> Loaded(crc, s.snapshot) == Some((base, IndexUpTo(s.log, base))))
  }

  /** The file holds exactly the entries up to n on top of the snapshot. */
  ghost predicate Sound(crc: Checksum, file: seq<byte>, log: Keys, base: nat, n: nat)
    requires base <= n && Indexable(log, n)
  {
    CleanScan(crc, file, 0).Some? && Holds(CleanScan(crc, file, 0).value, log, base, n)
  }

  /** The synced part of the file is sound, and so is the whole file of a running process. */
  ghost predicate FileOk(crc: Checksum, s: State)
    requires DurableOk(crc, s)
  {
    && s.synced <= |s.wal| && Sound(crc, s.wal[..s.synced], s.log, Start(crc, s), s.syncedTo)
    && (s.live.Some? ==> Sound(crc, s.wal, s.log, Start(crc, s), s.last))
  }

  /** The process has indexed `size` entries; they are in the file or in the buffer. */
  ghost predicate LiveOk(s: State, k: Live)
    requires Indexable(s.log, s.last)
  {
    && s.last <= k.size && Indexable(s.log, k.size)
    && s.db <= k.size <= s.db + k.settings.limit
    && k.index == IndexUpTo(s.log, k.size)
    && k.buffer == Records(s.log, s.last, k.size)
    && match k.cycle
       case Idle => true
       case Indexing(end) => s.db < end <= |s.log| && k.size <= end <= s.db + k.settings.limit
       case Flushed(end) => s.db < end == k.size == s.syncedTo && k.buffer == []
       case Marked => s.db == k.size == s.syncedTo && k.buffer == []
       case Snapshotted => s.db == k.size == s.syncedTo && k.buffer == []
  }

  /** A buffer never holds a whole batch. */
  ghost predicate BufferOk(k: Live) { k.buffer == [] || |k.buffer| < k.settings.batch }

  ghost predicate Inv(crc: Checksum, s: State) {
    && DurableOk(crc, s) && FileOk(crc, s)
    && (s.live.Some? ==> LiveOk(s, s.live.value) && BufferOk(s.live.value))
    && (Enabled(s, Snapshotted) ==> Start(crc, s) == s.db)
  }

  // ---- records ----

  lemma RecordsStable(log: Keys, log': Keys, a: nat, b: nat)
    requires Indexable(log, b) && log <= log' && a <= b
    ensures Indexable(log', b) && Records(log, a, b) == Records(log', a, b)
  {
  }

  lemma RecordsSplit(log: Keys, a: nat, b: nat, c: nat)
    requires a <= b <= c && Indexable(log, c)
    ensures Records(log, a, b) + Records(log, b, c) == Records(log, a, c)
  {
  }

  lemma EncodeNothing(crc: Checksum)
    ensures EncodeAll(crc, []) == []
  {
  }

  lemma EncodeSnoc(crc: Checksum, a: seq<WalRecord>, r: WalRecord)
    ensures EncodeAll(crc, a + [r]) == EncodeAll(crc, a) + Encode(crc, r)
  {
    hide Encode;
    assert (a + [r])[..|a|] == a;
  }

  /** Appending records to a sound file. */
  lemma {:induction false} CleanScanAppendAll(crc: Checksum, file: seq<byte>, rs: seq<WalRecord>)
    requires CleanScan(crc, file, 0).Some?
    ensures CleanScan(crc, file + EncodeAll(crc, rs), 0) == Some(CleanScan(crc, file, 0).value + rs)
    decreases |rs|
  {
    hide CleanScan, Encode, EncodeAll;
    if rs == [] {
      EncodeNothing(crc);
      assert file + [] == file && CleanScan(crc, file, 0).value + [] == CleanScan(crc, file, 0).value;
    } else {
      var init, last := rs[..|rs| - 1], rs[|rs| - 1];
      assert init + [last] == rs;
      CleanScanAppendAll(crc, file, init);
      EncodeSnoc(crc, init, last);
      CleanScanAppend(crc, file + EncodeAll(crc, init), 0, last);
      assert file + EncodeAll(crc, rs) == (file + EncodeAll(crc, init)) + Encode(crc, last);
      assert (CleanScan(crc, file, 0).value + init) + [last] == CleanScan(crc, file, 0).value + rs;
    }
  }

  lemma EncodeOne(crc: Checksum, r: WalRecord)
    ensures EncodeAll(crc, [r]) == Encode(crc, r)
  {
    hide Encode;
    EncodeNothing(crc);
    EncodeSnoc(crc, [], r);
    assert [] + [r] == [r] && [] + Encode(crc, r) == Encode(crc, r);
  }

  /** Sound records followed by the next ones are sound. */
  lemma HoldsMore(rs: seq<WalRecord>, log: Keys, base: nat, b: nat, c: nat)
    requires base <= b <= c && Indexable(log, c) && Holds(rs, log, base, b)
    ensures Holds(rs + Records(log, b, c), log, base, c)
  {
    var more := Records(log, b, c);
    FromConcat(rs, more, base);
    FromAll(more, base);
    RecordsSplit(log, base, b, c);
  }

  lemma {:induction false} FromAll(rs: seq<WalRecord>, base: nat)
    requires forall r | r in rs :: r.index >= base
    ensures From(rs, base) == rs
  {
    if rs != [] {
      var init, last := rs[..|rs| - 1], rs[|rs| - 1];
      assert rs == init + [last] && last in rs;
      FromAll(init, base);
    }
  }

  /** Appending the next entries to a sound file. */
  lemma SoundMore(crc: Checksum, file: seq<byte>, log: Keys, base: nat, b: nat, c: nat)
    requires base <= b <= c && Indexable(log, c) && Sound(crc, file, log, base, b)
    ensures Sound(crc, file + EncodeAll(crc, Records(log, b, c)), log, base, c)
  {
    hide EncodeAll, CleanScan, Holds;
    CleanScanAppendAll(crc, file, Records(log, b, c));
    HoldsMore(CleanScan(crc, file, 0).value, log, base, b, c);
  }

  lemma SoundStable(crc: Checksum, file: seq<byte>, log: Keys, log': Keys, base: nat, n: nat)
    requires base <= n && Indexable(log, n) && log <= log' && Sound(crc, file, log, base, n)
    ensures Indexable(log', n) && Sound(crc, file, log', base, n)
  {
    hide CleanScan;
    RecordsStable(log, log', base, n);
  }

  // ---- preservation ----

  lemma SequenceKeepsInv(crc: Checksum, s: State, keys: seq<IndexKey>, s': State)
    requires Inv(crc, s) && NextState(crc, s, Sequence(keys), s')
    ensures Inv(crc, s')
  {
    hide Sound, IndexUpTo, Distinct;
    var base := Start(crc, s);
    assert Start(crc, s') == base;
    IndexPrefix(s.log, s'.log, base);
    SoundStable(crc, s.wal[..s.synced], s.log, s'.log, base, s.syncedTo);
    if s.live.Some? {
      SoundStable(crc, s.wal, s.log, s'.log, base, s.last);
      IndexPrefix(s.log, s'.log, s.live.value.size);
      RecordsStable(s.log, s'.log, s.last, s.live.value.size);
    }
  }

  /** After a flush everything that is indexed is durable. */
  lemma FlushedFile(crc: Checksum, s: State)
    requires DurableOk(crc, s) && FileOk(crc, s) && s.live.Some? && LiveOk(s, s.live.value)
    ensures var s1 := FlushBuffer(crc, s);
            s1.syncedTo == s1.last == s.live.value.size && DurableOk(crc, s1) && FileOk(crc, s1)
  {
    hide EncodeAll, Sound, IndexUpTo;
    SoundMore(crc, s.wal, s.log, Start(crc, s), s.last, s.live.value.size);
    var wal := FlushBuffer(crc, s).wal;
    assert wal[..|wal|] == wal;
  }

  lemma FlushStepKeepsInv(crc: Checksum, s: State, s': State)
    requires Inv(crc, s) && NextState(crc, s, Flush, s')
    ensures Inv(crc, s')
  {
    hide EncodeAll, Sound, IndexUpTo;
    FlushedFile(crc, s);
    assert Records(s.log, s'.last, s'.last) == [];
  }

  /** The process after the next entry, before its record is written. */
  ghost function Indexed(k: Live, keys: seq<IndexKey>): Live {
    k.(index := AddKeys(k.index, keys, k.size), size := k.size + 1)
  }

  lemma IndexNextKeepsInv(crc: Checksum, s: State, s': State)
    requires Inv(crc, s) && NextState(crc, s, IndexNext, s')
    ensures Inv(crc, s')
  {
    hide DurableOk, FileOk, AppendRecord;
    var k := s.live.value;
    if k.settings.batch <= 1 { UnbatchedKeepsInv(crc, s, s'); } else { BatchedKeepsInv(crc, s, s'); }
  }

  lemma IndexedOk(s: State, k: Live)
    requires Indexable(s.log, s.last) && LiveOk(s, k) && k.cycle.Indexing? && k.size < k.cycle.end <= |s.log| < U64_LIMIT
    requires Admits(k, s.log[k.size])
    ensures var k1 := Indexed(k, s.log[k.size]);
            && Indexable(s.log, k1.size) && k1.index == IndexUpTo(s.log, k1.size)
            && k.buffer + [Record(k.size, s.log[k.size])] == Records(s.log, s.last, k1.size)
  {
    hide AddKeys, Fits;
    RecordsSplit(s.log, s.last, k.size, k.size + 1);
    assert Records(s.log, k.size, k.size + 1) == [Record(k.size, s.log[k.size])];
  }

  lemma UnbatchedKeepsInv(crc: Checksum, s: State, s': State)
    requires Inv(crc, s) && NextState(crc, s, IndexNext, s') && s.live.value.settings.batch <= 1
    ensures Inv(crc, s')
  {
    hide EncodeAll, Encode, Sound, AddKeys, Fits, IndexUpTo;
    var k := s.live.value;
    var r := Record(k.size, s.log[k.size]);
    IndexedOk(s, k);
    assert Records(s.log, s.last, s.last + 1) == [r];
    EncodeOne(crc, r);
    SoundMore(crc, s.wal, s.log, Start(crc, s), s.last, s.last + 1);
    assert Records(s.log, s'.last, s'.last) == [];
    assert s'.wal[..s.synced] == s.wal[..s.synced];
  }

  lemma BatchedKeepsInv(crc: Checksum, s: State, s': State)
    requires Inv(crc, s) && NextState(crc, s, IndexNext, s') && s.live.value.settings.batch > 1
    ensures Inv(crc, s')
  {
    hide EncodeAll, Encode, Sound, AddKeys, Fits, IndexUpTo, FlushBuffer;
    var k := s.live.value;
    IndexedOk(s, k);
    var s1 := s.(live := Some(Indexed(k, s.log[k.size]).(buffer := k.buffer + [Record(k.size, s.log[k.size])])));
    assert LiveOk(s1, s1.live.value);
    FlushedFile(crc, s1);
    FlushEffect(crc, s1);
    assert Records(s.log, k.size + 1, k.size + 1) == [];
  }

  lemma FlushEffect(crc: Checksum, s: State)
    requires s.live.Some?
    ensures var s1 := FlushBuffer(crc, s);
            && s1.log == s.log && s1.db == s.db && s1.snapshot == s.snapshot
            && s1.live == Some(s.live.value.(buffer := []))
  {
  }

  /** Steps that only move within a cycle or mark the database. */
  lemma CycleKeepsInv(crc: Checksum, s: State, step: Step, s': State)
    requires Inv(crc, s) && NextState(crc, s, step, s')
    requires step.Begin? || step.MarkIntegrated? || step.EndCycle?
    ensures Inv(crc, s')
  {
    hide Sound, IndexUpTo;
    assert Start(crc, s') == Start(crc, s);
  }

  /** A storable snapshot is read back as it was taken, whatever order its rows are in,
      and nothing in the file counts any more. */
  lemma SnapshotKeepsInv(crc: Checksum, s: State, rows: S.Rows, s': State)
    requires Inv(crc, s) && NextState(crc, s, TakeSnapshot(rows), s') && SnapshotFits(s, TakeSnapshot(rows))
    ensures Inv(crc, s')
  {
    hide Sound, IndexUpTo, S.Parsed, S.SnapshotBytes, S.Lists, S.Storable;
    var k := s.live.value;
    S.SnapshotRoundTrip(crc, k.size, k.index, rows);
    assert Loaded(crc, s'.snapshot) == Some((k.size, k.index));
    SoundAbove(crc, s.wal[..s.synced], s.log, Start(crc, s), s.syncedTo);
    SoundAbove(crc, s.wal, s.log, Start(crc, s), s.last);
  }

  /** With a newer snapshot a sound file has nothing to add. */
  lemma SoundAbove(crc: Checksum, file: seq<byte>, log: Keys, base: nat, n: nat)
    requires base <= n && Indexable(log, n) && Sound(crc, file, log, base, n)
    ensures Sound(crc, file, log, n, n)
  {
    hide CleanScan;
    FromNothing(CleanScan(crc, file, 0).value, n);
    assert Records(log, n, n) == [];
  }

  lemma TruncateKeepsInv(crc: Checksum, s: State, s': State)
    requires Inv(crc, s) && NextState(crc, s, TruncateWal, s')
    ensures Inv(crc, s')
  {
    hide IndexUpTo, Sound;
    assert Start(crc, s') == Start(crc, s) == s.db;
    EmptySound(crc, s.log, s.db);
    assert s'.wal[..0] == [];
    assert Records(s.log, s.db, s.db) == [];
  }

  /** An empty file holds nothing beyond the snapshot. */
  lemma EmptySound(crc: Checksum, log: Keys, n: nat)
    requires Indexable(log, n)
    ensures Sound(crc, [], log, n, n)
  {
    AtEnd(crc, []);
  }

  lemma CrashKeepsInv(crc: Checksum, s: State, tail: seq<byte>, s': State)
    requires Inv(crc, s) && NextState(crc, s, Crash(tail), s')
    ensures Inv(crc, s')
  {
    hide Sound, IndexUpTo;
    assert s'.wal[..s.synced] == s.wal[..s.synced];
    assert Start(crc, s') == Start(crc, s);
  }

  /** Nothing in the tail that a crash left behind is replayed. */
  ghost predicate TailHarmless(crc: Checksum, s: State)
    requires s.synced <= |s.wal|
  {
    Harmless(crc, s.wal, s.synced, Start(crc, s), s.syncedTo, s.db)
  }

  /** The crash theorem: with any tail, the index is restored if and only if the tail is
      harmless, and then to exactly the database size, with the map folded over that
      prefix of the log. */
  lemma RestoreAfterCrash(crc: Checksum, s: State)
    requires Inv(crc, s) && s.live.None?
    ensures var r := Restored(crc, s);
            && (r.Ok? <==> TailHarmless(crc, s))
            && (r.Ok? ==> r.value == (s.db, IndexUpTo(s.log, s.db)))
            && (r.Ok? ==> Holds(ValidRecords(crc, s.wal, 0, s.db), s.log, Start(crc, s), s.db))
  {
    hide Restore, CleanScan, ValidRecords, Holds, IndexUpTo, Harmless;
    RestoreGenuine(crc, s.wal, s.synced, s.log, s.syncedTo, Loaded(crc, s.snapshot), s.db);
  }

  /** A crash that only loses the end of what was written leaves a harmless tail. */
  lemma LostTailHarmless(crc: Checksum, s: State, keep: nat, s': State)
    requires Inv(crc, s) && s.live.Some? && s.synced <= keep <= |s.wal|
    requires NextState(crc, s, Crash(s.wal[s.synced..keep]), s')
    ensures s'.synced <= |s'.wal| && TailHarmless(crc, s')
  {
    hide CleanScan, Holds, IndexUpTo, Harmless, ValidRecords;
    assert s'.wal == s.wal[..keep];
    WrittenTailHarmless(crc, s.wal, s.synced, keep, s.log, Start(crc, s), s.syncedTo, s.last, s.db);
  }

  /** Ten bytes after a file that ends at the database size are enough to stop the
      restore, whatever the checksum function. */
  lemma LegacyTailHarms(crc: Checksum, s: State)
    requires Inv(crc, s) && s.live.None? && s.syncedTo == s.db && Start(crc, s) < s.db
    requires s.wal[s.synced..] == LegacyRecord(Start(crc, s))
    ensures Restored(crc, s).Err?
  {
    hide Restore, CleanScan, ValidRecords, Holds, IndexUpTo, Harmless, LegacyRecord;
    LegacyJunkHarms(crc, s.wal, s.synced, Start(crc, s), s.db);
    RestoreAfterCrash(crc, s);
  }

  /** Cutting the file keeps its sound part, and makes all of it sound if the restore
      succeeds; a crash may follow. */
  lemma CutKeepsInv(crc: Checksum, s: State, s': State)
    requires Inv(crc, s) && NextState(crc, s, CutWal, s')
    ensures Inv(crc, s')
  {
    hide Restore, CleanScan, ValidRecords, ValidEnd, Holds, IndexUpTo, Harmless;
    var end := ValidEnd(crc, s.wal, 0, s.db);
    assert Start(crc, s') == Start(crc, s);
    if end < |s.wal| && Restored(crc, s).Ok? {
      RestoreAfterCrash(crc, s);
      TruncatedScan(crc, s.wal, 0, s.db);
      assert s'.wal[..end] == s'.wal;
    } else {
      if end < |s.wal| { FailedCut(crc, s); }
      assert s'.wal[..s.synced] == s.wal[..s.synced];
    }
  }

  /** If the restore is going to fail, the cut is in the tail. */
  lemma FailedCut(crc: Checksum, s: State)
    requires Inv(crc, s) && s.live.None? && Restored(crc, s).Err?
    ensures s.synced <= ValidEnd(crc, s.wal, 0, s.db)
  {
    hide Restore, CleanScan, ValidRecords, ValidEnd, Holds, IndexUpTo;
    RestoreAfterCrash(crc, s);
    HeldReaches(CleanScan(crc, s.wal[..s.synced], 0).value, s.log, Start(crc, s), s.syncedTo, s.db);
    EndBeyond(crc, s.wal, s.synced, 0, s.db);
  }

  /** A file that needs no cut ends at the database size, and all of it is sound. */
  lemma GoLiveKeepsInv(crc: Checksum, s: State, settings: Settings, s': State)
    requires Inv(crc, s) && NextState(crc, s, GoLive(settings), s')
    ensures Inv(crc, s')
  {
    hide Restore, CleanScan, ValidRecords, ValidEnd, Holds, IndexUpTo, Harmless;
    assert Start(crc, s') == Start(crc, s);
    RestoreAfterCrash(crc, s);
    TruncatedScan(crc, s.wal, 0, s.db);
    assert s.wal[..|s.wal|] == s.wal;
    NoCutNoMore(crc, s.wal, s.synced, s.log, Start(crc, s), s.syncedTo, s.db);
    assert Records(s.log, s.db, s.db) == [];
  }

  /** A rebuild starts from nothing and ends in a fresh snapshot. */
  lemma RebuildKeepsInv(crc: Checksum, s: State, settings: Settings, rows: S.Rows, s': State)
    requires Inv(crc, s) && NextState(crc, s, Rebuild(settings, rows), s') && SnapshotFits(s, Rebuild(settings, rows))
    ensures Inv(crc, s')
  {
    hide Sound, IndexUpTo, Restore, S.Parsed, S.SnapshotBytes, S.Lists, S.Storable, AdmittedAll;
    S.SnapshotRoundTrip(crc, s.db, IndexUpTo(s.log, s.db), rows);
    assert Loaded(crc, s'.snapshot) == Some((s.db, IndexUpTo(s.log, s.db)));
    EmptySound(crc, s.log, s.db);
    assert s'.wal[..0] == [];
    assert Records(s.log, s.db, s.db) == [];
  }

  lemma NextKeepsInv(crc: Checksum, s: State, step: Step, s': State)
    requires Inv(crc, s) && NextState(crc, s, step, s') && SnapshotFits(s, step)
    ensures Inv(crc, s')
    ensures s.log <= s'.log && s.db <= s'.db
  {
    hide *;
    NextGrows(crc, s, step, s');
    match step {
      case Sequence(keys) => SequenceKeepsInv(crc, s, keys, s');
      case IndexNext => IndexNextKeepsInv(crc, s, s');
      case Flush => FlushStepKeepsInv(crc, s, s');
      case TakeSnapshot(rows) => SnapshotKeepsInv(crc, s, rows, s');
      case TruncateWal => TruncateKeepsInv(crc, s, s');
      case Crash(tail) => CrashKeepsInv(crc, s, tail, s');
      case CutWal => CutKeepsInv(crc, s, s');
      case GoLive(settings) => GoLiveKeepsInv(crc, s, settings, s');
      case Rebuild(settings, rows) => RebuildKeepsInv(crc, s, settings, rows, s');
      case _ => CycleKeepsInv(crc, s, step, s');
    }
  }

  /** The log and the database size never shrink. */
  lemma NextGrows(crc: Checksum, s: State, step: Step, s': State)
    requires Inv(crc, s) && NextState(crc, s, step, s')
    ensures s.log <= s'.log && s.db <= s'.db
  {
    hide EncodeAll, IndexUpTo, Restore, ValidEnd, AppendRecord, FileOk, DurableOk;
    if step.IndexNext? { AppendKeepsLog(crc, s); }
  }

  lemma AppendKeepsLog(crc: Checksum, s: State)
    requires s.live.Some?
    ensures forall r, live ::
              var s1 := AppendRecord(crc, s.(live := Some(live)), r);
              s1.log == s.log && s1.db == s.db
  {
  }

  /** A rebuilt index is within the limits it is rebuilt with. */
  lemma RebuiltWithinLimits(crc: Checksum, s: State, settings: Settings, rows: S.Rows, s': State)
    requires NextState(crc, s, Rebuild(settings, rows), s') && settings.maxIndices > 0
    ensures s'.live.Some? && WithinLimits(s'.live.value.index, settings.maxKeys, settings.maxIndices)
  {
    hide AdmittedAll, WithinLimits, IndexUpTo, Restored;
    AdmittedExactly(s.log, s.db, settings.maxKeys, settings.maxIndices);
  }

  // ---- whole runs ----

  ghost predicate Run(crc: Checksum, states: seq<State>, steps: seq<Step>) {
    && |states| == |steps| + 1
    && Init(states[0])
    && forall i | 0 <= i < |steps| :: NextState(crc, states[i], steps[i], states[i + 1])
  }

  /** Every snapshot that is taken can hold its index: ordered lists with counts below
      2^32, which `SnapshotCodec.SnapshotRoundTrip` shows to be exactly what is needed. */
  ghost predicate SnapshotsFit(states: seq<State>, steps: seq<Step>)
    requires |states| == |steps| + 1
  {
    forall i | 0 <= i < |steps| :: SnapshotFits(states[i], steps[i])
  }

  lemma InitInv(crc: Checksum, s: State)
    requires Init(s)
    ensures Inv(crc, s)
  {
    hide Sound;
    EmptySound(crc, [], 0);
  }

  lemma {:induction false} RunInvariant(crc: Checksum, states: seq<State>, steps: seq<Step>, i: nat)
    requires Run(crc, states, steps) && SnapshotsFit(states, steps) && i < |states|
    ensures Inv(crc, states[i])
  {
    hide NextState, Inv, Init, SnapshotFits;
    if i == 0 {
      InitInv(crc, states[0]);
    } else {
      RunInvariant(crc, states, steps, i - 1);
      assert NextState(crc, states[i - 1], steps[i - 1], states[i - 1 + 1]) && SnapshotFits(states[i - 1], steps[i - 1]);
      NextKeepsInv(crc, states[i - 1], steps[i - 1], states[i]);
    }
  }

  /** In every reachable state: a running index is the fold of `map_fn` over the
      entries it has counted; a crashed one restores to that fold at the database size,
      if and only if the tail that the crash left behind is harmless. */
  lemma CrashSafety(crc: Checksum, states: seq<State>, steps: seq<Step>, i: nat)
    requires Run(crc, states, steps) && SnapshotsFit(states, steps) && i < |states|
    ensures var s := states[i];
            && s.db <= |s.log|
            && match s.live
               case Some(k) => s.db <= k.size <= |s.log| && k.index == IndexUpTo(s.log, k.size)
               case None =>
                 && s.synced <= |s.wal|
                 && (Restored(crc, s).Ok? <==> TailHarmless(crc, s))
                 && (Restored(crc, s).Ok? ==> Restored(crc, s).value == (s.db, IndexUpTo(s.log, s.db)))
  {
    hide Restored, IndexUpTo, NextState, Init, Sound, Harmless;
    RunInvariant(crc, states, steps, i);
    if states[i].live.None? { RestoreAfterCrash(crc, states[i]); }
  }

  /** Start-up always gets to the fold at the database size: it restores, after cutting the
      file, or, if the tail is harmful, rebuilds, as far as the memory limits admit the
      entries. */
  lemma StartUpEnds(crc: Checksum, states: seq<State>, steps: seq<Step>, i: nat, settings: Settings, rows: S.Rows)
    returns (more: seq<Step>, after: seq<State>)
    requires Run(crc, states, steps) && SnapshotsFit(states, steps) && i < |states| && states[i].live.None?
    requires Restored(crc, states[i]).Err? && states[i].db <= |states[i].log| ==>
               && AdmittedAll(states[i].log, states[i].db, settings.maxKeys, settings.maxIndices)
               && S.Lists(rows, IndexUpTo(states[i].log, states[i].db))
    ensures |after| == |more| > 0 && |more| <= 2
    ensures NextState(crc, states[i], more[0], after[0]) && (|more| == 2 ==> NextState(crc, after[0], more[1], after[1]))
    ensures var s := after[|after| - 1];
            && s.live.Some? && s.log == states[i].log && s.db == states[i].db <= |s.log|
            && s.live.value.size == s.db && s.live.value.index == IndexUpTo(s.log, s.db)
  {
    hide Restore, IndexUpTo, NextState, Init, Inv, AdmittedAll, S.Lists, S.SnapshotBytes;
    RunInvariant(crc, states, steps, i);
    var s := states[i];
    SizesOrdered(crc, s);
    if Restored(crc, s).Ok? {
      var s1 := AfterCut(crc, s);
      var s2 := AfterGoLive(crc, s1, settings);
      more, after := [CutWal, GoLive(settings)], [s1, s2];
    } else {
      var s1 := AfterRebuild(crc, s, settings, rows);
      more, after := [Rebuild(settings, rows)], [s1];
    }
  }

  lemma SizesOrdered(crc: Checksum, s: State)
    requires Inv(crc, s)
    ensures Start(crc, s) <= s.db <= |s.log|
  {
    hide Sound, IndexUpTo;
  }

  lemma AfterCut(crc: Checksum, s: State) returns (s1: State)
    requires Inv(crc, s) && s.live.None? && Restored(crc, s).Ok?
    ensures NextState(crc, s, CutWal, s1) && Inv(crc, s1) && s1.log == s.log && s1.db == s.db
    ensures s1.live.None? && Restored(crc, s1).Ok? && ValidEnd(crc, s1.wal, 0, s1.db) == |s1.wal|
  {
    hide Restore, ValidEnd, IndexUpTo, Sound, Inv;
    SizesOrdered(crc, s);
    var end := ValidEnd(crc, s.wal, 0, s.db);
    s1 := if end < |s.wal| then s.(wal := s.wal[..end], synced := end, last := s.db, syncedTo := s.db)
          else s.(wal := s.wal[..end]);
    assert s1.wal == s.wal[..end];
    CutKeepsInv(crc, s, s1);
    CutTwice(crc, s.wal, Loaded(crc, s.snapshot), s.db);
  }

  lemma SyncedInside(crc: Checksum, s: State)
    requires Inv(crc, s)
    ensures s.synced <= |s.wal|
  {
    hide Sound, IndexUpTo;
  }

  lemma AfterGoLive(crc: Checksum, s: State, settings: Settings) returns (s': State)
    requires Inv(crc, s) && s.live.None? && Restored(crc, s).Ok? && ValidEnd(crc, s.wal, 0, s.db) == |s.wal|
    ensures s.db <= |s.log|
    ensures NextState(crc, s, GoLive(settings), s') && s'.log == s.log && s'.db == s.db && s'.live.Some?
    ensures s'.live.value.size == s.db && s'.live.value.index == IndexUpTo(s.log, s.db)
  {
    hide Restore, ValidEnd, IndexUpTo, Inv, Holds, ValidRecords, TailHarmless;
    SizesOrdered(crc, s);
    SyncedInside(crc, s);
    RestoreAfterCrash(crc, s);
    var (size, index) := Restored(crc, s).value;
    s' := s.(last := size, live := Some(Live(index, size, [], settings, Idle)));
  }

  lemma AfterRebuild(crc: Checksum, s: State, settings: Settings, rows: S.Rows) returns (s': State)
    requires s.live.None? && Restored(crc, s).Err? && s.db <= |s.log| && AdmittedAll(s.log, s.db, settings.maxKeys, settings.maxIndices)
    requires S.Lists(rows, IndexUpTo(s.log, s.db))
    ensures NextState(crc, s, Rebuild(settings, rows), s') && s'.log == s.log && s'.db == s.db && s'.live.Some?
    ensures s'.live.value.size == s.db && s'.live.value.index == IndexUpTo(s.log, s.db)
  {
    hide Restore, IndexUpTo, AdmittedAll, S.Lists, S.SnapshotBytes;
    s' := s.(wal := [], synced := 0, snapshot := Some(S.SnapshotBytes(crc, s.db, rows)), last := s.db, syncedTo := s.db,
             live := Some(Live(IndexUpTo(s.log, s.db), s.db, [], settings, Idle)));
  }

  /** In particular it always restores after a crash that only loses the end of what was
      written, wherever that cuts a record. */
  lemma LostWritesRestored(crc: Checksum, states: seq<State>, steps: seq<Step>, i: nat, keep: nat)
    requires Run(crc, states, steps) && SnapshotsFit(states, steps) && i < |steps|
    requires var s := states[i];
             s.live.Some? && s.synced <= keep <= |s.wal| && steps[i] == Crash(s.wal[s.synced..keep])
    ensures var s' := states[i + 1];
            s'.db <= |s'.log| && Restored(crc, s') == Ok((s'.db, IndexUpTo(s'.log, s'.db)))
  {
    hide Restored, IndexUpTo, Inv, Init, NextState;
    assert NextState(crc, states[i], steps[i], states[i + 1]);
    RunInvariant(crc, states, steps, i);
    LostRestored(crc, states[i], keep, states[i + 1]);
  }

  lemma LostRestored(crc: Checksum, s: State, keep: nat, s': State)
    requires Inv(crc, s) && s.live.Some? && s.synced <= keep <= |s.wal|
    requires NextState(crc, s, Crash(s.wal[s.synced..keep]), s')
    ensures s'.db <= |s'.log|
    ensures Restored(crc, s') == Ok((s'.db, IndexUpTo(s'.log, s'.db)))
  {
    hide Restored, IndexUpTo, FileOk, LiveOk, TailHarmless, Loaded, Harmless, Holds;
    LostTailHarmless(crc, s, keep, s');
    CrashKeepsInv(crc, s, s.wal[s.synced..keep], s');
    RestoreAfterCrash(crc, s');
  }

  /** An entry with more than 255 keys is sequenced, and stops integration for good: the
      database size never passes it. */
  lemma OversizedStops(crc: Checksum, states: seq<State>, steps: seq<Step>, i: nat, j: nat)
    requires Run(crc, states, steps) && SnapshotsFit(states, steps) && i < |states|
    requires j < |states[i].log| && |states[i].log[j]| > 255
    ensures states[i].db <= j
  {
    hide IndexUpTo, NextState, Init, FileOk, LiveOk, Start;
    RunInvariant(crc, states, steps, i);
    assert Indexable(states[i].log, states[i].last) && states[i].db <= states[i].last;
  }

  // ---- snapshots that fit, and those that do not ----

  /** The limits under which every snapshot fits: lists are counted in 32 bits, keys in
      64. */
  predicate Sane(settings: Settings) {
    settings.maxKeys < U64_LIMIT && settings.maxIndices < 0x1_0000_0000
  }

  ghost predicate AllSane(states: seq<State>, steps: seq<Step>)
    requires |states| > 0
  {
    && (states[0].live.Some? ==> Sane(states[0].live.value.settings))
    && forall i | 0 <= i < |steps| ::
         && (steps[i].GoLive? ==> Sane(steps[i].settings))
         && (steps[i].Rebuild? ==> Sane(steps[i].settings))
  }

  /** Every index up to n entries is within the limits of a snapshot. */
  ghost predicate Small(log: Keys, n: nat)
    requires n <= |log|
  {
    forall i | 0 <= i <= n :: WithinLimits(IndexUpTo(log, i), U64_LIMIT - 1, 0xFFFF_FFFF)
  }

  ghost predicate SmallOk(s: State) {
    && s.db <= s.last <= |s.log| && Small(s.log, s.last)
    && (s.live.Some? ==>
          s.live.value.size <= |s.log| && Small(s.log, s.live.value.size) && Sane(s.live.value.settings))
  }

  lemma SmallStable(log: Keys, log': Keys, n: nat)
    requires n <= |log| && log <= log' && Small(log, n)
    ensures Small(log', n)
  {
    hide IndexUpTo, WithinLimits;
    forall i | 0 <= i <= n ensures WithinLimits(IndexUpTo(log', i), U64_LIMIT - 1, 0xFFFF_FFFF) {
      IndexPrefix(log, log', i);
    }
  }

  lemma SmallPrefix(log: Keys, m: nat, n: nat)
    requires m <= n <= |log| && Small(log, n)
    ensures Small(log, m)
  {
  }

  /** An admitted entry keeps the index small enough for a snapshot. */
  lemma SmallerLimits(log: Keys, k: Live)
    requires k.size < |log| && Small(log, k.size) && Sane(k.settings)
    requires k.index == IndexUpTo(log, k.size) && Admits(k, log[k.size])
    ensures Small(log, k.size + 1)
  {
    var n := k.size;
    FitsMore(k.index, log[n], k.settings);
    hide IndexUpTo, WithinLimits, Fits;
    assert WithinLimits(IndexUpTo(log, n), U64_LIMIT - 1, 0xFFFF_FFFF);
    LimitsExact(log, n, U64_LIMIT - 1, 0xFFFF_FFFF);
    forall i | 0 <= i <= n + 1 ensures WithinLimits(IndexUpTo(log, i), U64_LIMIT - 1, 0xFFFF_FFFF) {
      if i <= n { assert WithinLimits(IndexUpTo(log, i), U64_LIMIT - 1, 0xFFFF_FFFF); }
    }
  }

  lemma FitsMore(m: Index, keys: seq<IndexKey>, settings: Settings)
    requires Sane(settings) && Fits(m, keys, settings.maxKeys, settings.maxIndices)
    ensures Fits(m, keys, U64_LIMIT - 1, 0xFFFF_FFFF)
  {
    hide NewKeys;
  }

  lemma SmallStorable(log: Keys, n: nat)
    requires n <= |log| && n < U64_LIMIT && Small(log, n)
    ensures S.Storable(n, IndexUpTo(log, n))
  {
    hide IndexUpTo, S.Storable;
    assert WithinLimits(IndexUpTo(log, n), U64_LIMIT - 1, 0xFFFF_FFFF);
    S.IndexStorable(log, n);
  }

  lemma SmallFits(crc: Checksum, s: State, step: Step)
    requires Inv(crc, s) && SmallOk(s)
    ensures SnapshotFits(s, step)
  {
    hide Sound, IndexUpTo, Small, S.Storable;
    if s.live.Some? { SmallStorable(s.log, s.live.value.size); }
    SmallPrefix(s.log, s.db, s.last);
    SmallStorable(s.log, s.db);
  }

  lemma IndexNextKeepsSmall(crc: Checksum, s: State, s': State)
    requires Inv(crc, s) && SmallOk(s) && NextState(crc, s, IndexNext, s') && Inv(crc, s')
    ensures SmallOk(s')
  {
    hide Sound, IndexUpTo, Small, Fits, AddKeys, EncodeAll, FileOk;
    SizesOrdered(crc, s');
    SmallerLimits(s.log, s.live.value);
  }

  lemma NextKeepsSmall(crc: Checksum, s: State, step: Step, s': State)
    requires Inv(crc, s) && SmallOk(s) && NextState(crc, s, step, s') && Inv(crc, s')
    requires (step.GoLive? ==> Sane(step.settings)) && (step.Rebuild? ==> Sane(step.settings))
    ensures SmallOk(s')
  {
    hide Sound, IndexUpTo, Small, Admits, AddKeys, EncodeAll, Restore, ValidEnd, FileOk, AppendRecord, AdmittedAll;
    SizesOrdered(crc, s');
    match step {
      case Sequence(_) =>
        SmallStable(s.log, s'.log, s.last);
        if s.live.Some? { SmallStable(s.log, s'.log, s.live.value.size); }
      case IndexNext => IndexNextKeepsSmall(crc, s, s');
      case CutWal => SmallPrefix(s.log, s.db, s.last);
      case GoLive(_) => RestoreAfterCrash(crc, s); SmallPrefix(s.log, s.db, s.last);
      case Rebuild(_, _) => SmallPrefix(s.log, s.db, s.last);
      case _ =>
    }
  }

  /** With limits that snapshots can count, every snapshot of every run fits. */
  lemma {:induction false} SaneRunsFit(crc: Checksum, states: seq<State>, steps: seq<Step>, i: nat)
    requires Run(crc, states, steps) && AllSane(states, steps) && i < |states|
    ensures Inv(crc, states[i]) && SmallOk(states[i])
    ensures i < |steps| ==> SnapshotFits(states[i], steps[i])
    decreases i
  {
    hide NextState, Inv, SmallOk, SnapshotFits, Init;
    if i == 0 {
      InitInv(crc, states[0]);
      InitSmall(states[0]);
    } else {
      SaneRunsFit(crc, states, steps, i - 1);
      assert NextState(crc, states[i - 1], steps[i - 1], states[i - 1 + 1]);
      NextKeepsInv(crc, states[i - 1], steps[i - 1], states[i]);
      NextKeepsSmall(crc, states[i - 1], steps[i - 1], states[i]);
    }
    if i < |steps| { SmallFits(crc, states[i], steps[i]); }
  }

  lemma InitSmall(s: State)
    requires Init(s) && (s.live.Some? ==> Sane(s.live.value.settings))
    ensures SmallOk(s)
  {
  }

  /** A snapshot that does not fit loses the index: once the file is truncated, no restart
      gets the fold back from it. */
  lemma UnfitSnapshotLoses(crc: Checksum, s: State, rows: S.Rows)
    requires Inv(crc, s) && Enabled(s, Marked) && S.Lists(rows, s.live.value.index)
    requires !SnapshotFits(s, TakeSnapshot(rows))
    ensures s.db <= |s.log|
    ensures Restore(crc, [], Loaded(crc, Some(S.SnapshotBytes(crc, s.live.value.size, rows))), s.db)
            != Ok((s.db, IndexUpTo(s.log, s.db)))
  {
    SizesOrdered(crc, s);
    hide Sound, IndexUpTo, S.Parsed, S.SnapshotBytes, S.Lists, S.Storable;
    var k := s.live.value;
    S.SnapshotRoundTrip(crc, k.size, k.index, rows);
    var snapshot := Loaded(crc, Some(S.SnapshotBytes(crc, k.size, rows)));
    AtEnd(crc, []);
    RestoreNothing(crc, snapshot, s.db);
    EmptyFits(s.log);
    assert k.size == s.db && k.index == IndexUpTo(s.log, s.db);
  }

  lemma RestoreNothing(crc: Checksum, snapshot: Snapshot, n: nat)
    ensures Restore(crc, [], snapshot, n).Ok? ==>
              if n == 0 && snapshot.None? then true else snapshot == Some(Restore(crc, [], snapshot, n).value)
  {
    AtEnd(crc, []);
    hide Next;
    var (base, m) := if snapshot.Some? then snapshot.value else (0, map[]);
    assert ValidRecords(crc, [], 0, n) == [] && Covered([]) == 0;
    assert Replay([], base, base, m) == Ok((base, m));
  }

  lemma EmptyFits(log: Keys)
    ensures S.Storable(0, IndexUpTo(log, 0))
  {
  }

  // ---- a run into a harmful tail ----

  /** One entry without keys is sequenced, indexed, flushed and marked. */
  lemma MarkedRun(crc: Checksum) returns (states: seq<State>, steps: seq<Step>)
    ensures Run(crc, states, steps) && SnapshotsFit(states, steps) && |steps| == 5
    ensures var s := states[5]; s.live.Some? && s.db == s.syncedTo == 1 && s.snapshot.None?
  {
    hide NextState, Init;
    var s0, s1, s2 := SequenceOneEntry(crc);
    var s3, s4, s5 := IndexOneEntry(crc, s2);
    states := [s0, s1, s2, s3, s4, s5];
    steps := [Sequence([]), Begin, IndexNext, Flush, MarkIntegrated];
    RunOfFive(crc, states, steps);
  }

  const ONE_BY_ONE: Settings := Settings(1, 1, 0, 0)

  lemma SequenceOneEntry(crc: Checksum) returns (s0: State, s1: State, s2: State)
    ensures Init(s0) && NextState(crc, s0, Sequence([]), s1) && NextState(crc, s1, Begin, s2)
    ensures s2 == State([[]], 0, [], 0, None, Some(Live(map[], 0, [], ONE_BY_ONE, Indexing(1))), 0, 0)
  {
    s0 := State([], 0, [], 0, None, Some(Live(map[], 0, [], ONE_BY_ONE, Idle)), 0, 0);
    s1 := s0.(log := s0.log + [[]]);
    s2 := WithCycle(s1, Indexing(1));
  }

  lemma IndexOneEntry(crc: Checksum, s: State) returns (s3: State, s4: State, s5: State)
    requires s == State([[]], 0, [], 0, None, Some(Live(map[], 0, [], ONE_BY_ONE, Indexing(1))), 0, 0)
    ensures NextState(crc, s, IndexNext, s3) && NextState(crc, s3, Flush, s4) && NextState(crc, s4, MarkIntegrated, s5)
    ensures s5.live.Some? && s5.db == s5.syncedTo == 1 && s5.snapshot.None?
  {
    hide Encode, EncodeAll, AddKeys;
    var k := s.live.value.(index := AddKeys(map[], [], 0), size := 1);
    s3 := AppendRecord(crc, s.(live := Some(k)), Record(0, []));
    s4 := WithCycle(FlushBuffer(crc, s3), Flushed(1));
    s5 := WithCycle(s4.(db := 1), Marked);
  }

  lemma RunOfFive(crc: Checksum, states: seq<State>, steps: seq<Step>)
    requires |states| == 6 && |steps| == 5 && Init(states[0])
    requires NextState(crc, states[0], steps[0], states[1]) && NextState(crc, states[1], steps[1], states[2])
    requires NextState(crc, states[2], steps[2], states[3]) && NextState(crc, states[3], steps[3], states[4])
    requires NextState(crc, states[4], steps[4], states[5])
    ensures Run(crc, states, steps)
  {
    hide NextState, Init;
    forall i | 0 <= i < |steps| ensures NextState(crc, states[i], steps[i], states[i + 1]) {
      if i == 0 {} else if i == 1 {} else if i == 2 {} else if i == 3 {} else {}
    }
  }

  /** Then the crash leaves ten bytes after its record, and the restore fails, whatever the
      checksum function. */
  lemma HarmfulRun(crc: Checksum) returns (states: seq<State>, steps: seq<Step>)
    ensures Run(crc, states, steps) && SnapshotsFit(states, steps) && |steps| == 6
    ensures states[6].live.None? && Restored(crc, states[6]).Err?
  {
    hide Restore, Restored, LegacyRecord, Init, Inv;
    states, steps := MarkedRun(crc);
    var s, crash := states[5], Crash(LegacyRecord(0));
    RunInvariant(crc, states, steps, 5);
    SyncedInside(crc, s);
    var s' := s.(wal := s.wal[..s.synced] + LegacyRecord(0), live := None);
    assert NextState(crc, s, crash, s');
    CrashKeepsInv(crc, s, LegacyRecord(0), s');
    assert s'.wal[s'.synced..] == LegacyRecord(0);
    LegacyTailHarms(crc, s');
    RunExtends(crc, states, steps, crash, s');
    states, steps := states + [s'], steps + [crash];
  }

  lemma RunExtends(crc: Checksum, states: seq<State>, steps: seq<Step>, step: Step, s': State)
    requires Run(crc, states, steps) && SnapshotsFit(states, steps) && step.Crash?
    requires NextState(crc, states[|steps|], step, s')
    ensures Run(crc, states + [s'], steps + [step]) && SnapshotsFit(states + [s'], steps + [step])
  {
    hide NextState, Init;
  }
}

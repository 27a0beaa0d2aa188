/** Restoring the index from a snapshot and the write-ahead log
    (src/vindex/mod.rs:286-418, src/vindex/wal.rs:358-435). */
module VindexRecovery {
  import opened Bits
  import opened Rfc6962
  import opened Wrappers
  import opened Wal
  import opened PrefixTrees
  import opened Vindex

  type Snapshot = Option<(nat, Index)>

  datatype RestoreError = SnapshotAhead | Behind | NonContiguous | Unreadable

  // ---- validate_and_truncate_wal ----

  /** Records from a position up to the first that is damaged or too new. */
  function ValidRecords(crc: Checksum, file: seq<byte>, pos: nat, expected: nat): seq<WalRecord>
    requires pos <= |file|
    decreases |file| - pos
  {
    match Next(crc, file, pos)
    case Entry(r, next) => if r.index < expected then [r] + ValidRecords(crc, file, next, expected) else []
    case _ => []
  }

  /** Where they end. */
  function ValidEnd(crc: Checksum, file: seq<byte>, pos: nat, expected: nat): (end: nat)
    requires pos <= |file|
    ensures pos <= end <= |file|
    decreases |file| - pos
  {
    match Next(crc, file, pos)
    case Entry(r, next) => if r.index < expected then ValidEnd(crc, file, next, expected) else pos
    case _ => pos
  }

  /** One more than the largest index, or 0. */
  function Covered(records: seq<WalRecord>): nat {
    if records == [] then 0 else Max(records[0].index + 1, Covered(records[1..]))
  }

  method ValidateAndTruncate(crc: Checksum, file: seq<byte>, expected: nat) returns (file': seq<byte>, covered: nat)
    ensures file' == file[..ValidEnd(crc, file, 0, expected)]
    ensures covered == Covered(ValidRecords(crc, file, 0, expected))
  {
    hide Next;
    var pos := 0;
    var max: Option<nat> := None;
    while true
      invariant pos <= |file|
      invariant ValidEnd(crc, file, 0, expected) == ValidEnd(crc, file, pos, expected)
      invariant Covered(ValidRecords(crc, file, 0, expected))
                == Max(if max.None? then 0 else max.value + 1, Covered(ValidRecords(crc, file, pos, expected)))
      decreases |file| - pos
    {
      var scan := Next(crc, file, pos);
      if !scan.Entry? || scan.record.index >= expected { break; }
      var index := scan.record.index;
      assert ValidRecords(crc, file, pos, expected)[1..] == ValidRecords(crc, file, scan.next, expected);
      max := Some(if max.None? then index else Max(max.value, index));
      pos := scan.next;
    }
    file' := file[..pos];
    covered := if max.None? then 0 else max.value + 1;
  }

  /** A record depends on nothing but its own bytes. */
  lemma SameNext(crc: Checksum, a: seq<byte>, b: seq<byte>, pos: nat, end: nat)
    requires pos <= end <= |a| && end <= |b| && a[..end] == b[..end]
    requires Next(crc, a, pos).Entry? && Next(crc, a, pos).next <= end
    ensures Next(crc, b, pos) == Next(crc, a, pos)
  {
    hide FromBigEndian, SplitKeys, FromLittleEndian4;
    var count: nat := a[pos + 9];
    var size := 10 + 32 * count;
    SameSlices(a, b, end, pos, pos + size);
    SameSlices(a, b, end, pos + 1, pos + 9);
    SameSlices(a, b, end, pos + 10, pos + size);
    assert a[..end][pos] == b[..end][pos] && a[..end][pos + 9] == b[..end][pos + 9];
    if a[pos] == VERSION_CRC { SameSlices(a, b, end, pos + size, pos + size + 4); }
  }

  lemma SameSlices(a: seq<byte>, b: seq<byte>, end: nat, lo: nat, hi: nat)
    requires end <= |a| && end <= |b| && a[..end] == b[..end] && lo <= hi <= end
    ensures a[lo..hi] == b[lo..hi]
  {
    assert a[lo..hi] == a[..end][lo..hi] && b[lo..hi] == b[..end][lo..hi];
  }

  /** The truncated file scans cleanly to exactly the valid records. */
  lemma {:induction false} TruncatedScan(crc: Checksum, file: seq<byte>, pos: nat, expected: nat)
    requires pos <= |file|
    ensures var file' := file[..ValidEnd(crc, file, pos, expected)];
            CleanScan(crc, file', pos) == Some(ValidRecords(crc, file, pos, expected))
    decreases |file| - pos
  {
    hide Next;
    var end := ValidEnd(crc, file, pos, expected);
    var scan := Next(crc, file, pos);
    if scan.Entry? && scan.record.index < expected {
      TruncatedScan(crc, file, scan.next, expected);
      SameNext(crc, file, file[..end], pos, end);
    } else {
      AtEnd(crc, file[..end]);
    }
  }

  lemma AtEnd(crc: Checksum, file: seq<byte>)
    ensures Next(crc, file, |file|) == Eof
  {
  }

  /** All records from a position on, or None if the scan meets damage. */
  function CleanScan(crc: Checksum, file: seq<byte>, pos: nat): Option<seq<WalRecord>>
    requires pos <= |file|
    decreases |file| - pos
  {
    match Next(crc, file, pos)
    case Eof => Some([])
    case Corrupt => None
    case Entry(r, next) =>
      var rest := CleanScan(crc, file, next);
      if rest.None? then None else Some([r] + rest.value)
  }

  // ---- replay ----

  /** Replay records on top of an index that covers `base` entries. */
  function Replay(records: seq<WalRecord>, base: nat, size: nat, m: Index): Result<(nat, Index), RestoreError> {
    if records == [] then Ok((size, m))
    else
      var r := records[0];
      if r.index < base then Replay(records[1..], base, size, m)
      else if r.index != size then Err(NonContiguous)
      else Replay(records[1..], base, size + 1, AddKeys(m, r.keys, r.index))
  }

  /** `with_wal`: the restored size and index, from any file and snapshot. */
  function Restore(crc: Checksum, file: seq<byte>, snapshot: Snapshot, expected: nat): Result<(nat, Index), RestoreError> {
    var (base, m) := if snapshot.Some? then snapshot.value else (0, map[]);
    if base > expected then Err(SnapshotAhead)
    else
      var records := ValidRecords(crc, file, 0, expected);
      if Max(base, Covered(records)) < expected then Err(Behind)
      else Replay(records, base, base, m)
  }

  lemma {:induction false} ValidBelow(crc: Checksum, file: seq<byte>, pos: nat, expected: nat)
    requires pos <= |file|
    ensures forall r | r in ValidRecords(crc, file, pos, expected) :: r.index < expected
    decreases |file| - pos
  {
    hide Next;
    var scan := Next(crc, file, pos);
    if scan.Entry? && scan.record.index < expected { ValidBelow(crc, file, scan.next, expected); }
  }

  lemma {:induction false} ReplaySize(records: seq<WalRecord>, base: nat, size: nat, m: Index, expected: nat)
    requires base <= size <= expected && forall r | r in records :: r.index < expected
    ensures var out := Replay(records, base, size, m);
            out.Ok? ==> size <= out.value.0 <= expected && Max(base, Covered(records)) <= out.value.0
    decreases |records|
  {
    if records != [] {
      assert forall r | r in records[1..] :: r in records;
      assert records[0] in records;
      var r := records[0];
      if r.index < base { ReplaySize(records[1..], base, size, m, expected); }
      else if r.index == size { ReplaySize(records[1..], base, size + 1, AddKeys(m, r.keys, r.index), expected); }
    }
  }

  /** Whatever the file and the snapshot contain, a successful restore has exactly
      the size of the database. */
  lemma RestoredSizeMatches(crc: Checksum, file: seq<byte>, snapshot: Snapshot, expected: nat)
    ensures Restore(crc, file, snapshot, expected).Ok? ==> Restore(crc, file, snapshot, expected).value.0 == expected
  {
    hide ValidRecords;
    var (base, m) := if snapshot.Some? then snapshot.value else (0, map[]);
    var records := ValidRecords(crc, file, 0, expected);
    ValidBelow(crc, file, 0, expected);
    if base <= expected { ReplaySize(records, base, base, m, expected); }
  }

  /** `with_wal_and_batch_size`, with the loops of the source. */
  method WithWal(crc: Checksum, file: seq<byte>, snapshot: Snapshot, expected: nat)
    returns (r: Result<(nat, Index), RestoreError>, file': seq<byte>)
    ensures r == Restore(crc, file, snapshot, expected)
    ensures r.Ok? ==> r.value.0 == expected && file' == file[..ValidEnd(crc, file, 0, expected)]
  {
    hide Next, ValidRecords, ValidEnd, AddKeys;
    RestoredSizeMatches(crc, file, snapshot, expected);
    file' := file;
    var (base, m) := if snapshot.Some? then snapshot.value else (0, map[]);
    if base > expected { return Err(SnapshotAhead), file; }
    ghost var records := ValidRecords(crc, file, 0, expected);
    var covered;
    file', covered := ValidateAndTruncate(crc, file, expected);
    if Max(base, covered) < expected { return Err(Behind), file'; }
    TruncatedScan(crc, file, 0, expected);
    ghost var m0 := m;
    var size: nat, pos: nat := base, 0;
    while true
      invariant pos <= |file'|
      invariant CleanScan(crc, file', pos).Some?
      invariant Replay(CleanScan(crc, file', pos).value, base, size, m) == Replay(records, base, base, m0)
      decreases |file'| - pos
    {
      var scan := Next(crc, file', pos);
      match scan {
        case Eof => break;
        case Corrupt => return Err(Unreadable), file';
        case Entry(rec, next) =>
          assert CleanScan(crc, file', pos).value[1..] == CleanScan(crc, file', next).value;
          if rec.index >= base {
            if rec.index != size { return Err(NonContiguous), file'; }
            m := AddKeys(m, rec.keys, rec.index);
            size := Max(size, rec.index + 1);
          }
          pos := next;
      }
    }
    r := Ok((size, m));
  }

  /** The prefix tree is rebuilt from the restored map, in any order. */
  method RebuildTree(m: Index) returns (tree: Node<seq<nat>>)
    ensures TreeMatches(tree, m)
  {
    hide Entries, Good, InsertRec, TreeMatches, Splits;
    tree := Empty;
    var todo, done: Index := m, map[];
    EmptyMatches();
    SplitsStart(m);
    while todo != map[]
      invariant Splits(m, done, todo)
      invariant TreeMatches(tree, done)
      decreases |todo|
    {
      var k :| k in todo;
      MovePair(m, done, todo, k);
      tree := PutKey(tree, done, k, todo[k]);
      done := done[k := todo[k]];
      todo := todo - {k};
    }
    SplitsEnd(m, done, todo);
  }

  method PutKey(tree: Node<seq<nat>>, ghost m: Index, key: IndexKey, value: seq<nat>) returns (tree': Node<seq<nat>>)
    requires TreeMatches(tree, m)
    ensures TreeMatches(tree', m[key := value])
  {
    hide Entries, Good, InsertRec;
    TreePutMatches(tree, m, key, value);
    tree' := InsertRec(tree, KeyBits(key), value, []);
  }

  lemma EmptyMatches()
    ensures TreeMatches(Empty, map[])
  {
  }

  // ---- restoring a genuine log ----

  /** The first n entries have at most 255 keys each, so they fit a record; `index_entry`
      refuses any other. */
  predicate Indexable(log: Keys, n: nat) {
    n <= |log| && n < U64_LIMIT && forall i | 0 <= i < n :: |log[i]| <= 255
  }

  /** The records of entries [a, b). */
  function Records(log: Keys, a: nat, b: nat): (s: seq<WalRecord>)
    requires a <= b && Indexable(log, b)
    ensures |s| == b - a
    ensures forall i | 0 <= i < b - a :: s[i] == Record(a + i, log[a + i])
  {
    if a == b then [] else Records(log, a, b - 1) + [Record(b - 1, log[b - 1])]
  }

  /** The records that replay does not skip. */
  function From(rs: seq<WalRecord>, base: nat): seq<WalRecord> {
    if rs == [] then []
    else From(rs[..|rs| - 1], base) + if rs[|rs| - 1].index >= base then [rs[|rs| - 1]] else []
  }

  /** The records up to the first that is too new. */
  function TakeBelow(rs: seq<WalRecord>, expected: nat): seq<WalRecord> {
    if rs == [] || rs[0].index >= expected then [] else [rs[0]] + TakeBelow(rs[1..], expected)
  }

  ghost predicate AllBelow(rs: seq<WalRecord>, n: nat) { forall r | r in rs :: r.index < n }

  /** On top of a snapshot of `base` entries, the records hold exactly the entries up to
      `upto`; between them there may be anything that replay skips. */
  ghost predicate Holds(rs: seq<WalRecord>, log: Keys, base: nat, upto: nat)
    requires base <= upto && Indexable(log, upto)
  {
    AllBelow(rs, upto) && From(rs, base) == Records(log, base, upto)
  }

  lemma {:induction false} FromConcat(a: seq<WalRecord>, b: seq<WalRecord>, base: nat)
    ensures From(a + b, base) == From(a, base) + From(b, base)
    decreases |b|
  {
    if b == [] {
      assert a + b == a;
    } else {
      FromConcat(a, b[..|b| - 1], base);
      assert (a + b)[..|a + b| - 1] == a + b[..|b| - 1];
    }
  }

  lemma {:induction false} FromNothing(rs: seq<WalRecord>, base: nat)
    ensures From(rs, base) == [] <==> AllBelow(rs, base)
  {
    if rs != [] {
      var init, last := rs[..|rs| - 1], rs[|rs| - 1];
      assert rs == init + [last];
      FromNothing(init, base);
    }
  }

  lemma {:induction false} FromKeeps(rs: seq<WalRecord>, base: nat, r: WalRecord)
    ensures r in From(rs, base) <==> r in rs && r.index >= base
  {
    if rs != [] {
      var init, last := rs[..|rs| - 1], rs[|rs| - 1];
      assert rs == init + [last];
      FromKeeps(init, base, r);
    }
  }

  lemma {:induction false} TakeBelowFrom(rs: seq<WalRecord>, base: nat, expected: nat)
    requires base <= expected
    ensures From(TakeBelow(rs, expected), base) == TakeBelow(From(rs, base), expected)
    ensures AllBelow(TakeBelow(rs, expected), expected)
    decreases |rs|
  {
    if rs != [] {
      var first, rest := rs[0], rs[1..];
      assert rs == [first] + rest;
      FromConcat([first], rest, base);
      assert From([first], base) == if first.index >= base then [first] else [];
      if first.index < expected {
        TakeBelowFrom(rest, base, expected);
        FromConcat([first], TakeBelow(rest, expected), base);
        if first.index >= base {
          assert ([first] + From(rest, base))[1..] == From(rest, base);
        } else {
          assert [] + From(rest, base) == From(rest, base);
        }
      }
    }
  }

  lemma {:induction false} TakeBelowRecords(log: Keys, a: nat, b: nat, expected: nat)
    requires a <= expected <= b && Indexable(log, b)
    ensures TakeBelow(Records(log, a, b), expected) == Records(log, a, expected)
    decreases b - a
  {
    if a < expected {
      TakeBelowRecords(log, a + 1, b, expected);
      assert Records(log, a, b)[1..] == Records(log, a + 1, b);
      assert Records(log, a, expected) == [Record(a, log[a])] + Records(log, a + 1, expected);
    }
  }

  // ---- replay ----

  lemma {:induction false} ReplayConcat(a: seq<WalRecord>, b: seq<WalRecord>, base: nat, size: nat, m: Index)
    ensures var first := Replay(a, base, size, m);
            Replay(a + b, base, size, m) == if first.Err? then first else Replay(b, base, first.value.0, first.value.1)
    decreases |a|
  {
    hide AddKeys;
    if a == [] {
      assert a + b == b;
    } else {
      assert (a + b)[1..] == a[1..] + b;
      var r := a[0];
      if r.index < base { ReplayConcat(a[1..], b, base, size, m); }
      else if r.index == size { ReplayConcat(a[1..], b, base, size + 1, AddKeys(m, r.keys, r.index)); }
    }
  }

  lemma {:induction false} ReplayHolds(rs: seq<WalRecord>, log: Keys, base: nat, upto: nat)
    requires base <= upto && Indexable(log, upto) && Holds(rs, log, base, upto)
    ensures Replay(rs, base, base, IndexUpTo(log, base)) == Ok((upto, IndexUpTo(log, upto)))
    decreases |rs|
  {
    hide AddKeys;
    if rs != [] {
      var init, last := rs[..|rs| - 1], rs[|rs| - 1];
      assert rs == init + [last];
      ReplayConcat(init, [last], base, base, IndexUpTo(log, base));
      if last.index < base {
        ReplayHolds(init, log, base, upto);
      } else {
        LastRecord(init, last, log, base, upto);
        ReplayHolds(init, log, base, upto - 1);
        assert [last][1..] == [];
      }
    }
  }

  lemma LastRecord(init: seq<WalRecord>, last: WalRecord, log: Keys, base: nat, upto: nat)
    requires base <= upto && Indexable(log, upto) && last.index >= base
    requires From(init, base) + [last] == Records(log, base, upto)
    ensures base < upto && last == Record(upto - 1, log[upto - 1]) && Holds(init, log, base, upto - 1)
  {
    var records := Records(log, base, upto);
    assert last == records[|records| - 1];
    assert From(init, base) == records[..|records| - 1] == Records(log, base, upto - 1);
    forall r | r in init ensures r.index < upto - 1 {
      FromKeeps(init, base, r);
    }
  }

  /** On top of a finished replay, one record that is neither skipped nor new fails. */
  lemma {:induction false} ReplayJunk(junk: seq<WalRecord>, base: nat, size: nat, m: Index)
    requires AllBelow(junk, size)
    ensures Replay(junk, base, size, m) == if AllBelow(junk, base) then Ok((size, m)) else Err(NonContiguous)
    decreases |junk|
  {
    if junk != [] {
      assert junk[0] in junk && junk == [junk[0]] + junk[1..];
      ReplayJunk(junk[1..], base, size, m);
    }
  }

  lemma {:induction false} CoveredAtLeast(rs: seq<WalRecord>, r: WalRecord)
    requires r in rs
    ensures Covered(rs) > r.index
    decreases |rs|
  {
    if r != rs[0] { CoveredAtLeast(rs[1..], r); }
  }

  // ---- a sound part and an arbitrary tail ----

  /** Validation reads the sound part and, if nothing there is too new, goes on into the
      tail. */
  lemma {:induction false} ScanSplit(crc: Checksum, file: seq<byte>, cut: nat, pos: nat, expected: nat)
    requires pos <= cut <= |file| && CleanScan(crc, file[..cut], pos).Some?
    ensures var rs := CleanScan(crc, file[..cut], pos).value;
            ValidRecords(crc, file, pos, expected)
            == if AllBelow(rs, expected) then rs + ValidRecords(crc, file, cut, expected) else TakeBelow(rs, expected)
    decreases cut - pos
  {
    hide Next;
    var scan := Next(crc, file[..cut], pos);
    var rs := CleanScan(crc, file[..cut], pos).value;
    if scan.Entry? {
      SameNext(crc, file[..cut], file, pos, cut);
      var rest := CleanScan(crc, file[..cut], scan.next).value;
      assert rs == [scan.record] + rest;
      ScanSplit(crc, file, cut, scan.next, expected);
      var tail := ValidRecords(crc, file, cut, expected);
      hide AllBelow, CleanScan, TakeBelow;
      SplitStep(scan.record, rest, tail, expected);
    } else {
      EofAtEnd(crc, file[..cut], pos);
    }
  }

  lemma SplitStep(r: WalRecord, rest: seq<WalRecord>, tail: seq<WalRecord>, n: nat)
    ensures AllBelow([r] + rest, n) <==> r.index < n && AllBelow(rest, n)
    ensures ([r] + rest) + tail == [r] + (rest + tail)
    ensures TakeBelow([r] + rest, n) == if r.index < n then [r] + TakeBelow(rest, n) else []
  {
    assert r in [r] + rest && ([r] + rest)[1..] == rest;
  }

  lemma EofAtEnd(crc: Checksum, file: seq<byte>, pos: nat)
    requires pos <= |file| && Next(crc, file, pos).Eof?
    ensures pos == |file|
  {
  }

  /** Nothing that validation reads beyond the sound part is replayed. */
  ghost predicate Harmless(crc: Checksum, file: seq<byte>, cut: nat, base: nat, upto: nat, expected: nat)
    requires cut <= |file|
  {
    expected < upto || AllBelow(ValidRecords(crc, file, cut, expected), base)
  }

  /** What validation keeps of a file with a sound part and any tail. */
  lemma ValidHolds(crc: Checksum, file: seq<byte>, cut: nat, log: Keys, base: nat, upto: nat, expected: nat)
    requires cut <= |file| && base <= expected <= upto && Indexable(log, upto)
    requires CleanScan(crc, file[..cut], 0).Some? && Holds(CleanScan(crc, file[..cut], 0).value, log, base, upto)
    ensures Harmless(crc, file, cut, base, upto, expected)
            ==> Holds(ValidRecords(crc, file, 0, expected), log, base, expected)
    ensures upto == expected ==>
              ValidRecords(crc, file, 0, expected)
              == CleanScan(crc, file[..cut], 0).value + ValidRecords(crc, file, cut, expected)
  {
    hide CleanScan, ValidRecords;
    var rs := CleanScan(crc, file[..cut], 0).value;
    ScanSplit(crc, file, cut, 0, expected);
    if expected < upto {
      var r := Record(expected, log[expected]);
      assert Records(log, base, upto)[expected - base] == r;
      FromKeeps(rs, base, r);
      assert !AllBelow(rs, expected);
      TakeBelowFrom(rs, base, expected);
      TakeBelowRecords(log, base, upto, expected);
    } else {
      var junk := ValidRecords(crc, file, cut, expected);
      ValidBelow(crc, file, cut, expected);
      FromConcat(rs, junk, base);
      FromNothing(junk, base);
    }
  }

  lemma HeldIsCovered(rs: seq<WalRecord>, log: Keys, base: nat, upto: nat)
    requires base <= upto && Indexable(log, upto) && Holds(rs, log, base, upto)
    ensures Max(base, Covered(rs)) >= upto
  {
    if base < upto {
      var r := Record(upto - 1, log[upto - 1]);
      assert Records(log, base, upto)[upto - 1 - base] == r;
      FromKeeps(rs, base, r);
      CoveredAtLeast(rs, r);
    }
  }

  /** A file with a sound part up to at least the database size, followed by arbitrary
      bytes, restores if and only if the tail is harmless; and then to the index of the
      log prefix, leaving a sound file of exactly that size. */
  lemma RestoreGenuine(crc: Checksum, file: seq<byte>, cut: nat, log: Keys, upto: nat, snapshot: Snapshot, expected: nat)
    requires cut <= |file| && expected <= upto && Indexable(log, upto)
    requires var base := if snapshot.Some? then snapshot.value.0 else 0;
             && base <= expected && (snapshot.Some? ==> snapshot.value.1 == IndexUpTo(log, base))
             && CleanScan(crc, file[..cut], 0).Some? && Holds(CleanScan(crc, file[..cut], 0).value, log, base, upto)
    ensures var base := if snapshot.Some? then snapshot.value.0 else 0;
            var r := Restore(crc, file, snapshot, expected);
            && (r.Ok? <==> Harmless(crc, file, cut, base, upto, expected))
            && (r.Ok? ==> r.value == (expected, IndexUpTo(log, expected)))
            && (r.Ok? ==> Holds(ValidRecords(crc, file, 0, expected), log, base, expected))
  {
    hide CleanScan, ValidRecords, Holds, AddKeys;
    var base := if snapshot.Some? then snapshot.value.0 else 0;
    var rs, records := CleanScan(crc, file[..cut], 0).value, ValidRecords(crc, file, 0, expected);
    ValidHolds(crc, file, cut, log, base, upto, expected);
    if Harmless(crc, file, cut, base, upto, expected) {
      HeldIsCovered(records, log, base, expected);
      ReplayHolds(records, log, base, expected);
    } else {
      var junk := ValidRecords(crc, file, cut, expected);
      ValidBelow(crc, file, cut, expected);
      ReplayHolds(rs, log, base, expected);
      ReplayConcat(rs, junk, base, base, IndexUpTo(log, base));
      ReplayJunk(junk, base, expected, IndexUpTo(log, expected));
    }
  }

  /** What was written is scanned as it was written, as far as it is still there. */
  lemma {:induction false} PartOfScan(crc: Checksum, file: seq<byte>, keep: nat, pos: nat, expected: nat, r: WalRecord)
    requires pos <= keep <= |file| && CleanScan(crc, file, pos).Some?
    requires r in ValidRecords(crc, file[..keep], pos, expected)
    ensures r in CleanScan(crc, file, pos).value && r.index < expected
    decreases keep - pos
  {
    hide Next;
    var scan := Next(crc, file[..keep], pos);
    SameNext(crc, file[..keep], file, pos, keep);
    if r != scan.record { PartOfScan(crc, file, keep, scan.next, expected, r); }
  }

  lemma ScanContinuesStep(crc: Checksum, file: seq<byte>, cut: nat, pos: nat)
    requires pos <= cut <= |file| && CleanScan(crc, file[..cut], pos).Some? && CleanScan(crc, file, pos).Some?
    requires Next(crc, file[..cut], pos).Entry? && Next(crc, file, pos) == Next(crc, file[..cut], pos)
    ensures var scan := Next(crc, file, pos);
            && CleanScan(crc, file[..cut], scan.next).Some? && CleanScan(crc, file, scan.next).Some?
            && CleanScan(crc, file[..cut], pos).value == [scan.record] + CleanScan(crc, file[..cut], scan.next).value
            && CleanScan(crc, file, pos).value == [scan.record] + CleanScan(crc, file, scan.next).value
  {
    hide Next;
  }

  /** A sound file continues its sound part. */
  lemma {:induction false} ScanContinues(crc: Checksum, file: seq<byte>, cut: nat, pos: nat)
    requires pos <= cut <= |file| && CleanScan(crc, file[..cut], pos).Some? && CleanScan(crc, file, pos).Some?
    ensures CleanScan(crc, file, cut).Some?
    ensures CleanScan(crc, file, pos).value == CleanScan(crc, file[..cut], pos).value + CleanScan(crc, file, cut).value
    decreases cut - pos
  {
    hide Next;
    var scan := Next(crc, file[..cut], pos);
    if scan.Entry? {
      SameNext(crc, file[..cut], file, pos, cut);
      var rest := CleanScan(crc, file[..cut], scan.next).value;
      hide CleanScan;
      ScanContinuesStep(crc, file, cut, pos);
      ScanContinues(crc, file, cut, scan.next);
      var r, tail := scan.record, CleanScan(crc, file, cut).value;
      assert [r] + (rest + tail) == ([r] + rest) + tail;
    } else {
      EofAtEnd(crc, file[..cut], pos);
    }
  }

  /** Losing the end of a sound file, in the middle of a record or not, is harmless: what
      is left after the durable part is skipped or too new. */
  lemma WrittenTailHarmless(crc: Checksum, file: seq<byte>, cut: nat, keep: nat, log: Keys, base: nat, upto: nat, last: nat,
                            expected: nat)
    requires cut <= keep <= |file| && base <= expected <= upto <= last && Indexable(log, last)
    requires CleanScan(crc, file[..cut], 0).Some? && Holds(CleanScan(crc, file[..cut], 0).value, log, base, upto)
    requires CleanScan(crc, file, 0).Some? && Holds(CleanScan(crc, file, 0).value, log, base, last)
    ensures Harmless(crc, file[..keep], cut, base, upto, expected)
  {
    hide CleanScan, ValidRecords, Records;
    var head, all := CleanScan(crc, file[..cut], 0).value, CleanScan(crc, file, 0).value;
    ScanContinues(crc, file, cut, 0);
    var tail := CleanScan(crc, file, cut).value;
    FromConcat(head, tail, base);
    forall r | r in ValidRecords(crc, file[..keep], cut, expected)
      ensures r.index < base
    {
      PartOfScan(crc, file, keep, cut, expected, r);
      FromKeeps(tail, base, r);
      TailIsNew(From(head, base), From(tail, base), log, base, upto, last, r);
    }
  }

  lemma TailIsNew(a: seq<WalRecord>, b: seq<WalRecord>, log: Keys, base: nat, upto: nat, last: nat, r: WalRecord)
    requires base <= upto <= last && Indexable(log, last)
    requires a == Records(log, base, upto) && a + b == Records(log, base, last)
    ensures r in b ==> r.index >= upto
  {
    if r in b {
      var i :| 0 <= i < |b| && b[i] == r;
      assert (a + b)[|a| + i] == r;
    }
  }

  /** A file that validation does not cut has no records beyond the expected size. */
  lemma NoCutNoMore(crc: Checksum, file: seq<byte>, cut: nat, log: Keys, base: nat, upto: nat, expected: nat)
    requires cut <= |file| && base <= expected <= upto && Indexable(log, upto)
    requires CleanScan(crc, file[..cut], 0).Some? && Holds(CleanScan(crc, file[..cut], 0).value, log, base, upto)
    requires ValidEnd(crc, file, 0, expected) == |file|
    ensures upto == expected
  {
    hide CleanScan, ValidRecords, ValidEnd;
    TruncatedScan(crc, file, 0, expected);
    assert file[..|file|] == file;
    ScanContinues(crc, file, cut, 0);
    ValidBelow(crc, file, 0, expected);
    var head := CleanScan(crc, file[..cut], 0).value;
    assert AllBelow(head, expected) by {
      forall r | r in head ensures r.index < expected { assert r in ValidRecords(crc, file, 0, expected); }
    }
    HeldReaches(head, log, base, upto, expected);
  }

  /** Records that hold the entries up to `upto` are not all below an earlier size. */
  lemma HeldReaches(rs: seq<WalRecord>, log: Keys, base: nat, upto: nat, n: nat)
    requires base <= n <= upto && Indexable(log, upto) && Holds(rs, log, base, upto)
    ensures AllBelow(rs, n) <==> n == upto
  {
    if n < upto {
      var r := Record(n, log[n]);
      assert Records(log, base, upto)[n - base] == r;
      FromKeeps(rs, base, r);
    }
  }

  /** Validation goes beyond a part that it keeps as a whole. */
  lemma {:induction false} EndBeyond(crc: Checksum, file: seq<byte>, cut: nat, pos: nat, expected: nat)
    requires pos <= cut <= |file| && CleanScan(crc, file[..cut], pos).Some?
    requires AllBelow(CleanScan(crc, file[..cut], pos).value, expected)
    ensures ValidEnd(crc, file, pos, expected) >= cut
    decreases cut - pos
  {
    hide Next;
    var scan := Next(crc, file[..cut], pos);
    if scan.Entry? {
      SameNext(crc, file[..cut], file, pos, cut);
      var rest := CleanScan(crc, file[..cut], scan.next).value;
      assert CleanScan(crc, file[..cut], pos).value == [scan.record] + rest;
      SplitStep(scan.record, rest, [], expected);
      EndBeyond(crc, file, cut, scan.next, expected);
    } else {
      EofAtEnd(crc, file[..cut], pos);
    }
  }

  /** Cutting a file changes nothing that is restored from it, and is done once. */
  lemma CutTwice(crc: Checksum, file: seq<byte>, snapshot: Snapshot, expected: nat)
    ensures var file' := file[..ValidEnd(crc, file, 0, expected)];
            && Restore(crc, file', snapshot, expected) == Restore(crc, file, snapshot, expected)
            && ValidEnd(crc, file', 0, expected) == |file'|
  {
    hide Replay;
    CutScan(crc, file, 0, expected);
  }

  lemma {:induction false} CutScan(crc: Checksum, file: seq<byte>, pos: nat, expected: nat)
    requires pos <= |file|
    ensures var end := ValidEnd(crc, file, pos, expected);
            && ValidRecords(crc, file[..end], pos, expected) == ValidRecords(crc, file, pos, expected)
            && ValidEnd(crc, file[..end], pos, expected) == end
    decreases |file| - pos
  {
    hide Next;
    var scan := Next(crc, file, pos);
    if scan.Entry? && scan.record.index < expected {
      CutScan(crc, file, scan.next, expected);
      var end := ValidEnd(crc, file, pos, expected);
      SameNext(crc, file, file[..end], pos, end);
    } else {
      AtEnd(crc, file[..pos]);
    }
  }

  /** A version 2 record without keys: it has no checksum. */
  function LegacyRecord(index: nat): (s: seq<byte>)
    ensures |s| == 10
  {
    [VERSION_LEGACY] + BigEndian(index, 8) + [0]
  }

  lemma NextOfLegacy(crc: Checksum, before: seq<byte>, index: nat)
    requires index < U64_LIMIT
    ensures Next(crc, before + LegacyRecord(index), |before|) == Entry(Record(index, []), |before| + 10)
  {
    hide BigEndian, FromBigEndian;
    var file, pos := before + LegacyRecord(index), |before|;
    assert file[pos + 1..pos + 9] == BigEndian(index, 8);
    assert file[pos + 10..pos + 10] == [];
    Pow256Values();
    BigEndianInverse(index, 8);
  }

  /** Not every tail is harmless: with any checksum, ten bytes that read as a version 2
      record of an entry after the snapshot make the restore fail. */
  lemma LegacyJunkHarms(crc: Checksum, file: seq<byte>, cut: nat, base: nat, expected: nat)
    requires cut <= |file| && base < expected < U64_LIMIT && file[cut..] == LegacyRecord(base)
    ensures !Harmless(crc, file, cut, base, expected, expected)
  {
    hide Next, LegacyRecord;
    assert file == file[..cut] + LegacyRecord(base);
    NextOfLegacy(crc, file[..cut], base);
    var junk := ValidRecords(crc, file, cut, expected);
    assert junk[0] == Record(base, []) && junk[0] in junk;
  }

  /** Appending a record to a sound file. */
  lemma {:induction false} CleanScanAppend(crc: Checksum, file: seq<byte>, pos: nat, r: WalRecord)
    requires pos <= |file| && CleanScan(crc, file, pos).Some?
    ensures CleanScan(crc, file + Encode(crc, r), pos) == Some(CleanScan(crc, file, pos).value + [r])
    decreases |file| - pos
  {
    hide Next, Encode;
    var file' := file + Encode(crc, r);
    assert file'[..|file|] == file;
    var scan := Next(crc, file, pos);
    if scan.Entry? {
      SameNext(crc, file, file', pos, |file|);
      CleanScanAppend(crc, file, scan.next, r);
      var rest := CleanScan(crc, file, scan.next).value;
      assert [scan.record] + (rest + [r]) == ([scan.record] + rest) + [r];
    } else {
      EofAtEnd(crc, file, pos);
      assert file' == file + Encode(crc, r) + [];
      NextOfEncoded(crc, r, file, []);
      AtEnd(crc, file');
      assert CleanScan(crc, file, pos) == Some([]) && CleanScan(crc, file', |file'|) == Some([]);
      assert [r] + [] == [] + [r];
    }
  }
}

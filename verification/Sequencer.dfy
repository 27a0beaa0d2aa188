/** The sequencing database (src/storage/database.rs).

    `Db` is the value of the log_state row together with the pending and
    deduplication tables; the class `Database` changes it the way the
    transactions of the source do. */
module Sequencer {
  import opened Bits
  import opened Rfc6962
  import opened Wrappers

  type Entry = seq<byte>

  datatype Db = Db(next: nat, integrated: nat, root: Option<Hash>, pending: map<nat, Entry>,
                   dedup: map<Hash, nat>, rekor: bool)

  /** Outcome for one submitted entry. */
  datatype Sequenced = At(index: nat) | Duplicate(index: nat)

  function Leaves(log: seq<Entry>): (d: seq<Hash>)
    ensures |d| == |log|
  {
    seq(|log|, i requires 0 <= i < |log| => LeafHash(log[i]))
  }

  // ---- one transaction of sequence_entries, as a function ----

  /** One iteration of the loop in `sequence_entries`. */
  function SequenceOne(db: Db, entry: Entry): (Db, Sequenced) {
    var hash := LeafHash(entry);
    if db.rekor && hash in db.dedup then (db, Duplicate(db.dedup[hash]))
    else
      (db.(next := db.next + 1,
           pending := db.pending[db.next := entry],
           dedup := if db.rekor then db.dedup[hash := db.next] else db.dedup),
       At(db.next))
  }

  function Sequence(db: Db, entries: seq<Entry>): (Db, seq<Sequenced>) {
    if entries == [] then (db, [])
    else
      var (db1, out) := Sequence(db, entries[..|entries| - 1]);
      var (db2, last) := SequenceOne(db1, entries[|entries| - 1]);
      (db2, out + [last])
  }

  /** `mark_integrated_if_current` when the comparison holds. */
  function Mark(db: Db, n: nat, root: Hash): Db {
    db.(integrated := n, root := Some(root), pending := map i | i in db.pending && n <= i :: db.pending[i])
  }

  class Database {
    var db: Db

    constructor (rekor: bool)
      ensures db == Db(0, 0, None, map[], map[], rekor)
    {
      db := Db(0, 0, None, map[], map[], rekor);
    }

    /** `sequence_entries`: either the whole batch commits, or (when the index is
        exhausted) nothing does, so no reservation is left behind. */
    method SequenceEntries(entries: seq<Entry>) returns (r: Option<seq<Sequenced>>)
      requires db.next <= I64_MAX
      modifies this
      ensures r.Some? <==> Sequence(old(db), entries).0.next <= I64_MAX
      ensures r.Some? ==> (db, r.value) == Sequence(old(db), entries)
      ensures r.None? ==> db == old(db)
    {
      var work, out := db, [];
      for i := 0 to |entries|
        invariant db == old(db) && (work, out) == Sequence(db, entries[..i]) && work.next <= I64_MAX
      {
        assert entries[..i + 1][..i] == entries[..i];
        var hash := LeafHash(entries[i]);
        if work.rekor && hash in work.dedup {
          out := out + [Duplicate(work.dedup[hash])];
        } else {
          if work.next == I64_MAX {
            SequenceGrows(db, entries, i + 1);
            return None;
          }
          var index := work.next;
          work := work.(next := index + 1, pending := work.pending[index := entries[i]],
                        dedup := if work.rekor then work.dedup[hash := index] else work.dedup);
          out := out + [At(index)];
        }
      }
      assert entries[..|entries|] == entries;
      db := work;
      return Some(out);
    }

    /** `mark_integrated_if_current`. */
    method MarkIntegratedIfCurrent(expected: nat, n: nat, root: Hash) returns (r: Result<bool, ()>)
      modifies this
      ensures n < expected ==> r == Err(()) && db == old(db)
      ensures n >= expected ==> r == Ok(old(db).integrated == expected)
      ensures n >= expected ==> db == if old(db).integrated == expected then Mark(old(db), n, root) else old(db)
    {
      if n < expected { return Err(()); }
      if db.integrated != expected { return Ok(false); }
      db := Mark(db, n, root);
      return Ok(true);
    }
  }

  lemma {:induction false} SequenceGrows(db: Db, entries: seq<Entry>, k: nat)
    requires k <= |entries|
    ensures Sequence(db, entries[..k]).0.next <= Sequence(db, entries).0.next
    decreases |entries|
  {
    if k < |entries| {
      var init := entries[..|entries| - 1];
      assert init[..k] == entries[..k];
      SequenceGrows(db, init, k);
    } else {
      assert entries[..k] == entries;
    }
  }

  // ---- the invariant of the database against the append-only log ----

  /** The tables agree with the log of all sequenced entries. */
  ghost predicate DbOk(db: Db, log: seq<Entry>) {
    && db.next == |log| && db.integrated <= db.next
    && (forall i :: i in db.pending <==> db.integrated <= i < db.next)
    && (forall i | i in db.pending :: db.pending[i] == log[i])
    && db.root == (if db.integrated == 0 then None else Some(Mth(Leaves(log)[..db.integrated])))
    && (db.rekor ==> DedupOk(db.dedup, log))
  }

  /** In Rekor mode every leaf hash has one permanent index. */
  ghost predicate DedupOk(dedup: map<Hash, nat>, log: seq<Entry>) {
    && (forall i | 0 <= i < |log| :: LeafHash(log[i]) in dedup && dedup[LeafHash(log[i])] == i)
    && forall h | h in dedup :: dedup[h] < |log| && LeafHash(log[dedup[h]]) == h
  }

  /** The entries of a batch that are sequenced. */
  ghost function Fresh(db: Db, entries: seq<Entry>): seq<Entry> {
    if entries == [] then []
    else
      var init, last := entries[..|entries| - 1], entries[|entries| - 1];
      var db1 := Sequence(db, init).0;
      Fresh(db, init) + if SequenceOne(db1, last).1.At? then [last] else []
  }

  lemma PrefixMth(log: seq<Entry>, more: seq<Entry>, n: nat)
    requires n <= |log|
    ensures Leaves(log + more)[..n] == Leaves(log)[..n]
  {
  }

  lemma SequenceOneKeepsDbOk(db: Db, log: seq<Entry>, entry: Entry)
    requires DbOk(db, log)
    ensures var (db', out) := SequenceOne(db, entry);
            match out
            case At(i) => i == |log| && DbOk(db', log + [entry])
            case Duplicate(i) => db' == db && i < |log| && log[i] == entry
  {
    hide Mth;
    PrefixMth(log, [entry], db.integrated);
  }

  /** Sequencing appends the fresh entries to the log; each outcome is the one index
      at which the log holds the submitted entry. */
  lemma {:induction false} SequenceKeepsDbOk(db: Db, log: seq<Entry>, entries: seq<Entry>)
    requires DbOk(db, log)
    ensures var (db', out) := Sequence(db, entries);
            var log' := log + Fresh(db, entries);
            && DbOk(db', log') && |out| == |entries|
            && db'.integrated == db.integrated && db'.root == db.root
            && (forall i | 0 <= i < |out| :: out[i].index < |log'| && log'[out[i].index] == entries[i])
    decreases |entries|
  {
    hide Mth, DbOk;
    if entries == [] {
      assert log + [] == log;
    } else {
      var init, last := entries[..|entries| - 1], entries[|entries| - 1];
      SequenceKeepsDbOk(db, log, init);
      var (db1, out1) := Sequence(db, init);
      var log1 := log + Fresh(db, init);
      SequenceOneKeepsDbOk(db1, log1, last);
      var log' := log + Fresh(db, entries);
      assert log' == if SequenceOne(db1, last).1.At? then log1 + [last] else log1;
    }
  }

  /** Submission i is a duplicate exactly in Rekor mode and when the log or the batch before
      it has the entry; otherwise it gets the next index. */
  ghost predicate OutcomeRight(db: Db, log: seq<Entry>, entries: seq<Entry>, i: nat, outcome: Sequenced)
    requires i < |entries|
  {
    && (outcome.Duplicate? <==> db.rekor && (entries[i] in log || entries[i] in entries[..i]))
    && (outcome.At? ==> outcome.index == |log| + |Fresh(db, entries[..i])|)
  }

  /** The outcomes of a batch; every submitted entry ends up in the log. */
  lemma {:induction false} SequenceOutcomes(db: Db, log: seq<Entry>, entries: seq<Entry>)
    requires DbOk(db, log)
    ensures var out := Sequence(db, entries).1;
            |out| == |entries| && forall i | 0 <= i < |out| :: OutcomeRight(db, log, entries, i, out[i])
    ensures forall e :: e in log + Fresh(db, entries) <==> e in log || e in entries
    ensures !db.rekor ==> Fresh(db, entries) == entries
    decreases |entries|
  {
    hide Mth, DbOk, SequenceOne, OutcomeRight;
    if entries == [] {
      assert log + [] == log;
    } else {
      var init, last := entries[..|entries| - 1], entries[|entries| - 1];
      assert entries == init + [last];
      var (db1, out1) := Sequence(db, init);
      var (db2, outcome) := SequenceOne(db1, last);
      var log1 := log + Fresh(db, init);
      assert Sequence(db, entries).1 == out1 + [outcome];
      assert log + Fresh(db, entries) == log1 + if outcome.At? then [last] else [];
      hide Sequence, Fresh;
      SequenceOutcomes(db, log, init);
      SequenceKeepsDbOk(db, log, init);
      SequenceMode(db, init);
      OneOutcome(db1, log1, last);
      SequenceOneKeepsDbOk(db1, log1, last);
      LastOutcome(db, log, init, last, outcome);
      forall i | 0 <= i < |init| ensures OutcomeRight(db, log, entries, i, out1[i]) {
        assert OutcomeRight(db, log, init, i, out1[i]);
        EarlierOutcome(db, log, init, last, i, out1[i]);
      }
    }
  }

  lemma EarlierOutcome(db: Db, log: seq<Entry>, init: seq<Entry>, last: Entry, i: nat, outcome: Sequenced)
    requires i < |init| && OutcomeRight(db, log, init, i, outcome)
    ensures OutcomeRight(db, log, init + [last], i, outcome)
  {
    assert (init + [last])[..i] == init[..i];
  }

  lemma LastOutcome(db: Db, log: seq<Entry>, init: seq<Entry>, last: Entry, outcome: Sequenced)
    requires outcome.Duplicate? <==> db.rekor && (last in log || last in init)
    requires outcome.At? ==> outcome.index == |log| + |Fresh(db, init)|
    ensures OutcomeRight(db, log, init + [last], |init|, outcome)
  {
    assert (init + [last])[..|init|] == init;
  }

  lemma OneOutcome(db: Db, log: seq<Entry>, entry: Entry)
    requires DbOk(db, log)
    ensures SequenceOne(db, entry).1.Duplicate? <==> db.rekor && entry in log
  {
    hide Mth;
    if db.rekor && LeafHash(entry) in db.dedup { assert log[db.dedup[LeafHash(entry)]] == entry; }
  }

  lemma {:induction false} SequenceMode(db: Db, entries: seq<Entry>)
    ensures Sequence(db, entries).0.rekor == db.rekor
    decreases |entries|
  {
    if entries != [] { SequenceMode(db, entries[..|entries| - 1]); }
  }

  /** In Rekor mode no entry is ever in the log twice. */
  lemma RekorUnique(db: Db, log: seq<Entry>, i: nat, j: nat)
    requires DbOk(db, log) && db.rekor && i < |log| && j < |log| && log[i] == log[j]
    ensures i == j
  {
  }

  /** Marking integrated moves the frontier and drops exactly the integrated rows. */
  lemma MarkKeepsDbOk(db: Db, log: seq<Entry>, n: nat, root: Hash)
    requires DbOk(db, log) && db.integrated <= n <= |log| && 0 < n
    requires root == Mth(Leaves(log)[..n])
    ensures DbOk(Mark(db, n, root), log)
  {
  }
}

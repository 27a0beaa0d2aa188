/** An index worker that nobody disturbs (src/worker.rs:202-243).

    `VindexProtocol` shows that no run damages the index; here the checks are shown to leave
    the way free: a running process can index and mark every entry that the limits admit. */
module VindexProgress {
  import opened Bits
  import opened Wrappers
  import opened Wal
  import opened Vindex
  import opened VindexProtocol

  ghost predicate Path(crc: Checksum, states: seq<State>, steps: seq<Step>) {
    && |states| == |steps| + 1
    && forall i | 0 <= i < |steps| :: NextState(crc, states[i], steps[i], states[i + 1])
  }

  /** There is a path from one state to the other. */
  ghost predicate Reaches(crc: Checksum, s: State, s': State) {
    exists states, steps :: Path(crc, states, steps) && states[0] == s && states[|states| - 1] == s'
  }

  lemma ReachesSelf(crc: Checksum, s: State)
    ensures Reaches(crc, s, s)
  {
    var states: seq<State>, steps: seq<Step> := [s], [];
    assert Path(crc, states, steps);
  }

  lemma ReachesStep(crc: Checksum, s: State, mid: State, step: Step, s': State)
    requires Reaches(crc, s, mid) && NextState(crc, mid, step, s')
    ensures Reaches(crc, s, s')
  {
    hide NextState;
    var states, steps :| Path(crc, states, steps) && states[0] == s && states[|states| - 1] == mid;
    var states', steps' := states + [s'], steps + [step];
    forall i | 0 <= i < |steps'| ensures NextState(crc, states'[i], steps'[i], states'[i + 1]) {
      if i < |steps| { assert NextState(crc, states[i], steps[i], states[i + 1]); }
    }
    assert Path(crc, states', steps');
  }

  /** The limits of the process admit every entry that it has yet to index, up to n. */
  ghost predicate AdmitsRest(log: Keys, from: nat, n: nat, settings: Settings)
    requires n <= |log|
  {
    forall i | from <= i < n :: |log[i]| <= 255 && Fits(IndexUpTo(log, i), log[i], settings.maxKeys, settings.maxIndices)
  }

  /** A state of the invariant reached from s, with the same log and a process that is at
      this point of its cycle. */
  ghost predicate Goes(crc: Checksum, s: State, s': State, cycle: Cycle) {
    && Reaches(crc, s, s') && Inv(crc, s') && Enabled(s', cycle)
    && s'.log == s.log && s.live.Some? && s'.live.value.settings == s.live.value.settings
  }

  /** What `Inv` says about a process that is indexing. */
  lemma IndexingSizes(crc: Checksum, s: State, end: nat)
    requires Inv(crc, s) && Enabled(s, Indexing(end))
    ensures s.db <= s.live.value.size <= end <= |s.log| < U64_LIMIT
    ensures s.live.value.index == IndexUpTo(s.log, s.live.value.size)
  {
    hide IndexUpTo, Sound;
  }

  lemma IdleSizes(crc: Checksum, s: State)
    requires Inv(crc, s) && Enabled(s, Idle)
    ensures s.db <= s.live.value.size <= Min(s.db + s.live.value.settings.limit, |s.log|)
    ensures s.live.value.index == IndexUpTo(s.log, s.live.value.size)
  {
    hide IndexUpTo, Sound;
  }

  /** The next admitted entry can be indexed. */
  lemma OneMore(crc: Checksum, s: State, end: nat) returns (s': State)
    requires Inv(crc, s) && Enabled(s, Indexing(end)) && s.live.value.size < end <= |s.log|
    requires AdmitsRest(s.log, s.live.value.size, end, s.live.value.settings)
    ensures NextState(crc, s, IndexNext, s') && Inv(crc, s') && Enabled(s', Indexing(end))
    ensures s'.log == s.log && s'.db == s.db && s'.live.value.settings == s.live.value.settings
    ensures s'.live.value.size == s.live.value.size + 1
  {
    hide IndexUpTo, Inv, NextState, Fits;
    IndexingSizes(crc, s, end);
    s' := IndexStep(crc, s, end);
    NextKeepsInv(crc, s, IndexNext, s');
  }

  lemma IndexStep(crc: Checksum, s: State, end: nat) returns (s': State)
    requires Enabled(s, Indexing(end)) && s.live.value.size < end <= |s.log| < U64_LIMIT
    requires Admits(s.live.value, s.log[s.live.value.size])
    ensures NextState(crc, s, IndexNext, s') && Enabled(s', Indexing(end))
    ensures s'.log == s.log && s'.db == s.db && s'.live.value.settings == s.live.value.settings
    ensures s'.live.value.size == s.live.value.size + 1
  {
    var k := s.live.value;
    var keys := s.log[k.size];
    assert |keys| <= 255;
    hide AddKeys, AppendRecord, Admits;
    var s1 := s.(live := Some(k.(index := AddKeys(k.index, keys, k.size), size := k.size + 1)));
    s' := AppendRecord(crc, s1, Record(k.size, keys));
    AppendKeeps(crc, s1, Record(k.size, keys));
  }

  /** Appending a record is no matter of log, database or index. */
  lemma AppendKeeps(crc: Checksum, s: State, r: WalRecord)
    requires s.live.Some?
    ensures var s' := AppendRecord(crc, s, r);
            && s'.log == s.log && s'.db == s.db && s'.live.Some?
            && s'.live.value.(buffer := []) == s.live.value.(buffer := [])
  {
    hide Encode, EncodeAll;
  }

  lemma {:induction false} IndexesRest(crc: Checksum, s: State, mid: State, end: nat) returns (s': State)
    requires Goes(crc, s, mid, Indexing(end)) && end <= |mid.log|
    requires AdmitsRest(mid.log, mid.live.value.size, end, mid.live.value.settings)
    ensures Goes(crc, s, s', Indexing(end)) && s'.db == mid.db && s'.live.value.size == end
    decreases end - mid.live.value.size
  {
    hide Inv, NextState, Reaches, IndexUpTo, Fits;
    IndexingSizes(crc, mid, end);
    if mid.live.value.size == end {
      s' := mid;
    } else {
      var next := OneMore(crc, mid, end);
      ReachesStep(crc, s, mid, IndexNext, next);
      s' := IndexesRest(crc, s, next, end);
    }
  }

  /** A cycle can start as long as there is something to index. */
  lemma Begins(crc: Checksum, s: State, mid: State) returns (s': State)
    requires Goes(crc, s, mid, Idle) && mid.db < |mid.log| && mid.live.value.settings.limit > 0
    ensures Goes(crc, s, s', Indexing(Min(mid.db + mid.live.value.settings.limit, |mid.log|)))
    ensures s'.db == mid.db && s'.live.value.size == mid.live.value.size
  {
    hide Inv, Reaches;
    var end := Min(mid.db + mid.live.value.settings.limit, |mid.log|);
    s' := WithCycle(mid, Indexing(end));
    assert NextState(crc, mid, Begin, s');
    hide NextState;
    ReachesStep(crc, s, mid, Begin, s');
    NextKeepsInv(crc, mid, Begin, s');
  }

  /** What is indexed can be flushed and marked. */
  lemma Marks(crc: Checksum, s: State, mid: State, end: nat) returns (s': State)
    requires Goes(crc, s, mid, Indexing(end)) && mid.live.value.size == end
    ensures Goes(crc, s, s', Idle) && s'.db == end && s'.live.value.size == end
  {
    hide Inv, Reaches, EncodeAll;
    var s1 := WithCycle(FlushBuffer(crc, mid), Flushed(end));
    assert NextState(crc, mid, Flush, s1);
    var s2 := WithCycle(s1.(db := end), Marked);
    assert NextState(crc, s1, MarkIntegrated, s2);
    s' := WithCycle(s2, Idle);
    assert NextState(crc, s2, EndCycle, s');
    hide NextState;
    NextKeepsInv(crc, mid, Flush, s1);
    NextKeepsInv(crc, s1, MarkIntegrated, s2);
    NextKeepsInv(crc, s2, EndCycle, s');
    ReachesStep(crc, s, mid, Flush, s1);
    ReachesStep(crc, s, s1, MarkIntegrated, s2);
    ReachesStep(crc, s, s2, EndCycle, s');
  }

  lemma {:induction false} CatchesUpFrom(crc: Checksum, s: State, mid: State) returns (s': State)
    requires Goes(crc, s, mid, Idle) && mid.db <= |mid.log| && mid.live.value.settings.limit > 0
    requires AdmitsRest(mid.log, mid.live.value.size, |mid.log|, mid.live.value.settings)
    ensures Goes(crc, s, s', Idle) && s'.db == s'.live.value.size == |s'.log|
    decreases |mid.log| - mid.db
  {
    hide Inv, NextState, Reaches, IndexUpTo, Fits;
    IdleSizes(crc, mid);
    if mid.db == |mid.log| {
      s' := mid;
    } else {
      var end := Min(mid.db + mid.live.value.settings.limit, |mid.log|);
      var s1 := Begins(crc, s, mid);
      var s2 := IndexesRest(crc, s, s1, end);
      var s3 := Marks(crc, s, s2, end);
      s' := CatchesUpFrom(crc, s, s3);
    }
  }

  /** In every run a process between two cycles can catch up, whatever it has left over from
      cycles that were given up: if its limits admit the rest of the log, there is a path to
      a state in which the whole log is indexed and marked. */
  lemma CatchesUp(crc: Checksum, states: seq<State>, steps: seq<Step>, i: nat) returns (s': State)
    requires Run(crc, states, steps) && SnapshotsFit(states, steps) && i < |states| && Enabled(states[i], Idle)
    requires var k := states[i].live.value;
             k.settings.limit > 0 && AdmitsRest(states[i].log, k.size, |states[i].log|, k.settings)
    ensures Reaches(crc, states[i], s') && s'.log == states[i].log && s'.db == |s'.log|
    ensures s'.live.Some? && s'.live.value.index == IndexUpTo(s'.log, |s'.log|)
  {
    hide Inv, NextState, Reaches, IndexUpTo, Fits, Init;
    RunInvariant(crc, states, steps, i);
    var s := states[i];
    ReachesSelf(crc, s);
    IdleSizes(crc, s);
    s' := CatchesUpFrom(crc, s, s);
    IdleSizes(crc, s');
  }

  /** In every run a process that has marked its batch can take a snapshot of an index that a
      snapshot can hold, in any row order, and truncate the log: the snapshot alone then
      restores the index. */
  lemma SnapshotsAlone(crc: Checksum, states: seq<State>, steps: seq<Step>, i: nat, rows: S.Rows) returns (s': State)
    requires Run(crc, states, steps) && SnapshotsFit(states, steps) && i < |states| && Enabled(states[i], Marked)
    requires var k := states[i].live.value; S.Lists(rows, k.index) && S.Storable(k.size, k.index)
    ensures Reaches(crc, states[i], s') && s'.log == states[i].log && s'.db == states[i].db <= |s'.log|
    ensures Enabled(s', Idle) && s'.wal == [] && Loaded(crc, s'.snapshot) == Some((s'.db, IndexUpTo(s'.log, s'.db)))
  {
    hide Inv, Reaches, IndexUpTo, Init, S.Lists, S.Storable, S.SnapshotBytes;
    RunInvariant(crc, states, steps, i);
    var s := states[i];
    var n := s.live.value.size;
    var s1 := WithCycle(s.(snapshot := Some(S.SnapshotBytes(crc, n, rows))), Snapshotted);
    assert NextState(crc, s, TakeSnapshot(rows), s1);
    s' := WithCycle(s1.(wal := [], synced := 0, last := n, syncedTo := n), Idle);
    assert NextState(crc, s1, TruncateWal, s');
    hide NextState;
    ReachesSelf(crc, s);
    ReachesStep(crc, s, s, TakeSnapshot(rows), s1);
    ReachesStep(crc, s, s1, TruncateWal, s');
    NextKeepsInv(crc, s, TakeSnapshot(rows), s1);
    SnapshotIsIndex(crc, s1);
  }

  lemma SnapshotIsIndex(crc: Checksum, s: State)
    requires Inv(crc, s) && Enabled(s, Snapshotted) && s.snapshot.Some?
    ensures s.db <= |s.log| && Loaded(crc, s.snapshot) == Some((s.db, IndexUpTo(s.log, s.db)))
  {
    hide IndexUpTo, Sound;
  }
}

/** An integrator and a publisher that nobody disturbs (src/worker.rs:133-312,
    src/worker.rs:371-505).

    `Log` shows that nothing goes wrong; here the checks are shown to leave the way free.
    From every state of the invariant, whatever other integrators have left behind, a new
    one can integrate every pending batch, and a publisher with enough cosignatures can
    publish. */
module LogProgress {
  import opened Rfc6962
  import opened Tiles
  import opened Sequencer
  import opened Wrappers
  import opened Log
  import I = Integrate
  import Imp = Import

  ghost predicate Path(states: seq<System>, steps: seq<Step>) {
    && |states| == |steps| + 1
    && forall i | 0 <= i < |steps| :: Next(states[i], steps[i], states[i + 1])
  }

  /** There is a path from one state to the other. */
  ghost predicate Reaches(s: System, s': System) {
    exists states, steps :: Path(states, steps) && states[0] == s && states[|states| - 1] == s'
  }

  lemma ReachesSelf(s: System)
    ensures Reaches(s, s)
  {
    var states: seq<System>, steps: seq<Step> := [s], [];
    assert Path(states, steps);
  }

  lemma ReachesStep(s: System, mid: System, step: Step, s': System)
    requires Reaches(s, mid) && Next(mid, step, s')
    ensures Reaches(s, s')
  {
    hide Next;
    var states, steps :| Path(states, steps) && states[0] == s && states[|states| - 1] == mid;
    var states', steps' := states + [s'], steps + [step];
    forall i | 0 <= i < |steps'| ensures Next(states'[i], steps'[i], states'[i + 1]) {
      if i < |steps| { assert Next(states[i], steps[i], states[i + 1]); }
    }
    assert Path(states', steps');
  }

  /** The state with one worker replaced. */
  function With(s: System, w: nat, k: Worker): System { s.(workers := s.workers[w := k]) }

  // ---- reading ----

  /** The worker can read everything that is stored. */
  lemma {:induction false} ReadsTiles(s: System, mid: System, w: nat)
    requires Reaches(s, mid) && w in mid.workers && mid.workers[w].GotBatch?
    requires forall p | p in mid.workers[w].view :: p in mid.tiles && mid.workers[w].view[p] == mid.tiles[p]
    ensures Reaches(s, With(mid, w, mid.workers[w].(view := mid.tiles)))
    decreases mid.tiles.Keys - mid.workers[w].view.Keys
  {
    hide Reaches;
    var k := mid.workers[w];
    if path :| path in mid.tiles && path !in k.view {
      var next := With(mid, w, k.(view := k.view[path := mid.tiles[path]]));
      assert Next(mid, ReadTile(w, path), next);
      ReachesStep(s, mid, ReadTile(w, path), next);
      assert path in mid.tiles.Keys - k.view.Keys && path !in next.tiles.Keys - next.workers[w].view.Keys;
      ReadsTiles(s, next, w);
      assert With(next, w, next.workers[w].(view := next.tiles)) == With(mid, w, k.(view := mid.tiles));
    } else {
      assert k.view == mid.tiles;
      assert With(mid, w, k.(view := mid.tiles)) == mid;
    }
  }

  /** So it can the bundle that its batch continues. */
  lemma ReadsBundle(s: System, mid: System, w: nat) returns (bundleView: Bundles)
    requires Reaches(s, mid) && w in mid.workers && mid.workers[w].GotBatch? && mid.workers[w].bundleView == map[]
    requires BundleReadable(mid.bundles, mid.workers[w].from)
    ensures BundleReadable(bundleView, mid.workers[w].from)
    ensures Reaches(s, With(mid, w, mid.workers[w].(bundleView := bundleView)))
  {
    hide Reaches;
    var k := mid.workers[w];
    if k.from % 256 > 0 {
      var p := BundlePath(k.from / 256, k.from % 256);
      bundleView := map[p := mid.bundles[p]];
      var next := With(mid, w, k.(bundleView := bundleView));
      assert map[][p := mid.bundles[p]] == bundleView;
      assert Next(mid, ReadBundle(w, p), next);
      ReachesStep(s, mid, ReadBundle(w, p), next);
    } else {
      bundleView := map[];
      assert With(mid, w, k.(bundleView := bundleView)) == mid;
    }
  }

  // ---- writing ----

  /** Nothing but storage and one worker is different. */
  ghost predicate StorageOnly(s: System, s': System, w: nat) {
    s' == s.(tiles := s'.tiles, bundles := s'.bundles, workers := s'.workers) && s'.workers - {w} == s.workers - {w}
  }

  lemma {:induction false} WritesTiles(s: System, mid: System, w: nat) returns (s': System)
    requires Reaches(s, mid) && w in mid.workers && mid.workers[w].Writing?
    ensures Reaches(s, s') && StorageOnly(mid, s', w)
    ensures w in s'.workers && s'.workers[w] == mid.workers[w].(tilesLeft := map[])
    decreases mid.workers[w].tilesLeft.Keys
  {
    hide Reaches;
    var k := mid.workers[w];
    if k.tilesLeft == map[] {
      s' := mid;
    } else {
      var key :| key in k.tilesLeft;
      var next := With(mid, w, k.(tilesLeft := k.tilesLeft - {key}))
                  .(tiles := mid.tiles[PathAt(key.level, key.index, k.n) := k.tilesLeft[key]]);
      assert Next(mid, WriteTile(w, key), next);
      ReachesStep(s, mid, WriteTile(w, key), next);
      assert next.workers[w].tilesLeft.Keys == k.tilesLeft.Keys - {key};
      s' := WritesTiles(s, next, w);
      assert next.workers - {w} == mid.workers - {w};
    }
  }

  lemma {:induction false} WritesBundles(s: System, mid: System, w: nat) returns (s': System)
    requires Reaches(s, mid) && w in mid.workers && mid.workers[w].Writing?
    ensures Reaches(s, s') && StorageOnly(mid, s', w)
    ensures w in s'.workers && s'.workers[w] == mid.workers[w].(bundlesLeft := map[])
    decreases mid.workers[w].bundlesLeft.Keys
  {
    hide Reaches;
    var k := mid.workers[w];
    if k.bundlesLeft == map[] {
      s' := mid;
    } else {
      var index :| index in k.bundlesLeft;
      var next := With(mid, w, k.(bundlesLeft := k.bundlesLeft - {index}))
                  .(bundles := mid.bundles[BundleAt(index, k.n) := k.bundlesLeft[index]]);
      assert Next(mid, WriteBundle(w, index), next);
      ReachesStep(s, mid, WriteBundle(w, index), next);
      assert next.workers[w].bundlesLeft.Keys == k.bundlesLeft.Keys - {index};
      s' := WritesBundles(s, next, w);
      assert next.workers - {w} == mid.workers - {w};
    }
  }

  // ---- a whole cycle ----

  /** The worker gets as far as its batch. */
  lemma GetsBatch(s: System, w: nat, batch: seq<Entry>) returns (s': System)
    requires Inv(s) && w !in s.workers && batch != [] && PendingRun(s.db.pending, s.db.integrated, batch)
    ensures Reaches(s, s') && s' == With(s, w, GotBatch(s.db.integrated, batch, map[], map[]))
  {
    var first := batch[0];
    assert s.db.integrated in s.db.pending && s.db.integrated < s.db.next;
    hide Inv, PendingRun, Reaches;
    var s1 := With(s, w, GotState(s.db.integrated));
    s' := With(s, w, GotBatch(s.db.integrated, batch, map[], map[]));
    assert s1.workers[w := s'.workers[w]] == s'.workers;
    ReachesSelf(s);
    ReachesStep(s, s, ReadState(w), s1);
    ReachesStep(s, s1, ReadPending(w, batch), s');
  }

  /** Whatever is stored beside it, the tree of the worker's size is there and can be
      computed from. */
  lemma Computes(s: System, mid: System, w: nat, n: nat) returns (s': System)
    requires Reaches(s, mid) && w in mid.workers && mid.workers[w].GotBatch?
    requires var GotBatch(from, batch, view, bundleView) := mid.workers[w];
             && Authentic(view, Leaves(mid.log)) && Covers(view, from) && BundleReadable(bundleView, from)
             && n == from + |batch| <= |mid.log| && batch == mid.log[from..n]
    ensures Reaches(s, s') && StorageOnly(mid, s', w)
    ensures w in s'.workers && s'.workers[w].Writing? && s'.workers[w].from == mid.workers[w].from
    ensures s'.workers[w].n == n && s'.workers[w].root == Mth(Leaves(mid.log)[..n])
  {
    hide Reaches, Mth, Authentic, Covers, LeavesReadable, StoredLeaves, I.TilesSpec, NewBundles, BundleReadable, Leaves;
    var GotBatch(from, batch, view, bundleView) := mid.workers[w];
    var leaves := Leaves(mid.log);
    StoredLeavesAuthentic(view, leaves, from);
    LeavesSlice(mid.log, from, n);
    var d := leaves[..n];
    var k := Writing(from, |d|, Mth(d), Imp.NewTiles(view, from, d), NewBundles(bundleView, from, batch));
    s' := With(mid, w, k);
    assert Next(mid, Compute(w, k.tilesLeft), s');
    ReachesStep(s, mid, Compute(w, k.tilesLeft), s');
    assert s'.workers - {w} == mid.workers - {w};
  }

  lemma LeavesSlice(log: seq<Entry>, from: nat, n: nat)
    requires from <= n <= |log|
    ensures Leaves(log)[..from] + Leaves(log[from..n]) == Leaves(log)[..n]
  {
  }

  /** The worker gets as far as it needs to compute. */
  lemma ReadsAll(s: System, w: nat, batch: seq<Entry>) returns (s': System, bundleView: Bundles)
    requires Inv(s) && w !in s.workers && batch != [] && PendingRun(s.db.pending, s.db.integrated, batch)
    ensures Reaches(s, s') && s' == With(s, w, GotBatch(s.db.integrated, batch, s.tiles, bundleView))
    ensures BundleReadable(bundleView, s.db.integrated)
  {
    hide Inv, PendingRun, Reaches, BundleReadable, Next;
    CurrentBundleReadable(s);
    var s1 := GetsBatch(s, w, batch);
    ReadsTiles(s, s1, w);
    var s2 := With(s1, w, s1.workers[w].(view := s1.tiles));
    bundleView := ReadsBundle(s, s2, w);
    s' := With(s2, w, s2.workers[w].(bundleView := bundleView));
    assert s.workers[w := s1.workers[w]][w := s2.workers[w]][w := s'.workers[w]] == s.workers[w := s'.workers[w]];
  }

  /** What it has computed it can write and mark. */
  lemma WritesAll(s: System, mid: System, w: nat) returns (s': System)
    requires Reaches(s, mid) && w in mid.workers && mid.workers[w].Writing? && mid.db.integrated == mid.workers[w].from
    ensures Reaches(s, s')
    ensures s' == mid.(db := Mark(mid.db, mid.workers[w].n, mid.workers[w].root), workers := mid.workers - {w},
                       tiles := s'.tiles, bundles := s'.bundles)
  {
    hide Reaches, Mark;
    var s1 := WritesTiles(s, mid, w);
    var s2 := WritesBundles(s, s1, w);
    var k := s2.workers[w];
    s' := s2.(db := Mark(s2.db, k.n, k.root), workers := s2.workers - {w});
    assert Next(s2, MarkStep(w), s');
    ReachesStep(s, s2, MarkStep(w), s');
  }

  /** Every batch of pending entries can be integrated: from any state of the invariant there
      is a path at whose end the database has the new size and root, the batch is no longer
      pending, and nothing that others do has changed. */
  lemma IntegratesAlone(s: System, w: nat, batch: seq<Entry>) returns (s': System)
    requires Inv(s) && w !in s.workers && batch != [] && PendingRun(s.db.pending, s.db.integrated, batch)
    ensures Reaches(s, s')
    ensures var n := s.db.integrated + |batch|;
            n <= |s.log| && s'.db == Mark(s.db, n, Mth(Leaves(s.log)[..n]))
    ensures s'.log == s.log && s'.workers == s.workers && s'.publishers == s.publishers && s'.published == s.published
  {
    var from, n := s.db.integrated, s.db.integrated + |batch|;
    assert DbOk(s.db, s.log) && StorageOk(s.tiles, s.bundles, from, s.log);
    hide Inv, PendingRun, Reaches, DbOk, Mth, Authentic, Covers, BundleReadable, Leaves, CoversBundles, AuthenticBundles,
      Next, Mark;
    PendingIsLog(s.db, s.log, from, batch);
    var s1, bundleView := ReadsAll(s, w, batch);
    var s2 := Computes(s, s1, w, n);
    s' := WritesAll(s, s2, w);
    assert s1.workers - {w} == s.workers;
  }

  lemma CurrentBundleReadable(s: System)
    requires Inv(s)
    ensures BundleReadable(s.bundles, s.db.integrated)
  {
    hide DbOk, Authentic, Covers;
    var from := s.db.integrated;
    if from % 256 > 0 {
      assert SizeAt(0, from) == from;
      assert InTree(0, from / 256, from);
      var p := BundleAt(from / 256, from);
      assert AuthenticBundle(s.bundles[p], p, s.log);
    }
  }

  // ---- publishing ----

  /** The exact condition under which a publisher goes on. */
  lemma QuorumExact(witnesses: P.Witnesses, replies: seq<P.Reply>, quorum: Option<nat>)
    requires |replies| == |witnesses|
    ensures P.QuorumReached(witnesses, replies, quorum)
            <==> if quorum.Some? then |P.Counted(witnesses, replies, |witnesses|)| >= quorum.value
                 else |P.Counted(witnesses, replies, |witnesses|)| == |witnesses|
  {
    hide P.Counted;
    P.FullCount(witnesses, replies, |witnesses|);
  }

  /** With enough cosignatures the current tree can be published. */
  lemma PublishesAlone(s: System, p: nat, witnesses: P.Witnesses, replies: seq<P.Reply>, quorum: Option<nat>)
    returns (s': System)
    requires Inv(s) && |replies| == |witnesses|
    requires if quorum.Some? then |P.Counted(witnesses, replies, |witnesses|)| >= quorum.value
             else |P.Counted(witnesses, replies, |witnesses|)| == |witnesses|
    ensures Reaches(s, s')
    ensures s'.published == s.published + {(s.db.integrated, Mth(Leaves(s.log)[..s.db.integrated]))}
    ensures s'.log == s.log && s'.db == s.db
  {
    assert s.db.root == if s.db.integrated == 0 then None else Some(Mth(Leaves(s.log)[..s.db.integrated]));
    if s.db.integrated == 0 { assert Leaves(s.log)[..0] == []; }
    QuorumExact(witnesses, replies, quorum);
    assert s.db.integrated == 0 ==> Mth(Leaves(s.log)[..0]) == EmptyRoot;
    hide Inv, Mth, P.Counted, P.QuorumReached, Reaches, Leaves;
    var c := (s.db.integrated, Mth(Leaves(s.log)[..s.db.integrated]));
    var s1 := s.(publishers := s.publishers[p := c]);
    s' := s1.(publishers := s1.publishers - {p}, published := s1.published + {c},
              votes := s1.votes + {Vote(c, witnesses, replies, quorum)});
    ReachesSelf(s);
    assert Next(s, PublisherRead(p), s1);
    ReachesStep(s, s, PublisherRead(p), s1);
    assert Next(s1, Publish(p, witnesses, replies, quorum), s');
    ReachesStep(s, s1, Publish(p, witnesses, replies, quorum), s');
  }

  // ---- from every reachable state ----

  lemma {:induction false} PathInv(states: seq<System>, steps: seq<Step>, i: nat)
    requires Path(states, steps) && Inv(states[0]) && i < |states|
    ensures Inv(states[i])
  {
    hide Inv, Next;
    if i > 0 {
      PathInv(states, steps, i - 1);
      assert Next(states[i - 1], steps[i - 1], states[i - 1 + 1]);
      NextKeepsInv(states[i - 1], steps[i - 1], states[i]);
    }
  }

  lemma ReachesInv(s: System, s': System)
    requires Reaches(s, s') && Inv(s)
    ensures Inv(s')
  {
    hide Inv, Next;
    var states, steps :| Path(states, steps) && states[0] == s && states[|states| - 1] == s';
    PathInv(states, steps, |states| - 1);
  }

  lemma ReachesOn(s: System, mid: System, s': System)
    requires Reaches(s, mid) && Reaches(mid, s')
    ensures Reaches(s, s')
  {
    hide Next;
    var states, steps :| Path(states, steps) && states[0] == mid && states[|states| - 1] == s';
    ReachesAlong(s, states, steps, |states| - 1);
  }

  lemma {:induction false} ReachesAlong(s: System, states: seq<System>, steps: seq<Step>, i: nat)
    requires Path(states, steps) && Reaches(s, states[0]) && i < |states|
    ensures Reaches(s, states[i])
  {
    hide Next, Reaches;
    if i > 0 {
      ReachesAlong(s, states, steps, i - 1);
      assert Next(states[i - 1], steps[i - 1], states[i - 1 + 1]);
      ReachesStep(s, states[i - 1], steps[i - 1], states[i]);
    }
  }

  /** What is sequenced and not integrated is pending. */
  lemma RestIsPending(db: Db, log: seq<Entry>)
    requires DbOk(db, log)
    ensures PendingRun(db.pending, db.integrated, log[db.integrated..])
  {
    hide Mth;
  }

  /** In every run, from every reachable state and with enough cosignatures, the log can
      catch up: integrate every entry that was ever sequenced and publish the checkpoint of
      them all. */
  lemma CatchesUp(states: seq<System>, steps: seq<Step>, i: nat, w: nat, p: nat, witnesses: P.Witnesses,
                  replies: seq<P.Reply>, quorum: Option<nat>)
    returns (s': System)
    requires Run(states, steps) && i < |states| && w !in states[i].workers && |replies| == |witnesses|
    requires if quorum.Some? then |P.Counted(witnesses, replies, |witnesses|)| >= quorum.value
             else |P.Counted(witnesses, replies, |witnesses|)| == |witnesses|
    ensures Reaches(states[i], s') && s'.log == states[i].log && s'.db.integrated == |s'.log|
    ensures (|s'.log|, Mth(Leaves(s'.log))) in s'.published
  {
    RunInvariant(states, steps, i, i);
    var s := states[i];
    var rest := s.log[s.db.integrated..];
    assert DbOk(s.db, s.log) && s.db.integrated <= |s.log|;
    hide Inv, DbOk, Run, Reaches, Mth, P.Counted, PendingRun, Leaves;
    RestIsPending(s.db, s.log);
    ReachesSelf(s);
    var full := s;
    if rest != [] { full := IntegratesAlone(s, w, rest); }
    ReachesInv(s, full);
    s' := PublishesAlone(full, p, witnesses, replies, quorum);
    ReachesOn(s, full, s');
    assert Leaves(s.log)[..|s.log|] == Leaves(s.log);
  }
}

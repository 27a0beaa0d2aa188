/** A monitoring witness that nobody disturbs (src/monitor/mod.rs:104-222).

    `MonitorProtocol` shows that only what keeps the policy is cosigned; here the checks are
    shown to leave the way free: whatever does can be cosigned. */
module MonitorProgress {
  import opened Rfc6962
  import opened Consistency
  import opened Inclusion
  import Q = Sequencer
  import opened Witness
  import opened MonitorProtocol

  ghost predicate Path(logs: set<Origin>, parse: Parser, states: seq<System>, steps: seq<Step>) {
    && |states| == |steps| + 1
    && forall i | 0 <= i < |steps| :: Next(logs, parse, states[i], steps[i], states[i + 1])
  }

  /** There is a path from one state to the other. */
  ghost predicate Reaches(logs: set<Origin>, parse: Parser, s: System, s': System) {
    exists states, steps :: Path(logs, parse, states, steps) && states[0] == s && states[|states| - 1] == s'
  }

  /** A state of the invariant that can be reached. */
  ghost predicate Goes(logs: set<Origin>, parse: Parser, s: System, s': System) {
    Reaches(logs, parse, s, s') && Inv(parse, s')
  }

  lemma GoesSelf(logs: set<Origin>, parse: Parser, s: System)
    requires Inv(parse, s)
    ensures Goes(logs, parse, s, s)
  {
    var states: seq<System>, steps: seq<Step> := [s], [];
    assert Path(logs, parse, states, steps);
  }

  lemma GoesStep(logs: set<Origin>, parse: Parser, s: System, mid: System, step: Step, s': System)
    requires Goes(logs, parse, s, mid) && Next(logs, parse, mid, step, s')
    ensures Goes(logs, parse, s, s')
  {
    hide Next, Inv;
    var states, steps :| Path(logs, parse, states, steps) && states[0] == s && states[|states| - 1] == mid;
    var states', steps' := states + [s'], steps + [step];
    forall i | 0 <= i < |steps'| ensures Next(logs, parse, states'[i], steps'[i], states'[i + 1]) {
      if i < |steps| { assert Next(logs, parse, states[i], steps[i], states[i + 1]); }
    }
    assert Path(logs, parse, states', steps');
    NextKeepsInv(logs, parse, mid, step, s');
  }

  function AccountOf(s: System, o: Origin): Account {
    if o in s.accounts then s.accounts[o] else Account(INITIAL, map[], map[], [])
  }

  /** The entries between the witnessed size and the checkpoint: proved included, parsed, and
      in keeping with the policy. */
  ghost predicate Fetchable(parse: Parser, a: Account, cp: Checkpoint, entries: seq<Q.Entry>) {
    && AllParse(parse, a.seen) && AllParse(parse, entries) && a.row.size + |entries| == cp.size
    && (forall i | 0 <= i < |entries| :: Included(LeafHash(entries[i]), a.row.size + i, cp.size, cp.root))
    && M.Policy(Packages(parse, a.seen) + Packages(parse, entries))
  }

  /** Process p is validating this request for this account, and has fetched so much. */
  ghost predicate AtEntry(s: System, p: nat, req: Request, a: Account, fetched: seq<Q.Entry>) {
    && p in s.procs && s.procs[p] == Validating(req, a.row, fetched)
    && req.checkpoint.origin in s.accounts && s.accounts[req.checkpoint.origin] == a
  }

  // ---- up to the first entry ----

  /** If no transaction holds the row, the request gets the lock. */
  lemma Locks(logs: set<Origin>, parse: Parser, s: System, p: nat, req: Request) returns (s': System)
    requires Inv(parse, s) && p !in s.procs && req in s.received && Admissible(logs, req)
    requires forall q :: !Holder(s, q, req.checkpoint.origin)
    requires var row := AccountOf(s, req.checkpoint.origin).row;
             && req.oldSize == row.size
             && Accepts(row.size, req.checkpoint.size, row.root, req.checkpoint.root, req.proof)
    ensures Goes(logs, parse, s, s') && s'.signed == s.signed && p in s'.procs
    ensures var o := req.checkpoint.origin;
            && s'.accounts == s.accounts[o := AccountOf(s, o)]
            && s'.procs[p] == Locked(req, AccountOf(s, o).row)
  {
    hide Inv, Goes, Precheck, Admissible, Accepts;
    var o, a := req.checkpoint.origin, AccountOf(s, req.checkpoint.origin);
    PrecheckExact(logs, req);
    GoesSelf(logs, parse, s);
    var s1 := if o in s.accounts then s else s.(accounts := s.accounts[o := a]);
    GoesStep(logs, parse, s, s, InitRow(o), s1);
    var s2 := At(s1, p, HasState(req, a.row));
    assert Next(logs, parse, s1, ReadState(p, req), s2);
    GoesStep(logs, parse, s, s1, ReadState(p, req), s2);
    forall q ensures !Holder(s2, q, o) { assert !Holder(s, q, o); }
    s' := At(s2, p, Locked(req, a.row));
    assert Next(logs, parse, s2, Lock(p), s');
    GoesStep(logs, parse, s, s2, Lock(p), s');
  }

  /** With the lock it gets to its first entry. */
  lemma Loads(logs: set<Origin>, parse: Parser, s: System, mid: System, p: nat) returns (s': System)
    requires Goes(logs, parse, s, mid) && p in mid.procs && mid.procs[p].Locked?
    requires mid.procs[p].req.checkpoint.origin in mid.accounts
    requires mid.accounts[mid.procs[p].req.checkpoint.origin].row == mid.procs[p].state
    ensures Goes(logs, parse, s, s') && s'.signed == mid.signed && s'.accounts == mid.accounts
    ensures var req := mid.procs[p].req; AtEntry(s', p, req, mid.accounts[req.checkpoint.origin], [])
  {
    hide Inv, Goes;
    var Locked(req, state) := mid.procs[p];
    var a := mid.accounts[req.checkpoint.origin];
    var s1 := WithMemory(At(mid, p, RolledBack(req, state)), p, MemoryOf(mid, p).(staged := NOTHING));
    GoesStep(logs, parse, s, mid, RollBack(p), s1);
    var s2 := WithMemory(At(s1, p, LoadedShas(req, state)), p, MemoryOf(s1, p).(shaRows := a.shaRows));
    GoesStep(logs, parse, s, s1, LoadShas(p), s2);
    s' := WithMemory(At(s2, p, Validating(req, state, [])), p, MemoryOf(s2, p).(fileRows := a.fileRows));
    GoesStep(logs, parse, s, s2, LoadFiles(p), s');
  }

  // ---- the entries ----

  /** A prefix of the entries keeps the policy, and so does the next one with it. */
  lemma NextKeepsPolicy(parse: Parser, a: Account, cp: Checkpoint, entries: seq<Q.Entry>, i: nat)
    requires Fetchable(parse, a, cp, entries) && i < |entries|
    ensures AllParse(parse, entries[..i]) && parse(entries[i]).Some?
    ensures M.Policy(Packages(parse, a.seen) + Packages(parse, entries[..i]) + [parse(entries[i]).value])
  {
    hide M.Policy;
    var all, upTo := Packages(parse, entries), Packages(parse, entries[..i]) + [parse(entries[i]).value];
    assert all == upTo + all[i + 1..];
    var seen := Packages(parse, a.seen);
    assert (seen + upTo) + all[i + 1..] == seen + all;
    M.PolicyPrefix(seen + upTo, all[i + 1..]);
    assert seen + Packages(parse, entries[..i]) + [parse(entries[i]).value] == seen + upTo;
  }

  /** The next entry passes, by what the process has in memory. */
  lemma Passes(parse: Parser, s: System, p: nat, req: Request, a: Account, entries: seq<Q.Entry>, i: nat)
    requires Inv(parse, s) && Fetchable(parse, a, req.checkpoint, entries) && i < |entries|
    requires AtEntry(s, p, req, a, entries[..i])
    ensures var mem := MemoryOf(s, p);
            && parse(entries[i]).Some?
            && M.Validate(mem.shaRows, mem.fileRows, mem.staged, a.row.size + i, parse(entries[i]).value).Some?
    ensures a.row.size + i < req.checkpoint.size
    ensures Included(LeafHash(entries[i]), a.row.size + i, req.checkpoint.size, req.checkpoint.root)
  {
    hide Inv, M.Policy, M.Validate, Included;
    NextKeepsPolicy(parse, a, req.checkpoint, entries, i);
    assert Included(LeafHash(entries[i]), a.row.size + i, req.checkpoint.size, req.checkpoint.root);
    hide Fetchable;
    Judged(parse, s, p, entries[i]);
  }

  lemma ValidatesOne(logs: set<Origin>, parse: Parser, s: System, mid: System, p: nat, req: Request, a: Account,
                     entries: seq<Q.Entry>, i: nat)
    returns (s': System)
    requires Goes(logs, parse, s, mid) && Fetchable(parse, a, req.checkpoint, entries) && i < |entries|
    requires AtEntry(mid, p, req, a, entries[..i])
    ensures Goes(logs, parse, s, s') && s'.signed == mid.signed && s'.accounts == mid.accounts
    ensures AtEntry(s', p, req, a, entries[..i + 1])
  {
    hide Inv, Fetchable, M.Validate, Included, Reaches, MemoryOf;
    Passes(parse, mid, p, req, a, entries, i);
    var entry, mem, fetched := entries[i], MemoryOf(mid, p), entries[..i];
    var st := M.Validate(mem.shaRows, mem.fileRows, mem.staged, a.row.size + i, parse(entry).value);
    assert fetched + [entry] == entries[..i + 1] && |fetched| == i;
    s' := WithMemory(At(mid, p, Validating(req, a.row, fetched + [entry])), p, mem.(staged := st.value));
    assert Next(logs, parse, mid, ValidateNext(p, entry), s');
    hide Next, Goes;
    GoesStep(logs, parse, s, mid, ValidateNext(p, entry), s');
  }

  lemma {:induction false} ValidatesRest(logs: set<Origin>, parse: Parser, s: System, mid: System, p: nat, req: Request,
                                         a: Account, entries: seq<Q.Entry>, i: nat)
    returns (s': System)
    requires Goes(logs, parse, s, mid) && Fetchable(parse, a, req.checkpoint, entries) && i <= |entries|
    requires AtEntry(mid, p, req, a, entries[..i])
    ensures Goes(logs, parse, s, s') && s'.signed == mid.signed && s'.accounts == mid.accounts
    ensures AtEntry(s', p, req, a, entries)
    decreases |entries| - i
  {
    hide Goes, Fetchable, AtEntry;
    if i == |entries| {
      assert entries[..i] == entries;
      s' := mid;
    } else {
      var next := ValidatesOne(logs, parse, s, mid, p, req, a, entries, i);
      s' := ValidatesRest(logs, parse, s, next, p, req, a, entries, i + 1);
    }
  }

  // ---- the end ----

  lemma Signs(logs: set<Origin>, parse: Parser, s: System, mid: System, p: nat, req: Request, a: Account, entries: seq<Q.Entry>)
    returns (s': System)
    requires Goes(logs, parse, s, mid) && AtEntry(mid, p, req, a, entries)
    requires a.row.size + |entries| == req.checkpoint.size
    ensures Goes(logs, parse, s, s') && s'.signed == mid.signed + {req.checkpoint}
    ensures var cp := req.checkpoint;
            && cp.origin in s'.accounts
            && s'.accounts[cp.origin].row == WitnessedState(cp.size, cp.root)
            && s'.accounts[cp.origin].seen == a.seen + entries
            && forall o | o != cp.origin :: AccountOf(s', o) == AccountOf(mid, o)
  {
    hide Inv, Goes, M.SaveAll, M.CommitAll;
    var cp, mem := req.checkpoint, MemoryOf(mid, p);
    var shas, files := M.SaveAll(a.shaRows, mem.staged.shas), M.SaveAll(a.fileRows, mem.staged.files);
    var s1 := WithMemory(At(mid, p, Saved(req, a.row, entries, shas, files)), p,
                         Memory(M.CommitAll(mem.shaRows, mem.staged.shas), M.CommitAll(mem.fileRows, mem.staged.files),
                                NOTHING));
    assert Next(logs, parse, mid, Save(p), s1);
    GoesStep(logs, parse, s, mid, Save(p), s1);
    var s2 := At(s1, p, Committed(cp)).(accounts := s1.accounts[cp.origin :=
                Account(WitnessedState(cp.size, cp.root), shas, files, a.seen + entries)]);
    assert Next(logs, parse, s1, CommitTransaction(p), s2);
    GoesStep(logs, parse, s, s1, CommitTransaction(p), s2);
    s' := s2.(procs := s2.procs - {p}, signed := s2.signed + {cp});
    assert Next(logs, parse, s2, Sign(p), s');
    GoesStep(logs, parse, s, s2, Sign(p), s');
  }

  /** In every run, whatever earlier requests have left in memory: a request that is
      admissible and proves consistency, whose entries are included, parse and keep the
      policy with everything seen, and whose origin nobody holds, can run to its cosignature.
      The origin's row is then the checkpoint, its entries have been seen, and no other
      origin's account changes. */
  lemma CosignsAlone(logs: set<Origin>, parse: Parser, states: seq<System>, steps: seq<Step>, i: nat, p: nat,
                     req: Request, entries: seq<Q.Entry>)
    returns (s': System)
    requires Run(logs, parse, states, steps) && i < |states|
    requires p !in states[i].procs && req in states[i].received && Admissible(logs, req)
    requires forall q :: !Holder(states[i], q, req.checkpoint.origin)
    requires var a, cp := AccountOf(states[i], req.checkpoint.origin), req.checkpoint;
             && req.oldSize == a.row.size && Accepts(a.row.size, cp.size, a.row.root, cp.root, req.proof)
             && Fetchable(parse, a, cp, entries)
    ensures Reaches(logs, parse, states[i], s') && s'.signed == states[i].signed + {req.checkpoint}
    ensures var cp := req.checkpoint;
            && cp.origin in s'.accounts
            && s'.accounts[cp.origin].row == WitnessedState(cp.size, cp.root)
            && s'.accounts[cp.origin].seen == AccountOf(states[i], cp.origin).seen + entries
            && forall o | o != cp.origin :: AccountOf(s', o) == AccountOf(states[i], o)
  {
    hide Inv, Next, Fetchable, Accepts, Admissible, Holder;
    RunInvariant(logs, parse, states, steps, i);
    s' := CosignsFrom(logs, parse, states[i], p, req, entries);
  }

  lemma CosignsFrom(logs: set<Origin>, parse: Parser, s: System, p: nat, req: Request, entries: seq<Q.Entry>)
    returns (s': System)
    requires Inv(parse, s) && p !in s.procs && req in s.received && Admissible(logs, req)
    requires forall q :: !Holder(s, q, req.checkpoint.origin)
    requires var a, cp := AccountOf(s, req.checkpoint.origin), req.checkpoint;
             && req.oldSize == a.row.size && Accepts(a.row.size, cp.size, a.row.root, cp.root, req.proof)
             && Fetchable(parse, a, cp, entries)
    ensures Goes(logs, parse, s, s') && s'.signed == s.signed + {req.checkpoint}
    ensures var cp := req.checkpoint;
            && cp.origin in s'.accounts
            && s'.accounts[cp.origin].row == WitnessedState(cp.size, cp.root)
            && s'.accounts[cp.origin].seen == AccountOf(s, cp.origin).seen + entries
            && forall o | o != cp.origin :: AccountOf(s', o) == AccountOf(s, o)
  {
    hide Inv, Next, Goes, Fetchable, Accepts, Admissible, Holder, AtEntry, INITIAL;
    var a := AccountOf(s, req.checkpoint.origin);
    var s1 := Locks(logs, parse, s, p, req);
    var s2 := Loads(logs, parse, s, s1, p);
    assert entries[..0] == [];
    var s3 := ValidatesRest(logs, parse, s, s2, p, req, a, entries, 0);
    FetchableSize(parse, a, req.checkpoint, entries);
    s' := Signs(logs, parse, s, s3, p, req, a, entries);
  }

  lemma FetchableSize(parse: Parser, a: Account, cp: Checkpoint, entries: seq<Q.Entry>)
    requires Fetchable(parse, a, cp, entries)
    ensures a.row.size + |entries| == cp.size
  {
  }
}

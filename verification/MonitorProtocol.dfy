/** The monitoring witness over whole runs (src/monitor/mod.rs:104-222,
    crates/conda-monitor/src/conda.rs:92-213).

    Any number of monitor processes share a database.  Each serves one request at a
    time and keeps the two content indices of the request's origin in memory; this
    memory survives requests, also failed and cancelled ones, and requests for other
    origins.  A transaction holds the row of its origin from `lock_in` to its end. */
module MonitorProtocol {
  import opened Rfc6962
  import opened Consistency
  import opened Inclusion
  import opened Sequencer
  import opened Wrappers
  import opened Witness
  import M = Monitor

  type Parser = Entry -> Option<M.Package>

  /** Everything in the database about one origin; `seen` records the entries that
      have been validated. */
  datatype Account = Account(row: WitnessedState, shaRows: M.Rows, fileRows: M.Rows, seen: seq<Entry>)

  /** The in-memory indices of one process: committed rows and staged entries. */
  datatype Memory = Memory(shaRows: M.Rows, fileRows: M.Rows, staged: M.Staged)

  const NOTHING: M.Staged := M.Staged([], [])

  /** Where a process is with its request. */
  datatype Pc =
    | HasState(req: Request, state: WitnessedState)
    | Locked(req: Request, state: WitnessedState)
    | RolledBack(req: Request, state: WitnessedState)
    | LoadedShas(req: Request, state: WitnessedState)
    | Validating(req: Request, state: WitnessedState, fetched: seq<Entry>)
    | Saved(req: Request, state: WitnessedState, fetched: seq<Entry>, shaRows: M.Rows, fileRows: M.Rows)
    | Committed(cp: Checkpoint)

  datatype System = System(accounts: map<Origin, Account>, procs: map<nat, Pc>, memory: map<nat, Memory>,
                           signed: set<Checkpoint>, received: set<Request>)

  datatype Step =
    | InitRow(origin: Origin)
    | Submit(req: Request)
    | ReadState(p: nat, req: Request)       // up to the consistency check
    | Lock(p: nat)
    | RollBack(p: nat)
    | LoadShas(p: nat)
    | LoadFiles(p: nat)
    | ValidateNext(p: nat, entry: Entry)
    | Save(p: nat)                          // rows into the transaction, staged into memory
    | CommitTransaction(p: nat)
    | Sign(p: nat)
    | Fail(p: nat)                          // an error return, which rolls staged entries back
    | Cancel(p: nat)                        // the request is dropped where it is
    | Restart(p: nat)                       // the process starts anew

  function MemoryOf(s: System, p: nat): Memory {
    if p in s.memory then s.memory[p] else Memory(map[], map[], NOTHING)
  }

  /** The transaction of the process holds the row of this origin. */
  predicate Holding(pc: Pc) { !pc.HasState? && !pc.Committed? }

  ghost predicate Holder(s: System, p: nat, o: Origin) {
    p in s.procs && Holding(s.procs[p]) && s.procs[p].req.checkpoint.origin == o
  }

  function At(s: System, p: nat, pc: Pc): System { s.(procs := s.procs[p := pc]) }

  function WithMemory(s: System, p: nat, mem: Memory): System { s.(memory := s.memory[p := mem]) }

  /** Entry number |fetched| of the request, as the client verifies it. */
  ghost predicate Verified(pc: Pc, entry: Entry)
    requires pc.Validating?
  {
    var cp := pc.req.checkpoint;
    Included(LeafHash(entry), pc.state.size + |pc.fetched|, cp.size, cp.root)
  }

  ghost predicate Next(logs: set<Origin>, parse: Parser, s: System, step: Step, s': System) {
    match step
    case InitRow(o) =>
      s' == if o in s.accounts then s else s.(accounts := s.accounts[o := Account(INITIAL, map[], map[], [])])
    case Submit(req) =>
      s' == s.(received := s.received + {req})
    case ReadState(p, req) =>
      && p !in s.procs && req in s.received && Precheck(logs, req).None? && req.checkpoint.origin in s.accounts
      && var state := s.accounts[req.checkpoint.origin].row;
         && req.oldSize == state.size
         && Accepts(state.size, req.checkpoint.size, state.root, req.checkpoint.root, req.proof)
         && s' == At(s, p, HasState(req, state))
    case Lock(p) =>
      && p in s.procs && s.procs[p].HasState?
      && var HasState(req, state) := s.procs[p];
         && (forall q :: !Holder(s, q, req.checkpoint.origin))
         && req.checkpoint.origin in s.accounts && s.accounts[req.checkpoint.origin].row == state
         && s' == At(s, p, Locked(req, state))
    case RollBack(p) =>
      && p in s.procs && s.procs[p].Locked?
      && s' == WithMemory(At(s, p, RolledBack(s.procs[p].req, s.procs[p].state)), p, MemoryOf(s, p).(staged := NOTHING))
    case LoadShas(p) =>
      && p in s.procs && s.procs[p].RolledBack?
      && var RolledBack(req, state) := s.procs[p];
         && req.checkpoint.origin in s.accounts
         && s' == WithMemory(At(s, p, LoadedShas(req, state)), p,
                             MemoryOf(s, p).(shaRows := s.accounts[req.checkpoint.origin].shaRows))
    case LoadFiles(p) =>
      && p in s.procs && s.procs[p].LoadedShas?
      && var LoadedShas(req, state) := s.procs[p];
         && req.checkpoint.origin in s.accounts
         && s' == WithMemory(At(s, p, Validating(req, state, [])), p,
                             MemoryOf(s, p).(fileRows := s.accounts[req.checkpoint.origin].fileRows))
    case ValidateNext(p, entry) =>
      && p in s.procs && s.procs[p].Validating?
      && var Validating(req, state, fetched) := s.procs[p];
         && state.size + |fetched| < req.checkpoint.size
         && Verified(s.procs[p], entry) && parse(entry).Some?
         && var mem := MemoryOf(s, p);
            var st := M.Validate(mem.shaRows, mem.fileRows, mem.staged, state.size + |fetched|, parse(entry).value);
         && st.Some?
         && s' == WithMemory(At(s, p, Validating(req, state, fetched + [entry])), p, mem.(staged := st.value))
    case Save(p) =>
      && p in s.procs && s.procs[p].Validating?
      && var Validating(req, state, fetched) := s.procs[p];
         && state.size + |fetched| == req.checkpoint.size && req.checkpoint.origin in s.accounts
         && var a, mem := s.accounts[req.checkpoint.origin], MemoryOf(s, p);
         s' == WithMemory(At(s, p, Saved(req, state, fetched, M.SaveAll(a.shaRows, mem.staged.shas),
                                         M.SaveAll(a.fileRows, mem.staged.files))),
                          p, Memory(M.CommitAll(mem.shaRows, mem.staged.shas),
                                    M.CommitAll(mem.fileRows, mem.staged.files), NOTHING))
    case CommitTransaction(p) =>
      && p in s.procs && s.procs[p].Saved?
      && var Saved(req, state, fetched, shaRows, fileRows) := s.procs[p];
         var cp := req.checkpoint;
         && cp.origin in s.accounts && s.accounts[cp.origin].row == state
         && var a := s.accounts[cp.origin];
         s' == At(s, p, Committed(cp)).(accounts := s.accounts[cp.origin :=
                 Account(WitnessedState(cp.size, cp.root), shaRows, fileRows, a.seen + fetched)])
    case Sign(p) =>
      && p in s.procs && s.procs[p].Committed?
      && s' == s.(procs := s.procs - {p}, signed := s.signed + {s.procs[p].cp})
    case Fail(p) =>
      && p in s.procs
      && s' == WithMemory(s.(procs := s.procs - {p}), p, MemoryOf(s, p).(staged := NOTHING))
    case Cancel(p) =>
      s' == s.(procs := s.procs - {p})
    case Restart(p) =>
      s' == s.(procs := s.procs - {p}, memory := s.memory - {p})
  }

  // ---- invariant ----

  ghost predicate AllParse(parse: Parser, entries: seq<Entry>) {
    forall i | 0 <= i < |entries| :: parse(entries[i]).Some?
  }

  ghost function Packages(parse: Parser, entries: seq<Entry>): (pkgs: seq<M.Package>)
    requires AllParse(parse, entries)
    ensures |pkgs| == |entries|
  {
    seq(|entries|, i requires 0 <= i < |entries| && AllParse(parse, entries) => parse(entries[i]).value)
  }

  /** Every fetched entry is proved included at its index under the checkpoint's root. */
  ghost predicate FetchedIncluded(fetched: seq<Entry>, from: nat, n: nat, root: Hash) {
    forall i | 0 <= i < |fetched| :: Included(LeafHash(fetched[i]), from + i, n, root)
  }

  /** Witnessed checkpoint and content rows describe the same entries. */
  ghost predicate AccountOk(parse: Parser, a: Account) {
    && a.row == WitnessedState(|a.seen|, Mth(Leaves(a.seen)))
    && AllParse(parse, a.seen)
    && M.Knows(a.shaRows, a.fileRows, NOTHING, Packages(parse, a.seen))
  }

  ghost predicate Backed(accounts: map<Origin, Account>, cp: Checkpoint) {
    && cp.origin in accounts
    && cp.size <= |accounts[cp.origin].seen|
    && cp.root == Mth(Leaves(accounts[cp.origin].seen)[..cp.size])
  }

  /** What validation of these entries stages, judged by the rows of the account. */
  ghost function Verdict(parse: Parser, a: Account, from: nat, fetched: seq<Entry>): Option<M.Staged> {
    if AllParse(parse, fetched) then M.ValidateAll(a.shaRows, a.fileRows, from, Packages(parse, fetched)) else None
  }

  /** The entries that a request has fetched so far. */
  ghost predicate FetchedOk(req: Request, state: WitnessedState, fetched: seq<Entry>) {
    && state.size + |fetched| <= req.checkpoint.size
    && FetchedIncluded(fetched, state.size, req.checkpoint.size, req.checkpoint.root)
  }

  ghost predicate RequestOk(req: Request, state: WitnessedState) {
    Accepts(state.size, req.checkpoint.size, state.root, req.checkpoint.root, req.proof)
  }

  /** What holds of a process, its memory and the account of its origin. */
  ghost predicate ProcOk(parse: Parser, accounts: map<Origin, Account>, mem: Memory, pc: Pc) {
    match pc
    case Committed(cp) => Backed(accounts, cp)
    case HasState(req, state) => RequestOk(req, state)
    case _ =>
      && RequestOk(pc.req, pc.state) && pc.req.checkpoint.origin in accounts
      && accounts[pc.req.checkpoint.origin].row == pc.state
      && HolderOk(parse, accounts[pc.req.checkpoint.origin], mem, pc)
  }

  ghost predicate HolderOk(parse: Parser, a: Account, mem: Memory, pc: Pc) {
    match pc
    case RolledBack(_, _) => mem.staged == NOTHING
    case LoadedShas(_, _) => mem.staged == NOTHING && mem.shaRows == a.shaRows
    case Validating(req, state, fetched) =>
      && mem.shaRows == a.shaRows && mem.fileRows == a.fileRows
      && FetchedOk(req, state, fetched) && Verdict(parse, a, state.size, fetched) == Some(mem.staged)
    case Saved(req, state, fetched, shaRows, fileRows) =>
      && FetchedOk(req, state, fetched) && state.size + |fetched| == req.checkpoint.size
      && var st := Verdict(parse, a, state.size, fetched);
      st.Some? && shaRows == M.SaveAll(a.shaRows, st.value.shas) && fileRows == M.SaveAll(a.fileRows, st.value.files)
    case _ => true
  }

  /** At most one transaction holds a row. */
  ghost predicate Exclusive(procs: map<nat, Pc>) {
    forall p, q | p in procs && q in procs && Holding(procs[p]) && Holding(procs[q])
                  && procs[p].req.checkpoint.origin == procs[q].req.checkpoint.origin :: p == q
  }

  ghost predicate ProcsOk(parse: Parser, s: System) {
    forall p | p in s.procs :: ProcOk(parse, s.accounts, MemoryOf(s, p), s.procs[p])
  }

  ghost predicate Inv(parse: Parser, s: System) {
    && (forall o | o in s.accounts :: AccountOk(parse, s.accounts[o]))
    && ProcsOk(parse, s)
    && Exclusive(s.procs)
    && (forall cp | cp in s.signed :: Backed(s.accounts, cp))
  }

  // ---- one transaction ----

  lemma LeavesJoin(a: seq<Entry>, b: seq<Entry>)
    ensures Leaves(a + b) == Leaves(a) + Leaves(b)
  {
  }

  lemma PackagesJoin(parse: Parser, a: seq<Entry>, b: seq<Entry>)
    requires AllParse(parse, a) && AllParse(parse, b)
    ensures AllParse(parse, a + b)
    ensures Packages(parse, a + b) == Packages(parse, a) + Packages(parse, b)
  {
  }

  /** The new root is the MTH of the validated entries and the fetched ones. */
  lemma TransactionRoot(a: Account, cp: Checkpoint, fetched: seq<Entry>, proof: seq<Hash>)
    requires a.row == WitnessedState(|a.seen|, Mth(Leaves(a.seen)))
    requires Accepts(a.row.size, cp.size, a.row.root, cp.root, proof)
    requires |fetched| == cp.size - a.row.size && FetchedIncluded(fetched, a.row.size, cp.size, cp.root)
    ensures cp.root == Mth(Leaves(a.seen + fetched))
  {
    hide Mth, Accepts;
    var d, m := Leaves(a.seen + fetched), a.row.size;
    LeavesJoin(a.seen, fetched);
    assert d[..m] == Leaves(a.seen);
    forall i: nat | m <= i < |d|
      ensures Included(d[i], i, |d|, cp.root)
    {
      assert Included(LeafHash(fetched[i - m]), m + (i - m), cp.size, cp.root);
    }
    AuthenticatedExtension(m, d, cp.root, proof);
  }

  /** The account after a transaction. */
  lemma TransactionKeepsAccount(parse: Parser, a: Account, mem: Memory, pc: Pc)
    requires AccountOk(parse, a) && pc.Saved? && HolderOk(parse, a, mem, pc)
    requires a.row == pc.state && RequestOk(pc.req, pc.state)
    ensures var cp := pc.req.checkpoint;
            AccountOk(parse, Account(WitnessedState(cp.size, cp.root), pc.shaRows, pc.fileRows, a.seen + pc.fetched))
  {
    hide Mth, Accepts, M.Knows, M.SaveAll, M.ValidateAll, FetchedIncluded;
    var fetched := pc.fetched;
    TransactionRoot(a, pc.req.checkpoint, fetched, pc.req.proof);
    PackagesJoin(parse, a.seen, fetched);
    var pkgs := Packages(parse, fetched);
    M.ValidateAllExact(a.shaRows, a.fileRows, Packages(parse, a.seen), pkgs);
    M.SavedKnows(a.shaRows, a.fileRows, Verdict(parse, a, a.row.size, fetched).value, Packages(parse, a.seen) + pkgs);
  }

  /** One more entry, judged by memory, is judged by the rows of the account. */
  lemma VerdictStep(parse: Parser, a: Account, from: nat, fetched: seq<Entry>, st: M.Staged, entry: Entry)
    requires Verdict(parse, a, from, fetched) == Some(st) && parse(entry).Some?
    ensures Verdict(parse, a, from, fetched + [entry])
            == M.Validate(a.shaRows, a.fileRows, st, from + |fetched|, parse(entry).value)
  {
    hide M.Validate;
    PackagesJoin(parse, fetched, [entry]);
    var pkgs := Packages(parse, fetched + [entry]);
    assert pkgs[..|fetched|] == Packages(parse, fetched) && pkgs[|fetched|] == parse(entry).value;
  }

  /** When a request saves, the process has in memory what it hands to the database. */
  lemma SavedInMemory(logs: set<Origin>, parse: Parser, s: System, p: nat, s': System)
    requires Inv(parse, s) && Next(logs, parse, s, Save(p), s')
    ensures var pc := s'.procs[p]; MemoryOf(s', p) == Memory(pc.shaRows, pc.fileRows, NOTHING)
  {
    hide Mth, Accepts, Backed, M.SaveAll, M.CommitAll, M.ValidateAll, M.Policy, M.Lookup, FetchedIncluded;
    assert ProcOk(parse, s.accounts, MemoryOf(s, p), s.procs[p]);
    var Validating(req, state, fetched) := s.procs[p];
    var a, st := s.accounts[req.checkpoint.origin], MemoryOf(s, p).staged;
    assert AccountOk(parse, a);
    M.ValidateAllExact(a.shaRows, a.fileRows, Packages(parse, a.seen), Packages(parse, fetched));
    M.CommitIsSave(a.shaRows, st.shas);
    M.CommitIsSave(a.fileRows, st.files);
  }

  // ---- preservation ----

  lemma BackedGrows(accounts: map<Origin, Account>, o: Origin, more: seq<Entry>, a: Account, cp: Checkpoint)
    requires Backed(accounts, cp) && (o in accounts ==> a.seen == accounts[o].seen + more)
    ensures Backed(accounts[o := a], cp)
  {
    hide Mth;
    if cp.origin == o {
      LeavesJoin(accounts[o].seen, more);
      assert Leaves(a.seen)[..cp.size] == Leaves(accounts[o].seen)[..cp.size];
    }
  }

  /** A change of one account leaves the processes alone that do not hold its row. */
  lemma ProcGrows(parse: Parser, accounts: map<Origin, Account>, o: Origin, more: seq<Entry>, a: Account, mem: Memory, pc: Pc)
    requires ProcOk(parse, accounts, mem, pc) && (o in accounts ==> a.seen == accounts[o].seen + more)
    requires !(Holding(pc) && pc.req.checkpoint.origin == o)
    ensures ProcOk(parse, accounts[o := a], mem, pc)
  {
    hide Backed, RequestOk, HolderOk;
    if pc.Committed? { BackedGrows(accounts, o, more, a, pc.cp); }
  }

  lemma AccountsChange(parse: Parser, s: System, o: Origin, more: seq<Entry>, a: Account)
    requires Inv(parse, s) && AccountOk(parse, a) && (o in s.accounts ==> a.seen == s.accounts[o].seen + more)
    ensures var s' := s.(accounts := s.accounts[o := a]);
            && (forall o' | o' in s'.accounts :: AccountOk(parse, s'.accounts[o']))
            && (forall cp | cp in s'.signed :: Backed(s'.accounts, cp))
            && (forall p | p in s.procs && !Holder(s, p, o) ::
                  ProcOk(parse, s'.accounts, MemoryOf(s', p), s'.procs[p]))
  {
    hide AccountOk, Backed, ProcOk;
    var s' := s.(accounts := s.accounts[o := a]);
    forall cp | cp in s'.signed ensures Backed(s'.accounts, cp) { BackedGrows(s.accounts, o, more, a, cp); }
    forall p | p in s.procs && !Holder(s, p, o)
      ensures ProcOk(parse, s'.accounts, MemoryOf(s', p), s'.procs[p])
    {
      ProcGrows(parse, s.accounts, o, more, a, MemoryOf(s, p), s.procs[p]);
    }
  }

  /** A step of one process that leaves the accounts alone. */
  lemma ProcessStep(parse: Parser, s: System, p: nat, pc: Pc, mem: Memory)
    requires Inv(parse, s) && ProcOk(parse, s.accounts, mem, pc)
    requires Holding(pc) ==> forall q | q != p :: !Holder(s, q, pc.req.checkpoint.origin)
    ensures Inv(parse, WithMemory(At(s, p, pc), p, mem))
  {
    hide AccountOk, Backed, ProcOk;
    var s' := WithMemory(At(s, p, pc), p, mem);
    forall q | q in s'.procs ensures ProcOk(parse, s'.accounts, MemoryOf(s', q), s'.procs[q]) {
      if q != p { assert MemoryOf(s', q) == MemoryOf(s, q); }
    }
    assert Holding(pc) ==> forall q | q != p && q in s.procs && Holding(s.procs[q]) ::
             s.procs[q].req.checkpoint.origin != pc.req.checkpoint.origin by {
      if Holding(pc) {
        forall q | q != p && q in s.procs && Holding(s.procs[q])
          ensures s.procs[q].req.checkpoint.origin != pc.req.checkpoint.origin
        {
          assert !Holder(s, q, pc.req.checkpoint.origin);
        }
      }
    }
  }

  /** The end of a request, whatever it leaves in memory. */
  lemma ProcessEnds(parse: Parser, s: System, p: nat, memory: map<nat, Memory>)
    requires Inv(parse, s) && (forall q | q != p :: (q in memory <==> q in s.memory) && (q in memory ==> memory[q] == s.memory[q]))
    ensures Inv(parse, s.(procs := s.procs - {p}, memory := memory))
  {
    hide AccountOk, Backed, ProcOk;
    var s' := s.(procs := s.procs - {p}, memory := memory);
    forall q | q in s'.procs ensures ProcOk(parse, s'.accounts, MemoryOf(s', q), s'.procs[q]) {
      assert q != p && MemoryOf(s', q) == MemoryOf(s, q);
    }
  }

  /** No other process holds the row that this one holds. */
  lemma OnlyHolder(s: System, p: nat)
    requires Exclusive(s.procs) && p in s.procs && Holding(s.procs[p])
    ensures forall q | q != p :: !Holder(s, q, s.procs[p].req.checkpoint.origin)
  {
  }

  lemma HolderStepKeepsInv(logs: set<Origin>, parse: Parser, s: System, step: Step, s': System)
    requires Inv(parse, s) && Next(logs, parse, s, step, s')
    requires step.RollBack? || step.LoadShas? || step.LoadFiles? || step.ValidateNext? || step.Save?
    ensures Inv(parse, s')
  {
    hide Mth, Accepts, AccountOk, Backed, Verdict, M.SaveAll, M.Validate, Included, M.CommitAll;
    var p := step.p;
    OnlyHolder(s, p);
    assert ProcOk(parse, s.accounts, MemoryOf(s, p), s.procs[p]);
    var pc', mem' := s'.procs[p], MemoryOf(s', p);
    assert s' == WithMemory(At(s, p, pc'), p, mem');
    HolderStep(logs, parse, s, step, s');
    hide ProcOk, Next, Inv;
    ProcessStep(parse, s, p, pc', mem');
  }

  lemma HolderStep(logs: set<Origin>, parse: Parser, s: System, step: Step, s': System)
    requires Next(logs, parse, s, step, s')
    requires step.RollBack? || step.LoadShas? || step.LoadFiles? || step.ValidateNext? || step.Save?
    requires ProcOk(parse, s.accounts, MemoryOf(s, step.p), s.procs[step.p])
    ensures ProcOk(parse, s.accounts, MemoryOf(s', step.p), s'.procs[step.p])
    ensures Holding(s'.procs[step.p]) && s'.procs[step.p].req == s.procs[step.p].req
  {
    hide Mth, Accepts, Backed, M.SaveAll, M.Validate, Included, M.CommitAll;
    var p, pc := step.p, s.procs[step.p];
    var a, mem := s.accounts[pc.req.checkpoint.origin], MemoryOf(s, p);
    match step {
      case LoadFiles(_) =>
        AcceptedSizes(pc.req, pc.state);
        assert Packages(parse, []) == [];
        assert Verdict(parse, a, pc.state.size, []) == Some(NOTHING);
      case ValidateNext(_, entry) =>
        VerdictStep(parse, a, pc.state.size, pc.fetched, mem.staged, entry);
        FetchedMore(pc.fetched, entry, pc.state.size, pc.req.checkpoint.size, pc.req.checkpoint.root);
      case _ =>
    }
  }

  lemma AcceptedSizes(req: Request, state: WitnessedState)
    requires RequestOk(req, state)
    ensures state.size <= req.checkpoint.size
  {
  }

  lemma FetchedMore(fetched: seq<Entry>, entry: Entry, from: nat, n: nat, root: Hash)
    requires FetchedIncluded(fetched, from, n, root) && Included(LeafHash(entry), from + |fetched|, n, root)
    ensures FetchedIncluded(fetched + [entry], from, n, root)
  {
    hide Included;
  }

  lemma CommitKeepsInv(logs: set<Origin>, parse: Parser, s: System, p: nat, s': System)
    requires Inv(parse, s) && Next(logs, parse, s, CommitTransaction(p), s')
    ensures Inv(parse, s')
  {
    hide Mth, Accepts, AccountOk, Backed, Verdict, M.SaveAll, Included, FetchedOk;
    var pc, mem := s.procs[p], MemoryOf(s, p);
    var cp := pc.req.checkpoint;
    var a, a' := s.accounts[cp.origin], s'.accounts[cp.origin];
    OnlyHolder(s, p);
    assert ProcOk(parse, s.accounts, mem, pc);
    TransactionKeepsAccount(parse, a, mem, pc);
    AccountsChange(parse, s, cp.origin, pc.fetched, a');
    CurrentBacked(parse, s'.accounts, cp);
    hide ProcOk;
    forall q | q in s'.procs ensures ProcOk(parse, s'.accounts, MemoryOf(s', q), s'.procs[q]) {
      if q == p { CommittedOk(parse, s'.accounts, MemoryOf(s', p), cp); } else { assert !Holder(s, q, cp.origin); }
    }
  }

  lemma CommittedOk(parse: Parser, accounts: map<Origin, Account>, mem: Memory, cp: Checkpoint)
    requires Backed(accounts, cp)
    ensures ProcOk(parse, accounts, mem, Committed(cp))
  {
  }

  lemma CurrentBacked(parse: Parser, accounts: map<Origin, Account>, cp: Checkpoint)
    requires cp.origin in accounts && AccountOk(parse, accounts[cp.origin])
    requires accounts[cp.origin].row == WitnessedState(cp.size, cp.root)
    ensures Backed(accounts, cp)
  {
    var d := Leaves(accounts[cp.origin].seen);
    assert d[..|d|] == d;
  }

  lemma InitRowKeepsInv(parse: Parser, s: System, o: Origin)
    requires Inv(parse, s) && o !in s.accounts
    ensures Inv(parse, s.(accounts := s.accounts[o := Account(INITIAL, map[], map[], [])]))
  {
    hide AccountOk, Backed, HolderOk, RequestOk;
    var a := Account(INITIAL, map[], map[], []);
    EmptyAccountOk(parse);
    AccountsChange(parse, s, o, [], a);
  }

  lemma EmptyAccountOk(parse: Parser)
    ensures AccountOk(parse, Account(INITIAL, map[], map[], []))
  {
  }

  lemma ArriveKeepsInv(logs: set<Origin>, parse: Parser, s: System, step: Step, s': System)
    requires Inv(parse, s) && Next(logs, parse, s, step, s') && (step.ReadState? || step.Lock?)
    ensures Inv(parse, s')
  {
    hide AccountOk, Backed, HolderOk, Accepts, Precheck;
    var p := step.p;
    var pc', mem := s'.procs[p], MemoryOf(s, p);
    assert ProcOk(parse, s.accounts, mem, pc') by { LockedOk(parse, logs, s, step, s'); }
    ProcessStep(parse, s, p, pc', mem);
    SameMemory(parse, At(s, p, pc'), p);
  }

  lemma LockedOk(parse: Parser, logs: set<Origin>, s: System, step: Step, s': System)
    requires ProcsOk(parse, s) && Next(logs, parse, s, step, s') && (step.ReadState? || step.Lock?)
    ensures ProcOk(parse, s.accounts, MemoryOf(s, step.p), s'.procs[step.p])
  {
    hide Backed, Accepts, Precheck;
    if step.Lock? { assert ProcOk(parse, s.accounts, MemoryOf(s, step.p), s.procs[step.p]); }
  }

  /** Writing down the memory that a process has anyway changes nothing. */
  lemma SameMemory(parse: Parser, s: System, p: nat)
    requires Inv(parse, WithMemory(s, p, MemoryOf(s, p)))
    ensures Inv(parse, s)
  {
    hide AccountOk, Backed, ProcOk;
    var s' := WithMemory(s, p, MemoryOf(s, p));
    forall q | q in s.procs ensures ProcOk(parse, s.accounts, MemoryOf(s, q), s.procs[q]) {
      assert MemoryOf(s', q) == MemoryOf(s, q);
    }
  }

  lemma SignKeepsInv(parse: Parser, s: System, p: nat)
    requires Inv(parse, s) && p in s.procs && s.procs[p].Committed?
    ensures Inv(parse, s.(procs := s.procs - {p}, signed := s.signed + {s.procs[p].cp}))
  {
    hide AccountOk, Backed, HolderOk, RequestOk;
    assert ProcOk(parse, s.accounts, MemoryOf(s, p), s.procs[p]);
    ProcessEnds(parse, s, p, s.memory);
  }

  lemma SubmitKeepsInv(parse: Parser, s: System, req: Request)
    requires Inv(parse, s)
    ensures Inv(parse, s.(received := s.received + {req}))
  {
    hide AccountOk, Backed, ProcOk;
    var s' := s.(received := s.received + {req});
    forall p | p in s'.procs ensures ProcOk(parse, s'.accounts, MemoryOf(s', p), s'.procs[p]) {
      assert MemoryOf(s', p) == MemoryOf(s, p);
    }
  }

  lemma NextKeepsInv(logs: set<Origin>, parse: Parser, s: System, step: Step, s': System)
    requires Inv(parse, s) && Next(logs, parse, s, step, s')
    ensures Inv(parse, s')
  {
    hide Inv, AccountOk, Accepts, Precheck, M.Validate, M.SaveAll, M.CommitAll;
    match step {
      case InitRow(o) => if o !in s.accounts { InitRowKeepsInv(parse, s, o); }
      case CommitTransaction(p) => CommitKeepsInv(logs, parse, s, p, s');
      case Sign(p) => SignKeepsInv(parse, s, p);
      case Fail(p) => ProcessEnds(parse, s, p, s'.memory);
      case Cancel(p) => ProcessEnds(parse, s, p, s'.memory);
      case Restart(p) => ProcessEnds(parse, s, p, s'.memory);
      case ReadState(_, _) => ArriveKeepsInv(logs, parse, s, step, s');
      case Lock(_) => ArriveKeepsInv(logs, parse, s, step, s');
      case Submit(req) => SubmitKeepsInv(parse, s, req);
      case _ => HolderStepKeepsInv(logs, parse, s, step, s');
    }
  }

  // ---- whole runs ----

  ghost predicate Run(logs: set<Origin>, parse: Parser, states: seq<System>, steps: seq<Step>) {
    && |states| == |steps| + 1
    && states[0] == System(map[], map[], map[], {}, {})
    && forall i | 0 <= i < |steps| :: Next(logs, parse, states[i], steps[i], states[i + 1])
  }

  lemma {:induction false} RunInvariant(logs: set<Origin>, parse: Parser, states: seq<System>, steps: seq<Step>, i: nat)
    requires Run(logs, parse, states, steps) && i < |states|
    ensures Inv(parse, states[i])
  {
    if i > 0 {
      hide Next, Inv;
      RunInvariant(logs, parse, states, steps, i - 1);
      assert Next(logs, parse, states[i - 1], steps[i - 1], states[i - 1 + 1]);
      NextKeepsInv(logs, parse, states[i - 1], steps[i - 1], states[i]);
    }
  }

  /** Monitor policy over all runs: in every reachable state the witnessed checkpoint
      of an origin is the MTH of exactly the entries whose content has been recorded,
      these entries keep the policy, and every cosignature is a prefix of them. */
  lemma MonitorSafety(logs: set<Origin>, parse: Parser, states: seq<System>, steps: seq<Step>, i: nat)
    requires Run(logs, parse, states, steps) && i < |states|
    ensures var s := states[i];
            && (forall o | o in s.accounts ::
                  var a := s.accounts[o];
                  && a.row == WitnessedState(|a.seen|, Mth(Leaves(a.seen)))
                  && AllParse(parse, a.seen) && M.Policy(Packages(parse, a.seen)))
            && (forall cp | cp in s.signed :: Backed(s.accounts, cp))
  {
    hide Next, Mth, M.Knows, M.Policy, ProcOk;
    RunInvariant(logs, parse, states, steps, i);
    forall o | o in states[i].accounts
      ensures AllParse(parse, states[i].accounts[o].seen)
      ensures M.Policy(Packages(parse, states[i].accounts[o].seen))
    {
      var a := states[i].accounts[o];
      M.KnowsPolicy(a.shaRows, a.fileRows, NOTHING, Packages(parse, a.seen));
    }
  }

  /** Every request is judged by the rows of its own origin, whatever earlier requests of
      the process have left in memory: the next entry passes if and only if everything
      seen for the origin, everything fetched and the entry keep the policy. */
  lemma JudgedByOwnOrigin(logs: set<Origin>, parse: Parser, states: seq<System>, steps: seq<Step>, i: nat, p: nat,
                          entry: Entry)
    requires Run(logs, parse, states, steps) && i < |states|
    requires p in states[i].procs && states[i].procs[p].Validating? && parse(entry).Some?
    ensures var s, pc, mem := states[i], states[i].procs[p], MemoryOf(states[i], p);
            var o := pc.req.checkpoint.origin;
            && o in s.accounts && AllParse(parse, s.accounts[o].seen) && AllParse(parse, pc.fetched)
            && (M.Validate(mem.shaRows, mem.fileRows, mem.staged, pc.state.size + |pc.fetched|, parse(entry).value).Some?
                <==> M.Policy(Packages(parse, s.accounts[o].seen) + Packages(parse, pc.fetched) + [parse(entry).value]))
  {
    hide Next, Inv, M.Policy, M.Validate;
    RunInvariant(logs, parse, states, steps, i);
    Judged(parse, states[i], p, entry);
  }

  lemma Judged(parse: Parser, s: System, p: nat, entry: Entry)
    requires Inv(parse, s) && p in s.procs && s.procs[p].Validating? && parse(entry).Some?
    ensures var pc, mem := s.procs[p], MemoryOf(s, p);
            var o := pc.req.checkpoint.origin;
            && o in s.accounts && AllParse(parse, s.accounts[o].seen) && AllParse(parse, pc.fetched)
            && (M.Validate(mem.shaRows, mem.fileRows, mem.staged, pc.state.size + |pc.fetched|, parse(entry).value).Some?
                <==> M.Policy(Packages(parse, s.accounts[o].seen) + Packages(parse, pc.fetched) + [parse(entry).value]))
  {
    hide Mth, M.Knows, M.Policy, M.Validate, M.ValidateAll, Accepts, FetchedIncluded;
    var pc, mem := s.procs[p], MemoryOf(s, p);
    assert ProcOk(parse, s.accounts, mem, pc);
    var a := s.accounts[pc.req.checkpoint.origin];
    assert AccountOk(parse, a);
    M.ValidateAllExact(a.shaRows, a.fileRows, Packages(parse, a.seen), Packages(parse, pc.fetched));
    M.ValidateExact(a.shaRows, a.fileRows, mem.staged, Packages(parse, a.seen) + Packages(parse, pc.fetched),
                    parse(entry).value);
  }

  // ---- only what logs have signed ----

  /** Every request under way is admissible and started from the size that it names. */
  ghost predicate Authorized(logs: set<Origin>, s: System) {
    && (forall p | p in s.procs && !s.procs[p].Committed? ::
          && s.procs[p].req in s.received && Admissible(logs, s.procs[p].req)
          && s.procs[p].req.oldSize == s.procs[p].state.size)
    && (forall p | p in s.procs && s.procs[p].Committed? :: AskedFor(logs, s.received, s.procs[p].cp))
    && (forall cp | cp in s.signed :: AskedFor(logs, s.received, cp))
  }

  lemma NextKeepsAuthorized(logs: set<Origin>, parse: Parser, s: System, step: Step, s': System)
    requires Authorized(logs, s) && Next(logs, parse, s, step, s')
    ensures Authorized(logs, s')
  {
    hide AskedFor, Admissible, Precheck, Accepts, M.Validate, M.SaveAll, M.CommitAll, Verified, Holder, INITIAL, MemoryOf;
    forall cp | AskedFor(logs, s.received, cp) ensures AskedFor(logs, s'.received, cp) {
      AskedMore(logs, s.received, s'.received, cp);
    }
    match step {
      case ReadState(_, req) => PrecheckExact(logs, req);
      case CommitTransaction(p) => Asks(logs, s.received, s.procs[p].req);
      case _ =>
    }
  }

  /** In every run, whatever a monitor cosigns was asked for by an authentic request of a
      known log. */
  lemma {:induction false} CosignedAuthentic(logs: set<Origin>, parse: Parser, states: seq<System>, steps: seq<Step>, i: nat)
    requires Run(logs, parse, states, steps) && i < |states|
    ensures Authorized(logs, states[i])
    ensures forall cp | cp in states[i].signed :: AskedFor(logs, states[i].received, cp)
    decreases i
  {
    if i > 0 {
      hide Next, AskedFor;
      CosignedAuthentic(logs, parse, states, steps, i - 1);
      assert Next(logs, parse, states[i - 1], steps[i - 1], states[i - 1 + 1]);
      NextKeepsAuthorized(logs, parse, states[i - 1], steps[i - 1], states[i]);
    }
  }
}

/** The witness (src/witness/mod.rs, src/witness/state.rs).

    `Precheck`, `Decide` and `CompareAndSwap` are the three parts of
    `add_checkpoint`: the checks before the state is read, the checks against the
    state, and the conditional update.  The class `Witness` runs them in
    sequence; the module `WitnessProtocol` interleaves them. */
module Witness {
  import opened Bits
  import opened Rfc6962
  import opened Consistency
  import opened Wrappers

  type Origin = string

  datatype Checkpoint = Checkpoint(origin: Origin, size: nat, root: Hash)

  /** A parsed request; `authentic` says whether the log's signature verifies. */
  datatype Request = Request(oldSize: nat, proof: seq<Hash>, checkpoint: Checkpoint, authentic: bool)

  datatype WitnessedState = WitnessedState(size: nat, root: Hash)

  datatype WitnessError =
    | UnknownLog
    | InvalidSignature
    | BadRequest
    | Conflict(size: nat)
    | InvalidProof
    | Internal

  const INITIAL: WitnessedState := WitnessedState(0, EmptyRoot)

  /** Steps 2 to 4: known log, valid signature, sizes in range. */
  function Precheck(logs: set<Origin>, req: Request): Option<WitnessError> {
    if req.checkpoint.origin !in logs then Some(UnknownLog)
    else if !req.authentic then Some(InvalidSignature)
    else if req.checkpoint.size > I64_MAX then Some(BadRequest)
    else if req.oldSize > req.checkpoint.size then Some(BadRequest)
    else None
  }

  /** Steps 6 and 7: the verdict on a request against a witnessed state. */
  function Decide(state: WitnessedState, req: Request): Option<WitnessError> {
    var cp := req.checkpoint;
    if req.oldSize != state.size then Some(Conflict(state.size))
    else if cp.size == 0 && cp.root != state.root then Some(InvalidProof)
    else if state.size > 0 then
      if cp.size < state.size then Some(BadRequest)
      else if cp.size == state.size then
        if cp.root != state.root then Some(InvalidProof) else None
      else if Accepts(state.size, cp.size, state.root, cp.root, req.proof) then None
      else Some(InvalidProof)
    else if req.proof != [] then Some(InvalidProof)
    else None
  }

  /** A request that is checked against the witnessed state at all: of a known log, with
      its signature, with sizes in range. */
  ghost predicate Admissible(logs: set<Origin>, req: Request) {
    && req.checkpoint.origin in logs && req.authentic
    && req.oldSize <= req.checkpoint.size <= I64_MAX
  }

  lemma PrecheckExact(logs: set<Origin>, req: Request)
    ensures Precheck(logs, req).None? <==> Admissible(logs, req)
    ensures Precheck(logs, req) == Some(UnknownLog) <==> req.checkpoint.origin !in logs
    ensures Precheck(logs, req) == Some(InvalidSignature) <==> req.checkpoint.origin in logs && !req.authentic
    ensures Precheck(logs, req) == Some(BadRequest)
            <==> req.checkpoint.origin in logs && req.authentic
                 && (req.checkpoint.size > I64_MAX || req.oldSize > req.checkpoint.size)
  {
  }

  /** A received request asks for this checkpoint: it names a known log, carries the log's
      signature, and has sizes in range. */
  ghost predicate AskedFor(logs: set<Origin>, received: set<Request>, cp: Checkpoint) {
    exists req :: req in received && req.checkpoint == cp && Admissible(logs, req)
  }

  lemma AskedMore(logs: set<Origin>, received: set<Request>, received': set<Request>, cp: Checkpoint)
    requires AskedFor(logs, received, cp) && received <= received'
    ensures AskedFor(logs, received', cp)
  {
  }

  lemma Asks(logs: set<Origin>, received: set<Request>, req: Request)
    requires req in received && Admissible(logs, req)
    ensures AskedFor(logs, received, req.checkpoint)
  {
  }

  /** The checkpoint extends the witnessed state: from the empty tree without a proof, at the
      same size with the same root, otherwise by an accepted consistency proof. */
  ghost predicate Extension(state: WitnessedState, req: Request) {
    var cp := req.checkpoint;
    if state.size == 0 then req.proof == [] && (cp.size == 0 ==> cp.root == state.root)
    else if cp.size == state.size then cp.root == state.root
    else Accepts(state.size, cp.size, state.root, cp.root, req.proof)
  }

  lemma DecideExact(state: WitnessedState, req: Request)
    requires req.oldSize <= req.checkpoint.size
    ensures Decide(state, req)
            == if req.oldSize != state.size then Some(Conflict(state.size))
               else if Extension(state, req) then None
               else Some(InvalidProof)
  {
    hide Accepts;
  }

  type Rows = map<Origin, WitnessedState>

  /** `update_in`: None is the rollback error, Some(swapped) the number of rows affected. */
  function CompareAndSwap(rows: Rows, expected: WitnessedState, cp: Checkpoint): Option<(bool, Rows)> {
    if cp.size < expected.size || (cp.size == expected.size && cp.root != expected.root) then None
    else if cp.size > I64_MAX then None
    else if cp.origin in rows && rows[cp.origin] == expected then
      Some((true, rows[cp.origin := WitnessedState(cp.size, cp.root)]))
    else Some((false, rows))
  }

  /** What one witnessed state may be followed by. */
  ghost predicate Link(a: WitnessedState, b: WitnessedState) {
    && a.size <= b.size
    && (a.size == b.size ==> a.root == b.root)
    && (0 < a.size < b.size ==> exists p :: Accepts(a.size, b.size, a.root, b.root, p))
  }

  /** A positive verdict licenses exactly the update that follows it: the update is
      not refused as a rollback, and old and new state are linked. */
  lemma DecideLinks(logs: set<Origin>, state: WitnessedState, req: Request)
    requires Precheck(logs, req).None? && Decide(state, req).None?
    requires state.size == 0 ==> state.root == EmptyRoot
    ensures Link(state, WitnessedState(req.checkpoint.size, req.checkpoint.root))
    ensures forall rows :: CompareAndSwap(rows, state, req.checkpoint).Some?
  {
  }

  class StateStore {
    var rows: Rows

    constructor ()
      ensures rows == map[]
    {
      rows := map[];
    }

    /** `get_or_init`. */
    method GetOrInit(origin: Origin) returns (state: WitnessedState)
      modifies this
      ensures rows == old(rows)[origin := state]
      ensures state == if origin in old(rows) then old(rows)[origin] else INITIAL
    {
      if origin !in rows {
        rows := rows[origin := INITIAL];
      }
      state := rows[origin];
    }

    /** `update`. */
    method Update(expected: WitnessedState, cp: Checkpoint) returns (r: Option<bool>)
      modifies this
      ensures r.None? <==> cp.size > I64_MAX || cp.size < expected.size
                           || (cp.size == expected.size && cp.root != expected.root)
      ensures r == Some(true) ==>
                && cp.origin in old(rows) && old(rows)[cp.origin] == expected
                && rows == old(rows)[cp.origin := WitnessedState(cp.size, cp.root)]
      ensures r == Some(false) ==> !(cp.origin in old(rows) && old(rows)[cp.origin] == expected)
      ensures r != Some(true) ==> rows == old(rows)
    {
      var swap := CompareAndSwap(rows, expected, cp);
      if swap.None? { return None; }
      rows := swap.value.1;
      return Some(swap.value.0);
    }
  }

  class Witness {
    const store: StateStore
    const logs: set<Origin>

    constructor (store: StateStore, logs: set<Origin>)
      ensures this.store == store && this.logs == logs
    {
      this.store := store;
      this.logs := logs;
    }

    /** `add_checkpoint` without interference: a cosignature is issued exactly when
        both checks pass, and then the row of the origin is the new checkpoint;
        any error leaves the witnessed state of every origin as it was. */
    method AddCheckpoint(req: Request) returns (r: Result<Checkpoint, WitnessError>)
      requires forall o | o in store.rows && store.rows[o].size == 0 :: store.rows[o].root == EmptyRoot
      modifies store
      ensures r == Err(UnknownLog) <==> req.checkpoint.origin !in logs
      ensures r == Err(InvalidSignature) <==> req.checkpoint.origin in logs && !req.authentic
      ensures r == Err(BadRequest)
              <==> req.checkpoint.origin in logs && req.authentic
                   && (req.checkpoint.size > I64_MAX || req.oldSize > req.checkpoint.size)
      ensures !Admissible(logs, req) ==> r.Err? && store.rows == old(store.rows)
      ensures Admissible(logs, req) ==>
                var o, cp := req.checkpoint.origin, req.checkpoint;
                var before := if o in old(store.rows) then old(store.rows)[o] else INITIAL;
                if req.oldSize != before.size then
                  r == Err(Conflict(before.size)) && store.rows == old(store.rows)[o := before]
                else if Extension(before, req) then
                  r == Ok(cp) && store.rows == old(store.rows)[o := WitnessedState(cp.size, cp.root)]
                else
                  r == Err(InvalidProof) && store.rows == old(store.rows)[o := before]
    {
      PrecheckExact(logs, req);
      var pre := Precheck(logs, req);
      if pre.Some? { return Err(pre.value); }
      var state := store.GetOrInit(req.checkpoint.origin);
      DecideExact(state, req);
      var verdict := Decide(state, req);
      if verdict.Some? { return Err(verdict.value); }
      DecideLinks(logs, state, req);
      assert CompareAndSwap(store.rows, state, req.checkpoint).Some?;
      var updated := store.Update(state, req.checkpoint);
      // The error returns that follow in the source need interference: the swap is
      // neither refused nor lost here.  `WitnessProtocol` has the steps that lose it.
      assert updated.Some? && updated.value;
      return Ok(req.checkpoint);
    }
  }
}

/** The witness under concurrency, errors and crashes: every request runs as
    separate steps, any process may stop after any of them, and a stopped process
    loses everything but the database rows. */
module WitnessProtocol {
  import opened Rfc6962
  import opened Consistency
  import opened Wrappers
  import opened Witness

  /** Where a request is between two steps. */
  datatype Pc =
    | Received(req: Request)
    | HasState(req: Request, state: WitnessedState)
    | Committed(cp: Checkpoint)

  /** `history` records the rows that each origin has had, `received` the requests that
      have come in. */
  datatype System = System(rows: Rows, procs: map<nat, Pc>, signed: set<Checkpoint>,
                           history: map<Origin, seq<WitnessedState>>, received: set<Request>)

  datatype Step =
    | Submit(req: Request)
    | Arrive(p: nat, req: Request)  // a request passes the checks before the state is read
    | InitRow(origin: Origin)       // insert, on conflict do nothing
    | ReadRow(p: nat)
    | Commit(p: nat)                // verdict and compare-and-swap
    | Sign(p: nat)
    | Stop(p: nat)                  // an error return or a crash

  ghost predicate Init(s: System) { s == System(map[], map[], {}, map[], {}) }

  ghost predicate Next(logs: set<Origin>, s: System, step: Step, s': System) {
    match step
    case Submit(req) =>
      s' == s.(received := s.received + {req})
    case Arrive(p, req) =>
      && p !in s.procs && req in s.received && Precheck(logs, req).None?
      && s' == s.(procs := s.procs[p := Received(req)])
    case InitRow(o) =>
      s' == if o in s.rows then s
            else s.(rows := s.rows[o := INITIAL], history := s.history[o := [INITIAL]])
    case ReadRow(p) =>
      && p in s.procs && s.procs[p].Received? && s.procs[p].req.checkpoint.origin in s.rows
      && var req := s.procs[p].req;
         s' == s.(procs := s.procs[p := HasState(req, s.rows[req.checkpoint.origin])])
    case Commit(p) =>
      && p in s.procs && s.procs[p].HasState?
      && var HasState(req, state) := s.procs[p];
         var cp := req.checkpoint;
         && Precheck(logs, req).None?
         && Decide(state, req).None?
         && var swap := CompareAndSwap(s.rows, state, cp);
         && swap.Some? && swap.value.0 && cp.origin in s.history
         && s' == s.(rows := swap.value.1, procs := s.procs[p := Committed(cp)],
                     history := s.history[cp.origin := s.history[cp.origin] + [WitnessedState(cp.size, cp.root)]])
    case Sign(p) =>
      && p in s.procs && s.procs[p].Committed?
      && s' == s.(procs := s.procs - {p}, signed := s.signed + {s.procs[p].cp})
    case Stop(p) =>
      s' == s.(procs := s.procs - {p})
  }

  /** Successive witnessed states of one origin. */
  ghost predicate Chain(h: seq<WitnessedState>) {
    && |h| > 0 && h[0] == INITIAL
    && forall i | 0 <= i < |h| - 1 :: Link(h[i], h[i + 1])
  }

  /** The checkpoint was once the witnessed state of its origin. */
  ghost predicate Recorded(s: System, cp: Checkpoint) {
    cp.origin in s.history && WitnessedState(cp.size, cp.root) in s.history[cp.origin]
  }

  ghost predicate Inv(s: System) {
    && s.history.Keys == s.rows.Keys
    && (forall o | o in s.history :: Chain(s.history[o]) && s.history[o][|s.history[o]| - 1] == s.rows[o])
    && (forall p | p in s.procs && s.procs[p].Committed? :: Recorded(s, s.procs[p].cp))
    && forall cp | cp in s.signed :: Recorded(s, cp)
  }

  lemma {:induction false} ChainEmpty(h: seq<WitnessedState>, i: nat)
    requires Chain(h) && i < |h| && h[i].size == 0
    ensures h[i].root == EmptyRoot
  {
    if i > 0 { assert Link(h[i - 1], h[i - 1 + 1]); ChainEmpty(h, i - 1); }
  }

  lemma NextKeepsInv(logs: set<Origin>, s: System, step: Step, s': System)
    requires Inv(s) && Next(logs, s, step, s')
    ensures Inv(s')
    ensures forall o | o in s.history :: o in s'.history && s.history[o] <= s'.history[o]
  {
    hide Chain, Link, Decide, Precheck, Recorded, CompareAndSwap;
    match step {
      case Commit(p) =>
        CommitKeepsInv(logs, s, p, s');
      case InitRow(o) =>
        InitialChain();
        RecordsGrow(s, s');
      case _ =>
        assert s'.history == s.history && s'.rows == s.rows;
        RecordsGrow(s, s');
    }
  }

  lemma CommitKeepsInv(logs: set<Origin>, s: System, p: nat, s': System)
    requires Inv(s) && Next(logs, s, Commit(p), s')
    ensures Inv(s')
    ensures forall o | o in s.history :: o in s'.history && s.history[o] <= s'.history[o]
  {
    hide Link, Decide, Precheck, Mth, Accepts, Chain;
    var HasState(req, state) := s.procs[p];
    CommitExtendsChain(logs, s.history[req.checkpoint.origin], state, req);
    RecordsGrow(s, s');
  }

  lemma CommitExtendsChain(logs: set<Origin>, h: seq<WitnessedState>, state: WitnessedState, req: Request)
    requires Chain(h) && h[|h| - 1] == state && Precheck(logs, req).None? && Decide(state, req).None?
    ensures Chain(h + [WitnessedState(req.checkpoint.size, req.checkpoint.root)])
  {
  }

  lemma InitialChain()
    ensures Chain([INITIAL])
  {
  }

  lemma RecordsGrow(s: System, s': System)
    requires forall o | o in s.history :: o in s'.history && s.history[o] <= s'.history[o]
    ensures forall cp | Recorded(s, cp) :: Recorded(s', cp)
  {
  }

  /** Any two witnessed states of one origin agree, and the later one pins the
      earlier one down if it is the root of any leaves at all. */
  ghost predicate Consistent(a: WitnessedState, b: WitnessedState) {
    && a.size <= b.size
    && (a.size == b.size ==> a.root == b.root)
    && forall d: seq<Hash> | |d| == b.size && Mth(d) == b.root :: a.root == Mth(d[..a.size])
  }

  lemma {:induction false} ChainConsistent(h: seq<WitnessedState>, i: nat, j: nat)
    requires Chain(h) && i <= j < |h|
    ensures Consistent(h[i], h[j])
    decreases j - i
  {
    hide Mth, Accepts;
    if i == j {
      forall d: seq<Hash> | |d| == h[i].size && Mth(d) == h[i].root
        ensures h[i].root == Mth(d[..h[i].size])
      {
        assert d[..h[i].size] == d;
      }
    } else {
      var a, b, c := h[i], h[j - 1], h[j];
      assert Link(h[j - 1], h[j - 1 + 1]);
      ChainConsistent(h, i, j - 1);
      if b.size == 0 { ChainEmpty(h, i); ChainEmpty(h, j - 1); }
      forall d: seq<Hash> | |d| == c.size && Mth(d) == c.root
        ensures a.root == Mth(d[..a.size])
      {
        LinkPrefix(b, c, d);
        assert d[..b.size][..a.size] == d[..a.size];
      }
    }
  }

  lemma LinkPrefix(b: WitnessedState, c: WitnessedState, d: seq<Hash>)
    requires Link(b, c) && |d| == c.size && Mth(d) == c.root
    requires b.size == 0 ==> b.root == EmptyRoot
    ensures b.root == Mth(d[..b.size])
  {
    if b.size == c.size {
      assert d[..b.size] == d;
    } else if b.size == 0 {
      assert d[..0] == [];
    } else {
      var p :| Accepts(b.size, c.size, b.root, c.root, p);
      AcceptsExactly(b.size, d, b.root, p);
    }
  }

  // ---- whole runs ----

  ghost predicate Run(logs: set<Origin>, states: seq<System>, steps: seq<Step>) {
    && |states| == |steps| + 1
    && Init(states[0])
    && forall i | 0 <= i < |steps| :: Next(logs, states[i], steps[i], states[i + 1])
  }

  lemma {:induction false} RunInvariant(logs: set<Origin>, states: seq<System>, steps: seq<Step>, i: nat, j: nat)
    requires Run(logs, states, steps) && i <= j < |states|
    ensures Inv(states[j])
    ensures forall o | o in states[i].history ::
              o in states[j].history && states[i].history[o] <= states[j].history[o]
    decreases j
  {
    hide Next, Inv;
    if j == 0 {
      assert Inv(states[0]) by { InitInv(states[0]); }
    } else {
      RunInvariant(logs, states, steps, if i == j then i - 1 else i, j - 1);
      assert Next(logs, states[j - 1], steps[j - 1], states[j - 1 + 1]);
      NextKeepsInv(logs, states[j - 1], steps[j - 1], states[j]);
    }
  }

  lemma InitInv(s: System)
    requires Init(s)
    ensures Inv(s)
  {
  }

  /** Witness safety over all runs: cosignatures for one origin never conflict,
      and each one is the MTH of a prefix of whatever leaves a larger one, or the
      final witnessed state, is the MTH of. */
  lemma CosignaturesConsistent(logs: set<Origin>, states: seq<System>, steps: seq<Step>, a: Checkpoint, b: Checkpoint)
    requires Run(logs, states, steps)
    requires var s := states[|states| - 1];
             && a in s.signed && a.origin == b.origin && a.size <= b.size
             && (b in s.signed || (b.origin in s.rows && s.rows[b.origin] == WitnessedState(b.size, b.root)))
    ensures a.size == b.size ==> a.root == b.root
    ensures forall d: seq<Hash> | |d| == b.size && Mth(d) == b.root :: a.root == Mth(d[..a.size])
  {
    hide Mth, Chain;
    var s := states[|states| - 1];
    RunInvariant(logs, states, steps, 0, |states| - 1);
    var h := s.history[a.origin];
    assert Recorded(s, a) && Recorded(s, b);
    var i :| 0 <= i < |h| && h[i] == WitnessedState(a.size, a.root);
    var j :| 0 <= j < |h| && h[j] == WitnessedState(b.size, b.root);
    if i <= j {
      ChainConsistent(h, i, j);
    } else {
      ChainConsistent(h, j, i);
      ChainConsistent(h, j, j);
    }
  }

  /** Witnessed sizes never go back, and a size keeps its root. */
  lemma WitnessedSizesGrow(logs: set<Origin>, states: seq<System>, steps: seq<Step>, i: nat, j: nat, o: Origin)
    requires Run(logs, states, steps) && i <= j < |states| && o in states[i].rows
    ensures o in states[j].rows && Consistent(states[i].rows[o], states[j].rows[o])
  {
    RunInvariant(logs, states, steps, i, i);
    RunInvariant(logs, states, steps, i, j);
    var h, h' := states[i].history[o], states[j].history[o];
    assert h'[|h| - 1] == h[|h| - 1];
    ChainConsistent(h', |h| - 1, |h'| - 1);
  }

  // ---- only what logs have signed ----

  ghost predicate Authorized(logs: set<Origin>, s: System) {
    && (forall p | p in s.procs && !s.procs[p].Committed? ::
          s.procs[p].req in s.received && Admissible(logs, s.procs[p].req))
    && (forall p | p in s.procs && s.procs[p].Committed? :: AskedFor(logs, s.received, s.procs[p].cp))
    && (forall cp | cp in s.signed :: AskedFor(logs, s.received, cp))
  }

  lemma NextKeepsAuthorized(logs: set<Origin>, s: System, step: Step, s': System)
    requires Authorized(logs, s) && Next(logs, s, step, s')
    ensures Authorized(logs, s')
  {
    hide AskedFor, Decide, CompareAndSwap, Admissible, Precheck;
    forall cp | AskedFor(logs, s.received, cp) ensures AskedFor(logs, s'.received, cp) {
      AskedMore(logs, s.received, s'.received, cp);
    }
    match step {
      case Arrive(_, req) => PrecheckExact(logs, req);
      case Commit(p) => Asks(logs, s.received, s.procs[p].req);
      case _ =>
    }
  }

  /** In every run, whatever is cosigned was asked for by an authentic request of a known
      log. */
  lemma {:induction false} CosignedAuthentic(logs: set<Origin>, states: seq<System>, steps: seq<Step>, i: nat)
    requires Run(logs, states, steps) && i < |states|
    ensures Authorized(logs, states[i])
    ensures forall cp | cp in states[i].signed :: AskedFor(logs, states[i].received, cp)
    decreases i
  {
    if i > 0 {
      hide Next, AskedFor;
      CosignedAuthentic(logs, states, steps, i - 1);
      assert Next(logs, states[i - 1], steps[i - 1], states[i - 1 + 1]);
      NextKeepsAuthorized(logs, states[i - 1], steps[i - 1], states[i]);
    }
  }

  // ---- a request that nobody disturbs ----

  ghost predicate Path(logs: set<Origin>, states: seq<System>, steps: seq<Step>) {
    && |states| == |steps| + 1
    && forall i | 0 <= i < |steps| :: Next(logs, states[i], steps[i], states[i + 1])
  }

  /** The row that `get_or_init` leaves. */
  function RowOf(s: System, o: Origin): WitnessedState { if o in s.rows then s.rows[o] else INITIAL }

  /** The checks leave the way free: from any state, an admissible request whose old size is
      the witnessed one and whose checkpoint extends the witnessed state can run to its
      cosignature; the row is then the checkpoint, and no other row changes. */
  lemma ServedAlone(logs: set<Origin>, s: System, p: nat, req: Request) returns (states: seq<System>, steps: seq<Step>)
    requires Inv(s) && p !in s.procs && req in s.received && Admissible(logs, req)
    requires var row := RowOf(s, req.checkpoint.origin); req.oldSize == row.size && Extension(row, req)
    ensures Path(logs, states, steps) && states[0] == s
    ensures var last, cp := states[|states| - 1], req.checkpoint;
            && last.signed == s.signed + {cp}
            && last.rows == s.rows[cp.origin := WitnessedState(cp.size, cp.root)]
  {
    hide Chain, Extension, Decide, Precheck;
    var o, row := req.checkpoint.origin, RowOf(s, req.checkpoint.origin);
    PrecheckExact(logs, req);
    DecideExact(row, req);
    if o in s.rows && row.size == 0 { ChainLast(s.history[o]); }
    var s1 := s.(procs := s.procs[p := Received(req)]);
    var s2 := if o in s.rows then s1 else s1.(rows := s.rows[o := INITIAL], history := s.history[o := [INITIAL]]);
    var s3 := s2.(procs := s2.procs[p := HasState(req, row)]);
    assert Next(logs, s, Arrive(p, req), s1) && Next(logs, s1, InitRow(o), s2) && Next(logs, s2, ReadRow(p), s3);
    hide Next, Path;
    var s4, s5 := CommitAlone(logs, s3, p);
    PathStart(logs, s);
    states, steps := PathMore(logs, [s], [], Arrive(p, req), s1);
    states, steps := PathMore(logs, states, steps, InitRow(o), s2);
    states, steps := PathMore(logs, states, steps, ReadRow(p), s3);
    states, steps := PathMore(logs, states, steps, Commit(p), s4);
    states, steps := PathMore(logs, states, steps, Sign(p), s5);
  }

  lemma PathStart(logs: set<Origin>, s: System)
    ensures Path(logs, [s], [])
  {
  }

  lemma PathMore(logs: set<Origin>, states: seq<System>, steps: seq<Step>, step: Step, s': System)
    returns (states': seq<System>, steps': seq<Step>)
    requires Path(logs, states, steps) && Next(logs, states[|states| - 1], step, s')
    ensures Path(logs, states', steps') && states'[0] == states[0] && states'[|states'| - 1] == s'
  {
    hide Next;
    states', steps' := states + [s'], steps + [step];
    forall i | 0 <= i < |steps'| ensures Next(logs, states'[i], steps'[i], states'[i + 1]) {
      if i < |steps| { assert Next(logs, states[i], steps[i], states[i + 1]); }
    }
  }

  /** With the current row in hand a request that passes the checks gets its signature. */
  lemma CommitAlone(logs: set<Origin>, s: System, p: nat) returns (s1: System, s2: System)
    requires p in s.procs && s.procs[p].HasState?
    requires var HasState(req, row) := s.procs[p];
             && Precheck(logs, req).None? && Decide(row, req).None? && (row.size == 0 ==> row.root == EmptyRoot)
             && req.checkpoint.origin in s.history
             && req.checkpoint.origin in s.rows && s.rows[req.checkpoint.origin] == row
    ensures Next(logs, s, Commit(p), s1) && Next(logs, s1, Sign(p), s2)
    ensures var cp := s.procs[p].req.checkpoint;
            s2.signed == s.signed + {cp} && s2.rows == s.rows[cp.origin := WitnessedState(cp.size, cp.root)]
  {
    hide Decide, Precheck, CompareAndSwap;
    var HasState(req, row) := s.procs[p];
    var cp := req.checkpoint;
    SwapGoesThrough(logs, s.rows, row, req);
    s1 := s.(rows := s.rows[cp.origin := WitnessedState(cp.size, cp.root)], procs := s.procs[p := Committed(cp)],
             history := s.history[cp.origin := s.history[cp.origin] + [WitnessedState(cp.size, cp.root)]]);
    s2 := s1.(procs := s1.procs - {p}, signed := s1.signed + {cp});
  }

  lemma ChainLast(h: seq<WitnessedState>)
    requires Chain(h) && h[|h| - 1].size == 0
    ensures h[|h| - 1].root == EmptyRoot
  {
    ChainEmpty(h, |h| - 1);
  }

  /** A licensed update of the current row is a swap. */
  lemma SwapGoesThrough(logs: set<Origin>, rows: Rows, row: WitnessedState, req: Request)
    requires Precheck(logs, req).None? && Decide(row, req).None?
    requires req.checkpoint.origin in rows && rows[req.checkpoint.origin] == row
    requires row.size == 0 ==> row.root == EmptyRoot
    ensures var cp := req.checkpoint;
            CompareAndSwap(rows, row, cp) == Some((true, rows[cp.origin := WitnessedState(cp.size, cp.root)]))
  {
    hide Accepts;
    DecideLinks(logs, row, req);
  }
}

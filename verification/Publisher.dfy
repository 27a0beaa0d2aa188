/** The checkpoint publisher: quorum counting and the retry protocol with external
    witnesses (src/worker.rs:371-505, src/worker.rs:584-598). */
module Publisher {
  import opened Bits
  import opened Rfc6962
  import opened Consistency
  import opened Wrappers
  import opened Witness

  datatype ExternalWitness = ExternalWitness(name: string, url: string, key: nat)

  /** What a call to a witness comes to: a cosignature that verifies under the pinned
      key and carries a name, a conflict with the witness's size, or any failure. */
  datatype Reply = Cosigned(name: string) | Conflicting(size: nat) | Failed

  /** The reply is a cosignature under the expected name. */
  predicate Signs(w: ExternalWitness, r: Reply) { r.Cosigned? && r.name == w.name }

  type Witnesses = seq<ExternalWitness>

  ghost predicate SignsAt(witnesses: Witnesses, replies: seq<Reply>, i: nat) {
    i < |witnesses| == |replies| && Signs(witnesses[i], replies[i])
  }

  /** A signing witness before position i has this key. */
  ghost predicate KeySeen(witnesses: Witnesses, replies: seq<Reply>, i: nat, key: nat) {
    exists j: nat :: j < i && SignsAt(witnesses, replies, j) && witnesses[j].key == key
  }

  /** The positions name signing witnesses with pairwise distinct keys and names. */
  ghost predicate DistinctSigners(witnesses: Witnesses, replies: seq<Reply>, counted: seq<nat>) {
    && (forall i | 0 <= i < |counted| :: SignsAt(witnesses, replies, counted[i]))
    && forall i, j | 0 <= i < j < |counted| ::
         && counted[i] < counted[j]
         && witnesses[counted[i]].key != witnesses[counted[j]].key
         && witnesses[counted[i]].name != witnesses[counted[j]].name
  }

  /** A counted witness has this name. */
  ghost predicate NameCounted(witnesses: Witnesses, counted: seq<nat>, name: string) {
    exists a :: 0 <= a < |counted| && counted[a] < |witnesses| && witnesses[counted[a]].name == name
  }

  /** The witnesses among the first n that count: they sign, no earlier signer has their
      key, and no earlier counted one has their name. */
  ghost function Counted(witnesses: Witnesses, replies: seq<Reply>, n: nat): seq<nat>
    requires n <= |witnesses| == |replies|
  {
    if n == 0 then []
    else
      var counted, w := Counted(witnesses, replies, n - 1), witnesses[n - 1];
      if SignsAt(witnesses, replies, n - 1) && !KeySeen(witnesses, replies, n - 1, w.key)
         && !NameCounted(witnesses, counted, w.name)
      then counted + [n - 1] else counted
  }

  /** How many of the first n witnesses sign. */
  function Signers(witnesses: Witnesses, replies: seq<Reply>, n: nat): nat
    requires n <= |witnesses| == |replies|
  {
    if n == 0 then 0
    else Signers(witnesses, replies, n - 1) + if Signs(witnesses[n - 1], replies[n - 1]) then 1 else 0
  }

  /** The configured witnesses have distinct names and keys (src/main.rs:259-267). */
  ghost predicate DistinctWitnesses(witnesses: Witnesses) {
    forall i, j | 0 <= i < j < |witnesses| ::
      witnesses[i].name != witnesses[j].name && witnesses[i].key != witnesses[j].key
  }

  /** What counts is always a set of signers with distinct keys and names. */
  lemma {:induction false} CountedDistinct(witnesses: Witnesses, replies: seq<Reply>, n: nat)
    requires n <= |witnesses| == |replies|
    ensures DistinctSigners(witnesses, replies, Counted(witnesses, replies, n))
    ensures forall a | 0 <= a < |Counted(witnesses, replies, n)| :: Counted(witnesses, replies, n)[a] < n
  {
    if n > 0 {
      CountedDistinct(witnesses, replies, n - 1);
      var counted, w := Counted(witnesses, replies, n - 1), witnesses[n - 1];
      if Counted(witnesses, replies, n) != counted {
        forall a | 0 <= a < |counted|
          ensures witnesses[counted[a]].key != w.key && witnesses[counted[a]].name != w.name
        {
          assert SignsAt(witnesses, replies, counted[a]);
        }
      }
    }
  }

  /** With distinct witnesses every signer counts. */
  lemma {:induction false} CountedAll(witnesses: Witnesses, replies: seq<Reply>, n: nat)
    requires n <= |witnesses| == |replies| && DistinctWitnesses(witnesses)
    ensures |Counted(witnesses, replies, n)| == Signers(witnesses, replies, n)
  {
    if n > 0 {
      CountedAll(witnesses, replies, n - 1);
      CountedDistinct(witnesses, replies, n - 1);
    }
  }

  /** The count is the number of signing witnesses. */
  ghost predicate CountRight(witnesses: Witnesses, replies: seq<Reply>)
    requires |replies| == |witnesses|
  {
    |Counted(witnesses, replies, |witnesses|)| == Signers(witnesses, replies, |witnesses|)
  }

  /** The guard is exact: the count is right for all replies if and only if the witnesses
      have distinct names and keys. */
  lemma CountRightExactly(witnesses: Witnesses)
    ensures DistinctWitnesses(witnesses)
            <==> forall replies: seq<Reply> | |replies| == |witnesses| :: CountRight(witnesses, replies)
  {
    hide Counted, Signers, DistinctWitnesses;
    if DistinctWitnesses(witnesses) {
      forall replies: seq<Reply> | |replies| == |witnesses|
        ensures CountRight(witnesses, replies)
      {
        CountedAll(witnesses, replies, |witnesses|);
      }
    }
    var all := AllSign(witnesses);
    if CountRight(witnesses, all) {
      SignersOfAll(witnesses, |witnesses|);
      FullCount(witnesses, all, |witnesses|);
      FullCountDistinct(witnesses, all);
    }
  }

  /** Every witness answers with its cosignature. */
  function AllSign(witnesses: Witnesses): (replies: seq<Reply>)
    ensures |replies| == |witnesses|
  {
    seq(|witnesses|, i requires 0 <= i < |witnesses| => Cosigned(witnesses[i].name))
  }

  lemma {:induction false} SignersOfAll(witnesses: Witnesses, n: nat)
    requires n <= |witnesses|
    ensures Signers(witnesses, AllSign(witnesses), n) == n
  {
    if n > 0 { SignersOfAll(witnesses, n - 1); }
  }

  lemma {:induction false} FullCount(witnesses: Witnesses, replies: seq<Reply>, n: nat)
    requires n <= |witnesses| == |replies|
    ensures |Counted(witnesses, replies, n)| <= n
    ensures |Counted(witnesses, replies, n)| == n ==> Counted(witnesses, replies, n) == seq(n, i => i)
  {
    if n > 0 { FullCount(witnesses, replies, n - 1); }
  }

  lemma {:induction false} AllSigners(witnesses: Witnesses, replies: seq<Reply>, n: nat)
    requires n <= |witnesses| == |replies|
    ensures Signers(witnesses, replies, n) <= n
    ensures Signers(witnesses, replies, n) == n <==> forall i | 0 <= i < n :: Signs(witnesses[i], replies[i])
  {
    if n > 0 { AllSigners(witnesses, replies, n - 1); }
  }

  lemma FullCountDistinct(witnesses: Witnesses, replies: seq<Reply>)
    requires |witnesses| == |replies| && Counted(witnesses, replies, |witnesses|) == seq(|witnesses|, i => i)
    ensures DistinctWitnesses(witnesses)
  {
    hide Counted, SignsAt;
    CountedDistinct(witnesses, replies, |witnesses|);
    var counted := Counted(witnesses, replies, |witnesses|);
    forall i, j | 0 <= i < j < |witnesses|
      ensures witnesses[i].name != witnesses[j].name && witnesses[i].key != witnesses[j].key
    {
      assert counted[i] == i && counted[j] == j;
    }
  }

  /** Without that guard the count can fall short: of three signers, of which the first
      and the third have distinct keys and names, one counts. */
  lemma CountFallsShort()
    ensures var ws := [ExternalWitness("a", "", 1), ExternalWitness("a", "", 2), ExternalWitness("b", "", 2)];
            var rs := [Cosigned("a"), Cosigned("a"), Cosigned("b")];
            DistinctSigners(ws, rs, [0, 2]) && Counted(ws, rs, 3) == [0]
  {
    var ws := [ExternalWitness("a", "", 1), ExternalWitness("a", "", 2), ExternalWitness("b", "", 2)];
    var rs := [Cosigned("a"), Cosigned("a"), Cosigned("b")];
    assert Counted(ws, rs, 0) == [];
    assert SignsAt(ws, rs, 0) && Counted(ws, rs, 1) == [0];
    assert NameCounted(ws, [0], "a") by { assert ws[[0][0]].name == "a"; }
    assert SignsAt(ws, rs, 1) && Counted(ws, rs, 2) == [0];
    assert KeySeen(ws, rs, 2, 2);
  }

  /** The state of the counting loop before position i. */
  ghost predicate Counting(witnesses: Witnesses, replies: seq<Reply>, i: nat, count: nat, keys: set<nat>,
                           names: set<string>)
    requires i <= |witnesses| == |replies|
  {
    && count == |Counted(witnesses, replies, i)|
    && (forall key :: key in keys <==> KeySeen(witnesses, replies, i, key))
    && (forall name :: name in names <==> NameCounted(witnesses, Counted(witnesses, replies, i), name))
  }

  lemma KeySeenNext(witnesses: Witnesses, replies: seq<Reply>, i: nat, key: nat)
    requires i < |witnesses| == |replies|
    ensures KeySeen(witnesses, replies, i + 1, key)
            <==> KeySeen(witnesses, replies, i, key) || (SignsAt(witnesses, replies, i) && witnesses[i].key == key)
  {
  }

  lemma NameCountedNext(witnesses: Witnesses, counted: seq<nat>, i: nat, name: string)
    requires i < |witnesses|
    ensures NameCounted(witnesses, counted + [i], name)
            <==> NameCounted(witnesses, counted, name) || witnesses[i].name == name
  {
    var more := counted + [i];
    assert more[|counted|] == i;
    if NameCounted(witnesses, counted, name) {
      var a :| 0 <= a < |counted| && counted[a] < |witnesses| && witnesses[counted[a]].name == name;
      assert more[a] == counted[a];
    }
  }

  /** One iteration: the key is recorded first, and the name only if the key is new. */
  lemma CountStep(witnesses: Witnesses, replies: seq<Reply>, i: nat, count: nat, keys: set<nat>, names: set<string>)
    requires i < |witnesses| == |replies| && Counting(witnesses, replies, i, count, keys, names)
    ensures var w := witnesses[i];
            if !Signs(w, replies[i]) || w.key in keys then Counting(witnesses, replies, i + 1, count, keys, names)
            else if w.name in names then Counting(witnesses, replies, i + 1, count, keys + {w.key}, names)
            else Counting(witnesses, replies, i + 1, count + 1, keys + {w.key}, names + {w.name})
  {
    hide KeySeen, NameCounted;
    forall key ensures KeySeen(witnesses, replies, i + 1, key)
                       <==> KeySeen(witnesses, replies, i, key)
                            || (SignsAt(witnesses, replies, i) && witnesses[i].key == key) {
      KeySeenNext(witnesses, replies, i, key);
    }
    var counted := Counted(witnesses, replies, i);
    forall name ensures NameCounted(witnesses, counted + [i], name)
                        <==> NameCounted(witnesses, counted, name) || witnesses[i].name == name {
      NameCountedNext(witnesses, counted, i, name);
    }
  }

  lemma NothingCounted(witnesses: Witnesses, replies: seq<Reply>)
    requires |witnesses| == |replies|
    ensures Counting(witnesses, replies, 0, 0, {}, {})
  {
  }

  lemma CountingDone(witnesses: Witnesses, replies: seq<Reply>, count: nat, keys: set<nat>, names: set<string>)
    requires |witnesses| == |replies| && Counting(witnesses, replies, |witnesses|, count, keys, names)
    ensures count == |Counted(witnesses, replies, |witnesses|)|
  {
  }

  /** The number of external signatures that publication takes. */
  function QuorumOf(witnesses: Witnesses, quorum: Option<nat>): nat {
    if quorum.Some? then quorum.value else |witnesses|
  }

  ghost predicate QuorumReached(witnesses: Witnesses, replies: seq<Reply>, quorum: Option<nat>) {
    |replies| == |witnesses| && |Counted(witnesses, replies, |witnesses|)| >= QuorumOf(witnesses, quorum)
  }

  /** The size hint that one reply leaves: the published size after a cosignature, the
      witness's own size after a conflict. */
  function HintAfter(sizes: map<string, nat>, w: ExternalWitness, r: Reply, size: nat): map<string, nat> {
    if Signs(w, r) then sizes[w.url := size]
    else if r.Conflicting? then sizes[w.url := r.size]
    else sizes
  }

  function HintsAfter(sizes: map<string, nat>, witnesses: seq<ExternalWitness>, replies: seq<Reply>, size: nat, n: nat)
    : map<string, nat>
    requires |replies| == |witnesses| && n <= |witnesses|
  {
    if n == 0 then sizes
    else HintAfter(HintsAfter(sizes, witnesses, replies, size, n - 1), witnesses[n - 1], replies[n - 1], size)
  }

  /** The reply says where the witness stands. */
  predicate Informs(w: ExternalWitness, r: Reply) { Signs(w, r) || r.Conflicting? }

  /** No reply from position i on says where the witness under this URL stands. */
  ghost predicate SilentFrom(witnesses: Witnesses, replies: seq<Reply>, i: nat, n: nat, url: string)
    requires n <= |witnesses| == |replies|
  {
    forall j | i <= j < n :: witnesses[j].url == url ==> !Informs(witnesses[j], replies[j])
  }

  /** Without an informative reply a URL keeps its hint. */
  lemma {:induction false} HintKept(sizes: map<string, nat>, witnesses: Witnesses, replies: seq<Reply>, size: nat,
                                    n: nat, url: string)
    requires n <= |witnesses| == |replies| && SilentFrom(witnesses, replies, 0, n, url)
    ensures var after := HintsAfter(sizes, witnesses, replies, size, n);
            (url in after <==> url in sizes) && (url in sizes ==> after[url] == sizes[url])
  {
    if n > 0 { HintKept(sizes, witnesses, replies, size, n - 1, url); }
  }

  /** Otherwise it carries what the last one said: the published size for a cosignature, the
      witness's own size for a conflict. */
  lemma {:induction false} HintSet(sizes: map<string, nat>, witnesses: Witnesses, replies: seq<Reply>, size: nat,
                                   n: nat, i: nat)
    requires i < n <= |witnesses| == |replies| && Informs(witnesses[i], replies[i])
    requires SilentFrom(witnesses, replies, i + 1, n, witnesses[i].url)
    ensures var after, url := HintsAfter(sizes, witnesses, replies, size, n), witnesses[i].url;
            url in after && after[url] == if replies[i].Conflicting? then replies[i].size else size
  {
    if i < n - 1 { HintSet(sizes, witnesses, replies, size, n - 1, i); }
  }

  class Publisher {
    var sizes: map<string, nat>           // last known size of each witness, by URL
    var lastPublished: Option<(nat, Hash)>

    constructor ()
      ensures sizes == map[] && lastPublished == None
    {
      sizes := map[];
      lastPublished := None;
    }

    /** `publish_checkpoint` on the state (size, root) with the replies of the
        witnesses.  A changed checkpoint is written exactly when the count reaches the
        quorum. */
    method PublishCheckpoint(size: nat, root: Hash, witnesses: seq<ExternalWitness>, replies: seq<Reply>,
                             quorum: Option<nat>)
      returns (written: bool)
      requires |replies| == |witnesses|
      modifies this
      ensures old(lastPublished) == Some((size, root)) ==> !written && sizes == old(sizes)
      ensures old(lastPublished) != Some((size, root)) ==>
                && (quorum.Some? ==> (written <==> |Counted(witnesses, replies, |witnesses|)| >= quorum.value))
                && (quorum.None? ==> (written <==> |Counted(witnesses, replies, |witnesses|)| == |witnesses|))
                && (DistinctWitnesses(witnesses) && quorum.Some? ==>
                      (written <==> Signers(witnesses, replies, |witnesses|) >= quorum.value))
                && (DistinctWitnesses(witnesses) && quorum.None? ==>
                      (written <==> forall i | 0 <= i < |witnesses| :: Signs(witnesses[i], replies[i])))
                && sizes == HintsAfter(old(sizes), witnesses, replies, size, |witnesses|)
      ensures lastPublished == if written then Some((size, root)) else old(lastPublished)
    {
      written := false;
      if lastPublished == Some((size, root)) { return; }
      var count := 0;
      var signedKeys: set<nat>, signedNames: set<string> := {}, {};
      NothingCounted(witnesses, replies);
      hide Counting;
      for i := 0 to |witnesses|
        invariant lastPublished == old(lastPublished)
        invariant sizes == HintsAfter(old(sizes), witnesses, replies, size, i)
        invariant Counting(witnesses, replies, i, count, signedKeys, signedNames)
      {
        CountStep(witnesses, replies, i, count, signedKeys, signedNames);
        var w := witnesses[i];
        match replies[i] {
          case Cosigned(name) =>
            if name == w.name {
              sizes := sizes[w.url := size];
              if w.key !in signedKeys {
                signedKeys := signedKeys + {w.key};
                if w.name !in signedNames {
                  signedNames := signedNames + {w.name};
                  count := count + 1;
                }
              }
            }
          case Conflicting(known) =>
            sizes := sizes[w.url := known];
          case Failed =>
        }
      }
      CountingDone(witnesses, replies, count, signedKeys, signedNames);
      if DistinctWitnesses(witnesses) { CountedAll(witnesses, replies, |witnesses|); }
      FullCount(witnesses, replies, |witnesses|);
      AllSigners(witnesses, replies, |witnesses|);
      if count < QuorumOf(witnesses, quorum) { return; }
      lastPublished := Some((size, root));
      written := true;
    }
  }

  // ---- the retry protocol of one submitter and one witness ----

  /** An honest log of leaf hashes of which the first n are integrated, the
      witnessed state, and the size that the publisher believes the witness has. */
  datatype Link = Link(leaves: seq<Hash>, n: nat, witnessed: WitnessedState, hint: nat)

  datatype Event =
    | Integrate(more: seq<Hash>, n: nat)
    | Attempt(delivered: bool)  // whether the reply reaches the publisher
    | Restart                   // the publisher loses its hints

  /** The request that the publisher builds from its hint. */
  function RequestFor(s: Link): Request
    requires s.hint <= s.n <= |s.leaves|
  {
    var d := s.leaves[..s.n];
    var proof := if s.hint != 0 && s.hint != s.n then ConsistencyProof(s.hint, d) else [];
    Request(s.hint, proof, Checkpoint("log", s.n, Mth(d)), true)
  }

  ghost predicate LinkOk(s: Link) {
    && s.hint <= s.witnessed.size <= s.n <= |s.leaves|
    && s.n <= I64_MAX
    && s.witnessed.root == Mth(s.leaves[..s.witnessed.size])
  }

  function After(s: Link, e: Event): Link
    requires s.hint <= s.n <= |s.leaves|
  {
    match e
    case Integrate(more, n) => s.(leaves := s.leaves + more, n := n)
    case Restart => s.(hint := 0)
    case Attempt(delivered) =>
      var req := RequestFor(s);
      match Decide(s.witnessed, req)
      case None =>
        s.(witnessed := WitnessedState(s.n, req.checkpoint.root), hint := if delivered then s.n else s.hint)
      case Some(Conflict(size)) => s.(hint := if delivered then size else s.hint)
      case Some(_) => s
  }

  predicate Allowed(s: Link, e: Event) {
    e.Integrate? ==> s.n <= e.n <= |s.leaves| + |e.more| && e.n <= I64_MAX
  }

  /** An attempt succeeds exactly when the hint is right; otherwise the witness
      answers with its size and nothing changes there. */
  lemma AttemptOutcome(s: Link)
    requires LinkOk(s)
    ensures Precheck({"log"}, RequestFor(s)).None?
    ensures Decide(s.witnessed, RequestFor(s))
            == if s.hint == s.witnessed.size then None else Some(Conflict(s.witnessed.size))
  {
    var d, m := s.leaves[..s.n], s.witnessed.size;
    assert d[..m] == s.leaves[..m];
    AcceptsExactly(m, d, s.witnessed.root, ConsistencyProof(m, d));
    if m == s.n { assert d[..m] == d; }
    if m == 0 { assert s.leaves[..0] == []; }
  }

  /** What the publisher makes of a verdict that reaches it. */
  function ReplyTo(w: ExternalWitness, verdict: Option<WitnessError>): Reply {
    match verdict
    case None => Cosigned(w.name)
    case Some(Conflict(size)) => Conflicting(size)
    case Some(_) => Failed
  }

  /** The hint that a round of the publisher starts from. */
  function HintOf(sizes: map<string, nat>, url: string): nat { if url in sizes then sizes[url] else 0 }

  /** The retry protocol is the publisher's: what `PublishCheckpoint` leaves under the
      URL of a witness is the hint of the protocol after an attempt, and no other URL is
      touched.  A reply that is lost leaves everything as it was. */
  lemma HintFollowsReply(s: Link, sizes: map<string, nat>, w: ExternalWitness)
    requires LinkOk(s) && HintOf(sizes, w.url) == s.hint
    ensures var after := HintAfter(sizes, w, ReplyTo(w, Decide(s.witnessed, RequestFor(s))), s.n);
            && HintOf(after, w.url) == After(s, Attempt(true)).hint
            && forall url | url != w.url :: HintOf(after, url) == HintOf(sizes, url)
    ensures var after := HintAfter(sizes, w, Failed, s.n);
            after == sizes && HintOf(after, w.url) == After(s, Attempt(false)).hint
  {
    hide Decide, Mth;
  }

  /** The hint never exceeds the witnessed size, which never exceeds the integrated
      size, over growth, lost replies and restarts. */
  lemma EventKeepsLink(s: Link, e: Event)
    requires LinkOk(s) && Allowed(s, e)
    ensures LinkOk(After(s, e))
    ensures s.witnessed.size <= After(s, e).witnessed.size
  {
    hide Mth;
    AttemptOutcome(s);
    if e.Integrate? {
      assert (s.leaves + e.more)[..s.witnessed.size] == s.leaves[..s.witnessed.size];
    }
  }

  ghost predicate LinkRun(states: seq<Link>, events: seq<Event>) {
    && |states| == |events| + 1
    && LinkOk(states[0])
    && forall i | 0 <= i < |events| ::
         Allowed(states[i], events[i]) && (LinkOk(states[i]) ==> states[i + 1] == After(states[i], events[i]))
  }

  lemma {:induction false} LinkRunOk(states: seq<Link>, events: seq<Event>, i: nat)
    requires LinkRun(states, events) && i < |states|
    ensures LinkOk(states[i])
  {
    hide Mth, After;
    if i > 0 {
      LinkRunOk(states, events, i - 1);
      assert Allowed(states[i - 1], events[i - 1]) && states[i - 1 + 1] == After(states[i - 1], events[i - 1]);
      EventKeepsLink(states[i - 1], events[i - 1]);
    }
  }

  predicate InStep(s: Link) { s.hint == s.witnessed.size }

  /** Events that keep a right hint right: growth, a lost reply that had no news, and a
      restart of a publisher whose hint is 0 anyway. */
  predicate Quiet(s: Link, e: Event) {
    match e
    case Integrate(_, _) => true
    case Attempt(delivered) => delivered || s.n == s.hint
    case Restart => s.hint == 0
  }

  /** A delivered reply puts the hint right; nothing else does. */
  lemma HintInStep(s: Link, e: Event)
    requires LinkOk(s) && Allowed(s, e)
    ensures InStep(After(s, e)) <==> e == Attempt(true) || (InStep(s) && Quiet(s, e))
  {
    hide Mth;
    AttemptOutcome(s);
  }

  lemma {:induction false} InStepSince(states: seq<Link>, events: seq<Event>, i: nat, j: nat)
    requires LinkRun(states, events) && i < j <= |events| && events[i] == Attempt(true)
    requires forall k | i < k < j :: events[k] != Attempt(true)
    ensures InStep(states[j]) <==> forall k | i < k < j :: Quiet(states[k], events[k])
    decreases j
  {
    hide After, Mth;
    var s, e := states[j - 1], events[j - 1];
    LinkRunOk(states, events, j - 1);
    assert Allowed(s, e) && states[j - 1 + 1] == After(s, e);
    HintInStep(s, e);
    if i < j - 1 { InStepSince(states, events, i, j - 1); }
  }

  /** Of two delivered attempts the second is accepted, from every reachable state and
      whatever the hint was, if and only if everything in between was quiet; then the
      witness is at the integrated size. */
  lemma SecondAttemptAccepted(states: seq<Link>, events: seq<Event>, i: nat, j: nat)
    requires LinkRun(states, events) && i < j < |events| && events[i] == events[j] == Attempt(true)
    requires forall k | i < k < j :: events[k] != Attempt(true)
    ensures LinkOk(states[j])
    ensures Decide(states[j].witnessed, RequestFor(states[j])).None?
            <==> forall k | i < k < j :: Quiet(states[k], events[k])
    ensures (forall k | i < k < j :: Quiet(states[k], events[k])) ==>
              var s := states[j];
              states[j + 1].witnessed == WitnessedState(s.n, Mth(s.leaves[..s.n])) && states[j + 1].hint == s.n
  {
    hide Mth, Decide;
    LinkRunOk(states, events, j);
    InStepSince(states, events, i, j);
    AttemptOutcome(states[j]);
    assert states[j + 1] == After(states[j], events[j]);
  }

  /** A run in which the second delivered attempt conflicts: the reply to an attempt with
      new entries is lost in between. */
  lemma ConflictRun(a: Hash, b: Hash) returns (states: seq<Link>, events: seq<Event>)
    ensures LinkRun(states, events) && |events| == 4
    ensures events[0] == events[3] == Attempt(true) && events[1] == Integrate([b], 2) && events[2] == Attempt(false)
    ensures LinkOk(states[3]) && Decide(states[3].witnessed, RequestFor(states[3])) == Some(Conflict(2))
  {
    hide Mth, Decide, Precheck;
    var s0 := Link([a], 1, INITIAL, 0);
    assert LinkOk(s0) by { NothingWitnessed(a); }
    events := [Attempt(true), Integrate([b], 2), Attempt(false), Attempt(true)];
    AttemptOutcome(s0);
    EventKeepsLink(s0, events[0]);
    var s1 := After(s0, events[0]);
    EventKeepsLink(s1, events[1]);
    var s2 := After(s1, events[1]);
    AttemptOutcome(s2);
    EventKeepsLink(s2, events[2]);
    var s3 := After(s2, events[2]);
    AttemptOutcome(s3);
    var s4 := After(s3, events[3]);
    assert s3.hint == 1 && s3.witnessed.size == 2;
    states := [s0, s1, s2, s3, s4];
    hide After, LinkOk;
    RunOfFour(states, events);
  }

  lemma NothingWitnessed(a: Hash)
    ensures LinkOk(Link([a], 1, INITIAL, 0))
  {
    assert [a][..0] == [];
  }

  lemma RunOfFour(states: seq<Link>, events: seq<Event>)
    requires |states| == 5 && |events| == 4 && LinkOk(states[0])
    requires forall i | 0 <= i < 4 :: Allowed(states[i], events[i])
    requires LinkOk(states[1]) && LinkOk(states[2]) && LinkOk(states[3])
    requires states[1] == After(states[0], events[0]) && states[2] == After(states[1], events[1])
    requires states[3] == After(states[2], events[2]) && states[4] == After(states[3], events[3])
    ensures LinkRun(states, events)
  {
    hide After, Mth;
    forall i | 0 <= i < 4 ensures LinkOk(states[i]) ==> states[i + 1] == After(states[i], events[i]) {
      if i == 0 {} else if i == 1 {} else if i == 2 {} else {}
    }
  }
}
